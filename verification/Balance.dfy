/** The load balancer's arithmetic (lb/loadbalance.go) on values: one item, weighted choice, runs. */
module Balance {
  import opened Octets

  datatype Item = Item(current: int, base: int, mark: bool, errtime: int, lastFail: int, extra: string)

  /** Go's integer division, which truncates toward zero. */
  function GoDiv(a: int, b: int): int
    requires b > 0
  {
    if a >= 0 then a / b else -((-a) / b)
  }

  function NewItem(weight: int, extra: string): Item {
    Item(if weight <= 0 then 1 else weight, weight, false, 0, 0, extra)
  }

  /** What `Get` does to the item it returns. */
  function Picked(v: Item): Item {
    var c := if v.current > GoDiv(v.base, 2) then v.current - 1 else v.current;
    v.(current := if c <= 0 then 1 else c)
  }

  function Succeeded(v: Item): Item {
    var c := if v.mark || v.current <= GoDiv(v.base, 2) then v.current + GoDiv(v.base, 5) + 1 else v.current + 1;
    v.(mark := false, current := if c > v.base then v.base else c)
  }

  function FailedOnce(v: Item, maxErr: int, now: int): Item {
    if v.mark then v
    else
      var e := v.errtime + 1;
      var c := GoDiv(v.current, 2) - GoDiv(v.base, 10);
      Item(if c <= 0 then GoDiv(v.base, 10) + 1 else c, v.base, e >= maxErr, e,
           if e >= maxErr then now else v.lastFail, v.extra)
  }

  predicate Expired(v: Item, maxFail: int, now: int) {
    v.mark && v.lastFail + maxFail < now
  }

  function Scanned(v: Item, maxFail: int, now: int): Item {
    if Expired(v, maxFail, now) then Item(GoDiv(v.base, 2) + 1, v.base, false, 0, 0, v.extra) else v
  }

  /** The weight an unmarked item should have: between 1 and its base. */
  predicate Sound(v: Item) {
    1 <= v.current <= v.base
  }

  /** Every operation keeps the weight of an item added with a weight of at least 1 in its bounds. */
  lemma StepsKeepSound(v: Item, weight: int, extra: string, maxErr: int, maxFail: int, now: int)
    ensures weight >= 1 ==> Sound(NewItem(weight, extra))
    ensures Sound(v) ==> Sound(Picked(v)) && Sound(Succeeded(v)) && Sound(FailedOnce(v, maxErr, now)) && Sound(Scanned(v, maxFail, now))
  {
  }

  /** With a smaller weight the bound is lost at every success, after which the weight is positive
      exactly when the base is; being picked always makes it positive again. */
  lemma SuccessNeedsPositiveBase(v: Item)
    requires v.current >= 0
    ensures Succeeded(v).current >= 1 <==> v.base >= 1
    ensures v.base == 0 ==> Succeeded(v).current == 0 && Picked(Succeeded(v)).current == 1
  {
  }

  /** A success takes an item back into service without forgetting its failures: the next failure
      marks it exactly when it makes the failures counted so far enough, whether the item was marked
      or not. For an item marked by its failures that is at once. */
  lemma SuccessForgetsNoFailure(v: Item, maxErr: int, now: int)
    ensures !Succeeded(v).mark && Succeeded(v).errtime == v.errtime
    ensures FailedOnce(Succeeded(v), maxErr, now).mark <==> v.errtime + 1 >= maxErr
  {
  }

  // ---------- sums over a map, in any order ----------

  ghost function SumOver(w: map<string, int>, ks: set<string>): int
    requires ks <= w.Keys
  {
    if ks == {} then 0
    else
      var k :| k in ks;
      w[k] + SumOver(w, ks - {k})
  }

  /** The sum does not depend on which key is taken first. */
  lemma {:induction false} SumTakes(w: map<string, int>, ks: set<string>, k: string)
    requires ks <= w.Keys && k in ks
    ensures SumOver(w, ks) == w[k] + SumOver(w, ks - {k})
    decreases ks
  {
    var f :| f in ks && SumOver(w, ks) == w[f] + SumOver(w, ks - {f});
    if f != k {
      SumTakes(w, ks - {f}, k);
      SumTakes(w, ks - {k}, f);
      assert ks - {f} - {k} == ks - {k} - {f};
    }
  }

  lemma {:induction false} SumOfPositives(w: map<string, int>, ks: set<string>)
    requires ks <= w.Keys && forall k :: k in ks ==> w[k] >= 1
    ensures SumOver(w, ks) >= 0
    ensures SumOver(w, ks) == 0 <==> ks == {}
    decreases ks
  {
    if ks != {} {
      var k :| k in ks;
      SumTakes(w, ks, k);
      SumOfPositives(w, ks - {k});
    }
  }

  // ---------- the weighted choice ----------

  function Sum(cs: seq<int>): int {
    if cs == [] then 0 else cs[0] + Sum(cs[1..])
  }

  /** The choosing loop over the weights in its order of visit: the index at which the remaining draw
      is used up. */
  function Choose(cs: seq<int>, rnd: int): (r: Option<nat>)
    ensures r.Some? ==> r.value < |cs|
  {
    if cs == [] then None
    else if rnd - cs[0] <= 0 then Some(0)
    else
      match Choose(cs[1..], rnd - cs[0])
      case None => None
      case Some(i) => Some(i + 1)
  }

  /** No draw below the total runs off the end, whatever the weights. */
  lemma {:induction false} ChooseNeverPanics(cs: seq<int>, rnd: int)
    requires 0 <= rnd < Sum(cs)
    ensures Choose(cs, rnd).Some?
  {
    if rnd - cs[0] > 0 {
      ChooseNeverPanics(cs[1..], rnd - cs[0]);
    }
  }

  /** The choice is settled by the items visited: what comes later in the order does not matter. */
  lemma {:induction false} ChooseIgnoresRest(cs: seq<int>, more: seq<int>, rnd: int)
    requires Choose(cs, rnd).Some?
    ensures Choose(cs + more, rnd) == Choose(cs, rnd)
  {
    if rnd - cs[0] > 0 {
      ChooseIgnoresRest(cs[1..], more, rnd - cs[0]);
      assert (cs + more)[1..] == cs[1..] + more;
    }
  }

  ghost predicate AllPositive(cs: seq<int>) {
    forall i :: 0 <= i < |cs| ==> cs[i] >= 1
  }

  /** The draws that pick item i, from 0 (or just above its predecessors' weights) to the sum up to it. */
  lemma {:induction false} ChosenInterval(cs: seq<int>, rnd: int, i: nat)
    requires AllPositive(cs) && i < |cs|
    ensures Choose(cs, rnd) == Some(i) <==> (i == 0 || Sum(cs[..i]) < rnd) && rnd <= Sum(cs[..i + 1])
  {
    var d := rnd - cs[0];
    assert cs[..i + 1][1..] == cs[1..][..i];
    if i > 0 {
      assert cs[..i][1..] == cs[1..][..i - 1];
      SumNonNegative(cs[1..][..i - 1]);
      ChosenInterval(cs[1..], d, i - 1);
    }
  }

  lemma {:induction false} SumNonNegative(cs: seq<int>)
    requires AllPositive(cs)
    ensures Sum(cs) >= |cs|
  {
    if cs != [] { SumNonNegative(cs[1..]); }
  }

  lemma {:induction false} SumAppend(a: seq<int>, b: seq<int>)
    ensures Sum(a + b) == Sum(a) + Sum(b)
  {
    if a == [] {
      assert a + b == b;
    } else {
      SumAppend(a[1..], b);
      assert (a + b)[1..] == a[1..] + b;
    }
  }

  lemma SumParts(cs: seq<int>, i: nat)
    requires i < |cs|
    ensures Sum(cs[..i + 1]) == Sum(cs[..i]) + cs[i]
    ensures Sum(cs) == Sum(cs[..i + 1]) + Sum(cs[i + 1..])
  {
    assert cs[..i + 1] == cs[..i] + [cs[i]];
    SumAppend(cs[..i], [cs[i]]);
    assert cs == cs[..i + 1] + cs[i + 1..];
    SumAppend(cs[..i + 1], cs[i + 1..]);
  }

  /** Among weights none of which is negative, an item of weight 0 is picked by draw 0 when it is visited
      first, and never otherwise. */
  lemma {:induction false} ZeroWeightPickedIff(cs: seq<int>, i: nat, draw: int)
    requires i < |cs| && cs[i] == 0 && draw >= 0
    requires forall j :: 0 <= j < |cs| ==> cs[j] >= 0
    ensures Choose(cs, draw) == Some(i) <==> i == 0 && draw == 0
  {
    if i > 0 && draw - cs[0] > 0 {
      ZeroWeightPickedIff(cs[1..], i - 1, draw - cs[0]);
    }
  }

  /** The draws of `Intn(total)` that return item i in the given order. */
  ghost function Draws(cs: seq<int>, i: nat): set<int> {
    set r: int | 0 <= r < Sum(cs) && Choose(cs, r) == Some(i)
  }

  /** An item's share of the draws is its weight, but for the first item of the order, which has one
      more, and the last, which has one less. */
  lemma DrawsMatchWeight(cs: seq<int>, i: nat)
    requires AllPositive(cs) && i < |cs|
    ensures |Draws(cs, i)| == cs[i] + (if i == 0 then 1 else 0) - (if i == |cs| - 1 then 1 else 0)
  {
    SumParts(cs, i);
    SumNonNegative(cs[..i]);
    SumNonNegative(cs[i + 1..]);
    var total := Sum(cs);
    var lo := if i == 0 then 0 else Sum(cs[..i]) + 1;
    var hi := if i == |cs| - 1 then total else Sum(cs[..i + 1]) + 1;
    assert i == |cs| - 1 ==> cs[i + 1..] == [] && Sum(cs[i + 1..]) == 0;
    assert i == 0 ==> cs[..i] == [];
    Interval(lo, hi);
    forall r: int ensures r in Draws(cs, i) <==> r in Between(lo, hi) {
      ChosenInterval(cs, r, i);
    }
    assert Draws(cs, i) == Between(lo, hi);
  }

  /** The integers from lo up to, not including, hi. */
  ghost function Between(lo: int, hi: int): set<int>
    decreases hi - lo
  {
    if lo >= hi then {} else Between(lo, hi - 1) + {hi - 1}
  }

  lemma {:induction false} Interval(lo: int, hi: int)
    requires lo <= hi
    ensures |Between(lo, hi)| == hi - lo
    ensures forall r :: r in Between(lo, hi) <==> lo <= r < hi
    decreases hi - lo
  {
    if lo < hi {
      Interval(lo, hi - 1);
    }
  }

  /** The shares of the first n items. */
  ghost function Shares(cs: seq<int>, n: nat): int
    requires n <= |cs|
  {
    if n == 0 then 0 else Shares(cs, n - 1) + |Draws(cs, n - 1)|
  }

  /** Together the shares are all the draws. */
  lemma SharesSumToTotal(cs: seq<int>)
    requires AllPositive(cs)
    ensures Shares(cs, |cs|) == Sum(cs)
  {
    if cs != [] {
      SharesUpTo(cs, |cs|);
      assert cs[..|cs|] == cs;
    }
  }

  lemma {:induction false} SharesUpTo(cs: seq<int>, n: nat)
    requires AllPositive(cs) && 1 <= n <= |cs|
    ensures Shares(cs, n) == Sum(cs[..n]) + 1 - (if n == |cs| then 1 else 0)
  {
    DrawsMatchWeight(cs, n - 1);
    SumParts(cs, n - 1);
    if n > 1 {
      SharesUpTo(cs, n - 1);
    } else {
      assert cs[..0] == [];
    }
  }

  // ---------- runs ----------

  /** The calls on a balancer, in the order its lock serialises them. A choice names the item it
      returned. */
  datatype Op = Add(addr: string, weight: int, extra: string) | Get(chosen: string) | Update(addr: string, result: bool, now: int) | Scan(now: int)

  type Table = map<string, Item>

  function Apply(t: Table, op: Op, maxErr: int, maxFail: int): Table {
    match op
    case Add(addr, weight, extra) => t[addr := NewItem(weight, extra)]
    case Get(addr) => if addr in t && !t[addr].mark then t[addr := Picked(t[addr])] else t
    case Update(addr, result, now) =>
      if addr !in t then t
      else t[addr := if result then Succeeded(t[addr]) else FailedOnce(t[addr], maxErr, now)]
    case Scan(now) => map k | k in t :: Scanned(t[k], maxFail, now)
  }

  function Run(ops: seq<Op>, maxErr: int, maxFail: int): Table {
    if ops == [] then map[] else Apply(Run(ops[..|ops| - 1], maxErr, maxFail), ops[|ops| - 1], maxErr, maxFail)
  }

  /** A run starts empty and takes its calls in order. */
  lemma RunIs(ops: seq<Op>, op: Op, maxErr: int, maxFail: int)
    ensures Run([], maxErr, maxFail) == map[]
    ensures Run(ops + [op], maxErr, maxFail) == Apply(Run(ops, maxErr, maxFail), op, maxErr, maxFail)
  {
    assert (ops + [op])[..|ops|] == ops;
  }

  /** Failed updates of an address since it was last added or recovered by a scan. */
  function Failures(ops: seq<Op>, addr: string, maxErr: int, maxFail: int): nat {
    if ops == [] then 0
    else
      var before, op := ops[..|ops| - 1], ops[|ops| - 1];
      var n, t := Failures(before, addr, maxErr, maxFail), Run(before, maxErr, maxFail);
      match op
      case Add(a, _, _) => if a == addr then 0 else n
      case Update(a, result, _) => if a == addr && addr in t && !result then n + 1 else n
      case Scan(now) => if addr in t && Expired(t[addr], maxFail, now) then 0 else n
      case Get(_) => n
  }

  ghost predicate ValidWeights(ops: seq<Op>) {
    forall i :: 0 <= i < |ops| && ops[i].Add? ==> ops[i].weight >= 1
  }

  /** In every run: each weight lies between 1 and its base, and an item is marked only after at least
      maxErr failed updates since its last addition or recovery. */
  lemma {:induction false} RunInvariant(ops: seq<Op>, maxErr: int, maxFail: int, addr: string)
    requires ValidWeights(ops)
    ensures var t := Run(ops, maxErr, maxFail);
            addr in t ==>
              && Sound(t[addr])
              && 0 <= t[addr].errtime <= Failures(ops, addr, maxErr, maxFail)
              && (t[addr].mark ==> Failures(ops, addr, maxErr, maxFail) >= maxErr)
              && (t[addr].mark ==> t[addr].errtime >= maxErr)
  {
    if ops != [] {
      RunInvariant(ops[..|ops| - 1], maxErr, maxFail, addr);
    }
  }

  ghost predicate AllSound(t: Table) {
    forall k :: k in t ==> Sound(t[k])
  }

  // ---------- what a call does to its item ----------

  /** Truncation: the remainder has the sign of the dividend. */
  lemma GoDivTruncates(a: int, b: int)
    requires b > 0
    ensures var r := a - b * GoDiv(a, b); -b < r < b && (a >= 0 ==> r >= 0) && (a <= 0 ==> r <= 0)
  {
  }

  /** No call but an addition changes which addresses there are, or any item but its own. */
  ghost predicate OnlyAt(t: Table, t': Table, addr: string) {
    t'.Keys == t.Keys && forall k :: k in t && k != addr ==> t'[k] == t[k]
  }

  /** An addition replaces whatever the address had: full weight, at least 1, and a clean record. */
  lemma AdditionIs(t: Table, addr: string, weight: int, extra: string, maxErr: int, maxFail: int)
    ensures var t' := Apply(t, Add(addr, weight, extra), maxErr, maxFail);
            && t'.Keys == t.Keys + {addr} && (forall k :: k in t && k != addr ==> t'[k] == t[k])
            && t'[addr].base == weight && t'[addr].current == (if weight > 1 then weight else 1)
            && !t'[addr].mark && t'[addr].errtime == 0 && t'[addr].lastFail == 0 && t'[addr].extra == extra
  {
  }

  /** A failure counts, halves the weight and takes off a tenth of the base, or sets the weight just above
      that tenth where nothing would be left; it marks the item from `maxErr` failures on. So it lowers the
      weight exactly from above a tenth of the base plus 1, raises it exactly from a tenth of the base or
      less, and never leaves more than half of it or that much. A marked item stays as it is. */
  lemma FailureCosts(t: Table, addr: string, now: int, maxErr: int, maxFail: int)
    requires addr in t && Sound(t[addr])
    ensures var t' := Apply(t, Update(addr, false, now), maxErr, maxFail); var v, w := t[addr], t'[addr];
            && OnlyAt(t, t', addr) && (v.mark ==> w == v)
            && (!v.mark ==>
                  && w.current == (if v.current / 2 > v.base / 10 then v.current / 2 - v.base / 10 else v.base / 10 + 1)
                  && (w.current < v.current <==> v.current > v.base / 10 + 1)
                  && (w.current > v.current <==> v.current <= v.base / 10)
                  && (w.current <= v.current / 2 || w.current == v.base / 10 + 1)
                  && w.base == v.base && w.extra == v.extra && w.errtime == v.errtime + 1
                  && (w.mark <==> w.errtime >= maxErr) && w.lastFail == (if w.mark then now else v.lastFail))
  {
  }

  /** An item added with weight 100 has 40 after one failure, 10 after two, and 11 after three. */
  lemma FailureCanRaise(extra: string, maxErr: int, now: int)
    requires maxErr > 2
    ensures var once := FailedOnce(NewItem(100, extra), maxErr, now); var twice := FailedOnce(once, maxErr, now);
            once.current == 40 && twice.current == 10 && FailedOnce(twice, maxErr, now).current == 11
  {
  }

  /** From above half of a base of at least 2, a failure of an item in service always costs weight. */
  lemma FailureLowers(v: Item, maxErr: int, now: int)
    requires Sound(v) && !v.mark && v.base >= 2 && 2 * v.current > v.base
    ensures FailedOnce(v, maxErr, now).current < v.current
  {
  }

  /** A success takes the item into service and gains a fifth of the base plus 1, if it was marked or at
      half its base at most, else 1, within the base; so it raises every weight below the base. */
  lemma SuccessGains(t: Table, addr: string, now: int, maxErr: int, maxFail: int)
    requires addr in t && Sound(t[addr])
    ensures var t' := Apply(t, Update(addr, true, now), maxErr, maxFail); var v, w := t[addr], t'[addr];
            var gain := if v.mark || 2 * v.current <= v.base then v.base / 5 + 1 else 1;
            && OnlyAt(t, t', addr)
            && w.current == (if v.current + gain < v.base then v.current + gain else v.base)
            && (w.current > v.current <==> v.current < v.base)
            && !w.mark && w.base == v.base && w.extra == v.extra && w.errtime == v.errtime && w.lastFail == v.lastFail
  {
  }

  /** Three successes lift any item above half of its base. */
  lemma ThreeSuccessesHeal(v: Item)
    requires Sound(v)
    ensures 2 * Succeeded(Succeeded(Succeeded(v))).current > v.base
  {
    var a := Succeeded(v);
    var b := Succeeded(a);
    assert a.current >= 1 + v.base / 5 || 2 * a.current > v.base;
    assert b.current >= 2 + 2 * (v.base / 5) || 2 * b.current > v.base;
  }

  /** A choice takes 1 from the weight of the item chosen, above half of its base and above 1, and nothing
      else. */
  lemma ChoiceCosts(t: Table, addr: string, maxErr: int, maxFail: int)
    requires addr in t && !t[addr].mark && Sound(t[addr])
    ensures var t' := Apply(t, Get(addr), maxErr, maxFail); var v, w := t[addr], t'[addr];
            && OnlyAt(t, t', addr)
            && w == v.(current := if v.current > v.base / 2 && v.current > 1 then v.current - 1 else v.current)
  {
  }

  /** A scan takes exactly the marked items whose time is up back into service, just above half of their
      base and with a clean record, and leaves all others alone. */
  lemma ScanRecovers(t: Table, now: int, maxErr: int, maxFail: int)
    requires AllSound(t)
    ensures var t' := Apply(t, Scan(now), maxErr, maxFail);
            && t'.Keys == t.Keys
            && forall k :: k in t ==>
                 if t[k].mark && t[k].lastFail + maxFail < now
                 then t'[k] == Item(t[k].base / 2 + 1, t[k].base, false, 0, 0, t[k].extra)
                 else t'[k] == t[k]
  {
  }

  /** A call on an address that is not there changes nothing. */
  lemma UnknownAddress(t: Table, addr: string, result: bool, now: int, maxErr: int, maxFail: int)
    requires addr !in t
    ensures Apply(t, Update(addr, result, now), maxErr, maxFail) == Apply(t, Get(addr), maxErr, maxFail) == t
  {
  }

  /** The failed updates of an address from call `start` on. */
  ghost function FailedSince(ops: seq<Op>, addr: string, start: nat): set<nat> {
    set j: nat | start <= j < |ops| && ops[j].Update? && ops[j].addr == addr && !ops[j].result
  }

  lemma OneMoreCall(before: seq<Op>, op: Op, addr: string, start: nat)
    requires start <= |before|
    ensures |FailedSince(before + [op], addr, start)|
         == |FailedSince(before, addr, start)| + if op.Update? && op.addr == addr && !op.result then 1 else 0
  {
    var ops, n := before + [op], |before|;
    var had, have := FailedSince(before, addr, start), FailedSince(ops, addr, start);
    assert forall j :: 0 <= j < n ==> ops[j] == before[j];
    assert ops[n] == op && n !in had;
    assert have == had + if op.Update? && op.addr == addr && !op.result then {n} else {};
  }

  lemma FailuresStep(before: seq<Op>, op: Op, addr: string, maxErr: int, maxFail: int)
    ensures var n, n' := Failures(before, addr, maxErr, maxFail), Failures(before + [op], addr, maxErr, maxFail);
            && (op.Add? && op.addr == addr ==> n' == 0)
            && n' <= n + if op.Update? && op.addr == addr && !op.result then 1 else 0
  {
    hide Run, Expired;
    assert (before + [op])[..|before|] == before;
  }

  /** The failures counted are failed updates, all since some call behind which the address was not added
      again. */
  lemma {:induction false} FailuresAreCalls(ops: seq<Op>, addr: string, maxErr: int, maxFail: int) returns (start: nat)
    ensures start <= |ops| && forall j :: start <= j < |ops| && ops[j].Add? ==> ops[j].addr != addr
    ensures Failures(ops, addr, maxErr, maxFail) <= |FailedSince(ops, addr, start)|
  {
    hide Failures, FailedSince;
    start := |ops|;
    if Failures(ops, addr, maxErr, maxFail) > 0 {
      if ops == [] { NoFailures(addr, maxErr, maxFail); }
      var before, op := ops[..|ops| - 1], ops[|ops| - 1];
      assert ops == before + [op];
      start := FailuresAreCalls(before, addr, maxErr, maxFail);
      FailuresStep(before, op, addr, maxErr, maxFail);
      OneMoreCall(before, op, addr, start);
      assert forall j :: start <= j < |before| ==> ops[j] == before[j];
    }
  }

  lemma NoFailures(addr: string, maxErr: int, maxFail: int)
    ensures Failures([], addr, maxErr, maxFail) == 0
  {
  }

  /** No address is marked without at least `maxErr` failed updates since it was last added. */
  lemma MarkedByFailures(ops: seq<Op>, maxErr: int, maxFail: int, addr: string) returns (start: nat)
    requires ValidWeights(ops) && addr in Run(ops, maxErr, maxFail) && Run(ops, maxErr, maxFail)[addr].mark
    ensures start <= |ops| && (forall j :: start <= j < |ops| && ops[j].Add? ==> ops[j].addr != addr)
    ensures |FailedSince(ops, addr, start)| >= maxErr
  {
    RunInvariant(ops, maxErr, maxFail, addr);
    start := FailuresAreCalls(ops, addr, maxErr, maxFail);
  }

  function Weights(t: Table): map<string, int> {
    map k | k in t && !t[k].mark :: t[k].current
  }

  /** With sound items the total is positive exactly when some item is unmarked. */
  lemma TotalPositiveIff(t: Table)
    requires AllSound(t)
    ensures SumOver(Weights(t), Weights(t).Keys) > 0 <==> exists k :: k in t && !t[k].mark
  {
    var w := Weights(t);
    SumOfPositives(w, w.Keys);
    if k :| k in t && !t[k].mark { assert k in w.Keys; }
    if w.Keys != {} { var k :| k in w.Keys; assert k in t && !t[k].mark; }
  }

  /** After any run of calls with weights of at least 1, `Get` has nothing to draw from exactly when
      every item is marked. */
  lemma GetFailsIffAllMarked(ops: seq<Op>, maxErr: int, maxFail: int)
    requires ValidWeights(ops)
    ensures var t := Run(ops, maxErr, maxFail);
            SumOver(Weights(t), Weights(t).Keys) <= 0 <==> forall k :: k in t ==> t[k].mark
  {
    hide Run, Sound, SumOver;
    var t := Run(ops, maxErr, maxFail);
    forall k | k in t ensures Sound(t[k]) { RunInvariant(ops, maxErr, maxFail, k); }
    TotalPositiveIff(t);
  }
}
