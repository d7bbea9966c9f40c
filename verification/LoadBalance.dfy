/** The load balancer (lb/loadbalance.go): items mutated in place behind one map, proved against
    `Balance`. Every method runs under the balancer's lock. */
module LoadBalance {
  import opened Octets
  import opened Balance

  class LoadItem {
    var Current: int
    var Base: int
    var MarkFail: bool
    var Errtime: int
    var LastFail: int
    var Extra: string

    constructor (weight: int, extra: string)
      ensures Val() == NewItem(weight, extra)
    {
      Base, Current := weight, if weight <= 0 then 1 else weight;
      Errtime, LastFail, Extra, MarkFail := 0, 0, extra, false;
    }

    function Val(): Item
      reads this
    {
      Item(Current, Base, MarkFail, Errtime, LastFail, Extra)
    }

    /** The success branch of `Update`. */
    method Success()
      modifies this
      ensures Val() == Succeeded(old(Val()))
    {
      if MarkFail {
        MarkFail := false;
        Current := Current + GoDiv(Base, 5) + 1;
      } else {
        if Current <= GoDiv(Base, 2) {
          Current := Current + GoDiv(Base, 5) + 1;
        } else {
          Current := Current + 1;
        }
      }
      if Current > Base {
        Current := Base;
      }
    }

    /** The failure branch of `Update`. */
    method Failure(maxErr: int, now: int)
      modifies this
      ensures Val() == FailedOnce(old(Val()), maxErr, now)
    {
      if MarkFail {
        return;
      }
      Errtime := Errtime + 1;
      if Errtime >= maxErr {
        MarkFail := true;
        LastFail := now;
      }
      Current := GoDiv(Current, 2) - GoDiv(Base, 10);
      if Current <= 0 {
        Current := GoDiv(Base, 10) + 1;
      }
    }
  }

  class Balancer {
    var mp: map<string, LoadItem>
    const maxErr: int
    const maxFail: int

    /** No item is stored under two addresses. */
    ghost predicate Valid()
      reads this
    {
      forall a, b :: a in mp && b in mp && a != b ==> mp[a] != mp[b]
    }

    ghost function Abs(): Table
      reads this, set k | k in mp :: mp[k]
    {
      map k | k in mp :: mp[k].Val()
    }

    constructor New(maxErrTime: int, maxFailTime: int)
      ensures Valid() && Abs() == map[] && maxErr == maxErrTime && maxFail == maxFailTime
    {
      mp, maxErr, maxFail := map[], maxErrTime, maxFailTime;
    }

    method AddItem(addr: string, weight: int, extra: string)
      requires Valid()
      modifies this
      ensures Valid() && Abs() == Apply(old(Abs()), Add(addr, weight, extra), maxErr, maxFail)
      ensures mp.Keys == old(mp).Keys + {addr} && forall k :: k in mp && k != addr ==> mp[k] == old(mp)[k]
    {
      var item := new LoadItem(weight, extra);
      mp := mp[addr := item];
    }

    /** `Get`. It fails exactly when the unmarked weights sum to nothing; otherwise the panic behind
        the second loop is unreachable, whatever the weights, the draw and the two map orders. The
        item returned is unmarked and the one `Choose` names for the draw, among the unmarked items
        in the order they were visited. */
    method GetItem() returns (addr: string, extra: string, err: bool, ghost visited: seq<string>, ghost draw: int)
      requires Valid()
      modifies set k | k in mp :: mp[k]
      ensures Valid() && mp == old(mp)
      ensures var w := Weights(old(Abs())); err <==> SumOver(w, w.Keys) <= 0
      ensures err ==> Abs() == old(Abs())
      ensures !err ==>
                && addr in old(Abs()) && !old(Abs())[addr].mark && extra == old(Abs())[addr].extra
                && Abs() == Apply(old(Abs()), Get(addr), maxErr, maxFail)
                && Visit(Weights(old(Abs())), visited) && visited != [] && visited[|visited| - 1] == addr
                && 0 <= draw < SumOver(Weights(old(Abs())), Weights(old(Abs())).Keys)
                && Choose(InOrder(Weights(old(Abs())), visited), draw) == Some(|visited| - 1)
    {
      hide SumOver, Remaining, OnTrack, Choose, GoDiv;
      ghost var t, w := Abs(), Weights(Abs());
      addr, extra, visited, draw := "", "", [], 0;
      var total := TotalWeight();
      if total <= 0 {
        err := true;
        return;
      }
      err := false;
      var rnd: int :| 0 <= rnd < total;
      draw := rnd;
      var todo := mp.Keys;
      AllRemaining(w, todo);
      NoVisits(w, draw);
      while todo != {}
        invariant todo <= mp.Keys && Abs() == t
        invariant Visit(w, visited) && forall k :: k in visited ==> k !in todo
        invariant rnd < Remaining(w, todo) && (visited == [] ==> rnd == draw) && (visited != [] ==> rnd > 0)
        invariant OnTrack(w, visited, draw, rnd)
        decreases todo
      {
        var k :| k in todo;
        RemainingStep(w, todo, k);
        todo := todo - {k};
        var v := mp[k];
        if v.MarkFail {
          continue;
        }
        VisitOneMore(w, visited, k, draw, rnd);
        visited := visited + [k];
        rnd := rnd - v.Current;
        if rnd <= 0 {
          Pick(k);
          return k, v.Extra, false, visited, draw;
        }
      }
      assert false;
    }

    /** The item returned by `Get` loses weight down to half its base, but not below 1. */
    method Pick(k: string)
      requires Valid() && k in mp && !mp[k].MarkFail
      modifies mp[k]
      ensures Valid() && Abs() == Apply(old(Abs()), Get(k), maxErr, maxFail) && mp[k].Extra == old(mp[k].Extra)
    {
      var v := mp[k];
      ghost var t := Abs();
      if v.Current > GoDiv(v.Base, 2) {
        v.Current := v.Current - 1;
      }
      if v.Current <= 0 {
        v.Current := 1;
      }
      assert Abs() == t[k := Picked(t[k])];
    }

    /** The summing loop of `Get`, in any order. */
    method TotalWeight() returns (total: int)
      requires Valid()
      ensures total == SumOver(Weights(Abs()), Weights(Abs()).Keys)
    {
      ghost var w := Weights(Abs());
      hide SumOver, Remaining;
      total := 0;
      var todo := mp.Keys;
      AllRemaining(w, todo);
      while todo != {}
        invariant todo <= mp.Keys
        invariant total + Remaining(w, todo) == SumOver(w, w.Keys)
        decreases todo
      {
        var k :| k in todo;
        RemainingStep(w, todo, k);
        todo := todo - {k};
        if mp[k].MarkFail {
          continue;
        }
        total := total + mp[k].Current;
      }
    }

    method UpdateItem(addr: string, result: bool, now: int)
      requires Valid()
      modifies set k | k in mp :: mp[k]
      ensures Valid() && mp == old(mp)
      ensures Abs() == Apply(old(Abs()), Update(addr, result, now), maxErr, maxFail)
    {
      hide Succeeded, FailedOnce;
      if addr in mp {
        ghost var t := Abs();
        if result {
          mp[addr].Success();
        } else {
          mp[addr].Failure(maxErr, now);
        }
        assert Abs() == t[addr := mp[addr].Val()];
      }
    }

    /** One round of `autoScan`. */
    method ScanOnce(now: int)
      requires Valid()
      modifies set k | k in mp :: mp[k]
      ensures Valid() && mp == old(mp)
      ensures Abs() == Apply(old(Abs()), Scan(now), maxErr, maxFail)
    {
      ghost var t := Abs();
      var todo := mp.Keys;
      while todo != {}
        invariant todo <= mp.Keys && mp == old(mp)
        invariant forall k :: k in mp ==> mp[k].Val() == if k in todo then t[k] else Scanned(t[k], maxFail, now)
        decreases todo
      {
        var k :| k in todo;
        todo := todo - {k};
        var v := mp[k];
        if v.MarkFail {
          if v.LastFail + maxFail < now {
            v.MarkFail := false;
            v.LastFail := 0;
            v.Errtime := 0;
            v.Current := GoDiv(v.Base, 2) + 1;
          }
        }
      }
    }
  }

  // ---------- the visiting order ----------

  /** Distinct unmarked addresses. */
  ghost predicate Visit(w: map<string, int>, visited: seq<string>) {
    && (forall i :: 0 <= i < |visited| ==> visited[i] in w)
    && (forall i, j :: 0 <= i < j < |visited| ==> visited[i] != visited[j])
  }

  ghost function InOrder(w: map<string, int>, visited: seq<string>): (cs: seq<int>)
    requires forall i :: 0 <= i < |visited| ==> visited[i] in w
    ensures |cs| == |visited|
  {
    seq(|visited|, i requires 0 <= i < |visited| => w[visited[i]])
  }

  ghost function Shift(r: Option<nat>, step: nat): Option<nat> {
    match r case None => None case Some(i) => Some(i + step)
  }

  /** What is left of the draw stands for it: the items visited used up the difference. */
  ghost predicate OnTrack(w: map<string, int>, visited: seq<string>, draw: int, rnd: int)
    requires Visit(w, visited)
  {
    forall more: seq<int> :: Choose(InOrder(w, visited) + more, draw) == Shift(Choose(more, rnd), |visited|)
  }

  lemma NoVisits(w: map<string, int>, draw: int)
    ensures OnTrack(w, [], draw, draw)
  {
    forall more: seq<int> ensures Choose(InOrder(w, []) + more, draw) == Shift(Choose(more, draw), 0) {
      assert InOrder(w, []) + more == more;
    }
  }

  /** The unmarked weight still to be visited. */
  ghost function Remaining(w: map<string, int>, todo: set<string>): (r: int)
    ensures todo == {} ==> r == 0
  {
    var left := todo * w.Keys;
    assert todo == {} ==> left == {};
    SumOver(w, left)
  }

  lemma AllRemaining(w: map<string, int>, todo: set<string>)
    requires w.Keys <= todo
    ensures Remaining(w, todo) == SumOver(w, w.Keys)
  {
    assert todo * w.Keys == w.Keys;
  }

  lemma RemainingStep(w: map<string, int>, todo: set<string>, k: string)
    requires k in todo
    ensures Remaining(w, todo) == Remaining(w, todo - {k}) + if k in w then w[k] else 0
  {
    var left := todo * w.Keys;
    if k in w {
      SumTakes(w, left, k);
      assert (todo - {k}) * w.Keys == left - {k};
    } else {
      assert (todo - {k}) * w.Keys == left;
    }
  }

  /** Visiting one more item subtracts its weight from the draw. */
  lemma VisitOneMore(w: map<string, int>, visited: seq<string>, k: string, draw: int, rnd: int)
    requires Visit(w, visited) && k in w && k !in visited && OnTrack(w, visited, draw, rnd)
    ensures Visit(w, visited + [k])
    ensures rnd - w[k] > 0 ==> OnTrack(w, visited + [k], draw, rnd - w[k])
    ensures rnd - w[k] <= 0 ==> Choose(InOrder(w, visited + [k]), draw) == Some(|visited|)
  {
    var cs := InOrder(w, visited);
    assert InOrder(w, visited + [k]) == cs + [w[k]];
    if rnd - w[k] > 0 {
      forall more: seq<int>
        ensures Choose(cs + [w[k]] + more, draw) == Shift(Choose(more, rnd - w[k]), |visited| + 1)
      {
        Assoc(cs, [w[k]], more);
        var rest := [w[k]] + more;
        assert rest[1..] == more;
        assert Choose(cs + rest, draw) == Shift(Choose(rest, rnd), |visited|);
      }
    } else {
      assert Choose(cs + [w[k]], draw) == Shift(Choose([w[k]], rnd), |visited|);
    }
  }

  /** Every unmarked address once: a full order of visit. */
  ghost predicate FullVisit(t: Table, visited: seq<string>) {
    && (forall i :: 0 <= i < |visited| ==> visited[i] in t && !t[visited[i]].mark)
    && (forall i, j :: 0 <= i < j < |visited| ==> visited[i] != visited[j])
    && (forall k :: k in t && !t[k].mark ==> k in visited)
  }

  /** In whatever order the second loop would visit them all, the weights add up to the total drawn from. */
  lemma TotalInAnyOrder(t: Table, visited: seq<string>)
    requires FullVisit(t, visited)
    ensures Visit(Weights(t), visited)
    ensures Sum(InOrder(Weights(t), visited)) == SumOver(Weights(t), Weights(t).Keys)
  {
    var w := Weights(t);
    SumInOrder(w, visited, w.Keys);
  }

  lemma {:induction false} SumInOrder(w: map<string, int>, visited: seq<string>, ks: set<string>)
    requires Visit(w, visited) && ks <= w.Keys && forall k :: k in ks <==> k in visited
    ensures Sum(InOrder(w, visited)) == SumOver(w, ks)
  {
    var cs := InOrder(w, visited);
    if visited == [] {
      assert ks == {};
    } else {
      var k, rest := visited[0], visited[1..];
      assert k in ks && cs[1..] == InOrder(w, rest);
      forall x ensures x in ks - {k} <==> x in rest {
        if x in rest { assert x in visited; }
      }
      SumInOrder(w, rest, ks - {k});
      SumTakes(w, ks, k);
    }
  }

  /** After any run with weights of at least 1, of the draws `Get` makes and in whatever order the map would
      be visited: each unmarked item is picked by as many as its current weight, one more if it is visited
      first, one less if last. */
  lemma SharesInAnyRun(ops: seq<Op>, maxErr: int, maxFail: int, visited: seq<string>, i: nat)
    requires ValidWeights(ops) && FullVisit(Run(ops, maxErr, maxFail), visited) && i < |visited|
    ensures var t := Run(ops, maxErr, maxFail);
            var cs := seq(|visited|, j requires 0 <= j < |visited| => t[visited[j]].current);
            && Sum(cs) == SumOver(Weights(t), Weights(t).Keys)
            && |Draws(cs, i)| == t[visited[i]].current + (if i == 0 then 1 else 0) - (if i == |visited| - 1 then 1 else 0)
  {
    hide Run, SumOver, Draws;
    var t := Run(ops, maxErr, maxFail);
    forall k | k in t ensures Sound(t[k]) { RunInvariant(ops, maxErr, maxFail, k); }
    TotalInAnyOrder(t, visited);
    var cs := seq(|visited|, j requires 0 <= j < |visited| => t[visited[j]].current);
    assert cs == InOrder(Weights(t), visited);
    DrawsMatchWeight(cs, i);
  }
}
