/** The host rule table (check/host.go): loading lines, the merged route index, and lookup. */
module Host {
  import opened Octets
  import opened Cidr
  import opened RangeList

  const RULE_BLOCK: nat := 0
  const RULE_DIRECT: nat := 1
  const RULE_PROXY: nat := 2
  const DEFAULT_RULE: nat := RULE_PROXY

  class CIDRRange {
    var Start: nat
    var End: nat
    var CIDRs: seq<string>

    constructor (start: nat, end: nat, cidrs: seq<string>)
      ensures Start == start && End == end && CIDRs == cidrs
    {
      Start, End, CIDRs := start, end, cidrs;
    }

    function Val(): Entry
      reads this
    {
      Entry(Start, End, CIDRs)
    }
  }

  function Values(lst: seq<CIDRRange>): (es: seq<Entry>)
    reads lst
    ensures |es| == |lst| && forall i :: 0 <= i < |lst| ==> es[i] == lst[i].Val()
  {
    seq(|lst|, i requires 0 <= i < |lst| reads lst => lst[i].Val())
  }

  ghost predicate Distinct(lst: seq<CIDRRange>) {
    forall i, j :: 0 <= i < j < |lst| ==> lst[i] != lst[j]
  }

  // ---------- sorting and merging in place ----------

  /** `sort.Sort` by `Less`: some sorted permutation of the pointers. Callers rely on no more. */
  method Sort(lst: array<CIDRRange>)
    modifies lst
    ensures Sorted(Values(lst[..]))
    ensures multiset(lst[..]) == multiset(old(lst[..]))
    ensures multiset(Values(lst[..])) == multiset(old(Values(lst[..])))
  {
    var i := 0;
    while i < lst.Length
      invariant 0 <= i <= lst.Length
      invariant SortedUpTo(lst, i)
      invariant multiset(lst[..]) == multiset(old(lst[..]))
      invariant multiset(Values(lst[..])) == multiset(old(Values(lst[..])))
    {
      Insert(lst, i);
      i := i + 1;
    }
  }

  ghost predicate SortedUpTo(lst: array<CIDRRange>, n: nat)
    requires n <= lst.Length
    reads lst, lst[..]
  {
    forall a, b :: 0 <= a < b < n ==> !Less(lst[b].Val(), lst[a].Val())
  }

  function Swapped<T>(s: seq<T>, j: nat): seq<T>
    requires 0 < j < |s|
  {
    s[j := s[j - 1]][j - 1 := s[j]]
  }

  lemma SwapKeepsMembers<T>(s: seq<T>, j: nat)
    requires 0 < j < |s|
    ensures multiset(Swapped(s, j)) == multiset(s)
  {
  }

  method SwapDown(lst: array<CIDRRange>, j: nat)
    requires 0 < j < lst.Length
    modifies lst
    ensures lst[..] == Swapped(old(lst[..]), j)
    ensures multiset(lst[..]) == multiset(old(lst[..]))
    ensures multiset(Values(lst[..])) == multiset(old(Values(lst[..])))
  {
    ghost var s, es := lst[..], Values(lst[..]);
    lst[j], lst[j - 1] := lst[j - 1], lst[j];
    assert lst[..] == Swapped(s, j);
    SwapKeepsMembers(s, j);
    SwapKeepsMembers(es, j);
    assert Values(lst[..]) == Swapped(es, j);
  }

  method Insert(lst: array<CIDRRange>, i: nat)
    requires i < lst.Length && SortedUpTo(lst, i)
    modifies lst
    ensures SortedUpTo(lst, i + 1)
    ensures multiset(lst[..]) == multiset(old(lst[..]))
    ensures multiset(Values(lst[..])) == multiset(old(Values(lst[..])))
  {
    var j := i;
    while j > 0 && Less(lst[j].Val(), lst[j - 1].Val())
      invariant 0 <= j <= i
      invariant forall a, b :: 0 <= a < b <= i && b != j ==> !Less(lst[b].Val(), lst[a].Val())
      invariant multiset(lst[..]) == multiset(old(lst[..]))
      invariant multiset(Values(lst[..])) == multiset(old(Values(lst[..])))
    {
      SwapDown(lst, j);
      j := j - 1;
    }
    forall a | 0 <= a < j ensures !Less(lst[j].Val(), lst[a].Val()) {
      if a < j - 1 { assert !Less(lst[j - 1].Val(), lst[a].Val()); }
    }
  }

  /** `sortAndMerge`: the pointers of the list are sorted, ranges that absorb others are extended in
      place, and the pointers kept are returned. `es` is the list of values after sorting. */
  method SortAndMerge(lst: array<CIDRRange>) returns (tmp: seq<CIDRRange>, ghost es: seq<Entry>)
    requires Distinct(lst[..])
    modifies lst, lst[..]
    ensures Sorted(es) && multiset(es) == multiset(old(Values(lst[..])))
    ensures Values(tmp) == Merge(es)
    ensures forall r :: r in tmp ==> r in old(lst[..])
  {
    if lst.Length <= 1 {
      es := Values(lst[..]);
      MergeOne(es);
      return lst[..], es;
    }
    ghost var before := lst[..];
    Sort(lst);
    var now := lst[..];
    StillDistinct(before, now);
    SameMembers(before, now);
    es := Values(now);
    assert forall k :: 0 <= k < |now| ==> now[k] in before;
    tmp := MergeSorted(now);
  }

  /** The merge loop over the sorted pointers. */
  method MergeSorted(lst: seq<CIDRRange>) returns (tmp: seq<CIDRRange>)
    requires Distinct(lst) && lst != []
    modifies lst
    ensures Values(tmp) == Merge(old(Values(lst)))
    ensures forall r :: r in tmp ==> r in lst
  {
    hide MergeFrom;
    ghost var es := Values(lst);
    tmp := [lst[0]];
    ghost var last := 0;
    assert Values(tmp[..0]) == [];
    var i := 1;
    while i < |lst|
      invariant 1 <= i <= |lst| && |tmp| >= 1
      invariant 0 <= last < i && tmp[|tmp| - 1] == lst[last]
      invariant forall k :: 0 <= k < |tmp| - 1 ==> tmp[k] in lst[..last]
      invariant forall k :: i <= k < |lst| ==> lst[k].Val() == es[k]
      invariant Values(tmp[..|tmp| - 1]) + MergeFrom(tmp[|tmp| - 1].Val(), es[i..]) == Merge(es)
    {
      var back := tmp[|tmp| - 1];
      ghost var kept, b, rest := Values(tmp[..|tmp| - 1]), back.Val(), es[i..];
      assert rest[1..] == es[i + 1..] && rest[0] == lst[i].Val();
      MergeFromStep(b, rest);
      if lst[i].Start <= back.End {
        forall k | 0 <= k < |tmp| - 1 ensures tmp[k] != back { NotBefore(lst, last, tmp[k]); }
        AbsorbInto(back, lst[i]);
        assert Values(tmp[..|tmp| - 1]) == kept;
      } else {
        Assoc(kept, [b], MergeFrom(rest[0], rest[1..]));
        ghost var old' := tmp;
        tmp := tmp + [lst[i]];
        assert tmp[..|tmp| - 1] == old';
        assert Values(old') == kept + [b];
        forall k | 0 <= k < |old'| ensures old'[k] in lst[..i] { InEarlier(lst, last, i, old', k); }
        last := i;
      }
      i := i + 1;
    }
    assert es[i..] == [];
    MergeFromStep(tmp[|tmp| - 1].Val(), []);
    assert Values(tmp) == Values(tmp[..|tmp| - 1]) + [tmp[|tmp| - 1].Val()];
    forall k | 0 <= k < |tmp| ensures tmp[k] in lst { InEarlier(lst, last, |lst|, tmp, k); }
  }

  method AbsorbInto(back: CIDRRange, e: CIDRRange)
    requires back != e
    modifies back
    ensures back.Val() == Absorb(old(back.Val()), e.Val())
  {
    if e.End > back.End {
      back.End := e.End;
    }
    back.CIDRs := back.CIDRs + e.CIDRs;
  }

  lemma MergeOne(es: seq<Entry>)
    requires |es| <= 1
    ensures Merge(es) == es && Sorted(es)
  {
    if |es| == 1 { assert es[1..] == []; assert es == [es[0]]; }
  }

  lemma NotBefore(lst: seq<CIDRRange>, k: nat, r: CIDRRange)
    requires k < |lst| && Distinct(lst) && r in lst[..k]
    ensures r != lst[k]
  {
    var i :| 0 <= i < k && lst[..k][i] == r;
    assert lst[i] == r;
  }

  lemma InEarlier(lst: seq<CIDRRange>, last: nat, i: nat, tmp: seq<CIDRRange>, k: nat)
    requires last < i <= |lst| && k < |tmp| && tmp[|tmp| - 1] == lst[last]
    requires forall l :: 0 <= l < |tmp| - 1 ==> tmp[l] in lst[..last]
    ensures tmp[k] in lst[..i] && tmp[k] in lst
  {
    if k < |tmp| - 1 {
      var j :| 0 <= j < |lst[..last]| && lst[..last][j] == tmp[k];
      assert lst[..i][j] == tmp[k];
    } else {
      assert lst[..i][last] == tmp[k];
    }
  }

  lemma SameMembers<T>(a: seq<T>, b: seq<T>)
    requires multiset(a) == multiset(b)
    ensures forall x :: x in a <==> x in b
  {
    forall x ensures x in a <==> x in b {
      assert x in a <==> x in multiset(a);
      assert x in b <==> x in multiset(b);
    }
  }

  lemma StillDistinct(a: seq<CIDRRange>, b: seq<CIDRRange>)
    requires multiset(a) == multiset(b) && Distinct(a)
    ensures Distinct(b)
  {
    forall i, j | 0 <= i < j < |b| ensures b[i] != b[j] {
      if b[i] == b[j] {
        var x := b[i];
        assert b == b[..j] + b[j..] && x in b[..j] && x in b[j..];
        assert multiset(b)[x] >= 2;
        OnceOnly(a, x);
      }
    }
  }

  lemma {:induction false} OnceOnly(a: seq<CIDRRange>, x: CIDRRange)
    requires Distinct(a)
    ensures multiset(a)[x] <= 1
  {
    if a != [] {
      var n := |a| - 1;
      assert a == a[..n] + [a[n]];
      OnceOnly(a[..n], x);
      assert a[n] !in a[..n];
    }
  }

  // ---------- searching ----------

  /** `checkIPInRangeList`. It terminates because every range is ordered; a hit is always real, and
      on disjoint increasing ranges a miss is too. */
  method CheckIPInRangeList(ip: nat, lst: seq<CIDRRange>) returns (found: bool)
    requires Ordered(Values(lst))
    ensures found ==> Contains(Values(lst), ip)
    ensures Disjoint(Values(lst)) ==> (found <==> Contains(Values(lst), ip))
  {
    ghost var es := Values(lst);
    var start, end, mid := 0, |lst| - 1, 0;
    while start <= end
      invariant 0 <= start && -1 <= end < |lst|
      invariant Disjoint(es) ==> forall i :: 0 <= i < |es| && Holds(es[i], ip) ==> start <= i <= end
      decreases end - start + 1
    {
      mid := (start + end) / 2;
      if lst[mid].Start <= ip && ip <= lst[mid].End {
        assert Holds(es[mid], ip);
        return true;
      }
      assert es[mid] == lst[mid].Val();
      if ip > lst[mid].Start {
        start := mid + 1;
      } else if ip < lst[mid].End {
        end := mid - 1;
      } else {
        assert false;
      }
    }
    return false;
  }

  /** A probe that misses narrows the interval unless its range is inverted around the address: this
      is when, and only when, the search would spin. */
  lemma ProbeStuckIffInverted(e: Entry, ip: nat)
    requires !Holds(e, ip)
    ensures !(ip > e.start) && !(ip < e.end) <==> e.end <= ip <= e.start
    ensures e.start <= e.end ==> ip > e.start || ip < e.end
  {
  }

  // ---------- rule lines ----------

  /** A parsed rule line: a name, an IPv4 CIDR with its text, or an IPv6 CIDR. */
  datatype Line = Name(addr: string, op: nat) | V4Cidr(text: string, src: nat, prefix: nat, op: nat) | V6Cidr(op: nat)

  ghost predicate WellFormed(lines: seq<Line>) {
    forall i :: 0 <= i < |lines| && lines[i].V4Cidr? ==> lines[i].prefix <= 32 && lines[i].src <= MAX_U32
  }

  /** A name maps to the rule of its last line. */
  function NameTable(lines: seq<Line>): map<string, nat> {
    if lines == [] then map[]
    else
      var init, l := NameTable(lines[..|lines| - 1]), lines[|lines| - 1];
      if l.Name? then init[l.addr := l.op] else init
  }

  /** Exactly the names of the file are in the table, each with the rule of its last line. */
  lemma {:induction false} LastLineWins(lines: seq<Line>, addr: string, i: nat)
    requires i < |lines| && lines[i].Name? && lines[i].addr == addr
    requires forall j :: i < j < |lines| && lines[j].Name? ==> lines[j].addr != addr
    ensures addr in NameTable(lines) && NameTable(lines)[addr] == lines[i].op
  {
    if i < |lines| - 1 { LastLineWins(lines[..|lines| - 1], addr, i); }
  }

  lemma {:induction false} OnlyListedNames(lines: seq<Line>, addr: string) returns (i: nat)
    requires addr in NameTable(lines)
    ensures i < |lines| && lines[i].Name? && lines[i].addr == addr && lines[i].op == NameTable(lines)[addr]
  {
    i := |lines| - 1;
    if !(lines[i].Name? && lines[i].addr == addr) { i := OnlyListedNames(lines[..|lines| - 1], addr); }
  }

  function RangeOf(l: Line): Entry
    requires l.V4Cidr? && l.prefix <= 32
  {
    var (st, ed) := ResolveIPRange(l.src, l.prefix);
    Entry(st, ed, [l.text])
  }

  /** The ranges of one rule, in line order. */
  function RangesFor(lines: seq<Line>, op: nat): seq<Entry>
    requires WellFormed(lines)
  {
    if lines == [] then []
    else
      var init, l := RangesFor(lines[..|lines| - 1], op), lines[|lines| - 1];
      if l.V4Cidr? && l.op == op then init + [RangeOf(l)] else init
  }

  predicate LineMatches(l: Line, op: nat, ip: nat) {
    l.V4Cidr? && l.op == op && l.prefix <= 32 && SharesPrefix(l.src, ip, l.prefix)
  }

  /** The linear scan of the rule lines for an address. */
  ghost predicate Listed(lines: seq<Line>, op: nat, ip: nat) {
    exists i :: 0 <= i < |lines| && LineMatches(lines[i], op, ip)
  }

  lemma ContainsSnoc(es: seq<Entry>, e: Entry, ip: nat)
    ensures Contains(es + [e], ip) <==> Contains(es, ip) || Holds(e, ip)
  {
    var all := es + [e];
    if Holds(e, ip) { assert Holds(all[|es|], ip); }
    if Contains(es, ip) {
      var i :| 0 <= i < |es| && Holds(es[i], ip);
      assert Holds(all[i], ip);
    }
  }

  lemma ListedSnoc(lines: seq<Line>, op: nat, ip: nat)
    requires lines != []
    ensures Listed(lines, op, ip) <==> Listed(lines[..|lines| - 1], op, ip) || LineMatches(lines[|lines| - 1], op, ip)
  {
    var n := |lines| - 1;
    if Listed(lines[..n], op, ip) {
      var i :| 0 <= i < n && LineMatches(lines[..n][i], op, ip);
      assert LineMatches(lines[i], op, ip);
    }
    if Listed(lines, op, ip) {
      var i :| 0 <= i < |lines| && LineMatches(lines[i], op, ip);
      if i < n { assert lines[..n][i] == lines[i]; }
    }
  }

  /** The ranges of a rule are non-empty CIDR blocks, and hold an address exactly when some line of
      that rule shares its top bits with it. */
  lemma {:induction false} RangesMatchLines(lines: seq<Line>, op: nat, ip: nat)
    requires WellFormed(lines)
    ensures Ordered(RangesFor(lines, op)) && Blocks(RangesFor(lines, op))
    ensures Contains(RangesFor(lines, op), ip) <==> Listed(lines, op, ip)
  {
    hide ResolveIPRange;
    if lines != [] {
      var n := |lines| - 1;
      var l := lines[n];
      RangesMatchLines(lines[..n], op, ip);
      ListedSnoc(lines, op, ip);
      if l.V4Cidr? && l.op == op {
        BlockIsPrefixMatch(l.src, l.prefix, ip);
        ContainsSnoc(RangesFor(lines[..n], op), RangeOf(l), ip);
        assert IsBlock(RangeOf(l).start, RangeOf(l).end);
      }
    }
  }

  lemma PermutationKeeps(a: seq<Entry>, b: seq<Entry>, ip: nat)
    requires multiset(a) == multiset(b)
    ensures Contains(a, ip) <==> Contains(b, ip)
    ensures Ordered(a) ==> Ordered(b)
    ensures Blocks(a) ==> Blocks(b)
  {
    SameMembers(a, b);
    forall i | 0 <= i < |b| ensures b[i] in a {}
    forall i | 0 <= i < |a| ensures a[i] in b {}
  }

  /** Sorting and merging a rule's ranges turns membership into the linear scan. */
  lemma IndexIsLinearScan(lines: seq<Line>, op: nat, es: seq<Entry>, ip: nat)
    requires WellFormed(lines) && Sorted(es) && multiset(es) == multiset(RangesFor(lines, op))
    ensures Disjoint(Merge(es))
    ensures Contains(Merge(es), ip) <==> Listed(lines, op, ip)
  {
    RangesMatchLines(lines, op, ip);
    PermutationKeeps(RangesFor(lines, op), es, ip);
    MergeKeeps(es, ip);
  }

  // ---------- domain names ----------

  /** `t` is the name itself or what follows one of its dots. */
  ghost predicate IsDomainSuffix(t: string, name: string) {
    t == name || exists i :: 0 <= i < |name| && name[i] == '.' && t == name[i + 1..]
  }

  /** `strings.Index(s, ".")`, or -1. */
  function IndexDot(s: string): (k: int)
    ensures -1 <= k < |s|
    ensures k >= 0 ==> s[k] == '.' && '.' !in s[..k]
    ensures k < 0 ==> '.' !in s
  {
    if s == [] then -1 else if s[0] == '.' then 0
    else
      var k := IndexDot(s[1..]);
      if k < 0 then -1 else k + 1
  }

  lemma SuffixOfRest(t: string, name: string, k: nat)
    requires k < |name| && name[k] == '.' && IsDomainSuffix(t, name[k + 1..])
    ensures IsDomainSuffix(t, name)
  {
    var rest := name[k + 1..];
    if t != rest {
      var i :| 0 <= i < |rest| && rest[i] == '.' && t == rest[i + 1..];
      var j := k + 1 + i;
      assert name[j] == '.' && t == name[j + 1..];
    }
  }

  lemma SuffixInRest(t: string, name: string, k: nat)
    requires k < |name| && name[k] == '.' && '.' !in name[..k]
    requires IsDomainSuffix(t, name) && t != name
    ensures IsDomainSuffix(t, name[k + 1..])
  {
    var rest := name[k + 1..];
    var i :| 0 <= i < |name| && name[i] == '.' && t == name[i + 1..];
    assert forall j :: 0 <= j < k ==> name[..k][j] == name[j] != '.';
    if i > k {
      var j := i - k - 1;
      assert rest[j] == '.' && t == rest[j + 1..];
    }
  }

  lemma OnlyItself(t: string, name: string)
    requires '.' !in name
    ensures IsDomainSuffix(t, name) <==> t == name
  {
  }

  /** The suffixes of a name are the name and the suffixes of what follows its first dot. */
  lemma SuffixStep(t: string, name: string)
    ensures IndexDot(name) < 0 ==> (IsDomainSuffix(t, name) <==> t == name)
    ensures IndexDot(name) >= 0 ==>
              (IsDomainSuffix(t, name) <==> t == name || IsDomainSuffix(t, name[IndexDot(name) + 1..]))
  {
    hide IsDomainSuffix, IndexDot;
    var k := IndexDot(name);
    if k < 0 {
      OnlyItself(t, name);
    } else {
      if IsDomainSuffix(t, name[k + 1..]) { SuffixOfRest(t, name, k); }
      if IsDomainSuffix(t, name) && t != name { SuffixInRest(t, name, k); }
      SelfSuffix(name);
    }
  }

  /** The loop over a name: the rule of the longest of its suffixes in the table. */
  method LookupName(domain: map<string, nat>, addr: string) returns (r: Option<nat>, ghost hit: string)
    ensures r.Some? ==>
              && IsDomainSuffix(hit, addr) && hit in domain && r.value == domain[hit]
              && forall t :: IsDomainSuffix(t, addr) && t in domain ==> |t| <= |hit|
    ensures r == None ==> forall t :: IsDomainSuffix(t, addr) ==> t !in domain
  {
    hide IsDomainSuffix, IndexDot;
    var tmpaddr := addr;
    hit := "";
    SelfSuffix(addr);
    while true
      invariant IsDomainSuffix(tmpaddr, addr)
      invariant forall t :: IsDomainSuffix(t, addr) && t in domain ==> IsDomainSuffix(t, tmpaddr)
      invariant forall t :: IsDomainSuffix(t, tmpaddr) ==> IsDomainSuffix(t, addr)
      decreases |tmpaddr|
    {
      if tmpaddr in domain {
        hit := tmpaddr;
        forall t | IsDomainSuffix(t, addr) && t in domain ensures |t| <= |hit| { SuffixShorter(t, tmpaddr); }
        return Some(domain[tmpaddr]), hit;
      }
      var index := IndexDot(tmpaddr);
      forall t ensures IndexDot(tmpaddr) < 0 ==> (IsDomainSuffix(t, tmpaddr) <==> t == tmpaddr)
               ensures IndexDot(tmpaddr) >= 0 ==>
                         (IsDomainSuffix(t, tmpaddr) <==> t == tmpaddr || IsDomainSuffix(t, tmpaddr[IndexDot(tmpaddr) + 1..]))
      {
        SuffixStep(t, tmpaddr);
      }
      if index < 0 {
        return None, hit;
      }
      SelfSuffix(tmpaddr[index + 1..]);
      tmpaddr := tmpaddr[index + 1..];
    }
  }

  lemma SelfSuffix(t: string)
    ensures IsDomainSuffix(t, t)
  {
  }

  lemma KnownSuffixes()
    ensures IsDomainSuffix("b.com", "a.b.com") && IsDomainSuffix("com", "a.b.com") && !IsDomainSuffix("b", "a.b.com")
    ensures !IsDomainSuffix("b.com", "ab.com")
  {
    var name := "a.b.com";
    assert name[1] == '.' && name[2..] == "b.com" && name[3] == '.' && name[4..] == "com";
    forall i | 0 <= i < |name| && name[i] == '.' ensures i == 1 || i == 3 {}
    var other := "ab.com";
    forall i | 0 <= i < |other| && other[i] == '.' ensures i == 2 {}
  }

  lemma SuffixShorter(t: string, name: string)
    requires IsDomainSuffix(t, name)
    ensures |t| <= |name|
  {
  }

  // ---------- the rule table ----------

  datatype Address = V4(ip: nat) | V6

  /** A range list that answers for a rule as the linear scan of the lines does. */
  ghost predicate Indexes(lines: seq<Line>, op: nat, es: seq<Entry>) {
    Disjoint(es) && forall ip :: Contains(es, ip) <==> Listed(lines, op, ip)
  }

  type Routes = map<nat, seq<CIDRRange>>

  /** Every range object belongs to one rule. */
  ghost predicate Owned(routes: Routes, owner: map<CIDRRange, nat>) {
    forall op, k :: op in routes && 0 <= k < |routes[op]| ==> routes[op][k] in owner && owner[routes[op][k]] == op
  }

  lemma AppendOwned(routes: Routes, owner: map<CIDRRange, nat>, op: nat, item: CIDRRange)
    requires Owned(routes, owner) && item !in owner && forall o :: o in routes ==> Distinct(routes[o])
    ensures var lst := if op in routes then routes[op] else [];
            && Owned(routes[op := lst + [item]], owner[item := op])
            && Distinct(lst + [item])
  {
    var lst := if op in routes then routes[op] else [];
    assert forall k :: 0 <= k < |lst| ==> lst[k] in owner;
  }

  lemma NoLines()
    ensures NameTable([]) == map[] && Owned(map[], map[]) && forall op :: RangesFor([], op) == []
  {
  }

  lemma OneMoreLine(ls: seq<Line>, i: nat)
    requires WellFormed(ls) && i < |ls|
    ensures WellFormed(ls[..i]) && WellFormed(ls[..i + 1]) && (ls[i].V4Cidr? ==> ls[i].prefix <= 32)
    ensures NameTable(ls[..i + 1]) == if ls[i].Name? then NameTable(ls[..i])[ls[i].addr := ls[i].op] else NameTable(ls[..i])
    ensures forall op :: RangesFor(ls[..i + 1], op)
                      == RangesFor(ls[..i], op) + if ls[i].V4Cidr? && ls[i].op == op then [RangeOf(ls[i])] else []
  {
    assert ls[..i + 1][..i] == ls[..i] && ls[..i + 1][i] == ls[i];
  }

  lemma AllLines(ls: seq<Line>)
    requires WellFormed(ls)
    ensures ls[..|ls|] == ls && forall i :: 0 <= i <= |ls| ==> WellFormed(ls[..i])
  {
  }

  /** The line loop of `onLoad`. */
  method ReadLines(ls: seq<Line>) returns (names: map<string, nat>, routes: Routes, ghost owner: map<CIDRRange, nat>)
    requires WellFormed(ls)
    ensures names == NameTable(ls)
    ensures Owned(routes, owner) && forall r :: r in owner ==> fresh(r)
    ensures forall op :: op in routes ==> Distinct(routes[op])
    ensures forall op :: op in routes ==> Values(routes[op]) == RangesFor(ls, op)
    ensures forall op :: op in routes <==> RangesFor(ls, op) != []
  {
    hide ResolveIPRange, NameTable, RangesFor, WellFormed, Owned, Distinct;
    names, routes, owner := map[], map[], map[];
    NoLines();
    AllLines(ls);
    for i := 0 to |ls|
      invariant names == NameTable(ls[..i])
      invariant Owned(routes, owner) && forall r :: r in owner ==> fresh(r)
      invariant forall op :: op in routes ==> Distinct(routes[op])
      invariant forall op :: op in routes ==> Values(routes[op]) == RangesFor(ls[..i], op)
      invariant forall op :: op in routes <==> RangesFor(ls[..i], op) != []
    {
      var l := ls[i];
      OneMoreLine(ls, i);
      match l {
        case Name(addr, op) =>
          names := names[addr := op];
        case V6Cidr(_) =>
        case V4Cidr(text, src, prefix, op) =>
          var (st, ed) := ResolveIPRange(src, prefix);
          var item := new CIDRRange(st, ed, [text]);
          assert item !in owner;
          var lst := if op in routes then routes[op] else [];
          assert Values(lst + [item]) == Values(lst) + [RangeOf(l)];
          AppendOwned(routes, owner, op, item);
          routes := routes[op := lst + [item]];
          owner := owner[item := op];
      }
    }
  }

  class Rule {
    var domain: map<string, nat>
    var routeV4: Routes
    ghost var lines: seq<Line>

    /** The tables answer as the lines do. */
    ghost predicate Valid()
      reads this, set op, k | op in routeV4 && 0 <= k < |routeV4[op]| :: routeV4[op][k]
    {
      && domain == NameTable(lines)
      && (forall op :: op in routeV4 ==> Indexes(lines, op, Values(routeV4[op])))
      && (forall op, ip :: op !in routeV4 ==> !Listed(lines, op, ip))
    }

    constructor ()
      ensures Valid() && lines == []
    {
      domain, routeV4, lines := map[], map[], [];
    }

    /** `onLoad` and `onLoadSucc`: new tables from the parsed lines of the file, each rule's ranges
        sorted and merged in whatever order the map yields the rules. */
    method Load(ls: seq<Line>)
      requires WellFormed(ls)
      modifies this
      ensures Valid() && lines == ls
      ensures forall op :: op in routeV4 <==> RangesFor(ls, op) != []
    {
      hide Indexes, RangesFor, NameTable, WellFormed, Distinct, Owned;
      var names, routes, owner := ReadLines(ls);
      var merged := MergeAll(ls, routes, owner);
      domain, routeV4, lines := names, merged, ls;
      forall op, ip | op !in routeV4 ensures !Listed(lines, op, ip) { NotListed(ls, op, ip); }
    }

    /** `CheckAndGetRuleOptional` on a trimmed name. `parsed` is the name read as an address,
        `resolved` what resolution would give, `v6` the verdict of the IPv6 nets. Against the lines:
        a name gets the rule of its longest listed suffix; an IPv4 address not listed as a name gets,
        whatever the map order, a rule that has a matching line, and the default, the proxy's rule 2, only if none has. */
    method CheckAndGetRuleOptional(addr: string, safe: bool, parsed: Option<Address>, resolved: Option<Address>, v6: Option<nat>)
      returns (rule: nat, ok: bool)
      requires Valid()
      ensures var names := NameTable(lines);
              var listed := exists t :: t in names && IsDomainSuffix(t, addr);
              && (parsed == None && listed ==>
                    ok && exists t :: t in names && IsDomainSuffix(t, addr) && rule == names[t]
                                      && forall u :: u in names && IsDomainSuffix(u, addr) ==> |u| <= |t|)
              && (parsed == None && !listed && (!safe || resolved == None) ==> !ok && rule == 2)
              && (parsed.Some? && addr in names ==> ok && rule == names[addr])
              && (var ip := if parsed.Some? then parsed else if listed || !safe then None else resolved;
                  ip.Some? && addr !in names ==>
                    match ip.value
                    case V4(x) => if ok then Listed(lines, rule, x) else rule == 2 && forall op :: !Listed(lines, op, x)
                    case V6 => if v6.Some? then ok && rule == v6.value else !ok && rule == 2)
    {
      hide NameTable, IsDomainSuffix, Listed, Disjoint;
      var ip := parsed;
      if ip == None {
        var v, hit := LookupName(domain, addr);
        if v.Some? {
          return v.value, true;
        }
        if !safe || resolved == None {
          return DEFAULT_RULE, false;
        }
        ip := resolved;
      }
      if addr in domain {
        if parsed == None { SelfSuffix(addr); }
        return domain[addr], true;
      }
      match ip.value {
        case V4(x) =>
          rule, ok := CheckV4(x);
        case V6 =>
          if v6.Some? {
            return v6.value, true;
          }
          return DEFAULT_RULE, false;
      }
    }

    /** The loop over the rules' range lists, in any order. */
    method CheckV4(x: nat) returns (rule: nat, ok: bool)
      requires Valid()
      ensures if ok then Listed(lines, rule, x) else rule == 2 && forall op :: !Listed(lines, op, x)
    {
      hide NameTable, Listed;
      var todo := routeV4.Keys;
      while todo != {}
        invariant todo <= routeV4.Keys
        invariant forall op :: op in routeV4 && op !in todo ==> !Listed(lines, op, x)
        decreases todo
      {
        var op :| op in todo;
        assert Indexes(lines, op, Values(routeV4[op]));
        var found := CheckIPInRangeList(x, routeV4[op]);
        if found {
          return op, true;
        }
        todo := todo - {op};
      }
      return DEFAULT_RULE, false;
    }
  }

  /** The last loop of `onLoad`: every rule's ranges, in whatever order the map yields the rules. */
  method MergeAll(ghost ls: seq<Line>, routes: Routes, ghost owner: map<CIDRRange, nat>) returns (merged: Routes)
    requires WellFormed(ls) && Owned(routes, owner)
    requires forall op :: op in routes ==> Distinct(routes[op]) && Values(routes[op]) == RangesFor(ls, op)
    modifies owner.Keys
    ensures merged.Keys == routes.Keys
    ensures forall op :: op in merged ==> Indexes(ls, op, Values(merged[op]))
  {
    hide RangeList.Sorted, Indexes, RangesFor, RangeList.Merge, WellFormed, Distinct;
    var todo := routes.Keys;
    merged := map[];
    while todo != {}
      invariant todo <= routes.Keys && merged.Keys == routes.Keys - todo
      invariant Owned(merged, owner)
      invariant forall op :: op in todo ==> Values(routes[op]) == RangesFor(ls, op)
      invariant forall op :: op in merged ==> Indexes(ls, op, Values(merged[op]))
      decreases todo
    {
      var rule :| rule in todo;
      var lst := routes[rule];
      ApartByOwner(merged, routes, owner, rule);
      ApartByOwner(routes, routes, owner, rule);
      var tmp, es := MergeRule(lst);
      IndexBuilt(ls, rule, es);
      merged := merged[rule := tmp];
      todo := todo - {rule};
    }
  }

  lemma ApartByOwner(a: Routes, b: Routes, owner: map<CIDRRange, nat>, rule: nat)
    requires Owned(a, owner) && Owned(b, owner) && rule in b
    ensures forall op :: op in a && op != rule ==> Apart(a[op], b[rule])
  {
  }

  ghost predicate Apart(a: seq<CIDRRange>, b: seq<CIDRRange>) {
    forall k, l :: 0 <= k < |a| && 0 <= l < |b| ==> a[k] != b[l]
  }

  /** `routeV4[rule] = sortAndMerge(lst)`. */
  method MergeRule(lst: seq<CIDRRange>) returns (tmp: seq<CIDRRange>, ghost es: seq<Entry>)
    requires Distinct(lst)
    modifies lst
    ensures Sorted(es) && multiset(es) == multiset(old(Values(lst)))
    ensures Values(tmp) == Merge(es)
    ensures forall k :: 0 <= k < |tmp| ==> tmp[k] in lst
  {
    var view := new CIDRRange[|lst|](i requires 0 <= i < |lst| => lst[i]);
    assert view[..] == lst;
    tmp, es := SortAndMerge(view);
  }

  lemma IndexBuilt(ls: seq<Line>, op: nat, es: seq<Entry>)
    requires WellFormed(ls) && Sorted(es) && multiset(es) == multiset(RangesFor(ls, op))
    ensures Indexes(ls, op, Merge(es))
  {
    IndexIsLinearScan(ls, op, es, 0);
    forall ip: nat ensures Contains(Merge(es), ip) <==> Listed(ls, op, ip) { IndexIsLinearScan(ls, op, es, ip); }
  }

  lemma NotListed(ls: seq<Line>, op: nat, ip: nat)
    requires WellFormed(ls) && RangesFor(ls, op) == []
    ensures !Listed(ls, op, ip)
  {
    RangesMatchLines(ls, op, ip);
  }
}
