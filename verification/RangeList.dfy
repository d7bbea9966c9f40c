/** Sorting, merging and searching address ranges (check/host.go) as functions on sequences. */
module RangeList {
  import opened Cidr

  datatype Entry = Entry(start: nat, end: nat, cidrs: seq<string>)

  predicate Holds(e: Entry, ip: nat) {
    e.start <= ip <= e.end
  }

  /** The linear scan. */
  ghost predicate Contains(es: seq<Entry>, ip: nat) {
    exists i :: 0 <= i < |es| && Holds(es[i], ip)
  }

  ghost predicate Ordered(es: seq<Entry>) {
    forall i :: 0 <= i < |es| ==> es[i].start <= es[i].end
  }

  predicate Less(a: Entry, b: Entry) {
    if a.start == b.start then a.end < b.end else a.start < b.start
  }

  ghost predicate Sorted(es: seq<Entry>) {
    forall i, j :: 0 <= i < j < |es| ==> !Less(es[j], es[i])
  }

  /** By start, and by end where starts are equal. */
  lemma SortedMeans(es: seq<Entry>, i: nat, j: nat)
    requires Sorted(es) && i < j < |es|
    ensures es[i].start < es[j].start || (es[i].start == es[j].start && es[i].end <= es[j].end)
  {
    assert !Less(es[j], es[i]);
  }

  /** Strictly increasing, pairwise disjoint ranges. */
  ghost predicate Disjoint(es: seq<Entry>) {
    && Ordered(es)
    && forall i, j :: 0 <= i < j < |es| ==> es[i].end < es[j].start
  }

  // ---------- merging ----------

  function Max(a: nat, b: nat): nat {
    if a < b then b else a
  }

  /** The entry `back` after absorbing one that starts inside it. */
  function Absorb(back: Entry, e: Entry): Entry {
    Entry(back.start, Max(back.end, e.end), back.cidrs + e.cidrs)
  }

  /** The merge loop with `back` the last range kept and `rest` still to come. */
  function MergeFrom(back: Entry, rest: seq<Entry>): (m: seq<Entry>)
    ensures |m| >= 1
    decreases |rest|
  {
    if rest == [] then [back]
    else if rest[0].start <= back.end then MergeFrom(Absorb(back, rest[0]), rest[1..])
    else [back] + MergeFrom(rest[0], rest[1..])
  }

  function Merge(es: seq<Entry>): seq<Entry> {
    if es == [] then [] else MergeFrom(es[0], es[1..])
  }

  lemma MergeFromStep(back: Entry, rest: seq<Entry>)
    ensures rest == [] ==> MergeFrom(back, rest) == [back]
    ensures rest != [] && rest[0].start <= back.end ==> MergeFrom(back, rest) == MergeFrom(Absorb(back, rest[0]), rest[1..])
    ensures rest != [] && back.end < rest[0].start ==> MergeFrom(back, rest) == [back] + MergeFrom(rest[0], rest[1..])
  {
  }

  lemma ContainsCons(e: Entry, es: seq<Entry>, ip: nat)
    ensures Contains([e] + es, ip) <==> Holds(e, ip) || Contains(es, ip)
  {
    var all := [e] + es;
    if Holds(e, ip) { assert Holds(all[0], ip); }
    if Contains(es, ip) {
      var i :| 0 <= i < |es| && Holds(es[i], ip);
      assert Holds(all[i + 1], ip);
    }
    if Contains(all, ip) {
      var i :| 0 <= i < |all| && Holds(all[i], ip);
      if i > 0 { assert es[i - 1] == all[i]; }
    }
  }

  /** What the merge loop keeps: the covered addresses, the first start, and disjointness. */
  lemma {:induction false} MergeFromKeeps(back: Entry, rest: seq<Entry>, ip: nat)
    requires back.start <= back.end && Ordered(rest) && Sorted(rest)
    requires forall i :: 0 <= i < |rest| ==> back.start <= rest[i].start
    ensures Contains(MergeFrom(back, rest), ip) <==> Holds(back, ip) || Contains(rest, ip)
    ensures Disjoint(MergeFrom(back, rest)) && MergeFrom(back, rest)[0].start == back.start
    decreases |rest|
  {
    if rest == [] {
      ContainsCons(back, [], ip);
      assert [back] + [] == [back];
    } else {
      var e, tail := rest[0], rest[1..];
      SortedTail(rest);
      ContainsCons(e, tail, ip);
      assert rest == [e] + tail;
      if e.start <= back.end {
        MergeFromKeeps(Absorb(back, e), tail, ip);
      } else {
        MergeFromKeeps(e, tail, ip);
        var m := MergeFrom(e, tail);
        ContainsCons(back, m, ip);
        DisjointCons(back, m);
      }
    }
  }

  lemma SortedTail(es: seq<Entry>)
    requires es != [] && Sorted(es)
    ensures Sorted(es[1..])
    ensures forall i :: 0 <= i < |es[1..]| ==> es[0].start <= es[1..][i].start
    ensures Ordered(es) ==> Ordered(es[1..])
  {
    forall i | 0 <= i < |es[1..]| ensures es[0].start <= es[1..][i].start {
      assert !Less(es[i + 1], es[0]);
    }
  }

  lemma DisjointCons(e: Entry, es: seq<Entry>)
    requires e.start <= e.end && Disjoint(es) && (es != [] ==> e.end < es[0].start)
    ensures Disjoint([e] + es)
  {
    var all := [e] + es;
    assert forall i :: 0 < i < |all| ==> all[i] == es[i - 1];
    forall i, j | 0 <= i < j < |all| ensures all[i].end < all[j].start {
      if i == 0 && j > 1 { assert es[0].end < es[j - 1].start; }
    }
  }

  /** `sortAndMerge` keeps the covered addresses and produces strictly increasing disjoint ranges. */
  lemma MergeKeeps(es: seq<Entry>, ip: nat)
    requires Ordered(es) && Sorted(es)
    ensures Contains(Merge(es), ip) <==> Contains(es, ip)
    ensures Disjoint(Merge(es))
  {
    if es != [] {
      var back, rest := es[0], es[1..];
      assert es == [back] + rest;
      SortedTail(es);
      ContainsCons(back, rest, ip);
      MergeFromKeeps(back, rest, ip);
    }
  }

  /** The texts a list of ranges carries, in order. */
  function Texts(es: seq<Entry>): seq<string> {
    if es == [] then [] else es[0].cidrs + Texts(es[1..])
  }

  lemma {:induction false} MergeFromKeepsTexts(back: Entry, rest: seq<Entry>)
    ensures Texts(MergeFrom(back, rest)) == back.cidrs + Texts(rest)
    decreases |rest|
  {
    if rest == [] {
      assert Texts([back]) == back.cidrs + Texts([back][1..]);
    } else {
      var e, tail := rest[0], rest[1..];
      if e.start <= back.end {
        MergeFromKeepsTexts(Absorb(back, e), tail);
        assert (back.cidrs + e.cidrs) + Texts(tail) == back.cidrs + (e.cidrs + Texts(tail));
      } else {
        MergeFromKeepsTexts(e, tail);
        assert ([back] + MergeFrom(e, tail))[1..] == MergeFrom(e, tail);
      }
    }
  }

  /** The lines a range was merged from stay with it: no text is lost, repeated or moved. */
  lemma MergeKeepsTexts(es: seq<Entry>)
    ensures Texts(Merge(es)) == Texts(es)
  {
    if es != [] { MergeFromKeepsTexts(es[0], es[1..]); }
  }

  // ---------- on CIDR input ----------

  ghost predicate Blocks(es: seq<Entry>) {
    forall i :: 0 <= i < |es| ==> IsBlock(es[i].start, es[i].end)
  }

  predicate SameRange(a: Entry, b: Entry) {
    a.start == b.start && a.end == b.end
  }

  predicate Inside(a: Entry, b: Entry) {
    b.start <= a.start && a.end <= b.end
  }

  /** `back.End` is extended only by a block with the same start. */
  lemma ExtensionOnlyAtEqualStarts(back: Entry, e: Entry)
    requires IsBlock(back.start, back.end) && IsBlock(e.start, e.end)
    requires back.start <= e.start <= back.end
    ensures e.end > back.end ==> e.start == back.start
    ensures SameRange(Absorb(back, e), back) || SameRange(Absorb(back, e), e)
    ensures Inside(e, Absorb(back, e)) && Inside(back, Absorb(back, e))
  {
    Laminar(back.start, back.end, e.start, e.end);
  }

  ghost predicate RangeIn(m: Entry, es: seq<Entry>) {
    exists i :: 0 <= i < |es| && SameRange(m, es[i])
  }

  ghost predicate Covered(e: Entry, es: seq<Entry>) {
    exists i :: 0 <= i < |es| && Inside(e, es[i])
  }

  /** On blocks, every merged range is one of the inputs and every input lies inside a merged one. */
  lemma {:induction false} MergeFromBlocks(back: Entry, rest: seq<Entry>)
    requires IsBlock(back.start, back.end) && Blocks(rest) && Sorted(rest)
    requires forall i :: 0 <= i < |rest| ==> back.start <= rest[i].start
    ensures forall k :: 0 <= k < |MergeFrom(back, rest)| ==> SameRange(MergeFrom(back, rest)[k], back) || RangeIn(MergeFrom(back, rest)[k], rest)
    ensures Covered(back, MergeFrom(back, rest))
    ensures forall i :: 0 <= i < |rest| ==> Covered(rest[i], MergeFrom(back, rest))
    decreases |rest|
  {
    var m := MergeFrom(back, rest);
    if rest == [] {
      assert Inside(back, m[0]);
    } else {
      var e, tail := rest[0], rest[1..];
      SortedTail(rest);
      if e.start <= back.end {
        var b := Absorb(back, e);
        ExtensionOnlyAtEqualStarts(back, e);
        MergeFromBlocks(b, tail);
        InsideIsCovered(e, b, m);
        InsideIsCovered(back, b, m);
        forall k | 0 <= k < |m| ensures SameRange(m[k], back) || RangeIn(m[k], rest) {
          if SameRange(m[k], b) { assert SameRange(m[k], back) || SameRange(m[k], rest[0]); } else { RangeInTail(m[k], rest); }
        }
      } else {
        MergeFromBlocks(e, tail);
        var t := MergeFrom(e, tail);
        assert Inside(back, m[0]);
        CoveredCons(e, back, t);
        forall i | 0 <= i < |tail| ensures Covered(tail[i], m) { CoveredCons(tail[i], back, t); }
        forall k | 0 <= k < |m| ensures SameRange(m[k], back) || RangeIn(m[k], rest) {
          if k > 0 {
            assert m[k] == t[k - 1];
            if SameRange(m[k], e) { assert SameRange(m[k], rest[0]); } else { RangeInTail(m[k], rest); }
          }
        }
      }
      forall i | 0 <= i < |rest| ensures Covered(rest[i], m) {
        if i > 0 { assert rest[i] == tail[i - 1]; }
      }
    }
  }

  lemma InsideIsCovered(a: Entry, b: Entry, es: seq<Entry>)
    requires Inside(a, b) && Covered(b, es)
    ensures Covered(a, es)
  {
    var i :| 0 <= i < |es| && Inside(b, es[i]);
    assert Inside(a, es[i]);
  }

  lemma CoveredCons(a: Entry, first: Entry, es: seq<Entry>)
    requires Covered(a, es)
    ensures Covered(a, [first] + es)
  {
    var i :| 0 <= i < |es| && Inside(a, es[i]);
    assert ([first] + es)[i + 1] == es[i];
  }

  lemma RangeInTail(m: Entry, es: seq<Entry>)
    requires es != [] && RangeIn(m, es[1..])
    ensures RangeIn(m, es)
  {
    var i :| 0 <= i < |es[1..]| && SameRange(m, es[1..][i]);
    assert es[1..][i] == es[i + 1];
  }

  ghost predicate Maximal(e: Entry, es: seq<Entry>) {
    forall i :: 0 <= i < |es| ==> Inside(e, es[i]) ==> SameRange(e, es[i])
  }

  /** The same for a whole list. */
  lemma MergeBlocks(es: seq<Entry>)
    requires Blocks(es) && Sorted(es)
    ensures forall k :: 0 <= k < |Merge(es)| ==> RangeIn(Merge(es)[k], es)
    ensures forall i :: 0 <= i < |es| ==> Covered(es[i], Merge(es))
  {
    if es != [] {
      var back, rest, m := es[0], es[1..], Merge(es);
      SortedTail(es);
      MergeFromBlocks(back, rest);
      forall k | 0 <= k < |m| ensures RangeIn(m[k], es) {
        if SameRange(m[k], back) { assert SameRange(m[k], es[0]); } else { RangeInTail(m[k], es); }
      }
      forall i | 0 <= i < |es| ensures Covered(es[i], m) {
        if i > 0 { assert es[i] == rest[i - 1]; }
      }
    }
  }

  /** On CIDR input the output is exactly the maximal input blocks: every output range is an input
      block no other input properly contains, and every such input block is an output range. */
  lemma MergeIsMaximalBlocks(es: seq<Entry>)
    requires Blocks(es) && Ordered(es) && Sorted(es)
    ensures forall k :: 0 <= k < |Merge(es)| ==> RangeIn(Merge(es)[k], es) && Maximal(Merge(es)[k], es)
    ensures forall i :: 0 <= i < |es| && Maximal(es[i], es) ==> RangeIn(es[i], Merge(es))
  {
    hide Merge, Blocks, Disjoint, IsBlock, Maximal, RangeIn, Covered;
    var m := Merge(es);
    MergeBlocks(es);
    MergeKeeps(es, 0);
    forall k | 0 <= k < |m| ensures Maximal(m[k], es) { CoveredBySelf(m, k, es); }
    forall i | 0 <= i < |es| && Maximal(es[i], es) ensures RangeIn(es[i], m) { MaximalIsKept(m, i, es); }
  }

  lemma MaximalIsKept(m: seq<Entry>, i: nat, es: seq<Entry>)
    requires i < |es| && Maximal(es[i], es) && Covered(es[i], m)
    requires forall k :: 0 <= k < |m| ==> RangeIn(m[k], es)
    ensures RangeIn(es[i], m)
  {
    var k :| 0 <= k < |m| && Inside(es[i], m[k]);
    var j :| 0 <= j < |es| && SameRange(m[k], es[j]);
    assert Inside(es[i], es[j]);
    assert SameRange(es[i], m[k]);
  }

  lemma CoveredBySelf(m: seq<Entry>, k: nat, es: seq<Entry>)
    requires k < |m| && Disjoint(m)
    requires forall i :: 0 <= i < |es| ==> Covered(es[i], m)
    ensures Maximal(m[k], es)
  {
    forall i | 0 <= i < |es| && Inside(m[k], es[i]) ensures SameRange(m[k], es[i]) {
      var j :| 0 <= j < |m| && Inside(es[i], m[j]);
      assert m[k].start <= m[k].end;
    }
  }
}
