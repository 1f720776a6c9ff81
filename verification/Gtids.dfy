// The Gtid and GtidSet objects.
module Gtids {
  import opened Binary
  import opened Intervals
  import opened GtidText
  import opened GtidCodec

  // ---- what the operators do, on values ----

  // Every operator starts from a copy made by printing and parsing; None when that raises.
  function Copy(a: Parsed): Option<Parsed> {
    Construct(Str(a))
  }

  function Plus(a: Parsed, b: Parsed): Option<Parsed> {
    if a.sid != b.sid then None
    else match Copy(a)
         case None => None
         case Some(c) =>
           match AddAll(c.intervals, b.intervals)
           case None => None
           case Some(xs) => Some(Parsed(c.sid, xs))
  }

  function Minus(a: Parsed, b: Parsed): Option<Parsed> {
    match Copy(a)
    case None => None
    case Some(c) =>
      if a.sid != b.sid then Some(c)
      else match RemoveAll(c.intervals, b.intervals)
           case None => None
           case Some(xs) => Some(Parsed(c.sid, xs))
  }

  // Printed and parsed again, a GTID is itself; with no interval left it cannot be copied.
  lemma CopyIs(a: Parsed)
    requires IsSid(a.sid) && Canonical(a.intervals) && Printable(a.intervals)
    ensures Copy(a) == if a.intervals == [] then None else Some(a)
  {
    hide Parse, Str, AddAll;
    if a.intervals == [] {
      StrOfNothing(a.sid);
    } else {
      ParseStr(a);
      AddAllFromNothing(a.intervals);
    }
  }

  // Over pairs of source and transaction: a + b is refused exactly when the sources differ, a is empty or
  // a transaction is in both, and otherwise is the union; a - b is refused exactly when a is empty, and
  // otherwise has the pairs of a that are not in b.
  lemma OperatorsSound(a: Parsed, b: Parsed)
    requires IsSid(a.sid) && Canonical(a.intervals) && Printable(a.intervals)
    requires a.sid == b.sid ==> Canonical(b.intervals)
    ensures Plus(a, b).None? <==> a.sid != b.sid || a.intervals == [] || Common(a.intervals, b.intervals)
    ensures Plus(a, b).Some? ==>
              var c := Plus(a, b).value;
              && c.sid == a.sid && Canonical(c.intervals)
              && forall n :: In(n, c.intervals) <==> In(n, a.intervals) || In(n, b.intervals)
    ensures Minus(a, b).None? <==> a.intervals == []
    ensures Minus(a, b).Some? ==>
              var c := Minus(a, b).value;
              && c.sid == a.sid && Canonical(c.intervals)
              && forall n :: In(n, c.intervals) <==> In(n, a.intervals) && !(a.sid == b.sid && In(n, b.intervals))
  {
    hide Copy, AddAll, RemoveAll, Canonical, In;
    CopyIs(a);
    if a.sid == b.sid {
      AddAllSound(a.intervals, b.intervals);
      RemoveAllSound(a.intervals, b.intervals);
    }
  }

  // For a non-empty a with nothing in common with b: (a + b) - b is a, and a + b is b + a.
  lemma PlusThenMinus(a: Parsed, b: Parsed)
    requires IsSid(a.sid) && Canonical(a.intervals) && Printable(a.intervals) && a.intervals != []
    requires Canonical(b.intervals) && Printable(b.intervals) && a.sid == b.sid && !Common(a.intervals, b.intervals)
    ensures Plus(a, b).Some? && Minus(Plus(a, b).value, b) == Some(a)
    ensures b.intervals != [] ==> Plus(b, a) == Plus(a, b)
  {
    hide Copy, AddAll, RemoveAll, Canonical, In;
    CopyIs(a);
    CopyIs(b);
    AddThenRemove(a.intervals, b.intervals);
    OperatorsSound(a, b);
    var c := Plus(a, b).value;
    SumPrintable(a.intervals, b.intervals, c.intervals);
    CopyIs(c);
  }

  lemma SumPrintable(a: seq<Interval>, b: seq<Interval>, c: seq<Interval>)
    requires Canonical(a) && Printable(a) && Printable(b) && Canonical(c) && a != []
    requires forall n :: In(n, c) <==> In(n, a) || In(n, b)
    ensures Printable(c) && c != []
  {
    InHead(a[0].lo, a);
    assert In(a[0].lo, c);
    forall x | x in c
      ensures 0 <= x.lo < x.hi
    {
      var i :| 0 <= i < |c| && c[i] == x;
      assert Inside(x.lo, c[i]);
      assert In(x.lo, c);
      if k :| 0 <= k < |a| && Inside(x.lo, a[k]) {
        assert a[k] in a;
      } else {
        var k :| 0 <= k < |b| && Inside(x.lo, b[k]);
        assert b[k] in b;
      }
    }
  }

  // ---- the objects ----

  lemma CutNothing(itvl: Interval)
    ensures Cut([], itvl) == []
  {
  }

  lemma CutStep(xs: seq<Interval>, itvl: Interval, pieces: seq<Interval>, kept: seq<Interval>)
    requires xs != [] && pieces == Pieces(xs[0], itvl)
    ensures kept + Cut(xs, itvl) == kept + pieces + Cut(xs[1..], itvl)
  {
    assert kept + (pieces + Cut(xs[1..], itvl)) == kept + pieces + Cut(xs[1..], itvl);
  }

  class Gtid {
    const sid: string
    var intervals: seq<Interval>

    function View(): Parsed
      reads this
    {
      Parsed(sid, intervals)
    }

    constructor (sid: string)
      ensures this.sid == sid && intervals == []
    {
      this.sid, intervals := sid, [];
    }

    // The constructor on a text; null when it raises.
    static method FromText(text: string) returns (g: Gtid?)
      ensures (g == null) == Construct(text).None?
      ensures g != null ==> fresh(g) && Some(g.View()) == Construct(text)
    {
      var parsed := Parse(text);
      if parsed.None? {
        return null;
      }
      g := new Gtid(parsed.value.sid);
      var ok := g.AddIntervals(parsed.value.intervals);
      if !ok {
        return null;
      }
    }

    // Adds an interval, merging it with those it touches; false, with nothing changed, when it is
    // malformed or overlaps.
    method AddInterval(itvl: Interval) returns (ok: bool)
      modifies this`intervals
      ensures ok == Added(old(intervals), itvl).Some?
      ensures intervals == if ok then Added(old(intervals), itvl).value else old(intervals)
    {
      hide Sorted;
      if itvl.lo > itvl.hi {
        return false;
      }
      if exists x :: x in intervals && Overlap(x, itvl) {
        return false;
      }
      var existing := Sorted(intervals);
      var kept: seq<Interval> := [];
      var grown := itvl;
      assert existing[0..] == existing && kept + Absorb(existing, itvl).0 == Absorb(existing, itvl).0;
      for i := 0 to |existing|
        invariant Absorb(existing, itvl)
               == (kept + Absorb(existing[i..], grown).0, Absorb(existing[i..], grown).1)
      {
        assert existing[i..][1..] == existing[i + 1..];
        ghost var rest := Absorb(existing[i + 1..], grown).0;
        if grown.lo == existing[i].hi {
          grown := Interval(existing[i].lo, grown.hi);
          continue;
        }
        if grown.hi == existing[i].lo {
          grown := Interval(grown.lo, existing[i].hi);
          continue;
        }
        assert kept + ([existing[i]] + rest) == kept + [existing[i]] + rest;
        kept := kept + [existing[i]];
      }
      assert kept + [] == kept;
      intervals := Sorted(kept + [grown]);
      return true;
    }

    // Removes an interval; false when it is malformed.
    method SubInterval(itvl: Interval) returns (ok: bool)
      modifies this`intervals
      ensures ok == Removed(old(intervals), itvl).Some?
      ensures intervals == if ok then Removed(old(intervals), itvl).value else old(intervals)
    {
      hide Sorted, Cut;
      if itvl.lo > itvl.hi {
        return false;
      }
      if !(exists x :: x in intervals && Overlap(x, itvl)) {
        return true;
      }
      var sorted := Sorted(intervals);
      var kept: seq<Interval> := [];
      assert sorted[0..] == sorted && kept + Cut(sorted, itvl) == Cut(sorted, itvl);
      for i := 0 to |sorted|
        invariant Cut(sorted, itvl) == kept + Cut(sorted[i..], itvl)
      {
        assert sorted[i..][1..] == sorted[i + 1..];
        var existing := sorted[i];
        var pieces: seq<Interval> := [];
        if Overlap(existing, itvl) {
          if existing.lo < itvl.lo {
            pieces := pieces + [Interval(existing.lo, itvl.lo)];
          }
          if existing.hi > itvl.hi {
            pieces := pieces + [Interval(itvl.hi, existing.hi)];
          }
        } else {
          pieces := pieces + [existing];
        }
        CutStep(sorted[i..], itvl, pieces, kept);
        kept := kept + pieces;
      }
      CutNothing(itvl);
      assert kept + [] == kept;
      intervals := kept;
      return true;
    }

    // Adds intervals one by one until one is refused.
    method AddIntervals(ys: seq<Interval>) returns (ok: bool)
      modifies this`intervals
      ensures ok == AddAll(old(intervals), ys).Some?
      ensures ok ==> intervals == AddAll(old(intervals), ys).value
    {
      hide Added;
      assert ys[0..] == ys;
      for i := 0 to |ys|
        invariant AddAll(old(intervals), ys) == AddAll(intervals, ys[i..])
      {
        assert ys[i..][1..] == ys[i + 1..];
        var added := AddInterval(ys[i]);
        if !added {
          return false;
        }
      }
      return true;
    }

    method SubIntervals(ys: seq<Interval>) returns (ok: bool)
      modifies this`intervals
      ensures ok == RemoveAll(old(intervals), ys).Some?
      ensures ok ==> intervals == RemoveAll(old(intervals), ys).value
    {
      hide Removed;
      assert ys[0..] == ys;
      for i := 0 to |ys|
        invariant RemoveAll(old(intervals), ys) == RemoveAll(intervals, ys[i..])
      {
        assert ys[i..][1..] == ys[i + 1..];
        var removed := SubInterval(ys[i]);
        if !removed {
          return false;
        }
      }
      return true;
    }

    // self + other; null when it raises.
    method Add(other: Gtid) returns (sum: Gtid?)
      ensures (sum == null) == Plus(View(), other.View()).None?
      ensures sum != null ==> fresh(sum) && Some(sum.View()) == Plus(View(), other.View())
    {
      hide Construct, AddAll;
      if sid != other.sid {
        return null;
      }
      sum := FromText(Str(View()));
      if sum == null {
        return null;
      }
      var ok := sum.AddIntervals(other.intervals);
      if !ok {
        return null;
      }
    }

    // self - other; null when it raises.
    method Subtract(other: Gtid) returns (difference: Gtid?)
      ensures (difference == null) == Minus(View(), other.View()).None?
      ensures difference != null ==> fresh(difference) && Some(difference.View()) == Minus(View(), other.View())
    {
      hide Construct, RemoveAll;
      difference := FromText(Str(View()));
      if difference == null || sid != other.sid {
        return difference;
      }
      var ok := difference.SubIntervals(other.intervals);
      if !ok {
        return null;
      }
    }

    // other in self
    predicate Includes(other: Gtid)
      reads this, other
    {
      other.sid == sid && ContainsAll(intervals, other.intervals)
    }
  }

  // Membership is inclusion of the transactions, because the left list is merged.
  lemma IncludesIsInclusion(g: Gtid, other: Gtid)
    requires Canonical(g.intervals) && forall y :: y in other.intervals ==> y.lo < y.hi
    ensures g.Includes(other)
       <==> other.sid == g.sid && forall n :: In(n, other.intervals) ==> In(n, g.intervals)
  {
    ContainsAllIsInclusion(g.intervals, other.intervals);
  }

  // The set holds transaction n of source sid.
  ghost predicate Has(gs: set<Parsed>, sid: string, n: int) {
    exists g :: g in gs && g.sid == sid && In(n, g.intervals)
  }

  ghost predicate WellFormed(gs: set<Parsed>) {
    forall g :: g in gs ==> IsSid(g.sid) && Canonical(g.intervals) && Printable(g.intervals) && g.intervals != []
  }

  function MergedOne(existing: Parsed, g: Parsed): Parsed {
    if existing.sid == g.sid then
      match Plus(existing, g)
      case None => existing
      case Some(sum) => sum
    else existing
  }

  predicate Mergeable(gs: set<Parsed>, g: Parsed) {
    forall e :: e in gs && e.sid == g.sid ==> Plus(e, g).Some?
  }

  function Merged(gs: set<Parsed>, g: Parsed): set<Parsed> {
    (set e | e in gs :: MergedOne(e, g)) + if exists e :: e in gs && e.sid == g.sid then {} else {g}
  }

  class GtidSet {
    var gtids: set<Parsed>

    constructor (gtids: set<Parsed>)
      ensures this.gtids == gtids
    {
      this.gtids := gtids;
    }

    // Adds a GTID, merging it into those of its source; false when one of the sums raises.
    method MergeGtid(g: Parsed) returns (ok: bool)
      modifies this
      ensures ok == Mergeable(old(gtids), g)
      ensures gtids == if ok then Merged(old(gtids), g) else old(gtids)
    {
      hide Plus;
      var merged: set<Parsed> := {};
      var found := false;
      var todo := gtids;
      while todo != {}
        invariant todo <= gtids == old(gtids)
        invariant merged == set e | e in gtids - todo :: MergedOne(e, g)
        invariant Mergeable(gtids - todo, g)
        invariant found <==> exists e :: e in gtids - todo && e.sid == g.sid
      {
        var existing :| existing in todo;
        if existing.sid == g.sid {
          var sum := Plus(existing, g);
          if sum.None? {
            return false;
          }
          merged := merged + {sum.value};
          found := true;
        } else {
          merged := merged + {existing};
        }
        assert gtids - (todo - {existing}) == (gtids - todo) + {existing};
        todo := todo - {existing};
      }
      assert gtids - todo == gtids;
      if !found {
        merged := merged + {g};
      }
      gtids := merged;
      return true;
    }

    // self + other for a set: a copy, into which the others are merged in the order they are met; null
    // when one of the sums raises.
    method AddSet(other: GtidSet) returns (sum: GtidSet?, ghost order: seq<Parsed>)
      ensures Enumerates(order, other.gtids)
      ensures (sum == null) == MergeAll(gtids, order).None?
      ensures sum != null ==> fresh(sum) && Some(sum.gtids) == MergeAll(gtids, order)
    {
      hide Mergeable, Merged;
      order := SomeOrder(other.gtids);
      var merging := new GtidSet(gtids);
      ghost var met: seq<Parsed> := [];
      var todo := other.gtids;
      MergeNothing(gtids);
      while todo != {}
        invariant todo <= other.gtids && Enumerates(met, other.gtids - todo)
        invariant fresh(merging) && MergeAll(gtids, met) == Some(merging.gtids)
      {
        var g :| g in todo;
        ghost var before := merging.gtids;
        var ok := merging.MergeGtid(g);
        MergeOneMore(gtids, met, g);
        if !ok {
          ghost var left := SomeOrder(todo - {g});
          order := met + [g] + left;
          MergeFails(gtids, met + [g], left);
          EnumerateBoth(met, other.gtids - todo, [g], {g});
          EnumerateBoth(met + [g], other.gtids - todo + {g}, left, todo - {g});
          assert other.gtids - todo + {g} + (todo - {g}) == other.gtids;
          return null, order;
        }
        EnumerateBoth(met, other.gtids - todo, [g], {g});
        assert other.gtids - todo + {g} == other.gtids - (todo - {g});
        todo := todo - {g};
        met := met + [g];
      }
      assert other.gtids - todo == other.gtids;
      return merging, met;
    }
  }

  // Merging gives the union, source by source.
  lemma MergedSound(gs: set<Parsed>, g: Parsed)
    requires WellFormed(gs + {g}) && Mergeable(gs, g)
    ensures WellFormed(Merged(gs, g))
    ensures forall sid, n :: Has(Merged(gs, g), sid, n) <==> Has(gs, sid, n) || (sid == g.sid && In(n, g.intervals))
  {
    hide Plus, Canonical, In, IsSid, Printable;
    forall e | e in gs
      ensures var m := MergedOne(e, g);
              && m.sid == e.sid && WellFormed({m})
              && forall n :: In(n, m.intervals) <==> In(n, e.intervals) || (e.sid == g.sid && In(n, g.intervals))
    {
      MergedOneSound(e, g);
    }
    var merged := Merged(gs, g);
    forall m | m in merged
      ensures WellFormed({m})
    {
    }
    forall sid, n
      ensures Has(merged, sid, n) <==> Has(gs, sid, n) || (sid == g.sid && In(n, g.intervals))
    {
      if e :| e in gs && e.sid == sid && In(n, e.intervals) {
        assert MergedOne(e, g) in merged;
      }
      if sid == g.sid && In(n, g.intervals) {
        if e :| e in gs && e.sid == g.sid {
          assert MergedOne(e, g) in merged;
        } else {
          assert g in merged;
        }
      }
    }
  }

  lemma MergedOneSound(e: Parsed, g: Parsed)
    requires WellFormed({e}) && WellFormed({g}) && (e.sid == g.sid ==> Plus(e, g).Some?)
    ensures var m := MergedOne(e, g);
            && m.sid == e.sid && WellFormed({m})
            && forall n :: In(n, m.intervals) <==> In(n, e.intervals) || (e.sid == g.sid && In(n, g.intervals))
  {
    assert e in {e} && g in {g};
    if e.sid == g.sid {
      hide Plus;
      OperatorsSound(e, g);
      SumPrintable(e.intervals, g.intervals, Plus(e, g).value.intervals);
    }
  }

  // One GTID for each source, as merging keeps it.
  ghost predicate OnePerSource(gs: set<Parsed>) {
    forall a, b :: a in gs && b in gs && a.sid == b.sid ==> a == b
  }

  lemma MergedOnePerSource(gs: set<Parsed>, g: Parsed)
    requires WellFormed(gs + {g}) && Mergeable(gs, g) && OnePerSource(gs)
    ensures OnePerSource(Merged(gs, g))
  {
    hide Plus, Canonical, In, IsSid, Printable;
    forall e | e in gs
      ensures MergedOne(e, g).sid == e.sid
    {
      MergedOneSound(e, g);
    }
  }

  // g in the set
  predicate SetIncludes(gs: set<Parsed>, g: Parsed) {
    exists x :: x in gs && g.sid == x.sid && ContainsAll(x.intervals, g.intervals)
  }

  // With one GTID for each source, membership in the set is inclusion of the transactions.
  lemma SetIncludesIsInclusion(gs: set<Parsed>, g: Parsed)
    requires WellFormed(gs + {g}) && OnePerSource(gs)
    ensures SetIncludes(gs, g) <==> forall n :: In(n, g.intervals) ==> Has(gs, g.sid, n)
  {
    hide In, ContainsAll;
    forall x | x in gs
      ensures ContainsAll(x.intervals, g.intervals) <==> forall n :: In(n, g.intervals) ==> In(n, x.intervals)
    {
      NoEmptyInterval(g.intervals);
      ContainsAllIsInclusion(x.intervals, g.intervals);
    }
    FirstIn(g.intervals);
    if forall n :: In(n, g.intervals) ==> Has(gs, g.sid, n) {
      var lowest := g.intervals[0].lo;
      assert Has(gs, g.sid, lowest);
      var x :| x in gs && x.sid == g.sid && In(lowest, x.intervals);
      forall n | In(n, g.intervals)
        ensures In(n, x.intervals)
      {
        assert Has(gs, g.sid, n);
      }
    }
  }

  lemma NoEmptyInterval(xs: seq<Interval>)
    requires Canonical(xs)
    ensures forall y :: y in xs ==> y.lo < y.hi
  {
  }

  lemma FirstIn(xs: seq<Interval>)
    requires Canonical(xs) && xs != []
    ensures In(xs[0].lo, xs)
  {
    assert Inside(xs[0].lo, xs[0]);
  }

  // ---- merging whole sets ----

  // In terms of transactions: merging g raises exactly when the set has one of them already.
  lemma MergeableIff(gs: set<Parsed>, g: Parsed)
    requires WellFormed(gs + {g})
    ensures Mergeable(gs, g) <==> !exists n :: In(n, g.intervals) && Has(gs, g.sid, n)
  {
    hide Plus, In, Canonical, IsSid, Printable;
    forall e | e in gs && e.sid == g.sid
      ensures Plus(e, g).None? <==> exists n :: In(n, e.intervals) && In(n, g.intervals)
    {
      OperatorsSound(e, g);
    }
    if n :| In(n, g.intervals) && Has(gs, g.sid, n) {
      var e :| e in gs && e.sid == g.sid && In(n, e.intervals);
      assert Plus(e, g).None?;
    }
    if e :| e in gs && e.sid == g.sid && Plus(e, g).None? {
      var n :| In(n, e.intervals) && In(n, g.intervals);
      assert Has(gs, g.sid, n);
    }
  }

  // Merging one after another.
  function MergeAll(gs: set<Parsed>, order: seq<Parsed>): Option<set<Parsed>>
    decreases |order|
  {
    if order == [] then Some(gs)
    else if !Mergeable(gs, order[0]) then None
    else MergeAll(Merged(gs, order[0]), order[1..])
  }

  ghost predicate Enumerates(order: seq<Parsed>, hs: set<Parsed>) {
    && (forall h :: h in order <==> h in hs)
    && forall i, j :: 0 <= i < j < |order| ==> order[i] != order[j]
  }

  ghost function SomeOrder(hs: set<Parsed>): (order: seq<Parsed>)
    ensures Enumerates(order, hs)
  {
    if hs == {} then []
    else
      var h :| h in hs;
      var rest := SomeOrder(hs - {h});
      EnumerateBoth([h], {h}, rest, hs - {h});
      assert {h} + (hs - {h}) == hs;
      [h] + rest
  }

  lemma EnumerateBoth(a: seq<Parsed>, x: set<Parsed>, b: seq<Parsed>, y: set<Parsed>)
    requires Enumerates(a, x) && Enumerates(b, y) && x !! y
    ensures Enumerates(a + b, x + y)
  {
    var order := a + b;
    forall i, j | 0 <= i < j < |order|
      ensures order[i] != order[j]
    {
      if i < |a| <= j {
        assert order[i] in x && order[j] in y;
      }
    }
  }

  lemma MergeNothing(gs: set<Parsed>)
    ensures MergeAll(gs, []) == Some(gs)
  {
  }

  lemma {:induction false} MergeOneMore(gs: set<Parsed>, order: seq<Parsed>, g: Parsed)
    ensures MergeAll(gs, order + [g])
         == match MergeAll(gs, order)
            case None => None
            case Some(m) => if Mergeable(m, g) then Some(Merged(m, g)) else None
    decreases |order|
  {
    hide Mergeable, Merged;
    if order == [] {
      assert (order + [g])[1..] == [];
    } else {
      assert (order + [g])[1..] == order[1..] + [g];
      if Mergeable(gs, order[0]) {
        MergeOneMore(Merged(gs, order[0]), order[1..], g);
      }
    }
  }

  lemma {:induction false} MergeFails(gs: set<Parsed>, front: seq<Parsed>, back: seq<Parsed>)
    requires MergeAll(gs, front).None?
    ensures MergeAll(gs, front + back).None?
    decreases |front|
  {
    hide Mergeable, Merged;
    assert (front + back)[1..] == front[1..] + back;
    if Mergeable(gs, front[0]) {
      MergeFails(Merged(gs, front[0]), front[1..], back);
    }
  }

  ghost predicate Share(gs: set<Parsed>, hs: set<Parsed>) {
    exists sid, n :: Has(gs, sid, n) && Has(hs, sid, n)
  }

  // The sum of two sets with one GTID for each source raises exactly when they share a transaction, and
  // otherwise is their union, again with one GTID for each source.
  lemma {:induction false} MergeAllSound(gs: set<Parsed>, hs: set<Parsed>, order: seq<Parsed>)
    requires WellFormed(gs) && OnePerSource(gs) && WellFormed(hs) && OnePerSource(hs) && Enumerates(order, hs)
    ensures MergeAll(gs, order).None? <==> Share(gs, hs)
    ensures MergeAll(gs, order).Some? ==>
              var sum := MergeAll(gs, order).value;
              && WellFormed(sum) && OnePerSource(sum)
              && forall sid, n :: Has(sum, sid, n) <==> Has(gs, sid, n) || Has(hs, sid, n)
    decreases |order|
  {
    hide Mergeable, Merged, WellFormed, Has;
    if order == [] {
      assert hs == {};
      HasNothing();
    } else {
      var h, tail := order[0], order[1..];
      var rest := set x | x in tail;
      SplitFirst(order, hs, gs);
      MergeableIff(gs, h);
      if Mergeable(gs, h) {
        MergedSound(gs, h);
        MergedOnePerSource(gs, h);
        MergeAllSound(Merged(gs, h), rest, tail);
      }
    }
  }

  lemma HasNothing()
    ensures forall sid, n :: !Has({}, sid, n)
  {
  }

  lemma SplitFirst(order: seq<Parsed>, hs: set<Parsed>, gs: set<Parsed>)
    requires order != [] && Enumerates(order, hs) && WellFormed(hs) && OnePerSource(hs) && WellFormed(gs)
    ensures var h, rest := order[0], set x | x in order[1..];
            && WellFormed(gs + {h}) && WellFormed(rest) && OnePerSource(rest) && Enumerates(order[1..], rest)
            && (forall sid, n :: Has(hs, sid, n) <==> (sid == h.sid && In(n, h.intervals)) || Has(rest, sid, n))
            && forall n :: !Has(rest, h.sid, n)
  {
    hide In, Canonical, IsSid, Printable;
    var h, rest := order[0], set x | x in order[1..];
    assert order == [h] + order[1..];
    assert h in hs && h !in rest && hs == {h} + rest;
  }

  lemma SameSets(a: set<Parsed>, b: set<Parsed>)
    requires WellFormed(a) && OnePerSource(a) && WellFormed(b) && OnePerSource(b)
    requires forall sid, n :: Has(a, sid, n) <==> Has(b, sid, n)
    ensures a <= b
  {
    hide In, Canonical, IsSid, Printable;
    forall g | g in a
      ensures g in b
    {
      FirstIn(g.intervals);
      var lowest := g.intervals[0].lo;
      assert Has(a, g.sid, lowest);
      var h :| h in b && h.sid == g.sid && In(lowest, h.intervals);
      forall n
        ensures In(n, g.intervals) <==> In(n, h.intervals)
      {
        assert Has(a, g.sid, n) <==> Has(b, g.sid, n);
      }
      CanonicalUnique(g.intervals, h.intervals);
    }
  }

  // The sum does not depend on the order in which the set is enumerated.
  lemma SumIgnoresOrder(gs: set<Parsed>, hs: set<Parsed>, order: seq<Parsed>, other: seq<Parsed>)
    requires WellFormed(gs) && OnePerSource(gs) && WellFormed(hs) && OnePerSource(hs)
    requires Enumerates(order, hs) && Enumerates(other, hs)
    ensures MergeAll(gs, order) == MergeAll(gs, other)
  {
    hide MergeAll, WellFormed, OnePerSource, Has, Enumerates;
    MergeAllSound(gs, hs, order);
    MergeAllSound(gs, hs, other);
    if MergeAll(gs, order).Some? {
      var a, b := MergeAll(gs, order).value, MergeAll(gs, other).value;
      SameSets(a, b);
      SameSets(b, a);
      assert a == b;
    }
  }
}
