// Sets of transaction numbers as lists of half-open intervals.
module Intervals {
  import opened Binary

  datatype Interval = Interval(lo: int, hi: int)

  predicate Overlap(a: Interval, b: Interval) {
    a.lo < b.hi && a.hi > b.lo
  }

  predicate Contains(a: Interval, b: Interval) {
    b.lo >= a.lo && b.hi <= a.hi
  }

  ghost predicate Inside(x: int, iv: Interval) {
    iv.lo <= x < iv.hi
  }

  // The transaction x belongs to the list.
  ghost predicate In(x: int, xs: seq<Interval>) {
    exists i :: 0 <= i < |xs| && Inside(x, xs[i])
  }

  // Sorted, non-empty, disjoint and non-touching.
  ghost predicate Canonical(xs: seq<Interval>) {
    && (forall i :: 0 <= i < |xs| ==> xs[i].lo < xs[i].hi)
    && (forall i, j :: 0 <= i < j < |xs| ==> xs[i].hi < xs[j].lo)
  }

  lemma InCons(x: int, head: Interval, tail: seq<Interval>)
    ensures In(x, [head] + tail) <==> Inside(x, head) || In(x, tail)
  {
    var xs := [head] + tail;
    if Inside(x, head) {
      assert Inside(x, xs[0]);
    }
    if In(x, tail) {
      var i :| 0 <= i < |tail| && Inside(x, tail[i]);
      assert Inside(x, xs[i + 1]);
    }
    if In(x, xs) {
      var i :| 0 <= i < |xs| && Inside(x, xs[i]);
      if i > 0 {
        assert Inside(x, tail[i - 1]);
      }
    }
  }

  lemma InStep(x: int, xs: seq<Interval>)
    requires xs != []
    ensures In(x, xs) <==> Inside(x, xs[0]) || In(x, xs[1..])
  {
    InCons(x, xs[0], xs[1..]);
    assert xs == [xs[0]] + xs[1..];
  }

  lemma EmptyList()
    ensures Canonical([]) && forall n :: !In(n, [])
  {
  }

  lemma CanonicalCons(head: Interval, tail: seq<Interval>)
    requires Canonical(tail) && head.lo < head.hi && forall y :: y in tail ==> head.hi < y.lo
    ensures Canonical([head] + tail)
  {
    forall i | 0 <= i < |tail|
      ensures head.hi < tail[i].lo
    {
      assert tail[i] in tail;
    }
  }

  lemma CanonicalStep(xs: seq<Interval>)
    requires Canonical(xs) && xs != []
    ensures Canonical(xs[1..]) && xs[0].lo < xs[0].hi
    ensures forall y :: y in xs[1..] ==> xs[0].hi < y.lo < y.hi
  {
  }

  // A canonical list is determined by the transactions it denotes, so comparing lists compares sets.
  lemma {:induction false} CanonicalUnique(a: seq<Interval>, b: seq<Interval>)
    requires Canonical(a) && Canonical(b)
    requires forall x :: In(x, a) <==> In(x, b)
    ensures a == b
    decreases |a|
  {
    hide In, Canonical;
    EmptyList();
    if a == [] || b == [] {
      if a != [] {
        CanonicalStep(a);
        InHead(a[0].lo, a);
      }
      if b != [] {
        CanonicalStep(b);
        InHead(b[0].lo, b);
      }
    } else {
      SameHead(a, b);
      forall x
        ensures In(x, a[1..]) <==> In(x, b[1..])
      {
        InTail(x, a);
        InTail(x, b);
      }
      CanonicalStep(a);
      CanonicalStep(b);
      CanonicalUnique(a[1..], b[1..]);
      assert a == [a[0]] + a[1..] && b == [b[0]] + b[1..];
    }
  }

  lemma SameHead(a: seq<Interval>, b: seq<Interval>)
    requires Canonical(a) && Canonical(b) && a != [] && b != []
    requires forall x :: In(x, a) <==> In(x, b)
    ensures a[0] == b[0]
  {
    hide In, Canonical;
    CanonicalStep(a);
    CanonicalStep(b);
    InHead(a[0].lo, a);
    HeadLowest(a[0].lo, b);
    InHead(b[0].lo, b);
    HeadLowest(b[0].lo, a);
    FirstGap(a);
    InHead(a[0].hi, b);
    FirstGap(b);
    InHead(b[0].hi, a);
  }

  lemma HeadLowest(x: int, xs: seq<Interval>)
    requires Canonical(xs) && In(x, xs)
    ensures x >= xs[0].lo
  {
  }

  lemma InHead(x: int, xs: seq<Interval>)
    requires xs != []
    ensures Inside(x, xs[0]) ==> In(x, xs)
  {
  }

  lemma FirstGap(xs: seq<Interval>)
    requires Canonical(xs) && xs != []
    ensures !In(xs[0].hi, xs)
  {
  }

  lemma InTail(x: int, xs: seq<Interval>)
    requires Canonical(xs) && xs != []
    ensures In(x, xs[1..]) <==> In(x, xs) && x >= xs[0].hi
  {
    InStep(x, xs);
    if In(x, xs[1..]) {
      var i :| 0 <= i < |xs[1..]| && Inside(x, xs[1..][i]);
      assert xs[1..][i] == xs[i + 1];
    }
  }

  // ---- sorted() on pairs ----

  predicate LessEqual(a: Interval, b: Interval) {
    a.lo < b.lo || (a.lo == b.lo && a.hi <= b.hi)
  }

  function Insert(x: Interval, xs: seq<Interval>): seq<Interval> {
    if xs == [] then [x]
    else if LessEqual(x, xs[0]) then [x] + xs
    else [xs[0]] + Insert(x, xs[1..])
  }

  function Sorted(xs: seq<Interval>): seq<Interval> {
    if xs == [] then [] else Insert(xs[|xs| - 1], Sorted(xs[..|xs| - 1]))
  }

  // Two intervals with a gap between them.
  ghost predicate Apart(a: Interval, b: Interval) {
    a.hi < b.lo || b.hi < a.lo
  }

  lemma {:induction false} InsertCanonical(x: Interval, xs: seq<Interval>)
    requires Canonical(xs) && x.lo < x.hi && forall y :: y in xs ==> Apart(x, y)
    ensures Canonical(Insert(x, xs))
    ensures forall y :: y in Insert(x, xs) <==> y == x || y in xs
    ensures forall n :: In(n, Insert(x, xs)) <==> Inside(n, x) || In(n, xs)
    decreases |xs|
  {
    hide In, Canonical, Inside;
    EmptyList();
    if xs != [] {
      CanonicalStep(xs);
      assert xs == [xs[0]] + xs[1..];
    }
    if xs == [] || LessEqual(x, xs[0]) {
      assert xs != [] ==> xs[0] in xs;
      assert Insert(x, xs) == [x] + xs;
      CanonicalCons(x, xs);
      forall n
        ensures In(n, Insert(x, xs)) <==> Inside(n, x) || In(n, xs)
      {
        InCons(n, x, xs);
      }
    } else {
      var tail := Insert(x, xs[1..]);
      assert xs[0] in xs && forall y :: y in xs[1..] ==> y in xs;
      InsertCanonical(x, xs[1..]);
      CanonicalCons(xs[0], tail);
      forall n
        ensures In(n, Insert(x, xs)) <==> Inside(n, x) || In(n, xs)
      {
        InCons(n, xs[0], tail);
        InStep(n, xs);
      }
    }
  }

  lemma {:induction false} InsertLast(x: Interval, xs: seq<Interval>)
    requires forall y :: y in xs ==> !LessEqual(x, y)
    ensures Insert(x, xs) == xs + [x]
    decreases |xs|
  {
    if xs != [] {
      InsertLast(x, xs[1..]);
      assert xs == [xs[0]] + xs[1..];
    }
  }

  lemma {:induction false} SortedCanonical(xs: seq<Interval>)
    requires Canonical(xs)
    ensures Sorted(xs) == xs
    decreases |xs|
  {
    if xs != [] {
      var init, last := xs[..|xs| - 1], xs[|xs| - 1];
      SortedCanonical(init);
      InsertLast(last, init);
    }
  }

  // ---- adding an interval ----

  // One pass over the list: what stays, and the new interval grown by what it touches.
  function Absorb(xs: seq<Interval>, itvl: Interval): (seq<Interval>, Interval) {
    if xs == [] then ([], itvl)
    else if itvl.lo == xs[0].hi then Absorb(xs[1..], Interval(xs[0].lo, itvl.hi))
    else if itvl.hi == xs[0].lo then Absorb(xs[1..], Interval(itvl.lo, xs[0].hi))
    else
      var (kept, grown) := Absorb(xs[1..], itvl);
      ([xs[0]] + kept, grown)
  }

  predicate Addable(xs: seq<Interval>, itvl: Interval) {
    itvl.lo <= itvl.hi && !(exists x :: x in xs && Overlap(x, itvl))
  }

  // _add_interval; None when it raises.
  function Added(xs: seq<Interval>, itvl: Interval): Option<seq<Interval>> {
    if !Addable(xs, itvl) then None
    else
      var (kept, grown) := Absorb(Sorted(xs), itvl);
      Some(Sorted(kept + [grown]))
  }

  lemma {:induction false} AbsorbBeyond(xs: seq<Interval>, itvl: Interval)
    requires forall y :: y in xs ==> itvl.hi < y.lo && itvl.lo < y.hi
    ensures Absorb(xs, itvl) == (xs, itvl)
    decreases |xs|
  {
    if xs != [] {
      assert xs[0] in xs;
      AbsorbBeyond(xs[1..], itvl);
      assert xs == [xs[0]] + xs[1..];
    }
  }

  lemma {:induction false} AbsorbLower(xs: seq<Interval>, itvl: Interval, bound: int)
    requires bound < itvl.lo && forall y :: y in xs ==> bound < y.lo
    ensures bound < Absorb(xs, itvl).1.lo
    decreases |xs|
  {
    if xs != [] {
      assert xs[0] in xs;
      AbsorbLower(xs[1..], if itvl.lo == xs[0].hi then Interval(xs[0].lo, itvl.hi)
                           else if itvl.hi == xs[0].lo then Interval(itvl.lo, xs[0].hi) else itvl, bound);
    }
  }

  // The grown interval and what stays have gaps between them and denote the union.
  lemma {:induction false} AbsorbSound(xs: seq<Interval>, itvl: Interval)
    requires Canonical(xs) && itvl.lo < itvl.hi && forall x :: x in xs ==> !Overlap(x, itvl)
    ensures var (kept, grown) := Absorb(xs, itvl);
            && Canonical(kept) && grown.lo < grown.hi
            && (forall y :: y in kept ==> y in xs && Apart(grown, y))
            && (forall n :: Inside(n, grown) || In(n, kept) <==> Inside(n, itvl) || In(n, xs))
    decreases |xs|
  {
    hide In, Canonical;
    EmptyList();
    if xs != [] {
      var head, tail := xs[0], xs[1..];
      assert head in xs && forall y :: y in tail ==> y in xs;
      CanonicalStep(xs);
      var next := if itvl.lo == head.hi then Interval(head.lo, itvl.hi)
                  else if itvl.hi == head.lo then Interval(itvl.lo, head.hi) else itvl;
      var (kept, grown) := Absorb(tail, next);
      AbsorbSound(tail, next);
      forall n
        ensures In(n, xs) <==> Inside(n, head) || In(n, tail)
      {
        InStep(n, xs);
      }
      if next == itvl {
        forall n
          ensures In(n, [head] + kept) <==> Inside(n, head) || In(n, kept)
        {
          InCons(n, head, kept);
        }
        CanonicalCons(head, kept);
        if head.hi < itvl.lo {
          AbsorbLower(tail, itvl, head.hi);
        } else {
          AbsorbBeyond(tail, itvl);
        }
      } else {
        assert forall n :: Inside(n, next) <==> Inside(n, itvl) || Inside(n, head);
      }
    }
  }

  // Adding a non-empty interval keeps the list canonical and denotes the union; it is refused
  // exactly when the two have a transaction in common.
  lemma AddedSound(xs: seq<Interval>, itvl: Interval)
    requires Canonical(xs) && itvl.lo < itvl.hi
    ensures Added(xs, itvl).None? <==> exists n :: In(n, xs) && Inside(n, itvl)
    ensures Added(xs, itvl).Some? ==>
              var r := Added(xs, itvl).value;
              Canonical(r) && forall n :: In(n, r) <==> In(n, xs) || Inside(n, itvl)
  {
    hide Canonical, Absorb;
    OverlapMeans(xs, itvl);
    if Addable(xs, itvl) {
      SortedCanonical(xs);
      AbsorbSound(xs, itvl);
      var (kept, grown) := Absorb(xs, itvl);
      SortedCanonical(kept);
      assert (kept + [grown])[..|kept|] == kept;
      InsertCanonical(grown, kept);
    }
  }

  lemma OverlapMeans(xs: seq<Interval>, itvl: Interval)
    requires Canonical(xs) && itvl.lo < itvl.hi
    ensures (exists x :: x in xs && Overlap(x, itvl)) <==> exists n :: In(n, xs) && Inside(n, itvl)
  {
    if i :| 0 <= i < |xs| && Overlap(xs[i], itvl) {
      var n := if xs[i].lo < itvl.lo then itvl.lo else xs[i].lo;
      assert Inside(n, xs[i]);
      assert In(n, xs) && Inside(n, itvl);
    }
    if n :| In(n, xs) && Inside(n, itvl) {
      var i :| 0 <= i < |xs| && Inside(n, xs[i]);
      assert xs[i] in xs && Overlap(xs[i], itvl);
    }
  }

  // ---- removing an interval ----

  function Pieces(existing: Interval, itvl: Interval): seq<Interval> {
    if Overlap(existing, itvl) then
      (if existing.lo < itvl.lo then [Interval(existing.lo, itvl.lo)] else [])
      + (if existing.hi > itvl.hi then [Interval(itvl.hi, existing.hi)] else [])
    else [existing]
  }

  function Cut(xs: seq<Interval>, itvl: Interval): seq<Interval> {
    if xs == [] then [] else Pieces(xs[0], itvl) + Cut(xs[1..], itvl)
  }

  // __sub_interval; None when it raises.
  function Removed(xs: seq<Interval>, itvl: Interval): Option<seq<Interval>> {
    if itvl.lo > itvl.hi then None
    else if !(exists x :: x in xs && Overlap(x, itvl)) then Some(xs)
    else Some(Cut(Sorted(xs), itvl))
  }

  lemma {:induction false} CutSound(xs: seq<Interval>, itvl: Interval)
    requires Canonical(xs) && itvl.lo < itvl.hi
    ensures Canonical(Cut(xs, itvl))
    ensures forall y :: y in Cut(xs, itvl) ==> exists x :: x in xs && Contains(x, y)
    ensures forall n :: In(n, Cut(xs, itvl)) <==> In(n, xs) && !Inside(n, itvl)
    decreases |xs|
  {
    hide In;
    EmptyList();
    if xs != [] {
      var head, tail := Pieces(xs[0], itvl), Cut(xs[1..], itvl);
      CanonicalStep(xs);
      CutSound(xs[1..], itvl);
      forall y | y in tail
        ensures xs[0].hi < y.lo && exists x :: x in xs && Contains(x, y)
      {
        var x :| x in xs[1..] && Contains(x, y);
        assert x in xs;
      }
      PiecesThen(xs[0], itvl, tail);
      forall n
        ensures In(n, head + tail) <==> In(n, xs) && !Inside(n, itvl)
      {
        InStep(n, xs);
        InConcat(n, head, tail);
        PiecesDenote(n, xs[0], itvl);
      }
    }
  }

  lemma PiecesThen(x: Interval, itvl: Interval, tail: seq<Interval>)
    requires x.lo < x.hi && itvl.lo < itvl.hi && Canonical(tail) && forall y :: y in tail ==> x.hi < y.lo
    ensures Canonical(Pieces(x, itvl) + tail)
    ensures forall y :: y in Pieces(x, itvl) ==> Contains(x, y)
  {
    var ps := Pieces(x, itvl);
    forall i, j | 0 <= i < |ps| && 0 <= j < |tail|
      ensures ps[i].hi < tail[j].lo
    {
      assert tail[j] in tail;
    }
  }

  lemma PiecesDenote(n: int, x: Interval, itvl: Interval)
    requires x.lo < x.hi && itvl.lo < itvl.hi
    ensures In(n, Pieces(x, itvl)) <==> Inside(n, x) && !Inside(n, itvl)
  {
    var ps := Pieces(x, itvl);
    if Inside(n, x) && !Inside(n, itvl) {
      if Overlap(x, itvl) && n >= itvl.hi {
        assert Inside(n, ps[|ps| - 1]);
      } else {
        assert Inside(n, ps[0]);
      }
    }
  }

  lemma InConcat(n: int, a: seq<Interval>, b: seq<Interval>)
    ensures In(n, a + b) <==> In(n, a) || In(n, b)
  {
    if In(n, a) {
      var i :| 0 <= i < |a| && Inside(n, a[i]);
      assert Inside(n, (a + b)[i]);
    }
    if In(n, b) {
      var i :| 0 <= i < |b| && Inside(n, b[i]);
      assert Inside(n, (a + b)[|a| + i]);
    }
    if In(n, a + b) {
      var i :| 0 <= i < |a + b| && Inside(n, (a + b)[i]);
      assert if i < |a| then Inside(n, a[i]) else Inside(n, b[i - |a|]);
    }
  }

  // Removing a non-empty interval keeps the list canonical and denotes the difference.
  lemma RemovedSound(xs: seq<Interval>, itvl: Interval)
    requires Canonical(xs) && itvl.lo < itvl.hi
    ensures Removed(xs, itvl).Some?
    ensures var r := Removed(xs, itvl).value;
            Canonical(r) && forall n :: In(n, r) <==> In(n, xs) && !Inside(n, itvl)
  {
    hide Canonical, In;
    OverlapMeans(xs, itvl);
    SortedCanonical(xs);
    CutSound(xs, itvl);
  }

  // An interval that ends before it begins is refused by both.
  lemma BackwardsRefused(xs: seq<Interval>, lo: int, hi: int)
    requires lo > hi
    ensures Added(xs, Interval(lo, hi)) == None && Removed(xs, Interval(lo, hi)) == None
  {
  }

  // Empty intervals are where this stops. Adding one is refused exactly inside an interval of the list;
  // elsewhere the code accepts it, and the result is canonical exactly when the empty interval touches an
  // interval of the list, which then swallows it.
  lemma AddedEmpty(xs: seq<Interval>, p: int)
    requires Canonical(xs)
    ensures Added(xs, Interval(p, p)).None? <==> exists x :: x in xs && x.lo < p < x.hi
    ensures Added(xs, Interval(p, p)).Some? ==>
              (Canonical(Added(xs, Interval(p, p)).value) <==> exists x :: x in xs && (x.hi == p || x.lo == p))
  {
    hide Canonical;
    assert Addable(xs, Interval(p, p)) <==> !exists x :: x in xs && x.lo < p < x.hi;
    if Addable(xs, Interval(p, p)) {
      if x :| x in xs && (x.hi == p || x.lo == p) {
        AddedEmptyTouching(xs, p, x);
      } else {
        AddedEmptyAlone(xs, p);
      }
    }
  }

  // Subtracting an empty interval is never refused and takes nothing away, but inside an interval of the
  // list it leaves two that touch.
  lemma RemovedEmpty(xs: seq<Interval>, p: int)
    requires Canonical(xs)
    ensures var r := Removed(xs, Interval(p, p));
            && r.Some? && (forall n :: In(n, r.value) <==> In(n, xs))
            && (Canonical(r.value) <==> !exists x :: x in xs && x.lo < p < x.hi)
  {
    hide Canonical, In, Cut;
    if x :| x in xs && x.lo < p < x.hi {
      var i :| 0 <= i < |xs| && xs[i] == x;
      assert Overlap(x, Interval(p, p));
      SortedCanonical(xs);
      CutEmpty(xs, p, i);
      Halves(xs, p, i);
    }
  }

  lemma {:induction false} CutEmpty(xs: seq<Interval>, p: int, i: nat)
    requires Canonical(xs) && i < |xs| && xs[i].lo < p < xs[i].hi
    ensures Cut(xs, Interval(p, p)) == xs[..i] + [Interval(xs[i].lo, p), Interval(p, xs[i].hi)] + xs[i + 1..]
    decreases i
  {
    CutHead(xs, p, i);
    hide Canonical, Cut, Pieces;
    var halves := [Interval(xs[i].lo, p), Interval(p, xs[i].hi)];
    if i == 0 {
      CutNone(xs[1..], p);
      assert xs[..0] + halves + xs[1..] == halves + xs[1..];
    } else {
      CutEmpty(xs[1..], p, i - 1);
      assert xs[..i] + halves + xs[i + 1..] == [xs[0]] + (xs[1..][..i - 1] + halves + xs[1..][i..]);
    }
  }

  lemma CutHead(xs: seq<Interval>, p: int, i: nat)
    requires Canonical(xs) && i < |xs| && xs[i].lo < p < xs[i].hi
    ensures Canonical(xs[1..])
    ensures Cut(xs, Interval(p, p))
         == (if i == 0 then [Interval(xs[0].lo, p), Interval(p, xs[0].hi)] else [xs[0]]) + Cut(xs[1..], Interval(p, p))
    ensures i == 0 ==> forall x :: x in xs[1..] ==> !(x.lo < p < x.hi)
  {
    var x0, xi := xs[0], xs[i];
    assert x0.lo < x0.hi && (i > 0 ==> x0.hi < xi.lo);
    CanonicalStep(xs);
    CutUnfold(xs, Interval(p, p));
    hide Canonical, Cut;
    PiecesAt(x0, p);
  }

  lemma PiecesAt(x: Interval, p: int)
    requires x.lo < x.hi
    ensures Pieces(x, Interval(p, p)) == if x.lo < p < x.hi then [Interval(x.lo, p), Interval(p, x.hi)] else [x]
  {
  }

  lemma CutUnfold(xs: seq<Interval>, itvl: Interval)
    requires xs != []
    ensures Cut(xs, itvl) == Pieces(xs[0], itvl) + Cut(xs[1..], itvl)
  {
  }

  lemma {:induction false} CutNone(xs: seq<Interval>, p: int)
    requires forall x :: x in xs ==> !(x.lo < p < x.hi)
    ensures Cut(xs, Interval(p, p)) == xs
    decreases |xs|
  {
    if xs != [] {
      assert xs[0] in xs;
      CutNone(xs[1..], p);
      assert xs == [xs[0]] + xs[1..];
    }
  }

  lemma Halves(xs: seq<Interval>, p: int, i: nat)
    requires Canonical(xs) && i < |xs| && xs[i].lo < p < xs[i].hi
    ensures var r := xs[..i] + [Interval(xs[i].lo, p), Interval(p, xs[i].hi)] + xs[i + 1..];
            !Canonical(r) && forall n :: In(n, r) <==> In(n, xs)
  {
    var r := xs[..i] + [Interval(xs[i].lo, p), Interval(p, xs[i].hi)] + xs[i + 1..];
    assert r[i].hi == r[i + 1].lo;
    forall n
      ensures In(n, r) <==> In(n, xs)
    {
      if k :| 0 <= k < |r| && Inside(n, r[k]) {
        assert Inside(n, xs[if k <= i then k else k - 1]);
      }
      if k :| 0 <= k < |xs| && Inside(n, xs[k]) {
        assert Inside(n, r[if k < i then k else if k > i then k + 1 else if n < p then i else i + 1]);
      }
    }
  }

  lemma AddedEmptyTouching(xs: seq<Interval>, p: int, x: Interval)
    requires Canonical(xs) && Addable(xs, Interval(p, p)) && x in xs && (x.hi == p || x.lo == p)
    ensures Canonical(Added(xs, Interval(p, p)).value)
  {
    var i :| 0 <= i < |xs| && xs[i] == x;
    var before, after := xs[..i], xs[i + 1..];
    assert xs[i].lo < xs[i].hi;
    hide Canonical, Absorb, Sorted, Insert, In, Inside, Apart;
    assert xs == before + ([x] + after);
    SortedCanonical(xs);
    AbsorbTouched(before, x, after, Interval(p, p));
    SortedCanonical(before + after);
    SortedSnoc(before + after, x);
    InsertCanonical(x, before + after);
  }

  lemma SortedSnoc(xs: seq<Interval>, x: Interval)
    ensures Sorted(xs + [x]) == Insert(x, Sorted(xs))
  {
    assert (xs + [x])[..|xs + [x]| - 1] == xs;
  }

  lemma AddedEmptyAlone(xs: seq<Interval>, p: int)
    requires Canonical(xs) && Addable(xs, Interval(p, p)) && !exists x :: x in xs && (x.hi == p || x.lo == p)
    ensures !Canonical(Added(xs, Interval(p, p)).value)
  {
    var itvl := Interval(p, p);
    SortedCanonical(xs);
    AbsorbNothing(xs, itvl);
    assert (xs + [itvl])[..|xs|] == xs;
    InsertMember(itvl, xs);
    var r := Added(xs, itvl).value;
    var i :| 0 <= i < |r| && r[i] == itvl;
    assert r[i].lo == r[i].hi;
  }

  lemma {:induction false} AbsorbNothing(xs: seq<Interval>, itvl: Interval)
    requires forall x :: x in xs ==> x.hi != itvl.lo && x.lo != itvl.hi
    ensures Absorb(xs, itvl) == (xs, itvl)
    decreases |xs|
  {
    if xs != [] {
      assert xs[0] in xs;
      AbsorbNothing(xs[1..], itvl);
      assert xs == [xs[0]] + xs[1..];
    }
  }

  lemma AbsorbHead(xs: seq<Interval>, itvl: Interval)
    requires xs != [] && xs[0].lo < xs[0].hi && itvl.lo == itvl.hi && (xs[0].hi == itvl.lo || xs[0].lo == itvl.hi)
    ensures Absorb(xs, itvl) == Absorb(xs[1..], xs[0])
  {
  }

  lemma AbsorbSkip(xs: seq<Interval>, itvl: Interval)
    requires xs != [] && xs[0].hi != itvl.lo && xs[0].lo != itvl.hi
    ensures Absorb(xs, itvl) == ([xs[0]] + Absorb(xs[1..], itvl).0, Absorb(xs[1..], itvl).1)
  {
  }

  lemma {:induction false} AbsorbTouched(before: seq<Interval>, x: Interval, after: seq<Interval>, itvl: Interval)
    requires Canonical(before + ([x] + after)) && itvl.lo == itvl.hi && (x.hi == itvl.lo || x.lo == itvl.hi)
    ensures Absorb(before + ([x] + after), itvl) == (before + after, x)
    ensures Canonical(before + after)
    ensures forall y :: y in before + after ==> Apart(x, y)
    decreases |before|
  {
    hide Absorb, Canonical;
    var xs := before + ([x] + after);
    CanonicalStep(xs);
    if before == [] {
      assert xs == [x] + after && xs[1..] == after && before + after == after;
      AbsorbHead(xs, itvl);
      AbsorbBeyond(after, x);
    } else {
      var rest := before[1..] + ([x] + after);
      assert xs[1..] == rest && xs[0] == before[0];
      assert x in rest;
      AbsorbSkip(xs, itvl);
      AbsorbTouched(before[1..], x, after, itvl);
      assert forall y :: y in before[1..] + after ==> y in rest;
      CanonicalCons(xs[0], before[1..] + after);
      assert before + after == [xs[0]] + (before[1..] + after);
    }
  }

  lemma {:induction false} InsertMember(x: Interval, xs: seq<Interval>)
    ensures x in Insert(x, xs)
    decreases |xs|
  {
    if xs != [] && !LessEqual(x, xs[0]) {
      InsertMember(x, xs[1..]);
    }
  }

  // ---- any sequence of additions and removals ----

  datatype Op = Add(itvl: Interval) | Sub(itvl: Interval)

  // What an operation that raises leaves behind is the list it found.
  function Apply(xs: seq<Interval>, op: Op): seq<Interval> {
    match if op.Add? then Added(xs, op.itvl) else Removed(xs, op.itvl)
    case None => xs
    case Some(ys) => ys
  }

  function ApplyAll(xs: seq<Interval>, ops: seq<Op>): seq<Interval> {
    if ops == [] then xs else Apply(ApplyAll(xs, ops[..|ops| - 1]), ops[|ops| - 1])
  }

  // The same on plain sets: an addition that would repeat a transaction is refused.
  ghost function Txns(itvl: Interval): iset<int> {
    iset n | Inside(n, itvl)
  }

  ghost function SetAfter(ops: seq<Op>): iset<int> {
    if ops == [] then iset{}
    else
      var s := SetAfter(ops[..|ops| - 1]);
      match ops[|ops| - 1]
      case Add(itvl) => if s * Txns(itvl) == iset{} then s + Txns(itvl) else s
      case Sub(itvl) => s - Txns(itvl)
  }

  // Every sequence of operations on non-empty intervals keeps the list canonical and denoting
  // exactly the set it should.
  lemma {:induction false} ApplyAllSound(ops: seq<Op>)
    requires forall op :: op in ops ==> op.itvl.lo < op.itvl.hi
    ensures Canonical(ApplyAll([], ops))
    ensures forall n :: In(n, ApplyAll([], ops)) <==> n in SetAfter(ops)
    decreases |ops|
  {
    hide Canonical, In, Added, Removed;
    if ops == [] {
      EmptyList();
    } else {
      var before, op := ops[..|ops| - 1], ops[|ops| - 1];
      ApplyAllSound(before);
      var xs, s := ApplyAll([], before), SetAfter(before);
      assert op in ops;
      if op.Add? {
        AddedSound(xs, op.itvl);
        if s * Txns(op.itvl) == iset{} {
          forall n | In(n, xs)
            ensures !Inside(n, op.itvl)
          {
            assert n in s;
            assert n !in s * Txns(op.itvl);
          }
        } else {
          var n :| n in s * Txns(op.itvl);
          assert In(n, xs) && Inside(n, op.itvl);
        }
      } else {
        RemovedSound(xs, op.itvl);
      }
    }
  }

  // ---- whole lists ----

  function AddAll(xs: seq<Interval>, ys: seq<Interval>): Option<seq<Interval>>
    decreases |ys|
  {
    if ys == [] then Some(xs)
    else match Added(xs, ys[0])
         case None => None
         case Some(zs) => AddAll(zs, ys[1..])
  }

  function RemoveAll(xs: seq<Interval>, ys: seq<Interval>): Option<seq<Interval>>
    decreases |ys|
  {
    if ys == [] then Some(xs)
    else match Removed(xs, ys[0])
         case None => None
         case Some(zs) => RemoveAll(zs, ys[1..])
  }

  ghost predicate Common(xs: seq<Interval>, ys: seq<Interval>) {
    exists n :: In(n, xs) && In(n, ys)
  }

  // Adding a canonical list succeeds exactly when no transaction is in both, and gives the union.
  lemma {:induction false} AddAllSound(xs: seq<Interval>, ys: seq<Interval>)
    requires Canonical(xs) && Canonical(ys)
    ensures AddAll(xs, ys).None? <==> Common(xs, ys)
    ensures AddAll(xs, ys).Some? ==>
              var r := AddAll(xs, ys).value;
              Canonical(r) && forall n :: In(n, r) <==> In(n, xs) || In(n, ys)
    decreases |ys|
  {
    hide Canonical, In, Added;
    EmptyList();
    if ys != [] {
      CanonicalStep(ys);
      AddedSound(xs, ys[0]);
      forall n
        ensures In(n, ys) <==> Inside(n, ys[0]) || In(n, ys[1..])
        ensures Inside(n, ys[0]) ==> !In(n, ys[1..])
      {
        InStep(n, ys);
        InTail(n, ys);
      }
      if Added(xs, ys[0]).Some? {
        AddAllSound(Added(xs, ys[0]).value, ys[1..]);
        if Common(xs, ys) {
          var n :| In(n, xs) && In(n, ys);
          assert In(n, Added(xs, ys[0]).value) && In(n, ys[1..]);
        }
      }
    }
  }

  // Removing a canonical list gives the difference.
  lemma {:induction false} RemoveAllSound(xs: seq<Interval>, ys: seq<Interval>)
    requires Canonical(xs) && Canonical(ys)
    ensures RemoveAll(xs, ys).Some?
    ensures var r := RemoveAll(xs, ys).value;
            Canonical(r) && forall n :: In(n, r) <==> In(n, xs) && !In(n, ys)
    decreases |ys|
  {
    hide Canonical, In, Removed;
    EmptyList();
    if ys != [] {
      CanonicalStep(ys);
      RemovedSound(xs, ys[0]);
      RemoveAllSound(Removed(xs, ys[0]).value, ys[1..]);
      forall n
        ensures In(n, ys) <==> Inside(n, ys[0]) || In(n, ys[1..])
      {
        InStep(n, ys);
      }
    }
  }

  // For lists with nothing in common, removing what was added gives back the list, and the order
  // of an addition does not matter.
  lemma AddThenRemove(a: seq<Interval>, b: seq<Interval>)
    requires Canonical(a) && Canonical(b) && !Common(a, b)
    ensures AddAll(a, b).Some? && RemoveAll(AddAll(a, b).value, b) == Some(a)
    ensures AddAll(b, a) == AddAll(a, b)
  {
    hide Canonical, In, AddAll, RemoveAll;
    AddAllSound(a, b);
    AddAllSound(b, a);
    var sum := AddAll(a, b).value;
    RemoveAllSound(sum, b);
    CanonicalUnique(RemoveAll(sum, b).value, a);
    CanonicalUnique(AddAll(b, a).value, sum);
  }

  // Rebuilding a canonical list interval by interval gives the list.
  lemma AddAllFromNothing(xs: seq<Interval>)
    requires Canonical(xs)
    ensures AddAll([], xs) == Some(xs)
  {
    hide Canonical, In, AddAll;
    EmptyList();
    AddAllSound([], xs);
    CanonicalUnique(AddAll([], xs).value, xs);
  }

  predicate ContainsAll(xs: seq<Interval>, ys: seq<Interval>) {
    forall y :: y in ys ==> exists x :: x in xs && Contains(x, y)
  }

  // Because the left list is merged, interval-wise containment is set inclusion.
  lemma ContainsAllIsInclusion(xs: seq<Interval>, ys: seq<Interval>)
    requires Canonical(xs) && forall y :: y in ys ==> y.lo < y.hi
    ensures ContainsAll(xs, ys) <==> forall n :: In(n, ys) ==> In(n, xs)
  {
    if ContainsAll(xs, ys) {
      forall n | In(n, ys)
        ensures In(n, xs)
      {
        var j :| 0 <= j < |ys| && Inside(n, ys[j]);
        assert ys[j] in ys;
        var i :| 0 <= i < |xs| && Contains(xs[i], ys[j]);
        assert Inside(n, xs[i]);
      }
    }
    if forall n :: In(n, ys) ==> In(n, xs) {
      forall y | y in ys
        ensures exists x :: x in xs && Contains(x, y)
      {
        var j :| 0 <= j < |ys| && ys[j] == y;
        assert Inside(y.lo, ys[j]);
        assert In(y.lo, xs);
        var i :| 0 <= i < |xs| && Inside(y.lo, xs[i]);
        if y.hi > xs[i].hi {
          assert Inside(xs[i].hi, ys[j]);
          assert In(xs[i].hi, ys);
          GapAfter(xs, i);
          assert false;
        }
        assert Contains(xs[i], y);
      }
    }
  }

  lemma GapAfter(xs: seq<Interval>, i: nat)
    requires Canonical(xs) && i < |xs|
    ensures !In(xs[i].hi, xs)
  {
    forall j | 0 <= j < |xs|
      ensures !Inside(xs[i].hi, xs[j])
    {
      if j < i {
        assert xs[j].hi < xs[i].lo;
      } else if j > i {
        assert xs[i].hi < xs[j].lo;
      }
    }
  }
}
