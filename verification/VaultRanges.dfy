/** Space management of src/vault.c: overlap refusal and first-fit placement. */
module VaultRanges {
  import opened Common

  /** The bytes from `start` up to `end`. */
  datatype Range = Range(start: nat, end: nat)

  predicate Meet(a: Range, b: Range)
  {
    a.start < b.end && b.start < a.end
  }

  ghost predicate Disjoint(rs: seq<Range>)
  {
    forall i, j :: 0 <= i < j < |rs| ==> !Meet(rs[i], rs[j])
  }

  /** No range of a meets one of b. */
  ghost predicate Apart(a: seq<Range>, b: seq<Range>)
  {
    forall x, y :: x in a && y in b ==> !Meet(x, y)
  }

  ghost predicate Inside(rs: seq<Range>, size: nat)
  {
    forall x :: x in rs ==> x.end <= size
  }

  lemma DisjointJoin(a: seq<Range>, b: seq<Range>)
    ensures Disjoint(a + b) <==> Disjoint(a) && Disjoint(b) && Apart(a, b)
  {
    var c := a + b;
    if Disjoint(c) {
      assert forall i, j :: 0 <= i < j < |a| ==> c[i] == a[i] && c[j] == a[j];
      assert forall i, j :: 0 <= i < j < |b| ==> c[|a| + i] == b[i] && c[|a| + j] == b[j];
      forall x, y | x in a && y in b
        ensures !Meet(x, y)
      {
        var i :| 0 <= i < |a| && a[i] == x;
        var j :| 0 <= j < |b| && b[j] == y;
        assert c[i] == x && c[|a| + j] == y;
      }
    }
  }

  /** What occurs twice has two places. */
  lemma TwoPlaces(rs: seq<Range>, x: Range) returns (i: nat, j: nat)
    requires multiset(rs)[x] >= 2 && x.start < x.end
    ensures i < j < |rs| && rs[i] == rs[j] == x && Meet(rs[i], rs[j])
  {
    i :| 0 <= i < |rs| && rs[i] == x;
    var front, back := rs[..i], rs[i + 1..];
    assert rs == front + [x] + back;
    assert multiset(rs) == multiset(front) + multiset{x} + multiset(back);
    if x in front {
      j :| 0 <= j < |front| && front[j] == x;
      i, j := j, i;
    } else {
      assert x in multiset(back);
      j :| 0 <= j < |back| && back[j] == x;
      j := i + 1 + j;
    }
  }

  lemma Twice(rs: seq<Range>, i: nat, j: nat)
    requires i < j < |rs|
    ensures rs[i] == rs[j] ==> multiset(rs)[rs[i]] >= 2
  {
    assert rs == rs[..i] + [rs[i]] + rs[i + 1..j] + [rs[j]] + rs[j + 1..];
  }

  lemma DisjointOnce(rs: seq<Range>, x: Range)
    requires NonEmpty(rs) && Disjoint(rs)
    ensures multiset(rs)[x] <= 1
  {
    if multiset(rs)[x] >= 2 {
      assert x in multiset(rs);
      var i, j := TwoPlaces(rs, x);
    }
  }

  /** Some of the ranges of a disjoint list, in any order, are disjoint. */
  lemma DisjointSub(a: seq<Range>, b: seq<Range>)
    requires NonEmpty(b) && Disjoint(b) && multiset(a) <= multiset(b)
    ensures Disjoint(a)
  {
    forall i, j | 0 <= i < j < |a|
      ensures !Meet(a[i], a[j])
    {
      Twice(a, i, j);
      DisjointOnce(b, a[i]);
      assert a[i] in multiset(a) && a[j] in multiset(a);
      var k :| 0 <= k < |b| && b[k] == a[i];
      var l :| 0 <= l < |b| && b[l] == a[j];
      assert k < l ==> !Meet(b[k], b[l]);
      assert l < k ==> !Meet(b[l], b[k]);
    }
  }

  /** vault_ranges_overlap. */
  method RangesOverlap(r: seq<Range>) returns (overlap: bool)
    ensures overlap <==> !Disjoint(r)
  {
    for i := 0 to |r|
      invariant forall a, b :: 0 <= a < i && a < b < |r| ==> !Meet(r[a], r[b])
    {
      for j := i + 1 to |r|
        invariant forall b :: i < b < j ==> !Meet(r[i], r[b])
      {
        if r[i].start < r[j].end && r[j].start < r[i].end {
          return true;
        }
      }
    }
    overlap := false;
  }

  // ---------------------------------------------------------------------------
  // First fit
  // ---------------------------------------------------------------------------

  /** `need` bytes at o lie below `size` and meet none of the ranges. */
  ghost predicate Fits(rs: seq<Range>, size: nat, need: nat, o: nat)
  {
    o + need <= size && forall r :: r in rs ==> !Meet(Range(o, o + need), r)
  }

  /** The least offset that fits, or none when nothing does. */
  ghost predicate IsLeastFit(rs: seq<Range>, size: nat, need: nat, answer: Option<nat>)
  {
    match answer
    case Some(o) => Fits(rs, size, need, o) && forall p: nat :: p < o ==> !Fits(rs, size, need, p)
    case None => forall p: nat :: !Fits(rs, size, need, p)
  }

  ghost predicate NonEmpty(rs: seq<Range>)
  {
    forall i :: 0 <= i < |rs| ==> rs[i].start < rs[i].end
  }

  predicate Sorted(rs: seq<Range>)
  {
    forall i, j :: 0 <= i < j < |rs| ==> rs[i].start <= rs[j].start
  }

  function Insert(rs: seq<Range>, x: Range): seq<Range>
  {
    if |rs| == 0 || x.start <= rs[0].start then [x] + rs else [rs[0]] + Insert(rs[1..], x)
  }

  lemma {:induction false} InsertKeeps(rs: seq<Range>, x: Range)
    ensures multiset(Insert(rs, x)) == multiset(rs) + multiset{x}
  {
    if |rs| > 0 && x.start > rs[0].start {
      InsertKeeps(rs[1..], x);
      assert rs == [rs[0]] + rs[1..];
    }
  }

  lemma {:induction false} InsertSorted(rs: seq<Range>, x: Range)
    requires Sorted(rs)
    ensures Sorted(Insert(rs, x))
    ensures |rs| > 0 ==> Insert(rs, x)[0] in [x, rs[0]]
  {
    if |rs| > 0 && x.start > rs[0].start {
      var rest := Insert(rs[1..], x);
      InsertSorted(rs[1..], x);
      if |rest| > 0 {
        assert rs[0].start <= rest[0].start;
        forall k | 0 <= k < |rest|
          ensures rs[0].start <= rest[k].start
        {
          assert rest[0].start <= rest[k].start;
        }
      }
    }
  }

  function SortByStart(rs: seq<Range>): seq<Range>
  {
    if |rs| == 0 then [] else Insert(SortByStart(rs[..|rs| - 1]), rs[|rs| - 1])
  }

  lemma {:induction false} SortByStartSorts(rs: seq<Range>)
    ensures Sorted(SortByStart(rs)) && multiset(SortByStart(rs)) == multiset(rs)
  {
    hide Insert, Sorted;
    if |rs| == 0 {
      NothingSorted();
    } else {
      var front := SortByStart(rs[..|rs| - 1]);
      SortByStartSorts(rs[..|rs| - 1]);
      InsertKeeps(front, rs[|rs| - 1]);
      InsertSorted(front, rs[|rs| - 1]);
      assert rs == rs[..|rs| - 1] + [rs[|rs| - 1]];
    }
  }

  lemma NothingSorted()
    ensures Sorted([])
  {
  }

  /** The container stretched to the last start: where the scan looks for room. */
  function Stretched(rs: seq<Range>, size: nat): (s: nat)
    ensures s >= size && forall i :: 0 <= i < |rs| ==> rs[i].start <= s
    ensures s == size || exists i :: 0 <= i < |rs| && rs[i].start == s
  {
    if |rs| == 0 then size
    else
      var s := Stretched(rs[..|rs| - 1], size);
      if rs[|rs| - 1].start > s then rs[|rs| - 1].start else s
  }

  /** Some range is in the way of `need` bytes at p. */
  predicate Blocked(rs: seq<Range>, need: nat, p: nat)
  {
    exists k :: 0 <= k < |rs| && Meet(rs[k], Range(p, p + need))
  }

  lemma BlockedMore(front: seq<Range>, x: Range, all: seq<Range>, need: nat, before: nat, cursor: nat)
    requires all == front + [x] && need > 0 && x.start < before + need
    requires forall p: nat :: p < before ==> Blocked(front, need, p)
    requires cursor == if x.end > before then x.end else before
    ensures forall p: nat :: p < cursor ==> Blocked(all, need, p)
  {
    forall p: nat | p < cursor
      ensures Blocked(all, need, p)
    {
      if p < before {
        assert Blocked(front, need, p);
        var k :| 0 <= k < |front| && Meet(front[k], Range(p, p + need));
        assert all[k] == front[k];
      } else {
        assert Meet(all[|front|], Range(p, p + need));
      }
    }
  }

  lemma BlockedUnfit(rs: seq<Range>, i: nat, size: nat, need: nat, p: nat)
    requires i <= |rs| && Blocked(rs[..i], need, p)
    ensures !Fits(rs, size, need, p)
  {
    var k :| 0 <= k < i && Meet(rs[..i][k], Range(p, p + need));
    assert rs[k] in rs;
  }

  /** The scan over sorted ranges. */
  method Scan(r: seq<Range>, size: nat, need: nat) returns (answer: Option<nat>)
    requires Sorted(r) && NonEmpty(r) && need > 0
    ensures IsLeastFit(r, Stretched(r, size), need, answer)
  {
    hide Stretched, Blocked;
    var cursor := 0;
    for i := 0 to |r|
      invariant forall k :: 0 <= k < i ==> r[k].end <= cursor
      invariant forall p: nat :: p < cursor ==> Blocked(r[..i], need, p)
    {
      if r[i].start > cursor && r[i].start - cursor >= need {
        forall p: nat | p < cursor
          ensures !Fits(r, Stretched(r, size), need, p)
        {
          BlockedUnfit(r, i, Stretched(r, size), need, p);
        }
        return Some(cursor);
      }
      ghost var before := cursor;
      if r[i].end > cursor {
        cursor := r[i].end;
      }
      BlockedMore(r[..i], r[i], r[..i + 1], need, before, cursor);
    }
    forall p: nat | p < cursor
      ensures !Fits(r, Stretched(r, size), need, p)
    {
      BlockedUnfit(r, |r|, Stretched(r, size), need, p);
    }
    if size > cursor && size - cursor >= need {
      return Some(cursor);
    }
    answer := None;
  }

  /** qsort by start. */
  method SortInPlace(r: array<Range>, n: nat)
    requires n <= r.Length
    modifies r
    ensures Sorted(r[..n]) && multiset(r[..n]) == multiset(old(r[..n])) && r[n..] == old(r[n..])
  {
    var s := SortByStart(r[..n]);
    SortByStartSorts(r[..n]);
    SameLength(s, r[..n]);
    forall i | 0 <= i < n {
      r[i] := s[i];
    }
    assert r[..n] == s;
  }

  lemma SameLength(a: seq<Range>, b: seq<Range>)
    requires multiset(a) == multiset(b)
    ensures |a| == |b|
  {
    assert |multiset(a)| == |a| && |multiset(b)| == |b|;
  }

  /** vault_find_free: sorts the ranges in place, then scans. The answer is the least fit in the
      container stretched to the last range's start. */
  method FindFree(r: array<Range>, n: nat, size: nat, need: nat) returns (answer: Option<nat>)
    requires n <= r.Length && NonEmpty(r[..n]) && need > 0
    modifies r
    ensures IsLeastFit(old(r[..n]), Stretched(old(r[..n]), size), need, answer)
    ensures multiset(r[..n]) == multiset(old(r[..n])) && r[n..] == old(r[n..])
  {
    ghost var was := r[..n];
    SortInPlace(r, n);
    NonEmptyPermuted(was, r[..n]);
    answer := Scan(r[..n], size, need);
    LeastFitPermuted(r[..n], was, size, need, answer);
  }

  lemma SameMembers(a: seq<Range>, b: seq<Range>)
    requires multiset(a) == multiset(b)
    ensures forall x :: x in a <==> x in b
  {
    assert forall x :: x in a <==> x in multiset(a);
    assert forall x :: x in b <==> x in multiset(b);
  }

  lemma NonEmptyPermuted(a: seq<Range>, b: seq<Range>)
    requires multiset(a) == multiset(b) && NonEmpty(a)
    ensures NonEmpty(b)
  {
    SameMembers(a, b);
    forall i | 0 <= i < |b|
      ensures b[i].start < b[i].end
    {
      assert b[i] in a;
    }
  }

  lemma StretchedPermuted(a: seq<Range>, b: seq<Range>, size: nat)
    requires multiset(a) == multiset(b)
    ensures Stretched(a, size) <= Stretched(b, size)
  {
    SameMembers(a, b);
    if Stretched(a, size) != size {
      var i :| 0 <= i < |a| && a[i].start == Stretched(a, size);
      assert a[i] in b;
    }
  }

  lemma LeastFitPermuted(a: seq<Range>, b: seq<Range>, size: nat, need: nat, answer: Option<nat>)
    requires multiset(a) == multiset(b) && IsLeastFit(a, Stretched(a, size), need, answer)
    ensures IsLeastFit(b, Stretched(b, size), need, answer)
  {
    hide Stretched;
    StretchedPermuted(a, b, size);
    StretchedPermuted(b, a, size);
    SameMembers(a, b);
    forall p: nat
      ensures Fits(a, Stretched(a, size), need, p) == Fits(b, Stretched(b, size), need, p)
    {
    }
  }

  /** Byte p lies in none of the ranges. */
  predicate Free(rs: seq<Range>, p: nat)
  {
    forall i :: 0 <= i < |rs| ==> !(rs[i].start <= p < rs[i].end)
  }

  /** The free bytes right before s. */
  function FreeBefore(rs: seq<Range>, s: nat): (n: nat)
    ensures n <= s
  {
    if s == 0 || !Free(rs, s - 1) then 0 else FreeBefore(rs, s - 1) + 1
  }

  /** The longest run of free bytes in [0, s). */
  function LongestFree(rs: seq<Range>, s: nat): nat
  {
    if s == 0 then 0
    else if FreeBefore(rs, s) > LongestFree(rs, s - 1) then FreeBefore(rs, s)
    else LongestFree(rs, s - 1)
  }

  lemma {:induction false} FreeBeforeIs(rs: seq<Range>, s: nat, n: nat)
    requires n <= s
    ensures n <= FreeBefore(rs, s) <==> forall p: nat :: s - n <= p < s ==> Free(rs, p)
    decreases s
  {
    hide Free;
    if n > 0 {
      FreeBeforeIs(rs, s - 1, n - 1);
      assert Free(rs, s - 1) || !Free(rs, s - 1);
    }
  }

  /** Nonempty ranges leave room somewhere exactly when there is a free run of that length. */
  lemma FitsIff(rs: seq<Range>, size: nat, need: nat, o: nat)
    requires NonEmpty(rs) && need > 0
    ensures Fits(rs, size, need, o) <==> o + need <= size && need <= FreeBefore(rs, o + need)
  {
    FreeBeforeIs(rs, o + need, need);
    if o + need <= size && need <= FreeBefore(rs, o + need) {
      forall r | r in rs
        ensures !Meet(Range(o, o + need), r)
      {
        var p := if r.start < o then o else r.start;
        assert p < o + need ==> Free(rs, p);
      }
    }
    if Fits(rs, size, need, o) {
      forall p: nat | o <= p < o + need
        ensures Free(rs, p)
      {
        forall i | 0 <= i < |rs|
          ensures !(rs[i].start <= p < rs[i].end)
        {
          assert rs[i] in rs && !Meet(Range(o, o + need), rs[i]);
        }
      }
    }
  }

  lemma {:induction false} LongestFreeIs(rs: seq<Range>, size: nat, need: nat)
    requires NonEmpty(rs) && need > 0
    ensures need <= LongestFree(rs, size) <==> exists o: nat :: Fits(rs, size, need, o)
    decreases size
  {
    hide NonEmpty, Fits, FreeBefore;
    if size == 0 {
      NothingFits(rs, need);
    } else {
      LongestFreeIs(rs, size - 1, need);
      FitsSmaller(rs, size, need);
      if need <= size {
        FitsIff(rs, size, need, size - need);
        assert size - need + need == size;
      }
      if need <= LongestFree(rs, size - 1) {
        var o: nat :| Fits(rs, size - 1, need, o);
        assert Fits(rs, size, need, o);
      }
      if o: nat :| Fits(rs, size, need, o) {
        FitsIff(rs, size, need, o);
        if o + need < size {
          assert Fits(rs, size - 1, need, o);
        } else {
          assert o == size - need;
        }
      }
    }
  }

  lemma NothingFits(rs: seq<Range>, need: nat)
    requires need > 0
    ensures forall o: nat :: !Fits(rs, 0, need, o)
  {
  }

  lemma FitsSmaller(rs: seq<Range>, size: nat, need: nat)
    requires size > 0
    ensures forall o: nat :: Fits(rs, size - 1, need, o) <==> Fits(rs, size, need, o) && o + need < size
  {
  }

  /** The answer is the least fit of the container itself exactly when the request is within the longest
      free run of the container, or beyond that of the container stretched to the last start. */
  lemma FirstFitExactIff(rs: seq<Range>, size: nat, need: nat, answer: Option<nat>)
    requires NonEmpty(rs) && need > 0 && IsLeastFit(rs, Stretched(rs, size), need, answer)
    ensures IsLeastFit(rs, size, need, answer) <==>
      need <= LongestFree(rs, size) || need > LongestFree(rs, Stretched(rs, size))
  {
    hide Stretched, LongestFree;
    LongestFreeIs(rs, size, need);
    LongestFreeIs(rs, Stretched(rs, size), need);
    assert forall o: nat :: Fits(rs, size, need, o) ==> Fits(rs, Stretched(rs, size), need, o);
    if o: nat :| Fits(rs, size, need, o) {
      assert answer.Some? && answer.value <= o;
    }
  }

  /** First fit is exact for every request exactly when stretching the container to the last start makes
      no longer free run. */
  lemma AlwaysExactIff(rs: seq<Range>, size: nat)
    requires NonEmpty(rs)
    ensures (forall need: nat :: need > 0 ==> IsLeastFit(rs, size, need, FirstFit(rs, size, need))) <==>
      LongestFree(rs, Stretched(rs, size)) <= LongestFree(rs, size)
  {
    hide Stretched, LongestFree, FirstFit, IsLeastFit, NonEmpty;
    forall need: nat | need > 0
      ensures IsLeastFit(rs, size, need, FirstFit(rs, size, need)) <==>
        need <= LongestFree(rs, size) || need > LongestFree(rs, Stretched(rs, size))
    {
      FirstFitIs(rs, size, need, FirstFit(rs, size, need));
      FirstFitExactIff(rs, size, need, FirstFit(rs, size, need));
    }
    var need := LongestFree(rs, size) + 1;
    if LongestFree(rs, Stretched(rs, size)) > LongestFree(rs, size) {
      assert !IsLeastFit(rs, size, need, FirstFit(rs, size, need));
    }
  }

  /** In particular whenever no range starts beyond the container. */
  lemma FirstFitExact(rs: seq<Range>, size: nat, need: nat, answer: Option<nat>)
    requires IsLeastFit(rs, Stretched(rs, size), need, answer)
    requires forall i :: 0 <= i < |rs| ==> rs[i].start <= size
    ensures IsLeastFit(rs, size, need, answer)
  {
    assert Stretched(rs, size) == size;
  }

  /** A range that starts beyond the container's end, as a directory entry may, makes the scan offer
      room outside the container: 60 bytes at 0 of a container of 50. */
  lemma OverreachExample(answer: Option<nat>)
    requires IsLeastFit([Range(100, 200)], Stretched([Range(100, 200)], 50), 60, answer)
    ensures answer == Some(0) && !IsLeastFit([Range(100, 200)], 50, 60, answer)
  {
    var rs := [Range(100, 200)];
    assert Stretched(rs[..0], 50) == 50;
    assert Fits(rs, Stretched(rs, 50), 60, 0);
  }

  ghost function LeastFrom(rs: seq<Range>, size: nat, need: nat, o: nat): Option<nat>
    decreases size - o
  {
    if o + need > size then None
    else if Fits(rs, size, need, o) then Some(o)
    else if o >= size then None
    else LeastFrom(rs, size, need, o + 1)
  }

  /** What FindFree answers. */
  ghost function FirstFit(rs: seq<Range>, size: nat, need: nat): Option<nat>
  {
    LeastFrom(rs, Stretched(rs, size), need, 0)
  }

  lemma {:induction false} LeastFromIs(rs: seq<Range>, size: nat, need: nat, o: nat)
    requires forall p: nat :: p < o ==> !Fits(rs, size, need, p)
    ensures IsLeastFit(rs, size, need, LeastFrom(rs, size, need, o))
    decreases size - o
  {
    if o + need <= size && !Fits(rs, size, need, o) && o < size {
      LeastFromIs(rs, size, need, o + 1);
    }
  }

  /** There is only one answer. */
  lemma FirstFitIs(rs: seq<Range>, size: nat, need: nat, answer: Option<nat>)
    ensures IsLeastFit(rs, Stretched(rs, size), need, answer) <==> answer == FirstFit(rs, size, need)
  {
    hide Stretched, LeastFrom, Fits;
    LeastFromIs(rs, Stretched(rs, size), need, 0);
    var first := FirstFit(rs, size, need);
  }
}
