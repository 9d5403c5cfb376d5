/** The range set of quiche/src/ranges.rs.

    One mathematical set of integers has two concrete forms: a small sorted vector
    and an ordered map from range start to range end.  Both forms are proved against
    the same functions on sorted range lists, and those functions are proved against
    the set of values that a list covers. */
module Ranges {

  // ---------- Range lists and what they cover ----------

  /** The half-open range start..end. */
  datatype Range = Range(start: nat, end: nat) {
    predicate NonEmpty() { start < end }

    predicate Contains(x: nat) { start <= x < end }

    /** Overlapping or adjacent: the union of the two is again one range. */
    predicate Touches(other: Range) { start <= other.end && other.start <= end }

    /** The smallest range that holds both. */
    function Hull(other: Range): Range {
      Range(Min(start, other.start), Max(end, other.end))
    }
  }

  function Min(a: nat, b: nat): nat { if a <= b then a else b }

  function Max(a: nat, b: nat): nat { if a >= b then a else b }

  /** Sorted, and strictly separated by at least one missing value. */
  ghost predicate WellFormed(s: seq<Range>) {
    && (forall i :: 0 <= i < |s| ==> s[i].NonEmpty())
    && (forall i, j :: 0 <= i < j < |s| ==> s[i].end < s[j].start)
  }

  /** The same, but ranges may be empty: what the code guarantees in every state. */
  ghost predicate Separated(s: seq<Range>) {
    && (forall i :: 0 <= i < |s| ==> s[i].start <= s[i].end)
    && (forall i, j :: 0 <= i < j < |s| ==> s[i].end < s[j].start)
  }

  ghost predicate Covers(s: seq<Range>, x: nat) {
    exists i :: 0 <= i < |s| && s[i].Contains(x)
  }

  ghost predicate TouchesAny(s: seq<Range>, r: Range) {
    exists i :: 0 <= i < |s| && s[i].Touches(r)
  }

  /** Insertion stores no empty range: an empty one is taken only where it joins a stored one. */
  ghost predicate Storable(s: seq<Range>, r: Range) {
    r.NonEmpty() || (r.start == r.end && TouchesAny(s, r))
  }

  lemma CoversCons(s: seq<Range>, x: nat)
    requires s != []
    ensures Covers(s, x) <==> s[0].Contains(x) || Covers(s[1..], x)
  {
    if Covers(s[1..], x) {
      var i :| 0 <= i < |s[1..]| && s[1..][i].Contains(x);
      assert s[i + 1].Contains(x);
    }
    if Covers(s, x) && !s[0].Contains(x) {
      var i :| 0 <= i < |s| && s[i].Contains(x);
      assert s[1..][i - 1].Contains(x);
    }
  }

  lemma TouchesCons(s: seq<Range>, r: Range)
    requires s != []
    ensures TouchesAny(s, r) <==> s[0].Touches(r) || TouchesAny(s[1..], r)
  {
    if TouchesAny(s[1..], r) {
      var i :| 0 <= i < |s[1..]| && s[1..][i].Touches(r);
      assert s[i + 1].Touches(r);
    }
    if TouchesAny(s, r) && !s[0].Touches(r) {
      var i :| 0 <= i < |s| && s[i].Touches(r);
      assert s[1..][i - 1].Touches(r);
    }
  }

  lemma WellFormedCons(r: Range, s: seq<Range>)
    requires WellFormed(s) && r.NonEmpty()
    requires s != [] ==> r.end < s[0].start
    ensures WellFormed([r] + s)
  {
    var t := [r] + s;
    forall i, j | 0 <= i < j < |t| ensures t[i].end < t[j].start {
      if i == 0 && j > 1 {
        assert s[0].end < s[j - 1].start;
      }
    }
  }

  lemma SeparatedCons(r: Range, s: seq<Range>)
    requires Separated(s) && r.start <= r.end
    requires s != [] ==> r.end < s[0].start
    ensures Separated([r] + s)
  {
    var t := [r] + s;
    forall i, j | 0 <= i < j < |t| ensures t[i].end < t[j].start {
      if i == 0 && j > 1 {
        assert s[0].end < s[j - 1].start;
      }
    }
  }

  /** The lowest covered value of a well-formed list is where its first range starts,
      and the first range ends at the first value not covered. */
  lemma FirstRangeBounds(s: seq<Range>)
    requires WellFormed(s) && s != []
    ensures Covers(s, s[0].start) && !Covers(s, s[0].end)
    ensures forall x :: Covers(s, x) ==> s[0].start <= x
    ensures forall x :: s[0].start <= x < s[0].end ==> Covers(s, x)
  {
    assert s[0].Contains(s[0].start);
    forall x | s[0].start <= x < s[0].end ensures Covers(s, x) {
      assert s[0].Contains(x);
    }
  }

  /** Canonical form: covering the same values means being the same list. */
  lemma {:induction false} Canonical(s: seq<Range>, t: seq<Range>)
    requires WellFormed(s) && WellFormed(t)
    requires forall x: nat :: Covers(s, x) <==> Covers(t, x)
    ensures s == t
    decreases |s|
  {
    if s != [] { FirstRangeBounds(s); }
    if t != [] { FirstRangeBounds(t); }
    if s != [] && t != [] {
      assert s[0] == t[0] by {
        assert Covers(t, s[0].start) && Covers(s, t[0].start);
        assert !Covers(t, s[0].end) && !Covers(s, t[0].end);
      }
      forall x: nat ensures Covers(s[1..], x) <==> Covers(t[1..], x) {
        CoversCons(s, x);
        CoversCons(t, x);
        TailIsAbove(s, x);
        TailIsAbove(t, x);
      }
      Canonical(s[1..], t[1..]);
      assert s == [s[0]] + s[1..] && t == [t[0]] + t[1..];
    }
  }

  lemma TailIsAbove(s: seq<Range>, x: nat)
    requires Separated(s) && s != []
    ensures Covers(s[1..], x) ==> s[0].end < x
  {
    if Covers(s[1..], x) {
      var i :| 0 <= i < |s[1..]| && s[1..][i].Contains(x);
      assert s[0].end < s[i + 1].start;
    }
  }

  // ---------- Reference operations on range lists ----------

  /** Adds a range, joining it with every range it overlaps or is adjacent to. */
  function Insert(s: seq<Range>, r: Range): seq<Range> {
    if s == [] then [r]
    else if s[0].end < r.start then [s[0]] + Insert(s[1..], r)
    else if r.end < s[0].start then [r] + s
    else Insert(s[1..], s[0].Hull(r))
  }

  /** Insertion into a set that keeps at most `capacity` ranges: when the set is full
      and the new range joins nothing, the lowest stored range is dropped first. */
  ghost function InsertCapped(s: seq<Range>, r: Range, capacity: nat): seq<Range> {
    if |s| >= capacity && s != [] && !TouchesAny(s, r) then Insert(s[1..], r) else Insert(s, r)
  }

  /** Drops every value up to and including `largest`. */
  function RemoveUntil(s: seq<Range>, largest: nat): seq<Range> {
    if s == [] then []
    else if s[0].end <= largest + 1 then RemoveUntil(s[1..], largest)
    else [Range(Max(largest + 1, s[0].start), s[0].end)] + s[1..]
  }

  lemma {:induction false} InsertWellFormed(s: seq<Range>, r: Range)
    requires WellFormed(s) && Storable(s, r)
    ensures WellFormed(Insert(s, r)) && Insert(s, r) != []
    ensures Insert(s, r)[0].start == if s != [] then Min(s[0].start, r.start) else r.start
    decreases |s|
  {
    if s == [] {
    } else if s[0].end < r.start {
      TouchesCons(s, r);
      InsertWellFormed(s[1..], r);
      WellFormedCons(s[0], Insert(s[1..], r));
    } else if r.end < s[0].start {
      WellFormedCons(r, s);
    } else {
      InsertWellFormed(s[1..], s[0].Hull(r));
    }
  }

  lemma {:induction false} InsertSeparated(s: seq<Range>, r: Range)
    requires Separated(s) && r.start <= r.end
    ensures Separated(Insert(s, r)) && Insert(s, r) != []
    ensures Insert(s, r)[0].start == if s != [] then Min(s[0].start, r.start) else r.start
    decreases |s|
  {
    if s == [] {
    } else if s[0].end < r.start {
      InsertSeparated(s[1..], r);
      SeparatedCons(s[0], Insert(s[1..], r));
    } else if r.end < s[0].start {
      SeparatedCons(r, s);
    } else {
      InsertSeparated(s[1..], s[0].Hull(r));
    }
  }

  lemma {:induction false} InsertCovers(s: seq<Range>, r: Range, x: nat)
    requires Separated(s) && r.start <= r.end
    ensures Covers(Insert(s, r), x) <==> Covers(s, x) || r.Contains(x)
    decreases |s|
  {
    if s == [] {
      assert [r][0] == r;
    } else {
      CoversCons(s, x);
      if s[0].end < r.start {
        InsertCovers(s[1..], r, x);
        CoversCons([s[0]] + Insert(s[1..], r), x);
      } else if r.end < s[0].start {
        CoversCons([r] + s, x);
      } else {
        InsertCovers(s[1..], s[0].Hull(r), x);
      }
    }
  }

  lemma {:induction false} InsertLength(s: seq<Range>, r: Range)
    requires Separated(s) && r.start <= r.end
    ensures |Insert(s, r)| <= |s| + 1
    ensures |Insert(s, r)| <= |s| <==> TouchesAny(s, r)
    decreases |s|
  {
    if s != [] {
      TouchesCons(s, r);
      if s[0].end < r.start {
        InsertLength(s[1..], r);
      } else if r.end < s[0].start {
        forall i | 0 <= i < |s| ensures !s[i].Touches(r) {
        }
      } else {
        InsertLength(s[1..], s[0].Hull(r));
      }
    }
  }

  /** What a capped insertion means for the stored values: the old values and the new
      range, minus exactly the lowest range when the set was full and nothing joined. */
  lemma InsertCappedMeaning(s: seq<Range>, r: Range, capacity: nat)
    requires Separated(s) && r.start <= r.end && |s| <= capacity && 1 <= capacity
    ensures var evicts := |s| == capacity && !TouchesAny(s, r);
            var t := InsertCapped(s, r, capacity);
            && Separated(t)
            && (WellFormed(s) && Storable(s, r) ==> WellFormed(t))
            && |t| <= capacity
            && (forall x: nat :: Covers(t, x) <==>
                  r.Contains(x) || (Covers(s, x) && !(evicts && s[0].Contains(x))))
  {
    var evicts := |s| == capacity && !TouchesAny(s, r);
    var base := if evicts then s[1..] else s;
    InsertSeparated(base, r);
    if WellFormed(s) && Storable(s, r) {
      InsertWellFormed(base, r);
    }
    InsertLength(base, r);
    forall x: nat
      ensures Covers(InsertCapped(s, r, capacity), x) <==>
              r.Contains(x) || (Covers(s, x) && !(evicts && s[0].Contains(x)))
    {
      InsertCovers(base, r, x);
      if evicts {
        CoversCons(s, x);
        TailIsAbove(s, x);
      }
    }
  }

  lemma {:induction false} RemoveUntilMeaning(s: seq<Range>, largest: nat, x: nat)
    requires WellFormed(s)
    ensures WellFormed(RemoveUntil(s, largest)) && |RemoveUntil(s, largest)| <= |s|
    ensures Covers(RemoveUntil(s, largest), x) <==> Covers(s, x) && x > largest
    decreases |s|
  {
    if s != [] {
      CoversCons(s, x);
      TailIsAbove(s, x);
      if s[0].end <= largest + 1 {
        RemoveUntilMeaning(s[1..], largest, x);
      } else {
        var head := Range(Max(largest + 1, s[0].start), s[0].end);
        WellFormedCons(head, s[1..]);
        CoversCons([head] + s[1..], x);
      }
    }
  }

  // ---------- Removal in the two forms ----------

  /** What the vector loop leaves: it also drops an empty range right after the removed ones. */
  function VectorRemoved(s: seq<Range>, largest: nat): seq<Range> {
    if s == [] then []
    else if s[0].end <= largest then VectorRemoved(s[1..], largest)
    else
      var start := Max(largest + 1, s[0].start);
      if start == s[0].end then s[1..] else [Range(start, s[0].end)] + s[1..]
  }

  /** The part of a range above `largest`, if there is one. */
  function Overhang(r: Range, largest: nat): seq<Range> {
    if r.end > largest + 1 then [Range(largest + 1, r.end)] else []
  }

  /** What the map loop leaves: it looks only at the ranges that start at or below `largest`. */
  function TreeRemoved(s: seq<Range>, largest: nat): seq<Range> {
    if s == [] || s[0].start > largest then s
    else Overhang(s[0], largest) + TreeRemoved(s[1..], largest)
  }

  lemma TreeRemovedAbove(s: seq<Range>, largest: nat)
    requires Separated(s) && (s != [] ==> largest < s[0].start)
    ensures TreeRemoved(s, largest) == s
  {
  }

  /** A first range wholly at or below `largest` goes. */
  lemma RemovedLow(s: seq<Range>, largest: nat)
    requires Separated(s) && s != [] && s[0].end <= largest
    ensures VectorRemoved(s, largest) == VectorRemoved(s[1..], largest)
    ensures TreeRemoved(s, largest) == TreeRemoved(s[1..], largest)
  {
    assert [] + TreeRemoved(s[1..], largest) == TreeRemoved(s[1..], largest);
  }

  /** Any other first range is clipped; an empty one that starts above `largest` goes in the
      vector and stays in the map. */
  lemma RemovedHigh(s: seq<Range>, largest: nat, clipped: Range, rest: seq<Range>)
    requires Separated(s) && s != [] && s[0].end > largest
    requires clipped == Range(Max(largest + 1, s[0].start), s[0].end) && rest == s[1..]
    ensures VectorRemoved(s, largest) == (if clipped.NonEmpty() then [clipped] + rest else rest)
    ensures TreeRemoved(s, largest) == if clipped.NonEmpty() || s[0].start > largest then [clipped] + rest else rest
    ensures clipped.start <= clipped.end && Separated(rest) && (rest != [] ==> clipped.end < rest[0].start)
    ensures clipped.NonEmpty() || s[0].start > largest || s[0].end == largest + 1
  {
    assert s[0].start <= s[0].end && Separated(rest) && (rest != [] ==> s[0].end < rest[0].start);
    TreeRemovedHigh(s, largest, clipped, rest);
    hide TreeRemoved, Separated;
  }

  lemma TreeRemovedHigh(s: seq<Range>, largest: nat, clipped: Range, rest: seq<Range>)
    requires s != [] && s[0].start <= s[0].end && s[0].end > largest && Separated(rest)
    requires clipped == Range(Max(largest + 1, s[0].start), s[0].end) && rest == s[1..]
    requires rest != [] ==> s[0].end < rest[0].start
    ensures TreeRemoved(s, largest) == if clipped.NonEmpty() || s[0].start > largest then [clipped] + rest else rest
  {
    TreeRemovedAbove(rest, largest);
    hide TreeRemoved, Separated;
    if s[0].start > largest {
      TreeRemovedAboveHead(s, largest);
      HeadAndTail(s, clipped, rest);
    } else {
      TreeRemovedClips(s, largest);
      EmptyInFront(rest);
    }
  }

  lemma HeadAndTail(s: seq<Range>, r: Range, rest: seq<Range>)
    requires s != [] && r == s[0] && rest == s[1..]
    ensures s == [r] + rest
  {
  }

  lemma EmptyInFront(s: seq<Range>)
    ensures [] + s == s
  {
  }

  lemma TreeRemovedAboveHead(s: seq<Range>, largest: nat)
    requires s != [] && s[0].start > largest
    ensures TreeRemoved(s, largest) == s
  {
  }

  lemma TreeRemovedClips(s: seq<Range>, largest: nat)
    requires s != [] && s[0].start <= largest
    ensures TreeRemoved(s, largest) == Overhang(s[0], largest) + TreeRemoved(s[1..], largest)
  {
  }

  lemma CoversHead(r: Range, rest: seq<Range>, x: nat)
    ensures Covers([r] + rest, x) <==> r.Contains(x) || Covers(rest, x)
  {
    var t := [r] + rest;
    assert t[1..] == rest;
    CoversCons(t, x);
  }

  /** Both forms leave exactly the covered values above `largest`. */
  lemma {:induction false} RemovedCovers(s: seq<Range>, largest: nat, x: nat)
    requires Separated(s)
    ensures Covers(VectorRemoved(s, largest), x) <==> Covers(s, x) && x > largest
    ensures Covers(TreeRemoved(s, largest), x) <==> Covers(s, x) && x > largest
    decreases |s|
  {
    if s != [] {
      CoversCons(s, x);
      TailIsAbove(s, x);
      hide VectorRemoved, TreeRemoved, Covers;
      if s[0].end <= largest {
        RemovedLow(s, largest);
        RemovedCovers(s[1..], largest, x);
      } else {
        RemovedHighCovers(s, largest, x);
      }
    }
  }

  lemma RemovedHighCovers(s: seq<Range>, largest: nat, x: nat)
    requires Separated(s) && s != [] && s[0].end > largest
    requires Covers(s, x) <==> s[0].Contains(x) || Covers(s[1..], x)
    requires Covers(s[1..], x) ==> s[0].end < x
    ensures Covers(VectorRemoved(s, largest), x) <==> Covers(s, x) && x > largest
    ensures Covers(TreeRemoved(s, largest), x) <==> Covers(s, x) && x > largest
  {
    hide VectorRemoved, TreeRemoved, Covers, Separated;
    var clipped := Range(Max(largest + 1, s[0].start), s[0].end);
    RemovedHigh(s, largest, clipped, s[1..]);
    CoversHead(clipped, s[1..], x);
  }

  /** Both forms leave separated ranges, and no more than there were. */
  lemma {:induction false} RemovedSeparated(s: seq<Range>, largest: nat)
    requires Separated(s)
    ensures Separated(VectorRemoved(s, largest)) && |VectorRemoved(s, largest)| <= |s|
    ensures Separated(TreeRemoved(s, largest)) && |TreeRemoved(s, largest)| <= |s|
    decreases |s|
  {
    if s != [] {
      if s[0].end <= largest {
        RemovedLow(s, largest);
        RemovedSeparated(s[1..], largest);
      } else {
        var clipped := Range(Max(largest + 1, s[0].start), s[0].end);
        RemovedHigh(s, largest, clipped, s[1..]);
        hide VectorRemoved, TreeRemoved, Separated;
        SeparatedCons(clipped, s[1..]);
      }
    }
  }

  /** The first range that ends above `largest` is not empty. */
  predicate NoEmptyNext(s: seq<Range>, largest: nat) {
    s != [] ==> if s[0].end <= largest then NoEmptyNext(s[1..], largest) else s[0].NonEmpty()
  }

  /** The two forms leave the same ranges if and only if no empty range comes next. */
  lemma {:induction false} RemovalsAgreeIff(s: seq<Range>, largest: nat)
    requires Separated(s)
    ensures VectorRemoved(s, largest) == TreeRemoved(s, largest) <==> NoEmptyNext(s, largest)
    decreases |s|
  {
    if s != [] {
      hide VectorRemoved, TreeRemoved;
      if s[0].end <= largest {
        RemovedLow(s, largest);
        RemovalsAgreeIff(s[1..], largest);
      } else {
        RemovedHigh(s, largest, Range(Max(largest + 1, s[0].start), s[0].end), s[1..]);
        hide Separated;
      }
    }
  }

  /** Without empty ranges both forms give the same list. */
  lemma {:induction false} RemovalsOfWellFormed(s: seq<Range>, largest: nat)
    requires WellFormed(s)
    ensures VectorRemoved(s, largest) == TreeRemoved(s, largest) == RemoveUntil(s, largest)
    decreases |s|
  {
    if s != [] {
      if s[0].end <= largest {
        RemovedLow(s, largest);
        RemovalsOfWellFormed(s[1..], largest);
      } else {
        RemovalsOfHigh(s, largest);
      }
    }
  }

  lemma RemovalsOfHigh(s: seq<Range>, largest: nat)
    requires WellFormed(s) && s != [] && s[0].end > largest
    ensures VectorRemoved(s, largest) == TreeRemoved(s, largest) == RemoveUntil(s, largest)
  {
    assert Separated(s);
    hide VectorRemoved, TreeRemoved, WellFormed, RemoveUntil, Separated;
    var clipped := Range(Max(largest + 1, s[0].start), s[0].end);
    RemovedHigh(s, largest, clipped, s[1..]);
    RemoveUntilHigh(s, largest, clipped, s[1..]);
  }

  lemma RemoveUntilHigh(s: seq<Range>, largest: nat, clipped: Range, rest: seq<Range>)
    requires WellFormed(s) && s != [] && s[0].end > largest
    requires clipped == Range(Max(largest + 1, s[0].start), s[0].end) && rest == s[1..]
    ensures RemoveUntil(s, largest) == if clipped.NonEmpty() then [clipped] + rest else rest
    ensures s[0].NonEmpty() && (s[0].start > largest ==> clipped.NonEmpty())
  {
    assert s[0].NonEmpty();
    if s[0].end == largest + 1 {
      RemoveUntilAbove(rest, largest);
    }
  }

  lemma RemoveUntilAbove(s: seq<Range>, largest: nat)
    requires WellFormed(s) && (s != [] ==> largest + 1 < s[0].start)
    ensures RemoveUntil(s, largest) == s
  {
    if s != [] {
      assert s == [s[0]] + s[1..];
    }
  }

  // ---------- Empty ranges ----------

  /** Inserting an empty range changes nothing exactly when it joins a stored range.  Otherwise the
      list keeps it, covers the same values, and is no longer the canonical one. */
  lemma EmptyInsertion(s: seq<Range>, k: nat)
    requires WellFormed(s)
    ensures var t := Insert(s, Range(k, k));
            && (forall x: nat :: Covers(t, x) <==> Covers(s, x))
            && (t == s <==> TouchesAny(s, Range(k, k)))
            && (WellFormed(t) <==> TouchesAny(s, Range(k, k)))
  {
    var r := Range(k, k);
    var t := Insert(s, r);
    InsertLength(s, r);
    forall x: nat ensures Covers(t, x) <==> Covers(s, x) {
      InsertCovers(s, r, x);
    }
    if TouchesAny(s, r) {
      InsertWellFormed(s, r);
      Canonical(s, t);
    } else if WellFormed(t) {
      Canonical(s, t);
    }
  }

  /** The smallest such input: the empty set takes the empty range at zero. */
  lemma EmptyRangeIsKept()
    ensures Insert([], Range(0, 0)) == [Range(0, 0)] && !WellFormed(Insert([], Range(0, 0)))
    ensures forall x: nat :: !Covers(Insert([], Range(0, 0)), x)
    ensures VectorRemoved([Range(5, 5)], 0) == [] && TreeRemoved([Range(5, 5)], 0) == [Range(5, 5)]
  {
    assert !Insert([], Range(0, 0))[0].NonEmpty();
  }

  /** Ranges that end before the new one are left alone. */
  lemma {:induction false} InsertSkips(s: seq<Range>, r: Range, n: nat)
    requires n <= |s|
    requires forall i :: 0 <= i < n ==> s[i].end < r.start
    ensures Insert(s, r) == s[..n] + Insert(s[n..], r)
  {
    if n == 0 {
      assert s[0..] == s;
    } else {
      InsertSkips(s[1..], r, n - 1);
      assert s[1..][n - 1..] == s[n..];
      assert s[..n] == [s[0]] + s[1..][..n - 1];
    }
  }

  // ---------- Runs of insertions ----------

  function InsertAll(s: seq<Range>, items: seq<Range>): seq<Range>
    decreases |items|
  {
    if items == [] then s else InsertAll(Insert(s, items[0]), items[1..])
  }

  ghost predicate AllNonEmpty(items: seq<Range>) {
    forall i :: 0 <= i < |items| ==> items[i].NonEmpty()
  }

  lemma {:induction false} InsertAllMeaning(s: seq<Range>, items: seq<Range>, x: nat)
    requires WellFormed(s) && AllNonEmpty(items)
    ensures WellFormed(InsertAll(s, items))
    ensures Covers(InsertAll(s, items), x) <==> Covers(s, x) || Covers(items, x)
    decreases |items|
  {
    if items != [] {
      InsertWellFormed(s, items[0]);
      InsertAllMeaning(Insert(s, items[0]), items[1..], x);
      InsertCovers(s, items[0], x);
      CoversCons(items, x);
    }
  }

  /** Order independence: any two runs of insertions whose items cover the same values,
      such as a permutation or a finer splitting, end with the same list. */
  lemma OrderIndependence(s: seq<Range>, items: seq<Range>, others: seq<Range>)
    requires WellFormed(s) && AllNonEmpty(items) && AllNonEmpty(others)
    requires forall x: nat :: Covers(items, x) <==> Covers(others, x)
    ensures InsertAll(s, items) == InsertAll(s, others)
  {
    forall x: nat ensures Covers(InsertAll(s, items), x) <==> Covers(InsertAll(s, others), x) {
      InsertAllMeaning(s, items, x);
      InsertAllMeaning(s, others, x);
    }
    InsertAllMeaning(s, items, 0);
    InsertAllMeaning(s, others, 0);
    Canonical(InsertAll(s, items), InsertAll(s, others));
  }

  ghost function InsertAllCapped(s: seq<Range>, items: seq<Range>, capacity: nat): seq<Range>
    decreases |items|
  {
    if items == [] then s else InsertAllCapped(InsertCapped(s, items[0], capacity), items[1..], capacity)
  }

  /** No insertion of the run meets a full set without joining a stored range. */
  ghost predicate NeverEvicts(s: seq<Range>, items: seq<Range>, capacity: nat)
    decreases |items|
  {
    items != [] ==>
      && (|s| < capacity || TouchesAny(s, items[0]))
      && NeverEvicts(InsertCapped(s, items[0], capacity), items[1..], capacity)
  }

  lemma {:induction false} CappedRunIsUncapped(s: seq<Range>, items: seq<Range>, capacity: nat)
    requires NeverEvicts(s, items, capacity)
    ensures InsertAllCapped(s, items, capacity) == InsertAll(s, items)
    decreases |items|
  {
    if items != [] {
      CappedRunIsUncapped(InsertCapped(s, items[0], capacity), items[1..], capacity);
    }
  }

  /** Order independence of the bounded set: runs that evict nothing end with the same list, even
      under different capacities, if their items cover the same values. */
  lemma CappedOrderIndependence(s: seq<Range>, items: seq<Range>, others: seq<Range>, c: nat, d: nat)
    requires WellFormed(s) && AllNonEmpty(items) && AllNonEmpty(others)
    requires forall x: nat :: Covers(items, x) <==> Covers(others, x)
    requires NeverEvicts(s, items, c) && NeverEvicts(s, others, d)
    ensures InsertAllCapped(s, items, c) == InsertAllCapped(s, others, d)
  {
    CappedRunIsUncapped(s, items, c);
    CappedRunIsUncapped(s, others, d);
    OrderIndependence(s, items, others);
  }

  /** The single-value ranges that pushing from..to one by one inserts. */
  function Singletons(from: nat, to: nat): seq<Range>
    requires from <= to
  {
    seq(to - from, i requires 0 <= i < to - from => Range(from + i, from + i + 1))
  }

  /** Pushing the values of a range one by one is inserting the range. */
  lemma PushItemsIsInsert(s: seq<Range>, r: Range)
    requires WellFormed(s) && r.NonEmpty()
    ensures InsertAll(s, Singletons(r.start, r.end)) == Insert(s, r)
  {
    var ones := Singletons(r.start, r.end);
    forall x: nat ensures Covers(ones, x) <==> Covers([r], x) {
      if r.Contains(x) {
        assert ones[x - r.start].Contains(x) && [r][0].Contains(x);
      }
    }
    OrderIndependence(s, ones, [r]);
    assert InsertAll(s, [r]) == InsertAll(Insert(s, r), []);
  }

  /** A new range wholly below the others goes in front of them: ACK frames list their
      ranges from the highest down and are parsed by such insertions. */
  lemma InsertBelow(s: seq<Range>, r: Range, capacity: nat)
    requires Separated(s) && r.start <= r.end && |s| < capacity
    requires s != [] ==> r.end < s[0].start
    ensures InsertCapped(s, r, capacity) == [r] + s
  {
  }

  // ---------- The ordered map of ranges ----------

  ghost predicate TreeSeparated(m: map<nat, nat>) {
    && (forall k :: k in m ==> k <= m[k])
    && (forall j, k :: j in m && k in m && j < k ==> m[j] < k)
  }

  ghost predicate TreeCovers(m: map<nat, nat>, x: nat) {
    exists k :: k in m && k <= x < m[k]
  }

  ghost predicate IsFirstKey(m: map<nat, nat>, k: nat) {
    k in m && forall j :: j in m ==> k <= j
  }

  lemma FirstKeyExists(m: map<nat, nat>)
    requires m != map[]
    ensures exists k :: IsFirstKey(m, k)
    decreases |m|
  {
    var k :| k in m;
    var rest := m - {k};
    assert rest.Keys == m.Keys - {k};
    if rest == map[] {
      assert forall j :: j in m && j != k ==> j in rest;
      assert IsFirstKey(m, k);
    } else {
      FirstKeyExists(rest);
      var j :| IsFirstKey(rest, j);
      assert forall i :: i in m && i != k ==> i in rest;
      assert IsFirstKey(m, if j < k then j else k);
    }
  }

  /** The iteration order of the map: its entries by increasing key. */
  ghost function Entries(m: map<nat, nat>): seq<Range>
    decreases |m|
  {
    if m == map[] then []
    else
      FirstKeyExists(m);
      var k :| IsFirstKey(m, k);
      assert (m - {k}).Keys == m.Keys - {k};
      [Range(k, m[k])] + Entries(m - {k})
  }

  function ToTree(s: seq<Range>): map<nat, nat> {
    if s == [] then map[] else ToTree(s[1..])[s[0].start := s[0].end]
  }

  lemma EntriesStep(m: map<nat, nat>) returns (k: nat, rest: map<nat, nat>)
    requires m != map[]
    ensures IsFirstKey(m, k) && rest == m - {k} && |rest| == |m| - 1
    ensures Entries(m) == [Range(k, m[k])] + Entries(rest)
  {
    FirstKeyExists(m);
    k := Entries(m)[0].start;
    rest := m - {k};
    assert rest.Keys == m.Keys - {k};
  }

  lemma {:induction false} EntriesMeaning(m: map<nat, nat>, x: nat)
    requires TreeSeparated(m)
    ensures Separated(Entries(m)) && |Entries(m)| == |m|
    ensures m != map[] ==> IsFirstKey(m, Entries(m)[0].start)
    ensures Covers(Entries(m), x) <==> TreeCovers(m, x)
    decreases |m|
  {
    if m != map[] {
      var k, rest := EntriesStep(m);
      TreeWithout(m, k);
      TreeCoversWithout(m, k, x);
      hide Entries, Covers, TreeCovers, Separated, TreeSeparated;
      EntriesMeaning(rest, x);
      SeparatedCons(Range(k, m[k]), Entries(rest));
      CoversHead(Range(k, m[k]), Entries(rest), x);
    }
  }

  lemma TreeWithout(m: map<nat, nat>, k: nat)
    requires TreeSeparated(m) && IsFirstKey(m, k)
    ensures TreeSeparated(m - {k}) && k <= m[k]
    ensures forall j :: j in m - {k} ==> m[k] < j
  {
  }

  lemma TreeCoversWithout(m: map<nat, nat>, k: nat, x: nat)
    requires k in m
    ensures TreeCovers(m, x) <==> k <= x < m[k] || TreeCovers(m - {k}, x)
  {
    if TreeCovers(m, x) {
      var j :| j in m && j <= x < m[j];
      assert j == k || j in m - {k};
    }
    if TreeCovers(m - {k}, x) {
      var j :| j in m - {k} && j <= x < (m - {k})[j];
      assert j in m;
    }
  }

  /** The entries of a map are its keys and values, in order. */
  lemma {:induction false} EntriesElements(m: map<nat, nat>)
    ensures forall i :: 0 <= i < |Entries(m)| ==>
              Entries(m)[i].start in m && m[Entries(m)[i].start] == Entries(m)[i].end
    ensures forall k :: k in m ==> Range(k, m[k]) in Entries(m)
    decreases |m|
  {
    if m != map[] {
      FirstKeyExists(m);
      var k := Entries(m)[0].start;
      var rest := m - {k};
      assert rest.Keys == m.Keys - {k};
      assert Entries(m) == [Range(k, m[k])] + Entries(rest);
      EntriesElements(rest);
      forall j | j in m ensures Range(j, m[j]) in Entries(m) {
        if j != k {
          assert j in rest;
        }
      }
    }
  }

  lemma TouchesEntries(m: map<nat, nat>, r: Range)
    ensures TouchesAny(Entries(m), r) <==> exists k :: k in m && Range(k, m[k]).Touches(r)
  {
    EntriesElements(m);
    if k :| k in m && Range(k, m[k]).Touches(r) {
      var i :| 0 <= i < |Entries(m)| && Entries(m)[i] == Range(k, m[k]);
      assert Entries(m)[i].Touches(r);
    }
  }

  /** The list has the entries of the map and no others. */
  ghost predicate Lists(s: seq<Range>, m: map<nat, nat>) {
    && (forall i :: 0 <= i < |s| ==> s[i].start in m && m[s[i].start] == s[i].end)
    && (forall k :: k in m ==> exists i :: 0 <= i < |s| && s[i].start == k)
  }

  /** Only one separated list has the entries of a map. */
  lemma {:induction false} EntriesUnique(m: map<nat, nat>, s: seq<Range>)
    requires Separated(s) && Lists(s, m)
    ensures Entries(m) == s
    decreases |s|
  {
    if s == [] {
      assert m == map[];
    } else {
      assert s[0].start in m;
      var k, rest := EntriesStep(m);
      FirstListed(s, m, k);
      ListsTail(s, m);
      hide Entries, Lists;
      EntriesUnique(rest, s[1..]);
    }
  }

  lemma FirstListed(s: seq<Range>, m: map<nat, nat>, k: nat)
    requires Separated(s) && s != [] && Lists(s, m) && IsFirstKey(m, k)
    ensures k == s[0].start && m[k] == s[0].end
  {
    var i :| 0 <= i < |s| && s[i].start == k;
    assert s[0].start in m;
  }

  lemma ListsTail(s: seq<Range>, m: map<nat, nat>)
    requires Separated(s) && s != [] && Lists(s, m)
    ensures Lists(s[1..], m - {s[0].start}) && Separated(s[1..])
  {
    var rest, k0 := m - {s[0].start}, s[0].start;
    forall i | 0 <= i < |s[1..]| ensures s[1..][i].start in rest && rest[s[1..][i].start] == s[1..][i].end {
      assert s[1..][i] == s[i + 1] && s[0].end < s[i + 1].start;
    }
    forall k | k in rest ensures exists i :: 0 <= i < |s[1..]| && s[1..][i].start == k {
      var i :| 0 <= i < |s| && s[i].start == k;
      assert s[1..][i - 1].start == k;
    }
  }

  lemma {:induction false} ToTreeLists(s: seq<Range>)
    requires Separated(s)
    ensures Lists(s, ToTree(s)) && |ToTree(s)| == |s|
    decreases |s|
  {
    if s != [] {
      ToTreeLists(s[1..]);
      assert ToTree(s) == ToTree(s[1..])[s[0].start := s[0].end];
      hide ToTree;
      ListsCons(s, ToTree(s[1..]));
    }
  }

  lemma ListsCons(s: seq<Range>, rest: map<nat, nat>)
    requires Separated(s) && s != [] && Lists(s[1..], rest)
    ensures var m := rest[s[0].start := s[0].end]; Lists(s, m) && |m| == |rest| + 1
  {
    var m := rest[s[0].start := s[0].end];
    NewFirst(s, rest);
    assert m.Keys == rest.Keys + {s[0].start};
    forall i | 0 <= i < |s| ensures s[i].start in m && m[s[i].start] == s[i].end {
      if i > 0 {
        assert s[1..][i - 1] == s[i];
      }
    }
  }

  lemma NewFirst(s: seq<Range>, rest: map<nat, nat>)
    requires Separated(s) && s != [] && Lists(s[1..], rest)
    ensures s[0].start !in rest
    ensures forall k :: k in rest ==> exists i :: 0 <= i < |s| && s[i].start == k
  {
    forall k | k in rest ensures s[0].start != k && exists i :: 0 <= i < |s| && s[i].start == k {
      var i := ListedAt(s[1..], rest, k);
      assert s[i + 1].start == k && s[0].end < s[i + 1].start;
    }
  }

  lemma ListedIsSeparated(s: seq<Range>, m: map<nat, nat>)
    requires Separated(s) && Lists(s, m)
    ensures TreeSeparated(m)
  {
    forall k | k in m ensures k <= m[k] {
      var i := ListedAt(s, m, k);
    }
    hide Lists;
    forall j, k | j in m && k in m && j < k ensures m[j] < k {
      var a := ListedAt(s, m, j);
      var b := ListedAt(s, m, k);
      assert a < b;
    }
  }

  lemma ListedAt(s: seq<Range>, m: map<nat, nat>, k: nat) returns (i: nat)
    requires Lists(s, m) && k in m
    ensures i < |s| && s[i].start == k && s[i].end == m[k]
  {
    i :| 0 <= i < |s| && s[i].start == k;
  }

  /** Moving between the two forms keeps the list. */
  lemma ToTreeRoundTrip(s: seq<Range>)
    requires Separated(s)
    ensures TreeSeparated(ToTree(s)) && Entries(ToTree(s)) == s && |ToTree(s)| == |s|
  {
    ToTreeLists(s);
    hide ToTree, Lists, Entries;
    ListedIsSeparated(s, ToTree(s));
    EntriesUnique(ToTree(s), s);
  }

  // ---------- What insertion leaves ----------

  /** `q` is `r` grown by exactly the ranges that touch it. */
  ghost predicate IsHull(s: seq<Range>, r: Range, q: Range) {
    && q.start <= r.start && r.end <= q.end
    && (forall x :: x in s && x.Touches(r) ==> q.start <= x.start && x.end <= q.end)
    && (q.start == r.start || exists x :: x in s && x.Touches(r) && x.start == q.start)
    && (q.end == r.end || exists x :: x in s && x.Touches(r) && x.end == q.end)
  }

  /** `t` keeps the ranges of `s` that do not touch `r`, and has `q` in place of the others. */
  ghost predicate Replaces(s: seq<Range>, r: Range, q: Range, t: seq<Range>) {
    forall x :: x in t <==> x == q || (x in s && !x.Touches(r))
  }

  /** Insertion keeps the ranges that do not touch the new one, and puts in its hull. */
  lemma {:induction false} InsertElements(s: seq<Range>, r: Range, q: Range)
    requires Separated(s) && r.start <= r.end && IsHull(s, r, q)
    ensures Replaces(s, r, q, Insert(s, r))
    decreases |s|
  {
    if s == [] {
    } else if s[0].end < r.start {
      HullSkips(s, r, q);
      hide IsHull;
      InsertElements(s[1..], r, q);
      hide Insert;
      ReplacesSkip(s, r, q, Insert(s[1..], r));
    } else if r.end < s[0].start {
      NoneTouch(s, r);
      hide Separated, Insert;
    } else {
      HullJoins(s, r, q);
      hide IsHull;
      InsertElements(s[1..], s[0].Hull(r), q);
      hide Insert;
      ReplacesJoin(s, r, q, Insert(s[1..], s[0].Hull(r)));
    }
  }

  lemma NoneTouch(s: seq<Range>, r: Range)
    requires Separated(s) && s != [] && r.end < s[0].start
    ensures forall x :: x in s ==> !x.Touches(r)
  {
    forall i | 0 <= i < |s| ensures !s[i].Touches(r) {
    }
  }

  lemma ReplacesSkip(s: seq<Range>, r: Range, q: Range, t: seq<Range>)
    requires s != [] && s[0].end < r.start && Replaces(s[1..], r, q, t)
    ensures Replaces(s, r, q, [s[0]] + t)
  {
    assert s == [s[0]] + s[1..];
  }

  lemma ReplacesJoin(s: seq<Range>, r: Range, q: Range, t: seq<Range>)
    requires s != [] && s[0].Touches(r) && Replaces(s[1..], s[0].Hull(r), q, t)
    requires forall x :: x in s[1..] ==> (x.Touches(r) <==> x.Touches(s[0].Hull(r)))
    ensures Replaces(s, r, q, t)
  {
    assert s == [s[0]] + s[1..];
  }

  lemma HullSkips(s: seq<Range>, r: Range, q: Range)
    requires s != [] && s[0].end < r.start && IsHull(s, r, q)
    ensures IsHull(s[1..], r, q) && !s[0].Touches(r)
  {
    assert s == [s[0]] + s[1..];
    assert forall x :: x in s && x.Touches(r) ==> x in s[1..];
  }

  lemma HullJoins(s: seq<Range>, r: Range, q: Range)
    requires Separated(s) && s != [] && r.start <= r.end && s[0].Touches(r) && IsHull(s, r, q)
    ensures IsHull(s[1..], s[0].Hull(r), q)
    ensures forall x :: x in s[1..] ==> (x.Touches(r) <==> x.Touches(s[0].Hull(r)))
  {
    TouchTogether(s, r);
    HullStart(s, r, q);
    HullEnd(s, r, q);
    hide Separated;
    assert s == [s[0]] + s[1..];
  }

  lemma HullEnd(s: seq<Range>, r: Range, q: Range)
    requires Separated(s) && s != [] && r.start <= r.end && s[0].Touches(r) && IsHull(s, r, q)
    ensures var h := s[0].Hull(r);
            h.end <= q.end && (q.end == h.end || exists x :: x in s[1..] && x.Touches(h) && x.end == q.end)
  {
    TouchTogether(s, r);
    hide Separated;
    assert s == [s[0]] + s[1..];
    assert s[0] in s;
    var h := s[0].Hull(r);
    if q.end != h.end {
      var x :| x in s && x.Touches(r) && x.end == q.end;
      assert x in s[1..] && x.Touches(h);
    }
  }

  lemma HullStart(s: seq<Range>, r: Range, q: Range)
    requires Separated(s) && s != [] && s[0].Touches(r) && IsHull(s, r, q)
    ensures q.start == s[0].Hull(r).start
  {
    assert s[0] in s;
    forall x | x in s ensures s[0].start <= x.start {
      var i :| 0 <= i < |s| && s[i] == x;
      assert i == 0 || s[0].end < s[i].start;
    }
  }

  lemma TouchTogether(s: seq<Range>, r: Range)
    requires Separated(s) && s != [] && r.start <= r.end && s[0].Touches(r)
    ensures forall x :: x in s[1..] ==> (x.Touches(r) <==> x.Touches(s[0].Hull(r)))
  {
    forall x | x in s[1..] ensures x.Touches(r) <==> x.Touches(s[0].Hull(r)) {
      var i :| 0 <= i < |s[1..]| && s[1..][i] == x;
      assert s[i + 1] == x && s[0].end < x.start;
    }
  }
}
