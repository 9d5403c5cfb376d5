/** The code of quiche/src/ranges.rs: the insertion and removal loops over the vector and
    over the map, and the class that switches between the two forms. */
module RangeSets {
  import opened Basics
  import opened Ranges
  import R = Ranges

  const MAX_INLINE_CAPACITY := 4
  const MIN_TO_INLINE := 2
  const U64_MAX := 0xFFFF_FFFF_FFFF_FFFF

  // ---------- The vector ----------

  /** The only inputs on which the vector code panics: it evicts from an empty vector, or
      evicts while the new range belongs in front, so that its position underflows. */
  ghost predicate InlinePanics(s: seq<Range>, item: Range, capacity: nat) {
    |s| == capacity && (s == [] || item.end < s[0].start)
  }

  method InlineInsert(vec: seq<Range>, capacity: nat, item: Range) returns (inner: seq<Range>, ok: bool)
    requires Separated(vec) && item.start <= item.end && |vec| <= capacity
    ensures ok <==> !InlinePanics(vec, item, capacity)
    ensures ok ==> inner == InsertCapped(vec, item, capacity)
  {
    inner, ok := vec, true;
    var start, end, pos := item.start, item.end, 0;
    while pos < |inner| && start > inner[pos].end
      invariant 0 <= pos <= |inner| && inner == vec
      invariant forall i :: 0 <= i < pos ==> vec[i].end < start
    {
      pos := pos + 1;
    }
    if pos == |inner| || end < inner[pos].start {
      inner, ok := InlinePlace(vec, capacity, item, pos);
      return;
    }
    InsertJoins(vec, item, pos, capacity);
    inner := InlineJoin(vec, item, pos);
  }

  /** The new range joins the entry at `pos`: its bounds are moved outwards, and when the
      upper one moved, the following entries are looked at. */
  method InlineJoin(vec: seq<Range>, item: Range, pos: nat) returns (inner: seq<Range>)
    requires Separated(vec) && pos < |vec| && vec[pos].Touches(item)
    ensures inner == vec[..pos] + Insert(vec[pos + 1..], vec[pos].Hull(item))
  {
    inner := vec;
    if item.start < inner[pos].start {
      inner := inner[pos := Range(item.start, inner[pos].end)];
    }
    if item.end <= inner[pos].end {
      SeparateFromNext(vec, item, pos);
      assert inner == vec[..pos] + [vec[pos].Hull(item)] + vec[pos + 1..];
      return;
    }
    inner := inner[pos := Range(inner[pos].start, item.end)];
    assert inner[pos] == vec[pos].Hull(item);
    assert inner[..pos] == vec[..pos] && inner[pos + 1..] == vec[pos + 1..];
    SuffixSeparated(vec, pos + 1);
    inner := InlineMerge(inner, pos);
  }

  lemma SuffixSeparated(s: seq<Range>, n: nat)
    requires Separated(s) && n <= |s|
    ensures Separated(s[n..])
  {
  }

  lemma SeparateFromNext(vec: seq<Range>, item: Range, pos: nat)
    requires Separated(vec) && pos < |vec| && vec[pos].Touches(item) && item.end <= vec[pos].end
    ensures Insert(vec[pos + 1..], vec[pos].Hull(item)) == [vec[pos].Hull(item)] + vec[pos + 1..]
  {
  }

  /** The new range joins nothing and goes in at `pos`. */
  method InlinePlace(vec: seq<Range>, capacity: nat, item: Range, pos: nat) returns (inner: seq<Range>, ok: bool)
    requires Separated(vec) && item.start <= item.end && |vec| <= capacity && pos <= |vec|
    requires forall i :: 0 <= i < pos ==> vec[i].end < item.start
    requires pos < |vec| ==> item.end < vec[pos].start
    ensures ok <==> !InlinePanics(vec, item, capacity)
    ensures ok ==> inner == InsertCapped(vec, item, capacity)
  {
    NothingTouches(vec, item, pos);
    assert pos == 0 <==> vec == [] || item.end < vec[0].start;
    hide TouchesAny, Separated, Insert;
    inner, ok := vec, true;
    var at := pos;
    if |inner| == capacity {
      if at == 0 {
        return inner, false;
      }
      inner := inner[1..];
      at := at - 1;
    }
    PlacedAt(inner, item, at);
    inner := inner[..at] + [item] + inner[at..];
  }

  lemma PlacedAt(s: seq<Range>, item: Range, at: nat)
    requires at <= |s| && (forall i :: 0 <= i < at ==> s[i].end < item.start)
    requires at < |s| ==> item.end < s[at].start && s[at].start <= s[at].end && item.start <= item.end
    ensures Insert(s, item) == s[..at] + [item] + s[at..]
  {
    InsertSkips(s, item, at);
  }

  /** The new range joins the entry at `pos`, and perhaps later ones. */
  lemma InsertJoins(vec: seq<Range>, item: Range, pos: nat, capacity: nat)
    requires Separated(vec) && pos < |vec| && vec[pos].Touches(item)
    requires forall i :: 0 <= i < pos ==> vec[i].end < item.start
    ensures InsertCapped(vec, item, capacity) == vec[..pos] + Insert(vec[pos + 1..], vec[pos].Hull(item))
  {
    assert TouchesAny(vec, item);
    InsertSkips(vec, item, pos);
    assert vec[pos..][1..] == vec[pos + 1..];
  }

  /** The second loop of the insertion: joins the entry at `pos` with the entries after it. */
  method InlineMerge(vec: seq<Range>, pos: nat) returns (inner: seq<Range>)
    requires pos < |vec| && Separated(vec[pos + 1..])
    requires pos + 1 < |vec| ==> vec[pos].start <= vec[pos + 1].start
    ensures inner == vec[..pos] + Insert(vec[pos + 1..], vec[pos])
  {
    inner := vec;
    var end: nat := inner[pos].end;
    ghost var next := pos + 1;
    ghost var start := vec[pos].start;
    hide Insert, Separated;
    while pos + 1 < |inner| && end >= inner[pos + 1].start
      invariant pos < next <= |vec| && pos < |inner|
      invariant inner[..pos] == vec[..pos] && inner[pos + 1..] == vec[next..]
      invariant inner[pos] == Range(start, end)
      invariant Insert(vec[pos + 1..], vec[pos]) == Insert(vec[next..], Range(start, end))
      decreases |inner|
    {
      assert inner[pos + 1] == vec[next] == inner[pos + 1..][0];
      MergeStep(vec, pos, next, start, end);
      var merged := Max(inner[pos + 1].end, end);
      ghost var tail := inner[pos + 2..];
      assert tail == inner[pos + 1..][1..] == vec[next + 1..];
      inner := inner[pos := Range(inner[pos].start, merged)];
      end := merged;
      inner := inner[..pos + 1] + inner[pos + 2..];
      next := next + 1;
    }
    if next < |vec| {
      assert inner[pos + 1] == inner[pos + 1..][0] == vec[next..][0];
    }
    MergeEnd(vec, pos, next, start, end);
    Reassembled(inner, pos, vec[..pos], vec[next..]);
  }

  lemma Reassembled(s: seq<Range>, pos: nat, front: seq<Range>, back: seq<Range>)
    requires pos < |s| && s[..pos] == front && s[pos + 1..] == back
    ensures s == front + ([s[pos]] + back)
  {
  }

  /** The entry at `next` is joined. */
  lemma MergeStep(vec: seq<Range>, pos: nat, next: nat, start: nat, end: nat)
    requires pos < next < |vec| && Separated(vec[pos + 1..]) && start == vec[pos].start
    requires vec[pos].start <= vec[pos + 1].start && end >= vec[next].start
    ensures Insert(vec[next..], Range(start, end)) == Insert(vec[next + 1..], Range(start, Max(vec[next].end, end)))
  {
    var tail := vec[pos + 1..];
    assert tail[next - pos - 1] == vec[next] && tail[0] == vec[pos + 1];
    assert start <= vec[next].start <= vec[next].end;
    assert vec[next..][0] == vec[next] && vec[next..][1..] == vec[next + 1..];
  }

  lemma MergeEnd(vec: seq<Range>, pos: nat, next: nat, start: nat, end: nat)
    requires pos < next <= |vec| && Separated(vec[pos + 1..]) && start == vec[pos].start
    requires pos + 1 < |vec| ==> vec[pos].start <= vec[pos + 1].start
    requires next < |vec| ==> end < vec[next].start
    ensures Insert(vec[next..], Range(start, end)) == [Range(start, end)] + vec[next..]
  {
    if next < |vec| {
      var tail := vec[pos + 1..];
      assert tail[next - pos - 1] == vec[next] && tail[0] == vec[pos + 1];
      assert start <= vec[next].start <= vec[next].end;
    }
  }

  lemma NothingTouches(s: seq<Range>, item: Range, pos: nat)
    requires Separated(s) && pos <= |s|
    requires forall i :: 0 <= i < pos ==> s[i].end < item.start
    requires pos < |s| ==> item.end < s[pos].start
    ensures !TouchesAny(s, item)
  {
    forall i | 0 <= i < |s| ensures !s[i].Touches(item) {
      if i > pos {
        assert s[pos].end < s[i].start;
      }
    }
  }

  /** The addition in the loop cannot overflow: the entry ends above `largest`. */
  method InlineRemoveUntil(vec: seq<Range>, largest: nat) returns (inner: seq<Range>)
    ensures inner == VectorRemoved(vec, largest)
  {
    inner := vec;
    while inner != []
      invariant inner == [] ==> VectorRemoved(vec, largest) == []
      invariant VectorRemoved(inner, largest) == VectorRemoved(vec, largest)
      decreases |inner|
    {
      if largest >= inner[0].end {
        inner := inner[1..];
        continue;
      }
      var start := Max(largest + 1, inner[0].start);
      if start == inner[0].end {
        inner := inner[1..];
      } else {
        inner := inner[0 := Range(start, inner[0].end)];
      }
      break;
    }
  }

  // ---------- The map ----------

  ghost predicate IsPrevTo(tree: map<nat, nat>, item: nat, r: Option<Range>) {
    match r
    case None => forall k :: k in tree ==> item < k
    case Some(e) =>
      && e.start in tree && e.end == tree[e.start] && e.start <= item
      && forall k :: k in tree && k <= item ==> k <= e.start
  }

  ghost predicate IsNextTo(tree: map<nat, nat>, item: nat, r: Option<Range>) {
    match r
    case None => forall k :: k in tree ==> k < item
    case Some(e) =>
      && e.start in tree && e.end == tree[e.start] && item <= e.start
      && forall k :: k in tree && item <= k ==> e.start <= k
  }

  /** The entry with the greatest key that is at most `item`. */
  method PrevTo(tree: map<nat, nat>, item: nat) returns (r: Option<Range>)
    ensures IsPrevTo(tree, item, r)
  {
    var below := set k | k in tree.Keys && k <= item;
    assert forall k :: k in tree && k <= item ==> k in below;
    if below == {} {
      return None;
    }
    GreatestExists(below);
    var k: nat :| k in below && forall j :: j in below ==> j <= k;
    r := Some(Range(k, tree[k]));
  }

  /** The entry with the least key that is at least `item`. */
  method NextTo(tree: map<nat, nat>, item: nat) returns (r: Option<Range>)
    ensures IsNextTo(tree, item, r)
  {
    var above := map k | k in tree.Keys && item <= k :: tree[k];
    assert forall k :: k in tree && item <= k ==> k in above;
    if above == map[] {
      return None;
    }
    FirstKeyExists(above);
    var k: nat :| k in above && forall j :: j in above ==> k <= j;
    r := Some(Range(k, tree[k]));
  }

  lemma GreatestExists(s: set<nat>)
    requires s != {}
    ensures exists k :: k in s && forall j :: j in s ==> j <= k
    decreases |s|
  {
    var k :| k in s;
    var rest := s - {k};
    if rest == {} {
      assert forall j :: j in s ==> j == k || j in rest;
    } else {
      GreatestExists(rest);
      var g :| g in rest && forall j :: j in rest ==> j <= g;
      var top := Max(g, k);
      assert forall j :: j in s ==> j == k || j in rest;
      assert top in s && forall j :: j in s ==> j <= top;
    }
  }

  /** One end point of `other` lies in the closed range from r.start to r.end. */
  predicate RangeOverlaps(r: Range, other: Range) {
    || r.start <= other.start <= r.end
    || r.start <= other.end <= r.end
  }

  /** The state of the map insertion loop: the entries of `m0` with a key in start..bound
      have been taken out, leaving `m`, and start..end is the new range grown by them.
      When the end has grown, it is the end of the entry at `last`. */
  ghost predicate Absorbing(m0: map<nat, nat>, m: map<nat, nat>, item: Range,
                            start: nat, end: nat, bound: nat, last: nat)
  {
    && start <= item.start && item.end <= end && start <= bound
    && (forall k :: k in m <==> k in m0 && !(start <= k < bound))
    && (forall k :: k in m ==> m[k] == m0[k])
    && (forall k :: k in m0 && k < start ==> m0[k] < start)
    && (forall k :: k in m0 && start <= k < bound ==> m0[k] <= end && k <= item.end && item.start <= m0[k])
    && (start == item.start || (start in m0 && start < bound))
    && (end == item.end || (last in m0 && start <= last < bound && m0[last] == end))
  }

  method TreeInsert(tree: map<nat, nat>, capacity: nat, item: Range) returns (inner: map<nat, nat>)
    requires TreeSeparated(tree) && item.start <= item.end && |tree| <= capacity && 1 <= capacity
    ensures TreeSeparated(inner)
    ensures Entries(inner) == InsertCapped(Entries(tree), item, capacity)
  {
    var start, end;
    ghost var bound, last;
    inner, start, end, bound, last := TreeAbsorb(tree, item);
    ghost var rest := inner;
    if |inner| >= capacity {
      inner := PopFirst(inner);
    }
    inner := inner[start := end];
    InsertedTree(tree, rest, item, start, end, bound, last, capacity, inner);
  }

  /** The preceding entry is taken out if the new range joins it. */
  method TreeAbsorbPrev(tree: map<nat, nat>, item: Range)
    returns (inner: map<nat, nat>, start: nat, end: nat, ghost bound: nat, ghost last: nat)
    requires TreeSeparated(tree) && item.start <= item.end
    ensures Absorbing(tree, inner, item, start, end, bound, last)
  {
    inner, start, end := tree, item.start, item.end;
    bound, last := start, start;
    var prev := PrevTo(inner, start);
    if prev.Some? && RangeOverlaps(prev.value, item) {
      inner := inner - {prev.value.start};
      start := Min(start, prev.value.start);
      end := Max(end, prev.value.end);
      bound, last := start + 1, start;
    }
    AbsorbPrev(tree, item, prev, inner, start, end, bound, last);
  }

  /** The loop over the following entries: takes out every entry that the new range joins. */
  method TreeAbsorb(tree: map<nat, nat>, item: Range)
    returns (inner: map<nat, nat>, start: nat, end: nat, ghost bound: nat, ghost last: nat)
    requires TreeSeparated(tree) && item.start <= item.end
    ensures Absorbing(tree, inner, item, start, end, bound, last)
    ensures forall k :: k in inner && start <= k ==> end < k
  {
    hide Absorbing, TreeSeparated;
    inner, start, end, bound, last := TreeAbsorbPrev(tree, item);
    var next := NextTo(inner, start);
    while next.Some?
      invariant Absorbing(tree, inner, item, start, end, bound, last) && IsNextTo(inner, start, next)
      decreases |inner|
    {
      var r := next.value;
      var contained := item.Contains(r.start) && item.Contains(r.end);
      if !contained && !RangeOverlaps(r, item) {
        break;
      }
      last := AbsorbNext(tree, inner, item, start, end, bound, last, r);
      inner, bound := inner - {r.start}, r.start + 1;
      if !contained {
        start, end := Min(start, r.start), Max(end, r.end);
      }
      next := NextTo(inner, start);
    }
    LoopExit(tree, inner, item, start, end, bound, last, next);
  }

  method PopFirst(tree: map<nat, nat>) returns (inner: map<nat, nat>)
    requires tree != map[]
    ensures exists first: nat :: IsFirstKey(tree, first) && inner == tree - {first}
  {
    FirstKeyExists(tree);
    var first: nat :| first in tree && forall j :: j in tree ==> first <= j;
    assert IsFirstKey(tree, first);
    inner := tree - {first};
  }

  lemma AbsorbPrev(m0: map<nat, nat>, item: Range, prev: Option<Range>,
                   m: map<nat, nat>, start: nat, end: nat, bound: nat, last: nat)
    requires TreeSeparated(m0) && item.start <= item.end && IsPrevTo(m0, item.start, prev)
    requires if prev.Some? && RangeOverlaps(prev.value, item)
             then m == m0 - {prev.value.start} && start == last == prev.value.start
                  && end == Max(item.end, prev.value.end) && bound == start + 1
             else m == m0 && start == bound == item.start && end == item.end
    ensures Absorbing(m0, m, item, start, end, bound, last)
  {
  }

  /** The next entry is taken out, and the range grows by it. */
  lemma AbsorbNext(m0: map<nat, nat>, m: map<nat, nat>, item: Range,
                   start: nat, end: nat, bound: nat, last: nat, r: Range) returns (last': nat)
    requires TreeSeparated(m0) && item.start <= item.end && Absorbing(m0, m, item, start, end, bound, last)
    requires IsNextTo(m, start, Some(r))
    requires (item.Contains(r.start) && item.Contains(r.end)) || RangeOverlaps(r, item)
    ensures Absorbing(m0, m - {r.start}, item, start, Max(end, r.end), r.start + 1, last')
    ensures item.Contains(r.end) ==> Max(end, r.end) == end
    ensures |m - {r.start}| < |m|
  {
    NextTouches(m0, m, item, start, end, bound, last, r);
    NextKeys(m0, m, start, bound, r);
    SmallerBy(m, r.start);
    last' := if end < r.end then r.start else last;
    hide TreeSeparated, IsNextTo, RangeOverlaps;
    Absorbed(m0, m, m - {r.start}, item, start, end, bound, last, r, last');
    hide Absorbing;
  }

  lemma Absorbed(m0: map<nat, nat>, m: map<nat, nat>, less: map<nat, nat>, item: Range, start: nat, end: nat,
                 bound: nat, last: nat, r: Range, last': nat)
    requires Absorbing(m0, m, item, start, end, bound, last)
    requires r.start <= item.end && item.start <= r.end && r.start in m0 && r.end == m0[r.start] && bound <= r.start
    requires forall k :: k in less <==> k in m0 && !(start <= k < r.start + 1)
    requires forall k :: k in less ==> less[k] == m0[k]
    requires forall k :: k in m0 && start <= k < r.start + 1 ==> k < bound || k == r.start
    requires last' == if end < r.end then r.start else last
    ensures Absorbing(m0, less, item, start, Max(end, r.end), r.start + 1, last')
  {
  }

  lemma SmallerBy(m: map<nat, nat>, k: nat)
    requires k in m
    ensures |m - {k}| < |m|
  {
    assert (m - {k}).Keys == m.Keys - {k};
  }

  lemma NextKeys(m0: map<nat, nat>, m: map<nat, nat>, start: nat, bound: nat, r: Range)
    requires (forall k :: k in m <==> k in m0 && !(start <= k < bound)) && start <= bound
    requires IsNextTo(m, start, Some(r))
    ensures forall k :: k in m - {r.start} <==> k in m0 && !(start <= k < r.start + 1)
    ensures forall k :: k in m0 && start <= k < r.start + 1 ==> k < bound || k == r.start
  {
  }

  lemma NextTouches(m0: map<nat, nat>, m: map<nat, nat>, item: Range,
                    start: nat, end: nat, bound: nat, last: nat, r: Range)
    requires TreeSeparated(m0) && item.start <= item.end && Absorbing(m0, m, item, start, end, bound, last)
    requires IsNextTo(m, start, Some(r))
    requires (item.Contains(r.start) && item.Contains(r.end)) || RangeOverlaps(r, item)
    ensures r.start <= item.end && item.start <= r.end && r.start in m0 && r.end == m0[r.start] && bound <= r.start
  {
  }

  lemma LoopExit(m0: map<nat, nat>, m: map<nat, nat>, item: Range,
                 start: nat, end: nat, bound: nat, last: nat, next: Option<Range>)
    requires TreeSeparated(m0) && item.start <= item.end && Absorbing(m0, m, item, start, end, bound, last)
    requires IsNextTo(m, start, next)
    requires next.Some? ==>
               !RangeOverlaps(next.value, item) && !(item.Contains(next.value.start) && item.Contains(next.value.end))
    ensures forall k :: k in m && start <= k ==> end < k
  {
    forall k | k in m && start <= k ensures end < k {
      assert next.value.start <= k;
    }
  }

  lemma InsertedTree(m0: map<nat, nat>, m: map<nat, nat>, item: Range, start: nat, end: nat,
                     bound: nat, last: nat, capacity: nat, result: map<nat, nat>)
    requires TreeSeparated(m0) && item.start <= item.end && |m0| <= capacity && 1 <= capacity
    requires Absorbing(m0, m, item, start, end, bound, last)
    requires forall k :: k in m && start <= k ==> end < k
    requires if |m| >= capacity
             then exists first: nat :: IsFirstKey(m, first) && result == (m - {first})[start := end]
             else result == m[start := end]
    ensures TreeSeparated(result)
    ensures Entries(result) == InsertCapped(Entries(m0), item, capacity)
  {
    if |m| >= capacity {
      var first: nat :| IsFirstKey(m, first) && result == (m - {first})[start := end];
      NothingAbsorbed(m0, m, item, start, end, bound, last, capacity);
      EvictedTree(m0, item, first, result);
    } else {
      InsertedBase(m0, m, item, start, end, bound, last, result);
      FullMeansJoined(m0, m, item, start, end, bound, last, capacity);
    }
  }

  lemma FullMeansJoined(m0: map<nat, nat>, m: map<nat, nat>, item: Range, start: nat, end: nat,
                        bound: nat, last: nat, capacity: nat)
    requires TreeSeparated(m0) && |m| < capacity
    requires Absorbing(m0, m, item, start, end, bound, last)
    ensures |Entries(m0)| >= capacity ==> TouchesAny(Entries(m0), item)
  {
    EntriesMeaning(m0, 0);
    if |m0| >= capacity {
      TouchesEntries(m0, item);
      assert m0.Keys != m.Keys && m.Keys <= m0.Keys;
      var k :| k in m0.Keys && k !in m.Keys;
      assert Range(k, m0[k]).Touches(item);
    }
  }

  lemma EvictedTree(m0: map<nat, nat>, item: Range, first: nat, result: map<nat, nat>)
    requires TreeSeparated(m0) && item.start <= item.end && IsFirstKey(m0, first)
    requires !TouchesAny(Entries(m0), item)
    requires result == (m0 - {first})[item.start := item.end]
    ensures TreeSeparated(result)
    ensures Entries(m0) != [] && Entries(result) == Insert(Entries(m0)[1..], item)
  {
    var m := m0 - {first};
    EntriesFirst(m0, first);
    TouchesEntries(m0, item);
    assert forall k :: k in m ==> !Range(k, m[k]).Touches(item);
    assert Absorbing(m, m, item, item.start, item.end, item.start, item.start);
    InsertedBase(m, m, item, item.start, item.end, item.start, item.start, result);
  }

  lemma EntriesFirst(m: map<nat, nat>, first: nat)
    requires IsFirstKey(m, first)
    ensures Entries(m) == [Range(first, m[first])] + Entries(m - {first})
  {
  }

  lemma NothingAbsorbed(m0: map<nat, nat>, m: map<nat, nat>, item: Range, start: nat, end: nat,
                        bound: nat, last: nat, capacity: nat)
    requires TreeSeparated(m0) && item.start <= item.end && |m0| <= capacity <= |m|
    requires Absorbing(m0, m, item, start, end, bound, last)
    requires forall k :: k in m && start <= k ==> end < k
    ensures m == m0 && start == item.start && end == item.end
    ensures |Entries(m0)| >= capacity && !TouchesAny(Entries(m0), item)
  {
    assert m.Keys <= m0.Keys;
    SubsetOfSameSize(m.Keys, m0.Keys);
    EntriesMeaning(m0, 0);
    TouchesEntries(m0, item);
  }

  lemma SubsetOfSameSize(a: set<nat>, b: set<nat>)
    requires a <= b && |b| <= |a|
    ensures a == b
  {
    assert |b - a| == |b| - |a|;
    assert b == a + (b - a);
  }

  lemma InsertedBase(m0: map<nat, nat>, m: map<nat, nat>, item: Range, start: nat, end: nat,
                     bound: nat, last: nat, result: map<nat, nat>)
    requires TreeSeparated(m0) && item.start <= item.end
    requires Absorbing(m0, m, item, start, end, bound, last)
    requires forall k :: k in m && start <= k ==> end < k
    requires result == m[start := end]
    ensures TreeSeparated(result)
    ensures Entries(result) == Insert(Entries(m0), item)
  {
    var s, q := Entries(m0), Range(start, end);
    EntriesMeaning(m0, 0);
    EntriesElements(m0);
    TouchedAreOut(m0, m, item, start, end, bound, last);
    hide Entries;
    AbsorbedHull(m0, m, item, start, end, bound, last, s);
    hide Absorbing, TreeSeparated, IsHull;
    InsertSeparated(s, item);
    InsertElements(s, item, q);
    hide Insert, Separated;
    ReplacedLists(m0, m, item, q, s, Insert(s, item));
    ListedIsSeparated(Insert(s, item), result);
    EntriesUnique(result, Insert(s, item));
  }

  /** Exactly the entries that touch the new range have been taken out. */
  lemma TouchedAreOut(m0: map<nat, nat>, m: map<nat, nat>, item: Range, start: nat, end: nat,
                      bound: nat, last: nat)
    requires TreeSeparated(m0) && item.start <= item.end
    requires Absorbing(m0, m, item, start, end, bound, last)
    requires forall k :: k in m && start <= k ==> end < k
    ensures forall k :: k in m <==> k in m0 && !Range(k, m0[k]).Touches(item)
    ensures forall k :: k in m ==> m[k] == m0[k]
    ensures start !in m && start <= end
  {
    forall k | k in m0 ensures k in m <==> !Range(k, m0[k]).Touches(item) {
    }
  }

  /** The list has the entries of the map. */
  ghost predicate HasEntries(s: seq<Range>, m: map<nat, nat>) {
    && (forall i :: 0 <= i < |s| ==> s[i].start in m && m[s[i].start] == s[i].end)
    && (forall k :: k in m ==> Range(k, m[k]) in s)
  }

  lemma AbsorbedHull(m0: map<nat, nat>, m: map<nat, nat>, item: Range, start: nat, end: nat,
                     bound: nat, last: nat, s: seq<Range>)
    requires Absorbing(m0, m, item, start, end, bound, last) && HasEntries(s, m0)
    requires forall k :: k in m <==> k in m0 && !Range(k, m0[k]).Touches(item)
    ensures IsHull(s, item, Range(start, end))
  {
    if start != item.start {
      var x := Range(start, m0[start]);
      assert x in s && x.Touches(item) && x.start == start;
    }
    if end != item.end {
      var x := Range(last, m0[last]);
      assert x in s && x.Touches(item) && x.end == end;
    }
    forall x | x in s && x.Touches(item) ensures start <= x.start && x.end <= end {
      assert x.start in m0 && m0[x.start] == x.end && x == Range(x.start, m0[x.start]);
      assert x.start !in m;
    }
  }

  lemma ReplacedLists(m0: map<nat, nat>, m: map<nat, nat>, item: Range, q: Range, s: seq<Range>, t: seq<Range>)
    requires HasEntries(s, m0) && Replaces(s, item, q, t) && q.start !in m
    requires forall k :: k in m <==> k in m0 && !Range(k, m0[k]).Touches(item)
    requires forall k :: k in m ==> m[k] == m0[k]
    ensures Lists(t, m[q.start := q.end])
  {
    var result := m[q.start := q.end];
    forall i | 0 <= i < |t| ensures t[i].start in result && result[t[i].start] == t[i].end {
      assert t[i] in t;
      if t[i] != q {
        assert t[i] in s && t[i] == Range(t[i].start, m0[t[i].start]);
      }
    }
    forall k | k in result ensures exists i :: 0 <= i < |t| && t[i].start == k {
      var x := if k == q.start then q else Range(k, m0[k]);
      assert x in t;
      var i :| 0 <= i < |t| && t[i] == x;
    }
  }

  /** The entries of the map in iteration order. */
  method TreeIter(tree: map<nat, nat>) returns (s: seq<Range>)
    ensures s == Entries(tree)
  {
    s := [];
    var rest: map<nat, nat> := tree;
    while rest != map[]
      invariant s + Entries(rest) == Entries(tree)
      decreases |rest|
    {
      FirstKeyExists(rest);
      var first: nat :| first in rest && forall j :: j in rest ==> first <= j;
      EntriesFirst(rest, first);
      SmallerBy(rest, first);
      hide Entries;
      s := s + [Range(first, rest[first])];
      rest := rest - {first};
    }
  }

  /** The loop over the entries that start at or below `largest`.  `ok` is false exactly where the
      addition in it overflows. */
  method TreeRemoveUntil(tree: map<nat, nat>, capacity: nat, largest: nat) returns (inner: map<nat, nat>, ok: bool)
    requires TreeSeparated(tree) && |tree| <= capacity && 1 <= capacity
    ensures ok <==> largest < U64_MAX || Entries(tree) == [] || largest < Entries(tree)[0].start
    ensures ok ==> TreeSeparated(inner) && Entries(inner) == TreeRemoved(Entries(tree), largest)
  {
    EntriesMeaning(tree, 0);
    var s := TreeIter(tree);
    var n := 0;
    while n < |s| && s[n].start <= largest
      invariant 0 <= n <= |s|
      invariant forall i :: 0 <= i < n ==> s[i].start <= largest
    {
      n := n + 1;
    }
    // The entries that start at or below `largest` are s[..n].
    if n > 0 && largest >= U64_MAX {
      return tree, false;
    }
    inner, ok := tree, true;
    hide TreeRemoved, Entries, Separated;
    if n == 0 {
      NoLowEntries(s, largest);
    }
    for i := 0 to n
      invariant TreeSeparated(inner)
      invariant i < n ==> Entries(inner) == s[i..]
      invariant i == n ==> Entries(inner) == TreeRemoved(s, largest)
    {
      assert s[i..] == [s[i]] + s[i + 1..];
      inner := TreeRemoveEntry(inner, capacity, largest, s[i], s[i + 1..]);
      LastLowEntry(s, largest, i, n);
    }
  }

  lemma NoLowEntries(s: seq<Range>, largest: nat)
    requires s != [] ==> largest < s[0].start
    ensures TreeRemoved(s, largest) == s
  {
  }

  /** One step of the removal loop: takes out the first entry and puts back the part of it
      that lies above `largest`, if there is one.  Nothing is evicted. */
  method TreeRemoveEntry(tree: map<nat, nat>, capacity: nat, largest: nat, r: Range, ghost tail: seq<Range>)
    returns (inner: map<nat, nat>)
    requires TreeSeparated(tree) && Entries(tree) == [r] + tail && |tail| < capacity && r.start <= largest
    ensures TreeSeparated(inner)
    ensures Entries(inner) == Overhang(r, largest) + tail
  {
    TakeFirst(tree, r, tail);
    inner := tree - {r.start};
    if r.end > largest + 1 {
      var above := Range(largest + 1, r.end);
      InsertBelow(tail, above, capacity);
      inner := TreeInsert(inner, capacity, above);
    }
  }

  lemma TakeFirst(tree: map<nat, nat>, r: Range, tail: seq<Range>)
    requires TreeSeparated(tree) && Entries(tree) == [r] + tail
    ensures var rest := tree - {r.start};
            TreeSeparated(rest) && Entries(rest) == tail && |rest| == |tail|
    ensures Separated([r] + tail) && Separated(tail) && (tail != [] ==> r.end < tail[0].start)
  {
    EntriesMeaning(tree, 0);
    EntriesFirst(tree, Entries(tree)[0].start);
    EntriesMeaning(tree - {r.start}, 0);
    var s := Entries(tree);
    assert s[0] == r && s[1..] == tail;
    if tail != [] {
      assert s[1] == tail[0];
    }
  }

  /** Only the last of the low entries can reach above `largest`. */
  lemma LastLowEntry(s: seq<Range>, largest: nat, i: nat, n: nat)
    requires Separated(s) && i < n <= |s|
    requires forall j :: 0 <= j < n ==> s[j].start <= largest
    requires n < |s| ==> s[n].start > largest
    ensures i + 1 < n ==> Overhang(s[i], largest) == []
    ensures i + 1 == n ==> Overhang(s[i], largest) + s[n..] == TreeRemoved(s, largest)
  {
    if i + 1 == n {
      forall j | 0 <= j < i ensures s[j].end <= largest {
        assert s[j].end < s[i].start;
      }
      TreeRemovedSkips(s, i, largest);
      assert s[i..][0] == s[i] && s[i..][1..] == s[n..];
      NoLowEntries(s[n..], largest);
    } else {
      assert s[i].end < s[i + 1].start;
    }
  }

  lemma {:induction false} TreeRemovedSkips(s: seq<Range>, n: nat, largest: nat)
    requires n <= |s| && forall j :: 0 <= j < n ==> s[j].start <= largest && s[j].end <= largest
    ensures TreeRemoved(s, largest) == TreeRemoved(s[n..], largest)
    decreases n
  {
    if n > 0 {
      TreeRemovedSkips(s[1..], n - 1, largest);
      assert s[1..][n - 1..] == s[n..];
      assert [] + TreeRemoved(s[1..], largest) == TreeRemoved(s[1..], largest);
    } else {
      assert s[0..] == s;
    }
  }

  // ---------- The set ----------

  datatype Repr = Inline(vec: seq<Range>) | BTree(tree: map<nat, nat>)

  /** What the two conversions can rely on: the vector has room for one more range and
      the map is large enough not to be worth a vector. */
  ghost predicate ReprValid(repr: Repr, capacity: nat) {
    match repr
    case Inline(vec) => Separated(vec) && |vec| <= capacity && |vec| < MAX_INLINE_CAPACITY
    case BTree(tree) => TreeSeparated(tree) && |tree| <= capacity && |tree| > MIN_TO_INLINE
  }

  /** Wherever the source would panic, `ok` is false and nothing changes. */
  class RangeSet {
    var repr: Repr
    const capacity: nat

    ghost predicate Valid()
      reads this
    {
      ReprValid(repr, capacity)
    }

    /** The stored ranges in increasing order, whatever the form. */
    ghost function Contents(): seq<Range>
      reads this
    {
      match repr
      case Inline(vec) => vec
      case BTree(tree) => Entries(tree)
    }

    constructor (capacity: nat)
      ensures Valid() && Contents() == [] && this.capacity == capacity
    {
      repr := Inline([]);
      this.capacity := capacity;
    }

    /** A full vector becomes a map, and a nearly empty map a vector.  The ranges stay. */
    method Fixup()
      requires match repr
               case Inline(vec) => Separated(vec) && |vec| <= capacity && |vec| <= MAX_INLINE_CAPACITY
               case BTree(tree) => TreeSeparated(tree) && |tree| <= capacity
      modifies this
      ensures Valid() && Contents() == old(Contents())
      ensures match repr case Inline(vec) => |vec| <= 3 case BTree(tree) => |tree| >= 3
    {
      match repr
      case Inline(vec) =>
        if |vec| == MAX_INLINE_CAPACITY {
          ToTreeRoundTrip(vec);
          repr := BTree(ToTree(vec));
        }
      case BTree(tree) =>
        if |tree| <= MIN_TO_INLINE {
          EntriesMeaning(tree, 0);
          var vec := TreeIter(tree);
          repr := Inline(vec);
        }
    }

    /** Inserts a range, which may be empty.  A panic takes a capacity below the size at which the
        vector is given up. */
    method Insert(item: Range) returns (ok: bool)
      requires Valid() && item.start <= item.end
      modifies this
      ensures Valid()
      ensures ok <==> !(old(repr).Inline? && InlinePanics(old(Contents()), item, capacity))
      ensures 4 <= capacity ==> ok
      ensures Contents() == if ok then InsertCapped(old(Contents()), item, capacity) else old(Contents())
    {
      ok := true;
      match repr {
        case Inline(vec) =>
          CappedSize(vec, item, capacity);
          var vec', fine := InlineInsert(vec, capacity, item);
          if !fine {
            return false;
          }
          repr := Inline(vec');
        case BTree(tree) =>
          EntriesMeaning(tree, 0);
          InsertCappedMeaning(Entries(tree), item, capacity);
          var tree' := TreeInsert(tree, capacity, item);
          EntriesMeaning(tree', 0);
          repr := BTree(tree');
      }
      Fixup();
    }

    /** The addition overflows at the largest number. */
    method PushItem(item: nat) returns (ok: bool)
      requires Valid()
      modifies this
      ensures Valid()
      ensures ok <==> item < U64_MAX
                      && !(old(repr).Inline? && InlinePanics(old(Contents()), Range(item, item + 1), capacity))
      ensures 4 <= capacity ==> (ok <==> item < U64_MAX)
      ensures Contents() == if ok then InsertCapped(old(Contents()), Range(item, item + 1), capacity)
                            else old(Contents())
    {
      if item >= U64_MAX {
        return false;
      }
      ok := Insert(Range(item, item + 1));
    }

    /** Removes the values up to `largest`, in the way of the current form. */
    method RemoveUntil(largest: nat) returns (ok: bool)
      requires Valid()
      modifies this
      ensures Valid()
      ensures !ok <==> old(repr).BTree? && U64_MAX <= largest && old(Contents())[0].start <= largest
      ensures Contents() == if !ok then old(Contents())
                            else if old(repr).Inline? then VectorRemoved(old(Contents()), largest)
                            else TreeRemoved(old(Contents()), largest)
      ensures ok && WellFormed(old(Contents())) ==> Contents() == R.RemoveUntil(old(Contents()), largest)
    {
      ok := true;
      match repr {
        case Inline(vec) =>
          RemovedSeparated(vec, largest);
          var vec' := InlineRemoveUntil(vec, largest);
          repr := Inline(vec');
        case BTree(tree) =>
          EntriesMeaning(tree, 0);
          RemovedSeparated(Entries(tree), largest);
          var tree', fine := TreeRemoveUntil(tree, capacity, largest);
          if !fine {
            return false;
          }
          EntriesMeaning(tree', 0);
          repr := BTree(tree');
      }
      Fixup();
      if WellFormed(old(Contents())) {
        RemovalsOfWellFormed(old(Contents()), largest);
      }
    }

    method Iter() returns (s: seq<Range>)
      requires Valid()
      ensures s == Contents()
    {
      match repr
      case Inline(vec) => s := vec;
      case BTree(tree) => s := TreeIter(tree);
    }

    /** The lowest bound, which is the smallest stored value unless the first range is empty. */
    method First() returns (r: Option<nat>)
      requires Valid()
      ensures r.None? <==> Contents() == []
      ensures r.Some? ==> forall x: nat :: Covers(Contents(), x) ==> r.value <= x
      ensures r.Some? ==> (Covers(Contents(), r.value) <==> Contents()[0].NonEmpty())
    {
      var s := Iter();
      ContentsSeparated(repr, capacity);
      if s == [] {
        return None;
      }
      r := Some(s[0].start);
      FirstBounds(s);
    }

    /** The highest bound less one, which is the largest stored value unless the last range is
        empty.  The subtraction underflows if the set is the empty range at zero. */
    method Last() returns (r: Option<nat>, ok: bool)
      requires Valid()
      ensures ok <==> Contents() != [Range(0, 0)]
      ensures ok ==> (r.None? <==> Contents() == [])
      ensures ok && r.Some? ==> forall x: nat :: Covers(Contents(), x) ==> x <= r.value
      ensures ok && r.Some? ==> (Covers(Contents(), r.value) <==> Contents()[|Contents()| - 1].NonEmpty())
    {
      var s := Iter();
      ContentsSeparated(repr, capacity);
      if s == [] {
        return None, true;
      }
      LastBounds(s);
      if s[|s| - 1].end == 0 {
        return None, false;
      }
      r, ok := Some(s[|s| - 1].end - 1), true;
    }
  }

  lemma ContentsSeparated(repr: Repr, capacity: nat)
    requires ReprValid(repr, capacity)
    ensures Separated(match repr case Inline(vec) => vec case BTree(tree) => Entries(tree))
  {
    match repr
    case Inline(_) =>
    case BTree(tree) => EntriesMeaning(tree, 0);
  }

  lemma FirstBounds(s: seq<Range>)
    requires Separated(s) && s != []
    ensures forall x: nat :: Covers(s, x) ==> s[0].start <= x
    ensures Covers(s, s[0].start) <==> s[0].NonEmpty()
  {
    forall i | 0 <= i < |s| ensures s[0].start <= s[i].start && (i > 0 ==> s[0].start < s[i].start) {
    }
    if s[0].NonEmpty() {
      assert s[0].Contains(s[0].start);
    }
  }

  lemma LastBounds(s: seq<Range>)
    requires Separated(s) && s != []
    ensures s[|s| - 1].end == 0 <==> s == [Range(0, 0)]
    ensures s[|s| - 1].end > 0 ==>
              var top := s[|s| - 1].end - 1;
              && (forall x: nat :: Covers(s, x) ==> x <= top)
              && (Covers(s, top) <==> s[|s| - 1].NonEmpty())
  {
    var last := s[|s| - 1];
    forall i | 0 <= i < |s| - 1 ensures s[i].end < last.start {
    }
    assert |s| > 1 ==> s[0].end < last.start;
    if last.end > 0 && last.NonEmpty() {
      assert last.Contains(last.end - 1);
    }
  }

  lemma CappedSize(s: seq<Range>, r: Range, capacity: nat)
    requires Separated(s) && r.start <= r.end && |s| <= capacity
    ensures !InlinePanics(s, r, capacity) ==>
              Separated(InsertCapped(s, r, capacity)) && |InsertCapped(s, r, capacity)| <= Min(capacity, |s| + 1)
  {
    if !InlinePanics(s, r, capacity) {
      InsertCappedMeaning(s, r, capacity);
      InsertLength(s, r);
      if s != [] {
        InsertLength(s[1..], r);
      }
    }
  }
}
