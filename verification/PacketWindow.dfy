/** The 128-packet window that detects duplicates: `PktNumWindow` of quiche/src/packet.rs.
    The 128-bit word is modelled as its bits, least significant first. */
module PacketWindow {
  import opened Octets

  const BITS := 128
  const TWO_32: nat := 0x1_0000_0000

  /** Bit `i` stands for the number `upper - i`. */
  datatype Window = Window(lower: nat, bits: seq<bool>) {
    ghost predicate Valid() { |bits| == BITS }

    function Upper(): nat { lower + BITS - 1 }

    predicate Contains(n: nat)
      requires Valid()
    {
      if n > Upper() then false
      else if n < lower then true
      else bits[Upper() - n]
    }

    /** `checked_shl`: a shift by 128 or more leaves nothing. */
    function Shifted(shift: nat): seq<bool>
      requires Valid()
    {
      seq(BITS, i requires 0 <= i < BITS => shift < BITS && shift <= i && bits[i - shift])
    }

    /** The shift amount is the distance cut down to 32 bits. */
    function Insert(n: nat): (w: Window)
      requires Valid()
      ensures w.Valid()
    {
      if n < lower then this
      else
        var w := if n > Upper()
                 then Window(lower + (n - Upper()), Shifted((n - Upper()) % TWO_32))
                 else this;
        w.(bits := w.bits[w.Upper() - n := true])
    }
  }

  function Empty(): (w: Window)
    ensures w.Valid()
  {
    Window(0, seq(BITS, i => false))
  }

  /** Inserting keeps everything contained that was, and contains the new number. */
  lemma InsertKeeps(w: Window, n: nat, m: nat)
    requires w.Valid()
    ensures w.Insert(n).Contains(n)
    ensures w.Contains(m) ==> w.Insert(n).Contains(m)
  {
    var t := w.Insert(n);
    if n > w.Upper() && w.lower <= m <= w.Upper() && m >= t.lower {
      var shift := n - w.Upper();
      assert shift < BITS && shift % TWO_32 == shift;
      assert t.Upper() - m == w.Upper() - m + shift;
    }
  }

  // ---------- Runs ----------

  function InsertAll(w: Window, ns: seq<nat>): (t: Window)
    requires w.Valid()
    ensures t.Valid()
    decreases |ns|
  {
    if ns == [] then w else InsertAll(w.Insert(ns[0]), ns[1..])
  }

  lemma {:induction false} KeptForever(w: Window, ns: seq<nat>, m: nat)
    requires w.Valid() && (w.Contains(m) || m in ns)
    ensures InsertAll(w, ns).Contains(m)
    decreases |ns|
  {
    if ns != [] {
      InsertKeeps(w, ns[0], m);
      KeptForever(w.Insert(ns[0]), ns[1..], m);
    }
  }

  /** A receiver that checks before it inserts: the numbers it accepts, in order. */
  function Accepted(w: Window, arrivals: seq<nat>): seq<nat>
    requires w.Valid()
    decreases |arrivals|
  {
    if arrivals == [] then []
    else if w.Contains(arrivals[0]) then Accepted(w, arrivals[1..])
    else [arrivals[0]] + Accepted(w.Insert(arrivals[0]), arrivals[1..])
  }

  lemma {:induction false} NeverAcceptsContained(w: Window, arrivals: seq<nat>, m: nat)
    requires w.Valid() && w.Contains(m)
    ensures m !in Accepted(w, arrivals)
    decreases |arrivals|
  {
    if arrivals != [] {
      if w.Contains(arrivals[0]) {
        NeverAcceptsContained(w, arrivals[1..], m);
      } else {
        InsertKeeps(w, arrivals[0], m);
        NeverAcceptsContained(w.Insert(arrivals[0]), arrivals[1..], m);
      }
    }
  }

  /** No number is ever accepted twice, whatever arrives. */
  lemma {:induction false} AcceptedOnce(w: Window, arrivals: seq<nat>)
    requires w.Valid()
    ensures forall i, j :: 0 <= i < j < |Accepted(w, arrivals)| ==> Accepted(w, arrivals)[i] != Accepted(w, arrivals)[j]
    decreases |arrivals|
  {
    if arrivals != [] {
      var n := arrivals[0];
      if w.Contains(n) {
        AcceptedOnce(w, arrivals[1..]);
      } else {
        var rest := Accepted(w.Insert(n), arrivals[1..]);
        AcceptedOnce(w.Insert(n), arrivals[1..]);
        InsertKeeps(w, n, n);
        NeverAcceptsContained(w.Insert(n), arrivals[1..], n);
        assert Accepted(w, arrivals) == [n] + rest;
      }
    }
  }

  // ---------- Exactness ----------

  /** The window tells exactly the numbers of `seen`, apart from those below its lower end. */
  ghost predicate Exact(w: Window, seen: set<nat>) {
    && w.Valid()
    && (forall n: nat :: w.Contains(n) <==> n < w.lower || n in seen)
  }

  /** Bits that the truncated shift amount leaves in the word although their numbers have
      dropped out of the window. */
  ghost predicate LeavesStrayBit(w: Window, n: nat)
    requires w.Valid()
  {
    && n > w.Upper() + BITS - 1
    && exists i :: 0 <= i < BITS && w.bits[i] && 0 < i + (n - w.Upper()) % TWO_32 < BITS
  }

  /** One insertion keeps the window exact if and only if it leaves no stray bit; jumps of
      less than 2^32 never do. */
  lemma InsertExactIff(w: Window, seen: set<nat>, n: nat)
    requires Exact(w, seen)
    ensures Exact(w.Insert(n), seen + {n}) <==> !LeavesStrayBit(w, n)
    ensures n < w.Upper() + TWO_32 ==> !LeavesStrayBit(w, n)
  {
    var t := w.Insert(n);
    if LeavesStrayBit(w, n) {
      var i :| 0 <= i < BITS && w.bits[i] && 0 < i + (n - w.Upper()) % TWO_32 < BITS;
      StrayBit(w, seen, n, i);
    } else {
      forall m: nat ensures t.Contains(m) <==> m < t.lower || m in seen + {n} {
        InsertExactAt(w, seen, n, m);
      }
    }
  }

  lemma StrayBit(w: Window, seen: set<nat>, n: nat, i: nat)
    requires Exact(w, seen) && n > w.Upper() + BITS - 1 && i < BITS && w.bits[i]
    requires 0 < i + (n - w.Upper()) % TWO_32 < BITS
    ensures !Exact(w.Insert(n), seen + {n})
  {
    var t := w.Insert(n);
    var m := n - (i + (n - w.Upper()) % TWO_32);
    assert t.Upper() == n && t.Contains(m) && t.lower <= m;
    assert !w.Contains(m);
  }

  lemma InsertExactAt(w: Window, seen: set<nat>, n: nat, m: nat)
    requires Exact(w, seen) && !LeavesStrayBit(w, n)
    ensures w.Insert(n).Contains(m) <==> m < w.Insert(n).lower || m in seen + {n}
  {
    var t := w.Insert(n);
    assert w.Contains(m) <==> m < w.lower || m in seen;
    InsertKeeps(w, n, m);
    if n > w.Upper() && t.lower <= m <= t.Upper() && m != n {
      var j := n - m;
      var shift := (n - w.Upper()) % TWO_32;
      assert t.Contains(m) <==> shift <= j && w.bits[j - shift];
    }
  }

  /** `lower` is 127 below the largest number, or zero. */
  ghost predicate LowerFollows(w: Window, seen: set<nat>) {
    && (forall n :: n in seen ==> n <= w.Upper())
    && (w.lower > 0 ==> w.Upper() in seen)
  }

  /** No jump past the upper end is as long as 2^32. */
  predicate ShortJumps(w: Window, ns: seq<nat>)
    requires w.Valid()
    decreases |ns|
  {
    ns != [] ==> ns[0] < w.Upper() + TWO_32 && ShortJumps(w.Insert(ns[0]), ns[1..])
  }

  ghost function Elements(ns: seq<nat>): set<nat> {
    set i | 0 <= i < |ns| :: ns[i]
  }

  lemma {:induction false} RunExact(w: Window, seen: set<nat>, ns: seq<nat>)
    requires Exact(w, seen) && LowerFollows(w, seen) && ShortJumps(w, ns)
    ensures Exact(InsertAll(w, ns), seen + Elements(ns)) && LowerFollows(InsertAll(w, ns), seen + Elements(ns))
    decreases |ns|
  {
    if ns == [] {
      assert seen + Elements(ns) == seen;
    } else {
      InsertExactIff(w, seen, ns[0]);
      RunExact(w.Insert(ns[0]), seen + {ns[0]}, ns[1..]);
      assert seen + Elements(ns) == seen + {ns[0]} + Elements(ns[1..]) by {
        assert ns == [ns[0]] + ns[1..];
      }
    }
  }

  /** The main result: after any run of short jumps from the empty window, a number is
      contained exactly when it was inserted or lies below the window, and the window ends
      at the largest number inserted or at 127. */
  lemma WindowIsHistory(ns: seq<nat>)
    requires ShortJumps(Empty(), ns)
    ensures Exact(InsertAll(Empty(), ns), Elements(ns))
    ensures LowerFollows(InsertAll(Empty(), ns), Elements(ns))
  {
    RunExact(Empty(), {}, ns);
    assert {} + Elements(ns) == Elements(ns);
  }

  /** In numbers: the largest number and the 127 below it are told apart exactly, and everything
      older counts as received. */
  lemma LastOneHundredTwentyEight(ns: seq<nat>, largest: nat)
    requires ShortJumps(Empty(), ns) && largest in ns && forall n :: n in ns ==> n <= largest
    ensures forall n: nat :: InsertAll(Empty(), ns).Contains(n) <==> n in ns || n + 127 < largest
  {
    WindowIsHistory(ns);
    var w := InsertAll(Empty(), ns);
    assert forall n :: n in Elements(ns) <==> n in ns;
    assert w.lower == if largest >= 127 then largest - 127 else 0;
  }

  /** A long jump is not exact: after 0, the jump to 2^32 + 127 makes 2^32 look received. */
  lemma LongJumpIsNotExact()
    ensures InsertAll(Empty(), [0, 0x1_0000_007F]).Contains(0x1_0000_0000)
  {
    var far := 0x1_0000_007F;
    var w := Empty().Insert(0);
    var t := w.Insert(far);
    assert [0, far][1..] == [far] && [far][1..] == [];
    assert InsertAll(Empty(), [0, far]) == InsertAll(w, [far]) == InsertAll(t, []) == t;
    assert w.Upper() == 127 && w.bits[127];
    assert (far - w.Upper()) % TWO_32 == 0;
    assert t.Upper() - 0x1_0000_0000 == 127;
  }

  // ---------- The object ----------

  class PktNumWindow {
    var lower: nat
    var window: seq<bool>

    ghost predicate Valid()
      reads this
    {
      |window| == BITS
    }

    ghost function Value(): Window
      reads this
    {
      Window(lower, window)
    }

    constructor ()
      ensures Valid() && Value() == Empty()
    {
      lower := 0;
      window := seq(BITS, i => false);
    }

    method Contains(n: nat) returns (r: bool)
      requires Valid()
      ensures r == Value().Contains(n)
    {
      var upper := lower + BITS - 1;
      if n > upper {
        return false;
      }
      if n < lower {
        return true;
      }
      r := window[upper - n];
    }

    method Insert(n: nat)
      requires Valid()
      modifies this
      ensures Valid() && Value() == old(Value()).Insert(n)
    {
      if n < lower {
        return;
      }
      var upper := lower + BITS - 1;
      if n > upper {
        var diff := n - upper;
        lower := lower + diff;
        var shift := diff % TWO_32;
        window := seq(BITS, i requires 0 <= i < BITS reads this requires Valid() =>
          shift < BITS && shift <= i && window[i - shift]);
      }
      window := window[lower + BITS - 1 - n := true];
    }
  }
}
