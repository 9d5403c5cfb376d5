/** Every outcome of the calls that issue and retire connection IDs, in terms of the stored numbers
    and IDs: when a call succeeds, which error it returns otherwise, and what it leaves behind. */
module CidOutcomes {
  import opened Basics
  import opened Cid
  import opened CidSourceRuns

  ghost predicate IsLeastUsable(es: seq<Entry>, bound: nat, n: nat) {
    n in Nums(es) && bound <= n && forall m :: m in Nums(es) && bound <= m ==> n <= m
  }

  ghost predicate HasUsable(es: seq<Entry>, bound: nat) {
    exists n :: n in Nums(es) && bound <= n
  }

  lemma LowestMeaning(es: seq<Entry>, bound: nat)
    ensures LowestUsable(es, bound).Some? <==> HasUsable(es, bound)
    ensures LowestUsable(es, bound).Some? ==> IsLeastUsable(es, bound, LowestUsable(es, bound).value)
  {
    if LowestUsable(es, bound).Some? {
      var low := LowestUsable(es, bound).value;
      assert low in Nums(es);
      forall m | m in Nums(es) && bound <= m ensures low <= m {
        var k :| 0 <= k < |es| && es[k].num == m;
      }
    }
  }

  // ---------- new_scid ----------

  /** There is room below the limit, or the caller agrees to have a usable ID retired. */
  ghost predicate MayIssue(s: Source, retireIfNeeded: bool) {
    !s.zeroLength && (|s.scids| < s.limit || (retireIfNeeded && HasUsable(s.scids, s.retirePriorTo)))
  }

  ghost predicate Stores(s: Source, cid: ConnectionId) {
    exists e :: e in s.scids && e.cid == cid
  }

  lemma MakeRoomAnswers(s: Source, retireIfNeeded: bool)
    ensures MakeRoom(s, retireIfNeeded).Ok? <==> MayIssue(s, retireIfNeeded)
    ensures MakeRoom(s, retireIfNeeded) == Err(IdLimit) <==>
              !s.zeroLength && s.limit <= |s.scids| && !retireIfNeeded
    ensures MayIssue(s, retireIfNeeded) ==>
              var r := MakeRoom(s, retireIfNeeded).value;
              && r == s.(retirePriorTo := r.retirePriorTo)
              && if |s.scids| < s.limit then r == s
                 else r.retirePriorTo > 0 && IsLeastUsable(s.scids, s.retirePriorTo, r.retirePriorTo - 1)
  {
    LowestMeaning(s.scids, s.retirePriorTo);
    hide LowestUsable, IsLeastUsable, HasUsable;
  }

  /** When `new_scid` succeeds. */
  lemma NewScidSucceedsIff(s: Source, cid: ConnectionId, token: Option<nat>, advertise: bool, path: Option<nat>,
                           retireIfNeeded: bool)
    requires SourceInv(s)
    ensures NewScid(s, cid, token, advertise, path, retireIfNeeded).1.Ok? <==>
              && MayIssue(s, retireIfNeeded)
              && (token.Some? || s.next == 0)
              && (if Stores(s, cid) then exists e :: e in s.scids && e.cid == cid && e.token == token
                  else |s.scids| < s.capacity)
  {
    MakeRoomAnswers(s, retireIfNeeded);
    hide MakeRoom, MayIssue;
    StoredOnce(s, cid);
    NextIsFree(s);
  }

  lemma StoredOnce(s: Source, cid: ConnectionId)
    requires DistinctCids(s.scids)
    ensures HasCid(s.scids, cid) <==> Stores(s, cid)
    ensures HasCid(s.scids, cid) ==> forall e :: e in s.scids && e.cid == cid ==> e == FindCid(s.scids, cid)
  {
    if HasCid(s.scids, cid) {
      var f := FindCid(s.scids, cid);
      var i :| 0 <= i < |s.scids| && s.scids[i] == f;
      forall e | e in s.scids && e.cid == cid ensures e == f {
        var j :| 0 <= j < |s.scids| && s.scids[j] == e;
        assert i == j;
      }
    }
  }

  lemma NextIsFree(s: Source)
    requires forall i :: 0 <= i < |s.scids| ==> s.scids[i].num < s.next
    ensures IndexOf(s.scids, s.next) == |s.scids|
  {
  }

  /** What `new_scid` leaves: a known ID gives its old number, a new one the next number, appended,
      and queued if it is to be announced.  A failure changes nothing but Retire Prior To. */
  lemma NewScidEffect(s: Source, cid: ConnectionId, token: Option<nat>, advertise: bool, path: Option<nat>,
                      retireIfNeeded: bool)
    requires SourceInv(s)
    ensures var (t, r) := NewScid(s, cid, token, advertise, path, retireIfNeeded);
            && (r.Err? ==> t == s.(retirePriorTo := t.retirePriorTo))
            && (r.Ok? && Stores(s, cid) ==>
                  && t == s.(retirePriorTo := t.retirePriorTo)
                  && exists e :: e in s.scids && e.cid == cid && e.num == r.value)
            && (r.Ok? && !Stores(s, cid) ==>
                  && r.value == s.next
                  && t == s.(scids := s.scids + [Entry(cid, s.next, token, path)], next := s.next + 1,
                             advertise := t.advertise, retirePriorTo := t.retirePriorTo)
                  && (advertise ==> t.advertise == s.advertise + [s.next])
                  && (!advertise && s.next !in s.advertise ==> t.advertise == s.advertise))
            && if MayIssue(s, retireIfNeeded) && s.limit <= |s.scids|
               then t.retirePriorTo > 0 && IsLeastUsable(s.scids, s.retirePriorTo, t.retirePriorTo - 1)
               else t.retirePriorTo == s.retirePriorTo
  {
    hide MakeRoom, MayIssue, IsLeastUsable, RemoveFirst, Increasing, DistinctNums, IndexOf;
    MakeRoomAnswers(s, retireIfNeeded);
    StoredOnce(s, cid);
    NextIsFree(s);
    hide DistinctCids;
  }

  /** Which error `new_scid` returns. */
  lemma NewScidErrors(s: Source, cid: ConnectionId, token: Option<nat>, advertise: bool, path: Option<nat>,
                      retireIfNeeded: bool)
    requires SourceInv(s) && NewScid(s, cid, token, advertise, path, retireIfNeeded).1.Err?
    ensures NewScid(s, cid, token, advertise, path, retireIfNeeded).1 ==
              if !s.zeroLength && ((s.limit <= |s.scids| && !retireIfNeeded)
                                   || (MayIssue(s, retireIfNeeded) && (token.Some? || s.next == 0) && !Stores(s, cid)))
              then Err(IdLimit) else Err(InvalidState)
  {
    MakeRoomAnswers(s, retireIfNeeded);
    StoredOnce(s, cid);
    NextIsFree(s);
    RoomErrors(s, retireIfNeeded);
    hide MakeRoom, RemoveFirst, DistinctCids, Increasing, DistinctNums, HasUsable;
  }

  lemma RoomErrors(s: Source, retireIfNeeded: bool)
    ensures MakeRoom(s, retireIfNeeded).Err? ==>
              MakeRoom(s, retireIfNeeded) == if !s.zeroLength && s.limit <= |s.scids| && !retireIfNeeded
                                             then Err(IdLimit) else Err(InvalidState)
  {
    hide LowestUsable;
  }

  // ---------- retire_scid ----------

  /** RETIRE_CONNECTION_ID for a number that was never issued, for the last ID, or for one that is
      gone already changes nothing. */
  lemma RetireScidRefuses(s: Source, num: nat, pktDcid: ConnectionId)
    requires SourceInv(s)
    ensures var (t, r) := RetireScid(s, num, pktDcid);
            && (num >= s.next ==> t == s && r == Err(InvalidState))
            && (num < s.next && |s.scids| == 1 ==> t == s && r == Err(OutOfIdentifiers))
            && (num < s.next && |s.scids| > 1 && num !in Nums(s.scids) ==> t == s && r == Ok(None))
  {
    if num < s.next && |s.scids| > 1 && num !in Nums(s.scids) {
      assert IndexOf(s.scids, num) == |s.scids|;
    }
  }

  /** Any other number is removed.  The packet must not have been addressed to the ID that it
      retires, and a usable ID must be left, which becomes the new Retire Prior To. */
  lemma RetireScidRemoves(s: Source, num: nat, pktDcid: ConnectionId, e: Entry)
    requires SourceInv(s) && |s.scids| > 1 && e in s.scids && e.num == num
    ensures var (t, r) := RetireScid(s, num, pktDcid);
            && Nums(t.scids) == Nums(s.scids) - {num}
            && t == s.(scids := t.scids, retired := t.retired, retirePriorTo := t.retirePriorTo)
            && (forall x :: x in t.scids <==> x in s.scids && x != e)
            && (r.Ok? <==> e.cid != pktDcid && HasUsable(t.scids, s.retirePriorTo))
            && (r.Err? ==> r == Err(InvalidState) && t.retirePriorTo == s.retirePriorTo)
            && t.retired == (if e.cid == pktDcid then s.retired else s.retired + [e.cid])
            && (r.Ok? ==> r == Ok(e.path) && IsLeastUsable(t.scids, s.retirePriorTo, t.retirePriorTo))
  {
    var (found, rest) := RemovedEntry(s.scids, num, e);
    LowestMeaning(rest, s.retirePriorTo);
    hide QueueRemove, LowestUsable, IsLeastUsable, HasUsable, Nums, Increasing, DistinctNums, DistinctCids;
  }

  /** What the queue removes. */
  ghost function RemovedEntry(es: seq<Entry>, num: nat, e: Entry): (r: (Entry, seq<Entry>))
    requires DistinctNums(es) && |es| > 1 && e in es && e.num == num
    ensures QueueRemove(es, num) == Ok((Some(e), r.1)) && r.0 == e
    ensures Nums(r.1) == Nums(es) - {num} && forall x :: x in r.1 <==> x in es && x != e
  {
    var i :| 0 <= i < |es| && es[i] == e;
    assert IndexOf(es, num) == i;
    WithoutNums(es, i);
    WithoutMembers(es, i);
    (e, Without(es, i))
  }

  lemma WithoutMembers(es: seq<Entry>, i: nat)
    requires DistinctNums(es) && i < |es|
    ensures forall x :: x in Without(es, i) <==> x in es && x != es[i]
  {
    var rest := Without(es, i);
    forall x | x in rest ensures x in es && x != es[i] {
      var k :| 0 <= k < |rest| && rest[k] == x;
      assert x == es[if k < i then k else k + 1];
    }
    forall x | x in es && x != es[i] ensures x in rest {
      var k :| 0 <= k < |es| && es[k] == x;
      assert x == rest[if k < i then k else k - 1];
    }
  }

  // ---------- retire_dcid ----------

  /** The last ID stays, a missing one is an error, and any other moves to the retire set. */
  lemma RetireDcidAnswers(d: Dest, num: nat)
    ensures var (t, r) := RetireDcid(d, num);
            && (d.zeroLength ==> t == d && r == Err(InvalidState))
            && (!d.zeroLength && |d.dcids| <= 1 ==> t == d && r == Err(OutOfIdentifiers))
            && (!d.zeroLength && |d.dcids| > 1 && num !in Nums(d.dcids) ==> t == d && r == Err(InvalidState))
  {
    if |d.dcids| > 1 && num !in Nums(d.dcids) {
      assert IndexOf(d.dcids, num) == |d.dcids|;
    }
  }

  lemma RetireDcidMoves(d: Dest, num: nat, e: Entry)
    requires DistinctNums(d.dcids) && !d.zeroLength && |d.dcids| > 1 && e in d.dcids && e.num == num
    ensures var (t, r) := RetireDcid(d, num);
            && Nums(t.dcids) == Nums(d.dcids) - {num} && (forall x :: x in t.dcids <==> x in d.dcids && x != e)
            && t == d.(dcids := t.dcids, retire := t.retire)
            && if |d.retire| < d.retireCapacity then r == Ok(e.path) && t.retire == d.retire + {num}
               else r == Err(IdLimit) && t.retire == d.retire
  {
    var (found, rest) := RemovedEntry(d.dcids, num, e);
    hide QueueRemove, Nums, DistinctNums;
  }

  // ---------- The queue ----------

  /** Insertion replaces the entry with the same number in place; a new number is appended, or
      refused when the queue is full. */
  lemma QueueInsertAnswers(es: seq<Entry>, capacity: nat, e: Entry)
    requires DistinctNums(es)
    ensures var r := QueueInsert(es, capacity, e);
            if e.num in Nums(es)
            then r.Ok? && |r.value| == |es|
                 && forall i :: 0 <= i < |es| ==> r.value[i] == if es[i].num == e.num then e else es[i]
            else r == if |es| < capacity then Ok(es + [e]) else Err(IdLimit)
  {
    var i := IndexOf(es, e.num);
    if e.num in Nums(es) {
      var k :| 0 <= k < |es| && es[k].num == e.num;
      assert i == k;
    } else {
      assert i == |es|;
    }
  }

  // ---------- Announcing and linking ----------

  /** A frame can be built exactly for a stored number with a reset token. */
  lemma FrameForAnswers(s: Source, num: nat)
    requires DistinctNums(s.scids)
    ensures FrameFor(s, num).Ok? <==> exists e :: e in s.scids && e.num == num && e.token.Some?
    ensures forall e :: e in s.scids && e.num == num && e.token.Some? ==>
              FrameFor(s, num) == Ok(NewConnectionId(num, s.retirePriorTo, e.cid, e.token.value))
    ensures FrameFor(s, num).Err? ==> FrameFor(s, num) == Err(InvalidState)
  {
    var i := IndexOf(s.scids, num);
    forall e | e in s.scids && e.num == num ensures i < |s.scids| && e == s.scids[i] {
      var j :| 0 <= j < |s.scids| && s.scids[j] == e;
    }
  }

  /** Linking changes the path of the numbered entry, and nothing else. */
  lemma LinkAnswers(s: Source, num: nat, path: nat)
    requires DistinctNums(s.scids)
    ensures var t := LinkScid(s, num, path);
            && t == s.(scids := t.scids) && |t.scids| == |s.scids|
            && forall i :: 0 <= i < |s.scids| ==>
                 t.scids[i] == if s.scids[i].num == num then s.scids[i].(path := Some(path)) else s.scids[i]
  {
    var k := IndexOf(s.scids, num);
    assert forall i :: 0 <= i < |s.scids| && s.scids[i].num == num ==> i == k;
  }

  // ---------- The start ----------

  /** The first source ID has number zero and is usable; two usable IDs are allowed at first. */
  lemma SourceStarts(cid: ConnectionId, path: nat, token: Option<nat>)
    ensures var s := NewSource(cid, path, token);
            && SourceInv(s) && Usable(s.scids, s.retirePriorTo) == {0} && s.next == 1 && s.limit == 2
            && (forall e :: e in s.scids ==> e == Entry(cid, 0, token, Some(path)))
            && s.advertise == [] && s.retired == [] && (s.zeroLength <==> |cid| == 0)
  {
    hide LowestUsable;
    var s := NewSource(cid, path, token);
    assert Nums(s.scids) == {0} by { assert s.scids[0].num == 0; }
    assert Usable(s.scids, s.retirePriorTo) == {0};
  }

  /** The handshake replaces what is known of the peer's IDs by number zero.  If that ID is empty,
      the peer can neither announce another nor have this one retired. */
  lemma DestStarts(limit: nat, first: nat, cid: ConnectionId, token: Option<nat>, path: Option<nat>,
                   f: NewConnectionId, cut: nat)
    requires cut <= 1
    ensures var d := SetInitialDcid(NewDest(limit, first), cid, token, path);
            && d.dcids == [Entry(cid, 0, token, path)] && d.retire == {} && d.peerRetirePriorTo == 0
            && d.capacity >= 2 && d.capacity >= limit && (d.capacity == 2 || d.capacity == limit)
            && d.retireCapacity == 3 * d.capacity
            && (NewDcid(d, f, cut) == (d, Err(InvalidState), []) <==> |cid| == 0)
            && RetireDcid(d, f.num) == (d, Err(if |cid| == 0 then InvalidState else OutOfIdentifiers))
  {
    hide Drain;
  }
}
