/** A lost NEW_CONNECTION_ID frame is announced again, and the frame is built anew with the Retire
    Prior To of that time (quiche/src/lib.rs:3862-3864).  Exactly when the peer accepts it. */
module CidReachability {
  import opened Basics
  import opened Cid
  import opened CidLink

  /** From every state that the protocol reaches, and for every frame on its way: built anew, the
      peer rejects it if and only if the retirement of its ID has been asked for meanwhile. */
  lemma RebuiltFrameIff(l: Link, i: nat, cut: nat)
    requires Inv(l) && i < |l.flight| && cut <= |l.dst.dcids|
    ensures var frame := FrameFor(l.src, l.flight[i].num);
            && frame.Ok? && frame.value.num == l.flight[i].num && frame.value.cid == l.flight[i].cid
            && (NewDcid(l.dst, frame.value, cut).1 == Err(InvalidFrame) <==> l.src.retirePriorTo > l.flight[i].num)
  {
    var num := l.flight[i].num;
    StillIssued(l, i);
    NotYetKnown(l, i);
    hide Inv, NewDcid;
    RejectedFrame(l.dst, FrameFor(l.src, num).value, cut);
  }

  /** The ID of a frame on its way is still there to be announced. */
  lemma StillIssued(l: Link, i: nat)
    requires Inv(l) && i < |l.flight|
    ensures var frame := FrameFor(l.src, l.flight[i].num);
            && frame.Ok? && frame.value.num == l.flight[i].num && frame.value.cid == l.flight[i].cid
            && frame.value.retirePriorTo == l.src.retirePriorTo
  {
    var num := l.flight[i].num;
    assert Undelivered(l, num);
    assert num in Nums(l.src.scids) && num > 0;
    var k := IndexOf(l.src.scids, num);
    assert k < |l.src.scids| && l.src.scids[k].cid == l.issued[num] && l.src.scids[k].token.Some?;
  }

  lemma NotYetKnown(l: Link, i: nat)
    requires Inv(l) && i < |l.flight|
    ensures !l.dst.zeroLength && !Clashes(l.dst.dcids, l.flight[i].cid, l.flight[i].num)
  {
    forall j | 0 <= j < |l.dst.dcids|
      ensures l.dst.dcids[j].cid != l.flight[i].cid && l.dst.dcids[j].num != l.flight[i].num
    {
      assert l.dst.dcids[j].num < l.Delivered() <= l.flight[i].num;
    }
  }

  // ---------- It does happen ----------

  /** The oldest frame on its way carries an ID whose retirement has been asked for. */
  ghost predicate WouldBeRejected(l: Link) {
    l.flight != [] && l.flight[0].num < l.src.retirePriorTo
  }

  /** What is known of the states on the way. */
  ghost predicate At(l: Link, count: nat, advertise: seq<nat>, flight: seq<nat>, retirePriorTo: nat) {
    && Inv(l) && l.src.limit == 3 && l.src.next == |l.src.scids| == |l.issued| == count
    && (forall i :: 0 <= i < count ==> l.src.scids[i].num == i && l.issued[i] == [i + 1])
    && l.src.advertise == advertise && l.src.retirePriorTo == retirePriorTo
    && |l.flight| == |flight| && (forall i :: 0 <= i < |flight| ==> l.flight[i].num == flight[i])
  }

  /** Some run leads to such a state. */
  ghost predicate Reaches(l: Link, goal: Link -> bool) {
    exists steps :: IsRun(l, steps) && goal(After(l, steps))
  }

  lemma ReachBack(l: Link, s: Step, goal: Link -> bool)
    requires Enabled(l, s) && Reaches(Next(l, s), goal)
    ensures Reaches(l, goal)
  {
    hide Enabled, Next;
    var steps :| IsRun(Next(l, s), steps) && goal(After(Next(l, s), steps));
    var all := [s] + steps;
    assert all[0] == s && all[1..] == steps;
    assert IsRun(l, all) && goal(After(l, all));
  }

  lemma ReachHere(l: Link, goal: Link -> bool)
    requires goal(l)
    ensures Reaches(l, goal)
  {
    assert IsRun(l, []) && After(l, []) == l;
  }

  lemma NewCid(l: Link, count: nat)
    requires |l.issued| == count && forall i :: 0 <= i < count ==> l.issued[i] == [i + 1]
    ensures [count + 1] !in l.issued
  {
    forall i | 0 <= i < count ensures l.issued[i] != [count + 1] {
      assert l.issued[i][0] == i + 1 && [count + 1][0] == count + 1;
    }
  }

  /** One more ID has been issued. */
  lemma Appended(l: Link, t: Link, count: nat, advertise: seq<nat>, more: seq<nat>, flight: seq<nat>,
                 before: nat, after: nat)
    requires At(l, count, advertise, flight, before) && Inv(t) && more == advertise + [count]
    requires t.issued == l.issued + [[count + 1]] && t.flight == l.flight
    requires t.src == l.src.(scids := l.src.scids + [Entry([count + 1], count, Some(0), None)], next := count + 1,
                             advertise := more, retirePriorTo := after)
    ensures At(t, count + 1, more, flight, after)
  {
    hide Inv;
  }

  lemma IssueAt(l: Link, count: nat, advertise: seq<nat>, more: seq<nat>, flight: seq<nat>)
    requires At(l, count, advertise, flight, 0) && 1 <= count < 3 && more == advertise + [count]
    ensures var s := IssueId([count + 1], 0, None, false);
            Enabled(l, s) && At(Next(l, s), count + 1, more, flight, 0)
  {
    NewCid(l, count);
    hide Inv;
    var t := IssueOne(l, [count + 1]);
    assert t.flight == l.flight;
    Appended(l, t, count, advertise, more, flight, 0, 0);
  }

  lemma AnnounceAt(l: Link, count: nat, first: nat, rest: seq<nat>, flight: seq<nat>, more: seq<nat>)
    requires At(l, count, [first] + rest, flight, 0) && more == flight + [first]
    ensures Enabled(l, Announce) && At(Next(l, Announce), count, rest, more, 0)
  {
    assert ([first] + rest)[0] == first;
    hide Inv;
    AnnounceKeepsInv(l);
    Announced(l, first, rest);
    var t, frame := Next(l, Announce), FrameFor(l.src, first).value;
    hide Next, Succeeds, Enabled, FrameFor;
    assert |t.flight| == |more| && forall i :: 0 <= i < |more| ==> t.flight[i].num == more[i];
  }

  lemma Announced(l: Link, first: nat, rest: seq<nat>)
    requires l.src.advertise == [first] + rest && FrameFor(l.src, first).Ok?
    ensures var frame := FrameFor(l.src, first).value;
            && frame.num == first
            && Next(l, Announce) == l.(src := l.src.(advertise := rest), flight := l.flight + [frame])
  {
    var queue := [first] + rest;
    assert queue[1..] == rest && queue[0] == first && first in queue;
    assert RemoveFirst(queue, first) == rest;
  }

  lemma ForceAt(l: Link, count: nat, advertise: seq<nat>, more: seq<nat>, flight: seq<nat>, retirePriorTo: nat)
    requires At(l, count, advertise, flight, retirePriorTo) && 3 <= count < 5 && more == advertise + [count]
    requires retirePriorTo < count && retirePriorTo !in advertise
    ensures var s := IssueId([count + 1], 0, None, true);
            Enabled(l, s) && At(Next(l, s), count + 1, more, flight, retirePriorTo + 1)
  {
    NewCid(l, count);
    LowestHere(l.src, retirePriorTo);
    assert l.src.capacity == 5 && !l.src.zeroLength;
    hide Inv;
    var s := IssueId([count + 1], 0, None, true);
    assert Enabled(l, s);
    IssueKeepsInv(l, [count + 1], 0, None, true);
    Forced(l, count, retirePriorTo);
    var t := Next(l, s);
    hide Next, Succeeds, Enabled;
    Appended(l, t, count, advertise, more, flight, retirePriorTo, retirePriorTo + 1);
  }

  lemma Forced(l: Link, count: nat, lowest: nat)
    requires l.src.limit <= |l.src.scids| == l.src.next == count < l.src.capacity && !l.src.zeroLength
    requires LowestUsable(l.src.scids, l.src.retirePriorTo) == Some(lowest)
    requires (forall i :: 0 <= i < count ==> l.src.scids[i].num == i) && !HasCid(l.src.scids, [count + 1])
    requires Enabled(l, IssueId([count + 1], 0, None, true))
    ensures var t := Next(l, IssueId([count + 1], 0, None, true));
            && t.flight == l.flight && t.issued == l.issued + [[count + 1]]
            && t.src == l.src.(scids := l.src.scids + [Entry([count + 1], count, Some(0), None)], next := count + 1,
                               advertise := l.src.advertise + [count], retirePriorTo := lowest + 1)
  {
    assert IndexOf(l.src.scids, count) == |l.src.scids|;
  }

  lemma LowestHere(s: Source, n: nat)
    requires n < |s.scids| && s.scids[n].num == n == s.retirePriorTo
    ensures LowestUsable(s.scids, s.retirePriorTo) == Some(n)
  {
    assert s.scids[n].num in Nums(s.scids);
    LowestIsLeast(s, n);
  }

  /** Two IDs issued and not announced, whatever is to be reached from there. */
  lemma FromTwoIssued(goal: Link -> bool)
    requires forall l :: At(l, 3, [1, 2], [], 0) ==> Reaches(l, goal)
    ensures Reaches(Start(3, [1], 0, None), goal)
  {
    var l0 := Start(3, [1], 0, None);
    StartInv(3, [1], 0, None);
    assert At(l0, 1, [], [], 0);
    hide At, Reaches, Inv, Next, Enabled;
    IssueAt(l0, 1, [], [1], []);
    var l1 := Next(l0, IssueId([2], 0, None, false));
    IssueAt(l1, 2, [1], [1, 2], []);
    ReachBack(l1, IssueId([3], 0, None, false), goal);
    ReachBack(l0, IssueId([2], 0, None, false), goal);
  }

  /** With a limit of three: two IDs are issued and announced, and two forced retirements follow
      while both frames are on their way.  If the first one is lost now, the frame built in its place
      asks for its own retirement. */
  lemma RebuiltFrameIsRejected()
    ensures Reaches(Start(3, [1], 0, None), (l: Link) => WouldBeRejected(l))
  {
    var goal := (l: Link) => WouldBeRejected(l);
    forall l | At(l, 3, [1, 2], [], 0) ensures Reaches(l, goal) {
      AnnouncedAndForced(l, goal);
    }
    FromTwoIssued(goal);
  }

  lemma AnnouncedAndForced(l: Link, goal: Link -> bool)
    requires At(l, 3, [1, 2], [], 0) && forall t :: At(t, 5, [3, 4], [1, 2], 2) ==> goal(t)
    ensures Reaches(l, goal)
  {
    hide At, Reaches, Inv, Next, Enabled;
    assert [1] + [2] == [1, 2];
    AnnounceAt(l, 3, 1, [2], [], [1]);
    var l1 := Next(l, Announce);
    assert [2] + [] == [2];
    AnnounceAt(l1, 3, 2, [], [1], [1, 2]);
    var l2 := Next(l1, Announce);
    ForcedTwice(l2, goal);
    ReachBack(l1, Announce, goal);
    ReachBack(l, Announce, goal);
  }

  lemma ForcedTwice(l: Link, goal: Link -> bool)
    requires At(l, 3, [], [1, 2], 0) && forall t :: At(t, 5, [3, 4], [1, 2], 2) ==> goal(t)
    ensures Reaches(l, goal)
  {
    hide At, Reaches, Inv, Next, Enabled;
    ForceAt(l, 3, [], [3], [1, 2], 0);
    var l1 := Next(l, IssueId([4], 0, None, true));
    ForceAt(l1, 4, [3], [3, 4], [1, 2], 1);
    var l2 := Next(l1, IssueId([5], 0, None, true));
    ReachHere(l2, goal);
    ReachBack(l1, IssueId([5], 0, None, true), goal);
    ReachBack(l, IssueId([4], 0, None, true), goal);
  }

  /** With a limit of three, two unannounced IDs and one forced retirement leave ID 1 queued, usable
      and next in line to be retired. */
  lemma UnannouncedIsReachable()
    ensures Reaches(Start(3, [1], 0, None), (l: Link) => RetiresUnannounced(l.src))
  {
    var goal := (l: Link) => RetiresUnannounced(l.src);
    forall l | At(l, 3, [1, 2], [], 0) ensures Reaches(l, goal) {
      var s := IssueId([4], 0, None, true);
      ForceAt(l, 3, [1, 2], [1, 2, 3], [], 0);
      StillQueued(Next(l, s));
      hide At, Next, Enabled, RetiresUnannounced;
      ReachHere(Next(l, s), goal);
      ReachBack(l, s, goal);
    }
    FromTwoIssued(goal);
  }

  lemma StillQueued(l: Link)
    requires At(l, 4, [1, 2, 3], [], 1)
    ensures RetiresUnannounced(l.src)
  {
    assert l.src.capacity == 5;
    hide Inv;
    LowestHere(l.src, 1);
  }
}
