/** What a path's fields mean in terms of the calls made on it: which challenges are pending, which
    losses count, when it fails and when it is validated (section 8.2 of RFC 9000).  Everything is
    read off the sequence of calls. */
module PathHistory {
  import opened Basics
  import opened Paths

  // ---------- Pending challenges ----------

  /** The challenge sent by call `i` has been neither answered nor lost since. */
  ghost predicate PendingAt(calls: seq<Call>, i: int) {
    && 0 <= i < |calls| && calls[i].ChallengeSent?
    && forall j :: i < j < |calls| ==>
         !calls[j].LossTimeout? && !(calls[j].Response? && calls[j].data == calls[i].data)
  }

  ghost predicate IsOldestPending(calls: seq<Call>, i: int) {
    PendingAt(calls, i) && forall j :: PendingAt(calls, j) ==> i <= j
  }

  ghost predicate IsNewestPending(calls: seq<Call>, data: Data, i: int) {
    PendingAt(calls, i) && calls[i].data == data
    && forall j :: PendingAt(calls, j) && calls[j].data == data ==> j <= i
  }

  /** The pending calls in order. */
  ghost function Indices(calls: seq<Call>): seq<nat> {
    if calls == [] then []
    else
      var before, last := calls[..|calls| - 1], calls[|calls| - 1];
      match last
      case ChallengeSent(_, _, _) => Indices(before) + [|before|]
      case LossTimeout(_, _, _) => []
      case Response(data) => Others(before, Indices(before), data)
      case _ => Indices(before)
  }

  ghost function Others(calls: seq<Call>, ks: seq<nat>, data: Data): seq<nat> {
    if ks == [] then []
    else
      var front, last := ks[..|ks| - 1], ks[|ks| - 1];
      if last < |calls| && calls[last].ChallengeSent? && calls[last].data == data then Others(calls, front, data)
      else Others(calls, front, data) + [last]
  }

  ghost predicate Sorted(ks: seq<nat>) {
    forall a, b :: 0 <= a < b < |ks| ==> ks[a] < ks[b]
  }

  /** All positions of sent challenges. */
  ghost predicate Sent(calls: seq<Call>, ks: seq<nat>) {
    forall k :: 0 <= k < |ks| ==> ks[k] < |calls| && calls[ks[k]].ChallengeSent?
  }

  lemma {:induction false} OthersMeaning(calls: seq<Call>, ks: seq<nat>, data: Data)
    requires Sorted(ks) && Sent(calls, ks)
    ensures Sorted(Others(calls, ks, data)) && Sent(calls, Others(calls, ks, data))
    ensures forall i :: i in Others(calls, ks, data) <==> i in ks && calls[i].data != data
    decreases |ks|
  {
    if ks != [] {
      var front, last := ks[..|ks| - 1], ks[|ks| - 1];
      OthersMeaning(calls, front, data);
      assert ks == front + [last];
      assert forall i :: i in front ==> i < last;
    }
  }

  lemma {:induction false} IndicesMeaning(calls: seq<Call>)
    ensures Sorted(Indices(calls)) && Sent(calls, Indices(calls))
    ensures forall i :: i in Indices(calls) <==> PendingAt(calls, i)
  {
    if calls != [] {
      var before, last := calls[..|calls| - 1], calls[|calls| - 1];
      IndicesMeaning(before);
      if last.Response? {
        OthersMeaning(before, Indices(before), last.data);
      }
      assert forall i :: PendingAt(calls, i) <==> Extends(before, last, i) by {
        PendingStep(calls, before, last);
      }
      assert Sent(calls, Indices(calls));
      hide PendingAt;
    }
  }

  /** What is pending after one more call. */
  ghost predicate Extends(before: seq<Call>, last: Call, i: int) {
    if i == |before| then last.ChallengeSent?
    else PendingAt(before, i) && !last.LossTimeout? && !(last.Response? && last.data == before[i].data)
  }

  lemma PendingStep(calls: seq<Call>, before: seq<Call>, last: Call)
    requires calls == before + [last]
    ensures forall i :: PendingAt(calls, i) <==> Extends(before, last, i)
  {
    forall i ensures PendingAt(calls, i) <==> Extends(before, last, i) {
      if 0 <= i < |before| {
        assert calls[|before|] == last;
        assert forall j :: i < j < |before| ==> calls[j] == before[j];
      }
    }
  }

  // ---------- The challenges in flight ----------

  ghost function ChallengesOf(calls: seq<Call>, ks: seq<nat>): seq<Challenge>
    requires Sent(calls, ks)
  {
    seq(|ks|, k requires 0 <= k < |ks| => Challenge(calls[ks[k]].data, calls[ks[k]].size, calls[ks[k]].now))
  }

  /** The challenges in flight are the pending ones, in the order in which they were sent. */
  lemma {:induction false} InFlightIs(p: Path, calls: seq<Call>)
    requires p.inFlight == [] && IsRun(p, calls)
    ensures Sent(calls, Indices(calls)) && After(p, calls).inFlight == ChallengesOf(calls, Indices(calls))
  {
    IndicesMeaning(calls);
    if calls != [] {
      var before, last := calls[..|calls| - 1], calls[|calls| - 1];
      InFlightIs(p, before);
      IndicesMeaning(before);
      SentByNow(p, before);
      hide Indices, ChallengesOf, PendingAt, Step;
      InFlightStep(After(p, before), calls, before, last);
    }
  }

  lemma InFlightStep(q: Path, calls: seq<Call>, before: seq<Call>, last: Call)
    requires calls == before + [last] && Sorted(Indices(before))
    requires Sent(before, Indices(before)) && Sent(calls, Indices(calls))
    requires q.inFlight == ChallengesOf(before, Indices(before))
    requires last.LossTimeout? ==> forall c :: c in q.inFlight ==> c.sentAt <= last.now
    ensures Step(q, last).inFlight == ChallengesOf(calls, Indices(calls))
  {
    assert calls[..|calls| - 1] == before && calls[|calls| - 1] == last;
    var ks := Indices(before);
    StepInFlight(q, last);
    hide Step, NotLost, Unanswered, Others, Sorted, ChallengesOf;
    if last.LossTimeout? {
      AllLost(q.inFlight, last.now);
    } else if last.Response? {
      UnansweredIs(before, ks, last.data);
      SameChallenges(calls, before, last, Indices(calls));
    } else {
      SameChallenges(calls, before, last, ks);
      if last.ChallengeSent? {
        ChallengesSnoc(calls, ks, |before|);
      }
    }
  }

  lemma StepInFlight(q: Path, c: Call)
    ensures Step(q, c).inFlight ==
              match c
              case ChallengeSent(data, size, now) => q.inFlight + [Challenge(data, size, now)]
              case Response(data) => Unanswered(q.inFlight, data)
              case LossTimeout(now, _, _) => NotLost(q.inFlight, now)
              case _ => q.inFlight
  {
    hide OnResponseReceived, OnLossDetectionTimeout, NotLost, Unanswered;
    match c
    case LossTimeout(now, rtt, isServer) => TimeoutFields(q, now, rtt, isServer);
    case Response(data) => ResponseInFlight(q, data);
    case _ =>
  }

  lemma SameChallenges(calls: seq<Call>, before: seq<Call>, last: Call, ks: seq<nat>)
    requires calls == before + [last] && Sent(before, ks)
    ensures Sent(calls, ks) && ChallengesOf(calls, ks) == ChallengesOf(before, ks)
  {
    assert forall k :: 0 <= k < |ks| ==> calls[ks[k]] == before[ks[k]];
  }

  lemma ResponseInFlight(q: Path, data: Data)
    ensures OnResponseReceived(q, data).0.inFlight == Unanswered(q.inFlight, data)
  {
    AnsweredFields(q, data);
    ConcludedFields(Answered(q, data));
    hide Answered, Concluded;
  }

  /** Nothing is in flight that was sent after the latest call. */
  lemma {:induction false} SentByNow(p: Path, calls: seq<Call>)
    requires p.inFlight == [] && IsRun(p, calls)
    ensures forall c :: c in After(p, calls).inFlight ==> c.sentAt <= Clock(calls)
  {
    if calls != [] {
      var before, last := calls[..|calls| - 1], calls[|calls| - 1];
      SentByNow(p, before);
      var q := After(p, before);
      match last
      case LossTimeout(now, rtt, isServer) =>
        NotLostMembers(q.inFlight, now);
        TimeoutFields(q, now, rtt, isServer);
        hide OnLossDetectionTimeout, NotLost;
      case Response(data) =>
        UnansweredMembers(q.inFlight, data);
        ResponseInFlight(q, data);
        hide OnResponseReceived, Unanswered;
      case _ =>
        hide OnResponseReceived, OnLossDetectionTimeout;
    }
  }

  /** Dropping the answered challenges drops the positions with that data. */
  lemma {:induction false} UnansweredIs(calls: seq<Call>, ks: seq<nat>, data: Data)
    requires Sorted(ks) && Sent(calls, ks)
    ensures Sent(calls, Others(calls, ks, data))
    ensures Unanswered(ChallengesOf(calls, ks), data) == ChallengesOf(calls, Others(calls, ks, data))
    decreases |ks|
  {
    OthersMeaning(calls, ks, data);
    if ks != [] {
      var front, last := ks[..|ks| - 1], ks[|ks| - 1];
      UnansweredIs(calls, front, data);
      hide Unanswered, Sorted, ChallengesOf;
      assert ks == front + [last];
      ChallengesSnoc(calls, front, last);
      UnansweredSnoc(ChallengesOf(calls, front), ChallengeAt(calls, last), data);
      if calls[last].data != data {
        ChallengesSnoc(calls, Others(calls, front, data), last);
      }
    }
  }

  ghost function ChallengeAt(calls: seq<Call>, k: nat): Challenge
    requires k < |calls| && calls[k].ChallengeSent?
  {
    Challenge(calls[k].data, calls[k].size, calls[k].now)
  }

  lemma ChallengesSnoc(calls: seq<Call>, ks: seq<nat>, last: nat)
    requires Sent(calls, ks) && Sent(calls, ks + [last])
    ensures last < |calls| && calls[last].ChallengeSent?
    ensures ChallengesOf(calls, ks + [last]) == ChallengesOf(calls, ks) + [ChallengeAt(calls, last)]
  {
    var all := ks + [last];
    assert all[|ks|] == last;
    assert forall k :: 0 <= k < |ks| ==> all[k] == ks[k];
  }

  // ---------- What a timeout does ----------

  /** A timeout after which nothing in flight is left.  A loss counts if it is the first or at least
      one round trip after the last counted one; three of them, or a server that may not send 25
      bytes, fail the path; otherwise another challenge is requested. */
  lemma TimeoutEffect(q: Path, now: nat, rtt: nat, isServer: bool)
    requires q.inFlight != [] && (forall c :: c in q.inFlight ==> c.sentAt <= now)
    requires q.lastProbeLost.Some? ==> q.lastProbeLost.value <= q.inFlight[0].sentAt
    ensures var lost := q.inFlight[0].sentAt;
            var counts := q.lastProbeLost.None? || q.lastProbeLost.value + rtt <= lost;
            var losses := q.probingLost + if counts then 1 else 0;
            var fails := losses >= 3 || (isServer && q.maxSendBytes < 25);
            OnLossDetectionTimeout(q, now, rtt, isServer)
            == q.(inFlight := [], probingLost := losses,
                  lastProbeLost := if counts then Some(lost) else q.lastProbeLost,
                  state := if fails then Failed else q.state, active := q.active && !fails,
                  challengeRequested := q.challengeRequested || !fails)
  {
    var lost := q.inFlight[0].sentAt;
    assert q.inFlight[0] in q.inFlight;
    AllLost(q.inFlight, now);
    assert FirstLost(q.inFlight, now) == Some(lost);
    hide NotLost, FirstLost;
    var s := q.(inFlight := []);
    assert OnLossDetectionTimeout(q, now, rtt, isServer) == FailOrRetry(CountLoss(s, lost, rtt), isServer);
    hide OnLossDetectionTimeout;
    CountEffect(s, lost, rtt);
    FailEffect(CountLoss(s, lost, rtt), isServer);
    hide CountLoss, FailOrRetry;
  }

  lemma CountEffect(s: Path, lost: nat, rtt: nat)
    requires s.lastProbeLost.Some? ==> s.lastProbeLost.value <= lost
    ensures var counts := s.lastProbeLost.None? || s.lastProbeLost.value + rtt <= lost;
            CountLoss(s, lost, rtt) == s.(probingLost := s.probingLost + (if counts then 1 else 0),
                                          lastProbeLost := if counts then Some(lost) else s.lastProbeLost)
  {
  }

  lemma FailEffect(s: Path, isServer: bool)
    ensures var fails := s.probingLost >= 3 || (isServer && s.maxSendBytes < 25);
            FailOrRetry(s, isServer) == s.(state := if fails then Failed else s.state, active := s.active && !fails,
                                           challengeRequested := s.challengeRequested || !fails)
  {
  }

  lemma IdleTimeout(q: Path, now: nat, rtt: nat, isServer: bool)
    requires q.inFlight == []
    ensures OnLossDetectionTimeout(q, now, rtt, isServer) == q
  {
  }

  // ---------- Counted losses, by the times of sending ----------

  /** When the oldest pending challenge was sent. */
  ghost function LostAt(calls: seq<Call>): Option<nat> {
    if exists i :: IsOldestPending(calls, i)
    then var i :| IsOldestPending(calls, i); Some(calls[i].now)
    else None
  }

  /** The losses since the last response, each sent at least one round trip after the previous
      counted one, and when the last counted one was sent. */
  ghost function Tally(calls: seq<Call>): (nat, Option<nat>) {
    if calls == [] then (0, None)
    else
      var before, last := calls[..|calls| - 1], calls[|calls| - 1];
      var (losses, previous) := Tally(before);
      match last
      case Response(_) => (0, previous)
      case LossTimeout(_, rtt, _) =>
        var lost := LostAt(before);
        if lost.Some? && (previous.None? || previous.value + rtt <= lost.value)
        then (losses + 1, Some(lost.value)) else (losses, previous)
      case _ => (losses, previous)
  }

  lemma LostAtIs(p: Path, calls: seq<Call>)
    requires p.inFlight == [] && IsRun(p, calls)
    ensures var cs := After(p, calls).inFlight;
            && (cs == [] <==> forall i :: !PendingAt(calls, i))
            && LostAt(calls) == if cs == [] then None else Some(cs[0].sentAt)
  {
    InFlightIs(p, calls);
    IndicesMeaning(calls);
    var ks := Indices(calls);
    if ks != [] {
      assert ks[0] in ks;
      assert IsOldestPending(calls, ks[0]) by {
        forall j | PendingAt(calls, j) ensures ks[0] <= j {
          assert j in ks;
        }
      }
    } else {
      assert forall i :: PendingAt(calls, i) ==> i in ks;
    }
    hide PendingAt, Indices, After, IsRun;
  }

  /** A path on which nothing has happened yet. */
  ghost predicate Fresh(p: Path) {
    p.inFlight == [] && p.probingLost == 0 && p.lastProbeLost.None? && p.maxChallengeSize == 0
  }

  /** The loss counter is the tally, and no pending challenge is older than the last counted loss. */
  ghost predicate Counted(q: Path, tally: (nat, Option<nat>), clock: nat) {
    && q.probingLost == tally.0 && q.lastProbeLost == tally.1
    && (tally.1.Some? ==> tally.1.value <= clock && forall c :: c in q.inFlight ==> tally.1.value <= c.sentAt)
  }

  lemma {:induction false} TallyIs(p: Path, calls: seq<Call>)
    requires Fresh(p) && IsRun(p, calls)
    ensures Counted(After(p, calls), Tally(calls), Clock(calls))
  {
    if calls != [] {
      var before, last := calls[..|calls| - 1], calls[|calls| - 1];
      TallyIs(p, before);
      SentByNow(p, before);
      LostAtIs(p, before);
      hide LostAt, Step;
      TallyStep(After(p, before), last, Tally(before), Clock(before), LostAt(before));
    }
  }

  lemma TallyStep(q: Path, c: Call, tally: (nat, Option<nat>), clock: nat, lost: Option<nat>)
    requires Counted(q, tally, clock) && forall x :: x in q.inFlight ==> x.sentAt <= clock
    requires c.ChallengeSent? || c.LossTimeout? ==> clock <= c.now
    requires lost == if q.inFlight == [] then None else Some(q.inFlight[0].sentAt)
    ensures var counts := c.LossTimeout? && lost.Some? && (tally.1.None? || tally.1.value + c.rtt <= lost.value);
            Counted(Step(q, c), (if c.Response? then 0 else if counts then tally.0 + 1 else tally.0,
                                 if counts then lost else tally.1),
                    if c.ChallengeSent? || c.LossTimeout? then c.now else clock)
  {
    hide OnResponseReceived, OnLossDetectionTimeout;
    match c
    case LossTimeout(now, rtt, isServer) =>
      if q.inFlight == [] {
        IdleTimeout(q, now, rtt, isServer);
      } else {
        assert q.inFlight[0] in q.inFlight;
        TimeoutEffect(q, now, rtt, isServer);
      }
    case Response(data) =>
      hide Unanswered;
      UnansweredMembers(q.inFlight, data);
      ResponseInFlight(q, data);
      ResponseCounters(q, data);
    case _ =>
  }

  lemma ResponseCounters(q: Path, data: Data)
    ensures var r := OnResponseReceived(q, data).0; r.probingLost == 0 && r.lastProbeLost == q.lastProbeLost
  {
    hide Answered, Concluded;
    AnsweredFields(q, data);
    ConcludedFields(Answered(q, data));
  }

  /** The main result on failures, over every run: a timeout with a pending challenge fails the path
      if and only if three losses have counted since the last response, or it is a server that may
      not send 25 bytes.  Otherwise the state stays and a challenge is requested.  A timeout
      without a pending challenge changes nothing. */
  lemma FailsIff(local: Addr, peer: Addr, receivedMax: nat, isInitial: bool, calls: seq<Call>,
                 now: nat, rtt: nat, isServer: bool)
    requires IsRun(NewPath(local, peer, receivedMax, isInitial), calls + [LossTimeout(now, rtt, isServer)])
    ensures var p, all := NewPath(local, peer, receivedMax, isInitial), calls + [LossTimeout(now, rtt, isServer)];
            IsRun(p, calls) && all[..|all| - 1] == calls &&
            var q, r := After(p, calls), After(p, all);
            if forall i :: !PendingAt(calls, i) then r == q
            else && !q.state.Failed?
                 && (r.state.Failed? <==> Tally(all).0 >= 3 || (isServer && q.maxSendBytes < 25))
                 && (r.state.Failed? ==> !r.active)
                 && (!r.state.Failed? ==> r.state == q.state && r.active == q.active && r.challengeRequested)
  {
    var p, c := NewPath(local, peer, receivedMax, isInitial), LossTimeout(now, rtt, isServer);
    var all := calls + [c];
    assert all[..|all| - 1] == calls && all[|all| - 1] == c;
    var q := After(p, calls);
    assert After(p, all) == Step(q, c);
    TallyIs(p, calls);
    TallyIs(p, all);
    SentByNow(p, calls);
    LostAtIs(p, calls);
    Paths.RunKeepsInv(p, calls);
    hide After, IsRun, Tally, PendingAt, OnLossDetectionTimeout, EchoedFullSize;
    if q.inFlight == [] {
      IdleTimeout(q, now, rtt, isServer);
    } else {
      assert q.inFlight[0] in q.inFlight;
      TimeoutEffect(q, now, rtt, isServer);
    }
  }

  // ---------- Validation, by the sizes of the echoed challenges ----------

  /** The size of the newest pending challenge with this data. */
  ghost function EchoedSize(calls: seq<Call>, data: Data): nat {
    if exists i :: IsNewestPending(calls, data, i)
    then var i :| IsNewestPending(calls, data, i); calls[i].size
    else 0
  }

  /** The largest challenge that was echoed. */
  ghost function LargestEcho(calls: seq<Call>): nat {
    if calls == [] then 0
    else
      var before, last := calls[..|calls| - 1], calls[|calls| - 1];
      if last.Response? then Larger(LargestEcho(before), EchoedSize(before, last.data)) else LargestEcho(before)
  }

  lemma {:induction false} AnsweredSizeIs(cs: seq<Challenge>, data: Data, k: int)
    requires -1 <= k < |cs| && (k >= 0 ==> cs[k].data == data)
    requires forall j :: k < j < |cs| ==> cs[j].data != data
    ensures AnsweredSize(cs, data) == if k < 0 then 0 else cs[k].size
    decreases |cs|
  {
    if cs != [] && k < |cs| - 1 {
      assert cs[..|cs| - 1] + [cs[|cs| - 1]] == cs;
      AnsweredSizeIs(cs[..|cs| - 1], data, k);
    }
  }

  lemma {:induction false} LastWith(calls: seq<Call>, ks: seq<nat>, data: Data) returns (k: int)
    requires Sent(calls, ks)
    ensures -1 <= k < |ks| && (k >= 0 ==> calls[ks[k]].data == data)
    ensures forall j :: k < j < |ks| ==> calls[ks[j]].data != data
    decreases |ks|
  {
    if ks == [] {
      k := -1;
    } else if calls[ks[|ks| - 1]].data == data {
      k := |ks| - 1;
    } else {
      k := LastWith(calls, ks[..|ks| - 1], data);
    }
  }

  lemma EchoedSizeIs(p: Path, calls: seq<Call>, data: Data)
    requires p.inFlight == [] && IsRun(p, calls)
    ensures AnsweredSize(After(p, calls).inFlight, data) == EchoedSize(calls, data)
  {
    hide PendingAt, Indices, AnsweredSize, EchoedSize, After, IsRun, Sorted;
    InFlightIs(p, calls);
    IndicesMeaning(calls);
    var ks := Indices(calls);
    var k := LastWith(calls, ks, data);
    AnsweredSizeIs(ChallengesOf(calls, ks), data, k);
    NewestIs(calls, ks, data, k);
    NewestSize(calls, data, if k >= 0 then ks[k] else -1);
  }

  lemma NewestSize(calls: seq<Call>, data: Data, k: int)
    requires -1 <= k < |calls| && (k >= 0 ==> calls[k].ChallengeSent? && IsNewestPending(calls, data, k))
    requires forall i :: IsNewestPending(calls, data, i) ==> k >= 0 && i == k
    ensures EchoedSize(calls, data) == if k >= 0 then calls[k].size else 0
  {
    hide IsNewestPending;
  }

  lemma NewestIs(calls: seq<Call>, ks: seq<nat>, data: Data, k: int)
    requires Sorted(ks) && Sent(calls, ks) && (forall i :: i in ks <==> PendingAt(calls, i))
    requires -1 <= k < |ks| && (k >= 0 ==> calls[ks[k]].data == data)
    requires forall j :: k < j < |ks| ==> calls[ks[j]].data != data
    ensures forall i :: IsNewestPending(calls, data, i) <==> k >= 0 && i == ks[k]
  {
    forall i | PendingAt(calls, i) && calls[i].data == data ensures k >= 0 && i <= ks[k] {
      var j :| 0 <= j < |ks| && ks[j] == i;
      assert j <= k;
    }
    if k >= 0 {
      assert ks[k] in ks;
      hide PendingAt;
      assert IsNewestPending(calls, data, ks[k]);
    }
  }

  lemma {:induction false} LargestEchoIs(p: Path, calls: seq<Call>)
    requires Fresh(p) && IsRun(p, calls)
    ensures After(p, calls).maxChallengeSize == LargestEcho(calls)
  {
    if calls != [] {
      var before, last := calls[..|calls| - 1], calls[|calls| - 1];
      LargestEchoIs(p, before);
      var q := After(p, before);
      match last
      case Response(data) =>
        EchoedSizeIs(p, before, data);
        AnsweredFields(q, data);
        ConcludedFields(Answered(q, data));
        hide Answered, Concluded, EchoedSize, AnsweredSize;
      case LossTimeout(now, rtt, isServer) =>
        TimeoutFields(q, now, rtt, isServer);
        hide OnLossDetectionTimeout;
      case _ =>
        hide OnResponseReceived, OnLossDetectionTimeout;
    }
  }

  /** The main result on validation, over every run: after a response a path is validated if and only
      if it was before, or a challenge of 1200 bytes has been echoed by now.  Otherwise the peer is
      known to be reachable and another challenge is requested. */
  lemma ValidatedIff(local: Addr, peer: Addr, receivedMax: nat, isInitial: bool, calls: seq<Call>, data: Data)
    requires IsRun(NewPath(local, peer, receivedMax, isInitial), calls + [Response(data)])
    ensures var p, all := NewPath(local, peer, receivedMax, isInitial), calls + [Response(data)];
            IsRun(p, calls) && all[..|all| - 1] == calls &&
            var q, r := After(p, calls), After(p, all);
            && (r.state.Validated? <==> q.state.Validated? || LargestEcho(all) >= 1200)
            && (!r.state.Validated? ==> r.state.ValidatingMTU? && r.challengeRequested)
            && r.probingLost == 0 && r.verifiedPeerAddress
            && (OnResponseReceived(q, data).1 <==> !q.state.Validated? && r.state.Validated?)
  {
    var p, all := NewPath(local, peer, receivedMax, isInitial), calls + [Response(data)];
    assert all[..|all| - 1] == calls && all[|all| - 1] == Response(data);
    LargestEchoIs(p, all);
    var q := After(p, calls);
    assert After(p, all) == OnResponseReceived(q, data).0;
    hide After, IsRun, LargestEcho;
    AnsweredFields(q, data);
    ConcludedAll(Answered(q, data));
    hide Answered, Concluded, AnsweredSize, Unanswered;
  }

  lemma ConcludedAll(q: Path)
    ensures var (r, validated) := Concluded(q);
            && (q.state.ValidatingMTU? && q.maxChallengeSize >= 1200 ==> r == q.(state := Validated) && validated)
            && (q.state.ValidatingMTU? && q.maxChallengeSize < 1200 ==>
                  r == q.(challengeRequested := true) && !validated)
            && (!q.state.ValidatingMTU? ==> r == q && !validated)
  {
  }

  // ---------- The other calls ----------

  /** Only the initial path can be used at once; any other is unused, without a destination ID. */
  lemma FreshPaths(local: Addr, peer: Addr, receivedMax: nat, isInitial: bool)
    ensures var p := NewPath(local, peer, receivedMax, isInitial);
            && Fresh(p) && (p.local, p.peer) == (local, peer) && !p.active && !p.challengeRequested
            && (p.state.Validated? <==> isInitial) && (!isInitial ==> p.state.Unknown?)
            && (p.Usable() <==> isInitial) && (p.Unused() <==> !isInitial) && (isInitial ==> p.dcidSeq == Some(0))
            && |p.received| == 0 && p.receivedMax == receivedMax
  {
  }

  /** Sending a challenge revives a failed path and starts the validation of an unknown one. */
  lemma ChallengeEffect(q: Path, data: Data, size: nat, now: nat)
    ensures AddChallengeSent(q, data, size, now)
         == q.(state := if q.state.Failed? || q.state.Unknown? then Validating else q.state,
               challengeRequested := false, inFlight := q.inFlight + [Challenge(data, size, now)])
  {
  }

  /** Over every run no more received challenges are queued than allowed, and the peer is known to
      have verified our address once one has been queued. */
  lemma {:induction false} ReceivedRuns(p: Path, calls: seq<Call>)
    requires |p.received| <= p.receivedMax && (p.received != [] ==> p.peerVerifiedLocalAddress)
    ensures var q := After(p, calls);
            && |q.received| <= q.receivedMax == p.receivedMax
            && (q.received != [] ==> q.peerVerifiedLocalAddress)
  {
    if calls != [] {
      var before, last := calls[..|calls| - 1], calls[|calls| - 1];
      ReceivedRuns(p, before);
      ReceivedStep(After(p, before), last);
      hide Step;
    }
  }

  /** A challenge is queued exactly when there is room. */
  lemma ReceivedStep(q: Path, c: Call)
    ensures var r := Step(q, c);
            && r.receivedMax == q.receivedMax
            && if c.ChallengeReceived? && |q.received| != q.receivedMax
               then r.received == q.received + [c.data] && r.peerVerifiedLocalAddress
               else && r.received == (if c.PopReceived? && q.received != [] then q.received[1..] else q.received)
                    && r.peerVerifiedLocalAddress == q.peerVerifiedLocalAddress
  {
    hide OnResponseReceived, OnLossDetectionTimeout;
    match c
    case Response(data) => ResponseReceived(q, data);
    case LossTimeout(now, rtt, isServer) => TimeoutFields(q, now, rtt, isServer);
    case _ =>
  }

  lemma ResponseReceived(q: Path, data: Data)
    ensures var r := OnResponseReceived(q, data).0;
            r.received == q.received && r.receivedMax == q.receivedMax
            && r.peerVerifiedLocalAddress == q.peerVerifiedLocalAddress
  {
    hide Answered, Concluded;
    AnsweredFields(q, data);
    ConcludedFields(Answered(q, data));
  }
}
