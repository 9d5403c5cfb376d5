/** Path validation: `Path` of quiche/src/path.rs and section 8.2 of RFC 9000.

    Times are instants of a monotone clock; the round-trip time is given with each timeout. */
module Paths {
  import opened Basics

  const MIN_CLIENT_INITIAL_LEN := 1200
  const MAX_PROBING_TIMEOUTS := 3
  const MIN_PROBING_SIZE := 25

  type Addr = nat

  type Data = nat

  datatype PathState = Failed | Unknown | Validating | ValidatingMTU | Validated {
    function Rank(): int {
      match this
      case Failed => -1
      case Unknown => 0
      case Validating => 1
      case ValidatingMTU => 2
      case Validated => 3
    }
  }

  datatype Challenge = Challenge(data: Data, size: nat, sentAt: nat)

  datatype Path = Path(
    local: Addr,
    peer: Addr,
    dcidSeq: Option<nat>,
    state: PathState,
    active: bool,
    inFlight: seq<Challenge>,
    maxChallengeSize: nat,
    probingLost: nat,
    lastProbeLost: Option<nat>,
    received: seq<Data>,
    receivedMax: nat,
    maxSendBytes: nat,
    verifiedPeerAddress: bool,
    peerVerifiedLocalAddress: bool,
    challengeRequested: bool,
    failureNotified: bool,
    migrating: bool)
  {
    predicate Working() { !state.Failed? }

    predicate Active() { active && Working() && dcidSeq.Some? }

    predicate Usable() { Active() || (state.Validated? && dcidSeq.Some?) }

    predicate Unused() { !Active() && dcidSeq.None? }

    predicate UnderValidation() { state.Validating? || state.ValidatingMTU? }

    /** Only ever moves up. */
    function PromoteTo(s: PathState): Path {
      if state.Rank() < s.Rank() then this.(state := s) else this
    }

    function HasPending(data: Data): bool {
      exists i :: 0 <= i < |inFlight| && inFlight[i].data == data
    }
  }

  function NewPath(local: Addr, peer: Addr, receivedMax: nat, isInitial: bool): Path {
    Path(local, peer, if isInitial then Some(0) else None, if isInitial then Validated else Unknown,
         false, [], 0, 0, None, [], receivedMax, 0, false, false, false, false, false)
  }

  function AddChallengeSent(p: Path, data: Data, size: nat, now: nat): Path {
    p.PromoteTo(Validating).(challengeRequested := false, inFlight := p.inFlight + [Challenge(data, size, now)])
  }

  function OnChallengeReceived(p: Path, data: Data): Path {
    if |p.received| == p.receivedMax then p
    else p.(received := p.received + [data], peerVerifiedLocalAddress := true)
  }

  /** The challenges with other data. */
  function Unanswered(cs: seq<Challenge>, data: Data): seq<Challenge> {
    if cs == [] then []
    else if cs[0].data == data then Unanswered(cs[1..], data)
    else [cs[0]] + Unanswered(cs[1..], data)
  }

  /** The size of the last challenge with this data, or zero. */
  function AnsweredSize(cs: seq<Challenge>, data: Data): nat {
    if cs == [] then 0
    else if cs[|cs| - 1].data == data then cs[|cs| - 1].size
    else AnsweredSize(cs[..|cs| - 1], data)
  }

  /** The peer is reachable, and the size of the answered challenge is noted. */
  function Answered(p: Path, data: Data): Path {
    var size := AnsweredSize(p.inFlight, data);
    p.(verifiedPeerAddress := true, probingLost := 0, inFlight := Unanswered(p.inFlight, data))
     .PromoteTo(ValidatingMTU)
     .(maxChallengeSize := if size > p.maxChallengeSize then size else p.maxChallengeSize)
  }

  /** A reachable path is validated if it carries full-sized packets, and probed again otherwise. */
  function Concluded(q: Path): (Path, bool) {
    if !q.state.ValidatingMTU? then (q, false)
    else if q.maxChallengeSize >= MIN_CLIENT_INITIAL_LEN then (q.PromoteTo(Validated), true)
    else (q.(challengeRequested := true), false)
  }

  /** Returns whether the path is now validated. */
  function OnResponseReceived(p: Path, data: Data): (Path, bool) {
    Concluded(Answered(p, data))
  }

  function OnFailedValidation(p: Path): Path {
    p.(state := Failed, active := false)
  }

  /** The challenges sent after `now`. */
  function NotLost(cs: seq<Challenge>, now: nat): seq<Challenge> {
    if cs == [] then []
    else if cs[0].sentAt <= now then NotLost(cs[1..], now)
    else [cs[0]] + NotLost(cs[1..], now)
  }

  /** When the first lost challenge had been sent. */
  function FirstLost(cs: seq<Challenge>, now: nat): Option<nat> {
    if cs == [] then None
    else if cs[0].sentAt <= now then Some(cs[0].sentAt)
    else FirstLost(cs[1..], now)
  }

  /** A loss counts if it is the first, or at least one round trip after the last counted. */
  predicate Counts(p: Path, lost: nat, rtt: nat) {
    p.lastProbeLost.None? || (if lost >= p.lastProbeLost.value then lost - p.lastProbeLost.value else 0) >= rtt
  }

  function CountLoss(p: Path, lost: nat, rtt: nat): Path {
    if Counts(p, lost, rtt)
    then p.(probingLost := p.probingLost + 1, lastProbeLost := Some(lost))
    else p
  }

  /** Gives up after too many losses, or at a server that may not send another challenge. */
  function FailOrRetry(p: Path, isServer: bool): Path {
    if p.probingLost >= MAX_PROBING_TIMEOUTS || (isServer && p.maxSendBytes < MIN_PROBING_SIZE)
    then OnFailedValidation(p)
    else p.(challengeRequested := true)
  }

  function OnLossDetectionTimeout(p: Path, now: nat, rtt: nat, isServer: bool): Path {
    var q := p.(inFlight := NotLost(p.inFlight, now));
    match FirstLost(p.inFlight, now)
    case None => q
    case Some(lost) => FailOrRetry(CountLoss(q, lost, rtt), isServer)
  }

  // ---------- Runs of one path ----------

  datatype Call =
    | ChallengeSent(data: Data, size: nat, now: nat)
    | ChallengeReceived(data: Data)
    | Response(data: Data)
    | LossTimeout(now: nat, rtt: nat, isServer: bool)
    | RequestValidation
    | PopReceived
    | SetMaxSendBytes(bytes: nat)
    | SetDcid(dcid: Option<nat>)

  function Step(p: Path, c: Call): Path {
    match c
    case ChallengeSent(data, size, now) => AddChallengeSent(p, data, size, now)
    case ChallengeReceived(data) => OnChallengeReceived(p, data)
    case Response(data) => OnResponseReceived(p, data).0
    case LossTimeout(now, rtt, isServer) => OnLossDetectionTimeout(p, now, rtt, isServer)
    case RequestValidation => p.(challengeRequested := true)
    case PopReceived => if p.received == [] then p else p.(received := p.received[1..])
    case SetMaxSendBytes(bytes) => p.(maxSendBytes := bytes)
    case SetDcid(dcid) => p.(dcidSeq := dcid)
  }

  /** The path after all calls, the last one being `calls[|calls| - 1]`. */
  function After(p: Path, calls: seq<Call>): Path {
    if calls == [] then p else Step(After(p, calls[..|calls| - 1]), calls[|calls| - 1])
  }

  /** The latest time that a call has mentioned. */
  function Clock(calls: seq<Call>): nat {
    if calls == [] then 0
    else
      var last := calls[|calls| - 1];
      if last.ChallengeSent? || last.LossTimeout? then last.now else Clock(calls[..|calls| - 1])
  }

  /** Time does not run backwards, and responses are passed on only for pending challenges. */
  ghost predicate IsRun(p: Path, calls: seq<Call>) {
    calls != [] ==>
      var before, last := calls[..|calls| - 1], calls[|calls| - 1];
      && IsRun(p, before)
      && (last.ChallengeSent? || last.LossTimeout? ==> Clock(before) <= last.now)
      && (last.Response? ==> After(p, before).HasPending(last.data))
  }

  /** Some response of the run echoed a challenge that filled a full-sized packet. */
  ghost predicate EchoedFullSize(p: Path, calls: seq<Call>) {
    exists i :: 0 <= i < |calls| && EchoesFullSize(After(p, calls[..i]), calls[i])
  }

  ghost predicate EchoesFullSize(p: Path, c: Call) {
    c.Response? && exists i :: 0 <= i < |p.inFlight| && p.inFlight[i].data == c.data
                               && p.inFlight[i].size >= MIN_CLIENT_INITIAL_LEN
  }

  /** Timeouts since the last response that lost a challenge a round trip after the last
      such loss. */
  function CountedLosses(p: Path, calls: seq<Call>): nat {
    if calls == [] then 0
    else
      var before, last := calls[..|calls| - 1], calls[|calls| - 1];
      if last.Response? then 0
      else if last.LossTimeout? && LosesCounted(After(p, before), last) then CountedLosses(p, before) + 1
      else CountedLosses(p, before)
  }

  predicate LosesCounted(p: Path, c: Call)
    requires c.LossTimeout?
  {
    var lost := FirstLost(p.inFlight, c.now);
    lost.Some? && Counts(p, lost.value, c.rtt)
  }

  lemma {:induction false} UnansweredMembers(cs: seq<Challenge>, data: Data)
    ensures forall c :: c in Unanswered(cs, data) ==> c in cs
  {
    if cs != [] {
      UnansweredMembers(cs[1..], data);
    }
  }

  lemma {:induction false} UnansweredSnoc(cs: seq<Challenge>, c: Challenge, data: Data)
    ensures Unanswered(cs + [c], data) == Unanswered(cs, data) + if c.data == data then [] else [c]
  {
    if cs != [] {
      assert (cs + [c])[1..] == cs[1..] + [c];
      UnansweredSnoc(cs[1..], c, data);
    }
  }

  lemma {:induction false} AnsweredSizeMeaning(cs: seq<Challenge>, data: Data)
    ensures AnsweredSize(cs, data) > 0 ==>
              exists i :: 0 <= i < |cs| && cs[i].data == data && cs[i].size == AnsweredSize(cs, data)
  {
    if cs != [] && cs[|cs| - 1].data != data {
      AnsweredSizeMeaning(cs[..|cs| - 1], data);
      if AnsweredSize(cs, data) > 0 {
        var front := cs[..|cs| - 1];
        var i :| 0 <= i < |front| && front[i].data == data && front[i].size == AnsweredSize(cs, data);
        assert cs[i].data == data;
      }
    }
  }

  /** A timeout no earlier than every challenge loses them all. */
  lemma {:induction false} AllLost(cs: seq<Challenge>, now: nat)
    requires forall c :: c in cs ==> c.sentAt <= now
    ensures NotLost(cs, now) == []
    ensures FirstLost(cs, now).None? <==> cs == []
  {
    if cs != [] {
      AllLost(cs[1..], now);
    }
  }

  lemma {:induction false} NotLostMembers(cs: seq<Challenge>, now: nat)
    ensures forall c :: c in NotLost(cs, now) ==> c in cs
  {
    if cs != [] {
      NotLostMembers(cs[1..], now);
    }
  }

  /** What holds of a path in terms of its history: the clock, the counted losses since the
      last response, and whether a full-sized challenge has been echoed. */
  ghost predicate PathInv(q: Path, clock: nat, losses: nat, echoed: bool, startedValidated: bool) {
    && (forall c :: c in q.inFlight ==> c.sentAt <= clock)
    && (q.state.Failed? ==> q.inFlight == [])
    && q.probingLost == losses
    && (q.maxChallengeSize >= MIN_CLIENT_INITIAL_LEN ==> echoed)
    && (q.state.Validated? ==> startedValidated || echoed)
  }

  lemma EchoedPrefix(p: Path, calls: seq<Call>)
    requires calls != [] && EchoedFullSize(p, calls[..|calls| - 1])
    ensures EchoedFullSize(p, calls)
  {
    hide EchoesFullSize;
    var before := calls[..|calls| - 1];
    var i :| 0 <= i < |before| && EchoesFullSize(After(p, before[..i]), before[i]);
    assert before[..i] == calls[..i] && before[i] == calls[i];
  }

  /** A response that pushes the recorded size over the limit echoes a full-sized challenge. */
  lemma ResponseEchoes(q: Path, data: Data)
    requires q.maxChallengeSize < MIN_CLIENT_INITIAL_LEN <= AnsweredSize(q.inFlight, data)
    ensures EchoesFullSize(q, Response(data))
  {
    AnsweredSizeMeaning(q.inFlight, data);
  }

  lemma ResponseKeepsInv(q: Path, data: Data, clock: nat, losses: nat, echoed: bool, v: bool)
    requires PathInv(q, clock, losses, echoed, v) && q.HasPending(data)
    ensures PathInv(OnResponseReceived(q, data).0, clock, 0, echoed || EchoesFullSize(q, Response(data)), v)
  {
    hide EchoesFullSize, Answered, Concluded, Unanswered, AnsweredSize;
    UnansweredMembers(q.inFlight, data);
    AnsweredFields(q, data);
    ConcludedFields(Answered(q, data));
    if q.maxChallengeSize < MIN_CLIENT_INITIAL_LEN <= AnsweredSize(q.inFlight, data) {
      ResponseEchoes(q, data);
    }
  }

  lemma AnsweredFields(p: Path, data: Data)
    ensures var q := Answered(p, data);
            && q == p.(verifiedPeerAddress := true, probingLost := 0, inFlight := Unanswered(p.inFlight, data),
                       state := q.state, maxChallengeSize := q.maxChallengeSize)
            && q.state == (if p.state.Validated? then Validated else ValidatingMTU)
            && q.maxChallengeSize == Larger(p.maxChallengeSize, AnsweredSize(p.inFlight, data))
  {
    hide Unanswered, AnsweredSize;
  }

  function Larger(a: nat, b: nat): nat { if b > a then b else a }

  lemma ConcludedFields(q: Path)
    ensures var (r, validated) := Concluded(q);
            && r == q.(state := r.state, challengeRequested := r.challengeRequested)
            && (validated <==> q.state.ValidatingMTU? && q.maxChallengeSize >= MIN_CLIENT_INITIAL_LEN)
            && r.state == if validated then Validated else q.state
  {
    if q.state.ValidatingMTU? && q.maxChallengeSize >= MIN_CLIENT_INITIAL_LEN {
      assert q.PromoteTo(Validated) == q.(state := Validated);
    }
  }

  lemma TimeoutKeepsInv(q: Path, now: nat, rtt: nat, isServer: bool, clock: nat, losses: nat, echoed: bool, v: bool)
    requires PathInv(q, clock, losses, echoed, v) && clock <= now
    ensures var counted := LosesCounted(q, LossTimeout(now, rtt, isServer));
            PathInv(OnLossDetectionTimeout(q, now, rtt, isServer), now, if counted then losses + 1 else losses,
                    echoed, v)
  {
    hide OnLossDetectionTimeout, Counts, NotLost, FirstLost;
    AllLost(q.inFlight, now);
    TimeoutFields(q, now, rtt, isServer);
  }

  /** The fields after a timeout. */
  lemma TimeoutFields(q: Path, now: nat, rtt: nat, isServer: bool)
    ensures var r := OnLossDetectionTimeout(q, now, rtt, isServer);
            && r == q.(inFlight := NotLost(q.inFlight, now), probingLost := r.probingLost,
                       lastProbeLost := r.lastProbeLost, state := r.state, active := r.active,
                       challengeRequested := r.challengeRequested)
            && r.probingLost == q.probingLost + (if LosesCounted(q, LossTimeout(now, rtt, isServer)) then 1 else 0)
            && ((r.state == q.state && r.active == q.active) || (r.state.Failed? && !r.active))
  {
    hide NotLost, FirstLost, Counts, FailOrRetry, CountLoss;
    match FirstLost(q.inFlight, now)
    case None =>
    case Some(lost) =>
      var s := q.(inFlight := NotLost(q.inFlight, now));
      assert Counts(s, lost, rtt) <==> Counts(q, lost, rtt) by { CountsSame(s, q, lost, rtt); }
      CountLossFields(s, lost, rtt);
      FailOrRetryFields(CountLoss(s, lost, rtt), isServer);
  }

  lemma CountsSame(s: Path, q: Path, lost: nat, rtt: nat)
    requires s.lastProbeLost == q.lastProbeLost
    ensures Counts(s, lost, rtt) <==> Counts(q, lost, rtt)
  {
  }

  lemma CountLossFields(p: Path, lost: nat, rtt: nat)
    ensures var c := CountLoss(p, lost, rtt);
            && c == p.(probingLost := c.probingLost, lastProbeLost := c.lastProbeLost)
            && c.probingLost == p.probingLost + (if Counts(p, lost, rtt) then 1 else 0)
  {
    hide Counts;
  }

  lemma FailOrRetryFields(p: Path, isServer: bool)
    ensures var r := FailOrRetry(p, isServer);
            && r == p.(state := r.state, active := r.active, challengeRequested := r.challengeRequested)
            && ((r.state == p.state && r.active == p.active) || (r.state.Failed? && !r.active))
  {
  }

  /** The fields after a response. */
  lemma ResponseFields(q: Path, data: Data)
    ensures var r := OnResponseReceived(q, data).0;
            && r.local == q.local && r.peer == q.peer && r.migrating == q.migrating && r.dcidSeq == q.dcidSeq
            && r.active == q.active && !r.state.Failed?
    ensures OnResponseReceived(q, data).1 ==> OnResponseReceived(q, data).0.state.Validated?
  {
    hide Answered, Concluded;
    AnsweredFields(q, data);
    ConcludedFields(Answered(q, data));
  }

  lemma StepKeepsInv(q: Path, c: Call, clock: nat, losses: nat, echoed: bool, v: bool)
    requires PathInv(q, clock, losses, echoed, v)
    requires c.ChallengeSent? || c.LossTimeout? ==> clock <= c.now
    requires c.Response? ==> q.HasPending(c.data)
    ensures PathInv(Step(q, c), if c.ChallengeSent? || c.LossTimeout? then c.now else clock,
                    if c.Response? then 0 else if c.LossTimeout? && LosesCounted(q, c) then losses + 1 else losses,
                    echoed || EchoesFullSize(q, c), v)
  {
    hide EchoesFullSize, OnResponseReceived, OnLossDetectionTimeout, LosesCounted;
    match c {
      case Response(data) => ResponseKeepsInv(q, data, clock, losses, echoed, v);
      case LossTimeout(now, rtt, isServer) => TimeoutKeepsInv(q, now, rtt, isServer, clock, losses, echoed, v);
      case _ =>
    }
  }

  lemma {:induction false} RunKeepsInv(p: Path, calls: seq<Call>)
    requires p.inFlight == [] && p.probingLost == 0 && p.maxChallengeSize == 0 && IsRun(p, calls)
    ensures PathInv(After(p, calls), Clock(calls), CountedLosses(p, calls), EchoedFullSize(p, calls),
                    p.state.Validated?)
    decreases |calls|
  {
    hide Step, EchoesFullSize, LosesCounted;
    if calls != [] {
      var before, last := calls[..|calls| - 1], calls[|calls| - 1];
      RunKeepsInv(p, before);
      StepKeepsInv(After(p, before), last, Clock(before), CountedLosses(p, before), EchoedFullSize(p, before),
                   p.state.Validated?);
      if EchoedFullSize(p, before) {
        EchoedPrefix(p, calls);
      }
    }
  }

  /** The main result on one path, over every run: a failed path has nothing in flight; a
      path that did not start validated is validated only after a full-sized challenge was
      echoed; and the loss counter is exactly the counted losses since the last response. */
  lemma PathRuns(local: Addr, peer: Addr, receivedMax: nat, isInitial: bool, calls: seq<Call>)
    requires var p := NewPath(local, peer, receivedMax, isInitial); IsRun(p, calls)
    ensures var p := NewPath(local, peer, receivedMax, isInitial);
            var q := After(p, calls);
            && (q.state.Failed? ==> q.inFlight == [])
            && (q.state.Validated? && !isInitial ==> EchoedFullSize(p, calls))
            && q.probingLost == CountedLosses(p, calls)
  {
    RunKeepsInv(NewPath(local, peer, receivedMax, isInitial), calls);
  }

  /** A path fails only at a timeout: after the allowed number of counted losses since the
      last response, or at a server that may not send enough for another challenge.  It
      leaves the failed state only through a new challenge. */
  lemma FailureAndRecovery(p: Path, calls: seq<Call>, c: Call)
    requires p.inFlight == [] && p.probingLost == 0 && p.maxChallengeSize == 0 && IsRun(p, calls + [c])
    ensures var q := After(p, calls);
            var r := After(p, calls + [c]);
            && (!q.state.Failed? && r.state.Failed? ==>
                  && c.LossTimeout?
                  && (CountedLosses(p, calls + [c]) >= MAX_PROBING_TIMEOUTS
                      || (c.isServer && q.maxSendBytes < MIN_PROBING_SIZE)))
            && (q.state.Failed? && !r.state.Failed? ==> c.ChallengeSent?)
  {
    var all := calls + [c];
    assert all[..|all| - 1] == calls && all[|all| - 1] == c;
    RunKeepsInv(p, calls);
    RunKeepsInv(p, all);
    assert After(p, all) == Step(After(p, calls), c);
    StateChange(After(p, calls), c);
    hide Step, EchoedFullSize;
  }

  lemma StateChange(q: Path, c: Call)
    requires q.state.Failed? ==> q.inFlight == []
    ensures !q.state.Failed? && Step(q, c).state.Failed? ==>
              c.LossTimeout? && (Step(q, c).probingLost >= MAX_PROBING_TIMEOUTS
                                 || (c.isServer && q.maxSendBytes < MIN_PROBING_SIZE))
    ensures q.state.Failed? && !Step(q, c).state.Failed? && (c.Response? ==> q.HasPending(c.data)) ==> c.ChallengeSent?
  {
    hide OnResponseReceived, OnLossDetectionTimeout;
    if c.Response? {
      ResponseFields(q, c.data);
    } else if c.LossTimeout? {
      TimeoutFails(q, c.now, c.rtt, c.isServer);
    }
  }

  lemma TimeoutFails(q: Path, now: nat, rtt: nat, isServer: bool)
    requires q.state.Failed? ==> q.inFlight == []
    ensures var r := OnLossDetectionTimeout(q, now, rtt, isServer);
            && (!q.state.Failed? && r.state.Failed? ==>
                  r.probingLost >= MAX_PROBING_TIMEOUTS || (isServer && q.maxSendBytes < MIN_PROBING_SIZE))
            && (q.state.Failed? ==> r.state.Failed?)
  {
    hide Counts, NotLost, CountLoss;
    match FirstLost(q.inFlight, now)
    case None =>
    case Some(lost) => CountLossFields(q.(inFlight := NotLost(q.inFlight, now)), lost, rtt);
  }
}
