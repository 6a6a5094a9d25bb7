/** The scan and session-timeout protocol as a state machine. A step is one critical section or one event of the
    I/O service; the send, receive and timer handlers and any number of Scan calls interleave freely.

    A timer knows its deadline and how many waits are pending on it. Moving the deadline or destroying the timer
    completes the pending waits as aborted; a pending wait may complete as expired once the deadline has come, or
    with some other error at any time. Completions are queued until their handler runs. */
module ScanProtocol {
  import opened Common
  import opened IcmpHeader
  import PingPacket

  type Id = seq<uint8>  // a session id, as printed

  const TIMEOUT: nat := 40

  // ---------- the address range ----------

  function Pow2(n: nat): (p: nat)
    ensures p >= 1
  {
    if n == 0 then 1 else 2 * Pow2(n - 1)
  }

  /** Bitwise or of the low `bits` bits. */
  function BitOr(a: nat, b: nat, bits: nat): nat {
    if bits == 0 then 0 else 2 * BitOr(a / 2, b / 2, bits - 1) + if a % 2 == 1 || b % 2 == 1 then 1 else 0
  }

  lemma {:induction false} BitOrBounds(a: nat, b: nat, bits: nat)
    requires a < Pow2(bits)
    ensures a <= BitOr(a, b, bits) < Pow2(bits)
  {
    if bits > 0 { BitOrBounds(a / 2, b / 2, bits - 1); }
  }

  /** The last address of a scan: the network address with the bits outside the mask set. */
  function LastAddress(network: nat, netmask: nat): nat
    requires netmask < TWO32
  {
    BitOr(network, 0xFFFF_FFFF - netmask, 32)
  }

  lemma Pow2Of32()
    ensures Pow2(32) == TWO32
  {
    assert Pow2(8) == 0x100;
    assert Pow2(16) == 0x1_0000;
    assert Pow2(24) == 0x100_0000;
  }

  /** The guard against a final address below the network address never fires, and the range stays in 32 bits. */
  lemma RangeIsProper(network: nat, netmask: nat)
    requires network < TWO32 && netmask < TWO32
    ensures network <= LastAddress(network, netmask) < TWO32
  {
    Pow2Of32();
    BitOrBounds(network, 0xFFFF_FFFF - netmask, 32);
  }

  /** `a` with its low `k` bits cleared. */
  function ClearLow(a: nat, k: nat): nat {
    if k == 0 then a else 2 * ClearLow(a / 2, k - 1)
  }

  lemma {:induction false} BitOrZero(a: nat, bits: nat)
    requires a < Pow2(bits)
    ensures BitOr(a, 0, bits) == a
  {
    if bits > 0 { BitOrZero(a / 2, bits - 1); }
  }

  lemma {:induction false} BitOrLowOnes(a: nat, k: nat, bits: nat)
    requires a < Pow2(bits) && k <= bits
    ensures BitOr(a, Pow2(k) - 1, bits) == ClearLow(a, k) + Pow2(k) - 1
  {
    if k == 0 {
      BitOrZero(a, bits);
    } else {
      BitOrLowOnes(a / 2, k - 1, bits - 1);
      assert (Pow2(k) - 1) / 2 == Pow2(k - 1) - 1 && (Pow2(k) - 1) % 2 == 1;
    }
  }

  lemma {:induction false} Pow2Monotone(a: nat, b: nat)
    requires a <= b
    ensures Pow2(a) <= Pow2(b)
  {
    if a < b { Pow2Monotone(a, b - 1); }
  }

  /** With a mask of 32 - k leading ones the last address is the broadcast address of the subnet. */
  lemma LastAddressIsBroadcast(network: nat, k: nat)
    requires network < TWO32 && k <= 32
    ensures Pow2(k) <= TWO32
    ensures LastAddress(network, TWO32 - Pow2(k)) == ClearLow(network, k) + Pow2(k) - 1
  {
    Pow2Of32();
    Pow2Monotone(k, 32);
    BitOrLowOnes(network, k, 32);
  }

  // ---------- the state ----------

  /** How a wait on a timer ends. */
  datatype WaitResult = Expired | Aborted | Failed

  /** A timer completion whose handler has yet to run. */
  datatype Completion = Completion(id: Id, result: WaitResult)

  /** A registered session: the deadline of its timer and the waits pending on it. */
  datatype Session = Session(deadline: int, waiting: nat)

  /** Where the chain of echo requests of a scan stands. */
  datatype Phase =
    | Requesting(next: nat)  // EchoRequest is about to look up the session
    | Granted(next: nat)     // the session was there; the packet is about to be sent
    | InFlight(at: nat)      // the send has not completed
    | Done
    | SendFailed
    | NoSession

  /** A scan: its range, the `lastEndpoint` argument (0 for a single address) and the addresses sent so far. */
  datatype Chain = Chain(first: nat, last: nat, lastEndpoint: nat, phase: Phase, sent: seq<nat>)

  /** `refreshed` and `erasedAt` record the clock at the latest send or reply and at the erasure of a session;
      `orphaned` holds the sessions whose wait ended with an error. */
  datatype State = State(now: int, icmpId: uint16, sessions: map<Id, Session>, queued: multiset<Completion>,
                         chains: map<Id, Chain>, refreshed: map<Id, int>, erasedAt: map<Id, int>, orphaned: set<Id>)

  function Init(now: int, icmpId: uint16): State {
    State(now, icmpId, map[], multiset{}, map[], map[], map[], {})
  }

  function Add(q: multiset<Completion>, id: Id, result: WaitResult, n: nat): multiset<Completion> {
    var c := Completion(id, result);
    q[c := q[c] + n]
  }

  /** expires_from_now: pending waits are cancelled. */
  function Refresh(s: State, id: Id): State
    requires id in s.sessions
  {
    s.(sessions := s.sessions[id := Session(s.now + TIMEOUT, 0)],
       queued := Add(s.queued, id, Aborted, s.sessions[id].waiting),
       refreshed := s.refreshed[id := s.now])
  }

  /** async_wait. */
  function Wait(s: State, id: Id): State
    requires id in s.sessions
  {
    s.(sessions := s.sessions[id := s.sessions[id].(waiting := s.sessions[id].waiting + 1)])
  }

  /** Erasing a session destroys its timer, which aborts pending waits. */
  function Erase(s: State, id: Id): State
    requires id in s.sessions
  {
    s.(sessions := s.sessions - {id}, queued := Add(s.queued, id, Aborted, s.sessions[id].waiting), erasedAt := s.erasedAt[id := s.now])
  }

  /** The I/O service takes a completion from its queue. */
  function Take(s: State, c: Completion): State
    requires c in s.queued
  {
    s.(queued := s.queued[c := s.queued[c] - 1])
  }

  function SetPhase(s: State, id: Id, phase: Phase): State
    requires id in s.chains
  {
    s.(chains := s.chains[id := s.chains[id].(phase := phase)])
  }

  // ---------- the steps ----------

  datatype Step =
    | Tick(clock: int)                               // the wall clock changes, in either direction
    | Register(id: Id, network: nat, netmask: nat)   // Scan, up to the release of the mutex
    | EchoLookup(id: Id)                             // EchoRequest, up to the release of the mutex
    | EchoSend(id: Id)                               // EchoRequest, the rest
    | SendDone(id: Id, ok: bool)                     // HandleSend
    | Receive(ok: bool, datagram: seq<uint8>)        // HandleReceive
    | WaitEnds(id: Id, result: WaitResult)           // the timer service ends a pending wait
    | Timeout(completion: Completion)                // HandleSessionTimeout

  predicate Enabled(s: State, step: Step) {
    match step
    case Tick(_) => true
    case Register(id, network, netmask) =>  // ids are unique, not empty, and print without white space
      id !in s.chains && PingPacket.SessionText(id) && network < TWO32 && netmask < TWO32
    case EchoLookup(id) => id in s.chains && s.chains[id].phase.Requesting?
    case EchoSend(id) => id in s.chains && s.chains[id].phase.Granted?
    case SendDone(id, _) => id in s.chains && s.chains[id].phase.InFlight?
    case Receive(_, _) => true
    case WaitEnds(id, result) =>
      id in s.sessions && s.sessions[id].waiting > 0
      && ((result.Expired? && s.sessions[id].deadline <= s.now) || result.Failed?)
    case Timeout(c) => c in s.queued
  }

  /** The session a datagram is a reply for, if it is an echo reply to this process. */
  function ReplyFor(icmpId: uint16, datagram: seq<uint8>): Option<Id> {
    match PingPacket.ParseReply(datagram)
    case None => None
    case Some(reply) =>
      if reply.icmp[0] == ECHO_REPLY && Decode(reply.icmp, 4, 5) == icmpId then Some(reply.text) else None
  }

  function Next(s: State, step: Step): State
    requires Enabled(s, step)
  {
    match step
    case Tick(clock) => s.(now := clock)
    case Register(id, network, netmask) =>
      var last := LastAddress(network, netmask);
      s.(sessions := s.sessions[id := Session(s.now + TIMEOUT, 1)],
         chains := s.chains[id := Chain(network, last, if network != last then last else 0, Requesting(network), [])],
         refreshed := s.refreshed[id := s.now])
    case EchoLookup(id) =>
      if id in s.sessions then SetPhase(Refresh(s, id), id, Granted(s.chains[id].phase.next)) else SetPhase(s, id, NoSession)
    case EchoSend(id) =>
      var c := s.chains[id];
      s.(chains := s.chains[id := c.(phase := InFlight(c.phase.next), sent := c.sent + [c.phase.next])])
    case SendDone(id, ok) =>
      var c := s.chains[id];
      SetPhase(s, id, if !ok then SendFailed
                      else if c.lastEndpoint != 0 && c.lastEndpoint > c.phase.at then Requesting(c.phase.at + 1)
                      else Done)
    case Receive(ok, datagram) =>
      var id := ReplyFor(s.icmpId, datagram);
      if ok && id.Some? && id.value in s.sessions then Refresh(s, id.value) else s
    case WaitEnds(id, result) =>
      var session := s.sessions[id];
      s.(sessions := s.sessions[id := session.(waiting := session.waiting - 1)], queued := Add(s.queued, id, result, 1))
    case Timeout(c) =>
      var taken := Take(s, c);
      if c.result.Failed? then taken.(orphaned := if c.id in s.sessions then s.orphaned + {c.id} else s.orphaned)
      else if c.id !in s.sessions then taken
      else if s.sessions[c.id].deadline <= s.now then Erase(taken, c.id)
      else Wait(taken, c.id)
  }

  /** A run: steps that are not enabled when their turn comes do nothing. */
  function Run(s: State, steps: seq<Step>): State
    decreases |steps|
  {
    if steps == [] then s
    else Run(if Enabled(s, steps[0]) then Next(s, steps[0]) else s, steps[1..])
  }

  // ---------- the invariant ----------

  function QueuedFor(q: multiset<Completion>, id: Id): nat {
    q[Completion(id, Expired)] + q[Completion(id, Aborted)] + q[Completion(id, Failed)]
  }

  /** Waits pending on the timer of a session and completions whose handler has yet to run. */
  function Outstanding(s: State, id: Id): nat {
    QueuedFor(s.queued, id) + if id in s.sessions then s.sessions[id].waiting else 0
  }

  /** A registered session has exactly one outstanding timeout completion (none once its wait has failed), and its
      deadline is that of its latest send or reply. An erased one has none, and its deadline had come. */
  ghost predicate SessionOk(s: State, id: Id) {
    && (id in s.sessions ==>
          && id in s.chains && id in s.refreshed && id !in s.erasedAt
          && s.sessions[id].deadline == s.refreshed[id] + TIMEOUT
          && Outstanding(s, id) == if id in s.orphaned then 0 else 1)
    && (id !in s.sessions ==> Outstanding(s, id) == 0 && id !in s.orphaned)
    && (id in s.erasedAt ==> id in s.refreshed && s.erasedAt[id] >= s.refreshed[id] + TIMEOUT)
    && (id in s.chains <==> id in s.sessions || id in s.erasedAt)
  }

  /** The addresses sent are an ascending prefix without gaps of the range of the scan, and the request at hand
      is the next one. */
  ghost predicate ChainOk(c: Chain) {
    && c.first <= c.last < TWO32
    && c.lastEndpoint == (if c.first != c.last then c.last else 0)
    && |c.sent| <= c.last - c.first + 1
    && (forall k :: 0 <= k < |c.sent| ==> c.sent[k] == c.first + k)
    && match c.phase
       case Requesting(e) => e == c.first + |c.sent| <= c.last
       case Granted(e) => e == c.first + |c.sent| <= c.last
       case InFlight(e) => |c.sent| > 0 && e == c.first + |c.sent| - 1
       case Done => |c.sent| == c.last - c.first + 1
       case SendFailed => |c.sent| > 0
       case NoSession => true
  }

  ghost predicate Inv(s: State) {
    && (forall id: Id :: SessionOk(s, id))
    && (forall id :: id in s.chains ==> ChainOk(s.chains[id]) && (s.chains[id].phase.NoSession? ==> id !in s.sessions))
  }

  /** Two states agree on everything about a session. */
  ghost predicate SameAt(s: State, t: State, id: Id) {
    && (id in t.sessions <==> id in s.sessions) && (id in s.sessions ==> t.sessions[id] == s.sessions[id])
    && (id in t.chains <==> id in s.chains) && (id in s.chains ==> t.chains[id] == s.chains[id])
    && (id in t.refreshed <==> id in s.refreshed) && (id in s.refreshed ==> t.refreshed[id] == s.refreshed[id])
    && (id in t.erasedAt <==> id in s.erasedAt) && (id in s.erasedAt ==> t.erasedAt[id] == s.erasedAt[id])
    && (id in t.orphaned <==> id in s.orphaned)
    && t.queued[Completion(id, Expired)] == s.queued[Completion(id, Expired)]
    && t.queued[Completion(id, Aborted)] == s.queued[Completion(id, Aborted)]
    && t.queued[Completion(id, Failed)] == s.queued[Completion(id, Failed)]
  }

  function Concerns(s: State, step: Step): Id {
    match step
    case Tick(_) => []
    case Register(id, _, _) => id
    case EchoLookup(id) => id
    case EchoSend(id) => id
    case SendDone(id, _) => id
    case Receive(_, datagram) => if ReplyFor(s.icmpId, datagram).Some? then ReplyFor(s.icmpId, datagram).value else []
    case WaitEnds(id, _) => id
    case Timeout(c) => c.id
  }

  lemma RefreshTouchesOne(s: State, id: Id, other: Id)
    requires id in s.sessions && other != id
    ensures SameAt(s, Refresh(s, id), other)
  {
  }

  lemma EraseTouchesOne(s: State, id: Id, other: Id)
    requires id in s.sessions && other != id
    ensures SameAt(s, Erase(s, id), other)
  {
  }

  lemma TimeoutTouchesOne(s: State, c: Completion, other: Id)
    requires c in s.queued && other != c.id
    ensures SameAt(s, Next(s, Timeout(c)), other)
  {
    var taken := Take(s, c);
    assert SameAt(s, taken, other);
    if c.id in s.sessions { EraseTouchesOne(taken, c.id, other); }
  }

  /** A step concerns one session. */
  lemma StepTouchesOne(s: State, step: Step, other: Id)
    requires Enabled(s, step) && other != Concerns(s, step)
    ensures SameAt(s, Next(s, step), other)
  {
    match step
    case EchoLookup(id) => if id in s.sessions { RefreshTouchesOne(s, id, other); }
    case Receive(_, _) =>
      var id := Concerns(s, step);
      if id in s.sessions { RefreshTouchesOne(s, id, other); }
    case Timeout(c) => TimeoutTouchesOne(s, c, other);
    case _ =>
  }

  lemma StepKeepsInv(s: State, step: Step)
    requires Inv(s) && Enabled(s, step)
    ensures Inv(Next(s, step))
  {
    var t, id := Next(s, step), Concerns(s, step);
    assert SessionOk(s, id);
    StepKeepsSession(s, step);
    StepKeepsChain(s, step);
    forall other: Id ensures SessionOk(t, other) {
      if other != id {
        StepTouchesOne(s, step, other);
        assert SessionOk(s, other);
      }
    }
    forall other | other in t.chains ensures ChainOk(t.chains[other]) && (t.chains[other].phase.NoSession? ==> other !in t.sessions) {
      if other != id { StepTouchesOne(s, step, other); }
    }
  }

  lemma RefreshKeepsSession(s: State, id: Id)
    requires SessionOk(s, id) && id in s.sessions
    ensures SessionOk(Refresh(s, id), id)
  {
  }

  lemma TimeoutKeepsSession(s: State, c: Completion)
    requires SessionOk(s, c.id) && c in s.queued
    ensures SessionOk(Next(s, Timeout(c)), c.id)
  {
  }

  lemma StepKeepsSession(s: State, step: Step)
    requires Enabled(s, step) && SessionOk(s, Concerns(s, step))
    ensures SessionOk(Next(s, step), Concerns(s, step))
  {
    match step
    case EchoLookup(id) => if id in s.sessions { RefreshKeepsSession(s, id); }
    case Receive(_, _) =>
      var id := Concerns(s, step);
      if id in s.sessions { RefreshKeepsSession(s, id); }
    case Timeout(c) => TimeoutKeepsSession(s, c);
    case _ =>
  }

  lemma StepKeepsChain(s: State, step: Step)
    requires Inv(s) && Enabled(s, step)
    ensures var t, id := Next(s, step), Concerns(s, step);
            id in t.chains ==> ChainOk(t.chains[id]) && (t.chains[id].phase.NoSession? ==> id !in t.sessions)
  {
    var id := Concerns(s, step);
    assert SessionOk(s, id);
    if step.Register? { RangeIsProper(step.network, step.netmask); }
  }

  // ---------- every run ----------

  lemma {:induction false} RunKeepsInv(s: State, steps: seq<Step>)
    requires Inv(s)
    ensures Inv(Run(s, steps))
    decreases |steps|
  {
    if steps != [] {
      if Enabled(s, steps[0]) {
        StepKeepsInv(s, steps[0]);
        RunKeepsInv(Next(s, steps[0]), steps[1..]);
      } else {
        RunKeepsInv(s, steps[1..]);
      }
    }
  }

  /** In every interleaving: one outstanding timeout completion per registered session, none per erased one, no
      erasure before the deadline of the latest send or reply, and every scan sends a gap-free prefix of its range. */
  lemma EveryRun(now: int, icmpId: uint16, steps: seq<Step>)
    ensures Inv(Run(Init(now, icmpId), steps))
  {
    RunKeepsInv(Init(now, icmpId), steps);
  }

  predicate Stopped(phase: Phase) { phase.Done? || phase.SendFailed? || phase.NoSession? }

  /** A chain that has stopped, without a failed send and with its session still there, has sent the whole range. */
  lemma StoppedChainIsComplete(s: State, id: Id)
    requires Inv(s) && id in s.chains && id in s.sessions
    requires var phase := s.chains[id].phase; Stopped(phase) && !phase.SendFailed?
    ensures var c := s.chains[id];
            && |c.sent| == c.last - c.first + 1
            && (forall a :: a in c.sent <==> c.first <= a <= c.last)
            && (forall j, k :: 0 <= j < k < |c.sent| ==> c.sent[j] < c.sent[k])
  {
    var c := s.chains[id];
    forall a ensures a in c.sent <==> c.first <= a <= c.last {
      if c.first <= a <= c.last { assert c.sent[a - c.first] == a; }
    }
  }

  /** What a chain still has to do. */
  ghost function Remaining(c: Chain): int {
    var unsent := c.last - c.first + 1 - |c.sent|;
    match c.phase
    case Requesting(_) => 3 * unsent
    case Granted(_) => 3 * unsent - 1
    case InFlight(_) => 3 * unsent + 1
    case _ => 0
  }

  /** A step of the chain itself. */
  predicate Own(step: Step, id: Id) { step == EchoLookup(id) || step == EchoSend(id) || step == SendDone(id, true) || step == SendDone(id, false) }

  /** A chain that has not stopped has a step of its own to take. */
  lemma ChainNotStuck(s: State, id: Id)
    requires Inv(s) && id in s.chains
    ensures var c := s.chains[id];
            if Stopped(c.phase) then Remaining(c) == 0
            else Remaining(c) > 0 && (Enabled(s, EchoLookup(id)) || Enabled(s, EchoSend(id)) || Enabled(s, SendDone(id, true)))
  {
  }

  /** A step of its own brings a chain closer to its end, and no other step touches it. */
  lemma ChainProgress(s: State, id: Id, step: Step)
    requires Inv(s) && id in s.chains && Enabled(s, step)
    ensures id in Next(s, step).chains
    ensures var c, d := s.chains[id], Next(s, step).chains[id];
            if Own(step, id) then 0 <= Remaining(d) < Remaining(c) else d == c
  {
    if Own(step, id) { OwnStepProgress(s, id, step); } else { OthersLeaveChain(s, id, step); }
  }

  lemma OwnStepProgress(s: State, id: Id, step: Step)
    requires id in s.chains && ChainOk(s.chains[id]) && Enabled(s, step) && Own(step, id)
    ensures id in Next(s, step).chains && 0 <= Remaining(Next(s, step).chains[id]) < Remaining(s.chains[id])
  {
  }

  lemma OthersLeaveChain(s: State, id: Id, step: Step)
    requires id in s.chains && Enabled(s, step) && !Own(step, id)
    ensures id in Next(s, step).chains && Next(s, step).chains[id] == s.chains[id]
  {
  }

  /** How many steps of its own a chain takes in a run. */
  ghost function OwnSteps(s: State, steps: seq<Step>, id: Id): nat
    decreases |steps|
  {
    if steps == [] then 0
    else if Enabled(s, steps[0]) then (if Own(steps[0], id) then 1 else 0) + OwnSteps(Next(s, steps[0]), steps[1..], id)
    else OwnSteps(s, steps[1..], id)
  }

  /** Over every run, whatever else happens in between, a chain takes at most the steps it has still to do. */
  lemma {:induction false} ChainBound(s: State, steps: seq<Step>, id: Id)
    requires Inv(s) && id in s.chains
    ensures id in Run(s, steps).chains
    ensures OwnSteps(s, steps, id) + Remaining(Run(s, steps).chains[id]) <= Remaining(s.chains[id])
    decreases |steps|
  {
    if steps != [] {
      if Enabled(s, steps[0]) {
        StepKeepsInv(s, steps[0]);
        ChainProgress(s, id, steps[0]);
        ChainBound(Next(s, steps[0]), steps[1..], id);
      } else {
        ChainBound(s, steps[1..], id);
      }
    }
  }

  /** A run in which the chain takes as many steps as it has to do, at most three per address, ends with the chain
      stopped. Then the whole range has been sent, unless a send failed or the session was gone. */
  lemma WholeRangeSent(s: State, steps: seq<Step>, id: Id)
    requires Inv(s) && id in s.chains && OwnSteps(s, steps, id) >= Remaining(s.chains[id])
    ensures id in Run(s, steps).chains
    ensures var t := Run(s, steps);
            var c := t.chains[id];
            && Stopped(c.phase) && c.first <= c.last
            && (c.phase.SendFailed? || id !in t.sessions || c.sent == seq(c.last - c.first + 1, i requires 0 <= i => c.first + i))
  {
    var t := Run(s, steps);
    ChainBound(s, steps, id);
    RunKeepsInv(s, steps);
    ChainNotStuck(t, id);
    var c := t.chains[id];
    if !c.phase.SendFailed? && id in t.sessions {
      StoppedChainIsComplete(t, id);
      assert ChainOk(c);
    }
  }

  /** The steps of a chain: without its session it ends; with it the next address is sent; a failed send ends it, and
      after any other the address behind it is next, up to the last of the range. */
  lemma ChainLaw(s: State, id: Id)
    requires Inv(s) && id in s.chains
    ensures var c := s.chains[id];
            && (Enabled(s, EchoLookup(id)) ==>
                  var d := Next(s, EchoLookup(id)).chains[id];
                  d.sent == c.sent && d.phase == if id in s.sessions then Granted(c.first + |c.sent|) else NoSession)
            && (Enabled(s, EchoSend(id)) ==>
                  var d := Next(s, EchoSend(id)).chains[id];
                  d.sent == c.sent + [c.first + |c.sent|] && d.phase == InFlight(c.first + |c.sent|))
            && (Enabled(s, SendDone(id, false)) ==> Next(s, SendDone(id, false)).chains[id].phase == SendFailed)
            && (Enabled(s, SendDone(id, true)) ==>
                  var d := Next(s, SendDone(id, true)).chains[id];
                  d.sent == c.sent && d.phase == if c.first + |c.sent| <= c.last then Requesting(c.first + |c.sent|) else Done)
  {
    assert ChainOk(s.chains[id]);
  }

  /** The range of a chain never changes. */
  lemma {:induction false} RangeStays(s: State, steps: seq<Step>, id: Id)
    requires id in s.chains
    ensures id in Run(s, steps).chains
    ensures var c, d := s.chains[id], Run(s, steps).chains[id]; d.first == c.first && d.last == c.last
    decreases |steps|
  {
    if steps != [] {
      if Enabled(s, steps[0]) {
        StepKeepsRange(s, steps[0], id);
        RangeStays(Next(s, steps[0]), steps[1..], id);
      } else {
        RangeStays(s, steps[1..], id);
      }
    }
  }

  lemma StepKeepsRange(s: State, step: Step, id: Id)
    requires id in s.chains && Enabled(s, step)
    ensures id in Next(s, step).chains
    ensures var c, d := s.chains[id], Next(s, step).chains[id]; d.first == c.first && d.last == c.last
  {
  }

  /** A scan, from its registration on: in any run in which its chain takes the steps it may need, every address from the
      network address to the last one is sent once, in order, unless a send fails or the session goes. */
  lemma ScanSendsRange(s: State, id: Id, network: nat, netmask: nat, steps: seq<Step>)
    requires Inv(s) && Enabled(s, Register(id, network, netmask))
    requires OwnSteps(Next(s, Register(id, network, netmask)), steps, id) >= 3 * (LastAddress(network, netmask) - network + 1)
    ensures var t := Run(Next(s, Register(id, network, netmask)), steps);
            && id in t.chains && Stopped(t.chains[id].phase) && network <= LastAddress(network, netmask)
            && (t.chains[id].phase.SendFailed? || id !in t.sessions
                || t.chains[id].sent == seq(LastAddress(network, netmask) - network + 1, i requires 0 <= i => network + i))
  {
    var register := Register(id, network, netmask);
    RangeIsProper(network, netmask);
    StepKeepsInv(s, register);
    RangeStays(Next(s, register), steps, id);
    WholeRangeSent(Next(s, register), steps, id);
  }

  /** The echo of a request, whatever options its IPv4 header carries, refreshes the session that sent it. */
  lemma EchoRefreshesItsSession(s: State, ip: seq<uint8>, icmp: seq<uint8>, id: Id)
    requires 20 <= |ip| <= 60 && |ip| % 4 == 0 && ip[0] as int == 0x40 + |ip| / 4
    requires |icmp| == 8 && icmp[0] == ECHO_REPLY && Decode(icmp, 4, 5) == s.icmpId && PingPacket.SessionText(id)
    ensures ReplyFor(s.icmpId, ip + icmp + id) == Some(id)
    ensures Next(s, Receive(true, ip + icmp + id)) == if id in s.sessions then Refresh(s, id) else s
  {
    PingPacket.ReplyRoundTrip(ip, icmp, id, []);
    assert ip + icmp + id + [] == ip + icmp + id;
  }

  // ---------- how long a session lives ----------

  /** The scanner hears from a session: it is registered, an address of its scan is about to be tried, or an echo
      reply with the identifier of this process and the session's text arrives. */
  ghost predicate Contact(s: State, step: Step, id: Id) {
    match step
    case Register(i, _, _) => i == id
    case EchoLookup(i) => i == id && id in s.sessions
    case Receive(ok, datagram) =>
      && ok && id in s.sessions && PingPacket.ParseReply(datagram).Some?
      && var reply := PingPacket.ParseReply(datagram).value;
      reply.text == id && reply.icmp[0] == 0 && reply.icmp[4] as int * 0x100 + reply.icmp[5] as int == s.icmpId
    case _ => false
  }

  /** A contact sets the timer to 40 seconds from now and aborts the waits pending on it; a new session is waited for. */
  lemma ContactRestartsTimer(s: State, step: Step, id: Id)
    requires Enabled(s, step) && Contact(s, step, id)
    ensures var t := Next(s, step);
            && id in t.sessions && t.sessions[id] == Session(s.now + 40, if step.Register? then 1 else 0)
            && forall c :: t.queued[c] == s.queued[c] + if !step.Register? && c == Completion(id, Aborted) then s.sessions[id].waiting else 0
  {
  }

  /** Nothing else moves the deadline of a session. */
  lemma OnlyContactMovesDeadline(s: State, step: Step, id: Id)
    requires Enabled(s, step) && !Contact(s, step, id) && id in Next(s, step).sessions
    ensures id in s.sessions && Next(s, step).sessions[id].deadline == s.sessions[id].deadline
  {
    if Concerns(s, step) != id { StepTouchesOne(s, step, id); } else { OwnStepKeepsDeadline(s, step, id); }
  }

  lemma OwnStepKeepsDeadline(s: State, step: Step, id: Id)
    requires Enabled(s, step) && !Contact(s, step, id) && Concerns(s, step) == id && id in Next(s, step).sessions
    ensures id in s.sessions && Next(s, step).sessions[id].deadline == s.sessions[id].deadline
  {
  }

  /** A datagram that is no contact of any session changes nothing: other types, other identifiers, other texts. */
  lemma OthersIgnored(s: State, ok: bool, datagram: seq<uint8>)
    requires forall id :: id in s.sessions ==> !Contact(s, Receive(ok, datagram), id)
    ensures Next(s, Receive(ok, datagram)) == s
  {
  }

  /** A step erases a session exactly when it handles the end of a wait of that session, not an error, at or after
      the deadline. */
  lemma ErasedIff(s: State, step: Step, id: Id)
    requires Enabled(s, step) && id in s.sessions
    ensures id !in Next(s, step).sessions
            <==> step.Timeout? && step.completion.id == id && !step.completion.result.Failed? && s.sessions[id].deadline <= s.now
  {
  }

  /** The clock at the latest contact in a run, `t` if there is none. */
  ghost function LatestContact(s: State, steps: seq<Step>, id: Id, t: int): int
    decreases |steps|
  {
    if steps == [] then t
    else if !Enabled(s, steps[0]) then LatestContact(s, steps[1..], id, t)
    else LatestContact(Next(s, steps[0]), steps[1..], id, if Contact(s, steps[0], id) then s.now else t)
  }

  /** After every run the deadline of a session is 40 seconds after its latest contact. */
  lemma {:induction false} DeadlineFollowsContact(s: State, steps: seq<Step>, id: Id, t: int)
    requires id in s.sessions ==> s.sessions[id].deadline == t + 40
    ensures var u := Run(s, steps); id in u.sessions ==> u.sessions[id].deadline == LatestContact(s, steps, id, t) + 40
    decreases |steps|
  {
    if steps != [] {
      if Enabled(s, steps[0]) {
        if Contact(s, steps[0], id) {
          ContactRestartsTimer(s, steps[0], id);
          DeadlineFollowsContact(Next(s, steps[0]), steps[1..], id, s.now);
        } else {
          if id in Next(s, steps[0]).sessions { OnlyContactMovesDeadline(s, steps[0], id); }
          DeadlineFollowsContact(Next(s, steps[0]), steps[1..], id, t);
        }
      } else {
        DeadlineFollowsContact(s, steps[1..], id, t);
      }
    }
  }

  /** The clock values set during the steps. */
  ghost function Ticks(steps: seq<Step>): seq<int> {
    if steps == [] then [] else (if steps[0].Tick? then [steps[0].clock] else []) + Ticks(steps[1..])
  }

  /** No clock value is 40 seconds or more above `low` or an earlier value. */
  ghost predicate Steady(low: int, clocks: seq<int>)
    decreases |clocks|
  {
    clocks == [] || (clocks[0] < low + 40 && Steady(if clocks[0] < low then clocks[0] else low, clocks[1..]))
  }

  lemma {:induction false} SteadyIs(low: int, clocks: seq<int>)
    ensures Steady(low, clocks) <==> (forall j :: 0 <= j < |clocks| ==> clocks[j] < low + 40)
                                     && forall i, j :: 0 <= i < j < |clocks| ==> clocks[j] < clocks[i] + 40
    decreases |clocks|
  {
    if clocks != [] {
      var rest := clocks[1..];
      SteadyIs(if clocks[0] < low then clocks[0] else low, rest);
      assert forall j :: 0 <= j < |rest| ==> rest[j] == clocks[j + 1];
      assert forall j :: 1 <= j < |clocks| ==> clocks[j] == rest[j - 1];
    }
  }

  lemma {:induction false} StaysRegistered(s: State, steps: seq<Step>, id: Id, low: int)
    requires id in s.sessions && s.sessions[id].deadline >= low + 40 && low <= s.now < low + 40 && Steady(low, Ticks(steps))
    ensures id in Run(s, steps).sessions
    decreases |steps|
  {
    if steps != [] {
      var step, rest := steps[0], steps[1..];
      if step.Tick? {
        var clocks := Ticks(steps);
        assert clocks[0] == step.clock && clocks[1..] == Ticks(rest);
        StaysRegistered(Next(s, step), rest, id, if step.clock < low then step.clock else low);
      } else {
        assert Ticks(steps) == Ticks(rest);
        if Enabled(s, step) {
          StepWithin(s, step, id, low);
          StaysRegistered(Next(s, step), rest, id, low);
        } else {
          StaysRegistered(s, rest, id, low);
        }
      }
    }
  }

  lemma StepWithin(s: State, step: Step, id: Id, low: int)
    requires Enabled(s, step) && !step.Tick?
    requires id in s.sessions && s.sessions[id].deadline >= low + 40 && low <= s.now < low + 40
    ensures var u := Next(s, step); id in u.sessions && u.sessions[id].deadline >= low + 40 && u.now == s.now
  {
    ErasedIff(s, step, id);
    if Contact(s, step, id) { ContactRestartsTimer(s, step, id); } else { OnlyContactMovesDeadline(s, step, id); }
    ClockOnlyTicks(s, step);
  }

  lemma ClockOnlyTicks(s: State, step: Step)
    requires Enabled(s, step)
    ensures Next(s, step).now == if step.Tick? then step.clock else s.now
  {
  }

  /** After a contact a session stays registered, whatever happens meanwhile, as long as the clock does not rise 40
      seconds above the contact or above a value it was set back to. */
  lemma ContactKeepsSession(s: State, step: Step, steps: seq<Step>, id: Id)
    requires Enabled(s, step) && Contact(s, step, id) && Steady(s.now, Ticks(steps))
    ensures id in Run(Next(s, step), steps).sessions
  {
    ContactRestartsTimer(s, step, id);
    ClockOnlyTicks(s, step);
    StaysRegistered(Next(s, step), steps, id, s.now);
  }

  /** And no longer: for a session just contacted, the clock values of a run decide whether it is kept in every run that
      has these values, or whether some such run erases it. */
  lemma KeptIff(s: State, id: Id, clocks: seq<int>)
    requires Inv(s) && id in s.sessions && s.sessions[id].deadline == s.now + 40 && !WaitFailed(s, id) && PingPacket.SessionText(id)
    ensures (forall steps: seq<Step> :: Ticks(steps) == clocks ==> id in Run(s, steps).sessions) <==> Steady(s.now, clocks)
  {
    if Steady(s.now, clocks) {
      forall steps: seq<Step> | Ticks(steps) == clocks ensures id in Run(s, steps).sessions { StaysRegistered(s, steps, id, s.now); }
    } else {
      assert SessionOk(s, id);
      var steps := ErasingClocks(s, id, clocks);
    }
  }

  lemma ErasingClocks(s: State, id: Id, clocks: seq<int>) returns (steps: seq<Step>)
    requires SessionOk(s, id) && id in s.sessions && !WaitFailed(s, id) && PingPacket.SessionText(id) && !Steady(s.now, clocks)
    ensures Ticks(steps) == clocks && id !in Run(s, steps).sessions
  {
    SteadyIs(s.now, clocks);
    if j: nat :| j < |clocks| && clocks[j] >= s.now + 40 {
      steps := LateHandler(s, id, [], clocks[..j + 1], clocks[j + 1..]);
      assert [] + clocks[..j + 1] + clocks[j + 1..] == clocks;
    } else {
      var i: nat, j: nat :| i < j < |clocks| && clocks[j] >= clocks[i] + 40;
      steps := LateHandler(s, id, clocks[..i + 1], clocks[i + 1..j + 1], clocks[j + 1..]);
      assert clocks[..i + 1] + clocks[i + 1..j + 1] + clocks[j + 1..] == clocks;
    }
  }

  /** A run with given clock values: an echo arrives after the first part, and the handler runs after the second. */
  lemma LateHandler(s: State, id: Id, before: seq<int>, between: seq<int>, after: seq<int>) returns (steps: seq<Step>)
    requires SessionOk(s, id) && id in s.sessions && !WaitFailed(s, id) && PingPacket.SessionText(id) && between != []
    requires between[|between| - 1] >= (if before == [] then s.now else before[|before| - 1]) + 40
    ensures Ticks(steps) == before + between + after && id !in Run(s, steps).sessions
  {
    var echo, handler, s4 := EchoAndHandler(SetClocks(s, before), id, between);
    steps := TickSteps(before) + [echo] + TickSteps(between) + [handler] + TickSteps(after);
    TickRun(s, before);
    TickRun(Next(SetClocks(s, before), echo), between);
    TickRun(s4, after);
    FiveParts(s, TickSteps(before), echo, TickSteps(between), handler, TickSteps(after));
  }

  lemma EchoAndHandler(s: State, id: Id, between: seq<int>) returns (echo: Step, handler: Step, gone: State)
    requires SessionOk(s, id) && id in s.sessions && !WaitFailed(s, id) && PingPacket.SessionText(id) && between != []
    requires between[|between| - 1] >= s.now + 40
    ensures !echo.Tick? && !handler.Tick? && Enabled(s, echo) && Enabled(SetClocks(Next(s, echo), between), handler)
    ensures gone == Next(SetClocks(Next(s, echo), between), handler) && id !in gone.sessions
  {
    var ip: seq<uint8> := seq(20, i => if i == 0 then 0x45 else 0);
    var icmp: seq<uint8> := [0, 0, 0, 0, s.icmpId / 0x100, s.icmpId % 0x100, 0, 0];
    EchoRefreshesItsSession(s, ip, icmp, id);
    echo := Receive(true, ip + icmp + id);
    RefreshKeepsSession(s, id);
    var late := SetClocks(Next(s, echo), between);
    handler := Timeout(Completion(id, if Completion(id, Expired) in late.queued then Expired else Aborted));
    gone := Next(late, handler);
  }

  /** The state after the clock has taken the given values. */
  ghost function SetClocks(s: State, clocks: seq<int>): State {
    if clocks == [] then s else s.(now := clocks[|clocks| - 1])
  }

  ghost function TickSteps(clocks: seq<int>): seq<Step> {
    if clocks == [] then [] else [Tick(clocks[0])] + TickSteps(clocks[1..])
  }

  lemma {:induction false} TickRun(s: State, clocks: seq<int>)
    ensures Run(s, TickSteps(clocks)) == SetClocks(s, clocks) && Ticks(TickSteps(clocks)) == clocks
    decreases |clocks|
  {
    if clocks != [] {
      var steps, rest, next := TickSteps(clocks), clocks[1..], s.(now := clocks[0]);
      assert steps[0] == Tick(clocks[0]) && steps[1..] == TickSteps(rest);
      TickRun(next, rest);
      assert Run(s, steps) == Run(next, steps[1..]);
      assert SetClocks(next, rest) == SetClocks(s, clocks);
      assert [clocks[0]] + rest == clocks;
    }
  }

  lemma {:induction false} RunAppend(s: State, a: seq<Step>, b: seq<Step>)
    ensures Run(s, a + b) == Run(Run(s, a), b)
    decreases |a|
  {
    if a == [] {
      assert a + b == b;
    } else {
      var next := if Enabled(s, a[0]) then Next(s, a[0]) else s;
      var steps := a + b;
      assert steps[0] == a[0] && steps[1..] == a[1..] + b;
      RunAppend(next, a[1..], b);
      assert Run(s, steps) == Run(next, steps[1..]) && Run(s, a) == Run(next, a[1..]);
    }
  }

  lemma {:induction false} TicksAppend(a: seq<Step>, b: seq<Step>)
    ensures Ticks(a + b) == Ticks(a) + Ticks(b)
  {
    if a == [] {
      assert a + b == b;
    } else {
      assert (a + b)[0] == a[0] && (a + b)[1..] == a[1..] + b;
      TicksAppend(a[1..], b);
    }
  }

  lemma OneStep(s: State, step: Step)
    requires Enabled(s, step)
    ensures Run(s, [step]) == Next(s, step) && (!step.Tick? ==> Ticks([step]) == [])
  {
    assert [step][1..] == [];
    assert Run(Next(s, step), []) == Next(s, step);
  }

  lemma FiveParts(s: State, a: seq<Step>, b: Step, c: seq<Step>, d: Step, e: seq<Step>)
    requires !b.Tick? && !d.Tick? && Enabled(Run(s, a), b) && Enabled(Run(Next(Run(s, a), b), c), d)
    ensures Run(s, a + [b] + c + [d] + e) == Run(Next(Run(Next(Run(s, a), b), c), d), e)
    ensures Ticks(a + [b] + c + [d] + e) == Ticks(a) + Ticks(c) + Ticks(e)
  {
    ThenStep(s, a, b);
    RunAppend(s, a + [b], c);
    TicksAppend(a + [b], c);
    ThenStep(s, a + [b] + c, d);
    RunAppend(s, a + [b] + c + [d], e);
    TicksAppend(a + [b] + c + [d], e);
  }

  lemma ThenStep(s: State, a: seq<Step>, step: Step)
    requires !step.Tick? && Enabled(Run(s, a), step)
    ensures Run(s, a + [step]) == Next(Run(s, a), step) && Ticks(a + [step]) == Ticks(a)
  {
    OneStep(Run(s, a), step);
    RunAppend(s, a, [step]);
    TicksAppend(a, [step]);
  }

  /** If it is set back, the next contact brings the deadline forward: here a session registered at 100 is gone at 60. */
  lemma ClockSetBack(icmpId: uint16, id: Id, network: nat, netmask: nat)
    requires PingPacket.SessionText(id) && network < TWO32 && netmask < TWO32
    ensures var s := Next(Init(100, icmpId), Register(id, network, netmask));
            id !in Run(s, [Tick(0), EchoLookup(id), Tick(60), Timeout(Completion(id, Aborted))]).sessions
  {
    var s := Next(Init(100, icmpId), Register(id, network, netmask));
    var s1 := Next(s, Tick(0));
    var s2 := Next(s1, EchoLookup(id));
    var s3 := Next(s2, Tick(60));
    var handler := Timeout(Completion(id, Aborted));
    assert Enabled(s3, handler) && id !in Next(s3, handler).sessions;
    FourSteps(s, Tick(0), EchoLookup(id), Tick(60), handler);
  }

  lemma FourSteps(s: State, a: Step, b: Step, c: Step, d: Step)
    requires Enabled(s, a) && Enabled(Next(s, a), b) && Enabled(Next(Next(s, a), b), c) && Enabled(Next(Next(Next(s, a), b), c), d)
    ensures Run(s, [a, b, c, d]) == Next(Next(Next(Next(s, a), b), c), d)
  {
    var s1, s2, s3 := Next(s, a), Next(Next(s, a), b), Next(Next(Next(s, a), b), c);
    assert [a, b, c, d][1..] == [b, c, d] && [b, c, d][1..] == [c, d] && [c, d][1..] == [d] && [d][1..] == [];
    assert Run(s, [a, b, c, d]) == Run(s1, [b, c, d]) == Run(s2, [c, d]) == Run(s3, [d]);
  }

  // ---------- which sessions can be erased ----------

  /** The wait of the session ended with an error, and its handler has run or is about to. */
  ghost predicate WaitFailed(s: State, id: Id) {
    id in s.sessions && (id in s.orphaned || Completion(id, Failed) in s.queued)
  }

  lemma WaitFailedStays(s: State, step: Step, id: Id)
    requires SessionOk(s, id) && Enabled(s, step) && WaitFailed(s, id)
    ensures WaitFailed(Next(s, step), id)
  {
    if Concerns(s, step) != id {
      StepTouchesOne(s, step, id);
    }
  }

  lemma {:induction false} WaitFailedForEver(s: State, steps: seq<Step>, id: Id)
    requires Inv(s) && WaitFailed(s, id)
    ensures id in Run(s, steps).sessions
    decreases |steps|
  {
    if steps != [] {
      if Enabled(s, steps[0]) {
        assert SessionOk(s, id);
        WaitFailedStays(s, steps[0], id);
        StepKeepsInv(s, steps[0]);
        WaitFailedForEver(Next(s, steps[0]), steps[1..], id);
      } else {
        WaitFailedForEver(s, steps[1..], id);
      }
    }
  }

  /** Steps that erase a session: the clock reaches the deadline, the wait ends, its handler runs. */
  lemma ErasingRun(s: State, id: Id) returns (steps: seq<Step>)
    requires SessionOk(s, id) && id in s.sessions && !WaitFailed(s, id)
    ensures id !in Run(s, steps).sessions
  {
    var tick := Tick(s.sessions[id].deadline);
    var s1 := Next(s, tick);
    if s.sessions[id].waiting > 0 {
      var ends, handler := WaitEnds(id, Expired), Timeout(Completion(id, Expired));
      steps := [tick, ends, handler];
      var s2 := Next(s1, ends);
      assert steps[1..] == [ends, handler] && steps[1..][1..] == [handler];
      assert Run(s, steps) == Run(s1, [ends, handler]) == Run(s2, [handler]) == Next(s2, handler);
    } else {
      var handler := Timeout(Completion(id, if Completion(id, Expired) in s.queued then Expired else Aborted));
      steps := [tick, handler];
      assert steps[1..] == [handler];
      assert Run(s, steps) == Run(s1, [handler]) == Next(s1, handler);
    }
  }

  /** A registered session can still time out exactly as long as its wait has not ended with an error: the handler
      of such a completion does not wait again, and nothing else does. */
  lemma ErasableIff(s: State, id: Id)
    requires Inv(s) && id in s.sessions
    ensures (exists steps: seq<Step> :: id !in Run(s, steps).sessions) <==> !WaitFailed(s, id)
  {
    assert SessionOk(s, id);
    if WaitFailed(s, id) {
      forall steps: seq<Step> ensures id in Run(s, steps).sessions { WaitFailedForEver(s, steps, id); }
    } else {
      var steps := ErasingRun(s, id);
    }
  }

  /** It happens: a wait that ends with an error right after the registration leaves the session for ever. */
  lemma SessionLeftBehind(now: int, icmpId: uint16, id: Id, network: nat, netmask: nat, steps: seq<Step>)
    requires PingPacket.SessionText(id) && network < TWO32 && netmask < TWO32
    ensures var register, fails := Register(id, network, netmask), WaitEnds(id, Failed);
            && Enabled(Init(now, icmpId), register) && Enabled(Next(Init(now, icmpId), register), fails)
            && id in Run(Next(Next(Init(now, icmpId), register), fails), steps).sessions
  {
    var s0 := Init(now, icmpId);
    var s1 := Next(s0, Register(id, network, netmask));
    var s2 := Next(s1, WaitEnds(id, Failed));
    StepKeepsInv(s0, Register(id, network, netmask));
    StepKeepsInv(s1, WaitEnds(id, Failed));
    WaitFailedForEver(s2, steps, id);
  }

  // ---------- the scanner object ----------

  /** The scanner with the services it runs on: `queued` and the waits inside the sessions are the I/O service's,
      `chains` records the handlers bound to outstanding sends. Each method is one critical section or handler. */
  class ICMPScanner {
    const icmpId: uint16
    var now: int
    var sessions: map<Id, Session>
    var queued: multiset<Completion>
    var chains: map<Id, Chain>
    ghost var refreshed: map<Id, int>
    ghost var erasedAt: map<Id, int>
    ghost var orphaned: set<Id>

    ghost function Current(): State
      reads this
    {
      State(now, icmpId, sessions, queued, chains, refreshed, erasedAt, orphaned)
    }

    constructor (clock: int, processId: nat)
      ensures Current() == Init(clock, processId % 0x1_0000) && Inv(Current())
    {
      icmpId := processId % 0x1_0000;
      now, sessions, queued, chains := clock, map[], multiset{}, map[];
      refreshed, erasedAt, orphaned := map[], map[], {};
    }

    /** timer_.expires_from_now on a registered session. */
    method RestartTimer(id: Id)
      requires id in sessions
      modifies this
      ensures Current() == Refresh(old(Current()), id)
    {
      queued := Add(queued, id, Aborted, sessions[id].waiting);
      sessions := sessions[id := Session(now + TIMEOUT, 0)];
      refreshed := refreshed[id := now];
    }

    /** Scan, with the random session id it draws: registers the session and starts waiting for its timeout. */
    method Scan(id: Id, network: nat, netmask: nat) returns (registered: bool)
      requires Enabled(Current(), Register(id, network, netmask)) && Inv(Current())
      modifies this
      ensures registered && Current() == Next(old(Current()), Register(id, network, netmask)) && Inv(Current())
    {
      StepKeepsInv(Current(), Register(id, network, netmask));
      RangeIsProper(network, netmask);
      assert SessionOk(Current(), id);
      var lastAddress := LastAddress(network, netmask);
      if network > lastAddress || id in sessions {
        return false;
      }
      StartSession(id);
      chains := chains[id := Chain(network, lastAddress, if network != lastAddress then lastAddress else 0, Requesting(network), [])];
      return true;
    }

    /** A new session, its timer set and waited for. */
    method StartSession(id: Id)
      modifies this`sessions, this`refreshed
      ensures sessions == old(sessions)[id := Session(now + TIMEOUT, 1)] && refreshed == old(refreshed)[id := now]
    {
      sessions := sessions[id := Session(now + TIMEOUT, 0)];
      AsyncWait(id);
      refreshed := refreshed[id := now];
    }

    /** EchoRequest up to the release of the mutex; without the session it throws and the chain ends. */
    method EchoRequestLookup(id: Id)
      requires Enabled(Current(), EchoLookup(id)) && Inv(Current())
      modifies this
      ensures Current() == Next(old(Current()), EchoLookup(id)) && Inv(Current())
      ensures id in old(sessions) ==> id in sessions && sessions[id] == Session(now + 40, 0)
    {
      StepKeepsInv(Current(), EchoLookup(id));
      if id !in sessions {
        chains := chains[id := chains[id].(phase := NoSession)];
        return;
      }
      RestartTimer(id);
      chains := chains[id := chains[id].(phase := Granted(chains[id].phase.next))];
    }

    /** The rest of EchoRequest: the packet goes out, and HandleSend is bound to the endpoint. */
    method EchoRequestSend(id: Id) returns (packet: seq<uint8>)
      requires Enabled(Current(), EchoSend(id)) && Inv(Current())
      modifies this
      ensures Current() == Next(old(Current()), EchoSend(id)) && Inv(Current())
      ensures |packet| >= 8 && packet[8..] == id && packet[0] == ECHO_REQUEST && Decode(packet, 4, 5) == icmpId
      ensures |id| <= 131068 ==> OnesSum(0, Words(packet)) == 0xFFFF
    {
      StepKeepsInv(Current(), EchoSend(id));
      packet := PingPacket.BuildEchoRequest(icmpId, id);
      var chain := chains[id];
      chains := chains[id := chain.(phase := InFlight(chain.phase.next), sent := chain.sent + [chain.phase.next])];
    }

    method HandleSend(id: Id, ok: bool)
      requires Enabled(Current(), SendDone(id, ok)) && Inv(Current())
      modifies this
      ensures Current() == Next(old(Current()), SendDone(id, ok)) && Inv(Current())
    {
      StepKeepsInv(Current(), SendDone(id, ok));
      var chain := chains[id];
      var endpoint, lastEndpoint := chain.phase.at, chain.lastEndpoint;
      if !ok {
        chains := chains[id := chain.(phase := SendFailed)];
      } else if lastEndpoint != 0 && lastEndpoint > endpoint {
        endpoint := endpoint + 1;
        chains := chains[id := chain.(phase := Requesting(endpoint))];
      } else {
        chains := chains[id := chain.(phase := Done)];
      }
    }

    method HandleReceive(ok: bool, datagram: seq<uint8>)
      requires Inv(Current())
      modifies this
      ensures Current() == Next(old(Current()), Receive(ok, datagram)) && Inv(Current())
    {
      StepKeepsInv(Current(), Receive(ok, datagram));
      if !ok {
        return;
      }
      var ip, icmp, body := PingPacket.ReadReply(datagram);
      if icmp.Type() == ECHO_REPLY && icmp.Identifier() == icmpId {
        // an empty or foreign text names no session
        if body != [] && body in sessions {
          RestartTimer(body);
        }
      }
    }

    /** The handler of a timer completion that the service has taken from its queue. */
    method HandleSessionTimeout(c: Completion)
      requires Enabled(Current(), Timeout(c)) && Inv(Current())
      modifies this
      ensures Current() == Next(old(Current()), Timeout(c)) && Inv(Current())
    {
      StepKeepsInv(Current(), Timeout(c));
      queued := queued[c := queued[c] - 1];
      if c.result.Failed? {
        orphaned := if c.id in sessions then orphaned + {c.id} else orphaned;
      } else if c.id in sessions {
        if sessions[c.id].deadline <= now {
          EraseSession(c.id);
        } else {
          AsyncWait(c.id);
        }
      }
    }

    method EraseSession(id: Id)
      requires id in sessions
      modifies this
      ensures Current() == Erase(old(Current()), id)
    {
      queued := Add(queued, id, Aborted, sessions[id].waiting);
      sessions := sessions - {id};
      erasedAt := erasedAt[id := now];
    }

    method AsyncWait(id: Id)
      requires id in sessions
      modifies this`sessions
      ensures Current() == Wait(old(Current()), id)
    {
      sessions := sessions[id := sessions[id].(waiting := sessions[id].waiting + 1)];
    }
  }
}
