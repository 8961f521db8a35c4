/** Two channels joined by a network that drops, duplicates, delays and reorders datagrams but
    never forges one. The network is the set of every packet ever sent, so losing or repeating a
    packet is simply never receiving it, or receiving it again. */
module NetchanProtocol {
  import opened Bytes
  import opened Netchan

  /** One end: its channel, the packets it has put on the network, the bytes its application has
      staged, the reliable messages it has committed, and those it has accepted from the other end. */
  datatype Side = Side(link: Link, out: set<Packet>, written: Message, sent: seq<Message>, got: seq<Message>)

  datatype System = System(a: Side, b: Side)

  datatype Event =
    | Stage(data: Message)
    | Transmit(qport: seq<byte>, data: Message, reaches: bool)
    | Receive(p: Packet)

  datatype Action = AtA(event: Event) | AtB(event: Event)

  const START := Side(FRESH, {}, [], [], [])
  const INITIAL := System(START, START)

  function StageAt(s: Side, data: Message): Side {
    s.(link := Staged(s.link, data), written := s.written + data)
  }

  /** Netchan_Transmit at one end. The packet may fail to reach the network: the socket refuses it,
      or the data does not fit and the call ends in an error after the channel has been changed. */
  function TransmitAt(s: Side, qport: seq<byte>, data: Message, reaches: bool): Side {
    if s.link.overflowed then s else
    s.(link := Transmitted(s.link),
       out := if reaches && HasRoom(s.link, qport, data) then s.out + {NextPacket(s.link, qport, data)} else s.out,
       sent := if StagedWaiting(s.link) then s.sent + [s.link.message] else s.sent)
  }

  /** Netchan_Process at one end on the bytes of a packet the other end sent. */
  function ReceiveAt(s: Side, p: Packet): Side
    requires Fits31(p.header)
  {
    var h := ParseHeader(Wire(p));
    s.(link := Processed(s.link, h),
       got := if Accepts(s.link, h) && h.flagged then s.got + [p.reliable] else s.got)
  }

  /** What one event does at end `s`, with `peer` at the other end of the network. */
  function StepAt(s: Side, peer: Side, e: Event): Side {
    match e
    case Stage(data) => if |data| <= MAX_STAGED then StageAt(s, data) else s
    case Transmit(qport, data, reaches) => TransmitAt(s, qport, data, reaches)
    case Receive(p) => if p in peer.out && Fits31(p.header) then ReceiveAt(s, p) else s
  }

  function Step(sys: System, act: Action): System {
    match act
    case AtA(e) => sys.(a := StepAt(sys.a, sys.b, e))
    case AtB(e) => sys.(b := StepAt(sys.b, sys.a, e))
  }

  /** The state after a run, from the moment both ends called Netchan_Setup. */
  function Run(acts: seq<Action>): System {
    if acts == [] then INITIAL else Step(Run(acts[..|acts| - 1]), acts[|acts| - 1])
  }

  // ---------------------------------------------------------------------------------------------
  // The invariant of one direction: sender `s`, receiver `r`

  predicate Odd(n: nat) { n % 2 == 1 }

  /** Numbering: every packet is older than the next one, and nothing acknowledges the future. */
  ghost predicate Numbered(s: Side, r: Side) {
    && r.link.incomingSequence < s.link.outgoingSequence
    && s.link.lastReliableSequence < s.link.outgoingSequence
    && s.link.incomingAcknowledged <= r.link.incomingSequence
    && (forall p <- s.out :: p.header.sequence < s.link.outgoingSequence && Fits31(p.header))
    && (forall p <- r.out :: p.header.ack <= r.link.incomingSequence)
  }

  /** The receiver has everything but possibly the last committed message; the parity bits count
      messages; the reliable buffer holds the last message until it is known to have arrived. */
  ghost predicate Counted(s: Side, r: Side) {
    && |s.sent| - 1 <= |r.got| <= |s.sent|
    && r.got == s.sent[..|r.got|]
    && s.link.reliableSequence == Odd(|s.sent|)
    && r.link.incomingReliableSequence == Odd(|r.got|)
    && (s.link.reliable != [] ==> s.sent != [] && s.link.reliable == s.sent[|s.sent| - 1])
    && (s.link.reliable == [] ==> r.got == s.sent)
  }

  predicate Undelivered(s: Side, r: Side) {
    |r.got| < |s.sent|
  }

  /** A reliable packet that could still be accepted is the one numbered `lastReliableSequence`,
      and it carries the message the receiver is waiting for. */
  ghost predicate FlaggedCurrent(s: Side, r: Side) {
    forall p <- s.out :: p.header.flagged && p.header.sequence > r.link.incomingSequence ==>
      && p.header.sequence == s.link.lastReliableSequence
      && Undelivered(s, r)
      && p.reliable == s.sent[|s.sent| - 1]
  }

  /** What an acknowledgement means to the sender: a matching parity says that the message arrived;
      a differing one, on something later than the last reliable packet, says that it did not. */
  ghost predicate Telling(s: Side, r: Side, ack: nat, parity: bool) {
    && (parity == s.link.reliableSequence ==> r.got == s.sent)
    && (ack > s.link.lastReliableSequence && parity != s.link.reliableSequence ==> Undelivered(s, r))
  }

  ghost predicate AcksTelling(s: Side, r: Side) {
    && Telling(s, r, s.link.incomingAcknowledged, s.link.incomingReliableAcknowledged)
    && (s.link.reliable == [] <==> s.link.incomingReliableAcknowledged == s.link.reliableSequence)
    && (forall p <- r.out :: p.header.sequence > s.link.incomingSequence ==>
          Telling(s, r, p.header.ack, p.header.parity))
  }

  /** Once an acknowledgement has matched, every later one matches too. */
  ghost predicate AcksSettle(s: Side, r: Side) {
    && (s.link.reliable == [] ==>
          forall p <- r.out :: p.header.sequence > s.link.incomingSequence ==>
            p.header.parity == s.link.reliableSequence)
    && (forall p <- r.out, q <- r.out ::
          (s.link.incomingSequence < p.header.sequence < q.header.sequence &&
           p.header.parity == s.link.reliableSequence) ==> q.header.parity == s.link.reliableSequence)
  }

  ghost predicate Direction(s: Side, r: Side) {
    Numbered(s, r) && Counted(s, r) && FlaggedCurrent(s, r) && AcksTelling(s, r) && AcksSettle(s, r)
  }

  ghost predicate Invariant(sys: System) {
    Direction(sys.a, sys.b) && Direction(sys.b, sys.a)
  }

  // ---------------------------------------------------------------------------------------------
  // Every step keeps it

  lemma OddFlips(n: nat)
    ensures Odd(n + 1) == !Odd(n)
  {
  }

  /** The branch "send_reliable with empty buffer" needs a missed message with nothing to resend. */
  lemma MissedHasBuffer(s: Side, r: Side)
    requires Direction(s, r)
    ensures Missed(s.link) ==> s.link.reliable != [] && Undelivered(s, r)
    ensures SendsReliable(s.link) ==> Commit(s.link).reliable != []
  {
  }

  lemma StageKeepsSender(s: Side, r: Side, data: Message)
    requires Direction(s, r)
    ensures Direction(StageAt(s, data), r)
  {
  }

  lemma StageKeepsReceiver(s: Side, r: Side, data: Message)
    requires Direction(s, r)
    ensures Direction(s, StageAt(r, data))
  {
  }

  lemma TransmitKeepsFlags(s: Side, r: Side, qport: seq<byte>, data: Message, reaches: bool)
    requires Direction(s, r) && s.link.outgoingSequence < TWO_31
    ensures FlaggedCurrent(TransmitAt(s, qport, data, reaches), r)
  {
    MissedHasBuffer(s, r);
    hide AcksSettle, AcksTelling, HasRoom, Missed, Odd;
  }

  lemma TransmitKeepsCount(s: Side, r: Side, qport: seq<byte>, data: Message, reaches: bool)
    requires Direction(s, r) && s.link.outgoingSequence < TWO_31
    ensures var s' := TransmitAt(s, qport, data, reaches);
      Numbered(s', r) && Counted(s', r)
  {
    OddFlips(|s.sent|);
    hide AcksSettle, AcksTelling, HasRoom, SendsReliable, FlaggedCurrent, Odd;
  }

  lemma TransmitKeepsAcks(s: Side, r: Side, qport: seq<byte>, data: Message, reaches: bool)
    requires Direction(s, r)
    ensures var s' := TransmitAt(s, qport, data, reaches);
      AcksTelling(s', r) && AcksSettle(s', r)
  {
    MissedHasBuffer(s, r);
    hide HasRoom, NextPacket;
  }

  lemma TransmitKeepsSender(s: Side, r: Side, qport: seq<byte>, data: Message, reaches: bool)
    requires Direction(s, r) && s.link.outgoingSequence < TWO_31
    ensures Direction(TransmitAt(s, qport, data, reaches), r)
  {
    TransmitKeepsCount(s, r, qport, data, reaches);
    TransmitKeepsFlags(s, r, qport, data, reaches);
    TransmitKeepsAcks(s, r, qport, data, reaches);
    hide TransmitAt, Numbered, Counted, FlaggedCurrent, AcksTelling, AcksSettle;
  }

  lemma TransmitKeepsPlace(s: Side, r: Side, qport: seq<byte>, data: Message, reaches: bool)
    requires Direction(s, r)
    ensures var r' := TransmitAt(r, qport, data, reaches);
      Numbered(s, r') && Counted(s, r') && FlaggedCurrent(s, r')
  {
    hide HasRoom, AcksTelling, AcksSettle;
  }

  lemma TransmitKeepsTelling(s: Side, r: Side, qport: seq<byte>, data: Message, reaches: bool)
    requires Direction(s, r) && Numbered(r, s) && r.link.outgoingSequence < TWO_31
    ensures AcksTelling(s, TransmitAt(r, qport, data, reaches))
  {
    hide HasRoom, AcksSettle, FlaggedCurrent, StagedWaiting, SendsReliable;
  }

  lemma TransmitKeepsSettled(s: Side, r: Side, qport: seq<byte>, data: Message, reaches: bool)
    requires Direction(s, r) && Numbered(r, s) && r.link.outgoingSequence < TWO_31
    ensures AcksSettle(s, TransmitAt(r, qport, data, reaches))
  {
    hide HasRoom, FlaggedCurrent, StagedWaiting, SendsReliable;
  }

  lemma TransmitKeepsReceiver(s: Side, r: Side, qport: seq<byte>, data: Message, reaches: bool)
    requires Direction(s, r) && Numbered(r, s) && r.link.outgoingSequence < TWO_31
    ensures Direction(s, TransmitAt(r, qport, data, reaches))
  {
    TransmitKeepsPlace(s, r, qport, data, reaches);
    TransmitKeepsTelling(s, r, qport, data, reaches);
    TransmitKeepsSettled(s, r, qport, data, reaches);
    hide TransmitAt, Numbered, Counted, FlaggedCurrent, AcksTelling, AcksSettle;
  }

  lemma WireParses(p: Packet)
    requires Fits31(p.header)
    ensures ParseHeader(Wire(p)) == p.header
  {
    HeaderRoundTrip(p.header, p.qport + p.reliable + p.unreliable);
    hide HeaderBytes, ParseHeader;
    assert Wire(p) == HeaderBytes(p.header) + (p.qport + p.reliable + p.unreliable);
  }

  /** What receiving does, in terms of the header that was sent. */
  lemma Receives(s: Side, p: Packet)
    requires Fits31(p.header)
    ensures ReceiveAt(s, p) == s.(
      link := Processed(s.link, p.header),
      got := if Accepts(s.link, p.header) && p.header.flagged then s.got + [p.reliable] else s.got)
  {
    WireParses(p);
    hide Wire, ParseHeader, Processed, Accepts;
  }

  lemma ReceiveKeepsCount(s: Side, r: Side, p: Packet)
    requires Direction(s, r) && p in s.out && Fits31(p.header)
    ensures Numbered(s, ReceiveAt(r, p)) && Counted(s, ReceiveAt(r, p)) && FlaggedCurrent(s, ReceiveAt(r, p))
  {
    Receives(r, p);
    OddFlips(|r.got|);
    hide ReceiveAt, Odd, AcksTelling, AcksSettle;
  }

  lemma ReceiveKeepsTelling(s: Side, r: Side, p: Packet)
    requires Direction(s, r) && p in s.out && Fits31(p.header)
    ensures AcksTelling(s, ReceiveAt(r, p)) && AcksSettle(s, ReceiveAt(r, p))
  {
    Receives(r, p);
    hide ReceiveAt, Odd;
  }

  lemma ReceiveKeepsReceiver(s: Side, r: Side, p: Packet)
    requires Direction(s, r) && p in s.out && Fits31(p.header)
    ensures Direction(s, ReceiveAt(r, p))
  {
    ReceiveKeepsCount(s, r, p);
    ReceiveKeepsTelling(s, r, p);
    hide ReceiveAt, Numbered, Counted, FlaggedCurrent, AcksTelling, AcksSettle;
  }

  lemma ReceiveKeepsNumbers(s: Side, r: Side, p: Packet)
    requires Direction(s, r) && p in r.out && Fits31(p.header)
    ensures Numbered(ReceiveAt(s, p), r) && FlaggedCurrent(ReceiveAt(s, p), r)
  {
    Receives(s, p);
    hide ReceiveAt, Odd, AcksTelling, AcksSettle, Counted;
  }

  lemma ReceiveKeepsAcks(s: Side, r: Side, p: Packet)
    requires Direction(s, r) && p in r.out && Fits31(p.header)
    ensures Counted(ReceiveAt(s, p), r) && AcksTelling(ReceiveAt(s, p), r) && AcksSettle(ReceiveAt(s, p), r)
  {
    Receives(s, p);
    hide ReceiveAt, Odd, FlaggedCurrent;
  }

  lemma ReceiveKeepsSender(s: Side, r: Side, p: Packet)
    requires Direction(s, r) && p in r.out && Fits31(p.header)
    ensures Direction(ReceiveAt(s, p), r)
  {
    hide Numbered, Counted, FlaggedCurrent, AcksTelling, AcksSettle, ReceiveAt;
    ReceiveKeepsNumbers(s, r, p);
    ReceiveKeepsAcks(s, r, p);
  }

  function Flatten(ms: seq<Message>): Message {
    if ms == [] then [] else Flatten(ms[..|ms| - 1]) + ms[|ms| - 1]
  }

  /** Nothing the application staged is lost before the staging buffer overflows. */
  ghost predicate Conserved(s: Side) {
    && BuffersFit(s.link)
    && (exists lost :: s.written == Flatten(s.sent) + lost && (!s.link.overflowed ==> lost == s.link.message))
  }

  lemma {:induction false} FlattenPrefix(ms: seq<Message>, k: nat)
    requires k <= |ms|
    ensures Flatten(ms[..k]) <= Flatten(ms)
    decreases |ms|
  {
    if k < |ms| {
      var init := ms[..|ms| - 1];
      FlattenPrefix(init, k);
      assert init[..k] == ms[..k];
    } else {
      assert ms[..k] == ms;
    }
  }

  lemma StageConserves(s: Side, data: Message)
    requires Conserved(s) && |data| <= MAX_STAGED
    ensures Conserved(StageAt(s, data))
  {
    hide Flatten;
    var lost :| s.written == Flatten(s.sent) + lost && (!s.link.overflowed ==> lost == s.link.message);
    var s' := StageAt(s, data);
    assert s'.written == Flatten(s'.sent) + (lost + data);
  }

  lemma TransmitConserves(s: Side, qport: seq<byte>, data: Message, reaches: bool)
    requires Conserved(s)
    ensures Conserved(TransmitAt(s, qport, data, reaches))
  {
    hide HasRoom, SendsReliable;
    if !s.link.overflowed && StagedWaiting(s.link) {
      var s' := TransmitAt(s, qport, data, reaches);
      assert s'.sent[..|s'.sent| - 1] == s.sent;
      assert s'.written == Flatten(s'.sent) + [];
    }
  }

  lemma StepConserves(s: Side, peer: Side, e: Event)
    requires Conserved(s)
    ensures Conserved(StepAt(s, peer, e))
  {
    match e
    case Stage(data) =>
      if |data| <= MAX_STAGED {
        StageConserves(s, data);
      }
    case Transmit(qport, data, reaches) =>
      TransmitConserves(s, qport, data, reaches);
    case Receive(p) =>
      hide Flatten, Wire, ParseHeader;
  }

  lemma StepKeeps(s: Side, r: Side, e: Event)
    requires Direction(s, r) && Direction(r, s) && s.link.outgoingSequence < TWO_31
    ensures Direction(StepAt(s, r, e), r) && Direction(r, StepAt(s, r, e))
  {
    assert Numbered(s, r) && Numbered(r, s);
    hide Direction, Numbered, StageAt, TransmitAt, ReceiveAt;
    match e
    case Stage(data) =>
      if |data| <= MAX_STAGED {
        StageKeepsSender(s, r, data);
        StageKeepsReceiver(r, s, data);
      }
    case Transmit(qport, data, reaches) =>
      TransmitKeepsSender(s, r, qport, data, reaches);
      TransmitKeepsReceiver(r, s, qport, data, reaches);
    case Receive(p) =>
      if p in r.out && Fits31(p.header) {
        ReceiveKeepsSender(s, r, p);
        ReceiveKeepsReceiver(r, s, p);
      }
  }

  /** Packet numbers go up by at most one a step, and never down; what was committed or accepted stays. */
  lemma StepGrows(s: Side, peer: Side, e: Event)
    ensures var s' := StepAt(s, peer, e);
      && s'.link.outgoingSequence <= s.link.outgoingSequence + 1
      && s.link.incomingSequence <= s'.link.incomingSequence
      && s.sent <= s'.sent && s.got <= s'.got
  {
    hide Wire, ParseHeader;
  }

  /** The invariant holds in every state of every run of fewer than 2^31 actions. */
  lemma {:induction false} RunKeeps(acts: seq<Action>)
    requires |acts| < TWO_31
    ensures Invariant(Run(acts)) && Conserved(Run(acts).a) && Conserved(Run(acts).b)
    ensures Run(acts).a.link.outgoingSequence <= 1 + |acts|
    ensures Run(acts).b.link.outgoingSequence <= 1 + |acts|
  {
    if acts == [] {
      assert [] == Flatten([]) + [];
    } else {
      var sys := Run(acts[..|acts| - 1]);
      RunKeeps(acts[..|acts| - 1]);
      hide Direction, StepAt, Conserved;
      match acts[|acts| - 1]
      case AtA(e) =>
        StepKeeps(sys.a, sys.b, e);
        StepConserves(sys.a, sys.b, e);
        StepGrows(sys.a, sys.b, e);
      case AtB(e) =>
        StepKeeps(sys.b, sys.a, e);
        StepConserves(sys.b, sys.a, e);
        StepGrows(sys.b, sys.a, e);
    }
  }

  // ---------------------------------------------------------------------------------------------
  // Main results

  /** In every run, the reliable messages an end has accepted are the messages the other end has
      committed, in order and each once, short of at most the last one; and no Transmit ever sets
      the reliable flag with an empty reliable buffer. */
  lemma ReliableDelivery(acts: seq<Action>)
    requires |acts| < TWO_31
    ensures var sys := Run(acts);
      && sys.b.got <= sys.a.sent && |sys.a.sent| <= |sys.b.got| + 1
      && sys.a.got <= sys.b.sent && |sys.b.sent| <= |sys.a.got| + 1
    ensures var sys := Run(acts);
      && (SendsReliable(sys.a.link) ==> Commit(sys.a.link).reliable != [])
      && (SendsReliable(sys.b.link) ==> Commit(sys.b.link).reliable != [])
  {
    RunKeeps(acts);
    var sys := Run(acts);
    MissedHasBuffer(sys.a, sys.b);
    MissedHasBuffer(sys.b, sys.a);
  }

  /** What an end has accepted is a prefix of the bytes the other application staged. */
  lemma ByteStreamDelivery(acts: seq<Action>)
    requires |acts| < TWO_31
    ensures Flatten(Run(acts).b.got) <= Run(acts).a.written
    ensures Flatten(Run(acts).a.got) <= Run(acts).b.written
  {
    RunKeeps(acts);
    var sys := Run(acts);
    FlattenPrefix(sys.a.sent, |sys.b.got|);
    FlattenPrefix(sys.b.sent, |sys.a.got|);
  }

  /** A retransmission is never spurious: whenever a Transmit resends, the receiver has not accepted
      the message and can no longer accept any packet that already carries it. */
  ghost predicate ResendsOnlyLost(s: Side, r: Side) {
    Missed(s.link) ==>
      && s.sent != [] && r.got == s.sent[..|s.sent| - 1]
      && forall p <- s.out :: p.header.flagged ==> !Accepts(r.link, p.header)
  }

  lemma RetransmitIsNeeded(acts: seq<Action>)
    requires |acts| < TWO_31
    ensures ResendsOnlyLost(Run(acts).a, Run(acts).b) && ResendsOnlyLost(Run(acts).b, Run(acts).a)
  {
    RunKeeps(acts);
    hide Run;
    MissedHasBuffer(Run(acts).a, Run(acts).b);
    MissedHasBuffer(Run(acts).b, Run(acts).a);
  }

  /** No end's incoming sequence number ever goes back. */
  lemma {:induction false} NumbersGrow(acts: seq<Action>, more: seq<Action>)
    ensures Run(acts).a.link.incomingSequence <= Run(acts + more).a.link.incomingSequence
    ensures Run(acts).b.link.incomingSequence <= Run(acts + more).b.link.incomingSequence
    decreases |more|
  {
    if more == [] {
      assert acts + more == acts;
    } else {
      var init := more[..|more| - 1];
      NumbersGrow(acts, init);
      assert (acts + more)[..|acts + more| - 1] == acts + init;
      var sys := Run(acts + init);
      assert Run(acts + more) == Step(sys, more[|more| - 1]);
      hide StepAt, Run;
      match more[|more| - 1]
      case AtA(e) => StepGrows(sys.a, sys.b, e);
      case AtB(e) => StepGrows(sys.b, sys.a, e);
    }
  }

  lemma HandedOver(acts: seq<Action>, p: Packet)
    requires Fits31(p.header)
    ensures p in Run(acts).a.out ==>
      p.header.sequence <= Run(acts + [AtB(Receive(p))]).b.link.incomingSequence
    ensures p in Run(acts).b.out ==>
      p.header.sequence <= Run(acts + [AtA(Receive(p))]).a.link.incomingSequence
  {
    assert (acts + [AtB(Receive(p))])[..|acts|] == acts == (acts + [AtA(Receive(p))])[..|acts|];
    WireParses(p);
    hide Wire, ParseHeader;
  }

  /** A datagram counts once: after a packet has been handed to an end, however the run goes on, that
      packet and every one numbered before it change nothing when the network delivers them there. */
  lemma DeliveredOnce(acts: seq<Action>, more: seq<Action>, p: Packet, q: Packet)
    requires Fits31(p.header) && q.header.sequence <= p.header.sequence
    ensures p in Run(acts).a.out ==>
      var sys := Run(acts + [AtB(Receive(p))] + more); Step(sys, AtB(Receive(q))) == sys
    ensures p in Run(acts).b.out ==>
      var sys := Run(acts + [AtA(Receive(p))] + more); Step(sys, AtA(Receive(q))) == sys
  {
    HandedOver(acts, p);
    NumbersGrow(acts + [AtB(Receive(p))], more);
    NumbersGrow(acts + [AtA(Receive(p))], more);
    hide Run;
    if Fits31(q.header) {
      WireParses(q);
    }
    hide Wire, ParseHeader;
  }

  /** One packet sent by `s`, with any unreliable data, and received by `r`. */
  function Hop(s: Side, r: Side, qport: seq<byte>, data: Message): (Side, Side) {
    var p := NextPacket(s.link, qport, data);
    (TransmitAt(s, qport, data, true), ReceiveAt(r, p))
  }

  ghost predicate Healthy(s: Side, r: Side) {
    && Direction(s, r) && Direction(r, s)
    && BuffersFit(s.link) && BuffersFit(r.link)
    && !s.link.overflowed && !r.link.overflowed
  }

  /** Accepting a flagged packet brings the receiver up to date. */
  lemma CarriesMissing(s: Side, r: Side, p: Packet)
    requires Direction(s, r) && p in s.out && Fits31(p.header)
    requires p.header.flagged && Accepts(r.link, p.header)
    ensures ReceiveAt(r, p).got == s.sent
  {
    Receives(r, p);
    hide AcksTelling, AcksSettle, ReceiveAt;
  }

  lemma DirectionParts(s: Side, r: Side)
    requires Direction(s, r)
    ensures Numbered(s, r) && Counted(s, r) && AcksTelling(s, r)
  {
  }

  lemma NextNumber(s: Link, qport: seq<byte>, data: Message)
    requires s.outgoingSequence < TWO_31
    ensures NextPacket(s, qport, data).header.sequence == s.outgoingSequence
  {
    hide SendsReliable, Commit;
  }

  lemma StillFits(s: Link, r: Link, h: Header)
    requires BuffersFit(s) && BuffersFit(r)
    ensures BuffersFit(Transmitted(s)) && BuffersFit(Processed(r, h))
  {
    hide SendsReliable;
  }

  /** The effect of a hop on the fields that later hops depend on. */
  lemma HopNumbers(s: Side, r: Side, qport: seq<byte>, data: Message)
    requires Numbered(s, r) && BuffersFit(s.link) && BuffersFit(r.link) && s.link.outgoingSequence < TWO_31
    requires !s.link.overflowed && !r.link.overflowed
    ensures var (s', r') := Hop(s, r, qport, data);
      && s'.link == Transmitted(s.link)
      && r'.link == Processed(r.link, NextPacket(s.link, qport, data).header)
      && Accepts(r.link, NextPacket(s.link, qport, data).header)
      && r'.link.incomingSequence == s.link.outgoingSequence
      && BuffersFit(s'.link) && BuffersFit(r'.link) && s.sent <= s'.sent
      && r'.sent == r.sent && s'.got == s.got
  {
    hide ReceiveAt, HasRoom, SendsReliable, BuffersFit, Commit, StagedWaiting, NextPacket, Transmitted;
    NextNumber(s.link, qport, data);
    Receives(r, NextPacket(s.link, qport, data));
    StillFits(s.link, r.link, NextPacket(s.link, qport, data).header);
  }

  lemma HopKeeps(s: Side, r: Side, qport: seq<byte>, data: Message)
    requires Healthy(s, r) && HasRoom(s.link, qport, data) && s.link.outgoingSequence < TWO_31
    ensures Healthy(Hop(s, r, qport, data).0, Hop(s, r, qport, data).1)
    ensures SendsReliable(s.link) ==> Hop(s, r, qport, data).1.got == Hop(s, r, qport, data).0.sent
  {
    var p := NextPacket(s.link, qport, data);
    var s' := TransmitAt(s, qport, data, true);
    DirectionParts(s, r);
    DirectionParts(r, s);
    assert p in s'.out && !s'.link.overflowed && s'.link.reliable == Commit(s.link).reliable;
    HopNumbers(s, r, qport, data);
    TransmitKeepsSender(s, r, qport, data, true);
    TransmitKeepsReceiver(r, s, qport, data, true);
    if SendsReliable(s.link) {
      CarriesMissing(s', r, p);
    }
    hide Direction, Numbered, BuffersFit, HasRoom, TransmitAt, SendsReliable;
    ReceiveKeepsReceiver(s', r, p);
    ReceiveKeepsSender(r, s', p);
    Receives(r, p);
  }

  /** A hop that does not carry the reliable message tells the receiver's next packet to say so. */
  lemma ReplyReveals(s: Side, r: Side, q: seq<byte>, q': seq<byte>, d: Message, d': Message)
    requires Healthy(s, r) && s.link.outgoingSequence < TWO_31 && r.link.outgoingSequence < TWO_31
    requires HasRoom(s.link, q, d) && HasRoom(Hop(s, r, q, d).1.link, q', d')
    ensures var (s1, r1) := Hop(s, r, q, d);
      var (r2, s2) := Hop(r1, s1, q', d');
      Healthy(s2, r2) && (SendsReliable(s2.link) || r2.got == s2.sent) && s.sent <= s2.sent &&
      s2.link.outgoingSequence == s.link.outgoingSequence + 1 && r2.link.outgoingSequence == r.link.outgoingSequence + 1
  {
    DirectionParts(s, r);
    DirectionParts(r, s);
    HopKeeps(s, r, q, d);
    var (s1, r1) := Hop(s, r, q, d);
    HopNumbers(s, r, q, d);
    DirectionParts(s1, r1);
    DirectionParts(r1, s1);
    HopKeeps(r1, s1, q', d');
    HopNumbers(r1, s1, q', d');
    var (r2, s2) := Hop(r1, s1, q', d');
    DirectionParts(s2, r2);
    hide Direction, Numbered, BuffersFit, Hop, HasRoom;
    assert s2.link.incomingAcknowledged == s.link.outgoingSequence;
    assert r2.got != s2.sent ==> s2.link.incomingReliableAcknowledged != s2.link.reliableSequence;
    if r2.got != s2.sent {
      assert r2.got == r1.got && s2.sent == s1.sent;
      assert !SendsReliable(s.link);
    }
  }

  /** After a forward hop everything committed has arrived, if it had before or the hop carried it. */
  lemma ForwardDelivers(s: Side, r: Side, q: seq<byte>, d: Message)
    requires Healthy(s, r) && HasRoom(s.link, q, d) && s.link.outgoingSequence < TWO_31
    requires SendsReliable(s.link) || r.got == s.sent
    ensures var (s', r') := Hop(s, r, q, d);
      Healthy(s', r') && s.sent <= s'.sent == r'.got && r'.link.outgoingSequence == r.link.outgoingSequence
  {
    DirectionParts(s, r);
    HopKeeps(s, r, q, d);
    HopNumbers(s, r, q, d);
    WireParses(NextPacket(s.link, q, d));
  }

  /** An acknowledgement from a receiver that has everything empties the reliable buffer. */
  lemma ReplyClears(s: Side, r: Side, q: seq<byte>, d: Message)
    requires Healthy(s, r) && r.link.outgoingSequence < TWO_31
    requires r.got == s.sent
    ensures var (r', s') := Hop(r, s, q, d);
      s'.link.reliable == [] && s'.sent == s.sent
  {
    DirectionParts(r, s);
    DirectionParts(s, r);
    HopNumbers(r, s, q, d);
  }

  /** From every healthy state, one packet forward, one back and one more forward deliver everything
      committed; one more back empties the sender's reliable buffer. The packets carry any unreliable
      data that leaves room for them; otherwise Transmit ends in an error and sends nothing. */
  lemma Recovery(s: Side, r: Side, q: seq<byte>, q': seq<byte>, d1: Message, d2: Message, d3: Message, d4: Message)
    requires Healthy(s, r)
    requires s.link.outgoingSequence < TWO_31 - 1 && r.link.outgoingSequence < TWO_31 - 1
    requires var (s1, r1) := Hop(s, r, q, d1);
      var (r2, s2) := Hop(r1, s1, q', d2);
      var (s3, r3) := Hop(s2, r2, q, d3);
      && HasRoom(s.link, q, d1) && HasRoom(r1.link, q', d2)
      && HasRoom(s2.link, q, d3) && HasRoom(r3.link, q', d4)
    ensures var (s1, r1) := Hop(s, r, q, d1);
      var (r2, s2) := Hop(r1, s1, q', d2);
      var (s3, r3) := Hop(s2, r2, q, d3);
      var (r4, s4) := Hop(r3, s3, q', d4);
      s.sent <= s3.sent == r3.got && s4.sent == s3.sent && s4.link.reliable == []
  {
    ReplyReveals(s, r, q, q', d1, d2);
    hide Healthy, SendsReliable, HasRoom, Hop;
    var (s1, r1) := Hop(s, r, q, d1);
    var (r2, s2) := Hop(r1, s1, q', d2);
    ForwardDelivers(s2, r2, q, d3);
    var (s3, r3) := Hop(s2, r2, q, d3);
    ReplyClears(s3, r3, q', d4);
  }

  /** Every state reached without overflowing either staging buffer is healthy, in both directions,
      and a hop is two actions of the run; so `Recovery` applies wherever a run may stop. */
  lemma ReachableIsHealthy(acts: seq<Action>)
    requires |acts| < TWO_31
    requires !Run(acts).a.link.overflowed && !Run(acts).b.link.overflowed
    ensures Healthy(Run(acts).a, Run(acts).b) && Healthy(Run(acts).b, Run(acts).a)
  {
    RunKeeps(acts);
  }

  lemma HopIsTwoActions(sys: System, qport: seq<byte>, data: Message)
    requires Healthy(sys.a, sys.b)
    ensures HasRoom(sys.a.link, qport, data) ==>
      Step(Step(sys, AtA(Transmit(qport, data, true))), AtB(Receive(NextPacket(sys.a.link, qport, data))))
        == System(Hop(sys.a, sys.b, qport, data).0, Hop(sys.a, sys.b, qport, data).1)
    ensures HasRoom(sys.b.link, qport, data) ==>
      Step(Step(sys, AtB(Transmit(qport, data, true))), AtA(Receive(NextPacket(sys.b.link, qport, data))))
        == System(Hop(sys.b, sys.a, qport, data).1, Hop(sys.b, sys.a, qport, data).0)
  {
    assert !sys.a.link.overflowed && !sys.b.link.overflowed;
    hide HasRoom, Transmitted, ReceiveAt, Healthy, StagedWaiting;
  }

  // ---------------------------------------------------------------------------------------------
  // Running out of numbers

  /** The highest number there is has been accepted. */
  predicate Exhausted(s: Link) {
    s.incomingSequence == TWO_31 - 1
  }

  /** The sender's next packet is accepted exactly if its number, which counts modulo 2^31, is still
      higher; some later packet will be exactly if the highest number has not been seen. */
  lemma LaterAccepted(s: Link, r: Link, qport: seq<byte>, data: Message)
    ensures Accepts(r, NextPacket(s, qport, data).header) <==> s.outgoingSequence % TWO_31 > r.incomingSequence
    ensures (exists n ::
        n >= s.outgoingSequence && Accepts(r, NextPacket(s.(outgoingSequence := n), qport, data).header))
      <==> r.incomingSequence < TWO_31 - 1
  {
    if r.incomingSequence < TWO_31 - 1 {
      var n := s.outgoingSequence + (TWO_31 - 1 - s.outgoingSequence % TWO_31);
      assert n % TWO_31 == TWO_31 - 1;
      assert Accepts(r, NextPacket(s.(outgoingSequence := n), qport, data).header);
    }
  }

  /** An end that has seen the highest number accepts nothing, and commits at most once more. */
  predicate Stuck(was: Side, s: Side) {
    && Exhausted(s.link) && s.got == was.got
    && s.link.incomingReliableAcknowledged == was.link.incomingReliableAcknowledged
    && was.sent <= s.sent && |s.sent| <= |was.sent| + (if was.link.reliable == [] then 1 else 0)
    && (s.sent == was.sent || s.link.reliable != []) && (was.link.reliable != [] ==> s.link.reliable != [])
  }

  lemma StuckStep(was: Side, s: Side, peer: Side, e: Event)
    requires Stuck(was, s)
    ensures Stuck(was, StepAt(s, peer, e))
  {
    if e.Receive? && Fits31(e.p.header) {
      assert !Accepts(s.link, ParseHeader(Wire(e.p)));
    }
    hide HasRoom, NextPacket, Wire, ParseHeader, SendsReliable;
  }

  /** Once an end of a run has seen the number 2^31 - 1, nothing that either end does later makes it
      accept a packet again: no message is handed over any more, the last acknowledgement stays what
      it is, and with it the reliable buffer, so that at most one more message is ever committed. */
  lemma {:induction false} WrapStalls(acts: seq<Action>, more: seq<Action>)
    ensures Exhausted(Run(acts).a.link) ==> Stuck(Run(acts).a, Run(acts + more).a)
    ensures Exhausted(Run(acts).b.link) ==> Stuck(Run(acts).b, Run(acts + more).b)
    decreases |more|
  {
    hide StepAt;
    if more == [] {
      assert acts + more == acts;
    } else {
      var init, act := more[..|more| - 1], more[|more| - 1];
      assert (acts + more)[..|acts + more| - 1] == acts + init;
      WrapStalls(acts, init);
      var sys := Run(acts + init);
      assert Run(acts + more) == Step(sys, act);
      if act.AtA? && Exhausted(Run(acts).a.link) {
        StuckStep(Run(acts).a, sys.a, sys.b, act.event);
      }
      if act.AtB? && Exhausted(Run(acts).b.link) {
        StuckStep(Run(acts).b, sys.b, sys.a, act.event);
      }
    }
  }

  /** `n` packets without data from the one end, the last of which the other end receives. */
  function Idle(n: nat): seq<Action> {
    seq(n, _ => AtA(Transmit([], [], true)))
  }

  lemma {:induction false} IdleSends(n: nat)
    ensures Run(Idle(n)).a.link == FRESH.(outgoingSequence := n + 1) && Run(Idle(n)).b == START
    ensures Run(Idle(n)).a.sent == []
    ensures n > 0 ==> NextPacket(FRESH.(outgoingSequence := n), [], []) in Run(Idle(n)).a.out
  {
    if n > 0 {
      IdleSends(n - 1);
      assert Idle(n)[..n - 1] == Idle(n - 1);
    }
  }

  /** A run of 2^31 actions, one more than `ReliableDelivery` allows, that leaves one end exhausted. */
  function Exhausting(): (acts: seq<Action>)
    ensures |acts| == TWO_31
  {
    Idle(TWO_31 - 1) + [AtB(Receive(NextPacket(FRESH.(outgoingSequence := TWO_31 - 1), [], [])))]
  }

  lemma LastDelivered(sys: System)
    requires var p := NextPacket(FRESH.(outgoingSequence := TWO_31 - 1), [], []);
      sys.b == START && p in sys.a.out
    ensures var p := NextPacket(FRESH.(outgoingSequence := TWO_31 - 1), [], []);
      var after := Step(sys, AtB(Receive(p)));
      after.a == sys.a && Exhausted(after.b.link) && after.b.got == []
  {
    WireParses(NextPacket(FRESH.(outgoingSequence := TWO_31 - 1), [], []));
    hide Wire, ParseHeader;
  }

  lemma RunOne(acts: seq<Action>, x: Action)
    ensures Run(acts + [x]) == Step(Run(acts), x)
  {
    assert (acts + [x])[..|acts|] == acts;
  }

  lemma ExhaustingEnds()
    ensures var sys := Run(Exhausting());
      && sys.a.link == FRESH.(outgoingSequence := TWO_31) && sys.a.sent == []
      && Exhausted(sys.b.link) && sys.b.got == []
  {
    var p := NextPacket(FRESH.(outgoingSequence := TWO_31 - 1), [], []);
    hide Run, Step, NextPacket, Idle, Exhausted;
    IdleSends(TWO_31 - 1);
    LastDelivered(Run(Idle(TWO_31 - 1)));
    RunOne(Idle(TWO_31 - 1), AtB(Receive(p)));
  }

  lemma RunTwo(acts: seq<Action>, x: Action, y: Action)
    ensures Run(acts + [x, y]) == Step(Step(Run(acts), x), y)
  {
    hide *;
    assert acts + [x, y] == acts + [x] + [y];
    RunOne(acts, x);
    RunOne(acts + [x], y);
  }

  lemma StagedIsSent(s: Side, peer: Side, data: Message, n: nat)
    requires s.link == FRESH.(outgoingSequence := n) && s.sent == [] && 0 < |data| <= MAX_STAGED
    ensures StepAt(StepAt(s, peer, Stage(data)), peer, Transmit([], [], true)).sent == [data]
  {
    assert [] + data == data;
    hide HasRoom, NextPacket;
  }

  /** What is committed after that run never arrives. */
  lemma WrapReached(data: Message, more: seq<Action>)
    requires 0 < |data| <= MAX_STAGED
    ensures Exhausted(Run(Exhausting()).b.link) && Run(Exhausting()).a.link.outgoingSequence == TWO_31
    ensures var send := [AtA(Stage(data)), AtA(Transmit([], [], true))];
      Run(Exhausting() + send).a.sent == [data] && Run(Exhausting() + (send + more)).b.got == []
  {
    var send := [AtA(Stage(data)), AtA(Transmit([], [], true))];
    ExhaustingEnds();
    RunTwo(Exhausting(), AtA(Stage(data)), AtA(Transmit([], [], true)));
    StagedIsSent(Run(Exhausting()).a, Run(Exhausting()).b, data, TWO_31);
    WrapStalls(Exhausting(), send + more);
    hide Run, StepAt, Exhausting;
  }
}
