/** The reliable channel of qcommon/net_chan.c: one endpoint, its packets and their bytes.

    `Link` holds the sequencing fields of `netchan_t`; `Loss` holds its packet-loss counters, which
    decide only how many copies of a datagram go out. `Channel` is the mutable object itself. */
module Netchan {
  import opened Bytes

  type Message = seq<byte>

  const MAX_MSGLEN := 1400
  const MAX_STAGED := 1390

  /** The two header words of a packet, taken apart. */
  datatype Header = Header(sequence: nat, flagged: bool, ack: nat, parity: bool)

  /** A packet as its sender sees it. `flagged` says that `reliable` is a reliable message;
      the receiver cannot tell where that message ends and the unreliable part begins. */
  datatype Packet = Packet(header: Header, qport: seq<byte>, reliable: Message, unreliable: Message)

  datatype Link = Link(
    incomingSequence: nat,
    incomingAcknowledged: nat,
    incomingReliableAcknowledged: bool,
    incomingReliableSequence: bool,
    outgoingSequence: nat,
    reliableSequence: bool,
    lastReliableSequence: nat,
    message: Message,
    overflowed: bool,
    reliable: Message)

  datatype Loss = Loss(inTotal: nat, inDropped: nat, outTotal: nat, outDropped: nat)

  datatype Status = Sent | SendFailed | MessageOverflow | DropError

  const FRESH := Link(0, 0, false, false, 1, false, 0, [], false, [])

  // ---------------------------------------------------------------------------------------------
  // Packets as bytes

  predicate Fits31(h: Header) {
    h.sequence < TWO_31 && h.ack < TWO_31
  }

  function Word(value: nat, top: bool): (w: nat)
    requires value < TWO_31
    ensures w < TWO_32
  {
    value + if top then TWO_31 else 0
  }

  function HeaderBytes(h: Header): (r: seq<byte>)
    requires Fits31(h)
    ensures |r| == 8
  {
    LittleEndian(Word(h.sequence, h.flagged)) + LittleEndian(Word(h.ack, h.parity))
  }

  /** The datagram: two words, the client's qport, the reliable part, the unreliable part. */
  function Wire(p: Packet): (r: seq<byte>)
    requires Fits31(p.header)
  {
    HeaderBytes(p.header) + p.qport + p.reliable + p.unreliable
  }

  /** MSG_ReadLong: running past the end of the message yields -1. */
  function ReadLong(msg: seq<byte>, at: nat): (w: nat)
    ensures w < TWO_32
  {
    if at + 4 <= |msg| then ReadLittleEndian(msg, at) else TWO_32 - 1
  }

  function ParseHeader(msg: seq<byte>): (h: Header)
    ensures Fits31(h)
  {
    var w1 := ReadLong(msg, 0);
    var w2 := ReadLong(msg, 4);
    Header(w1 % TWO_31, w1 >= TWO_31, w2 % TWO_31, w2 >= TWO_31)
  }

  /** What the application reads once the header has been consumed. */
  function Body(msg: seq<byte>, readsQport: bool): (r: seq<byte>) {
    var start := if readsQport then 10 else 8;
    if start <= |msg| then msg[start..] else []
  }

  lemma WordParts(value: nat, top: bool)
    requires value < TWO_31
    ensures Word(value, top) % TWO_31 == value && (Word(value, top) >= TWO_31 <==> top)
  {
  }

  lemma HeaderRoundTrip(h: Header, rest: seq<byte>)
    requires Fits31(h)
    ensures ParseHeader(HeaderBytes(h) + rest) == h
  {
    var w1, w2 := Word(h.sequence, h.flagged), Word(h.ack, h.parity);
    ReadBack([], w1, LittleEndian(w2) + rest);
    ReadBack(LittleEndian(w1), w2, rest);
    WordParts(h.sequence, h.flagged);
    WordParts(h.ack, h.parity);
    hide LittleEndian, ReadLittleEndian, Word;
    var msg := HeaderBytes(h) + rest;
    assert msg == [] + LittleEndian(w1) + (LittleEndian(w2) + rest);
    assert msg == LittleEndian(w1) + LittleEndian(w2) + rest;
    assert ReadLong(msg, 0) == w1 && ReadLong(msg, 4) == w2;
    hide ReadLong, HeaderBytes;
  }

  /** A receiver recovers both words, the flag and parity bits, and a body that begins with the
      reliable message. */
  lemma WireRoundTrip(p: Packet, readsQport: bool)
    requires Fits31(p.header)
    requires |p.qport| == if readsQport then 2 else 0
    ensures ParseHeader(Wire(p)) == p.header
    ensures Body(Wire(p), readsQport) == p.reliable + p.unreliable
  {
    HeaderRoundTrip(p.header, p.qport + p.reliable + p.unreliable);
    hide HeaderBytes, ParseHeader;
    assert Wire(p) == HeaderBytes(p.header) + (p.qport + p.reliable + p.unreliable);
    assert Wire(p) == (HeaderBytes(p.header) + p.qport) + (p.reliable + p.unreliable);
  }

  /** Where things stand in a datagram: two words, the top bit of the first for the reliable part and of the
      second for the parity, and everything else behind them. */
  lemma WireLayout(p: Packet)
    requires Fits31(p.header)
    ensures var w, h := Wire(p), p.header;
      && |w| >= 8 && w[8..] == p.qport + p.reliable + p.unreliable
      && ReadLittleEndian(w, 0) == h.sequence + (if h.flagged then 0x8000_0000 else 0)
      && ReadLittleEndian(w, 4) == h.ack + (if h.parity then 0x8000_0000 else 0)
  {
    var h, rest := p.header, p.qport + p.reliable + p.unreliable;
    var w1, w2 := Word(h.sequence, h.flagged), Word(h.ack, h.parity);
    ReadBack([], w1, LittleEndian(w2) + rest);
    ReadBack(LittleEndian(w1), w2, rest);
    hide LittleEndian, ReadLittleEndian;
    assert Wire(p) == HeaderBytes(h) + rest;
    assert Wire(p) == [] + LittleEndian(w1) + (LittleEndian(w2) + rest);
    assert Wire(p) == LittleEndian(w1) + LittleEndian(w2) + rest;
  }

  /** A word that a datagram is too short for reads as all ones. */
  lemma ShortDatagram(msg: seq<byte>)
    ensures |msg| < 4 ==> ParseHeader(msg).sequence == 0x7fff_ffff && ParseHeader(msg).flagged
    ensures |msg| < 8 ==> ParseHeader(msg).ack == 0x7fff_ffff && ParseHeader(msg).parity
  {
  }

  // ---------------------------------------------------------------------------------------------
  // One endpoint, as functions

  predicate StagedWaiting(s: Link) {
    |s.reliable| == 0 && |s.message| != 0
  }

  /** The peer has acknowledged something later than the last reliable packet, with the parity of
      somebody who has not seen that packet. */
  predicate Missed(s: Link) {
    s.incomingAcknowledged > s.lastReliableSequence && s.incomingReliableAcknowledged != s.reliableSequence
  }

  predicate SendsReliable(s: Link) {
    Missed(s) || StagedWaiting(s)
  }

  /** Moves the staged message to the reliable buffer and flips the outgoing parity. */
  function Commit(s: Link): Link {
    if StagedWaiting(s) then
      s.(reliable := s.message, message := [], reliableSequence := !s.reliableSequence)
    else s
  }

  function Transmitted(s: Link): Link {
    if s.overflowed then s else
    Commit(s).(outgoingSequence := s.outgoingSequence + 1,
               lastReliableSequence := if SendsReliable(s) then s.outgoingSequence else s.lastReliableSequence)
  }

  function NextPacket(s: Link, qport: seq<byte>, data: Message): (p: Packet)
    ensures Fits31(p.header)
  {
    Packet(
      Header(s.outgoingSequence % TWO_31, SendsReliable(s),
             s.incomingSequence % TWO_31, s.incomingReliableSequence),
      qport,
      if SendsReliable(s) then Commit(s).reliable else [],
      data)
  }

  /** The part of the datagram that does not depend on the unreliable data. */
  function Prefix(s: Link, qport: seq<byte>): (r: seq<byte>) {
    HeaderBytes(Header(s.outgoingSequence % TWO_31, SendsReliable(s),
                       s.incomingSequence % TWO_31, s.incomingReliableSequence)) +
    qport + (if SendsReliable(s) then Commit(s).reliable else [])
  }

  predicate HasRoom(s: Link, qport: seq<byte>, data: Message) {
    8 + |qport| + |NextPacket(s, qport, data).reliable| + |data| <= MAX_MSGLEN
  }

  lemma PreparedIsPacket(s: Link, qport: seq<byte>, data: Message)
    ensures Prefix(s, qport) + data == Wire(NextPacket(s, qport, data))
    ensures HasRoom(s, qport, data) <==> |Prefix(s, qport)| + |data| <= MAX_MSGLEN
    ensures HasRoom(s, qport, data) <==> |Prefix(s, qport)| + |data| <= 1400
  {
    hide HeaderBytes, Commit, SendsReliable;
  }

  predicate Accepts(s: Link, h: Header) {
    h.sequence > s.incomingSequence
  }

  function Processed(s: Link, h: Header): Link {
    if !Accepts(s, h) then s else
    s.(reliable := if h.parity == s.reliableSequence then [] else s.reliable,
       incomingSequence := h.sequence,
       incomingAcknowledged := h.ack,
       incomingReliableAcknowledged := h.parity,
       incomingReliableSequence := if h.flagged then !s.incomingReliableSequence else s.incomingReliableSequence)
  }

  /** SZ_Write on the staging buffer, which has allowoverflow set. */
  function Staged(s: Link, data: Message): Link {
    if |s.message| + |data| > MAX_STAGED then s.(message := data, overflowed := true)
    else s.(message := s.message + data)
  }

  predicate BuffersFit(s: Link) {
    |s.message| <= MAX_STAGED && |s.reliable| <= MAX_STAGED
  }

  // ---------------------------------------------------------------------------------------------
  // Packet-loss counters

  predicate LossSane(c: Loss) {
    c.inDropped <= c.inTotal && c.outDropped <= c.outTotal
  }

  /** The counters decay once enough packets have been counted, so that recent loss weighs more. */
  function Decayed(c: Loss): Loss {
    if c.outTotal >= (if c.outDropped == 1 then 2000 else 600)
    then Loss(c.inTotal / 2, c.inDropped / 2, c.outTotal / 2, c.outDropped / 2)
    else c
  }

  /** What an acknowledgement that skips ahead by `gap` tells about outgoing loss: `timely` ones are all
      counted, of others only those of a reliable message, which may have been missed. */
  function AckMeasured(c: Loss, gap: nat, timely: bool, reliable: bool, missed: bool): Loss
    requires gap > 0
  {
    Decayed(if timely then c.(outTotal := c.outTotal + gap, outDropped := c.outDropped + (gap - 1))
            else if reliable then
              c.(outTotal := c.outTotal + 1, outDropped := c.outDropped + if missed then 1 else 0)
            else c)
  }

  /** A packet whose number is `gap` ahead of the last one accepted: the numbers between are lost. */
  function Arrived(c: Loss, gap: nat): Loss
    requires gap > 0
  {
    c.(inTotal := c.inTotal + gap, inDropped := c.inDropped + (gap - 1))
  }

  /** The counters after a packet that is not stale. */
  function Measured(c: Loss, s: Link, h: Header, timely: bool): Loss
    requires Accepts(s, h)
  {
    var arrived := Arrived(c, h.sequence - s.incomingSequence);
    if h.ack <= s.incomingAcknowledged then arrived
    else AckMeasured(arrived, h.ack - s.incomingAcknowledged, timely,
                     |s.reliable| != 0 && h.ack >= s.lastReliableSequence, h.parity != s.reliableSequence)
  }

  /** Loss never runs ahead of the totals it is measured against, decay included. */
  lemma MeasuredSane(c: Loss, s: Link, h: Header, timely: bool)
    requires LossSane(c) && Accepts(s, h)
    ensures LossSane(Measured(c, s, h, timely))
  {
  }

  lemma DecayedIs(d: Loss)
    ensures Decayed(d) ==
      if d.outTotal >= 600 && (d.outDropped != 1 || d.outTotal >= 2000)
      then Loss(d.inTotal / 2, d.inDropped / 2, d.outTotal / 2, d.outDropped / 2) else d
  {
  }

  lemma AckCounts(c: Loss, gap: nat, timely: bool, covered: bool, missed: bool) returns (d: Loss)
    requires gap > 0
    ensures AckMeasured(c, gap, timely, covered, missed) == Decayed(d)
    ensures d.inTotal == c.inTotal && d.inDropped == c.inDropped
    ensures timely ==> d.outTotal == c.outTotal + gap && d.outTotal - d.outDropped == c.outTotal - c.outDropped + 1
    ensures !timely ==> d.outTotal == c.outTotal + (if covered then 1 else 0)
    ensures !timely ==> d.outDropped == c.outDropped + (if covered && missed then 1 else 0)
  {
    d := if timely then c.(outTotal := c.outTotal + gap, outDropped := c.outDropped + (gap - 1))
      else if covered then c.(outTotal := c.outTotal + 1, outDropped := c.outDropped + if missed then 1 else 0)
      else c;
    hide Decayed;
  }

  /** What the counters say. Apart from what is lost, every packet accepted counts one, and so does every
      timely acknowledgement, while the totals grow by the numbers passed. An acknowledgement that is not
      timely counts only if it covers a reliable message, and as a loss if its parity says so. When an
      acknowledgement brings the outgoing total to 600, or to 2000 while a single loss is counted, all
      counters are halved. */
  lemma MeasuredCounts(c: Loss, s: Link, h: Header, timely: bool) returns (d: Loss)
    requires Accepts(s, h)
    ensures d.inTotal == c.inTotal + (h.sequence - s.incomingSequence)
    ensures d.inTotal - d.inDropped == c.inTotal - c.inDropped + 1
    ensures h.ack <= s.incomingAcknowledged ==> d.outTotal == c.outTotal && d.outDropped == c.outDropped
    ensures h.ack > s.incomingAcknowledged && timely ==>
      && d.outTotal == c.outTotal + (h.ack - s.incomingAcknowledged)
      && d.outTotal - d.outDropped == c.outTotal - c.outDropped + 1
    ensures h.ack > s.incomingAcknowledged && !timely ==>
      var covered := s.reliable != [] && h.ack >= s.lastReliableSequence;
      && d.outTotal == c.outTotal + (if covered then 1 else 0)
      && d.outDropped == c.outDropped + (if covered && h.parity != s.reliableSequence then 1 else 0)
    ensures Measured(c, s, h, timely) ==
      if h.ack > s.incomingAcknowledged && d.outTotal >= 600 && (d.outDropped != 1 || d.outTotal >= 2000)
      then Loss(d.inTotal / 2, d.inDropped / 2, d.outTotal / 2, d.outDropped / 2) else d
  {
    hide AckMeasured, Decayed;
    d := Arrived(c, h.sequence - s.incomingSequence);
    if h.ack > s.incomingAcknowledged {
      d := AckCounts(d, h.ack - s.incomingAcknowledged, timely, |s.reliable| != 0 && h.ack >= s.lastReliableSequence,
                     h.parity != s.reliableSequence);
      DecayedIs(d);
    }
  }

  /** The counters after headers that arrive one after the other, with every acknowledgement timely. */
  function AllMeasured(c: Loss, s: Link, hs: seq<Header>): Loss
    decreases |hs|
  {
    if hs == [] then c
    else if !Accepts(s, hs[0]) then AllMeasured(c, s, hs[1..])
    else AllMeasured(Measured(c, s, hs[0], true), Processed(s, hs[0]), hs[1..])
  }

  /** Every accepted header acknowledges one number more than those before it, or no more. */
  predicate AcksInOrder(s: Link, hs: seq<Header>)
    decreases |hs|
  {
    hs != [] ==>
      && (Accepts(s, hs[0]) ==> hs[0].ack <= s.incomingAcknowledged + 1)
      && AcksInOrder(Processed(s, hs[0]), hs[1..])
  }

  /** A channel that is acknowledged number by number counts no outgoing loss, whatever is lost on the
      way in; so it sends each datagram once. */
  lemma {:induction false} InOrderCountsNoLoss(c: Loss, s: Link, hs: seq<Header>)
    requires c.outDropped == 0 && AcksInOrder(s, hs)
    ensures AllMeasured(c, s, hs).outDropped == 0
    decreases |hs|
  {
    if hs != [] {
      var d := c;
      if Accepts(s, hs[0]) {
        var _ := MeasuredCounts(c, s, hs[0], true);
        d := Measured(c, s, hs[0], true);
      }
      hide Measured, Processed, Accepts;
      InOrderCountsNoLoss(d, Processed(s, hs[0]), hs[1..]);
    }
  }

  // ---------------------------------------------------------------------------------------------
  // The channel object

  class Channel {
    const isClient: bool
    const qport: nat
    var gotReliable: bool
    var dropped: nat
    var lastReceived: nat
    var lastSent: nat
    var incomingSequence: nat
    var incomingAcknowledged: nat
    var incomingReliableAcknowledged: bool
    var incomingReliableSequence: bool
    var outgoingSequence: nat
    var reliableSequence: bool
    var lastReliableSequence: nat
    var message: Message
    var overflowed: bool
    var reliable: Message
    var countAcks: bool
    var inTotal: nat
    var inDropped: nat
    var outTotal: nat
    var outDropped: nat
    var packetDup: nat
    var packetsIn: nat
    var bytesIn: nat
    var packetsOut: nat
    var bytesOut: nat

    ghost function State(): Link
      reads this`incomingSequence, this`incomingAcknowledged, this`incomingReliableAcknowledged
      reads this`incomingReliableSequence, this`outgoingSequence, this`reliableSequence
      reads this`lastReliableSequence, this`message, this`overflowed, this`reliable
    {
      Link(incomingSequence, incomingAcknowledged, incomingReliableAcknowledged, incomingReliableSequence,
           outgoingSequence, reliableSequence, lastReliableSequence, message, overflowed, reliable)
    }

    ghost function Losses(): Loss
      reads this`inTotal, this`inDropped, this`outTotal, this`outDropped
    {
      Loss(inTotal, inDropped, outTotal, outDropped)
    }

    ghost predicate Valid()
      reads this
    {
      qport < 65536 && BuffersFit(State()) && LossSane(Losses())
    }

    function QportBytes(): (r: seq<byte>)
      requires qport < 65536
      ensures |r| == if isClient then 2 else 0
      ensures isClient ==> r[0] as nat + 256 * (r[1] as nat) == qport
    {
      if isClient then [(qport % 256) as byte, (qport / 256) as byte] else []
    }

    /** Netchan_Setup. */
    constructor (isClient: bool, qport: nat, now: nat)
      requires qport < 65536
      ensures Valid() && State() == FRESH && Losses() == Loss(0, 0, 0, 0)
      ensures this.isClient == isClient && this.qport == qport
      ensures packetsIn == packetsOut == 0
    {
      this.isClient, this.qport := isClient, qport;
      gotReliable, dropped := false, 0;
      lastReceived, lastSent := now, now;
      incomingSequence, incomingAcknowledged := 0, 0;
      incomingReliableAcknowledged, incomingReliableSequence := false, false;
      outgoingSequence, reliableSequence, lastReliableSequence := 1, false, 0;
      message, overflowed, reliable := [], false, [];
      countAcks := false;
      inTotal, inDropped, outTotal, outDropped := 0, 0, 0, 0;
      packetDup, packetsIn, bytesIn, packetsOut, bytesOut := 0, 0, 0, 0, 0;
    }

    /** Appends to the staged reliable message. A single write longer than the whole buffer runs
        past its end in C, so it is not allowed here. */
    method Stage(data: Message)
      requires Valid() && |data| <= MAX_STAGED
      modifies this`message, this`overflowed
      ensures Valid() && State() == Staged(old(State()), data)
      ensures message == if |old(message)| + |data| <= 1390 then old(message) + data else data
      ensures overflowed <==> old(overflowed) || |old(message)| + |data| > 1390
    {
      if |message| + |data| > MAX_STAGED {
        message := [];
        overflowed := true;
      }
      message := message + data;
    }

    lemma ValidParts()
      ensures Valid() <==> qport < 65536 && BuffersFit(State()) && LossSane(Losses())
      ensures overflowed ==> Transmitted(State()) == State()
    {
    }

    /** Netchan_Transmit up to the reliable part: commits, numbers the packet and writes its header. */
    method Prepare(now: nat) returns (send: seq<byte>)
      requires Valid() && !overflowed
      modifies this`reliable, this`message, this`reliableSequence, this`outgoingSequence, this`lastSent,
        this`lastReliableSequence
      ensures BuffersFit(State()) && State() == Transmitted(old(State())) && lastSent == now
      ensures send == Prefix(old(State()), QportBytes())
    {
      hide HeaderBytes, QportBytes;
      var sendReliable :=
        (incomingAcknowledged > lastReliableSequence && incomingReliableAcknowledged != reliableSequence)
        || (|reliable| == 0 && |message| != 0);
      if |reliable| == 0 && |message| != 0 {
        reliable, message := message, [];
        reliableSequence := !reliableSequence;
      }
      send := HeaderBytes(Header(outgoingSequence % TWO_31, sendReliable,
                                 incomingSequence % TWO_31, incomingReliableSequence)) + QportBytes();
      outgoingSequence := outgoingSequence + 1;
      lastSent := now;
      if sendReliable {
        send := send + reliable;
        lastReliableSequence := outgoingSequence - 1;
      }
    }

    /** The sending loop of Netchan_Transmit: duplicates go out only while packets are being lost. */
    method SendCopies(send: seq<byte>, failAt: nat) returns (status: Status, copies: seq<seq<byte>>)
      modifies this`bytesOut, this`packetsOut
      ensures var planned := if outDropped == 0 then 1 else packetDup + 1;
        && status == (if failAt < planned then SendFailed else Sent)
        && |copies| == if failAt < planned then failAt else planned
      ensures forall c <- copies :: c == send
      ensures packetsOut == old(packetsOut) + |copies| && bytesOut == old(bytesOut) + |copies| * |send|
    {
      copies := [];
      var i := 0;
      while i <= packetDup
        invariant i == |copies| <= packetDup + 1 && i <= failAt
        invariant i > 0 ==> outDropped != 0
        invariant packetsOut == old(packetsOut) + i && bytesOut == old(bytesOut) + i * |send|
        invariant forall c <- copies :: c == send
      {
        if i == failAt {
          return SendFailed, copies;
        }
        bytesOut := bytesOut + |send|;
        packetsOut := packetsOut + 1;
        copies := copies + [send];
        assert (i + 1) * |send| == i * |send| + |send|;
        if outDropped == 0 {
          break;
        }
        i := i + 1;
      }
      return Sent, copies;
    }

    /** Netchan_Transmit. `failAt` is the first copy that the socket refuses to send, if any; the
        result lists the copies that reached the network. */
    method Transmit(data: Message, now: nat, failAt: nat) returns (status: Status, copies: seq<seq<byte>>)
      requires Valid()
      modifies this`reliable, this`message, this`reliableSequence, this`outgoingSequence, this`lastSent,
        this`lastReliableSequence, this`bytesOut, this`packetsOut
      ensures Valid() && State() == Transmitted(old(State()))
      ensures status == if old(overflowed) then MessageOverflow
        else if !HasRoom(old(State()), QportBytes(), data) then DropError
        else if failAt < (if outDropped == 0 then 1 else packetDup + 1) then SendFailed
        else Sent
      ensures |copies| == if status == SendFailed then failAt else if status != Sent then 0
        else if outDropped == 0 then 1 else packetDup + 1
      ensures forall c <- copies :: c == Wire(NextPacket(old(State()), QportBytes(), data))
      ensures lastSent == if status == MessageOverflow then old(lastSent) else now
      ensures packetsOut == old(packetsOut) + |copies|
      ensures bytesOut == old(bytesOut) + |copies| * |Wire(NextPacket(old(State()), QportBytes(), data))|
    {
      hide *;
      ValidParts();
      if overflowed {
        return MessageOverflow, [];
      }
      var send := Prepare(now);
      PreparedIsPacket(old(State()), QportBytes(), data);
      ValidParts();
      if MAX_MSGLEN - |send| < |data| {
        return DropError, [];
      }
      status, copies := SendCopies(send + data, failAt);
      ValidParts();
    }

    /** The acknowledgement counts for the loss statistics, because it came quickly or none was
        skipped before it. */
    predicate Timely(ack: nat, now: nat)
      reads this`countAcks, this`lastReceived, this`incomingAcknowledged
    {
      countAcks && ((now - lastReceived) % TWO_32 < 90 || ack == incomingAcknowledged + 1)
    }

    lemma TimelyIs(ack: nat, now: nat)
      ensures Timely(ack, now) ==
        (countAcks && ((now - lastReceived) % TWO_32 < 90 || ack == incomingAcknowledged + 1))
    {
    }

    lemma StaleIgnored(h: Header)
      ensures Accepts(State(), h) <==> h.sequence > incomingSequence
      ensures !Accepts(State(), h) ==> Processed(State(), h) == State()
    {
    }

    /** The sequencing part of Netchan_Process, for a packet that is not stale. */
    method Acknowledge(h: Header)
      requires BuffersFit(State()) && Accepts(State(), h)
      modifies this`reliable, this`incomingSequence, this`incomingAcknowledged,
        this`incomingReliableAcknowledged, this`incomingReliableSequence
      ensures BuffersFit(State()) && State() == Processed(old(State()), h)
    {
      if h.parity == reliableSequence {
        reliable := [];
      }
      incomingSequence, incomingAcknowledged, incomingReliableAcknowledged := h.sequence, h.ack, h.parity;
      if h.flagged {
        incomingReliableSequence := !incomingReliableSequence;
      }
    }

    lemma MeasuredHere(c: Loss, h: Header, timely: bool)
      requires Accepts(State(), h)
      ensures h.sequence > incomingSequence
      ensures var arrived := Arrived(c, h.sequence - incomingSequence);
        Measured(c, State(), h, timely) ==
        if h.ack <= incomingAcknowledged then arrived
        else AckMeasured(arrived, h.ack - incomingAcknowledged, timely,
                         |reliable| != 0 && h.ack >= lastReliableSequence, h.parity != reliableSequence)
    {
    }

    /** The part of Netchan_Process that measures incoming packet loss. */
    method CountArrival(sequence: nat)
      requires sequence > incomingSequence
      modifies this`dropped, this`inTotal, this`inDropped
      ensures dropped == sequence - incomingSequence - 1
      ensures Losses() == Arrived(old(Losses()), sequence - incomingSequence)
    {
      dropped := sequence - (incomingSequence + 1);
      inTotal := inTotal + (sequence - incomingSequence);
      inDropped := inDropped + dropped;
    }

    method Decay()
      modifies this`inTotal, this`inDropped, this`outTotal, this`outDropped
      ensures Losses() == Decayed(old(Losses()))
    {
      if outTotal >= (if outDropped == 1 then 2000 else 600) {
        outTotal := outTotal / 2;
        outDropped := outDropped / 2;
        inTotal := inTotal / 2;
        inDropped := inDropped / 2;
      }
    }

    /** The part of Netchan_Process that measures outgoing packet loss. */
    method CountAcknowledgement(sequenceAck: nat, reliableAck: bool, now: nat)
      requires sequenceAck > incomingAcknowledged
      modifies this`inTotal, this`inDropped, this`outTotal, this`outDropped
      ensures Losses() == AckMeasured(old(Losses()), sequenceAck - incomingAcknowledged, Timely(sequenceAck, now),
        |reliable| != 0 && sequenceAck >= lastReliableSequence, reliableAck != reliableSequence)
    {
      hide Timely, State;
      if Timely(sequenceAck, now) {
        outTotal := outTotal + (sequenceAck - incomingAcknowledged);
        outDropped := outDropped + (sequenceAck - incomingAcknowledged - 1);
      } else if |reliable| != 0 && sequenceAck >= lastReliableSequence {
        outTotal := outTotal + 1;
        if reliableAck != reliableSequence {
          outDropped := outDropped + 1;
        }
      }
      Decay();
    }

    /** The packet-loss counters of Netchan_Process, measured before the new sequence is stored. */
    method CountLoss(h: Header, now: nat)
      requires Accepts(State(), h)
      modifies this`dropped, this`inTotal, this`inDropped, this`outTotal, this`outDropped
      ensures dropped == h.sequence - incomingSequence - 1
      ensures Losses() == Measured(old(Losses()), old(State()), h, old(
        countAcks && ((now - lastReceived) % TWO_32 < 90 || h.ack == incomingAcknowledged + 1)))
    {
      hide *;
      MeasuredHere(Losses(), h, Timely(h.ack, now));
      TimelyIs(h.ack, now);
      CountArrival(h.sequence);
      if h.ack > incomingAcknowledged {
        CountAcknowledgement(h.ack, h.parity, now);
      }
    }

    /** The rest of Netchan_Process, for a packet that is not stale. */
    method Accept(h: Header, now: nat)
      requires BuffersFit(State()) && LossSane(Losses()) && Accepts(State(), h)
      modifies this`dropped, this`lastReceived, this`reliable, this`incomingSequence, this`incomingAcknowledged
      modifies this`incomingReliableAcknowledged, this`incomingReliableSequence
      modifies this`inTotal, this`inDropped, this`outTotal, this`outDropped
      ensures BuffersFit(State()) && LossSane(Losses()) && State() == Processed(old(State()), h)
      ensures dropped == h.sequence - old(incomingSequence) - 1 && lastReceived == now
      ensures Losses() == Measured(old(Losses()), old(State()), h, old(
        countAcks && ((now - lastReceived) % TWO_32 < 90 || h.ack == incomingAcknowledged + 1)))
    {
      hide *;
      MeasuredSane(Losses(), State(), h, Timely(h.ack, now));
      TimelyIs(h.ack, now);
      CountLoss(h, now);
      Acknowledge(h);
      lastReceived := now;
    }

    /** Netchan_Process on the bytes of a datagram. */
    method Process(msg: seq<byte>, now: nat) returns (accepted: bool, body: seq<byte>)
      requires Valid()
      modifies this`gotReliable, this`dropped, this`lastReceived, this`packetsIn, this`bytesIn
      modifies this`reliable, this`incomingSequence, this`incomingAcknowledged
      modifies this`incomingReliableAcknowledged, this`incomingReliableSequence
      modifies this`inTotal, this`inDropped, this`outTotal, this`outDropped
      ensures Valid() && State() == Processed(old(State()), ParseHeader(msg))
      ensures accepted <==> Accepts(old(State()), ParseHeader(msg))
      ensures body == if accepted then Body(msg, !isClient) else []
      ensures gotReliable == ParseHeader(msg).flagged
      ensures packetsIn == old(packetsIn) + 1 && bytesIn == old(bytesIn) + |msg|
      ensures accepted ==> var h := ParseHeader(msg);
        && dropped == h.sequence - old(incomingSequence) - 1 && lastReceived == now
        && Losses() == Measured(old(Losses()), old(State()), h, old(
             countAcks && ((now - lastReceived) % TWO_32 < 90 || h.ack == incomingAcknowledged + 1)))
      ensures !accepted ==>
        dropped == old(dropped) && lastReceived == old(lastReceived) && Losses() == old(Losses())
    {
      var h := ParseHeader(msg);
      StaleIgnored(h);
      hide ParseHeader, Body, BuffersFit, LossSane, ReadLong, Timely, Measured;
      hide State, Losses, Processed, Accepts;
      bytesIn := bytesIn + |msg|;
      packetsIn := packetsIn + 1;
      gotReliable := h.flagged;
      if h.sequence <= incomingSequence {
        return false, [];
      }
      Accept(h, now);
      return true, Body(msg, !isClient);
    }
  }
}
