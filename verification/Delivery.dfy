/**
 * From a new process to the decoded messages: packets built from what is sent,
 * and processed from empty tables.
 */
module Delivery {
  import opened Words
  import opened Options
  import opened RpcHeader
  import opened TableKeys
  import opened AgingChains
  import opened Ownership
  import opened PacketSteps
  import opened Reassembly
  import opened Deframing

  lemma NewProcessIdle(f: Flow)
    ensures Inv(NEW_PROCESS, {}) && Idle(NEW_PROCESS, f)
  {
    NewProcessOk();
    forall k: Key ensures Queue(NEW_PROCESS.tcp, k) == [] {
      EmptyOk<Fragment>(k);
    }
  }

  /** The headers of a captured frame, with their lengths, and what memory holds around the frame. */
  datatype Headers = Headers(secs: uint32, eLen: nat, iLen: nat, hLen: nat, bytes: seq<byte>, beyond: int -> byte)

  /** Ethernet, IP and TCP headers of possible lengths. */
  predicate Possible(h: Headers) {
    14 <= h.eLen && 20 <= h.iLen <= 60 && 20 <= h.hLen <= 60 && |h.bytes| == h.eLen + h.iLen + h.hLen
  }

  /** A fully captured TCP segment of the flow, with bytes behind it that pad the frame. */
  function Segment(f: Flow, seqno: uint32, h: Headers, payload: seq<byte>, padding: seq<byte>): Packet
    requires Possible(h) && |h.bytes| + |payload| + |padding| <= MAX_CAPTURE
  {
    Packet(h.secs, f.srcHost, f.dstHost, f.srcPort, f.dstPort, Tcp(seqno), h.iLen + h.hLen + |payload|,
           h.eLen, h.iLen, h.hLen, h.bytes + payload + padding, h.beyond)
  }

  // ----- a message cut into segments

  /** The next `size` bytes of the stream in a segment, and the other packets that come before it. */
  datatype Piece = Piece(before: seq<Packet>, headers: Headers, size: nat, padding: seq<byte>)

  /** Packets of other connections, and packets of the flow without payload. */
  ghost predicate Quiet(f: Flow, ps: seq<Packet>) {
    forall p :: p in ps ==> |p.bytes| <= MAX_CAPTURE && (f.Carries(p) ==> SegmentLength(p) == 0)
  }

  /** A piece of the stream behind its first `sent` bytes that can be sent and captured. */
  ghost predicate Fits(f: Flow, sent: nat, x: Piece)
    requires |f.message| <= MAX_RPC
  {
    && x.size >= 1 && (sent == 0 ==> x.size >= 4) && sent + x.size <= |Stream(f)|
    && Possible(x.headers) && |x.headers.bytes| + x.size + |x.padding| <= MAX_CAPTURE
    && Quiet(f, x.before)
  }

  ghost function PieceSegment(f: Flow, sent: nat, x: Piece): Packet
    requires |f.message| <= MAX_RPC && Fits(f, sent, x)
  {
    Segment(f, Wrap(f.isn + sent), x.headers, Stream(f)[sent..sent + x.size], x.padding)
  }

  /** If it is the whole message, its padding must do no harm. */
  ghost predicate Sendable(f: Flow, sent: nat, x: Piece)
    requires |f.message| <= MAX_RPC
  {
    Fits(f, sent, x)
    && (sent == 0 && x.size == |Stream(f)| ==> x.padding == [] || Rejected(PieceSegment(f, sent, x), f))
  }

  /** Consecutive pieces that cut up all of the stream behind its first `sent` bytes. */
  ghost predicate CutsUp(f: Flow, sent: nat, xs: seq<Piece>)
    requires |f.message| <= MAX_RPC
    decreases |xs|
  {
    if xs == [] then sent == |Stream(f)|
    else Sendable(f, sent, xs[0]) && CutsUp(f, sent + xs[0].size, xs[1..])
  }

  /** The times are such that nothing ages out of the table before the next piece arrives. */
  ghost predicate InTime(f: Flow, sent: nat, xs: seq<Piece>, time: uint32)
    requires |f.message| <= MAX_RPC
    decreases |xs|
  {
    xs == [] ||
    (var secs := xs[0].headers.secs;
     && Timely(f, sent, xs[0].before, time)
     && (Midway(f, sent + xs[0].size) ==> NotAged(secs, secs))
     && InTime(f, sent + xs[0].size, xs[1..], secs))
  }

  /** The whole trace; `after` is what follows the last piece. */
  ghost function Trace(f: Flow, sent: nat, xs: seq<Piece>, after: seq<Packet>): seq<Packet>
    requires |f.message| <= MAX_RPC && CutsUp(f, sent, xs)
    decreases |xs|
  {
    if xs == [] then after
    else xs[0].before + ([PieceSegment(f, sent, xs[0])] + Trace(f, sent + xs[0].size, xs[1..], after))
  }

  lemma {:induction false} QuietFirst(f: Flow, sent: nat, qs: seq<Packet>, ps: seq<Packet>, time: uint32)
    requires |f.message| <= MAX_RPC && sent <= |Stream(f)| && Quiet(f, qs) && Interleaving(f, sent, ps)
    requires Timely(f, sent, qs, time) && Timely(f, sent, ps, LatestTime(f, sent, qs, time))
    ensures Interleaving(f, sent, qs + ps) && SentAfter(f, sent, qs + ps) == SentAfter(f, sent, ps)
    ensures Timely(f, sent, qs + ps, time)
    decreases |qs|
  {
    hide Stream, NotAged, Flow.Carries, IsSegment, SegmentLength, Refreshes, Midway, TimeAfter;
    if qs == [] {
      assert qs + ps == ps;
    } else {
      assert (qs + ps)[0] == qs[0] && (qs + ps)[1..] == qs[1..] + ps;
      QuietFirst(f, sent, qs[1..], ps, TimeAfter(f, sent, qs[0], time));
    }
  }

  /** Once everything has been sent, the clock does not matter to packets that are not segments of the flow. */
  lemma {:induction false} QuietAfter(f: Flow, qs: seq<Packet>, time: uint32)
    requires |f.message| <= MAX_RPC && Quiet(f, qs)
    ensures Timely(f, |Stream(f)|, qs, time)
    decreases |qs|
  {
    hide Stream, NotAged, Flow.Carries, SegmentLength;
    if qs != [] {
      QuietAfter(f, qs[1..], time);
    }
  }

  lemma PieceIsSegment(f: Flow, sent: nat, x: Piece)
    requires |f.message| <= MAX_RPC && Sendable(f, sent, x)
    ensures var p := PieceSegment(f, sent, x);
            && f.Carries(p) && SegmentLength(p) == x.size && IsSegment(p, f, sent, x.size)
            && p.secs == x.headers.secs
  {
    hide Stream, Quiet, Rejected;
    var p := PieceSegment(f, sent, x);
    assert p.bytes[p.Start()..p.Start() + x.size] == Stream(f)[sent..sent + x.size];
  }

  lemma {:induction false} TraceInterleaves(f: Flow, sent: nat, xs: seq<Piece>, after: seq<Packet>, time: uint32)
    requires |f.message| <= MAX_RPC && sent <= |Stream(f)|
    requires CutsUp(f, sent, xs) && InTime(f, sent, xs, time) && Quiet(f, after)
    ensures var ps := Trace(f, sent, xs, after);
            Interleaving(f, sent, ps) && SentAfter(f, sent, ps) == |Stream(f)| && Timely(f, sent, ps, time)
    decreases |xs|
  {
    hide Stream, NotAged, PieceSegment, IsSegment, Quiet, Flow.Carries, SegmentLength, LatestTime, Timely, Rejected;
    hide Midway;
    if xs == [] {
      QuietAfter(f, after, time);
      NoPackets(f, sent, LatestTime(f, sent, after, time));
      QuietFirst(f, sent, after, [], time);
      assert after + [] == after;
    } else {
      var p, rest := PieceSegment(f, sent, xs[0]), Trace(f, sent + xs[0].size, xs[1..], after);
      TraceInterleaves(f, sent + xs[0].size, xs[1..], after, xs[0].headers.secs);
      PieceIsSegment(f, sent, xs[0]);
      OwnFirst(f, sent, p, rest, LatestTime(f, sent, xs[0].before, time));
      QuietFirst(f, sent, xs[0].before, [p] + rest, time);
    }
  }

  lemma NoPackets(f: Flow, sent: nat, time: uint32)
    requires |f.message| <= MAX_RPC
    ensures Timely(f, sent, [], time)
  {
  }

  lemma OwnFirst(f: Flow, sent: nat, p: Packet, ps: seq<Packet>, time: uint32)
    requires |f.message| <= MAX_RPC && sent <= |Stream(f)|
    requires f.Carries(p) && SegmentLength(p) > 0 && IsSegment(p, f, sent, SegmentLength(p))
    requires var sent' := sent + SegmentLength(p);
             && Interleaving(f, sent', ps) && Timely(f, sent', ps, p.secs)
             && (Midway(f, sent') ==> NotAged(p.secs, p.secs))
    ensures Interleaving(f, sent, [p] + ps) && Timely(f, sent, [p] + ps, time)
    ensures SentAfter(f, sent, [p] + ps) == SentAfter(f, sent + SegmentLength(p), ps)
  {
    SegmentInside(p, f, sent, SegmentLength(p));
    hide Stream, NotAged, Flow.Carries, SegmentLength, IsSegment, Midway;
    assert ([p] + ps)[0] == p && ([p] + ps)[1..] == ps;
  }

  /**
   * Every message of at most 16384 bytes, from every initial sequence number,
   * survives every cut into segments, with any packets of other connections and
   * any packets without payload between them, in a trace of any length.
   */
  lemma EveryCutDelivers(f: Flow, xs: seq<Piece>, after: seq<Packet>)
    requires |f.message| <= MAX_RPC && CutsUp(f, 0, xs) && InTime(f, 0, xs, 0) && Quiet(f, after)
    ensures Inv(NEW_PROCESS, {})
    ensures var ps := Trace(f, 0, xs, after);
            (forall p :: p in ps ==> |p.bytes| <= MAX_CAPTURE) && Delivered(NEW_PROCESS, f, ps) == [f.message]
  {
    hide Inv, Idle, Interleaving, SentAfter, Timely, Delivered, CutsUp, InTime, Trace, Stream;
    NewProcessIdle(f);
    TraceInterleaves(f, 0, xs, after, 0);
    ReassemblyCorrect(NEW_PROCESS, f, Trace(f, 0, xs, after));
  }

  /** The trace holds all of the flow's stream, and nothing of the flow ages out. */
  ghost predicate Complete(f: Flow, ps: seq<Packet>) {
    |f.message| <= MAX_RPC && Interleaving(f, 0, ps) && SentAfter(f, 0, ps) == |Stream(f)| && Timely(f, 0, ps, 0)
  }

  /** Any number of flows in one trace, however long: each one's message is delivered, once. */
  lemma EveryFlowDelivers(flows: set<Flow>, ps: seq<Packet>)
    requires forall f :: f in flows ==> Complete(f, ps)
    requires forall p :: p in ps ==> |p.bytes| <= MAX_CAPTURE
    ensures Inv(NEW_PROCESS, {})
    ensures forall f :: f in flows ==> Delivered(NEW_PROCESS, f, ps) == [f.message]
  {
    hide Inv, Idle, Interleaving, SentAfter, Timely, Delivered, Stream;
    NewProcessOk();
    forall f | f in flows ensures Delivered(NEW_PROCESS, f, ps) == [f.message] {
      NewProcessIdle(f);
      ReassemblyCorrect(NEW_PROCESS, f, ps);
    }
  }

  // ----- several messages on one connection

  /** The flow when its message has been sent and `message` is the next. */
  function Then(f: Flow, message: seq<byte>): Flow {
    f.(isn := Wrap(f.isn + 4 + |f.message|), message := message)
  }

  /**
   * A trace, taken apart behind each complete message, in which the flow sends
   * its message and then `more`, each beginning with a segment.
   */
  ghost predicate Conversation(f: Flow, more: seq<seq<byte>>, parts: seq<seq<Packet>>)
    decreases |more|
  {
    && |parts| == 1 + |more| && Complete(f, parts[0])
    && (more != [] ==> Conversation(Then(f, more[0]), more[1..], parts[1..]))
  }

  function Whole(parts: seq<seq<Packet>>): seq<Packet> {
    if parts == [] then [] else parts[0] + Whole(parts[1..])
  }

  lemma {:induction false} DeliveredConcat(s: State, f: Flow, a: seq<Packet>, b: seq<Packet>)
    requires Inv(s, {}) && forall p :: p in a + b ==> |p.bytes| <= MAX_CAPTURE
    requires forall p :: p in a ==> p in a + b
    requires forall p :: p in b ==> p in a + b
    ensures Delivered(s, f, a + b) == Delivered(s, f, a) + Delivered(RunPackets(s, a), f, b)
    decreases |a|
  {
    hide Inv, ProcessPacket, Flow.Carries;
    if a == [] {
      assert a + b == b;
    } else {
      var ab := a + b;
      assert ab[0] == a[0] && ab[1..] == a[1..] + b;
      forall p | p in a[1..] + b ensures p in ab {
      }
      forall p | p in b ensures p in a[1..] + b {
        assert p in ab[1..];
      }
      DeliveredConcat(ProcessPacket(s, a[0]).state, f, a[1..], b);
    }
  }

  lemma {:induction false} SameConnection(s: State, f: Flow, message: seq<byte>, ps: seq<Packet>)
    requires Inv(s, {}) && forall p :: p in ps ==> |p.bytes| <= MAX_CAPTURE
    ensures Delivered(s, Then(f, message), ps) == Delivered(s, f, ps)
    ensures Idle(s, Then(f, message)) <==> Idle(s, f)
    decreases |ps|
  {
    hide Inv, ProcessPacket, Queue;
    assert forall k: uint32 :: Then(f, message).Key(k) == f.Key(k);
    if ps != [] {
      assert Then(f, message).Carries(ps[0]) == f.Carries(ps[0]);
      SameConnection(ProcessPacket(s, ps[0]).state, f, message, ps[1..]);
    }
  }

  lemma CompleteDelivers(s: State, f: Flow, ps: seq<Packet>)
    requires Inv(s, {}) && Idle(s, f) && Complete(f, ps)
    ensures forall p :: p in ps ==> |p.bytes| <= MAX_CAPTURE
    ensures Delivered(s, f, ps) == [f.message] && Idle(RunPackets(s, ps), f)
  {
    hide Inv, Idle, Interleaving, SentAfter, Timely, Delivered, RunPackets, Stream;
    ReassemblyCorrect(s, f, ps);
  }

  /** All messages that a connection sends one after the other are delivered, in their order. */
  lemma {:induction false} ConversationDelivers(s: State, f: Flow, more: seq<seq<byte>>, parts: seq<seq<Packet>>)
    requires Inv(s, {}) && Idle(s, f) && Conversation(f, more, parts)
    ensures forall p :: p in Whole(parts) ==> |p.bytes| <= MAX_CAPTURE
    ensures Delivered(s, f, Whole(parts)) == [f.message] + more
    decreases |more|
  {
    hide Inv, Idle, Complete, Delivered, RunPackets;
    CompleteDelivers(s, f, parts[0]);
    var rest := Whole(parts[1..]);
    if more == [] {
      assert parts[1..] == [] && Whole(parts) == parts[0];
    } else {
      var s' := RunPackets(s, parts[0]);
      var g := Then(f, more[0]);
      SameConnection(s', f, more[0], []);
      ConversationDelivers(s', g, more[1..], parts[1..]);
      SameConnection(s', f, more[0], rest);
      DeliveredConcat(s, f, parts[0], rest);
      assert [more[0]] + more[1..] == more;
    }
  }

  // ----- a message sent in one piece, in a padded frame

  /** What follows the first message decodes independently of it: an encoded message does not end the loop. */
  lemma EncodedGoesOn(xid: AgingChains.Table<Call>, p: Packet, c: Cursor, m: Framed)
    requires TableOk(xid) && c.totLen <= MAX_CAPTURE && c.rpcLen == |Encode(m)|
    requires c.pp.Slice(c.consumed, c.rpcLen) == Encode(m) && c.consumed + c.rpcLen < c.totLen
    ensures Decode(xid, p, c).exit.None? && !EndsInNullCall(c)
  {
    hide Encode, Encodable, TableOk, Decode, After, EndsInNullCall, Mem.Slice, Holds;
    SliceHolds(c.pp, c.consumed, Encode(m));
    if m.CallMsg? {
      DecodeCallMessage(xid, p, c, m, false);
    } else {
      DecodeReplyMessage(xid, p, c, m, false);
    }
    AdvanceExact(xid, p, c);
  }

  lemma SliceHolds(m: Mem, off: int, s: seq<byte>)
    requires m.Slice(off, |s|) == s
    ensures Holds(m, off, s)
  {
    forall i | 0 <= i < |s| ensures m.At(off + i) == s[i] {
      assert m.Slice(off, |s|)[i] == m.At(off + i);
    }
  }

  /**
   * Bytes that follow an encoded message sent in one piece, such as a trailer
   * of the frame, are taken for a further record. The message itself is always
   * handed over; that nothing else is, and that nothing is left in the table,
   * holds if and only if there are no such bytes, or the length they are taken
   * for is too large to be reassembled.
   */
  lemma PaddedMessageIff(s: State, p: Packet, f: Flow, m: Framed)
    requires Inv(s, {}) && f.message == Encode(m) && |f.message| <= MAX_RPC && Idle(s, f)
    requires HasBytes(p, f, 0, |Stream(f)|) && NotAged(p.secs, p.secs)
    ensures var r := ProcessPacket(s, p);
            && r.visits != [] && r.visits[0].Message() == f.message
            && (|r.visits| == 1 && Idle(r.state, f)
                <==> p.Start() + |Stream(f)| == |p.bytes| || PaddingMark(p, f) > MAX_RPC)
  {
    hide Inv, Idle, Encode, Encodable, HasBytes, NotAged, ProcessPacket, Decode, EndsInNullCall, Stream, PaddingMark;
    hide Mem.Slice, Visit.Message, TableOk, HeaderBytes, Rejected, Frame;
    XidOk(s);
    SoleBounds(p, f);
    SoleFrame(s, p, f);
    PaddedSoleIff(s, p, f);
    NotTiny(m);
    RejectedMark(p, f);
    if p.Start() + |Stream(f)| < |p.bytes| {
      EncodedGoesOn(s.xid, p, WithMark(StartCursor(p)), m);
    }
  }

  lemma RejectedMark(p: Packet, f: Flow)
    requires 4 <= |f.message| <= MAX_RPC
    ensures Rejected(p, f) <==> PaddingMark(p, f) > MAX_RPC
  {
    hide PaddingMark;
  }

  lemma NotTiny(m: Framed)
    ensures |Encode(m)| >= 20
  {
    hide Encode, Encodable, HeaderBytes;
    EncodeParts(m);
    HeaderNotEmpty(m);
  }

  lemma XidOk(s: State)
    requires Inv(s, {})
    ensures TableOk(s.xid)
  {
    hide TableOk, Distinct;
  }

  /** The header of a message needs some bytes. */
  lemma NoHeader(m: Mem, base: int)
    ensures GetRpcHeader(m, base, 0) == BadHeader
  {
    hide Mem.Word;
  }

  /**
   * The frame that shows it: four zero bytes behind a reply are taken for an
   * empty record, which is handed to the decoder and makes processPacket give
   * up with -5.
   */
  lemma ZeroPaddingIsRead(f: Flow, h: Headers)
    requires Possible(h) && |h.bytes| + 36 <= MAX_CAPTURE && f.message == Encode(GoodReply(1, 0))
    ensures |f.message| == 28 && |Stream(f)| == 32 && Inv(NEW_PROCESS, {})
    ensures var p := Segment(f, f.isn, h, Stream(f), [0, 0, 0, 0]);
            var r := ProcessPacket(NEW_PROCESS, p);
            && HasBytes(p, f, 0, |Stream(f)|) && PaddingMark(p, f) == 0
            && r.code == -5 && |r.visits| == 2
            && r.visits[0].Message() == f.message && r.visits[1].Message() == [] && r.visits[1].record.None?
  {
    ShortReply(1, 0);
    NewProcessIdle(f);
    var p := Segment(f, f.isn, h, Stream(f), [0, 0, 0, 0]);
    ZeroPadding(f, h, p);
    PaddingDecoded(NEW_PROCESS, p, f, GoodReply(1, 0));
  }

  lemma PaddingDecoded(s: State, p: Packet, f: Flow, m: Framed)
    requires Inv(s, {}) && Idle(s, f) && |f.message| == 28 && HasBytes(p, f, 0, |Stream(f)|)
    requires f.message == Encode(m) && PaddingMark(p, f) == 0 && |p.bytes| == p.Start() + 36
    ensures var r := ProcessPacket(s, p);
            && r.code == -5 && |r.visits| == 2
            && r.visits[0].Message() == f.message && r.visits[1].Message() == [] && r.visits[1].record.None?
  {
    hide Idle, Stream, HasBytes, Encode, Encodable, EndsInNullCall, Mem.Slice, Mem.Word, Visit.Message, TableOk;
    hide Distinct, Contents;
    hide Decode, Loop, Frame, PaddingMark, HeaderBytes, CursorOk;
    XidOk(s);
    SoleBounds(p, f);
    SoleFrame(s, p, f);
    SoleTurn(s, p, f);
    var c' := WithMark(StartCursor(p));
    EncodedGoesOn(s.xid, p, c', m);
    var d := Decode(s.xid, p, c');
    SecondTurn(s.(xid := d.xid), p, f, c'.(consumed := d.consumed));
  }

  lemma ZeroPadding(f: Flow, h: Headers, p: Packet)
    requires |f.message| == 28 && Possible(h) && |h.bytes| + 36 <= MAX_CAPTURE
    requires p == Segment(f, f.isn, h, Stream(f), [0, 0, 0, 0])
    ensures HasBytes(p, f, 0, |Stream(f)|) && PaddingMark(p, f) == 0 && |p.bytes| == p.Start() + 36
  {
    hide Stream;
    assert p.bytes[p.Start()..p.Start() + 32] == Stream(f)[0..32];
    var m := Mem(p.bytes, p.beyond);
    var at := p.Start() + 32;
    assert m.At(at) == 0 && m.At(at + 1) == 0 && m.At(at + 2) == 0 && m.At(at + 3) == 0;
  }

  /** The turn of the loop for the padding. */
  lemma SecondTurn(s: State, p: Packet, f: Flow, c: Cursor)
    requires Inv(s, {}) && Idle(s, f) && |f.message| == 28 && HasBytes(p, f, 0, |Stream(f)|)
    requires PaddingMark(p, f) == 0 && |p.bytes| == p.Start() + 36
    requires CursorOk(p, c) && c.owned.None? && c.pp == Mem(p.bytes, p.beyond) && c.totLen == |p.bytes|
    requires c.consumed == p.Start() + 32 && c.iLen == p.iLen && c.hLen == p.hLen + 4
    ensures var r := Loop(s, p, c);
            r.code == -5 && |r.visits| == 1 && r.visits[0].Message() == [] && r.visits[0].record.None?
  {
    hide Inv, Idle, Stream, HasBytes, Mem.Word, TableOk, Loop, Frame, Decode, PaddingMark, FirstSegment, NewMessage;
    hide Visit.Message, TcpPayload, WithMark, CursorOk;
    SoleBounds(p, f);
    PaddingFrame(s, p, f, c);
    EmptyRecord(s, p, c);
    XidOk(s);
    NothingToDecode(s.xid, p, WithMark(c));
    LoopTurn(s, p, c);
  }

  lemma EmptyRecord(s: State, p: Packet, c: Cursor)
    requires Inv(s, {}) && p.transport.Tcp? && c.owned.None?
    requires WithMark(c).rpcLen == 0 && c.consumed + 4 == c.totLen <= MAX_CAPTURE
    ensures NewMessage(s, p, c, p.transport.seqno) == Ready(s, WithMark(c))
    ensures WithMark(c).consumed == WithMark(c).totLen && WithMark(c).owned.None?
  {
    hide Inv, FirstSegment, TcpPayload, Mem.Word;
  }

  lemma NothingToDecode(xid: AgingChains.Table<Call>, p: Packet, c: Cursor)
    requires TableOk(xid) && c.rpcLen == 0 && c.consumed == c.totLen
    ensures var d := Decode(xid, p, c);
            d.exit.Some? && d.exit.value == -5 && d.visit.record.None? && d.visit.Message() == []
  {
    hide TableOk, GetRpcHeader, Insert, Lookup;
    NoHeader(c.pp, c.consumed);
  }

  // ----- from the message to what is decoded

  /**
   * The packet makes processPacket decode exactly one message, to what was
   * encoded, with its effect on the table of calls. `last` tells that nothing
   * follows it.
   */
  ghost predicate Decodes(s: State, p: Packet, m: Framed, last: bool)
    requires Inv(s, {}) && |p.bytes| <= MAX_CAPTURE
  {
    var r := ProcessPacket(s, p);
    && |r.visits| == 1 && r.state.xid == After(s.xid, p, m, last)
    && exists place: Place :: place.at == place.head && Reads(r.visits[0], s.xid, p, m, place, last)
  }

  /** The decoder on memory that holds the message. */
  lemma DecodesMessage(xid: AgingChains.Table<Call>, p: Packet, c: Cursor, m: Framed, last: bool)
    requires TableOk(xid) && c.totLen <= MAX_CAPTURE && c.rpcLen == |Encode(m)|
    requires c.pp.Slice(c.consumed, c.rpcLen) == Encode(m)
    requires if last then c.consumed + c.rpcLen == c.totLen else c.consumed + c.rpcLen < c.totLen
    ensures var d := Decode(xid, p, c);
            Reads(d.visit, xid, p, m, PlaceOf(c), last) && d.xid == After(xid, p, m, last)
  {
    hide Encode, Encodable, TableOk, Decode, After, Reads, Mem.Slice, Holds;
    SliceHolds(c.pp, c.consumed, Encode(m));
    if m.CallMsg? {
      DecodeCallMessage(xid, p, c, m, last);
    } else {
      DecodeReplyMessage(xid, p, c, m, last);
    }
  }

  /** A message sent in one piece. */
  lemma SoleDecodes(s: State, p: Packet, f: Flow, m: Framed)
    requires Inv(s, {}) && |f.message| <= MAX_RPC && Idle(s, f) && IsSegment(p, f, 0, |Stream(f)|)
    requires f.message == Encode(m)
    ensures |p.bytes| <= MAX_CAPTURE && Decodes(s, p, m, p.Start() + |Stream(f)| == |p.bytes|)
  {
    hide Idle, Encode, Encodable, HasBytes, ProcessPacket, Decode, EndsInNullCall, Stream, Rejected, Frame, Loop;
    hide Mem.Slice, Visit.Message, TableOk, HeaderBytes, Distinct, Contents, Reads, After;
    SoleBounds(p, f);
    SoleFrame(s, p, f);
    SoleTurn(s, p, f);
    var last := p.Start() + |Stream(f)| == |p.bytes|;
    var c' := WithMark(StartCursor(p));
    DecodesMessage(s.xid, p, c', m, last);
    var d := Decode(s.xid, p, c');
    if d.exit.None? {
      PaddingRest(WithCalls(s, d.xid), p, f, c'.(consumed := d.consumed));
    }
    assert PlaceOf(c').at == PlaceOf(c').head;
  }

  /** A message that the packet completes. */
  lemma LaterDecodes(s: State, p: Packet, f: Flow, sent: nat, n: nat, time: uint32, m: Framed)
    requires Inv(s, {}) && |f.message| <= MAX_RPC && Waiting(s, f, sent, time) && IsSegment(p, f, sent, n)
    requires sent + n == |Stream(f)| && f.message == Encode(m)
    ensures |p.bytes| <= MAX_CAPTURE && Decodes(s, p, m, true)
  {
    hide Idle, Encode, Encodable, HasBytes, Decode, Stream, Rejected, Frame, Loop, Waiting, Release;
    hide Mem.Slice, Visit.Message, TableOk, HeaderBytes, Distinct, Contents, Reads, After;
    LaterFrame(s, p, f, sent, n, time);
    var fr := Frame(s, p, StartCursor(p));
    LastMessage(s, p, StartCursor(p));
    DecodesMessage(s.xid, p, fr.cursor, m, true);
    var d := Decode(s.xid, p, fr.cursor);
    ReleaseXid(fr.state.(xid := d.xid), fr.cursor.owned);
    assert PlaceOf(fr.cursor).at == PlaceOf(fr.cursor).head;
  }

  lemma ReleaseXid(s: State, owned: Option<Handle>)
    requires Inv(s, Mine(owned))
    ensures Release(s, owned).xid == s.xid
  {
    hide Inv;
  }

  /** The packet holds the whole message and padding behind it. */
  ghost predicate PaddedSole(f: Flow, p: Packet)
    requires |f.message| <= MAX_RPC
  {
    OwnLength(f, p) == |Stream(f)| && p.Start() + |Stream(f)| != |p.bytes|
  }

  /** The packet of a trace that completes the message decodes it. */
  lemma {:induction false} DecodedIn(s: State, f: Flow, sent: nat, ps: seq<Packet>, time: uint32, m: Framed)
    returns (i: nat)
    requires Inv(s, {}) && |f.message| <= MAX_RPC && sent < |Stream(f)| && At(s, f, sent, time)
    requires Interleaving(f, sent, ps) && Timely(f, sent, ps, time) && SentAfter(f, sent, ps) == |Stream(f)|
    requires f.message == Encode(m)
    ensures i < |ps| && OwnLength(f, ps[i]) > 0
    ensures forall p :: p in ps ==> |p.bytes| <= MAX_CAPTURE
    ensures forall p :: p in ps[..i] ==> p in ps
    ensures Decodes(RunPackets(s, ps[..i]), ps[i], m, !PaddedSole(f, ps[i]))
    decreases |ps|
  {
    hide Stream, ProcessPacket, Inv, At, NotAged, IsSegment, Refreshes, TimeAfter, Flow.Carries, Timely, Decodes;
    hide Encode, Encodable, PaddedSole;
    InterleavingSizes(f, sent, ps);
    var p := ps[0];
    assert ps == [p] + ps[1..];
    AnyPacket(s, p, f, sent, ps[1..], time);
    var sent' := sent + OwnLength(f, p);
    if sent' == |Stream(f)| {
      i := 0;
      FirstOfTrace(f, sent, p, ps[1..], time);
      CompletedHere(s, f, sent, p, time, m);
      assert ps[..0] == [];
    } else {
      var j := DecodedIn(ProcessPacket(s, p).state, f, sent', ps[1..], TimeAfter(f, sent, p, time), m);
      i := j + 1;
      assert ps[..i][0] == p && ps[..i][1..] == ps[1..][..j];
    }
  }

  lemma CompletedHere(s: State, f: Flow, sent: nat, p: Packet, time: uint32, m: Framed)
    requires Inv(s, {}) && |f.message| <= MAX_RPC && sent < |Stream(f)| && At(s, f, sent, time)
    requires IsSegment(p, f, sent, OwnLength(f, p)) && sent + OwnLength(f, p) == |Stream(f)|
    requires f.message == Encode(m)
    ensures |p.bytes| <= MAX_CAPTURE && Decodes(s, p, m, !PaddedSole(f, p))
  {
    hide Stream, Inv, NotAged, IsSegment, Decodes, Encode, Encodable, Waiting, Idle;
    if sent == 0 {
      SoleDecodes(s, p, f, m);
    } else {
      LaterDecodes(s, p, f, sent, OwnLength(f, p), time, m);
    }
  }

  /**
   * From the message that is sent to what is decoded: every encodable message,
   * however it is cut and whatever else is in the trace, is decoded once, to
   * what was encoded, in the packet that completes it; a call enters the table
   * of calls, and a reply takes its call out of it.
   */
  lemma EveryMessageIsDecoded(f: Flow, m: Framed, xs: seq<Piece>, after: seq<Packet>) returns (i: nat)
    requires f.message == Encode(m) && |f.message| <= MAX_RPC
    requires CutsUp(f, 0, xs) && InTime(f, 0, xs, 0) && Quiet(f, after)
    ensures Inv(NEW_PROCESS, {})
    ensures var ps := Trace(f, 0, xs, after);
            && (forall p :: p in ps ==> |p.bytes| <= MAX_CAPTURE) && Delivered(NEW_PROCESS, f, ps) == [Encode(m)]
            && i < |ps| && OwnLength(f, ps[i]) > 0 && (forall p :: p in ps[..i] ==> p in ps)
            && Decodes(RunPackets(NEW_PROCESS, ps[..i]), ps[i], m, !PaddedSole(f, ps[i]))
  {
    hide Inv, Idle, Interleaving, SentAfter, Timely, Delivered, CutsUp, InTime, Trace, Stream, Encode, Encodable;
    hide Decodes, RunPackets, PaddedSole;
    NewProcessIdle(f);
    EveryCutDelivers(f, xs, after);
    TraceInterleaves(f, 0, xs, after, 0);
    i := DecodedIn(NEW_PROCESS, f, 0, Trace(f, 0, xs, after), 0, m);
  }

  /** What is decoded at a place where the message starts behind the headers has the right status. */
  lemma DecodedStatus(s: State, p: Packet, m: Framed, last: bool)
    requires Inv(s, {}) && |p.bytes| <= MAX_CAPTURE && Decodes(s, p, m, last) && m.ReplyMsg? && |m.results| >= 4
    ensures var record := ProcessPacket(s, p).visits[0].record;
            record.Some? && record.value.ReplyRecord? && BytesOf(record.value.rpcStatus) == m.results[..4]
  {
    hide Inv, Encode, Encodable, TableOk, HeaderBytes, Answered, BytesOf, ProcessPacket, Mem.Word, Mem.Slice, After;
    XidOk(s);
    var v := ProcessPacket(s, p).visits[0];
    var place: Place :| place.at == place.head && Reads(v, s.xid, p, m, place, last);
    ReadsOffset(v, s.xid, p, m, place, last);
    assert v.pp.Slice(v.start, |Encode(m)|) == Encode(m);
    SliceHolds(place.mem, place.at, Encode(m));
    ReplyParts(place.mem, place.at, m);
    WordRead(place.mem, place.at + |HeaderBytes(m)| + 4, m.results);
  }

  // ----- datagrams, and what is not of interest

  /** The packet is a datagram, and all that is behind its headers is `s`. */
  ghost predicate Datagram(p: Packet, s: seq<byte>) {
    && p.transport.Udp? && s != []
    && p.Start() + |s| == |p.bytes| <= MAX_CAPTURE && p.bytes[p.Start()..] == s
  }

  lemma DatagramHolds(p: Packet, s: seq<byte>)
    requires Datagram(p, s)
    ensures Holds(Mem(p.bytes, p.beyond), p.Start(), s)
  {
    forall i | 0 <= i < |s| ensures Mem(p.bytes, p.beyond).At(p.Start() + i) == s[i] {
      assert p.bytes[p.Start()..][i] == p.bytes[p.Start() + i];
    }
  }

  /** A datagram is one message: it is decoded where it is, and the loop then ends. */
  lemma DatagramTurn(s: State, p: Packet, bytes: seq<byte>)
    requires Inv(s, {}) && Datagram(p, bytes)
    ensures var d := Decode(s.xid, p, StartCursor(p));
            var r := ProcessPacket(s, p);
            && r.visits == [d.visit] && r.state == s.(xid := d.xid)
            && r.code == if d.exit.Some? then d.exit.value else 1
  {
    hide Decode, Loop, Distinct, Contents, TableOk, EndsInNullCall;
    var c := StartCursor(p);
    var d := Decode(s.xid, p, c);
    LoopTurn(s, p, c);
    if d.exit.None? {
      AdvanceExact(s.xid, p, c);
      EndOfLoop(s.(xid := d.xid), p, c.(consumed := d.consumed));
    }
  }

  /**
   * Every encodable message that is a datagram is decoded to what was encoded,
   * with its effect on the table of calls, and leaves the fragments alone.
   */
  lemma DatagramIsDecoded(s: State, p: Packet, m: Framed)
    requires Inv(s, {}) && Datagram(p, Encode(m))
    ensures var r := ProcessPacket(s, p);
            && r.code == 1 && |r.visits| == 1 && Reads(r.visits[0], s.xid, p, m, StartOf(p), true)
            && r.state.xid == After(s.xid, p, m, true) && r.state.tcp == s.tcp && r.state.heap == s.heap
  {
    hide Encode, Encodable, TableOk, Decode, After, Reads, Holds, ProcessPacket, Inv;
    XidOk(s);
    DatagramTurn(s, p, Encode(m));
    DatagramHolds(p, Encode(m));
    DatagramCode(s.xid, p, m);
  }

  lemma DatagramCode(xid: AgingChains.Table<Call>, p: Packet, m: Framed)
    requires TableOk(xid) && Datagram(p, Encode(m)) && Holds(Mem(p.bytes, p.beyond), p.Start(), Encode(m))
    ensures var d := Decode(xid, p, StartCursor(p));
            && Reads(d.visit, xid, p, m, StartOf(p), true) && d.xid == After(xid, p, m, true)
            && (d.exit.None? || d.exit.value == 1)
  {
    hide Encode, Encodable, TableOk, Decode, After, Reads, Holds;
    if m.CallMsg? {
      DecodeCallMessage(xid, p, StartCursor(p), m, true);
    } else {
      DecodeReplyMessage(xid, p, StartCursor(p), m, true);
    }
  }

  /** The decoder gives up on a call exactly when it is not of interest. */
  lemma CallRejectedIff(xid: AgingChains.Table<Call>, p: Packet, c: Cursor, call: RawCall)
    requires TableOk(xid) && Sized(call) && Holds(c.pp, c.consumed, RawHeader(call))
    requires c.consumed + |RawHeader(call)| <= c.totLen <= MAX_CAPTURE
    ensures var d := Decode(xid, p, c);
            && (d.exit == Some(-5) <==> !OfInterest(call))
            && (!OfInterest(call) ==> d.visit.record.None? && d.xid == xid)
  {
    hide Holds, RawPrefix, RawHeader, GetRpcHeader, Insert, Lookup, TableOk, ProcOf, Mem.Word;
    PrefixHeld(c.pp, c.consumed, call);
    RawHeaderIff(c.pp, c.consumed, c.totLen - c.consumed, call);
  }

  /** The header length that a reply gets from the length word of its verifier. */
  lemma ReplyLength(len: uint32)
    ensures var n := LengthInBytes(3 + AuthWords(len));
            && (n < 0 <==> 0x7FFF_FFE9 <= len <= 0xFFFF_FFE8)
            && (n == 0 <==> 0xFFFF_FFE9 <= len <= 0xFFFF_FFEC)
  {
    var words := (Signed(len) + 11) / 4;
    assert 4 * words <= Signed(len) + 11 < 4 * words + 4;
  }

  /**
   * What the decoder makes of the length of a reply's verifier, whatever it is:
   * it gives up with -5 or with 0 on exactly these lengths, without touching the
   * table of calls. On the last ones below 2^32 the header comes out shorter
   * than it is.
   */
  lemma ReplyRejectedIff(xid: AgingChains.Table<Call>, p: Packet, c: Cursor)
    requires TableOk(xid) && c.consumed + 20 <= c.totLen <= MAX_CAPTURE && c.pp.Word(c.consumed + 4) == 1
    ensures var d, len := Decode(xid, p, c), c.pp.Word(c.consumed + 16);
            && (d.exit == Some(-5) <==> 0x7FFF_FFE9 <= len <= 0xFFFF_FFE8)
            && (d.exit == Some(0) <==> 0xFFFF_FFE9 <= len <= 0xFFFF_FFEC)
            && (d.exit.Some? ==> d.visit.record.None? && d.xid == xid)
  {
    hide Insert, Lookup, TableOk, ProcOf, LengthInBytes, AuthWords, Mem.Word;
    ReplyLength(c.pp.Word(c.consumed + 16));
  }

  lemma PrefixHeld(m: Mem, off: int, call: RawCall)
    requires Sized(call) && Holds(m, off, RawHeader(call))
    ensures Holds(m, off, RawPrefix(call)) && |RawPrefix(call)| <= |RawHeader(call)|
  {
    hide Holds, RawPrefix;
    HoldsSplit(m, off, RawPrefix(call) + call.verf, Padding(|call.verf|));
    HoldsSplit(m, off, RawPrefix(call), call.verf);
  }

  /**
   * A complete call in a datagram makes processPacket give up with -5 if and
   * only if it is not of interest; then nothing is recorded, and no table is
   * changed.
   */
  lemma DatagramRejectedIff(s: State, p: Packet, call: RawCall, args: seq<byte>)
    requires Inv(s, {}) && Sized(call) && Datagram(p, RawHeader(call) + args)
    ensures var r := ProcessPacket(s, p);
            && (r.code == -5 <==> !OfInterest(call))
            && (!OfInterest(call) ==> |r.visits| == 1 && r.visits[0].record.None? && r.state == s)
  {
    hide Decode, RawHeader, Holds, ProcessPacket, Inv, TableOk;
    XidOk(s);
    DatagramTurn(s, p, RawHeader(call) + args);
    DatagramHolds(p, RawHeader(call) + args);
    HoldsSplit(Mem(p.bytes, p.beyond), p.Start(), RawHeader(call), args);
    CallRejectedIff(s.xid, p, StartCursor(p), call);
  }

  /** The same for a record that comes in one segment. */
  lemma SegmentRejectedIff(s: State, p: Packet, f: Flow, call: RawCall, args: seq<byte>)
    requires Inv(s, {}) && Sized(call) && f.message == RawHeader(call) + args && |f.message| <= MAX_RPC
    requires Idle(s, f) && HasBytes(p, f, 0, |Stream(f)|) && p.Start() + |Stream(f)| == |p.bytes|
    ensures var r := ProcessPacket(s, p);
            && (r.code == -5 <==> !OfInterest(call))
            && (!OfInterest(call) ==> |r.visits| == 1 && r.visits[0].record.None? && r.state == s)
  {
    hide Decode, RawHeader, Holds, ProcessPacket, Idle, Stream, HasBytes, EndsInNullCall, Loop, Frame, Mem.Slice;
    hide TableOk, Distinct, Contents, Visit.Message;
    SoleBounds(p, f);
    SoleFrame(s, p, f);
    SoleTurn(s, p, f);
    var c' := WithMark(StartCursor(p));
    SliceHolds(c'.pp, c'.consumed, f.message);
    HoldsSplit(c'.pp, c'.consumed, RawHeader(call), args);
    CallRejectedIff(s.xid, p, c', call);
    var d := Decode(s.xid, p, c');
    if d.exit.None? {
      EndOfLoop(WithCalls(s, d.xid), p, c'.(consumed := d.consumed));
    }
  }

  // ----- several records in a segment

  /** Every sequence of messages that fits a capture is decoded from the segment that holds their records. */
  lemma EveryRecordIsDecoded(f: Flow, ms: seq<Framed>, h: Headers)
    requires ms != [] && Possible(h) && |h.bytes| + |Records(ms)| <= MAX_CAPTURE
    ensures Inv(NEW_PROCESS, {})
    ensures var p := Segment(f, f.isn, h, Records(ms), []);
            var r := ProcessPacket(NEW_PROCESS, p);
            r.code == 1 && Follows(NEW_PROCESS.xid, p, ms, StartOf(p), r.visits, r.state.xid)
  {
    hide Inv, Records, Follows, ProcessPacket, TableOk, Queue;
    NewProcessIdle(f);
    var p := Segment(f, f.isn, h, Records(ms), []);
    assert p.bytes[p.Start()..] == Records(ms);
    EmptyOk<Fragment>(p.Key(f.isn));
    DeframingRoundTrip(NEW_PROCESS, p, ms);
  }

  /** Two accepted replies with four bytes of results each: the statuses 0 and 5. */
  const TWO_REPLIES: seq<Framed> := [GoodReply(1, 0), GoodReply(2, 5)]

  function GoodReply(xid: byte, status: byte): (m: Framed) {
    ShortReply(xid, status);
    ReplyMsg(xid, 0, [], 0, [0, 0, 0, status])
  }

  lemma ShortReply(xid: byte, status: byte)
    ensures var m := ReplyMsg(xid, 0, [], 0, [0, 0, 0, status]);
            Frameable(m) && |HeaderBytes(m)| == 20 && |Encode(m)| == 28
  {
  }

  lemma TwoRecords()
    ensures |Records(TWO_REPLIES)| == 64 && |Records(TWO_REPLIES[..1])| == 32
    ensures |HeaderBytes(TWO_REPLIES[1])| == 20 && |Encode(TWO_REPLIES[1])| == 28
  {
    hide Encode, HeaderBytes, Records;
    ShortReply(1, 0);
    ShortReply(2, 5);
    RecordsParts(TWO_REPLIES);
    RecordsParts(TWO_REPLIES[1..]);
    RecordsNone();
    assert TWO_REPLIES[1..] == [GoodReply(2, 5)] && TWO_REPLIES[1..][1..] == [];
    RecordsPrefix(TWO_REPLIES, 1);
    assert TWO_REPLIES[1..][..0] == [];
  }

  /**
   * The packet that shows it: in a segment with two replies, the status that is
   * reported for the second one is not its status, 5, but the record mark in
   * front of it.
   */
  lemma SecondStatusWrong(f: Flow, h: Headers)
    requires Possible(h) && |h.bytes| + 64 <= MAX_CAPTURE
    ensures Inv(NEW_PROCESS, {}) && |Records(TWO_REPLIES)| == 64
    ensures var p := Segment(f, f.isn, h, Records(TWO_REPLIES), []);
            var visits := ProcessPacket(NEW_PROCESS, p).visits;
            && |visits| == 2 && visits[1].record.Some? && visits[1].record.value.ReplyRecord?
            && visits[1].record.value.rpcStatus == 0x8000_001C
            && BytesOf(visits[1].record.value.rpcStatus) != TWO_REPLIES[1].results[..4] == [0, 0, 0, 5]
  {
    TwoRecords();
    hide Inv, Records, ProcessPacket, TableOk, Queue, Holds, Mem.Word, HeaderBytes, Encode, Encodable;
    NewProcessIdle(f);
    var p := Segment(f, f.isn, h, Records(TWO_REPLIES), []);
    assert p.bytes[p.Start()..] == Records(TWO_REPLIES);
    EmptyOk<Fragment>(p.Key(f.isn));
    StatusIff(NEW_PROCESS, p, TWO_REPLIES, 1);
    RecordsInMemory(NEW_PROCESS, p, TWO_REPLIES);
    SecondMark(Mem(p.bytes, p.beyond), p.Start());
  }

  lemma SecondMark(m: Mem, off: int)
    requires Holds(m, off, Records(TWO_REPLIES))
    ensures m.Word(off + 32) == 0x8000_001C
  {
    hide Records, Holds, Mem.Word, Encode, HeaderBytes, Encodable;
    ShortReply(1, 0);
    ShortReply(2, 5);
    RecordOnly(m, off, TWO_REPLIES);
    RecordOnly(m, off + 32, TWO_REPLIES[1..]);
  }
}
