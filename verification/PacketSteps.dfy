/**
 * processPacket from the point where the link, IP and transport headers have
 * been decoded, as functions on values: framing (TCP reassembly), decoding, and
 * the message loop around them.
 */
module PacketSteps {
  import opened Words
  import opened Options
  import opened TableKeys
  import opened AgingChains
  import opened RpcHeader
  import opened Ownership

  const MOUNT_PROC_BASE := 100

  /** Far above the largest snapshot length pcap has; what matters is that 32-bit offsets do not wrap. */
  const MAX_CAPTURE := TWO31 - 4

  datatype Transport = Tcp(seqno: uint32) | Udp

  /**
   * A captured frame and what its headers said: `length` is the length of the
   * IP datagram, and `eLen`, `iLen`, `hLen` are the header lengths. `beyond` is
   * what memory holds around the capture buffer and in fresh blocks.
   */
  datatype Packet = Packet(secs: uint32, srcHost: uint32, dstHost: uint32, srcPort: uint16, dstPort: uint16,
                           transport: Transport, length: uint32, eLen: nat, iLen: nat, hLen: nat,
                           bytes: seq<byte>, beyond: int -> byte) {
    function Key(nextSeq: uint32): TableKeys.Key {
      TcpKey(nextSeq, srcHost, srcPort, dstHost, dstPort)
    }

    /** Where the loop starts. */
    function Start(): nat {
      eLen + iLen + hLen
    }
  }

  /** The local variables of the loop. `owned` is `reassemblyBuffer`. */
  datatype Cursor = Cursor(pp: Mem, totLen: nat, consumed: nat, eLen: nat, iLen: nat, hLen: nat,
                           rpcLen: uint32, owned: Option<Handle>)

  /** `length - i_len - h_len`, which is unsigned. */
  function TcpPayload(p: Packet, c: Cursor): uint32 {
    Wrap(p.length - c.iLen - c.hLen)
  }

  // ----- framing

  datatype Framing = Stop(state: State, code: int) | Ready(state: State, cursor: Cursor)

  function TooLarge(s: State): Framing { Stop(s, -11) }

  /** More segments are needed: the fragment waits in the table for the sequence number after these `n` bytes. */
  function Wait(s: State, p: Packet, f: Fragment, seqno: uint32, n: nat, code: int): (r: Framing)
    requires Inv(s, {f.buffer}) && |s.heap.blocks[f.buffer]| == f.rpcLen <= MAX_RPC
    requires Filled(p.Key(seqno), f) + n < f.rpcLen
    ensures r.Stop? && r.code == code && Inv(r.state, {})
  {
    NextSeqAfter(seqno, f, n);
    FragmentAt(s.heap, p.Key(Wrap(seqno + n)), f, Filled(p.Key(seqno), f) + n);
    Stop(Deposit(s, Entry(p.Key(Wrap(seqno + n)), f, p.secs)), code)
  }

  /** A message that does not fit the segment: allocate, copy what there is, remember it. */
  function FirstSegment(s: State, p: Packet, c: Cursor, seqno: uint32, n: uint32): (r: Framing)
    requires Inv(s, {}) && n < c.rpcLen <= MAX_RPC
    ensures r.Stop? && Inv(r.state, {})
  {
    var h := s.heap.next;
    var s' := Fill(Allocate(s, c.rpcLen, p.beyond), h, 0, c.pp.Slice(c.consumed, n));
    Wait(s', p, Fragment(h, c.rpcLen, seqno), seqno, n, -12)
  }

  /** The record mark: 31 bits of length. */
  function WithMark(c: Cursor): Cursor {
    c.(rpcLen := c.pp.Word(c.consumed) % TWO31, hLen := c.hLen + 4, consumed := Wrap(c.consumed + 4))
  }

  /** No fragment waits for this segment: it starts with a record mark. */
  function NewMessage(s: State, p: Packet, c: Cursor, seqno: uint32): (r: Framing)
    requires Inv(s, {}) && c.owned.None?
    ensures Inv(r.state, {})
    ensures r.Ready? ==> r.state == s && r.cursor == WithMark(c)
  {
    var c' := WithMark(c);
    var n := TcpPayload(p, c');
    if c'.rpcLen <= n then Ready(s, c')
    else if c'.rpcLen > MAX_RPC then TooLarge(s)
    else FirstSegment(s, p, c', Wrap(seqno + 4), n)
  }

  /** Where the bytes of a later segment end in the buffer. */
  function LastOffset(first: nat, n: nat, rpcLen: nat): nat {
    if first + n > rpcLen then rpcLen else first + n
  }

  /** A fragment waits for this segment: `f` has been taken out of the table. */
  function NextSegment(s: State, p: Packet, c: Cursor, seqno: uint32, f: Fragment): (r: Framing)
    requires Inv(s, {f.buffer}) && FragmentOk(s.heap, p.Key(seqno), f)
    ensures Inv(r.state, if r.Ready? then {f.buffer} else {})
    ensures r.Ready? ==> var c' := r.cursor;
                         c'.owned == Some(f.buffer) && c'.consumed == 0 && c'.totLen == c'.rpcLen == f.rpcLen
  {
    var n := TcpPayload(p, c);
    var first := Filled(p.Key(seqno), f);
    var last := LastOffset(first, n, f.rpcLen);
    var s' := Fill(s, f.buffer, first, c.pp.Slice(c.consumed, last - first));
    if last == f.rpcLen then
      Ready(s', Cursor(Mem(s'.heap.blocks[f.buffer], p.beyond), f.rpcLen, 0, 0, 0, 0, f.rpcLen, Some(f.buffer)))
    else
      Wait(s', p, f, seqno, n, -13)
  }

  function Frame(s: State, p: Packet, c: Cursor): (r: Framing)
    requires Inv(s, {}) && c.owned.None?
    ensures Inv(r.state, if r.Ready? then Mine(r.cursor.owned) else {})
  {
    match p.transport
    case Udp => Ready(s, c)
    case Tcp(seqno) =>
      var (tcp', found) := Lookup(s.tcp, p.Key(seqno));
      TakeOut(s, p.Key(seqno));
      match found
      case None => NewMessage(s, p, c, seqno)
      case Some(e) => NextSegment(s.(tcp := tcp'), p, c, seqno, e.val)
  }

  // ----- decoding

  /** What processPacket puts into `record`, with the payload's offset and claimed length. */
  datatype Record =
    | CallRecord(xid: uint32, version: uint32, proc: uint32, euid: int, egid: int, payload: nat, payloadLen: uint32)
    | ReplyRecord(xid: uint32, version: uint32, proc: uint32, rpcStatus: uint32, payload: nat, payloadLen: uint32)

  /** A message that was handed to the RPC decoder: the memory, offset and length it was given. */
  datatype Visit = Visit(pp: Mem, start: nat, rpcLen: uint32, record: Option<Record>) {
    function Message(): seq<byte> { pp.Slice(start, rpcLen) }
  }

  /** `code` when the function returns; otherwise the loop goes on at offset `consumed`. */
  datatype Decoded = Decoded(xid: Table<Call>, visit: Visit, exit: Option<int>, consumed: nat)

  /** The procedure number under which a call is remembered. */
  function ProcOf(m: Mem, base: int): uint32 {
    if m.Word(base + 12) == MOUNT_PROGRAM then Wrap(m.Word(base + 20) + MOUNT_PROC_BASE) else m.Word(base + 20)
  }

  function DecodeCall(xid: Table<Call>, p: Packet, c: Cursor, h: Header): (r: Decoded)
    requires TableOk(xid) && h.Header?
    ensures TableOk(r.xid)
  {
    var m, base := c.pp, c.consumed;
    var consumed := Wrap(base + h.rhLen);
    var id := m.Word(base);
    var call := Call(m.Word(base + 16), ProcOf(m, base));
    var payloadLen := Wrap(c.rpcLen - h.rhLen);
    InsertOk(xid, Entry(XidKey(id, p.srcHost, p.srcPort), call, p.secs));
    Decoded(Insert(xid, Entry(XidKey(id, p.srcHost, p.srcPort), call, p.secs)).0,
            Visit(m, base, c.rpcLen,
                  Some(CallRecord(id, call.version, call.proc, h.euid, h.egid, consumed, payloadLen))),
            None, Wrap(consumed + payloadLen))
  }

  /** An unmatched reply is taken for version 3, procedure -1. */
  function Matched(found: Option<Entry<Call>>): Call {
    match found
    case None => Call(3, Wrap(-1))
    case Some(e) => e.val
  }

  /**
   * `rpcStatus` is read relative to the packet's headers, not to `consumed`, so
   * it is the status of this message only when this is the packet's first.
   */
  function DecodeReply(xid: Table<Call>, p: Packet, c: Cursor, h: Header): (r: Decoded)
    requires TableOk(xid) && h.Header?
    ensures TableOk(r.xid)
  {
    var m, base := c.pp, c.consumed;
    var id := m.Word(base);
    var (xid', found) := Lookup(xid, XidKey(id, p.dstHost, p.dstPort));
    LookupOk(xid, XidKey(id, p.dstHost, p.dstPort));
    var status := m.Word(c.eLen + c.iLen + c.hLen + h.rhLen + 4);
    var consumed := Wrap(Wrap(base + h.rhLen) + 8);
    var payloadLen := Wrap(c.rpcLen - (h.rhLen + 8));
    Decoded(xid',
            Visit(m, base, c.rpcLen,
                  Some(ReplyRecord(id, Matched(found).version, Matched(found).proc, status, consumed, payloadLen))),
            None, Wrap(consumed + payloadLen))
  }

  function Decode(xid: Table<Call>, p: Packet, c: Cursor): (r: Decoded)
    requires TableOk(xid)
    ensures TableOk(r.xid)
  {
    var h := GetRpcHeader(c.pp, c.consumed, Wrap(c.totLen - c.consumed));
    var visit := Visit(c.pp, c.consumed, c.rpcLen, None);
    if h.BadHeader? || h.rhLen < 0 then Decoded(xid, visit, Some(-5), c.consumed)
    else if h.rhLen == 0 then Decoded(xid, visit, Some(0), c.consumed)
    else
      var consumed := Wrap(c.consumed + h.rhLen);
      if consumed == c.totLen && h.dir == CALL && c.pp.Word(c.consumed + 20) == 0 then
        Decoded(xid, visit, None, consumed)  // a NULL call without arguments
      else if consumed >= c.totLen then Decoded(xid, visit, Some(1), consumed)
      else if h.dir == CALL then DecodeCall(xid, p, c, h)
      else DecodeReply(xid, p, c, h)
  }

  // ----- the message loop

  /**
   * The sizes a capture can have; a UDP datagram is one message, and a
   * reassembled message ends the loop.
   */
  predicate CursorOk(p: Packet, c: Cursor) {
    && c.totLen <= MAX_CAPTURE
    && (c.owned.Some? ==> c.consumed >= c.totLen)
    && (p.transport.Udp? && c.consumed < c.totLen ==> c.rpcLen == c.totLen - c.consumed)
  }

  /** The message is a NULL call whose header ends where the packet, or the buffer, ends. */
  predicate EndsInNullCall(c: Cursor) {
    var h := GetRpcHeader(c.pp, c.consumed, Wrap(c.totLen - c.consumed));
    && h.Header? && h.rhLen > 0 && h.dir == CALL && c.pp.Word(c.consumed + 20) == 0
    && Wrap(c.consumed + h.rhLen) == c.totLen
  }

  /**
   * A message that does not end the loop moves it by exactly the message's
   * length, even when `payload_len` wraps because the header claims more than
   * the message holds. Only a NULL call at the end of the packet moves it by
   * the header's length instead, to the end, and leaves no record.
   */
  lemma AdvanceExact(xid: Table<Call>, p: Packet, c: Cursor)
    requires TableOk(xid)
    requires c.consumed + c.rpcLen < TWO32
    requires Decode(xid, p, c).exit.None?
    ensures var d := Decode(xid, p, c);
            && d.consumed == (if EndsInNullCall(c) then c.totLen else c.consumed + c.rpcLen)
            && (d.visit.record.None? <==> EndsInNullCall(c))
  {
    hide Insert, Lookup, Wrap, GetRpcHeader, TableOk, ProcOf, Mem.Word;
    var h := GetRpcHeader(c.pp, c.consumed, Wrap(c.totLen - c.consumed));
    if h.Header? {
      WrapCancels(c.consumed, h.rhLen, c.rpcLen);
      WrapCancels8(c.consumed, h.rhLen, c.rpcLen);
    }
  }

  lemma WrapCancels(consumed: nat, rhLen: int, rpcLen: uint32)
    requires consumed + rpcLen < TWO32
    ensures Wrap(Wrap(consumed + rhLen) + Wrap(rpcLen - rhLen)) == consumed + rpcLen
  {
  }

  lemma WrapCancels8(consumed: nat, rhLen: int, rpcLen: uint32)
    requires consumed + rpcLen < TWO32
    ensures Wrap(Wrap(Wrap(consumed + rhLen) + 8) + Wrap(rpcLen - (rhLen + 8))) == consumed + rpcLen
  {
    WrapCancels(consumed, rhLen + 8, rpcLen);
    assert Wrap(Wrap(consumed + rhLen) + 8) == Wrap(consumed + (rhLen + 8));
  }

  /** How the cursor that framing hands to the decoder relates to the loop's. */
  ghost predicate FramedBy(p: Packet, c: Cursor, c': Cursor) {
    if c'.owned.Some? then c'.consumed == 0 && c'.totLen == c'.rpcLen <= MAX_RPC
    else if p.transport.Udp? then c' == c
    else c' == WithMark(c) && c'.consumed == c.consumed + 4 && c'.rpcLen < TWO31
  }

  lemma FrameCursor(s: State, p: Packet, c: Cursor)
    requires Inv(s, {}) && c.owned.None? && CursorOk(p, c) && c.consumed < c.totLen
    ensures Frame(s, p, c).Ready? ==> FramedBy(p, c, Frame(s, p, c).cursor)
  {
    hide FirstSegment, NextSegment, Inv, Lookup, TcpPayload;
    if p.transport.Tcp? {
      TakeOut(s, p.Key(p.transport.seqno));
    }
  }

  /** Every message that is decoded brings the loop strictly closer to its end. */
  lemma LoopProgress(xid: Table<Call>, p: Packet, c: Cursor, c': Cursor)
    requires TableOk(xid)
    requires c.owned.None? && CursorOk(p, c) && c.consumed < c.totLen && FramedBy(p, c, c')
    requires Decode(xid, p, c').exit.None?
    ensures CursorOk(p, c'.(consumed := Decode(xid, p, c').consumed))
    ensures c'.totLen - Decode(xid, p, c').consumed < c.totLen - c.consumed
  {
    hide Decode, TableOk;
    AdvanceExact(xid, p, c');
  }

  datatype Result = Result(state: State, code: int, visits: seq<Visit>)

  /** The `while (consumed < tot_len)` loop, with what it hands to the decoder. */
  function Loop(s: State, p: Packet, c: Cursor): (r: Result)
    requires Inv(s, Mine(c.owned)) && CursorOk(p, c)
    ensures Inv(r.state, {})
    decreases c.totLen - c.consumed
  {
    hide Frame, Decode, Release, FramedBy;
    if c.consumed >= c.totLen then Result(Release(s, c.owned), 1, [])
    else
      match Frame(s, p, c)
      case Stop(s', code) => Result(s', code, [])
      case Ready(s', c') =>
        FrameCursor(s, p, c);
        var d := Decode(s'.xid, p, c');
        var s'' := s'.(xid := d.xid);
        if d.exit.Some? then Result(Release(s'', c'.owned), d.exit.value, [d.visit])
        else
          LoopProgress(s'.xid, p, c, c');
          var rest := Loop(s'', p, c'.(consumed := d.consumed));
          Result(rest.state, rest.code, [d.visit] + rest.visits)
  }

  /** The loop taken apart after one decoded message that was not reassembled. */
  lemma LoopTurn(s: State, p: Packet, c: Cursor)
    requires Inv(s, {}) && CursorOk(p, c) && c.owned.None? && c.consumed < c.totLen
    requires Frame(s, p, c).Ready? && Frame(s, p, c).cursor.owned.None?
    ensures var fr := Frame(s, p, c);
            var d := Decode(fr.state.xid, p, fr.cursor);
            var s' := fr.state.(xid := d.xid);
            var c' := fr.cursor.(consumed := d.consumed);
            if d.exit.Some? then Loop(s, p, c) == Result(s', d.exit.value, [d.visit])
            else CursorOk(p, c')
                 && var rest := Loop(s', p, c');
                    Loop(s, p, c) == Result(rest.state, rest.code, [d.visit] + rest.visits)
  {
    hide Frame, Decode, FramedBy, Distinct, Contents;
    FrameCursor(s, p, c);
    var fr := Frame(s, p, c);
    if Decode(fr.state.xid, p, fr.cursor).exit.None? {
      LoopProgress(fr.state.xid, p, c, fr.cursor);
    }
  }

  function StartCursor(p: Packet): Cursor
    requires p.Start() < |p.bytes| <= MAX_CAPTURE
  {
    Cursor(Mem(p.bytes, p.beyond), |p.bytes|, p.Start(), p.eLen, p.iLen, p.hLen,
           if p.transport.Udp? then |p.bytes| - p.Start() else 0, None)
  }

  /** One packet. A frame without anything behind its headers is of no interest. */
  function ProcessPacket(s: State, p: Packet): (r: Result)
    requires Inv(s, {}) && |p.bytes| <= MAX_CAPTURE
    ensures Inv(r.state, {})
  {
    if p.Start() >= |p.bytes| then Result(s, 0, []) else Loop(s, p, StartCursor(p))
  }

  // ----- runs

  /** The state after a run of packets. */
  function RunPackets(s: State, ps: seq<Packet>): (r: State)
    requires Inv(s, {}) && forall p :: p in ps ==> |p.bytes| <= MAX_CAPTURE
    ensures Inv(r, {})
    decreases |ps|
  {
    if ps == [] then s else RunPackets(ProcessPacket(s, ps[0]).state, ps[1..])
  }
}
