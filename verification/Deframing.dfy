/**
 * A TCP payload that holds complete record-marked RPC messages is taken apart
 * at exactly the record boundaries, and every call and reply in it is decoded
 * to what was encoded.
 */
module Deframing {
  import opened Words
  import opened Options
  import opened TableKeys
  import opened AgingChains
  import opened RpcHeader
  import opened Ownership
  import opened PacketSteps

  ghost predicate Frameable(m: Message) {
    Encodable(m) && |Encode(m)| < TWO31
  }

  const SMALLEST := ReplyMsg(0, 0, [], 0, [])

  lemma SmallestFrameable()
    ensures Frameable(SMALLEST)
  {
  }

  /** Messages whose length fits the 31 bits of a record mark. */
  type Framed = m: Message | Frameable(m) ghost witness (SmallestFrameable(); SMALLEST)

  /** A record: the mark with its last-fragment bit, and the message. */
  ghost function Record(m: Framed): (s: seq<byte>)
    ensures |s| == 4 + |Encode(m)|
  {
    BytesOf(TWO31 + |Encode(m)|) + Encode(m)
  }

  ghost function Records(ms: seq<Framed>): seq<byte>
  {
    if ms == [] then [] else Record(ms[0]) + Records(ms[1..])
  }

  /** The number of a call's procedure in the table: those of MOUNT, program 100005, come behind the NFS ones. */
  function ProcNumber(m: Message): uint32
    requires m.CallMsg?
  {
    if m.prog == 100005 then (m.proc + 100) % 4294967296 else m.proc
  }

  /** A call without arguments at the very end of the packet is not looked at any further. */
  predicate Skipped(m: Message, last: bool) {
    last && m.CallMsg? && m.args == []
  }

  /** What the message does to the table of outstanding calls. */
  ghost function After(xid: Table<Call>, p: Packet, m: Message, last: bool): (r: Table<Call>)
    requires TableOk(xid)
    ensures TableOk(r)
  {
    if Skipped(m, last) then xid
    else if m.CallMsg? then
      var e := Entry(XidKey(m.xid, p.srcHost, p.srcPort), Call(m.vers, ProcNumber(m)), p.secs);
      InsertOk(xid, e);
      Insert(xid, e).0
    else
      LookupOk(xid, XidKey(m.xid, p.dstHost, p.dstPort));
      Lookup(xid, XidKey(m.xid, p.dstHost, p.dstPort)).0
  }

  /** The call that a reply answers: the newest outstanding one of the same xid, host and port. */
  ghost function Answered(xid: Table<Call>, p: Packet, m: Message): Call
    requires TableOk(xid) && m.ReplyMsg?
  {
    var q := Queue(xid, XidKey(m.xid, p.dstHost, p.dstPort));
    if q == [] then Call(3, TWO32 - 1) else q[0].val
  }

  /**
   * A place in a packet: the offset at which a record or a message starts, and
   * `head`, the sum of the header lengths at which processPacket has arrived.
   * Only before the first record do the two agree: a mark adds four bytes to
   * both, but a message adds nothing to `head`.
   */
  datatype Place = Place(mem: Mem, at: nat, head: nat) {
    function BehindMark(): Place {
      Place(mem, at + 4, head + 4)
    }

    ghost function BehindRecord(m: Framed): Place {
      Place(mem, at + 4 + |Encode(m)|, head + 4)
    }
  }

  function PlaceOf(c: Cursor): Place {
    Place(c.pp, c.consumed, c.eLen + c.iLen + c.hLen)
  }

  /** The message at the place was decoded to what was encoded, but the status was read relative to `head`. */
  ghost predicate Reads(v: Visit, xid: Table<Call>, p: Packet, m: Framed, place: Place, last: bool)
    requires TableOk(xid)
  {
    && v.pp == place.mem && v.start == place.at && v.rpcLen == |Encode(m)| && v.Message() == Encode(m)
    && if Skipped(m, last) then v.record == None
       else if m.CallMsg? then
         v.record == Some(CallRecord(m.xid, m.vers, ProcNumber(m), Signed(m.uid), Signed(m.gid),
                                     place.at + |HeaderBytes(m)|, |m.args|))
       else
         && v.record.Some? && v.record.value.ReplyRecord?
         && var r := v.record.value;
            && r.xid == m.xid
            && Call(r.version, r.proc) == Answered(xid, p, m)
            && r.rpcStatus == place.mem.Word(place.head + |HeaderBytes(m)| + 4)
            && r.payload == place.at + |HeaderBytes(m)| + 8
            && r.payloadLen == Wrap(|m.results| - 4)
  }

  /** The messages `ms`, the mark of the first of them at the place, were decoded one after the other. */
  ghost predicate Follows(xid: Table<Call>, p: Packet, ms: seq<Framed>, place: Place, visits: seq<Visit>,
                          xid': Table<Call>)
    requires TableOk(xid)
    decreases |ms|
  {
    hide Encodable, Encode, Reads, After, TableOk;
    if ms == [] then visits == [] && xid' == xid
    else
      && visits != []
      && Reads(visits[0], xid, p, ms[0], place.BehindMark(), ms[1..] == [])
      && Follows(After(xid, p, ms[0], ms[1..] == []), p, ms[1..], place.BehindRecord(ms[0]), visits[1..], xid')
  }

  // ----- one message

  lemma HoldsSlice(m: Mem, off: int, s: seq<byte>)
    requires Holds(m, off, s)
    ensures m.Slice(off, |s|) == s
  {
    forall i | 0 <= i < |s| ensures m.Slice(off, |s|)[i] == s[i] {
      assert m.Slice(off, |s|)[i] == m.At(off + i);
    }
  }

  lemma EncodeParts(msg: Message)
    requires Encodable(msg)
    ensures |Encode(msg)| == |HeaderBytes(msg)| + (if msg.CallMsg? then |msg.args| else 4 + |msg.results|)
  {
  }

  lemma HoldsHeader(m: Mem, off: int, msg: Message)
    requires Encodable(msg) && Holds(m, off, Encode(msg))
    ensures Holds(m, off, HeaderBytes(msg))
  {
    hide Holds, HeaderBytes, BytesOf;
    if msg.CallMsg? {
      HoldsSplit(m, off, HeaderBytes(msg), msg.args);
    } else {
      HoldsSplit(m, off, HeaderBytes(msg) + BytesOf(msg.acceptStat), msg.results);
      HoldsSplit(m, off, HeaderBytes(msg), BytesOf(msg.acceptStat));
    }
  }

  /** The header of a complete message, whatever else the packet holds behind it. */
  lemma HeaderOf(c: Cursor, msg: Framed)
    requires Holds(c.pp, c.consumed, Encode(msg))
    requires c.consumed + |Encode(msg)| <= c.totLen <= MAX_CAPTURE
    ensures GetRpcHeader(c.pp, c.consumed, Wrap(c.totLen - c.consumed))
            == if msg.CallMsg? then Header(CALL, |HeaderBytes(msg)|, Signed(msg.uid), Signed(msg.gid))
               else Header(REPLY, |HeaderBytes(msg)|, -1, -1)
  {
    hide Holds, Encode, HeaderBytes, GetRpcHeader, Encodable, Signed, UnixBody, RoundUp4, Mem.Word;
    EncodeParts(msg);
    HoldsHeader(c.pp, c.consumed, msg);
    HeaderRoundTrip(c.pp, c.consumed, c.totLen - c.consumed, msg);
  }

  lemma VisitReads(c: Cursor, msg: Framed)
    requires Holds(c.pp, c.consumed, Encode(msg)) && c.rpcLen == |Encode(msg)|
    ensures Visit(c.pp, c.consumed, c.rpcLen, None).Message() == Encode(msg)
  {
    hide Encode, Holds;
    HoldsSlice(c.pp, c.consumed, Encode(msg));
  }

  /** Arithmetic of DecodeCall when nothing wraps. */
  lemma SmallCall(base: nat, header: nat, args: nat)
    requires base + header + args <= MAX_CAPTURE
    ensures Wrap(base + header) == base + header && Wrap(header + args - header) == args
    ensures Wrap(base + header + args) == base + header + args
  {
  }

  lemma ProcRead(m: Mem, base: int, msg: Message)
    requires msg.CallMsg? && m.Word(base + 12) == msg.prog && m.Word(base + 20) == msg.proc
    ensures ProcOf(m, base) == ProcNumber(msg)
  {
  }

  lemma DecodeCallMessage(xid: Table<Call>, p: Packet, c: Cursor, msg: Framed, last: bool)
    requires TableOk(xid) && Holds(c.pp, c.consumed, Encode(msg)) && msg.CallMsg?
    requires c.rpcLen == |Encode(msg)| && c.totLen <= MAX_CAPTURE
    requires if last then c.consumed + |Encode(msg)| == c.totLen else c.consumed + |Encode(msg)| < c.totLen
    ensures var d := Decode(xid, p, c);
            && Reads(d.visit, xid, p, msg, PlaceOf(c), last)
            && d.xid == After(xid, p, msg, last)
            && (if d.exit == None then d.consumed == c.consumed + |Encode(msg)| else last && d.exit == Some(1))
  {
    hide Holds, Encode, HeaderBytes, GetRpcHeader, Encodable, Signed, Insert, TableOk, Mem.Word;
    hide Wrap, ProcOf, ProcNumber, UnixBody, RoundUp4, Opaque, Mem.Slice;
    EncodeParts(msg);
    HeaderOf(c, msg);
    VisitReads(c, msg);
    HoldsHeader(c.pp, c.consumed, msg);
    HoldsCall(c.pp, c.consumed, msg);
    ProcRead(c.pp, c.consumed, msg);
    SmallCall(c.consumed, |HeaderBytes(msg)|, |msg.args|);
    var d := Decode(xid, p, c);
    assert d.visit.Message() == Visit(c.pp, c.consumed, c.rpcLen, None).Message();
  }

  lemma SmallReply(base: nat, header: nat, results: nat)
    requires base + header + 4 + results <= MAX_CAPTURE
    ensures Wrap(base + header) == base + header && Wrap(Wrap(base + header) + 8) == base + header + 8
    ensures Wrap(header + (4 + results) - (header + 8)) == Wrap(results - 4)
  {
  }

  lemma AnswerRead(xid: Table<Call>, p: Packet, msg: Message)
    requires TableOk(xid) && msg.ReplyMsg?
    ensures Matched(Lookup(xid, XidKey(msg.xid, p.dstHost, p.dstPort)).1) == Answered(xid, p, msg)
  {
    LookupPerKey(xid, XidKey(msg.xid, p.dstHost, p.dstPort), XidKey(msg.xid, p.dstHost, p.dstPort));
    hide Lookup, Queue, TableOk;
  }

  lemma DecodeReplyMessage(xid: Table<Call>, p: Packet, c: Cursor, msg: Framed, last: bool)
    requires TableOk(xid) && Holds(c.pp, c.consumed, Encode(msg)) && msg.ReplyMsg?
    requires c.rpcLen == |Encode(msg)| && c.totLen <= MAX_CAPTURE
    requires if last then c.consumed + |Encode(msg)| == c.totLen else c.consumed + |Encode(msg)| < c.totLen
    ensures var d := Decode(xid, p, c);
            && Reads(d.visit, xid, p, msg, PlaceOf(c), last)
            && d.xid == After(xid, p, msg, last)
            && d.exit == None && d.consumed == c.consumed + |Encode(msg)|
  {
    hide Holds, Encode, HeaderBytes, GetRpcHeader, Encodable, Lookup, TableOk, Mem.Word, Wrap, Matched, Answered;
    EncodeParts(msg);
    HeaderOf(c, msg);
    VisitReads(c, msg);
    HoldsHeader(c.pp, c.consumed, msg);
    HoldsReply(c.pp, c.consumed, msg);
    SmallReply(c.consumed, |HeaderBytes(msg)|, |msg.results|);
    WrapCancels8(c.consumed, |HeaderBytes(msg)|, c.rpcLen);
    AnswerRead(xid, p, msg);
    var d := Decode(xid, p, c);
    assert d.visit.Message() == Visit(c.pp, c.consumed, c.rpcLen, None).Message();
  }

  // ----- the whole payload

  /** `c` stands in front of the records `ms`, which fill the rest of the packet, and no fragment waits here. */
  ghost predicate Before(s: State, p: Packet, c: Cursor, ms: seq<Framed>)
    requires TableOk(s.tcp)
  {
    && p.transport.Tcp? && Queue(s.tcp, p.Key(p.transport.seqno)) == []
    && c.owned.None? && c.totLen == c.consumed + |Records(ms)| <= MAX_CAPTURE
    && Holds(c.pp, c.consumed, Records(ms))
    && |Records(ms)| <= p.length - c.iLen - c.hLen
  }

  lemma RecordsParts(ms: seq<Framed>)
    requires ms != []
    ensures |Records(ms)| == 4 + |Encode(ms[0])| + |Records(ms[1..])|
    ensures ms[1..] != [] ==> |Records(ms[1..])| > 0
  {
    hide Encodable, Encode;
  }

  /** Framing finds the mark and sends the record's message to the decoder. */
  lemma FrameRecord(s: State, p: Packet, c: Cursor, ms: seq<Framed>)
    requires Inv(s, {}) && Before(s, p, c, ms) && ms != []
    ensures var c' := WithMark(c);
            && Frame(s, p, c) == Ready(s, c')
            && c'.consumed == c.consumed + 4 && c'.rpcLen == |Encode(ms[0])|
            && Holds(c.pp, c.consumed + 4, Encode(ms[0]))
            && Holds(c.pp, c.consumed + 4 + |Encode(ms[0])|, Records(ms[1..]))
  {
    hide Holds, Encode, Encodable, Contents, Distinct, TableOk, Mem.Word;
    hide NextSegment, FirstSegment, BytesOf, Queue, Lookup;
    var k: uint32 := p.transport.seqno;
    TakeOut(s, p.Key(k));
    LookupPerKey(s.tcp, p.Key(k), p.Key(k));
    RecordsParts(ms);
    HoldsSplit(c.pp, c.consumed, Record(ms[0]), Records(ms[1..]));
    HoldsSplit(c.pp, c.consumed, BytesOf(TWO31 + |Encode(ms[0])|), Encode(ms[0]));
    HoldsWord(c.pp, c.consumed, TWO31 + |Encode(ms[0])|);
  }

  /** One turn of the loop over the records. */
  lemma RecordTurn(s: State, p: Packet, c: Cursor, ms: seq<Framed>)
    requires Inv(s, {}) && Before(s, p, c, ms) && ms != []
    ensures var c' := WithMark(c);
            var d := Decode(s.xid, p, c');
            && Frame(s, p, c) == Ready(s, c')
            && Reads(d.visit, s.xid, p, ms[0], PlaceOf(c).BehindMark(), ms[1..] == [])
            && d.xid == After(s.xid, p, ms[0], ms[1..] == [])
            && (if d.exit == None then Before(s.(xid := d.xid), p, c'.(consumed := d.consumed), ms[1..])
                                       && d.consumed == c.consumed + 4 + |Encode(ms[0])|
                else d.exit == Some(1) && ms[1..] == [])
  {
    hide Holds, Encode, Encodable, Contents, Distinct, TableOk, Mem.Word, Queue, Decode, Reads, After, Frame, Frameable;
    FrameRecord(s, p, c, ms);
    RecordsParts(ms);
    var c' := WithMark(c);
    if ms[0].CallMsg? {
      DecodeCallMessage(s.xid, p, c', ms[0], ms[1..] == []);
    } else {
      DecodeReplyMessage(s.xid, p, c', ms[0], ms[1..] == []);
    }
  }

  /** The loop over a payload of complete records. */
  lemma {:induction false} LoopRecords(s: State, p: Packet, c: Cursor, ms: seq<Framed>)
    requires Inv(s, {}) && Before(s, p, c, ms)
    ensures CursorOk(p, c)
    ensures var r := Loop(s, p, c);
            && r.code == 1 && r.state.tcp == s.tcp && r.state.heap == s.heap
            && Follows(s.xid, p, ms, PlaceOf(c), r.visits, r.state.xid)
    decreases |ms|
  {
    hide Holds, Encode, Encodable, Contents, Distinct, Mem.Word, Queue, Decode;
    hide Reads, After, Frame, Before, Records, TableOk, Loop;
    BeforeCursor(s, p, c, ms);
    if ms == [] {
      LoopEnds(s, p, c);
    } else {
      RecordTurn(s, p, c, ms);
      LoopTurn(s, p, c);
      var c' := WithMark(c);
      var d := Decode(s.xid, p, c');
      var s' := s.(xid := d.xid);
      if d.exit.None? {
        LoopRecords(s', p, c'.(consumed := d.consumed), ms[1..]);
      } else {
        assert Follows(d.xid, p, ms[1..], PlaceOf(c).BehindRecord(ms[0]), [], d.xid);
      }
    }
  }

  lemma LoopEnds(s: State, p: Packet, c: Cursor)
    requires Inv(s, {}) && CursorOk(p, c) && c.owned.None? && c.consumed >= c.totLen
    ensures Loop(s, p, c) == Result(s, 1, [])
  {
    hide Distinct, Contents;
  }

  lemma BeforeCursor(s: State, p: Packet, c: Cursor, ms: seq<Framed>)
    requires TableOk(s.tcp) && Before(s, p, c, ms)
    ensures CursorOk(p, c) && c.owned.None? && (ms == [] <==> c.consumed >= c.totLen)
  {
    hide Holds, Encode, Encodable, Queue, TableOk;
    if ms != [] {
      RecordsParts(ms);
    }
  }

  /** The packet is a segment whose payload is the records of `ms`, and no fragment waits for it. */
  ghost predicate HoldsRecords(s: State, p: Packet, ms: seq<Framed>)
    requires TableOk(s.tcp)
  {
    && p.transport.Tcp? && Queue(s.tcp, p.Key(p.transport.seqno)) == []
    && ms != [] && p.Start() + |Records(ms)| == |p.bytes| <= MAX_CAPTURE
    && p.bytes[p.Start()..] == Records(ms) && p.length == p.iLen + p.hLen + |Records(ms)|
  }

  function StartOf(p: Packet): Place {
    Place(Mem(p.bytes, p.beyond), p.Start(), p.Start())
  }

  lemma RecordsInMemory(s: State, p: Packet, ms: seq<Framed>)
    requires TableOk(s.tcp) && HoldsRecords(s, p, ms)
    ensures Holds(Mem(p.bytes, p.beyond), p.Start(), Records(ms))
  {
    hide Records, TableOk, Queue;
    forall i | 0 <= i < |Records(ms)| ensures Mem(p.bytes, p.beyond).At(p.Start() + i) == Records(ms)[i] {
      assert p.bytes[p.Start()..][i] == p.bytes[p.Start() + i];
    }
  }

  /**
   * Deframing: when the payload of a segment is a sequence of complete records
   * of encodable messages, and no fragment waits for its sequence number, the
   * loop visits exactly the records' messages in their order, decodes each to
   * what was encoded, updates the table of calls accordingly, and stops at the
   * end of the packet.
   */
  lemma DeframingRoundTrip(s: State, p: Packet, ms: seq<Framed>)
    requires Inv(s, {}) && HoldsRecords(s, p, ms)
    ensures var r := ProcessPacket(s, p);
            && r.code == 1 && r.state.tcp == s.tcp && r.state.heap == s.heap
            && Follows(s.xid, p, ms, StartOf(p), r.visits, r.state.xid)
  {
    hide Encode, Encodable, Contents, Distinct, TableOk, Queue, Loop, Follows, Records, Frameable;
    RecordsParts(ms);
    RecordsInMemory(s, p, ms);
    LoopRecords(s, p, StartCursor(p), ms);
  }

  lemma ReadsOffset(v: Visit, xid: Table<Call>, p: Packet, m: Framed, place: Place, last: bool)
    requires TableOk(xid) && Reads(v, xid, p, m, place, last)
    ensures v.start == place.at && v.Message() == Encode(m)
    ensures m.ReplyMsg? ==> v.record.Some? && v.record.value.ReplyRecord?
                            && v.record.value.rpcStatus == place.mem.Word(place.head + |HeaderBytes(m)| + 4)
  {
    hide Encode, Encodable, TableOk, HeaderBytes, Answered, Visit.Message;
  }

  lemma {:induction false} FollowsLength(xid: Table<Call>, p: Packet, ms: seq<Framed>, place: Place,
                                         visits: seq<Visit>, xid': Table<Call>)
    requires TableOk(xid) && Follows(xid, p, ms, place, visits, xid')
    ensures |visits| == |ms|
    decreases |ms|
  {
    hide Encode, Encodable, TableOk, After, Reads;
    if ms != [] {
      FollowsLength(After(xid, p, ms[0], ms[1..] == []), p, ms[1..], place.BehindRecord(ms[0]), visits[1..], xid');
    }
  }

  /** The offsets of the visits are the true record offsets; the statuses are read somewhere else. */
  lemma {:induction false} FollowsOffsets(xid: Table<Call>, p: Packet, ms: seq<Framed>, place: Place,
                                          visits: seq<Visit>, xid': Table<Call>, j: nat)
    requires TableOk(xid) && Follows(xid, p, ms, place, visits, xid') && j < |ms|
    ensures |visits| == |ms|
    ensures visits[j].start == place.at + |Records(ms[..j])| + 4 && visits[j].Message() == Encode(ms[j])
    ensures ms[j].ReplyMsg? ==>
              && visits[j].record.Some? && visits[j].record.value.ReplyRecord?
              && visits[j].record.value.rpcStatus
                 == place.mem.Word(place.head + 4 * (j + 1) + |HeaderBytes(ms[j])| + 4)
    decreases |ms|
  {
    hide Encode, Encodable, TableOk, After, Reads, Visit.Message, Records, HeaderBytes, Mem.Word;
    FollowsLength(xid, p, ms, place, visits, xid');
    if j == 0 {
      assert ms[..j] == [];
      RecordsNone();
      ReadsOffset(visits[0], xid, p, ms[0], place.BehindMark(), ms[1..] == []);
    } else {
      FollowsOffsets(After(xid, p, ms[0], ms[1..] == []), p, ms[1..], place.BehindRecord(ms[0]), visits[1..], xid',
                     j - 1);
      RecordsPrefix(ms, j);
    }
  }

  lemma RecordsNone()
    ensures Records([]) == []
  {
  }

  lemma RecordsPrefix(ms: seq<Framed>, j: nat)
    requires 0 < j <= |ms|
    ensures |Records(ms[..j])| == 4 + |Encode(ms[0])| + |Records(ms[1..][..j - 1])|
  {
    hide Encode, Encodable, Records;
    assert ms[..j][0] == ms[0] && ms[..j][1..] == ms[1..][..j - 1];
    RecordsParts(ms[..j]);
  }

  // ----- the status of a reply

  /** Where processPacket reads the status of reply `j`, and where the reply's results begin, behind the headers. */
  ghost function StatusOffset(ms: seq<Framed>, j: nat): nat
    requires j < |ms|
  {
    4 * (j + 1) + |HeaderBytes(ms[j])| + 4
  }

  ghost function ResultsOffset(ms: seq<Framed>, j: nat): nat
    requires j < |ms|
  {
    |Records(ms[..j])| + 4 + |HeaderBytes(ms[j])| + 4
  }

  /** The records before the `j`th take up more than their marks. */
  lemma {:induction false} RecordsLonger(ms: seq<Framed>, j: nat)
    requires j <= |ms|
    ensures |Records(ms[..j])| >= 4 * j && (|Records(ms[..j])| == 4 * j <==> j == 0)
    decreases j
  {
    hide Encode, Encodable, Records;
    if j == 0 {
      assert ms[..0] == [];
      RecordsNone();
    } else {
      RecordsPrefix(ms, j);
      RecordsLonger(ms[1..], j - 1);
      NotEmpty(ms[0]);
    }
  }

  lemma NotEmpty(m: Framed)
    ensures |Encode(m)| > 0
  {
    hide Encode, Encodable, HeaderBytes;
    EncodeParts(m);
    HeaderNotEmpty(m);
  }

  lemma HeaderNotEmpty(m: Framed)
    ensures |HeaderBytes(m)| >= 20
  {
  }

  /** The results of reply `j` in memory. */
  lemma {:induction false} ResultsInMemory(m: Mem, off: int, ms: seq<Framed>, j: nat)
    requires Holds(m, off, Records(ms)) && j < |ms| && ms[j].ReplyMsg?
    ensures Holds(m, off + ResultsOffset(ms, j), ms[j].results)
    decreases j
  {
    hide Holds, Encode, Encodable, Records, BytesOf, HeaderBytes;
    RecordOnly(m, off, ms);
    if j == 0 {
      assert ms[..0] == [];
      RecordsNone();
      ReplyParts(m, off + 4, ms[0]);
    } else {
      ResultsInMemory(m, off + 4 + |Encode(ms[0])|, ms[1..], j - 1);
      RecordsPrefix(ms, j);
    }
  }

  lemma RecordOnly(m: Mem, off: int, ms: seq<Framed>)
    requires ms != [] && Holds(m, off, Records(ms))
    ensures Holds(m, off + 4, Encode(ms[0])) && Holds(m, off + 4 + |Encode(ms[0])|, Records(ms[1..]))
    ensures m.Word(off) == TWO31 + |Encode(ms[0])|
  {
    hide Holds, Encode, Encodable, BytesOf, Mem.Word;
    RecordsParts(ms);
    HoldsSplit(m, off, Record(ms[0]), Records(ms[1..]));
    HoldsSplit(m, off, BytesOf(TWO31 + |Encode(ms[0])|), Encode(ms[0]));
    HoldsWord(m, off, TWO31 + |Encode(ms[0])|);
  }

  lemma ReplyParts(m: Mem, off: int, msg: Framed)
    requires msg.ReplyMsg? && Holds(m, off, Encode(msg))
    ensures Holds(m, off + |HeaderBytes(msg)| + 4, msg.results)
  {
    hide Holds, HeaderBytes, BytesOf;
    HoldsSplit(m, off, HeaderBytes(msg) + BytesOf(msg.acceptStat), msg.results);
  }

  /**
   * Which word `rpcStatus` is, for reply `j` of a segment of records: one at an
   * offset that is the offset of the reply's results if and only if the reply
   * is the first message of its packet. Then it is the status.
   */
  lemma StatusIff(s: State, p: Packet, ms: seq<Framed>, j: nat)
    requires Inv(s, {}) && HoldsRecords(s, p, ms) && j < |ms| && ms[j].ReplyMsg?
    ensures |ProcessPacket(s, p).visits| == |ms|
    ensures var r := ProcessPacket(s, p).visits[j].record;
            && r.Some? && r.value.ReplyRecord?
            && r.value.rpcStatus == Mem(p.bytes, p.beyond).Word(p.Start() + StatusOffset(ms, j))
            && (j == 0 && |ms[j].results| >= 4 ==> BytesOf(r.value.rpcStatus) == ms[j].results[..4])
    ensures Holds(Mem(p.bytes, p.beyond), p.Start() + ResultsOffset(ms, j), ms[j].results)
    ensures StatusOffset(ms, j) <= ResultsOffset(ms, j)
    ensures StatusOffset(ms, j) == ResultsOffset(ms, j) <==> j == 0
  {
    hide Encode, Encodable, Contents, Distinct, TableOk, Queue, Follows, Records, HeaderBytes, Mem.Word, Holds, BytesOf;
    hide ProcessPacket;
    DeframingRoundTrip(s, p, ms);
    FollowsOffsets(s.xid, p, ms, StartOf(p), ProcessPacket(s, p).visits, ProcessPacket(s, p).state.xid, j);
    RecordsInMemory(s, p, ms);
    ResultsInMemory(Mem(p.bytes, p.beyond), p.Start(), ms, j);
    RecordsLonger(ms, j);
    if j == 0 && |ms[j].results| >= 4 {
      WordRead(Mem(p.bytes, p.beyond), p.Start() + ResultsOffset(ms, j), ms[j].results);
    }
  }

  /**
   * The status of a reply is read from the right place whenever the message
   * starts where the packet's headers end: also in a datagram, and in a
   * reassembled message, which has no headers in front.
   */
  lemma FirstStatus(xid: Table<Call>, p: Packet, c: Cursor, msg: Framed, last: bool)
    requires TableOk(xid) && Holds(c.pp, c.consumed, Encode(msg)) && msg.ReplyMsg?
    requires c.rpcLen == |Encode(msg)| && c.totLen <= MAX_CAPTURE
    requires if last then c.consumed + |Encode(msg)| == c.totLen else c.consumed + |Encode(msg)| < c.totLen
    requires c.consumed == c.eLen + c.iLen + c.hLen
    requires |msg.results| >= 4
    ensures var r := Decode(xid, p, c).visit.record;
            r.Some? && r.value.ReplyRecord?
            && BytesOf(r.value.rpcStatus) == msg.results[..4]
  {
    hide Holds, HeaderBytes, GetRpcHeader, Encodable, Lookup, TableOk, Mem.Word, Wrap, Matched, BytesOf;
    EncodeParts(msg);
    HeaderOf(c, msg);
    SmallReply(c.consumed, |HeaderBytes(msg)|, |msg.results|);
    var at := c.consumed + |HeaderBytes(msg)| + 4;
    HoldsSplit(c.pp, c.consumed, HeaderBytes(msg) + BytesOf(msg.acceptStat), msg.results);
    WordRead(c.pp, at, msg.results);
  }

  lemma WordRead(m: Mem, off: int, s: seq<byte>)
    requires Holds(m, off, s) && |s| >= 4
    ensures BytesOf(m.Word(off)) == s[..4]
  {
    assert m.At(off + 0) == s[0] && m.At(off + 1) == s[1] && m.At(off + 2) == s[2] && m.At(off + 3) == s[3];
    WordBytesUnique(s[0], s[1], s[2], s[3]);
  }

  lemma WordBytesUnique(b0: byte, b1: byte, b2: byte, b3: byte)
    ensures BytesOf(WordOf(b0, b1, b2, b3)) == [b0, b1, b2, b3]
  {
    var w := WordOf(b0, b1, b2, b3);
    assert w / 0x1_0000 == b0 * 0x100 + b1;
    assert w % 0x1_0000 == b2 * 0x100 + b3;
  }
}
