/**
 * TCP reassembly delivers what was sent: for one flow among arbitrary other
 * traffic, over every interleaving and every initial sequence number.
 */
module Reassembly {
  import opened Words
  import opened Options
  import opened TableKeys
  import opened AgingChains
  import opened RpcHeader
  import opened Ownership
  import opened PacketSteps

  /** One direction of a connection, about to send one record-marked message. */
  datatype Flow = Flow(srcHost: uint32, srcPort: uint16, dstHost: uint32, dstPort: uint16,
                       isn: uint32, message: seq<byte>) {
    function Key(nextSeq: uint32): TableKeys.Key {
      TcpKey(nextSeq, srcHost, srcPort, dstHost, dstPort)
    }

    predicate Carries(p: Packet) {
      && p.transport.Tcp?
      && p.srcHost == srcHost && p.srcPort == srcPort && p.dstHost == dstHost && p.dstPort == dstPort
    }
  }

  /** The record on the wire (section 11 of RFC 5531): last-fragment bit and length, then the message. */
  ghost function Stream(f: Flow): (s: seq<byte>)
    requires |f.message| <= MAX_RPC
    ensures |s| == 4 + |f.message|
  {
    BytesOf(TWO31 + |f.message|) + f.message
  }

  // ----- what other traffic leaves alone

  /** The entries of the flow are the same in both states, and so are the bytes in their buffers. */
  ghost predicate Same(s: State, s': State, f: Flow)
    requires TableOk(s.tcp) && TableOk(s'.tcp)
  {
    forall k: uint32 ::
      Queue(s'.tcp, f.Key(k)) == Queue(s.tcp, f.Key(k)) && SameBytes(s.heap, s'.heap, Queue(s.tcp, f.Key(k)))
  }

  ghost predicate SameBytes(h: Heap, h': Heap, q: seq<Entry<Fragment>>) {
    forall e :: e in q && e.val.buffer in h.blocks ==>
      e.val.buffer in h'.blocks && h'.blocks[e.val.buffer] == h.blocks[e.val.buffer]
  }

  /**
   * An entry of time `time` is not stale when the clock says `now`: from second
   * 30 on, if `now` is at most 30 seconds later.
   */
  predicate NotAged(now: uint32, time: uint32) {
    time >= Limit(now)
  }

  /** No entry of the flow is stale. */
  ghost predicate Recent(s: State, f: Flow, now: uint32)
    requires TableOk(s.tcp)
  {
    forall k: uint32, e :: e in Queue(s.tcp, f.Key(k)) ==> NotAged(now, e.time)
  }

  lemma SameTransitive(a: State, b: State, c: State, f: Flow)
    requires TableOk(a.tcp) && TableOk(b.tcp) && TableOk(c.tcp)
    requires Same(a, b, f) && Same(b, c, f)
    ensures Same(a, c, f)
  {
    hide TableOk, Queue, Inv;
    forall k: uint32
      ensures Queue(c.tcp, f.Key(k)) == Queue(a.tcp, f.Key(k)) && SameBytes(a.heap, c.heap, Queue(a.tcp, f.Key(k)))
    {
      assert Queue(b.tcp, f.Key(k)) == Queue(a.tcp, f.Key(k)) && SameBytes(a.heap, b.heap, Queue(a.tcp, f.Key(k)));
      assert Queue(c.tcp, f.Key(k)) == Queue(b.tcp, f.Key(k)) && SameBytes(b.heap, c.heap, Queue(b.tcp, f.Key(k)));
    }
  }

  lemma NothingStale(q: seq<Entry<Fragment>>, now: uint32)
    requires forall e :: e in q ==> NotAged(now, e.time)
    ensures StaleCount(q, Limit(now)) == 0
  {
    AllFresh(q, Limit(now));
  }

  /** When nothing of a key is stale, an insert just pushes. */
  lemma InsertPushes(t: Table<Fragment>, e: Entry<Fragment>, k: Key)
    requires TableOk(t) && forall x :: x in Pushed(t, e, k) ==> NotAged(e.time, x.time)
    ensures TableOk(Insert(t, e).0)
    ensures Queue(Insert(t, e).0, k) == Pushed(t, e, k)
  {
    InsertPerKey(t, e, k);
    NothingStale(Pushed(t, e, k), e.time);
    hide Insert, StaleCount, Queue;
    assert Pushed(t, e, k)[0..] == Pushed(t, e, k);
  }

  /** Entries that stay in the table keep their buffers through an insert and its cull. */
  lemma DepositBytes(s: State, e: Entry<Fragment>, x: Entry<Fragment>)
    requires Inv(s, {e.val.buffer}) && FragmentOk(s.heap, e.key, e.val)
    requires x in Stored(Deposit(s, e))
    ensures x.val.buffer in s.heap.blocks && x.val.buffer in Deposit(s, e).heap.blocks
    ensures Deposit(s, e).heap.blocks[x.val.buffer] == s.heap.blocks[x.val.buffer]
  {
    hide Distinct, TableOk, Contents, Insert;
    assert FragmentOk(Deposit(s, e).heap, x.key, x.val);
  }

  lemma DepositQueue(s: State, e: Entry<Fragment>, k: Key)
    requires Inv(s, {e.val.buffer}) && FragmentOk(s.heap, e.key, e.val)
    requires forall x :: x in Pushed(s.tcp, e, k) ==> NotAged(e.time, x.time)
    ensures Queue(Deposit(s, e).tcp, k) == Pushed(s.tcp, e, k)
    ensures SameBytes(s.heap, Deposit(s, e).heap, Pushed(s.tcp, e, k))
  {
    InsertPushes(s.tcp, e, k);
    hide Queue, Pushed, Distinct, Insert, FragmentOk;
    forall x | x in Pushed(s.tcp, e, k)
      ensures x.val.buffer in Deposit(s, e).heap.blocks
              && Deposit(s, e).heap.blocks[x.val.buffer] == s.heap.blocks[x.val.buffer]
    {
      QueueMember(Deposit(s, e).tcp, k, x);
      DepositBytes(s, e, x);
    }
  }

  /** An insert under another connection's key. */
  lemma DepositSame(s: State, e: Entry<Fragment>, f: Flow)
    requires Inv(s, {e.val.buffer}) && FragmentOk(s.heap, e.key, e.val)
    requires forall k: uint32 :: e.key != f.Key(k)
    requires Recent(s, f, e.time)
    ensures Same(s, Deposit(s, e), f)
  {
    forall k: uint32
      ensures Queue(Deposit(s, e).tcp, f.Key(k)) == Queue(s.tcp, f.Key(k))
              && SameBytes(s.heap, Deposit(s, e).heap, Queue(s.tcp, f.Key(k)))
    {
      hide Queue, Insert, Deposit, Inv, FragmentOk, SameBytes;
      assert e.key != f.Key(k);
      DepositQueue(s, e, f.Key(k));
    }
  }

  /** The packet's own block is not one of the table's. */
  lemma FillSame(s: State, h: Handle, off: nat, src: seq<byte>, f: Flow)
    requires Inv(s, {h}) && off + |src| <= |s.heap.blocks[h]|
    ensures Same(s, Fill(s, h, off, src), f)
  {
    hide Distinct, Contents;
    forall k: uint32, e | e in Queue(s.tcp, f.Key(k)) ensures e.val.buffer != h {
      QueueMember(s.tcp, f.Key(k), e);
      assert e.val.buffer in Buffers(Stored(s));
    }
  }

  lemma AllocateSame(s: State, n: nat, beyond: int -> byte, f: Flow)
    requires Inv(s, {})
    ensures Same(s, Allocate(s, n, beyond), f)
  {
  }

  lemma ReleaseSame(s: State, owned: Option<Handle>, f: Flow)
    requires Inv(s, Mine(owned))
    ensures Same(s, Release(s, owned), f)
  {
    hide Distinct, Contents;
    forall k: uint32, e | e in Queue(s.tcp, f.Key(k)) ensures e.val.buffer !in Mine(owned) {
      QueueMember(s.tcp, f.Key(k), e);
      assert e.val.buffer in Buffers(Stored(s));
    }
  }

  lemma LookupSame(s: State, k: Key, f: Flow)
    requires Inv(s, {}) && forall q: uint32 :: k != f.Key(q)
    ensures TableOk(Lookup(s.tcp, k).0)
    ensures Same(s, s.(tcp := Lookup(s.tcp, k).0), f)
  {
    LookupOk(s.tcp, k);
    forall q: uint32 ensures Queue(Lookup(s.tcp, k).0, f.Key(q)) == Queue(s.tcp, f.Key(q)) {
      LookupPerKey(s.tcp, k, f.Key(q));
    }
  }

  lemma RecentSame(s: State, s': State, f: Flow, now: uint32)
    requires TableOk(s.tcp) && TableOk(s'.tcp) && Same(s, s', f) && Recent(s, f, now)
    ensures Recent(s', f, now)
  {
    hide Queue, TableOk;
  }

  lemma WaitSame(s: State, s': State, p: Packet, frag: Fragment, seqno: uint32, n: nat, code: int, f: Flow)
    requires TableOk(s.tcp)
    requires Inv(s', {frag.buffer}) && |s'.heap.blocks[frag.buffer]| == frag.rpcLen <= MAX_RPC
    requires Filled(p.Key(seqno), frag) + n < frag.rpcLen
    requires p.transport.Tcp? && !f.Carries(p)
    requires Same(s, s', f) && Recent(s, f, p.secs)
    ensures Same(s, Wait(s', p, frag, seqno, n, code).state, f)
  {
    hide Same, Recent, NotAged, Deposit, Wrap, Contents, Distinct, TableOk;
    NextSeqAfter(seqno, frag, n);
    FragmentAt(s'.heap, p.Key(Wrap(seqno + n)), frag, Filled(p.Key(seqno), frag) + n);
    var e := Entry(p.Key(Wrap(seqno + n)), frag, p.secs);
    RecentSame(s, s', f, p.secs);
    DepositSame(s', e, f);
    SameTransitive(s, s', Deposit(s', e), f);
  }

  lemma FirstSegmentSame(s: State, p: Packet, c: Cursor, seqno: uint32, n: uint32, f: Flow)
    requires Inv(s, {}) && n < c.rpcLen <= MAX_RPC
    requires p.transport.Tcp? && !f.Carries(p) && Recent(s, f, p.secs)
    ensures Same(s, FirstSegment(s, p, c, seqno, n).state, f)
  {
    var h := s.heap.next;
    var a := Allocate(s, c.rpcLen, p.beyond);
    AllocateSame(s, c.rpcLen, p.beyond, f);
    var b := Fill(a, h, 0, c.pp.Slice(c.consumed, n));
    FillSame(a, h, 0, c.pp.Slice(c.consumed, n), f);
    assert Filled(p.Key(seqno), Fragment(h, c.rpcLen, seqno)) == 0;
    hide Allocate, Fill, Wait, Same, Recent, NotAged, Filled;
    SameTransitive(s, a, b, f);
    WaitSame(s, b, p, Fragment(h, c.rpcLen, seqno), seqno, n, -12, f);
  }

  lemma NextSegmentSame(s: State, p: Packet, c: Cursor, seqno: uint32, frag: Fragment, f: Flow)
    requires Inv(s, {frag.buffer}) && FragmentOk(s.heap, p.Key(seqno), frag)
    requires p.transport.Tcp? && !f.Carries(p) && Recent(s, f, p.secs)
    ensures Same(s, NextSegment(s, p, c, seqno, frag).state, f)
  {
    hide Wait, Same, Recent, Filled, TcpPayload, TableOk, Distinct, Contents, Mem.Slice, Flow.Carries, Stored;
    var n := TcpPayload(p, c);
    var first := Filled(p.Key(seqno), frag);
    var last := LastOffset(first, n, frag.rpcLen);
    assert |s.heap.blocks[frag.buffer]| == frag.rpcLen && first <= last <= frag.rpcLen;
    FillSame(s, frag.buffer, first, c.pp.Slice(c.consumed, last - first), f);
    var b := Fill(s, frag.buffer, first, c.pp.Slice(c.consumed, last - first));
    hide Fill, Inv, FragmentOk;
    if last != frag.rpcLen {
      WaitSame(s, b, p, frag, seqno, n, -13, f);
    }
  }

  lemma FrameSame(s: State, p: Packet, c: Cursor, f: Flow)
    requires Inv(s, {}) && c.owned.None?
    requires !f.Carries(p) && Recent(s, f, p.secs)
    ensures Same(s, Frame(s, p, c).state, f)
  {
    SameSelf(s, f);
    if p.transport.Tcp? {
      FrameTcpSame(s, p, c, f);
    }
  }

  lemma NewMessageSame(s: State, p: Packet, c: Cursor, seqno: uint32, f: Flow)
    requires Inv(s, {}) && c.owned.None?
    requires p.transport.Tcp? && !f.Carries(p) && Recent(s, f, p.secs)
    ensures Same(s, NewMessage(s, p, c, seqno).state, f)
  {
    hide FirstSegment, Same, Recent, NotAged, WithMark, TcpPayload, TableOk, Wrap, Contents, Distinct;
    SameSelf(s, f);
    var c' := WithMark(c);
    var n := TcpPayload(p, c');
    var seq4: uint32 := Wrap(seqno + 4);
    if n < c'.rpcLen <= MAX_RPC {
      FirstSegmentSame(s, p, c', seq4, n, f);
    }
  }

  lemma FrameTcpSame(s: State, p: Packet, c: Cursor, f: Flow)
    requires Inv(s, {}) && c.owned.None?
    requires p.transport.Tcp? && !f.Carries(p) && Recent(s, f, p.secs)
    ensures Same(s, Frame(s, p, c).state, f)
  {
    var seqno: uint32 := p.transport.seqno;
    TakeOut(s, p.Key(seqno));
    LookupSame(s, p.Key(seqno), f);
    var (tcp', found) := Lookup(s.tcp, p.Key(seqno));
    var t := s.(tcp := tcp');
    hide NewMessage, NextSegment, Lookup, Same, Recent, NotAged, FragmentOk;
    if found.Some? {
      RecentSame(s, t, f, p.secs);
      NextSegmentSame(t, p, c, seqno, found.value.val, f);
      SameTransitive(s, t, NextSegment(t, p, c, seqno, found.value.val).state, f);
    } else {
      NewMessageSame(s, p, c, seqno, f);
    }
  }

  lemma SameSelf(s: State, f: Flow)
    requires TableOk(s.tcp)
    ensures Same(s, s, f)
  {
  }

  /** Nothing that happens to a packet of another connection touches the flow. */
  lemma {:induction false} LoopSame(s: State, p: Packet, c: Cursor, f: Flow)
    requires Inv(s, Mine(c.owned)) && CursorOk(p, c)
    requires !f.Carries(p) && Recent(s, f, p.secs)
    ensures Same(s, Loop(s, p, c).state, f)
    decreases c.totLen - c.consumed
  {
    hide Recent, Same, NotAged, Frame, Decode, Release, FramedBy, CursorOk, Distinct, Contents, FragmentOk;
    if c.consumed >= c.totLen {
      ReleaseSame(s, c.owned, f);
    } else {
      OwnedEndsLoop(p, c);
      FrameSame(s, p, c, f);
      var fr := Frame(s, p, c);
      if fr.Ready? {
        FrameCursor(s, p, c);
        var d := Decode(fr.state.xid, p, fr.cursor);
        var s' := fr.state.(xid := d.xid);
        XidSame(fr.state, d.xid, f);
        SameTransitive(s, fr.state, s', f);
        RecentSame(s, s', f, p.secs);
        if d.exit.Some? {
          ReleaseSame(s', fr.cursor.owned, f);
          SameTransitive(s, s', Release(s', fr.cursor.owned), f);
        } else {
          LoopProgress(fr.state.xid, p, c, fr.cursor);
          var c' := fr.cursor.(consumed := d.consumed);
          LoopSame(s', p, c', f);
          SameTransitive(s, s', Loop(s', p, c').state, f);
        }
      }
    }
  }

  lemma OwnedEndsLoop(p: Packet, c: Cursor)
    requires CursorOk(p, c) && c.consumed < c.totLen
    ensures c.owned.None?
  {
  }

  lemma XidSame(s: State, xid: Table<Call>, f: Flow)
    requires TableOk(s.tcp)
    ensures Same(s, s.(xid := xid), f)
  {
  }

  lemma ForeignPacket(s: State, p: Packet, f: Flow)
    requires Inv(s, {}) && |p.bytes| <= MAX_CAPTURE
    requires !f.Carries(p) && Recent(s, f, p.secs)
    ensures Same(s, ProcessPacket(s, p).state, f)
  {
    hide Same, Recent, NotAged, Loop;
    SameSelf(s, f);
    if p.Start() < |p.bytes| {
      LoopSame(s, p, StartCursor(p), f);
    }
  }

  // ----- where the flow stands

  /** Nothing of the flow waits in the table. */
  ghost predicate Idle(s: State, f: Flow)
    requires TableOk(s.tcp)
  {
    forall k: uint32 :: Queue(s.tcp, f.Key(k)) == []
  }

  /** The buffer of a message of which `got` bytes have arrived. */
  ghost predicate Partial(heap: Heap, f: Flow, got: nat, frag: Fragment) {
    && frag.rpcLen == |f.message| && frag.firstSeq == Wrap(f.isn + 4)
    && frag.buffer in heap.blocks
    && got < |heap.blocks[frag.buffer]| == |f.message|
    && heap.blocks[frag.buffer][..got] == f.message[..got]
  }

  /** The one entry of a flow that has sent `sent` bytes of its stream, the last of them at `time`. */
  ghost predicate Waiting(s: State, f: Flow, sent: nat, time: uint32)
    requires TableOk(s.tcp)
  {
    && (forall k: uint32 :: k != Wrap(f.isn + sent) ==> Queue(s.tcp, f.Key(k)) == [])
    && var q := Queue(s.tcp, f.Key(Wrap(f.isn + sent)));
       |q| == 1 && sent >= 4 && Partial(s.heap, f, sent - 4, q[0].val) && q[0].time == time
  }

  /** Part of the stream has been sent, but not all of it. */
  ghost predicate Midway(f: Flow, sent: nat)
    requires |f.message| <= MAX_RPC
  {
    0 < sent < |Stream(f)|
  }

  /**
   * Where a flow stands that has sent `sent` bytes of its stream: midway, the
   * table has one entry for it, whose buffer begins with exactly the bytes of
   * the message sent so far; before and after, it has none.
   */
  ghost predicate At(s: State, f: Flow, sent: nat, time: uint32)
    requires TableOk(s.tcp) && |f.message| <= MAX_RPC
  {
    if Midway(f, sent) then Waiting(s, f, sent, time) else Idle(s, f)
  }

  lemma AtRecent(s: State, f: Flow, sent: nat, time: uint32, now: uint32)
    requires TableOk(s.tcp) && |f.message| <= MAX_RPC && At(s, f, sent, time)
    requires Midway(f, sent) ==> NotAged(now, time)
    ensures Recent(s, f, now)
  {
    hide TableOk, Queue, Partial;
  }

  lemma AtSame(s: State, s': State, f: Flow, sent: nat, time: uint32)
    requires TableOk(s.tcp) && TableOk(s'.tcp) && |f.message| <= MAX_RPC
    requires At(s, f, sent, time) && Same(s, s', f)
    ensures At(s', f, sent, time)
  {
    hide TableOk, Queue;
    if Midway(f, sent) {
      var k := Wrap(f.isn + sent);
      assert SameBytes(s.heap, s'.heap, Queue(s.tcp, f.Key(k)));
      assert Queue(s'.tcp, f.Key(k)) == Queue(s.tcp, f.Key(k));
      assert Queue(s.tcp, f.Key(k))[0] in Queue(s.tcp, f.Key(k));
    }
  }

  // ----- the flow's own segments

  /**
   * `p` carries the `n` bytes of the stream behind the first `sent`, and all of
   * them were captured. The first segment holds the whole record mark. Bytes
   * that pad the frame may follow.
   */
  ghost predicate HasBytes(p: Packet, f: Flow, sent: nat, n: nat)
    requires |f.message| <= MAX_RPC
  {
    && f.Carries(p) && p.transport.seqno == Wrap(f.isn + sent)
    && |p.bytes| <= MAX_CAPTURE && p.Start() < |p.bytes|
    && p.length == p.iLen + p.hLen + n
    && sent + n <= |Stream(f)| && (sent == 0 ==> n >= 4)
    && p.Start() + n <= |p.bytes|
    && p.bytes[p.Start()..p.Start() + n] == Stream(f)[sent..sent + n]
  }

  /** What the four bytes behind a message sent in one piece are taken for: the length of a further record. */
  function PaddingMark(p: Packet, f: Flow): nat {
    Mem(p.bytes, p.beyond).Word(p.Start() + 4 + |f.message|) % TWO31
  }

  /**
   * Padding behind a message sent in one piece is read as a further record. It
   * does no harm if that is too large both for the segment and to be reassembled.
   */
  predicate Rejected(p: Packet, f: Flow) {
    PaddingMark(p, f) > MAX_RPC && PaddingMark(p, f) > Wrap(|f.message| - 4)
  }

  /** One of the flow's segments. A message sent in one piece is not padded, or only with what is rejected. */
  ghost predicate IsSegment(p: Packet, f: Flow, sent: nat, n: nat)
    requires |f.message| <= MAX_RPC
  {
    && HasBytes(p, f, sent, n)
    && (sent == 0 && n == |Stream(f)| ==> p.Start() + n == |p.bytes| || Rejected(p, f))
  }

  lemma SegmentByte(p: Packet, f: Flow, sent: nat, n: nat, i: nat)
    requires |f.message| <= MAX_RPC && HasBytes(p, f, sent, n) && i < n
    ensures Mem(p.bytes, p.beyond).At(p.Start() + i) == Stream(f)[sent + i]
  {
    hide Stream;
    assert p.bytes[p.Start()..p.Start() + n][i] == Stream(f)[sent..sent + n][i];
  }

  lemma SegmentSlice(p: Packet, f: Flow, sent: nat, n: nat, i: nat, len: nat)
    requires |f.message| <= MAX_RPC && HasBytes(p, f, sent, n) && i + len <= n
    ensures Mem(p.bytes, p.beyond).Slice(p.Start() + i, len) == Stream(f)[sent + i..sent + i + len]
  {
    hide Stream, Mem.At;
    var bytes, part := Mem(p.bytes, p.beyond).Slice(p.Start() + i, len), Stream(f)[sent + i..sent + i + len];
    forall j | 0 <= j < len ensures bytes[j] == part[j] {
      SegmentByte(p, f, sent, n, i + j);
    }
  }

  lemma MarkRead(p: Packet, f: Flow, n: nat)
    requires |f.message| <= MAX_RPC && HasBytes(p, f, 0, n)
    ensures Mem(p.bytes, p.beyond).Word(p.Start()) == TWO31 + |f.message|
  {
    var m := Mem(p.bytes, p.beyond);
    var mark := BytesOf(TWO31 + |f.message|);
    assert forall i :: 0 <= i < 4 ==> Stream(f)[i] == mark[i];
    hide Stream, BytesOf, Mem.At;
    SegmentByte(p, f, 0, n, 0);
    SegmentByte(p, f, 0, n, 1);
    SegmentByte(p, f, 0, n, 2);
    SegmentByte(p, f, 0, n, 3);
    assert Stream(f)[0] == mark[0] && Stream(f)[1] == mark[1] && Stream(f)[2] == mark[2] && Stream(f)[3] == mark[3];
  }

  function Messages(visits: seq<Visit>): seq<seq<byte>> {
    if visits == [] then [] else [visits[0].Message()] + Messages(visits[1..])
  }

  /** A message that ends where its packet, or its buffer, ends is the last one of its packet. */
  lemma LastMessage(s: State, p: Packet, c: Cursor)
    requires Inv(s, {}) && CursorOk(p, c) && c.owned.None? && c.consumed < c.totLen
    requires Frame(s, p, c).Ready?
    requires var c' := Frame(s, p, c).cursor; c'.consumed + c'.rpcLen == c'.totLen
    ensures var fr := Frame(s, p, c);
            var d := Decode(fr.state.xid, p, fr.cursor);
            && Loop(s, p, c).state == Release(fr.state.(xid := d.xid), fr.cursor.owned)
            && Loop(s, p, c).visits == [d.visit]
  {
    hide Frame, Decode, Release, FramedBy, Distinct, Contents;
    var fr := Frame(s, p, c);
    var d := Decode(fr.state.xid, p, fr.cursor);
    FrameCursor(s, p, c);
    if d.exit.None? {
      LoopProgress(fr.state.xid, p, c, fr.cursor);
      AdvanceExact(fr.state.xid, p, fr.cursor);
    }
  }

  lemma VisitOf(xid: Table<Call>, p: Packet, c: Cursor)
    requires TableOk(xid)
    ensures Messages([Decode(xid, p, c).visit]) == [c.pp.Slice(c.consumed, c.rpcLen)]
  {
    hide GetRpcHeader, Insert, Lookup, TableOk, ProcOf, Mem.Word, Wrap;
    var v := Decode(xid, p, c).visit;
    assert v.pp == c.pp && v.start == c.consumed && v.rpcLen == c.rpcLen;
    assert Messages([v]) == [v.Message()] + Messages([]);
  }

  /** A packet whose one message is complete. */
  lemma OneMessage(s: State, p: Packet, s': State, c': Cursor)
    requires Inv(s, {}) && p.Start() < |p.bytes| <= MAX_CAPTURE
    requires Frame(s, p, StartCursor(p)) == Ready(s', c') && c'.consumed + c'.rpcLen == c'.totLen
    ensures ProcessPacket(s, p).state.tcp == s'.tcp
    ensures Messages(ProcessPacket(s, p).visits) == [c'.pp.Slice(c'.consumed, c'.rpcLen)]
  {
    hide Frame, Decode, Loop, Distinct, Contents;
    LastMessage(s, p, StartCursor(p));
    VisitOf(s'.xid, p, c');
  }

  lemma NoMessage(s: State, p: Packet, s': State, code: int)
    requires Inv(s, {}) && p.Start() < |p.bytes| <= MAX_CAPTURE
    requires Frame(s, p, StartCursor(p)) == Stop(s', code)
    ensures ProcessPacket(s, p) == Result(s', code, [])
  {
    hide Frame, Decode, Inv;
  }

  lemma DepositAt(b: State, e: Entry<Fragment>, f: Flow, got: nat)
    requires |f.message| <= MAX_RPC
    requires Inv(b, {e.val.buffer}) && Idle(b, f) && Partial(b.heap, f, got, e.val) && FragmentOk(b.heap, e.key, e.val)
    requires e.key == f.Key(Wrap(f.isn + (4 + got))) && NotAged(e.time, e.time)
    ensures At(Deposit(b, e), f, 4 + got, e.time)
  {
    hide Wrap, FragmentOk, Deposit, Queue, Contents, Distinct, TableOk, Buffers, Stored, Stream;
    var s' := Deposit(b, e);
    var now := Wrap(f.isn + (4 + got));
    forall k: uint32
      ensures Queue(s'.tcp, f.Key(k)) == if k == now then [e] else []
      ensures SameBytes(b.heap, s'.heap, Queue(s'.tcp, f.Key(k)))
    {
      assert Queue(b.tcp, f.Key(k)) == [];
      DepositQueue(b, e, f.Key(k));
    }
    var q := Queue(s'.tcp, f.Key(now));
    assert q == [e] && e in q;
    assert SameBytes(b.heap, s'.heap, q);
  }

  /** Once the segment's bytes are in the buffer and the fragment is back in the table. */
  lemma WaitAt(b: State, p: Packet, f: Flow, frag: Fragment, seqno: uint32, n: nat, code: int, got: nat)
    requires |f.message| <= MAX_RPC
    requires Inv(b, {frag.buffer}) && Idle(b, f) && Partial(b.heap, f, got, frag)
    requires f.Carries(p) && NotAged(p.secs, p.secs)
    requires Filled(p.Key(seqno), frag) + n == got && Wrap(seqno + n) == Wrap(f.isn + (4 + got))
    ensures At(Wait(b, p, frag, seqno, n, code).state, f, 4 + got, p.secs)
  {
    hide Deposit, Idle, NotAged, At, Contents, Distinct, TableOk;
    NextSeqAfter(seqno, frag, n);
    FragmentAt(b.heap, p.Key(Wrap(seqno + n)), frag, got);
    DepositAt(b, Entry(p.Key(Wrap(seqno + n)), frag, p.secs), f, got);
  }

  lemma StartFrame(s: State, p: Packet, f: Flow, n: nat)
    requires Inv(s, {}) && |f.message| <= MAX_RPC && Idle(s, f) && HasBytes(p, f, 0, n)
    ensures var c, c' := StartCursor(p), WithMark(StartCursor(p));
            && c'.rpcLen == |f.message| && c'.consumed == p.Start() + 4 && c'.pp == Mem(p.bytes, p.beyond)
            && TcpPayload(p, c') == n - 4
            && Frame(s, p, c) == NewMessage(s, p, c, p.transport.seqno)
  {
    hide FirstSegment, NextSegment, Distinct, Contents, Stream, Mem.Word, Queue;
    MarkRead(p, f, n);
    var k: uint32 := p.transport.seqno;
    assert p.Key(k) == f.Key(k);
    TakeOut(s, p.Key(k));
    LookupPerKey(s.tcp, p.Key(k), p.Key(k));
    assert Queue(s.tcp, f.Key(k)) == [];
  }

  /** A message sent in one piece is ready to be decoded. */
  lemma SoleFrame(s: State, p: Packet, f: Flow)
    requires Inv(s, {}) && |f.message| <= MAX_RPC && Idle(s, f) && HasBytes(p, f, 0, |Stream(f)|)
    ensures var c, c' := StartCursor(p), WithMark(StartCursor(p));
            && CursorOk(p, c) && Frame(s, p, c) == Ready(s, c')
            && c'.rpcLen == |f.message| && c'.consumed == p.Start() + 4 && c'.hLen == p.hLen + 4
            && c'.pp.Slice(c'.consumed, c'.rpcLen) == f.message
  {
    hide Frame, Stream, Inv, Idle, TcpPayload;
    StartFrame(s, p, f, |Stream(f)|);
    SegmentSlice(p, f, 0, |Stream(f)|, 4, |f.message|);
    StreamTail(f);
  }

  /** The state when a message has been decoded. */
  ghost function WithCalls(s: State, xid: Table<Call>): (r: State)
    requires Inv(s, {}) && TableOk(xid)
    ensures Inv(r, {})
  {
    hide Distinct, TableOk, Contents;
    s.(xid := xid)
  }

  /** The first turn of the loop over a message sent in one piece. */
  lemma SoleTurn(s: State, p: Packet, f: Flow)
    requires Inv(s, {}) && |f.message| <= MAX_RPC && Idle(s, f) && HasBytes(p, f, 0, |Stream(f)|)
    ensures var c' := WithMark(StartCursor(p));
            var d := Decode(s.xid, p, c');
            var s' := WithCalls(s, d.xid);
            var next := c'.(consumed := d.consumed);
            var r := ProcessPacket(s, p);
            && d.visit.Message() == f.message && Idle(s', f)
            && if d.exit.Some? then r == Result(s', d.exit.value, [d.visit])
               else
                 && next.consumed == (if EndsInNullCall(c') then |p.bytes| else p.Start() + |Stream(f)|)
                 && CursorOk(p, next)
                 && r == Result(Loop(s', p, next).state, Loop(s', p, next).code, [d.visit] + Loop(s', p, next).visits)
  {
    hide Frame, Decode, Loop, Distinct, Contents, TableOk, Idle, EndsInNullCall, Stream, HasBytes, Mem.Slice;
    SoleFrame(s, p, f);
    SoleBounds(p, f);
    var c' := WithMark(StartCursor(p));
    var d := Decode(s.xid, p, c');
    LoopTurn(s, p, StartCursor(p));
    VisitOf(s.xid, p, c');
    OneVisit(d.visit);
    assert d.visit.Message() == [d.visit.Message()][0];
    FirstIdle(s, s.(xid := d.xid), f);
    if d.exit.None? {
      AdvanceExact(s.xid, p, c');
    }
  }

  lemma SoleBounds(p: Packet, f: Flow)
    requires |f.message| <= MAX_RPC && HasBytes(p, f, 0, |Stream(f)|)
    ensures p.Start() < |p.bytes| <= MAX_CAPTURE && p.Start() + |Stream(f)| <= |p.bytes|
    ensures f.Carries(p) && p.transport.Tcp? && p.length == p.iLen + p.hLen + |Stream(f)|
  {
    hide Stream;
  }

  lemma EndOfLoop(s: State, p: Packet, c: Cursor)
    requires Inv(s, {}) && CursorOk(p, c) && c.owned.None? && c.consumed >= c.totLen
    ensures Loop(s, p, c) == Result(s, 1, [])
  {
    hide Distinct, Contents;
  }

  /** The loop behind a message sent in one piece, where the padding is taken for a record. */
  lemma PaddingTurn(s: State, p: Packet, f: Flow, c: Cursor)
    requires Inv(s, {}) && |f.message| <= MAX_RPC && Idle(s, f) && HasBytes(p, f, 0, |Stream(f)|)
    requires CursorOk(p, c) && c.owned.None? && c.pp == Mem(p.bytes, p.beyond) && c.totLen == |p.bytes|
    requires c.consumed == p.Start() + |Stream(f)| < |p.bytes| && c.iLen == p.iLen && c.hLen == p.hLen + 4
    ensures var r := Loop(s, p, c);
            var n := Wrap(|f.message| - 4);
            if PaddingMark(p, f) <= n then r.visits != []
            else if PaddingMark(p, f) > MAX_RPC then r == Result(s, -11, [])
            else r.visits == [] && (NotAged(p.secs, p.secs) ==> !Idle(r.state, f))
  {
    hide Decode, Distinct, Contents, TableOk, Idle, Stream, HasBytes, Mem.Word, NextSegment, FirstSegment, Release;
    hide FramedBy, Lookup, Flow.Carries;
    SoleBounds(p, f);
    PaddingFrame(s, p, f, c);
    var c' := WithMark(c);
    var n := TcpPayload(p, c');
    if n < c'.rpcLen <= MAX_RPC {
      if NotAged(p.secs, p.secs) {
        PaddingWaits(s, p, f, c', Wrap(p.transport.seqno + 4), n);
      }
    }
  }

  lemma PaddingFrame(s: State, p: Packet, f: Flow, c: Cursor)
    requires Inv(s, {}) && |f.message| <= MAX_RPC && Idle(s, f) && HasBytes(p, f, 0, |Stream(f)|)
    requires c.owned.None? && c.pp == Mem(p.bytes, p.beyond)
    requires c.consumed == p.Start() + |Stream(f)| < |p.bytes| && c.iLen == p.iLen && c.hLen == p.hLen + 4
    ensures WithMark(c).rpcLen == PaddingMark(p, f) && TcpPayload(p, WithMark(c)) == Wrap(|f.message| - 4)
    ensures Frame(s, p, c) == NewMessage(s, p, c, p.transport.seqno)
  {
    hide Distinct, Contents, TableOk, Stream, Mem.Word, Queue, Lookup, NewMessage;
    SoleBounds(p, f);
    IdleLookup(s, p, f);
  }

  /** An idle flow has no fragment for any sequence number. */
  lemma IdleLookup(s: State, p: Packet, f: Flow)
    requires Inv(s, {}) && Idle(s, f) && f.Carries(p)
    ensures Lookup(s.tcp, p.Key(p.transport.seqno)) == (s.tcp, None)
  {
    hide Inv, Queue, Lookup;
    TcpOk(s);
    var k: uint32 := p.transport.seqno;
    assert p.Key(k) == f.Key(k) && Queue(s.tcp, f.Key(k)) == [];
    NothingFound(s, p.Key(k));
  }

  lemma NothingFound(s: State, k: Key)
    requires Inv(s, {}) && Queue(s.tcp, k) == []
    ensures Lookup(s.tcp, k) == (s.tcp, None)
  {
    hide Distinct, Contents, Queue, Lookup;
    TakeOut(s, k);
    LookupPerKey(s.tcp, k, k);
  }

  /** A fragment made of padding stays in the table, where it waits for more. */
  lemma PaddingWaits(s: State, p: Packet, f: Flow, c: Cursor, seqno: uint32, n: uint32)
    requires Inv(s, {}) && Idle(s, f) && f.Carries(p) && n < c.rpcLen <= MAX_RPC && NotAged(p.secs, p.secs)
    ensures !Idle(FirstSegment(s, p, c, seqno, n).state, f)
  {
    hide Distinct, Contents, TableOk, Deposit, Mem.Slice, Queue, Insert, FragmentOk, Filled, NotAged, Buffers, Stored;
    var h := s.heap.next;
    var b := Fill(Allocate(s, c.rpcLen, p.beyond), h, 0, c.pp.Slice(c.consumed, n));
    var frag := Fragment(h, c.rpcLen, seqno);
    NothingFilled(p, seqno, frag);
    NextSeqAfter(seqno, frag, n);
    FragmentAt(b.heap, p.Key(Wrap(seqno + n)), frag, n);
    var k: uint32 := Wrap(seqno + n);
    var e := Entry(p.Key(k), frag, p.secs);
    assert e.key == f.Key(k) && Queue(b.tcp, e.key) == [];
    DepositQueue(b, e, e.key);
    assert Queue(Deposit(b, e).tcp, f.Key(k)) == [e];
  }

  lemma NothingFilled(p: Packet, seqno: uint32, frag: Fragment)
    requires frag.firstSeq == seqno
    ensures Filled(p.Key(seqno), frag) == 0
  {
  }

  /** What is left of the loop when the message has been decoded. */
  lemma PaddingRest(s: State, p: Packet, f: Flow, c: Cursor)
    requires Inv(s, {}) && |f.message| <= MAX_RPC && Idle(s, f) && HasBytes(p, f, 0, |Stream(f)|)
    requires CursorOk(p, c) && c.owned.None? && c.pp == Mem(p.bytes, p.beyond) && c.totLen == |p.bytes|
    requires c.consumed == p.Start() + |Stream(f)| || c.consumed == |p.bytes|
    requires c.iLen == p.iLen && c.hLen == p.hLen + 4
    ensures var r := Loop(s, p, c);
            && (c.consumed == |p.bytes| || Rejected(p, f) ==>
                  r.state == s && r.visits == [] && Idle(r.state, f))
            && (c.consumed != |p.bytes| && !Rejected(p, f) && NotAged(p.secs, p.secs) ==>
                  r.visits != [] || !Idle(r.state, f))
  {
    hide Loop, Idle, Stream, HasBytes, Distinct, Contents, TableOk, NotAged, PaddingMark, Wrap;
    SoleBounds(p, f);
    if c.consumed == |p.bytes| {
      EndOfLoop(s, p, c);
    } else {
      PaddingTurn(s, p, f, c);
    }
  }

  /**
   * When padding behind a message sent in one piece does no harm: its message
   * is the only one that is handed to the decoder, and nothing of the flow is
   * left in the table, if and only if there is no padding, or the loop ends
   * with the message (because it is not decodable, or a NULL call that the
   * header ends), or what the padding is taken for is rejected.
   */
  lemma PaddedSoleIff(s: State, p: Packet, f: Flow)
    requires Inv(s, {}) && |f.message| <= MAX_RPC && Idle(s, f) && HasBytes(p, f, 0, |Stream(f)|)
    requires NotAged(p.secs, p.secs)
    ensures var c' := WithMark(StartCursor(p));
            var r := ProcessPacket(s, p);
            r.visits != [] && r.visits[0].Message() == f.message
            && (|r.visits| == 1 && Idle(r.state, f)
                <==> || p.Start() + |Stream(f)| == |p.bytes|
                     || Decode(s.xid, p, c').exit.Some? || EndsInNullCall(c') || Rejected(p, f))
  {
    hide Decode, Loop, ProcessPacket, Idle, Stream, HasBytes, EndsInNullCall, Distinct, Contents, TableOk, NotAged;
    hide Rejected, Visit.Message;
    SoleTurn(s, p, f);
    SoleBounds(p, f);
    var c' := WithMark(StartCursor(p));
    var d := Decode(s.xid, p, c');
    if d.exit.None? {
      PaddingRest(s.(xid := d.xid), p, f, c'.(consumed := d.consumed));
    }
  }

  /** A message sent in one piece, in a frame whose padding does no harm, goes straight to the decoder. */
  lemma SoleSegment(s: State, p: Packet, f: Flow)
    requires Inv(s, {}) && |f.message| <= MAX_RPC && Idle(s, f) && IsSegment(p, f, 0, |Stream(f)|)
    ensures Idle(ProcessPacket(s, p).state, f)
    ensures Messages(ProcessPacket(s, p).visits) == [f.message]
  {
    hide Decode, Loop, ProcessPacket, Idle, Stream, HasBytes, EndsInNullCall, Distinct, Contents, TableOk;
    hide Rejected, Visit.Message;
    SoleTurn(s, p, f);
    SoleBounds(p, f);
    var c' := WithMark(StartCursor(p));
    var d := Decode(s.xid, p, c');
    if d.exit.None? {
      PaddingRest(s.(xid := d.xid), p, f, c'.(consumed := d.consumed));
    }
    OneVisit(d.visit);
  }

  lemma OneVisit(v: Visit)
    ensures Messages([v]) == [v.Message()]
    ensures [v] + [] == [v]
  {
    assert [v][1..] == [];
  }

  lemma StreamTail(f: Flow)
    requires |f.message| <= MAX_RPC
    ensures Stream(f)[4..4 + |f.message|] == f.message
    ensures forall i, j :: 0 <= i <= j <= |f.message| ==> Stream(f)[4 + i..4 + j] == f.message[i..j]
  {
  }

  lemma FirstKeys(isn: uint32, got: nat, p: Packet, h: Handle, len: uint32)
    ensures Wrap(Wrap(isn + 0) + 4) == Wrap(isn + 4)
    ensures Wrap(Wrap(isn + 4) + got) == Wrap(isn + (4 + got))
    ensures Filled(p.Key(Wrap(isn + 4)), Fragment(h, len, Wrap(isn + 4))) == 0
  {
  }

  /** The state in which the first `n` - 4 bytes of the message have been copied into a new block. */
  ghost function FirstCopied(s: State, p: Packet, f: Flow, n: nat): (b: State)
    requires Inv(s, {}) && |f.message| <= MAX_RPC && 4 <= n < |Stream(f)|
    ensures Inv(b, {s.heap.next}) && |b.heap.blocks[s.heap.next]| == |f.message|
  {
    Fill(Allocate(s, |f.message|, p.beyond), s.heap.next, 0, Mem(p.bytes, p.beyond).Slice(p.Start() + 4, n - 4))
  }

  lemma FirstPartial(s: State, p: Packet, f: Flow, n: nat)
    requires Inv(s, {}) && |f.message| <= MAX_RPC && IsSegment(p, f, 0, n) && n < |Stream(f)|
    ensures Partial(FirstCopied(s, p, f, n).heap, f, n - 4, Fragment(s.heap.next, |f.message|, Wrap(f.isn + 4)))
    ensures FirstCopied(s, p, f, n).tcp == s.tcp
  {
    var bytes := Mem(p.bytes, p.beyond).Slice(p.Start() + 4, n - 4);
    SegmentSlice(p, f, 0, n, 4, n - 4);
    StreamTail(f);
    assert bytes == f.message[..n - 4];
    hide Inv, Stream, Wrap, Mem.Slice, IsSegment;
  }

  lemma FirstFrame(s: State, p: Packet, f: Flow, n: nat)
    requires Inv(s, {}) && |f.message| <= MAX_RPC && Idle(s, f) && IsSegment(p, f, 0, n) && n < |Stream(f)|
    ensures var seqno := Wrap(f.isn + 4);
            var frag := Fragment(s.heap.next, |f.message|, seqno);
            && Filled(p.Key(seqno), frag) == 0
            && Frame(s, p, StartCursor(p)) == Wait(FirstCopied(s, p, f, n), p, frag, seqno, n - 4, -12)
  {
    hide Filled, WithMark, TcpPayload, Stream, Distinct, Contents, TableOk, Wrap, Frame, FirstSegment, FirstCopied;
    hide Idle, Wait, Mem.Slice, Mem.Word;
    StartFrame(s, p, f, n);
    FirstKeys(f.isn, n - 4, p, s.heap.next, |f.message|);
    FirstIsWait(s, p, f, n, WithMark(StartCursor(p)), Wrap(f.isn + 4));
  }

  lemma FirstIsWait(s: State, p: Packet, f: Flow, n: nat, c: Cursor, seqno: uint32)
    requires Inv(s, {}) && |f.message| <= MAX_RPC && 4 <= n < |Stream(f)|
    requires c.pp == Mem(p.bytes, p.beyond) && c.consumed == p.Start() + 4 && c.rpcLen == |f.message|
    ensures Filled(p.Key(seqno), Fragment(s.heap.next, |f.message|, seqno)) == 0
    ensures FirstSegment(s, p, c, seqno, n - 4)
            == Wait(FirstCopied(s, p, f, n), p, Fragment(s.heap.next, |f.message|, seqno), seqno, n - 4, -12)
  {
    hide Allocate, Fill, Wait, Stream, Distinct, Contents, TableOk, Mem.Slice;
  }

  /** The first segment of a longer message leaves its bytes waiting in the table. */
  lemma FirstOfMany(s: State, p: Packet, f: Flow, n: nat)
    requires Inv(s, {}) && |f.message| <= MAX_RPC && Idle(s, f) && IsSegment(p, f, 0, n) && n < |Stream(f)|
    requires NotAged(p.secs, p.secs)
    ensures At(ProcessPacket(s, p).state, f, n, p.secs)
    ensures ProcessPacket(s, p).visits == [] && ProcessPacket(s, p).code == -12
  {
    hide FirstCopied, Partial, Filled, NotAged, At, Wait, Stream, Wrap, ProcessPacket, Frame, Idle;
    hide Distinct, Contents, TableOk;
    var got := n - 4;
    var seqno: uint32 := Wrap(f.isn + 4);
    var frag := Fragment(s.heap.next, |f.message|, seqno);
    FirstFrame(s, p, f, n);
    FirstPartial(s, p, f, n);
    FirstKeys(f.isn, got, p, s.heap.next, |f.message|);
    FirstIdle(s, FirstCopied(s, p, f, n), f);
    WaitAt(FirstCopied(s, p, f, n), p, f, frag, seqno, got, -12, got);
    NoMessage(s, p, Frame(s, p, StartCursor(p)).state, Frame(s, p, StartCursor(p)).code);
  }

  lemma FirstIdle(s: State, b: State, f: Flow)
    requires TableOk(s.tcp) && Idle(s, f) && b.tcp == s.tcp
    ensures Idle(b, f)
  {
  }

  /** The entry a later segment finds. */
  lemma LaterFound(s: State, p: Packet, f: Flow, sent: nat, n: nat, time: uint32)
    requires Inv(s, {}) && |f.message| <= MAX_RPC && Waiting(s, f, sent, time) && IsSegment(p, f, sent, n)
    ensures var k := p.Key(p.transport.seqno);
            var (tcp', found) := Lookup(s.tcp, k);
            var t := s.(tcp := tcp');
            && found.Some? && FragmentOk(s.heap, k, found.value.val) && Inv(t, {found.value.val.buffer})
            && Partial(s.heap, f, sent - 4, found.value.val) && Idle(t, f)
            && Frame(s, p, StartCursor(p)) == NextSegment(t, p, StartCursor(p), p.transport.seqno, found.value.val)
  {
    var k: uint32 := p.transport.seqno;
    assert p.Key(k) == f.Key(k);
    TakeOut(s, f.Key(k));
    LookupPerKey(s.tcp, f.Key(k), f.Key(k));
    var t := Lookup(s.tcp, f.Key(k)).0;
    forall q: uint32 ensures Queue(t, f.Key(q)) == [] {
      LookupPerKey(s.tcp, f.Key(k), f.Key(q));
    }
    hide Queue, Lookup, Distinct, Contents, FragmentOk, Partial, NextSegment, StartCursor;
  }

  /** A later segment fills the buffer up to `sent` - 4 + `n` bytes of the message. */
  lemma LaterFilled(t: State, p: Packet, f: Flow, sent: nat, n: nat, frag: Fragment)
    requires |f.message| <= MAX_RPC && IsSegment(p, f, sent, n) && sent >= 4
    requires Inv(t, {frag.buffer}) && FragmentOk(t.heap, p.Key(p.transport.seqno), frag)
    requires Partial(t.heap, f, sent - 4, frag)
    ensures Filled(p.Key(p.transport.seqno), frag) == sent - 4 && TcpPayload(p, StartCursor(p)) == n
    ensures var b := Fill(t, frag.buffer, sent - 4, Mem(p.bytes, p.beyond).Slice(p.Start(), n));
            && b.tcp == t.tcp && frag.buffer in b.heap.blocks
            && b.heap.blocks[frag.buffer][..sent - 4 + n] == f.message[..sent - 4 + n]
  {
    hide Distinct, Contents, TableOk, Stream, Wrap, FragmentOk, Filled, Mem.Slice, Overwrite;
    var bytes := Mem(p.bytes, p.beyond).Slice(p.Start(), n);
    LaterKeys(f.isn, sent, n, p, frag);
    LaterLength(p, f, sent, n);
    SegmentSlice(p, f, sent, n, 0, n);
    StreamTail(f);
    assert bytes == f.message[sent - 4..sent - 4 + n];
    OverwritePrefix(t.heap.blocks[frag.buffer], f.message, sent - 4, bytes);
  }

  lemma LaterLength(p: Packet, f: Flow, sent: nat, n: nat)
    requires |f.message| <= MAX_RPC && IsSegment(p, f, sent, n)
    ensures TcpPayload(p, StartCursor(p)) == n
  {
    hide Stream;
  }

  lemma OverwritePrefix(block: seq<byte>, message: seq<byte>, off: nat, src: seq<byte>)
    requires off + |src| <= |block| && off + |src| <= |message|
    requires block[..off] == message[..off] && src == message[off..off + |src|]
    ensures Overwrite(block, off, src)[..off + |src|] == message[..off + |src|]
  {
    assert Overwrite(block, off, src)[..off + |src|] == block[..off] + src;
  }

  lemma LaterKeys(isn: uint32, sent: nat, n: nat, p: Packet, frag: Fragment)
    requires frag.firstSeq == Wrap(isn + 4) && 4 <= sent < MAX_RPC + 4
    ensures Filled(p.Key(Wrap(isn + sent)), frag) == sent - 4
    ensures Wrap(Wrap(isn + sent) + n) == Wrap(isn + (4 + (sent - 4 + n)))
  {
    hide Wrap;
    WrapPlus(isn + sent, n);
    WrapMinus(isn, sent - 4);
  }

  lemma WrapPlus(x: int, n: int)
    ensures Wrap(Wrap(x) + n) == Wrap(x + n)
  {
  }

  /** The difference of two sequence numbers, less than 2^32 apart, survives the wrap. */
  lemma WrapMinus(isn: uint32, d: nat)
    requires d < TWO32
    ensures Wrap(Wrap(isn + (4 + d)) - Wrap(isn + 4)) == d
  {
  }

  /** The state in which a later segment's bytes have been copied behind the others. */
  ghost function LaterCopied(t: State, p: Packet, sent: nat, n: nat, frag: Fragment): (b: State)
    requires Inv(t, {frag.buffer}) && 4 <= sent && sent - 4 + n <= |t.heap.blocks[frag.buffer]|
    ensures Inv(b, {frag.buffer}) && |b.heap.blocks[frag.buffer]| == |t.heap.blocks[frag.buffer]|
  {
    Fill(t, frag.buffer, sent - 4, Mem(p.bytes, p.beyond).Slice(p.Start(), n))
  }

  lemma LaterIsWait(t: State, p: Packet, f: Flow, sent: nat, n: nat, frag: Fragment)
    requires |f.message| <= MAX_RPC && IsSegment(p, f, sent, n) && sent >= 4 && sent + n < |Stream(f)|
    requires Inv(t, {frag.buffer}) && FragmentOk(t.heap, p.Key(p.transport.seqno), frag)
    requires Partial(t.heap, f, sent - 4, frag)
    ensures Filled(p.Key(p.transport.seqno), frag) == sent - 4
    ensures Partial(LaterCopied(t, p, sent, n, frag).heap, f, sent - 4 + n, frag)
    ensures LaterCopied(t, p, sent, n, frag).tcp == t.tcp
    ensures NextSegment(t, p, StartCursor(p), p.transport.seqno, frag)
            == Wait(LaterCopied(t, p, sent, n, frag), p, frag, p.transport.seqno, n, -13)
  {
    hide Filled, FragmentOk, Fill, Wait, Wrap, Stream, Distinct, Contents, TableOk, TcpPayload, Mem.Slice;
    LaterFilled(t, p, f, sent, n, frag);
    PartialFilled(t, LaterCopied(t, p, sent, n, frag), f, sent, n, frag);
  }

  /** A later segment that does not complete the message. */
  lemma LaterPending(s: State, p: Packet, f: Flow, sent: nat, n: nat, time: uint32)
    requires Inv(s, {}) && |f.message| <= MAX_RPC && Waiting(s, f, sent, time) && IsSegment(p, f, sent, n)
    requires sent + n < |Stream(f)| && NotAged(p.secs, p.secs)
    ensures At(ProcessPacket(s, p).state, f, sent + n, p.secs)
    ensures ProcessPacket(s, p).visits == [] && ProcessPacket(s, p).code == -13
  {
    hide Filled, FragmentOk, NextSegment, NotAged, At, Wait, Wrap, ProcessPacket, Frame, Idle;
    hide Distinct, Contents, TableOk, Stream, Lookup, TcpPayload, LaterCopied;
    LaterFound(s, p, f, sent, n, time);
    var seqno: uint32 := p.transport.seqno;
    var (tcp', found) := Lookup(s.tcp, p.Key(seqno));
    var t, frag := s.(tcp := tcp'), found.value.val;
    LaterIsWait(t, p, f, sent, n, frag);
    LaterKeys(f.isn, sent, n, p, frag);
    var b := LaterCopied(t, p, sent, n, frag);
    FirstIdle(t, b, f);
    WaitAt(b, p, f, frag, seqno, n, -13, sent - 4 + n);
    NoMessage(s, p, Frame(s, p, StartCursor(p)).state, Frame(s, p, StartCursor(p)).code);
  }

  lemma PartialFilled(t: State, b: State, f: Flow, sent: nat, n: nat, frag: Fragment)
    requires 4 <= sent <= sent + n < 4 + |f.message| && Partial(t.heap, f, sent - 4, frag)
    requires frag.buffer in b.heap.blocks && |b.heap.blocks[frag.buffer]| == |f.message|
    requires b.heap.blocks[frag.buffer][..sent - 4 + n] == f.message[..sent - 4 + n]
    ensures Partial(b.heap, f, sent - 4 + n, frag)
  {
  }

  /** The segment that completes the message makes the buffer the memory to decode from. */
  lemma LaterFrame(s: State, p: Packet, f: Flow, sent: nat, n: nat, time: uint32)
    requires Inv(s, {}) && |f.message| <= MAX_RPC && Waiting(s, f, sent, time) && IsSegment(p, f, sent, n)
    requires sent + n == |Stream(f)|
    ensures p.Start() < |p.bytes| <= MAX_CAPTURE && Frame(s, p, StartCursor(p)).Ready?
    ensures var fr := Frame(s, p, StartCursor(p));
            var c := fr.cursor;
            && fr.state.xid == s.xid && Idle(fr.state, f)
            && c.consumed == c.eLen == c.iLen == c.hLen == 0 && c.totLen == c.rpcLen == |f.message|
            && c.pp.Slice(0, |f.message|) == f.message
  {
    hide Filled, FragmentOk, Fill, Wait, Wrap, ProcessPacket, Frame, Idle, Distinct, Contents, TableOk;
    hide Stream, Lookup, Mem.At, TcpPayload;
    LaterFound(s, p, f, sent, n, time);
    var seqno: uint32 := p.transport.seqno;
    var (tcp', found) := Lookup(s.tcp, p.Key(seqno));
    var t, frag := s.(tcp := tcp'), found.value.val;
    LaterFilled(t, p, f, sent, n, frag);
    var b := Fill(t, frag.buffer, sent - 4, Mem(p.bytes, p.beyond).Slice(p.Start(), n));
    FillXid(t, frag.buffer, sent - 4, Mem(p.bytes, p.beyond).Slice(p.Start(), n));
    var block := b.heap.blocks[frag.buffer];
    assert block == f.message;
    WholeBlock(block, p.beyond);
    FirstIdle(t, b, f);
  }

  lemma FillXid(s: State, h: Handle, off: nat, src: seq<byte>)
    requires Inv(s, {h}) && off + |src| <= |s.heap.blocks[h]|
    ensures Fill(s, h, off, src).xid == s.xid && Fill(s, h, off, src).tcp == s.tcp
  {
    hide Inv;
  }

  /** The segment that completes the message. */
  lemma LaterComplete(s: State, p: Packet, f: Flow, sent: nat, n: nat, time: uint32)
    requires Inv(s, {}) && |f.message| <= MAX_RPC && Waiting(s, f, sent, time) && IsSegment(p, f, sent, n)
    requires sent + n == |Stream(f)|
    ensures Idle(ProcessPacket(s, p).state, f)
    ensures Messages(ProcessPacket(s, p).visits) == [f.message]
  {
    hide ProcessPacket, Frame, Idle, Inv, Stream, Waiting, HasBytes, Mem.Slice;
    LaterFrame(s, p, f, sent, n, time);
    var fr := Frame(s, p, StartCursor(p));
    OneMessage(s, p, fr.state, fr.cursor);
    TcpOk(ProcessPacket(s, p).state);
    FirstIdle(fr.state, ProcessPacket(s, p).state, f);
  }

  lemma WholeBlock(block: seq<byte>, beyond: int -> byte)
    ensures Mem(block, beyond).Slice(0, |block|) == block
  {
    forall i | 0 <= i < |block| ensures Mem(block, beyond).Slice(0, |block|)[i] == block[i] {
      assert Mem(block, beyond).Slice(0, |block|)[i] == Mem(block, beyond).At(0 + i);
    }
  }

  /**
   * A segment that no fragment waits for, and whose mark announces more than
   * its payload: it is kept, to wait for more, if and only if the message is
   * not longer than 16384 bytes. Otherwise nothing changes.
   */
  lemma UnfinishedIff(s: State, p: Packet)
    requires Inv(s, {}) && p.transport.Tcp? && Queue(s.tcp, p.Key(p.transport.seqno)) == []
    requires p.Start() < |p.bytes| <= MAX_CAPTURE
    requires Mem(p.bytes, p.beyond).Word(p.Start()) % 2147483648 > Wrap(p.length - p.iLen - p.hLen - 4)
    ensures var r := ProcessPacket(s, p);
            && r.visits == []
            && (r.code == -12 <==> Mem(p.bytes, p.beyond).Word(p.Start()) % 2147483648 <= 16384)
            && (r.code != -12 ==> r.code == -11 && r.state == s)
  {
    hide Inv, Queue, Lookup, Mem.Word, Wait, Allocate, Fill, Loop;
    NothingFound(s, p.Key(p.transport.seqno));
    UnfinishedFrame(s, p);
    var fr := Frame(s, p, StartCursor(p));
    NoMessage(s, p, fr.state, fr.code);
  }

  lemma UnfinishedFrame(s: State, p: Packet)
    requires Inv(s, {}) && p.transport.Tcp? && Lookup(s.tcp, p.Key(p.transport.seqno)) == (s.tcp, None)
    requires p.Start() < |p.bytes| <= MAX_CAPTURE
    requires Mem(p.bytes, p.beyond).Word(p.Start()) % 2147483648 > Wrap(p.length - p.iLen - p.hLen - 4)
    ensures var fr := Frame(s, p, StartCursor(p));
            && fr.Stop?
            && (fr.code == -12 <==> Mem(p.bytes, p.beyond).Word(p.Start()) % 2147483648 <= 16384)
            && (fr.code != -12 ==> fr.code == -11 && fr.state == s)
  {
    hide Inv, Queue, Lookup, Mem.Word, Allocate, Fill, Deposit, FragmentOk, Mem.Slice;
    var c := WithMark(StartCursor(p));
    var n := TcpPayload(p, c);
    if c.rpcLen <= MAX_RPC {
      NothingFilled(p, Wrap(p.transport.seqno + 4), Fragment(s.heap.next, c.rpcLen, Wrap(p.transport.seqno + 4)));
    }
  }

  // ----- whole interleavings

  /** The payload length that the packet's headers claim. */
  function SegmentLength(p: Packet): int {
    p.length - p.iLen - p.hLen
  }

  /**
   * A trace in which those of the flow's packets that have a payload, wherever
   * they stand, are its stream cut into consecutive segments, from the first
   * `sent` bytes on. Its packets without payload, such as acknowledgements, may
   * stand anywhere, with any sequence number and any padding. All other packets
   * are arbitrary, as long as they do not claim the flow's addresses and ports.
   */
  ghost predicate Interleaving(f: Flow, sent: nat, ps: seq<Packet>)
    requires |f.message| <= MAX_RPC
    decreases |ps|
  {
    ps == [] ||
    (&& |ps[0].bytes| <= MAX_CAPTURE
     && (f.Carries(ps[0]) ==> && SegmentLength(ps[0]) >= 0
                              && (SegmentLength(ps[0]) > 0 ==> IsSegment(ps[0], f, sent, SegmentLength(ps[0]))))
     && Interleaving(f, sent + OwnLength(f, ps[0]), ps[1..]))
  }

  /** How far the packet gets the flow. */
  function OwnLength(f: Flow, p: Packet): nat {
    if f.Carries(p) && SegmentLength(p) > 0 then SegmentLength(p) else 0
  }

  ghost function SentAfter(f: Flow, sent: nat, ps: seq<Packet>): (n: nat)
    requires |f.message| <= MAX_RPC && Interleaving(f, sent, ps)
    requires sent <= |Stream(f)|
    ensures sent <= n <= |Stream(f)|
    decreases |ps|
  {
    if ps == [] then sent else SentAfter(f, sent + OwnLength(f, ps[0]), ps[1..])
  }

  /**
   * A packet without payload that finds the fragment the flow has waiting, adds
   * nothing to it, and puts it back. It must be padded, or it is not looked at.
   */
  ghost predicate Refreshes(f: Flow, sent: nat, p: Packet)
    requires |f.message| <= MAX_RPC
  {
    && f.Carries(p) && SegmentLength(p) == 0 && p.Start() < |p.bytes|
    && Midway(f, sent) && p.transport.seqno == Wrap(f.isn + sent)
  }

  /** The time of what is stored of the flow, after one packet. */
  ghost function TimeAfter(f: Flow, sent: nat, p: Packet, time: uint32): uint32
    requires |f.message| <= MAX_RPC
  {
    if OwnLength(f, p) > 0 || Refreshes(f, sent, p) then p.secs else time
  }

  /** The messages that the flow's packets with a payload make processPacket hand to the RPC decoder. */
  ghost function Delivered(s: State, f: Flow, ps: seq<Packet>): seq<seq<byte>>
    requires Inv(s, {}) && forall p :: p in ps ==> |p.bytes| <= MAX_CAPTURE
    decreases |ps|
  {
    if ps == [] then []
    else
      var r := ProcessPacket(s, ps[0]);
      (if OwnLength(f, ps[0]) > 0 then Messages(r.visits) else []) + Delivered(r.state, f, ps[1..])
  }

  /** What the flow's packets without payload make it hand there. */
  ghost function Strays(s: State, f: Flow, ps: seq<Packet>): seq<seq<byte>>
    requires Inv(s, {}) && forall p :: p in ps ==> |p.bytes| <= MAX_CAPTURE
    decreases |ps|
  {
    if ps == [] then []
    else
      var r := ProcessPacket(s, ps[0]);
      (if f.Carries(ps[0]) && OwnLength(f, ps[0]) == 0 then Messages(r.visits) else [])
      + Strays(r.state, f, ps[1..])
  }

  /** No packet without payload is padded, except those that refresh a fragment. */
  ghost predicate NoStrayPadding(f: Flow, sent: nat, ps: seq<Packet>)
    requires |f.message| <= MAX_RPC
    decreases |ps|
  {
    ps == [] ||
    (&& (f.Carries(ps[0]) && OwnLength(f, ps[0]) == 0 ==>
           ps[0].Start() >= |ps[0].bytes| || Refreshes(f, sent, ps[0]))
     && NoStrayPadding(f, sent + OwnLength(f, ps[0]), ps[1..]))
  }

  lemma {:induction false} InterleavingSizes(f: Flow, sent: nat, ps: seq<Packet>)
    requires |f.message| <= MAX_RPC && Interleaving(f, sent, ps)
    ensures forall p :: p in ps ==> |p.bytes| <= MAX_CAPTURE
    decreases |ps|
  {
    hide IsSegment;
    if ps != [] {
      InterleavingSizes(f, sent + OwnLength(f, ps[0]), ps[1..]);
    }
  }

  /**
   * Nothing of the flow ages out: a packet that stores something of the flow
   * does not carry a time in the first 30 seconds of the epoch, and no other
   * packet comes so late after the latest of those, at `time`, that what is
   * stored of the flow would be stale. While nothing is stored of it, the
   * clock does not matter.
   */
  ghost predicate Timely(f: Flow, sent: nat, ps: seq<Packet>, time: uint32)
    requires |f.message| <= MAX_RPC
    decreases |ps|
  {
    ps == [] ||
    (var p, sent' := ps[0], sent + OwnLength(f, ps[0]);
     && ((OwnLength(f, p) > 0 && Midway(f, sent')) || Refreshes(f, sent, p) ==> NotAged(p.secs, p.secs))
     && (!f.Carries(p) && p.Start() < |p.bytes| && Midway(f, sent) ==> NotAged(p.secs, time))
     && Timely(f, sent', ps[1..], TimeAfter(f, sent, p, time)))
  }

  /** The time of what is stored of the flow, after all packets. */
  ghost function LatestTime(f: Flow, sent: nat, ps: seq<Packet>, time: uint32): uint32
    requires |f.message| <= MAX_RPC
    decreases |ps|
  {
    if ps == [] then time
    else LatestTime(f, sent + OwnLength(f, ps[0]), ps[1..], TimeAfter(f, sent, ps[0], time))
  }

  /** One of the flow's own segments, however long after the one before. */
  lemma OwnPacket(s: State, p: Packet, f: Flow, sent: nat, n: nat, time: uint32)
    requires Inv(s, {}) && |f.message| <= MAX_RPC && At(s, f, sent, time) && IsSegment(p, f, sent, n) && n > 0
    requires Midway(f, sent + n) ==> NotAged(p.secs, p.secs)
    ensures At(ProcessPacket(s, p).state, f, sent + n, p.secs)
    ensures Messages(ProcessPacket(s, p).visits) == if sent + n == |Stream(f)| then [f.message] else []
  {
    hide Stream, ProcessPacket, Inv, Waiting, Idle, NotAged, HasBytes, Rejected, Loop;
    SegmentInside(p, f, sent, n);
    if sent == 0 && n == |Stream(f)| {
      SoleSegment(s, p, f);
    } else if sent == 0 {
      FirstOfMany(s, p, f, n);
    } else if sent + n < |Stream(f)| {
      LaterPending(s, p, f, sent, n, time);
    } else {
      LaterComplete(s, p, f, sent, n, time);
    }
  }

  lemma SegmentInside(p: Packet, f: Flow, sent: nat, n: nat)
    requires |f.message| <= MAX_RPC && HasBytes(p, f, sent, n)
    ensures sent + n <= |Stream(f)| && |p.bytes| <= MAX_CAPTURE && f.Carries(p)
    ensures sent == 0 ==> n >= 4
  {
  }

  /** A packet of any other connection, while nothing of the flow is stale. */
  lemma OtherPacket(s: State, p: Packet, f: Flow, sent: nat, time: uint32)
    requires Inv(s, {}) && |f.message| <= MAX_RPC && At(s, f, sent, time)
    requires |p.bytes| <= MAX_CAPTURE && !f.Carries(p)
    requires p.Start() < |p.bytes| && Midway(f, sent) ==> NotAged(p.secs, time)
    ensures At(ProcessPacket(s, p).state, f, sent, time)
  {
    hide Stream, Distinct, Contents, TableOk, At, NotAged, Same, Recent, Loop;
    if p.Start() < |p.bytes| {
      AtRecent(s, f, sent, time, p.secs);
      ForeignPacket(s, p, f);
      AtSame(s, ProcessPacket(s, p).state, f, sent, time);
    }
  }

  // ----- packets without payload

  /** Padding behind the headers of a packet without payload is taken for a record that is always complete. */
  lemma StrayFrame(s: State, p: Packet, c: Cursor)
    requires Inv(s, {}) && p.transport.Tcp? && Queue(s.tcp, p.Key(p.transport.seqno)) == []
    requires c.owned.None? && c.iLen == p.iLen && p.length == p.iLen + p.hLen
    requires p.hLen <= c.hLen && c.hLen - p.hLen <= c.consumed < c.totLen <= MAX_CAPTURE
    ensures Frame(s, p, c) == Ready(s, WithMark(c)) && WithMark(c).consumed == c.consumed + 4
  {
    hide Inv, Queue, Lookup, Mem.Word, FirstSegment;
    NothingFound(s, p.Key(p.transport.seqno));
  }

  /** The loop over such padding leaves the fragments alone. */
  lemma {:induction false} StrayLoop(s: State, p: Packet, c: Cursor)
    requires Inv(s, {}) && p.transport.Tcp? && Queue(s.tcp, p.Key(p.transport.seqno)) == []
    requires CursorOk(p, c) && c.owned.None? && c.iLen == p.iLen && p.length == p.iLen + p.hLen
    requires c.consumed < c.totLen ==> p.hLen <= c.hLen && c.hLen - p.hLen <= c.consumed
    ensures Loop(s, p, c).state.tcp == s.tcp && Loop(s, p, c).state.heap == s.heap
    ensures c.consumed < c.totLen ==> Loop(s, p, c).visits != []
    decreases c.totLen - c.consumed
  {
    hide Frame, Decode, Loop, Distinct, Contents, TableOk, Queue, EndsInNullCall, Mem.Word;
    if c.consumed >= c.totLen {
      EndOfLoop(s, p, c);
    } else {
      StrayFrame(s, p, c);
      LoopTurn(s, p, c);
      var c' := WithMark(c);
      var d := Decode(s.xid, p, c');
      if d.exit.None? {
        AdvanceExact(s.xid, p, c');
        StrayLoop(s.(xid := d.xid), p, c'.(consumed := d.consumed));
      }
    }
  }

  lemma AtUnchanged(s: State, s': State, f: Flow, sent: nat, time: uint32)
    requires TableOk(s.tcp) && |f.message| <= MAX_RPC && At(s, f, sent, time)
    requires s'.tcp == s.tcp && s'.heap == s.heap
    ensures At(s', f, sent, time)
  {
    hide TableOk, Queue, Stream;
  }

  /** Unless the packet refreshes it, nothing of the flow waits for its sequence number. */
  lemma NothingWaits(s: State, p: Packet, f: Flow, sent: nat, time: uint32)
    requires TableOk(s.tcp) && |f.message| <= MAX_RPC && At(s, f, sent, time)
    requires f.Carries(p) && !(Midway(f, sent) && p.transport.seqno == Wrap(f.isn + sent))
    ensures Queue(s.tcp, p.Key(p.transport.seqno)) == []
  {
    hide TableOk, Queue, Stream, Partial;
    var k: uint32 := p.transport.seqno;
    assert p.Key(k) == f.Key(k);
  }

  lemma SomeMessages(visits: seq<Visit>)
    ensures Messages(visits) == [] <==> visits == []
  {
  }

  /**
   * A packet of the flow without payload, with any sequence number and padding:
   * it changes nothing but, if it refreshes the flow's fragment, the fragment's
   * time; and it hands nothing to the decoder if and only if it is not padded,
   * or refreshes the fragment.
   */
  lemma EmptyPacketIff(s: State, p: Packet, f: Flow, sent: nat, time: uint32)
    requires Inv(s, {}) && |f.message| <= MAX_RPC && sent <= |Stream(f)| && At(s, f, sent, time)
    requires f.Carries(p) && SegmentLength(p) == 0 && |p.bytes| <= MAX_CAPTURE
    requires Refreshes(f, sent, p) ==> NotAged(p.secs, p.secs)
    ensures At(ProcessPacket(s, p).state, f, sent, TimeAfter(f, sent, p, time))
    ensures Messages(ProcessPacket(s, p).visits) == [] <==> p.Start() >= |p.bytes| || Refreshes(f, sent, p)
  {
    hide Stream, Inv, Loop, At, NotAged, Messages, Queue;
    SomeMessages(ProcessPacket(s, p).visits);
    if Refreshes(f, sent, p) {
      Refreshed(s, p, f, sent, time);
    } else if p.Start() < |p.bytes| {
      TcpOk(s);
      NothingWaits(s, p, f, sent, time);
      StrayLoop(s, p, StartCursor(p));
      AtUnchanged(s, ProcessPacket(s, p).state, f, sent, time);
    }
  }

  lemma Refreshed(s: State, p: Packet, f: Flow, sent: nat, time: uint32)
    requires Inv(s, {}) && |f.message| <= MAX_RPC && At(s, f, sent, time) && |p.bytes| <= MAX_CAPTURE
    requires Refreshes(f, sent, p) && NotAged(p.secs, p.secs)
    ensures At(ProcessPacket(s, p).state, f, sent, p.secs) && ProcessPacket(s, p).visits == []
  {
    hide Stream, Inv, Waiting, NotAged, ProcessPacket, IsSegment;
    RefreshIsSegment(p, f, sent);
    LaterPending(s, p, f, sent, 0, time);
  }

  lemma RefreshIsSegment(p: Packet, f: Flow, sent: nat)
    requires |f.message| <= MAX_RPC && Refreshes(f, sent, p) && |p.bytes| <= MAX_CAPTURE
    ensures IsSegment(p, f, sent, 0)
  {
    hide Stream, Rejected;
    assert p.bytes[p.Start()..p.Start() + 0] == Stream(f)[sent..sent + 0];
  }

  lemma TcpOk(s: State)
    requires Inv(s, {})
    ensures TableOk(s.tcp)
  {
    hide TableOk, Distinct;
  }

  /** Any packet of a trace. */
  lemma AnyPacket(s: State, p: Packet, f: Flow, sent: nat, ps: seq<Packet>, time: uint32)
    requires Inv(s, {}) && |f.message| <= MAX_RPC && sent <= |Stream(f)| && At(s, f, sent, time)
    requires Interleaving(f, sent, [p] + ps) && Timely(f, sent, [p] + ps, time)
    ensures |p.bytes| <= MAX_CAPTURE
    ensures At(ProcessPacket(s, p).state, f, sent + OwnLength(f, p), TimeAfter(f, sent, p, time))
    ensures sent + OwnLength(f, p) <= |Stream(f)|
    ensures OwnLength(f, p) > 0 ==>
              Messages(ProcessPacket(s, p).visits)
              == if sent + OwnLength(f, p) == |Stream(f)| then [f.message] else []
    ensures f.Carries(p) && OwnLength(f, p) == 0 ==>
              (Messages(ProcessPacket(s, p).visits) == [] <==> p.Start() >= |p.bytes| || Refreshes(f, sent, p))
    ensures Interleaving(f, sent + OwnLength(f, p), ps)
    ensures Timely(f, sent + OwnLength(f, p), ps, TimeAfter(f, sent, p, time))
  {
    hide Stream, ProcessPacket, Inv, At, NotAged, HasBytes, Rejected, Messages, Interleaving, Timely, Refreshes, Midway;
    FirstOfTrace(f, sent, p, ps, time);
    if OwnLength(f, p) > 0 {
      SegmentInside(p, f, sent, OwnLength(f, p));
      OwnPacket(s, p, f, sent, OwnLength(f, p), time);
    } else if f.Carries(p) {
      EmptyPacketIff(s, p, f, sent, time);
    } else {
      NoRefresh(f, sent, p);
      OtherPacket(s, p, f, sent, time);
    }
  }

  lemma NoRefresh(f: Flow, sent: nat, p: Packet)
    requires |f.message| <= MAX_RPC && !f.Carries(p)
    ensures !Refreshes(f, sent, p)
  {
  }

  lemma FirstOfTrace(f: Flow, sent: nat, p: Packet, ps: seq<Packet>, time: uint32)
    requires |f.message| <= MAX_RPC
    requires Interleaving(f, sent, [p] + ps) && Timely(f, sent, [p] + ps, time)
    ensures var sent' := sent + OwnLength(f, p);
            && |p.bytes| <= MAX_CAPTURE
            && (f.Carries(p) ==> SegmentLength(p) >= 0)
            && (OwnLength(f, p) > 0 ==> IsSegment(p, f, sent, OwnLength(f, p)))
            && ((OwnLength(f, p) > 0 && Midway(f, sent')) || Refreshes(f, sent, p) ==> NotAged(p.secs, p.secs))
            && (!f.Carries(p) && p.Start() < |p.bytes| && Midway(f, sent) ==> NotAged(p.secs, time))
            && Interleaving(f, sent', ps) && Timely(f, sent', ps, TimeAfter(f, sent, p, time))
  {
    assert ([p] + ps)[0] == p && ([p] + ps)[1..] == ps;
    hide Stream, NotAged, HasBytes, Rejected, Refreshes, Midway, TimeAfter;
  }

  lemma {:induction false} DeliveredFrom(s: State, f: Flow, sent: nat, ps: seq<Packet>, time: uint32)
    requires Inv(s, {}) && |f.message| <= MAX_RPC && sent <= |Stream(f)| && At(s, f, sent, time)
    requires Interleaving(f, sent, ps) && Timely(f, sent, ps, time)
    ensures forall p :: p in ps ==> |p.bytes| <= MAX_CAPTURE
    ensures Delivered(s, f, ps) == if sent < |Stream(f)| == SentAfter(f, sent, ps) then [f.message] else []
    ensures Strays(s, f, ps) == [] <==> NoStrayPadding(f, sent, ps)
    ensures At(RunPackets(s, ps), f, SentAfter(f, sent, ps), LatestTime(f, sent, ps, time))
    decreases |ps|
  {
    hide Stream, ProcessPacket, Inv, At, NotAged, IsSegment, Refreshes, TimeAfter, Flow.Carries, Messages, Timely;
    InterleavingSizes(f, sent, ps);
    if ps != [] {
      var p := ps[0];
      assert ps == [p] + ps[1..];
      AnyPacket(s, p, f, sent, ps[1..], time);
      DeliveredFrom(ProcessPacket(s, p).state, f, sent + OwnLength(f, p), ps[1..], TimeAfter(f, sent, p, time));
    }
  }

  /**
   * Whatever else is on the wire, however long the trace is, and wherever the
   * sequence numbers start: once all of a flow's stream has been seen, its
   * message has been handed to the decoder exactly once, byte for byte, and
   * nothing of the flow is left in the table; before that it has not been
   * handed over at all, and the flow's buffer begins with exactly what has been
   * sent of the message. Flows with distinct addresses and ports are other
   * traffic to each other, so this holds for each. The flow's packets without
   * payload do not disturb it; they themselves make the decoder look at padding
   * if and only if one is padded and does not refresh a fragment.
   */
  lemma ReassemblyCorrect(s: State, f: Flow, ps: seq<Packet>)
    requires Inv(s, {}) && |f.message| <= MAX_RPC && Idle(s, f)
    requires Interleaving(f, 0, ps) && Timely(f, 0, ps, 0)
    ensures forall p :: p in ps ==> |p.bytes| <= MAX_CAPTURE
    ensures Delivered(s, f, ps) == if SentAfter(f, 0, ps) == |Stream(f)| then [f.message] else []
    ensures Strays(s, f, ps) == [] <==> NoStrayPadding(f, 0, ps)
    ensures At(RunPackets(s, ps), f, SentAfter(f, 0, ps), LatestTime(f, 0, ps, 0))
  {
    hide Distinct, Contents, TableOk, Idle, RunPackets, Delivered, Interleaving, SentAfter, Timely, Waiting;
    hide LatestTime, Strays, NoStrayPadding;
    DeliveredFrom(s, f, 0, ps, 0);
  }
}
