/**
 * nfsrecord.c's global state and processPacket in the form the C code has them:
 * two linked tables changed in place, an explicit heap, and a loop over the
 * messages of a packet. Proved against PacketSteps.
 */
module Recorder {
  import opened Words
  import opened Options
  import opened TableKeys
  import opened AgingChains
  import opened Ownership
  import opened PacketSteps
  import opened RpcHeader
  import ChainedTable

  /** The culled entries' buffers are live and pairwise distinct, so that each can be freed, once. */
  ghost predicate Freeable(blocks: map<Handle, seq<byte>>, culled: seq<Entry<Fragment>>) {
    && (forall i :: 0 <= i < |culled| ==> culled[i].val.buffer in blocks)
    && (forall i, j :: 0 <= i < j < |culled| ==> culled[i].val.buffer != culled[j].val.buffer)
  }

  lemma CulledFreeable(s: State, e: Entry<Fragment>)
    requires Inv(s, {e.val.buffer}) && FragmentOk(s.heap, e.key, e.val)
    ensures Freeable(s.heap.blocks, Insert(s.tcp, e).1)
  {
    hide Insert, Contents, TableOk;
    InsertOk(s.tcp, e);
    var (tcp', culled) := Insert(s.tcp, e);
    var all := Stored(s) + multiset{e};
    DistinctJoin(all, Stored(s), e);
    DistinctSplit(all, Contents(tcp'.chains), multiset(culled));
    forall i, j | 0 <= i < j < |culled| ensures culled[i].val.buffer != culled[j].val.buffer {
      TwiceInMultiset(culled, i, j);
    }
    forall i | 0 <= i < |culled| ensures culled[i].val.buffer in s.heap.blocks {
      assert culled[i] in multiset(culled);
      assert culled[i] in all;
    }
  }

  lemma TwiceInMultiset<T>(s: seq<T>, i: nat, j: nat)
    requires i < j < |s|
    ensures s[i] in multiset(s) && s[j] in multiset(s)
    ensures s[i] == s[j] ==> multiset(s)[s[i]] >= 2
  {
    assert s == s[..j] + s[j..];
    assert multiset(s) == multiset(s[..j]) + multiset(s[j..]);
    assert s[i] in s[..j] && s[j] in s[j..];
  }

  lemma FreeAllStep(heap: Heap, culled: seq<Entry<Fragment>>, i: nat)
    requires i < |culled|
    ensures FreeAll(heap, culled[..i + 1]) == FreeAll(heap, culled[..i]).Free(culled[i].val.buffer)
  {
    assert culled[..i + 1] == culled[..i] + [culled[i]];
    assert (set e | e in culled[..i + 1] :: e.val.buffer)
           == (set e | e in culled[..i] :: e.val.buffer) + {culled[i].val.buffer};
  }

  /** malloc, free and memcpy, with their rules as preconditions: no double free, no use after free, no overrun. */
  class CHeap {
    var blocks: map<Handle, seq<byte>>
    var next: Handle

    ghost function Abstract(): Heap
      reads this
    {
      Heap(blocks, next)
    }

    constructor ()
      ensures Abstract() == Heap(map[], 0)
    {
      blocks, next := map[], 0;
    }

    method Malloc(n: nat, beyond: int -> byte) returns (h: Handle)
      modifies this
      ensures h == old(next) && Abstract() == old(Abstract()).Malloc(n, beyond)
    {
      h := next;
      blocks, next := blocks[next := seq<byte>(n, beyond)], next + 1;
    }

    method Free(h: Handle)
      requires h in blocks
      modifies this
      ensures Abstract() == old(Abstract()).Free(h)
    {
      blocks := blocks - {h};
    }

    /** The frees inside the loop of the cull. */
    method FreeCulled(culled: seq<Entry<Fragment>>)
      requires Freeable(blocks, culled)
      modifies this
      ensures Abstract() == FreeAll(old(Abstract()), culled)
    {
      var i := 0;
      while i < |culled|
        invariant 0 <= i <= |culled|
        invariant Freeable(blocks, culled[i..])
        invariant Abstract() == FreeAll(old(Abstract()), culled[..i])
      {
        assert culled[i..][0] == culled[i] && culled[i..][1..] == culled[i + 1..];
        FreeAllStep(old(Abstract()), culled, i);
        Free(culled[i].val.buffer);
        i := i + 1;
      }
      assert culled[..i] == culled;
    }

    method Memcpy(h: Handle, off: nat, src: seq<byte>)
      requires h in blocks && off + |src| <= |blocks[h]|
      modifies this
      ensures Abstract() == old(Abstract()).Store(h, off, src)
    {
      blocks := blocks[h := Overwrite(blocks[h], off, src)];
    }
  }

  class Recorder {
    const tcp: ChainedTable.Table<Fragment>
    const xid: ChainedTable.Table<Call>
    const heap: CHeap

    ghost predicate Valid()
      reads this, tcp, tcp.Repr, xid, xid.Repr, heap
    {
      && tcp.Valid() && xid.Valid()
      && tcp.Repr !! xid.Repr
      && heap !in tcp.Repr && heap !in xid.Repr && this !in tcp.Repr && this !in xid.Repr
    }

    ghost function Abstract(): State
      reads this, tcp, xid, heap
    {
      State(tcp.Abstract(), xid.Abstract(), heap.Abstract())
    }

    /** The empty tables of a new process. */
    constructor ()
      ensures Valid() && fresh(tcp.Repr) && fresh(xid.Repr) && fresh(heap)
      ensures Abstract() == NEW_PROCESS && Inv(Abstract(), {})
    {
      hide Inv, Empty, ChainedTable.Table.Valid, ChainedTable.Table.Abstract;
      var calls := new ChainedTable.Table<Call>();
      var fragments := new ChainedTable.Table<Fragment>();
      assert calls.Valid() && fragments.Repr !! calls.Repr;
      var blocks := new CHeap();
      tcp, xid, heap := fragments, calls, blocks;
      new;
      NewProcessOk();
    }

    /** `malloc` of a reassembly buffer. */
    method Allocate(n: nat, beyond: int -> byte) returns (h: Handle)
      requires Valid() && Inv(Abstract(), {})
      modifies heap
      ensures Valid() && h == old(heap.next) && Abstract() == Ownership.Allocate(old(Abstract()), n, beyond)
    {
      h := heap.Malloc(n, beyond);
    }

    /** `memcpy` into a reassembly buffer. */
    method Fill(h: Handle, off: nat, src: seq<byte>)
      requires Valid() && Inv(Abstract(), {h}) && off + |src| <= |heap.blocks[h]|
      modifies heap
      ensures Valid() && Abstract() == Ownership.Fill(old(Abstract()), h, off, src)
    {
      heap.Memcpy(h, off, src);
    }

    /** tcpInsert, with the frees that its cull performs. */
    method Deposit(e: Entry<Fragment>)
      requires Valid() && Inv(Abstract(), {e.val.buffer}) && FragmentOk(Abstract().heap, e.key, e.val)
      modifies tcp.Repr, heap
      ensures Valid() && fresh(tcp.Repr - old(tcp.Repr))
      ensures Abstract() == Ownership.Deposit(old(Abstract()), e)
    {
      hide Insert, Distinct, Contents, TableOk, FreeAll, FragmentOk, Freeable;
      CulledFreeable(Abstract(), e);
      var culled := tcp.Insert(e);
      heap.FreeCulled(culled);
    }

    /** More segments are needed. */
    method Wait(p: Packet, f: Fragment, seqno: uint32, n: nat, code: int) returns (r: int)
      requires Valid() && Inv(Abstract(), {f.buffer}) && |heap.blocks[f.buffer]| == f.rpcLen <= MAX_RPC
      requires Filled(p.Key(seqno), f) + n < f.rpcLen
      modifies tcp.Repr, heap
      ensures Valid() && fresh(tcp.Repr - old(tcp.Repr))
      ensures Stop(Abstract(), r) == PacketSteps.Wait(old(Abstract()), p, f, seqno, n, code)
    {
      hide Ownership.Deposit, Distinct, Contents, TableOk, Wrap;
      NextSeqAfter(seqno, f, n);
      FragmentAt(heap.Abstract(), p.Key(Wrap(seqno + n)), f, Filled(p.Key(seqno), f) + n);
      Deposit(Entry(p.Key(Wrap(seqno + n)), f, p.secs));
      return code;
    }

    /** A message that does not fit the segment. */
    method FirstSegment(p: Packet, c: Cursor, seqno: uint32, n: uint32) returns (code: int)
      requires Valid() && Inv(Abstract(), {}) && n < c.rpcLen <= MAX_RPC
      modifies tcp.Repr, heap
      ensures Valid() && fresh(tcp.Repr - old(tcp.Repr))
      ensures PacketSteps.FirstSegment(old(Abstract()), p, c, seqno, n) == Stop(Abstract(), code)
    {
      hide Ownership.Allocate, Ownership.Fill, PacketSteps.Wait, Distinct, Contents, TableOk, Mem.Slice;
      var h := Allocate(c.rpcLen, p.beyond);
      Fill(h, 0, c.pp.Slice(c.consumed, n));
      code := Wait(p, Fragment(h, c.rpcLen, seqno), seqno, n, -12);
    }

    /** No fragment waits for this segment. */
    method NewMessage(p: Packet, c: Cursor, seqno: uint32) returns (code: Option<int>, c': Cursor)
      requires Valid() && Inv(Abstract(), {}) && c.owned.None?
      modifies tcp.Repr, heap
      ensures Valid() && fresh(tcp.Repr - old(tcp.Repr))
      ensures PacketSteps.NewMessage(old(Abstract()), p, c, seqno) == Outcome(Abstract(), code, c')
    {
      hide PacketSteps.FirstSegment, Distinct, Contents, TableOk, WithMark, TcpPayload, Wrap;
      c' := WithMark(c);
      var n := TcpPayload(p, c');
      if c'.rpcLen <= n {
        return None, c';
      }
      if c'.rpcLen > MAX_RPC {
        return Some(-11), c';
      }
      var r := FirstSegment(p, c', Wrap(seqno + 4), n);
      return Some(r), c';
    }

    /** A fragment waits for this segment. */
    method NextSegment(p: Packet, c: Cursor, seqno: uint32, f: Fragment) returns (code: Option<int>, c': Cursor)
      requires Valid() && Inv(Abstract(), {f.buffer}) && FragmentOk(Abstract().heap, p.Key(seqno), f)
      modifies tcp.Repr, heap
      ensures Valid() && fresh(tcp.Repr - old(tcp.Repr))
      ensures PacketSteps.NextSegment(old(Abstract()), p, c, seqno, f) == Outcome(Abstract(), code, c')
    {
      hide Ownership.Fill, PacketSteps.Wait, Distinct, Contents, TableOk, Mem.Slice, TcpPayload, Filled;
      var n := TcpPayload(p, c);
      var first := Filled(p.Key(seqno), f);
      var last := LastOffset(first, n, f.rpcLen);
      Fill(f.buffer, first, c.pp.Slice(c.consumed, last - first));
      if last == f.rpcLen {
        c' := Cursor(Mem(heap.blocks[f.buffer], p.beyond), f.rpcLen, 0, 0, 0, 0, f.rpcLen, Some(f.buffer));
        return None, c';
      }
      var r := Wait(p, f, seqno, n, -13);
      return Some(r), c;
    }

    /** The TCP branch at the top of the loop's body. */
    method FrameMessage(p: Packet, c: Cursor) returns (code: Option<int>, c': Cursor)
      requires Valid() && Inv(Abstract(), {}) && c.owned.None?
      modifies tcp.Repr, heap
      ensures Valid() && fresh(tcp.Repr - old(tcp.Repr))
      ensures Frame(old(Abstract()), p, c) == Outcome(Abstract(), code, c')
    {
      hide PacketSteps.NewMessage, PacketSteps.NextSegment, Distinct, Contents, TableOk, Lookup, FragmentOk;
      if p.transport.Udp? {
        return None, c;
      }
      var seqno := p.transport.seqno;
      TakeOut(Abstract(), p.Key(seqno));
      var found := tcp.Lookup(p.Key(seqno));
      if found.None? {
        code, c' := NewMessage(p, c, seqno);
      } else {
        code, c' := NextSegment(p, c, seqno, found.value.val);
      }
    }

    /** From getRpcHeader to the end of the loop's body. */
    method DecodeMessage(p: Packet, c: Cursor) returns (visit: Visit, exit: Option<int>, consumed: nat)
      requires Valid()
      modifies xid.Repr
      ensures Valid() && fresh(xid.Repr - old(xid.Repr))
      ensures Decoded(xid.Abstract(), visit, exit, consumed) == Decode(old(xid.Abstract()), p, c)
    {
      hide Insert, Lookup, Contents, GetRpcHeader, Mem.Word, Wrap, ProcOf;
      var m, base := c.pp, c.consumed;
      visit, exit, consumed := Visit(m, base, c.rpcLen, None), None, base;
      var h := GetRpcHeader(m, base, Wrap(c.totLen - base));
      if h.BadHeader? || h.rhLen < 0 {
        exit := Some(-5);
        return;
      }
      if h.rhLen == 0 {
        exit := Some(0);
        return;
      }
      consumed := Wrap(base + h.rhLen);
      if consumed == c.totLen && h.dir == CALL && m.Word(base + 20) == 0 {
        return;
      }
      if consumed >= c.totLen {
        exit := Some(1);
        return;
      }
      var id := m.Word(base);
      var rhLen := h.rhLen;
      if h.dir == CALL {
        var call := Call(m.Word(base + 16), ProcOf(m, base));
        var _ := xid.Insert(Entry(XidKey(id, p.srcHost, p.srcPort), call, p.secs));
        var payloadLen := Wrap(c.rpcLen - rhLen);
        visit := visit.(record := Some(CallRecord(id, call.version, call.proc, h.euid, h.egid, consumed, payloadLen)));
        consumed := Wrap(consumed + payloadLen);
      } else {
        var found := xid.Lookup(XidKey(id, p.dstHost, p.dstPort));
        var call := if found.None? then Call(3, Wrap(-1)) else found.value.val;
        var status := m.Word(c.eLen + c.iLen + c.hLen + rhLen + 4);
        rhLen, consumed := rhLen + 8, Wrap(consumed + 8);
        var payloadLen := Wrap(c.rpcLen - rhLen);
        visit := visit.(record := Some(ReplyRecord(id, call.version, call.proc, status, consumed, payloadLen)));
        consumed := Wrap(consumed + payloadLen);
      }
    }

    /** `if (reassemblyBuffer != NULL) free (reassemblyBuffer)` */
    method Release(owned: Option<Handle>)
      requires Valid() && Inv(Abstract(), Mine(owned))
      modifies heap
      ensures Valid() && Abstract() == Ownership.Release(old(Abstract()), owned)
    {
      hide Distinct, Contents, TableOk;
      if owned.Some? {
        heap.Free(owned.value);
      }
    }

    /** The body of the message loop: `stop` when processPacket returns `code` from it. */
    method Turn(p: Packet, c: Cursor) returns (stop: bool, code: int, visits: seq<Visit>, c': Cursor)
      requires Valid() && Inv(Abstract(), {}) && CursorOk(p, c) && c.owned.None? && c.consumed < c.totLen
      modifies tcp.Repr, xid.Repr, heap
      ensures Valid() && fresh(tcp.Repr - old(tcp.Repr)) && fresh(xid.Repr - old(xid.Repr))
      ensures stop ==> Inv(Abstract(), {}) && Loop(old(Abstract()), p, c) == Result(Abstract(), code, visits)
      ensures !stop ==> && Inv(Abstract(), Mine(c'.owned)) && CursorOk(p, c')
                        && c'.totLen - c'.consumed < c.totLen - c.consumed
                        && Loop(old(Abstract()), p, c) == Resume(visits, Loop(Abstract(), p, c'))
    {
      hide Frame, Decode, Loop, Ownership.Release, Inv, CursorOk, Distinct, Contents, TableOk;
      TurnIs(Abstract(), p, c);
      var stopped, framed := FrameMessage(p, c);
      if stopped.Some? {
        return true, stopped.value, [], framed;
      }
      ghost var s := Abstract();
      assert Frame(old(Abstract()), p, c) == Ready(s, framed);
      var visit, exit, consumed := DecodeMessage(p, framed);
      assert Abstract() == s.(xid := Decode(s.xid, p, framed).xid);
      if exit.Some? {
        Release(framed.owned);
        return true, exit.value, [visit], framed;
      }
      return false, 0, [visit], framed.(consumed := consumed);
    }

    /** processPacket, behind the header decoding. Gives the return code, and what was handed to the decoder. */
    method ProcessPacket(p: Packet) returns (code: int, visits: seq<Visit>)
      requires Valid() && Inv(Abstract(), {}) && |p.bytes| <= MAX_CAPTURE
      modifies tcp.Repr, xid.Repr, heap
      ensures Valid() && fresh(tcp.Repr - old(tcp.Repr)) && fresh(xid.Repr - old(xid.Repr))
      ensures Inv(Abstract(), {})
      ensures Result(Abstract(), code, visits) == PacketSteps.ProcessPacket(old(Abstract()), p)
    {
      hide Loop, Ownership.Release, Inv, Valid, Abstract;
      if p.Start() >= |p.bytes| {
        return 0, [];
      }
      code, visits := MessageLoop(p, StartCursor(p));
    }

    /** The message loop. */
    method MessageLoop(p: Packet, start: Cursor) returns (code: int, visits: seq<Visit>)
      requires Valid() && Inv(Abstract(), Mine(start.owned)) && CursorOk(p, start)
      modifies tcp.Repr, xid.Repr, heap
      ensures Valid() && fresh(tcp.Repr - old(tcp.Repr)) && fresh(xid.Repr - old(xid.Repr))
      ensures Result(Abstract(), code, visits) == Loop(old(Abstract()), p, start)
    {
      hide Loop, Ownership.Release, Inv, CursorOk, Resume, Valid, Abstract;
      var c := start;
      visits := [];
      ghost var whole := Loop(Abstract(), p, c);
      ResumeNone(whole);
      while c.consumed < c.totLen
        invariant Valid() && fresh(tcp.Repr - old(tcp.Repr)) && fresh(xid.Repr - old(xid.Repr))
        invariant Inv(Abstract(), Mine(c.owned)) && CursorOk(p, c)
        invariant whole == Resume(visits, Loop(Abstract(), p, c))
        decreases c.totLen - c.consumed
      {
        OwnedLast(p, c);
        var stop, visit;
        ghost var before := visits;
        stop, code, visit, c := Turn(p, c);
        visits := visits + visit;
        if stop {
          ResumeStop(before, Abstract(), code, visit);
          return;
        }
        ResumeAppend(before, visit, Loop(Abstract(), p, c));
      }
      LoopDone(Abstract(), p, c);
      Release(c.owned);
      code := 1;
      ResumeStop(visits, Abstract(), 1, []);
    }
  }

  /** One turn of the loop, on values. */
  lemma TurnIs(s: State, p: Packet, c: Cursor)
    requires Inv(s, {}) && CursorOk(p, c) && c.owned.None? && c.consumed < c.totLen
    ensures var fr := Frame(s, p, c);
            if fr.Stop? then Loop(s, p, c) == Result(fr.state, fr.code, [])
            else
              var d := Decode(fr.state.xid, p, fr.cursor);
              var after := fr.state.(xid := d.xid);
              var next := fr.cursor.(consumed := d.consumed);
              && Inv(after, Mine(next.owned))
              && if d.exit.Some?
                 then Loop(s, p, c) == Result(Ownership.Release(after, next.owned), d.exit.value, [d.visit])
                 else && CursorOk(p, next) && next.totLen - next.consumed < c.totLen - c.consumed
                      && Loop(s, p, c) == Resume([d.visit], Loop(after, p, next))
  {
    hide Frame, Decode, Ownership.Release, FramedBy, Distinct, Contents;
    FrameCursor(s, p, c);
    var framing := Frame(s, p, c);
    if framing.Ready? && Decode(framing.state.xid, p, framing.cursor).exit.None? {
      LoopProgress(framing.state.xid, p, c, framing.cursor);
    }
  }

  lemma OwnedLast(p: Packet, c: Cursor)
    requires CursorOk(p, c) && c.consumed < c.totLen
    ensures c.owned.None?
  {
  }

  lemma LoopDone(s: State, p: Packet, c: Cursor)
    requires Inv(s, Mine(c.owned)) && CursorOk(p, c) && c.consumed >= c.totLen
    ensures Loop(s, p, c) == Result(Ownership.Release(s, c.owned), 1, [])
  {
    hide Ownership.Release, Distinct, Contents;
  }

  lemma ResumeNone(r: Result)
    ensures Resume([], r) == r
  {
  }

  lemma ResumeStop(before: seq<Visit>, s: State, code: int, more: seq<Visit>)
    ensures Resume(before, Result(s, code, more)) == Result(s, code, before + more)
    ensures before + [] == before
  {
  }

  lemma ResumeAppend(before: seq<Visit>, more: seq<Visit>, r: Result)
    ensures Resume(before, Resume(more, r)) == Resume(before + more, r)
  {
    assert before + (more + r.visits) == (before + more) + r.visits;
  }

  /** The result of a loop that had already made the visits `before`. */
  ghost function Resume(before: seq<Visit>, r: Result): Result {
    Result(r.state, r.code, before + r.visits)
  }

  /** Framing's result out of what the method returns: a code when processPacket returns. */
  ghost function Outcome(s: State, code: Option<int>, c: Cursor): Framing {
    if code.Some? then Stop(s, code.value) else Ready(s, c)
  }
}
