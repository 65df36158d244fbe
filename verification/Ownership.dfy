/**
 * The C heap as far as processPacket uses it, and who owns its blocks: every
 * reassembly buffer belongs to exactly one entry of the TCP table, or to the
 * packet being processed.
 */
module Ownership {
  import opened Words
  import opened Options
  import opened TableKeys
  import opened AgingChains

  type Handle = nat

  /** `tcp_fragment_t` without its key and time. */
  datatype Fragment = Fragment(buffer: Handle, rpcLen: uint32, firstSeq: uint32)

  /** `hash_t` without its key and time. */
  datatype Call = Call(version: uint32, proc: uint32)

  const MAX_RPC := 16384

  /** Handles are never reused, so a stale pointer can always be told apart. */
  datatype Heap = Heap(blocks: map<Handle, seq<byte>>, next: Handle) {
    /** The contents of a new block are whatever memory holds. */
    function Malloc(n: nat, beyond: int -> byte): Heap {
      Heap(blocks[next := seq<byte>(n, beyond)], next + 1)
    }

    function Free(h: Handle): Heap {
      Heap(blocks - {h}, next)
    }

    function Store(h: Handle, off: nat, src: seq<byte>): Heap
      requires h in blocks && off + |src| <= |blocks[h]|
    {
      Heap(blocks[h := Overwrite(blocks[h], off, src)], next)
    }
  }

  function FreeAll(heap: Heap, culled: seq<Entry<Fragment>>): (r: Heap)
    ensures r.next == heap.next
    ensures r.blocks == heap.blocks - set e | e in culled :: e.val.buffer
    decreases |culled|
  {
    if culled == [] then heap
    else
      assert (set e | e in culled :: e.val.buffer)
             == {culled[0].val.buffer} + set e | e in culled[1..] :: e.val.buffer;
      FreeAll(heap.Free(culled[0].val.buffer), culled[1..])
  }

  datatype State = State(tcp: Table<Fragment>, xid: Table<Call>, heap: Heap)

  /** How many bytes of a fragment's buffer have arrived, going by the sequence numbers. */
  function Filled(k: Key, f: Fragment): uint32
    requires k.TcpKey?
  {
    Wrap(k.nextSeq - f.firstSeq)
  }

  ghost predicate FragmentOk(heap: Heap, k: Key, f: Fragment) {
    && k.TcpKey?
    && f.buffer in heap.blocks
    && |heap.blocks[f.buffer]| == f.rpcLen <= MAX_RPC
    && Filled(k, f) < f.rpcLen
  }

  ghost function Stored(s: State): multiset<Entry<Fragment>> {
    Contents(s.tcp.chains)
  }

  ghost function Buffers(m: multiset<Entry<Fragment>>): set<Handle> {
    set e | e in m :: e.val.buffer
  }

  ghost predicate Distinct(m: multiset<Entry<Fragment>>) {
    && (forall e :: m[e] <= 1)
    && (forall e, e' :: e in m && e' in m && e.val.buffer == e'.val.buffer ==> e == e')
  }

  /**
   * What holds between any two steps; `mine` is the set of the buffers that the
   * packet being processed has taken out of the table, or not put in yet. All
   * other live blocks are in bijection with the entries of the TCP table.
   */
  ghost predicate Inv(s: State, mine: set<Handle>) {
    && TableOk(s.tcp) && TableOk(s.xid)
    && (forall h :: h in s.heap.blocks ==> h < s.heap.next)
    && (forall e :: e in Stored(s) ==> FragmentOk(s.heap, e.key, e.val))
    && Distinct(Stored(s))
    && Buffers(Stored(s)) !! mine
    && s.heap.blocks.Keys == Buffers(Stored(s)) + mine
  }

  const NEW_PROCESS := State(Empty<Fragment>(), Empty<Call>(), Heap(map[], 0))

  lemma NewProcessOk()
    ensures Inv(NEW_PROCESS, {})
  {
    EmptyOk<Fragment>(XidKey(0, 0, 0));
    EmptyOk<Call>(XidKey(0, 0, 0));
    hide TableOk, Queue, Contents;
  }

  // ----- the steps that move a buffer from one owner to another

  lemma DistinctSplit(m: multiset<Entry<Fragment>>, a: multiset<Entry<Fragment>>, b: multiset<Entry<Fragment>>)
    requires m == a + b && Distinct(m)
    ensures Distinct(a) && Distinct(b)
    ensures Buffers(m) == Buffers(a) + Buffers(b)
    ensures Buffers(a) !! Buffers(b)
  {
    assert forall e :: a[e] <= m[e] && b[e] <= m[e] && m[e] <= 1;
    forall e, e' | e in a && e' in b ensures e.val.buffer != e'.val.buffer {
      assert m[e] == a[e] + b[e] && m[e'] == a[e'] + b[e'];
    }
  }

  lemma DistinctJoin(m: multiset<Entry<Fragment>>, a: multiset<Entry<Fragment>>, e: Entry<Fragment>)
    requires m == a + multiset{e} && Distinct(a) && e.val.buffer !in Buffers(a)
    ensures Distinct(m)
    ensures Buffers(m) == Buffers(a) + {e.val.buffer}
  {
    assert e !in a;
  }

  lemma TakeOutEntry(s: State, tcp': Table<Fragment>, e: Entry<Fragment>)
    requires Inv(s, {}) && TableOk(tcp')
    requires Stored(s) == Contents(tcp'.chains) + multiset{e}
    ensures FragmentOk(s.heap, e.key, e.val)
    ensures Inv(s.(tcp := tcp'), {e.val.buffer})
  {
    hide Distinct, TableOk, Contents, FragmentOk;
    DistinctSplit(Stored(s), Contents(tcp'.chains), multiset{e});
    assert e in Stored(s);
    assert forall e' :: e' in Contents(tcp'.chains) ==> e' in Stored(s);
    assert Buffers(multiset{e}) == {e.val.buffer};
  }

  /** A lookup hands the buffer of the entry it unlinks to the packet. */
  lemma TakeOut(s: State, k: Key)
    requires Inv(s, {})
    ensures match Lookup(s.tcp, k).1
            case None => Lookup(s.tcp, k).0 == s.tcp
            case Some(e) =>
              && e.key == k && FragmentOk(s.heap, k, e.val)
              && Inv(s.(tcp := Lookup(s.tcp, k).0), {e.val.buffer})
  {
    LookupOk(s.tcp, k);
    hide Distinct, TableOk, Contents, Lookup, FragmentOk, Buffers;
    match Lookup(s.tcp, k).1 {
      case None =>
      case Some(e) => TakeOutEntry(s, Lookup(s.tcp, k).0, e);
    }
  }

  lemma FreeMine(s: State, h: Handle)
    requires Inv(s, {h})
    ensures Inv(s.(heap := s.heap.Free(h)), {})
  {
    hide Distinct, TableOk, Contents;
    forall e | e in Stored(s) ensures FragmentOk(s.heap.Free(h), e.key, e.val) {
      assert e.val.buffer in Buffers(Stored(s));
    }
  }

  lemma MallocMine(s: State, n: nat, beyond: int -> byte)
    requires Inv(s, {})
    ensures Inv(s.(heap := s.heap.Malloc(n, beyond)), {s.heap.next})
  {
    hide Distinct, TableOk, Contents;
    forall e | e in Stored(s) ensures FragmentOk(s.heap.Malloc(n, beyond), e.key, e.val) {
      assert e.val.buffer in s.heap.blocks;
    }
  }

  lemma StoreMine(s: State, h: Handle, off: nat, src: seq<byte>)
    requires Inv(s, {h}) && off + |src| <= |s.heap.blocks[h]|
    ensures Inv(s.(heap := s.heap.Store(h, off, src)), {h})
  {
    hide Distinct, TableOk, Contents;
    forall e | e in Stored(s) ensures FragmentOk(s.heap.Store(h, off, src), e.key, e.val) {
      assert e.val.buffer in Buffers(Stored(s));
    }
  }

  lemma DepositFragment(s: State, e: Entry<Fragment>, kept: multiset<Entry<Fragment>>,
                        culled: multiset<Entry<Fragment>>, heap': Heap, x: Entry<Fragment>)
    requires Inv(s, {e.val.buffer}) && FragmentOk(s.heap, e.key, e.val)
    requires Stored(s) + multiset{e} == kept + culled && Buffers(kept) !! Buffers(culled)
    requires heap' == Heap(s.heap.blocks - Buffers(culled), s.heap.next)
    requires x in kept
    ensures FragmentOk(heap', x.key, x.val)
  {
    hide Distinct, TableOk, Contents;
    assert x in Stored(s) + multiset{e};
    assert x.val.buffer in Buffers(kept);
  }

  lemma DepositEntry(s: State, e: Entry<Fragment>, tcp': Table<Fragment>, culled: multiset<Entry<Fragment>>,
                     heap': Heap)
    requires Inv(s, {e.val.buffer}) && FragmentOk(s.heap, e.key, e.val)
    requires TableOk(tcp') && Stored(s) + multiset{e} == Contents(tcp'.chains) + culled
    requires heap' == Heap(s.heap.blocks - Buffers(culled), s.heap.next)
    ensures Inv(s.(tcp := tcp', heap := heap'), {})
  {
    hide Distinct, TableOk, Contents, FragmentOk, Buffers;
    var all, kept := Stored(s) + multiset{e}, Contents(tcp'.chains);
    DistinctJoin(all, Stored(s), e);
    DistinctSplit(all, kept, culled);
    forall x | x in kept ensures FragmentOk(heap', x.key, x.val) {
      DepositFragment(s, e, kept, culled, heap', x);
    }
  }

  lemma DepositOk(s: State, e: Entry<Fragment>)
    requires Inv(s, {e.val.buffer}) && FragmentOk(s.heap, e.key, e.val)
    ensures var (tcp', culled) := Insert(s.tcp, e);
            Inv(s.(tcp := tcp', heap := FreeAll(s.heap, culled)), {})
  {
    InsertOk(s.tcp, e);
    var (tcp', culled) := Insert(s.tcp, e);
    hide Distinct, TableOk, Contents, Insert, FragmentOk, Inv;
    assert Buffers(multiset(culled)) == set x | x in culled :: x.val.buffer;
    DepositEntry(s, e, tcp', multiset(culled), FreeAll(s.heap, culled));
  }

  // ----- the same steps as operations on states

  /** `malloc`: the new block belongs to the packet. */
  function Allocate(s: State, n: nat, beyond: int -> byte): (r: State)
    requires Inv(s, {})
    ensures Inv(r, {s.heap.next}) && |r.heap.blocks[s.heap.next]| == n
  {
    MallocMine(s, n, beyond);
    s.(heap := s.heap.Malloc(n, beyond))
  }

  /** `memcpy` into the packet's block. */
  function Fill(s: State, h: Handle, off: nat, src: seq<byte>): (r: State)
    requires Inv(s, {h}) && off + |src| <= |s.heap.blocks[h]|
    ensures Inv(r, {h}) && |r.heap.blocks[h]| == |s.heap.blocks[h]|
  {
    StoreMine(s, h, off, src);
    s.(heap := s.heap.Store(h, off, src))
  }

  /** `tcpInsert`: the table takes the block over; the blocks of culled entries are freed, each once. */
  function Deposit(s: State, e: Entry<Fragment>): (r: State)
    requires Inv(s, {e.val.buffer}) && FragmentOk(s.heap, e.key, e.val)
    ensures Inv(r, {})
  {
    DepositOk(s, e);
    var (tcp', culled) := Insert(s.tcp, e);
    s.(tcp := tcp', heap := FreeAll(s.heap, culled))
  }

  /** `if (reassemblyBuffer != NULL) free (reassemblyBuffer)` */
  function Release(s: State, owned: Option<Handle>): (r: State)
    requires Inv(s, Mine(owned))
    ensures Inv(r, {})
  {
    match owned
    case None => s
    case Some(h) => FreeMine(s, h); s.(heap := s.heap.Free(h))
  }

  function Mine(owned: Option<Handle>): set<Handle> {
    if owned.Some? then {owned.value} else {}
  }

  /** A fragment of which `filled` bytes have arrived, all of them before sequence number `nextSeq`. */
  lemma FragmentAt(heap: Heap, k: Key, f: Fragment, filled: nat)
    requires k.TcpKey? && f.buffer in heap.blocks && |heap.blocks[f.buffer]| == f.rpcLen <= MAX_RPC
    requires k.nextSeq == Wrap(f.firstSeq + filled) && filled < f.rpcLen
    ensures FragmentOk(heap, k, f) && Filled(k, f) == filled
  {
  }

  /** Sequence numbers wrap; the number of bytes filled does not notice. */
  lemma NextSeqAfter(seqno: uint32, f: Fragment, n: nat)
    ensures Wrap(seqno + n) == Wrap(f.firstSeq + (Wrap(seqno - f.firstSeq) + n))
  {
  }
}
