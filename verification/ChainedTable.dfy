/**
 * The aging tables in the form the C code has them: HASHSIZE heads of singly
 * linked chains, spliced in place. Every method is proved against the function
 * of the same name in AgingChains.
 */
module ChainedTable {
  import opened Words
  import opened Options
  import opened TableKeys
  import opened AgingChains

  class Node<V> {
    const entry: Entry<V>
    var next: Node?<V>

    constructor (entry: Entry<V>, next: Node?<V>)
      ensures this.entry == entry && this.next == next
    {
      this.entry, this.next := entry, next;
    }
  }

  ghost function Entries<V>(nodes: seq<Node<V>>): (c: seq<Entry<V>>)
    ensures |c| == |nodes|
    ensures forall i :: 0 <= i < |nodes| ==> c[i] == nodes[i].entry
  {
    seq(|nodes|, i requires 0 <= i < |nodes| => nodes[i].entry)
  }

  ghost function HeadOf<V>(nodes: seq<Node<V>>): Node?<V> {
    if nodes == [] then null else nodes[0]
  }

  ghost function NextOf<V>(nodes: seq<Node<V>>, i: nat): Node?<V>
    requires i < |nodes|
  {
    if i + 1 < |nodes| then nodes[i + 1] else null
  }

  /** `nodes` is linked from its first node to its last, which ends the chain. */
  ghost predicate Linked<V>(nodes: seq<Node<V>>)
    reads nodes
  {
    && (forall i :: 0 <= i < |nodes| ==> nodes[i].next == NextOf(nodes, i))
    && (forall i, j :: 0 <= i < j < |nodes| ==> nodes[i] != nodes[j])
  }

  ghost function Chains<V>(spine: seq<seq<Node<V>>>): (c: seq<seq<Entry<V>>>)
    ensures |c| == |spine|
    ensures forall b :: 0 <= b < |spine| ==> c[b] == Entries(spine[b])
  {
    seq(|spine|, b requires 0 <= b < |spine| => Entries(spine[b]))
  }

  lemma ChainsUnlink<V>(spine: seq<seq<Node<V>>>, b: nat, i: nat)
    requires b < |spine| && i < |spine[b]|
    ensures Chains(spine[b := Without(spine[b], i)]) == Chains(spine)[b := Without(Chains(spine)[b], i)]
  {
    assert Entries(Without(spine[b], i)) == Without(Entries(spine[b]), i);
  }

  /** All nodes are in `repr` and belong in bucket `b`. */
  ghost predicate Housed<V>(nodes: seq<Node<V>>, b: nat, repr: set<object>) {
    forall n :: n in nodes ==> n in repr && Bucket(n.entry.key) == b
  }

  lemma WithoutAt<T>(s: seq<T>, i: nat, j: nat)
    requires i < |s| && j < |s| - 1
    ensures Without(s, i)[j] == if j < i then s[j] else s[j + 1]
  {
  }

  lemma WithoutInjective<V>(nodes: seq<Node<V>>, i: nat)
    requires i < |nodes|
    requires forall a, b :: 0 <= a < b < |nodes| ==> nodes[a] != nodes[b]
    ensures forall a, b :: 0 <= a < b < |nodes| - 1 ==> Without(nodes, i)[a] != Without(nodes, i)[b]
  {
    forall a, b | 0 <= a < b < |nodes| - 1 ensures Without(nodes, i)[a] != Without(nodes, i)[b] {
      WithoutAt(nodes, i, a);
      WithoutAt(nodes, i, b);
    }
  }

  lemma UnlinkHead<V>(nodes: seq<Node<V>>)
    requires nodes != [] && Linked(nodes)
    ensures Linked(Without(nodes, 0)) && nodes[0].next == HeadOf(Without(nodes, 0))
  {
    var tail := nodes[1..];
    assert Without(nodes, 0) == tail;
    forall j | 0 <= j < |tail| ensures tail[j].next == NextOf(tail, j) {
      assert tail[j] == nodes[j + 1] && NextOf(tail, j) == NextOf(nodes, j + 1);
    }
  }

  /** `*prev_p = curr->next` inside a chain. */
  method Splice<V>(prev: Node<V>, curr: Node<V>, ghost nodes: seq<Node<V>>, ghost i: nat)
    requires Linked(nodes) && 0 < i < |nodes| && prev == nodes[i - 1] && curr == nodes[i]
    modifies prev
    ensures Linked(Without(nodes, i)) && HeadOf(Without(nodes, i)) == HeadOf(nodes)
  {
    ghost var left := Without(nodes, i);
    WithoutInjective(nodes, i);
    WithoutAt(nodes, i, 0);
    prev.next := curr.next;
    forall j | 0 <= j < |left| ensures left[j].next == NextOf(left, j) {
      WithoutAt(nodes, i, j);
      if j + 1 < |left| {
        WithoutAt(nodes, i, j + 1);
      }
      assert j != i - 1 ==> left[j].next == old(left[j].next);
    }
  }

  class Table<V> {
    const buckets: array<Node?<V>>
    var elemCnt: int
    var cullIndex: nat
    ghost var spine: seq<seq<Node<V>>>
    ghost var Repr: set<object>

    /** The heads and links spell out `spine`. */
    ghost predicate Wired()
      reads this, Repr
      ensures Wired() ==> this in Repr && buckets in Repr
    {
      && this in Repr && buckets in Repr
      && buckets.Length == HASHSIZE == |spine|
      && (forall b :: 0 <= b < HASHSIZE ==> Housed(spine[b], b, Repr))
      && (forall b :: 0 <= b < HASHSIZE ==> buckets[b] == HeadOf(spine[b]))
      && (forall b :: 0 <= b < HASHSIZE ==> Linked(spine[b]))
    }

    ghost predicate Valid()
      reads this, Repr
      ensures Valid() ==> this in Repr && buckets in Repr
    {
      Wired() && TableOk(Abstract())
    }

    ghost function Abstract(): AgingChains.Table<V>
      reads this
    {
      AgingChains.Table(Chains(spine), cullIndex, elemCnt)
    }

    /** An empty table. */
    constructor ()
      ensures Valid() && fresh(Repr)
      ensures Abstract() == Empty()
    {
      buckets := new Node?<V>[HASHSIZE](_ => null);
      elemCnt, cullIndex := 0, 0;
      spine := seq(HASHSIZE, _ => []);
      new;
      hide TableOk, Contents, Queue, Bucket;
      Repr := {this, buckets};
      EmptyOk<V>(XidKey(0, 0, 0));
      assert Chains(spine) == seq(HASHSIZE, _ => []);
    }

    /** Takes the first node of chain `b` out: `*prev_p = curr->next` with `prev_p` at the head. */
    method UnlinkFirst(b: nat, curr: Node<V>)
      requires Wired()
      requires b < HASHSIZE && spine[b] != [] && curr == spine[b][0]
      modifies this, buckets
      ensures Wired() && Repr == old(Repr)
      ensures spine == old(spine[b := Without(spine[b], 0)])
      ensures cullIndex == old(cullIndex) && elemCnt == old(elemCnt) - 1
    {
      ghost var left := Without(spine[b], 0);
      UnlinkHead(spine[b]);
      assert Housed(left, b, Repr);
      buckets[b] := curr.next;
      elemCnt := elemCnt - 1;
      spine := spine[b := left];
    }

    /** Takes node `i` of chain `b` out: `*prev_p = curr->next` with `prev_p` in the node before it. */
    method UnlinkNext(b: nat, prev: Node<V>, curr: Node<V>, ghost i: nat)
      requires Wired()
      requires b < HASHSIZE && 0 < i < |spine[b]| && curr == spine[b][i] && prev == spine[b][i - 1]
      modifies this, prev
      ensures Wired() && Repr == old(Repr)
      ensures spine == old(spine[b := Without(spine[b], i)])
      ensures cullIndex == old(cullIndex) && elemCnt == old(elemCnt) - 1
    {
      ghost var left := Without(spine[b], i);
      assert Housed(left, b, Repr);
      assert forall b' :: 0 <= b' < HASHSIZE && b' != b ==> prev !in spine[b'];
      Splice(prev, curr, spine[b], i);
      elemCnt := elemCnt - 1;
      spine := spine[b := left];
    }

    /** The search loop: unlinks the first node with key `k`, or gives null when there is none. */
    method Detach(k: Key) returns (r: Node?<V>)
      requires Wired()
      modifies Repr
      ensures Wired() && Repr == old(Repr) && cullIndex == old(cullIndex)
      ensures var nodes := old(spine[Bucket(k)]);
              var i := IndexOf(Entries(nodes), k);
              if r == null
              then i == |nodes| && spine == old(spine) && elemCnt == old(elemCnt)
              else i < |nodes| && r == nodes[i] && elemCnt == old(elemCnt) - 1
                   && spine == old(spine)[Bucket(k) := Without(nodes, i)]
    {
      var b := Bucket(k);
      var prev: Node?<V> := null;
      r := buckets[b];
      ghost var i := 0;
      ghost var nodes := spine[b];
      while r != null
        invariant 0 <= i <= |nodes|
        invariant r == if i < |nodes| then nodes[i] else null
        invariant prev == if i == 0 then null else nodes[i - 1]
        invariant forall j :: 0 <= j < i ==> nodes[j].entry.key != k
        decreases |nodes| - i
      {
        if r.entry.key == k {
          assert IndexOf(Entries(nodes), k) == i;
          if prev == null {
            UnlinkFirst(b, r);
          } else {
            UnlinkNext(b, prev, r, i);
          }
          return;
        }
        assert r.next == NextOf(nodes, i);
        prev, r, i := r, r.next, i + 1;
      }
    }

    /** tcpLookup and hashLookupXid: the newest entry with key `k` leaves the table. */
    method Lookup(k: Key) returns (r: Option<Entry<V>>)
      requires Valid()
      modifies Repr
      ensures Valid() && Repr == old(Repr)
      ensures (Abstract(), r) == AgingChains.Lookup(old(Abstract()), k)
    {
      LookupOk(Abstract(), k);
      ghost var before := spine;
      var n := Detach(k);
      if n == null {
        r := None;
      } else {
        ChainsUnlink(before, Bucket(k), IndexOf(Entries(before[Bucket(k)]), k));
        r := Some(n.entry);
      }
    }

    /** Makes `n` the head of chain `b`. */
    method Link(b: nat, n: Node<V>)
      requires Wired()
      requires b < HASHSIZE && n !in Repr && n.next == buckets[b] && Bucket(n.entry.key) == b
      modifies this, buckets
      ensures Wired() && Repr == old(Repr) + {n}
      ensures spine == old(spine)[b := [n] + old(spine)[b]]
      ensures cullIndex == old(cullIndex) && elemCnt == old(elemCnt) + 1
    {
      ghost var nodes := spine[b];
      PushLinked(n, nodes);
      buckets[b] := n;
      Repr := Repr + {n};
      assert Linked([n] + nodes);
      assert Housed([n] + nodes, b, Repr);
      elemCnt := elemCnt + 1;
      spine := spine[b := [n] + nodes];
    }

    /** `new->next = table [hashval]; table [hashval] = new;` */
    method Push(e: Entry<V>)
      requires Valid()
      modifies this, buckets
      ensures Valid() && fresh(Repr - old(Repr))
      ensures Abstract() == Prepend(old(Abstract()), e)
    {
      hide Bucket, Contents, Linked, Housed;
      var b := Bucket(e.key);
      PrependOk(Abstract(), e);
      var n := new Node(e, buckets[b]);
      ChainsPush(spine, b, n);
      Link(b, n);
    }

    /** One stale node: `old = lookup (key of curr); assert (old != NULL)`. */
    method CullOne(curr: Node<V>, ghost done: seq<Node<V>>, ghost rest: seq<Node<V>>)
      returns (e: Entry<V>, ghost left: seq<Node<V>>)
      requires Wired() && cullIndex < HASHSIZE
      requires spine[cullIndex] == done + rest && rest != [] && curr == rest[0]
      modifies Repr
      ensures Wired() && Repr == old(Repr) && cullIndex == old(cullIndex) && elemCnt == old(elemCnt) - 1
      ensures spine == old(spine)[cullIndex := left + rest[1..]]
      ensures Entries(rest)[1..] == Entries(rest[1..])
      ensures var walked := Entries(done) + [Entries(rest)[0]];
              var i := FirstInWalked(Entries(done), Entries(rest)[0]);
              Entries(left) == Without(walked, i) && e == walked[i]
    {
      ghost var i := CullStep(done, rest);
      assert curr in spine[cullIndex];
      var n := Detach(curr.entry.key);
      assert n != null;
      e, left := n.entry, Without(done + [rest[0]], i);
    }

    /** One turn of the cull's loop; `done` is what is left of the walked part, `rest` the rest of the chain. */
    method CullVisit(curr: Node<V>, limit: uint32, culled: seq<Entry<V>>,
                     ghost done: seq<Node<V>>, ghost rest: seq<Node<V>>)
      returns (next: Node?<V>, culled': seq<Entry<V>>, ghost left: seq<Node<V>>)
      requires Wired() && cullIndex < HASHSIZE
      requires spine[cullIndex] == done + rest && rest != [] && curr == rest[0]
      modifies Repr
      ensures Wired() && Repr == old(Repr) && cullIndex == old(cullIndex)
      ensures elemCnt - old(elemCnt) == |culled| - |culled'|
      ensures next == HeadOf(rest[1..]) && spine == old(spine)[cullIndex := left + rest[1..]]
      ensures Remaining(Entries(left), Entries(rest[1..]), culled', limit)
              == Remaining(Entries(done), Entries(rest), culled, limit)
    {
      WalkStep(spine[cullIndex], done, rest);
      next := curr.next;
      if curr.entry.time < limit {
        var e: Entry<V>;
        e, left := CullOne(curr, done, rest);
        culled' := culled + [e];
        RemainingStale(Entries(done), Entries(rest), culled, limit);
      } else {
        CullKeep(done, rest);
        culled', left := culled, done + [rest[0]];
      }
    }

    /** The loop over the bucket whose turn it is, deleting through the lookup while it walks. */
    method CullChain(limit: uint32) returns (culled: seq<Entry<V>>)
      requires Wired() && cullIndex < HASHSIZE
      modifies Repr
      ensures Wired() && Repr == old(Repr) && cullIndex == old(cullIndex)
      ensures Chains(spine) == Chains(old(spine))[cullIndex := Cull([], Entries(old(spine)[cullIndex]), limit).0]
      ensures culled == Cull([], Entries(old(spine)[cullIndex]), limit).1
      ensures elemCnt == old(elemCnt) - |culled|
    {
      var curr := buckets[cullIndex];
      culled := [];
      ghost var nodes := spine[cullIndex];
      ghost var done, rest := [], nodes;
      assert done + rest == nodes;
      RemainingAll(nodes, limit);
      while curr != null
        invariant Wired() && Repr == old(Repr) && cullIndex == old(cullIndex)
        invariant curr == HeadOf(rest) && spine == old(spine)[cullIndex := done + rest]
        invariant elemCnt == old(elemCnt) - |culled|
        invariant Remaining(Entries(done), Entries(rest), culled, limit) == Cull([], Entries(nodes), limit)
        decreases |rest|
      {
        curr, culled, done := CullVisit(curr, limit, culled, done, rest);
        rest := rest[1..];
      }
      CullDone(done, rest, limit);
    }

    /** The cull at the end of an insert. */
    method CullBucket(now: uint32) returns (culled: seq<Entry<V>>)
      requires Valid()
      modifies Repr
      ensures Valid() && Repr == old(Repr)
      ensures (Abstract(), culled) == AgingChains.CullBucket(old(Abstract()), now)
    {
      hide Bucket, Contents, Cull, Linked, Housed;
      CullOk(Abstract(), now);
      culled := CullChain(Limit(now));
      cullIndex := (cullIndex + 1) % HASHSIZE;
    }

    /** tcpInsert and hashInsertXid. The culled entries are handed back, for the caller to free what they own. */
    method Insert(e: Entry<V>) returns (culled: seq<Entry<V>>)
      requires Valid()
      modifies Repr
      ensures Valid() && fresh(Repr - old(Repr))
      ensures (Abstract(), culled) == AgingChains.Insert(old(Abstract()), e)
    {
      Push(e);
      culled := CullBucket(e.time);
    }
  }

  lemma PushLinked<V>(n: Node<V>, nodes: seq<Node<V>>)
    requires Linked(nodes) && n !in nodes && n.next == HeadOf(nodes)
    ensures Linked([n] + nodes)
  {
    forall j | 0 <= j < |nodes| + 1 ensures ([n] + nodes)[j].next == NextOf([n] + nodes, j) {
      if j > 0 {
        assert nodes[j - 1].next == NextOf(nodes, j - 1);
      }
    }
  }

  lemma ChainsPush<V>(spine: seq<seq<Node<V>>>, b: nat, n: Node<V>)
    requires b < |spine|
    ensures Chains(spine[b := [n] + spine[b]]) == Chains(spine)[b := [n.entry] + Chains(spine)[b]]
  {
    assert Entries([n] + spine[b]) == [n.entry] + Entries(spine[b]);
  }

  /** The saved `next` is the node behind the current one, whatever the lookup removes. */
  lemma WalkStep<V>(nodes: seq<Node<V>>, done: seq<Node<V>>, rest: seq<Node<V>>)
    requires Linked(nodes) && nodes == done + rest && rest != []
    ensures rest[0].next == HeadOf(rest[1..])
  {
    assert nodes[|done|].next == NextOf(nodes, |done|);
  }

  lemma IndexOfPrefix<V>(a: seq<Entry<V>>, b: seq<Entry<V>>, k: Key)
    requires IndexOf(a, k) < |a|
    ensures IndexOf(a + b, k) == IndexOf(a, k)
  {
    assert (a + b)[IndexOf(a, k)] == a[IndexOf(a, k)];
  }

  /** What the cull will have kept and removed, given what it has removed so far. */
  ghost function Remaining<V>(done: seq<Entry<V>>, rest: seq<Entry<V>>, culled: seq<Entry<V>>, limit: uint32)
    : (seq<Entry<V>>, seq<Entry<V>>)
  {
    (Cull(done, rest, limit).0, culled + Cull(done, rest, limit).1)
  }

  lemma RemainingAll<V>(nodes: seq<Node<V>>, limit: uint32)
    ensures Remaining(Entries([]), Entries(nodes), [], limit) == Cull([], Entries(nodes), limit)
  {
    assert Entries<V>([]) == [];
    assert [] + Cull([], Entries(nodes), limit).1 == Cull([], Entries(nodes), limit).1;
  }

  lemma RemainingStale<V>(done: seq<Entry<V>>, rest: seq<Entry<V>>, culled: seq<Entry<V>>, limit: uint32)
    requires rest != [] && rest[0].time < limit
    ensures var walked := done + [rest[0]];
            var i := FirstInWalked(done, rest[0]);
            Remaining(done, rest, culled, limit)
            == Remaining(Without(walked, i), rest[1..], culled + [walked[i]], limit)
  {
    var walked := done + [rest[0]];
    var i := FirstInWalked(done, rest[0]);
    var more := Cull(Without(walked, i), rest[1..], limit).1;
    assert culled + ([walked[i]] + more) == (culled + [walked[i]]) + more;
  }

  lemma CullDone<V>(done: seq<Node<V>>, rest: seq<Node<V>>, limit: uint32)
    requires rest == []
    ensures done + rest == done && Cull(Entries(done), Entries(rest), limit) == (Entries(done), [])
  {
    assert Entries(rest) == [];
  }

  lemma EntriesConcat<V>(a: seq<Node<V>>, b: seq<Node<V>>)
    ensures Entries(a + b) == Entries(a) + Entries(b)
  {
  }

  /** At a stale node the lookup removes a node at or before it. */
  lemma CullStep<V>(done: seq<Node<V>>, rest: seq<Node<V>>) returns (i: nat)
    requires rest != []
    ensures i <= |done| && i == IndexOf(Entries(done + rest), rest[0].entry.key)
    ensures i == FirstInWalked(Entries(done), Entries(rest)[0])
    ensures Without(done + rest, i) == Without(done + [rest[0]], i) + rest[1..]
    ensures Entries(Without(done + [rest[0]], i)) == Without(Entries(done) + [Entries(rest)[0]], i)
    ensures Entries(rest)[1..] == Entries(rest[1..])
    ensures (done + rest)[i].entry == (Entries(done) + [Entries(rest)[0]])[i]
  {
    hide IndexOf, FirstInWalked;
    var walked, tail := done + [rest[0]], rest[1..];
    i := FirstInWalked(Entries(done), rest[0].entry);
    EntriesConcat(done, [rest[0]]);
    assert Entries(walked) == Entries(done) + [rest[0].entry];
    assert done + rest == walked + tail;
    EntriesConcat(walked, tail);
    IndexOfPrefix(Entries(walked), Entries(tail), rest[0].entry.key);
    assert Entries(Without(walked, i)) == Without(Entries(walked), i);
  }

  lemma CullKeep<V>(done: seq<Node<V>>, rest: seq<Node<V>>)
    requires rest != []
    ensures done + rest == (done + [rest[0]]) + rest[1..]
    ensures Entries(done + [rest[0]]) == Entries(done) + [Entries(rest)[0]]
    ensures Entries(rest)[1..] == Entries(rest[1..])
  {
  }
}
