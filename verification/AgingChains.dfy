/** The keys of the two aging tables and the HASH macros that place them. */
module TableKeys {
  import opened Words

  const HASHSIZE := 3301

  datatype Key =
    | TcpKey(nextSeq: uint32, srcHost: uint32, srcPort: uint16, dstHost: uint32, dstPort: uint16)
    | XidKey(xid: uint32, host: uint32, port: uint32)

  /** C's `%`: the remainder takes the sign of the dividend. */
  function TruncMod(x: int, m: int): int
    requires m > 0
  {
    if x >= 0 then x % m else -((-x) % m)
  }

  /**
   * The two HASH macros. In the TCP one the port expression is a signed `int`,
   * so its remainder is negative for source ports above 32767 and the sum
   * wraps when it becomes unsigned.
   */
  function Bucket(k: Key): (b: nat)
    ensures b < HASHSIZE
  {
    match k
    case TcpKey(nextSeq, srcHost, srcPort, dstHost, dstPort) =>
      var ports := TruncMod(Signed(srcPort * 0x1_0000 + dstPort), HASHSIZE);
      Wrap(nextSeq % HASHSIZE + srcHost % HASHSIZE + dstHost % HASHSIZE + ports) % HASHSIZE
    case XidKey(xid, host, port) =>
      (xid % HASHSIZE + host % HASHSIZE + port % HASHSIZE) % HASHSIZE
  }

  /** The remainder of a sum, from remainders. */
  lemma SumOfRemainders(a: int, b: int, c: int)
    ensures (a % 3301 + b % 3301 + c % 3301) % 3301 == (a + b + c) % 3301
  {
  }

  /** An outstanding call is in the bucket of the sum of its three numbers modulo 3301. */
  lemma XidBucket(xid: uint32, host: uint32, port: uint32)
    ensures Bucket(XidKey(xid, host, port)) == (xid + host + port) % 3301
  {
    SumOfRemainders(xid, host, port);
  }

  /**
   * A fragment is in the bucket of the sum of its numbers modulo 3301, the ports
   * taken as one number, if the source port is below 32768. Above, the ports are
   * a negative number; the sum of the remainders may then be negative too, and
   * has 2^32 added.
   */
  lemma TcpBucket(nextSeq: uint32, srcHost: uint32, srcPort: uint16, dstHost: uint32, dstPort: uint16)
    ensures var b := Bucket(TcpKey(nextSeq, srcHost, srcPort, dstHost, dstPort));
            var ports := 65536 * srcPort + dstPort - if srcPort < 32768 then 0 else 4294967296;
            var rest := nextSeq % 3301 + srcHost % 3301 + dstHost % 3301;
            if srcPort < 32768 || rest >= (-ports) % 3301
            then b == (nextSeq + srcHost + dstHost + ports) % 3301
            else b == (nextSeq + srcHost + dstHost + ports + 4294967296) % 3301
  {
    var ports := 65536 * srcPort + dstPort - if srcPort < 32768 then 0 else 4294967296;
    TcpSum(nextSeq, srcHost, dstHost, ports);
  }

  lemma TcpSum(a: uint32, b: uint32, c: uint32, ports: int)
    requires -TWO31 <= ports < TWO31
    ensures var rest := a % 3301 + b % 3301 + c % 3301;
            var r := TruncMod(ports, 3301);
            && (rest + r >= 0 ==> Wrap(rest + r) % 3301 == (a + b + c + ports) % 3301)
            && (rest + r < 0 ==> Wrap(rest + r) % 3301 == (a + b + c + ports + TWO32) % 3301)
            && (ports < 0 ==> r == -((-ports) % 3301)) && (ports >= 0 ==> r >= 0)
  {
    var r := TruncMod(ports, 3301);
    var k := if ports >= 0 then ports / 3301 else -((-ports) / 3301);
    assert ports == 3301 * k + r;
    var q := a / 3301 + b / 3301 + c / 3301 + k;
    var rest := a % 3301 + b % 3301 + c % 3301;
    assert a + b + c + ports == 3301 * q + (rest + r);
    SameRemainder(rest + r, q);
    SameRemainder(rest + r + TWO32, q);
  }

  lemma SameRemainder(x: int, q: int)
    ensures (3301 * q + x) % 3301 == x % 3301
  {
  }
}

/**
 * The tables of tcp_reassembly.c and nfsrecord.c as values: what lookup, insert
 * and the round-robin cull do to the chains, and what that means per key.
 */
module AgingChains {
  import opened Words
  import opened Options
  import opened TableKeys

  const MAX_AGE := 30

  datatype Entry<V> = Entry(key: Key, val: V, time: uint32)

  datatype Table<V> = Table(chains: seq<seq<Entry<V>>>, cullIndex: nat, elemCnt: int)

  // ----- one chain

  /** Position of the first entry with key `k`, or the length of the chain. */
  function IndexOf<V>(c: seq<Entry<V>>, k: Key): (i: nat)
    ensures i <= |c|
    ensures forall j :: 0 <= j < i ==> c[j].key != k
    ensures i < |c| ==> c[i].key == k
  {
    if c == [] || c[0].key == k then 0 else 1 + IndexOf(c[1..], k)
  }

  function Without<T>(s: seq<T>, i: nat): (r: seq<T>)
    requires i < |s|
  {
    s[..i] + s[i + 1..]
  }

  /** The time limit of a cull: unsigned, so it wraps in the first 30 seconds of 1970. */
  function Limit(now: uint32): uint32 {
    Wrap(now - MAX_AGE)
  }

  /** What is stale: from second 30 on, what is more than 30 seconds old; before, what is not in the last 30 of 2^32. */
  lemma StaleIff(time: uint32, now: uint32)
    ensures time < Limit(now) <==> if now >= 30 then time + 30 < now else time + 30 < now + 4294967296
  {
  }

  /**
   * The cull as the C loop performs it: it walks the chain, and for every stale
   * entry it meets it removes, through the lookup, the first entry with that
   * key. `done` is what is left of the part already walked. Gives the remaining
   * chain and the entries removed, in order of removal.
   */
  function Cull<V>(done: seq<Entry<V>>, rest: seq<Entry<V>>, limit: uint32): (seq<Entry<V>>, seq<Entry<V>>)
    decreases |rest|
  {
    if rest == [] then (done, [])
    else
      var walked := done + [rest[0]];
      if rest[0].time < limit then
        var i := FirstInWalked(done, rest[0]);
        var (kept, culled) := Cull(Without(walked, i), rest[1..], limit);
        (kept, [walked[i]] + culled)
      else
        Cull(walked, rest[1..], limit)
  }

  /** The walk always finds something to remove, at or before the current entry. */
  function FirstInWalked<V>(done: seq<Entry<V>>, cur: Entry<V>): (i: nat)
    ensures i <= |done|
    ensures i == IndexOf(done + [cur], cur.key)
  {
    var walked := done + [cur];
    assert walked[|done|].key == cur.key;
    IndexOf(walked, cur.key)
  }

  // ----- one chain, per key

  /** The entries with key `k`, newest first. */
  ghost function OfKey<V>(c: seq<Entry<V>>, k: Key): seq<Entry<V>> {
    if c == [] then []
    else if c[0].key == k then [c[0]] + OfKey(c[1..], k)
    else OfKey(c[1..], k)
  }

  ghost function StaleCount<V>(c: seq<Entry<V>>, limit: uint32): (n: nat)
    ensures n <= |c|
  {
    if c == [] then 0
    else (if c[0].time < limit then 1 else 0) + StaleCount(c[1..], limit)
  }

  ghost function Fresh<V>(c: seq<Entry<V>>, limit: uint32): seq<Entry<V>> {
    if c == [] then []
    else if c[0].time < limit then Fresh(c[1..], limit)
    else [c[0]] + Fresh(c[1..], limit)
  }

  lemma OfKeyCons<V>(e: Entry<V>, c: seq<Entry<V>>, k: Key)
    ensures OfKey([e] + c, k) == (if e.key == k then [e] else []) + OfKey(c, k)
  {
    assert ([e] + c)[1..] == c;
  }

  lemma {:induction false} OfKeyConcat<V>(a: seq<Entry<V>>, b: seq<Entry<V>>, k: Key)
    ensures OfKey(a + b, k) == OfKey(a, k) + OfKey(b, k)
  {
    if a == [] {
      assert a + b == b;
    } else {
      assert a + b == [a[0]] + (a[1..] + b);
      OfKeyCons(a[0], a[1..] + b, k);
      OfKeyConcat(a[1..], b, k);
    }
  }

  lemma {:induction false} OfKeyMember<V>(c: seq<Entry<V>>, k: Key, e: Entry<V>)
    ensures e in OfKey(c, k) <==> e in c && e.key == k
  {
    if c != [] {
      OfKeyMember(c[1..], k, e);
      assert c == [c[0]] + c[1..];
    }
  }

  /** Removing the first entry with key `k` pops the list of `k` and leaves the other lists alone. */
  lemma {:induction false} OfKeyWithout<V>(c: seq<Entry<V>>, k: Key, k': Key)
    requires IndexOf(c, k) < |c|
    ensures |OfKey(c, k)| > 0 && OfKey(c, k)[0] == c[IndexOf(c, k)]
    ensures OfKey(Without(c, IndexOf(c, k)), k') == if k' == k then OfKey(c, k)[1..] else OfKey(c, k')
  {
    if c[0].key == k {
      assert Without(c, 0) == c[1..];
    } else {
      var i := IndexOf(c[1..], k);
      OfKeyWithout(c[1..], k, k');
      assert Without(c, i + 1) == [c[0]] + Without(c[1..], i);
      OfKeyCons(c[0], Without(c[1..], i), k');
    }
  }

  lemma {:induction false} OfKeyNone<V>(c: seq<Entry<V>>, k: Key)
    requires IndexOf(c, k) == |c|
    ensures OfKey(c, k) == []
  {
    if c != [] {
      OfKeyNone(c[1..], k);
    }
  }

  /** One turn of the cull's walk at a stale entry, seen from the list of key `k`. */
  lemma CullStepPerKey<V>(walked: seq<Entry<V>>, tail: seq<Entry<V>>, k: Key, k': Key)
    requires IndexOf(walked, k) < |walked|
    ensures var q := OfKey(walked + tail, k');
            var q' := OfKey(Without(walked, IndexOf(walked, k)) + tail, k');
            if k' == k
            then |q| > 0 && q[0] == walked[IndexOf(walked, k)] && q' == q[1..]
            else q' == q
  {
    OfKeyConcat(walked, tail, k');
    OfKeyConcat(Without(walked, IndexOf(walked, k)), tail, k');
    OfKeyWithout(walked, k, k');
  }

  /**
   * What the cull means, even with duplicate keys: from the list of each key it
   * drops, from the newest end, as many entries as were stale.
   */
  lemma {:induction false} CullPerKey<V>(done: seq<Entry<V>>, rest: seq<Entry<V>>, limit: uint32, k: Key)
    ensures StaleCount(OfKey(rest, k), limit) <= |OfKey(done + rest, k)|
    ensures OfKey(Cull(done, rest, limit).0, k) == OfKey(done + rest, k)[StaleCount(OfKey(rest, k), limit)..]
    ensures OfKey(Cull(done, rest, limit).1, k) == OfKey(done + rest, k)[..StaleCount(OfKey(rest, k), limit)]
    decreases |rest|
  {
    if rest == [] {
      assert done + rest == done;
    } else {
      var cur, tail := rest[0], rest[1..];
      var walked := done + [cur];
      assert done + rest == walked + tail;
      if cur.time < limit {
        var i := FirstInWalked(done, cur);
        var left := Without(walked, i);
        CullStepPerKey(walked, tail, cur.key, k);
        CullPerKey(left, tail, limit, k);
        OfKeyCons(walked[i], Cull(left, tail, limit).1, k);
        ghost var n := StaleCount(OfKey(tail, k), limit);
        if cur.key == k {
          assert OfKey(rest, k) == [cur] + OfKey(tail, k);
          assert StaleCount(OfKey(rest, k), limit) == n + 1;
        } else {
          assert OfKey(rest, k) == OfKey(tail, k);
        }
      } else {
        CullPerKey(walked, tail, limit, k);
        if cur.key == k {
          assert OfKey(rest, k) == [cur] + OfKey(tail, k);
        }
      }
    }
  }

  lemma {:induction false} CullConserves<V>(done: seq<Entry<V>>, rest: seq<Entry<V>>, limit: uint32)
    ensures multiset(Cull(done, rest, limit).0) + multiset(Cull(done, rest, limit).1) == multiset(done) + multiset(rest)
    decreases |rest|
  {
    if rest != [] {
      var walked := done + [rest[0]];
      assert rest == [rest[0]] + rest[1..];
      if rest[0].time < limit {
        var i := FirstInWalked(done, rest[0]);
        WithoutBag(walked, i);
        CullConserves(Without(walked, i), rest[1..], limit);
        var (kept, culled) := Cull(Without(walked, i), rest[1..], limit);
        assert Cull(done, rest, limit) == (kept, [walked[i]] + culled);
        calc {
          multiset(kept) + multiset([walked[i]] + culled);
          (multiset(kept) + multiset(culled)) + multiset{walked[i]};
          multiset(Without(walked, i)) + multiset(rest[1..]) + multiset{walked[i]};
          multiset(walked) + multiset(rest[1..]);
          multiset(done) + multiset{rest[0]} + multiset(rest[1..]);
          multiset(done) + multiset([rest[0]] + rest[1..]);
        }
      } else {
        CullConserves(walked, rest[1..], limit);
      }
    }
  }

  lemma WithoutBag<T>(s: seq<T>, i: nat)
    requires i < |s|
    ensures multiset(s) == multiset(Without(s, i)) + multiset{s[i]}
  {
    assert s == s[..i] + ([s[i]] + s[i + 1..]);
  }

  // ----- when the cull removes exactly the stale entries

  /** No stale entry stands behind a fresh one. */
  ghost predicate StaleFirst<V>(q: seq<Entry<V>>, limit: uint32) {
    forall i, j :: 0 <= i < j < |q| && q[j].time < limit ==> q[i].time < limit
  }

  lemma {:induction false} AllFresh<V>(q: seq<Entry<V>>, limit: uint32)
    requires forall e :: e in q ==> e.time >= limit
    ensures StaleCount(q, limit) == 0 && Fresh(q, limit) == q
  {
    if q != [] {
      AllFresh(q[1..], limit);
    }
  }

  lemma {:induction false} FreshMember<V>(q: seq<Entry<V>>, limit: uint32, e: Entry<V>)
    ensures e in Fresh(q, limit) <==> e in q && e.time >= limit
  {
    if q != [] {
      FreshMember(q[1..], limit, e);
      assert q == [q[0]] + q[1..];
    }
  }

  lemma {:induction false} DropIsFresh<V>(q: seq<Entry<V>>, limit: uint32)
    ensures q[StaleCount(q, limit)..] == Fresh(q, limit) <==> StaleFirst(q, limit)
  {
    if q != [] {
      var tail := q[1..];
      DropIsFresh(tail, limit);
      if q[0].time < limit {
        assert q[StaleCount(q, limit)..] == tail[StaleCount(tail, limit)..];
        assert StaleFirst(tail, limit) ==> StaleFirst(q, limit) by {
          assert forall j :: 0 < j < |q| ==> q[j] == tail[j - 1];
        }
        assert StaleFirst(q, limit) ==> StaleFirst(tail, limit) by {
          assert forall j :: 0 <= j < |tail| ==> tail[j] == q[j + 1];
        }
      } else if StaleFirst(q, limit) {
        AllFresh(q, limit);
      } else {
        var i, j :| 0 <= i < j < |q| && q[j].time < limit && !(q[i].time < limit);
        StaleSurvives(q, j, limit);
      }
    }
  }

  /** Behind a fresh head, dropping as many entries as are stale always leaves a stale one. */
  lemma StaleSurvives<V>(q: seq<Entry<V>>, j: nat, limit: uint32)
    requires 0 < j < |q| && q[0].time >= limit && q[j].time < limit
    ensures q[StaleCount(q, limit)..] != Fresh(q, limit)
  {
    var n := StaleCount(q, limit);
    StaleCountConcat(q[..n], q[n..], limit);
    assert q == q[..n] + q[n..];
    assert n > 0 ==> StaleCount(q[..n], limit) == StaleCount(q[..n][1..], limit) < n;
    assert n == 0 ==> q[n..][j] == q[j];
    if q[n..] == Fresh(q, limit) {
      forall e | e in q[n..] ensures e.time >= limit { FreshMember(q, limit, e); }
      AllFresh(q[n..], limit);
      assert false;
    }
  }

  lemma {:induction false} StaleCountConcat<V>(a: seq<Entry<V>>, b: seq<Entry<V>>, limit: uint32)
    ensures StaleCount(a + b, limit) == StaleCount(a, limit) + StaleCount(b, limit)
  {
    if a == [] {
      assert a + b == b;
    } else {
      assert (a + b)[1..] == a[1..] + b;
      StaleCountConcat(a[1..], b, limit);
    }
  }

  lemma {:induction false} OfKeyFresh<V>(c: seq<Entry<V>>, limit: uint32, k: Key)
    ensures OfKey(Fresh(c, limit), k) == Fresh(OfKey(c, k), limit)
  {
    if c != [] {
      OfKeyFresh(c[1..], limit, k);
    }
  }

  /** No key of the chain has a stale entry behind a fresh one. */
  ghost predicate Separated<V>(c: seq<Entry<V>>, limit: uint32) {
    forall k :: StaleFirst(OfKey(c, k), limit)
  }

  lemma StaleIsFirstOfKey<V>(done: seq<Entry<V>>, rest: seq<Entry<V>>, limit: uint32)
    requires forall e :: e in done ==> e.time >= limit
    requires rest != [] && rest[0].time < limit
    ensures FirstInWalked(done, rest[0]) == |done| || !Separated(done + rest, limit)
  {
    var k := rest[0].key;
    var i := FirstInWalked(done, rest[0]);
    if i < |done| {
      OfKeyConcat(done, rest, k);
      OfKeyMember(done, k, done[i]);
      OfKeyMember(done, k, OfKey(done, k)[0]);
      var q, m := OfKey(done + rest, k), |OfKey(done, k)|;
      assert m > 0 && q[0] == OfKey(done, k)[0];
      assert OfKey(rest, k)[0] == rest[0];
      assert q[m] == rest[0];
      assert !StaleFirst(q, limit);
    }
  }

  lemma SeparatedTail<V>(walked: seq<Entry<V>>, tail: seq<Entry<V>>, k: Key, limit: uint32)
    requires IndexOf(walked, k) < |walked|
    requires Separated(walked + tail, limit)
    ensures Separated(Without(walked, IndexOf(walked, k)) + tail, limit)
  {
    forall k' ensures StaleFirst(OfKey(Without(walked, IndexOf(walked, k)) + tail, k'), limit) {
      assert StaleFirst(OfKey(walked + tail, k'), limit);
      CullStepPerKey(walked, tail, k, k');
    }
  }

  /** As long as everything walked so far was fresh, a stale entry is the first of its key. */
  lemma {:induction false} CullSeparated<V>(done: seq<Entry<V>>, rest: seq<Entry<V>>, limit: uint32)
    requires forall e :: e in done ==> e.time >= limit
    requires Separated(done + rest, limit)
    ensures Cull(done, rest, limit).0 == done + Fresh(rest, limit)
    decreases |rest|
  {
    hide Separated, OfKey, IndexOf, Bucket;
    if rest != [] {
      var cur, tail := rest[0], rest[1..];
      var walked := done + [cur];
      assert done + rest == walked + tail;
      if cur.time < limit {
        StaleIsFirstOfKey(done, rest, limit);
        SeparatedTail(walked, tail, cur.key, limit);
        assert Without(walked, |done|) == done;
        CullSeparated(done, tail, limit);
      } else {
        CullSeparated(walked, tail, limit);
      }
    }
  }

  /**
   * The cull is meant to remove the stale entries. It removes exactly those if
   * and only if no key has a stale entry behind a fresh one: in that case the
   * lookup it deletes through hands it the newer, fresh entry instead.
   */
  lemma CullExactIff<V>(c: seq<Entry<V>>, limit: uint32)
    ensures Cull([], c, limit).0 == Fresh(c, limit) <==> Separated(c, limit)
  {
    assert [] + c == c;
    if Separated(c, limit) {
      CullSeparated([], c, limit);
    } else {
      var k :| !StaleFirst(OfKey(c, k), limit);
      CullPerKey([], c, limit, k);
      DropIsFresh(OfKey(c, k), limit);
      OfKeyFresh(c, limit, k);
    }
  }

  /** A key with a fresh entry in front of a stale one: the fresh one goes, the stale one stays. */
  lemma CullTakesFreshDuplicate()
    ensures var k := XidKey(7, 1, 1);
            var newer: Entry<string> := Entry(k, "retransmitted", 100);
            var older: Entry<string> := Entry(k, "original", 10);
            Cull([], [newer, older], Limit(100)) == ([older], [newer])
  {
    var k := XidKey(7, 1, 1);
    var newer: Entry<string> := Entry(k, "retransmitted", 100);
    var older: Entry<string> := Entry(k, "original", 10);
    assert Limit(100) == 70;
    assert FirstInWalked([newer], older) == 0;
    assert Without([newer] + [older], 0) == [older];
    assert Cull([older], [], 70) == ([older], []);
    assert [older][1..] == [] && [newer, older][1..] == [older];
    assert [] + [newer] == [newer];
    calc {
      Cull([], [newer, older], 70);
      Cull([newer], [older], 70);
      { assert [newer] + [] == [newer]; }
      ([older], [newer]);
    }
  }

  // ----- the whole table

  /** All entries of a list of chains. */
  ghost function Contents<V>(chains: seq<seq<Entry<V>>>): multiset<Entry<V>> {
    if chains == [] then multiset{}
    else Contents(chains[..|chains| - 1]) + multiset(chains[|chains| - 1])
  }

  lemma {:induction false} EmptyContents<V>(n: nat)
    ensures Contents(seq<seq<Entry<V>>>(n, _ => [])) == multiset{}
  {
    if n > 0 {
      var all := seq<seq<Entry<V>>>(n, _ => []);
      assert all[..n - 1] == seq<seq<Entry<V>>>(n - 1, _ => []);
      EmptyContents<V>(n - 1);
    }
  }

  lemma {:induction false} ContentsUpdate<V>(chains: seq<seq<Entry<V>>>, b: nat, c: seq<Entry<V>>)
    requires b < |chains|
    ensures Contents(chains[b := c]) + multiset(chains[b]) == Contents(chains) + multiset(c)
  {
    var last := |chains| - 1;
    if b == last {
      assert chains[b := c][..last] == chains[..last];
    } else {
      assert chains[b := c][..last] == chains[..last][b := c];
      ContentsUpdate(chains[..last], b, c);
      calc {
        Contents(chains[b := c]) + multiset(chains[b]);
        (Contents(chains[..last][b := c]) + multiset(chains[..last][b])) + multiset(chains[last]);
        (Contents(chains[..last]) + multiset(c)) + multiset(chains[last]);
        Contents(chains) + multiset(c);
      }
    }
  }

  lemma {:induction false} ContentsMember<V>(chains: seq<seq<Entry<V>>>, e: Entry<V>)
    ensures e in Contents(chains) <==> exists b :: 0 <= b < |chains| && e in chains[b]
  {
    if chains != [] {
      var last := |chains| - 1;
      ContentsMember(chains[..last], e);
      if e in Contents(chains) && e !in chains[last] {
        var b :| 0 <= b < last && e in chains[..last][b];
        assert e in chains[b];
      }
      if b :| 0 <= b < |chains| && e in chains[b] {
        if b < last {
          assert chains[..last][b] == chains[b];
        }
      }
    }
  }

  /** Every entry sits in the bucket of its own hash, and the counter counts all entries. */
  ghost predicate TableOk<V>(t: Table<V>) {
    && |t.chains| == HASHSIZE
    && t.cullIndex < HASHSIZE
    && (forall b, i :: 0 <= b < HASHSIZE && 0 <= i < |t.chains[b]| ==> Bucket(t.chains[b][i].key) == b)
    && t.elemCnt == |Contents(t.chains)|
  }

  /** The table of a new process. */
  function Empty<V>(): Table<V> {
    Table(seq(HASHSIZE, _ => []), 0, 0)
  }

  /** The list of key `k` in the table, newest first. */
  ghost function Queue<V>(t: Table<V>, k: Key): seq<Entry<V>>
    requires TableOk(t)
  {
    OfKey(t.chains[Bucket(k)], k)
  }

  lemma EmptyOk<V>(k: Key)
    ensures TableOk(Empty<V>()) && Contents(Empty<V>().chains) == multiset{} && Queue(Empty<V>(), k) == []
  {
    EmptyContents<V>(HASHSIZE);
  }

  lemma QueueMember<V>(t: Table<V>, k: Key, e: Entry<V>)
    requires TableOk(t)
    ensures e in Queue(t, k) <==> e in Contents(t.chains) && e.key == k
  {
    OfKeyMember(t.chains[Bucket(k)], k, e);
    ContentsMember(t.chains, e);
    if e in Contents(t.chains) && e.key == k {
      var b :| 0 <= b < HASHSIZE && e in t.chains[b];
      var i :| 0 <= i < |t.chains[b]| && t.chains[b][i] == e;
      assert Bucket(t.chains[b][i].key) == b;
    }
  }

  function Lookup<V>(t: Table<V>, k: Key): (r: (Table<V>, Option<Entry<V>>))
    requires TableOk(t)
  {
    var b := Bucket(k);
    var i := IndexOf(t.chains[b], k);
    if i == |t.chains[b]| then (t, None)
    else (t.(chains := t.chains[b := Without(t.chains[b], i)], elemCnt := t.elemCnt - 1), Some(t.chains[b][i]))
  }

  /** Putting `e` in front of its chain. */
  function Prepend<V>(t: Table<V>, e: Entry<V>): (r: Table<V>)
    requires |t.chains| == HASHSIZE
  {
    var b := Bucket(e.key);
    t.(chains := t.chains[b := [e] + t.chains[b]], elemCnt := t.elemCnt + 1)
  }

  /** The cull of the bucket whose turn it is. Also gives the entries it removed. */
  function CullBucket<V>(t: Table<V>, now: uint32): (r: (Table<V>, seq<Entry<V>>))
    requires |t.chains| == HASHSIZE && t.cullIndex < HASHSIZE
  {
    var (kept, culled) := Cull([], t.chains[t.cullIndex], Limit(now));
    (Table(t.chains[t.cullIndex := kept], (t.cullIndex + 1) % HASHSIZE, t.elemCnt - |culled|), culled)
  }

  function Insert<V>(t: Table<V>, e: Entry<V>): (r: (Table<V>, seq<Entry<V>>))
    requires TableOk(t)
  {
    CullBucket(Prepend(t, e), e.time)
  }

  // ----- what the operations keep, and what they mean per key

  lemma UnlinkOk<V>(t: Table<V>, b: nat, i: nat)
    requires TableOk(t) && b < HASHSIZE && i < |t.chains[b]|
    ensures TableOk(t.(chains := t.chains[b := Without(t.chains[b], i)], elemCnt := t.elemCnt - 1))
  {
    UnlinkContents(t.chains, b, i);
    assert |Contents(t.chains[b := Without(t.chains[b], i)])| == |Contents(t.chains)| - 1;
  }

  lemma LookupOk<V>(t: Table<V>, k: Key)
    requires TableOk(t)
    ensures TableOk(Lookup(t, k).0)
    ensures match Lookup(t, k).1
            case None => Lookup(t, k).0 == t
            case Some(e) => e.key == k && Contents(t.chains) == Contents(Lookup(t, k).0.chains) + multiset{e}
  {
    var b := Bucket(k);
    var i := IndexOf(t.chains[b], k);
    if i < |t.chains[b]| {
      UnlinkOk(t, b, i);
      UnlinkContents(t.chains, b, i);
    }
  }

  lemma UnlinkContents<V>(chains: seq<seq<Entry<V>>>, b: nat, i: nat)
    requires b < |chains| && i < |chains[b]|
    ensures Contents(chains) == Contents(chains[b := Without(chains[b], i)]) + multiset{chains[b][i]}
  {
    var left := Without(chains[b], i);
    WithoutBag(chains[b], i);
    ContentsUpdate(chains, b, left);
    AddCancel(Contents(chains[b := left]), multiset(left), multiset{chains[b][i]}, Contents(chains));
  }

  lemma AddCancel<T>(x: multiset<T>, w: multiset<T>, e: multiset<T>, y: multiset<T>)
    requires x + (w + e) == y + w
    ensures x + e == y
  {
    forall v ensures (x + e)[v] == y[v] {
      assert (x + (w + e))[v] == (y + w)[v];
    }
  }

  /** Lookup pops the newest entry of its key, and leaves every other key alone. */
  lemma LookupPerKey<V>(t: Table<V>, k: Key, k': Key)
    requires TableOk(t)
    ensures TableOk(Lookup(t, k).0)
    ensures Lookup(t, k).1 == if Queue(t, k) == [] then None else Some(Queue(t, k)[0])
    ensures Queue(Lookup(t, k).0, k') == if k' == k && Queue(t, k) != [] then Queue(t, k)[1..] else Queue(t, k')
  {
    LookupOk(t, k);
    var c := t.chains[Bucket(k)];
    if IndexOf(c, k) == |c| {
      OfKeyNone(c, k);
    } else {
      OfKeyWithout(c, k, k');
      if k' != k {
        OfKeyWithout(c, k, k);
      }
    }
  }

  lemma PrependOk<V>(t: Table<V>, e: Entry<V>)
    requires TableOk(t)
    ensures TableOk(Prepend(t, e))
    ensures Contents(Prepend(t, e).chains) == Contents(t.chains) + multiset{e}
  {
    hide Bucket, Contents;
    var b := Bucket(e.key);
    ContentsUpdate(t.chains, b, [e] + t.chains[b]);
    assert multiset([e] + t.chains[b]) == multiset(t.chains[b]) + multiset{e};
    AddCancel(Contents(t.chains), multiset(t.chains[b]), multiset{e}, Contents(Prepend(t, e).chains));
  }

  lemma CullOk<V>(t: Table<V>, now: uint32)
    requires TableOk(t)
    ensures TableOk(CullBucket(t, now).0)
    ensures Contents(t.chains) == Contents(CullBucket(t, now).0.chains) + multiset(CullBucket(t, now).1)
  {
    var c := t.chains[t.cullIndex];
    var (kept, culled) := Cull([], c, Limit(now));
    CullConserves([], c, Limit(now));
    assert multiset(c) == multiset(kept) + multiset(culled);
    ContentsUpdate(t.chains, t.cullIndex, kept);
    var t' := CullBucket(t, now).0;
    AddCancel(Contents(t'.chains), multiset(kept), multiset(culled), Contents(t.chains));
    forall b, i | 0 <= b < HASHSIZE && 0 <= i < |t'.chains[b]|
      ensures Bucket(t'.chains[b][i].key) == b
    {
      if b == t.cullIndex {
        assert kept[i] in multiset(kept);
        assert kept[i] in multiset(c);
      }
    }
  }

  /** Nothing is lost or doubled: the new entry goes in, the culled entries come out. */
  lemma InsertOk<V>(t: Table<V>, e: Entry<V>)
    requires TableOk(t)
    ensures TableOk(Insert(t, e).0)
    ensures Insert(t, e).0.cullIndex == (t.cullIndex + 1) % HASHSIZE
    ensures Contents(t.chains) + multiset{e} == Contents(Insert(t, e).0.chains) + multiset(Insert(t, e).1)
  {
    PrependOk(t, e);
    CullOk(Prepend(t, e), e.time);
  }

  /** The list of key `k` after `e` went in, before the cull. */
  ghost function Pushed<V>(t: Table<V>, e: Entry<V>, k: Key): seq<Entry<V>>
    requires TableOk(t)
  {
    if k == e.key then [e] + Queue(t, k) else Queue(t, k)
  }

  /** Insert pushes on the list of its key; then the cull drops, for the keys of its bucket, newest first. */
  lemma InsertPerKey<V>(t: Table<V>, e: Entry<V>, k: Key)
    requires TableOk(t)
    ensures TableOk(Insert(t, e).0)
    ensures var n := StaleCount(Pushed(t, e, k), Limit(e.time));
            Queue(Insert(t, e).0, k)
            == if Bucket(k) == t.cullIndex then Pushed(t, e, k)[n..] else Pushed(t, e, k)
  {
    hide CullBucket, OfKey, StaleCount, Bucket, Contents, Limit;
    PrependOk(t, e);
    PrependPerKey(t, e, k);
    CullBucketPerKey(Prepend(t, e), e.time, k);
  }

  lemma PrependPerKey<V>(t: Table<V>, e: Entry<V>, k: Key)
    requires TableOk(t) && TableOk(Prepend(t, e))
    ensures Queue(Prepend(t, e), k) == Pushed(t, e, k)
  {
    hide Bucket, Contents;
    OfKeyCons(e, t.chains[Bucket(e.key)], k);
  }

  lemma CullBucketPerKey<V>(t: Table<V>, now: uint32, k: Key)
    requires TableOk(t)
    ensures TableOk(CullBucket(t, now).0)
    ensures Queue(CullBucket(t, now).0, k)
            == if Bucket(k) == t.cullIndex then Queue(t, k)[StaleCount(Queue(t, k), Limit(now))..] else Queue(t, k)
  {
    hide Bucket, Contents, Cull, OfKey, StaleCount, Limit;
    CullOk(t, now);
    if Bucket(k) == t.cullIndex {
      var c := t.chains[t.cullIndex];
      assert [] + c == c;
      CullPerKey([], c, Limit(now), k);
    }
  }

  /**
   * An insert never culls its own entry, except when its own bucket is the one
   * being culled and a stale entry has the same key (the new entry itself is
   * stale when the unsigned limit has wrapped). Otherwise the table has one
   * more entry like it than before.
   */
  lemma InsertKeepsOwnIff<V>(t: Table<V>, e: Entry<V>)
    requires TableOk(t)
    ensures var kept := Bucket(e.key) != t.cullIndex || StaleCount(Pushed(t, e, e.key), Limit(e.time)) == 0;
            && (e !in Insert(t, e).1 <==> kept)
            && (Contents(Insert(t, e).0.chains)[e] == Contents(t.chains)[e] + 1 <==> kept)
  {
    CulledOfKey(t, e, e.key);
    InsertOk(t, e);
    var (t', culled) := Insert(t, e);
    OfKeyMember(culled, e.key, e);
    hide Insert, Queue, StaleCount, Contents, Limit, OfKey, TableOk;
    var n := StaleCount(Pushed(t, e, e.key), Limit(e.time));
    if Bucket(e.key) == t.cullIndex && n > 0 {
      assert OfKey(culled, e.key)[0] == Pushed(t, e, e.key)[0] == e;
      assert e in OfKey(culled, e.key);
    }
    assert (Contents(t.chains) + multiset{e})[e] == (Contents(t'.chains) + multiset(culled))[e];
    assert e in culled <==> multiset(culled)[e] > 0;
  }

  /** What an insert culls: of each key of its bucket the newest, as many as were stale. */
  lemma CulledOfKey<V>(t: Table<V>, e: Entry<V>, k: Key)
    requires TableOk(t)
    ensures var n := StaleCount(Pushed(t, e, k), Limit(e.time));
            n <= |Pushed(t, e, k)|
            && OfKey(Insert(t, e).1, k) == if Bucket(k) == t.cullIndex then Pushed(t, e, k)[..n] else []
  {
    PrependOk(t, e);
    PrependPerKey(t, e, k);
    var t1 := Prepend(t, e);
    var c := t1.chains[t1.cullIndex];
    CullPerKey([], c, Limit(e.time), k);
    assert [] + c == c;
    hide OfKey, StaleCount, Limit, Contents, Cull;
    if Bucket(k) != t.cullIndex {
      NoneOfKey(c, t.cullIndex, k);
    }
  }

  lemma {:induction false} NoneOfKey<V>(c: seq<Entry<V>>, b: nat, k: Key)
    requires Bucket(k) != b && forall i :: 0 <= i < |c| ==> Bucket(c[i].key) == b
    ensures OfKey(c, k) == []
  {
    hide Bucket;
    if c != [] {
      NoneOfKey(c[1..], b, k);
    }
  }

  // ----- bounded staleness over runs

  datatype Op<V> = Find(key: Key) | Add(entry: Entry<V>)

  ghost function Apply<V>(t: Table<V>, op: Op<V>): (r: Table<V>)
    requires TableOk(t)
    ensures TableOk(r)
  {
    match op
    case Find(k) => LookupOk(t, k); Lookup(t, k).0
    case Add(e) => InsertOk(t, e); Insert(t, e).0
  }

  ghost function Run<V>(t: Table<V>, ops: seq<Op<V>>): (r: Table<V>)
    requires TableOk(t)
    ensures TableOk(r)
    decreases |ops|
  {
    if ops == [] then t else Run(Apply(t, ops[0]), ops[1..])
  }

  ghost function Adds<V>(ops: seq<Op<V>>): nat {
    if ops == [] then 0 else (if ops[0].Add? then 1 else 0) + Adds(ops[1..])
  }

  /** No key of the bucket that the insert culls has a stale entry behind a fresh one. */
  ghost predicate Tidy<V>(t: Table<V>, e: Entry<V>)
    requires TableOk(t)
  {
    forall k :: Bucket(k) == t.cullIndex ==> StaleFirst(Pushed(t, e, k), Limit(e.time))
  }

  /** Every insert of the run happens at time `since` or later, and finds a tidy bucket to cull. */
  ghost predicate TidyRun<V>(t: Table<V>, ops: seq<Op<V>>, since: nat)
    requires TableOk(t)
    decreases |ops|
  {
    ops == [] ||
    (&& (ops[0].Add? ==> since <= ops[0].entry.time && MAX_AGE <= ops[0].entry.time && Tidy(t, ops[0].entry))
     && TidyRun(Apply(t, ops[0]), ops[1..], since))
  }

  /** The bucket culled `j + 1` inserts ago. */
  function CulledAgo(cullIndex: nat, j: nat): (b: nat)
    requires cullIndex < HASHSIZE && j < HASHSIZE
    ensures b < HASHSIZE
  {
    (cullIndex + HASHSIZE - 1 - j) % HASHSIZE
  }

  ghost predicate NoneOlder<V>(c: seq<Entry<V>>, limit: int) {
    forall e :: e in c ==> e.time >= limit
  }

  ghost predicate CleanWindow<V>(t: Table<V>, n: nat, limit: int)
    requires TableOk(t)
  {
    forall j {:trigger CulledAgo(t.cullIndex, j)} ::
      0 <= j < n && j < HASHSIZE ==> NoneOlder(t.chains[CulledAgo(t.cullIndex, j)], limit)
  }

  lemma InChain<V>(t: Table<V>, b: nat, x: Entry<V>)
    requires TableOk(t)
    requires b < HASHSIZE
    ensures x in t.chains[b] <==> Bucket(x.key) == b && x in Queue(t, x.key)
  {
    OfKeyMember(t.chains[b], x.key, x);
    OfKeyMember(t.chains[Bucket(x.key)], x.key, x);
  }

  /** The per-key meaning of an operation, with the table's representation left out. */
  ghost predicate Inserted<V>(t: Table<V>, e: Entry<V>, t': Table<V>)
    requires TableOk(t) && TableOk(t')
  {
    forall k :: Queue(t', k) == var q := Pushed(t, e, k);
                                if Bucket(k) == t.cullIndex then q[StaleCount(q, Limit(e.time))..] else q
  }

  lemma InsertMeaning<V>(t: Table<V>, e: Entry<V>)
    requires TableOk(t)
    ensures TableOk(Insert(t, e).0) && Inserted(t, e, Insert(t, e).0)
  {
    InsertOk(t, e);
    forall k {
      InsertPerKey(t, e, k);
    }
  }

  /** One insert: the culled bucket, if it is tidy, is clean afterwards, and a clean bucket stays clean. */
  lemma AddClean<V>(t: Table<V>, e: Entry<V>, t': Table<V>, since: nat, b: nat)
    requires TableOk(t) && Tidy(t, e) && TableOk(t') && Inserted(t, e, t')
    requires since <= e.time && MAX_AGE <= e.time
    requires b < HASHSIZE
    requires b == t.cullIndex || NoneOlder(t.chains[b], since - MAX_AGE)
    ensures NoneOlder(t'.chains[b], since - MAX_AGE)
  {
    hide Bucket, Tidy, Inserted, Pushed, OfKey, Contents;
    forall x | x in t'.chains[b] ensures x.time >= since - MAX_AGE {
      InChain(t', b, x);
      AddCleanEntry(t, e, t', x);
      if b != t.cullIndex {
        InChain(t, b, x);
      }
    }
  }

  lemma AddCleanEntry<V>(t: Table<V>, e: Entry<V>, t': Table<V>, x: Entry<V>)
    requires TableOk(t) && Tidy(t, e) && TableOk(t') && Inserted(t, e, t')
    requires x in Queue(t', x.key)
    ensures x == e || x in Queue(t, x.key)
    ensures Bucket(x.key) == t.cullIndex ==> x.time >= Limit(e.time)
  {
    hide Bucket, Queue, Contents, TableOk, Limit, StaleCount, StaleFirst;
    var q := Pushed(t, e, x.key);
    assert x in q;
    if Bucket(x.key) == t.cullIndex {
      DropIsFresh(q, Limit(e.time));
      FreshMember(q, Limit(e.time), x);
    }
  }

  lemma FindKeeps<V>(t: Table<V>, k: Key, b: nat, limit: int)
    requires TableOk(t) && b < HASHSIZE
    ensures TableOk(Lookup(t, k).0) && Lookup(t, k).0.cullIndex == t.cullIndex
    ensures NoneOlder(t.chains[b], limit) ==> NoneOlder(Lookup(t, k).0.chains[b], limit)
  {
    hide Bucket, Contents, OfKey, IndexOf;
    LookupOk(t, k);
  }

  lemma AddCleanWindow<V>(t: Table<V>, e: Entry<V>, t': Table<V>, n: nat, since: nat)
    requires TableOk(t) && Tidy(t, e) && TableOk(t') && Inserted(t, e, t')
    requires since <= e.time && MAX_AGE <= e.time
    requires t'.cullIndex == (t.cullIndex + 1) % HASHSIZE
    requires CleanWindow(t, n, since - MAX_AGE)
    ensures CleanWindow(t', n + 1, since - MAX_AGE)
  {
    hide Bucket, Tidy, Inserted, Pushed, StaleCount, OfKey, NoneOlder, Contents;
    forall j {:trigger CulledAgo(t'.cullIndex, j)} | 0 <= j < n + 1 && j < HASHSIZE
      ensures NoneOlder(t'.chains[CulledAgo(t'.cullIndex, j)], since - MAX_AGE)
    {
      if j > 0 {
        assert CulledAgo(t'.cullIndex, j) == CulledAgo(t.cullIndex, j - 1);
      }
      AddClean(t, e, t', since, CulledAgo(t'.cullIndex, j));
    }
  }

  lemma CleanStep<V>(t: Table<V>, op: Op<V>, n: nat, since: nat)
    requires TableOk(t) && TidyRun(t, [op], since)
    requires CleanWindow(t, n, since - MAX_AGE)
    ensures CleanWindow(Apply(t, op), n + Adds([op]), since - MAX_AGE)
  {
    match op
    case Find(k) =>
      var t' := Lookup(t, k).0;
      FindKeeps(t, k, 0, 0);
      forall j {:trigger CulledAgo(t'.cullIndex, j)} | 0 <= j < n && j < HASHSIZE
        ensures NoneOlder(t'.chains[CulledAgo(t'.cullIndex, j)], since - MAX_AGE)
      {
        FindKeeps(t, k, CulledAgo(t.cullIndex, j), since - MAX_AGE);
      }
    case Add(e) =>
      InsertMeaning(t, e);
      InsertOk(t, e);
      AddCleanWindow(t, e, Insert(t, e).0, n, since);
  }

  lemma {:induction false} CleanRun<V>(t: Table<V>, ops: seq<Op<V>>, n: nat, since: nat)
    requires TableOk(t) && TidyRun(t, ops, since)
    requires CleanWindow(t, n, since - MAX_AGE)
    ensures CleanWindow(Run(t, ops), n + Adds(ops), since - MAX_AGE)
    decreases |ops|
  {
    if ops != [] {
      CleanStep(t, ops[0], n, since);
      CleanRun(Apply(t, ops[0]), ops[1..], n + Adds([ops[0]]), since);
    }
  }

  lemma CleanAll<V>(t: Table<V>, n: nat, limit: int, e: Entry<V>)
    requires TableOk(t) && CleanWindow(t, n, limit) && n >= HASHSIZE
    requires e in Contents(t.chains)
    ensures e.time >= limit
  {
    ContentsMember(t.chains, e);
    var b :| 0 <= b < HASHSIZE && e in t.chains[b];
    var j := AgoOfBucket(t.cullIndex, b);
    assert NoneOlder(t.chains[CulledAgo(t.cullIndex, j)], limit);
  }

  lemma AgoOfBucket(cullIndex: nat, b: nat) returns (j: nat)
    requires cullIndex < HASHSIZE && b < HASHSIZE
    ensures j < HASHSIZE && CulledAgo(cullIndex, j) == b
  {
    j := if b < cullIndex then cullIndex - 1 - b else cullIndex + HASHSIZE - 1 - b;
  }

  /**
   * Garbage cannot hide: once HASHSIZE inserts have happened since time `since`
   * (with any lookups in between), no entry older than `since` - 30 seconds is
   * left in any bucket, as long as each bucket was tidy when it was culled.
   */
  lemma BoundedStaleness<V>(t: Table<V>, ops: seq<Op<V>>, since: nat)
    requires TableOk(t) && TidyRun(t, ops, since)
    requires Adds(ops) >= HASHSIZE
    ensures forall e :: e in Contents(Run(t, ops).chains) ==> e.time >= since - MAX_AGE
  {
    CleanRun(t, ops, 0, since);
    forall e | e in Contents(Run(t, ops).chains) ensures e.time >= since - MAX_AGE {
      CleanAll(Run(t, ops), Adds(ops), since - MAX_AGE, e);
    }
  }

  // ----- the case of unique keys

  ghost predicate UniqueKeys<V>(t: Table<V>)
    requires TableOk(t)
  {
    forall k :: |Queue(t, k)| <= 1
  }

  /** Every insert of the run happens at time `since` or later, and under a key not in the table then. */
  ghost predicate FreshKeyRun<V>(t: Table<V>, ops: seq<Op<V>>, since: nat)
    requires TableOk(t)
    decreases |ops|
  {
    ops == [] ||
    (&& (ops[0].Add? ==> since <= ops[0].entry.time && MAX_AGE <= ops[0].entry.time
                         && Queue(t, ops[0].entry.key) == [])
     && FreshKeyRun(Apply(t, ops[0]), ops[1..], since))
  }

  lemma UniqueStep<V>(t: Table<V>, op: Op<V>)
    requires TableOk(t) && UniqueKeys(t) && (op.Add? ==> Queue(t, op.entry.key) == [])
    ensures UniqueKeys(Apply(t, op))
    ensures op.Add? ==> Tidy(t, op.entry)
  {
    hide TableOk, Queue, Insert, Lookup, Limit, Bucket, StaleCount;
    match op
    case Find(k) =>
      forall k' ensures |Queue(Apply(t, op), k')| <= 1 {
        LookupPerKey(t, k, k');
        assert |Queue(t, k')| <= 1;
      }
    case Add(e) =>
      forall k' ensures |Queue(Apply(t, op), k')| <= 1 && |Pushed(t, e, k')| <= 1 {
        InsertPerKey(t, e, k');
        assert |Queue(t, k')| <= 1;
      }
  }

  /** A run that never inserts a key already there never finds an untidy bucket. */
  lemma {:induction false} UniqueRunTidy<V>(t: Table<V>, ops: seq<Op<V>>, since: nat)
    requires TableOk(t) && UniqueKeys(t) && FreshKeyRun(t, ops, since)
    ensures TidyRun(t, ops, since)
    decreases |ops|
  {
    hide TableOk, UniqueKeys, Queue, Apply, Tidy;
    if ops != [] {
      UniqueStep(t, ops[0]);
      UniqueRunTidy(Apply(t, ops[0]), ops[1..], since);
    }
  }
}
