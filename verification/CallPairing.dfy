/**
 * Which call a reply is taken to answer, over whole runs: the latest earlier
 * call of its key that no reply in between has answered.
 */
module CallPairing {
  import opened Words
  import opened Options
  import opened TableKeys
  import opened AgingChains
  import opened RpcHeader
  import opened Ownership
  import opened PacketSteps

  // ----- in terms of the operations alone

  ghost predicate IsAdd<V>(ops: seq<Op<V>>, i: nat, k: Key) {
    i < |ops| && ops[i].Add? && ops[i].entry.key == k
  }

  /** Insert `i` has been answered by none of the lookups before operation `j`. */
  ghost predicate Open<V>(ops: seq<Op<V>>, j: nat, i: nat, k: Key)
    decreases j, 0
  {
    i < j && IsAdd(ops, i, k) && forall j' :: i < j' < j ==> !Answers(ops, j', i, k)
  }

  /** Lookup `j` answers insert `i`: of the open inserts of its key it is the latest. */
  ghost predicate Answers<V>(ops: seq<Op<V>>, j: nat, i: nat, k: Key)
    decreases j, 1
  {
    && j < |ops| && ops[j] == Find(k) && IsAdd(ops, i, k)
    && Open(ops, j, i, k) && forall i' :: i < i' < j ==> !Open(ops, j, i', k)
  }

  /**
   * Before operation `j` no insert of the key, while it is open, is so old that
   * another insert would count it as stale.
   */
  ghost predicate Current<V>(ops: seq<Op<V>>, j: nat, k: Key)
    requires j <= |ops|
  {
    forall m: nat, i: nat :: m < j && ops[m].Add? && IsAdd(ops, i, k) && (i == m || Open(ops, m, i, k)) ==>
      ops[i].entry.time >= Limit(ops[m].entry.time)
  }

  lemma CurrentBefore<V>(ops: seq<Op<V>>, j: nat, j': nat, k: Key)
    requires j' <= j <= |ops| && Current(ops, j, k)
    ensures Current(ops, j', k)
  {
    hide IsAdd, Open, Limit;
  }

  /** The open inserts, latest first. */
  ghost function OpenList<V>(ops: seq<Op<V>>, j: nat, k: Key): (r: seq<nat>)
    requires j <= |ops|
    ensures forall n :: 0 <= n < |r| ==> r[n] < j && IsAdd(ops, r[n], k)
    decreases j
  {
    hide IsAdd;
    if j == 0 then []
    else
      var before := OpenList(ops, j - 1, k);
      if ops[j - 1] == Find(k) then (if before == [] then [] else before[1..])
      else if IsAdd(ops, j - 1, k) then [j - 1] + before
      else before
  }

  ghost predicate Descending(r: seq<nat>) {
    forall a, b :: 0 <= a < b < |r| ==> r[b] < r[a]
  }

  lemma {:induction false} OpenListDescends<V>(ops: seq<Op<V>>, j: nat, k: Key)
    requires j <= |ops|
    ensures Descending(OpenList(ops, j, k))
    decreases j
  {
    if j > 0 {
      OpenListDescends(ops, j - 1, k);
      var before := OpenList(ops, j - 1, k);
      assert Descending([j - 1] + before);
      assert before != [] ==> Descending(before[1..]);
    }
  }

  lemma OpenStep<V>(ops: seq<Op<V>>, j: nat, i: nat, k: Key)
    requires 0 < j <= |ops|
    ensures Open(ops, j, i, k)
            <==> (Open(ops, j - 1, i, k) && !Answers(ops, j - 1, i, k)) || (i == j - 1 && IsAdd(ops, i, k))
  {
  }

  lemma OpenListMember<V>(ops: seq<Op<V>>, j: nat, i: nat, k: Key)
    requires 0 < j <= |ops|
    ensures var before := OpenList(ops, j - 1, k);
            i in OpenList(ops, j, k)
            <==> (i in before && !(ops[j - 1] == Find(k) && before[0] == i)) || (i == j - 1 && IsAdd(ops, i, k))
  {
    OpenListDescends(ops, j - 1, k);
    var before := OpenList(ops, j - 1, k);
    if ops[j - 1] == Find(k) && before != [] {
      assert before == [before[0]] + before[1..];
      assert before[0] !in before[1..];
    }
  }

  lemma {:induction false} OpenListIs<V>(ops: seq<Op<V>>, j: nat, k: Key)
    requires j <= |ops|
    ensures forall i: nat :: i in OpenList(ops, j, k) <==> Open(ops, j, i, k)
    decreases j
  {
    hide IsAdd, Open, OpenList, Answers;
    if j == 0 {
      forall i: nat ensures i !in OpenList(ops, 0, k) && !Open(ops, 0, i, k) {
        NoneOpen(ops, i, k);
      }
    } else {
      OpenListIs(ops, j - 1, k);
      forall i: nat ensures i in OpenList(ops, j, k) <==> Open(ops, j, i, k) {
        OpenStep(ops, j, i, k);
        OpenListMember(ops, j, i, k);
        if ops[j - 1] == Find(k) {
          HeadAnswers(ops, j - 1, i, k);
        } else {
          FindAnswers(ops, j - 1, i, k);
        }
      }
    }
  }

  lemma NoneOpen<V>(ops: seq<Op<V>>, i: nat, k: Key)
    ensures OpenList(ops, 0, k) == [] && !Open(ops, 0, i, k)
  {
  }

  lemma FindAnswers<V>(ops: seq<Op<V>>, j: nat, i: nat, k: Key)
    requires j < |ops| && ops[j] != Find(k)
    ensures !Answers(ops, j, i, k)
  {
  }

  /** The lookup answers the first of the list, and nothing else. */
  lemma HeadAnswers<V>(ops: seq<Op<V>>, j: nat, i: nat, k: Key)
    requires j < |ops| && ops[j] == Find(k)
    requires forall i: nat :: i in OpenList(ops, j, k) <==> Open(ops, j, i, k)
    ensures Answers(ops, j, i, k) <==> OpenList(ops, j, k) != [] && OpenList(ops, j, k)[0] == i
  {
    hide Open, OpenList, IsAdd;
    OpenListDescends(ops, j, k);
    var r := OpenList(ops, j, k);
    if r != [] {
      assert r[0] in r && Open(ops, j, r[0], k);
      assert forall a :: 0 <= a < |r| ==> a == 0 || r[a] < r[0];
      assert forall x :: x in r ==> x <= r[0];
    }
  }

  ghost predicate AllAdds<V>(ops: seq<Op<V>>, xs: seq<nat>) {
    forall n :: 0 <= n < |xs| ==> xs[n] < |ops| && ops[xs[n]].Add?
  }

  ghost function EntriesAt<V>(ops: seq<Op<V>>, xs: seq<nat>): (r: seq<Entry<V>>)
    requires AllAdds(ops, xs)
    ensures |r| == |xs| && forall n :: 0 <= n < |r| ==> r[n] == ops[xs[n]].entry
  {
    seq(|xs|, n requires 0 <= n < |xs| => ops[xs[n]].entry)
  }

  lemma {:induction false} RunOneMore<V>(t: Table<V>, ops: seq<Op<V>>, j: nat)
    requires TableOk(t) && 0 < j <= |ops|
    ensures Run(t, ops[..j]) == Apply(Run(t, ops[..j - 1]), ops[j - 1])
  {
    hide TableOk, Apply;
    assert ops[..j] == ops[..j - 1] + [ops[j - 1]];
    RunConcat(t, ops[..j - 1], [ops[j - 1]]);
  }

  lemma {:induction false} RunConcat<V>(t: Table<V>, a: seq<Op<V>>, b: seq<Op<V>>)
    requires TableOk(t)
    ensures Run(t, a + b) == Run(Run(t, a), b)
    decreases |a|
  {
    hide TableOk, Apply;
    if a == [] {
      assert a + b == b;
    } else {
      assert (a + b)[0] == a[0] && (a + b)[1..] == a[1..] + b;
      RunConcat(Apply(t, a[0]), a[1..], b);
    }
  }

  // ----- what is in the table, whatever has aged out of it

  ghost predicate AddsBefore<V>(ops: seq<Op<V>>, xs: seq<nat>, j: nat, k: Key) {
    forall n :: 0 <= n < |xs| ==> xs[n] < j && IsAdd(ops, xs[n], k)
  }

  lemma AddsBeforeAreAdds<V>(ops: seq<Op<V>>, xs: seq<nat>, j: nat, k: Key)
    requires AddsBefore(ops, xs, j, k)
    ensures AllAdds(ops, xs)
  {
  }

  /** Operation `m` on a list of inserts; `turn` tells whether an insert culls the bucket of the key. */
  ghost function TrackStep<V>(ops: seq<Op<V>>, before: seq<nat>, m: nat, k: Key, turn: bool): (r: seq<nat>)
    requires m < |ops| && AddsBefore(ops, before, m, k)
    ensures AddsBefore(ops, r, m + 1, k)
  {
    hide StaleCount, Limit;
    match ops[m]
    case Find(k') => if k' == k && before != [] then before[1..] else before
    case Add(e) =>
      var pushed := if e.key == k then [m] + before else before;
      AddsBeforeAreAdds(ops, pushed, m + 1, k);
      if turn then pushed[StaleCount(EntriesAt(ops, pushed), Limit(e.time))..] else pushed
  }

  /** The inserts whose entries the table has for the key, latest first. */
  ghost function Tracked<V>(t: Table<V>, ops: seq<Op<V>>, j: nat, k: Key): (r: seq<nat>)
    requires TableOk(t) && j <= |ops|
    ensures AddsBefore(ops, r, j, k) && AllAdds(ops, r)
    decreases j
  {
    hide TableOk, Bucket, TrackStep, Run;
    if j == 0 then []
    else
      var r := TrackStep(ops, Tracked(t, ops, j - 1, k), j - 1, k, Bucket(k) == Run(t, ops[..j - 1]).cullIndex);
      AddsBeforeAreAdds(ops, r, j, k);
      r
  }

  lemma {:induction false} QueueIsTracked<V>(t: Table<V>, ops: seq<Op<V>>, j: nat, k: Key)
    requires TableOk(t) && Queue(t, k) == [] && j <= |ops|
    ensures TableOk(Run(t, ops[..j]))
    ensures Queue(Run(t, ops[..j]), k) == EntriesAt(ops, Tracked(t, ops, j, k))
    decreases j
  {
    hide TableOk, Queue, Apply, IsAdd, Tracked, EntriesAt;
    if j == 0 {
      assert ops[..0] == [];
      NothingTracked(t, ops, k);
    } else {
      QueueIsTracked(t, ops, j - 1, k);
      RunOneMore(t, ops, j);
      TrackedStep(t, ops, j, k);
    }
  }

  lemma NothingTracked<V>(t: Table<V>, ops: seq<Op<V>>, k: Key)
    requires TableOk(t)
    ensures Tracked(t, ops, 0, k) == [] && EntriesAt(ops, []) == []
  {
  }

  lemma TrackedStep<V>(t: Table<V>, ops: seq<Op<V>>, j: nat, k: Key)
    requires TableOk(t) && 0 < j <= |ops|
    requires Queue(Run(t, ops[..j - 1]), k) == EntriesAt(ops, Tracked(t, ops, j - 1, k))
    ensures Queue(Apply(Run(t, ops[..j - 1]), ops[j - 1]), k) == EntriesAt(ops, Tracked(t, ops, j, k))
  {
    hide TableOk, Queue, Lookup, Insert, Bucket, Limit, StaleCount, Run, TrackStep, EntriesAt, AddsBefore;
    var u := Run(t, ops[..j - 1]);
    var before := Tracked(t, ops, j - 1, k);
    TrackStepEntries(ops, before, j - 1, k, Bucket(k) == u.cullIndex);
    match ops[j - 1] {
      case Find(k') => LookupPerKey(u, k', k);
      case Add(e) => InsertPerKey(u, e, k);
    }
  }

  /** The list changes as the table's list does. */
  lemma TrackStepEntries<V>(ops: seq<Op<V>>, before: seq<nat>, m: nat, k: Key, turn: bool)
    requires m < |ops| && AddsBefore(ops, before, m, k) && AllAdds(ops, before)
    ensures AllAdds(ops, TrackStep(ops, before, m, k, turn))
    ensures var q := EntriesAt(ops, before);
            EntriesAt(ops, TrackStep(ops, before, m, k, turn))
            == match ops[m]
               case Find(k') => if k' == k && q != [] then q[1..] else q
               case Add(e) =>
                 var pushed := if e.key == k then [e] + q else q;
                 if turn then pushed[StaleCount(pushed, Limit(e.time))..] else pushed
  {
    hide StaleCount, Limit, EntriesAt, AllAdds, AddsBefore;
    AddsBeforeAreAdds(ops, TrackStep(ops, before, m, k, turn), m + 1, k);
    match ops[m] {
      case Find(_) =>
        if before != [] {
          EntriesDrop(ops, before, 1);
        }
      case Add(e) =>
        var pushed := if e.key == k then [m] + before else before;
        if e.key == k {
          EntriesCons(ops, m, before);
        }
        EntriesDrop(ops, pushed, StaleCount(EntriesAt(ops, pushed), Limit(e.time)));
    }
  }

  lemma EntriesCons<V>(ops: seq<Op<V>>, m: nat, xs: seq<nat>)
    requires m < |ops| && ops[m].Add? && AllAdds(ops, xs)
    ensures AllAdds(ops, [m] + xs) && EntriesAt(ops, [m] + xs) == [ops[m].entry] + EntriesAt(ops, xs)
  {
  }

  lemma EntriesDrop<V>(ops: seq<Op<V>>, xs: seq<nat>, n: nat)
    requires AllAdds(ops, xs) && n <= |xs|
    ensures AllAdds(ops, xs[n..]) && EntriesAt(ops, xs[n..]) == EntriesAt(ops, xs)[n..]
  {
  }

  /** As long as nothing of the key is stale, those are the open inserts. */
  lemma {:induction false} TrackedIsOpen<V>(t: Table<V>, ops: seq<Op<V>>, j: nat, k: Key)
    requires TableOk(t) && j <= |ops| && Current(ops, j, k)
    ensures Tracked(t, ops, j, k) == OpenList(ops, j, k)
    decreases j
  {
    hide TableOk, Current, IsAdd, Bucket, Run, AddsBefore, OpenList, TrackStep;
    if j == 0 {
      NoneOpen(ops, 0, k);
    } else {
      CurrentBefore(ops, j, j - 1, k);
      TrackedIsOpen(t, ops, j - 1, k);
      StepIsOpen(ops, j, k, Bucket(k) == Run(t, ops[..j - 1]).cullIndex);
    }
  }

  lemma StepIsOpen<V>(ops: seq<Op<V>>, j: nat, k: Key, turn: bool)
    requires 0 < j <= |ops| && Current(ops, j, k) && AddsBefore(ops, OpenList(ops, j - 1, k), j - 1, k)
    ensures TrackStep(ops, OpenList(ops, j - 1, k), j - 1, k, turn) == OpenList(ops, j, k)
  {
    hide Current, Open, IsAdd, Limit, StaleCount, EntriesAt, AddsBefore, AllAdds;
    IsAddIs(ops, j - 1, k);
    if ops[j - 1].Add? {
      NothingStaleNow(ops, j, k);
    }
  }

  lemma IsAddIs<V>(ops: seq<Op<V>>, i: nat, k: Key)
    requires i < |ops|
    ensures IsAdd(ops, i, k) <==> ops[i].Add? && ops[i].entry.key == k
  {
  }

  lemma NothingStaleNow<V>(ops: seq<Op<V>>, j: nat, k: Key)
    requires 0 < j <= |ops| && ops[j - 1].Add? && Current(ops, j, k)
    ensures var before := OpenList(ops, j - 1, k);
            var pushed := if IsAdd(ops, j - 1, k) then [j - 1] + before else before;
            AllAdds(ops, pushed) && StaleCount(EntriesAt(ops, pushed), Limit(ops[j - 1].entry.time)) == 0
  {
    hide StaleCount, Limit, Open, OpenList;
    OpenListIs(ops, j - 1, k);
    var before := OpenList(ops, j - 1, k);
    var pushed := if IsAdd(ops, j - 1, k) then [j - 1] + before else before;
    var limit := Limit(ops[j - 1].entry.time);
    forall n | 0 <= n < |pushed| ensures ops[pushed[n]].entry.time >= limit {
      assert pushed[n] == j - 1 || pushed[n] in before;
    }
    AllFresh(EntriesAt(ops, pushed), limit);
  }

  /** As long as nothing of the key is stale, the table's list of the key consists of the open inserts. */
  lemma QueueIsOpen<V>(t: Table<V>, ops: seq<Op<V>>, j: nat, k: Key)
    requires TableOk(t) && Queue(t, k) == [] && j <= |ops| && Current(ops, j, k)
    ensures TableOk(Run(t, ops[..j]))
    ensures Queue(Run(t, ops[..j]), k) == EntriesAt(ops, OpenList(ops, j, k))
  {
    hide TableOk, Queue, Current, Tracked, OpenList, EntriesAt, IsAdd;
    QueueIsTracked(t, ops, j, k);
    TrackedIsOpen(t, ops, j, k);
  }

  /** Lookup `j` takes the entry of insert `i` out of the table. */
  ghost predicate Takes<V>(t: Table<V>, ops: seq<Op<V>>, j: nat, i: nat, k: Key)
    requires TableOk(t)
  {
    && j < |ops| && ops[j] == Find(k)
    && Tracked(t, ops, j, k) != [] && Tracked(t, ops, j, k)[0] == i
  }

  lemma TakesMeaning<V>(t: Table<V>, ops: seq<Op<V>>, j: nat, i: nat, k: Key)
    requires TableOk(t) && Takes(t, ops, j, i, k)
    ensures i < j && IsAdd(ops, i, k)
  {
    hide TableOk, IsAdd;
  }

  /** What a lookup finds is the entry of the insert that it takes. */
  lemma FindsTaken<V>(t: Table<V>, ops: seq<Op<V>>, j: nat, k: Key)
    requires TableOk(t) && Queue(t, k) == [] && j < |ops| && ops[j] == Find(k)
    ensures TableOk(Run(t, ops[..j]))
    ensures var found := Lookup(Run(t, ops[..j]), k).1;
            && (forall i: nat :: Takes(t, ops, j, i, k) ==> IsAdd(ops, i, k) && found == Some(ops[i].entry))
            && (found.Some? ==> exists i: nat :: Takes(t, ops, j, i, k))
  {
    hide TableOk, Queue, Lookup, Tracked, IsAdd;
    QueueIsTracked(t, ops, j, k);
    LookupPerKey(Run(t, ops[..j]), k, k);
    var xs := Tracked(t, ops, j, k);
    if xs != [] {
      assert Takes(t, ops, j, xs[0], k);
    }
  }

  lemma {:induction false} TrackedDescends<V>(t: Table<V>, ops: seq<Op<V>>, j: nat, k: Key)
    requires TableOk(t) && j <= |ops|
    ensures Descending(Tracked(t, ops, j, k))
    decreases j
  {
    hide TableOk, Bucket, Run, TrackStep, AddsBefore, Descending, IsAdd;
    if j == 0 {
      NothingDescends();
    } else {
      TrackedDescends(t, ops, j - 1, k);
      TrackStepDescends(ops, Tracked(t, ops, j - 1, k), j - 1, k, Bucket(k) == Run(t, ops[..j - 1]).cullIndex);
    }
  }

  lemma NothingDescends()
    ensures Descending([])
  {
  }

  lemma TrackStepDescends<V>(ops: seq<Op<V>>, before: seq<nat>, m: nat, k: Key, turn: bool)
    requires m < |ops| && AddsBefore(ops, before, m, k) && Descending(before)
    ensures Descending(TrackStep(ops, before, m, k, turn))
    ensures forall i: nat :: i < m && i in TrackStep(ops, before, m, k, turn) ==> i in before
  {
    hide StaleCount, Limit, IsAdd, Descending;
    PushDescends(m, before);
    var r := TrackStep(ops, before, m, k, turn);
    match ops[m] {
      case Find(_) =>
        DropDescends(before);
      case Add(e) =>
        DropDescends(if e.key == k then [m] + before else before);
    }
  }

  lemma PushDescends(m: nat, r: seq<nat>)
    requires Descending(r) && forall n :: 0 <= n < |r| ==> r[n] < m
    ensures Descending([m] + r)
    ensures forall i :: i in [m] + r ==> i == m || i in r
  {
  }

  lemma DropDescends(r: seq<nat>)
    requires Descending(r)
    ensures forall n :: 0 <= n <= |r| ==> Descending(r[n..]) && forall x :: x in r[n..] ==> x in r
  {
  }

  /** What is not in the table any more does not come back. */
  lemma {:induction false} GoneForGood<V>(t: Table<V>, ops: seq<Op<V>>, j: nat, j': nat, i: nat, k: Key)
    requires TableOk(t) && i < j <= j' <= |ops| && i !in Tracked(t, ops, j, k)
    ensures i !in Tracked(t, ops, j', k)
    decreases j'
  {
    hide TableOk, Bucket, Run, TrackStep, AddsBefore, Descending, IsAdd;
    if j < j' {
      GoneForGood(t, ops, j, j' - 1, i, k);
      TrackedDescends(t, ops, j' - 1, k);
      TrackStepDescends(ops, Tracked(t, ops, j' - 1, k), j' - 1, k, Bucket(k) == Run(t, ops[..j' - 1]).cullIndex);
    }
  }

  /** No insert is taken twice, and no lookup takes two, whatever ages out. */
  lemma TakenOnce<V>(t: Table<V>, ops: seq<Op<V>>, j: nat, j': nat, i: nat, i': nat, k: Key)
    requires TableOk(t) && Takes(t, ops, j, i, k) && Takes(t, ops, j', i', k) && j <= j'
    ensures j == j' <==> i == i'
  {
    hide TableOk, IsAdd, Bucket, Run, AddsBefore;
    TakesMeaning(t, ops, j, i, k);
    if j < j' {
      TrackedDescends(t, ops, j, k);
      var r := Tracked(t, ops, j, k);
      assert i !in r[1..];
      assert Tracked(t, ops, j + 1, k) == r[1..];
      GoneForGood(t, ops, j + 1, j', i, k);
    }
  }

  /** What a lookup finds: the entry of the insert that it answers, and nothing if it answers none. */
  lemma FindsLatestOpen<V>(t: Table<V>, ops: seq<Op<V>>, j: nat, k: Key)
    requires TableOk(t) && Queue(t, k) == [] && j < |ops| && ops[j] == Find(k) && Current(ops, j, k)
    ensures TableOk(Run(t, ops[..j]))
    ensures var found := Lookup(Run(t, ops[..j]), k).1;
            && (forall i: nat :: Answers(ops, j, i, k) ==> found == Some(ops[i].entry))
            && (found.Some? ==> exists i: nat :: Answers(ops, j, i, k))
  {
    hide TableOk, Queue, Lookup, Current, Open, OpenList, IsAdd, Answers;
    QueueIsOpen(t, ops, j, k);
    OpenListIs(ops, j, k);
    LookupPerKey(Run(t, ops[..j]), k, k);
    var xs := OpenList(ops, j, k);
    forall i: nat ensures Answers(ops, j, i, k) <==> xs != [] && xs[0] == i {
      HeadAnswers(ops, j, i, k);
    }
    if xs != [] {
      assert Answers(ops, j, xs[0], k);
    }
  }

  /** No insert is answered twice, and no lookup answers two. */
  lemma AnsweredOnce<V>(ops: seq<Op<V>>, j: nat, j': nat, i: nat, i': nat, k: Key)
    requires Answers(ops, j, i, k) && Answers(ops, j', i', k)
    ensures j == j' <==> i == i'
  {
  }

  // ----- in terms of packets

  /** A message that was recorded, with the packet that it was in. */
  datatype Event = Event(p: Packet, record: Record) {
    /** The key under which a call is kept, or a reply is looked for. */
    function Key(): TableKeys.Key {
      if record.CallRecord? then XidKey(record.xid, p.srcHost, p.srcPort) else XidKey(record.xid, p.dstHost, p.dstPort)
    }

    function Procedure(): Call {
      Call(record.version, record.proc)
    }

    /** What the message does to the table of calls. */
    function Operation(): Op<Call> {
      if record.CallRecord? then Add(Entry(Key(), Procedure(), p.secs)) else Find(Key())
    }
  }

  function Events(p: Packet, visits: seq<Visit>): seq<Event> {
    if visits == [] then []
    else (if visits[0].record.Some? then [Event(p, visits[0].record.value)] else []) + Events(p, visits[1..])
  }

  function Operations(es: seq<Event>): (r: seq<Op<Call>>)
    ensures |r| == |es| && forall i :: 0 <= i < |r| ==> r[i] == es[i].Operation()
  {
    seq(|es|, i requires 0 <= i < |es| => es[i].Operation())
  }

  /** All messages recorded in a run. */
  ghost function RunEvents(s: State, ps: seq<Packet>): seq<Event>
    requires Inv(s, {}) && forall p :: p in ps ==> |p.bytes| <= MAX_CAPTURE
    decreases |ps|
  {
    if ps == [] then []
    else
      var r := ProcessPacket(s, ps[0]);
      Events(ps[0], r.visits) + RunEvents(r.state, ps[1..])
  }

  /** Every reply among the events has the procedure of the call that the table has for it at that point. */
  ghost predicate Agree(xid: AgingChains.Table<Call>, es: seq<Event>)
    requires TableOk(xid)
    decreases |es|
  {
    es == [] ||
    (&& (es[0].record.ReplyRecord? ==> es[0].Procedure() == Matched(Lookup(xid, es[0].Key()).1))
     && Agree(Apply(xid, es[0].Operation()), es[1..]))
  }

  lemma OperationsConcat(a: seq<Event>, b: seq<Event>)
    ensures Operations(a + b) == Operations(a) + Operations(b)
  {
  }

  lemma {:induction false} AgreeConcat(xid: AgingChains.Table<Call>, a: seq<Event>, b: seq<Event>)
    requires TableOk(xid) && Agree(xid, a) && Agree(Run(xid, Operations(a)), b)
    ensures Agree(xid, a + b)
    ensures Run(xid, Operations(a + b)) == Run(Run(xid, Operations(a)), Operations(b))
    decreases |a|
  {
    hide TableOk, Apply, Lookup;
    OperationsConcat(a, b);
    RunConcat(xid, Operations(a), Operations(b));
    if a == [] {
      assert a + b == b;
    } else {
      assert (a + b)[0] == a[0] && (a + b)[1..] == a[1..] + b;
      assert Operations(a)[1..] == Operations(a[1..]);
      AgreeConcat(Apply(xid, a[0].Operation()), a[1..], b);
    }
  }

  /** One decoded message. */
  lemma DecodeAgrees(xid: AgingChains.Table<Call>, p: Packet, c: Cursor)
    requires TableOk(xid)
    ensures var d := Decode(xid, p, c);
            var es := Events(p, [d.visit]);
            Agree(xid, es) && d.xid == Run(xid, Operations(es))
  {
    DecodeOperation(xid, p, c);
    hide TableOk, Decode, Lookup, Insert, Matched, Event.Key;
    var v := Decode(xid, p, c).visit;
    assert [v][1..] == [] && Events(p, []) == [];
    if v.record.Some? {
      var e := Event(p, v.record.value);
      assert Events(p, [v]) == [e] && [e][1..] == [];
      assert Operations([e]) == [e.Operation()] && [e.Operation()][1..] == [];
    }
  }

  lemma DecodeOperation(xid: AgingChains.Table<Call>, p: Packet, c: Cursor)
    requires TableOk(xid)
    ensures var d := Decode(xid, p, c);
            match d.visit.record
            case None => d.xid == xid
            case Some(record) =>
              var e := Event(p, record);
              && d.xid == Apply(xid, e.Operation())
              && (record.ReplyRecord? ==> e.Procedure() == Matched(Lookup(xid, e.Key()).1))
  {
    hide TableOk, Lookup, Insert, GetRpcHeader, Mem.Word, Wrap, ProcOf;
  }

  lemma EventsOne(p: Packet, v: Visit, more: seq<Visit>)
    ensures Events(p, [v] + more) == Events(p, [v]) + Events(p, more)
    ensures Events(p, []) == []
  {
    assert ([v] + more)[1..] == more && [v][1..] == [];
  }

  /** The message loop. */
  lemma {:induction false} LoopAgrees(s: State, p: Packet, c: Cursor)
    requires Inv(s, Mine(c.owned)) && CursorOk(p, c)
    ensures var r := Loop(s, p, c);
            var es := Events(p, r.visits);
            Agree(s.xid, es) && r.state.xid == Run(s.xid, Operations(es))
    decreases c.totLen - c.consumed
  {
    hide Frame, Decode, Release, FramedBy, CursorOk, Distinct, Contents, TableOk, Events, Agree;
    NoEvents(s.xid, p);
    if c.consumed >= c.totLen {
      ReleaseXid(s, c.owned);
    } else {
      LastOwned(p, c);
      FrameXid(s, p, c);
      var fr := Frame(s, p, c);
      if fr.Ready? {
        FrameCursor(s, p, c);
        var d := Decode(fr.state.xid, p, fr.cursor);
        var s' := fr.state.(xid := d.xid);
        DecodeAgrees(s.xid, p, fr.cursor);
        if d.exit.Some? {
          ReleaseXid(s', fr.cursor.owned);
        } else {
          LoopProgress(fr.state.xid, p, c, fr.cursor);
          var c' := fr.cursor.(consumed := d.consumed);
          LoopAgrees(s', p, c');
          EventsOne(p, d.visit, Loop(s', p, c').visits);
          AgreeConcat(s.xid, Events(p, [d.visit]), Events(p, Loop(s', p, c').visits));
        }
      }
    }
  }

  lemma NoEvents(xid: AgingChains.Table<Call>, p: Packet)
    requires TableOk(xid)
    ensures Events(p, []) == [] && Agree(xid, []) && Run(xid, Operations([])) == xid
  {
  }

  lemma LastOwned(p: Packet, c: Cursor)
    requires CursorOk(p, c) && c.consumed < c.totLen
    ensures c.owned.None?
  {
  }

  lemma ReleaseXid(s: State, owned: Option<Handle>)
    requires Inv(s, Mine(owned))
    ensures Release(s, owned).xid == s.xid
  {
    hide Inv;
  }

  /** Framing has no business with the table of calls. */
  lemma FrameXid(s: State, p: Packet, c: Cursor)
    requires Inv(s, {}) && c.owned.None?
    ensures Frame(s, p, c).state.xid == s.xid
  {
    hide Inv, FragmentOk, Lookup, Insert, Wrap, Filled;
    if p.transport.Tcp? {
      TakeOut(s, p.Key(p.transport.seqno));
    }
  }

  lemma {:induction false} RunAgrees(s: State, ps: seq<Packet>)
    requires Inv(s, {}) && forall p :: p in ps ==> |p.bytes| <= MAX_CAPTURE
    ensures Agree(s.xid, RunEvents(s, ps))
    ensures RunPackets(s, ps).xid == Run(s.xid, Operations(RunEvents(s, ps)))
    decreases |ps|
  {
    hide Loop, Events, Agree, TableOk, Contents, Distinct, CursorOk;
    if ps == [] {
      NoEvents(s.xid, Packet(0, 0, 0, 0, 0, Udp, 0, 0, 0, 0, [], _ => 0));
    } else {
      PacketAgrees(s, ps[0]);
      var s' := ProcessPacket(s, ps[0]).state;
      RunAgrees(s', ps[1..]);
      AgreeConcat(s.xid, Events(ps[0], ProcessPacket(s, ps[0]).visits), RunEvents(s', ps[1..]));
    }
  }

  lemma PacketAgrees(s: State, p: Packet)
    requires Inv(s, {}) && |p.bytes| <= MAX_CAPTURE
    ensures var r := ProcessPacket(s, p);
            Agree(s.xid, Events(p, r.visits)) && r.state.xid == Run(s.xid, Operations(Events(p, r.visits)))
  {
    hide Loop, Events, Agree, TableOk, Contents, Distinct;
    NoEvents(s.xid, p);
    if p.Start() < |p.bytes| {
      LoopAgrees(s, p, StartCursor(p));
    }
  }

  lemma {:induction false} AgreeAt(xid: AgingChains.Table<Call>, es: seq<Event>, j: nat)
    requires TableOk(xid) && Agree(xid, es) && j < |es| && es[j].record.ReplyRecord?
    ensures es[j].Procedure() == Matched(Lookup(Run(xid, Operations(es)[..j]), es[j].Key()).1)
    decreases j
  {
    hide TableOk, Apply, Lookup, Matched;
    var ops := Operations(es);
    if j == 0 {
      assert ops[..0] == [];
    } else {
      AgreeAt(Apply(xid, es[0].Operation()), es[1..], j - 1);
      assert ops[..j][0] == ops[0] && ops[..j][1..] == Operations(es[1..])[..j - 1];
    }
  }

  /** Reply `j` of the events answers call `i`. */
  ghost predicate Pairs(es: seq<Event>, j: nat, i: nat) {
    j < |es| && i < |es| && Answers(Operations(es), j, i, es[j].Key())
  }

  lemma AnswersMeaning<V>(ops: seq<Op<V>>, j: nat, i: nat, k: Key)
    requires Answers(ops, j, i, k)
    ensures i < j < |ops| && ops[j] == Find(k) && IsAdd(ops, i, k)
  {
  }

  lemma PairsMeaning(es: seq<Event>, j: nat, i: nat)
    requires Pairs(es, j, i)
    ensures i < j && es[i].record.CallRecord? && es[j].record.ReplyRecord? && es[i].Key() == es[j].Key()
  {
    hide Answers;
    AnswersMeaning(Operations(es), j, i, es[j].Key());
    assert Operations(es)[i] == es[i].Operation() && Operations(es)[j] == es[j].Operation();
  }

  /** A call is answered at most once, and a reply answers at most one. */
  lemma PairsOnce(es: seq<Event>, j: nat, j': nat, i: nat, i': nat)
    requires Pairs(es, j, i) && Pairs(es, j', i') && (j == j' || i == i')
    ensures j == j' && i == i'
  {
    hide Answers;
    PairsMeaning(es, j, i);
    PairsMeaning(es, j', i');
    AnsweredOnce(Operations(es), j, j', i, i', es[j].Key());
  }

  /** The same for events that agree with a table. */
  lemma AgreePairing(xid: AgingChains.Table<Call>, es: seq<Event>, j: nat)
    requires TableOk(xid) && Agree(xid, es) && j < |es| && es[j].record.ReplyRecord?
    requires Queue(xid, es[j].Key()) == [] && Current(Operations(es), j, es[j].Key())
    ensures forall i: nat :: Pairs(es, j, i) ==> es[j].Procedure() == es[i].Procedure()
    ensures (forall i: nat :: !Pairs(es, j, i)) ==> es[j].Procedure() == Call(3, TWO32 - 1)
  {
    hide Answers, Current, Agree, TableOk, Queue, Lookup;
    var ops := Operations(es);
    AgreeAt(xid, es, j);
    FindsLatestOpen(xid, ops, j, es[j].Key());
    forall i: nat | Pairs(es, j, i) ensures es[j].Procedure() == es[i].Procedure() {
      PairsMeaning(es, j, i);
      assert ops[i] == es[i].Operation();
    }
    if forall i: nat :: !Pairs(es, j, i) {
      NoAnswer(es, j);
    }
  }

  lemma NoAnswer(es: seq<Event>, j: nat)
    requires j < |es| && forall i: nat :: !Pairs(es, j, i)
    ensures forall i: nat :: !Answers(Operations(es), j, i, es[j].Key())
  {
    forall i: nat | Answers(Operations(es), j, i, es[j].Key()) ensures Pairs(es, j, i) {
      AnswersMeaning(Operations(es), j, i, es[j].Key());
    }
  }

  /**
   * The pairing, for every run of arbitrary packets: a reply is reported with
   * the version and procedure of the latest earlier call with its xid, host and
   * port that no reply in between has answered, or as version 3, procedure -1
   * if there is none. Nothing of that key must have aged out.
   */
  lemma ReplyPairing(s: State, ps: seq<Packet>, j: nat)
    requires Inv(s, {}) && forall p :: p in ps ==> |p.bytes| <= MAX_CAPTURE
    requires var es := RunEvents(s, ps);
             && j < |es| && es[j].record.ReplyRecord?
             && Queue(s.xid, es[j].Key()) == [] && Current(Operations(es), j, es[j].Key())
    ensures var es := RunEvents(s, ps);
            && (forall i: nat :: Pairs(es, j, i) ==> es[j].Procedure() == es[i].Procedure())
            && ((forall i: nat :: !Pairs(es, j, i)) ==> es[j].Procedure() == Call(3, TWO32 - 1))
            && (forall i: nat, i': nat :: Pairs(es, j, i) && Pairs(es, j, i') ==> i == i')
            && (forall i: nat, j': nat :: Pairs(es, j, i) && Pairs(es, j', i) ==> j == j')
  {
    hide Pairs, Current, Agree, RunEvents, TableOk, Queue, Inv, RunPackets, Event.Key, Event.Procedure;
    RunAgrees(s, ps);
    var es := RunEvents(s, ps);
    XidOk(s);
    AgreePairing(s.xid, es, j);
    forall i: nat, i': nat | Pairs(es, j, i) && Pairs(es, j, i') ensures i == i' {
      PairsOnce(es, j, j, i, i');
    }
    forall i: nat, j': nat | Pairs(es, j, i) && Pairs(es, j', i) ensures j == j' {
      PairsOnce(es, j, j', i, i);
    }
  }

  /** Reply `j` takes call `i` out of the table of calls, which was `xid` at the start. */
  ghost predicate TakesCall(xid: AgingChains.Table<Call>, es: seq<Event>, j: nat, i: nat)
    requires TableOk(xid)
  {
    j < |es| && es[j].record.ReplyRecord? && Takes(xid, Operations(es), j, i, es[j].Key())
  }

  lemma TakesCallMeaning(xid: AgingChains.Table<Call>, es: seq<Event>, j: nat, i: nat)
    requires TableOk(xid) && TakesCall(xid, es, j, i)
    ensures i < j && es[i].record.CallRecord? && es[i].Key() == es[j].Key()
  {
    hide TableOk, Takes;
    TakesMeaning(xid, Operations(es), j, i, es[j].Key());
    assert Operations(es)[i] == es[i].Operation();
  }

  /** The same for events that agree with a table. */
  lemma AgreeTaken(xid: AgingChains.Table<Call>, es: seq<Event>, j: nat)
    requires TableOk(xid) && Agree(xid, es) && j < |es| && es[j].record.ReplyRecord?
    requires Queue(xid, es[j].Key()) == []
    ensures (exists i: nat :: i < j && TakesCall(xid, es, j, i) && es[j].Procedure() == es[i].Procedure())
            || ((forall i: nat :: !TakesCall(xid, es, j, i)) && es[j].Procedure() == Call(3, TWO32 - 1))
  {
    hide Takes, Agree, TableOk, Queue, Lookup;
    var ops := Operations(es);
    AgreeAt(xid, es, j);
    FindsTaken(xid, ops, j, es[j].Key());
    if i: nat :| Takes(xid, ops, j, i, es[j].Key()) {
      assert TakesCall(xid, es, j, i);
      TakesCallMeaning(xid, es, j, i);
      assert ops[i] == es[i].Operation();
    }
  }

  /**
   * Whatever ages out: a reply never gets the procedure of anything but an
   * earlier call of its xid, host and port that no other reply gets, or version
   * 3, procedure -1.
   */
  lemma ReplyNeverInvented(s: State, ps: seq<Packet>, j: nat)
    requires Inv(s, {}) && forall p :: p in ps ==> |p.bytes| <= MAX_CAPTURE
    requires var es := RunEvents(s, ps);
             j < |es| && es[j].record.ReplyRecord? && Queue(s.xid, es[j].Key()) == []
    ensures var es := RunEvents(s, ps);
            || (exists i: nat :: i < j && TakesCall(s.xid, es, j, i) && es[j].Procedure() == es[i].Procedure()
                                 && es[i].record.CallRecord? && es[i].Key() == es[j].Key())
            || es[j].Procedure() == Call(3, TWO32 - 1)
    ensures var es := RunEvents(s, ps);
            forall i: nat, j': nat :: TakesCall(s.xid, es, j, i) && TakesCall(s.xid, es, j', i) ==> j == j'
  {
    hide TakesCall, Agree, RunEvents, TableOk, Queue, Inv, RunPackets, Event.Key, Event.Procedure;
    RunAgrees(s, ps);
    XidOk(s);
    var es := RunEvents(s, ps);
    AgreeTaken(s.xid, es, j);
    if i: nat :| i < j && TakesCall(s.xid, es, j, i) && es[j].Procedure() == es[i].Procedure() {
      TakesCallMeaning(s.xid, es, j, i);
    }
    forall i: nat, j': nat | TakesCall(s.xid, es, j, i) && TakesCall(s.xid, es, j', i) ensures j == j' {
      CallTakenOnce(s.xid, es, j, j', i);
    }
  }

  lemma CallTakenOnce(xid: AgingChains.Table<Call>, es: seq<Event>, j: nat, j': nat, i: nat)
    requires TableOk(xid) && TakesCall(xid, es, j, i) && TakesCall(xid, es, j', i)
    ensures j == j'
  {
    hide TableOk, Takes;
    TakesCallMeaning(xid, es, j, i);
    TakesCallMeaning(xid, es, j', i);
    if j <= j' {
      TakenOnce(xid, Operations(es), j, j', i, i, es[j].Key());
    } else {
      TakenOnce(xid, Operations(es), j', j, i, i, es[j].Key());
    }
  }

  lemma XidOk(s: State)
    requires Inv(s, {})
    ensures TableOk(s.xid)
  {
    hide TableOk, Distinct;
  }
}
