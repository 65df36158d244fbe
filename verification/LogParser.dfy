/** The Parser of nfsdump.func.js: which reply of a trace is paired with which call. */
module LogParser {
  import opened Options

  /** A row of the log; `time` is `parseInt` of its first field. */
  datatype Row = Row(fields: seq<string>, time: int)

  const SRC := 1
  const DST := 2
  const DIRECTION := 4
  const XID := 5
  const OP := 7
  const PARAM_START := 8

  /** Rows that processRow hands to processCall, and that get past its first test. */
  predicate IsCall(row: Row) {
    |row.fields| >= PARAM_START && row.fields[DIRECTION] == "C3" && row.fields[OP] != "unknown"
  }

  predicate IsReply(row: Row) {
    |row.fields| >= PARAM_START && row.fields[DIRECTION] == "R3"
  }

  /** The index under which a call is kept and looked for: client and xid. */
  function Key(row: Row): string
    requires IsCall(row) || IsReply(row)
  {
    (if row.fields[DIRECTION] == "C3" then row.fields[SRC] else row.fields[DST]) + "." + row.fields[XID]
  }

  datatype State = State(calls: map<string, Row>, nextCleanup: int)

  const START := State(map[], 0)

  /** cleanup: nothing, unless the clock has reached the latest call so far. */
  function Cleanup(s: State, time: int, lifetime: int): State {
    if time < s.nextCleanup then s
    else State(map k | k in s.calls && s.calls[k].time >= time - lifetime :: s.calls[k], time)
  }

  /** One row: the new state, and the call that is paired with the row when it is a reply. */
  function Step(s: State, row: Row, lifetime: int): (State, Option<Row>) {
    if IsCall(row) then
      var s' := Cleanup(s, row.time, lifetime);
      (s'.(calls := s'.calls[Key(row) := row]), None)
    else if IsReply(row) && Key(row) in s.calls then
      (s.(calls := s.calls - {Key(row)}), Some(s.calls[Key(row)]))
    else (s, None)
  }

  function Run(rows: seq<Row>, lifetime: int): State {
    if rows == [] then START else Step(Run(rows[..|rows| - 1], lifetime), rows[|rows| - 1], lifetime).0
  }

  // ----- what it means, in terms of the trace alone

  /** The latest time of any call among the rows, and at least 0. */
  ghost function Latest(rows: seq<Row>): (t: int)
    ensures t >= 0
  {
    if rows == [] then 0
    else
      var t, row := Latest(rows[..|rows| - 1]), rows[|rows| - 1];
      if IsCall(row) && row.time >= t then row.time else t
  }

  /** Row `m` is a call no earlier than all before it, and so much later than call `i` that `i` is given up. */
  ghost predicate Expires(rows: seq<Row>, m: nat, i: nat, lifetime: int)
    requires m < |rows| && i < |rows|
  {
    IsCall(rows[m]) && rows[m].time >= Latest(rows[..m]) && rows[i].time < rows[m].time - lifetime
  }

  /** Row `m` ends the life of call `i`: it answers it, replaces it, or expires it. */
  ghost predicate EndsAt(rows: seq<Row>, m: nat, i: nat, lifetime: int)
    requires m < |rows| && i < |rows| && IsCall(rows[i])
  {
    || (IsReply(rows[m]) && Key(rows[m]) == Key(rows[i]))
    || (IsCall(rows[m]) && Key(rows[m]) == Key(rows[i]))
    || Expires(rows, m, i, lifetime)
  }

  /** Call `i` is still waiting for its reply after all of `rows`. */
  ghost predicate Waiting(rows: seq<Row>, i: nat, lifetime: int) {
    i < |rows| && IsCall(rows[i]) && forall m :: i < m < |rows| ==> !EndsAt(rows, m, i, lifetime)
  }

  lemma WaitingPrefix(rows: seq<Row>, i: nat, lifetime: int)
    requires rows != []
    ensures var n := |rows| - 1;
            Waiting(rows, i, lifetime)
            <==> (i == n && IsCall(rows[n])) || (Waiting(rows[..n], i, lifetime) && !EndsAt(rows, n, i, lifetime))
  {
    var n := |rows| - 1;
    var before := rows[..n];
    forall m | i < m < n && IsCall(rows[i]) ensures EndsAt(before, m, i, lifetime) <==> EndsAt(rows, m, i, lifetime) {
      assert before[..m] == rows[..m];
    }
  }

  /** The table holds exactly the waiting calls, each under its key. */
  ghost predicate Holds(calls: map<string, Row>, rows: seq<Row>, lifetime: int) {
    && (forall i: nat :: Waiting(rows, i, lifetime) ==> Key(rows[i]) in calls && calls[Key(rows[i])] == rows[i])
    && (forall k :: k in calls ==>
          exists i: nat :: Waiting(rows, i, lifetime) && Key(rows[i]) == k && calls[k] == rows[i])
  }

  lemma {:induction false} TableHoldsWaiting(rows: seq<Row>, lifetime: int)
    ensures Holds(Run(rows, lifetime).calls, rows, lifetime)
    ensures Run(rows, lifetime).nextCleanup == Latest(rows)
  {
    if rows != [] {
      var n := |rows| - 1;
      TableHoldsWaiting(rows[..n], lifetime);
      StepHolds(Run(rows[..n], lifetime), rows, lifetime);
    }
  }

  lemma StepHolds(s: State, rows: seq<Row>, lifetime: int)
    requires rows != []
    requires Holds(s.calls, rows[..|rows| - 1], lifetime) && s.nextCleanup == Latest(rows[..|rows| - 1])
    ensures Holds(Step(s, rows[|rows| - 1], lifetime).0.calls, rows, lifetime)
  {
    hide Latest;
    var n := |rows| - 1;
    var before, row := rows[..n], rows[n];
    var calls := Step(s, row, lifetime).0.calls;
    forall i: nat | Waiting(rows, i, lifetime) ensures Key(rows[i]) in calls && calls[Key(rows[i])] == rows[i] {
      WaitingPrefix(rows, i, lifetime);
    }
    forall k | k in calls
      ensures exists i: nat :: Waiting(rows, i, lifetime) && Key(rows[i]) == k && calls[k] == rows[i]
    {
      if IsCall(row) && k == Key(row) {
        WaitingPrefix(rows, n, lifetime);
        assert Waiting(rows, n, lifetime);
      } else {
        var i: nat :| Waiting(before, i, lifetime) && Key(before[i]) == k && s.calls[k] == before[i];
        WaitingPrefix(rows, i, lifetime);
        assert Waiting(rows, i, lifetime);
      }
    }
  }

  /** Row `j` is a reply, and call `i` is the one it answers. */
  ghost predicate Answers(rows: seq<Row>, j: nat, i: nat, lifetime: int) {
    j < |rows| && IsReply(rows[j]) && Waiting(rows[..j], i, lifetime) && Key(rows[i]) == Key(rows[j])
  }

  /**
   * The pairing by keys, for every trace: a reply is paired with a call exactly
   * when that call, with the same key, comes earlier in the trace and has
   * in between been neither answered, nor repeated, nor expired. There is at
   * most one such call.
   */
  lemma KeyPairing(rows: seq<Row>, j: nat, lifetime: int)
    requires j < |rows| && IsReply(rows[j])
    ensures var paired := Step(Run(rows[..j], lifetime), rows[j], lifetime).1;
            && (paired.Some? ==> exists i: nat :: Answers(rows, j, i, lifetime) && paired.value == rows[i])
            && (forall i: nat :: Answers(rows, j, i, lifetime) ==> paired == Some(rows[i]))
    ensures forall i: nat, i': nat :: Answers(rows, j, i, lifetime) && Answers(rows, j, i', lifetime) ==> i == i'
  {
    TableHoldsWaiting(rows[..j], lifetime);
    var before := rows[..j];
    if Key(rows[j]) in Run(before, lifetime).calls {
      var i: nat :| Waiting(before, i, lifetime) && Key(before[i]) == Key(rows[j])
                    && Run(before, lifetime).calls[Key(rows[j])] == before[i];
      assert Answers(rows, j, i, lifetime);
    }
    forall i: nat, i': nat | Answers(rows, j, i, lifetime) && Answers(rows, j, i', lifetime) ensures i == i' {
      assert i < i' ==> EndsAt(before, i', i, lifetime);
      assert i' < i ==> EndsAt(before, i, i', lifetime);
    }
  }

  /** No call is paired twice: two replies never answer the same call. */
  lemma AnsweredOnce(rows: seq<Row>, j: nat, k: nat, i: nat, lifetime: int)
    requires j < k && Answers(rows, j, i, lifetime)
    ensures !Answers(rows, k, i, lifetime)
  {
    if k < |rows| {
      assert rows[..k][j] == rows[j] && rows[..k][i] == rows[i];
      assert EndsAt(rows[..k], j, i, lifetime);
    }
  }

  ghost predicate ClockGoesOn(rows: seq<Row>) {
    forall i, j :: 0 <= i <= j < |rows| && IsCall(rows[i]) && IsCall(rows[j]) ==> 0 <= rows[i].time <= rows[j].time
  }

  /** With a clock that does not go back, right after a call nothing older than its time less the lifetime is kept. */
  lemma PendingIsRecent(rows: seq<Row>, lifetime: nat)
    requires rows != [] && IsCall(rows[|rows| - 1]) && ClockGoesOn(rows)
    ensures var calls := Run(rows, lifetime).calls;
            forall k :: k in calls ==> calls[k].time >= rows[|rows| - 1].time - lifetime
  {
    var n := |rows| - 1;
    TableHoldsWaiting(rows, lifetime);
    LatestBound(rows, n);
    var calls := Run(rows, lifetime).calls;
    forall k | k in calls ensures calls[k].time >= rows[n].time - lifetime {
      var i: nat :| Waiting(rows, i, lifetime) && Key(rows[i]) == k && calls[k] == rows[i];
      if i < n {
        assert !EndsAt(rows, n, i, lifetime);
      }
    }
  }

  lemma {:induction false} LatestBound(rows: seq<Row>, n: nat)
    requires n < |rows| && IsCall(rows[n]) && ClockGoesOn(rows)
    ensures rows[n].time >= Latest(rows[..n])
  {
    LatestAttained(rows[..n]);
    assert ClockGoesOn(rows);
  }

  lemma {:induction false} LatestAttained(rows: seq<Row>)
    ensures Latest(rows) == 0 || exists i :: 0 <= i < |rows| && IsCall(rows[i]) && rows[i].time == Latest(rows)
  {
    if rows != [] {
      LatestAttained(rows[..|rows| - 1]);
    }
  }

  /** Xids without a dot keep the keys of different clients and xids apart. */
  lemma KeyInjective(client: string, xid: string, client': string, xid': string)
    requires '.' !in xid && '.' !in xid'
    requires client + "." + xid == client' + "." + xid'
    ensures client == client' && xid == xid'
  {
    NotShorter(client, xid, client', xid');
    NotShorter(client', xid', client, xid);
    var s := client + "." + xid;
    assert client == s[..|client|] == client' && xid == s[|client| + 1..] == xid';
  }

  lemma NotShorter(client: string, xid: string, client': string, xid': string)
    requires client + "." + xid == client' + "." + xid' && '.' !in xid
    ensures |client| >= |client'|
  {
    if |client| < |client'| {
      DotInside(client, xid, client', xid');
    }
  }

  lemma DotInside(client: string, xid: string, client': string, xid': string)
    requires client + "." + xid == client' + "." + xid' && |client| < |client'|
    ensures '.' in xid
  {
    assert (client + "." + xid)[|client'|] == (client' + "." + xid')[|client'|] == '.';
    assert xid[|client'| - |client| - 1] == '.';
  }

  // ----- the pairing, in terms of the columns of the log

  /** A call of a known operation: column 4 says that it is a call, column 7 is the operation. */
  predicate CallRow(row: Row) {
    |row.fields| >= 8 && row.fields[4] == "C3" && row.fields[7] != "unknown"
  }

  predicate ReplyRow(row: Row) {
    |row.fields| >= 8 && row.fields[4] == "R3"
  }

  /** The reply goes to the client that the call comes from (columns 2 and 1), with the same xid (column 5). */
  predicate RepliesTo(reply: Row, call: Row)
    requires ReplyRow(reply) && CallRow(call)
  {
    reply.fields[2] == call.fields[1] && reply.fields[5] == call.fields[5]
  }

  predicate SameCall(a: Row, b: Row)
    requires CallRow(a) && CallRow(b)
  {
    a.fields[1] == b.fields[1] && a.fields[5] == b.fields[5]
  }

  ghost predicate DotFree(rows: seq<Row>) {
    forall i :: 0 <= i < |rows| && |rows[i].fields| >= 8 ==> '.' !in rows[i].fields[5]
  }

  /** No call before row `m` is later, and call `i` is more than `lifetime` older. */
  ghost predicate TooOld(rows: seq<Row>, m: nat, i: nat, lifetime: int)
    requires m < |rows| && i < |rows|
  {
    && CallRow(rows[m]) && rows[m].time >= 0
    && (forall n :: 0 <= n < m && CallRow(rows[n]) ==> rows[n].time <= rows[m].time)
    && rows[i].time < rows[m].time - lifetime
  }

  /**
   * Reply `j` is for call `i`: from the same client, with the same xid, and
   * between them there is neither another reply nor another call like that, nor
   * a call so much later that call `i` is given up.
   */
  ghost predicate ReplyFor(rows: seq<Row>, j: nat, i: nat, lifetime: int) {
    && i < j < |rows| && ReplyRow(rows[j]) && CallRow(rows[i]) && RepliesTo(rows[j], rows[i])
    && forall m :: i < m < j ==>
         && !(ReplyRow(rows[m]) && RepliesTo(rows[m], rows[i]))
         && !(CallRow(rows[m]) && SameCall(rows[m], rows[i]))
         && !TooOld(rows, m, i, lifetime)
  }

  lemma RowKinds(row: Row)
    ensures IsCall(row) <==> CallRow(row)
    ensures IsReply(row) <==> ReplyRow(row)
  {
  }

  /** Keys are equal exactly when client and xid are. */
  lemma KeyIff(call: Row, row: Row)
    requires CallRow(call) && '.' !in call.fields[5] && (CallRow(row) || ReplyRow(row)) && '.' !in row.fields[5]
    ensures IsCall(call) && (IsCall(row) || IsReply(row))
    ensures ReplyRow(row) ==> (Key(row) == Key(call) <==> RepliesTo(row, call))
    ensures CallRow(row) ==> (Key(row) == Key(call) <==> SameCall(row, call))
  {
    RowKinds(call);
    RowKinds(row);
    var client := if row.fields[4] == "C3" then row.fields[1] else row.fields[2];
    if Key(row) == Key(call) {
      KeyInjective(client, row.fields[5], call.fields[1], call.fields[5]);
    }
  }

  /** With a dot in an xid, a call and a reply of another client with another xid can have the same key. */
  lemma DottedXidsCollide()
    ensures var call := Row(["0", "10.0.0.1", "10.0.0.9", "U", "C3", "5.7", "3", "lookup"], 0);
            var reply := Row(["1", "10.0.0.9", "10.0.0.1.5", "U", "R3", "7", "3", "lookup"], 1);
            && CallRow(call) && ReplyRow(reply) && IsCall(call) && IsReply(reply)
            && !RepliesTo(reply, call) && Key(reply) == Key(call)
  {
    assert "10.0.0.1.5" + "." + "7" == "10.0.0.1" + "." + "5.7";
  }

  lemma TooOldIs(rows: seq<Row>, m: nat, i: nat, lifetime: int)
    requires m < |rows| && i < |rows|
    ensures Expires(rows, m, i, lifetime) <==> TooOld(rows, m, i, lifetime)
  {
    RowKinds(rows[m]);
    LatestIs(rows[..m], rows[m].time);
    forall n | 0 <= n < m ensures rows[..m][n] == rows[n] {
    }
  }

  lemma {:induction false} LatestIs(rows: seq<Row>, t: int)
    ensures t >= Latest(rows) <==> t >= 0 && forall n :: 0 <= n < |rows| && CallRow(rows[n]) ==> rows[n].time <= t
  {
    if rows != [] {
      var last := |rows| - 1;
      LatestIs(rows[..last], t);
      RowKinds(rows[last]);
      forall n | 0 <= n < last ensures rows[..last][n] == rows[n] {
      }
    }
  }

  lemma EndsIs(rows: seq<Row>, m: nat, i: nat, lifetime: int)
    requires m < |rows| && i < |rows| && CallRow(rows[i]) && DotFree(rows)
    ensures IsCall(rows[i])
    ensures EndsAt(rows, m, i, lifetime)
            <==> || (ReplyRow(rows[m]) && RepliesTo(rows[m], rows[i]))
                 || (CallRow(rows[m]) && SameCall(rows[m], rows[i]))
                 || TooOld(rows, m, i, lifetime)
  {
    RowKinds(rows[i]);
    RowKinds(rows[m]);
    TooOldIs(rows, m, i, lifetime);
    if CallRow(rows[m]) || ReplyRow(rows[m]) {
      KeyIff(rows[i], rows[m]);
    }
  }

  lemma AnswersIs(rows: seq<Row>, j: nat, i: nat, lifetime: int)
    requires j < |rows| && ReplyRow(rows[j]) && DotFree(rows)
    ensures Answers(rows, j, i, lifetime) <==> ReplyFor(rows, j, i, lifetime)
  {
    hide Expires, TooOld, Key, RepliesTo, SameCall, IsCall, IsReply;
    var before := rows[..j];
    RowKinds(rows[j]);
    if i < j {
      RowKinds(rows[i]);
      if CallRow(rows[i]) {
        KeyIff(rows[i], rows[j]);
        forall m | i < m < j ensures EndsAt(before, m, i, lifetime) <==> EndsAt(rows, m, i, lifetime) {
          assert before[..m] == rows[..m];
          RowKinds(rows[i]);
          EndsBefore(rows, j, m, i, lifetime);
        }
        forall m | i < m < j {
          EndsIs(rows, m, i, lifetime);
        }
      }
    }
  }

  lemma EndsBefore(rows: seq<Row>, j: nat, m: nat, i: nat, lifetime: int)
    requires i < m < j <= |rows| && IsCall(rows[i])
    ensures EndsAt(rows[..j], m, i, lifetime) <==> EndsAt(rows, m, i, lifetime)
  {
    assert rows[..j][..m] == rows[..m];
  }

  /**
   * The pairing, for every trace whose xids have no dots: the reply in a row is
   * paired with the one call that it is for, and with nothing if there is none.
   */
  lemma ReplyPairing(rows: seq<Row>, j: nat, lifetime: int)
    requires j < |rows| && ReplyRow(rows[j]) && DotFree(rows)
    ensures var paired := Step(Run(rows[..j], lifetime), rows[j], lifetime).1;
            && (paired.Some? ==> exists i: nat :: ReplyFor(rows, j, i, lifetime) && paired.value == rows[i])
            && (forall i: nat :: ReplyFor(rows, j, i, lifetime) ==> paired == Some(rows[i]))
    ensures forall i: nat, i': nat :: ReplyFor(rows, j, i, lifetime) && ReplyFor(rows, j, i', lifetime) ==> i == i'
  {
    hide Answers, ReplyFor, Step, Run, IsReply, ReplyRow;
    RowKinds(rows[j]);
    KeyPairing(rows, j, lifetime);
    forall i: nat ensures Answers(rows, j, i, lifetime) <==> ReplyFor(rows, j, i, lifetime) {
      AnswersIs(rows, j, i, lifetime);
    }
  }

  class Parser {
    const callLifetime: int
    var calls: map<string, Row>
    var nextCleanup: int
    var pairs: seq<(Row, Row)>  // what `process` has been called with

    ghost function Abstract(): State
      reads this
    {
      State(calls, nextCleanup)
    }

    constructor (callLifetime: nat)
      ensures Abstract() == START && pairs == []
      ensures this.callLifetime == if callLifetime == 0 then 15 else callLifetime
    {
      this.callLifetime := if callLifetime == 0 then 15 else callLifetime;
      calls, nextCleanup, pairs := map[], 0, [];
    }

    method ProcessRow(row: Row)
      modifies this
      ensures var (s, paired) := Step(old(Abstract()), row, callLifetime);
              Abstract() == s && pairs == old(pairs) + if paired.Some? then [(paired.value, row)] else []
    {
      if |row.fields| < PARAM_START {
        return;
      }
      if row.fields[DIRECTION] == "C3" {
        ProcessCall(row);
      } else if row.fields[DIRECTION] == "R3" {
        ProcessReply(row);
      }
    }

    method ProcessCall(row: Row)
      requires |row.fields| >= PARAM_START && row.fields[DIRECTION] == "C3"
      modifies this
      ensures Abstract() == Step(old(Abstract()), row, callLifetime).0 && pairs == old(pairs)
    {
      if row.fields[OP] == "unknown" {
        return;
      }
      CleanupCalls(row.time);
      calls := calls[row.fields[SRC] + "." + row.fields[XID] := row];
    }

    method ProcessReply(row: Row)
      requires |row.fields| >= PARAM_START && row.fields[DIRECTION] == "R3"
      modifies this
      ensures var (s, paired) := Step(old(Abstract()), row, callLifetime);
              Abstract() == s && pairs == old(pairs) + if paired.Some? then [(paired.value, row)] else []
    {
      var key := row.fields[DST] + "." + row.fields[XID];
      if key !in calls {
        return;
      }
      var call := calls[key];
      calls := calls - {key};
      pairs := pairs + [(call, row)];
    }

    /** cleanup: deletes, key by key, the calls that are too old. */
    method CleanupCalls(timestamp: int)
      modifies this
      ensures Abstract() == Cleanup(old(Abstract()), timestamp, callLifetime) && pairs == old(pairs)
    {
      if timestamp < nextCleanup {
        return;
      }
      nextCleanup := timestamp;
      var expiry := timestamp - callLifetime;
      var keys := calls.Keys;
      ghost var before := calls;
      while keys != {}
        invariant keys <= before.Keys && nextCleanup == timestamp && pairs == old(pairs)
        invariant forall k :: k in calls <==> k in before && (k in keys || before[k].time >= expiry)
        invariant forall k :: k in calls ==> calls[k] == before[k]
        decreases |keys|
      {
        assert (forall x :: x !in keys) ==> keys == {};
        var key :| key in keys;
        keys := keys - {key};
        if calls[key].time < expiry {
          calls := calls - {key};
        }
      }
    }

    /** Every row of a file in turn. */
    method ParseFile(rows: seq<Row>)
      requires Abstract() == START && pairs == []
      modifies this
      ensures Abstract() == Run(rows, callLifetime) && pairs == Pairs(rows, callLifetime)
    {
      var i := 0;
      while i < |rows|
        invariant 0 <= i <= |rows|
        invariant Abstract() == Run(rows[..i], callLifetime) && pairs == Pairs(rows[..i], callLifetime)
      {
        assert rows[..i + 1][..i] == rows[..i];
        ProcessRow(rows[i]);
        i := i + 1;
      }
      assert rows[..i] == rows;
    }
  }

  /** The pairs that a trace yields. */
  function Pairs(rows: seq<Row>, lifetime: int): seq<(Row, Row)> {
    if rows == [] then []
    else
      var before, row := rows[..|rows| - 1], rows[|rows| - 1];
      var paired := Step(Run(before, lifetime), row, lifetime).1;
      Pairs(before, lifetime) + if paired.Some? then [(paired.value, row)] else []
  }

  lemma ReplyForBefore(rows: seq<Row>, n: nat, j: nat, i: nat, lifetime: int)
    requires j < n <= |rows|
    ensures ReplyFor(rows[..n], j, i, lifetime) <==> ReplyFor(rows, j, i, lifetime)
  {
    hide CallRow, ReplyRow, RepliesTo, SameCall;
    if i < j {
      forall m | i < m < j ensures TooOld(rows[..n], m, i, lifetime) <==> TooOld(rows, m, i, lifetime) {
        forall k | 0 <= k < m ensures rows[..n][k] == rows[k] {
        }
      }
    }
  }

  /** `x` consists of call `i` and the reply `j` that is for it. */
  ghost predicate IsPair(rows: seq<Row>, x: (Row, Row), i: nat, j: nat, lifetime: int) {
    i < j < |rows| && ReplyFor(rows, j, i, lifetime) && x == (rows[i], rows[j])
  }

  /**
   * What a whole file yields: the pairs are exactly the calls with the replies
   * that are for them, the call first.
   */
  lemma {:induction false} PairsAre(rows: seq<Row>, lifetime: int)
    requires DotFree(rows)
    ensures forall x :: x in Pairs(rows, lifetime) <==> exists i: nat, j: nat :: IsPair(rows, x, i, j, lifetime)
  {
    hide ReplyFor, Run, Step;
    if rows != [] {
      var n := |rows| - 1;
      var before := rows[..n];
      PairsAre(before, lifetime);
      LastPair(rows, lifetime);
      forall x | x in Pairs(rows, lifetime) ensures exists i: nat, j: nat :: IsPair(rows, x, i, j, lifetime) {
        if x in Pairs(before, lifetime) {
          var i: nat, j: nat :| IsPair(before, x, i, j, lifetime);
          ReplyForBefore(rows, n, j, i, lifetime);
          assert IsPair(rows, x, i, j, lifetime);
        } else {
          var i: nat :| i < n && ReplyFor(rows, n, i, lifetime) && x.0 == rows[i];
          assert IsPair(rows, x, i, n, lifetime);
        }
      }
      forall x, i: nat, j: nat | IsPair(rows, x, i, j, lifetime) ensures x in Pairs(rows, lifetime) {
        if j < n {
          ReplyForBefore(rows, n, j, i, lifetime);
          assert IsPair(before, x, i, j, lifetime);
        }
      }
    }
  }

  /** What the last row adds to the pairs. */
  lemma LastPair(rows: seq<Row>, lifetime: int)
    requires rows != [] && DotFree(rows)
    ensures var n := |rows| - 1;
            var paired := Step(Run(rows[..n], lifetime), rows[n], lifetime).1;
            && (paired.Some? ==> exists i: nat :: i < n && ReplyFor(rows, n, i, lifetime) && paired.value == rows[i])
            && (forall i: nat :: i < n && ReplyFor(rows, n, i, lifetime) ==> paired == Some(rows[i]))
  {
    hide Run, Key;
    var n := |rows| - 1;
    RowKinds(rows[n]);
    if ReplyRow(rows[n]) {
      ReplyPairing(rows, n, lifetime);
    }
  }
}
