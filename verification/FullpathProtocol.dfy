/** Lines, CSV rows and what a lookup of a filehandle means. */
module FullpathRows {
  import opened Options

  /** Position of the first comma, or the length of the line. */
  function CommaAt(line: string): (i: nat)
    ensures i <= |line| && ',' !in line[..i]
    ensures i < |line| ==> line[i] == ','
  {
    if line == "" || line[0] == ',' then 0
    else
      var i := CommaAt(line[1..]);
      assert line[..i + 1] == [line[0]] + line[1..][..i];
      i + 1
  }

  /** The text before the first comma, and what is behind that comma, if there is one. */
  function Cut(line: string): (string, Option<string>) {
    var i := CommaAt(line);
    (line[..i], if i < |line| then Some(line[i + 1..]) else None)
  }

  /** A parsed row; columns that the line does not have are None. Further columns are dropped. */
  datatype Row = Row(fh: string, top: Option<string>, path: Option<string>)

  function ParseRow(line: string): Row {
    var (fh, rest) := Cut(line);
    if rest.None? then Row(fh, None, None)
    else
      var (top, rest') := Cut(rest.value);
      if rest'.None? then Row(fh, Some(top), None) else Row(fh, Some(top), Some(Cut(rest'.value).0))
  }

  /** What a callback gets: `false`, or a path. */
  datatype Answer = NoPath | Path(path: string)

  /** An unresolvedHandler: the path to use for a row whose mountpoint is unknown. */
  type Handler = Row -> Answer

  function Falsy(s: Option<string>): bool {
    s.None? || s.value == ""
  }

  /** The value that processResult computes from a row. */
  function Resolve(row: Row, handler: Handler): Answer {
    if Falsy(row.path) then NoPath
    else if row.top == Some("") then Path(row.path.value)
    else handler(row)
  }

  /** A column put into text. */
  function AsText(s: Option<string>): string {
    if s.Some? then s.value else "undefined"
  }

  function DefaultHandler(row: Row): Answer {
    Path("/UNRESOLVED-" + AsText(row.top) + "/" + AsText(row.path))
  }

  /** A line as fullpath prints it. */
  function Line(fh: string, top: string, path: string): string {
    fh + "," + top + "," + path
  }

  /** A field that the CSV format carries as it is. */
  predicate Plain(s: string) {
    ',' !in s && '\n' !in s
  }

  lemma {:induction false} CommaAtIs(line: string, n: nat)
    requires n <= |line| && ',' !in line[..n] && (n < |line| ==> line[n] == ',')
    ensures CommaAt(line) == n
  {
    if n > 0 {
      assert line[..n][0] == line[0];
      assert line[..n][1..] == line[1..][..n - 1];
      CommaAtIs(line[1..], n - 1);
    }
  }

  lemma CutAtComma(a: string, b: string)
    requires ',' !in a
    ensures Cut(a + "," + b) == (a, Some(b))
  {
    var line := a + "," + b;
    assert line[..|a|] == a && line[|a| + 1..] == b;
    CommaAtIs(line, |a|);
  }

  lemma CutPlain(a: string)
    requires ',' !in a
    ensures Cut(a) == (a, None)
  {
    assert a[..|a|] == a;
    CommaAtIs(a, |a|);
  }

  /** Printing and parsing a row are inverse to each other. */
  lemma RowRoundTrip(fh: string, top: string, path: string)
    requires ',' !in fh && ',' !in top && ',' !in path
    ensures ParseRow(Line(fh, top, path)) == Row(fh, Some(top), Some(path))
  {
    assert Line(fh, top, path) == fh + "," + (top + "," + path);
    CutAtComma(fh, top + "," + path);
    CutAtComma(top, path);
    CutPlain(path);
  }

  /** Lines with fewer columns lack the last ones, and columns behind the third are dropped. */
  lemma OtherColumns(fh: string, top: string, path: string, more: string)
    requires ',' !in fh && ',' !in top && ',' !in path
    ensures ParseRow(fh) == Row(fh, None, None)
    ensures ParseRow(fh + "," + top) == Row(fh, Some(top), None)
    ensures ParseRow(Line(fh, top, path) + "," + more) == Row(fh, Some(top), Some(path))
  {
    hide CommaAt;
    CutPlain(fh);
    CutAtComma(fh, top);
    CutPlain(top);
    assert Line(fh, top, path) + "," + more == fh + "," + (top + "," + (path + "," + more));
    CutAtComma(fh, top + "," + (path + "," + more));
    CutAtComma(top, path + "," + more);
    CutAtComma(path, more);
  }
}

/** fullpath-svc.cc: a table of lines, and a loop that answers requests in their order. */
module FullpathService {
  import opened Options
  import opened FullpathRows

  type Table = map<string, string>

  /** The line that answers a request: the table's, or the filehandle itself. */
  function Reply(table: Table, fh: string): string {
    if fh in table then table[fh] else fh
  }

  function Replies(table: Table, requests: seq<string>): seq<string> {
    seq(|requests|, i requires 0 <= i < |requests| => Reply(table, requests[i]))
  }

  /** The table after the tokens of the input have been read; a token without a comma aborts the service. */
  function Load(table: Table, tokens: seq<string>): Option<Table>
    decreases |tokens|
  {
    if tokens == [] then Some(table)
    else if CommaAt(tokens[0]) == |tokens[0]| then None
    else Load(table[tokens[0][..CommaAt(tokens[0])] := tokens[0]], tokens[1..])
  }

  /** Every line is stored under its own first field. */
  ghost predicate TableOk(table: Table) {
    forall fh :: fh in table ==> Cut(table[fh]).0 == fh
  }

  class Service {
    var table: Table

    constructor ()
      ensures table == map[]
    {
      table := map[];
    }

    /** parseInput: `ok` is false when the assertion on a token fails. */
    method ParseInput(tokens: seq<string>) returns (ok: bool)
      requires table == map[]
      modifies this
      ensures ok == Load(map[], tokens).Some?
      ensures ok ==> table == Load(map[], tokens).value && TableOk(table)
    {
      var i := 0;
      while i < |tokens|
        invariant 0 <= i <= |tokens|
        invariant Load(table, tokens[i..]) == Load(map[], tokens)
        invariant TableOk(table)
      {
        var line := tokens[i];
        assert tokens[i..][0] == line && tokens[i..][1..] == tokens[i + 1..];
        var pos := CommaAt(line);
        if pos == |line| {
          return false;
        }
        table := table[line[..pos] := line];
        i := i + 1;
      }
      return true;
    }

    /** serveSocket: one reply for each request line, in order. */
    method ServeSocket(requests: seq<string>) returns (replies: seq<string>)
      ensures replies == Replies(table, requests)
    {
      replies := [];
      var i := 0;
      while i < |requests|
        invariant 0 <= i <= |requests|
        invariant replies == Replies(table, requests[..i])
      {
        var fh := requests[i];
        if fh !in table {
          replies := replies + [fh];
        } else {
          replies := replies + [table[fh]];
        }
        i := i + 1;
      }
      assert requests[..i] == requests;
    }
  }

  /** The last line with a given first field is the one that is served. */
  lemma {:induction false} LastLineWins(table: Table, tokens: seq<string>, j: nat)
    requires Load(table, tokens).Some? && j < |tokens|
    requires forall i :: j < i < |tokens| ==> Cut(tokens[i]).0 != Cut(tokens[j]).0
    ensures Reply(Load(table, tokens).value, Cut(tokens[j]).0) == tokens[j]
    decreases |tokens|
  {
    var table' := table[tokens[0][..CommaAt(tokens[0])] := tokens[0]];
    if j == 0 {
      Untouched(table', tokens[1..], Cut(tokens[0]).0);
    } else {
      LastLineWins(table', tokens[1..], j - 1);
    }
  }

  lemma {:induction false} Untouched(table: Table, tokens: seq<string>, fh: string)
    requires Load(table, tokens).Some?
    requires forall i :: 0 <= i < |tokens| ==> Cut(tokens[i]).0 != fh
    ensures Reply(Load(table, tokens).value, fh) == Reply(table, fh)
    decreases |tokens|
  {
    if tokens != [] {
      assert Cut(tokens[0]).0 != fh;
      Untouched(table[tokens[0][..CommaAt(tokens[0])] := tokens[0]], tokens[1..], fh);
    }
  }
}

/** fullpath.func.js: svcQuerier, with its table of pending callbacks. */
module FullpathQuerier {
  import opened Options
  import opened FullpathRows

  /** Names of callbacks. */
  type Callback = nat

  type Pending = map<string, seq<Callback>>

  datatype Firing = Firing(fh: string, cb: Callback, answer: Answer)

  function Register(pending: Pending, fh: string, cb: Callback): Pending {
    pending[fh := (if fh in pending then pending[fh] else []) + [cb]]
  }

  function Fire(fh: string, cbs: seq<Callback>, answer: Answer): (r: seq<Firing>)
    ensures |r| == |cbs|
    ensures forall i :: 0 <= i < |cbs| ==> r[i] == Firing(fh, cbs[i], answer)
  {
    seq(|cbs|, i requires 0 <= i < |cbs| => Firing(fh, cbs[i], answer))
  }

  /** The callbacks that a result sets off, in their order of registration. */
  function Fired(pending: Pending, row: Row, handler: Handler): seq<Firing> {
    if row.fh in pending then Fire(row.fh, pending[row.fh], Resolve(row, handler)) else []
  }

  class SvcQuerier {
    var pending: Pending
    var sent: seq<string>  // what has been written to the socket, line by line
    const handler: Handler

    constructor (handler: Handler)
      ensures pending == map[] && sent == [] && this.handler == handler
    {
      pending, sent, this.handler := map[], [], handler;
    }

    method Lookup(fh: string, cb: Callback)
      modifies this
      ensures pending == Register(old(pending), fh, cb) && sent == old(sent) + [fh]
    {
      if fh !in pending {
        pending := pending[fh := []];
      }
      pending := pending[fh := pending[fh] + [cb]];
      sent := sent + [fh];
    }

    method ProcessResult(row: Row) returns (fired: seq<Firing>)
      modifies this
      ensures fired == Fired(old(pending), row, handler)
      ensures pending == old(pending) - {row.fh} && sent == old(sent)
    {
      if row.fh !in pending {
        return [];
      }
      var callbacks := pending[row.fh];
      pending := pending - {row.fh};
      var path := NoPath;
      if !Falsy(row.path) {
        if row.top == Some("") {
          path := Path(row.path.value);
        } else {
          path := handler(row);
        }
      }
      fired := [];
      var i := 0;
      while i < |callbacks|
        invariant 0 <= i <= |callbacks|
        invariant fired == Fire(row.fh, callbacks[..i], path)
      {
        fired := fired + [Firing(row.fh, callbacks[i], path)];
        i := i + 1;
      }
      assert callbacks[..i] == callbacks;
    }
  }
}

/**
 * Both processes and the two FIFO channels between them, as a state machine.
 * Every callback fires exactly once, with the value the service's table has for
 * its filehandle, in every interleaving.
 */
module FullpathProtocol {
  import opened Options
  import opened FullpathRows
  import opened FullpathService
  import opened FullpathQuerier

  datatype State = State(table: Table, requests: seq<string>, replies: seq<string>, pending: Pending,
                         issued: multiset<(string, Callback)>, fired: seq<Firing>)

  datatype Step = Ask(fh: string, cb: Callback) | Serve | Receive

  /** A filehandle that its own line format carries: hexadecimal digits in practice. */
  predicate Sendable(fh: string) {
    fh != "" && Plain(fh)
  }

  predicate Enabled(s: State, step: Step) {
    match step
    case Ask(fh, _) => Sendable(fh)
    case Serve => s.requests != []
    case Receive => s.replies != []
  }

  function Next(s: State, step: Step, handler: Handler): State
    requires Enabled(s, step)
  {
    match step
    case Ask(fh, cb) =>
      s.(pending := Register(s.pending, fh, cb), requests := s.requests + [fh],
         issued := s.issued + multiset{(fh, cb)})
    case Serve =>
      s.(requests := s.requests[1..], replies := s.replies + [Reply(s.table, s.requests[0])])
    case Receive =>
      var row := ParseRow(s.replies[0]);
      s.(replies := s.replies[1..], pending := s.pending - {row.fh}, fired := s.fired + Fired(s.pending, row, handler))
  }

  predicate Runs(s: State, steps: seq<Step>, handler: Handler)
    decreases |steps|
  {
    steps == [] || (Enabled(s, steps[0]) && Runs(Next(s, steps[0], handler), steps[1..], handler))
  }

  function Run(s: State, steps: seq<Step>, handler: Handler): State
    requires Runs(s, steps, handler)
    decreases |steps|
  {
    if steps == [] then s else Run(Next(s, steps[0], handler), steps[1..], handler)
  }

  function Start(table: Table): State {
    State(table, [], [], map[], multiset{}, [])
  }

  // ----- the invariant

  /** How often callback `cb` has fired for `fh`. */
  ghost function Count(fired: seq<Firing>, fh: string, cb: Callback): nat {
    if fired == [] then 0
    else (if fired[0].fh == fh && fired[0].cb == cb then 1 else 0) + Count(fired[1..], fh, cb)
  }

  ghost function Waiting(pending: Pending, fh: string, cb: Callback): nat {
    if fh in pending then multiset(pending[fh])[cb] else 0
  }

  /** The value that the table determines for a filehandle. */
  function AnswerFor(table: Table, handler: Handler, fh: string): Answer {
    Resolve(ParseRow(Reply(table, fh)), handler)
  }

  /** A request for `fh`, or the reply to one, is on its way. */
  ghost predicate InFlight(s: State, fh: string) {
    fh in s.requests || Reply(s.table, fh) in s.replies
  }

  ghost predicate Inv(s: State, handler: Handler) {
    && TableOk(s.table)
    && (forall fh :: fh in s.requests ==> Sendable(fh))
    && (forall line :: line in s.replies ==> line == Reply(s.table, ParseRow(line).fh))
    && (forall fh :: fh in s.pending ==> Sendable(fh) && InFlight(s, fh))
    && (forall fh, cb :: s.issued[(fh, cb)] == Count(s.fired, fh, cb) + Waiting(s.pending, fh, cb))
    && (forall f :: f in s.fired ==> f.answer == AnswerFor(s.table, handler, f.fh))
  }

  /** A reply always finds its way back to the filehandle that was asked for. */
  lemma ReplyComesBack(table: Table, fh: string)
    requires TableOk(table) && Sendable(fh)
    ensures ParseRow(Reply(table, fh)).fh == fh
  {
    if fh !in table {
      CutPlain(fh);
    }
  }

  lemma {:induction false} CountConcat(a: seq<Firing>, b: seq<Firing>, fh: string, cb: Callback)
    ensures Count(a + b, fh, cb) == Count(a, fh, cb) + Count(b, fh, cb)
  {
    if a == [] {
      assert a + b == b;
    } else {
      assert (a + b)[1..] == a[1..] + b;
      CountConcat(a[1..], b, fh, cb);
    }
  }

  lemma {:induction false} CountFire(row: string, cbs: seq<Callback>, answer: Answer, fh: string, cb: Callback)
    ensures Count(Fire(row, cbs, answer), fh, cb) == if fh == row then multiset(cbs)[cb] else 0
  {
    if cbs != [] {
      assert Fire(row, cbs, answer)[1..] == Fire(row, cbs[1..], answer);
      CountFire(row, cbs[1..], answer, fh, cb);
      assert cbs == [cbs[0]] + cbs[1..];
    }
  }

  lemma AskKeeps(s: State, fh: string, cb: Callback, handler: Handler)
    requires Inv(s, handler) && Sendable(fh)
    ensures Inv(Next(s, Ask(fh, cb), handler), handler)
  {
    var s' := Next(s, Ask(fh, cb), handler);
    assert s'.requests[|s.requests|] == fh;
    forall h | h in s'.pending ensures Sendable(h) && InFlight(s', h) {
      if h != fh {
        assert InFlight(s, h);
      }
    }
  }

  lemma ServeKeeps(s: State, handler: Handler)
    requires Inv(s, handler) && s.requests != []
    ensures Inv(Next(s, Serve, handler), handler)
  {
    var s' := Next(s, Serve, handler);
    var fh := s.requests[0];
    ReplyComesBack(s.table, fh);
    assert s'.replies[|s.replies|] == Reply(s.table, fh);
    assert s.requests == [fh] + s'.requests;
    forall h | h in s'.pending ensures InFlight(s', h) {
      assert InFlight(s, h);
    }
  }

  lemma ReceiveKeeps(s: State, handler: Handler)
    requires Inv(s, handler) && s.replies != []
    ensures Inv(Next(s, Receive, handler), handler)
  {
    var s' := Next(s, Receive, handler);
    var row := ParseRow(s.replies[0]);
    assert s.replies == [s.replies[0]] + s'.replies;
    assert s.replies[0] in s.replies;
    forall h | h in s'.pending ensures Sendable(h) && InFlight(s', h) {
      assert InFlight(s, h);
      ReplyComesBack(s.table, h);
    }
    forall fh, cb ensures s'.issued[(fh, cb)] == Count(s'.fired, fh, cb) + Waiting(s'.pending, fh, cb) {
      CountConcat(s.fired, Fired(s.pending, row, handler), fh, cb);
      if row.fh in s.pending {
        CountFire(row.fh, s.pending[row.fh], Resolve(row, handler), fh, cb);
      }
    }
  }

  lemma {:induction false} RunKeeps(s: State, steps: seq<Step>, handler: Handler)
    requires Inv(s, handler) && Runs(s, steps, handler)
    ensures Inv(Run(s, steps, handler), handler)
    decreases |steps|
  {
    if steps != [] {
      match steps[0] {
        case Ask(fh, cb) => AskKeeps(s, fh, cb, handler);
        case Serve => ServeKeeps(s, handler);
        case Receive => ReceiveKeeps(s, handler);
      }
      RunKeeps(Next(s, steps[0], handler), steps[1..], handler);
    }
  }

  // ----- the results

  /**
   * Safety, at every point of every interleaving: a callback has fired for a
   * filehandle at most as often as it was registered for it, always with the
   * value the table determines, and whatever is still pending has a request or
   * a reply on its way.
   */
  lemma NeverTwice(table: Table, steps: seq<Step>, handler: Handler)
    requires TableOk(table) && Runs(Start(table), steps, handler)
    ensures var s := Run(Start(table), steps, handler);
            && (forall fh, cb :: Count(s.fired, fh, cb) <= s.issued[(fh, cb)])
            && (forall f :: f in s.fired ==> f.answer == AnswerFor(table, handler, f.fh))
            && (forall fh :: fh in s.pending ==> InFlight(s, fh))
  {
    RunKeeps(Start(table), steps, handler);
    TableKept(Start(table), steps, handler);
  }

  lemma {:induction false} TableKept(s: State, steps: seq<Step>, handler: Handler)
    requires Runs(s, steps, handler)
    ensures Run(s, steps, handler).table == s.table
    decreases |steps|
  {
    if steps != [] {
      TableKept(Next(s, steps[0], handler), steps[1..], handler);
    }
  }

  lemma DrainedIsQuiet(s: State, handler: Handler)
    requires Inv(s, handler) && s.requests == [] && s.replies == []
    ensures s.pending == map[]
  {
    assert forall fh :: fh in s.pending ==> InFlight(s, fh);
  }

  /** Once both channels have drained, nothing is pending, and each callback has fired as often as registered. */
  lemma ExactlyOnce(table: Table, steps: seq<Step>, handler: Handler)
    requires TableOk(table) && Runs(Start(table), steps, handler)
    requires var s := Run(Start(table), steps, handler); s.requests == [] && s.replies == []
    ensures var s := Run(Start(table), steps, handler);
            && s.pending == map[]
            && forall fh, cb :: Count(s.fired, fh, cb) == s.issued[(fh, cb)]
  {
    RunKeeps(Start(table), steps, handler);
    var s := Run(Start(table), steps, handler);
    DrainedIsQuiet(s, handler);
    forall fh, cb ensures Count(s.fired, fh, cb) == s.issued[(fh, cb)] {
      assert Waiting(s.pending, fh, cb) == 0;
    }
  }

  /** How many steps the messages that are on their way can still take. */
  function Work(s: State): nat {
    2 * |s.requests| + |s.replies|
  }

  /** Without new lookups every step uses up work, and there is a step until the channels are empty. */
  lemma Drains(s: State, step: Step, handler: Handler)
    requires Enabled(s, step) && !step.Ask?
    ensures Work(Next(s, step, handler)) == Work(s) - 1
    ensures Work(s) > 0 && (Enabled(s, Serve) || Enabled(s, Receive))
  {
  }

  /** The schedule that serves and receives until the channels are empty. */
  ghost function DrainSteps(requests: nat, replies: nat): seq<Step> {
    if requests > 0 then [Serve] + DrainSteps(requests - 1, replies + 1)
    else if replies > 0 then [Receive] + DrainSteps(0, replies - 1)
    else []
  }

  lemma {:induction false} DrainRuns(s: State, handler: Handler)
    ensures var steps := DrainSteps(|s.requests|, |s.replies|);
            && Runs(s, steps, handler) && |steps| == Work(s)
            && var s' := Run(s, steps, handler);
               s'.requests == [] && s'.replies == [] && s'.issued == s.issued
    decreases Work(s)
  {
    if s.requests != [] {
      DrainRuns(Next(s, Serve, handler), handler);
    } else if s.replies != [] {
      DrainRuns(Next(s, Receive, handler), handler);
    }
  }

  /** From every state of a run, letting the messages on their way arrive makes every registered callback fire. */
  lemma EveryLookupAnswered(s: State, handler: Handler)
    requires Inv(s, handler)
    ensures Runs(s, DrainSteps(|s.requests|, |s.replies|), handler)
    ensures var s' := Run(s, DrainSteps(|s.requests|, |s.replies|), handler);
            s'.pending == map[] && forall fh, cb :: Count(s'.fired, fh, cb) == s.issued[(fh, cb)]
  {
    DrainRuns(s, handler);
    var s' := Run(s, DrainSteps(|s.requests|, |s.replies|), handler);
    RunKeeps(s, DrainSteps(|s.requests|, |s.replies|), handler);
    DrainedIsQuiet(s', handler);
    forall fh, cb ensures Count(s'.fired, fh, cb) == s.issued[(fh, cb)] {
      assert Waiting(s'.pending, fh, cb) == 0;
    }
  }

  lemma {:induction false} WorkLeft(s: State, steps: seq<Step>, handler: Handler)
    requires Runs(s, steps, handler) && forall i :: 0 <= i < |steps| ==> !steps[i].Ask?
    ensures |steps| + Work(Run(s, steps, handler)) == Work(s)
    ensures Run(s, steps, handler).issued == s.issued
    decreases |steps|
  {
    if steps != [] {
      Drains(s, steps[0], handler);
      WorkLeft(Next(s, steps[0], handler), steps[1..], handler);
    }
  }

  /**
   * In whatever order the messages on their way are served and received: after
   * exactly Work(s) steps there are none left and every registered callback has
   * fired, and before that there is always another step.
   */
  lemma AnyOrderAnswers(s: State, steps: seq<Step>, handler: Handler)
    requires Inv(s, handler) && Runs(s, steps, handler) && forall i :: 0 <= i < |steps| ==> !steps[i].Ask?
    ensures |steps| <= Work(s)
    ensures var s' := Run(s, steps, handler);
            if |steps| == Work(s)
            then s'.pending == map[] && forall fh, cb :: Count(s'.fired, fh, cb) == s.issued[(fh, cb)]
            else Enabled(s', Serve) || Enabled(s', Receive)
  {
    WorkLeft(s, steps, handler);
    RunKeeps(s, steps, handler);
    var s' := Run(s, steps, handler);
    if |steps| == Work(s) {
      DrainedIsQuiet(s', handler);
      forall fh, cb ensures Count(s'.fired, fh, cb) == s.issued[(fh, cb)] {
        assert Waiting(s'.pending, fh, cb) == 0;
      }
    }
  }

  // ----- the order in which callbacks fire

  /** The callbacks that have fired for a filehandle, in their order. */
  ghost function FiredFor(fired: seq<Firing>, fh: string): seq<Callback> {
    if fired == [] then []
    else (if fired[0].fh == fh then [fired[0].cb] else []) + FiredFor(fired[1..], fh)
  }

  /** The callbacks that were passed to lookups of a filehandle, in their order. */
  ghost function AskedFor(steps: seq<Step>, fh: string): seq<Callback> {
    if steps == [] then []
    else (if steps[0].Ask? && steps[0].fh == fh then [steps[0].cb] else []) + AskedFor(steps[1..], fh)
  }

  ghost function PendingFor(pending: Pending, fh: string): seq<Callback> {
    if fh in pending then pending[fh] else []
  }

  lemma {:induction false} FiredForConcat(a: seq<Firing>, b: seq<Firing>, fh: string)
    ensures FiredFor(a + b, fh) == FiredFor(a, fh) + FiredFor(b, fh)
  {
    hide FiredFor;
    if a == [] {
      assert a + b == b;
      NothingFired(fh);
    } else {
      assert (a + b)[1..] == a[1..] + b;
      FiredForConcat(a[1..], b, fh);
      FirstFired(a + b, fh);
      FirstFired(a, fh);
      var first := if a[0].fh == fh then [a[0].cb] else [];
      Regroup(first, FiredFor(a[1..], fh), FiredFor(b, fh), FiredFor(a[1..] + b, fh));
    }
  }

  lemma FirstFired(fired: seq<Firing>, fh: string)
    requires fired != []
    ensures FiredFor(fired, fh) == (if fired[0].fh == fh then [fired[0].cb] else []) + FiredFor(fired[1..], fh)
  {
  }

  lemma NothingFired(fh: string)
    ensures FiredFor([], fh) == []
  {
  }

  lemma Regroup(a: seq<Callback>, b: seq<Callback>, c: seq<Callback>, d: seq<Callback>)
    requires b + c == d
    ensures (a + b) + c == a + d
  {
  }

  lemma {:induction false} FiredForFire(row: string, cbs: seq<Callback>, answer: Answer, fh: string)
    ensures FiredFor(Fire(row, cbs, answer), fh) == if fh == row then cbs else []
  {
    if cbs != [] {
      assert Fire(row, cbs, answer)[1..] == Fire(row, cbs[1..], answer);
      FiredForFire(row, cbs[1..], answer, fh);
    }
  }

  lemma ReceiveInOrder(s: State, handler: Handler, fh: string)
    requires s.replies != []
    ensures var s' := Next(s, Receive, handler);
            FiredFor(s'.fired, fh) + PendingFor(s'.pending, fh)
            == FiredFor(s.fired, fh) + PendingFor(s.pending, fh)
  {
    hide ParseRow, Resolve, Reply, FiredFor, Fire;
    var row := ParseRow(s.replies[0]);
    var now := Fired(s.pending, row, handler);
    FiredForConcat(s.fired, now, fh);
    if row.fh in s.pending {
      FiredForFire(row.fh, s.pending[row.fh], Resolve(row, handler), fh);
    } else {
      NothingFired(fh);
    }
    var left := PendingFor(s.pending - {row.fh}, fh);
    assert FiredFor(now, fh) == if row.fh == fh then PendingFor(s.pending, fh) else [];
    assert left == if row.fh == fh then [] else PendingFor(s.pending, fh);
    Regroup(FiredFor(s.fired, fh), FiredFor(now, fh), left, PendingFor(s.pending, fh));
  }

  lemma OrderKept(s: State, step: Step, handler: Handler, fh: string)
    requires Enabled(s, step)
    ensures var s' := Next(s, step, handler);
            FiredFor(s'.fired, fh) + PendingFor(s'.pending, fh)
            == FiredFor(s.fired, fh) + PendingFor(s.pending, fh) + AskedFor([step], fh)
  {
    hide ParseRow, Reply, FiredFor, Fired;
    assert [step][1..] == [] && AskedFor([], fh) == [];
    if step.Receive? {
      ReceiveInOrder(s, handler, fh);
    }
  }

  /**
   * For each filehandle the callbacks fire in the order of their lookups: those
   * that have fired, and then those that are pending, are those that were asked.
   */
  lemma {:induction false} FiresInOrder(s: State, steps: seq<Step>, handler: Handler, fh: string)
    requires Runs(s, steps, handler)
    ensures var s' := Run(s, steps, handler);
            FiredFor(s'.fired, fh) + PendingFor(s'.pending, fh)
            == FiredFor(s.fired, fh) + PendingFor(s.pending, fh) + AskedFor(steps, fh)
    decreases |steps|
  {
    hide FiredFor, PendingFor, AskedFor, Next, Enabled;
    if steps == [] {
      NothingAsked(fh);
    } else {
      var s1 := Next(s, steps[0], handler);
      OrderKept(s, steps[0], handler, fh);
      FiresInOrder(s1, steps[1..], handler, fh);
      FirstAsked(steps, fh);
      Regroup(FiredFor(s.fired, fh) + PendingFor(s.pending, fh), AskedFor([steps[0]], fh),
              AskedFor(steps[1..], fh), AskedFor(steps, fh));
    }
  }

  lemma NothingAsked(fh: string)
    ensures AskedFor([], fh) == []
  {
  }

  lemma FirstAsked(steps: seq<Step>, fh: string)
    requires steps != []
    ensures AskedFor([steps[0]], fh) + AskedFor(steps[1..], fh) == AskedFor(steps, fh)
  {
    assert [steps[0]][1..] == [];
  }

  // ----- from the lines that were loaded to the value that a callback gets

  lemma {:induction false} LoadedHaveCommas(table: Table, tokens: seq<string>)
    requires Load(table, tokens).Some?
    ensures forall i :: 0 <= i < |tokens| ==> CommaAt(tokens[i]) < |tokens[i]|
    decreases |tokens|
  {
    if tokens != [] {
      LoadedHaveCommas(table[tokens[0][..CommaAt(tokens[0])] := tokens[0]], tokens[1..]);
    }
  }

  /** The line is one of the filehandle: the filehandle, and a comma behind it. */
  predicate LineOf(line: string, fh: string) {
    fh + "," <= line
  }

  lemma FirstField(line: string, fh: string)
    requires ',' !in fh && CommaAt(line) < |line|
    ensures LineOf(line, fh) <==> Cut(line).0 == fh
  {
    hide CommaAt;
    var n := |fh|;
    if LineOf(line, fh) {
      assert (fh + ",")[n] == ',' && (fh + ",")[..n] == fh;
      assert line[n] == ',' && line[..n] == fh;
      CommaAtIs(line, n);
    }
    if line[..CommaAt(line)] == fh {
      assert line[n] == ',';
      assert line[..n + 1] == fh + ",";
    }
  }

  /** A filehandle of which no line was loaded: its callbacks get `false`. */
  lemma UnknownGivesNoPath(tokens: seq<string>, steps: seq<Step>, handler: Handler, f: Firing)
    requires Load(map[], tokens).Some? && Runs(Start(Load(map[], tokens).value), steps, handler)
    requires f in Run(Start(Load(map[], tokens).value), steps, handler).fired && Sendable(f.fh)
    requires forall i :: 0 <= i < |tokens| ==> !LineOf(tokens[i], f.fh)
    ensures f.answer == NoPath
  {
    hide Runs, Run, LineOf, CommaAt;
    Loaded(map[], tokens);
    NeverTwice(Load(map[], tokens).value, steps, handler);
    LoadedHaveCommas(map[], tokens);
    forall i | 0 <= i < |tokens| ensures Cut(tokens[i]).0 != f.fh {
      FirstField(tokens[i], f.fh);
    }
    Untouched(map[], tokens, f.fh);
    CutPlain(f.fh);
  }

  lemma {:induction false} Loaded(table: Table, tokens: seq<string>)
    requires Load(table, tokens).Some? && TableOk(table)
    ensures TableOk(Load(table, tokens).value)
    decreases |tokens|
  {
    if tokens != [] {
      Loaded(table[tokens[0][..CommaAt(tokens[0])] := tokens[0]], tokens[1..]);
    }
  }

  /**
   * A filehandle of which lines were loaded: the last of them decides, by its
   * first three columns. Without a path its callbacks get `false`, with a path
   * of a known mountpoint they get the path, and otherwise what the handler
   * makes of the line.
   */
  lemma LastLineDecides(tokens: seq<string>, j: nat, top: string, path: string,
                        steps: seq<Step>, handler: Handler, f: Firing)
    requires Load(map[], tokens).Some? && Runs(Start(Load(map[], tokens).value), steps, handler)
    requires f in Run(Start(Load(map[], tokens).value), steps, handler).fired && Sendable(f.fh)
    requires j < |tokens| && ',' !in top && ',' !in path
    requires var line := f.fh + "," + top + "," + path; tokens[j] == line || line + "," <= tokens[j]
    requires forall i :: j < i < |tokens| ==> !LineOf(tokens[i], f.fh)
    ensures f.answer == if path == "" then NoPath
                        else if top == "" then Path(path)
                        else handler(Row(f.fh, Some(top), Some(path)))
  {
    hide Runs, Run, LineOf, CommaAt;
    Loaded(map[], tokens);
    NeverTwice(Load(map[], tokens).value, steps, handler);
    LoadedHaveCommas(map[], tokens);
    ThreeColumns(tokens[j], f.fh, top, path);
    forall i | j < i < |tokens| ensures Cut(tokens[i]).0 != Cut(tokens[j]).0 {
      FirstField(tokens[i], f.fh);
    }
    LastLineWins(map[], tokens, j);
  }

  lemma ThreeColumns(line: string, fh: string, top: string, path: string)
    requires ',' !in fh && ',' !in top && ',' !in path
    requires line == fh + "," + top + "," + path || fh + "," + top + "," + path + "," <= line
    ensures ParseRow(line) == Row(fh, Some(top), Some(path)) && Cut(line).0 == fh
  {
    hide Cut;
    var three := fh + "," + top + "," + path;
    RowRoundTrip(fh, top, path);
    if line != three {
      OtherColumns(fh, top, path, line[|three| + 1..]);
      assert line == three + "," + line[|three| + 1..];
    }
  }

  /** A filehandle whose last line has no path column: its callbacks get `false`. */
  lemma PathlessLine(tokens: seq<string>, j: nat, top: string, steps: seq<Step>, handler: Handler, f: Firing)
    requires Load(map[], tokens).Some? && Runs(Start(Load(map[], tokens).value), steps, handler)
    requires f in Run(Start(Load(map[], tokens).value), steps, handler).fired && Sendable(f.fh)
    requires j < |tokens| && tokens[j] == f.fh + "," + top && ',' !in top
    requires forall i :: j < i < |tokens| ==> !LineOf(tokens[i], f.fh)
    ensures f.answer == NoPath
  {
    hide Runs, Run, LineOf, CommaAt;
    Loaded(map[], tokens);
    NeverTwice(Load(map[], tokens).value, steps, handler);
    LoadedHaveCommas(map[], tokens);
    OtherColumns(f.fh, top, "", "");
    CutAtComma(f.fh, top);
    forall i | j < i < |tokens| ensures Cut(tokens[i]).0 != Cut(tokens[j]).0 {
      FirstField(tokens[i], f.fh);
    }
    LastLineWins(map[], tokens, j);
  }

  /** The path that the default handler makes up. */
  lemma DefaultPath(fh: string, top: string, path: string)
    ensures DefaultHandler(Row(fh, Some(top), Some(path))) == Path("/UNRESOLVED-" + top + "/" + path)
  {
  }

  // ----- the two queriers compared

  /** What mapQuerier keeps for a row, which is what its lookup gives: None is `undefined`. */
  function MapEntry(row: Row, handler: Handler): Option<string> {
    if !Falsy(row.top) then
      match handler(row)
      case NoPath => None
      case Path(p) => if p == "" then None else Some(p)
    else row.path
  }

  /** Up to falsiness, the answers of the two queriers to a lookup. */
  function AsMapResult(a: Answer): Option<string> {
    match a
    case NoPath => None
    case Path(p) => if p == "" then None else Some(p)
  }

  function Truthy(s: Option<string>): Option<string> {
    if Falsy(s) then None else s
  }

  /**
   * A file read into memory and the same file behind the service answer a
   * lookup alike, whatever the handler, except for a row that names an
   * unresolved top but no path: the service client drops it, the in-memory one
   * asks the handler for a path.
   */
  lemma QueriersAgreeIff(fh: string, top: string, path: string, handler: Handler)
    requires ',' !in fh && ',' !in top && ',' !in path
    ensures var row := ParseRow(Line(fh, top, path));
            Truthy(MapEntry(row, handler)) == AsMapResult(Resolve(row, handler))
            <==> !(top != "" && path == "" && AsMapResult(handler(row)).Some?)
  {
    RowRoundTrip(fh, top, path);
  }

  /** The default handler always gives a path, so with it the queriers differ on all those rows. */
  lemma DefaultQueriersAgreeIff(fh: string, top: string, path: string)
    requires ',' !in fh && ',' !in top && ',' !in path
    ensures var row := ParseRow(Line(fh, top, path));
            Truthy(MapEntry(row, DefaultHandler)) == AsMapResult(Resolve(row, DefaultHandler))
            <==> !(top != "" && path == "")
  {
    QueriersAgreeIff(fh, top, path, DefaultHandler);
  }
}
