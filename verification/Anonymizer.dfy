/**
 * The persistent identifier maps of anonymize.pl: a cache in front of a
 * database file in front of a counter, over any number of runs of the program.
 */
module Anonymizer {
  import opened Options
  import opened Printing

  /** A Perl scalar as these maps store it. */
  datatype Value = Text(text: string) | Number(number: nat)

  type Table = map<string, Value>

  const MAXKEY := "MAX KEY"

  /** `sprintf ("%.4x", n)` */
  function Hex4(n: nat): (s: string)
    ensures |s| == if |Hex(n)| < 4 then 4 else |Hex(n)|
  {
    Zeros(4 - |Hex(n)|) + Hex(n)
  }

  function Zeros(n: int): (s: string)
    ensures |s| == if n > 0 then n else 0
  {
    if n <= 0 then "" else "0" + Zeros(n - 1)
  }

  /** How a counter value is stored: hexadecimal text, at least four digits of it for words, or for hosts the number. */
  datatype Format = Hexadecimal | FourDigits | Plain

  function Render(format: Format, n: nat): Value {
    match format
    case Hexadecimal => Text(Hex(n))
    case FourDigits => Text(Hex4(n))
    case Plain => Number(n)
  }

  /** What distinguishes the maps: the ids that stand for themselves, the first counter value, the format. */
  datatype Kind = Kind(unmapped: set<string>, first: nat, format: Format)

  const UNMAPPED_UIDS := {"0", "1", "2", "3", "4", "60001", "60002", "65533", "65534", "65535"}
  const UNMAPPED_GIDS := UNMAPPED_UIDS + {"6", "7", "8"}

  const UIDS := Kind(UNMAPPED_UIDS, 101000, Hexadecimal)
  const GIDS := Kind(UNMAPPED_GIDS, 101000, Hexadecimal)
  const FILEIDS := Kind({}, 101000, Hexadecimal)
  const HOSTS := Kind({}, 30, Plain)
  const WORDS := Kind(MAIL_WORDS + APPLET_WORDS + DESKTOP_WORDS, 0, FourDigits)

  /** The database file, and the variables of the running program. */
  datatype State = State(db: Table, cache: Table, counter: nat)

  /** The state in which a run begins: openMapFiles and initializeMaps on what is in the file. */
  function Open(kind: Kind, db: Table): State {
    var counter := if MAXKEY in db && db[MAXKEY].Number? then db[MAXKEY].number else kind.first;
    State(db[MAXKEY := Number(counter)] + map w | w in kind.unmapped :: Text(w), map[], counter)
  }

  /** One of the anonymize functions. Gives the new state and the value for `id`. */
  function Lookup(kind: Kind, s: State, id: string): (State, Value) {
    if id in s.cache then (s, s.cache[id])
    else if id in s.db then (s.(cache := s.cache[id := s.db[id]]), s.db[id])
    else
      var v := Render(kind.format, s.counter);
      (State(s.db[id := v][MAXKEY := Number(s.counter + 1)], s.cache[id := v], s.counter + 1), v)
  }

  // ----- hexadecimal text

  lemma {:induction false} ValueOfZeros(k: int, s: string)
    ensures ValueOf(Zeros(k) + s, 16) == ValueOf(s, 16)
    ensures forall i :: 0 <= i < |Zeros(k)| ==> Zeros(k)[i] == '0'
    decreases |s|, k
  {
    var t := Zeros(k) + s;
    if s != "" {
      assert t[..|t| - 1] == Zeros(k) + s[..|s| - 1];
      ValueOfZeros(k, s[..|s| - 1]);
    } else {
      assert t == Zeros(k);
      OnlyZeros(k);
    }
  }

  lemma {:induction false} OnlyZeros(k: int)
    ensures forall i :: 0 <= i < |Zeros(k)| ==> Zeros(k)[i] == '0'
    ensures ValueOf(Zeros(k), 16) == 0
  {
    if k > 0 {
      OnlyZeros(k - 1);
      assert Zeros(k)[..k - 1] == Zeros(k - 1);
    }
  }

  /** What the conversion `%.4x` prints reads as the number. */
  lemma FourDigitsReadBack(n: nat)
    ensures |Hex4(n)| >= 4 && ValueOf(Hex4(n), 16) == n
    ensures |Hex4(n)| > 4 ==> IsNumeral(Hex4(n), 16)
  {
    hide Hex, ValueOf, Zeros;
    HexReadsBack(n);
    ValueOfZeros(4 - |Hex(n)|, Hex(n));
    assert |Hex(n)| >= 4 ==> Zeros(4 - |Hex(n)|) + Hex(n) == Hex(n);
  }

  lemma RenderInjective(format: Format, m: nat, n: nat)
    requires Render(format, m) == Render(format, n)
    ensures m == n
  {
    hide Hex, Hex4, ValueOf;
    HexReadsBack(m);
    HexReadsBack(n);
    FourDigitsReadBack(m);
    FourDigitsReadBack(n);
  }

  // ----- what every run keeps

  /** `k` is the number that was allocated to `id`. */
  ghost predicate AllocatedTo(kind: Kind, s: State, id: string, n: nat) {
    id in s.db && id != MAXKEY && id !in kind.unmapped && s.db[id] == Render(kind.format, n)
  }

  ghost predicate Used(kind: Kind, s: State, n: nat) {
    exists id :: AllocatedTo(kind, s, id, n)
  }

  /** The numbers from the first up to the counter have been given out, each to exactly one id. */
  ghost predicate Allocations(kind: Kind, s: State) {
    && (forall id :: id in s.db && id != MAXKEY && id !in kind.unmapped ==>
          exists n :: kind.first <= n < s.counter && AllocatedTo(kind, s, id, n))
    && (forall n :: kind.first <= n < s.counter ==> Used(kind, s, n))
    && (forall id, id', n :: AllocatedTo(kind, s, id, n) && AllocatedTo(kind, s, id', n) ==> id == id')
  }

  ghost predicate Inv(kind: Kind, s: State) {
    && MAXKEY !in kind.unmapped
    && MAXKEY in s.db && s.db[MAXKEY] == Number(s.counter)
    && kind.first <= s.counter
    && (forall id :: id in s.cache ==> id in s.db && id != MAXKEY && s.db[id] == s.cache[id])
    && (forall w :: w in kind.unmapped ==> w in s.db && s.db[w] == Text(w))
    && Allocations(kind, s)
  }

  lemma OpenEmpty(kind: Kind)
    requires MAXKEY !in kind.unmapped
    ensures Inv(kind, Open(kind, map[]))
  {
  }

  /** Starting again on the file changes nothing, whether or not the last run closed it. */
  lemma OpenAgain(kind: Kind, s: State)
    requires Inv(kind, s)
    ensures Open(kind, s.db) == s.(cache := map[]) && Inv(kind, Open(kind, s.db))
  {
    assert Open(kind, s.db).db == s.db;
    SameAllocations(kind, s, Open(kind, s.db));
  }

  lemma SameAllocations(kind: Kind, s: State, s': State)
    requires Allocations(kind, s) && s'.db == s.db && s'.counter == s.counter
    ensures Allocations(kind, s')
  {
    forall id | id in s'.db && id != MAXKEY && id !in kind.unmapped
      ensures exists n :: kind.first <= n < s'.counter && AllocatedTo(kind, s', id, n)
    {
      var n :| kind.first <= n < s.counter && AllocatedTo(kind, s, id, n);
      assert AllocatedTo(kind, s', id, n);
    }
    forall n | kind.first <= n < s'.counter ensures Used(kind, s', n) {
      assert Used(kind, s, n);
      var id :| AllocatedTo(kind, s, id, n);
      assert AllocatedTo(kind, s', id, n);
    }
    forall id, id', n | AllocatedTo(kind, s', id, n) && AllocatedTo(kind, s', id', n) ensures id == id' {
      assert AllocatedTo(kind, s, id, n) && AllocatedTo(kind, s, id', n);
    }
  }

  lemma NewAllocation(kind: Kind, s: State, id: string)
    requires Inv(kind, s) && id != MAXKEY && id !in s.cache && id !in s.db
    ensures Allocations(kind, Lookup(kind, s, id).0)
  {
    var s' := Lookup(kind, s, id).0;
    assert AllocatedTo(kind, s', id, s.counter);
    forall x, n ensures AllocatedTo(kind, s', x, n) <==> AllocatedTo(kind, s, x, n) || (x == id && n == s.counter) {
      if x == id && AllocatedTo(kind, s', x, n) {
        RenderInjective(kind.format, n, s.counter);
      }
    }
    forall x | x in s'.db && x != MAXKEY && x !in kind.unmapped
      ensures exists n :: kind.first <= n < s'.counter && AllocatedTo(kind, s', x, n)
    {
      if x != id {
        var n :| kind.first <= n < s.counter && AllocatedTo(kind, s, x, n);
        assert AllocatedTo(kind, s', x, n);
      }
    }
    forall n | kind.first <= n < s'.counter ensures Used(kind, s', n) {
      if n < s.counter {
        assert Used(kind, s, n);
        var x :| AllocatedTo(kind, s, x, n);
        assert AllocatedTo(kind, s', x, n);
      }
    }
    forall x, x', n | AllocatedTo(kind, s', x, n) && AllocatedTo(kind, s', x', n) ensures x == x' {
      if AllocatedTo(kind, s, x, n) && !AllocatedTo(kind, s, x', n) {
        BelowCounter(kind, s, x, n);
      }
      if AllocatedTo(kind, s, x', n) && !AllocatedTo(kind, s, x, n) {
        BelowCounter(kind, s, x', n);
      }
    }
  }

  lemma BelowCounter(kind: Kind, s: State, id: string, n: nat)
    requires Inv(kind, s) && AllocatedTo(kind, s, id, n)
    ensures kind.first <= n < s.counter
  {
    var m :| kind.first <= m < s.counter && AllocatedTo(kind, s, id, m);
    RenderInjective(kind.format, m, n);
  }

  /** One call keeps the invariant; the value it gives is what the database then has for the id. */
  lemma AnonymizeKeeps(kind: Kind, s: State, id: string)
    requires Inv(kind, s) && id != MAXKEY
    ensures var (s', v) := Lookup(kind, s, id);
            && Inv(kind, s')
            && id in s'.db && s'.db[id] == v
            && (forall x :: x in s.db && x != MAXKEY ==> x in s'.db && s'.db[x] == s.db[x])
  {
    var (s', v) := Lookup(kind, s, id);
    if id !in s.cache && id !in s.db {
      NewAllocation(kind, s, id);
    } else {
      SameAllocations(kind, s, s');
    }
  }

  // ----- whole histories

  datatype Event = Ask(id: string) | Restart

  ghost predicate Valid(events: seq<Event>) {
    forall i :: 0 <= i < |events| && events[i].Ask? ==> events[i].id != MAXKEY
  }

  function Next(kind: Kind, s: State, e: Event): State {
    match e
    case Ask(id) => Lookup(kind, s, id).0
    case Restart => Open(kind, s.db)
  }

  /** The state after a history of calls and restarts. */
  function After(kind: Kind, s: State, events: seq<Event>): State
    decreases |events|
  {
    if events == [] then s else After(kind, Next(kind, s, events[0]), events[1..])
  }

  lemma NextKeeps(kind: Kind, s: State, e: Event)
    requires Inv(kind, s) && Valid([e])
    ensures Inv(kind, Next(kind, s, e))
    ensures forall x :: x in s.db && x != MAXKEY ==> x in Next(kind, s, e).db && Next(kind, s, e).db[x] == s.db[x]
  {
    assert [e][0] == e;
    match e
    case Ask(id) => AnonymizeKeeps(kind, s, id);
    case Restart => OpenAgain(kind, s);
  }

  /** No history loses or changes a binding. */
  lemma {:induction false} HistoryKeeps(kind: Kind, s: State, events: seq<Event>)
    requires Inv(kind, s) && Valid(events)
    ensures Inv(kind, After(kind, s, events))
    ensures forall x :: x in s.db && x != MAXKEY ==>
              x in After(kind, s, events).db && After(kind, s, events).db[x] == s.db[x]
    decreases |events|
  {
    if events != [] {
      NextKeeps(kind, s, events[0]);
      HistoryKeeps(kind, Next(kind, s, events[0]), events[1..]);
    }
  }

  /** Asking for the same id twice gives the same value, whatever other calls and restarts lie in between. */
  lemma Stable(kind: Kind, s: State, id: string, events: seq<Event>)
    requires Inv(kind, s) && id != MAXKEY && Valid(events)
    ensures var (s1, v) := Lookup(kind, s, id);
            Lookup(kind, After(kind, s1, events), id).1 == v
  {
    var (s1, v) := Lookup(kind, s, id);
    AnonymizeKeeps(kind, s, id);
    HistoryKeeps(kind, s1, events);
  }

  // ----- which value an id gets

  lemma {:induction false} AfterMore(kind: Kind, s: State, events: seq<Event>, e: Event)
    ensures After(kind, s, events + [e]) == Next(kind, After(kind, s, events), e)
    decreases |events|
  {
    hide Next;
    if events == [] {
      assert [e][1..] == [] && [] + [e] == [e];
    } else {
      assert (events + [e])[1..] == events[1..] + [e];
      AfterMore(kind, Next(kind, s, events[0]), events[1..], e);
    }
  }

  /** The ids that were asked for and do not stand for themselves, in the order of their first appearance. */
  function Asked(kind: Kind, events: seq<Event>): seq<string> {
    if events == [] then []
    else
      var before := Asked(kind, events[..|events| - 1]);
      match events[|events| - 1]
      case Restart => before
      case Ask(id) => if id in kind.unmapped || id in before then before else before + [id]
  }

  /** The database holds `ids`, numbered from the first number on, and besides only what it began with. */
  ghost predicate Numbered(kind: Kind, s: State, ids: seq<string>) {
    && s.counter == kind.first + |ids| && MAXKEY !in ids
    && (forall id :: id in s.db <==> id == MAXKEY || id in kind.unmapped || id in ids)
    && forall j :: 0 <= j < |ids| ==> s.db[ids[j]] == Render(kind.format, kind.first + j)
  }

  lemma NumberedMore(kind: Kind, s: State, ids: seq<string>, id: string)
    requires Inv(kind, s) && Numbered(kind, s, ids) && id != MAXKEY
    ensures Numbered(kind, Lookup(kind, s, id).0, if id in kind.unmapped || id in ids then ids else ids + [id])
  {
    hide Render, Allocations;
    if id !in s.db {
      hide Inv;
      var s', more := Lookup(kind, s, id).0, ids + [id];
      assert s'.db.Keys == s.db.Keys + {id, MAXKEY};
      assert forall x :: x in more <==> x in ids || x == id;
      forall j | 0 <= j < |more| ensures s'.db[more[j]] == Render(kind.format, kind.first + j) {
        if j < |ids| {
          assert ids[j] in ids;
        }
      }
    }
  }

  /** The ids are numbered without gaps in the order of their first appearance, whatever the history. */
  lemma {:induction false} NumberedInOrder(kind: Kind, events: seq<Event>)
    requires MAXKEY !in kind.unmapped && Valid(events)
    ensures Numbered(kind, After(kind, Open(kind, map[]), events), Asked(kind, events))
  {
    hide Numbered, Inv, Lookup;
    OpenEmpty(kind);
    if events == [] {
      NoneNumbered(kind);
    } else {
      var n := |events| - 1;
      var s := After(kind, Open(kind, map[]), events[..n]);
      NumberedInOrder(kind, events[..n]);
      HistoryKeeps(kind, Open(kind, map[]), events[..n]);
      AfterMore(kind, Open(kind, map[]), events[..n], events[n]);
      assert events[..n] + [events[n]] == events;
      if events[n].Restart? {
        OpenAgain(kind, s);
        SameNumbers(kind, s, Open(kind, s.db), Asked(kind, events));
      } else {
        NumberedMore(kind, s, Asked(kind, events[..n]), events[n].id);
      }
    }
  }

  lemma NoneNumbered(kind: Kind)
    ensures Numbered(kind, Open(kind, map[]), [])
  {
  }

  lemma SameNumbers(kind: Kind, s: State, s': State, ids: seq<string>)
    requires Numbered(kind, s, ids) && s'.db == s.db && s'.counter == s.counter
    ensures Numbered(kind, s', ids)
  {
  }

  /** Ids of a map's list stand for themselves at any time. */
  lemma Unmapped(kind: Kind, s: State, id: string)
    requires Inv(kind, s) && id in kind.unmapped
    ensures Lookup(kind, s, id).1 == Text(id)
  {
  }

  /** The value that is given first, map by map. */
  lemma FirstGiven(id: string)
    requires id != "MAX KEY"
    ensures Lookup(UIDS, Open(UIDS, map[]), id).1
            == Text(if id in ["0", "1", "2", "3", "4", "60001", "60002", "65533", "65534", "65535"]
                    then id else "18a88")
    ensures Lookup(GIDS, Open(GIDS, map[]), id).1
            == Text(if id in ["0", "1", "2", "3", "4", "6", "7", "8", "60001", "60002", "65533", "65534", "65535"]
                    then id else "18a88")
    ensures Lookup(FILEIDS, Open(FILEIDS, map[]), id).1 == Text("18a88")
    ensures Lookup(HOSTS, Open(HOSTS, map[]), id).1 == Number(30)
    ensures id !in WORDS.unmapped ==> Lookup(WORDS, Open(WORDS, map[]), id).1 == Text("0000")
  {
    FirstTexts();
    hide Hex, Hex4, MAIL_WORDS, APPLET_WORDS, DESKTOP_WORDS;
  }

  lemma FirstTexts()
    ensures Hex(101000) == "18a88" && Hex4(0) == "0000"
  {
    assert Hex(1) == "1" && Hex(0) == "0";
    assert Zeros(3) == "000" by {
      assert Zeros(1) == "0" && Zeros(2) == "00";
    }
    hide Hex, Zeros;
    HexStep(24);
    HexStep(394);
    HexStep(6312);
    HexStep(101000);
  }

  // ----- injectivity

  /** Different ids have different values. */
  ghost predicate Injective(s: State) {
    forall x, y :: x in s.db && y in s.db && x != MAXKEY && y != MAXKEY && s.db[x] == s.db[y] ==> x == y
  }

  /** A number whose rendering is also an id that stands for itself. */
  predicate Clashes(kind: Kind, n: nat) {
    exists w :: w in kind.unmapped && Render(kind.format, n) == Text(w)
  }

  /** The map is injective exactly as long as no number was given out that looks like an unmapped id. */
  lemma InjectiveIff(kind: Kind, s: State)
    requires Inv(kind, s)
    ensures Injective(s) <==> forall n :: kind.first <= n < s.counter ==> !Clashes(kind, n)
  {
    if n :| kind.first <= n < s.counter && Clashes(kind, n) {
      var w :| w in kind.unmapped && Render(kind.format, n) == Text(w);
      assert Used(kind, s, n);
      var id :| AllocatedTo(kind, s, id, n);
      assert s.db[w] == s.db[id] && id != w;
    } else {
      forall x, y | x in s.db && y in s.db && x != MAXKEY && y != MAXKEY && s.db[x] == s.db[y] ensures x == y {
        NoClash(kind, s, x, y);
      }
    }
  }

  lemma NoClash(kind: Kind, s: State, x: string, y: string)
    requires Inv(kind, s) && forall n :: kind.first <= n < s.counter ==> !Clashes(kind, n)
    requires x in s.db && y in s.db && x != MAXKEY && y != MAXKEY && s.db[x] == s.db[y]
    ensures x == y
  {
    if x !in kind.unmapped && y !in kind.unmapped {
      var n :| kind.first <= n < s.counter && AllocatedTo(kind, s, x, n);
      var m :| kind.first <= m < s.counter && AllocatedTo(kind, s, y, m);
      RenderInjective(kind.format, n, m);
    } else if x !in kind.unmapped {
      NotAnUnmappedId(kind, s, x, y);
    } else if y !in kind.unmapped {
      NotAnUnmappedId(kind, s, y, x);
    }
  }

  lemma NotAnUnmappedId(kind: Kind, s: State, id: string, w: string)
    requires Inv(kind, s) && forall n :: kind.first <= n < s.counter ==> !Clashes(kind, n)
    requires id in s.db && id != MAXKEY && id !in kind.unmapped && w in kind.unmapped
    ensures s.db[id] != s.db[w]
  {
    var n :| kind.first <= n < s.counter && AllocatedTo(kind, s, id, n);
    assert !Clashes(kind, n);
  }

  /** The first number whose hexadecimal text is an unmapped uid or gid: 292217 allocations after the start. */
  const FIRST_CLASH := 0x60001

  lemma HexOfClash()
    ensures Hex(FIRST_CLASH) == "60001"
  {
    calc {
      Hex(0x60001);
      Hex(0x6000) + ['1'];
      Hex(0x600) + ['0'] + ['1'];
      Hex(0x60) + ['0'] + ['0'] + ['1'];
      Hex(0x6) + ['0'] + ['0'] + ['0'] + ['1'];
    }
  }

  lemma HexOfFiveDigits(n: nat)
    requires 0x10000 <= n < 0x100000
    ensures |Hex(n)| == 5 && Hex(n)[0] == HEX_DIGITS[n / 0x10000] && Hex(n)[4] == HEX_DIGITS[n % 16]
  {
    var d := n / 0x10000;
    assert n / 16 / 16 / 16 / 16 == d;
    assert Hex(d) == [HEX_DIGITS[d]];
    hide Hex;
    HexStep(n / 16 / 16 / 16);
    HexStep(n / 16 / 16);
    HexStep(n / 16);
    HexStep(n);
  }

  /** Every unmapped id that five hexadecimal digits can spell begins with a 6, and none is 60000. */
  lemma NoEarlyClash(n: nat)
    requires 101000 <= n < FIRST_CLASH
    ensures Hex(n) !in UNMAPPED_GIDS
  {
    HexOfFiveDigits(n);
    if n < 0x60000 {
      assert n / 0x10000 < 6;
    } else {
      assert Hex(n)[4] == '0';
    }
  }

  /**
   * The uid and gid maps are injective if and only if the counter has not
   * passed 0x60001, the number whose text is the unmapped id 60001.
   */
  lemma UidsInjectiveIff(kind: Kind, s: State)
    requires kind == UIDS || kind == GIDS
    requires Inv(kind, s)
    ensures Injective(s) <==> s.counter <= FIRST_CLASH
  {
    hide Inv, Injective, Clashes;
    InjectiveIff(kind, s);
    ClashesFrom(kind);
    assert s.counter > FIRST_CLASH ==> kind.first <= FIRST_CLASH < s.counter;
  }

  lemma ClashesFrom(kind: Kind)
    requires kind == UIDS || kind == GIDS
    ensures Clashes(kind, FIRST_CLASH)
    ensures forall n :: kind.first <= n < FIRST_CLASH ==> !Clashes(kind, n)
  {
    hide Hex;
    HexOfClash();
    assert Render(kind.format, FIRST_CLASH) == Text("60001");
    forall n | kind.first <= n < FIRST_CLASH ensures !Clashes(kind, n) {
      NoEarlyClash(n);
    }
  }

  /** In every history from an empty file, across all restarts, the same id keeps its value. */
  lemma StableFromEmpty(kind: Kind, past: seq<Event>, id: string, events: seq<Event>)
    requires MAXKEY !in kind.unmapped && Valid(past) && id != MAXKEY && Valid(events)
    ensures var (s, v) := Lookup(kind, After(kind, Open(kind, map[]), past), id);
            Lookup(kind, After(kind, s, events), id).1 == v
  {
    hide Inv, Lookup, Open, Valid;
    OpenEmpty(kind);
    HistoryKeeps(kind, Open(kind, map[]), past);
    Stable(kind, After(kind, Open(kind, map[]), past), id, events);
  }

  /** After every history from an empty file, the uid and gid maps are injective exactly up to the same bound. */
  lemma UidsFromEmptyIff(kind: Kind, events: seq<Event>)
    requires (kind == UIDS || kind == GIDS) && Valid(events)
    ensures var s := After(kind, Open(kind, map[]), events);
            Injective(s) <==> s.counter <= FIRST_CLASH
  {
    NoMaxKey();
    hide Inv, Open, Valid, Injective;
    OpenEmpty(kind);
    HistoryKeeps(kind, Open(kind, map[]), events);
    UidsInjectiveIff(kind, After(kind, Open(kind, map[]), events));
  }

  lemma NoMaxKey()
    ensures MAXKEY !in UIDS.unmapped && MAXKEY !in GIDS.unmapped
  {
  }

  /** The other maps of numbers have no unmapped ids and are always injective. */
  lemma OthersInjective(kind: Kind, s: State)
    requires kind.unmapped == {} && Inv(kind, s)
    ensures Injective(s)
  {
    InjectiveIff(kind, s);
  }

  // ----- words

  const MAIL_WORDS := {
    ".", "..", "core", ".netscape", ".htaccess", "bookmarks", ".inbox", "inbox", "mail", ".mail", "Mail",
    "INBOX", "INBOX.MTX", ".cshrc", ".login", ".logout", ".tcshrc", ".hushlogin", ".exrc", ".vimrc",
    ".signature", ".aliases", ".ssh", ".Xauthority", ".Xdefaults", "public_html", "index.html", "index.htm",
    ".addressbook", ".addressbook.lu", ".pinerc", ".pinercex", ".mailcap"
  }

  const DESKTOP_WORDS := {
    ".pine-debug1", ".pine-debug2", ".pine-debug3", ".pine-debug4", "mbox", "sent-mail", ".imaprc", ".mminit",
    ".history", ".gnome", ".gnomeprivate", ".gnome-desktop", "TODO", "Papers", "Archive",
    "postponed-msgs.lock", ".pine-interrupted-mail.lock", "lock", "cvs-all", "log", "tmp", ".emacs",
    ".mh_profile", "nsmail", "usr", "lib", "bin", ".xsession", ".xauth", ".mc", ".fvwmrc", ".newsrc", ".mailrc"
  }

  const APPLET_WORDS := {
    ".dt", ".oldnewsrc", ".vmware", ".mh_aliases", "News", ".ICEauthority", ".kde", "Applet_2",
    "Applet_3.desktop", "Applet_4.desktop", "Applet_5.desktop", "Applet_6.desktop", "Applet_6_Extern",
    "Applet_7_Extern", "Applet_8_Extern", "Applet_9_Extern", "Applet_10", "Applet_10_Extern", "Applet_11",
    "Applet_11.desktop", "Applet_11_Extern", "Applet_12_Extern", "Applet_Config", "Sent\\20Items",
    "saved-messages", "Drafts", "Received", "*", "Saved\\20Files", "Trash", "postponed-msgs"
  }

  /** A word that no counter value is written as. */
  predicate NoNumber(w: string) {
    |w| < 4 || !IsDigit(w[0], 16) || !IsDigit(w[1], 16)
  }

  lemma MailWordsAreNoNumbers(w: string)
    requires w in MAIL_WORDS
    ensures NoNumber(w)
  {
  }

  lemma DesktopWordsAreNoNumbers(w: string)
    requires w in DESKTOP_WORDS
    ensures NoNumber(w)
  {
  }

  lemma AppletWordsAreNoNumbers(w: string)
    requires w in APPLET_WORDS
    ensures NoNumber(w)
  {
  }

  lemma WordsAreNoNumbers(w: string)
    requires w in WORDS.unmapped
    ensures NoNumber(w)
  {
    hide NoNumber, MAIL_WORDS, DESKTOP_WORDS, APPLET_WORDS;
    if w in MAIL_WORDS {
      MailWordsAreNoNumbers(w);
    } else if w in DESKTOP_WORDS {
      DesktopWordsAreNoNumbers(w);
    } else {
      AppletWordsAreNoNumbers(w);
    }
  }

  lemma Hex4IsNumber(n: nat)
    ensures !NoNumber(Hex4(n))
  {
    hide Hex, Zeros;
    HexReadsBack(n);
    OnlyZeros(4 - |Hex(n)|);
  }

  /** The map of words is always injective: the words that stand for themselves do not look like counter values. */
  lemma WordsInjective(s: State)
    requires Inv(WORDS, s)
    ensures Injective(s)
  {
    hide Inv, Injective, Clashes;
    InjectiveIff(WORDS, s);
    forall n: nat ensures !Clashes(WORDS, n) {
      NoWordClashes(n);
    }
  }

  lemma NoWordClashes(n: nat)
    ensures !Clashes(WORDS, n)
  {
    hide Hex4, NoNumber;
    forall w | w in WORDS.unmapped ensures Render(FourDigits, n) != Text(w) {
      WordsAreNoNumbers(w);
      Hex4IsNumber(n);
    }
  }

  function Texts(values: seq<Value>): (r: seq<string>)
    requires forall i :: 0 <= i < |values| ==> values[i].Text?
    ensures |r| == |values| && forall i :: 0 <= i < |r| ==> r[i] == values[i].text
  {
    seq(|values|, i requires 0 <= i < |values| => values[i].text)
  }

  /** One part of a dotted word: words that stand for themselves do not go through the cache. */
  function LookupWord(kind: Kind, s: State, part: string): (State, Value) {
    if part in kind.unmapped then (s, Text(part)) else Lookup(kind, s, part)
  }

  /** The parts of a dotted word, one after the other. */
  function LookupParts(kind: Kind, s: State, parts: seq<string>): (State, seq<Value>) {
    if parts == [] then (s, [])
    else
      var (s', vs) := LookupParts(kind, s, parts[..|parts| - 1]);
      var (s'', v) := LookupWord(kind, s', parts[|parts| - 1]);
      (s'', vs + [v])
  }

  /** In the end the database holds the value of every part. */
  lemma {:induction false} PartsKept(kind: Kind, s: State, parts: seq<string>)
    requires Inv(kind, s) && MAXKEY !in parts
    ensures var (s', vs) := LookupParts(kind, s, parts);
            && Inv(kind, s') && |vs| == |parts|
            && (forall x :: x in s.db && x != MAXKEY ==> x in s'.db && s'.db[x] == s.db[x])
            && (forall i :: 0 <= i < |parts| ==> parts[i] in s'.db && s'.db[parts[i]] == vs[i])
  {
    hide Allocations, Lookup;
    if parts != [] {
      var n := |parts| - 1;
      PartsKept(kind, s, parts[..n]);
      var (s', vs) := LookupParts(kind, s, parts[..n]);
      AnonymizeKeeps(kind, s', parts[n]);
      assert forall i :: 0 <= i < n ==> parts[..n][i] == parts[i];
    }
  }

  /** Two dotted words that are anonymized to the same parts, now and at any later time, are the same word. */
  lemma WordPartsInjective(s: State, parts: seq<string>, events: seq<Event>, parts': seq<string>)
    requires Inv(WORDS, s) && MAXKEY !in parts && MAXKEY !in parts' && Valid(events)
    requires var (s1, vs) := LookupParts(WORDS, s, parts);
             LookupParts(WORDS, After(WORDS, s1, events), parts').1 == vs
    ensures parts == parts'
  {
    hide Inv, LookupParts, After, Valid, Injective;
    PartsKept(WORDS, s, parts);
    var (s1, vs) := LookupParts(WORDS, s, parts);
    HistoryKeeps(WORDS, s1, events);
    PartsKept(WORDS, After(WORDS, s1, events), parts');
    var s2 := LookupParts(WORDS, After(WORDS, s1, events), parts').0;
    WordsInjective(s2);
    forall i | 0 <= i < |parts| ensures parts[i] in s2.db && s2.db[parts[i]] == vs[i] {
      assert parts[i] != MAXKEY;
    }
    SameParts(s2, vs, parts, parts');
  }

  lemma SameParts(s: State, vs: seq<Value>, parts: seq<string>, parts': seq<string>)
    requires Injective(s) && |vs| == |parts| == |parts'| && MAXKEY !in parts && MAXKEY !in parts'
    requires forall i :: 0 <= i < |parts| ==> parts[i] in s.db && s.db[parts[i]] == vs[i]
    requires forall i :: 0 <= i < |parts'| ==> parts'[i] in s.db && s.db[parts'[i]] == vs[i]
    ensures parts == parts'
  {
    forall i | 0 <= i < |parts| ensures parts[i] == parts'[i] {
      assert parts[i] != MAXKEY && parts'[i] != MAXKEY;
    }
  }

  // ----- the Perl program

  class MapFile {
    const kind: Kind
    var db: Table      // the tied file
    var cache: Table
    var counter: nat

    ghost function Abstract(): State
      reads this
    {
      State(db, cache, counter)
    }

    /** openMapFiles and initializeMaps. */
    constructor (kind: Kind, file: Table)
      requires MAXKEY in file ==> file[MAXKEY].Number?
      ensures this.kind == kind && Abstract() == Open(kind, file)
    {
      this.kind := kind;
      var c := if MAXKEY in file then file[MAXKEY].number else kind.first;
      counter := c;
      cache := map[];
      db := file[MAXKEY := Number(c)] + map w | w in kind.unmapped :: Text(w);
    }

    method Anonymize(id: string) returns (v: Value)
      modifies this
      ensures (Abstract(), v) == Lookup(kind, old(Abstract()), id)
    {
      if id in cache {
        return cache[id];
      }
      if id in db {
        cache := cache[id := db[id]];
      } else {
        v := Render(kind.format, counter);
        counter := counter + 1;
        db := db[id := v];
        cache := cache[id := v];
        db := db[MAXKEY := Number(counter)];
      }
      return cache[id];
    }

    /** The loop of anonymizeSIMPLEWORD over the parts of a word, in place. */
    method AnonymizeParts(parts: array<Value>)
      requires forall i :: 0 <= i < parts.Length ==> parts[i].Text?
      modifies this, parts
      ensures (Abstract(), parts[..])
              == LookupParts(kind, old(Abstract()), Texts(old(parts[..])))
    {
      ghost var words := Texts(parts[..]);
      var i := 0;
      while i < parts.Length
        invariant 0 <= i <= parts.Length
        invariant forall j :: i <= j < parts.Length ==> parts[j] == old(parts[j])
        invariant (Abstract(), parts[..i]) == LookupParts(kind, old(Abstract()), words[..i])
      {
        assert words[..i + 1][..i] == words[..i] && words[i] == parts[i].text;
        var subword := parts[i].text;
        assert words[..i + 1][i] == subword;
        if subword in kind.unmapped {
          parts[i] := Text(subword);
        } else {
          var aword := Anonymize(subword);
          parts[i] := aword;
        }
        assert parts[..i + 1] == parts[..i] + [parts[i]];
        i := i + 1;
      }
      assert words[..i] == words && parts[..i] == parts[..];
    }

    /** closeMapFiles; the file is as it was, since every allocation saved the counter. */
    method Close() returns (file: Table)
      requires Inv(kind, Abstract())
      modifies this
      ensures file == old(db) && Abstract() == old(Abstract())
    {
      db := db[MAXKEY := Number(counter)];
      assert db == old(db);
      return db;
    }
  }
}
