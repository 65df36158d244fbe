/**
 * fullpath.cc and fullpath.js: from (filehandle, name, parent) rows to full paths.
 * The two programs keep their relations differently; both must give the same paths.
 */
module PathTree {
  import opened Options
  import opened FullpathRows
  import opened Printing

  datatype InputRow = InputRow(fh: string, name: string, parent: string)

  /** What one relation means: a name, and the parent unless it is a mountpoint. */
  datatype Relation = Relation(name: string, parent: Option<string>)

  type Relations = map<string, Relation>

  /** The handle that the recursion goes on with. */
  function Up(rel: Relations, fh: string): Option<string> {
    if fh in rel then rel[fh].parent else None
  }

  /** The chain of parents of `fh` ends within `n` steps. */
  predicate Ends(rel: Relations, fh: string, n: nat)
    decreases n
  {
    Up(rel, fh).None? || (n > 0 && Ends(rel, Up(rel, fh).value, n - 1))
  }

  // ----- the recursion, in the two programs' terms

  /** The accumulating recursion. Gives (top, path). */
  function ConstructPath(rel: Relations, fh: string, tail: string, ghost n: nat): (string, string)
    requires Ends(rel, fh, n)
    decreases n
  {
    if fh !in rel then (fh, tail)
    else
      var newTail := if tail == "" then rel[fh].name else rel[fh].name + "/" + tail;
      match rel[fh].parent
      case None => ("", newTail)
      case Some(parent) => ConstructPath(rel, parent, newTail, n - 1)
  }

  // ----- what it computes

  /** The names from the root of the chain to `fh`. */
  ghost function Names(rel: Relations, fh: string, n: nat): seq<string>
    requires Ends(rel, fh, n)
    decreases n
  {
    if fh !in rel then []
    else if rel[fh].parent.None? then [rel[fh].name]
    else Names(rel, rel[fh].parent.value, n - 1) + [rel[fh].name]
  }

  /** The handle at the end of the chain. */
  ghost function Root(rel: Relations, fh: string, n: nat): string
    requires Ends(rel, fh, n)
    decreases n
  {
    if Up(rel, fh).None? then fh else Root(rel, Up(rel, fh).value, n - 1)
  }

  /** The names without the empty ones at the leaf end, which the recursion cannot tell from "no tail yet". */
  function Trim(names: seq<string>): seq<string> {
    if names == [] || names[|names| - 1] != "" then names else Trim(names[..|names| - 1])
  }

  /** A tail that stands for the names `below`: empty exactly when there are none left after trimming. */
  ghost predicate StandsFor(tail: string, below: seq<string>) {
    tail == Join(Trim(below)) && (tail == "" <==> Trim(below) == [])
  }

  lemma {:induction false} TrimMore(name: string, below: seq<string>)
    ensures Trim([name] + below) == if Trim(below) == [] then Trim([name]) else [name] + Trim(below)
  {
    if below != [] && below[|below| - 1] == "" {
      var init := below[..|below| - 1];
      assert ([name] + below)[..|below|] == [name] + init;
      TrimMore(name, init);
    } else if below == [] {
      assert [name] + below == [name];
    }
  }

  lemma {:induction false} TrimLast(names: seq<string>)
    ensures Trim(names) != [] ==> Trim(names)[|Trim(names)| - 1] != ""
  {
    if names != [] && names[|names| - 1] == "" {
      TrimLast(names[..|names| - 1]);
    }
  }

  lemma OneStep(name: string, tail: string, below: seq<string>)
    requires StandsFor(tail, below)
    ensures StandsFor(if tail == "" then name else name + "/" + tail, [name] + below)
  {
    TrimMore(name, below);
    TrimLast(below);
    if Trim(below) == [] {
      assert [name][..0] == [];
    } else {
      JoinConcat([name], Trim(below));
    }
  }

  /**
   * The recursion gives the names from root to leaf, joined by slashes; names
   * that are empty at the leaf end leave no trace. The top is empty when the
   * chain ends at a mountpoint, and otherwise the handle at which it ends.
   */
  lemma {:induction false} PathIsJoin(rel: Relations, fh: string, tail: string, below: seq<string>, n: nat)
    requires Ends(rel, fh, n) && StandsFor(tail, below)
    ensures ConstructPath(rel, fh, tail, n).1 == Join(Trim(Names(rel, fh, n) + below))
    ensures ConstructPath(rel, fh, tail, n).0 == if Root(rel, fh, n) in rel then "" else Root(rel, fh, n)
    decreases n
  {
    if fh !in rel {
      assert Names(rel, fh, n) + below == below;
    } else {
      var name := rel[fh].name;
      var newTail := if tail == "" then name else name + "/" + tail;
      OneStep(name, tail, below);
      if rel[fh].parent.Some? {
        PathIsJoin(rel, rel[fh].parent.value, newTail, [name] + below, n - 1);
        var up := Names(rel, rel[fh].parent.value, n - 1);
        assert up + ([name] + below) == (up + [name]) + below;
      }
    }
  }

  lemma TrimStep(names: seq<string>)
    requires names != []
    ensures var n := |names| - 1;
            Trim(names) == if names[n] == "" then Trim(names[..n]) else names
    ensures Join([""]) == Join([]) == ""
  {
  }

  /** An empty name at the end makes the joined text longer by a slash. */
  lemma JoinEmptyName(names: seq<string>)
    requires |names| > 1 && names[|names| - 1] == ""
    ensures |Join(names)| == |Join(names[..|names| - 1])| + 1
  {
    hide Join;
    var init := names[..|names| - 1];
    assert names == init + [""];
    JoinConcat(init, [""]);
    TrimStep([""]);
  }

  /** Trimming never makes the joined text longer. */
  lemma {:induction false} TrimShortens(names: seq<string>)
    ensures |Join(Trim(names))| <= |Join(names)|
  {
    hide Join, Trim;
    if names == [] {
      TrimNone();
    } else {
      var n := |names| - 1;
      TrimStep(names);
      if names[n] == "" {
        TrimShortens(names[..n]);
        if n > 0 {
          JoinEmptyName(names);
        } else {
          assert names[..0] == [] && names == [""];
        }
      }
    }
  }

  lemma TrimNone()
    ensures Trim([]) == []
  {
  }

  /** Trimming changes the text exactly when a name is there to be trimmed, and is not the only one. */
  lemma TrimmedJoin(names: seq<string>)
    ensures Join(Trim(names)) == Join(names) <==> |names| <= 1 || names[|names| - 1] != ""
  {
    hide Join, Trim;
    TrimNone();
    if names != [] {
      var n := |names| - 1;
      TrimStep(names);
      if names[n] == "" && n > 0 {
        TrimShortens(names[..n]);
        JoinEmptyName(names);
      } else if names[n] == "" {
        assert names[..0] == [] && names == [""];
      }
    }
  }

  lemma LastName(rel: Relations, fh: string, n: nat)
    requires Ends(rel, fh, n)
    ensures var names := Names(rel, fh, n);
            (names == [] <==> fh !in rel) && (fh in rel ==> names[|names| - 1] == rel[fh].name)
  {
  }

  /**
   * The path of a handle is the join of all its names exactly when the handle's
   * own name is not empty, or there is at most one name.
   */
  lemma FullPath(rel: Relations, fh: string, n: nat)
    requires Ends(rel, fh, n)
    ensures var names := Names(rel, fh, n);
            && ConstructPath(rel, fh, "", n).1 == Join(Trim(names))
            && (ConstructPath(rel, fh, "", n).1 == Join(names)
                <==> |names| <= 1 || (fh in rel && rel[fh].name != ""))
            && (ConstructPath(rel, fh, "", n).0 == "" <==> Root(rel, fh, n) in rel || Root(rel, fh, n) == "")
  {
    hide Join, Trim, Names;
    var names := Names(rel, fh, n);
    StandsForNothing();
    PathIsJoin(rel, fh, "", [], n);
    assert names + [] == names;
    LastName(rel, fh, n);
    TrimmedJoin(names);
  }

  /**
   * The line of a handle: the handle, the handle at which its chain of parents
   * ends if that one is unknown, and its names from there on.
   */
  ghost function PathLine(rel: Relations, fh: string, n: nat): string
    requires Ends(rel, fh, n)
  {
    var root := Root(rel, fh, n);
    fh + "," + (if root in rel then "" else root) + "," + Join(Trim(Names(rel, fh, n)))
  }

  lemma StandsForNothing()
    ensures StandsFor("", [])
  {
  }

  // ----- when the recursion ends

  /** The handles that the first `n` + 1 calls are made with. */
  ghost function Calls(rel: Relations, fh: string, n: nat): (s: seq<string>)
    ensures 0 < |s| <= n + 1 && s[0] == fh
    decreases n
  {
    if Up(rel, fh).None? || n == 0 then [fh] else [fh] + Calls(rel, Up(rel, fh).value, n - 1)
  }

  ghost predicate NoRepeats(s: seq<string>) {
    forall i, j :: 0 <= i < j < |s| ==> s[i] != s[j]
  }

  lemma {:induction false} EndsMore(rel: Relations, fh: string, n: nat, m: nat)
    requires Ends(rel, fh, n) && n <= m
    ensures Ends(rel, fh, m)
    decreases n
  {
    if Up(rel, fh).Some? {
      EndsMore(rel, Up(rel, fh).value, n - 1, m - 1);
    }
  }

  /** A chain that has not ended after `n` steps has made `n` + 1 calls, all with known handles. */
  lemma {:induction false} NotEnded(rel: Relations, fh: string, n: nat)
    requires !Ends(rel, fh, n)
    ensures |Calls(rel, fh, n)| == n + 1
    ensures forall i :: 0 <= i <= n ==> Calls(rel, fh, n)[i] in rel
    decreases n
  {
    if n > 0 {
      NotEnded(rel, Up(rel, fh).value, n - 1);
    }
  }

  lemma {:induction false} Pigeonhole(s: seq<string>, pool: set<string>)
    requires NoRepeats(s) && forall i :: 0 <= i < |s| ==> s[i] in pool
    ensures |s| <= |pool|
    decreases |s|
  {
    if s != [] {
      var rest := s[1..];
      forall i | 0 <= i < |rest| ensures rest[i] in pool - {s[0]} {
        assert rest[i] == s[i + 1];
      }
      Pigeonhole(rest, pool - {s[0]});
    }
  }

  /** The least number of steps after which the chain has ended. */
  ghost function Depth(rel: Relations, fh: string, n: nat): (d: nat)
    requires Ends(rel, fh, n)
    ensures d <= n && Ends(rel, fh, d) && (d > 0 ==> !Ends(rel, fh, d - 1))
    decreases n
  {
    if Up(rel, fh).None? then 0 else 1 + Depth(rel, Up(rel, fh).value, n - 1)
  }

  lemma DepthUnique(rel: Relations, fh: string, n: nat, m: nat)
    requires Ends(rel, fh, n) && Ends(rel, fh, m)
    ensures Depth(rel, fh, n) == Depth(rel, fh, m)
  {
    var d, e := Depth(rel, fh, n), Depth(rel, fh, m);
    if d < e {
      EndsMore(rel, fh, d, e - 1);
    } else if e < d {
      EndsMore(rel, fh, e, d - 1);
    }
  }

  /** Along a chain that ends, the depth falls by one with every call. */
  lemma {:induction false} DepthFalls(rel: Relations, fh: string, n: nat, i: nat)
    requires Ends(rel, fh, n) && i < |Calls(rel, fh, n)|
    ensures Ends(rel, Calls(rel, fh, n)[i], n)
    ensures Depth(rel, Calls(rel, fh, n)[i], n) == Depth(rel, fh, n) - i
    decreases n
  {
    if i > 0 {
      var up := Up(rel, fh).value;
      var h := Calls(rel, up, n - 1)[i - 1];
      DepthFalls(rel, up, n - 1, i - 1);
      EndsMore(rel, h, n - 1, n);
      DepthUnique(rel, h, n - 1, n);
    }
  }

  /**
   * constructPath returns if and only if no handle repeats among its first
   * |relations| + 1 calls, and then it returns within that many calls.
   */
  lemma TerminatesIff(rel: Relations, fh: string)
    ensures NoRepeats(Calls(rel, fh, |rel|)) <==> Ends(rel, fh, |rel|)
    ensures (exists n :: Ends(rel, fh, n)) <==> Ends(rel, fh, |rel|)
  {
    var n := |rel|;
    if Ends(rel, fh, n) {
      EndedNoRepeats(rel, fh, n);
    } else {
      TooManyCalls(rel, fh);
    }
    if m :| Ends(rel, fh, m) {
      EndsEarly(rel, fh, m);
    }
  }

  lemma EndedNoRepeats(rel: Relations, fh: string, n: nat)
    requires Ends(rel, fh, n)
    ensures NoRepeats(Calls(rel, fh, n))
  {
    var calls := Calls(rel, fh, n);
    forall i, j | 0 <= i < j < |calls| ensures calls[i] != calls[j] {
      DepthFalls(rel, fh, n, i);
      DepthFalls(rel, fh, n, j);
    }
  }

  lemma TooManyCalls(rel: Relations, fh: string)
    requires !Ends(rel, fh, |rel|)
    ensures !NoRepeats(Calls(rel, fh, |rel|))
  {
    NotEnded(rel, fh, |rel|);
    if NoRepeats(Calls(rel, fh, |rel|)) {
      Pigeonhole(Calls(rel, fh, |rel|), rel.Keys);
    }
  }

  lemma EndsEarly(rel: Relations, fh: string, m: nat)
    requires Ends(rel, fh, m)
    ensures Ends(rel, fh, |rel|)
  {
    var n := |rel|;
    if m <= n {
      EndsMore(rel, fh, m, n);
    } else {
      EndedNoRepeats(rel, fh, m);
      CallsPrefix(rel, fh, n, m);
      if !Ends(rel, fh, n) {
        TooManyCalls(rel, fh);
      }
    }
  }

  lemma {:induction false} CallsPrefix(rel: Relations, fh: string, n: nat, m: nat)
    requires n <= m
    ensures Calls(rel, fh, n) <= Calls(rel, fh, m)
    decreases n
  {
    if n > 0 && Up(rel, fh).Some? {
      CallsPrefix(rel, Up(rel, fh).value, n - 1, m - 1);
    }
  }

  // ----- the two programs' tables

  /** The C++ relation: `parent` keeps its old value when a handle turns out to be a mountpoint. */
  datatype CppRelation = CppRelation(name: string, parent: string, mountpoint: bool)

  /** The JavaScript relation: a fresh object for every row, with either a `mountpoint` or a `parent`. */
  datatype JsRelation = Mount(name: string) | Child(name: string, parent: string)

  const MOUNTPOINT := "MOUNTPOINT"

  function CppRow(table: map<string, CppRelation>, row: InputRow): map<string, CppRelation> {
    var old_ := if row.fh in table then table[row.fh] else CppRelation("", "", false);
    var mountpoint := row.parent == MOUNTPOINT;
    table[row.fh := CppRelation(row.name, if mountpoint then old_.parent else row.parent, mountpoint)]
  }

  function JsRow(table: map<string, JsRelation>, row: InputRow): map<string, JsRelation> {
    table[row.fh := if row.parent == MOUNTPOINT then Mount(row.name) else Child(row.name, row.parent)]
  }

  /** What constructPath can see of the C++ table. */
  ghost function CppView(table: map<string, CppRelation>): Relations {
    map fh | fh in table :: Relation(table[fh].name, if table[fh].mountpoint then None else Some(table[fh].parent))
  }

  ghost function JsView(table: map<string, JsRelation>): Relations {
    map fh | fh in table :: Relation(table[fh].name, if table[fh].Mount? then None else Some(table[fh].parent))
  }

  function CppTable(rows: seq<InputRow>): map<string, CppRelation> {
    if rows == [] then map[] else CppRow(CppTable(rows[..|rows| - 1]), rows[|rows| - 1])
  }

  function JsTable(rows: seq<InputRow>): map<string, JsRelation> {
    if rows == [] then map[] else JsRow(JsTable(rows[..|rows| - 1]), rows[|rows| - 1])
  }

  /**
   * After any sequence of rows the C++ program, which updates relations in
   * place, and the JavaScript program, which replaces them, see the same
   * relations, so that they construct the same path for every handle.
   */
  lemma {:induction false} SameRelations(rows: seq<InputRow>)
    ensures CppView(CppTable(rows)) == JsView(JsTable(rows))
  {
    if rows != [] {
      var before, row := rows[..|rows| - 1], rows[|rows| - 1];
      SameRelations(before);
      assert CppView(CppTable(before)).Keys == CppTable(before).Keys;
      assert JsView(JsTable(before)).Keys == JsTable(before).Keys;
      forall fh | fh in CppTable(rows)
        ensures fh in JsTable(rows) && CppView(CppTable(rows))[fh] == JsView(JsTable(rows))[fh]
      {
        if fh != row.fh {
          assert CppView(CppTable(before))[fh] == JsView(JsTable(before))[fh];
        }
      }
    }
  }

  /** The last row of a handle, if there is one. */
  function LastRow(rows: seq<InputRow>, fh: string): Option<InputRow> {
    if rows == [] then None
    else if rows[|rows| - 1].fh == fh then Some(rows[|rows| - 1])
    else LastRow(rows[..|rows| - 1], fh)
  }

  /** In both programs the last row of a handle alone decides its name and its parent. */
  lemma {:induction false} LastRowWins(rows: seq<InputRow>, fh: string)
    ensures fh in CppTable(rows) <==> LastRow(rows, fh).Some?
    ensures fh in CppTable(rows) ==>
              var row := LastRow(rows, fh).value;
              var relation := Relation(row.name, if row.parent == "MOUNTPOINT" then None else Some(row.parent));
              && CppView(CppTable(rows))[fh] == relation
              && fh in JsTable(rows) && JsView(JsTable(rows))[fh] == relation
  {
    SameRelations(rows);
    if rows != [] {
      var n := |rows| - 1;
      var row := rows[n];
      LastRowWins(rows[..n], fh);
      if row.fh != fh && fh in CppTable(rows) {
        SameRelations(rows[..n]);
        assert CppView(CppTable(rows))[fh] == CppView(CppTable(rows[..n]))[fh];
      }
    }
  }

  /** constructPath of fullpath.cc. */
  function CppPath(table: map<string, CppRelation>, fh: string, tail: string, ghost n: nat): (string, string)
    requires Ends(CppView(table), fh, n)
    decreases n
  {
    if fh !in table then (fh, tail)
    else
      var newTail := table[fh].name + if tail != "" then "/" + tail else "";
      if table[fh].mountpoint then ("", newTail) else CppPath(table, table[fh].parent, newTail, n - 1)
  }

  /** constructPath of fullpath.js; the first call leaves `tail` undefined. */
  function JsPath(table: map<string, JsRelation>, fh: string, tail: Option<string>, ghost n: nat)
    : (string, Option<string>)
    requires Ends(JsView(table), fh, n)
    decreases n
  {
    if fh !in table then (fh, tail)
    else
      var tail' := if Falsy(tail) then "" else "/" + tail.value;
      match table[fh]
      case Mount(name) => ("", Some(name + tail'))
      case Child(name, parent) => JsPath(table, parent, Some(name + tail'), n - 1)
  }

  lemma {:induction false} CppPathIs(table: map<string, CppRelation>, fh: string, tail: string, n: nat)
    requires Ends(CppView(table), fh, n)
    ensures CppPath(table, fh, tail, n) == ConstructPath(CppView(table), fh, tail, n)
    decreases n
  {
    if fh in table {
      var name := table[fh].name;
      assert name + "" == name && name + ("/" + tail) == name + "/" + tail;
      if !table[fh].mountpoint {
        CppPathIs(table, table[fh].parent, name + if tail != "" then "/" + tail else "", n - 1);
      }
    }
  }

  lemma {:induction false} JsPathIs(table: map<string, JsRelation>, fh: string, tail: Option<string>, n: nat)
    requires Ends(JsView(table), fh, n)
    ensures var (top, path) := ConstructPath(JsView(table), fh, if tail.None? then "" else tail.value, n);
            JsPath(table, fh, tail, n) == (top, if fh in table then Some(path) else tail)
    decreases n
  {
    if fh in table {
      var name := table[fh].name;
      var tail' := if Falsy(tail) then "" else "/" + tail.value;
      assert name + "" == name && (!Falsy(tail) ==> name + tail' == name + "/" + tail.value);
      if table[fh].Child? {
        JsPathIs(table, table[fh].parent, Some(name + tail'), n - 1);
      }
    }
  }

  /** The two programs print the same line for every handle, after any sequence of rows. */
  lemma SamePaths(rows: seq<InputRow>, fh: string, n: nat)
    requires Ends(CppView(CppTable(rows)), fh, n)
    ensures Ends(JsView(JsTable(rows)), fh, n)
    ensures CppTable(rows).Keys == JsTable(rows).Keys
    ensures fh in CppTable(rows) ==>
              var (top, path) := CppPath(CppTable(rows), fh, "", n);
              JsPath(JsTable(rows), fh, None, n) == (top, Some(path))
  {
    SameRelations(rows);
    assert CppView(CppTable(rows)).Keys == CppTable(rows).Keys;
    assert JsView(JsTable(rows)).Keys == JsTable(rows).Keys;
    CppPathIs(CppTable(rows), fh, "", n);
    JsPathIs(JsTable(rows), fh, None, n);
  }

  // ----- the C++ program

  class Fullpath {
    var relations: map<string, CppRelation>

    constructor ()
      ensures relations == map[]
    {
      relations := map[];
    }

    /** parseInput: each row updates, in place, the relation of its handle. */
    method ParseInput(rows: seq<InputRow>)
      requires relations == map[]
      modifies this
      ensures relations == CppTable(rows)
    {
      var i := 0;
      while i < |rows|
        invariant 0 <= i <= |rows|
        invariant relations == CppTable(rows[..i])
      {
        assert rows[..i + 1][..i] == rows[..i];
        var row := rows[i];
        if row.fh !in relations {
          relations := relations[row.fh := CppRelation("", "", false)];
        }
        var relation := relations[row.fh].(name := row.name, mountpoint := row.parent == MOUNTPOINT);
        if !relation.mountpoint {
          relation := relation.(parent := row.parent);
        }
        relations := relations[row.fh := relation];
        i := i + 1;
      }
      assert rows[..i] == rows;
    }

    /** The line that writeResults puts together for a handle. */
    function LineOf(fh: string): string
      requires Ends(CppView(relations), fh, |relations|)
      reads this
    {
      var (top, path) := CppPath(relations, fh, "", |relations|);
      Line(fh, top, path)
    }

    /** writeResults: one line for every handle, in whatever order the hash map has. */
    method WriteResults() returns (out: seq<string>)
      requires forall fh :: fh in relations ==> Ends(CppView(relations), fh, |relations|)
      ensures |out| == |relations|
      ensures forall fh :: fh in relations ==> PathLine(CppView(relations), fh, |relations|) in out
      ensures forall line :: line in out ==>
                exists fh :: fh in relations && line == PathLine(CppView(relations), fh, |relations|)
    {
      out := [];
      var todo := relations.Keys;
      while todo != {}
        invariant todo <= relations.Keys && |out| + |todo| == |relations|
        invariant forall fh :: fh in relations && fh !in todo ==> LineOf(fh) in out
        invariant forall line :: line in out ==> exists fh :: fh in relations && line == LineOf(fh)
        decreases |todo|
      {
        assert (forall x :: x !in todo) ==> todo == {};
        var fh :| fh in todo;
        out := out + [LineOf(fh)];
        todo := todo - {fh};
      }
      forall fh | fh in relations ensures LineOf(fh) == PathLine(CppView(relations), fh, |relations|) {
        PrintedLine(fh);
      }
    }

    lemma PrintedLine(fh: string)
      requires Ends(CppView(relations), fh, |relations|)
      ensures LineOf(fh) == PathLine(CppView(relations), fh, |relations|)
    {
      hide CppPath, ConstructPath, Names, Join, Trim, Root;
      var rel, n := CppView(relations), |relations|;
      CppPathIs(relations, fh, "", n);
      StandsForNothing();
      PathIsJoin(rel, fh, "", [], n);
      assert Names(rel, fh, n) + [] == Names(rel, fh, n);
    }
  }
}
