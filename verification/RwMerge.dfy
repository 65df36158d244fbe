/** rwmerge.js: rows, groups and output records as values. */
module RwRows {
  import opened Options

  /** JavaScript numbers as this program uses them: a real, or Infinity. */
  datatype Num = Fin(value: real) | Infinity

  function Min(a: Num, b: Num): Num {
    if a.Infinity? then b
    else if b.Infinity? then a
    else if a.value <= b.value then a else b
  }

  /** A row of the `operations` output; an empty version column is None. */
  datatype Row = Row(t: real, op: string, name: string, version: Option<real>, start: int, count: int)

  /** An output row; the columns `start` and `count` are left out for most operations. */
  datatype Record = Record(t: Num, op: string, name: string, version: Num, start: Option<int>, count: Option<int>)

  /** `Number(row.version)`: an empty column counts as zero. */
  function VersionNumber(row: Row): real {
    match row.version
    case None => 0.0
    case Some(v) => v
  }

  /** `row.version || Infinity` */
  function VersionOrInfinity(row: Row): Num {
    match row.version
    case None => Infinity
    case Some(v) => Fin(v)
  }

  datatype Config = Config(maxSlack: real, segmentSize: int, dirPerSegment: int)

  predicate ConfigOk(cfg: Config) {
    cfg.segmentSize > 0 && cfg.dirPerSegment > 0
  }

  /** `Math.floor(offset / segmentSize)` */
  function Segment(cfg: Config, offset: int): int
    requires ConfigOk(cfg)
  {
    offset / cfg.segmentSize
  }

  predicate IsRw(op: string) {
    op == "read" || op == "write"
  }

  /** The group that is being collected: the fields that `reset` sets. */
  datatype Group = Group(t: Num, op: string, name: string, segments: map<int, real>, dirCount: int, version: Num)

  function Reset(row: Row): Group {
    Group(Infinity, row.op, row.name, map[], 0, VersionOrInfinity(row))
  }

  const INITIAL := Group(Infinity, "", "", map[], 0, Infinity)

  /** The condition under which processRow closes the group; no row is later than Infinity. */
  predicate Splits(cfg: Config, g: Group, row: Row) {
    row.op != g.op || row.name != g.name || g.t.Infinity? || row.t < g.t.value - cfg.maxSlack
  }

  /** Segments `begin` to `end`, stamped with time `t`. */
  function Stamp(segments: map<int, real>, begin: int, end: int, t: real): (r: map<int, real>)
    ensures forall s :: s in r <==> s in segments || begin <= s <= end
    ensures forall s :: s in r ==> r[s] == if begin <= s <= end then t else segments[s]
    decreases end - begin + 1
  {
    if begin > end then segments else Stamp(segments[begin := t], begin + 1, end, t)
  }

  function Begin(cfg: Config, row: Row): int
    requires ConfigOk(cfg)
  {
    Segment(cfg, row.start)
  }

  function End(cfg: Config, row: Row): int
    requires ConfigOk(cfg)
  {
    Segment(cfg, row.start + row.count - 1)
  }

  /** What processRow does to the (possibly new) group. */
  function Absorb(cfg: Config, g: Group, row: Row): Group
    requires ConfigOk(cfg)
  {
    var g' := g.(t := Fin(row.t));
    if IsRw(row.op) then
      g'.(segments := Stamp(g.segments, Begin(cfg, row), End(cfg, row), row.t),
          version := Min(g.version, Fin(VersionNumber(row))))
    else if row.op == "readdirp" then
      g'.(dirCount := g.dirCount + row.count, version := Min(g.version, Fin(VersionNumber(row))))
    else g'
  }

  // ----- what is written when a group ends

  lemma {:induction false} LeastExists(s: set<int>)
    requires s != {}
    ensures exists m :: IsLeast(s, m)
  {
    assert (forall x :: x !in s) ==> s == {};
    var x :| x in s;
    var rest := s - {x};
    if rest == {} {
      assert s == {x};
      assert IsLeast(s, x);
    } else {
      LeastExists(rest);
      var m :| IsLeast(rest, m);
      forall y | y in s ensures (if m <= x then m else x) <= y {
        assert y == x || y in rest;
      }
      assert IsLeast(s, if m <= x then m else x);
    }
  }

  predicate IsLeast(s: set<int>, m: int) {
    m in s && forall x :: x in s ==> m <= x
  }

  /** The elements of a set in ascending order. */
  function Sorted(s: set<int>): (r: seq<int>)
    ensures forall x :: x in r <==> x in s
    ensures Ascending(r)
  {
    if s == {} then []
    else
      LeastExists(s);
      var m :| IsLeast(s, m);
      var rest := Sorted(s - {m});
      assert forall x :: x in [m] + rest <==> x == m || x in rest;
      [m] + rest
  }

  ghost predicate Ascending(r: seq<int>) {
    forall i, j :: 0 <= i < j < |r| ==> r[i] < r[j]
  }

  /** The extents that the walk over ascending segments records, `begin` being the extent in progress. */
  function Walk(keys: seq<int>, begin: Option<int>, end: int): seq<(int, int)> {
    if keys == [] then
      if begin.None? then [] else [(begin.value, end)]
    else if begin.Some? && keys[0] == end + 1 then Walk(keys[1..], begin, keys[0])
    else (if begin.None? then [] else [(begin.value, end)]) + Walk(keys[1..], Some(keys[0]), keys[0])
  }

  function CeilDiv(n: int, m: int): int
    requires m > 0
  {
    (n + m - 1) / m
  }
}

/** What a group of rows should be written as, without reference to how the program gets there. */
module RwSpec {
  import opened Options
  import opened RwRows

  /** Two neighbouring rows belong to different groups. */
  predicate Breaks(cfg: Config, a: Row, b: Row) {
    b.op != a.op || b.name != a.name || b.t < a.t - cfg.maxSlack
  }

  /** No two neighbours in `rows` belong to different groups. */
  predicate Together(cfg: Config, rows: seq<Row>) {
    forall i :: 0 < i < |rows| ==> !Breaks(cfg, rows[i - 1], rows[i])
  }

  function Flatten<T>(ss: seq<seq<T>>): seq<T> {
    if ss == [] then [] else ss[0] + Flatten(ss[1..])
  }

  /** `groups` cuts `rows` at exactly the places where neighbours belong to different groups. */
  ghost predicate IsPartition(cfg: Config, rows: seq<Row>, groups: seq<seq<Row>>) {
    && Flatten(groups) == rows
    && (forall i :: 0 <= i < |groups| ==> groups[i] != [] && Together(cfg, groups[i]))
    && (forall i :: 0 < i < |groups| && groups[i - 1] != [] && groups[i] != [] ==>
          Breaks(cfg, groups[i - 1][|groups[i - 1]| - 1], groups[i][0]))
  }

  /**
   * A read or write touches segment `s`, the bytes from s * segmentSize up to
   * (s + 1) * segmentSize: it does not end before the segment, nor begin behind it.
   */
  predicate Touches(cfg: Config, row: Row, s: int)
    requires ConfigOk(cfg)
  {
    s * cfg.segmentSize <= row.start + row.count - 1 && row.start < (s + 1) * cfg.segmentSize
  }

  ghost predicate Touched(cfg: Config, rows: seq<Row>, s: int)
    requires ConfigOk(cfg)
  {
    exists i :: 0 <= i < |rows| && Touches(cfg, rows[i], s)
  }

  /** The time of the last row that touches `s`. */
  function LastTouch(cfg: Config, rows: seq<Row>, s: int): real
    requires ConfigOk(cfg)
  {
    if rows == [] then 0.0
    else if Touches(cfg, rows[|rows| - 1], s) then rows[|rows| - 1].t
    else LastTouch(cfg, rows[..|rows| - 1], s)
  }

  function MinVersion(rows: seq<Row>): (v: real)
    requires rows != []
    ensures forall i :: 0 <= i < |rows| ==> v <= if rows[i].version.Some? then rows[i].version.value else 0.0
    ensures exists i :: 0 <= i < |rows| && v == if rows[i].version.Some? then rows[i].version.value else 0.0
  {
    var row := rows[|rows| - 1];
    var last := if row.version.Some? then row.version.value else 0.0;
    if |rows| == 1 then last
    else
      var v := MinVersion(rows[..|rows| - 1]);
      assert forall i :: 0 <= i < |rows| - 1 ==> rows[..|rows| - 1][i] == rows[i];
      if last < v then last else v
  }

  function SumCount(rows: seq<Row>): int {
    if rows == [] then 0 else SumCount(rows[..|rows| - 1]) + rows[|rows| - 1].count
  }

  /** The records of a group of reads or writes: its touched segments as maximal runs, in ascending order. */
  ghost predicate IsExtents(cfg: Config, rows: seq<Row>, recs: seq<Record>)
    requires ConfigOk(cfg) && rows != []
  {
    && (forall i :: 0 <= i < |recs| ==>
          && recs[i].start.Some? && recs[i].count.Some? && recs[i].count.value >= 1
          && recs[i].op == rows[0].op && recs[i].name == rows[0].name
          && recs[i].version == Fin(MinVersion(rows))
          && recs[i].t == Fin(LastTouch(cfg, rows, recs[i].start.value)))
    && Separate(recs)
    && (forall s :: Touched(cfg, rows, s) <==> Covered(recs, s))
  }

  /** Each extent ends at least one whole segment before the next begins. */
  ghost predicate Separate(recs: seq<Record>) {
    && (forall i :: 0 <= i < |recs| ==> recs[i].start.Some? && recs[i].count.Some?)
    && (forall i, j :: 0 <= i < j < |recs| ==> recs[i].start.value + recs[i].count.value < recs[j].start.value)
  }

  predicate Within(rec: Record, s: int) {
    rec.start.Some? && rec.count.Some? && rec.start.value <= s < rec.start.value + rec.count.value
  }

  ghost predicate Covered(recs: seq<Record>, s: int) {
    exists i :: 0 <= i < |recs| && Within(recs[i], s)
  }

  /** `count` is the least number of segments of `perSegment` entries each that hold `entries` entries. */
  predicate EnoughFor(entries: int, perSegment: int, count: int) {
    (count - 1) * perSegment < entries <= count * perSegment
  }

  /** What a group is written as. */
  ghost predicate IsOutput(cfg: Config, rows: seq<Row>, recs: seq<Record>)
    requires ConfigOk(cfg) && rows != []
  {
    var op, name, t := rows[0].op, rows[0].name, Fin(rows[|rows| - 1].t);
    if op == "" then recs == []
    else if op == "read" || op == "write" then IsExtents(cfg, rows, recs)
    else if op == "readdirp" then
      && |recs| == 1 && recs[0].count.Some?
      && recs[0] == Record(t, op, name, Fin(MinVersion(rows)), Some(0), recs[0].count)
      && EnoughFor(SumCount(rows), cfg.dirPerSegment, recs[0].count.value)
    else
      recs == [Record(t, op, name, Fin(if rows[0].version.Some? then rows[0].version.value else 0.0), None, None)]
  }
}

/** The streaming program: groups absorbed row by row, and written when they end. */
module RwStream {
  import opened Options
  import opened RwRows
  import opened RwSpec

  /** recordRW, recordReadDir and the default of recordOp, as a function of the group's fields. */
  ghost function RecordOp(cfg: Config, g: Group): seq<Record>
    requires ConfigOk(cfg)
  {
    if g.op == "" then []
    else if IsRw(g.op) then ExtentRecords(g, Walk(Sorted(g.segments.Keys), None, 0))
    else if g.op == "readdirp" then
      [Record(g.t, g.op, g.name, g.version, Some(0), Some(CeilDiv(g.dirCount, cfg.dirPerSegment)))]
    else [Record(g.t, g.op, g.name, if g.version.Infinity? then Fin(0.0) else g.version, None, None)]
  }

  /** The records of a list of extents; each begins at a segment that has a time stamp. */
  ghost function ExtentRecords(g: Group, es: seq<(int, int)>): (r: seq<Record>)
    ensures |r| == |es|
  {
    seq(|es|, i requires 0 <= i < |es| =>
      Record(if es[i].0 in g.segments then Fin(g.segments[es[i].0]) else Infinity,
             g.op, g.name, g.version, Some(es[i].0), Some(es[i].1 - es[i].0 + 1)))
  }

  /** Everything written from group `g` on: one call of processRow for each row, then `end`. */
  ghost function Stream(cfg: Config, g: Group, rows: seq<Row>): seq<Record>
    requires ConfigOk(cfg)
    decreases |rows|
  {
    if rows == [] then RecordOp(cfg, g)
    else if Splits(cfg, g, rows[0]) then
      RecordOp(cfg, g) + Stream(cfg, Absorb(cfg, Reset(rows[0]), rows[0]), rows[1..])
    else Stream(cfg, Absorb(cfg, g, rows[0]), rows[1..])
  }

  // ----- divisions

  lemma SegmentOf(o: int, size: int)
    requires size > 0
    ensures o / size * size <= o < (o / size + 1) * size
  {
  }

  lemma ProductMonotone(a: int, b: int, m: int)
    requires m > 0 && a <= b
    ensures a * m <= b * m
  {
  }

  lemma OrderFromProducts(a: int, b: int, m: int)
    requires m > 0 && a * m < b * m
    ensures a < b
  {
    if a >= b {
      ProductMonotone(b, a, m);
    }
  }

  /** The segments from the first byte's to the last byte's are those that the row touches. */
  lemma TouchesIs(cfg: Config, row: Row, s: int)
    requires ConfigOk(cfg)
    ensures Touches(cfg, row, s) <==> Begin(cfg, row) <= s <= End(cfg, row)
  {
    var size, last := cfg.segmentSize, row.start + row.count - 1;
    SegmentOf(row.start, size);
    SegmentOf(last, size);
    if Touches(cfg, row, s) {
      OrderFromProducts(s, last / size + 1, size);
      OrderFromProducts(row.start / size, s + 1, size);
    }
    if row.start / size <= s {
      ProductMonotone(row.start / size + 1, s + 1, size);
    }
    if s <= last / size {
      ProductMonotone(s, last / size, size);
    }
  }

  lemma CeilDivEnough(n: int, m: int)
    requires m > 0
    ensures EnoughFor(n, m, CeilDiv(n, m))
  {
    SegmentOf(n + m - 1, m);
    var q := CeilDiv(n, m);
    assert (q + 1) * m == q * m + m && (q - 1) * m == q * m - m;
  }

  // ----- what a group holds after its rows

  /** The group after the rows of `rows`, the first of which opened it. */
  function Absorbed(cfg: Config, rows: seq<Row>): Group
    requires ConfigOk(cfg) && rows != []
  {
    if |rows| == 1 then Absorb(cfg, Reset(rows[0]), rows[0])
    else Absorb(cfg, Absorbed(cfg, rows[..|rows| - 1]), rows[|rows| - 1])
  }

  ghost predicate SameKind(rows: seq<Row>) {
    forall i :: 0 <= i < |rows| ==> rows[i].op == rows[0].op && rows[i].name == rows[0].name
  }

  lemma {:induction false} TogetherSameKind(cfg: Config, rows: seq<Row>, i: nat)
    requires Together(cfg, rows) && i < |rows|
    ensures rows[i].op == rows[0].op && rows[i].name == rows[0].name
  {
    if i > 0 {
      TogetherSameKind(cfg, rows, i - 1);
      assert !Breaks(cfg, rows[i - 1], rows[i]);
    }
  }

  /** The fields of the group, in terms of its rows. */
  lemma {:induction false} AbsorbedFields(cfg: Config, rows: seq<Row>)
    requires ConfigOk(cfg) && rows != [] && SameKind(rows)
    ensures var g := Absorbed(cfg, rows);
            && g.t == Fin(rows[|rows| - 1].t) && g.op == rows[0].op && g.name == rows[0].name
            && (IsRw(g.op) || g.op == "readdirp" ==> g.version == Fin(MinVersion(rows)))
            && (!IsRw(g.op) && g.op != "readdirp" ==> g.version == VersionOrInfinity(rows[0]))
            && (g.op == "readdirp" ==> g.dirCount == SumCount(rows))
            && (IsRw(g.op) ==> forall s :: (s in g.segments <==> Touched(cfg, rows, s))
                                           && (s in g.segments ==> g.segments[s] == LastTouch(cfg, rows, s)))
  {
    var n := |rows| - 1;
    if n == 0 {
      assert rows[..0] == [];
      SegmentsOne(cfg, rows);
      AllTouchesIs(cfg, rows[0]);
    } else {
      var before := rows[..n];
      assert forall i :: 0 <= i < n ==> before[i] == rows[i];
      AbsorbedFields(cfg, before);
      if IsRw(rows[0].op) {
        SegmentsMore(cfg, rows, Absorbed(cfg, before).segments);
      }
    }
  }

  lemma AllTouchesIs(cfg: Config, row: Row)
    requires ConfigOk(cfg)
    ensures forall s :: Touches(cfg, row, s) <==> Begin(cfg, row) <= s <= End(cfg, row)
  {
    forall s ensures Touches(cfg, row, s) <==> Begin(cfg, row) <= s <= End(cfg, row) {
      TouchesIs(cfg, row, s);
    }
  }

  lemma SegmentsOne(cfg: Config, rows: seq<Row>)
    requires ConfigOk(cfg) && |rows| == 1
    ensures forall s :: Touched(cfg, rows, s) <==> Touches(cfg, rows[0], s)
    ensures forall s :: Touches(cfg, rows[0], s) ==> LastTouch(cfg, rows, s) == rows[0].t
  {
    hide Touches;
    forall s ensures Touched(cfg, rows, s) <==> Touches(cfg, rows[0], s) {
      if Touches(cfg, rows[0], s) {
        assert Touches(cfg, rows[0], s) && 0 <= 0 < |rows|;
      }
    }
  }

  lemma SegmentsMore(cfg: Config, rows: seq<Row>, segments: map<int, real>)
    requires ConfigOk(cfg) && |rows| > 1
    requires var before := rows[..|rows| - 1];
             forall s :: (s in segments <==> Touched(cfg, before, s))
                         && (s in segments ==> segments[s] == LastTouch(cfg, before, s))
    ensures var row := rows[|rows| - 1];
            var after := Stamp(segments, Begin(cfg, row), End(cfg, row), row.t);
            forall s :: (s in after <==> Touched(cfg, rows, s))
                        && (s in after ==> after[s] == LastTouch(cfg, rows, s))
  {
    var n := |rows| - 1;
    var row, before := rows[n], rows[..n];
    var after := Stamp(segments, Begin(cfg, row), End(cfg, row), row.t);
    AllTouchesIs(cfg, row);
    hide Touches, Begin, End;
    forall s ensures s in after <==> Touched(cfg, rows, s) {
      if Touched(cfg, before, s) {
        var i :| 0 <= i < |before| && Touches(cfg, before[i], s);
        assert Touches(cfg, rows[i], s);
      }
      if Touched(cfg, rows, s) {
        var i :| 0 <= i < |rows| && Touches(cfg, rows[i], s);
        if i < n {
          assert Touches(cfg, before[i], s);
        }
      }
      if Touches(cfg, row, s) {
        assert Touches(cfg, rows[n], s);
      }
    }
  }

  // ----- the walk over the segments

  ghost predicate InExtents(es: seq<(int, int)>, s: int) {
    exists i :: 0 <= i < |es| && es[i].0 <= s <= es[i].1
  }

  /** Non-empty intervals in ascending order with at least one whole segment between them. */
  ghost predicate Gapped(es: seq<(int, int)>) {
    && (forall i :: 0 <= i < |es| ==> es[i].0 <= es[i].1)
    && (forall i, j :: 0 <= i < j < |es| ==> es[i].1 + 1 < es[j].0)
  }

  lemma InExtentsCons(e: (int, int), es: seq<(int, int)>, s: int)
    ensures InExtents([e] + es, s) <==> e.0 <= s <= e.1 || InExtents(es, s)
  {
    if e.0 <= s <= e.1 {
      assert ([e] + es)[0] == e;
    }
    if InExtents(es, s) {
      var i :| 0 <= i < |es| && es[i].0 <= s <= es[i].1;
      assert ([e] + es)[i + 1] == es[i];
    }
  }

  lemma GappedCons(e: (int, int), es: seq<(int, int)>)
    requires e.0 <= e.1 && Gapped(es) && (es != [] ==> e.1 + 1 < es[0].0)
    ensures Gapped([e] + es)
  {
    forall i, j | 0 <= i < j < |es| + 1 ensures ([e] + es)[i].1 + 1 < ([e] + es)[j].0 {
      if i == 0 && j > 1 {
        assert es[0].0 <= es[0].1;
        assert es[0].1 + 1 < es[j - 1].0;
      }
    }
  }

  /** The part of the walk that has an extent in progress. */
  lemma {:induction false} WalkFrom(keys: seq<int>, begin: int, end: int)
    requires Ascending(keys) && begin <= end && (keys != [] ==> end < keys[0])
    ensures var es := Walk(keys, Some(begin), end);
            && es != [] && es[0].0 == begin && Gapped(es)
            && forall s :: InExtents(es, s) <==> begin <= s <= end || s in keys
  {
    var es := Walk(keys, Some(begin), end);
    if keys == [] {
      assert es[0] == (begin, end);
    } else {
      var rest := keys[1..];
      assert keys == [keys[0]] + rest;
      assert rest != [] ==> rest[0] == keys[1];
      if keys[0] == end + 1 {
        WalkFrom(rest, begin, keys[0]);
      } else {
        WalkFrom(rest, keys[0], keys[0]);
        GappedCons((begin, end), Walk(rest, Some(keys[0]), keys[0]));
        forall s ensures InExtents(es, s) <==> begin <= s <= end || s in keys {
          InExtentsCons((begin, end), Walk(rest, Some(keys[0]), keys[0]), s);
        }
      }
    }
  }

  /** The extents of ascending segments are their maximal runs. */
  lemma WalkAll(keys: seq<int>)
    requires Ascending(keys)
    ensures var es := Walk(keys, None, 0);
            Gapped(es) && forall s :: InExtents(es, s) <==> s in keys
  {
    if keys != [] {
      var rest := keys[1..];
      assert keys == [keys[0]] + rest;
      assert rest != [] ==> rest[0] == keys[1];
      var es := Walk(rest, Some(keys[0]), keys[0]);
      WalkFrom(rest, keys[0], keys[0]);
      assert [] + es == es;
      assert Walk(keys, None, 0) == es;
      hide Walk, InExtents, Gapped, Ascending;
      forall s ensures InExtents(es, s) <==> s in keys {
        assert s in keys <==> s == keys[0] || s in rest;
      }
    }
  }

  /** recordRW writes the canonical extents. */
  lemma RwOutput(cfg: Config, rows: seq<Row>)
    requires ConfigOk(cfg) && rows != [] && SameKind(rows) && IsRw(rows[0].op)
    ensures IsExtents(cfg, rows, RecordOp(cfg, Absorbed(cfg, rows)))
  {
    var g := Absorbed(cfg, rows);
    AbsorbedFields(cfg, rows);
    var es := Walk(Sorted(g.segments.Keys), None, 0);
    WalkAll(Sorted(g.segments.Keys));
    ExtentsOfWalk(cfg, rows, g, es);
  }

  lemma ExtentsOfWalk(cfg: Config, rows: seq<Row>, g: Group, es: seq<(int, int)>)
    requires ConfigOk(cfg) && rows != [] && g.op == rows[0].op && g.name == rows[0].name
    requires g.version == Fin(MinVersion(rows))
    requires forall s :: (s in g.segments <==> Touched(cfg, rows, s))
                         && (s in g.segments ==> g.segments[s] == LastTouch(cfg, rows, s))
    requires Gapped(es) && forall s :: InExtents(es, s) <==> s in g.segments
    ensures IsExtents(cfg, rows, ExtentRecords(g, es))
  {
    hide MinVersion, LastTouch, Touched, InExtents, Gapped, Within;
    var recs := ExtentRecords(g, es);
    forall i | 0 <= i < |es|
      ensures es[i].0 <= es[i].1 && es[i].0 in g.segments && g.segments[es[i].0] == LastTouch(cfg, rows, es[i].0)
    {
      ExtentStarts(es, i);
    }
    ExtentsSeparate(g, es);
    forall s ensures Touched(cfg, rows, s) <==> Covered(recs, s) {
      ExtentsCover(g, es, s);
    }
  }

  lemma ExtentStarts(es: seq<(int, int)>, i: nat)
    requires Gapped(es) && i < |es|
    ensures es[i].0 <= es[i].1 && InExtents(es, es[i].0)
  {
  }

  lemma ExtentsSeparate(g: Group, es: seq<(int, int)>)
    requires Gapped(es)
    ensures Separate(ExtentRecords(g, es))
  {
  }

  lemma ExtentsCover(g: Group, es: seq<(int, int)>, s: int)
    ensures InExtents(es, s) <==> Covered(ExtentRecords(g, es), s)
  {
    var recs := ExtentRecords(g, es);
    if InExtents(es, s) {
      var i :| 0 <= i < |es| && es[i].0 <= s <= es[i].1;
      assert Within(recs[i], s);
    }
    if Covered(recs, s) {
      var i :| 0 <= i < |recs| && Within(recs[i], s);
      assert es[i].0 <= s <= es[i].1;
    }
  }

  lemma GroupOutput(cfg: Config, rows: seq<Row>)
    requires ConfigOk(cfg) && rows != [] && Together(cfg, rows)
    ensures IsOutput(cfg, rows, RecordOp(cfg, Absorbed(cfg, rows)))
  {
    forall i | 0 <= i < |rows| ensures rows[i].op == rows[0].op && rows[i].name == rows[0].name {
      TogetherSameKind(cfg, rows, i);
    }
    AbsorbedFields(cfg, rows);
    if IsRw(rows[0].op) {
      RwOutput(cfg, rows);
    }
    CeilDivEnough(SumCount(rows), cfg.dirPerSegment);
  }

  // ----- the groups

  /** The groups of `rows`, when the rows `open` already form the group in progress. */
  function GroupsFrom(cfg: Config, open: seq<Row>, rows: seq<Row>): seq<seq<Row>>
    requires open != []
    decreases |rows|
  {
    if rows == [] then [open]
    else if Breaks(cfg, open[|open| - 1], rows[0]) then [open] + GroupsFrom(cfg, [rows[0]], rows[1..])
    else GroupsFrom(cfg, open + [rows[0]], rows[1..])
  }

  function Groups(cfg: Config, rows: seq<Row>): seq<seq<Row>> {
    if rows == [] then [] else GroupsFrom(cfg, [rows[0]], rows[1..])
  }

  lemma {:induction false} GroupsFromPartition(cfg: Config, open: seq<Row>, rows: seq<Row>)
    requires open != [] && Together(cfg, open)
    ensures var gs := GroupsFrom(cfg, open, rows);
            gs != [] && open <= gs[0] && IsPartition(cfg, open + rows, gs)
    decreases |rows|
  {
    if rows == [] {
      assert open + rows == open && Flatten([open]) == open + Flatten([]);
    } else if Breaks(cfg, open[|open| - 1], rows[0]) {
      var rest := GroupsFrom(cfg, [rows[0]], rows[1..]);
      GroupsFromPartition(cfg, [rows[0]], rows[1..]);
      var gs := [open] + rest;
      assert rest[0][0] == rows[0];
      assert gs[1..] == rest && rows == [rows[0]] + rows[1..];
      assert forall i :: 0 < i < |gs| ==> gs[i] == rest[i - 1];
    } else {
      GroupsFromPartition(cfg, open + [rows[0]], rows[1..]);
      assert open + rows == (open + [rows[0]]) + rows[1..];
      assert open <= open + [rows[0]];
    }
  }

  /** Every row is in exactly one group, and the groups are cut at the breaks. */
  lemma GroupsPartition(cfg: Config, rows: seq<Row>)
    ensures IsPartition(cfg, rows, Groups(cfg, rows))
  {
    if rows != [] {
      GroupsFromPartition(cfg, [rows[0]], rows[1..]);
      assert rows == [rows[0]] + rows[1..];
    }
  }

  // ----- the streaming program meets the specification

  ghost function Outputs(cfg: Config, groups: seq<seq<Row>>): (r: seq<seq<Record>>)
    requires ConfigOk(cfg) && forall i :: 0 <= i < |groups| ==> groups[i] != []
    ensures |r| == |groups|
    ensures forall i :: 0 <= i < |groups| ==> r[i] == RecordOp(cfg, Absorbed(cfg, groups[i]))
  {
    if groups == [] then []
    else [RecordOp(cfg, Absorbed(cfg, groups[0]))] + Outputs(cfg, groups[1..])
  }

  lemma AbsorbedMore(cfg: Config, open: seq<Row>, row: Row)
    requires ConfigOk(cfg) && open != []
    ensures Absorbed(cfg, open + [row]) == Absorb(cfg, Absorbed(cfg, open), row)
  {
    assert (open + [row])[..|open|] == open;
  }

  lemma SplitsIffBreaks(cfg: Config, open: seq<Row>, row: Row)
    requires ConfigOk(cfg) && open != [] && Together(cfg, open)
    ensures Splits(cfg, Absorbed(cfg, open), row) <==> Breaks(cfg, open[|open| - 1], row)
  {
    forall i | 0 <= i < |open| ensures open[i].op == open[0].op && open[i].name == open[0].name {
      TogetherSameKind(cfg, open, i);
    }
    AbsorbedFields(cfg, open);
  }

  lemma {:induction false} StreamGroups(cfg: Config, open: seq<Row>, rows: seq<Row>)
    requires ConfigOk(cfg) && open != [] && Together(cfg, open)
    ensures IsPartition(cfg, open + rows, GroupsFrom(cfg, open, rows))
    ensures Stream(cfg, Absorbed(cfg, open), rows) == Flatten(Outputs(cfg, GroupsFrom(cfg, open, rows)))
    decreases |rows|
  {
    hide IsPartition, RecordOp, Absorb, Breaks, Splits;
    GroupsFromPartition(cfg, open, rows);
    PartitionNonEmpty(cfg, open + rows, GroupsFrom(cfg, open, rows));
    var first := RecordOp(cfg, Absorbed(cfg, open));
    if rows == [] {
      assert Outputs(cfg, [open]) == [first] + Outputs(cfg, []);
      assert Flatten([first]) == first + Flatten([]) == first;
    } else {
      SplitsIffBreaks(cfg, open, rows[0]);
      if Breaks(cfg, open[|open| - 1], rows[0]) {
        StreamGroups(cfg, [rows[0]], rows[1..]);
        var rest := GroupsFrom(cfg, [rows[0]], rows[1..]);
        PartitionNonEmpty(cfg, [rows[0]] + rows[1..], rest);
        assert ([open] + rest)[1..] == rest;
        assert ([first] + Outputs(cfg, rest))[1..] == Outputs(cfg, rest);
      } else {
        TogetherMore(cfg, open, rows[0]);
        AbsorbedMore(cfg, open, rows[0]);
        StreamGroups(cfg, open + [rows[0]], rows[1..]);
      }
    }
  }

  lemma TogetherMore(cfg: Config, open: seq<Row>, row: Row)
    requires open != [] && Together(cfg, open) && !Breaks(cfg, open[|open| - 1], row)
    ensures Together(cfg, open + [row])
  {
  }

  lemma PartitionNonEmpty(cfg: Config, rows: seq<Row>, groups: seq<seq<Row>>)
    requires IsPartition(cfg, rows, groups)
    ensures forall i :: 0 <= i < |groups| ==> groups[i] != [] && Together(cfg, groups[i])
  {
  }

  /**
   * For every input, whatever its order: what the program writes is, group by
   * group, what the specification says about the groups of the input, and every
   * row is in exactly one group.
   */
  lemma MergerMeetsSpec(cfg: Config, rows: seq<Row>)
    requires ConfigOk(cfg)
    ensures var groups := Groups(cfg, rows);
            && IsPartition(cfg, rows, groups)
            && Stream(cfg, INITIAL, rows) == Flatten(Outputs(cfg, groups))
            && forall i :: 0 <= i < |groups| ==> IsOutput(cfg, groups[i], Outputs(cfg, groups)[i])
  {
    var groups := Groups(cfg, rows);
    GroupsPartition(cfg, rows);
    PartitionNonEmpty(cfg, rows, groups);
    forall i | 0 <= i < |groups| ensures IsOutput(cfg, groups[i], Outputs(cfg, groups)[i]) {
      GroupOutput(cfg, groups[i]);
    }
    hide IsPartition, IsOutput, GroupsFrom, Outputs;
    if rows == [] {
      NothingIn(cfg);
    } else {
      StreamGroups(cfg, [rows[0]], rows[1..]);
      FirstRow(cfg, rows);
    }
  }

  lemma NothingIn(cfg: Config)
    requires ConfigOk(cfg)
    ensures Stream(cfg, INITIAL, []) == [] && Flatten(Outputs(cfg, [])) == []
  {
  }

  /** The first row always closes the initial group, for which nothing is written. */
  lemma FirstRow(cfg: Config, rows: seq<Row>)
    requires ConfigOk(cfg) && rows != []
    ensures Stream(cfg, INITIAL, rows) == Stream(cfg, Absorbed(cfg, [rows[0]]), rows[1..])
  {
    var g := Absorb(cfg, Reset(rows[0]), rows[0]);
    assert Absorbed(cfg, [rows[0]]) == g;
    assert RecordOp(cfg, INITIAL) == [];
    assert [] + Stream(cfg, g, rows[1..]) == Stream(cfg, g, rows[1..]);
  }
}

/** The specification leaves no choice, and what it means for reads and writes. */
module RwMeaning {
  import opened Options
  import opened RwRows
  import opened RwSpec
  import opened RwStream

  lemma FlattenFirst(gs: seq<seq<Row>>, k: nat)
    requires gs != [] && k < |gs[0]|
    ensures k < |Flatten(gs)| && Flatten(gs)[k] == gs[0][k]
  {
  }

  lemma BreakBehindFirst(cfg: Config, rows: seq<Row>, gs: seq<seq<Row>>)
    requires IsPartition(cfg, rows, gs) && gs != [] && 0 < |gs[0]| < |rows|
    ensures Breaks(cfg, rows[|gs[0]| - 1], rows[|gs[0]|])
  {
    var k := |gs[0]|;
    FlattenFirst(gs, k - 1);
    assert rows == gs[0] + Flatten(gs[1..]);
    assert gs[1..] != [];
    FlattenFirst(gs[1..], 0);
    assert rows[k] == gs[1][0];
    assert Breaks(cfg, gs[1 - 1][|gs[1 - 1]| - 1], gs[1][0]);
  }

  lemma NoBreakInFirst(cfg: Config, rows: seq<Row>, gs: seq<seq<Row>>, k: nat)
    requires IsPartition(cfg, rows, gs) && gs != [] && 0 < k < |gs[0]|
    ensures k < |rows| && !Breaks(cfg, rows[k - 1], rows[k])
  {
    FlattenFirst(gs, k);
    FlattenFirst(gs, k - 1);
    assert !Breaks(cfg, gs[0][k - 1], gs[0][k]);
  }

  lemma NoEmptyGroup(cfg: Config, rows: seq<Row>, gs: seq<seq<Row>>)
    requires IsPartition(cfg, rows, gs)
    ensures gs == [] <==> rows == []
    ensures gs != [] ==> gs[0] != []
  {
    if gs != [] {
      FlattenFirst(gs, 0);
    }
  }

  /** Where a partition cuts for the first time. */
  lemma FirstCut(cfg: Config, rows: seq<Row>, gs: seq<seq<Row>>, gs': seq<seq<Row>>)
    requires IsPartition(cfg, rows, gs) && IsPartition(cfg, rows, gs') && gs != [] && gs' != []
    ensures |gs[0]| >= |gs'[0]|
  {
    hide IsPartition, Breaks;
    NoEmptyGroup(cfg, rows, gs);
    if |gs[0]| < |gs'[0]| {
      NoBreakInFirst(cfg, rows, gs', |gs[0]|);
      BreakBehindFirst(cfg, rows, gs);
    }
  }

  lemma PartitionTail(cfg: Config, rows: seq<Row>, gs: seq<seq<Row>>)
    requires IsPartition(cfg, rows, gs) && gs != []
    ensures |gs[0]| <= |rows| && rows[..|gs[0]|] == gs[0]
    ensures IsPartition(cfg, rows[|gs[0]|..], gs[1..])
  {
    var rest := gs[1..];
    assert rows == gs[0] + Flatten(rest);
    forall i | 0 < i < |rest| ensures Breaks(cfg, rest[i - 1][|rest[i - 1]| - 1], rest[i][0]) {
      assert gs[i + 1] == rest[i] && gs[i + 1 - 1] == rest[i - 1];
    }
  }

  /** There is only one way to cut the rows. */
  lemma {:induction false} PartitionUnique(cfg: Config, rows: seq<Row>, gs: seq<seq<Row>>, gs': seq<seq<Row>>)
    requires IsPartition(cfg, rows, gs) && IsPartition(cfg, rows, gs')
    ensures gs == gs'
    decreases |gs|
  {
    NoEmptyGroup(cfg, rows, gs);
    NoEmptyGroup(cfg, rows, gs');
    if gs != [] {
      FirstCut(cfg, rows, gs, gs');
      FirstCut(cfg, rows, gs', gs);
      PartitionTail(cfg, rows, gs);
      PartitionTail(cfg, rows, gs');
      PartitionUnique(cfg, rows[|gs[0]|..], gs[1..], gs'[1..]);
      assert gs == [gs[0]] + gs[1..] && gs' == [gs'[0]] + gs'[1..];
    }
  }

  // ----- extents

  lemma CoveredTail(recs: seq<Record>, s: int)
    requires recs != [] && Separate(recs) && recs[0].count.value >= 1
    requires forall i :: 0 <= i < |recs| ==> recs[i].count.value >= 1
    ensures Separate(recs[1..])
    ensures Covered(recs[1..], s) <==> Covered(recs, s) && s >= recs[0].start.value + recs[0].count.value
  {
    if Covered(recs[1..], s) {
      var i :| 0 <= i < |recs[1..]| && Within(recs[1..][i], s);
      assert Within(recs[i + 1], s);
      assert recs[0].start.value + recs[0].count.value < recs[i + 1].start.value;
    }
    if Covered(recs, s) && s >= recs[0].start.value + recs[0].count.value {
      var i :| 0 <= i < |recs| && Within(recs[i], s);
      assert Within(recs[1..][i - 1], s);
    }
  }

  /** The first record begins at the least covered segment, and ends before the first gap. */
  lemma FirstExtent(recs: seq<Record>)
    requires recs != [] && Separate(recs) && forall i :: 0 <= i < |recs| ==> recs[i].count.value >= 1
    ensures var a, n := recs[0].start.value, recs[0].count.value;
            && (forall s :: a <= s < a + n ==> Covered(recs, s))
            && (forall s :: Covered(recs, s) ==> s >= a)
            && !Covered(recs, a + n)
  {
    var a, n := recs[0].start.value, recs[0].count.value;
    forall s | a <= s < a + n ensures Covered(recs, s) {
      assert Within(recs[0], s);
    }
    forall s | Covered(recs, s) ensures s >= a && s != a + n {
      var i :| 0 <= i < |recs| && Within(recs[i], s);
      if i > 0 {
        assert recs[0].start.value + recs[0].count.value < recs[i].start.value;
      }
    }
  }

  ghost predicate SameCover(xs: seq<Record>, ys: seq<Record>) {
    forall s :: Covered(xs, s) <==> Covered(ys, s)
  }

  ghost predicate ProperExtents(recs: seq<Record>) {
    Separate(recs) && forall i :: 0 <= i < |recs| ==> recs[i].count.value >= 1
  }

  lemma SameFirst(xs: seq<Record>, ys: seq<Record>)
    requires ProperExtents(xs) && ProperExtents(ys) && SameCover(xs, ys) && xs != [] && ys != []
    ensures xs[0].start == ys[0].start && xs[0].count == ys[0].count
  {
    FirstExtent(xs);
    FirstExtent(ys);
    hide Covered;
    var a, n, b, m := xs[0].start.value, xs[0].count.value, ys[0].start.value, ys[0].count.value;
    assert Covered(ys, a) && Covered(xs, b);
    assert a == b;
    assert n < m ==> Covered(ys, a + n);
    assert m < n ==> Covered(xs, a + m);
  }

  /** Separate extents that cover the same segments are the same extents. */
  lemma {:induction false} ExtentsUnique(xs: seq<Record>, ys: seq<Record>)
    requires ProperExtents(xs) && ProperExtents(ys) && SameCover(xs, ys)
    ensures |xs| == |ys|
    ensures forall i :: 0 <= i < |xs| ==> xs[i].start == ys[i].start && xs[i].count == ys[i].count
    decreases |xs|
  {
    if xs == [] {
      NothingCovered(ys);
    } else if ys == [] {
      NothingCovered(xs);
    } else {
      SameFirst(xs, ys);
      forall s ensures Covered(xs[1..], s) <==> Covered(ys[1..], s) {
        CoveredTail(xs, s);
        CoveredTail(ys, s);
        assert Covered(xs, s) <==> Covered(ys, s);
      }
      CoveredTail(xs, 0);
      CoveredTail(ys, 0);
      ExtentsUnique(xs[1..], ys[1..]);
      forall i | 0 <= i < |xs| ensures xs[i].start == ys[i].start && xs[i].count == ys[i].count {
        if i > 0 {
          assert xs[i] == xs[1..][i - 1] && ys[i] == ys[1..][i - 1];
        }
      }
    }
  }

  lemma NothingCovered(ys: seq<Record>)
    requires ProperExtents(ys) && SameCover([], ys)
    ensures ys == []
  {
    if ys != [] {
      SomethingCovered(ys);
    }
  }

  lemma SomethingCovered(ys: seq<Record>)
    requires ProperExtents(ys) && ys != []
    ensures Covered(ys, ys[0].start.value)
  {
    FirstExtent(ys);
  }

  /** A group of reads or writes has exactly one canonical form. */
  lemma IsExtentsUnique(cfg: Config, rows: seq<Row>, xs: seq<Record>, ys: seq<Record>)
    requires ConfigOk(cfg) && rows != [] && IsExtents(cfg, rows, xs) && IsExtents(cfg, rows, ys)
    ensures xs == ys
  {
    hide MinVersion, LastTouch;
    forall s ensures Covered(xs, s) <==> Covered(ys, s) {
      assert Touched(cfg, rows, s) <==> Covered(xs, s);
    }
    ExtentsUnique(xs, ys);
    forall i | 0 <= i < |xs| ensures xs[i] == ys[i] {
    }
  }

  ghost function SumCounts(recs: seq<Record>): int
    requires Separate(recs)
  {
    if recs == [] then 0 else recs[0].count.value + SumCounts(recs[1..])
  }

  ghost function Interval(a: int, n: nat): (s: set<int>)
    ensures |s| == n
    ensures forall x :: x in s <==> a <= x < a + n
  {
    if n == 0 then {} else Interval(a, n - 1) + {a + n - 1}
  }

  /** The counts add up to the number of distinct segments. */
  lemma {:induction false} CountsAddUp(recs: seq<Record>, segments: set<int>)
    requires ProperExtents(recs) && forall s :: s in segments <==> Covered(recs, s)
    ensures SumCounts(recs) == |segments|
    decreases |recs|
  {
    if recs == [] {
      assert forall s :: s !in segments;
      assert (forall s :: s !in segments) ==> segments == {};
    } else {
      var first := Interval(recs[0].start.value, recs[0].count.value);
      var rest := segments - first;
      FirstExtent(recs);
      forall s ensures s in rest <==> Covered(recs[1..], s) {
        CoveredTail(recs, s);
      }
      CoveredTail(recs, 0);
      CountsAddUp(recs[1..], rest);
      assert first <= segments;
    }
  }

  /** In a group sorted by descending time, the stamp of a touched segment is the earliest time it was touched. */
  lemma {:induction false} EarliestTouch(cfg: Config, rows: seq<Row>, s: int)
    requires ConfigOk(cfg) && Touched(cfg, rows, s)
    requires forall i, j :: 0 <= i < j < |rows| ==> rows[j].t <= rows[i].t
    ensures forall i :: 0 <= i < |rows| && Touches(cfg, rows[i], s) ==> LastTouch(cfg, rows, s) <= rows[i].t
    ensures exists i :: 0 <= i < |rows| && Touches(cfg, rows[i], s) && rows[i].t == LastTouch(cfg, rows, s)
  {
    var n := |rows| - 1;
    if !Touches(cfg, rows[n], s) {
      var before := rows[..n];
      var i :| 0 <= i < |rows| && Touches(cfg, rows[i], s);
      assert Touches(cfg, before[i], s);
      EarliestTouch(cfg, before, s);
      var j :| 0 <= j < |before| && Touches(cfg, before[j], s) && before[j].t == LastTouch(cfg, before, s);
      assert Touches(cfg, rows[j], s);
      forall k | 0 <= k < |rows| && Touches(cfg, rows[k], s) ensures LastTouch(cfg, rows, s) <= rows[k].t {
        assert Touches(cfg, before[k], s);
      }
    }
  }

  /** Among the rows of one operation and name, times descend: so the program's input is sorted. */
  ghost predicate TimesDescend(rows: seq<Row>) {
    forall i, j :: 0 <= i < j < |rows| && rows[i].op == rows[j].op && rows[i].name == rows[j].name ==>
      rows[j].t <= rows[i].t
  }

  /** In sorted input the times of each group descend. */
  lemma {:induction false} GroupDescends(cfg: Config, rows: seq<Row>, gs: seq<seq<Row>>, i: nat)
    requires IsPartition(cfg, rows, gs) && TimesDescend(rows) && i < |gs|
    ensures forall a, b :: 0 <= a < b < |gs[i]| ==> gs[i][b].t <= gs[i][a].t
    decreases i
  {
    PartitionNonEmpty(cfg, rows, gs);
    PartitionTail(cfg, rows, gs);
    var n := |gs[0]|;
    hide IsPartition, Flatten, Breaks;
    if i == 0 {
      forall a, b | 0 <= a < b < n ensures gs[0][b].t <= gs[0][a].t {
        TogetherSameKind(cfg, gs[0], a);
        TogetherSameKind(cfg, gs[0], b);
        assert gs[0][a] == rows[a] && gs[0][b] == rows[b];
      }
    } else {
      var rest := rows[n..];
      forall a, b | 0 <= a < b < |rest| && rest[a].op == rest[b].op && rest[a].name == rest[b].name
        ensures rest[b].t <= rest[a].t
      {
        assert rest[a] == rows[n + a] && rest[b] == rows[n + b];
      }
      GroupDescends(cfg, rest, gs[1..], i - 1);
    }
  }

  /** The record's time is the earliest at which a row of the group touched the record's first segment. */
  ghost predicate Timed(cfg: Config, group: seq<Row>, record: Record)
    requires ConfigOk(cfg)
  {
    && record.start.Some? && record.t.Fin?
    && (forall a :: 0 <= a < |group| && Touches(cfg, group[a], record.start.value) ==> record.t.value <= group[a].t)
    && exists a :: 0 <= a < |group| && Touches(cfg, group[a], record.start.value) && record.t.value == group[a].t
  }

  lemma ExtentTimed(cfg: Config, group: seq<Row>, records: seq<Record>, r: nat)
    requires ConfigOk(cfg) && group != [] && IsExtents(cfg, group, records) && r < |records|
    requires forall a, b :: 0 <= a < b < |group| ==> group[b].t <= group[a].t
    ensures Timed(cfg, group, records[r])
  {
    hide LastTouch, MinVersion, Touches;
    var s := records[r].start.value;
    assert Within(records[r], s);
    assert Touched(cfg, group, s) <==> Covered(records, s);
    EarliestTouch(cfg, group, s);
  }

  /**
   * On sorted input, the program writes each group of reads or writes as the
   * canonical extents, and the time of every extent is the earliest at which
   * any row of the group touched the extent's first segment.
   */
  lemma SortedInput(cfg: Config, rows: seq<Row>)
    requires ConfigOk(cfg) && TimesDescend(rows)
    ensures var groups := Groups(cfg, rows);
            && IsPartition(cfg, rows, groups)
            && Stream(cfg, INITIAL, rows) == Flatten(Outputs(cfg, groups))
            && forall i, r :: 0 <= i < |groups| && IsRw(groups[i][0].op) && 0 <= r < |Outputs(cfg, groups)[i]| ==>
                 IsExtents(cfg, groups[i], Outputs(cfg, groups)[i])
                 && Timed(cfg, groups[i], Outputs(cfg, groups)[i][r])
  {
    var groups := Groups(cfg, rows);
    MergerMeetsSpec(cfg, rows);
    PartitionNonEmpty(cfg, rows, groups);
    hide IsPartition, Flatten, Groups, Outputs, Stream, IsExtents, Timed;
    forall i, r | 0 <= i < |groups| && IsRw(groups[i][0].op) && 0 <= r < |Outputs(cfg, groups)[i]|
      ensures IsExtents(cfg, groups[i], Outputs(cfg, groups)[i])
      ensures Timed(cfg, groups[i], Outputs(cfg, groups)[i][r])
    {
      assert IsOutput(cfg, groups[i], Outputs(cfg, groups)[i]);
      GroupDescends(cfg, rows, groups, i);
      ExtentTimed(cfg, groups[i], Outputs(cfg, groups)[i], r);
    }
  }

  predicate IsByteOf(row: Row, o: int) {
    row.start <= o < row.start + row.count
  }

  /** The row has a byte in segment `s`. */
  ghost predicate HasByteIn(cfg: Config, row: Row, s: int) {
    exists o :: IsByteOf(row, o) && s * cfg.segmentSize <= o < (s + 1) * cfg.segmentSize
  }

  /** A row with a count touches exactly the segments that its bytes lie in. */
  lemma TouchesItsBytes(cfg: Config, row: Row, s: int)
    requires ConfigOk(cfg) && row.count >= 1
    ensures Touches(cfg, row, s) <==> HasByteIn(cfg, row, s)
  {
    if Touches(cfg, row, s) {
      assert (s + 1) * cfg.segmentSize == s * cfg.segmentSize + cfg.segmentSize;
      assert IsByteOf(row, if row.start < s * cfg.segmentSize then s * cfg.segmentSize else row.start);
    }
  }

  /** The record's time is the earliest at which the group has a byte in the record's first segment. */
  ghost predicate TimedInBytes(cfg: Config, group: seq<Row>, record: Record) {
    && record.start.Some? && record.t.Fin?
    && (forall a :: 0 <= a < |group| && HasByteIn(cfg, group[a], record.start.value) ==> record.t.value <= group[a].t)
    && exists a :: 0 <= a < |group| && HasByteIn(cfg, group[a], record.start.value) && record.t.value == group[a].t
  }

  /** The records of a group of reads or writes cover the segments in which it has bytes. */
  ghost predicate CoverInBytes(cfg: Config, group: seq<Row>, records: seq<Record>) {
    forall s :: Covered(records, s) <==> exists a :: 0 <= a < |group| && HasByteIn(cfg, group[a], s)
  }

  lemma ExtentsInBytes(cfg: Config, group: seq<Row>, records: seq<Record>)
    requires ConfigOk(cfg) && group != [] && IsExtents(cfg, group, records)
    requires forall a :: 0 <= a < |group| ==> group[a].count >= 1
    ensures CoverInBytes(cfg, group, records)
  {
    hide Touches, HasByteIn, LastTouch, MinVersion, Separate, Covered;
    forall s ensures Covered(records, s) <==> exists a :: 0 <= a < |group| && HasByteIn(cfg, group[a], s) {
      forall a | 0 <= a < |group| ensures Touches(cfg, group[a], s) <==> HasByteIn(cfg, group[a], s) {
        TouchesItsBytes(cfg, group[a], s);
      }
      assert Touched(cfg, group, s) <==> Covered(records, s);
    }
  }

  lemma TimesInBytes(cfg: Config, group: seq<Row>, record: Record)
    requires ConfigOk(cfg) && Timed(cfg, group, record)
    requires forall a :: 0 <= a < |group| ==> group[a].count >= 1
    ensures TimedInBytes(cfg, group, record)
  {
    hide Touches, HasByteIn;
    var s := record.start.value;
    forall a | 0 <= a < |group| ensures Touches(cfg, group[a], s) <==> HasByteIn(cfg, group[a], s) {
      TouchesItsBytes(cfg, group[a], s);
    }
  }

  predicate NoneEmpty(group: seq<Row>) {
    forall a :: 0 <= a < |group| ==> group[a].count >= 1
  }

  /**
   * On sorted input: a group of reads or writes without empty ones is written as
   * records that cover exactly the segments in which the group has bytes, each
   * with the earliest time at which the group has bytes in its first segment.
   */
  lemma SortedInputInBytes(cfg: Config, rows: seq<Row>)
    requires ConfigOk(cfg) && TimesDescend(rows)
    ensures var groups := Groups(cfg, rows);
            && IsPartition(cfg, rows, groups)
            && Stream(cfg, INITIAL, rows) == Flatten(Outputs(cfg, groups))
            && forall i :: 0 <= i < |groups| && groups[i][0].op in ["read", "write"] && NoneEmpty(groups[i]) ==>
                 CoverInBytes(cfg, groups[i], Outputs(cfg, groups)[i])
                 && forall r :: 0 <= r < |Outputs(cfg, groups)[i]| ==>
                      TimedInBytes(cfg, groups[i], Outputs(cfg, groups)[i][r])
  {
    MergerMeetsSpec(cfg, rows);
    SortedInput(cfg, rows);
    hide IsPartition, Flatten, Groups, Outputs, Stream, IsExtents, Timed, TimedInBytes, CoverInBytes, MinVersion;
    var groups: seq<seq<Row>> := Groups(cfg, rows);
    forall i | 0 <= i < |groups| && groups[i][0].op in ["read", "write"] && NoneEmpty(groups[i])
      ensures CoverInBytes(cfg, groups[i], Outputs(cfg, groups)[i])
      ensures forall r :: 0 <= r < |Outputs(cfg, groups)[i]| ==>
                TimedInBytes(cfg, groups[i], Outputs(cfg, groups)[i][r])
    {
      var group, records := groups[i], Outputs(cfg, groups)[i];
      assert IsOutput(cfg, group, records);
      ExtentsInBytes(cfg, group, records);
      forall r | 0 <= r < |records| ensures TimedInBytes(cfg, group, records[r]) {
        TimesInBytes(cfg, group, records[r]);
      }
    }
  }
}

/** The class of rwmerge.js, its fields changed row by row, proved against the streaming functions. */
module RwMerge {
  import opened Options
  import opened RwRows
  import opened RwSpec
  import opened RwStream

  /** `option || default`: zero counts as not given. */
  function Default(option: nat, value: nat): nat {
    if option == 0 then value else option
  }

  class RwMerge {
    const cfg: Config
    var t: Num
    var op: string
    var name: string
    var segments: map<int, real>
    var dirCount: int
    var version: Num
    var out: seq<Record>  // what has been written

    ghost function Current(): Group
      reads this
    {
      Group(t, op, name, segments, dirCount, version)
    }

    constructor (maxSlack: nat, segmentSize: nat, dirPerSegment: nat)
      ensures ConfigOk(cfg) && Current() == INITIAL && out == []
      ensures cfg.maxSlack == if maxSlack == 0 then 4096.0 else maxSlack as real
      ensures cfg.segmentSize == if segmentSize == 0 then 4096 else segmentSize
      ensures cfg.dirPerSegment == if dirPerSegment == 0 then 32 else dirPerSegment
    {
      cfg := Config(Default(maxSlack, 4096) as real, Default(segmentSize, 4096), Default(dirPerSegment, 32));
      t, op, name, segments, dirCount, version, out := Infinity, "", "", map[], 0, Infinity, [];
    }

    method Reset(row: Row)
      modifies this
      ensures Current() == RwRows.Reset(row) && out == old(out)
    {
      t := Infinity;
      op := row.op;
      name := row.name;
      segments := map[];
      dirCount := 0;
      version := VersionOrInfinity(row);
    }

    method ProcessRow(row: Row)
      requires ConfigOk(cfg)
      modifies this
      ensures var g := old(Current());
              if Splits(cfg, g, row)
              then out == old(out) + RwStream.RecordOp(cfg, g) && Current() == Absorb(cfg, RwRows.Reset(row), row)
              else out == old(out) && Current() == Absorb(cfg, g, row)
    {
      if row.op != op || row.name != name || t.Infinity? || row.t < t.value - cfg.maxSlack {
        RecordOp();
        Reset(row);
      }
      AbsorbRow(row);
    }

    /** The `switch` of processRow. */
    method AbsorbRow(row: Row)
      requires ConfigOk(cfg)
      modifies this
      ensures out == old(out) && Current() == Absorb(cfg, old(Current()), row)
    {
      t := Fin(row.t);
      if IsRw(row.op) {
        StampSegments(Segment(cfg, row.start), Segment(cfg, row.start + row.count - 1), row.t);
        version := Min(version, Fin(VersionNumber(row)));
      } else if row.op == "readdirp" {
        dirCount := dirCount + row.count;
        version := Min(version, Fin(VersionNumber(row)));
      }
    }

    method StampSegments(begin: int, end: int, time: real)
      modifies this`segments
      ensures segments == Stamp(old(segments), begin, end, time)
    {
      var seg := begin;
      while seg <= end
        invariant Stamp(segments, seg, end, time) == Stamp(old(segments), begin, end, time)
        decreases end - seg
      {
        segments := segments[seg := time];
        seg := seg + 1;
      }
    }

    method End()
      requires ConfigOk(cfg)
      modifies this`out
      ensures out == old(out) + RwStream.RecordOp(cfg, Current())
    {
      RecordOp();
    }

    method RecordOp()
      requires ConfigOk(cfg)
      modifies this`out
      ensures out == old(out) + RwStream.RecordOp(cfg, Current())
    {
      if op == "" {
        return;
      }
      if IsRw(op) {
        RecordRW();
      } else if op == "readdirp" {
        RecordReadDir();
      } else {
        var v := if version == Infinity then Fin(0.0) else version;
        out := out + [Record(t, op, name, v, None, None)];
      }
    }

    /** recordExtent, for the extent in progress. */
    method RecordExtent(begin: Option<int>, end: int)
      requires begin.Some? ==> begin.value in segments
      modifies this`out
      ensures out == old(out) + if begin.None? then [] else ExtentRecords(Current(), [(begin.value, end)])
    {
      if begin.None? {
        return;
      }
      out := out + [Record(Fin(segments[begin.value]), op, name, version, begin, Some(end - begin.value + 1))];
    }

    method RecordRW()
      requires ConfigOk(cfg) && IsRw(op)
      modifies this`out
      ensures out == old(out) + RwStream.RecordOp(cfg, Current())
    {
      hide IsLeast, RwRows.Sorted, ExtentRecords, Ascending;
      var keys := Sorted(segments.Keys);
      var begin: Option<int>, end := None, 0;
      ghost var done: seq<(int, int)> := [];
      var i := 0;
      while i < |keys|
        invariant 0 <= i <= |keys|
        invariant begin.Some? ==> begin.value in segments
        invariant Walk(keys, None, 0) == done + Walk(keys[i..], begin, end)
        invariant out == old(out) + ExtentRecords(Current(), done)
      {
        var seg := keys[i];
        assert keys[i..][0] == seg && keys[i..][1..] == keys[i + 1..];
        i := i + 1;
        if begin.Some? && seg == end + 1 {
          end := seg;
        } else {
          done := CloseExtent(begin, end, done, old(out));
          begin, end := Some(seg), seg;
        }
      }
      done := CloseExtent(begin, end, done, old(out));
    }

    /** Records the extent in progress and, for the proof, appends it to those already recorded. */
    method CloseExtent(begin: Option<int>, end: int, ghost done: seq<(int, int)>, ghost base: seq<Record>)
      returns (ghost done': seq<(int, int)>)
      requires begin.Some? ==> begin.value in segments
      requires out == base + ExtentRecords(Current(), done)
      modifies this`out
      ensures done' == done + if begin.None? then [] else [(begin.value, end)]
      ensures out == base + ExtentRecords(Current(), done')
    {
      RecordExtent(begin, end);
      done' := done + if begin.None? then [] else [(begin.value, end)];
      if begin.Some? {
        ExtentRecordsMore(Current(), done, (begin.value, end));
      }
    }

    method RecordReadDir()
      requires ConfigOk(cfg) && op == "readdirp"
      modifies this`out
      ensures out == old(out) + RwStream.RecordOp(cfg, Current())
    {
      var count := CeilDiv(dirCount, cfg.dirPerSegment);
      out := out + [Record(t, op, name, version, Some(0), Some(count))];
    }

    /** The `readable` and `finish` handlers: every row, then the end. */
    method Run(rows: seq<Row>)
      requires ConfigOk(cfg) && Current() == INITIAL && out == []
      modifies this
      ensures out == Stream(cfg, INITIAL, rows)
      ensures var groups := Groups(cfg, rows);
              IsPartition(cfg, rows, groups) && out == Flatten(Outputs(cfg, groups))
              && forall i :: 0 <= i < |groups| ==> IsOutput(cfg, groups[i], Outputs(cfg, groups)[i])
    {
      var i := 0;
      while i < |rows|
        invariant 0 <= i <= |rows|
        invariant out + Stream(cfg, Current(), rows[i..]) == Stream(cfg, INITIAL, rows)
      {
        assert rows[i..][0] == rows[i] && rows[i..][1..] == rows[i + 1..];
        ProcessRow(rows[i]);
        i := i + 1;
      }
      End();
      MergerMeetsSpec(cfg, rows);
    }
  }

  lemma ExtentRecordsMore(g: Group, es: seq<(int, int)>, e: (int, int))
    ensures ExtentRecords(g, es + [e]) == ExtentRecords(g, es) + ExtentRecords(g, [e])
  {
  }
}
