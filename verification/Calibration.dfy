/**
 Recalibration of the performance baselines: each measured row is compared with
 the band around its calibrated row, and the file is rewritten when a production
 row drifted, is new or cannot be read.  Floats are modelled as reals.
 */
module Calibration {
  import opened Common

  const ALLOWED_REGRESSION := 0.15
  const ALLOWED_IMPROVEMENT := 0.15
  const ABSOLUTE_BUFFER_US := 2.0
  const MIN_RECALIBRATION_SAMPLES := 5

  type Key = seq<string>

  datatype Benchmark = Tps | WallTime

  /** The last four columns of a row, as far as they parse. */
  datatype Cells = Cells(count: Option<int>, minRatio: Option<real>, maxRatio: Option<real>, median: Option<real>) {
    predicate Parse() {
      count.Some? && minRatio.Some? && maxRatio.Some? && median.Some?
    }
  }

  /**
   A measured row: its key, unless a key column is missing; whether its executor
   blocks; whether it has every column.
   */
  datatype Row = Row(key: Option<Key>, blocking: bool, complete: bool, cells: Cells)

  datatype Line = Line(key: Key, cells: Cells)

  function MaxReal(a: real, b: real): real {
    if a >= b then a else b
  }

  function MinReal(a: real, b: real): real {
    if a <= b then a else b
  }

  function TpsBand(expected: real, count: real, lo: real, hi: real): (real, real)
    requires count != 0.0
  {
    (expected * (1.0 - (1.0 - lo) * (1.0 + 10.0 / count) - 1.0 / count),
     expected * (1.0 + (hi - 1.0) * (1.0 + 10.0 / count) + 1.0 / count))
  }

  function WallTimeBand(expected: real, lo: real, hi: real): (real, real) {
    (MinReal(expected * (1.0 - ALLOWED_IMPROVEMENT) - ABSOLUTE_BUFFER_US, expected * lo),
     MaxReal(expected * (1.0 + ALLOWED_REGRESSION) + ABSOLUTE_BUFFER_US, expected * hi))
  }

  /** The measured median lies in the band around the calibrated row. */
  predicate InBand(b: Benchmark, base: Cells, median: real)
    requires base.Parse() && (b.Tps? ==> base.count.value != 0)
  {
    var expected, lo, hi := base.median.value, base.minRatio.value, base.maxRatio.value;
    var band := if b.Tps? then TpsBand(expected, base.count.value as real, lo, hi) else WallTimeBand(expected, lo, hi);
    band.0 <= median <= band.1
  }

  /** The distances of the ends of the throughput band from its middle, times the count. */
  lemma TpsBandScaled(m: real, c: real, lo: real, hi: real)
    requires c != 0.0
    ensures (m - TpsBand(m, c, lo, hi).0) * c == m * ((1.0 - lo) * (c + 10.0) + 1.0)
    ensures (TpsBand(m, c, lo, hi).1 - m) * c == m * ((hi - 1.0) * (c + 10.0) + 1.0)
  {
    Scaled(c, m, 1.0 - lo);
    Scaled(c, m, hi - 1.0);
  }

  lemma Scaled(c: real, m: real, d: real)
    requires c != 0.0
    ensures (m - m * (1.0 - d * (1.0 + 10.0 / c) - 1.0 / c)) * c == m * (d * (c + 10.0) + 1.0)
    ensures (m * (1.0 + d * (1.0 + 10.0 / c) + 1.0 / c) - m) * c == m * (d * (c + 10.0) + 1.0)
  {
    var e := d * (1.0 + 10.0 / c) + 1.0 / c;
    assert e * c == d * (c + 10.0) + 1.0;
    assert m - m * (1.0 - d * (1.0 + 10.0 / c) - 1.0 / c) == m * e;
    assert m * (1.0 + d * (1.0 + 10.0 / c) + 1.0 / c) - m == m * e;
  }

  lemma TimesCount(x: real, y: real, c: real)
    requires c != 0.0
    ensures x <= y <==> if c > 0.0 then x * c <= y * c else x * c >= y * c
  {
    assert (y - x) * c == y * c - x * c;
  }

  /** For a positive count the throughput band, without divisions; for a negative one it turns around. */
  lemma TpsBandExactlyWhen(base: Cells, median: real)
    requires base.Parse() && base.count.value != 0
    ensures var c, m := base.count.value as real, base.median.value;
      var below := m * ((1.0 - base.minRatio.value) * (c + 10.0) + 1.0);
      var above := m * ((base.maxRatio.value - 1.0) * (c + 10.0) + 1.0);
      InBand(Tps, base, median) <==>
        if c > 0.0 then (m - median) * c <= below && (median - m) * c <= above
        else (m - median) * c >= below && (median - m) * c >= above
  {
    var c, m, lo, hi := base.count.value as real, base.median.value, base.minRatio.value, base.maxRatio.value;
    TpsBandScaled(m, c, lo, hi);
    var band := TpsBand(m, c, lo, hi);
    TimesCount(m - median, m - band.0, c);
    TimesCount(median - m, band.1 - m, c);
  }

  /** A wall time may be 15 percent and two microseconds off on either side, or as far off as the ratios say. */
  lemma WallTimeBandExactlyWhen(base: Cells, median: real)
    requires base.Parse()
    ensures var m := base.median.value;
      InBand(WallTime, base, median) <==>
        && (median <= m * 1.15 + 2.0 || median <= m * base.maxRatio.value)
        && (median >= m * 0.85 - 2.0 || median >= m * base.minRatio.value)
  {
  }

  // ---- Classification ----

  datatype Verdict = MissingKey | Experimental | New | Unparsed | Within | TooFew | Drift | DividesByZero {
    predicate Forces() {
      MissingKey? || New? || Unparsed? || Drift?
    }
  }

  predicate Quiet(v: Verdict) {
    !v.DividesByZero? && !v.Forces()
  }

  function Judge(b: Benchmark, existing: map<Key, Cells>, row: Row): Verdict {
    if row.key.None? then MissingKey
    else if !row.blocking then Experimental
    else if row.key.value !in existing then New
    else Compare(b, existing[row.key.value], row.cells)
  }

  /** A measured row against its calibrated one. */
  function Compare(b: Benchmark, base: Cells, cells: Cells): Verdict {
    if !base.Parse() || cells.median.None? || cells.count.None? then Unparsed
    else if b.Tps? && base.count.value == 0 then DividesByZero
    else if InBand(b, base, cells.median.value) then Within
    else if cells.count.value < MIN_RECALIBRATION_SAMPLES then TooFew
    else Drift
  }

  /** A blocking row whose test is calibrated, with numbers to compare. */
  ghost predicate Comparable(existing: map<Key, Cells>, row: Row) {
    && row.key.Some? && row.blocking && row.key.value in existing
    && existing[row.key.value].Parse() && row.cells.median.Some? && row.cells.count.Some?
  }

  /** The calibrated count of a throughput row is zero. */
  ghost predicate Divides(b: Benchmark, existing: map<Key, Cells>, row: Row) {
    Comparable(existing, row) && b.Tps? && existing[row.key.value].count.value == 0
  }

  /** The measured median is outside the band of the calibrated row. */
  ghost predicate Outside(b: Benchmark, existing: map<Key, Cells>, row: Row) {
    && Comparable(existing, row) && !Divides(b, existing, row)
    && !InBand(b, existing[row.key.value], row.cells.median.value)
  }

  /** The three verdicts that matter, in terms of the row and its calibration. */
  lemma VerdictExactlyWhen(b: Benchmark, existing: map<Key, Cells>, row: Row)
    ensures var v := Judge(b, existing, row);
      && (v.DividesByZero? <==> Divides(b, existing, row))
      && (v.TooFew? <==> Outside(b, existing, row) && row.cells.count.value < 5)
      && (v.Forces() <==>
           || row.key.None?
           || (row.blocking && row.key.Some? && !Comparable(existing, row))
           || (Outside(b, existing, row) && row.cells.count.value >= 5))
  {
  }

  function Load(file: seq<Line>): map<Key, Cells> {
    if file == [] then map[]
    else Load(file[..|file| - 1])[file[|file| - 1].key := file[|file| - 1].cells]
  }

  /** What a run leaves: the old file, a new one, or a crash before or in the middle of writing. */
  datatype Outcome = Unchanged | Rewritten(file: seq<Line>) | CrashedEarly | CrashedWriting(partial: seq<Line>)

  function Keeps(b: Benchmark, existing: map<Key, Cells>, rows: seq<Row>): set<Key> {
    set i | 0 <= i < |rows| && Judge(b, existing, rows[i]).TooFew? :: rows[i].key.value
  }

  /** Whether writing a row raises: a key column is missing, or another one of a row that is not kept. */
  predicate Breaks(keep: set<Key>, row: Row) {
    row.key.None? || (row.key.value !in keep && !row.complete)
  }

  function LineFor(existing: map<Key, Cells>, keep: set<Key>, row: Row): Line
    requires keep <= existing.Keys && row.key.Some?
  {
    Line(row.key.value, if row.key.value in keep then existing[row.key.value] else row.cells)
  }

  function Written(existing: map<Key, Cells>, keep: set<Key>, rows: seq<Row>): seq<Line>
    requires keep <= existing.Keys && forall i :: 0 <= i < |rows| ==> rows[i].key.Some?
  {
    seq(|rows|, i requires 0 <= i < |rows| => LineFor(existing, keep, rows[i]))
  }

  lemma KeepsExist(b: Benchmark, existing: map<Key, Cells>, rows: seq<Row>)
    ensures Keeps(b, existing, rows) <= existing.Keys
  {
  }

  /** What the outcome of a run is, read off the verdicts. */
  ghost predicate IsOutcome(b: Benchmark, rows: seq<Row>, file: seq<Line>, o: Outcome) {
    var existing := Load(file);
    var keep := Keeps(b, existing, rows);
    KeepsExist(b, existing, rows);
    match o
    case CrashedEarly => exists i :: 0 <= i < |rows| && Judge(b, existing, rows[i]).DividesByZero?
    case Unchanged => forall i :: 0 <= i < |rows| ==> Quiet(Judge(b, existing, rows[i]))
    case Rewritten(out) =>
      && (forall i :: 0 <= i < |rows| ==> !Judge(b, existing, rows[i]).DividesByZero?)
      && (exists i :: 0 <= i < |rows| && Judge(b, existing, rows[i]).Forces())
      && (forall i :: 0 <= i < |rows| ==> !Breaks(keep, rows[i]))
      && out == Written(existing, keep, rows)
    case CrashedWriting(out) =>
      && (forall i :: 0 <= i < |rows| ==> !Judge(b, existing, rows[i]).DividesByZero?)
      && (exists i :: 0 <= i < |rows| && Judge(b, existing, rows[i]).Forces())
      && |out| < |rows| && Breaks(keep, rows[|out|])
      && (forall i :: 0 <= i < |out| ==> !Breaks(keep, rows[i]))
      && out == Written(existing, keep, rows[..|out|])
  }

  /** The classification loop: it stops at a division by zero, or says whether to rewrite and which rows to keep. */
  method Classify(b: Benchmark, rows: seq<Row>, existing: map<Key, Cells>)
    returns (divides: bool, needsUpdate: bool, keep: set<Key>)
    ensures divides <==> exists i :: 0 <= i < |rows| && Judge(b, existing, rows[i]).DividesByZero?
    ensures !divides ==> (needsUpdate <==> exists i :: 0 <= i < |rows| && Judge(b, existing, rows[i]).Forces())
    ensures !divides ==> keep == Keeps(b, existing, rows)
  {
    divides, needsUpdate, keep := false, false, {};
    for i := 0 to |rows|
      invariant forall j :: 0 <= j < i ==> !Judge(b, existing, rows[j]).DividesByZero?
      invariant needsUpdate <==> exists j :: 0 <= j < i && Judge(b, existing, rows[j]).Forces()
      invariant keep == Keeps(b, existing, rows[..i])
    {
      var verdict := Judge(b, existing, rows[i]);
      KeepsNext(b, existing, rows, i);
      if verdict.DividesByZero? {
        divides := true;
        return;
      }
      if verdict.Forces() {
        needsUpdate := true;
      } else if verdict.TooFew? {
        keep := keep + {rows[i].key.value};
      }
    }
    assert rows[..|rows|] == rows;
  }

  /** The writing loop: all lines, or those before the first row that cannot be written. */
  method WriteRows(existing: map<Key, Cells>, keep: set<Key>, rows: seq<Row>) returns (out: seq<Line>)
    requires keep <= existing.Keys
    ensures |out| <= |rows| && (|out| < |rows| ==> Breaks(keep, rows[|out|]))
    ensures forall i :: 0 <= i < |out| ==> rows[i].key.Some? && !Breaks(keep, rows[i])
    ensures out == Written(existing, keep, rows[..|out|])
  {
    out := [];
    while |out| < |rows|
      invariant |out| <= |rows| && forall j :: 0 <= j < |out| ==> rows[j].key.Some? && !Breaks(keep, rows[j])
      invariant out == Written(existing, keep, rows[..|out|])
    {
      if Breaks(keep, rows[|out|]) {
        return;
      }
      out := out + [LineFor(existing, keep, rows[|out|])];
    }
  }

  method Calibrate(b: Benchmark, rows: seq<Row>, file: seq<Line>) returns (o: Outcome)
    ensures IsOutcome(b, rows, file, o)
  {
    var existing := Load(file);
    var divides, needsUpdate, keep := Classify(b, rows, existing);
    if divides {
      return CrashedEarly;
    }
    KeepsExist(b, existing, rows);
    if !needsUpdate {
      return Unchanged;
    }
    var out := WriteRows(existing, keep, rows);
    if |out| < |rows| {
      return CrashedWriting(out);
    }
    assert rows[..|out|] == rows;
    return Rewritten(out);
  }

  lemma KeepsNext(b: Benchmark, existing: map<Key, Cells>, rows: seq<Row>, i: nat)
    requires i < |rows|
    ensures Keeps(b, existing, rows[..i + 1]) == Keeps(b, existing, rows[..i]) +
      if Judge(b, existing, rows[i]).TooFew? then {rows[i].key.value} else {}
  {
    var before, after := Keeps(b, existing, rows[..i]), Keeps(b, existing, rows[..i + 1]);
    forall k | k in before ensures k in after {
      var j :| 0 <= j < i && Judge(b, existing, rows[..i][j]).TooFew? && rows[..i][j].key.value == k;
      assert rows[..i + 1][j] == rows[..i][j];
    }
    forall k | k in after ensures k in before || (Judge(b, existing, rows[i]).TooFew? && k == rows[i].key.value) {
      var j :| 0 <= j < i + 1 && Judge(b, existing, rows[..i + 1][j]).TooFew? && rows[..i + 1][j].key.value == k;
      if j < i {
        assert rows[..i][j] == rows[..i + 1][j];
      }
    }
    if Judge(b, existing, rows[i]).TooFew? {
      assert rows[..i + 1][i] == rows[i];
    }
  }

  // ---- Running twice ----

  ghost predicate DistinctKeys(rows: seq<Row>) {
    forall i, j :: 0 <= i < j < |rows| ==> rows[i].key != rows[j].key
  }

  lemma {:induction false} LoadLine(file: seq<Line>, i: nat)
    requires i < |file| && forall a, b :: 0 <= a < b < |file| ==> file[a].key != file[b].key
    ensures file[i].key in Load(file) && Load(file)[file[i].key] == file[i].cells
  {
    if i < |file| - 1 {
      LoadLine(file[..|file| - 1], i);
    }
  }

  lemma {:induction false} LoadKeys(file: seq<Line>, key: Key)
    ensures key in Load(file) <==> exists i :: 0 <= i < |file| && file[i].key == key
  {
    if file != [] {
      var n := |file| - 1;
      LoadKeys(file[..n], key);
      if i :| 0 <= i < n && file[i].key == key {
        assert file[..n][i].key == key;
      }
    }
  }

  /** The last line of a key counts. */
  lemma {:induction false} LoadIs(file: seq<Line>, key: Key, i: nat)
    requires LastOf(file, key, i)
    ensures key in Load(file) && Load(file)[key] == file[i].cells
  {
    var n := |file| - 1;
    if i < n {
      LoadIs(file[..n], key, i);
    }
  }

  ghost predicate LastOf(file: seq<Line>, key: Key, i: int) {
    0 <= i < |file| && file[i].key == key && forall j :: i < j < |file| ==> file[j].key != key
  }

  /** Some row of the key drifted with too few samples, so its calibrated values are kept. */
  ghost predicate Kept(b: Benchmark, existing: map<Key, Cells>, rows: seq<Row>, key: Key) {
    exists j :: 0 <= j < |rows| && rows[j].key == Some(key) &&
      Outside(b, existing, rows[j]) && rows[j].cells.count.value < 5
  }

  lemma KeptIs(b: Benchmark, existing: map<Key, Cells>, rows: seq<Row>, key: Key)
    ensures key in Keeps(b, existing, rows) <==> Kept(b, existing, rows, key)
  {
    forall j | 0 <= j < |rows|
      ensures Judge(b, existing, rows[j]).TooFew? <==> Outside(b, existing, rows[j]) && rows[j].cells.count.value < 5
    {
      VerdictExactlyWhen(b, existing, rows[j]);
    }
  }

  /** A rewritten file has one line per measured row, with its own values unless its key is kept. */
  lemma RewrittenLines(b: Benchmark, rows: seq<Row>, file: seq<Line>, out: seq<Line>, i: nat)
    requires IsOutcome(b, rows, file, Rewritten(out)) && i < |rows|
    ensures |out| == |rows| && rows[i].key == Some(out[i].key)
    ensures Kept(b, Load(file), rows, out[i].key) ==> out[i].key in Load(file)
    ensures out[i].cells == if Kept(b, Load(file), rows, out[i].key) then Load(file)[out[i].key] else rows[i].cells
  {
    KeepsExist(b, Load(file), rows);
    assert !Breaks(Keeps(b, Load(file), rows), rows[i]);
    KeptIs(b, Load(file), rows, rows[i].key.value);
  }

  /** A row cannot be written exactly when it has no key, or lacks a column and is not kept. */
  lemma BreaksExactlyWhen(b: Benchmark, existing: map<Key, Cells>, rows: seq<Row>, row: Row)
    ensures Breaks(Keeps(b, existing, rows), row) <==>
      row.key.None? || (!row.complete && !Kept(b, existing, rows, row.key.value))
  {
    if row.key.Some? {
      KeptIs(b, existing, rows, row.key.value);
    }
  }

  /** A row whose own values put it within the band they make, or that has too few samples to matter. */
  predicate SelfStable(b: Benchmark, cells: Cells) {
    Compare(b, cells, cells).Within? || Compare(b, cells, cells).TooFew?
  }

  /** Kept keys are those of the rows that were judged to have too few samples. */
  lemma KeptExactly(b: Benchmark, existing: map<Key, Cells>, rows: seq<Row>, i: nat)
    requires DistinctKeys(rows) && i < |rows| && rows[i].key.Some?
    ensures rows[i].key.value in Keeps(b, existing, rows) <==> Judge(b, existing, rows[i]).TooFew?
  {
    if rows[i].key.value in Keeps(b, existing, rows) {
      var j :| 0 <= j < |rows| && Judge(b, existing, rows[j]).TooFew? && rows[j].key.value == rows[i].key.value;
      assert rows[j].key == rows[i].key;
    }
  }

  lemma WrittenLoads(existing: map<Key, Cells>, keep: set<Key>, rows: seq<Row>, i: nat)
    requires DistinctKeys(rows) && keep <= existing.Keys && i < |rows|
    requires forall j :: 0 <= j < |rows| ==> rows[j].key.Some?
    ensures var loaded := Load(Written(existing, keep, rows));
      rows[i].key.value in loaded && loaded[rows[i].key.value] == LineFor(existing, keep, rows[i]).cells
  {
    var out := Written(existing, keep, rows);
    forall a, c | 0 <= a < c < |out| ensures out[a].key != out[c].key {
      assert rows[a].key != rows[c].key;
    }
    LoadLine(out, i);
  }

  lemma JudgedAgain(b: Benchmark, existing: map<Key, Cells>, loaded: map<Key, Cells>, keep: set<Key>, row: Row)
    requires row.key.Some? && keep <= existing.Keys && row.key.value in loaded
    requires loaded[row.key.value] == LineFor(existing, keep, row).cells
    requires row.key.value in keep <==> Judge(b, existing, row).TooFew?
    ensures var first, second := Judge(b, existing, row), Judge(b, loaded, row);
      if first.TooFew? then second.TooFew?
      else if first.Experimental? then second.Experimental?
      else second == Compare(b, row.cells, row.cells)
  {
  }

  /** After a rewrite, each row is judged against itself, or, if it was kept, as before. */
  lemma SecondVerdict(b: Benchmark, rows: seq<Row>, file: seq<Line>, out: seq<Line>, i: nat)
    requires DistinctKeys(rows) && IsOutcome(b, rows, file, Rewritten(out)) && i < |rows|
    ensures var first, second := Judge(b, Load(file), rows[i]), Judge(b, Load(out), rows[i]);
      if first.TooFew? then second.TooFew?
      else if first.Experimental? then second.Experimental?
      else second == Compare(b, rows[i].cells, rows[i].cells)
  {
    var existing := Load(file);
    var keep := Keeps(b, existing, rows);
    forall j | 0 <= j < |rows| ensures rows[j].key.Some? {
      assert !Breaks(keep, rows[j]);
    }
    KeepsExist(b, existing, rows);
    WrittenLoads(existing, keep, rows, i);
    KeptExactly(b, existing, rows, i);
    JudgedAgain(b, existing, Load(out), keep, rows[i]);
  }

  /** A row that does not block, was kept for lack of samples, or is within its own band. */
  predicate Settles(b: Benchmark, existing: map<Key, Cells>, row: Row) {
    !row.blocking || Judge(b, existing, row).TooFew? || SelfStable(b, row.cells)
  }

  lemma SecondQuiet(b: Benchmark, rows: seq<Row>, file: seq<Line>, out: seq<Line>, i: nat)
    requires DistinctKeys(rows) && IsOutcome(b, rows, file, Rewritten(out)) && i < |rows|
    ensures Quiet(Judge(b, Load(out), rows[i])) <==> Settles(b, Load(file), rows[i])
  {
    SecondVerdict(b, rows, file, out, i);
    assert !Breaks(Keeps(b, Load(file), rows), rows[i]);
    QuietWhenSettled(b, Load(file), rows[i], Judge(b, Load(out), rows[i]));
  }

  lemma QuietWhenSettled(b: Benchmark, existing: map<Key, Cells>, row: Row, second: Verdict)
    requires row.key.Some?
    requires var first := Judge(b, existing, row);
      if first.TooFew? then second.TooFew?
      else if first.Experimental? then second.Experimental?
      else second == Compare(b, row.cells, row.cells)
    ensures Quiet(second) <==> Settles(b, existing, row)
  {
  }

  /**
   Running again on the same measurements leaves the rewritten file alone if and only
   if every row settles.
   */
  lemma SecondRunUnchanged(b: Benchmark, rows: seq<Row>, file: seq<Line>, out: seq<Line>)
    requires DistinctKeys(rows) && IsOutcome(b, rows, file, Rewritten(out))
    ensures IsOutcome(b, rows, out, Unchanged) <==> forall i :: 0 <= i < |rows| ==> Settles(b, Load(file), rows[i])
  {
    forall i | 0 <= i < |rows| ensures Quiet(Judge(b, Load(out), rows[i])) <==> Settles(b, Load(file), rows[i]) {
      SecondQuiet(b, rows, file, out, i);
    }
  }

  /** With positive median and count a row is in its own band exactly when its ratios straddle 1, with a slack. */
  lemma OwnTpsBand(cells: Cells)
    requires cells.Parse() && cells.count.value > 0 && cells.median.value > 0.0
    ensures var slack := 1.0 / (cells.count.value as real + 10.0);
      InBand(Tps, cells, cells.median.value) <==>
      cells.minRatio.value <= 1.0 + slack && cells.maxRatio.value >= 1.0 - slack
  {
    var c, m, lo, hi := cells.count.value as real, cells.median.value, cells.minRatio.value, cells.maxRatio.value;
    TpsBandExactlyWhen(cells, m);
    BelowOne(c, m, 1.0 - lo);
    BelowOne(c, m, hi - 1.0);
  }

  lemma BelowOne(c: real, m: real, d: real)
    requires c > 0.0 && m > 0.0
    ensures 0.0 <= m * (d * (c + 10.0) + 1.0) <==> d >= -(1.0 / (c + 10.0))
  {
    var e := d * (c + 10.0) + 1.0;
    assert e >= 0.0 <==> d >= -(1.0 / (c + 10.0));
    assert m * e >= 0.0 <==> e >= 0.0;
  }

  /** A non-negative wall time is always within its own band. */
  lemma OwnWallTimeBand(cells: Cells)
    requires cells.Parse() && cells.median.value >= 0.0
    ensures InBand(WallTime, cells, cells.median.value)
  {
  }

  /** Measurements as they come, with ratios of the minimum and maximum to the median, settle after one run. */
  lemma OrdinaryRowsSettle(b: Benchmark, rows: seq<Row>, file: seq<Line>, out: seq<Line>)
    requires DistinctKeys(rows) && IsOutcome(b, rows, file, Rewritten(out))
    requires forall i :: 0 <= i < |rows| ==>
      var c := rows[i].cells;
      c.Parse() && c.count.value > 0 && c.median.value >= 0.0 && c.minRatio.value <= 1.0 <= c.maxRatio.value
    ensures IsOutcome(b, rows, out, Unchanged)
  {
    forall i | 0 <= i < |rows| ensures SelfStable(b, rows[i].cells) {
      if rows[i].cells.median.value > 0.0 {
        OwnTpsBand(rows[i].cells);
      }
      OwnWallTimeBand(rows[i].cells);
    }
    SecondRunUnchanged(b, rows, file, out);
  }

  // ---- When writing fails ----

  ghost predicate SomeDivides(b: Benchmark, rows: seq<Row>, existing: map<Key, Cells>) {
    exists i :: 0 <= i < |rows| && Judge(b, existing, rows[i]).DividesByZero?
  }

  ghost predicate SomeForces(b: Benchmark, rows: seq<Row>, existing: map<Key, Cells>) {
    exists i :: 0 <= i < |rows| && Judge(b, existing, rows[i]).Forces()
  }

  ghost predicate SomeBreaks(keep: set<Key>, rows: seq<Row>) {
    exists i :: 0 <= i < |rows| && Breaks(keep, rows[i])
  }

  /** Which of the four outcomes a run has, and where writing stops, for every measurement and every file. */
  lemma OutcomeExactlyWhen(b: Benchmark, rows: seq<Row>, file: seq<Line>, o: Outcome)
    requires IsOutcome(b, rows, file, o)
    ensures var existing := Load(file);
      var divides, forces, breaks :=
        SomeDivides(b, rows, existing), SomeForces(b, rows, existing), SomeBreaks(Keeps(b, existing, rows), rows);
      && (o.CrashedEarly? <==> divides)
      && (o.Unchanged? <==> !divides && !forces)
      && (o.Rewritten? <==> !divides && forces && !breaks)
      && (o.CrashedWriting? <==> !divides && forces && breaks)
    ensures o.CrashedWriting? ==>
      var keep := Keeps(b, Load(file), rows);
      && |o.partial| < |rows| && Breaks(keep, rows[|o.partial|])
      && forall i :: 0 <= i < |o.partial| ==> !Breaks(keep, rows[i])
  {
    var existing := Load(file);
    if o.Unchanged? {
      forall i | 0 <= i < |rows|
        ensures !Judge(b, existing, rows[i]).DividesByZero? && !Judge(b, existing, rows[i]).Forces()
      {
        assert Quiet(Judge(b, existing, rows[i]));
      }
    }
  }

  /** A row without one of its key columns both forces the rewrite and makes it fail, losing every later line. */
  lemma MissingKeyTruncates(b: Benchmark, rows: seq<Row>, file: seq<Line>, o: Outcome, i: nat)
    requires IsOutcome(b, rows, file, o) && i < |rows| && rows[i].key.None? && !o.CrashedEarly?
    ensures o.CrashedWriting? && |o.partial| <= i
  {
    assert Judge(b, Load(file), rows[i]).Forces();
    assert Breaks(Keeps(b, Load(file), rows), rows[i]);
    OutcomeExactlyWhen(b, rows, file, o);
  }

  /** So does a blocking row of a new test that lacks another column, with every key column present. */
  lemma NewTestTruncates(b: Benchmark, rows: seq<Row>, file: seq<Line>, o: Outcome, i: nat)
    requires IsOutcome(b, rows, file, o) && i < |rows| && !o.CrashedEarly?
    requires rows[i].key.Some? && rows[i].blocking && !rows[i].complete && rows[i].key.value !in Load(file)
    ensures o.CrashedWriting? && |o.partial| <= i
  {
    KeepsExist(b, Load(file), rows);
    assert Judge(b, Load(file), rows[i]).Forces();
    assert Breaks(Keeps(b, Load(file), rows), rows[i]);
    OutcomeExactlyWhen(b, rows, file, o);
  }

  /** The smallest such inputs: one measured row and no file to begin with. */
  lemma OneRowTruncates(b: Benchmark, o: Outcome, cells: Cells)
    ensures IsOutcome(b, [Row(None, true, false, cells)], [], o) ==> o == CrashedWriting([])
    ensures IsOutcome(b, [Row(Some(["a"]), true, false, cells)], [], o) ==> o == CrashedWriting([])
  {
    var keyless, partial := [Row(None, true, false, cells)], [Row(Some(["a"]), true, false, cells)];
    if IsOutcome(b, keyless, [], o) {
      assert Judge(b, Load([]), keyless[0]).MissingKey?;
      MissingKeyTruncates(b, keyless, [], o, 0);
    }
    if IsOutcome(b, partial, [], o) {
      assert Judge(b, Load([]), partial[0]).New?;
      NewTestTruncates(b, partial, [], o, 0);
    }
  }
}
