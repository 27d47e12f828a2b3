/** The comparison report: rows of the benchmark log grouped by run label (the
    "Note"), a baseline lookup keyed by test and command, and one table per
    compared label giving the percentage change in throughput and in p50 latency. */
module Report {
  import opened Wire

  /** One row of the benchmark log, with its two numbers already parsed. */
  datatype Row = Row(note: string, testName: string, command: string, rps: real, latency: real)

  /** The baseline lookup key: (test name, command). */
  type Key = (string, string)

  function KeyOf(r: Row): Key
  {
    (r.testName, r.command)
  }

  /** A baseline entry: its throughput and its p50 latency. */
  datatype Base = Base(rps: real, latency: real)

  /** A rendered change cell: "N/A", or the percentage with its good/bad marker
      and whether it is printed with a '+'. */
  datatype Change = NA | Pct(diff: real, good: bool, plus: bool)

  /** One line of a report table. */
  datatype Line = Line(testName: string, command: string, rps: real, rpsChange: Change, latency: real, latencyChange: Change)

  /** One printed table: the target label, the baseline label and its lines. */
  datatype Table = Table(target: string, base: string, lines: seq<Line>)

  /** What a run of the report prints: the empty-log error, or its tables. */
  datatype ReportRun = EmptyLog | Tables(tables: seq<Table>)

  const ALL: string := "ALL"

  // ---------------------------------------------------------------------------
  // Run labels in first-seen order
  // ---------------------------------------------------------------------------

  function Notes(data: seq<Row>): (ns: seq<string>)
    ensures |ns| == |data|
    ensures forall i :: 0 <= i < |data| ==> ns[i] == data[i].note
  {
    seq(|data|, i requires 0 <= i < |data| => data[i].note)
  }

  /** The position where `x` first occurs in `xs`. */
  function FirstIndex(xs: seq<string>, x: string): (i: nat)
    requires x in xs
    ensures i < |xs| && xs[i] == x
    ensures forall j :: 0 <= j < i ==> xs[j] != x
  {
    if xs[0] == x then 0 else 1 + FirstIndex(xs[1..], x)
  }

  /** `dict.fromkeys` on a sequence: each element once, kept where it first appears. */
  function Dedup(xs: seq<string>): (r: seq<string>)
    ensures forall x :: x in r <==> x in xs
    ensures forall i, j :: 0 <= i < j < |r| ==> r[i] != r[j]
  {
    if xs == [] then []
    else
      var d := Dedup(xs[..|xs| - 1]);
      if xs[|xs| - 1] in d then d else d + [xs[|xs| - 1]]
  }

  /** `get_unique_notes`: the labels of the log, each once, in first-seen order. */
  function UniqueNotes(data: seq<Row>): seq<string>
  {
    Dedup(Notes(data))
  }

  /** Appending an element does not move the first occurrence of an earlier one. */
  lemma FirstIndexSnoc(xs: seq<string>, x: string, y: string)
    requires y in xs
    ensures FirstIndex(xs + [x], y) == FirstIndex(xs, y)
  {
    var i := FirstIndex(xs + [x], y);
    var j := FirstIndex(xs, y);
    assert (xs + [x])[j] == y;
  }

  /** A label seen for the first time at the end of the log comes after every label
      seen before it. */
  lemma FirstSeenSnocNew(xs: seq<string>, d: seq<string>, x: string)
    requires forall y :: y in d ==> y in xs && y != x && FirstIndex(xs, y) < |xs| - 1
    requires x in xs && FirstIndex(xs, x) == |xs| - 1
    requires forall i, j :: 0 <= i < j < |d| ==> FirstIndex(xs, d[i]) < FirstIndex(xs, d[j])
    ensures forall i, j :: 0 <= i < j < |d + [x]| ==> FirstIndex(xs, (d + [x])[i]) < FirstIndex(xs, (d + [x])[j])
  {
    var r := d + [x];
    forall i, j | 0 <= i < j < |r|
      ensures FirstIndex(xs, r[i]) < FirstIndex(xs, r[j])
    {
      assert r[i] == d[i] && d[i] in d;
      if j < |d| {
        assert r[j] == d[j];
      }
    }
  }

  /** The labels come out in the order in which each first appears in the log. */
  lemma {:induction false} DedupFirstSeenOrder(xs: seq<string>)
    ensures forall i, j :: 0 <= i < j < |Dedup(xs)| ==> FirstIndex(xs, Dedup(xs)[i]) < FirstIndex(xs, Dedup(xs)[j])
  {
    if xs != [] {
      var init, x := xs[..|xs| - 1], xs[|xs| - 1];
      assert xs == init + [x];
      DedupFirstSeenOrder(init);
      var d := Dedup(init);
      forall y | y in d
        ensures FirstIndex(xs, y) == FirstIndex(init, y)
      {
        FirstIndexSnoc(init, x, y);
      }
      if x !in d {
        FirstSeenSnocNew(xs, d, x);
      } else {
        forall i, j | 0 <= i < j < |d|
          ensures FirstIndex(xs, d[i]) < FirstIndex(xs, d[j])
        {
          assert d[i] in d && d[j] in d;
        }
      }
    }
  }

  /** A log labelled A, B, A, C, B yields the labels A, B, C. */
  lemma UniqueNotesExample()
    ensures Dedup(["A", "B", "A", "C", "B"]) == ["A", "B", "C"]
  {
    assert ["A", "B", "A", "C", "B"][..4] == ["A", "B", "A", "C"];
    assert ["A", "B", "A", "C"][..3] == ["A", "B", "A"];
    assert ["A", "B", "A"][..2] == ["A", "B"];
    assert ["A", "B"][..1] == ["A"];
    assert ["A"][..0] == [];
  }

  // ---------------------------------------------------------------------------
  // Percentage change
  // ---------------------------------------------------------------------------

  /** `format_change`: "N/A" against a zero baseline, otherwise the change in percent
      of the baseline; for latency a change is good when it does not increase, for
      throughput when it does not decrease; a '+' is printed only for a positive change. */
  function FormatChange(current: real, baseline: real, isLatency: bool): (c: Change)
    ensures c.NA? <==> baseline == 0.0
  {
    if baseline == 0.0 then NA
    else
      var diff := ((current - baseline) / baseline) * 100.0;
      Pct(diff, if isLatency then diff <= 0.0 else diff >= 0.0, diff > 0.0)
  }

  /** The sign of a change (a - b)/b is the sign of a - b when b is positive, and the
      opposite sign when b is negative. */
  lemma QuotientSign(current: real, baseline: real)
    requires baseline != 0.0
    ensures baseline > 0.0 ==> (((current - baseline) / baseline) * 100.0 > 0.0 <==> current > baseline)
    ensures baseline > 0.0 ==> (((current - baseline) / baseline) * 100.0 < 0.0 <==> current < baseline)
    ensures baseline < 0.0 ==> (((current - baseline) / baseline) * 100.0 > 0.0 <==> current < baseline)
    ensures baseline < 0.0 ==> (((current - baseline) / baseline) * 100.0 < 0.0 <==> current > baseline)
  {
    var q := (current - baseline) / baseline;
    assert q * baseline == current - baseline;
    if baseline > 0.0 {
      assert q > 0.0 ==> q * baseline > 0.0;
      assert q < 0.0 ==> q * baseline < 0.0;
    } else {
      assert q > 0.0 ==> q * baseline < 0.0;
      assert q < 0.0 ==> q * baseline > 0.0;
    }
  }

  /** Against a positive baseline: lower or equal latency and higher or equal throughput
      are good, and the '+' marks exactly a value above the baseline. */
  lemma ChangeDirection(current: real, baseline: real)
    requires baseline > 0.0
    ensures FormatChange(current, baseline, true).good <==> current <= baseline
    ensures FormatChange(current, baseline, false).good <==> current >= baseline
    ensures FormatChange(current, baseline, true).plus <==> current > baseline
    ensures FormatChange(current, baseline, false).plus <==> current > baseline
  {
    QuotientSign(current, baseline);
  }

  /** An unchanged value is a good change of zero percent, printed without '+'. */
  lemma UnchangedIsGood(value: real, isLatency: bool)
    requires value != 0.0
    ensures FormatChange(value, value, isLatency) == Pct(0.0, true, false)
  {
  }

  // ---------------------------------------------------------------------------
  // The baseline lookup
  // ---------------------------------------------------------------------------

  /** The baseline lookup built from the rows labelled `baseNote`, in log order, a later
      row with the same key replacing an earlier one. */
  function BaselineOf(data: seq<Row>, baseNote: string): map<Key, Base>
  {
    if data == [] then map[]
    else
      var m := BaselineOf(data[..|data| - 1], baseNote);
      var r := data[|data| - 1];
      if r.note == baseNote then m[KeyOf(r) := Base(r.rps, r.latency)] else m
  }

  predicate Matches(r: Row, baseNote: string, k: Key)
  {
    r.note == baseNote && KeyOf(r) == k
  }

  /** Row `i` is the last baseline row with its key. */
  predicate LastMatch(data: seq<Row>, baseNote: string, i: nat)
    requires i < |data|
  {
    && data[i].note == baseNote
    && forall j :: i < j < |data| ==> !Matches(data[j], baseNote, KeyOf(data[i]))
  }

  /** The lookup has a key exactly when some baseline row has it. */
  lemma {:induction false} BaselineKeys(data: seq<Row>, baseNote: string)
    ensures forall k :: k in BaselineOf(data, baseNote) <==> exists i :: 0 <= i < |data| && Matches(data[i], baseNote, k)
  {
    if data != [] {
      var n := |data| - 1;
      var init := data[..n];
      BaselineKeys(init, baseNote);
      forall k
        ensures k in BaselineOf(data, baseNote) <==> exists i :: 0 <= i < |data| && Matches(data[i], baseNote, k)
      {
        if k in BaselineOf(data, baseNote) && !Matches(data[n], baseNote, k) {
          assert data == init + [data[n]];
          assert k in BaselineOf(init, baseNote);
          var i :| 0 <= i < |init| && Matches(init[i], baseNote, k);
          assert data[i] == init[i];
        }
        if exists i :: 0 <= i < |data| && Matches(data[i], baseNote, k) {
          var i :| 0 <= i < |data| && Matches(data[i], baseNote, k);
          if i < n {
            assert init[i] == data[i];
          }
        }
      }
    }
  }

  /** The lookup holds the numbers of the last baseline row with each key: last write wins. */
  lemma {:induction false} BaselineLastWriteWins(data: seq<Row>, baseNote: string)
    ensures forall i :: 0 <= i < |data| && LastMatch(data, baseNote, i) ==>
      && KeyOf(data[i]) in BaselineOf(data, baseNote)
      && BaselineOf(data, baseNote)[KeyOf(data[i])] == Base(data[i].rps, data[i].latency)
  {
    if data != [] {
      var n := |data| - 1;
      var init := data[..n];
      BaselineLastWriteWins(init, baseNote);
      forall i | 0 <= i < n && LastMatch(data, baseNote, i)
        ensures LastMatch(init, baseNote, i)
      {
        assert init[i] == data[i];
        forall j | i < j < |init|
          ensures !Matches(init[j], baseNote, KeyOf(init[i]))
        {
          assert init[j] == data[j];
        }
      }
    }
  }

  /** The first loop of `generate_table`: builds the baseline lookup row by row. */
  method BuildBaseline(data: seq<Row>, baseNote: string) returns (baseline: map<Key, Base>)
    ensures baseline == BaselineOf(data, baseNote)
  {
    baseline := map[];
    var i := 0;
    while i < |data|
      invariant i <= |data|
      invariant baseline == BaselineOf(data[..i], baseNote)
    {
      assert data[..i + 1][..i] == data[..i];
      var row := data[i];
      if row.note == baseNote {
        baseline := baseline[KeyOf(row) := Base(row.rps, row.latency)];
      }
      i := i + 1;
    }
    assert data[..|data|] == data;
  }

  // ---------------------------------------------------------------------------
  // One comparison table
  // ---------------------------------------------------------------------------

  /** The rows of a label, in log order. */
  function TargetRows(data: seq<Row>, targetNote: string): (ts: seq<Row>)
    ensures forall r :: r in ts <==> r in data && r.note == targetNote
    ensures |ts| <= |data|
  {
    if data == [] then []
    else
      var init := TargetRows(data[..|data| - 1], targetNote);
      var r := data[|data| - 1];
      assert data == data[..|data| - 1] + [r];
      if r.note == targetNote then init + [r] else init
  }

  /** The line printed for a target row compared with its baseline entry. */
  function LineOf(row: Row, base: Base): Line
  {
    Line(row.testName, row.command,
         row.rps, FormatChange(row.rps, base.rps, false),
         row.latency, FormatChange(row.latency, base.latency, true))
  }

  /** The lines for `targets`: one per target row whose key the baseline has, in order. */
  function Joined(targets: seq<Row>, baseline: map<Key, Base>): seq<Line>
  {
    if targets == [] then []
    else
      var init := Joined(targets[..|targets| - 1], baseline);
      var t := targets[|targets| - 1];
      if KeyOf(t) in baseline then init + [LineOf(t, baseline[KeyOf(t)])] else init
  }

  /** No target row is dropped when every key has a baseline, each line then compares
      its own row; and no line is printed when no key has one. */
  lemma {:induction false} JoinedLines(targets: seq<Row>, baseline: map<Key, Base>)
    ensures |Joined(targets, baseline)| <= |targets|
    ensures (forall i :: 0 <= i < |targets| ==> KeyOf(targets[i]) in baseline) ==>
      && |Joined(targets, baseline)| == |targets|
      && forall i :: 0 <= i < |targets| ==> Joined(targets, baseline)[i] == LineOf(targets[i], baseline[KeyOf(targets[i])])
    ensures (forall i :: 0 <= i < |targets| ==> KeyOf(targets[i]) !in baseline) ==> Joined(targets, baseline) == []
  {
    if targets != [] {
      var n := |targets| - 1;
      var init := targets[..n];
      JoinedLines(init, baseline);
      if forall i :: 0 <= i < |targets| ==> KeyOf(targets[i]) in baseline {
        assert forall i :: 0 <= i < |init| ==> init[i] == targets[i];
      }
      if forall i :: 0 <= i < |targets| ==> KeyOf(targets[i]) !in baseline {
        assert forall i :: 0 <= i < |init| ==> init[i] == targets[i];
      }
    }
  }

  /** Every line printed compares a target row with the baseline entry of its key. */
  lemma {:induction false} JoinedFromTargets(targets: seq<Row>, baseline: map<Key, Base>)
    ensures forall l :: l in Joined(targets, baseline) ==>
      exists t :: t in targets && KeyOf(t) in baseline && l == LineOf(t, baseline[KeyOf(t)])
  {
    if targets != [] {
      var n := |targets| - 1;
      var init := targets[..n];
      JoinedFromTargets(init, baseline);
      forall l | l in Joined(targets, baseline)
        ensures exists t :: t in targets && KeyOf(t) in baseline && l == LineOf(t, baseline[KeyOf(t)])
      {
        if l in Joined(init, baseline) {
          var t :| t in init && KeyOf(t) in baseline && l == LineOf(t, baseline[KeyOf(t)]);
          assert t in targets;
        } else {
          assert targets[n] in targets;
        }
      }
    }
  }

  /** The join of two blocks of target rows is the join of the first followed by the
      join of the second: lines come out in target order. */
  lemma {:induction false} JoinedAppend(a: seq<Row>, b: seq<Row>, baseline: map<Key, Base>)
    ensures Joined(a + b, baseline) == Joined(a, baseline) + Joined(b, baseline)
    decreases |b|
  {
    if b == [] {
      assert a + b == a;
    } else {
      var n := |b| - 1;
      assert (a + b)[..|a + b| - 1] == a + b[..n];
      assert (a + b)[|a + b| - 1] == b[n];
      JoinedAppend(a, b[..n], baseline);
    }
  }

  /** A single target row gives its comparison line when the baseline has its key, and
      no line otherwise. */
  lemma JoinedOne(t: Row, baseline: map<Key, Base>)
    ensures KeyOf(t) in baseline ==> Joined([t], baseline) == [LineOf(t, baseline[KeyOf(t)])]
    ensures KeyOf(t) !in baseline ==> Joined([t], baseline) == []
  {
    assert [t][..0] == [];
  }

  /** The target rows of two blocks of the log are those of the first followed by those
      of the second: the comprehension keeps log order and every matching row. */
  lemma {:induction false} TargetRowsAppend(a: seq<Row>, b: seq<Row>, t: string)
    ensures TargetRows(a + b, t) == TargetRows(a, t) + TargetRows(b, t)
    decreases |b|
  {
    if b == [] {
      assert a + b == a;
    } else {
      var n := |b| - 1;
      assert (a + b)[..|a + b| - 1] == a + b[..n];
      assert (a + b)[|a + b| - 1] == b[n];
      TargetRowsAppend(a, b[..n], t);
    }
  }

  /** A single row is kept exactly when it carries the label. */
  lemma TargetRowsOne(r: Row, t: string)
    ensures r.note == t ==> TargetRows([r], t) == [r]
    ensures r.note != t ==> TargetRows([r], t) == []
  {
    assert [r][..0] == [];
  }

  /** A label has no rows exactly when no row of the log carries it. */
  lemma NoTargetRows(data: seq<Row>, t: string)
    ensures TargetRows(data, t) == [] <==> forall i :: 0 <= i < |data| ==> data[i].note != t
  {
    if TargetRows(data, t) == [] {
      forall i | 0 <= i < |data|
        ensures data[i].note != t
      {
        assert data[i] in data;
      }
    } else {
      assert TargetRows(data, t)[0] in TargetRows(data, t);
    }
  }

  lemma JoinedStep(targets: seq<Row>, i: nat, baseline: map<Key, Base>)
    requires i < |targets|
    ensures KeyOf(targets[i]) in baseline ==>
      Joined(targets[..i + 1], baseline) == Joined(targets[..i], baseline) + [LineOf(targets[i], baseline[KeyOf(targets[i])])]
    ensures KeyOf(targets[i]) !in baseline ==> Joined(targets[..i + 1], baseline) == Joined(targets[..i], baseline)
  {
    assert targets[..i + 1][..i] == targets[..i];
  }

  /** `generate_table`: nothing at all when the target label has no rows; otherwise the
      table whose lines are the target rows that have a baseline entry. */
  method GenerateTable(data: seq<Row>, baseNote: string, targetNote: string) returns (table: Option<seq<Line>>)
    ensures table.None? <==> forall i :: 0 <= i < |data| ==> data[i].note != targetNote
    ensures table.None? <==> TargetRows(data, targetNote) == []
    ensures table.Some? ==> table.value == Joined(TargetRows(data, targetNote), BaselineOf(data, baseNote))
  {
    var baseline := BuildBaseline(data, baseNote);
    var targets := TargetRows(data, targetNote);
    NoTargetRows(data, targetNote);
    if targets == [] {
      return None;
    }
    var lines := [];
    var i := 0;
    while i < |targets|
      invariant i <= |targets|
      invariant lines == Joined(targets[..i], baseline)
    {
      JoinedStep(targets, i, baseline);
      var row := targets[i];
      if KeyOf(row) in baseline {
        lines := lines + [LineOf(row, baseline[KeyOf(row)])];
      }
      i := i + 1;
    }
    assert targets[..|targets|] == targets;
    table := Some(lines);
  }

  /** A target 50% faster with 20% lower latency than its baseline: both changes are good,
      printed as "+50.00%" and "-20.00%". */
  lemma ComparisonExample()
    ensures LineOf(Row("run-b", "get", "GET", 150.0, 8.0), Base(100.0, 10.0))
         == Line("get", "GET", 150.0, Pct(50.0, true, true), 8.0, Pct(-20.0, true, false))
    ensures LineOf(Row("run-b", "get", "GET", 150.0, 8.0), Base(0.0, 10.0)).rpsChange == NA
  {
  }

  // ---------------------------------------------------------------------------
  // The report
  // ---------------------------------------------------------------------------

  /** The labels other than `base`, in the order given. */
  function Others(notes: seq<string>, base: string): (os: seq<string>)
    ensures forall n :: n in os <==> n in notes && n != base
  {
    if notes == [] then []
    else
      var init := Others(notes[..|notes| - 1], base);
      var n := notes[|notes| - 1];
      assert notes == notes[..|notes| - 1] + [n];
      if n != base then init + [n] else init
  }

  /** The labels of two blocks, without the baseline, are those of the first followed
      by those of the second: the loop keeps the order of `notes`. */
  lemma {:induction false} OthersAppend(a: seq<string>, b: seq<string>, base: string)
    ensures Others(a + b, base) == Others(a, base) + Others(b, base)
    decreases |b|
  {
    if b == [] {
      assert a + b == a;
    } else {
      var n := |b| - 1;
      assert (a + b)[..|a + b| - 1] == a + b[..n];
      assert (a + b)[|a + b| - 1] == b[n];
      OthersAppend(a, b[..n], base);
    }
  }

  /** A single label is kept exactly when it is not the baseline. */
  lemma OthersOne(n: string, base: string)
    ensures n != base ==> Others([n], base) == [n]
    ensures n == base ==> Others([n], base) == []
  {
    assert [n][..0] == [];
  }

  /** The table compared against `base` for each of `targets` that has rows. */
  function TablesFor(data: seq<Row>, base: string, targets: seq<string>): seq<Table>
  {
    if targets == [] then []
    else
      var init := TablesFor(data, base, targets[..|targets| - 1]);
      var t := targets[|targets| - 1];
      var rows := TargetRows(data, t);
      if rows == [] then init
      else init + [Table(t, base, Joined(rows, BaselineOf(data, base)))]
  }

  lemma OthersStep(notes: seq<string>, i: nat, base: string)
    requires i < |notes|
    ensures notes[i] != base ==> Others(notes[..i + 1], base) == Others(notes[..i], base) + [notes[i]]
    ensures notes[i] == base ==> Others(notes[..i + 1], base) == Others(notes[..i], base)
  {
    assert notes[..i + 1][..i] == notes[..i];
  }

  lemma TablesStep(data: seq<Row>, base: string, done: seq<string>, t: string)
    ensures TargetRows(data, t) == [] ==> TablesFor(data, base, done + [t]) == TablesFor(data, base, done)
    ensures TargetRows(data, t) != [] ==>
      TablesFor(data, base, done + [t])
        == TablesFor(data, base, done) + [Table(t, base, Joined(TargetRows(data, t), BaselineOf(data, base)))]
  {
    assert (done + [t])[..|done|] == done;
  }

  /** The "ALL" loop: a table for each of `notes` other than the baseline that has rows,
      in the order of `notes`. */
  method CompareAll(data: seq<Row>, baseNote: string, notes: seq<string>) returns (tables: seq<Table>)
    ensures tables == TablesFor(data, baseNote, Others(notes, baseNote))
  {
    tables := [];
    var i := 0;
    while i < |notes|
      invariant i <= |notes|
      invariant tables == TablesFor(data, baseNote, Others(notes[..i], baseNote))
    {
      OthersStep(notes, i, baseNote);
      var note := notes[i];
      if note != baseNote {
        TablesStep(data, baseNote, Others(notes[..i], baseNote), note);
        var table := GenerateTable(data, baseNote, note);
        if table.Some? {
          tables := tables + [Table(note, baseNote, table.value)];
        }
      }
      i := i + 1;
    }
    assert notes[..|notes|] == notes;
  }

  /** `main` after the two labels are chosen: the empty-log error; with target "ALL", a
      table for every other label in first-seen order; otherwise the one table. */
  method RunReport(data: seq<Row>, baseNote: string, targetNote: string) returns (out: ReportRun)
    ensures out.EmptyLog? <==> data == []
    ensures out.Tables? && targetNote == ALL ==>
      out.tables == TablesFor(data, baseNote, Others(UniqueNotes(data), baseNote))
    ensures out.Tables? && targetNote != ALL ==> out.tables == TablesFor(data, baseNote, [targetNote])
  {
    var notes := UniqueNotes(data);
    if notes == [] {
      return EmptyLog;
    }
    var tables: seq<Table> := [];
    if targetNote == ALL {
      tables := CompareAll(data, baseNote, notes);
    } else {
      var table := GenerateTable(data, baseNote, targetNote);
      TablesStep(data, baseNote, [], targetNote);
      if table.Some? {
        tables := [Table(targetNote, baseNote, table.value)];
      }
    }
    out := Tables(tables);
  }

  /** Every label of the log has rows, so comparing "ALL" prints one table per label other
      than the baseline, for exactly those labels and in first-seen order. */
  lemma {:induction false} AllComparesEveryOtherLabel(data: seq<Row>, base: string, targets: seq<string>)
    requires forall t :: t in targets ==> TargetRows(data, t) != []
    ensures |TablesFor(data, base, targets)| == |targets|
    ensures forall i :: 0 <= i < |targets| ==> TablesFor(data, base, targets)[i].target == targets[i]
  {
    if targets != [] {
      var n := |targets| - 1;
      var init := targets[..n];
      var t := targets[n];
      forall u | u in init
        ensures TargetRows(data, u) != []
      {
        assert u in targets;
      }
      AllComparesEveryOtherLabel(data, base, init);
      assert t in targets;
      var before := TablesFor(data, base, init);
      assert TablesFor(data, base, targets)
          == before + [Table(t, base, Joined(TargetRows(data, t), BaselineOf(data, base)))];
      forall i | 0 <= i < n
        ensures TablesFor(data, base, targets)[i].target == targets[i]
      {
        assert before[i].target == init[i];
      }
    }
  }

  /** A label that occurs in the log has rows to compare. */
  lemma LabelHasRows(data: seq<Row>, t: string)
    requires t in UniqueNotes(data)
    ensures TargetRows(data, t) != []
  {
    var k :| 0 <= k < |data| && Notes(data)[k] == t;
    assert data[k] in TargetRows(data, t);
  }

  /** With target "ALL" the report has one table per label other than the baseline, each
      against the baseline, in the labels' first-seen order. */
  lemma ReportAllLabels(data: seq<Row>, base: string)
    ensures var others := Others(UniqueNotes(data), base);
      && |TablesFor(data, base, others)| == |others|
      && forall i :: 0 <= i < |others| ==> TablesFor(data, base, others)[i].target == others[i]
  {
    var others := Others(UniqueNotes(data), base);
    forall t | t in others
      ensures TargetRows(data, t) != []
    {
      LabelHasRows(data, t);
    }
    AllComparesEveryOtherLabel(data, base, others);
  }
}
