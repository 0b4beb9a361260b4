/** `extract_covariate`: every per-area table is de-duplicated, sorted by date and
    cut down to `date`, `areaCode` and one covariate; the pieces are concatenated
    and pivoted into one table with a row per date and a column per area. */
module Reshape {
  import opened Frames
  import opened Ordering

  /** A row after `.loc[:, ["date", "areaCode", covariate]]`. */
  datatype Record = Record(date: Date, areaCode: AreaCode, value: Option<int>)

  datatype Error =
    | NoObjectsToConcatenate       // pd.concat of an empty list raises ValueError
    | MissingColumn(name: Column)  // sort_values / .loc raise KeyError for an absent column

  datatype Result<T> = Ok(value: T) | Err(error: Error)

  /** The pivot: its row index (dates, ascending), its columns (area codes,
      ascending) and a cell for every (date, area) pair, None being NaN. */
  datatype Wide = Wide(dates: seq<Date>, areas: seq<AreaCode>, cells: map<Date, map<AreaCode, Option<real>>>)

  /** extract_covariate's default covariate. */
  const PublishDateCovariate: Column := "newCasesByPublishDate"

  ghost predicate Distinct<T>(s: seq<T>)
  {
    forall i, j :: 0 <= i < j < |s| ==> s[i] != s[j]
  }

  /** The elements of `s` not in `seen`, each at its first occurrence. */
  function Unseen(s: seq<Row>, seen: set<Row>): (r: seq<Row>)
    ensures forall x :: x in r <==> x in s && x !in seen
    ensures Distinct(r)
  {
    if s == [] then []
    else if s[0] in seen then Unseen(s[1..], seen)
    else [s[0]] + Unseen(s[1..], seen + {s[0]})
  }

  /** `drop_duplicates()`: keeps the first of every group of identical rows. */
  function DropDuplicates(s: seq<Row>): seq<Row>
  {
    Unseen(s, {})
  }

  /** A duplicate-free sequence has as many elements as distinct values. */
  lemma {:induction false} DistinctCardinality<T>(s: seq<T>)
    requires Distinct(s)
    ensures |set x | x in s| == |s|
  {
    if s != [] {
      DistinctCardinality(s[1..]);
      assert (set x | x in s) == {s[0]} + (set x | x in s[1..]);
      assert s[0] !in (set x | x in s[1..]);
    }
  }

  /** After drop_duplicates exactly the distinct rows remain, each once. */
  lemma DropDuplicatesExact(s: seq<Row>)
    ensures forall x :: x in DropDuplicates(s) <==> x in s
    ensures |DropDuplicates(s)| == |set x | x in s|
  {
    var r := DropDuplicates(s);
    DistinctCardinality(r);
    assert (set x | x in r) == (set x | x in s);
  }

  ghost predicate DateSorted(s: seq<Row>)
  {
    forall i, j :: 0 <= i < j < |s| ==> !Less(s[j].date, s[i].date)
  }

  /** Puts `x` before the first row whose date is not earlier than its own. */
  function InsertByDate(x: Row, s: seq<Row>): (r: seq<Row>)
    ensures multiset(r) == multiset(s) + multiset{x}
  {
    if s == [] || !Less(s[0].date, x.date) then [x] + s
    else
      assert s == [s[0]] + s[1..];
      [s[0]] + InsertByDate(x, s[1..])
  }

  /** `sort_values(by="date")`, as an insertion sort. */
  function SortByDate(s: seq<Row>): (r: seq<Row>)
    ensures multiset(r) == multiset(s)
  {
    if s == [] then []
    else
      assert s == [s[0]] + s[1..];
      InsertByDate(s[0], SortByDate(s[1..]))
  }

  lemma {:induction false} InsertByDateSorted(x: Row, s: seq<Row>)
    requires DateSorted(s)
    ensures DateSorted(InsertByDate(x, s))
    decreases |s|
  {
    if s == [] || !Less(s[0].date, x.date) {
      forall j | 0 <= j < |s|
        ensures !Less(s[j].date, x.date)
      {
        if j > 0 {
          NotLessTransitive(x.date, s[0].date, s[j].date);
        }
      }
    } else {
      InsertByDateSorted(x, s[1..]);
      var t := InsertByDate(x, s[1..]);
      LessAsymmetric(s[0].date, x.date);
      forall y | y in t
        ensures !Less(y.date, s[0].date)
      {
        assert y in multiset(s[1..]) + multiset{x};
        if y != x {
          var k :| 0 <= k < |s[1..]| && s[1..][k] == y;
          assert s[k + 1] == y;
        }
      }
    }
  }

  lemma {:induction false} SortByDateSorted(s: seq<Row>)
    ensures DateSorted(SortByDate(s))
  {
    if s != [] {
      SortByDateSorted(s[1..]);
      InsertByDateSorted(s[0], SortByDate(s[1..]));
    }
  }

  function ToRecord(row: Row, covariate: Column): Record
    requires covariate in row.measures
  {
    Record(row.date, row.areaCode, row.measures[covariate])
  }

  /** `.loc[:, ["date", "areaCode", covariate]]` */
  function Project(rows: seq<Row>, covariate: Column): seq<Record>
    requires forall row :: row in rows ==> covariate in row.measures
  {
    seq(|rows|, i requires 0 <= i < |rows| => ToRecord(rows[i], covariate))
  }

  /** One element of the list comprehension: drop_duplicates, sort by date,
      project. A frame without columns has no `date` to sort by. */
  function Normalize(f: Frame, covariate: Column): Result<seq<Record>>
  {
    match f
    case NoColumns => Err(MissingColumn("date"))
    case Table(measures, rows) =>
      if covariate !in measures then Err(MissingColumn(covariate))
      else
        var unique := DropDuplicates(rows);
        var sorted := SortByDate(unique);
        assert forall row :: row in sorted ==> row in multiset(unique);
        Ok(Project(sorted, covariate))
  }

  /** The comprehension evaluated left to right and concatenated; the first
      frame that raises decides the error. */
  function Concatenated(frames: seq<Frame>, covariate: Column): Result<seq<Record>>
  {
    if frames == [] then Ok([])
    else
      match Normalize(frames[0], covariate)
      case Err(e) => Err(e)
      case Ok(head) =>
        match Concatenated(frames[1..], covariate)
        case Err(e) => Err(e)
        case Ok(tail) => Ok(head + tail)
  }

  /** Sum and number of the non-missing values recorded for (d, a): the
      inputs of the `mean` that pivot_table aggregates with. */
  function Tally(recs: seq<Record>, d: Date, a: AreaCode): (int, nat)
  {
    if recs == [] then (0, 0)
    else
      var t := Tally(recs[1..], d, a);
      var r := recs[0];
      if r.date == d && r.areaCode == a && r.value.Some? then (r.value.value + t.0, t.1 + 1) else t
  }

  /** The mean of the values recorded for (d, a), NaN (None) when there are none. */
  function Mean(recs: seq<Record>, d: Date, a: AreaCode): Option<real>
  {
    var t := Tally(recs, d, a);
    if t.1 == 0 then None else Some(t.0 as real / t.1 as real)
  }

  function DatesOf(recs: seq<Record>): seq<Date>
  {
    seq(|recs|, i requires 0 <= i < |recs| => recs[i].date)
  }

  function AreasOf(recs: seq<Record>): seq<AreaCode>
  {
    seq(|recs|, i requires 0 <= i < |recs| => recs[i].areaCode)
  }

  /** `pivot_table(index="date", columns="areaCode", values=covariate, dropna=False)`:
      no row and no column is dropped for being all NaN. */
  function Pivot(recs: seq<Record>): (w: Wide)
    ensures StrictlyAscending(w.dates) && StrictlyAscending(w.areas)
    ensures forall d :: d in w.dates <==> exists r :: r in recs && r.date == d
    ensures forall a :: a in w.areas <==> exists r :: r in recs && r.areaCode == a
    ensures forall d :: d in w.cells <==> d in w.dates
    ensures forall d, a :: d in w.cells ==> (a in w.cells[d] <==> a in w.areas)
    ensures forall d, a :: d in w.cells && a in w.cells[d] ==> w.cells[d][a] == Mean(recs, d, a)
  {
    var dates := SortedUnique(DatesOf(recs));
    var areas := SortedUnique(AreasOf(recs));
    assert forall d :: d in DatesOf(recs) <==> exists r :: r in recs && r.date == d by {
      forall d | d in DatesOf(recs) ensures exists r :: r in recs && r.date == d {
        var i :| 0 <= i < |recs| && DatesOf(recs)[i] == d;
        assert recs[i] in recs;
      }
      forall d | exists r :: r in recs && r.date == d ensures d in DatesOf(recs) {
        var r :| r in recs && r.date == d;
        var i :| 0 <= i < |recs| && recs[i] == r;
        assert DatesOf(recs)[i] == d;
      }
    }
    assert forall a :: a in AreasOf(recs) <==> exists r :: r in recs && r.areaCode == a by {
      forall a | a in AreasOf(recs) ensures exists r :: r in recs && r.areaCode == a {
        var i :| 0 <= i < |recs| && AreasOf(recs)[i] == a;
        assert recs[i] in recs;
      }
      forall a | exists r :: r in recs && r.areaCode == a ensures a in AreasOf(recs) {
        var r :| r in recs && r.areaCode == a;
        var i :| 0 <= i < |recs| && recs[i] == r;
        assert AreasOf(recs)[i] == a;
      }
    }
    Wide(dates, areas, map d | d in dates :: map a | a in areas :: Mean(recs, d, a))
  }

  /** `extract_covariate(dataframes, covariate)`. */
  function ExtractCovariate(frames: seq<Frame>, covariate: Column := PublishDateCovariate): Result<Wide>
  {
    match Concatenated(frames, covariate)
    case Err(e) => Err(e)
    case Ok(recs) => if frames == [] then Err(NoObjectsToConcatenate) else Ok(Pivot(recs))
  }

  // ---------------------------------------------------------------------
  // What the pivot's cells mean

  lemma {:induction false} TallyCount(recs: seq<Record>, d: Date, a: AreaCode)
    ensures Tally(recs, d, a).1 > 0 <==> exists v :: Record(d, a, Some(v)) in recs
  {
    if recs != [] {
      TallyCount(recs[1..], d, a);
      assert forall v :: Record(d, a, Some(v)) in recs <==> recs[0] == Record(d, a, Some(v)) || Record(d, a, Some(v)) in recs[1..] by {
        assert recs == [recs[0]] + recs[1..];
      }
    }
  }

  lemma {:induction false} TallyUniform(recs: seq<Record>, d: Date, a: AreaCode, v: int)
    requires forall u :: Record(d, a, Some(u)) in recs ==> u == v
    ensures Tally(recs, d, a).0 == v * Tally(recs, d, a).1
  {
    if recs != [] {
      TallyUniform(recs[1..], d, a, v);
      var t := Tally(recs[1..], d, a);
      if recs[0].date == d && recs[0].areaCode == a && recs[0].value.Some? {
        assert recs[0] == Record(d, a, Some(recs[0].value.value));
        assert v * (t.1 + 1) == v * t.1 + v;
      }
    }
  }

  /** A cell is NaN exactly when no record gives a value for its date and area. */
  lemma MeanMissing(recs: seq<Record>, d: Date, a: AreaCode)
    ensures Mean(recs, d, a) == None <==> forall v :: Record(d, a, Some(v)) !in recs
  {
    TallyCount(recs, d, a);
  }

  /** When every record for (d, a) that has a value has the same value `v`,
      the cell is `v` however often it is repeated. */
  lemma MeanUniform(recs: seq<Record>, d: Date, a: AreaCode, v: int)
    requires Record(d, a, Some(v)) in recs
    requires forall u :: Record(d, a, Some(u)) in recs ==> u == v
    ensures Mean(recs, d, a) == Some(v as real)
  {
    TallyCount(recs, d, a);
    TallyUniform(recs, d, a, v);
    var t := Tally(recs, d, a);
    DivideBack(v, t.1);
  }

  lemma DivideBack(v: int, c: nat)
    requires c > 0
    ensures (v * c) as real / c as real == v as real
  {
    var x := (v * c) as real;
    assert x == v as real * c as real;
    assert x / c as real == v as real * (c as real / c as real);
  }

  // ---------------------------------------------------------------------
  // From the input tables to the concatenated records

  /** A frame that the comprehension can normalise: it has columns, among them the covariate. */
  predicate Usable(f: Frame, covariate: Column)
  {
    f.Table? && covariate in f.measures
  }

  /** A normalised frame holds one record per distinct row, and a record is
      there exactly when some row projects to it. */
  lemma NormalizeRecords(f: Frame, covariate: Column)
    requires Usable(f, covariate)
    ensures Normalize(f, covariate).Ok?
    ensures forall rec :: rec in Normalize(f, covariate).value <==>
      exists k :: 0 <= k < |f.rows| && ToRecord(f.rows[k], covariate) == rec
    ensures |Normalize(f, covariate).value| == |set row | row in f.rows|
  {
    var unique := DropDuplicates(f.rows);
    var sorted := SortByDate(unique);
    NormalizedRows(f.rows);
    assert Normalize(f, covariate).value == Project(sorted, covariate);
    ProjectSameRows(sorted, f.rows, covariate);
  }

  /** Projecting a sequence that holds the same rows as `rows` yields exactly
      the projections of `rows`. */
  lemma ProjectSameRows(sorted: seq<Row>, rows: seq<Row>, covariate: Column)
    requires forall row :: row in sorted <==> row in rows
    requires forall row :: row in rows ==> covariate in row.measures
    ensures forall rec :: rec in Project(sorted, covariate) <==>
      exists k :: 0 <= k < |rows| && ToRecord(rows[k], covariate) == rec
  {
    var recs := Project(sorted, covariate);
    forall rec
      ensures rec in recs <==> exists k :: 0 <= k < |rows| && ToRecord(rows[k], covariate) == rec
    {
      if rec in recs {
        var i :| 0 <= i < |recs| && recs[i] == rec;
        assert sorted[i] in rows;
        var k :| 0 <= k < |rows| && rows[k] == sorted[i];
        assert ToRecord(rows[k], covariate) == rec;
      }
      if exists k :: 0 <= k < |rows| && ToRecord(rows[k], covariate) == rec {
        var k :| 0 <= k < |rows| && ToRecord(rows[k], covariate) == rec;
        assert rows[k] in sorted;
        var i :| 0 <= i < |sorted| && sorted[i] == rows[k];
        assert recs[i] == rec;
      }
    }
  }

  /** De-duplicating and sorting keeps every distinct row exactly once. */
  lemma NormalizedRows(rows: seq<Row>)
    ensures forall row :: row in SortByDate(DropDuplicates(rows)) <==> row in rows
    ensures |SortByDate(DropDuplicates(rows))| == |set row | row in rows|
  {
    var unique := DropDuplicates(rows);
    var sorted := SortByDate(unique);
    DropDuplicatesExact(rows);
    assert multiset(sorted) == multiset(unique);
    assert |sorted| == |multiset(sorted)| == |multiset(unique)| == |unique|;
    assert forall row :: row in sorted <==> row in multiset(unique);
  }

  /** Some row of some input table projects to `rec`. */
  ghost predicate InInput(frames: seq<Frame>, covariate: Column, rec: Record)
  {
    exists j, k :: 0 <= j < |frames| && frames[j].Table? && 0 <= k < |frames[j].rows| &&
      covariate in frames[j].rows[k].measures && ToRecord(frames[j].rows[k], covariate) == rec
  }

  /** The concatenation succeeds exactly when every frame is usable, and then
      holds exactly the projections of the input rows. */
  lemma {:induction false} ConcatenatedRecords(frames: seq<Frame>, covariate: Column)
    ensures Concatenated(frames, covariate).Ok? <==> forall j :: 0 <= j < |frames| ==> Usable(frames[j], covariate)
    ensures Concatenated(frames, covariate).Ok? ==>
      forall rec :: rec in Concatenated(frames, covariate).value <==> InInput(frames, covariate, rec)
  {
    if frames != [] {
      var rest := frames[1..];
      ConcatenatedRecords(rest, covariate);
      assert forall j :: 1 <= j < |frames| ==> frames[j] == rest[j - 1];
      if Usable(frames[0], covariate) {
        NormalizeRecords(frames[0], covariate);
        if Concatenated(frames, covariate).Ok? {
          var head := Normalize(frames[0], covariate).value;
          var tail := Concatenated(rest, covariate).value;
          assert Concatenated(frames, covariate).value == head + tail;
          forall rec
            ensures rec in head + tail <==> InInput(frames, covariate, rec)
          {
            if rec in head {
              var k :| 0 <= k < |frames[0].rows| && ToRecord(frames[0].rows[k], covariate) == rec;
              assert frames[0].rows[k] in frames[0].rows;
            }
            if rec in tail {
              assert InInput(rest, covariate, rec);
              var j, k :| 0 <= j < |rest| && rest[j].Table? && 0 <= k < |rest[j].rows| &&
                covariate in rest[j].rows[k].measures && ToRecord(rest[j].rows[k], covariate) == rec;
              assert frames[j + 1] == rest[j];
            }
            if InInput(frames, covariate, rec) {
              var j, k :| 0 <= j < |frames| && frames[j].Table? && 0 <= k < |frames[j].rows| &&
                covariate in frames[j].rows[k].measures && ToRecord(frames[j].rows[k], covariate) == rec;
              if j > 0 {
                assert rest[j - 1] == frames[j];
                assert InInput(rest, covariate, rec);
              }
            }
          }
        }
      }
    }
  }

  /** The first unusable frame decides the error; with no frames at all,
      concatenation itself fails. */
  lemma {:induction false} ConcatenatedFirstError(frames: seq<Frame>, covariate: Column, j: nat)
    requires j < |frames| && !Usable(frames[j], covariate)
    requires forall i :: 0 <= i < j ==> Usable(frames[i], covariate)
    ensures Concatenated(frames, covariate) ==
      Err(MissingColumn(if frames[j].NoColumns? then "date" else covariate))
  {
    if j > 0 {
      ConcatenatedFirstError(frames[1..], covariate, j - 1);
      NormalizeRecords(frames[0], covariate);
    }
  }

  // ---------------------------------------------------------------------
  // What extract_covariate promises

  /** Some input row carries date `d`. */
  ghost predicate InputDate(frames: seq<Frame>, d: Date)
  {
    exists j, k :: 0 <= j < |frames| && frames[j].Table? && 0 <= k < |frames[j].rows| && frames[j].rows[k].date == d
  }

  /** Some input row carries area code `a`. */
  ghost predicate InputArea(frames: seq<Frame>, a: AreaCode)
  {
    exists j, k :: 0 <= j < |frames| && frames[j].Table? && 0 <= k < |frames[j].rows| && frames[j].rows[k].areaCode == a
  }

  /** The reshape fails exactly when there is no frame, when a frame has no
      columns or when a frame lacks the covariate. */
  lemma ExtractSucceedsIff(frames: seq<Frame>, covariate: Column)
    ensures ExtractCovariate(frames, covariate).Ok? <==>
      frames != [] && forall j :: 0 <= j < |frames| ==> Usable(frames[j], covariate)
    ensures frames == [] ==> ExtractCovariate(frames, covariate) == Err(NoObjectsToConcatenate)
  {
    ConcatenatedRecords(frames, covariate);
  }

  lemma ExtractFirstError(frames: seq<Frame>, covariate: Column, j: nat)
    requires j < |frames| && !Usable(frames[j], covariate)
    requires forall i :: 0 <= i < j ==> Usable(frames[i], covariate)
    ensures ExtractCovariate(frames, covariate) ==
      Err(MissingColumn(if frames[j].NoColumns? then "date" else covariate))
  {
    ConcatenatedFirstError(frames, covariate, j);
  }

  /** The position of the first unusable frame, when there is one. */
  lemma FirstUnusable(frames: seq<Frame>, covariate: Column) returns (j: nat)
    requires exists i :: 0 <= i < |frames| && !Usable(frames[i], covariate)
    ensures j < |frames| && !Usable(frames[j], covariate)
    ensures forall i :: 0 <= i < j ==> Usable(frames[i], covariate)
  {
    j := 0;
    while Usable(frames[j], covariate)
      invariant j < |frames|
      invariant forall i :: 0 <= i < j ==> Usable(frames[i], covariate)
      invariant exists i :: j <= i < |frames| && !Usable(frames[i], covariate)
      decreases |frames| - j
    {
      j := j + 1;
    }
  }

  /** Row and column facts for a set of records that are exactly the input's. */
  lemma InputKeys(frames: seq<Frame>, covariate: Column, recs: seq<Record>)
    requires forall j :: 0 <= j < |frames| ==> Usable(frames[j], covariate)
    requires forall rec :: rec in recs <==> InInput(frames, covariate, rec)
    ensures forall d :: (exists r :: r in recs && r.date == d) <==> InputDate(frames, d)
    ensures forall a :: (exists r :: r in recs && r.areaCode == a) <==> InputArea(frames, a)
  {
    forall d
      ensures (exists r :: r in recs && r.date == d) <==> InputDate(frames, d)
    {
      if InputDate(frames, d) {
        var j, k :| 0 <= j < |frames| && frames[j].Table? && 0 <= k < |frames[j].rows| && frames[j].rows[k].date == d;
        assert frames[j].rows[k] in frames[j].rows;
        assert InInput(frames, covariate, ToRecord(frames[j].rows[k], covariate));
      }
    }
    forall a
      ensures (exists r :: r in recs && r.areaCode == a) <==> InputArea(frames, a)
    {
      if InputArea(frames, a) {
        var j, k :| 0 <= j < |frames| && frames[j].Table? && 0 <= k < |frames[j].rows| && frames[j].rows[k].areaCode == a;
        assert frames[j].rows[k] in frames[j].rows;
        assert InInput(frames, covariate, ToRecord(frames[j].rows[k], covariate));
      }
    }
  }

  /** The row index holds every date of every input row, once, ascending; the
      columns hold every area code of every input row, once, ascending. No
      date is dropped because some area lacks it. */
  lemma ExtractIndexAndColumns(frames: seq<Frame>, covariate: Column)
    requires ExtractCovariate(frames, covariate).Ok?
    ensures var w := ExtractCovariate(frames, covariate).value;
      && StrictlyAscending(w.dates) && (forall d :: d in w.dates <==> InputDate(frames, d))
      && StrictlyAscending(w.areas) && (forall a :: a in w.areas <==> InputArea(frames, a))
  {
    ExtractSucceedsIff(frames, covariate);
    ConcatenatedRecords(frames, covariate);
    InputKeys(frames, covariate, Concatenated(frames, covariate).value);
  }

  /** Every (date, area) pair of the table has a cell; it is NaN exactly when
      no input row reports a value for that date and area, which is never the
      same as a reported 0. */
  lemma ExtractCellMissing(frames: seq<Frame>, covariate: Column, d: Date, a: AreaCode)
    requires ExtractCovariate(frames, covariate).Ok?
    requires InputDate(frames, d) && InputArea(frames, a)
    ensures var w := ExtractCovariate(frames, covariate).value;
      && d in w.cells && a in w.cells[d]
      && (w.cells[d][a] == None <==> forall v :: !InInput(frames, covariate, Record(d, a, Some(v))))
  {
    ExtractIndexAndColumns(frames, covariate);
    ExtractSucceedsIff(frames, covariate);
    ConcatenatedRecords(frames, covariate);
    MeanMissing(Concatenated(frames, covariate).value, d, a);
  }

  /** A cell holds the covariate that the input reports for its date and area,
      also when the same row arrives in several frames. */
  lemma ExtractCellValue(frames: seq<Frame>, covariate: Column, d: Date, a: AreaCode, v: int)
    requires ExtractCovariate(frames, covariate).Ok?
    requires InInput(frames, covariate, Record(d, a, Some(v)))
    requires forall u :: InInput(frames, covariate, Record(d, a, Some(u))) ==> u == v
    ensures var w := ExtractCovariate(frames, covariate).value;
      && d in w.dates && a in w.areas && d in w.cells && a in w.cells[d]
      && w.cells[d][a] == Some(v as real)
  {
    ExtractSucceedsIff(frames, covariate);
    ConcatenatedRecords(frames, covariate);
    var recs := Concatenated(frames, covariate).value;
    assert Record(d, a, Some(v)) in recs;
    MeanUniform(recs, d, a, v);
  }
}
