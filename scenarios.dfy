/** Worked cases of the reshape, stated on concrete tables. The tables are
    parameters pinned down by `requires`, so that the verifier reasons from
    the general lemmas instead of unfolding the reshape on literals. */
module Scenarios {
  import opened Frames
  import opened Ordering
  import opened Reshape

  const Cases: Column := "newCasesBySpecimenDate"

  function CaseRow(d: Date, a: AreaCode, v: int): Row
  {
    Row(d, a, map[Cases := Some(v)])
  }

  /** Appending a common prefix keeps the order of two strings. */
  lemma {:induction false} LessUnderPrefix(p: string, x: string, y: string)
    requires Less(x, y)
    ensures Less(p + x, p + y)
  {
    if p != [] {
      LessUnderPrefix(p[1..], x, y);
      assert (p + x)[0] == p[0] && (p + y)[0] == p[0];
      assert (p + x)[1..] == p[1..] + x && (p + y)[1..] == p[1..] + y;
    } else {
      assert p + x == x && p + y == y;
    }
  }

  lemma FebruaryOrdered()
    ensures Less("2021-02-01", "2021-02-02")
  {
    LessUnderPrefix("2021-02-0", "1", "2");
    assert "2021-02-0" + "1" == "2021-02-01" && "2021-02-0" + "2" == "2021-02-02";
  }

  lemma AreasOrdered()
    ensures Less("R1", "R2")
  {
    LessUnderPrefix("R", "1", "2");
    assert "R" + "1" == "R1" && "R" + "2" == "R2";
  }

  /** An ascending sequence holding exactly two strings lists them in order. */
  lemma PairUnique(s: seq<string>, a: string, b: string)
    requires StrictlyAscending(s) && Less(a, b)
    requires forall y :: y in s <==> y == a || y == b
    ensures s == [a, b]
  {
    assert StrictlyAscending([a, b]);
    AscendingUnique(s, [a, b]);
  }

  /** R1 reports 3 on 2021-02-01 and 4 on 2021-02-02; R2 reports 1 on 2021-02-02. */
  predicate TwoAreas(frames: seq<Frame>)
  {
    frames == [Table({Cases}, [CaseRow("2021-02-01", "R1", 3), CaseRow("2021-02-02", "R1", 4)]),
               Table({Cases}, [CaseRow("2021-02-02", "R2", 1)])]
  }

  /** What the two tables report, row by row. */
  lemma TwoAreasInput(frames: seq<Frame>)
    requires TwoAreas(frames)
    ensures InInput(frames, Cases, Record("2021-02-01", "R1", Some(3)))
    ensures InInput(frames, Cases, Record("2021-02-02", "R1", Some(4)))
    ensures InInput(frames, Cases, Record("2021-02-02", "R2", Some(1)))
    ensures forall rec :: InInput(frames, Cases, rec) ==> TwoAreaRecord(rec)
    ensures forall d :: InputDate(frames, d) <==> d == "2021-02-01" || d == "2021-02-02"
    ensures forall a :: InputArea(frames, a) <==> a == "R1" || a == "R2"
  {
    var r1, r2 := frames[0], frames[1];
    assert ToRecord(r1.rows[0], Cases) == Record("2021-02-01", "R1", Some(3));
    assert ToRecord(r1.rows[1], Cases) == Record("2021-02-02", "R1", Some(4));
    assert ToRecord(r2.rows[0], Cases) == Record("2021-02-02", "R2", Some(1));
    assert InputDate(frames, "2021-02-01") by { assert r1.rows[0].date == "2021-02-01"; }
    assert InputDate(frames, "2021-02-02") by { assert r2.rows[0].date == "2021-02-02"; }
    assert InputArea(frames, "R1") by { assert r1.rows[0].areaCode == "R1"; }
    assert InputArea(frames, "R2") by { assert r2.rows[0].areaCode == "R2"; }
    forall rec | InInput(frames, Cases, rec) ensures TwoAreaRecord(rec)
    {
      var j, k :| 0 <= j < |frames| && frames[j].Table? && 0 <= k < |frames[j].rows| &&
        Cases in frames[j].rows[k].measures && ToRecord(frames[j].rows[k], Cases) == rec;
      assert (j == 0 && (k == 0 || k == 1)) || (j == 1 && k == 0);
    }
    forall d | InputDate(frames, d) ensures d == "2021-02-01" || d == "2021-02-02" {
      var j, k :| 0 <= j < |frames| && frames[j].Table? && 0 <= k < |frames[j].rows| && frames[j].rows[k].date == d;
      assert (j == 0 && (k == 0 || k == 1)) || (j == 1 && k == 0);
    }
    forall a | InputArea(frames, a) ensures a == "R1" || a == "R2" {
      var j, k :| 0 <= j < |frames| && frames[j].Table? && 0 <= k < |frames[j].rows| && frames[j].rows[k].areaCode == a;
      assert (j == 0 && (k == 0 || k == 1)) || (j == 1 && k == 0);
    }
  }

  /** Both dates become rows and both areas columns, ascending. */
  lemma TwoAreaKeys(frames: seq<Frame>)
    requires TwoAreas(frames)
    ensures ExtractCovariate(frames, Cases).Ok?
    ensures ExtractCovariate(frames, Cases).value.dates == ["2021-02-01", "2021-02-02"]
    ensures ExtractCovariate(frames, Cases).value.areas == ["R1", "R2"]
  {
    ExtractSucceedsIff(frames, Cases);
    ExtractIndexAndColumns(frames, Cases);
    TwoAreasInput(frames);
    var w := ExtractCovariate(frames, Cases).value;
    FebruaryOrdered();
    AreasOrdered();
    PairUnique(w.dates, "2021-02-01", "2021-02-02");
    PairUnique(w.areas, "R1", "R2");
  }

  /** The records the two tables project to. */
  predicate TwoAreaRecord(rec: Record)
  {
    rec == Record("2021-02-01", "R1", Some(3)) || rec == Record("2021-02-02", "R1", Some(4)) ||
    rec == Record("2021-02-02", "R2", Some(1))
  }

  /** Each reported value lands in its cell; the cell R2 lacks is missing
      (NaN), not 0. */
  lemma TwoAreaCells(frames: seq<Frame>)
    requires TwoAreas(frames)
    ensures ExtractCovariate(frames, Cases).Ok?
    ensures var w := ExtractCovariate(frames, Cases).value;
      && "2021-02-01" in w.cells && "2021-02-02" in w.cells
      && "R1" in w.cells["2021-02-01"] && "R2" in w.cells["2021-02-01"]
      && "R1" in w.cells["2021-02-02"] && "R2" in w.cells["2021-02-02"]
      && w.cells["2021-02-01"]["R1"] == Some(3.0)
      && w.cells["2021-02-01"]["R2"] == None
      && w.cells["2021-02-02"]["R1"] == Some(4.0)
      && w.cells["2021-02-02"]["R2"] == Some(1.0)
  {
    TwoAreaKeys(frames);
    TwoAreasInput(frames);
    CellsFromRecords(frames);
  }

  /** The cells, from what the tables project to alone. */
  lemma CellsFromRecords(frames: seq<Frame>)
    requires ExtractCovariate(frames, Cases).Ok?
    requires InputDate(frames, "2021-02-01") && InputArea(frames, "R2")
    requires InInput(frames, Cases, Record("2021-02-01", "R1", Some(3)))
    requires InInput(frames, Cases, Record("2021-02-02", "R1", Some(4)))
    requires InInput(frames, Cases, Record("2021-02-02", "R2", Some(1)))
    requires forall rec :: InInput(frames, Cases, rec) ==> TwoAreaRecord(rec)
    ensures var w := ExtractCovariate(frames, Cases).value;
      && "2021-02-01" in w.cells && "2021-02-02" in w.cells
      && "R1" in w.cells["2021-02-01"] && "R2" in w.cells["2021-02-01"]
      && "R1" in w.cells["2021-02-02"] && "R2" in w.cells["2021-02-02"]
      && w.cells["2021-02-01"]["R1"] == Some(3.0)
      && w.cells["2021-02-01"]["R2"] == None
      && w.cells["2021-02-02"]["R1"] == Some(4.0)
      && w.cells["2021-02-02"]["R2"] == Some(1.0)
  {
    ReportedCell(frames, "2021-02-01", "R1", 3);
    ReportedCell(frames, "2021-02-02", "R1", 4);
    ReportedCell(frames, "2021-02-02", "R2", 1);
    UnreportedCell(frames);
  }

  /** The two tables report at most one value per date and area. */
  lemma TwoAreaRecordFunctional(d: Date, a: AreaCode, u: int, v: int)
    requires TwoAreaRecord(Record(d, a, Some(u))) && TwoAreaRecord(Record(d, a, Some(v)))
    ensures u == v
  {
    assert "2021-02-01"[9] != "2021-02-02"[9] && "R1"[1] != "R2"[1];
  }

  /** A reported cell, from what the tables project to alone. */
  lemma ReportedCell(frames: seq<Frame>, d: Date, a: AreaCode, v: int)
    requires ExtractCovariate(frames, Cases).Ok?
    requires InInput(frames, Cases, Record(d, a, Some(v)))
    requires forall rec :: InInput(frames, Cases, rec) ==> TwoAreaRecord(rec)
    ensures var w := ExtractCovariate(frames, Cases).value;
      d in w.cells && a in w.cells[d] && w.cells[d][a] == Some(v as real)
  {
    forall u | InInput(frames, Cases, Record(d, a, Some(u))) ensures u == v {
      TwoAreaRecordFunctional(d, a, u, v);
    }
    ExtractCellValue(frames, Cases, d, a, v);
  }

  /** The cell of R2 on 2021-02-01, from what the tables project to alone. */
  lemma UnreportedCell(frames: seq<Frame>)
    requires ExtractCovariate(frames, Cases).Ok?
    requires InputDate(frames, "2021-02-01") && InputArea(frames, "R2")
    requires forall rec :: InInput(frames, Cases, rec) ==> TwoAreaRecord(rec)
    ensures var w := ExtractCovariate(frames, Cases).value;
      "2021-02-01" in w.cells && "R2" in w.cells["2021-02-01"] && w.cells["2021-02-01"]["R2"] == None
  {
    assert "2021-02-01" != "2021-02-02" && "R2" != "R1";
    ExtractCellMissing(frames, Cases, "2021-02-01", "R2");
  }

  /** One table that reports 5 for E1 on 2021-01-01 twice. */
  predicate Twice(f: Frame)
  {
    f == Table({Cases}, [CaseRow("2021-01-01", "E1", 5), CaseRow("2021-01-01", "E1", 5)])
  }

  /** The repeated row counts once: one record survives the de-duplication
      and the cell is 5. */
  lemma DuplicateRowCountsOnce(f: Frame)
    requires Twice(f)
    ensures Normalize(f, Cases).Ok? && |Normalize(f, Cases).value| == 1
    ensures ExtractCovariate([f], Cases).Ok?
    ensures var w := ExtractCovariate([f], Cases).value;
      "2021-01-01" in w.cells && "E1" in w.cells["2021-01-01"] && w.cells["2021-01-01"]["E1"] == Some(5.0)
  {
    NormalizeRecords(f, Cases);
    assert (set row | row in f.rows) == {CaseRow("2021-01-01", "E1", 5)};
    ExtractSucceedsIff([f], Cases);
    var rec := Record("2021-01-01", "E1", Some(5));
    assert ToRecord([f][0].rows[0], Cases) == rec;
    forall u | InInput([f], Cases, Record("2021-01-01", "E1", Some(u))) ensures u == 5 {
      var j, k :| 0 <= j < 1 && [f][j].Table? && 0 <= k < |[f][j].rows| &&
        Cases in [f][j].rows[k].measures && ToRecord([f][j].rows[k], Cases) == Record("2021-01-01", "E1", Some(u));
      assert k == 0 || k == 1;
    }
    ExtractCellValue([f], Cases, "2021-01-01", "E1", 5);
  }

  /** One table that reports 5 for E1 on 2021-01-01 once. */
  predicate Once(f: Frame)
  {
    f == Table({Cases}, [CaseRow("2021-01-01", "E1", 5)])
  }

  /** De-duplication is per table: the same row arriving in two tables is
      kept twice in the concatenation. */
  lemma DuplicatesAcrossTablesKept(f: Frame)
    requires Once(f)
    ensures Concatenated([f, f], Cases).Ok? && |Concatenated([f, f], Cases).value| == 2
  {
    NormalizeRecords(f, Cases);
    assert (set row | row in f.rows) == {CaseRow("2021-01-01", "E1", 5)};
    var once := Normalize(f, Cases).value;
    assert [f, f][1..] == [f] && [f][1..] == [] && once + [] == once;
    assert Concatenated([f], Cases) == Ok(once);
    assert Concatenated([f, f], Cases) == Ok(once + once);
  }
}
