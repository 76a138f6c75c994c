/**
 * The alumni pipeline: columns Name, Graduation_Year, Current_Position and
 * Employer (Row.name, field2, field3, field4).
 */
module Alumni {
  import opened Wrappers
  import opened Records
  import Dedup
  import Text
  import Paths

  /** The DataFrame row built from one entry of each list: the year, position and
      employer get the "N/A" placeholder, the name is taken as it is. */
  function FrameRow(name: Cell, year: Cell, position: Cell, employer: Cell): (row: Row)
    ensures row.name == name
    ensures row.field2.Some? && row.field3.Some? && row.field4.Some?
    ensures row.field2.value != "" && row.field3.value != "" && row.field4.value != ""
    ensures row.field2.value == Placeholder(year) && row.field3.value == Placeholder(position)
            && row.field4.value == Placeholder(employer)
  {
    Row(name, Some(Placeholder(year)), Some(Placeholder(position)), Some(Placeholder(employer)))
  }

  /** `pd.DataFrame({...})` over the four lists, which pandas requires to have one length. */
  function Frame(names: seq<Cell>, years: seq<Cell>, positions: seq<Cell>, employers: seq<Cell>)
    : (t: seq<Row>)
    requires |names| == |years| == |positions| == |employers|
    ensures |t| == |names|
    ensures forall i :: 0 <= i < |t| ==> t[i] == FrameRow(names[i], years[i], positions[i], employers[i])
  {
    seq(|names|, i requires 0 <= i < |names| => FrameRow(names[i], years[i], positions[i], employers[i]))
  }

  /** Four ASCII digits. */
  predicate IsYear(y: string) {
    |y| == 4 && forall j :: 0 <= j < 4 ==> Text.IsDigit(y[j])
  }

  /** One Graduation_Year cell after `str.extract(r'(\d{4})')[0]`. */
  function YearCell(c: Cell): (r: Cell)
    ensures c.None? ==> r.None?
    ensures c.Some? ==> r == Text.ExtractYear(c.value)
    ensures r.Some? ==> IsYear(r.value)
    ensures r.Some? ==> c.Some? && exists i :: Text.DigitRunAt(c.value, i) && r.value == c.value[i..i + 4]
    ensures c.Some? && (exists i :: Text.DigitRunAt(c.value, i)) ==> r.Some?
  {
    match c
    case None => None
    case Some(s) => Text.ExtractYear(s)
  }

  /** `df['Graduation_Year'] = df['Graduation_Year'].str.extract(...)[0]`: only the
      year column changes; the row count, the order and the other columns stay. */
  function CleanYears(t: seq<Row>): (r: seq<Row>)
    ensures |r| == |t|
    ensures forall i :: 0 <= i < |r| ==>
              r[i].name == t[i].name && r[i].field3 == t[i].field3 && r[i].field4 == t[i].field4
    ensures forall i :: 0 <= i < |r| ==> r[i].field2 == YearCell(t[i].field2)
  {
    seq(|t|, i requires 0 <= i < |t| => t[i].(field2 := YearCell(t[i].field2)))
  }

  /** `transform_data`: build the frame, drop rows without a Name, drop duplicate
      rows keeping the first, then clean the year column. */
  function Transform(names: seq<Cell>, years: seq<Cell>, positions: seq<Cell>, employers: seq<Cell>)
    : (r: seq<Row>)
    requires |names| == |years| == |positions| == |employers|
    ensures |r| <= |names|
    ensures |r| == |Dedup.Dedup(DropUnnamed(Frame(names, years, positions, employers)))|
    ensures forall i :: 0 <= i < |r| ==> r[i].name.Some?
    ensures forall i :: 0 <= i < |r| ==> r[i].field2.None? || IsYear(r[i].field2.value)
    ensures forall i :: 0 <= i < |r| ==>
              r[i].field3.Some? && r[i].field3.value != "" && r[i].field4.Some? && r[i].field4.value != ""
  {
    var framed := Frame(names, years, positions, employers);
    DistinctNamedRows(framed);
    CleanYears(Dedup.Dedup(DropUnnamed(framed)))
  }

  /** The rows left after the Name filter and the dedup of a frame are rows of the
      frame with a Name, so position and employer are still filled in. */
  lemma DistinctNamedRows(framed: seq<Row>)
    requires forall j :: 0 <= j < |framed| ==>
               framed[j].field3.Some? && framed[j].field3.value != ""
               && framed[j].field4.Some? && framed[j].field4.value != ""
    ensures var d := Dedup.Dedup(DropUnnamed(framed));
            forall i :: 0 <= i < |d| ==>
              d[i].name.Some? && d[i].field3.Some? && d[i].field3.value != ""
              && d[i].field4.Some? && d[i].field4.value != ""
  {
    var named := DropUnnamed(framed);
    var distinct := Dedup.Dedup(named);
    forall i | 0 <= i < |distinct|
      ensures distinct[i].name.Some? && distinct[i].field3.Some? && distinct[i].field4.Some?
      ensures distinct[i].field3.value != "" && distinct[i].field4.value != ""
    {
      assert distinct[i] in named;
      var j :| 0 <= j < |framed| && framed[j] == distinct[i];
    }
  }

  /** On lists whose every name is present the Name filter removes nothing, so the
      transform is the year cleanup of the frame's first occurrences. */
  lemma TransformOfNamed(names: seq<Cell>, years: seq<Cell>, positions: seq<Cell>, employers: seq<Cell>)
    requires |names| == |years| == |positions| == |employers|
    requires forall i :: 0 <= i < |names| ==> names[i].Some?
    ensures Transform(names, years, positions, employers)
            == CleanYears(Dedup.Dedup(Frame(names, years, positions, employers)))
  {
    var framed := Frame(names, years, positions, employers);
    assert forall i :: 0 <= i < |framed| ==> framed[i].name == names[i];
    assert DropUnnamed(framed) == framed;
  }

  /** The transform run again on its own output table. */
  function Rerun(t: seq<Row>): seq<Row> {
    Transform(NameColumn(t), Column2(t), Column3(t), Column4(t))
  }

  /** The frame row a kept card turns into. */
  function CardRow(c: Card): Row {
    FrameRow(c.name, c.field2, c.field3, c.field4)
  }

  /** The frame rows of a list of cards, in order. */
  function CardRows(cards: seq<Card>): (t: seq<Row>)
    ensures |t| == |cards| && forall k :: 0 <= k < |cards| ==> t[k] == CardRow(cards[k])
  {
    seq(|cards|, k requires 0 <= k < |cards| => CardRow(cards[k]))
  }

  /**
   * The whole transform over what the extractor returns: the Name filter removes
   * nothing (every kept card has a name), so the result is the year cleanup of the
   * first occurrences of the kept cards' rows, in card order.
   */
  lemma ExtractedRowsAllNamed(cards: seq<Card>, names: seq<string>, years: seq<Cell>,
                              positions: seq<Cell>, employers: seq<Cell>)
    requires |names| == |years| == |positions| == |employers| == |Kept(cards)|
    requires forall k :: 0 <= k < |names| ==>
               Kept(cards)[k] == Card(Some(names[k]), years[k], positions[k], employers[k])
    ensures var framed := Frame(NameCells(names), years, positions, employers);
            DropUnnamed(framed) == framed
            && framed == CardRows(Kept(cards))
    ensures Transform(NameCells(names), years, positions, employers)
            == CleanYears(Dedup.Dedup(CardRows(Kept(cards))))
  {
    var kept := Kept(cards);
    var cells := NameCells(names);
    var framed := Frame(cells, years, positions, employers);
    var rows := CardRows(kept);
    forall k | 0 <= k < |framed| ensures framed[k] == rows[k] {
      assert kept[k] == Card(cells[k], years[k], positions[k], employers[k]);
    }
    assert framed == rows;
    TransformOfNamed(cells, years, positions, employers);
  }

  /** A year that is missing, or was found empty, becomes "N/A" and then absent. */
  lemma MissingYearBecomesAbsent(name: Cell, year: Cell, position: Cell, employer: Cell)
    requires year.None? || year.value == ""
    ensures CleanYears([FrameRow(name, year, position, employer)])[0].field2.None?
  {
    assert !Text.DigitRunAt("N/A", 0);
  }

  /** Worked examples of the year extraction: the first four-digit run is kept. */
  lemma YearFromClassOf()
    ensures Text.ExtractYear("Class of 2019") == Some("2019")
  {
    var p := "Class of ";
    assert forall k :: 0 <= k < |p| ==> !Text.IsDigit(p[k]);
    Text.ExtractYearAfterText(p, "2019", "");
    assert p + "2019" + "" == "Class of 2019";
  }

  lemma YearFromLongerRun()
    ensures Text.ExtractYear("12345") == Some("1234")
  {
    Text.ExtractYearAfterText("", "1234", "5");
    assert "" + "1234" + "5" == "12345";
  }

  /** A range of years: the first of them is kept. */
  lemma YearFromRange()
    ensures Text.ExtractYear("2015-2019") == Some("2015")
  {
    Text.ExtractYearAfterText("", "2015", "-2019");
    assert "" + "2015" + "-2019" == "2015-2019";
  }

  lemma YearFromBareYear()
    ensures Text.ExtractYear("2019") == Some("2019")
  {
    Text.ExtractYearAfterText("", "2019", "");
    assert "" + "2019" + "" == "2019";
  }

  /** The placeholder holds no digit, so it yields no year. */
  lemma NoYearFromPlaceholder()
    ensures Text.ExtractYear("N/A") == None
  {
    assert !Text.DigitRunAt("N/A", 0);
  }

  /**
   * Dedup runs before the year cleanup, so the output may hold equal rows: two
   * year texts that differ but contain the same first four-digit run give two rows
   * that differ before cleanup and agree after it.
   */
  lemma DuplicatesCanSurviveCleanup(name: string, y1: string, y2: string, position: Cell, employer: Cell)
    requires y1 != "" && y2 != "" && y1 != y2
    requires Text.ExtractYear(y1) == Text.ExtractYear(y2)
    ensures var r := Transform([Some(name), Some(name)], [Some(y1), Some(y2)],
                               [position, position], [employer, employer]);
            |r| == 2 && r[0] == r[1] && !Dedup.NoDuplicates(r)
  {
    var framed := Frame([Some(name), Some(name)], [Some(y1), Some(y2)],
                        [position, position], [employer, employer]);
    assert framed == [framed[0], framed[1]];
    assert framed[0].field2 == Some(y1) && framed[1].field2 == Some(y2);
    assert DropUnnamed(framed) == framed;
    Dedup.DedupDistinctPair(framed[0], framed[1]);
  }

  /** The case behind the duplicate rows: "Class of 2019" and "2019". */
  lemma DuplicateYearExample()
    ensures var r := Transform([Some("Ada"), Some("Ada")], [Some("Class of 2019"), Some("2019")],
                               [None, None], [None, None]);
            |r| == 2 && r[0] == r[1]
  {
    YearFromClassOf();
    YearFromBareYear();
    DuplicatesCanSurviveCleanup("Ada", "Class of 2019", "2019", None, None);
  }

  /**
   * An output table holding two equal rows is changed by running the transform on
   * it again: the second run's dedup merges them. Since the cleanup comes after the
   * dedup, such tables occur (see above), so the transform is not idempotent.
   */
  lemma RerunMergesDuplicates(t: seq<Row>)
    requires forall i :: 0 <= i < |t| ==> t[i].name.Some?
    requires !Dedup.NoDuplicates(t)
    ensures |Rerun(t)| < |t|
  {
    var names, years, positions, employers := NameColumn(t), Column2(t), Column3(t), Column4(t);
    var framed := Frame(names, years, positions, employers);
    assert forall k :: 0 <= k < |framed| ==> framed[k].name == t[k].name;
    assert DropUnnamed(framed) == framed;
    assert !Dedup.NoDuplicates(framed) by {
      var i, j :| 0 <= i < j < |t| && t[i] == t[j];
      assert names[i] == names[j] && years[i] == years[j];
      assert positions[i] == positions[j] && employers[i] == employers[j];
      assert framed[i] == framed[j];
    }
    Dedup.DedupShrinksDuplicates(framed);
    assert Rerun(t) == CleanYears(Dedup.Dedup(framed));
  }

  /** The example's output is changed by a second run. */
  lemma RerunChangesExample()
    ensures var r := Transform([Some("Ada"), Some("Ada")], [Some("Class of 2019"), Some("2019")],
                               [None, None], [None, None]);
            |Rerun(r)| < |r|
  {
    DuplicateYearExample();
    var r := Transform([Some("Ada"), Some("Ada")], [Some("Class of 2019"), Some("2019")],
                       [None, None], [None, None]);
    assert !Dedup.NoDuplicates(r) by { assert r[0] == r[1]; }
    RerunMergesDuplicates(r);
  }

  /** `output_file` in `main`, from the `%Y%m%d` date stamp. */
  function CsvName(date: string): (p: string)
    ensures Paths.CsvAt(p, |p| - 4)
  {
    Paths.CsvPath("alumni", date)
  }

  /** For a digits-only date stamp the spreadsheet is `alumni_data_<date>.xlsx`. */
  lemma SpreadsheetName(date: string)
    requires forall k :: 0 <= k < |date| ==> Text.IsDigit(date[k])
    ensures Paths.SpreadsheetPath(CsvName(date)) == "alumni_data_" + date + ".xlsx"
  {
    assert '.' !in "alumni";
    assert '.' !in date by {
      forall k | 0 <= k < |date| ensures date[k] != '.' { assert Text.IsDigit(date[k]); }
    }
    Paths.SpreadsheetBesideCsv("alumni", date);
  }
}
