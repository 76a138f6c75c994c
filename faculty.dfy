/**
 * The faculty pipeline: columns Name, Designation, Position and Email
 * (Row.name, field2, field3, field4).
 */
module Faculty {
  import opened Wrappers
  import opened Records
  import Dedup
  import Text
  import Paths

  /** The DataFrame row built from one entry of each list: only the email gets the
      "N/A" placeholder; designation and position are taken as they are, absent
      values included. */
  function FrameRow(name: Cell, designation: Cell, position: Cell, email: Cell): (row: Row)
    ensures row.name == name && row.field2 == designation && row.field3 == position
    ensures row.field4.Some? && row.field4.value == Placeholder(email)
  {
    Row(name, designation, position, Some(Placeholder(email)))
  }

  /** `pd.DataFrame({...})` over the four lists, which pandas requires to have one length. */
  function Frame(names: seq<Cell>, designations: seq<Cell>, positions: seq<Cell>, emails: seq<Cell>)
    : (t: seq<Row>)
    requires |names| == |designations| == |positions| == |emails|
    ensures |t| == |names|
    ensures forall i :: 0 <= i < |t| ==> t[i] == FrameRow(names[i], designations[i], positions[i], emails[i])
  {
    seq(|names|, i requires 0 <= i < |names| => FrameRow(names[i], designations[i], positions[i], emails[i]))
  }

  /** An email normalised as `.str.lower().str.strip()` leaves it: no ASCII capital,
      no surrounding whitespace. */
  predicate IsNormalizedEmail(e: string) {
    Text.IsStripped(e) && forall j :: 0 <= j < |e| ==> !Text.IsUpper(e[j])
  }

  /** One Email cell after `.str.lower().str.strip()`; an absent cell stays absent. */
  function EmailCell(c: Cell): (r: Cell)
    ensures r.Some? <==> c.Some?
    ensures r.Some? ==> IsNormalizedEmail(r.value) && r.value == Text.NormalizeEmail(c.value)
  {
    match c
    case None => None
    case Some(s) => Some(Text.NormalizeEmail(s))
  }

  /** `df['Email'] = df['Email'].str.lower().str.strip()`: only the Email column
      changes; the row count, the order and the other columns stay. */
  function CleanEmails(t: seq<Row>): (r: seq<Row>)
    ensures |r| == |t|
    ensures forall i :: 0 <= i < |r| ==>
              r[i].name == t[i].name && r[i].field2 == t[i].field2 && r[i].field3 == t[i].field3
    ensures forall i :: 0 <= i < |r| ==> r[i].field4 == EmailCell(t[i].field4)
  {
    seq(|t|, i requires 0 <= i < |t| => t[i].(field4 := EmailCell(t[i].field4)))
  }

  /** `transform_data`: build the frame, drop rows without a Name, drop duplicate
      rows keeping the first, then normalise the Email column. */
  function Transform(names: seq<Cell>, designations: seq<Cell>, positions: seq<Cell>, emails: seq<Cell>)
    : (r: seq<Row>)
    requires |names| == |designations| == |positions| == |emails|
    ensures |r| <= |names|
    ensures |r| == |Dedup.Dedup(DropUnnamed(Frame(names, designations, positions, emails)))|
    ensures forall i :: 0 <= i < |r| ==> r[i].name.Some?
    ensures forall i :: 0 <= i < |r| ==> r[i].field4.Some? && IsNormalizedEmail(r[i].field4.value)
  {
    var framed := Frame(names, designations, positions, emails);
    DistinctNamedRows(framed);
    CleanEmails(Dedup.Dedup(DropUnnamed(framed)))
  }

  /** The rows left after the Name filter and the dedup of a frame are rows of the
      frame with a Name, so their Email is still filled in. */
  lemma DistinctNamedRows(framed: seq<Row>)
    requires forall j :: 0 <= j < |framed| ==> framed[j].field4.Some?
    ensures var d := Dedup.Dedup(DropUnnamed(framed));
            forall i :: 0 <= i < |d| ==> d[i].name.Some? && d[i].field4.Some?
  {
    var named := DropUnnamed(framed);
    var distinct := Dedup.Dedup(named);
    forall i | 0 <= i < |distinct| ensures distinct[i].name.Some? && distinct[i].field4.Some? {
      assert distinct[i] in named;
      var j :| 0 <= j < |framed| && framed[j] == distinct[i];
    }
  }

  /** On lists whose every name is present the Name filter removes nothing, so the
      transform is the email cleanup of the frame's first occurrences. */
  lemma TransformOfNamed(names: seq<Cell>, designations: seq<Cell>, positions: seq<Cell>, emails: seq<Cell>)
    requires |names| == |designations| == |positions| == |emails|
    requires forall i :: 0 <= i < |names| ==> names[i].Some?
    ensures Transform(names, designations, positions, emails)
            == CleanEmails(Dedup.Dedup(Frame(names, designations, positions, emails)))
  {
    var framed := Frame(names, designations, positions, emails);
    assert forall i :: 0 <= i < |framed| ==> framed[i].name == names[i];
    assert DropUnnamed(framed) == framed;
  }

  /** The transform run again on its own output table. */
  function Rerun(t: seq<Row>): seq<Row> {
    Transform(NameColumn(t), Column2(t), Column3(t), Column4(t))
  }

  /** The frame row a kept card turns into. */
  function CardRow(c: Card): Row {
    FrameRow(c.name, c.field2, c.field3, c.field4)
  }

  /** The frame rows of a list of cards, in order. */
  function CardRows(cards: seq<Card>): (t: seq<Row>)
    ensures |t| == |cards| && forall k :: 0 <= k < |cards| ==> t[k] == CardRow(cards[k])
  {
    seq(|cards|, k requires 0 <= k < |cards| => CardRow(cards[k]))
  }

  /**
   * The whole transform over what the extractor returns: the Name filter removes
   * nothing (every kept card has a name), so the result is the email cleanup of
   * the first occurrences of the kept cards' rows, in card order.
   */
  lemma ExtractedRowsAllNamed(cards: seq<Card>, names: seq<string>, designations: seq<Cell>,
                              positions: seq<Cell>, emails: seq<Cell>)
    requires |names| == |designations| == |positions| == |emails| == |Kept(cards)|
    requires forall k :: 0 <= k < |names| ==>
               Kept(cards)[k] == Card(Some(names[k]), designations[k], positions[k], emails[k])
    ensures var framed := Frame(NameCells(names), designations, positions, emails);
            DropUnnamed(framed) == framed
            && framed == CardRows(Kept(cards))
    ensures Transform(NameCells(names), designations, positions, emails)
            == CleanEmails(Dedup.Dedup(CardRows(Kept(cards))))
  {
    var kept := Kept(cards);
    var cells := NameCells(names);
    var framed := Frame(cells, designations, positions, emails);
    var rows := CardRows(kept);
    forall k | 0 <= k < |framed| ensures framed[k] == rows[k] {
      assert kept[k] == Card(cells[k], designations[k], positions[k], emails[k]);
    }
    assert framed == rows;
    TransformOfNamed(cells, designations, positions, emails);
  }

  /** The placeholder itself is lower-cased: a missing email is output as "n/a". */
  lemma PlaceholderLowerCased()
    ensures Text.NormalizeEmail("N/A") == "n/a"
  {
    var l := Text.Lower("N/A");
    assert l == "n/a" by {
      assert l[0] == 'n' && l[1] == '/' && l[2] == 'a';
    }
    Text.StripOfStripped("n/a");
  }

  /** A card with a name and nothing else becomes a row with absent designation
      and position and the email "n/a". */
  lemma MissingOptionalFields(name: string)
    ensures Transform([Some(name)], [None], [None], [None]) == [Row(Some(name), None, None, Some("n/a"))]
  {
    NameAndEmailTransform(name, None);
    MissingEmailCell();
  }

  /** A missing email is output as "n/a". */
  lemma MissingEmailCell()
    ensures EmailCell(Some(Placeholder(None))) == Some("n/a")
  {
    PlaceholderEmailCell();
    PlaceholderLowerCased();
  }

  /** A missing email becomes the placeholder, which goes through the cleanup. */
  lemma PlaceholderEmailCell()
    ensures EmailCell(Some(Placeholder(None))) == Some(Text.NormalizeEmail("N/A"))
  {
    assert Placeholder(None) == "N/A";
  }

  /** The transform of one row holding only a name and an email cell. */
  lemma NameAndEmailTransform(name: string, email: Cell)
    ensures Transform([Some(name)], [None], [None], [email])
            == [Row(Some(name), None, None, EmailCell(Some(Placeholder(email))))]
  {
    var row := Row(Some(name), None, None, Some(Placeholder(email)));
    var names := [Some(name)];
    var framed := Frame(names, [None], [None], [email]);
    assert framed == [row] by {
      assert framed[0] == row;
    }
    assert forall i :: 0 <= i < |names| ==> names[i].Some?;
    TransformOfNamed(names, [None], [None], [email]);
    Dedup.DedupOfDistinct([row]);
    CleanEmailsOne(row);
  }

  /** The email cleanup of a one-row table. */
  lemma CleanEmailsOne(r: Row)
    ensures CleanEmails([r]) == [r.(field4 := EmailCell(r.field4))]
  {
    assert CleanEmails([r])[0] == r.(field4 := EmailCell(r.field4));
  }

  /** A worked example of the email cleanup. */
  lemma EmailExample()
    ensures Text.NormalizeEmail(" John.Doe@EXAMPLE.com ") == "john.doe@example.com"
  {
    var t := "john.doe@example.com";
    assert Text.Lower(" John.Doe@EXAMPLE.com ") == " " + t + " ";
    Text.StripSurrounded(" ", t, " ");
  }

  /** Two rows that differ only in a non-empty email both pass the dedup, and the
      cleanup then normalises each email. */
  lemma TwoEmailsTransform(name: string, designation: Cell, position: Cell, e1: string, e2: string)
    requires e1 != "" && e2 != "" && e1 != e2
    ensures Transform([Some(name), Some(name)], [designation, designation],
                      [position, position], [Some(e1), Some(e2)])
            == [Row(Some(name), designation, position, EmailCell(Some(e1))),
                Row(Some(name), designation, position, EmailCell(Some(e2)))]
  {
    var r1 := Row(Some(name), designation, position, Some(e1));
    var r2 := Row(Some(name), designation, position, Some(e2));
    var names := [Some(name), Some(name)];
    var framed := Frame(names, [designation, designation], [position, position], [Some(e1), Some(e2)]);
    assert framed == [r1, r2] by {
      assert framed[0] == r1 && framed[1] == r2;
    }
    assert forall i :: 0 <= i < |names| ==> names[i].Some?;
    TransformOfNamed(names, [designation, designation], [position, position], [Some(e1), Some(e2)]);
    Dedup.DedupDistinctPair(r1, r2);
    CleanEmailsPair(r1, r2);
  }

  /** The email cleanup of a two-row table, row by row. */
  lemma CleanEmailsPair(r1: Row, r2: Row)
    ensures CleanEmails([r1, r2]) == [r1.(field4 := EmailCell(r1.field4)), r2.(field4 := EmailCell(r2.field4))]
  {
    var c := CleanEmails([r1, r2]);
    assert c[0] == r1.(field4 := EmailCell(r1.field4));
    assert c[1] == r2.(field4 := EmailCell(r2.field4));
  }

  /**
   * Dedup runs before the email cleanup, so two rows whose emails differ only in
   * case or surrounding whitespace both survive, and are equal in the output.
   */
  lemma CaseVariantsBothSurvive(name: string, designation: Cell, position: Cell, e1: string, e2: string)
    requires e1 != "" && e2 != "" && e1 != e2
    requires Text.NormalizeEmail(e1) == Text.NormalizeEmail(e2)
    ensures var r := Transform([Some(name), Some(name)], [designation, designation],
                               [position, position], [Some(e1), Some(e2)]);
            |r| == 2 && r[0] == r[1] && !Dedup.NoDuplicates(r)
  {
    TwoEmailsTransform(name, designation, position, e1, e2);
    assert EmailCell(Some(e1)) == EmailCell(Some(e2));
  }

  /** The case behind the duplicate rows: "ada@bracu.ac.bd" and "Ada@BRACU.ac.bd". */
  lemma CaseVariantsExample()
    ensures var r := Transform([Some("Ada"), Some("Ada")], [None, None], [None, None],
                               [Some("ada@bracu.ac.bd"), Some("Ada@BRACU.ac.bd")]);
            |r| == 2 && r[0] == r[1]
  {
    var e := "ada@bracu.ac.bd";
    assert Text.Lower(e) == e && Text.Lower("Ada@BRACU.ac.bd") == e;
    Text.StripOfStripped(e);
    CaseVariantsBothSurvive("Ada", None, None, e, "Ada@BRACU.ac.bd");
  }

  /**
   * An output table holding two equal rows is changed by running the transform on
   * it again: the second run's dedup merges them. Since the cleanup comes after the
   * dedup, such tables occur (see above), so the transform is not idempotent.
   */
  lemma RerunMergesDuplicates(t: seq<Row>)
    requires forall i :: 0 <= i < |t| ==> t[i].name.Some?
    requires !Dedup.NoDuplicates(t)
    ensures |Rerun(t)| < |t|
  {
    var names, designations, positions, emails := NameColumn(t), Column2(t), Column3(t), Column4(t);
    var framed := Frame(names, designations, positions, emails);
    assert forall k :: 0 <= k < |framed| ==> framed[k].name == t[k].name;
    assert DropUnnamed(framed) == framed;
    assert !Dedup.NoDuplicates(framed) by {
      var i, j :| 0 <= i < j < |t| && t[i] == t[j];
      assert names[i] == names[j] && designations[i] == designations[j];
      assert positions[i] == positions[j] && emails[i] == emails[j];
      assert framed[i] == framed[j];
    }
    Dedup.DedupShrinksDuplicates(framed);
    assert Rerun(t) == CleanEmails(Dedup.Dedup(framed));
  }

  /** The example's output is changed by a second run. */
  lemma RerunChangesExample()
    ensures var r := Transform([Some("Ada"), Some("Ada")], [None, None], [None, None],
                               [Some("ada@bracu.ac.bd"), Some("Ada@BRACU.ac.bd")]);
            |Rerun(r)| < |r|
  {
    CaseVariantsExample();
    var r := Transform([Some("Ada"), Some("Ada")], [None, None], [None, None],
                       [Some("ada@bracu.ac.bd"), Some("Ada@BRACU.ac.bd")]);
    assert !Dedup.NoDuplicates(r) by { assert r[0] == r[1]; }
    RerunMergesDuplicates(r);
  }

  /** `output_file` in `main`, from the `%Y%m%d` date stamp. */
  function CsvName(date: string): (p: string)
    ensures Paths.CsvAt(p, |p| - 4)
  {
    Paths.CsvPath("faculty", date)
  }

  /** For a digits-only date stamp the spreadsheet is `faculty_data_<date>.xlsx`. */
  lemma SpreadsheetName(date: string)
    requires forall k :: 0 <= k < |date| ==> Text.IsDigit(date[k])
    ensures Paths.SpreadsheetPath(CsvName(date)) == "faculty_data_" + date + ".xlsx"
  {
    assert '.' !in "faculty";
    assert '.' !in date by {
      forall k | 0 <= k < |date| ensures date[k] != '.' { assert Text.IsDigit(date[k]); }
    }
    Paths.SpreadsheetBesideCsv("faculty", date);
  }
}
