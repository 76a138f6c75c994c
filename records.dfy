/**
 * The record logic both scrapers share: a card as the result of its four
 * selector probes, the extraction loop that turns cards into four parallel
 * lists, the "N/A" placeholder, and the row filter on the Name column.
 *
 * Both pipelines read four text probes per card, in the order their columns
 * appear: the name first, then three optional fields (the alumni script reads
 * year, position, employer; the faculty script designation, position, email).
 */
module Records {
  import opened Wrappers

  /** One probe result or one table cell: absent (None, NaN) or a string. */
  type Cell = Option<string>

  /** A card as seen through its four `select_one(...).get_text(strip=True)` probes. */
  datatype Card = Card(name: Cell, field2: Cell, field3: Cell, field4: Cell)

  /** One DataFrame row, columns in the script's order (Name first). */
  datatype Row = Row(name: Cell, field2: Cell, field3: Cell, field4: Cell)

  /** Python's `if name:` on the name probe: present and not the empty string. */
  predicate HasName(c: Card) {
    c.name.Some? && c.name.value != ""
  }

  /** The cards the extraction loop keeps, in card order. */
  function Kept(cards: seq<Card>): (r: seq<Card>)
    ensures |r| <= |cards|
    ensures forall c :: c in r <==> c in cards && HasName(c)
  {
    if cards == [] then []
    else (if HasName(cards[0]) then [cards[0]] else []) + Kept(cards[1..])
  }

  /** Visiting one more card adds it at the end exactly when it has a name. */
  lemma {:induction false} KeptAppend(cards: seq<Card>, c: Card)
    ensures Kept(cards + [c]) == if HasName(c) then Kept(cards) + [c] else Kept(cards)
  {
    if cards == [] {
      assert Kept([c]) == (if HasName(c) then [c] else []) + Kept([]);
    } else {
      assert (cards + [c])[1..] == cards[1..] + [c];
      KeptAppend(cards[1..], c);
    }
  }

  /** Four parallel lists hold the kept cards `kept`: entry k of each list is the
      matching probe of card k, the name unwrapped. */
  predicate Columns(kept: seq<Card>, names: seq<string>, col2: seq<Cell>, col3: seq<Cell>, col4: seq<Cell>) {
    |names| == |col2| == |col3| == |col4| == |kept|
    && forall k :: 0 <= k < |names| ==> kept[k] == Card(Some(names[k]), col2[k], col3[k], col4[k])
  }

  /** Appending a named card's probes to the lists keeps them in step with the cards. */
  lemma ColumnsAppend(kept: seq<Card>, names: seq<string>, col2: seq<Cell>, col3: seq<Cell>, col4: seq<Cell>,
                      c: Card)
    requires Columns(kept, names, col2, col3, col4) && c.name.Some?
    ensures Columns(kept + [c], names + [c.name.value], col2 + [c.field2], col3 + [c.field3], col4 + [c.field4])
  {
    var n := |names|;
    assert (kept + [c])[n] == c;
  }

  /**
   * The card loop of the extractor: every card whose name probe gave a non-empty
   * string contributes its four probes, in card order, to four parallel lists;
   * every other card is skipped silently.
   */
  method ExtractCards(cards: seq<Card>)
    returns (names: seq<string>, col2: seq<Cell>, col3: seq<Cell>, col4: seq<Cell>)
    ensures |names| == |col2| == |col3| == |col4| == |Kept(cards)|
    ensures forall k :: 0 <= k < |names| ==>
              Kept(cards)[k] == Card(Some(names[k]), col2[k], col3[k], col4[k])
    ensures forall k :: 0 <= k < |names| ==> names[k] != ""
  {
    names, col2, col3, col4 := [], [], [], [];
    for i := 0 to |cards|
      invariant Columns(Kept(cards[..i]), names, col2, col3, col4)
    {
      var card := cards[i];
      assert cards[..i + 1] == cards[..i] + [card];
      KeptAppend(cards[..i], card);
      if card.name.Some? && card.name.value != "" {
        ColumnsAppend(Kept(cards[..i]), names, col2, col3, col4, card);
        names := names + [card.name.value];
        col2 := col2 + [card.field2];
        col3 := col3 + [card.field3];
        col4 := col4 + [card.field4];
      }
    }
    assert cards[..|cards|] == cards;
    forall k | 0 <= k < |names| ensures names[k] != "" {
      assert Kept(cards)[k] in Kept(cards);
    }
  }

  /** The name list as a column of cells: every name present. */
  function NameCells(names: seq<string>): (r: seq<Cell>)
    ensures |r| == |names|
    ensures forall k :: 0 <= k < |r| ==> r[k] == Some(names[k])
  {
    seq(|names|, k requires 0 <= k < |names| => Some(names[k]))
  }

  /** `str(v) if v else "N/A"`: a missing or empty value becomes "N/A";
      any other value is kept unchanged. */
  function Placeholder(v: Cell): (r: string)
    ensures r != ""
    ensures v.Some? && v.value != "" ==> r == v.value
    ensures r != "N/A" ==> v == Some(r)
  {
    if v.Some? && v.value != "" then v.value else "N/A"
  }

  /** `df.dropna(subset=['Name'])`: rows whose Name is absent are removed; an
      empty-string Name is not absent and stays. */
  function DropUnnamed(t: seq<Row>): (r: seq<Row>)
    ensures |r| <= |t|
    ensures forall row :: row in r <==> row in t && row.name.Some?
    ensures (forall i :: 0 <= i < |t| ==> t[i].name.Some?) ==> r == t
  {
    if t == [] then []
    else (if t[0].name.Some? then [t[0]] else []) + DropUnnamed(t[1..])
  }

  /** Rows are visited in order: one more row is appended to the result exactly
      when its Name is present, so order and multiplicity are kept. */
  lemma {:induction false} DropUnnamedAppend(t: seq<Row>, row: Row)
    ensures DropUnnamed(t + [row]) == DropUnnamed(t) + (if row.name.Some? then [row] else [])
  {
    if t == [] {
      assert DropUnnamed([row]) == (if row.name.Some? then [row] else []) + DropUnnamed([]);
    } else {
      assert (t + [row])[1..] == t[1..] + [row];
      DropUnnamedAppend(t[1..], row);
    }
  }

  /** The four columns of a table, as the lists a transform takes. */
  function NameColumn(t: seq<Row>): (c: seq<Cell>)
    ensures |c| == |t| && forall i :: 0 <= i < |t| ==> c[i] == t[i].name
  {
    seq(|t|, i requires 0 <= i < |t| => t[i].name)
  }

  function Column2(t: seq<Row>): (c: seq<Cell>)
    ensures |c| == |t| && forall i :: 0 <= i < |t| ==> c[i] == t[i].field2
  {
    seq(|t|, i requires 0 <= i < |t| => t[i].field2)
  }

  function Column3(t: seq<Row>): (c: seq<Cell>)
    ensures |c| == |t| && forall i :: 0 <= i < |t| ==> c[i] == t[i].field3
  {
    seq(|t|, i requires 0 <= i < |t| => t[i].field3)
  }

  function Column4(t: seq<Row>): (c: seq<Cell>)
    ensures |c| == |t| && forall i :: 0 <= i < |t| ==> c[i] == t[i].field4
  {
    seq(|t|, i requires 0 <= i < |t| => t[i].field4)
  }
}
