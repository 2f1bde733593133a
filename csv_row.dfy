/** Serialising one CSV row (src/csv/serializeCSVRow.ts) and reading one
    record back by the rules of section 2 of RFC 4180. */
module CsvRow {
  import opened Wrappers
  import opened CsvCell
  import opened JsText

  /** No cell of the row makes a formatter throw. */
  predicate AllFormattable(cells: seq<Cell>) {
    forall i :: 0 <= i < |cells| ==> IsFormattable(cells[i])
  }

  /** `cells.map(...)`: every cell serialised on its own, with the same
      options, in row order; the first cell whose formatter throws stops
      the map with its error. */
  function SerializeCells(cells: seq<Cell>, options: Options, host: Host): (r: Result<seq<string>>)
    ensures r.Ok? <==> AllFormattable(cells)
    ensures r.Ok? ==> |r.value| == |cells|
    ensures r.Err? ==> r.message == InvalidTimeValue
  {
    if cells == [] then Ok([])
    else
      match SerializeCell(cells[0], options, host)
      case Err(m) => Err(m)
      case Ok(first) =>
        match SerializeCells(cells[1..], options, host)
        case Err(m) =>
          assert forall i :: 1 <= i < |cells| ==> cells[1..][i - 1] == cells[i];
          Err(m)
        case Ok(rest) =>
          assert forall i :: 1 <= i < |cells| ==> cells[1..][i - 1] == cells[i];
          Ok([first] + rest)
  }

  /** The texts the cells stand for, before quoting. */
  function CellTexts(cells: seq<Cell>, options: Options, host: Host): (r: seq<string>)
    ensures |r| == |cells|
  {
    seq(|cells|, i requires 0 <= i < |cells| => CellText(cells[i], options, host))
  }

  /** `serializeCSVRow(cells, options)`: the serialised cells joined by
      commas, then one line feed, or the error of the first cell that
      cannot be formatted. */
  function SerializeRow(cells: seq<Cell>, options: Options, host: Host): (r: Result<string>)
    ensures r.Ok? <==> AllFormattable(cells)
    ensures r.Ok? ==> |r.value| >= 1 && r.value[|r.value| - 1] == '\n'
    ensures r.Err? ==> r.message == InvalidTimeValue
    ensures cells == [] ==> r == Ok("\n")
  {
    match SerializeCells(cells, options, host)
    case Ok(parts) =>
      assert cells == [] ==> parts == [] && [] + "\n" == "\n";
      Ok(Join(parts, ",") + "\n")
    case Err(m) => Err(m)
  }

  /** Reads one record: fields separated by commas and ended by a line
      feed. Gives the fields' values and what follows the line feed, or
      `None` when the text is not a well-formed record. */
  function ReadRecord(t: string): (r: Option<(seq<string>, string)>)
    ensures r.Some? ==> |r.value.0| >= 1 && |r.value.1| < |t|
    decreases |t|
  {
    match ReadField(t)
    case None => None
    case Some(field) =>
      var (value, rest) := field;
      if rest == [] then None
      else if rest[0] == '\n' then Some(([value], rest[1..]))
      else if rest[0] == ',' then
        match ReadRecord(rest[1..])
        case None => None
        case Some(more) => Some(([value] + more.0, more.1))
      else None
  }

  /** A row after its first cell: the first cell's text, a comma, and the
      rest of the row serialised as if it stood alone. */
  lemma SerializeCellsCons(cell: Cell, cells: seq<Cell>, options: Options, host: Host)
    ensures SerializeCells([cell] + cells, options, host) ==
      match SerializeCell(cell, options, host)
      case Err(m) => Err(m)
      case Ok(first) =>
        match SerializeCells(cells, options, host)
        case Err(m) => Err(m)
        case Ok(rest) => Ok([first] + rest)
  {
    assert ([cell] + cells)[1..] == cells;
  }

  lemma {:induction false} SerializeRowCons(cell: Cell, cells: seq<Cell>, options: Options, host: Host)
    requires cells != []
    ensures SerializeRow([cell] + cells, options, host) ==
      match (SerializeCell(cell, options, host), SerializeRow(cells, options, host))
      case (Ok(first), Ok(row)) => Ok(first + "," + row)
      case (Err(m), _) => Err(m)
      case (_, Err(m)) => Err(m)
  {
    SerializeCellsCons(cell, cells, options, host);
    match (SerializeCell(cell, options, host), SerializeCells(cells, options, host)) {
      case (Ok(first), Ok(parts)) =>
        JoinCons(first, parts, ",");
        ConcatAssoc(first + ",", Join(parts, ","), "\n");
      case (Err(m), _) =>
      case (Ok(_), Err(m)) =>
    }
  }

  /** A field followed by the line feed ends the record. */
  lemma ReadRecordEnd(t: string, value: string, tail: string)
    requires ReadField(t) == Some((value, tail)) && tail != [] && tail[0] == '\n'
    ensures ReadRecord(t) == Some(([value], tail[1..]))
  {
  }

  /** A field followed by a comma starts a record of one more field. */
  lemma ReadRecordComma(t: string, value: string, tail: string, values: seq<string>, rest: string)
    requires ReadField(t) == Some((value, tail)) && tail != [] && tail[0] == ','
    requires ReadRecord(tail[1..]) == Some((values, rest))
    ensures ReadRecord(t) == Some(([value] + values, rest))
  {
  }

  lemma ReadRecordLast(s: string, rest: string)
    ensures ReadRecord(Escape(s) + "\n" + rest) == Some(([s], rest))
  {
    var after := ['\n'] + rest;
    var t := Escape(s) + after;
    ReadFieldEscape(s, after);
    assert after[1..] == rest;
    ReadRecordEnd(t, s, after);
    ConcatAssoc(Escape(s), "\n", rest);
  }

  lemma ReadRecordCons(s: string, after: string, values: seq<string>, rest: string)
    requires ReadRecord(after) == Some((values, rest))
    ensures ReadRecord(Escape(s) + "," + after) == Some(([s] + values, rest))
  {
    var tail := [','] + after;
    var t := Escape(s) + tail;
    ReadFieldEscape(s, tail);
    assert tail[1..] == after;
    ReadRecordComma(t, s, tail, values, rest);
    ConcatAssoc(Escape(s), ",", after);
  }

  lemma CellTextsCons(cell: Cell, cells: seq<Cell>, options: Options, host: Host)
    ensures CellTexts([cell] + cells, options, host) ==
      [CellText(cell, options, host)] + CellTexts(cells, options, host)
  {
    var all := CellTexts([cell] + cells, options, host);
    assert forall i :: 1 <= i < |all| ==> all[i] == CellTexts(cells, options, host)[i - 1];
  }

  /** Reading a serialised row gives back the texts of its cells, in row
      order, and stops right after its line feed: every comma outside
      quotes separates two cells and the only line feed outside quotes is
      the terminator. A row with no cells is the exception (see
      `EmptyRowReadsAsOneField`). */
  lemma {:induction false} ReadRecordSerializeRow(cells: seq<Cell>, options: Options, host: Host, rest: string)
    requires cells != []
    ensures SerializeRow(cells, options, host).Ok? ==>
      ReadRecord(SerializeRow(cells, options, host).value + rest) == Some((CellTexts(cells, options, host), rest))
  {
    if AllFormattable(cells) {
      var c := cells[0];
      var tail := cells[1..];
      assert [c] + tail == cells;
      assert IsFormattable(c);
      var text := CellText(c, options, host);
      CellTextsCons(c, tail, options, host);
      var field := Escape(text);
      assert SerializeCell(c, options, host) == Ok(field);
      if tail == [] {
        assert SerializeCells(tail, options, host) == Ok([]);
        assert [field] + [] == [field];
        assert SerializeCells(cells, options, host) == Ok([field]);
        assert SerializeRow(cells, options, host) == Ok(field + "\n");
        assert CellTexts(tail, options, host) == [];
        assert CellTexts(cells, options, host) == [text];
        ReadRecordLast(text, rest);
      } else {
        assert AllFormattable(tail) by {
          assert forall i :: 0 <= i < |tail| ==> tail[i] == cells[i + 1];
        }
        var row := SerializeRow(tail, options, host).value;
        SerializeRowCons(c, tail, options, host);
        ReadRecordSerializeRow(tail, options, host, rest);
        ReadRecordCons(text, row + rest, CellTexts(tail, options, host), rest);
        ConcatAssoc(field + ",", row, rest);
      }
    }
  }

  /** The row with no cells and the row holding only `null` both give a
      bare line feed, which reads back as one empty field. */
  lemma EmptyRowReadsAsOneField(options: Options, host: Host, rest: string)
    ensures SerializeRow([], options, host) == SerializeRow([Null], options, host) == Ok("\n")
    ensures ReadRecord("\n" + rest) == Some(([""], rest))
  {
    assert ("\n" + rest)[1..] == rest;
    assert [Null][1..] == [];
    assert [""] + [] == [""];
    assert SerializeCells([Null], options, host) == Ok([""]);
  }

  /** A row holding a `Date` whose time value is NaN fails to serialise,
      wherever that cell stands and whatever the options are. */
  lemma InvalidDateFails(cells: seq<Cell>, i: nat, options: Options, host: Host)
    requires i < |cells| && cells[i].Date? && cells[i].d.time.IsNaN()
    ensures SerializeRow(cells, options, host) == Err(InvalidTimeValue)
  {
    assert !IsFormattable(cells[i]);
  }
}
