/** Serialising one CSV cell (src/csv/serializeCSVCell.ts), with the
    field-quoting rule of section 2 of RFC 4180 and a reader for fields
    written by that rule. */
module CsvCell {
  import opened Wrappers
  import opened JsTypes
  import opened JsText

  /** The values a CSV cell can hold. */
  datatype Cell =
    | Text(s: string)
    | Number(n: Num)
    | Boolean(b: bool)
    | Date(d: JsDate)
    | Null
    | Undefined

  /** The host's `Intl` formatters the defaults are built from: en-US
      numbers with at most three fraction digits and no grouping, and en-US
      dates with a long month name. Their output is not modelled. A date
      formatter is consulted only for a valid date: every
      `Intl.DateTimeFormat` throws on an invalid one (see `IsFormattable`). */
  datatype Host = Host(numberFormat: Num -> string, dateFormat: JsDate -> string)

  /** The formatting part of `CreateCSVStreamOptions`; `None` is an
      absent option. */
  datatype Options = Options(
    booleanFormat: Option<bool -> string>,
    numberFormat: Option<Num -> string>,
    dateFormat: Option<JsDate -> string>)

  const NoOptions: Options := Options(None, None, None)

  /** The built-in boolean format. */
  function DefaultBooleanFormat(b: bool): string {
    if b then "true" else "false"
  }

  function BooleanFormat(options: Options): bool -> string {
    match options.booleanFormat
    case Some(f) => f
    case None => DefaultBooleanFormat
  }

  function NumberFormat(options: Options, host: Host): Num -> string {
    match options.numberFormat
    case Some(f) => f
    case None => host.numberFormat
  }

  function DateFormat(options: Options, host: Host): JsDate -> string {
    match options.dateFormat
    case Some(f) => f
    case None => host.dateFormat
  }

  /** The characters that force a field into double quotes. A carriage
      return alone does not. */
  predicate NeedsQuoting(s: string) {
    '"' in s || ',' in s || '\n' in s
  }

  /** `s.replaceAll('"', '""')` */
  function DoubleQuotes(s: string): (r: string)
    ensures '"' !in s ==> r == s
    ensures NeedsQuoting(r) == NeedsQuoting(s)
    ensures r == [] <==> s == []
    ensures s != [] && s[0] != '"' ==> r[0] == s[0]
  {
    if s == [] then []
    else (if s[0] == '"' then ['"', '"'] else [s[0]]) + DoubleQuotes(s[1..])
  }

  /** `DoubleQuotes` is the general replacement of every `"` by `""`. */
  lemma {:induction false} DoubleQuotesReplacesAll(s: string)
    ensures DoubleQuotes(s) == ReplaceAll(s, '"', "\"\"")
  {
    if s != [] {
      DoubleQuotesReplacesAll(s[1..]);
    }
  }

  /** `escapeCSVCell`: double every quote, then wrap the result in quotes
      when it contains a quote, a comma or a line feed. */
  function Escape(s: string): (r: string)
    ensures !NeedsQuoting(s) ==> r == s
    ensures NeedsQuoting(s) ==> |r| >= 2 && r[0] == '"' && r[|r| - 1] == '"'
  {
    var escaped := DoubleQuotes(s);
    if NeedsQuoting(escaped) then ['"'] + escaped + ['"'] else escaped
  }

  /** The message of the `RangeError` that `Intl.DateTimeFormat`'s
      `format` throws for a date whose time value is NaN. */
  const InvalidTimeValue: string := "Invalid time value"

  /** A cell every formatter accepts: anything but a `Date` whose time
      value is NaN. This holds for the default date format and for any
      supplied one, since both are `Intl.DateTimeFormat`s. */
  predicate IsFormattable(cell: Cell) {
    !(cell.Date? && cell.d.time.IsNaN())
  }

  /** The text a cell stands for before quoting: its formatted value, or
      nothing for NaN, `null` and `undefined`. */
  function CellText(cell: Cell, options: Options, host: Host): string {
    match cell
    case Text(s) => s
    case Number(n) => if n.IsNaN() then "" else NumberFormat(options, host)(n)
    case Boolean(b) => BooleanFormat(options)(b)
    case Date(d) => DateFormat(options, host)(d)
    case Null => ""
    case Undefined => ""
  }

  /** `serializeCSVCell(cell, options)`; `Err` is the `RangeError` the
      date format throws for an invalid date. */
  function SerializeCell(cell: Cell, options: Options, host: Host): (r: Result<string>)
    ensures r.Ok? <==> IsFormattable(cell)
    ensures r.Ok? ==> r.value == Escape(CellText(cell, options, host))
    ensures r.Err? ==> r.message == InvalidTimeValue
    ensures cell.Null? || cell.Undefined? ==> r == Ok("")
    ensures cell.Number? && cell.n.IsNaN() ==> r == Ok("")
  {
    if cell.Number? then
      if cell.n.IsNaN() then Ok("") else Ok(Escape(NumberFormat(options, host)(cell.n)))
    else
      var escaped := if cell.Text? then Text(Escape(cell.s)) else cell;
      if escaped.Boolean? then Ok(Escape(BooleanFormat(options)(escaped.b)))
      else if escaped.Date? then
        if escaped.d.time.IsNaN() then Err(InvalidTimeValue)
        else Ok(Escape(DateFormat(options, host)(escaped.d)))
      else if escaped.Text? then Ok(escaped.s)
      else Ok("")
  }

  /** Options that are supplied replace the host's defaults: a cell's text
      depends only on the formatter for its own kind. */
  lemma {:induction false} SuppliedFormatsWin(cell: Cell, options: Options, host: Host)
    ensures options.numberFormat.Some? && cell.Number? && !cell.n.IsNaN() ==>
      SerializeCell(cell, options, host) == Ok(Escape(options.numberFormat.value(cell.n)))
    ensures options.dateFormat.Some? && cell.Date? && !cell.d.time.IsNaN() ==>
      SerializeCell(cell, options, host) == Ok(Escape(options.dateFormat.value(cell.d)))
    ensures options.booleanFormat.Some? && cell.Boolean? ==>
      SerializeCell(cell, options, host) == Ok(Escape(options.booleanFormat.value(cell.b)))
    ensures options.booleanFormat.None? && cell.Boolean? ==>
      SerializeCell(cell, options, host) == Ok(if cell.b then "true" else "false")
  {
    if options.booleanFormat.None? && cell.Boolean? {
      var text := DefaultBooleanFormat(cell.b);
      assert !NeedsQuoting(text) by {
        if cell.b { assert text == ['t', 'r', 'u', 'e']; } else { assert text == ['f', 'a', 'l', 's', 'e']; }
      }
    }
  }

  /** Turns `""` back into `"`. */
  function UndoubleQuotes(s: string): string {
    if |s| >= 2 && s[0] == '"' && s[1] == '"' then ['"'] + UndoubleQuotes(s[2..])
    else if s == [] then []
    else [s[0]] + UndoubleQuotes(s[1..])
  }

  /** Undoes RFC 4180 quoting: strips one pair of outer quotes and turns
      `""` back into `"`; a field without outer quotes is kept. */
  function Unescape(field: string): string {
    if |field| >= 2 && field[0] == '"' && field[|field| - 1] == '"' then
      UndoubleQuotes(field[1..|field| - 1])
    else field
  }

  lemma {:induction false} UndoubleDoubled(s: string)
    ensures UndoubleQuotes(DoubleQuotes(s)) == s
  {
    if s != [] {
      var tail := DoubleQuotes(s[1..]);
      UndoubleDoubled(s[1..]);
      if s[0] == '"' {
        assert DoubleQuotes(s) == ['"', '"'] + tail;
        assert (['"', '"'] + tail)[2..] == tail;
      } else {
        assert DoubleQuotes(s) == [s[0]] + tail;
        assert ([s[0]] + tail)[1..] == tail;
      }
    }
  }

  /** Unquoting an escaped cell gives back its text. */
  lemma {:induction false} UnescapeEscape(s: string)
    ensures Unescape(Escape(s)) == s
  {
    var escaped := DoubleQuotes(s);
    if NeedsQuoting(s) {
      var field := ['"'] + escaped + ['"'];
      assert field[1..|field| - 1] == escaped;
      UndoubleDoubled(s);
    } else {
      assert '"' !in s;
      if s != [] {
        assert s[0] in s;
      }
    }
  }

  /** Reads the body of a quoted field, the opening quote already consumed:
      `""` stands for one quote and a lone quote ends the field. Gives the
      field's value and what follows the closing quote, or `None` when the
      closing quote is missing. */
  function ReadQuoted(t: string): (r: Option<(string, string)>)
    ensures r.Some? ==> |r.value.1| < |t|
  {
    if t == [] then None
    else if t[0] == '"' then
      if |t| >= 2 && t[1] == '"' then
        match ReadQuoted(t[2..])
        case Some(p) => Some((['"'] + p.0, p.1))
        case None => None
      else Some(([], t[1..]))
    else
      match ReadQuoted(t[1..])
      case Some(p) => Some(([t[0]] + p.0, p.1))
      case None => None
  }

  /** Reads an unquoted field, up to the next comma or line feed. */
  function ReadPlain(t: string): (r: (string, string))
    ensures r.0 + r.1 == t
    ensures ',' !in r.0 && '\n' !in r.0
    ensures r.1 == [] || r.1[0] == ',' || r.1[0] == '\n'
  {
    if t == [] || t[0] == ',' || t[0] == '\n' then ([], t)
    else
      var p := ReadPlain(t[1..]);
      assert [t[0]] + p.0 + p.1 == t;
      ([t[0]] + p.0, p.1)
  }

  /** Reads one field: quoted when it starts with a quote, plain otherwise. */
  function ReadField(t: string): (r: Option<(string, string)>)
    ensures r.Some? ==> |r.value.1| <= |t|
  {
    if t != [] && t[0] == '"' then ReadQuoted(t[1..]) else Some(ReadPlain(t))
  }

  /** A doubled quote inside a quoted field is read as one quote. */
  lemma ReadQuotedPair(tail: string, value: string, after: string)
    requires ReadQuoted(tail) == Some((value, after))
    ensures ReadQuoted(['"', '"'] + tail) == Some((['"'] + value, after))
  {
    assert (['"', '"'] + tail)[2..] == tail;
  }

  /** Any other character inside a quoted field is read as itself. */
  lemma ReadQuotedOther(c: char, tail: string, value: string, after: string)
    requires c != '"'
    requires ReadQuoted(tail) == Some((value, after))
    ensures ReadQuoted([c] + tail) == Some(([c] + value, after))
  {
    assert ([c] + tail)[1..] == tail;
  }

  lemma {:induction false} ReadQuotedDoubled(s: string, rest: string)
    requires rest == [] || rest[0] != '"'
    ensures ReadQuoted(DoubleQuotes(s) + ['"'] + rest) == Some((s, rest))
  {
    if s == [] {
      assert DoubleQuotes(s) + ['"'] + rest == ['"'] + rest;
      assert (['"'] + rest)[1..] == rest;
    } else {
      var tail := DoubleQuotes(s[1..]) + ['"'] + rest;
      ReadQuotedDoubled(s[1..], rest);
      var head := if s[0] == '"' then ['"', '"'] else [s[0]];
      assert DoubleQuotes(s) == head + DoubleQuotes(s[1..]);
      ConcatAssoc(head, DoubleQuotes(s[1..]), ['"']);
      ConcatAssoc(head, DoubleQuotes(s[1..]) + ['"'], rest);
      if s[0] == '"' {
        ReadQuotedPair(tail, s[1..], rest);
      } else {
        ReadQuotedOther(s[0], tail, s[1..], rest);
      }
      assert [s[0]] + s[1..] == s;
    }
  }

  lemma {:induction false} ReadPlainOf(s: string, rest: string)
    requires ',' !in s && '\n' !in s
    requires rest == [] || rest[0] == ',' || rest[0] == '\n'
    ensures ReadPlain(s + rest) == (s, rest)
  {
    if s != [] {
      assert s[0] in s;
      assert (s + rest)[1..] == s[1..] + rest;
      ReadPlainOf(s[1..], rest);
      assert [s[0]] + s[1..] == s;
    } else {
      assert s + rest == rest;
    }
  }

  lemma ReadFieldQuoted(s: string, rest: string)
    requires NeedsQuoting(s)
    requires rest == [] || rest[0] == ',' || rest[0] == '\n'
    ensures ReadField(Escape(s) + rest) == Some((s, rest))
  {
    var escaped := DoubleQuotes(s);
    var body := escaped + ['"'] + rest;
    assert NeedsQuoting(escaped);
    assert Escape(s) == ['"'] + escaped + ['"'];
    ConcatAssoc(['"'] + escaped, ['"'], rest);
    ConcatAssoc(['"'], escaped, ['"'] + rest);
    ConcatAssoc(escaped, ['"'], rest);
    assert Escape(s) + rest == ['"'] + body;
    assert (['"'] + body)[1..] == body;
    ReadQuotedDoubled(s, rest);
  }

  lemma ReadFieldUnquoted(s: string, rest: string)
    requires !NeedsQuoting(s)
    requires rest == [] || rest[0] == ',' || rest[0] == '\n'
    ensures ReadField(Escape(s) + rest) == Some((s, rest))
  {
    if s != [] {
      assert s[0] in s;
      assert (s + rest)[0] == s[0];
    } else {
      assert s + rest == rest;
    }
    ReadPlainOf(s, rest);
  }

  /** An escaped cell followed by a separator reads back as its text, and
      the reader stops exactly where the escaped cell ends. */
  lemma ReadFieldEscape(s: string, rest: string)
    requires rest == [] || rest[0] == ',' || rest[0] == '\n'
    ensures ReadField(Escape(s) + rest) == Some((s, rest))
  {
    if NeedsQuoting(s) {
      ReadFieldQuoted(s, rest);
    } else {
      ReadFieldUnquoted(s, rest);
    }
  }
}
