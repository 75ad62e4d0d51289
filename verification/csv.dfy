/** The CSV export of the admin registrations page (`exportRegistrationsToCsv`):
    a fixed header record, one five-cell record per registration, cells joined
    with `,`, records joined with a bare line feed, and RFC 4180 style quoting of
    any cell holding a comma, a double quote or a line feed.

    To state what the encoding achieves, the module also holds a reader for the
    same dialect (quoted fields with `""` for an inner quote, `,` between fields,
    line feed between records, carriage return treated as ordinary data) and
    proves that reading the exported text gives back exactly the cells written. */
module Csv {
  import opened Base
  import Text

  // ---------------------------------------------------------------------------
  // Cell escaping
  // ---------------------------------------------------------------------------

  /** The condition under which `escapeCsvValue` wraps a value in quotes.
      A lone carriage return does not trigger quoting. */
  predicate NeedsQuotes(v: string)
  {
    ',' in v || '"' in v || '\n' in v
  }

  /** `value.replace(/"/g, '""')`: every double quote doubled. */
  function DoubleQuotes(v: string): (r: string)
    ensures '"' !in v ==> r == v
  {
    if |v| == 0 then [] else QuotePiece(v[0]) + DoubleQuotes(v[1..])
  }

  /** What `DoubleQuotes` writes for one character. */
  function QuotePiece(c: char): string
  {
    if c == '"' then "\"\"" else [c]
  }

  /** Reads `""` as one `"`, left to right; any other character is kept. */
  function Undouble(s: string): string
  {
    if |s| == 0 then []
    else if |s| >= 2 && s[0] == '"' && s[1] == '"' then "\"" + Undouble(s[2..])
    else [s[0]] + Undouble(s[1..])
  }

  /** Undoubling inverts doubling. */
  lemma {:induction false} UndoubleDoubleQuotes(v: string)
    ensures Undouble(DoubleQuotes(v)) == v
  {
    if |v| > 0 {
      var tail := DoubleQuotes(v[1..]);
      UndoubleDoubleQuotes(v[1..]);
      if v[0] == '"' {
        UndoublePair(tail);
      } else {
        UndoublePlain(v[0], tail);
      }
      assert [v[0]] + v[1..] == v;
    }
  }

  lemma UndoublePair(tail: string)
    ensures Undouble("\"\"" + tail) == "\"" + Undouble(tail)
  {
    var s := "\"\"" + tail;
    assert s[0] == '"' && s[1] == '"' && s[2..] == tail;
  }

  lemma UndoublePlain(c: char, tail: string)
    requires c != '"'
    ensures Undouble([c] + tail) == [c] + Undouble(tail)
  {
    var s := [c] + tail;
    assert s[0] == c && s[1..] == tail;
  }

  /** `escapeCsvValue`: a value with no comma, quote or line feed is emitted as
      it is; any other value is wrapped in quotes (and, by `EscapeValueInner`,
      its inner quotes doubled). */
  function EscapeValue(v: string): (r: string)
    ensures !NeedsQuotes(v) ==> r == v
    ensures NeedsQuotes(v) ==> |r| >= 2 && r[0] == '"' && r[|r| - 1] == '"'
  {
    var safe := DoubleQuotes(v);
    if NeedsQuotes(v) then "\"" + safe + "\"" else safe
  }

  /** Between the quotes of a quoted cell is the value with every quote doubled:
      reading `""` as `"` there gives back the value. */
  lemma EscapeValueInner(v: string)
    requires NeedsQuotes(v)
    ensures var r := EscapeValue(v); Undouble(r[1..|r| - 1]) == v
  {
    var r := EscapeValue(v);
    assert r[1..|r| - 1] == DoubleQuotes(v);
    UndoubleDoubleQuotes(v);
  }

  /** The simple decoding of one escaped cell: drop the surrounding quotes when
      both are present, then read `""` as `"`. */
  function DecodeField(f: string): string
  {
    var inner := if |f| >= 2 && f[0] == '"' && f[|f| - 1] == '"' then f[1..|f| - 1] else f;
    Undouble(inner)
  }

  /** Decoding an escaped cell gives back the original value. */
  lemma DecodeEscapeValue(v: string)
    ensures DecodeField(EscapeValue(v)) == v
  {
    if NeedsQuotes(v) {
      EscapeValueInner(v);
    } else {
      UndoubleDoubleQuotes(v);
      assert EscapeValue(v) == v;
      assert |v| >= 2 ==> v[0] != '"';
    }
  }

  // ---------------------------------------------------------------------------
  // Records and the document
  // ---------------------------------------------------------------------------

  /** The `{ id, title }` of the course a listed registration belongs to. */
  datatype CourseRef = CourseRef(id: int, title: string)

  /** One entry of the admin registrations list. `course` is optional, as the
      export reads it with `registration.course?.title`. */
  datatype AdminRegistration = AdminRegistration(
    id: int,
    fullName: string,
    email: string,
    phone: string,
    createdAt: Timestamp,
    course: Option<CourseRef>)

  /** The header record of the exported file. */
  const Headers: seq<string> := ["Course title", "Full name", "Email", "Phone", "Registration date"]

  /** The header record as it appears as the file's first line. */
  const HeaderLine: string :=
    "Course title" + "," + "Full name" + "," + "Email" + "," + "Phone" + "," + "Registration date"

  /** `registration.course?.title ?? ""` */
  function CourseTitle(r: AdminRegistration): string
  {
    match r.course
    case Some(c) => c.title
    case None => ""
  }

  /** The five cells exported for one registration; `toIso` stands for
      `new Date(createdAt).toISOString()`. */
  function Cells(r: AdminRegistration, toIso: Timestamp -> string): seq<string>
  {
    [CourseTitle(r), r.fullName, r.email, r.phone, toIso(r.createdAt)]
  }

  /** The records following the header, one per registration, in input order. */
  function Rows(regs: seq<AdminRegistration>, toIso: Timestamp -> string): (rows: seq<seq<string>>)
    ensures |rows| == |regs|
    ensures forall i :: 0 <= i < |regs| ==> rows[i] == Cells(regs[i], toIso)
  {
    if |regs| == 0 then [] else [Cells(regs[0], toIso)] + Rows(regs[1..], toIso)
  }

  function EscapeRow(row: seq<string>): seq<string>
  {
    if |row| == 0 then [] else [EscapeValue(row[0])] + EscapeRow(row[1..])
  }

  /** One line of the file: the escaped cells joined with `,`. */
  function RenderRow(row: seq<string>): string
  {
    Text.Join(",", EscapeRow(row))
  }

  function RenderRows(rows: seq<seq<string>>): seq<string>
  {
    if |rows| == 0 then [] else [RenderRow(rows[0])] + RenderRows(rows[1..])
  }

  /** The whole text: the rendered records joined with a line feed. */
  function Render(rows: seq<seq<string>>): string
  {
    Text.Join("\n", RenderRows(rows))
  }

  /** `exportRegistrationsToCsv` up to the download: nothing for an empty list,
      otherwise a text that reads back as the header followed by one record per
      registration, in order. */
  function ExportRegistrationsToCsv(regs: seq<AdminRegistration>, toIso: Timestamp -> string): (r: Option<string>)
    ensures r.Some? ==> ParseDocument(r.value) == Some([Headers] + Rows(regs, toIso))
    ensures |regs| == 0 <==> r.None?
  {
    if |regs| == 0 then None
    else
      var rows := [Headers] + Rows(regs, toIso);
      ParseDocumentRender(rows);
      Some(Render(rows))
  }

  // ---------------------------------------------------------------------------
  // Reading the dialect back
  // ---------------------------------------------------------------------------

  /** The text after a field: the end of input, or a cell or record separator. */
  predicate AtBoundary(t: string)
  {
    |t| == 0 || t[0] == ',' || t[0] == '\n'
  }

  /** An unquoted field: everything up to the next `,` or line feed. */
  function ParseBare(s: string): (r: (string, string))
    ensures |r.1| <= |s| && AtBoundary(r.1)
  {
    if |s| == 0 || s[0] == ',' || s[0] == '\n' then ([], s)
    else
      var (v, rest) := ParseBare(s[1..]);
      ([s[0]] + v, rest)
  }

  /** Puts one character in front of a parsed value. */
  function Cons(c: char, p: Option<(string, string)>): (r: Option<(string, string)>)
    ensures r.Some? <==> p.Some?
    ensures r.Some? ==> r.value.1 == p.value.1
  {
    match p
    case None => None
    case Some((v, rest)) => Some(([c] + v, rest))
  }

  /** The body of a quoted field, after its opening quote, up to and without its
      closing quote; `None` when the closing quote is missing. */
  function ParseQuoted(s: string): (r: Option<(string, string)>)
    ensures r.Some? ==> |r.value.1| < |s|
  {
    if |s| == 0 then None
    else if s[0] == '"' then
      if |s| >= 2 && s[1] == '"' then Cons('"', ParseQuoted(s[2..]))
      else Some(([], s[1..]))
    else Cons(s[0], ParseQuoted(s[1..]))
  }

  /** One field, quoted or not, followed by a boundary. */
  function ParseField(s: string): (r: Option<(string, string)>)
    ensures r.Some? ==> |r.value.1| <= |s| && AtBoundary(r.value.1)
  {
    if |s| > 0 && s[0] == '"' then
      match ParseQuoted(s[1..])
      case None => None
      case Some((v, rest)) => if AtBoundary(rest) then Some((v, rest)) else None
    else Some(ParseBare(s))
  }

  /** One record: fields separated by `,`, up to a line feed or the end. */
  function ParseRecord(s: string): (r: Option<(seq<string>, string)>)
    ensures r.Some? ==> |r.value.1| <= |s| && (|r.value.1| == 0 || r.value.1[0] == '\n')
    ensures r.Some? ==> |r.value.0| > 0
    decreases |s|
  {
    match ParseField(s)
    case None => None
    case Some((v, rest)) =>
      if |rest| > 0 && rest[0] == ',' then
        match ParseRecord(rest[1..])
        case None => None
        case Some((cells, rest')) => Some(([v] + cells, rest'))
      else Some(([v], rest))
  }

  /** A whole document: records separated by line feeds. */
  function ParseDocument(s: string): Option<seq<seq<string>>>
    decreases |s|
  {
    match ParseRecord(s)
    case None => None
    case Some((cells, rest)) =>
      if |rest| == 0 then Some([cells])
      else
        match ParseDocument(rest[1..])
        case None => None
        case Some(records) => Some([cells] + records)
  }

  // ---------------------------------------------------------------------------
  // Round trip
  // ---------------------------------------------------------------------------

  lemma {:induction false} ParseBareValue(v: string, t: string)
    requires ',' !in v && '\n' !in v && AtBoundary(t)
    ensures ParseBare(v + t) == (v, t)
  {
    if |v| == 0 {
      assert v + t == t;
    } else {
      assert (v + t)[0] == v[0];
      assert (v + t)[1..] == v[1..] + t;
      ParseBareValue(v[1..], t);
      assert [v[0]] + v[1..] == v;
    }
  }

  lemma QuotedPlainStep(c: char, tail: string)
    requires c != '"'
    ensures ParseQuoted([c] + tail) == Cons(c, ParseQuoted(tail))
  {
    var s := [c] + tail;
    assert s[0] == c && s[1..] == tail;
  }

  lemma QuotedPairStep(tail: string)
    ensures ParseQuoted("\"\"" + tail) == Cons('"', ParseQuoted(tail))
  {
    var s := "\"\"" + tail;
    assert s[0] == '"' && s[1] == '"' && s[2..] == tail;
  }

  lemma QuotedClose(t: string)
    requires |t| == 0 || t[0] != '"'
    ensures ParseQuoted("\"" + t) == Some(([], t))
  {
    var s := "\"" + t;
    assert s[0] == '"' && s[1..] == t;
  }

  lemma {:induction false} ParseQuotedValue(v: string, t: string)
    requires |t| == 0 || t[0] != '"'
    ensures ParseQuoted(DoubleQuotes(v) + ("\"" + t)) == Some((v, t))
  {
    if |v| == 0 {
      assert DoubleQuotes(v) + ("\"" + t) == "\"" + t;
      QuotedClose(t);
    } else {
      var tail := DoubleQuotes(v[1..]) + ("\"" + t);
      assert DoubleQuotes(v) + ("\"" + t) == QuotePiece(v[0]) + tail;
      ParseQuotedValue(v[1..], t);
      if v[0] == '"' {
        QuotedPairStep(tail);
      } else {
        QuotedPlainStep(v[0], tail);
      }
      assert [v[0]] + v[1..] == v;
    }
  }

  /** Reading an escaped cell, followed by a boundary, gives back the cell. */
  lemma ParseFieldEscape(v: string, t: string)
    requires AtBoundary(t)
    ensures ParseField(EscapeValue(v) + t) == Some((v, t))
  {
    if NeedsQuotes(v) {
      ParseFieldQuoted(v, t);
    } else {
      ParseFieldPlain(v, t);
    }
  }

  lemma ParseFieldQuoted(v: string, t: string)
    requires AtBoundary(t) && NeedsQuotes(v)
    ensures ParseField(EscapeValue(v) + t) == Some((v, t))
  {
    var body := DoubleQuotes(v) + ("\"" + t);
    EscapedShape(v, t);
    ParseQuotedValue(v, t);
    ParseFieldOpenQuote(body);
  }

  lemma EscapedShape(v: string, t: string)
    requires NeedsQuotes(v)
    ensures EscapeValue(v) + t == "\"" + (DoubleQuotes(v) + ("\"" + t))
  {
  }

  lemma ParseFieldOpenQuote(body: string)
    requires ParseQuoted(body).Some? && AtBoundary(ParseQuoted(body).value.1)
    ensures ParseField("\"" + body) == ParseQuoted(body)
  {
    var s := "\"" + body;
    assert s[0] == '"' && s[1..] == body;
  }

  lemma ParseFieldPlain(v: string, t: string)
    requires AtBoundary(t) && !NeedsQuotes(v)
    ensures ParseField(EscapeValue(v) + t) == Some((v, t))
  {
    var s := v + t;
    ParseBareValue(v, t);
    if |v| > 0 {
      assert s[0] == v[0];
    } else {
      assert s == t;
    }
  }

  lemma RenderRowOne(row: seq<string>)
    requires |row| == 1
    ensures RenderRow(row) == EscapeValue(row[0])
  {
    assert EscapeRow(row) == [EscapeValue(row[0])];
  }

  lemma RenderRowMore(row: seq<string>, t: string)
    requires |row| > 1
    ensures RenderRow(row) + t == EscapeValue(row[0]) + ("," + (RenderRow(row[1..]) + t))
  {
    var cells := EscapeRow(row);
    assert cells[0] == EscapeValue(row[0]) && cells[1..] == EscapeRow(row[1..]);
  }

  lemma RecordLast(s: string, v: string, t: string)
    requires ParseField(s) == Some((v, t))
    requires |t| == 0 || t[0] == '\n'
    ensures ParseRecord(s) == Some(([v], t))
  {
  }

  lemma RecordMore(s: string, v: string, rest: string, cells: seq<string>, t: string)
    requires ParseField(s) == Some((v, "," + rest))
    requires ParseRecord(rest) == Some((cells, t))
    ensures ParseRecord(s) == Some(([v] + cells, t))
  {
    var after := "," + rest;
    assert after[0] == ',' && after[1..] == rest;
  }

  /** Reading a rendered record gives back its cells. */
  lemma {:induction false} ParseRecordRender(row: seq<string>, t: string)
    requires |row| > 0
    requires |t| == 0 || t[0] == '\n'
    ensures ParseRecord(RenderRow(row) + t) == Some((row, t))
  {
    if |row| == 1 {
      RenderRowOne(row);
      ParseFieldEscape(row[0], t);
      RecordLast(RenderRow(row) + t, row[0], t);
      assert [row[0]] == row;
    } else {
      var rest := RenderRow(row[1..]) + t;
      RenderRowMore(row, t);
      ParseFieldEscape(row[0], "," + rest);
      ParseRecordRender(row[1..], t);
      RecordMore(RenderRow(row) + t, row[0], rest, row[1..], t);
      assert [row[0]] + row[1..] == row;
    }
  }

  lemma RenderOne(rows: seq<seq<string>>)
    requires |rows| == 1
    ensures Render(rows) == RenderRow(rows[0])
  {
    assert RenderRows(rows) == [RenderRow(rows[0])];
  }

  lemma RenderMore(rows: seq<seq<string>>)
    requires |rows| > 1
    ensures Render(rows) == RenderRow(rows[0]) + ("\n" + Render(rows[1..]))
  {
    var lines := RenderRows(rows);
    assert lines[0] == RenderRow(rows[0]) && lines[1..] == RenderRows(rows[1..]);
  }

  lemma DocumentLast(s: string, cells: seq<string>)
    requires ParseRecord(s) == Some((cells, []))
    ensures ParseDocument(s) == Some([cells])
  {
  }

  lemma DocumentMore(s: string, cells: seq<string>, rest: string, records: seq<seq<string>>)
    requires ParseRecord(s) == Some((cells, "\n" + rest))
    requires ParseDocument(rest) == Some(records)
    ensures ParseDocument(s) == Some([cells] + records)
  {
    var after := "\n" + rest;
    assert after[1..] == rest;
  }

  /** Reading a rendered document gives back its records. */
  lemma {:induction false} ParseDocumentRender(rows: seq<seq<string>>)
    requires |rows| > 0
    requires forall i :: 0 <= i < |rows| ==> |rows[i]| > 0
    ensures ParseDocument(Render(rows)) == Some(rows)
  {
    if |rows| == 1 {
      RenderOne(rows);
      ParseRecordRender(rows[0], []);
      assert RenderRow(rows[0]) + [] == RenderRow(rows[0]);
      DocumentLast(Render(rows), rows[0]);
      assert [rows[0]] == rows;
    } else {
      var rest := Render(rows[1..]);
      RenderMore(rows);
      ParseRecordRender(rows[0], "\n" + rest);
      ParseDocumentRender(rows[1..]);
      DocumentMore(Render(rows), rows[0], rest, rows[1..]);
      assert [rows[0]] + rows[1..] == rows;
    }
  }

  /** Cells that need no quoting are rendered as they are. */
  lemma {:induction false} EscapeRowPlain(row: seq<string>)
    requires forall i :: 0 <= i < |row| ==> !NeedsQuotes(row[i])
    ensures EscapeRow(row) == row
  {
    if |row| > 0 {
      EscapeRowPlain(row[1..]);
      assert [row[0]] + row[1..] == row;
    }
  }

  // The header lemmas take the header record as a parameter so that the verifier
  // does not evaluate the rendering of the literal eagerly.

  /** None of the header cells needs quoting. */
  lemma HeaderCellsPlain(h: seq<string>)
    requires h == Headers
    ensures EscapeRow(h) == h
  {
    assert !NeedsQuotes(h[0]);
    assert !NeedsQuotes(h[1]);
    assert !NeedsQuotes(h[2]);
    assert !NeedsQuotes(h[3]);
    assert !NeedsQuotes(h[4]);
    EscapeRowPlain(h);
  }

  lemma HeaderJoin()
    ensures Text.Join(",", Headers) == HeaderLine
  {
  }

  /** The header record, rendered, is the header line. */
  lemma HeaderRendering(h: seq<string>)
    requires h == Headers
    ensures RenderRow(h) == HeaderLine
  {
    HeaderCellsPlain(h);
    HeaderJoin();
  }

  /** The file's first line is exactly the header line. */
  lemma ExportStartsWithHeaderLine(regs: seq<AdminRegistration>, toIso: Timestamp -> string)
    requires |regs| > 0
    ensures var doc := ExportRegistrationsToCsv(regs, toIso);
      && doc.Some?
      && |doc.value| > |HeaderLine|
      && doc.value[..|HeaderLine| + 1] == HeaderLine + "\n"
  {
    var rows := [Headers] + Rows(regs, toIso);
    assert rows[0] == Headers && rows[1..] == Rows(regs, toIso);
    var lines := RenderRows(rows);
    assert lines[0] == RenderRow(Headers) && lines[1..] == RenderRows(rows[1..]);
    var rest := Render(rows[1..]);
    assert Render(rows) == RenderRow(Headers) + "\n" + rest;
    HeaderRendering(Headers);
    assert (HeaderLine + "\n" + rest)[..|HeaderLine| + 1] == HeaderLine + "\n";
  }
}
