/** `tsv.rs`: how fields, rows and tables are printed and read back. */
module Tsv {
  import opened Wrappers

  datatype TsvError =
    | UnknownEscape(c: char)
    | DanglingBackslash
    | EmptyTable
    | WrongWidth(fields: nat, header: nat)
    | DifferentHeader

  // --------------------------------------------------- the text, as functions

  function EscapeChar(c: char): string {
    if c == '\\' then "\\\\"
    else if c == '\t' then "\\t"
    else if c == '\n' then "\\n"
    else if c == '\r' then "\\r"
    else [c]
  }

  function Escape(field: string): string {
    if field == [] then [] else EscapeChar(field[0]) + Escape(field[1..])
  }

  function UnescapeChar(c: char): Option<char> {
    if c == '\\' then Some('\\')
    else if c == 't' then Some('\t')
    else if c == 'n' then Some('\n')
    else if c == 'r' then Some('\r')
    else None
  }

  function Unescape(field: string): Result<string, TsvError> {
    if field == [] then Ok([])
    else if field[0] != '\\' then Prepend([field[0]], Unescape(field[1..]))
    else if |field| == 1 then Err(DanglingBackslash)
    else
      match UnescapeChar(field[1])
      case None => Err(UnknownEscape(field[1]))
      case Some(c) => Prepend([c], Unescape(field[2..]))
  }

  function Prepend<T>(front: seq<T>, rest: Result<seq<T>, TsvError>): Result<seq<T>, TsvError> {
    match rest
    case Ok(s) => Ok(front + s)
    case Err(e) => Err(e)
  }

  function Join(fields: seq<string>): string {
    if fields == [] then []
    else if |fields| == 1 then Escape(fields[0])
    else Escape(fields[0]) + "\t" + Join(fields[1..])
  }

  /** The first index of a character, or the length. */
  function Find(s: string, c: char): (k: nat)
    ensures k <= |s| && (k < |s| ==> s[k] == c)
    ensures forall j | 0 <= j < k :: s[j] != c
  {
    if s == [] || s[0] == c then 0 else 1 + Find(s[1..], c)
  }

  /** `str::split('\t')`: never empty. */
  function SplitTabs(line: string): seq<string> {
    var k := Find(line, '\t');
    if k == |line| then [line] else [line[..k]] + SplitTabs(line[k + 1..])
  }

  function UnescapeAll(pieces: seq<string>): Result<seq<string>, TsvError> {
    if pieces == [] then Ok([])
    else
      var first :- Unescape(pieces[0]);
      Prepend([first], UnescapeAll(pieces[1..]))
  }

  function Split(line: string): Result<seq<string>, TsvError> {
    UnescapeAll(SplitTabs(line))
  }

  /** `str::lines`: a terminated line may lose a CR, and no empty line follows the last
      terminator. */
  function Lines(text: string): seq<string> {
    if text == [] then []
    else
      var k := Find(text, '\n');
      if k == |text| then [text]
      else [if k > 0 && text[k - 1] == '\r' then text[..k - 1] else text[..k]] + Lines(text[k + 1..])
  }

  datatype Sheet = Sheet(header: seq<string>, rows: seq<seq<string>>)

  predicate WellFormed(t: Sheet) {
    forall k | 0 <= k < |t.rows| :: |t.rows[k]| == |t.header|
  }

  function RenderRows(rows: seq<seq<string>>): string {
    if rows == [] then [] else Join(rows[0]) + "\n" + RenderRows(rows[1..])
  }

  function Render(t: Sheet): string {
    Join(t.header) + "\n" + RenderRows(t.rows)
  }

  function ParseRows(lines: seq<string>, width: nat): Result<seq<seq<string>>, TsvError> {
    if lines == [] then Ok([])
    else if lines[0] == [] then ParseRows(lines[1..], width)
    else
      var row :- Split(lines[0]);
      if |row| != width then Err(WrongWidth(|row|, width))
      else Prepend([row], ParseRows(lines[1..], width))
  }

  function Parse(text: string): Result<Sheet, TsvError> {
    var lines := Lines(text);
    if lines == [] then Err(EmptyTable)
    else
      var header :- Split(lines[0]);
      var rows :- ParseRows(lines[1..], |header|);
      Ok(Sheet(header, rows))
  }

  /** The first row whose width differs from the header's. */
  function WidthError(rows: seq<seq<string>>, width: nat): Option<TsvError> {
    if rows == [] then None
    else if |rows[0]| != width then Some(WrongWidth(|rows[0]|, width))
    else WidthError(rows[1..], width)
  }

  /** What `append` puts before its rows. */
  function AppendLead(existing: string, header: seq<string>): Result<string, TsvError> {
    if existing == [] then Ok(Join(header) + "\n")
    else
      var lines := Lines(existing);
      if (if lines == [] then [] else lines[0]) != Join(header) then Err(DifferentHeader)
      else Ok(if existing[|existing| - 1] != '\n' then "\n" else [])
  }

  /** The text that `append` adds to a file, or the error that leaves it as it was. */
  function AppendText(existing: string, header: seq<string>, rows: seq<seq<string>>): Result<string, TsvError> {
    var lead :- AppendLead(existing, header);
    match WidthError(rows, |header|)
    case Some(e) => Err(e)
    case None => Ok(lead + RenderRows(rows))
  }

  // -------------------------------------------------------------- round trips

  predicate Clean(s: string) {
    forall k | 0 <= k < |s| :: s[k] != '\t' && s[k] != '\n' && s[k] != '\r'
  }

  lemma {:induction false} EscapeIsClean(field: string)
    ensures Clean(Escape(field))
    ensures Escape(field) == [] <==> field == []
  {
    if field != [] {
      EscapeIsClean(field[1..]);
    }
  }

  lemma {:induction false} UnescapeInvertsEscape(field: string)
    ensures Unescape(Escape(field)) == Ok(field)
  {
    if field != [] {
      UnescapeInvertsEscape(field[1..]);
      var e, rest := EscapeChar(field[0]), Escape(field[1..]);
      assert Escape(field)[|e|..] == rest;
      assert [field[0]] + field[1..] == field;
    }
  }

  /** How a character may be spelled: as itself, or as one of four escapes. */
  predicate Spells(piece: string, c: char) {
    || (piece == [c] && c != '\\')
    || (piece == "\\\\" && c == '\\')
    || (piece == "\\t" && c == '\t')
    || (piece == "\\n" && c == '\n')
    || (piece == "\\r" && c == '\r')
  }

  function Concat(pieces: seq<string>): string {
    if pieces == [] then [] else pieces[0] + Concat(pieces[1..])
  }

  /** The pieces spell the text, one character each. */
  predicate Spelling(pieces: seq<string>, text: string) {
    |pieces| == |text| && forall k | 0 <= k < |text| :: Spells(pieces[k], text[k])
  }

  lemma {:induction false} Spelled(field: string) returns (pieces: seq<string>)
    requires Unescape(field).Ok?
    ensures Spelling(pieces, Unescape(field).value) && Concat(pieces) == field
  {
    if field == [] {
      pieces := [];
    } else {
      var n := if field[0] == '\\' then 2 else 1;
      var rest := Spelled(field[n..]);
      pieces := [field[..n]] + rest;
      assert pieces[1..] == rest && field == field[..n] + field[n..];
    }
  }

  lemma PrependAgain(a: string, b: string, r: Result<string, TsvError>)
    ensures Prepend(a, Prepend(b, r)) == Prepend(a + b, r)
    ensures Prepend([], r) == r
  {
    if r.Ok? {
      assert a + (b + r.value) == a + b + r.value && [] + r.value == r.value;
    }
  }

  lemma UnescapeOne(piece: string, c: char, rest: string)
    requires Spells(piece, c)
    ensures Unescape(piece + rest) == Prepend([c], Unescape(rest))
  {
    assert (piece + rest)[|piece|..] == rest;
  }

  lemma {:induction false} SpellingUnescapes(pieces: seq<string>, text: string, rest: string)
    requires Spelling(pieces, text)
    ensures Unescape(Concat(pieces) + rest) == Prepend(text, Unescape(rest))
  {
    hide Unescape, Prepend, Spells;
    if pieces == [] {
      assert Concat(pieces) + rest == rest;
      PrependAgain([], [], Unescape(rest));
    } else {
      SpellingUnescapes(pieces[1..], text[1..], rest);
      var more := Concat(pieces[1..]) + rest;
      assert Concat(pieces) + rest == pieces[0] + more;
      UnescapeOne(pieces[0], text[0], more);
      PrependAgain([text[0]], text[1..], Unescape(rest));
      assert text == [text[0]] + text[1..];
    }
  }

  /** Unescaping reads exactly the spellings of a text. */
  lemma UnescapeReadsSpellings(field: string, text: string)
    ensures Unescape(field) == Ok(text) <==> exists pieces :: Spelling(pieces, text) && Concat(pieces) == field
  {
    if Unescape(field) == Ok(text) {
      var pieces := Spelled(field);
    }
    if pieces :| Spelling(pieces, text) && Concat(pieces) == field {
      SpellingUnescapes(pieces, text, []);
      assert field + [] == field && text + [] == text;
    }
  }

  /** A piece that unescaping stops at. */
  predicate Stops(tail: string, error: TsvError) {
    match error
    case DanglingBackslash => tail == "\\"
    case UnknownEscape(c) => |tail| >= 2 && tail[0] == '\\' && tail[1] == c && c !in {'\\', 't', 'n', 'r'}
    case _ => false
  }

  lemma {:induction false} StoppedAt(field: string) returns (pieces: seq<string>, text: string, tail: string)
    requires Unescape(field).Err?
    ensures Spelling(pieces, text) && field == Concat(pieces) + tail && Stops(tail, Unescape(field).error)
  {
    if |field| == 1 || (field[0] == '\\' && UnescapeChar(field[1]).None?) {
      pieces, text, tail := [], [], field;
    } else {
      var n := if field[0] == '\\' then 2 else 1;
      pieces, text, tail := StoppedAt(field[n..]);
      var rest := pieces;
      pieces := [field[..n]] + rest;
      text := [if n == 1 then field[0] else UnescapeChar(field[1]).value] + text;
      assert pieces[1..] == rest && field == field[..n] + field[n..];
    }
  }

  /** It refuses a field exactly if, after a good beginning, a backslash stands at the end or
      before a character that makes no escape. */
  lemma UnescapeRefuses(field: string, error: TsvError)
    ensures Unescape(field) == Err(error) <==>
              exists pieces, text, tail ::
                Spelling(pieces, text) && field == Concat(pieces) + tail && Stops(tail, error)
  {
    if Unescape(field) == Err(error) {
      var pieces, text, tail := StoppedAt(field);
    }
    if pieces, text, tail :| Spelling(pieces, text) && field == Concat(pieces) + tail && Stops(tail, error) {
      SpellingUnescapes(pieces, text, tail);
    }
  }

  lemma FindConcat(a: string, c: char, b: string)
    requires forall k | 0 <= k < |a| :: a[k] != c
    ensures Find(a + [c] + b, c) == |a|
  {
    var s := a + [c] + b;
    assert s[|a|] == c;
  }

  lemma FindNone(a: string, c: char)
    requires forall k | 0 <= k < |a| :: a[k] != c
    ensures Find(a, c) == |a|
  {
  }

  function EscapeEach(fields: seq<string>): seq<string> {
    if fields == [] then [] else [Escape(fields[0])] + EscapeEach(fields[1..])
  }

  lemma {:induction false} SplitTabsOfJoin(fields: seq<string>)
    requires fields != []
    ensures SplitTabs(Join(fields)) == EscapeEach(fields)
  {
    hide Escape, SplitTabs;
    EscapeIsClean(fields[0]);
    var e := Escape(fields[0]);
    if |fields| == 1 {
      SplitTabsFirst(e, "");
      assert fields[1..] == [];
    } else {
      SplitTabsOfJoin(fields[1..]);
      SplitTabsFirst(e, Join(fields[1..]));
    }
  }

  lemma SplitTabsFirst(e: string, rest: string)
    requires '\t' !in e
    ensures SplitTabs(e) == [e]
    ensures SplitTabs(e + "\t" + rest) == [e] + SplitTabs(rest)
  {
    FindNone(e, '\t');
    FindConcat(e, '\t', rest);
    var line := e + "\t" + rest;
    assert line[..|e|] == e && line[|e| + 1..] == rest;
  }

  lemma {:induction false} UnescapeAllInverts(fields: seq<string>)
    ensures UnescapeAll(EscapeEach(fields)) == Ok(fields)
  {
    hide Escape, Unescape;
    if fields != [] {
      UnescapeInvertsEscape(fields[0]);
      UnescapeAllInverts(fields[1..]);
      assert EscapeEach(fields)[1..] == EscapeEach(fields[1..]);
      assert [fields[0]] + fields[1..] == fields;
    }
  }

  lemma EmptyLineSplits()
    ensures Split([]) == Ok([[]])
  {
    var pieces: seq<string> := [[]];
    assert SplitTabs([]) == pieces;
    assert pieces[1..] == [] && Unescape([]) == Ok([]);
    assert [[]] + [] == pieces;
    assert UnescapeAll(pieces) == Ok(pieces);
  }

  /** A joined line splits into its fields, exactly when there is at least one. */
  lemma SplitInvertsJoin(fields: seq<string>)
    ensures Split(Join(fields)) == Ok(fields) <==> fields != []
  {
    if fields != [] {
      SplitTabsOfJoin(fields);
      UnescapeAllInverts(fields);
    } else {
      EmptyLineSplits();
    }
  }

  /** A joined line holds no line break, and is empty only for no fields or one empty one. */
  lemma {:induction false} JoinIsOneLine(fields: seq<string>)
    ensures forall k | 0 <= k < |Join(fields)| :: Join(fields)[k] != '\n' && Join(fields)[k] != '\r'
    ensures Join(fields) == [] <==> fields == [] || fields == [[]]
  {
    if fields != [] {
      EscapeIsClean(fields[0]);
      if |fields| > 1 {
        JoinIsOneLine(fields[1..]);
      }
    }
  }

  lemma LinesOfLine(line: string, rest: string)
    requires forall k | 0 <= k < |line| :: line[k] != '\n' && line[k] != '\r'
    ensures Lines(line + "\n" + rest) == [line] + Lines(rest)
    ensures line != [] ==> Lines(line) == [line]
  {
    FindConcat(line, '\n', rest);
    FindNone(line, '\n');
    var text := line + "\n" + rest;
    assert text == line + ['\n'] + rest;
    assert text[..|line|] == line && text[|line| + 1..] == rest;
  }

  function JoinAll(rows: seq<seq<string>>): seq<string> {
    if rows == [] then [] else [Join(rows[0])] + JoinAll(rows[1..])
  }

  lemma {:induction false} LinesOfRows(rows: seq<seq<string>>)
    ensures Lines(RenderRows(rows)) == JoinAll(rows)
  {
    if rows != [] {
      LinesOfRows(rows[1..]);
      JoinIsOneLine(rows[0]);
      LinesOfLine(Join(rows[0]), RenderRows(rows[1..]));
    }
  }

  /** The text with CRLF for every LF. */
  function Crlf(text: string): string {
    if text == [] then [] else (if text[0] == '\n' then "\r\n" else [text[0]]) + Crlf(text[1..])
  }

  lemma {:induction false} CrlfOfLine(line: string, rest: string)
    requires forall k | 0 <= k < |line| :: line[k] != '\n'
    ensures Crlf(line + "\n" + rest) == line + "\r\n" + Crlf(rest) && Crlf(line) == line
  {
    var text := line + "\n" + rest;
    if line == [] {
      assert text == "\n" + rest && text[1..] == rest;
    } else {
      CrlfOfLine(line[1..], rest);
      assert text[1..] == line[1..] + "\n" + rest;
    }
  }

  lemma LinesOfCrlf(line: string, rest: string)
    requires forall k | 0 <= k < |line| :: line[k] != '\n'
    ensures Lines(line + "\r\n" + rest) == [line] + Lines(rest)
  {
    FindConcat(line + "\r", '\n', rest);
    var text := line + "\r\n" + rest;
    assert text == line + "\r" + ['\n'] + rest;
    assert text[..|line|] == line && text[|line| + 2..] == rest;
  }

  lemma {:induction false} CrlfLines(text: string)
    requires forall k | 0 <= k < |text| :: text[k] != '\r'
    ensures Lines(Crlf(text)) == Lines(text)
  {
    hide Lines, Crlf, Find;
    var k := Find(text, '\n');
    if k == |text| {
      CrlfOfLine(text, []);
    } else {
      var line, rest := text[..k], text[k + 1..];
      CrlfLines(rest);
      CrlfOfLine(line, rest);
      LinesOfCrlf(line, Crlf(rest));
      LinesOfLine(line, rest);
      assert text == line + "\n" + rest;
    }
  }

  /** A file with CRLF line ends has the same lines, and so holds the same table. */
  lemma CrlfParses(text: string)
    requires forall k | 0 <= k < |text| :: text[k] != '\r'
    ensures Parse(Crlf(text)) == Parse(text)
  {
    CrlfLines(text);
  }

  /** A row that the parser would take for an empty line. */
  predicate IsBlank(row: seq<string>) {
    row == [[]]
  }

  function DropBlank(rows: seq<seq<string>>): seq<seq<string>> {
    if rows == [] then []
    else (if IsBlank(rows[0]) then [] else [rows[0]]) + DropBlank(rows[1..])
  }

  lemma {:induction false} ParseRowsOfJoined(rows: seq<seq<string>>, width: nat)
    requires width > 0 && forall k | 0 <= k < |rows| :: |rows[k]| == width
    ensures ParseRows(JoinAll(rows), width) == Ok(DropBlank(rows))
  {
    if rows != [] {
      ParseRowsOfJoined(rows[1..], width);
      JoinIsOneLine(rows[0]);
      SplitInvertsJoin(rows[0]);
      assert JoinAll(rows)[0] == Join(rows[0]) && JoinAll(rows)[1..] == JoinAll(rows[1..]);
      assert [] + DropBlank(rows[1..]) == DropBlank(rows[1..]);
    }
  }

  lemma {:induction false} DropBlankIsIdentity(rows: seq<seq<string>>)
    ensures |DropBlank(rows)| <= |rows|
    ensures DropBlank(rows) == rows <==> forall k | 0 <= k < |rows| :: !IsBlank(rows[k])
  {
    if rows != [] {
      DropBlankIsIdentity(rows[1..]);
      assert rows == [rows[0]] + rows[1..];
      if !IsBlank(rows[0]) {
        assert DropBlank(rows)[1..] == DropBlank(rows[1..]);
      }
    }
  }

  lemma ParseOfLines(text: string, t: Sheet)
    requires t.header != [] && WellFormed(t) && Lines(text) == [Join(t.header)] + JoinAll(t.rows)
    ensures Parse(text) == Ok(Sheet(t.header, DropBlank(t.rows)))
  {
    SplitInvertsJoin(t.header);
    ParseRowsOfJoined(t.rows, |t.header|);
    assert Lines(text)[1..] == JoinAll(t.rows);
  }

  /** A rendered table parses back to itself, exactly when it has a column and no row is a
      single empty field; every table with two columns or more qualifies. */
  lemma ParseInvertsRender(t: Sheet)
    requires WellFormed(t)
    ensures Parse(Render(t)) == Ok(t) <==> t.header != [] && forall k | 0 <= k < |t.rows| :: !IsBlank(t.rows[k])
  {
    JoinIsOneLine(t.header);
    LinesOfLine(Join(t.header), RenderRows(t.rows));
    LinesOfRows(t.rows);
    DropBlankIsIdentity(t.rows);
    if t.header != [] {
      ParseOfLines(Render(t), t);
    } else {
      EmptyLineSplits();
    }
  }

  /** A table of one column loses a row that is one empty field. */
  lemma EmptyFieldIsLost()
    ensures Parse(Render(Sheet(["a"], [[""]]))) != Ok(Sheet(["a"], [[""]]))
  {
    var t := Sheet(["a"], [[""]]);
    assert IsBlank(t.rows[0]);
    ParseInvertsRender(t);
  }

  // ------------------------------------------------------------------ append

  lemma {:induction false} RenderRowsConcat(a: seq<seq<string>>, b: seq<seq<string>>)
    ensures RenderRows(a + b) == RenderRows(a) + RenderRows(b)
  {
    if a == [] {
      assert a + b == b;
    } else {
      assert (a + b)[1..] == a[1..] + b;
      RenderRowsConcat(a[1..], b);
    }
  }

  lemma {:induction false} NoWidthError(rows: seq<seq<string>>, width: nat)
    ensures WidthError(rows, width).None? <==> forall k | 0 <= k < |rows| :: |rows[k]| == width
  {
    if rows != [] {
      NoWidthError(rows[1..], width);
    }
  }

  lemma RenderOfMore(t: Sheet, rows: seq<seq<string>>)
    ensures Render(t) + RenderRows(rows) == Render(Sheet(t.header, t.rows + rows))
  {
    RenderRowsConcat(t.rows, rows);
  }

  lemma FirstLineIsHeader(t: Sheet, rest: string)
    ensures Lines(Join(t.header) + "\n" + rest) != [] && Lines(Join(t.header) + "\n" + rest)[0] == Join(t.header)
  {
    JoinIsOneLine(t.header);
    LinesOfLine(Join(t.header), rest);
  }

  lemma {:induction false} RowsEndInLine(rows: seq<seq<string>>)
    requires rows != []
    requires forall k | 0 <= k < |rows| :: rows[k] != [] && !IsBlank(rows[k])
    ensures |RenderRows(rows)| >= 2 && RenderRows(rows)[|RenderRows(rows)| - 1] == '\n'
    ensures RenderRows(rows)[|RenderRows(rows)| - 2] != '\n'
  {
    JoinIsOneLine(rows[0]);
    var line := Join(rows[0]);
    if |rows| == 1 {
      assert RenderRows(rows) == line + "\n";
    } else {
      RowsEndInLine(rows[1..]);
      var rest := RenderRows(rows[1..]);
      assert RenderRows(rows) == line + "\n" + rest;
    }
  }

  /** What a file is that holds a table: complete, or without its final newline, or not
      written yet. */
  ghost predicate Holds(file: string, t: Sheet) {
    file == Render(t) || file + "\n" == Render(t) || (file == [] && t.rows == [])
  }

  /** The lead completes the file, and it always accepts the table's own header. */
  lemma LeadCompletes(t: Sheet, file: string)
    requires t.header != [] && WellFormed(t) && forall k | 0 <= k < |t.rows| :: !IsBlank(t.rows[k])
    requires Holds(file, t)
    ensures AppendLead(file, t.header).Ok?
    ensures file + AppendLead(file, t.header).value == Render(t)
  {
    hide Lines, Join, RenderRows;
    if file == Render(t) {
      FirstLineIsHeader(t, RenderRows(t.rows));
      RenderEndsInNewline(t);
    } else if file == [] {
      NothingRendered();
    } else if t.rows == [] {
      LeadAfterHeader(t, file);
    } else {
      LeadAfterRows(t, file);
    }
  }

  lemma NothingRendered()
    ensures RenderRows([]) == []
  {
  }

  lemma LeadAfterHeader(t: Sheet, file: string)
    requires t.rows == [] && file != [] && file + "\n" == Render(t)
    ensures AppendLead(file, t.header) == Ok("\n")
  {
    hide Lines, Join;
    var line := Join(t.header);
    assert file + "\n" == line + "\n";
    assert file == (file + "\n")[..|file|] == line;
    JoinIsOneLine(t.header);
    LinesOfLine(line, []);
  }

  lemma LeadAfterRows(t: Sheet, file: string)
    requires t.header != [] && WellFormed(t) && forall k | 0 <= k < |t.rows| :: !IsBlank(t.rows[k])
    requires t.rows != [] && file + "\n" == Render(t)
    ensures AppendLead(file, t.header) == Ok("\n")
  {
    hide Lines, Join, RenderRows;
    var line, rows := Join(t.header), RenderRows(t.rows);
    RowsEndInLine(t.rows);
    var text := line + "\n" + rows;
    assert file == text[..|text| - 1];
    var cut := rows[..|rows| - 1];
    assert file == line + "\n" + cut;
    FirstLineIsHeader(t, cut);
    assert file[|file| - 1] == rows[|rows| - 2];
  }

  /** Appending to a table's file leaves exactly the file of the longer table. */
  lemma AppendExtendsFile(t: Sheet, file: string, rows: seq<seq<string>>)
    requires t.header != [] && WellFormed(t) && forall k | 0 <= k < |t.rows| :: !IsBlank(t.rows[k])
    requires Holds(file, t)
    requires forall k | 0 <= k < |rows| :: |rows[k]| == |t.header|
    ensures AppendText(file, t.header, rows).Ok?
    ensures file + AppendText(file, t.header, rows).value == Render(Sheet(t.header, t.rows + rows))
  {
    hide Lines, Join, RenderRows, AppendLead, Render;
    NoWidthError(rows, |t.header|);
    RenderOfMore(t, rows);
    LeadCompletes(t, file);
    var lead := AppendLead(file, t.header).value;
    assert file + (lead + RenderRows(rows)) == (file + lead) + RenderRows(rows);
  }

  lemma {:induction false} RowsEndInNewline(rows: seq<seq<string>>)
    requires rows != []
    ensures RenderRows(rows) != [] && RenderRows(rows)[|RenderRows(rows)| - 1] == '\n'
  {
    if |rows| > 1 {
      RowsEndInNewline(rows[1..]);
    }
  }

  lemma RenderEndsInNewline(t: Sheet)
    ensures Render(t) != [] && Render(t)[|Render(t)| - 1] == '\n'
  {
    if t.rows != [] {
      RowsEndInNewline(t.rows);
    }
  }

  /** The appended file parses to the old rows followed by the new ones. */
  lemma AppendThenParse(t: Sheet, file: string, rows: seq<seq<string>>)
    requires t.header != [] && WellFormed(t) && forall k | 0 <= k < |t.rows| :: !IsBlank(t.rows[k])
    requires Holds(file, t)
    requires forall k | 0 <= k < |rows| :: |rows[k]| == |t.header| && !IsBlank(rows[k])
    ensures AppendText(file, t.header, rows).Ok?
    ensures Parse(file + AppendText(file, t.header, rows).value) == Ok(Sheet(t.header, t.rows + rows))
  {
    hide Lines, Join, RenderRows, AppendText, Render, Parse;
    AppendExtendsFile(t, file, rows);
    ParseInvertsRender(Sheet(t.header, t.rows + rows));
  }

  /** `append` refuses exactly a file with another first line and a row of another width. */
  lemma AppendRefusals(existing: string, header: seq<string>, rows: seq<seq<string>>)
    ensures AppendText(existing, header, rows).Err? <==>
            || (existing != [] && (if Lines(existing) == [] then [] else Lines(existing)[0]) != Join(header))
            || exists k | 0 <= k < |rows| :: |rows[k]| != |header|
  {
    NoWidthError(rows, |header|);
  }
}
