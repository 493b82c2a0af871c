/** The loops of `tsv.rs`, proved against the functions in `Tsv`. */
module TsvTable {
  import opened Wrappers
  import opened Tsv

  method EscapeField(field: string) returns (escaped: string)
    ensures escaped == Escape(field)
  {
    escaped := [];
    for k := 0 to |field|
      invariant escaped + Escape(field[k..]) == Escape(field)
    {
      escaped := escaped + EscapeChar(field[k]);
      assert field[k..][1..] == field[k + 1..];
    }
  }

  method UnescapeField(field: string) returns (r: Result<string, TsvError>)
    ensures r == Unescape(field)
  {
    var plain: string := [];
    var k := 0;
    PrependNothing(Unescape(field));
    assert field[0..] == field;
    while k < |field|
      invariant k <= |field|
      invariant Unescape(field) == Prepend(plain, Unescape(field[k..]))
    {
      var rest := field[k..];
      if field[k] != '\\' {
        PrependTwice(plain, [field[k]], Unescape(rest[1..]));
        assert rest[1..] == field[k + 1..];
        plain := plain + [field[k]];
        k := k + 1;
      } else if k + 1 == |field| {
        return Err(DanglingBackslash);
      } else {
        var c := UnescapeChar(field[k + 1]);
        if c.None? {
          return Err(UnknownEscape(field[k + 1]));
        }
        PrependTwice(plain, [c.value], Unescape(rest[2..]));
        assert rest[2..] == field[k + 2..];
        plain := plain + [c.value];
        k := k + 2;
      }
    }
    assert plain + [] == plain;
    r := Ok(plain);
  }

  lemma PrependTwice<T>(a: seq<T>, b: seq<T>, r: Result<seq<T>, TsvError>)
    ensures Prepend(a, Prepend(b, r)) == Prepend(a + b, r)
  {
    if r.Ok? {
      assert a + (b + r.value) == (a + b) + r.value;
    }
  }

  lemma PrependNothing<T>(r: Result<seq<T>, TsvError>)
    ensures Prepend([], r) == r
  {
    if r.Ok? {
      assert [] + r.value == r.value;
    }
  }

  lemma RenderFrom(rows: seq<seq<string>>, k: nat)
    requires k < |rows|
    ensures RenderRows(rows[k..]) == Join(rows[k]) + "\n" + RenderRows(rows[k + 1..])
  {
    assert rows[k..][0] == rows[k] && rows[k..][1..] == rows[k + 1..];
  }

  lemma AppendRow(text: string, line: string, rest: string)
    ensures text + (line + "\n" + rest) == text + line + "\n" + rest
  {
  }

  class Table {
    var header: seq<string>
    var rows: seq<seq<string>>

    ghost function Contents(): Sheet
      reads this
    {
      Sheet(header, rows)
    }

    constructor (header: seq<string>)
      ensures Contents() == Sheet(header, [])
    {
      this.header, this.rows := header, [];
    }

    method Push(row: seq<string>) returns (r: Result<(), TsvError>)
      modifies this`rows
      ensures r == if |row| == |header| then Ok(()) else Err(WrongWidth(|row|, |header|))
      ensures rows == if r.Ok? then old(rows) + [row] else old(rows)
      ensures old(WellFormed(Contents())) ==> WellFormed(Contents())
    {
      if |row| != |header| {
        return Err(WrongWidth(|row|, |header|));
      }
      rows := rows + [row];
      r := Ok(());
    }

    method RenderText() returns (text: string)
      ensures text == Render(Contents())
    {
      hide Join, RenderRows;
      text := Join(header) + "\n";
      assert rows[0..] == rows;
      for k := 0 to |rows|
        invariant text + RenderRows(rows[k..]) == Render(Contents())
      {
        RenderFrom(rows, k);
        AppendRow(text, Join(rows[k]), RenderRows(rows[k + 1..]));
        text := text + Join(rows[k]) + "\n";
      }
      NothingRendered();
      assert rows[|rows|..] == [] && text + [] == text;
    }

    static method ParseText(text: string) returns (r: Result<Table, TsvError>)
      ensures r.Ok? ==> fresh(r.value)
      ensures match Parse(text)
              case Ok(t) => r.Ok? && r.value.Contents() == t && WellFormed(t)
              case Err(e) => r == Err(e)
    {
      var lines := Lines(text);
      if lines == [] {
        return Err(EmptyTable);
      }
      var header :- Split(lines[0]);
      var table := new Table(header);
      var rest := lines[1..];
      PrependNothing(ParseRows(rest, |header|));
      assert rest[0..] == rest;
      for k := 0 to |rest|
        invariant table.header == header && WellFormed(table.Contents())
        invariant ParseRows(rest, |header|) == Prepend(table.rows, ParseRows(rest[k..], |header|))
      {
        assert rest[k..][0] == rest[k] && rest[k..][1..] == rest[k + 1..];
        if rest[k] == [] {
          continue;
        }
        var row :- Split(rest[k]);
        PrependTwice(table.rows, [row], ParseRows(rest[k + 1..], |header|));
        var pushed := table.Push(row);
        if pushed.Err? {
          return Err(pushed.error);
        }
      }
      assert table.rows + [] == table.rows;
      r := Ok(table);
    }
  }

  /** The text that `append` writes after what the file already holds. */
  method Append(existing: string, header: seq<string>, rows: seq<seq<string>>) returns (r: Result<string, TsvError>)
    ensures r == AppendText(existing, header, rows)
    ensures r.Err? <==>
              || (existing != [] && (if Lines(existing) == [] then [] else Lines(existing)[0]) != Join(header))
              || exists k | 0 <= k < |rows| :: |rows[k]| != |header|
  {
    AppendRefusals(existing, header, rows);
    hide Join, RenderRows, Lines;
    var text: string := [];
    if existing == [] {
      text := Join(header) + "\n";
    } else {
      var lines := Lines(existing);
      var first := if lines == [] then [] else lines[0];
      if first != Join(header) {
        return Err(DifferentHeader);
      }
      if existing[|existing| - 1] != '\n' {
        text := "\n";
      }
    }
    ghost var lead := text;
    assert AppendLead(existing, header) == Ok(lead);
    assert rows[0..] == rows;
    for k := 0 to |rows|
      invariant text + RenderRows(rows[k..]) == lead + RenderRows(rows)
      invariant WidthError(rows, |header|) == WidthError(rows[k..], |header|)
    {
      RenderFrom(rows, k);
      assert rows[k..][0] == rows[k] && rows[k..][1..] == rows[k + 1..];
      if |rows[k]| != |header| {
        return Err(WrongWidth(|rows[k]|, |header|));
      }
      AppendRow(text, Join(rows[k]), RenderRows(rows[k + 1..]));
      text := text + Join(rows[k]) + "\n";
    }
    NothingRendered();
    assert text + [] == text;
    r := Ok(text);
  }
}
