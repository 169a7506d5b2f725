/** A query result printed as JSON, and a JSON reader that recovers it. */
module JsonRows {
  import opened Text

  // A byte is a character with the byte's value; nothing below looks at characters above 0x7F.

  /** A cell's text, or SQL NULL. */
  type Cell = Option<string>

  /** A result set: column names, and rows of one cell per column. */
  datatype Table = Table(columns: seq<string>, rows: seq<seq<Cell>>)

  predicate Rectangular(t: Table) {
    forall r :: 0 <= r < |t.rows| ==> |t.rows[r]| == |t.columns|
  }

  // The printer.

  function HexDigit(d: int): (c: char)
    requires 0 <= d < 16
  {
    if d < 10 then '0' + d as char else 'a' + (d - 10) as char
  }

  function EscapeChar(c: char): string {
    if c == '"' then "\\\""
    else if c == '\\' then "\\\\"
    else if c == '\n' then "\\n"
    else if c == '\r' then "\\r"
    else if c == '\t' then "\\t"
    else if c as int < 0x20 then "\\u00" + [HexDigit(c as int / 16), HexDigit(c as int % 16)]
    else [c]
  }

  function Escaped(value: string): string {
    if value == [] then [] else EscapeChar(value[0]) + Escaped(value[1..])
  }

  lemma {:induction false} EscapedAppend(a: string, c: char)
    ensures Escaped(a + [c]) == Escaped(a) + EscapeChar(c)
  {
    if a == [] {
      assert Escaped([c][1..]) == [];
      assert a + [c] == [c];
    } else {
      assert (a + [c])[1..] == a[1..] + [c];
      EscapedAppend(a[1..], c);
    }
  }

  method EscapeJson(value: string) returns (out: string)
    ensures out == Escaped(value)
  {
    out := [];
    for i := 0 to |value|
      invariant out == Escaped(value[..i])
    {
      EscapedAppend(value[..i], value[i]);
      assert value[..i + 1] == value[..i] + [value[i]];
      out := out + EscapeChar(value[i]);
    }
    assert value[..|value|] == value;
  }

  function QuotedText(s: string): string {
    "\"" + Escaped(s) + "\""
  }

  function CellText(cell: Cell): string {
    match cell case None => "null" case Some(text) => QuotedText(text)
  }

  /** One member, with the comma before it unless it is the first. */
  function MemberText(columns: seq<string>, row: seq<Cell>, k: nat): string
    requires k < |row| == |columns|
  {
    (if k > 0 then "," else "") + (QuotedText(columns[k]) + ":" + CellText(row[k]))
  }

  function MembersText(columns: seq<string>, row: seq<Cell>, k: nat): string
    requires |columns| == |row|
    decreases |row| - k
  {
    if k >= |row| then [] else MemberText(columns, row, k) + MembersText(columns, row, k + 1)
  }

  function RowText(columns: seq<string>, row: seq<Cell>): string
    requires |columns| == |row|
  {
    "{" + MembersText(columns, row, 0) + "}"
  }

  function RowsText(t: Table, r: nat): string
    requires Rectangular(t)
    decreases |t.rows| - r
  {
    if r >= |t.rows| then []
    else (if r > 0 then "," else "") + RowText(t.columns, t.rows[r]) + RowsText(t, r + 1)
  }

  function TableText(t: Table): string
    requires Rectangular(t)
  {
    "[" + RowsText(t, 0) + "]"
  }

  method PrintMember(columns: seq<string>, row: seq<Cell>, k: nat, before: string) returns (out: string)
    requires k < |row| == |columns|
    ensures out == before + MemberText(columns, row, k)
  {
    hide Escaped;
    out := before;
    if k > 0 {
      out := out + ",";
    }
    var name := EscapeJson(columns[k]);
    var member := "\"" + name + "\"" + ":";
    if row[k].None? {
      member := member + "null";
    } else {
      var text := EscapeJson(row[k].value);
      member := member + ("\"" + text + "\"");
    }
    out := out + member;
  }

  method PrintRow(columns: seq<string>, row: seq<Cell>, before: string) returns (out: string)
    requires |row| == |columns|
    ensures out == before + RowText(columns, row)
  {
    hide MemberText;
    out := before + "{";
    for k := 0 to |columns|
      invariant out + MembersText(columns, row, k) == before + ("{" + MembersText(columns, row, 0))
    {
      ghost var rest := MembersText(columns, row, k + 1);
      assert out + (MemberText(columns, row, k) + rest) == (out + MemberText(columns, row, k)) + rest;
      out := PrintMember(columns, row, k, out);
    }
    assert out == before + ("{" + MembersText(columns, row, 0));
    out := out + "}";
    assert out == before + RowText(columns, row);
  }

  /** The printing loops over rows and columns. */
  method RowsToJson(t: Table) returns (out: string)
    requires Rectangular(t)
    ensures out == TableText(t)
  {
    hide RowText;
    out := "[";
    for r := 0 to |t.rows|
      invariant out + RowsText(t, r) == "[" + RowsText(t, 0)
    {
      ghost var before, rest := out, RowsText(t, r + 1);
      var comma := if r > 0 then "," else "";
      assert before + (comma + RowText(t.columns, t.rows[r]) + rest) == (before + comma) + RowText(t.columns, t.rows[r]) + rest;
      if r > 0 {
        out := out + ",";
      }
      assert out == before + comma;
      out := PrintRow(t.columns, t.rows[r], out);
    }
    out := out + "]";
  }

  // The reader: arrays, objects, strings and null, as in sections 2 to 7 of RFC 8259. A \u escape stands for the
  // character of that code; surrogate halves are refused.

  type Row = seq<(string, Cell)>

  predicate IsBlank(c: char) {
    c == ' ' || c == '\t' || c == '\n' || c == '\r'
  }

  function Trim(s: string): (rest: string)
    ensures |rest| <= |s|
  {
    if s != [] && IsBlank(s[0]) then Trim(s[1..]) else s
  }

  function HexValue(c: char): Option<int> {
    if '0' <= c <= '9' then Some(c as int - '0' as int)
    else if 'a' <= c <= 'f' then Some(c as int - 'a' as int + 10)
    else if 'A' <= c <= 'F' then Some(c as int - 'A' as int + 10)
    else None
  }

  function ReadUnicode(s: string): (r: Option<(char, string)>)
    ensures r.Some? ==> |r.value.1| < |s|
  {
    if |s| < 4 then None
    else
      match (HexValue(s[0]), HexValue(s[1]), HexValue(s[2]), HexValue(s[3]))
      case (Some(a), Some(b), Some(c), Some(d)) =>
        var code := 4096 * a + 256 * b + 16 * c + d;
        if 0 <= code < 0xD800 || 0xE000 <= code < 0x10000 then Some((code as char, s[4..])) else None
      case _ => None
  }

  /** What follows a backslash. */
  function ReadEscape(s: string): (r: Option<(char, string)>)
    ensures r.Some? ==> |r.value.1| < |s|
  {
    if s == [] then None
    else if s[0] == '"' || s[0] == '\\' || s[0] == '/' then Some((s[0], s[1..]))
    else if s[0] == 'b' then Some((8 as char, s[1..]))
    else if s[0] == 'f' then Some((12 as char, s[1..]))
    else if s[0] == 'n' then Some(('\n', s[1..]))
    else if s[0] == 'r' then Some(('\r', s[1..]))
    else if s[0] == 't' then Some(('\t', s[1..]))
    else if s[0] == 'u' then ReadUnicode(s[1..])
    else None
  }

  /** One character of a string body, and what is left. */
  function ReadChar(s: string): (r: Option<(char, string)>)
    ensures r.Some? ==> |r.value.1| < |s|
  {
    if s == [] || s[0] == '"' || s[0] as int < 0x20 then None
    else if s[0] == '\\' then ReadEscape(s[1..])
    else Some((s[0], s[1..]))
  }

  /** A string body up to its closing quote. */
  function ReadBody(s: string): (r: Option<(string, string)>)
    ensures r.Some? ==> |r.value.1| < |s|
    decreases |s|
  {
    if s != [] && s[0] == '"' then Some(([], s[1..]))
    else
      match ReadChar(s)
      case None => None
      case Some((c, rest)) =>
        match ReadBody(rest)
        case None => None
        case Some((text, end)) => Some(([c] + text, end))
  }

  function ReadString(s: string): (r: Option<(string, string)>)
    ensures r.Some? ==> |r.value.1| < |s|
  {
    if s == [] || s[0] != '"' then None else ReadBody(s[1..])
  }

  function ReadCell(s: string): (r: Option<(Cell, string)>)
    ensures r.Some? ==> |r.value.1| < |s|
  {
    if "null" <= s then Some((None, s[4..]))
    else
      match ReadString(s)
      case None => None
      case Some((text, rest)) => Some((Some(text), rest))
  }

  /** `name : value` */
  function ReadMember(s: string): (r: Option<((string, Cell), string)>)
    ensures r.Some? ==> |r.value.1| < |s|
  {
    match ReadString(Trim(s))
    case None => None
    case Some((name, afterName)) =>
      var colon := Trim(afterName);
      if colon == [] || colon[0] != ':' then None
      else
        match ReadCell(Trim(colon[1..]))
        case None => None
        case Some((cell, rest)) => Some(((name, cell), rest))
  }

  /** One or more members and the closing brace. */
  function ReadMembers(s: string): (r: Option<(Row, string)>)
    ensures r.Some? ==> |r.value.1| < |s|
    decreases |s|
  {
    match ReadMember(s)
    case None => None
    case Some((member, afterMember)) =>
      var next := Trim(afterMember);
      if next == [] then None
      else if next[0] == '}' then Some(([member], next[1..]))
      else if next[0] != ',' then None
      else
        match ReadMembers(next[1..])
        case None => None
        case Some((members, rest)) => Some(([member] + members, rest))
  }

  function ReadObject(s: string): (r: Option<(Row, string)>)
    ensures r.Some? ==> |r.value.1| < |s|
  {
    var open := Trim(s);
    if open == [] || open[0] != '{' then None
    else
      var inner := Trim(open[1..]);
      if inner != [] && inner[0] == '}' then Some(([], inner[1..])) else ReadMembers(inner)
  }

  function ReadObjects(s: string): (r: Option<(seq<Row>, string)>)
    decreases |s|
  {
    match ReadObject(s)
    case None => None
    case Some((row, afterRow)) =>
      var next := Trim(afterRow);
      if next == [] then None
      else if next[0] == ']' then Some(([row], next[1..]))
      else if next[0] != ',' then None
      else
        match ReadObjects(next[1..])
        case None => None
        case Some((rows, rest)) => Some(([row] + rows, rest))
  }

  /** A whole JSON text: an array of objects and nothing else. */
  function ReadArray(s: string): Option<seq<Row>> {
    var open := Trim(s);
    if open == [] || open[0] != '[' then None
    else
      var inner := Trim(open[1..]);
      if inner != [] && inner[0] == ']' then (if Trim(inner[1..]) == [] then Some([]) else None)
      else
        match ReadObjects(inner)
        case None => None
        case Some((rows, rest)) => if Trim(rest) == [] then Some(rows) else None
  }

  // Reading undoes printing.

  lemma ReadEscapedChar(c: char, rest: string)
    ensures EscapeChar(c) != [] && (EscapeChar(c) + rest)[0] != '"'
    ensures ReadChar(EscapeChar(c) + rest) == Some((c, rest))
  {
    var s := EscapeChar(c) + rest;
    if |EscapeChar(c)| == 1 {
      assert s[1..] == rest;
    } else if |EscapeChar(c)| == 2 {
      assert s[1..][1..] == rest;
    } else {
      var hex := s[1..][1..];
      assert hex[..4] == ['0', '0', HexDigit(c as int / 16), HexDigit(c as int % 16)];
      assert hex[4..] == rest;
      assert 16 * (c as int / 16) + c as int % 16 == c as int;
    }
  }

  /** A printed string ends, for the reader, at its printed closing quote and nowhere before. */
  lemma {:induction false} ReadEscaped(value: string, rest: string)
    ensures ReadBody(Escaped(value) + ("\"" + rest)) == Some((value, rest))
  {
    hide EscapeChar, ReadChar;
    var s := Escaped(value) + ("\"" + rest);
    if value == [] {
      assert s[1..] == rest;
    } else {
      var tail := Escaped(value[1..]) + ("\"" + rest);
      assert s == EscapeChar(value[0]) + tail;
      ReadEscapedChar(value[0], tail);
      ReadEscaped(value[1..], rest);
      assert [value[0]] + value[1..] == value;
    }
  }

  lemma ReadQuoted(value: string, rest: string)
    ensures ReadString(QuotedText(value) + rest) == Some((value, rest))
    ensures QuotedText(value) != [] && QuotedText(value)[0] == '"'
  {
    hide Escaped, ReadBody;
    ReadEscaped(value, rest);
    assert (QuotedText(value) + rest)[1..] == Escaped(value) + ("\"" + rest);
  }

  /** NULL and the text "null" stay apart. */
  lemma ReadPrintedCell(cell: Cell, rest: string)
    ensures ReadCell(CellText(cell) + rest) == Some((cell, rest))
    ensures CellText(cell) != [] && !IsBlank(CellText(cell)[0])
  {
    hide QuotedText, ReadString;
    match cell
    case None =>
      assert ("null" + rest)[4..] == rest;
    case Some(text) =>
      ReadQuoted(text, rest);
      assert (QuotedText(text) + rest)[0] == '"' && "null"[0] == 'n';
  }

  function Pair(columns: seq<string>, row: seq<Cell>, k: nat): string
    requires k < |row| == |columns|
  {
    QuotedText(columns[k]) + ":" + CellText(row[k])
  }

  lemma ReadPrintedMember(columns: seq<string>, row: seq<Cell>, k: nat, rest: string)
    requires k < |row| == |columns|
    ensures ReadMember(Pair(columns, row, k) + rest) == Some(((columns[k], row[k]), rest))
    ensures Pair(columns, row, k) != [] && Pair(columns, row, k)[0] == '"'
  {
    hide QuotedText, CellText, ReadString, ReadCell;
    var value := CellText(row[k]) + rest;
    assert Pair(columns, row, k) + rest == QuotedText(columns[k]) + (":" + value);
    ReadQuoted(columns[k], ":" + value);
    ReadPrintedCell(row[k], rest);
    assert (":" + value)[1..] == value;
  }

  function Members(columns: seq<string>, row: seq<Cell>, k: nat): (r: Row)
    requires |row| == |columns| && k <= |row|
  {
    seq(|row| - k, i requires 0 <= i < |row| - k => (columns[k + i], row[k + i]))
  }

  lemma LastMember(s: string, member: (string, Cell), rest: string)
    requires ReadMember(s) == Some((member, "}" + rest))
    ensures ReadMembers(s) == Some(([member], rest))
  {
    hide ReadMember;
    assert ("}" + rest)[1..] == rest;
  }

  lemma OneMoreMember(s: string, member: (string, Cell), next: string)
    requires ReadMember(s) == Some((member, "," + next)) && ReadMembers(next).Some?
    ensures ReadMembers(s) == Some(([member] + ReadMembers(next).value.0, ReadMembers(next).value.1))
  {
    hide ReadMember;
    assert ("," + next)[1..] == next;
  }

  lemma {:induction false} ReadPrintedMembers(columns: seq<string>, row: seq<Cell>, k: nat, rest: string)
    requires k < |row| == |columns|
    ensures ReadMembers(Pair(columns, row, k) + (MembersText(columns, row, k + 1) + ("}" + rest)))
            == Some((Members(columns, row, k), rest))
    decreases |row| - k
  {
    hide Pair, ReadMember, ReadMembers, MemberText;
    var tail := MembersText(columns, row, k + 1) + ("}" + rest);
    var s := Pair(columns, row, k) + tail;
    ReadPrintedMember(columns, row, k, tail);
    if k + 1 == |row| {
      assert tail == "}" + rest;
      LastMember(s, (columns[k], row[k]), rest);
      assert Members(columns, row, k) == [(columns[k], row[k])];
    } else {
      var next := Pair(columns, row, k + 1) + (MembersText(columns, row, k + 2) + ("}" + rest));
      MemberIsPair(columns, row, k + 1);
      assert tail == "," + next;
      ReadPrintedMembers(columns, row, k + 1, rest);
      OneMoreMember(s, (columns[k], row[k]), next);
      assert Members(columns, row, k) == [(columns[k], row[k])] + Members(columns, row, k + 1);
    }
  }

  lemma MemberIsPair(columns: seq<string>, row: seq<Cell>, k: nat)
    requires k < |row| == |columns|
    ensures MemberText(columns, row, k) == (if k > 0 then "," else "") + Pair(columns, row, k)
  {
    hide QuotedText, CellText;
  }

  lemma ReadPrintedRow(columns: seq<string>, row: seq<Cell>, rest: string)
    requires |row| == |columns|
    ensures ReadObject(RowText(columns, row) + rest) == Some((Members(columns, row, 0), rest))
    ensures RowText(columns, row)[0] == '{'
  {
    hide ReadMembers, Pair, MemberText;
    var s := RowText(columns, row) + rest;
    var inner := MembersText(columns, row, 0) + ("}" + rest);
    assert s[1..] == inner;
    if row == [] {
      assert inner[1..] == rest;
      assert Members(columns, row, 0) == [];
    } else {
      MemberIsPair(columns, row, 0);
      assert "" + Pair(columns, row, 0) == Pair(columns, row, 0);
      assert inner == Pair(columns, row, 0) + (MembersText(columns, row, 1) + ("}" + rest));
      ReadPrintedMember(columns, row, 0, []);
      ReadPrintedMembers(columns, row, 0, rest);
    }
  }

  /** What the reader should find: in each row, every column name with that row's cell, in column order. */
  function Recovered(t: Table, r: nat): seq<Row>
    requires Rectangular(t) && r <= |t.rows|
  {
    seq(|t.rows| - r, i requires 0 <= i < |t.rows| - r => Members(t.columns, t.rows[r + i], 0))
  }

  lemma {:induction false} ReadPrintedRows(t: Table, r: nat)
    requires Rectangular(t) && r < |t.rows|
    ensures ReadObjects(RowText(t.columns, t.rows[r]) + (RowsText(t, r + 1) + "]")) == Some((Recovered(t, r), []))
    decreases |t.rows| - r
  {
    hide RowText, ReadObject, Members;
    var tail := RowsText(t, r + 1) + "]";
    ReadPrintedRow(t.columns, t.rows[r], tail);
    if r + 1 == |t.rows| {
      assert tail == "]" && tail[1..] == [];
      assert Recovered(t, r) == [Members(t.columns, t.rows[r], 0)];
    } else {
      var more := RowText(t.columns, t.rows[r + 1]) + (RowsText(t, r + 2) + "]");
      assert tail == "," + more;
      assert tail[1..] == more;
      ReadPrintedRows(t, r + 1);
      assert Recovered(t, r) == [Members(t.columns, t.rows[r], 0)] + Recovered(t, r + 1);
    }
  }

  /** Every result set survives: the reader recovers the rows in order, each with its column names and exact cells. */
  lemma TableSurvives(t: Table)
    requires Rectangular(t)
    ensures ReadArray(TableText(t)) == Some(Recovered(t, 0))
  {
    hide ReadObjects, RowText;
    var s := TableText(t);
    var inner := RowsText(t, 0) + "]";
    assert s[1..] == inner;
    if t.rows == [] {
      assert inner[1..] == [];
      assert Recovered(t, 0) == [];
    } else {
      var first := RowText(t.columns, t.rows[0]);
      assert RowsText(t, 0) == "" + first + RowsText(t, 1);
      assert inner == first + (RowsText(t, 1) + "]");
      ReadPrintedRow(t.columns, t.rows[0], []);
      assert first[0] == '{';
      ReadPrintedRows(t, 0);
    }
  }
}
