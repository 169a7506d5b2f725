/** Values spliced into SQL text as quoted literals, and a scanner that finds them again. */
module SqlText {
  import opened Text

  const QUOTE: char := '\''

  function Doubled(value: string): string {
    if value == [] then []
    else (if value[0] == QUOTE then [QUOTE, QUOTE] else [value[0]]) + Doubled(value[1..])
  }

  lemma {:induction false} DoubledAppend(a: string, c: char)
    ensures Doubled(a + [c]) == Doubled(a) + (if c == QUOTE then [QUOTE, QUOTE] else [c])
  {
    if a == [] {
      assert a + [c] == [c];
      assert Doubled([c][1..]) == [];
    } else {
      assert (a + [c])[1..] == a[1..] + [c];
      DoubledAppend(a[1..], c);
    }
  }

  method EscapeSqlLiteral(value: string) returns (out: string)
    ensures out == Doubled(value)
  {
    out := [];
    for i := 0 to |value|
      invariant out == Doubled(value[..i])
    {
      DoubledAppend(value[..i], value[i]);
      assert value[..i + 1] == value[..i] + [value[i]];
      if value[i] == QUOTE {
        out := out + [QUOTE, QUOTE];
      } else {
        out := out + [value[i]];
      }
    }
    assert value[..|value|] == value;
  }

  /** SQL text: fixed pieces with a quoted value between each two. */
  function Statement(pieces: seq<string>, values: seq<string>): string
    requires |pieces| == |values| + 1
  {
    if values == [] then pieces[0]
    else pieces[0] + [QUOTE] + Doubled(values[0]) + [QUOTE] + Statement(pieces[1..], values[1..])
  }

  /** The fixed pieces hold no quote, and two literals never touch. */
  predicate Fixed(pieces: seq<string>) {
    && (forall k :: 0 <= k < |pieces| ==> QUOTE !in pieces[k])
    && (forall k :: 0 < k < |pieces| - 1 ==> pieces[k] != [])
  }

  const INDEX_HEAD: string :=
    "INSERT INTO " + ("search_documents" + (" (" + ("collection" + (", " + ("id" + (", " + ("data" + (", " +
    ("updated_at" + ") VALUES (")))))))))

  const UPDATES: string :=
    "data" + (" = excluded." + ("data" + (", " + ("updated_at" + (" = excluded." + ("updated_at" + []))))))

  const ON_CONFLICT: string := ") ON CONFLICT (" + ("collection" + (", " + ("id" + (") DO UPDATE SET " + UPDATES))))

  const INDEX_TAIL: string := "::" + ("jsonb" + (", " + ("now" + ("()" + ON_CONFLICT))))

  const INDEX_PIECES: seq<string> := [INDEX_HEAD, ", ", ", ", INDEX_TAIL]

  /** The statement text built by `index`. It is an insertion of the three arguments and the time into their columns, which
      on a conflict of collection and id updates the other two. */
  method IndexSql(collection: string, id: string, document: string) returns (sql: string)
    ensures sql == Statement(INDEX_PIECES, [collection, id, document])
    ensures ReadInsert(sql) == Some(Insert(
              "search_documents",
              ["collection", "id", "data", "updated_at"],
              [Quoted(collection), Quoted(id), Cast(document, "jsonb"), Call("now")],
              ["collection", "id"],
              [Update("data", "data"), Update("updated_at", "updated_at")]))
  {
    IndexIsInsert(collection, id, document);
    hide Doubled, ReadInsert, Statement, INDEX_HEAD, INDEX_TAIL;
    var c := EscapeSqlLiteral(collection);
    var i := EscapeSqlLiteral(id);
    var d := EscapeSqlLiteral(document);
    sql := INDEX_PIECES[0] + [QUOTE] + c + [QUOTE] + (INDEX_PIECES[1] + [QUOTE] + i + [QUOTE] +
           (INDEX_PIECES[2] + [QUOTE] + d + [QUOTE] + INDEX_PIECES[3]));
    ThreeValues(INDEX_PIECES, collection, id, document);
  }

  lemma ThreeValues(p: seq<string>, a: string, b: string, c: string)
    requires |p| == 4
    ensures Statement(p, [a, b, c]) ==
            p[0] + [QUOTE] + Doubled(a) + [QUOTE] + (p[1] + [QUOTE] + Doubled(b) + [QUOTE] +
            (p[2] + [QUOTE] + Doubled(c) + [QUOTE] + p[3]))
  {
    hide Doubled;
    assert [a, b, c][1..] == [b, c] && [b, c][1..] == [c] && [c][1..] == [];
    assert Statement(p[3..], []) == p[3];
    assert Statement(p[2..], [c]) == p[2] + [QUOTE] + Doubled(c) + [QUOTE] + Statement(p[2..][1..], []);
    assert p[2..][1..] == p[3..] && p[1..][1..] == p[2..];
    assert Statement(p[1..], [b, c]) == p[1] + [QUOTE] + Doubled(b) + [QUOTE] + Statement(p[1..][1..], [c]);
  }

  // The scanner: section 5.3 of ISO/IEC 9075-2. Inside a literal two quotes stand for one; a single quote ends it.

  function ReadLiteral(s: string): (r: Option<(string, string)>)
    ensures r.Some? ==> |r.value.1| < |s|
    decreases |s|
  {
    if s == [] then None
    else if s[0] != QUOTE then Prepend(s[0], ReadLiteral(s[1..]))
    else if |s| > 1 && s[1] == QUOTE then Prepend(QUOTE, ReadLiteral(s[2..]))
    else Some(([], s[1..]))
  }

  function Prepend(c: char, r: Option<(string, string)>): Option<(string, string)> {
    match r case None => None case Some((text, rest)) => Some(([c] + text, rest))
  }

  /** The text between literals, and the decoded literals. */
  function Scan(s: string): Option<(seq<string>, seq<string>)>
    decreases |s|
  {
    var open := IndexOf(s, QUOTE, 0);
    if open == |s| then Some(([s], []))
    else
      match ReadLiteral(s[open + 1..])
      case None => None
      case Some((value, rest)) =>
        match Scan(rest)
        case None => None
        case Some((pieces, values)) => Some(([s[..open]] + pieces, [value] + values))
  }

  lemma {:induction false} ReadDoubled(value: string, rest: string)
    requires rest == [] || rest[0] != QUOTE
    ensures ReadLiteral(Doubled(value) + ([QUOTE] + rest)) == Some((value, rest))
  {
    var s := Doubled(value) + ([QUOTE] + rest);
    if value == [] {
      assert s == [QUOTE] + rest && s[1..] == rest;
    } else {
      var tail := Doubled(value[1..]) + ([QUOTE] + rest);
      ReadDoubled(value[1..], rest);
      assert [value[0]] + value[1..] == value;
      if value[0] == QUOTE {
        assert s[2..] == tail;
      } else {
        assert s[1..] == tail;
      }
    }
  }

  /** Whatever the values, the scanner finds exactly the fixed pieces and exactly the values. */
  lemma {:induction false} StatementReadsBack(pieces: seq<string>, values: seq<string>)
    requires |pieces| == |values| + 1 && Fixed(pieces)
    ensures Scan(Statement(pieces, values)) == Some((pieces, values))
  {
    hide Doubled;
    var s := Statement(pieces, values);
    IndexOfIs(s, QUOTE, 0, |pieces[0]|);
    if values == [] {
      assert pieces == [s];
    } else {
      var rest := Statement(pieces[1..], values[1..]);
      assert s[..|pieces[0]|] == pieces[0];
      assert s[|pieces[0]| + 1..] == Doubled(values[0]) + ([QUOTE] + rest);
      assert rest == [] || rest[0] != QUOTE;
      ReadDoubled(values[0], rest);
      StatementReadsBack(pieces[1..], values[1..]);
      assert [pieces[0]] + pieces[1..] == pieces && [values[0]] + values[1..] == values;
    }
  }

  lemma IndexHeadIsFixed()
    ensures QUOTE !in INDEX_HEAD
  {
  }

  lemma IndexTailIsFixed()
    ensures QUOTE !in INDEX_TAIL
  {
    hide ON_CONFLICT;
    assert QUOTE !in ON_CONFLICT by { OnConflictIsFixed(); }
  }

  lemma OnConflictIsFixed()
    ensures QUOTE !in ON_CONFLICT
  {
    hide UPDATES;
    assert QUOTE !in UPDATES by { UpdatesAreFixed(); }
  }

  lemma UpdatesAreFixed()
    ensures QUOTE !in UPDATES
  {
  }

  /** The INSERT text always scans to its fixed skeleton and the three arguments. */
  lemma IndexReadsBack(collection: string, id: string, document: string)
    ensures Scan(Statement(INDEX_PIECES, [collection, id, document])) == Some((INDEX_PIECES, [collection, id, document]))
  {
    hide Statement, Scan, INDEX_HEAD, INDEX_TAIL;
    IndexHeadIsFixed();
    IndexTailIsFixed();
    StatementReadsBack(INDEX_PIECES, [collection, id, document]);
  }

  // A reader of insertions with a conflict clause. Names are lower-case letters and underscores.

  datatype Expr = Quoted(text: string) | Cast(text: string, typeName: string) | Call(name: string)

  /** `column = excluded.source` */
  datatype Update = Update(column: string, source: string)

  datatype Insert = Insert(
    table: string, columns: seq<string>, values: seq<Expr>, target: seq<string>, updates: seq<Update>)

  predicate IsNameChar(c: char) {
    'a' <= c <= 'z' || c == '_'
  }

  predicate IsName(s: string) {
    s != [] && forall i :: 0 <= i < |s| ==> IsNameChar(s[i])
  }

  function NameEnd(s: string, from: nat): (end: nat)
    requires from <= |s|
    ensures from <= end <= |s|
    ensures forall j :: from <= j < end ==> IsNameChar(s[j])
    ensures end < |s| ==> !IsNameChar(s[end])
    decreases |s| - from
  {
    if from < |s| && IsNameChar(s[from]) then NameEnd(s, from + 1) else from
  }

  function ReadName(s: string): (r: Option<(string, string)>)
    ensures r.Some? ==> |r.value.1| < |s|
  {
    var end := NameEnd(s, 0);
    if end == 0 then None else Some((s[..end], s[end..]))
  }

  function ReadExpr(s: string): (r: Option<(Expr, string)>)
    ensures r.Some? ==> |r.value.1| < |s|
  {
    if s != [] && s[0] == QUOTE then
      var (text, rest) :- ReadLiteral(s[1..]);
      if Expect(rest, "::").None? then Some((Quoted(text), rest))
      else
        var (typeName, more) :- ReadName(Expect(rest, "::").value);
        Some((Cast(text, typeName), more))
    else
      var (name, rest) :- ReadName(s);
      var more :- Expect(rest, "()");
      Some((Call(name), more))
  }

  function ReadUpdate(s: string): (r: Option<(Update, string)>)
    ensures r.Some? ==> |r.value.1| < |s|
  {
    var (column, s1) :- ReadName(s);
    var s2 :- Expect(s1, " = excluded.");
    var (source, s3) :- ReadName(s2);
    Some((Update(column, source), s3))
  }

  function ReadNames(s: string): (r: Option<(seq<string>, string)>)
    decreases |s|
  {
    var (head, rest) :- ReadName(s);
    if Expect(rest, ", ").None? then Some(([head], rest))
    else
      var (tail, more) :- ReadNames(Expect(rest, ", ").value);
      Some(([head] + tail, more))
  }

  function ReadExprs(s: string): (r: Option<(seq<Expr>, string)>)
    decreases |s|
  {
    var (head, rest) :- ReadExpr(s);
    if Expect(rest, ", ").None? then Some(([head], rest))
    else
      var (tail, more) :- ReadExprs(Expect(rest, ", ").value);
      Some(([head] + tail, more))
  }

  function ReadUpdates(s: string): (r: Option<(seq<Update>, string)>)
    decreases |s|
  {
    var (head, rest) :- ReadUpdate(s);
    if Expect(rest, ", ").None? then Some(([head], rest))
    else
      var (tail, more) :- ReadUpdates(Expect(rest, ", ").value);
      Some(([head] + tail, more))
  }

  function ReadInsert(s: string): Option<Insert> {
    var s1 :- Expect(s, "INSERT INTO ");
    var (table, s2) :- ReadName(s1);
    var s3 :- Expect(s2, " (");
    var (columns, s4) :- ReadNames(s3);
    var s5 :- Expect(s4, ") VALUES (");
    var (values, s6) :- ReadExprs(s5);
    var s7 :- Expect(s6, ") ON CONFLICT (");
    var (target, s8) :- ReadNames(s7);
    var s9 :- Expect(s8, ") DO UPDATE SET ");
    var (updates, s10) :- ReadUpdates(s9);
    if s10 == [] then Some(Insert(table, columns, values, target, updates)) else None
  }

  // The text of an insertion, each part with the text that follows it.

  function ExprText(e: Expr, rest: string): string {
    match e
    case Quoted(text) => [QUOTE] + (Doubled(text) + ([QUOTE] + rest))
    case Cast(text, typeName) => [QUOTE] + (Doubled(text) + ([QUOTE] + ("::" + (typeName + rest))))
    case Call(name) => name + ("()" + rest)
  }

  function UpdateText(u: Update, rest: string): string {
    u.column + (" = excluded." + (u.source + rest))
  }

  function NamesText(names: seq<string>, rest: string): string
    requires names != []
  {
    if |names| == 1 then names[0] + rest else names[0] + (", " + NamesText(names[1..], rest))
  }

  function ExprsText(exprs: seq<Expr>, rest: string): string
    requires exprs != []
  {
    if |exprs| == 1 then ExprText(exprs[0], rest) else ExprText(exprs[0], ", " + ExprsText(exprs[1..], rest))
  }

  function UpdatesText(updates: seq<Update>, rest: string): string
    requires updates != []
  {
    if |updates| == 1 then UpdateText(updates[0], rest)
    else UpdateText(updates[0], ", " + UpdatesText(updates[1..], rest))
  }

  predicate IsExpr(e: Expr) {
    match e case Quoted(_) => true case Cast(_, typeName) => IsName(typeName) case Call(name) => IsName(name)
  }

  predicate IsInsert(i: Insert) {
    && IsName(i.table)
    && i.columns != [] && (forall k :: 0 <= k < |i.columns| ==> IsName(i.columns[k]))
    && i.values != [] && (forall k :: 0 <= k < |i.values| ==> IsExpr(i.values[k]))
    && i.target != [] && (forall k :: 0 <= k < |i.target| ==> IsName(i.target[k]))
    && i.updates != [] && (forall k :: 0 <= k < |i.updates| ==> IsName(i.updates[k].column) && IsName(i.updates[k].source))
  }

  function AfterValues(i: Insert): string
    requires IsInsert(i)
  {
    ") ON CONFLICT (" + NamesText(i.target, ") DO UPDATE SET " + UpdatesText(i.updates, []))
  }

  function InsertText(i: Insert): string
    requires IsInsert(i)
  {
    "INSERT INTO " + (i.table + (" (" + NamesText(i.columns, ") VALUES (" + ExprsText(i.values, AfterValues(i)))))
  }

  // Reading undoes printing.

  /** What may follow a list item: the end, a comma, or a closing parenthesis. */
  predicate Ends(rest: string) {
    rest == [] || rest[0] == ')' || rest[0] == ','
  }

  /** What may follow a list. */
  predicate EndsList(rest: string) {
    rest == [] || rest[0] == ')'
  }

  lemma EndsListMeans(rest: string)
    requires EndsList(rest)
    ensures Ends(rest) && Expect(rest, ", ").None?
  {
  }

  lemma NameReads(name: string, rest: string)
    requires IsName(name) && (rest == [] || !IsNameChar(rest[0]))
    ensures ReadName(name + rest) == Some((name, rest))
  {
    var s, end := name + rest, NameEnd(name + rest, 0);
    assert forall j :: 0 <= j < |name| ==> s[j] == name[j];
    assert rest != [] ==> s[|name|] == rest[0];
    assert end == |name|;
    assert s[..end] == name && s[end..] == rest;
  }

  lemma LiteralReads(text: string, rest: string)
    requires rest == [] || rest[0] != QUOTE
    ensures var s := [QUOTE] + (Doubled(text) + ([QUOTE] + rest));
            s[0] == QUOTE && ReadLiteral(s[1..]) == Some((text, rest))
  {
    hide Doubled, ReadLiteral;
    var s := [QUOTE] + (Doubled(text) + ([QUOTE] + rest));
    assert s[1..] == Doubled(text) + ([QUOTE] + rest);
    ReadDoubled(text, rest);
  }

  lemma ExprReads(e: Expr, rest: string)
    requires IsExpr(e) && Ends(rest)
    ensures ReadExpr(ExprText(e, rest)) == Some((e, rest))
  {
    hide ReadLiteral, ReadName, Doubled, IsName, Expect;
    match e
    case Quoted(text) =>
      LiteralReads(text, rest);
      NoCast(rest);
    case Cast(text, typeName) =>
      LiteralReads(text, "::" + (typeName + rest));
      Expected("::", typeName + rest);
      NameReads(typeName, rest);
    case Call(name) =>
      NameReads(name, "()" + rest);
      Expected("()", rest);
      NameStarts(name, "()" + rest);
  }

  lemma NoCast(rest: string)
    requires Ends(rest)
    ensures Expect(rest, "::").None?
  {
    assert "::"[0] == ':';
  }

  lemma NameStarts(name: string, rest: string)
    requires IsName(name)
    ensures name + rest != [] && (name + rest)[0] != QUOTE
  {
    assert IsNameChar(name[0]);
  }

  lemma UpdateReads(u: Update, rest: string)
    requires IsName(u.column) && IsName(u.source) && Ends(rest)
    ensures ReadUpdate(UpdateText(u, rest)) == Some((u, rest))
  {
    hide ReadName, IsName, Expect;
    NameReads(u.column, " = excluded." + (u.source + rest));
    Expected(" = excluded.", u.source + rest);
    NameReads(u.source, rest);
  }

  lemma {:induction false} NamesRead(names: seq<string>, rest: string)
    requires names != [] && (forall k :: 0 <= k < |names| ==> IsName(names[k])) && EndsList(rest)
    ensures ReadNames(NamesText(names, rest)) == Some((names, rest))
    decreases |names|
  {
    hide ReadName, IsName, Expect;
    if |names| == 1 {
      NameReads(names[0], rest);
      EndsListMeans(rest);
      assert names == [names[0]];
    } else {
      var tail := NamesText(names[1..], rest);
      NameReads(names[0], ", " + tail);
      Expected(", ", tail);
      NamesRead(names[1..], rest);
      assert [names[0]] + names[1..] == names;
    }
  }

  lemma {:induction false} ExprsRead(exprs: seq<Expr>, rest: string)
    requires exprs != [] && (forall k :: 0 <= k < |exprs| ==> IsExpr(exprs[k])) && EndsList(rest)
    ensures ReadExprs(ExprsText(exprs, rest)) == Some((exprs, rest))
    decreases |exprs|
  {
    hide ReadExpr, ExprText, IsExpr, Expect;
    if |exprs| == 1 {
      EndsListMeans(rest);
      ExprReads(exprs[0], rest);
      assert exprs == [exprs[0]];
    } else {
      var tail := ExprsText(exprs[1..], rest);
      ExprReads(exprs[0], ", " + tail);
      Expected(", ", tail);
      ExprsRead(exprs[1..], rest);
      assert [exprs[0]] + exprs[1..] == exprs;
    }
  }

  lemma {:induction false} UpdatesRead(updates: seq<Update>, rest: string)
    requires updates != [] && EndsList(rest)
    requires forall k :: 0 <= k < |updates| ==> IsName(updates[k].column) && IsName(updates[k].source)
    ensures ReadUpdates(UpdatesText(updates, rest)) == Some((updates, rest))
    decreases |updates|
  {
    hide ReadUpdate, UpdateText, IsName, Expect;
    if |updates| == 1 {
      EndsListMeans(rest);
      UpdateReads(updates[0], rest);
      assert updates == [updates[0]];
    } else {
      var tail := UpdatesText(updates[1..], rest);
      UpdateReads(updates[0], ", " + tail);
      Expected(", ", tail);
      UpdatesRead(updates[1..], rest);
      assert [updates[0]] + updates[1..] == updates;
    }
  }

  /** Every insertion is read back: table, columns, values, conflict target and updates, whatever the quoted values. */
  lemma InsertReadsBack(i: Insert)
    requires IsInsert(i)
    ensures ReadInsert(InsertText(i)) == Some(i)
  {
    hide ReadName, ReadNames, ReadExprs, ReadUpdates, Expect, NamesText, ExprsText, UpdatesText, IsName, IsExpr;
    var s9 := UpdatesText(i.updates, []);
    var s8 := ") DO UPDATE SET " + s9;
    var s6 := ") ON CONFLICT (" + NamesText(i.target, s8);
    var s4 := ") VALUES (" + ExprsText(i.values, s6);
    var s2 := " (" + NamesText(i.columns, s4);
    Expected("INSERT INTO ", i.table + s2);
    NameReads(i.table, s2);
    Expected(" (", NamesText(i.columns, s4));
    NamesRead(i.columns, s4);
    Expected(") VALUES (", ExprsText(i.values, s6));
    ExprsRead(i.values, s6);
    Expected(") ON CONFLICT (", NamesText(i.target, s8));
    NamesRead(i.target, s8);
    Expected(") DO UPDATE SET ", s9);
    UpdatesRead(i.updates, []);
  }

  // The statement of `index` is such an insertion.

  const COLUMNS: seq<string> := ["collection", "id", "data", "updated_at"]

  const TARGET: seq<string> := ["collection", "id"]

  const SETS: seq<Update> := [Update("data", "data"), Update("updated_at", "updated_at")]

  function IndexInsert(collection: string, id: string, document: string): Insert {
    Insert("search_documents", COLUMNS, [Quoted(collection), Quoted(id), Cast(document, "jsonb"), Call("now")],
           TARGET, SETS)
  }

  lemma IndexNames()
    ensures IsName("search_documents") && IsName("collection") && IsName("id") && IsName("data")
    ensures IsName("updated_at") && IsName("jsonb") && IsName("now")
  {
  }

  lemma IndexIsWellFormed(collection: string, id: string, document: string)
    ensures IsInsert(IndexInsert(collection, id, document))
  {
    hide IsName;
    IndexNames();
  }

  lemma HeadIs(rest: string)
    ensures INDEX_HEAD + rest ==
            "INSERT INTO " + ("search_documents" + (" (" + NamesText(COLUMNS, ") VALUES (" + rest)))
  {
    var names := COLUMNS;
    assert names[1..] == ["id", "data", "updated_at"] && names[1..][1..] == ["data", "updated_at"];
    assert ["data", "updated_at"][1..] == ["updated_at"];
    var t := ") VALUES (" + rest;
    assert NamesText(["updated_at"], t) == "updated_at" + t;
    assert NamesText(["data", "updated_at"], t) == "data" + (", " + ("updated_at" + t));
    assert NamesText(names[1..], t) == "id" + (", " + ("data" + (", " + ("updated_at" + t))));
    assert NamesText(names, t) == "collection" + (", " + ("id" + (", " + ("data" + (", " + ("updated_at" + t))))));
  }

  lemma ConflictIs()
    ensures ON_CONFLICT == ") ON CONFLICT (" + NamesText(TARGET, ") DO UPDATE SET " + UpdatesText(SETS, []))
  {
    assert TARGET[1..] == ["id"] && SETS[1..] == [Update("updated_at", "updated_at")];
    var updates := UpdatesText(SETS, []);
    assert UpdatesText(SETS[1..], []) == "updated_at" + (" = excluded." + ("updated_at" + []));
    assert updates == UPDATES;
    assert NamesText(["id"], ") DO UPDATE SET " + updates) == "id" + (") DO UPDATE SET " + updates);
  }

  lemma ValuesAre(collection: string, id: string, document: string, rest: string)
    ensures ExprsText([Quoted(collection), Quoted(id), Cast(document, "jsonb"), Call("now")], rest) ==
            [QUOTE] + (Doubled(collection) + ([QUOTE] + (", " + ([QUOTE] + (Doubled(id) + ([QUOTE] + (", " +
            ([QUOTE] + (Doubled(document) + ([QUOTE] + ("::" + ("jsonb" + (", " + ("now" + ("()" + rest)))))))))))))))
  {
    hide Doubled;
    var all := [Quoted(collection), Quoted(id), Cast(document, "jsonb"), Call("now")];
    assert all[1..] == [Quoted(id), Cast(document, "jsonb"), Call("now")];
    assert all[1..][1..] == [Cast(document, "jsonb"), Call("now")];
    assert [Cast(document, "jsonb"), Call("now")][1..] == [Call("now")];
    assert ExprsText([Call("now")], rest) == "now" + ("()" + rest);
    assert ExprsText([Cast(document, "jsonb"), Call("now")], rest) ==
           ExprText(Cast(document, "jsonb"), ", " + ("now" + ("()" + rest)));
    assert ExprsText(all[1..], rest) == ExprText(Quoted(id), ", " + ExprsText(all[1..][1..], rest));
  }

  lemma Nested(h: string, q: string, a: string, rest: string)
    ensures h + q + a + q + rest == h + (q + (a + (q + rest)))
  {
  }

  lemma IndexTextIs(collection: string, id: string, document: string)
    requires IsInsert(IndexInsert(collection, id, document))
    ensures Statement(INDEX_PIECES, [collection, id, document]) == InsertText(IndexInsert(collection, id, document))
  {
    var c, i, d, q := Doubled(collection), Doubled(id), Doubled(document), [QUOTE];
    ThreeValues(INDEX_PIECES, collection, id, document);
    ValuesAre(collection, id, document, ON_CONFLICT);
    ConflictIs();
    hide Doubled, INDEX_HEAD, ON_CONFLICT, ExprsText, NamesText, UpdatesText, Statement;
    Nested(", ", q, d, INDEX_TAIL);
    Nested(", ", q, i, ", " + (q + (d + (q + INDEX_TAIL))));
    Nested(INDEX_HEAD, q, c, ", " + (q + (i + (q + (", " + (q + (d + (q + INDEX_TAIL))))))));
    HeadIs(q + (c + (q + (", " + (q + (i + (q + (", " + (q + (d + (q + INDEX_TAIL)))))))))));
  }

  lemma IndexIsInsert(collection: string, id: string, document: string)
    ensures ReadInsert(Statement(INDEX_PIECES, [collection, id, document])) ==
            Some(IndexInsert(collection, id, document))
  {
    hide Statement, InsertText, ReadInsert, IsInsert;
    IndexIsWellFormed(collection, id, document);
    IndexTextIs(collection, id, document);
    InsertReadsBack(IndexInsert(collection, id, document));
  }
}
