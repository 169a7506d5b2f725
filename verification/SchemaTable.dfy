/** The generated operation table: a manifest printed as C++ statements, and a reader that recovers it. */
module SchemaTable {
  import opened Text

  datatype Parameter = Parameter(name: string, variadic: bool)

  datatype Attribute = Attribute(name: string, cppType: string, optional: bool, list: bool)

  datatype Operation = Operation(
    name: string, summary: string, category: string,
    inputs: seq<Parameter>, attrs: seq<Attribute>, outputCount: int)

  /** Zero or a negative count both mean one result. */
  function NormalizedOutputCount(count: int): nat {
    if count <= 0 then 1 else count
  }

  // String literals.

  function EscapeCppChar(c: char): string {
    if c == '"' then "\\\"" else if c == '\\' then "\\\\" else if c == '\n' then "\\n" else [c]
  }

  function EscapedCpp(text: string): string {
    if text == [] then [] else EscapeCppChar(text[0]) + EscapedCpp(text[1..])
  }

  lemma {:induction false} EscapedCppAppend(a: string, c: char)
    ensures EscapedCpp(a + [c]) == EscapedCpp(a) + EscapeCppChar(c)
  {
    if a == [] {
      assert a + [c] == [c];
      assert EscapedCpp([c][1..]) == [];
    } else {
      assert (a + [c])[1..] == a[1..] + [c];
      EscapedCppAppend(a[1..], c);
    }
  }

  method EscapeCppString(text: string) returns (out: string)
    ensures out == EscapedCpp(text)
  {
    out := [];
    for i := 0 to |text|
      invariant out == EscapedCpp(text[..i])
    {
      EscapedCppAppend(text[..i], text[i]);
      assert text[..i + 1] == text[..i] + [text[i]];
      out := out + EscapeCppChar(text[i]);
    }
    assert text[..|text|] == text;
  }

  /** One character of a literal, and what is left; a line may not end inside a literal. */
  function ReadCppChar(s: string): (r: Option<(char, string)>)
    ensures r.Some? ==> |r.value.1| < |s|
  {
    if s == [] || s[0] == '\n' || s[0] == '"' then None
    else if s[0] != '\\' then Some((s[0], s[1..]))
    else if |s| < 2 then None
    else if s[1] == '"' || s[1] == '\\' then Some((s[1], s[2..]))
    else if s[1] == 'n' then Some(('\n', s[2..]))
    else None
  }

  /** The rest of a literal up to its closing quote. */
  function ReadLiteral(s: string): (r: Option<(string, string)>)
    ensures r.Some? ==> |r.value.1| < |s|
    decreases |s|
  {
    if s != [] && s[0] == '"' then Some(([], s[1..]))
    else
      var (c, tail) :- ReadCppChar(s);
      var (text, rest) :- ReadLiteral(tail);
      Some(([c] + text, rest))
  }

  lemma ReadEscapedCppChar(c: char, rest: string)
    ensures EscapeCppChar(c) != [] && EscapeCppChar(c)[0] != '"' && '\n' !in EscapeCppChar(c)
    ensures ReadCppChar(EscapeCppChar(c) + rest) == Some((c, rest))
  {
    var s := EscapeCppChar(c) + rest;
    if |EscapeCppChar(c)| == 1 {
      assert s[1..] == rest;
    } else {
      assert s[2..] == rest;
    }
  }

  /** No manifest string ends its literal early, and none breaks its line. */
  lemma {:induction false} LiteralReadsBack(text: string, rest: string)
    ensures ReadLiteral(EscapedCpp(text) + ("\"" + rest)) == Some((text, rest))
    ensures '\n' !in EscapedCpp(text)
  {
    hide EscapeCppChar, ReadCppChar;
    var s := EscapedCpp(text) + ("\"" + rest);
    if text == [] {
      assert s[1..] == rest;
    } else {
      var tail := EscapedCpp(text[1..]) + ("\"" + rest);
      LiteralReadsBack(text[1..], rest);
      ReadEscapedCppChar(text[0], tail);
      assert s == EscapeCppChar(text[0]) + tail;
      assert [text[0]] + text[1..] == text;
    }
  }

  // The fixed text around the strings.

  const OP_OPEN: string := "    {\n        " + "Operation op{\""
  const STRING_SEP: string := "\", \""
  const OP_CLOSE: string := "\"};\n"
  const PARAM_OPEN: string := "        op.append_parameter" + "(Parameter{\""
  const VALUE_SEP: string := "\", "
  const COMMA: string := ", "
  const CALL_CLOSE: string := "});\n"
  const ATTR_OPEN: string := "        {\n        " + "    Attribute attribute{\""
  const ATTR_CLOSE: string := "};\n        " + "    op.append_attr" + "(attribute);\n" + "        }\n"
  const RESULT_OPEN: string := "        op.append_result" + "(Parameter{\"" + "%schema"
  const BLOCK_END: string := "        result.push_back" + "(std::move(op));\n" + "    }\n"
  const VARIADIC_SHAPE: string := "Shape{{1}, DType::f32()}"
  const SCALAR_SHAPE: string := "Shape::scalar(DType::f32())"

  function ShapeText(variadic: bool): string {
    if variadic then VARIADIC_SHAPE else SCALAR_SHAPE
  }

  function BoolText(b: bool): string {
    if b then "true" else "false"
  }

  // The statements, each with the text that follows it.

  function HeadText(op: Operation, rest: string): string {
    OP_OPEN + (EscapedCpp(op.name) + (STRING_SEP + (EscapedCpp(op.category) + (STRING_SEP +
    (EscapedCpp(op.summary) + (OP_CLOSE + rest))))))
  }

  function ParamText(p: Parameter, index: nat, rest: string): string {
    PARAM_OPEN + (EscapedCpp(p.name) + (VALUE_SEP + (ShapeText(p.variadic) + (COMMA + (Digits(index) + (CALL_CLOSE + rest))))))
  }

  function AttrText(a: Attribute, rest: string): string {
    ATTR_OPEN + (EscapedCpp(a.name) + (STRING_SEP + (EscapedCpp(a.cppType) + (VALUE_SEP + (BoolText(a.optional) +
    (COMMA + (BoolText(a.list) + (ATTR_CLOSE + rest))))))))
  }

  function ResultText(id: nat, variadic: bool, rest: string): string {
    RESULT_OPEN + (Digits(id) + (VALUE_SEP + (ShapeText(variadic) + (CALL_CLOSE + rest))))
  }

  function ParamsText(inputs: seq<Parameter>, k: nat, rest: string): string
    decreases |inputs| - k
  {
    if k >= |inputs| then rest else ParamText(inputs[k], k, ParamsText(inputs, k + 1, rest))
  }

  function AttrsText(attrs: seq<Attribute>, k: nat, rest: string): string
    decreases |attrs| - k
  {
    if k >= |attrs| then rest else AttrText(attrs[k], AttrsText(attrs, k + 1, rest))
  }

  /** `count` results numbered from `id`. */
  function ResultsText(id: nat, count: nat, variadic: bool, rest: string): string
    decreases count
  {
    if count == 0 then rest else ResultText(id, variadic, ResultsText(id + 1, count - 1, variadic, rest))
  }

  function BlockText(op: Operation, id: nat, rest: string): string {
    HeadText(op, ParamsText(op.inputs, 0, AttrsText(op.attrs, 0,
      ResultsText(id, NormalizedOutputCount(op.outputCount), op.outputCount < 0, BLOCK_END + rest))))
  }

  // The reader. Each part reads a statement and returns what follows it.

  // What the reader looks for, spelled out on its own.

  const BEGIN_OPERATION: string := "    {\n        " + "Operation op{\""
  const NEXT_TEXT: string := "\", \""
  const END_OPERATION: string := "\"};\n"
  const PARAMETER_CALL: string := "        op.append_parameter" + "(Parameter{\""
  const END_TEXT: string := "\", "
  const NEXT_VALUE: string := ", "
  const END_CALL: string := "});\n"
  const ATTRIBUTE_CALL: string := "        {\n        " + "    Attribute attribute{\""
  const END_ATTRIBUTE: string := "};\n        " + "    op.append_attr" + "(attribute);\n" + "        }\n"
  const RESULT_CALL: string := "        op.append_result" + "(Parameter{\"" + "%schema"
  const END_BLOCK: string := "        result.push_back" + "(std::move(op));\n" + "    }\n"
  const RANK_ONE: string := "Shape{{1}, DType::f32()}"
  const RANK_ZERO: string := "Shape::scalar(DType::f32())"
  const BEGIN_TABLE: string :=
    "    static const " + "std::vector<Operation> " + "table = [] {\n" + "        std::vector<Operation> " + "result;\n" +
    "        result.reserve("
  const END_RESERVE: string := ");\n"
  const END_TABLE: string :=
    "        return result;\n" + "    }();\n" + "    return table;\n" + "\n}\n\n" + "} // namespace " + "cc::stable_hlo\n"

  lemma SpelledAlike()
    ensures OP_OPEN == BEGIN_OPERATION && STRING_SEP == NEXT_TEXT && OP_CLOSE == END_OPERATION
    ensures PARAM_OPEN == PARAMETER_CALL && VALUE_SEP == END_TEXT && COMMA == NEXT_VALUE && CALL_CLOSE == END_CALL
    ensures ATTR_OPEN == ATTRIBUTE_CALL && ATTR_CLOSE == END_ATTRIBUTE && RESULT_OPEN == RESULT_CALL
    ensures BLOCK_END == END_BLOCK && VARIADIC_SHAPE == RANK_ONE && SCALAR_SHAPE == RANK_ZERO
    ensures TABLE_OPEN == BEGIN_TABLE && TABLE_RESERVED == END_RESERVE && TABLE_CLOSE == END_TABLE
  {
  }

  datatype Input = Input(name: string, variadic: bool, index: nat)

  datatype Result = Result(id: nat, variadic: bool)

  datatype Schema = Schema(
    name: string, category: string, summary: string,
    inputs: seq<Input>, attrs: seq<Attribute>, results: seq<Result>)

  function ReadShape(s: string): (r: Option<(bool, string)>)
    ensures r.Some? ==> |r.value.1| <= |s|
  {
    if Expect(s, RANK_ONE).Some? then Some((true, Expect(s, RANK_ONE).value))
    else
      var rest :- Expect(s, RANK_ZERO);
      Some((false, rest))
  }

  function ReadBool(s: string): (r: Option<(bool, string)>)
    ensures r.Some? ==> |r.value.1| <= |s|
  {
    if Expect(s, "true").Some? then Some((true, Expect(s, "true").value))
    else
      var rest :- Expect(s, "false");
      Some((false, rest))
  }

  /** A literal whose closing quote starts `after`. */
  function ReadText(s: string, after: string): (r: Option<(string, string)>)
    requires after != [] && after[0] == '"'
    ensures r.Some? ==> |r.value.1| < |s|
  {
    var (text, rest) :- ReadLiteral(s);
    var next :- Expect(rest, after[1..]);
    Some((text, next))
  }

  function ReadHead(s: string): (r: Option<((string, string, string), string)>)
    ensures r.Some? ==> |r.value.1| < |s|
  {
    var s1 :- Expect(s, BEGIN_OPERATION);
    var (name, s2) :- ReadText(s1, NEXT_TEXT);
    var (category, s3) :- ReadText(s2, NEXT_TEXT);
    var (summary, s4) :- ReadText(s3, END_OPERATION);
    Some(((name, category, summary), s4))
  }

  function ReadParam(s: string): (r: Option<(Input, string)>)
    ensures r.Some? ==> |r.value.1| < |s|
  {
    var s1 :- Expect(s, PARAMETER_CALL);
    var (name, s2) :- ReadText(s1, END_TEXT);
    var (variadic, s3) :- ReadShape(s2);
    var s4 :- Expect(s3, NEXT_VALUE);
    var (index, s5) :- ReadNumber(s4);
    var s6 :- Expect(s5, END_CALL);
    Some((Input(name, variadic, index), s6))
  }

  function ReadAttr(s: string): (r: Option<(Attribute, string)>)
    ensures r.Some? ==> |r.value.1| < |s|
  {
    var s1 :- Expect(s, ATTRIBUTE_CALL);
    var (name, s2) :- ReadText(s1, NEXT_TEXT);
    var (cppType, s3) :- ReadText(s2, END_TEXT);
    var (optional, s4) :- ReadBool(s3);
    var s5 :- Expect(s4, NEXT_VALUE);
    var (list, s6) :- ReadBool(s5);
    var s7 :- Expect(s6, END_ATTRIBUTE);
    Some((Attribute(name, cppType, optional, list), s7))
  }

  function ReadResult(s: string): (r: Option<(Result, string)>)
    ensures r.Some? ==> |r.value.1| < |s|
  {
    var s1 :- Expect(s, RESULT_CALL);
    var (id, s2) :- ReadNumber(s1);
    var s3 :- Expect(s2, END_TEXT);
    var (variadic, s4) :- ReadShape(s3);
    var s5 :- Expect(s4, END_CALL);
    Some((Result(id, variadic), s5))
  }

  function ReadParams(s: string): (r: Option<(seq<Input>, string)>)
    ensures r.Some? ==> |r.value.1| <= |s|
    decreases |s|
  {
    if Expect(s, PARAMETER_CALL).None? then Some(([], s))
    else
      var (head, s1) :- ReadParam(s);
      var (tail, s2) :- ReadParams(s1);
      Some(([head] + tail, s2))
  }

  function ReadAttrs(s: string): (r: Option<(seq<Attribute>, string)>)
    ensures r.Some? ==> |r.value.1| <= |s|
    decreases |s|
  {
    if Expect(s, ATTRIBUTE_CALL).None? then Some(([], s))
    else
      var (head, s1) :- ReadAttr(s);
      var (tail, s2) :- ReadAttrs(s1);
      Some(([head] + tail, s2))
  }

  function ReadResults(s: string): (r: Option<(seq<Result>, string)>)
    ensures r.Some? ==> |r.value.1| <= |s|
    decreases |s|
  {
    if Expect(s, RESULT_CALL).None? then Some(([], s))
    else
      var (head, s1) :- ReadResult(s);
      var (tail, s2) :- ReadResults(s1);
      Some(([head] + tail, s2))
  }

  function ReadBlock(s: string): (r: Option<(Schema, string)>)
    ensures r.Some? ==> |r.value.1| < |s|
  {
    var (head, s1) :- ReadHead(s);
    var (inputs, s2) :- ReadParams(s1);
    var (attrs, s3) :- ReadAttrs(s2);
    var (results, s4) :- ReadResults(s3);
    var s5 :- Expect(s4, END_BLOCK);
    Some((Schema(head.0, head.1, head.2, inputs, attrs, results), s5))
  }

  // Reading undoes printing.

  lemma ShapeReadsBack(variadic: bool, rest: string)
    ensures ReadShape(ShapeText(variadic) + rest) == Some((variadic, rest))
  {
    hide Expect;
    SpelledAlike();
    Expected(ShapeText(variadic), rest);
    if !variadic {
      NotExpected(RANK_ONE, SCALAR_SHAPE, rest, 5);
    }
  }

  lemma BoolReadsBack(b: bool, rest: string)
    ensures ReadBool(BoolText(b) + rest) == Some((b, rest))
  {
    hide Expect;
    Expected(BoolText(b), rest);
    if !b {
      NotExpected("true", "false", rest, 0);
    }
  }

  lemma TextReadsBack(text: string, after: string, rest: string)
    requires after != [] && after[0] == '"'
    ensures ReadText(EscapedCpp(text) + (after + rest), after) == Some((text, rest))
  {
    hide EscapedCpp, ReadLiteral, Expect;
    LiteralReadsBack(text, after[1..] + rest);
    assert after + rest == "\"" + (after[1..] + rest);
    Expected(after[1..], rest);
  }

  lemma HeadReadsBack(op: Operation, rest: string)
    ensures ReadHead(HeadText(op, rest)) == Some(((op.name, op.category, op.summary), rest))
  {
    hide Expect, ReadText, EscapedCpp, OP_OPEN, BEGIN_OPERATION;
    SpelledAlike();
    var s3 := EscapedCpp(op.summary) + (OP_CLOSE + rest);
    var s2 := EscapedCpp(op.category) + (STRING_SEP + s3);
    var s1 := EscapedCpp(op.name) + (STRING_SEP + s2);
    Expected(OP_OPEN, s1);
    TextReadsBack(op.name, STRING_SEP, s2);
    TextReadsBack(op.category, STRING_SEP, s3);
    TextReadsBack(op.summary, OP_CLOSE, rest);
  }

  lemma ParamReadsBack(p: Parameter, index: nat, rest: string)
    ensures ReadParam(ParamText(p, index, rest)) == Some((Input(p.name, p.variadic, index), rest))
    ensures Expect(ParamText(p, index, rest), PARAMETER_CALL).Some?
  {
    hide Expect, ReadText, ReadShape, ReadNumber, ShapeText, EscapedCpp, Digits, PARAM_OPEN, PARAMETER_CALL;
    SpelledAlike();
    var s4 := Digits(index) + (CALL_CLOSE + rest);
    var s2 := ShapeText(p.variadic) + (COMMA + s4);
    Expected(PARAM_OPEN, EscapedCpp(p.name) + (VALUE_SEP + s2));
    TextReadsBack(p.name, VALUE_SEP, s2);
    ShapeReadsBack(p.variadic, COMMA + s4);
    Expected(COMMA, s4);
    assert (CALL_CLOSE + rest)[0] == '}';
    ReadDigits(index, CALL_CLOSE + rest);
    Expected(CALL_CLOSE, rest);
  }

  lemma AttrReadsBack(a: Attribute, rest: string)
    ensures ReadAttr(AttrText(a, rest)) == Some((a, rest))
    ensures Expect(AttrText(a, rest), ATTRIBUTE_CALL).Some?
  {
    hide Expect, ReadText, ReadBool, BoolText, EscapedCpp, ATTR_OPEN, ATTR_CLOSE, ATTRIBUTE_CALL, END_ATTRIBUTE;
    SpelledAlike();
    var s5 := BoolText(a.list) + (ATTR_CLOSE + rest);
    var s3 := BoolText(a.optional) + (COMMA + s5);
    var s2 := EscapedCpp(a.cppType) + (VALUE_SEP + s3);
    Expected(ATTR_OPEN, EscapedCpp(a.name) + (STRING_SEP + s2));
    TextReadsBack(a.name, STRING_SEP, s2);
    TextReadsBack(a.cppType, VALUE_SEP, s3);
    BoolReadsBack(a.optional, COMMA + s5);
    Expected(COMMA, s5);
    BoolReadsBack(a.list, ATTR_CLOSE + rest);
    Expected(ATTR_CLOSE, rest);
  }

  lemma ResultReadsBack(id: nat, variadic: bool, rest: string)
    ensures ReadResult(ResultText(id, variadic, rest)) == Some((Result(id, variadic), rest))
    ensures Expect(ResultText(id, variadic, rest), RESULT_CALL).Some?
  {
    hide Expect, ReadShape, ReadNumber, ShapeText, Digits, RESULT_OPEN, RESULT_CALL;
    SpelledAlike();
    var s3 := ShapeText(variadic) + (CALL_CLOSE + rest);
    Expected(RESULT_OPEN, Digits(id) + (VALUE_SEP + s3));
    assert (VALUE_SEP + s3)[0] == '"';
    ReadDigits(id, VALUE_SEP + s3);
    Expected(VALUE_SEP, s3);
    ShapeReadsBack(variadic, CALL_CLOSE + rest);
    Expected(CALL_CLOSE, rest);
  }

  function Inputs(inputs: seq<Parameter>, k: nat): seq<Input>
    requires k <= |inputs|
  {
    seq(|inputs| - k, i requires 0 <= i < |inputs| - k => Input(inputs[k + i].name, inputs[k + i].variadic, k + i))
  }

  function Results(id: nat, count: nat, variadic: bool): seq<Result> {
    seq(count, i requires 0 <= i < count => Result(id + i, variadic))
  }

  lemma {:induction false} ParamsReadBack(inputs: seq<Parameter>, k: nat, rest: string)
    requires k <= |inputs| && Expect(rest, PARAMETER_CALL).None?
    ensures ReadParams(ParamsText(inputs, k, rest)) == Some((Inputs(inputs, k), rest))
    decreases |inputs| - k
  {
    hide Expect, ParamText, ReadParam, PARAM_OPEN, PARAMETER_CALL;
    if k < |inputs| {
      ParamReadsBack(inputs[k], k, ParamsText(inputs, k + 1, rest));
      ParamsReadBack(inputs, k + 1, rest);
      assert Inputs(inputs, k) == [Input(inputs[k].name, inputs[k].variadic, k)] + Inputs(inputs, k + 1);
    } else {
      assert Inputs(inputs, k) == [];
    }
  }

  lemma {:induction false} AttrsReadBack(attrs: seq<Attribute>, k: nat, rest: string)
    requires k <= |attrs| && Expect(rest, ATTRIBUTE_CALL).None?
    ensures ReadAttrs(AttrsText(attrs, k, rest)) == Some((attrs[k..], rest))
    decreases |attrs| - k
  {
    hide Expect, AttrText, ReadAttr, ATTR_OPEN, ATTRIBUTE_CALL;
    if k < |attrs| {
      AttrReadsBack(attrs[k], AttrsText(attrs, k + 1, rest));
      AttrsReadBack(attrs, k + 1, rest);
      assert attrs[k..] == [attrs[k]] + attrs[k + 1..];
    } else {
      assert attrs[k..] == [];
    }
  }

  lemma {:induction false} ResultsReadBack(id: nat, count: nat, variadic: bool, rest: string)
    requires Expect(rest, RESULT_CALL).None?
    ensures ReadResults(ResultsText(id, count, variadic, rest)) == Some((Results(id, count, variadic), rest))
    decreases count
  {
    hide Expect, ResultText, ReadResult, RESULT_OPEN, RESULT_CALL;
    if count > 0 {
      ResultReadsBack(id, variadic, ResultsText(id + 1, count - 1, variadic, rest));
      ResultsReadBack(id + 1, count - 1, variadic, rest);
      assert Results(id, count, variadic) == [Result(id, variadic)] + Results(id + 1, count - 1, variadic);
    } else {
      assert Results(id, count, variadic) == [];
    }
  }

  // Each kind of statement starts in its own way, so the reader knows where a list ends.

  lemma KindsDiffer()
    ensures |PARAM_OPEN| > 18 && |ATTR_OPEN| > 8 && |RESULT_OPEN| > 18 && |BLOCK_END| > 8
    ensures PARAM_OPEN[8] == RESULT_OPEN[8] == 'o' && ATTR_OPEN[8] == '{' && BLOCK_END[8] == 'r'
    ensures PARAM_OPEN[18] == 'p' && RESULT_OPEN[18] == 'r'
  {
  }

  /** The schema a manifest operation stands for, with results numbered from `id`. */
  function SchemaOf(op: Operation, id: nat): Schema {
    Schema(op.name, op.category, op.summary, Inputs(op.inputs, 0), op.attrs,
           Results(id, NormalizedOutputCount(op.outputCount), op.outputCount < 0))
  }

  lemma AfterParams(op: Operation, id: nat, rest: string)
    ensures var results := ResultsText(id, NormalizedOutputCount(op.outputCount), op.outputCount < 0, BLOCK_END + rest);
            var attrs := AttrsText(op.attrs, 0, results);
            && Expect(BLOCK_END + rest, RESULT_CALL).None?
            && Expect(results, ATTRIBUTE_CALL).None?
            && Expect(attrs, PARAMETER_CALL).None?
  {
    hide Expect, PARAM_OPEN, ATTR_OPEN, RESULT_OPEN, BLOCK_END, PARAMETER_CALL, ATTRIBUTE_CALL, RESULT_CALL, END_BLOCK;
    SpelledAlike();
    KindsDiffer();
    NotExpected(RESULT_CALL, BLOCK_END, rest, 8);
    var count, variadic := NormalizedOutputCount(op.outputCount), op.outputCount < 0;
    var results := ResultsText(id, count, variadic, BLOCK_END + rest);
    var tail := Digits(id) + (VALUE_SEP + (ShapeText(variadic) + (CALL_CLOSE + ResultsText(id + 1, count - 1, variadic, BLOCK_END + rest))));
    assert results == RESULT_OPEN + tail;
    NotExpected(ATTRIBUTE_CALL, RESULT_OPEN, tail, 8);
    NotExpected(PARAMETER_CALL, RESULT_OPEN, tail, 18);
    if op.attrs != [] {
      var a := op.attrs[0];
      NotExpected(PARAMETER_CALL, ATTR_OPEN, EscapedCpp(a.name) + (STRING_SEP + (EscapedCpp(a.cppType) + (VALUE_SEP +
        (BoolText(a.optional) + (COMMA + (BoolText(a.list) + (ATTR_CLOSE + AttrsText(op.attrs, 1, results)))))))), 8);
    }
  }

  /** A printed block reads back as its operation: strings, inputs with flag and index, attributes, numbered results. */
  lemma BlockReadsBack(op: Operation, id: nat, rest: string)
    ensures ReadBlock(BlockText(op, id, rest)) == Some((SchemaOf(op, id), rest))
  {
    hide Expect, ReadHead, ReadParams, ReadAttrs, ReadResults, HeadText, ParamsText, AttrsText, ResultsText, BLOCK_END, END_BLOCK;
    SpelledAlike();
    var results := ResultsText(id, NormalizedOutputCount(op.outputCount), op.outputCount < 0, BLOCK_END + rest);
    var attrs := AttrsText(op.attrs, 0, results);
    AfterParams(op, id, rest);
    HeadReadsBack(op, ParamsText(op.inputs, 0, attrs));
    ParamsReadBack(op.inputs, 0, attrs);
    AttrsReadBack(op.attrs, 0, results);
    ResultsReadBack(id, NormalizedOutputCount(op.outputCount), op.outputCount < 0, BLOCK_END + rest);
    Expected(BLOCK_END, rest);
    assert op.attrs[0..] == op.attrs;
  }

  /** The schema says of an operation what the manifest says: one result for each output, at least one, numbered from `id`,
      of rank one only for a negative count. */
  predicate Describes(schema: Schema, op: Operation, id: nat) {
    && schema.name == op.name && schema.category == op.category && schema.summary == op.summary
    && |schema.inputs| == |op.inputs|
    && (forall i :: 0 <= i < |op.inputs| ==> schema.inputs[i] == Input(op.inputs[i].name, op.inputs[i].variadic, i))
    && schema.attrs == op.attrs
    && |schema.results| == (if op.outputCount >= 1 then op.outputCount else 1)
    && (forall i :: 0 <= i < |schema.results| ==> schema.results[i] == Result(id + i, op.outputCount < 0))
  }

  lemma SchemaDescribes(op: Operation, id: nat)
    ensures Describes(SchemaOf(op, id), op, id)
  {
  }

  /** What the reader makes of a printed block describes the operation. */
  lemma BlockMeaning(op: Operation, id: nat, rest: string)
    ensures ReadBlock(BlockText(op, id, rest)).Some?
    ensures var (schema, left) := ReadBlock(BlockText(op, id, rest)).value; Describes(schema, op, id) && left == rest
  {
    hide ReadBlock, BlockText, SchemaOf, Describes;
    BlockReadsBack(op, id, rest);
    SchemaDescribes(op, id);
  }

  // The whole file. The text before the table is fixed and only has to be recognised; it is called `preamble` here.

  const TABLE_OPEN: string :=
    "    static const " + "std::vector<Operation> " + "table = [] {\n" + "        std::vector<Operation> " + "result;\n" +
    "        result.reserve("
  const TABLE_RESERVED: string := ");\n"
  const TABLE_CLOSE: string :=
    "        return result;\n" + "    }();\n" + "    return table;\n" + "\n}\n\n" + "} // namespace " + "cc::stable_hlo\n"

  function OpsText(ops: seq<Operation>, k: nat, id: nat, rest: string): string
    decreases |ops| - k
  {
    if k >= |ops| then rest
    else BlockText(ops[k], id, "\n" + OpsText(ops, k + 1, id + NormalizedOutputCount(ops[k].outputCount), rest))
  }

  /** Each block and a newline: preamble, opening, one block an operation, closing. */
  function FileText(preamble: string, ops: seq<Operation>): string {
    preamble + ("\n" + (TABLE_OPEN + (Digits(|ops|) + (TABLE_RESERVED + ("\n" + OpsText(ops, 0, 0, TABLE_CLOSE + "\n"))))))
  }

  function ReadBlocks(s: string): (r: Option<(seq<Schema>, string)>)
    ensures r.Some? ==> |r.value.1| <= |s|
    decreases |s|
  {
    if Expect(s, BEGIN_OPERATION).None? then Some(([], s))
    else
      var (head, s1) :- ReadBlock(s);
      var s2 :- Expect(s1, "\n");
      var (tail, s3) :- ReadBlocks(s2);
      Some(([head] + tail, s3))
  }

  /** The reserved size and the operations. */
  function ReadFile(preamble: string, s: string): Option<(nat, seq<Schema>)> {
    var s1 :- Expect(s, preamble);
    var s2 :- Expect(s1, "\n");
    var s3 :- Expect(s2, BEGIN_TABLE);
    var (reserved, s4) :- ReadNumber(s3);
    var s5 :- Expect(s4, END_RESERVE);
    var s6 :- Expect(s5, "\n");
    var (schemas, s7) :- ReadBlocks(s6);
    if s7 == END_TABLE + "\n" then Some((reserved, schemas)) else None
  }

  /** The number of the first result of operation `k`. */
  function FirstId(ops: seq<Operation>, k: nat): nat
    requires k <= |ops|
  {
    if k == 0 then 0 else FirstId(ops, k - 1) + NormalizedOutputCount(ops[k - 1].outputCount)
  }

  function Schemas(ops: seq<Operation>, k: nat): seq<Schema>
    requires k <= |ops|
  {
    seq(|ops| - k, i requires 0 <= i < |ops| - k => SchemaOf(ops[k + i], FirstId(ops, k + i)))
  }

  lemma {:induction false} OpsReadBack(ops: seq<Operation>, k: nat, rest: string)
    requires k <= |ops| && Expect(rest, BEGIN_OPERATION).None?
    ensures ReadBlocks(OpsText(ops, k, FirstId(ops, k), rest)) == Some((Schemas(ops, k), rest))
    decreases |ops| - k
  {
    hide Expect, ReadBlock, BlockText, SchemaOf, OP_OPEN, BEGIN_OPERATION;
    if k < |ops| {
      var tail := OpsText(ops, k + 1, FirstId(ops, k + 1), rest);
      BlockReadsBack(ops[k], FirstId(ops, k), "\n" + tail);
      BlockOpens(ops[k], FirstId(ops, k), "\n" + tail);
      Expected("\n", tail);
      OpsReadBack(ops, k + 1, rest);
      assert Schemas(ops, k) == [SchemaOf(ops[k], FirstId(ops, k))] + Schemas(ops, k + 1);
    } else {
      assert Schemas(ops, k) == [];
    }
  }

  lemma BlockOpens(op: Operation, id: nat, rest: string)
    ensures Expect(BlockText(op, id, rest), BEGIN_OPERATION).Some?
  {
    hide Expect, OP_OPEN, ParamsText, BLOCK_END, BEGIN_OPERATION, END_BLOCK;
    SpelledAlike();
    var params := ParamsText(op.inputs, 0, AttrsText(op.attrs, 0,
      ResultsText(id, NormalizedOutputCount(op.outputCount), op.outputCount < 0, BLOCK_END + rest)));
    Expected(OP_OPEN, EscapedCpp(op.name) + (STRING_SEP + (EscapedCpp(op.category) + (STRING_SEP +
      (EscapedCpp(op.summary) + (OP_CLOSE + params))))));
  }

  lemma TableCloses()
    ensures |TABLE_CLOSE| > 4 && |OP_OPEN| > 4 && OP_OPEN[4] == '{' && TABLE_CLOSE[4] == ' '
  {
  }

  /** For every manifest the file reads back: the size, and each operation's strings, inputs, attributes and results. */
  lemma FileReadsBack(preamble: string, ops: seq<Operation>)
    ensures ReadFile(preamble, FileText(preamble, ops)) == Some((|ops|, Schemas(ops, 0)))
  {
    hide Expect, ReadBlocks, OpsText, Schemas, ReadNumber, Digits, TABLE_OPEN, TABLE_CLOSE, OP_OPEN, BEGIN_TABLE, END_TABLE, BEGIN_OPERATION;
    SpelledAlike();
    var close := TABLE_CLOSE + "\n";
    var s6 := OpsText(ops, 0, 0, close);
    var s4 := TABLE_RESERVED + ("\n" + s6);
    var s3 := Digits(|ops|) + s4;
    Expected(preamble, "\n" + (TABLE_OPEN + s3));
    Expected("\n", TABLE_OPEN + s3);
    Expected(TABLE_OPEN, s3);
    assert s4[0] == ')';
    ReadDigits(|ops|, s4);
    Expected(TABLE_RESERVED, "\n" + s6);
    Expected("\n", s6);
    TableCloses();
    NotExpected(BEGIN_OPERATION, TABLE_CLOSE, "\n", 4);
    OpsReadBack(ops, 0, close);
  }

  /** The outputs of the operations before `k`, each with at least one. */
  function OutputsBefore(ops: seq<Operation>, k: nat): nat
    requires k <= |ops|
  {
    if k == 0 then 0
    else OutputsBefore(ops, k - 1) + (if ops[k - 1].outputCount >= 1 then ops[k - 1].outputCount else 1)
  }

  lemma {:induction false} CounterIsOutputs(ops: seq<Operation>, k: nat)
    requires k <= |ops|
    ensures FirstId(ops, k) == OutputsBefore(ops, k)
  {
    if k > 0 {
      CounterIsOutputs(ops, k - 1);
    }
  }

  /** The reserved size is the number of operations, and every operation is described, its results numbered after those of
      the operations before it. */
  ghost predicate DescribesAll(read: Option<(nat, seq<Schema>)>, ops: seq<Operation>) {
    && read.Some? && read.value.0 == |ops| == |read.value.1|
    && forall k :: 0 <= k < |ops| ==> Describes(read.value.1[k], ops[k], OutputsBefore(ops, k))
  }

  /** For every manifest, what the reader makes of the file describes the manifest. */
  lemma FileMeaning(preamble: string, ops: seq<Operation>)
    ensures DescribesAll(ReadFile(preamble, FileText(preamble, ops)), ops)
  {
    hide ReadFile, FileText, SchemaOf, Describes, FirstId, OutputsBefore;
    FileReadsBack(preamble, ops);
    forall k | 0 <= k < |ops|
      ensures Describes(Schemas(ops, 0)[k], ops[k], OutputsBefore(ops, k))
    {
      SchemaDescribes(ops[k], FirstId(ops, k));
      CounterIsOutputs(ops, k);
      assert Schemas(ops, 0)[k] == SchemaOf(ops[k], FirstId(ops, k));
    }
  }

  /** The ids of all results of all operations, in file order. */
  function AllIds(schemas: seq<Schema>): seq<nat> {
    if schemas == [] then [] else Ids(schemas[0].results) + AllIds(schemas[1..])
  }

  function Ids(results: seq<Result>): seq<nat> {
    seq(|results|, i requires 0 <= i < |results| => results[i].id)
  }

  /** `ids` counts up from `from` to just before `to`. */
  predicate CountsUp(ids: seq<nat>, from: nat, to: nat) {
    from + |ids| == to && forall i :: 0 <= i < |ids| ==> ids[i] == from + i
  }

  lemma CountOn(a: seq<nat>, b: seq<nat>, from: nat, mid: nat, to: nat)
    requires CountsUp(a, from, mid) && CountsUp(b, mid, to)
    ensures CountsUp(a + b, from, to)
  {
  }

  lemma DescribedIds(schema: Schema, ops: seq<Operation>, k: nat)
    requires k < |ops| && Describes(schema, ops[k], OutputsBefore(ops, k))
    ensures CountsUp(Ids(schema.results), OutputsBefore(ops, k), OutputsBefore(ops, k + 1))
  {
  }

  lemma {:induction false} IdsFollow(schemas: seq<Schema>, ops: seq<Operation>, k: nat)
    requires k <= |ops| == |schemas|
    requires forall i :: 0 <= i < |ops| ==> Describes(schemas[i], ops[i], OutputsBefore(ops, i))
    ensures CountsUp(AllIds(schemas[k..]), OutputsBefore(ops, k), OutputsBefore(ops, |ops|))
    decreases |ops| - k
  {
    hide Describes, OutputsBefore, CountsUp, Ids;
    if k < |ops| {
      IdsFollow(schemas, ops, k + 1);
      assert schemas[k..][0] == schemas[k] && schemas[k..][1..] == schemas[k + 1..];
      DescribedIds(schemas[k], ops, k);
      CountOn(Ids(schemas[k].results), AllIds(schemas[k + 1..]),
              OutputsBefore(ops, k), OutputsBefore(ops, k + 1), OutputsBefore(ops, |ops|));
    } else {
      assert schemas[k..] == [];
      NoIds(OutputsBefore(ops, k));
    }
  }

  lemma NoIds(n: nat)
    ensures CountsUp([], n, n)
  {
  }

  /** Result ids across the whole file are 0, 1, 2, ... without gap or repeat, as many as the output counts, each taken as
      at least one, add up to. */
  lemma IdsAreConsecutive(preamble: string, ops: seq<Operation>)
    ensures var read := ReadFile(preamble, FileText(preamble, ops));
            && read.Some? && CountsUp(AllIds(read.value.1), 0, OutputsBefore(ops, |ops|))
  {
    hide ReadFile, FileText, Describes, AllIds;
    FileMeaning(preamble, ops);
    var schemas := ReadFile(preamble, FileText(preamble, ops)).value.1;
    IdsFollow(schemas, ops, 0);
    assert schemas[0..] == schemas;
  }

  // The generator's loops.

  lemma HeadSplit(op: Operation, rest: string)
    ensures HeadText(op, rest) == HeadText(op, []) + rest
  {
    hide EscapedCpp, OP_OPEN, OP_CLOSE, STRING_SEP;
  }

  lemma ParamSplit(p: Parameter, index: nat, rest: string)
    ensures ParamText(p, index, rest) == ParamText(p, index, []) + rest
  {
    hide EscapedCpp, ShapeText, Digits, PARAM_OPEN, VALUE_SEP, COMMA, CALL_CLOSE;
  }

  lemma AttrSplit(a: Attribute, rest: string)
    ensures AttrText(a, rest) == AttrText(a, []) + rest
  {
    hide EscapedCpp, BoolText, ATTR_OPEN, STRING_SEP, VALUE_SEP, COMMA, ATTR_CLOSE;
  }

  lemma ResultSplit(id: nat, variadic: bool, rest: string)
    ensures ResultText(id, variadic, rest) == ResultText(id, variadic, []) + rest
  {
    hide Digits, ShapeText, RESULT_OPEN, VALUE_SEP, CALL_CLOSE;
  }

  lemma {:induction false} ParamsSplit(inputs: seq<Parameter>, k: nat, rest: string)
    ensures ParamsText(inputs, k, rest) == ParamsText(inputs, k, []) + rest
    decreases |inputs| - k
  {
    hide ParamText;
    if k < |inputs| {
      ParamsSplit(inputs, k + 1, rest);
      ParamSplit(inputs[k], k, ParamsText(inputs, k + 1, rest));
      ParamSplit(inputs[k], k, ParamsText(inputs, k + 1, []));
    }
  }

  lemma {:induction false} AttrsSplit(attrs: seq<Attribute>, k: nat, rest: string)
    ensures AttrsText(attrs, k, rest) == AttrsText(attrs, k, []) + rest
    decreases |attrs| - k
  {
    hide AttrText;
    if k < |attrs| {
      AttrsSplit(attrs, k + 1, rest);
      AttrSplit(attrs[k], AttrsText(attrs, k + 1, rest));
      AttrSplit(attrs[k], AttrsText(attrs, k + 1, []));
    }
  }

  lemma {:induction false} ResultsSplit(id: nat, count: nat, variadic: bool, rest: string)
    ensures ResultsText(id, count, variadic, rest) == ResultsText(id, count, variadic, []) + rest
    decreases count
  {
    hide ResultText;
    if count > 0 {
      ResultsSplit(id + 1, count - 1, variadic, rest);
      ResultSplit(id, variadic, ResultsText(id + 1, count - 1, variadic, rest));
      ResultSplit(id, variadic, ResultsText(id + 1, count - 1, variadic, []));
    }
  }

  lemma BlockSplit(op: Operation, id: nat, rest: string)
    ensures BlockText(op, id, rest) ==
            HeadText(op, []) + ParamsText(op.inputs, 0, []) + AttrsText(op.attrs, 0, []) +
            ResultsText(id, NormalizedOutputCount(op.outputCount), op.outputCount < 0, []) + BLOCK_END + rest
  {
    hide HeadText, ParamsText, AttrsText, ResultsText, BLOCK_END;
    var results := ResultsText(id, NormalizedOutputCount(op.outputCount), op.outputCount < 0, BLOCK_END + rest);
    HeadSplit(op, ParamsText(op.inputs, 0, AttrsText(op.attrs, 0, results)));
    ParamsSplit(op.inputs, 0, AttrsText(op.attrs, 0, results));
    AttrsSplit(op.attrs, 0, results);
    ResultsSplit(id, NormalizedOutputCount(op.outputCount), op.outputCount < 0, BLOCK_END + rest);
  }

  method RenderParam(p: Parameter, index: nat) returns (line: string)
    ensures line == ParamText(p, index, [])
  {
    hide EscapedCpp, ShapeText, Digits;
    var name := EscapeCppString(p.name);
    line := PARAM_OPEN + (name + (VALUE_SEP + (ShapeText(p.variadic) + (COMMA + (Digits(index) + (CALL_CLOSE + []))))));
  }

  method RenderAttr(a: Attribute) returns (lines: string)
    ensures lines == AttrText(a, [])
  {
    hide EscapedCpp, BoolText;
    var name := EscapeCppString(a.name);
    var cppType := EscapeCppString(a.cppType);
    lines := ATTR_OPEN + (name + (STRING_SEP + (cppType + (VALUE_SEP + (BoolText(a.optional) +
             (COMMA + (BoolText(a.list) + (ATTR_CLOSE + []))))))));
  }

  method RenderHead(op: Operation) returns (lines: string)
    ensures lines == HeadText(op, [])
  {
    hide EscapedCpp;
    var name := EscapeCppString(op.name);
    var category := EscapeCppString(op.category);
    var summary := EscapeCppString(op.summary);
    lines := OP_OPEN + (name + (STRING_SEP + (category + (STRING_SEP + (summary + (OP_CLOSE + []))))));
  }

  /** One operation's statements; `resultCounter` numbers results across the whole table. */
  method RenderOpBlock(op: Operation, resultCounter: nat) returns (block: string, counter: nat)
    ensures block == BlockText(op, resultCounter, [])
    ensures ReadBlock(block).Some? && Describes(ReadBlock(block).value.0, op, resultCounter)
    ensures counter == resultCounter + if op.outputCount >= 1 then op.outputCount else 1
  {
    hide ReadBlock, Describes;
    BlockMeaning(op, resultCounter, []);
    hide HeadText, ParamText, AttrText, ResultText, BLOCK_END;
    block := RenderHead(op);
    ghost var start := block;
    for i := 0 to |op.inputs|
      invariant block + ParamsText(op.inputs, i, []) == start + ParamsText(op.inputs, 0, [])
    {
      var line := RenderParam(op.inputs[i], i);
      ParamSplit(op.inputs[i], i, ParamsText(op.inputs, i + 1, []));
      block := block + line;
    }
    ghost var params := start + ParamsText(op.inputs, 0, []);
    assert block == params;
    start := block;
    for i := 0 to |op.attrs|
      invariant block + AttrsText(op.attrs, i, []) == start + AttrsText(op.attrs, 0, [])
    {
      var lines := RenderAttr(op.attrs[i]);
      AttrSplit(op.attrs[i], AttrsText(op.attrs, i + 1, []));
      block := block + lines;
    }
    ghost var attrs := params + AttrsText(op.attrs, 0, []);
    assert block == attrs;
    start := block;
    var variadic, count := op.outputCount < 0, NormalizedOutputCount(op.outputCount);
    counter := resultCounter;
    for i := 0 to count
      invariant counter == resultCounter + i
      invariant block + ResultsText(counter, count - i, variadic, []) == start + ResultsText(resultCounter, count, variadic, [])
    {
      ResultSplit(counter, variadic, ResultsText(counter + 1, count - i - 1, variadic, []));
      block := block + ResultText(counter, variadic, []);
      counter := counter + 1;
    }
    assert block == attrs + ResultsText(resultCounter, count, variadic, []);
    block := block + BLOCK_END;
    BlockSplit(op, resultCounter, []);
  }

  /** Appends the lines of a block, cut at each newline. */
  method PushBlock(lines: seq<string>, block: string) returns (more: seq<string>)
    ensures more == lines + Split(block, '\n')
  {
    hide Split, IndexOf;
    more := lines;
    var start := 0;
    assert block[0..] == block;
    while start <= |block|
      invariant 0 <= start <= |block|
      invariant more + Split(block[start..], '\n') == lines + Split(block, '\n')
      decreases |block| - start
    {
      var end := IndexOf(block, '\n', start);
      SplitFrom(block, '\n', start, end);
      if end == |block| {
        assert block[start..] == block[start..end];
        more := more + [block[start..]];
        return;
      }
      more := more + [block[start..end]];
      start := end + 1;
    }
  }

  /** The file on disk: every line followed by a newline. */
  function Written(lines: seq<string>): string {
    if lines == [] then [] else lines[0] + ("\n" + Written(lines[1..]))
  }

  lemma {:induction false} WrittenAppend(a: seq<string>, b: seq<string>)
    ensures Written(a + b) == Written(a) + Written(b)
  {
    if a == [] {
      assert a + b == b;
    } else {
      assert (a + b)[1..] == a[1..] + b;
      WrittenAppend(a[1..], b);
    }
  }

  lemma {:induction false} WrittenIsJoined(lines: seq<string>)
    requires lines != []
    ensures Written(lines) == Join(lines, '\n') + "\n"
  {
    if |lines| > 1 {
      WrittenIsJoined(lines[1..]);
    } else {
      assert Written(lines[1..]) == [];
    }
  }

  /** Cutting a block into lines and writing them gives the block and one newline. */
  lemma BlockIsWritten(lines: seq<string>, block: string)
    ensures Written(lines + Split(block, '\n')) == Written(lines) + (block + "\n")
  {
    WrittenAppend(lines, Split(block, '\n'));
    WrittenIsJoined(Split(block, '\n'));
    JoinSplit(block, '\n');
  }

  lemma {:induction false} OpsSplit(ops: seq<Operation>, k: nat, id: nat, rest: string)
    requires k < |ops|
    ensures OpsText(ops, k, id, rest) ==
            BlockText(ops[k], id, []) + "\n" + OpsText(ops, k + 1, id + NormalizedOutputCount(ops[k].outputCount), rest)
  {
    hide BlockText;
    var tail := OpsText(ops, k + 1, id + NormalizedOutputCount(ops[k].outputCount), rest);
    BlockSplits(ops[k], id, "\n" + tail);
  }

  lemma BlockSplits(op: Operation, id: nat, rest: string)
    ensures BlockText(op, id, rest) == BlockText(op, id, []) + rest
  {
    hide BlockText, HeadText, ParamsText, AttrsText, ResultsText, BLOCK_END;
    BlockSplit(op, id, rest);
    BlockSplit(op, id, []);
  }

  /** The generator: the written lines are exactly the file that reads back. */
  method RenderTableFile(preamble: string, ops: seq<Operation>) returns (lines: seq<string>)
    ensures Written(lines) == FileText(preamble, ops)
    ensures DescribesAll(ReadFile(preamble, Written(lines)), ops)
  {
    hide ReadFile, DescribesAll, ReadBlock, Describes;
    FileMeaning(preamble, ops);
    hide OpsText, BlockText, Split, TABLE_OPEN, TABLE_CLOSE, Written;
    lines := PushBlock([], preamble);
    BlockIsWritten([], preamble);
    var opening := TABLE_OPEN + Digits(|ops|) + TABLE_RESERVED;
    NothingWritten();
    BlockIsWritten(lines, opening);
    lines := PushBlock(lines, opening);
    ghost var start := Written(lines);
    var resultCounter := 0;
    for k := 0 to |ops|
      invariant Written(lines) + OpsText(ops, k, resultCounter, TABLE_CLOSE + "\n")
             == start + OpsText(ops, 0, 0, TABLE_CLOSE + "\n")
    {
      OpsSplit(ops, k, resultCounter, TABLE_CLOSE + "\n");
      var block;
      block, resultCounter := RenderOpBlock(ops[k], resultCounter);
      BlockIsWritten(lines, block);
      lines := PushBlock(lines, block);
    }
    NoOpsLeft(ops, resultCounter, TABLE_CLOSE + "\n");
    BlockIsWritten(lines, TABLE_CLOSE);
    lines := PushBlock(lines, TABLE_CLOSE);
    assert start == preamble + "\n" + (opening + "\n");
  }

  lemma NothingWritten()
    ensures Written([]) == []
  {
  }

  lemma NoOpsLeft(ops: seq<Operation>, id: nat, rest: string)
    ensures OpsText(ops, |ops|, id, rest) == rest
  {
  }
}
