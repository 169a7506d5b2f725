/** Path templates: finding the `{name}` placeholders of a path and filling them in. */
module PathTemplate {
  import opened Text

  // The scan for placeholders, step by step. A missing closing brace sends it back to the start of the path.

  datatype Scan = Scan(names: seq<string>, at: nat)

  predicate InPath(p: string, scan: Scan) {
    scan.at <= |p|
  }

  /** One round of the loop; None when no opening brace is left. */
  function Round(p: string, scan: Scan): (next: Option<Scan>)
    requires InPath(p, scan)
    ensures next.Some? ==> InPath(p, next.value)
  {
    var a := IndexOf(p, '{', scan.at);
    if a == |p| then None
    else
      var b := IndexOf(p, '}', a);
      if b < |p| then Some(Scan(scan.names + [p[a + 1..b]], b + 1))
      else
        // find answers -1: the slice runs to the last character but one, and the scan restarts
        var end := if a + 1 <= |p| - 1 then |p| - 1 else a + 1;
        Some(Scan(scan.names + [p[a + 1..end]], 0))
  }

  /** The loop is still running after `n` rounds. */
  predicate RunsFor(p: string, scan: Scan, n: nat)
    requires InPath(p, scan)
    decreases n
  {
    n == 0 || (Round(p, scan).Some? && RunsFor(p, Round(p, scan).value, n - 1))
  }

  ghost predicate Stops(p: string) {
    exists n: nat :: !RunsFor(p, Scan([], 0), n)
  }

  /** Every opening brace has a closing brace somewhere after it. */
  ghost predicate Closed(p: string) {
    forall a :: 0 <= a < |p| && p[a] == '{' ==> exists b :: a < b < |p| && p[b] == '}'
  }

  lemma {:induction false} ClosedRunsOut(p: string, scan: Scan, n: nat)
    requires InPath(p, scan) && Closed(p) && n > |p| - scan.at
    ensures !RunsFor(p, scan, n)
    decreases n
  {
    if Round(p, scan).Some? {
      ClosedRunsOut(p, Round(p, scan).value, n - 1);
    }
  }

  /** An opening brace with nothing closing it is always still ahead of the scan. */
  lemma {:induction false} UnclosedRunsOn(p: string, open: nat, scan: Scan, n: nat)
    requires open < |p| && p[open] == '{' && forall b :: open < b < |p| ==> p[b] != '}'
    requires scan.at <= open
    ensures RunsFor(p, scan, n)
    decreases n
  {
    if n > 0 {
      var a := IndexOf(p, '{', scan.at);
      var b := IndexOf(p, '}', a);
      assert b < |p| ==> b < open;
      UnclosedRunsOn(p, open, Round(p, scan).value, n - 1);
    }
  }

  /** The scan ends exactly on the paths whose opening braces are all followed by a closing one. */
  lemma StopsIffClosed(p: string)
    ensures Stops(p) <==> Closed(p)
  {
    if Closed(p) {
      ClosedRunsOut(p, Scan([], 0), |p| + 1);
    } else {
      var open :| 0 <= open < |p| && p[open] == '{' && forall b :: open < b < |p| ==> p[b] != '}';
      forall n: nat ensures RunsFor(p, Scan([], 0), n) {
        UnclosedRunsOn(p, open, Scan([], 0), n);
      }
    }
  }

  /** The names found from position `at` on. */
  ghost function Params(p: string, at: nat): seq<string>
    requires at <= |p| && Closed(p)
    decreases |p| - at
  {
    var a := IndexOf(p, '{', at);
    if a == |p| then []
    else
      var b := IndexOf(p, '}', a);
      [p[a + 1..b]] + Params(p, b + 1)
  }

  lemma NoMoreParams(p: string, at: nat)
    requires at <= |p| && Closed(p) && IndexOf(p, '{', at) == |p|
    ensures Params(p, at) == []
  {
  }

  lemma NextParam(p: string, at: nat, a: nat, b: nat)
    requires at <= |p| && Closed(p) && a == IndexOf(p, '{', at) && a < |p| && b == IndexOf(p, '}', a)
    ensures b < |p| && Params(p, at) == [p[a + 1..b]] + Params(p, b + 1)
  {
    hide IndexOf;
  }

  /** The scan when its rounds are over. */
  ghost function Finished(p: string, scan: Scan): Scan
    requires InPath(p, scan) && Closed(p)
    decreases |p| - scan.at
  {
    if Round(p, scan).None? then scan else Finished(p, Round(p, scan).value)
  }

  /** On a path where the rounds end, they have added exactly the names from where they began. */
  lemma {:induction false} RoundsCollect(p: string, scan: Scan)
    requires InPath(p, scan) && Closed(p)
    ensures Finished(p, scan).names == scan.names + Params(p, scan.at)
    decreases |p| - scan.at
  {
    hide Closed, IndexOf;
    var a := IndexOf(p, '{', scan.at);
    if a < |p| {
      NextParam(p, scan.at, a, IndexOf(p, '}', a));
      RoundsCollect(p, Round(p, scan).value);
    }
  }

  method PathParams(p: string) returns (names: seq<string>)
    requires Closed(p)
    ensures names == Params(p, 0)
  {
    hide Closed, IndexOf, Params;
    names := [];
    var i := 0;
    while true
      invariant 0 <= i <= |p|
      invariant names + Params(p, i) == Params(p, 0)
      decreases |p| - i
    {
      var a := IndexOf(p, '{', i);
      if a == |p| {
        NoMoreParams(p, i);
        break;
      }
      var b := IndexOf(p, '}', a);
      NextParam(p, i, a, b);
      names := names + [p[a + 1..b]];
      i := b + 1;
    }
  }

  /** Python's `replace`: every occurrence, from left to right. */
  function Replace(s: string, pattern: string, value: string): string
    requires pattern != []
    decreases |s|
  {
    if s == [] then []
    else if pattern <= s then value + Replace(s[|pattern|..], pattern, value)
    else [s[0]] + Replace(s[1..], pattern, value)
  }

  function Placeholder(name: string): string {
    "{" + name + "}"
  }

  /** The overlay's value for a name, or `:name` when it has none. */
  function ValueOf(values: map<string, string>, name: string): string {
    if name in values then values[name] else ":" + name
  }

  function ReplaceAll(url: string, names: seq<string>, values: map<string, string>): string
    decreases |names|
  {
    if names == [] then url
    else ReplaceAll(Replace(url, Placeholder(names[0]), ValueOf(values, names[0])), names[1..], values)
  }

  /** The URL loop: the placeholders are replaced one after another. */
  method FillPath(p: string, values: map<string, string>) returns (url: string)
    requires Closed(p)
    ensures url == ReplaceAll(p, Params(p, 0), values)
  {
    var names := PathParams(p);
    url := p;
    for k := 0 to |names|
      invariant ReplaceAll(url, names[k..], values) == ReplaceAll(p, names, values)
    {
      assert names[k..][0] == names[k] && names[k..][1..] == names[k + 1..];
      url := Replace(url, Placeholder(names[k]), ValueOf(values, names[k]));
    }
  }

  // Templates: literal text and named holes.

  datatype Piece = Literal(text: string) | Hole(name: string)

  predicate IsBrace(c: char) {
    c == '{' || c == '}'
  }

  predicate Braceless(s: string) {
    forall i :: 0 <= i < |s| ==> !IsBrace(s[i])
  }

  predicate IsTemplate(template: seq<Piece>) {
    forall k :: 0 <= k < |template| ==>
      match template[k] case Literal(t) => Braceless(t) case Hole(n) => Braceless(n)
  }

  /** Pieces as the scan sees them: a hole runs from an opening brace to the next closing one, whatever is between. */
  predicate IsScanned(template: seq<Piece>) {
    forall k :: 0 <= k < |template| ==>
      match template[k] case Literal(t) => '{' !in t case Hole(n) => '}' !in n
  }

  function PieceText(piece: Piece): string {
    match piece case Literal(t) => t case Hole(n) => Placeholder(n)
  }

  function Flatten(pieces: seq<Piece>): string {
    if pieces == [] then [] else PieceText(pieces[0]) + Flatten(pieces[1..])
  }

  function Names(template: seq<Piece>): seq<string> {
    if template == [] then []
    else (if template[0].Hole? then [template[0].name] else []) + Names(template[1..])
  }

  lemma LiteralIsPassed(done: string, text: string, rest: string)
    requires Closed(done + text + rest) && '{' !in text
    ensures Params(done + text + rest, |done|) == Params(done + text + rest, |done + text|)
  {
    hide Closed, IndexOf;
    var p := done + text + rest;
    assert forall j :: |done| <= j < |done + text| ==> p[j] == text[j - |done|];
    IndexOfIs(p, '{', |done|, IndexOf(p, '{', |done + text|));
  }

  lemma HoleIsFound(done: string, name: string, rest: string)
    requires Closed(done + Placeholder(name) + rest) && '}' !in name
    ensures var p := done + Placeholder(name) + rest;
            Params(p, |done|) == [name] + Params(p, |done + Placeholder(name)|)
  {
    hide Closed, IndexOf, Params;
    var p, end := done + Placeholder(name) + rest, |done| + |name| + 1;
    assert p[|done|] == '{' && p[end] == '}';
    assert forall j :: |done| < j < end ==> p[j] == name[j - |done| - 1];
    IndexOfIs(p, '{', |done|, |done|);
    IndexOfIs(p, '}', |done|, end);
    assert p[|done| + 1..end] == name;
    NextParam(p, |done|, |done|, end);
  }

  /** The scan of a template's text finds its holes, in order, whatever text `done` comes before. */
  lemma {:induction false} TemplateParams(done: string, template: seq<Piece>)
    requires IsScanned(template)
    requires Closed(done + Flatten(template))
    ensures Params(done + Flatten(template), |done|) == Names(template)
    decreases |template|
  {
    hide Params, Closed, Placeholder, Braceless;
    var p := done + Flatten(template);
    if template == [] {
      EndOfPath(p);
    } else {
      var rest := Flatten(template[1..]);
      assert p == done + PieceText(template[0]) + rest;
      TemplateParams(done + PieceText(template[0]), template[1..]);
      match template[0]
      case Literal(t) => LiteralIsPassed(done, t, rest);
      case Hole(n) => HoleIsFound(done, n, rest);
    }
  }

  lemma EndOfPath(p: string)
    requires Closed(p)
    ensures Params(p, |p|) == []
  {
  }

  lemma {:induction false} TemplateIsClosed(done: string, template: seq<Piece>)
    requires IsScanned(template) && Closed(done)
    ensures Closed(done + Flatten(template))
    decreases |template|
  {
    if template == [] {
      assert done + Flatten(template) == done;
    } else {
      var head := PieceText(template[0]);
      PieceIsClosed(done, template[0]);
      assert done + Flatten(template) == (done + head) + Flatten(template[1..]);
      TemplateIsClosed(done + head, template[1..]);
    }
  }

  lemma PieceIsClosed(done: string, piece: Piece)
    requires Closed(done) && IsScanned([piece])
    ensures Closed(done + PieceText(piece))
  {
    assert piece == [piece][0];
    var p := done + PieceText(piece);
    assert piece.Literal? ==> forall a :: |done| <= a < |p| ==> p[a] == piece.text[a - |done|];
    forall a | 0 <= a < |p| && p[a] == '{'
      ensures exists b :: a < b < |p| && p[b] == '}'
    {
      if a < |done| {
        var b :| a < b < |done| && done[b] == '}';
        assert p[b] == '}';
      } else {
        assert p[|p| - 1] == '}';
      }
    }
  }

  /** The scan ends with exactly the names of the holes, in order. */
  lemma ParamsAreTheHoles(template: seq<Piece>)
    requires IsScanned(template)
    ensures Closed(Flatten(template)) && Params(Flatten(template), 0) == Names(template)
  {
    assert [] + Flatten(template) == Flatten(template);
    TemplateIsClosed([], template);
    TemplateParams([], template);
  }

  /** Every path on which the scan ends is made of such pieces, from any place the scan can be at. */
  lemma {:induction false} ClosedIsScanned(p: string, at: nat) returns (template: seq<Piece>)
    requires Closed(p) && at <= |p|
    ensures IsScanned(template) && Flatten(template) == p[at..]
    decreases |p| - at
  {
    hide Placeholder, IndexOf;
    var a := IndexOf(p, '{', at);
    if a == |p| {
      template := [Literal(p[at..])];
      assert Flatten(template[1..]) == [];
    } else {
      var b := IndexOf(p, '}', a);
      assert a < b < |p|;
      var rest := ClosedIsScanned(p, b + 1);
      var text, name := p[at..a], p[a + 1..b];
      template := [Literal(text), Hole(name)] + rest;
      TwoPieces(text, name, rest);
      PathParts(p, at, a, b);
    }
  }

  lemma TwoPieces(text: string, name: string, rest: seq<Piece>)
    ensures Flatten([Literal(text), Hole(name)] + rest) == text + (Placeholder(name) + Flatten(rest))
  {
    var pieces := [Literal(text), Hole(name)] + rest;
    assert pieces[1..] == [Hole(name)] + rest && pieces[1..][1..] == rest;
  }

  lemma PathParts(p: string, at: nat, a: nat, b: nat)
    requires at <= a < b < |p| && p[a] == '{' && p[b] == '}'
    ensures p[at..] == p[at..a] + (Placeholder(p[a + 1..b]) + p[b + 1..])
  {
  }

  /** So the names the scan collects are those of the holes on every path where it ends, and a template is such a path. */
  lemma EveryClosedPath(p: string) returns (template: seq<Piece>)
    requires Closed(p)
    ensures IsScanned(template) && Flatten(template) == p && Params(p, 0) == Names(template)
  {
    template := ClosedIsScanned(p, 0);
    assert p[0..] == p;
    ParamsAreTheHoles(template);
  }

  lemma TemplateIsScanned(template: seq<Piece>)
    requires IsTemplate(template)
    ensures IsScanned(template)
  {
  }

  // Replacing one after another against substituting all at once.

  /** The next brace at or after `from`, or the length. */
  function NextBrace(s: string, from: nat): (b: nat)
    requires from <= |s|
    ensures from <= b <= |s| && (b < |s| ==> IsBrace(s[b]))
    ensures forall j :: from <= j < b ==> !IsBrace(s[j])
    decreases |s| - from
  {
    if from == |s| || IsBrace(s[from]) then from else NextBrace(s, from + 1)
  }

  /** Text that neither holds the placeholder of `name` nor could begin one: each opening brace in it is followed, inside
      the text, by another brace, and the two do not enclose `name`. */
  predicate Inert(text: string, name: string) {
    forall a :: 0 <= a < |text| && text[a] == '{' ==> InertAt(text, name, a)
  }

  predicate InertAt(text: string, name: string, a: nat)
    requires a < |text|
  {
    var b := NextBrace(text, a + 1);
    b < |text| && !(text[b] == '}' && text[a + 1..b] == name)
  }

  /** No value can make or begin a placeholder that is still to be replaced when it is in place. */
  ghost predicate ValuesAreInert(template: seq<Piece>, values: map<string, string>) {
    var names := Names(template);
    forall i, j :: 0 <= i < j < |names| ==> Inert(ValueOf(values, names[i]), names[j])
  }

  /** A placeholder that starts in `text`, where another brace follows, lies in `text`. */
  lemma PlaceholderAt(text: string, rest: string, name: string, a: nat)
    requires Braceless(name) && a < |text| && NextBrace(text, a + 1) < |text|
    requires Placeholder(name) <= (text + rest)[a..]
    ensures text[a] == '{'
    ensures text[NextBrace(text, a + 1)] == '}' && text[a + 1..NextBrace(text, a + 1)] == name
  {
    hide NextBrace;
    var all, pattern := text + rest, Placeholder(name);
    forall j | 0 <= j < |pattern|
      ensures pattern[j] == all[a + j]
    {
      assert all[a..][j] == all[a + j];
    }
    assert text[a] == all[a] == pattern[0];
    EnclosedName(all, name, a);
    var b, end := NextBrace(text, a + 1), a + |name| + 1;
    assert IsBrace(all[b]) && IsBrace(all[end]);
    assert b == end;
    assert text[a + 1..b] == all[a + 1..end];
  }

  lemma NoPlaceholderAt(text: string, rest: string, name: string, a: nat)
    requires Inert(text, name) && Braceless(name) && a < |text|
    ensures !(Placeholder(name) <= (text + rest)[a..])
  {
    hide NextBrace, Braceless;
    var s := (text + rest)[a..];
    if Placeholder(name) <= s {
      assert s[0] == Placeholder(name)[0] == '{';
      assert text[a] == '{';
      assert InertAt(text, name, a);
      PlaceholderAt(text, rest, name, a);
    }
  }

  lemma EnclosedName(all: string, name: string, a: nat)
    requires Braceless(name) && a + |name| + 1 < |all|
    requires forall j :: 0 <= j < |name| + 2 ==> Placeholder(name)[j] == all[a + j]
    ensures all[a + 1..a + |name| + 1] == name && all[a + |name| + 1] == '}'
    ensures forall j :: a < j <= a + |name| ==> !IsBrace(all[j])
  {
    forall j | a < j <= a + |name|
      ensures all[j] == name[j - a - 1]
    {
      assert Placeholder(name)[j - a] == all[a + (j - a)];
    }
    assert Placeholder(name)[|name| + 1] == all[a + (|name| + 1)];
  }

  /** Inert text is left as it is, whatever follows. */
  lemma {:induction false} InertIsKept(text: string, rest: string, name: string, value: string, a: nat)
    requires Inert(text, name) && Braceless(name) && a <= |text|
    ensures Replace((text + rest)[a..], Placeholder(name), value) == text[a..] + Replace(rest, Placeholder(name), value)
    decreases |text| - a
  {
    hide Inert;
    if a == |text| {
      assert (text + rest)[a..] == rest;
    } else {
      NoPlaceholderAt(text, rest, name, a);
      assert (text + rest)[a..][1..] == (text + rest)[a + 1..];
      InertIsKept(text, rest, name, value, a + 1);
      assert [text[a]] + text[a + 1..] == text[a..];
    }
  }

  lemma UnopenedIsInert(text: string, name: string)
    requires '{' !in text
    ensures Inert(text, name)
  {
  }

  lemma BracelessIsInert(text: string, name: string)
    requires Braceless(text)
    ensures Inert(text, name)
  {
  }

  lemma OtherHoleIsInert(m: string, name: string)
    requires Braceless(m) && m != name
    ensures Inert(Placeholder(m), name)
  {
    var s := Placeholder(m);
    assert forall j :: 1 <= j <= |m| ==> s[j] == m[j - 1];
    assert forall j :: 1 <= j <= |m| ==> !IsBrace(s[j]);
    assert IsBrace(s[|m| + 1]);
    assert NextBrace(s, 1) == |m| + 1;
    assert s[1..|m| + 1] == m;
    assert InertAt(s, name, 0);
  }

  /** Pieces in which the holes of `name` are filled. */
  function Fill(pieces: seq<Piece>, name: string, value: string): seq<Piece> {
    seq(|pieces|, k requires 0 <= k < |pieces| => if pieces[k] == Hole(name) then Literal(value) else pieces[k])
  }

  predicate SafeFor(pieces: seq<Piece>, name: string) {
    forall k :: 0 <= k < |pieces| ==>
      match pieces[k] case Literal(t) => Inert(t, name) case Hole(n) => Braceless(n)
  }

  /** One textual replacement fills exactly the holes of that name. */
  lemma {:induction false} ReplaceFills(pieces: seq<Piece>, name: string, value: string)
    requires SafeFor(pieces, name) && Braceless(name)
    ensures Replace(Flatten(pieces), Placeholder(name), value) == Flatten(Fill(pieces, name, value))
    decreases |pieces|
  {
    hide Inert;
    if pieces != [] {
      var head, tail := pieces[0], pieces[1..];
      var rest := Flatten(tail);
      ReplaceFills(tail, name, value);
      assert Fill(pieces, name, value)[1..] == Fill(tail, name, value);
      if head == Hole(name) {
        assert (Placeholder(name) + rest)[|Placeholder(name)|..] == rest;
      } else {
        if head.Hole? {
          OtherHoleIsInert(head.name, name);
        }
        assert (PieceText(head) + rest)[0..] == PieceText(head) + rest;
        InertIsKept(PieceText(head), rest, name, value, 0);
      }
    }
  }

  /** The template with the holes named in `filled` holding their values. */
  function Partly(template: seq<Piece>, filled: set<string>, values: map<string, string>): seq<Piece> {
    seq(|template|, k requires 0 <= k < |template| =>
      if template[k].Hole? && template[k].name in filled then Literal(ValueOf(values, template[k].name)) else template[k])
  }

  lemma {:induction false} NamesAreHoles(template: seq<Piece>)
    ensures forall k :: 0 <= k < |template| && template[k].Hole? ==> template[k].name in Names(template)
    ensures forall n :: n in Names(template) ==> Hole(n) in template
  {
    if template != [] {
      NamesAreHoles(template[1..]);
      assert forall k :: 0 < k < |template| ==> template[k] == template[1..][k - 1];
    }
  }

  lemma PartlyIsSafe(template: seq<Piece>, filled: set<string>, values: map<string, string>, name: string)
    requires IsTemplate(template) && name in Names(template)
    requires forall n :: n in filled ==> Inert(ValueOf(values, n), name)
    ensures SafeFor(Partly(template, filled, values), name) && Braceless(name)
  {
    hide Inert;
    NamesAreHoles(template);
    forall k | 0 <= k < |template|
      ensures match Partly(template, filled, values)[k] case Literal(t) => Inert(t, name) case Hole(n) => Braceless(n)
    {
      if template[k].Literal? {
        BracelessIsInert(template[k].text, name);
      }
    }
  }

  /** The first `n` names. */
  ghost function FirstNames(template: seq<Piece>, n: nat): set<string>
    requires n <= |Names(template)|
  {
    set name | name in Names(template)[..n]
  }

  /** All holes filled at once: with the given value, or with the name after a colon. */
  function Substitute(template: seq<Piece>, values: map<string, string>): string {
    if template == [] then []
    else
      (match template[0] case Literal(t) => t case Hole(n) => if n in values then values[n] else ":" + n) +
      Substitute(template[1..], values)
  }

  lemma {:induction false} FullyIsSubstitute(template: seq<Piece>, filled: set<string>, values: map<string, string>)
    requires forall k :: 0 <= k < |template| && template[k].Hole? ==> template[k].name in filled
    ensures Flatten(Partly(template, filled, values)) == Substitute(template, values)
  {
    if template != [] {
      assert Partly(template, filled, values)[1..] == Partly(template[1..], filled, values);
      FullyIsSubstitute(template[1..], filled, values);
    }
  }

  // The exact condition, replacement by replacement. Here a literal may be any text.

  /** How many times `replace` finds its pattern. */
  function Found(s: string, pattern: string): nat
    requires pattern != []
    decreases |s|
  {
    if s == [] then 0
    else if pattern <= s then 1 + Found(s[|pattern|..], pattern)
    else Found(s[1..], pattern)
  }

  function Holes(pieces: seq<Piece>, name: string): nat {
    if pieces == [] then 0 else (if pieces[0] == Hole(name) then 1 else 0) + Holes(pieces[1..], name)
  }

  predicate NamesAreBraceless(pieces: seq<Piece>) {
    forall k :: 0 <= k < |pieces| && pieces[k].Hole? ==> Braceless(pieces[k].name)
  }

  lemma {:induction false} FoundKept(text: string, rest: string, name: string, a: nat)
    requires Inert(text, name) && Braceless(name) && a <= |text|
    ensures Found((text + rest)[a..], Placeholder(name)) == Found(rest, Placeholder(name))
    decreases |text| - a
  {
    hide Inert;
    if a == |text| {
      assert (text + rest)[a..] == rest;
    } else {
      NoPlaceholderAt(text, rest, name, a);
      assert (text + rest)[a..][1..] == (text + rest)[a + 1..];
      FoundKept(text, rest, name, a + 1);
    }
  }

  /** `d` added up `n` times. */
  function Times(n: nat, d: int): int {
    if n == 0 then 0 else d + Times(n - 1, d)
  }

  lemma {:induction false} TimesDiffers(n: nat, m: nat, d: int)
    requires n > m && d != 0
    ensures if d > 0 then Times(n, d) > Times(m, d) else Times(n, d) < Times(m, d)
    decreases n
  {
    if n > m + 1 {
      TimesDiffers(n - 1, m, d);
    }
  }

  lemma {:induction false} ReplacedLength(s: string, pattern: string, value: string)
    requires pattern != []
    ensures |Replace(s, pattern, value)| == |s| + Times(Found(s, pattern), |value| - |pattern|)
    decreases |s|
  {
    if s != [] {
      ReplacedLength(if pattern <= s then s[|pattern|..] else s[1..], pattern, value);
    }
  }

  lemma {:induction false} FilledLength(pieces: seq<Piece>, name: string, value: string)
    ensures |Flatten(Fill(pieces, name, value))| ==
            |Flatten(pieces)| + Times(Holes(pieces, name), |value| - |Placeholder(name)|)
    decreases |pieces|
  {
    if pieces != [] {
      FilledLength(pieces[1..], name, value);
      assert Fill(pieces, name, value)[1..] == Fill(pieces[1..], name, value);
    }
  }

  /** A leading literal stands in front of the rest, before and after filling. */
  lemma LeadingLiteral(t: string, tail: seq<Piece>, name: string, value: string)
    ensures Flatten([Literal(t)] + tail) == t + Flatten(tail)
    ensures Flatten(Fill([Literal(t)] + tail, name, value)) == t + Flatten(Fill(tail, name, value))
    ensures Holes([Literal(t)] + tail, name) == Holes(tail, name)
  {
    var pieces := [Literal(t)] + tail;
    assert pieces[1..] == tail;
    assert Fill(pieces, name, value)[1..] == Fill(tail, name, value);
  }

  /** Part of a leading literal can be cut off. */
  lemma CutLiteral(t: string, tail: seq<Piece>, name: string, value: string, m: nat)
    requires m <= |t|
    ensures Flatten([Literal(t)] + tail) == t[..m] + Flatten([Literal(t[m..])] + tail)
    ensures Flatten(Fill([Literal(t)] + tail, name, value)) ==
            t[..m] + Flatten(Fill([Literal(t[m..])] + tail, name, value))
    ensures Holes([Literal(t)] + tail, name) == Holes([Literal(t[m..])] + tail, name)
  {
    LeadingLiteral(t, tail, name, value);
    LeadingLiteral(t[m..], tail, name, value);
    hide Flatten, Fill, Holes;
    assert t == t[..m] + t[m..];
    Regroup(t[..m], t[m..], Flatten(tail));
    Regroup(t[..m], t[m..], Flatten(Fill(tail, name, value)));
  }

  lemma Regroup(a: string, b: string, c: string)
    ensures (a + b) + c == a + (b + c)
  {
  }

  lemma LiteralInFront(pieces: seq<Piece>, text: string)
    requires text <= Flatten(pieces) && text != [] && '{' !in text
    ensures pieces != [] && pieces[0].Literal?
  {
    assert text[0] == Flatten(pieces)[0];
  }

  /** Dropping text that stands in front and starts no hole. */
  lemma {:induction false} DropText(pieces: seq<Piece>, name: string, value: string, text: string)
    returns (rest: seq<Piece>)
    requires NamesAreBraceless(pieces) && text <= Flatten(pieces) && '{' !in text
    ensures NamesAreBraceless(rest) && Holes(rest, name) == Holes(pieces, name)
    ensures Flatten(pieces) == text + Flatten(rest)
    ensures Flatten(Fill(pieces, name, value)) == text + Flatten(Fill(rest, name, value))
    decreases |pieces|
  {
    hide Flatten, Fill, Holes;
    if text == [] {
      rest := pieces;
    } else {
      LiteralInFront(pieces, text);
      var t, tail := pieces[0].text, pieces[1..];
      assert pieces == [Literal(t)] + tail;
      if |t| <= |text| {
        LeadingLiteral(t, tail, name, value);
        var more := SplitText(t, Flatten(tail), text);
        rest := DropText(tail, name, value, more);
        Regroup(t, more, Flatten(rest));
        Regroup(t, more, Flatten(Fill(rest, name, value)));
      } else {
        LeadingLiteral(t, tail, name, value);
        CutLiteral(t, tail, name, value, |text|);
        ShorterPrefix(t, Flatten(tail), text);
        rest := [Literal(t[|text|..])] + tail;
      }
    }
  }

  lemma SplitText(t: string, rest: string, text: string) returns (more: string)
    requires text <= t + rest && |t| <= |text| && '{' !in text
    ensures text == t + more && more <= rest && '{' !in more
  {
    more := text[|t|..];
    assert text[..|t|] == t;
    assert text == t + more;
    SlidePrefix(t, more, rest);
  }

  lemma ShorterPrefix(t: string, rest: string, text: string)
    requires text <= t + rest && |text| < |t|
    ensures t[..|text|] == text
  {
  }

  lemma SlidePrefix(p: string, a: string, b: string)
    requires p + a <= p + b
    ensures a <= b
  {
    assert a == (p + a)[|p|..] && b == (p + b)[|p|..];
    forall i | 0 <= i < |a| ensures a[i] == b[i] {
      assert (p + a)[|p| + i] == (p + b)[|p| + i];
    }
  }

  /** Every hole is found. If nothing else is, the replacement fills exactly the holes; if something else is, it shows,
      unless the lengths differ or the value is the placeholder itself. */
  ghost predicate FoundAgainstHoles(pieces: seq<Piece>, name: string, value: string) {
    var found, holes := Found(Flatten(pieces), Placeholder(name)), Holes(pieces, name);
    var replaced, filled := Replace(Flatten(pieces), Placeholder(name), value), Flatten(Fill(pieces, name, value));
    && holes <= found
    && (found == holes ==> replaced == filled)
    && (found > holes && |value| == |Placeholder(name)| && value != Placeholder(name) ==> replaced != filled)
  }

  lemma {:induction false} HolesAreFound(pieces: seq<Piece>, name: string, value: string)
    requires NamesAreBraceless(pieces) && Braceless(name)
    ensures FoundAgainstHoles(pieces, name, value)
    decreases |Flatten(pieces)|, |pieces|
  {
    if pieces == [] {
      assert Fill(pieces, name, value) == [];
    } else {
      hide Fill, Holes;
      var head, tail := pieces[0], pieces[1..];
      if head == Hole(name) {
        HoleCase(pieces, name, value);
      } else if head.Hole? {
        OtherHoleCase(pieces, name, value);
      } else if head.text == [] {
        assert pieces == [Literal([])] + tail;
        LeadingLiteral([], tail, name, value);
        HolesAreFound(tail, name, value);
        assert [] + Flatten(tail) == Flatten(tail);
        assert [] + Flatten(Fill(tail, name, value)) == Flatten(Fill(tail, name, value));
      } else if Placeholder(name) <= Flatten(pieces) {
        AccidentCase(pieces, name, value);
      } else {
        OneCharCase(pieces, name, value);
      }
    }
  }

  /** A leading hole stands in front of the rest, and is filled if it has the name. */
  lemma LeadingHole(pieces: seq<Piece>, name: string, value: string)
    requires pieces != [] && pieces[0].Hole?
    ensures Flatten(pieces) == Placeholder(pieces[0].name) + Flatten(pieces[1..])
    ensures Flatten(Fill(pieces, name, value)) ==
            (if pieces[0].name == name then value else Placeholder(pieces[0].name)) + Flatten(Fill(pieces[1..], name, value))
    ensures Holes(pieces, name) == (if pieces[0].name == name then 1 else 0) + Holes(pieces[1..], name)
  {
    assert Fill(pieces, name, value)[1..] == Fill(pieces[1..], name, value);
  }

  lemma HoleCase(pieces: seq<Piece>, name: string, value: string)
    requires NamesAreBraceless(pieces) && Braceless(name) && pieces != [] && pieces[0] == Hole(name)
    ensures FoundAgainstHoles(pieces, name, value)
    decreases |Flatten(pieces)|, |pieces|, 0
  {
    hide Flatten, Fill, Holes;
    var tail, pattern := pieces[1..], Placeholder(name);
    LeadingHole(pieces, name, value);
    HolesAreFound(tail, name, value);
    assert (pattern + Flatten(tail))[|pattern|..] == Flatten(tail);
    SamePrefix(value, Replace(Flatten(tail), pattern, value), Flatten(Fill(tail, name, value)));
  }

  lemma OtherHoleCase(pieces: seq<Piece>, name: string, value: string)
    requires NamesAreBraceless(pieces) && Braceless(name) && pieces != [] && pieces[0].Hole? && pieces[0].name != name
    ensures FoundAgainstHoles(pieces, name, value)
    decreases |Flatten(pieces)|, |pieces|, 0
  {
    hide Inert, Flatten, Fill, Holes;
    var text, tail, pattern := Placeholder(pieces[0].name), pieces[1..], Placeholder(name);
    LeadingHole(pieces, name, value);
    HolesAreFound(tail, name, value);
    var rest := Flatten(tail);
    OtherHoleIsInert(pieces[0].name, name);
    InertIsKept(text, rest, name, value, 0);
    FoundKept(text, rest, name, 0);
    assert (text + rest)[0..] == text + rest && text[0..] == text;
    SamePrefix(text, Replace(rest, pattern, value), Flatten(Fill(tail, name, value)));
  }

  lemma OneCharCase(pieces: seq<Piece>, name: string, value: string)
    requires NamesAreBraceless(pieces) && Braceless(name) && pieces != [] && pieces[0].Literal? && pieces[0].text != []
    requires !(Placeholder(name) <= Flatten(pieces))
    ensures FoundAgainstHoles(pieces, name, value)
    decreases |Flatten(pieces)|, |pieces|, 0
  {
    hide Flatten, Fill, Holes, Placeholder;
    var t, tail, pattern := pieces[0].text, pieces[1..], Placeholder(name);
    var next := [Literal(t[1..])] + tail;
    assert pieces == [Literal(t)] + tail;
    CutLiteral(t, tail, name, value, 1);
    assert Flatten(pieces)[1..] == Flatten(next);
    assert Flatten(pieces)[0] == t[0] && t[..1] == [t[0]];
    HolesAreFound(next, name, value);
    SamePrefix([t[0]], Replace(Flatten(next), pattern, value), Flatten(Fill(next, name, value)));
  }

  lemma AccidentCase(pieces: seq<Piece>, name: string, value: string)
    requires NamesAreBraceless(pieces) && Braceless(name) && pieces != [] && pieces[0].Literal? && pieces[0].text != []
    requires Placeholder(name) <= Flatten(pieces)
    ensures FoundAgainstHoles(pieces, name, value)
    decreases |Flatten(pieces)|, |pieces|, 0
  {
    var s, pattern := Flatten(pieces), Placeholder(name);
    var rest := DropPlaceholder(pieces, name, value);
    assert s[|pattern|..] == Flatten(rest);
    HolesAreFound(rest, name, value);
    hide Flatten, Fill, Holes;
    var filled := Flatten(Fill(rest, name, value));
    if |value| == |pattern| && value != pattern {
      var replaced := value + Replace(Flatten(rest), pattern, value);
      assert replaced[..|pattern|] == value && (pattern + filled)[..|pattern|] == pattern;
    }
  }

  /** A placeholder that begins in a literal lies in literals, so filling holes leaves it alone. */
  lemma DropPlaceholder(pieces: seq<Piece>, name: string, value: string) returns (rest: seq<Piece>)
    requires NamesAreBraceless(pieces) && Braceless(name) && pieces != [] && pieces[0].Literal? && pieces[0].text != []
    requires Placeholder(name) <= Flatten(pieces)
    ensures NamesAreBraceless(rest) && Holes(rest, name) == Holes(pieces, name)
    ensures Flatten(pieces) == Placeholder(name) + Flatten(rest)
    ensures Flatten(Fill(pieces, name, value)) == Placeholder(name) + Flatten(Fill(rest, name, value))
  {
    hide Flatten, Fill, Holes;
    var t, tail, end := pieces[0].text, pieces[1..], name + "}";
    var next := [Literal(t[1..])] + tail;
    assert pieces == [Literal(t)] + tail;
    CutLiteral(t, tail, name, value, 1);
    assert Placeholder(name) == ['{'] + end;
    assert t[..1] == ['{'] by {
      assert Flatten(pieces)[0] == t[0];
    }
    SlidePrefix(['{'], end, Flatten(next));
    rest := DropText(next, name, value, end);
    Regroup(['{'], end, Flatten(rest));
    Regroup(['{'], end, Flatten(Fill(rest, name, value)));
  }

  lemma SamePrefix(p: string, a: string, b: string)
    ensures p + a == p + b <==> a == b
  {
    assert (p + a)[|p|..] == a && (p + b)[|p|..] == b;
  }

  /** One replacement fills exactly the holes of its name if and only if it finds nothing else, or puts back what it finds. */
  lemma ReplaceFillsIff(pieces: seq<Piece>, name: string, value: string)
    requires NamesAreBraceless(pieces) && Braceless(name)
    ensures Replace(Flatten(pieces), Placeholder(name), value) == Flatten(Fill(pieces, name, value)) <==>
            Found(Flatten(pieces), Placeholder(name)) == Holes(pieces, name) || value == Placeholder(name)
  {
    var s, pattern := Flatten(pieces), Placeholder(name);
    var found, holes, d := Found(s, pattern), Holes(pieces, name), |value| - |pattern|;
    HolesAreFound(pieces, name, value);
    ReplacedLength(s, pattern, value);
    FilledLength(pieces, name, value);
    if value == pattern {
      ReplaceBySame(s, pattern);
      FillBySame(pieces, name);
    } else if found > holes && d != 0 {
      TimesDiffers(found, holes, d);
    }
  }

  lemma {:induction false} ReplaceBySame(s: string, pattern: string)
    requires pattern != []
    ensures Replace(s, pattern, pattern) == s
    decreases |s|
  {
    if s != [] {
      if pattern <= s {
        ReplaceBySame(s[|pattern|..], pattern);
        assert s == pattern + s[|pattern|..];
      } else {
        ReplaceBySame(s[1..], pattern);
      }
    }
  }

  lemma {:induction false} FillBySame(pieces: seq<Piece>, name: string)
    ensures Flatten(Fill(pieces, name, Placeholder(name))) == Flatten(pieces)
    decreases |pieces|
  {
    if pieces != [] {
      FillBySame(pieces[1..], name);
      assert Fill(pieces, name, Placeholder(name))[1..] == Fill(pieces[1..], name, Placeholder(name));
    }
  }

  /** The template with its first `n` names filled at once. */
  ghost function FilledTo(template: seq<Piece>, n: nat, values: map<string, string>): seq<Piece>
    requires n <= |Names(template)|
  {
    Partly(template, FirstNames(template, n), values)
  }

  /** At each turn the name's placeholder stands only where a hole of that name is, or is replaced by itself. */
  ghost predicate EachTurnClean(template: seq<Piece>, values: map<string, string>) {
    forall n :: 0 <= n < |Names(template)| ==> TurnIsClean(template, values, n)
  }

  ghost predicate TurnIsClean(template: seq<Piece>, values: map<string, string>, n: nat)
    requires n < |Names(template)|
  {
    var pieces, name := FilledTo(template, n, values), Names(template)[n];
    Found(Flatten(pieces), Placeholder(name)) == Holes(pieces, name) || ValueOf(values, name) == Placeholder(name)
  }

  /** After every replacement the URL is the template with the names so far filled at once. */
  ghost predicate InStep(template: seq<Piece>, values: map<string, string>) {
    forall n :: 0 <= n <= |Names(template)| ==> InStepAt(template, values, n)
  }

  ghost predicate InStepAt(template: seq<Piece>, values: map<string, string>, n: nat)
    requires n <= |Names(template)|
  {
    ReplaceAll(Flatten(template), Names(template)[..n], values) == Flatten(FilledTo(template, n, values))
  }

  lemma {:induction false} ReplaceOneMore(url: string, names: seq<string>, name: string, values: map<string, string>)
    ensures ReplaceAll(url, names + [name], values) ==
            Replace(ReplaceAll(url, names, values), Placeholder(name), ValueOf(values, name))
    decreases |names|
  {
    hide Replace;
    var all := names + [name];
    if names == [] {
      assert all[1..] == [];
    } else {
      assert all[1..] == names[1..] + [name];
      ReplaceOneMore(Replace(url, Placeholder(names[0]), ValueOf(values, names[0])), names[1..], name, values);
    }
  }

  /** One turn, starting in step, ends in step exactly if it is clean. */
  lemma OneTurn(template: seq<Piece>, values: map<string, string>, n: nat)
    requires IsTemplate(template) && n < |Names(template)| && InStepAt(template, values, n)
    ensures InStepAt(template, values, n + 1) <==> TurnIsClean(template, values, n)
  {
    hide Replace, Flatten, Found, Holes;
    var names, pieces := Names(template), FilledTo(template, n, values);
    var name, filled := names[n], FirstNames(template, n);
    NamesAreHoles(template);
    assert names[..n + 1] == names[..n] + [name];
    ReplaceOneMore(Flatten(template), names[..n], name, values);
    assert FirstNames(template, n + 1) == filled + {name};
    assert Fill(pieces, name, ValueOf(values, name)) == Partly(template, filled + {name}, values);
    assert Hole(name) in template;
    ReplaceFillsIff(pieces, name, ValueOf(values, name));
  }

  /** Replacing one after another keeps step with substituting at once, at every turn, if and only if every turn is clean. */
  lemma InStepIff(template: seq<Piece>, values: map<string, string>)
    requires IsTemplate(template)
    ensures InStep(template, values) <==> EachTurnClean(template, values)
  {
    hide InStepAt, TurnIsClean;
    if EachTurnClean(template, values) {
      forall n | 0 <= n <= |Names(template)| ensures InStepAt(template, values, n) {
        CleanTurns(template, values, n);
      }
    }
    if InStep(template, values) {
      forall n | 0 <= n < |Names(template)| ensures TurnIsClean(template, values, n) {
        OneTurn(template, values, n);
      }
    }
  }

  lemma {:induction false} CleanTurns(template: seq<Piece>, values: map<string, string>, n: nat)
    requires IsTemplate(template) && n <= |Names(template)|
    requires forall k :: 0 <= k < n ==> TurnIsClean(template, values, k)
    ensures InStepAt(template, values, n)
    decreases n
  {
    hide TurnIsClean;
    if n == 0 {
      assert Names(template)[..0] == [] && FirstNames(template, 0) == {};
      assert Partly(template, {}, values) == template;
    } else {
      CleanTurns(template, values, n - 1);
      hide InStepAt;
      OneTurn(template, values, n - 1);
    }
  }

  /** Being in step after the last turn is having the finished URL. */
  lemma LastStepIsSubstitute(template: seq<Piece>, values: map<string, string>)
    ensures InStepAt(template, values, |Names(template)|) <==>
            ReplaceAll(Flatten(template), Names(template), values) == Substitute(template, values)
  {
    hide Replace, Flatten, Substitute;
    var names := Names(template);
    assert names[..|names|] == names;
    NamesAreHoles(template);
    FullyIsSubstitute(template, FirstNames(template, |names|), values);
  }

  /** Filling a template's placeholders one after another is filling them all at once whenever every turn is clean. */
  lemma SequentialIsSimultaneous(template: seq<Piece>, values: map<string, string>)
    requires IsTemplate(template) && EachTurnClean(template, values)
    ensures ReplaceAll(Flatten(template), Names(template), values) == Substitute(template, values)
  {
    hide TurnIsClean, InStepAt, ReplaceAll, Substitute;
    CleanTurns(template, values, |Names(template)|);
    LastStepIsSubstitute(template, values);
  }

  /** If only the last turn can be unclean, it decides the finished URL. */
  lemma LastTurnDecides(template: seq<Piece>, values: map<string, string>)
    requires IsTemplate(template) && Names(template) != []
    requires forall n :: 0 <= n < |Names(template)| - 1 ==> TurnIsClean(template, values, n)
    ensures ReplaceAll(Flatten(template), Names(template), values) == Substitute(template, values) <==>
            TurnIsClean(template, values, |Names(template)| - 1)
  {
    hide TurnIsClean, InStepAt, ReplaceAll, Substitute;
    var last := |Names(template)| - 1;
    CleanTurns(template, values, last);
    OneTurn(template, values, last);
    LastStepIsSubstitute(template, values);
  }

  /** A turn is clean when no value in place could make or begin its placeholder. */
  lemma InertTurn(template: seq<Piece>, values: map<string, string>, n: nat)
    requires IsTemplate(template) && n < |Names(template)|
    requires forall i :: 0 <= i < n ==> Inert(ValueOf(values, Names(template)[i]), Names(template)[n])
    ensures TurnIsClean(template, values, n)
  {
    hide SafeFor, Flatten, Replace, Inert, Found, Holes;
    var pieces, name := FilledTo(template, n, values), Names(template)[n];
    PartlyIsSafe(template, FirstNames(template, n), values, name);
    ReplaceFills(pieces, name, ValueOf(values, name));
    SafeNames(pieces, name);
    ReplaceFillsIff(pieces, name, ValueOf(values, name));
  }

  /** Values that cannot make or begin a placeholder still to come leave every turn clean. */
  lemma InertTurns(template: seq<Piece>, values: map<string, string>)
    requires IsTemplate(template) && ValuesAreInert(template, values)
    ensures EachTurnClean(template, values)
  {
    hide TurnIsClean, Inert;
    forall n | 0 <= n < |Names(template)|
      ensures TurnIsClean(template, values, n)
    {
      InertTurn(template, values, n);
    }
  }

  /** With at most two names the finished URL is right exactly when every turn is clean. */
  lemma UpToTwoNames(template: seq<Piece>, values: map<string, string>)
    requires IsTemplate(template) && |Names(template)| <= 2
    ensures ReplaceAll(Flatten(template), Names(template), values) == Substitute(template, values) <==>
            EachTurnClean(template, values)
  {
    hide TurnIsClean, Inert, ReplaceAll, Substitute, Flatten, IsTemplate;
    if EachTurnClean(template, values) {
      SequentialIsSimultaneous(template, values);
    } else {
      InertTurn(template, values, 0);
      LastTurnDecides(template, values);
    }
  }

  lemma SafeNames(pieces: seq<Piece>, name: string)
    requires SafeFor(pieces, name)
    ensures NamesAreBraceless(pieces)
  {
    hide Inert;
  }

  /** So the URL built for a template path is the template with every hole filled. */
  lemma FilledTemplate(template: seq<Piece>, values: map<string, string>)
    requires IsTemplate(template) && EachTurnClean(template, values)
    ensures Closed(Flatten(template))
    ensures ReplaceAll(Flatten(template), Params(Flatten(template), 0), values) == Substitute(template, values)
  {
    hide EachTurnClean, IsTemplate, IsScanned, Closed, Params, Flatten, ReplaceAll;
    TemplateIsScanned(template);
    ParamsAreTheHoles(template);
    SequentialIsSimultaneous(template, values);
  }

  /** The value filled in last may be any text, its own placeholder included. */
  lemma LastValueIsFree(template: seq<Piece>, values: map<string, string>)
    requires IsTemplate(template)
    requires forall i :: 0 <= i < |Names(template)| - 1 ==> Braceless(ValueOf(values, Names(template)[i]))
    ensures ReplaceAll(Flatten(template), Names(template), values) == Substitute(template, values)
  {
    hide Inert, Flatten, Substitute, ReplaceAll, Braceless, EachTurnClean;
    var names := Names(template);
    forall i, j | 0 <= i < j < |names|
      ensures Inert(ValueOf(values, names[i]), names[j])
    {
      BracelessIsInert(ValueOf(values, names[i]), names[j]);
    }
    InertTurns(template, values);
    SequentialIsSimultaneous(template, values);
  }

  /** The template with each hole written as its name after a colon. */
  function ColonText(template: seq<Piece>): string {
    if template == [] then []
    else (match template[0] case Literal(t) => t case Hole(n) => ":" + n) + ColonText(template[1..])
  }

  lemma {:induction false} NothingSubstituted(template: seq<Piece>)
    ensures Substitute(template, map[]) == ColonText(template)
  {
    if template != [] {
      NothingSubstituted(template[1..]);
    }
  }

  /** Without any values the URL of a template path has `:name` for every hole. */
  lemma NoValues(template: seq<Piece>)
    requires IsTemplate(template)
    ensures Closed(Flatten(template))
    ensures ReplaceAll(Flatten(template), Params(Flatten(template), 0), map[]) == ColonText(template)
  {
    hide EachTurnClean, Flatten, ReplaceAll, Params, Closed, Inert, Substitute;
    var names := Names(template);
    NamesAreHoles(template);
    forall i, j | 0 <= i < j < |names|
      ensures Inert(ValueOf(map[], names[i]), names[j])
    {
      assert Hole(names[i]) in template;
      BracelessIsInert(":" + names[i], names[j]);
    }
    InertTurns(template, map[]);
    FilledTemplate(template, map[]);
    NothingSubstituted(template);
  }

  // A value holding another placeholder is filled again: `{a}{b}` with a = `{b}` and b = `x`.

  const TWO_HOLES: seq<Piece> := [Hole("a"), Hole("b")]

  const HOLE_IN_VALUE: map<string, string> := map["a" := "{b}", "b" := "x"]

  lemma Hit(name: string, rest: string, value: string)
    ensures Replace(Placeholder(name) + rest, Placeholder(name), value) ==
            value + Replace(rest, Placeholder(name), value)
  {
    assert (Placeholder(name) + rest)[|Placeholder(name)|..] == rest;
  }

  lemma NoneLeft(name: string, value: string)
    ensures Replace("", Placeholder(name), value) == ""
  {
  }

  lemma Miss(text: string, rest: string, name: string, value: string)
    requires Inert(text, name) && Braceless(name)
    ensures Replace(text + rest, Placeholder(name), value) == text + Replace(rest, Placeholder(name), value)
  {
    hide Inert, Replace, Braceless;
    assert (text + rest)[0..] == text + rest && text[0..] == text;
    InertIsKept(text, rest, name, value, 0);
  }

  lemma MissLast(m: string, name: string, value: string)
    requires Braceless(m) && Braceless(name) && m != name
    ensures Replace(Placeholder(m), Placeholder(name), value) == Placeholder(m)
  {
    hide Replace, Inert;
    OtherHoleIsInert(m, name);
    Miss(Placeholder(m), "", name, value);
    NoneLeft(name, value);
    assert Placeholder(m) + "" == Placeholder(m);
  }

  lemma FirstReplacement()
    ensures Replace("{a}{b}", "{a}", "{b}") == "{b}{b}"
  {
    hide Replace, Inert;
    assert Placeholder("a") == "{a}" && Placeholder("b") == "{b}";
    assert "{a}{b}" == "{a}" + "{b}";
    Hit("a", "{b}", "{b}");
    MissLast("b", "a", "{b}");
  }

  lemma SecondReplacement()
    ensures Replace("{b}{b}", "{b}", "x") == "xx"
  {
    Hit("b", "{b}", "x");
    Hit("b", "", "x");
    assert "{b}" + "" == "{b}";
  }

  lemma TwoHoles()
    ensures Flatten(TWO_HOLES) == "{a}{b}" && Names(TWO_HOLES) == ["a", "b"]
    ensures Substitute(TWO_HOLES, HOLE_IN_VALUE) == "{b}x"
  {
    assert TWO_HOLES[1..] == [Hole("b")] && [Hole("b")][1..] == [];
    assert Flatten([Hole("b")]) == "{b}" + Flatten([]);
    assert Names([Hole("b")]) == ["b"] + Names([]);
    assert Substitute([Hole("b")], HOLE_IN_VALUE) == "x" + Substitute([], HOLE_IN_VALUE);
  }

  /** One after another and all at once differ, so a turn was not clean. */
  lemma ValueWithPlaceholder()
    ensures ReplaceAll(Flatten(TWO_HOLES), Names(TWO_HOLES), HOLE_IN_VALUE) == "xx"
    ensures Substitute(TWO_HOLES, HOLE_IN_VALUE) == "{b}x"
    ensures IsTemplate(TWO_HOLES) && !EachTurnClean(TWO_HOLES, HOLE_IN_VALUE)
  {
    hide Replace, Flatten, Names, Substitute, EachTurnClean;
    TwoHoles();
    FirstReplacement();
    SecondReplacement();
    assert ["a", "b"][1..] == ["b"] && ["b"][1..] == [];
    assert Placeholder("a") == "{a}" && Placeholder("b") == "{b}";
    assert ReplaceAll("{b}{b}", ["b"], HOLE_IN_VALUE) == ReplaceAll("xx", [], HOLE_IN_VALUE);
    if EachTurnClean(TWO_HOLES, HOLE_IN_VALUE) {
      SequentialIsSimultaneous(TWO_HOLES, HOLE_IN_VALUE);
    }
  }

  // Two unclean turns can undo each other: `{a}{b}{c}` with a = `{b}}`, b = `{c` and c = `{b}}`.

  const THREE_HOLES: seq<Piece> := [Hole("a"), Hole("b"), Hole("c")]

  const UNDONE: map<string, string> := map["a" := "{b}}", "b" := "{c", "c" := "{b}}"]

  lemma FillsFirst()
    ensures Replace("{a}{b}{c}", "{a}", "{b}}") == "{b}}{b}{c}"
  {
    hide Replace, Inert;
    assert Placeholder("a") == "{a}" && Placeholder("b") == "{b}" && Placeholder("c") == "{c}";
    assert "{a}{b}{c}" == "{a}" + "{b}{c}" && "{b}{c}" == "{b}" + "{c}";
    Hit("a", "{b}{c}", "{b}}");
    OtherHoleIsInert("b", "a");
    Miss("{b}", "{c}", "a", "{b}}");
    MissLast("c", "a", "{b}}");
  }

  lemma FillsSecond()
    ensures Replace("{b}}{b}{c}", "{b}", "{c") == "{c}{c{c}"
  {
    hide Replace, Inert;
    UnopenedIsInert("}", "b");
    assert Placeholder("a") == "{a}" && Placeholder("b") == "{b}" && Placeholder("c") == "{c}";
    assert "{b}}{b}{c}" == "{b}" + "}{b}{c}" && "}{b}{c}" == "}" + "{b}{c}" && "{b}{c}" == "{b}" + "{c}";
    Hit("b", "}{b}{c}", "{c");
    Miss("}", "{b}{c}", "b", "{c");
    Hit("b", "{c}", "{c");
    MissLast("c", "b", "{c");
  }

  lemma OpenBraceIsPassed()
    ensures Replace("{c{c}", "{c}", "{b}}") == "{" + Replace("c{c}", "{c}", "{b}}")
  {
    var s := "{c{c}";
    assert s[2] == '{' && s[1..] == "c{c}" && "{c}"[2] == '}';
  }

  lemma FillsThird()
    ensures Replace("{c}{c{c}", "{c}", "{b}}") == "{b}}{c{b}}"
  {
    hide Replace, Inert;
    UnopenedIsInert("c", "c");
    assert Placeholder("c") == "{c}";
    assert "{c}{c{c}" == "{c}" + "{c{c}" && "c{c}" == "c" + "{c}" && "{c}" == "{c}" + "";
    Hit("c", "{c{c}", "{b}}");
    OpenBraceIsPassed();
    Miss("c", "{c}", "c", "{b}}");
    Hit("c", "", "{b}}");
    NoneLeft("c", "{b}}");
  }

  lemma ThreeHoles()
    ensures Flatten(THREE_HOLES) == "{a}{b}{c}" && Names(THREE_HOLES) == ["a", "b", "c"]
    ensures Substitute(THREE_HOLES, UNDONE) == "{b}}{c{b}}"
  {
    var two, one := [Hole("b"), Hole("c")], [Hole("c")];
    assert THREE_HOLES[1..] == two && two[1..] == one && one[1..] == [];
    assert Flatten(one) == "{c}" && Names(one) == ["c"] && Substitute(one, UNDONE) == "{b}}";
    assert Flatten(two) == "{b}{c}" && Names(two) == ["b", "c"] && Substitute(two, UNDONE) == "{c{b}}";
  }

  lemma SecondIsOutOfStep()
    ensures !InStepAt(THREE_HOLES, UNDONE, 2)
  {
    hide Replace;
    ThreeHoles();
    FillsFirst();
    FillsSecond();
    var names, filled := Names(THREE_HOLES), [Literal("{b}}"), Literal("{c"), Hole("c")];
    assert names[..2] == ["a", "b"] && ["a", "b"][1..] == ["b"] && ["b"][1..] == [];
    assert Placeholder("a") == "{a}" && Placeholder("b") == "{b}";
    assert ReplaceAll("{b}}{b}{c}", ["b"], UNDONE) == "{c}{c{c}";
    assert FilledTo(THREE_HOLES, 2, UNDONE) == filled by {
      assert "c" !in names[..2];
    }
    assert Flatten(filled)[1] == 'b' && "{c}{c{c}"[1] == 'c';
  }

  /** So clean turns are not necessary for the finished URL, only for staying in step. */
  lemma TurnsUndone()
    ensures ReplaceAll(Flatten(THREE_HOLES), Names(THREE_HOLES), UNDONE) == Substitute(THREE_HOLES, UNDONE)
    ensures IsTemplate(THREE_HOLES) && !EachTurnClean(THREE_HOLES, UNDONE)
  {
    hide Replace, Flatten, Names, Substitute, EachTurnClean, InStepAt;
    ThreeHoles();
    FillsFirst();
    FillsSecond();
    FillsThird();
    assert ["a", "b", "c"][1..] == ["b", "c"] && ["b", "c"][1..] == ["c"] && ["c"][1..] == [];
    assert Placeholder("a") == "{a}" && Placeholder("b") == "{b}" && Placeholder("c") == "{c}";
    assert ReplaceAll("{c}{c{c}", ["c"], UNDONE) == "{b}}{c{b}}";
    assert ReplaceAll("{b}}{b}{c}", ["b", "c"], UNDONE) == "{b}}{c{b}}";
    SecondIsOutOfStep();
    InStepIff(THREE_HOLES, UNDONE);
  }
}
