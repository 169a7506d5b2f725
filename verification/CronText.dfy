/** Reading a cron expression from its five text fields. */
module CronText {
  import opened CronSearch
  import opened Text

  const INT_MIN: int := -0x8000_0000
  const INT_MAX: int := 0x7FFF_FFFF

  /** `from_chars` on the whole of `text`: an optional minus sign and decimal digits, fitting an `int`. */
  function ParseInt(text: string): Option<int> {
    var negative := text != [] && text[0] == '-';
    var digits := if negative then text[1..] else text;
    if digits == [] || !AllDigits(digits) then None
    else
      var size: int := NumberOf(digits);
      var n := if negative then -size else size;
      if INT_MIN <= n <= INT_MAX then Some(n) else None
  }

  function IntText(n: int): string {
    if n < 0 then "-" + Digits(-n) else Digits(n)
  }

  /** The decimal text of any integer is read as that integer if an `int` can hold it, and refused if not. */
  lemma IntReadsBack(n: int)
    ensures ParseInt(IntText(n)) == if INT_MIN <= n <= INT_MAX then Some(n) else None
  {
    var size: nat := if n < 0 then -n else n;
    NumberOfDigits(size);
    assert IsDigit(Digits(size)[0]);
    assert n < 0 ==> IntText(n)[1..] == Digits(size);
  }

  /** A decimal numeral of `n`: an optional minus sign, perhaps leading zeros, and digits. */
  ghost predicate Denotes(text: string, n: int) {
    exists k: nat, m: nat ::
      || (n == m && text == Zeros(k) + Digits(m))
      || (n + m == 0 && text == "-" + (Zeros(k) + Digits(m)))
  }

  lemma ReadIsNumeral(text: string, n: int)
    requires ParseInt(text) == Some(n)
    ensures INT_MIN <= n <= INT_MAX && Denotes(text, n)
  {
    var negative := text[0] == '-';
    var digits := if negative then text[1..] else text;
    var k := ZerosAndDigits(digits);
    hide Zeros, Digits;
    assert negative ==> text == "-" + digits;
  }

  lemma DigitsAreRead(digits: string, negative: bool)
    requires digits != [] && AllDigits(digits)
    ensures var n: int := if negative then -(NumberOf(digits) as int) else NumberOf(digits);
            ParseInt(if negative then "-" + digits else digits) == if INT_MIN <= n <= INT_MAX then Some(n) else None
  {
    assert IsDigit(digits[0]);
    if negative {
      assert ("-" + digits)[1..] == digits;
    }
  }

  /** What is read, and as what: exactly the numerals of the numbers an `int` can hold. */
  lemma ParseIntIff(text: string, n: int)
    ensures ParseInt(text) == Some(n) <==> INT_MIN <= n <= INT_MAX && Denotes(text, n)
  {
    hide ParseInt, Zeros, Digits, NumberOf;
    if ParseInt(text) == Some(n) {
      ReadIsNumeral(text, n);
    }
    if INT_MIN <= n <= INT_MAX && Denotes(text, n) {
      var k: nat, m: nat :|
        || (n == m && text == Zeros(k) + Digits(m))
        || (n + m == 0 && text == "-" + (Zeros(k) + Digits(m)));
      NumberAfterZeros(k, Digits(m));
      NumberOfDigits(m);
      DigitsAreRead(Zeros(k) + Digits(m), text != Zeros(k) + Digits(m));
    }
  }

  // What a field means. A token is one of four forms, and each form allows a set of values.

  datatype Token = Every | EveryNth(step: int) | Between(lo: int, hi: int) | Exactly(n: int) | Malformed

  function ReadStep(text: string): Token {
    match ParseInt(text)
    case Some(step) => if step > 0 then EveryNth(step) else Malformed
    case None => Malformed
  }

  function ReadRange(left: string, right: string): Token {
    match (ParseInt(left), ParseInt(right))
    case (Some(lo), Some(hi)) => if lo <= hi then Between(lo, hi) else Malformed
    case _ => Malformed
  }

  function ReadBare(text: string, min: int, max: int): Token {
    match ParseInt(text)
    case Some(n) => if min <= n <= max then Exactly(n) else Malformed
    case None => Malformed
  }

  function ReadToken(text: string, min: int, max: int): Token {
    var dash := IndexOf(text, '-', 0);
    if text == "*" then Every
    else if "*/" <= text then ReadStep(text[2..])
    else if dash < |text| then ReadRange(text[..dash], text[dash + 1..])
    else ReadBare(text, min, max)
  }

  /** The values of [min, max] that a token stands for; a range reaching outside is cut down to the bounds. */
  predicate Allows(t: Token, min: int, max: int, v: int) {
    && min <= v <= max
    && match t
       case Every => true
       case EveryNth(step) => step > 0 && (v - min) % step == 0
       case Between(lo, hi) => lo <= v <= hi
       case Exactly(n) => v == n
       case Malformed => false
  }

  predicate SomeTokenAllows(tokens: seq<string>, min: int, max: int, v: int) {
    exists k :: 0 <= k < |tokens| && Allows(ReadToken(tokens[k], min, max), min, max, v)
  }

  predicate AllReadable(tokens: seq<string>, min: int, max: int) {
    forall k :: 0 <= k < |tokens| ==> ReadToken(tokens[k], min, max) != Malformed
  }

  /** The allowed values from `from` on, in order. */
  function Listing(tokens: seq<string>, min: int, max: int, from: int): (values: seq<int>)
    ensures StrictlyAscending(values)
    ensures forall v :: v in values <==> from <= v && SomeTokenAllows(tokens, min, max, v)
    decreases max - from
  {
    if from > max then []
    else
      var rest := Listing(tokens, min, max, from + 1);
      assert forall i :: 0 <= i < |rest| ==> rest[i] in rest;
      if SomeTokenAllows(tokens, min, max, from) then [from] + rest else rest
  }

  /** The values of a field: what its comma-separated tokens allow between them, if every token can be read. */
  function FieldValues(field: string, min: int, max: int): Option<seq<int>> {
    var tokens := Split(field, ',');
    var values := Listing(tokens, min, max, min);
    if AllReadable(tokens, min, max) && values != [] then Some(values) else None
  }

  function Expression(fields: seq<string>): Option<CronExpression> {
    if |fields| != 5 then None
    else
      match (FieldValues(fields[0], 0, 59), FieldValues(fields[1], 0, 23), FieldValues(fields[2], 1, 31),
             FieldValues(fields[3], 1, 12), FieldValues(fields[4], 0, 6))
      case (Some(minutes), Some(hours), Some(days), Some(months), Some(weekdays)) =>
        Some(CronExpression(minutes, hours, days, months, weekdays))
      case _ => None
  }

  function ParseText(text: string): Option<CronExpression> {
    Expression(Words(text))
  }

  // The parser, in the steps it takes.

  method PushRange(first: int, last: int, out: seq<int>) returns (values: seq<int>)
    ensures forall v :: v in values <==> v in out || first <= v <= last
  {
    values := out;
    var value := first;
    while value <= last
      invariant first <= value
      invariant forall v :: v in values <==> v in out || (first <= v < value && v <= last)
    {
      values := values + [value];
      value := value + 1;
    }
  }

  /** Every sum the step loop forms is one an `int` can hold. */
  ghost predicate StepsFit(min: int, max: int, step: int) {
    forall v :: Allows(EveryNth(step), min, max, v) ==> v + step <= INT_MAX
  }

  /** Inside the bounds of a field only the first sum can be too large. */
  lemma StepsFitIff(min: int, max: int, step: int)
    requires 0 <= min <= max <= 59 && step > 0
    ensures StepsFit(min, max, step) <==> min + step <= INT_MAX
  {
    assert Allows(EveryNth(step), min, max, min);
    if min + step <= INT_MAX {
      forall v | Allows(EveryNth(step), min, max, v)
        ensures v + step <= INT_MAX
      {
        if v > min && step > 59 {
          Remainder(step, 0, v - min);
        }
      }
    }
  }

  /** `fits` tells whether no addition overflowed; the values are those of unbounded addition. */
  method PushSteps(min: int, max: int, step: int, out: seq<int>) returns (values: seq<int>, fits: bool)
    requires step > 0
    ensures forall v :: v in values <==> v in out || Allows(EveryNth(step), min, max, v)
    ensures fits <==> StepsFit(min, max, step)
  {
    values, fits := out, true;
    var value := min;
    ghost var k := 0;
    while value <= max
      invariant 0 <= k && value == min + k * step
      invariant forall v :: v in values <==> v in out || (v < value && Allows(EveryNth(step), min, max, v))
      invariant fits <==> forall v :: v < value && Allows(EveryNth(step), min, max, v) ==> v + step <= INT_MAX
      decreases max - value
    {
      NextMultiple(step, k);
      assert Allows(EveryNth(step), min, max, value);
      forall v | value < v < value + step
        ensures !Allows(EveryNth(step), min, max, v)
      {
        assert k * step < v - min < (k + 1) * step;
      }
      values := values + [value];
      fits := fits && value + step <= INT_MAX;
      value := value + step;
      k := k + 1;
    }
  }

  lemma EmptyIsMalformed(min: int, max: int)
    ensures ReadToken("", min, max) == Malformed
  {
  }

  /** Appends the token's values to `out`; fails on a malformed token. `fits` tells whether no addition overflowed: only
      a step can make one. */
  method ParseToken(token: string, min: int, max: int, out: seq<int>)
    returns (ok: bool, values: seq<int>, fits: bool)
    ensures ok <==> ReadToken(token, min, max) != Malformed
    ensures ok ==> forall v :: v in values <==> v in out || Allows(ReadToken(token, min, max), min, max, v)
    ensures fits <==> match ReadToken(token, min, max) case EveryNth(step) => StepsFit(min, max, step) case _ => true
  {
    hide ParseInt, IndexOf, StepsFit;
    values, fits := out, true;
    if token == [] {
      EmptyIsMalformed(min, max);
      return false, values, true;
    }
    if token == "*" {
      values := PushRange(min, max, values);
      return true, values, fits;
    }
    if "*/" <= token {
      var step := ParseInt(token[2..]);
      if step.None? || step.value <= 0 {
        return false, values, true;
      }
      values, fits := PushSteps(min, max, step.value, values);
      return true, values, fits;
    }
    var dash := IndexOf(token, '-', 0);
    if dash < |token| {
      var lo := ParseInt(token[..dash]);
      var hi := ParseInt(token[dash + 1..]);
      if lo.None? || hi.None? || lo.value > hi.value {
        return false, values, true;
      }
      values := PushRange(if lo.value < min then min else lo.value, if max < hi.value then max else hi.value, values);
      return true, values, fits;
    }
    var n := ParseInt(token);
    if n.None? || n.value < min || n.value > max {
      return false, values, true;
    }
    return true, values + [n.value], true;
  }

  /** Between two steps no value is a whole number of steps from the start. */
  lemma NextMultiple(step: int, k: int)
    requires step > 0 && k >= 0
    ensures (k * step) % step == 0
    ensures forall d :: k * step < d < (k + 1) * step ==> d % step != 0
  {
    Remainder(step, k, 0);
    forall d | k * step < d < (k + 1) * step
      ensures d % step != 0
    {
      Remainder(step, k, d - k * step);
    }
  }

  lemma Remainder(step: int, k: int, r: int)
    requires 0 <= r < step
    ensures (k * step + r) % step == r
  {
    var d := k * step + r;
    var q, rest := d / step, d % step;
    assert d == step * q + rest;
    MultipleApart(q - k, step);
    assert (q - k) * step == q * step - k * step;
  }

  lemma MultipleApart(a: int, step: int)
    requires step > 0
    ensures a > 0 ==> a * step >= step
    ensures a < 0 ==> a * step <= -step
  {
  }

  /** `sort` followed by dropping repeats. */
  function SortUnique(values: seq<int>): (sorted: seq<int>)
    ensures StrictlyAscending(sorted)
    ensures forall v :: v in sorted <==> v in values
  {
    if values == [] then [] else Insert(values[0], SortUnique(values[1..]))
  }

  function Insert(x: int, sorted: seq<int>): (r: seq<int>)
    requires StrictlyAscending(sorted)
    ensures StrictlyAscending(r)
    ensures forall v :: v in r <==> v == x || v in sorted
  {
    if sorted == [] || x < sorted[0] then [x] + sorted
    else if x == sorted[0] then sorted
    else
      var tail := sorted[1..];
      var rest := Insert(x, tail);
      assert forall i :: 0 <= i < |tail| ==> tail[i] == sorted[i + 1];
      assert forall v :: v in tail ==> sorted[0] < v;
      assert forall v :: v in rest ==> sorted[0] < v;
      assert forall i :: 0 <= i < |rest| ==> rest[i] in rest;
      [sorted[0]] + rest
  }

  lemma SameEmptiness(a: seq<int>, b: seq<int>)
    requires forall v :: v in a <==> v in b
    ensures a == [] <==> b == []
  {
    if a != [] {
      var x := a[0];
      assert x in a;
    }
    if b != [] {
      var x := b[0];
      assert x in b;
    }
  }

  /** A set has one strictly ascending listing. */
  lemma {:induction false} OneListing(a: seq<int>, b: seq<int>)
    requires StrictlyAscending(a) && StrictlyAscending(b)
    requires forall v :: v in a <==> v in b
    ensures a == b
  {
    SameEmptiness(a, b);
    if a != [] {
      assert a[0] in b && b[0] in a;
      assert a[0] == b[0];
      forall v ensures v in a[1..] <==> v in b[1..] {
        assert v in a[1..] <==> v in a && v != a[0];
        assert v in b[1..] <==> v in b && v != b[0];
      }
      OneListing(a[1..], b[1..]);
    }
  }

  /** Reads one field token by token. */
  method ParseField(field: string, min: int, max: int) returns (r: Option<seq<int>>)
    ensures r == FieldValues(field, min, max)
  {
    hide ReadToken, Allows, SortUnique, Listing, Split, IndexOf, SomeTokenAllows, AllReadable, FieldValues;
    var values: seq<int> := [];
    var start := 0;
    ghost var tokens := Split(field, ',');
    ghost var k := 0;
    NoTokens(tokens, min, max);
    assert field[0..] == field && tokens[0..] == tokens;
    while start <= |field|
      invariant 0 <= start <= |field| && 0 <= k < |tokens|
      invariant Split(field[start..], ',') == tokens[k..]
      invariant AllReadable(tokens[..k], min, max)
      invariant forall v :: v in values <==> SomeTokenAllows(tokens[..k], min, max, v)
      decreases |field| - start
    {
      var comma := IndexOf(field, ',', start);
      var token := field[start..comma];
      SplitFrom(field, ',', start, comma);
      assert tokens[k] == tokens[k..][0] == token;
      var ok, more, fits := ParseToken(token, min, max, values);
      if !ok {
        MalformedToken(field, min, max, k);
        return None;
      }
      TokenJoins(tokens, k, min, max, values, more);
      values := more;
      k := k + 1;
      if comma == |field| {
        break;
      }
      assert tokens[k..] == tokens[k - 1..][1..];
      start := comma + 1;
    }
    assert tokens[..k] == tokens;
    FieldDone(field, min, max, values);
    if values == [] {
      return None;
    }
    return Some(SortUnique(values));
  }

  lemma NoTokens(tokens: seq<string>, min: int, max: int)
    ensures AllReadable(tokens[..0], min, max) && forall v :: !SomeTokenAllows(tokens[..0], min, max, v)
  {
  }

  lemma MalformedToken(field: string, min: int, max: int, k: nat)
    requires k < |Split(field, ',')| && ReadToken(Split(field, ',')[k], min, max) == Malformed
    ensures FieldValues(field, min, max) == None
  {
    hide ReadToken, Split, Listing;
  }

  lemma FieldDone(field: string, min: int, max: int, values: seq<int>)
    requires AllReadable(Split(field, ','), min, max)
    requires forall v :: v in values <==> SomeTokenAllows(Split(field, ','), min, max, v)
    ensures FieldValues(field, min, max) == if values == [] then None else Some(SortUnique(values))
  {
    hide ReadToken, Split, AllReadable;
    var listing := Listing(Split(field, ','), min, max, min);
    SameEmptiness(values, listing);
    OneListing(SortUnique(values), listing);
  }

  lemma TokenJoins(tokens: seq<string>, k: nat, min: int, max: int, values: seq<int>, more: seq<int>)
    requires k < |tokens| && AllReadable(tokens[..k], min, max)
    requires ReadToken(tokens[k], min, max) != Malformed
    requires forall v :: v in values <==> SomeTokenAllows(tokens[..k], min, max, v)
    requires forall v :: v in more <==> v in values || Allows(ReadToken(tokens[k], min, max), min, max, v)
    ensures AllReadable(tokens[..k + 1], min, max)
    ensures forall v :: v in more <==> SomeTokenAllows(tokens[..k + 1], min, max, v)
  {
    hide ReadToken, Allows;
    forall v
      ensures SomeTokenAllows(tokens[..k + 1], min, max, v) <==>
              SomeTokenAllows(tokens[..k], min, max, v) || Allows(ReadToken(tokens[k], min, max), min, max, v)
    {
      assert tokens[..k + 1][k] == tokens[k];
      assert forall i :: 0 <= i < k ==> tokens[..k + 1][i] == tokens[..k][i];
    }
  }

  /** Reads the whole expression: five runs of non-space characters, a field each. */
  method Parse(text: string) returns (r: Option<CronExpression>)
    ensures r == ParseText(text)
  {
    hide FieldValues;
    var fields: seq<string> := [];
    var start := 0;
    while start < |text|
      invariant 0 <= start <= |text|
      invariant fields + Words(text[start..]) == Words(text)
    {
      while start < |text| && text[start] == ' '
        invariant 0 <= start <= |text|
        invariant fields + Words(text[start..]) == Words(text)
      {
        assert text[start..][1..] == text[start + 1..];
        start := start + 1;
      }
      if start >= |text| {
        break;
      }
      var end := IndexOf(text, ' ', start);
      FirstWord(text, start, end);
      fields := fields + [text[start..end]];
      start := end;
    }
    assert text[start..] == [];
    if |fields| != 5 {
      return None;
    }
    var minutes := ParseField(fields[0], 0, 59);
    var hours := ParseField(fields[1], 0, 23);
    var days := ParseField(fields[2], 1, 31);
    var months := ParseField(fields[3], 1, 12);
    var weekdays := ParseField(fields[4], 0, 6);
    if minutes.None? || hours.None? || days.None? || months.None? || weekdays.None? {
      return None;
    }
    return Some(CronExpression(minutes.value, hours.value, days.value, months.value, weekdays.value));
  }

  lemma FirstWord(text: string, start: nat, end: nat)
    requires start < |text| && text[start] != ' ' && end == IndexOf(text, ' ', start)
    ensures Words(text[start..]) == [text[start..end]] + Words(text[end..])
  {
    IndexOfIs(text[start..], ' ', 0, end - start);
    assert text[start..][..end - start] == text[start..end];
    assert text[start..][end - start..] == text[end..];
  }

  // What the parser promises.

  lemma FieldIsWellFormed(field: string, min: int, max: int)
    requires FieldValues(field, min, max).Some?
    ensures FieldOf(FieldValues(field, min, max).value, min, max)
  {
    hide ReadToken;
    var values := FieldValues(field, min, max).value;
    assert forall i :: 0 <= i < |values| ==> values[i] in values;
  }

  /** An accepted expression has five non-empty, strictly ascending fields inside their bounds. */
  lemma ParsedIsWellFormed(text: string)
    requires ParseText(text).Some?
    ensures WellFormed(ParseText(text).value)
  {
    hide FieldValues, FieldOf;
    var fields := Words(text);
    FieldIsWellFormed(fields[0], 0, 59);
    FieldIsWellFormed(fields[1], 0, 23);
    FieldIsWellFormed(fields[2], 1, 31);
    FieldIsWellFormed(fields[3], 1, 12);
    FieldIsWellFormed(fields[4], 0, 6);
  }

  /** A field's values are exactly those that one of its tokens allows; it is refused exactly when a token is
      malformed or nothing at all is allowed. */
  lemma FieldMeaning(field: string, min: int, max: int)
    ensures FieldValues(field, min, max).None? <==>
            || !AllReadable(Split(field, ','), min, max)
            || forall v :: !SomeTokenAllows(Split(field, ','), min, max, v)
    ensures forall values, v :: FieldValues(field, min, max) == Some(values) ==>
              (v in values <==> SomeTokenAllows(Split(field, ','), min, max, v))
  {
    hide ReadToken;
    var values := Listing(Split(field, ','), min, max, min);
    if values != [] {
      var x := values[0];
      assert x in values;
    }
  }

  /** Neither the order of the tokens nor repeating them matters. */
  lemma TokenOrderIsIrrelevant(a: string, b: string, min: int, max: int)
    requires forall t :: t in Split(a, ',') <==> t in Split(b, ',')
    ensures FieldValues(a, min, max) == FieldValues(b, min, max)
  {
    hide ReadToken, Listing, Allows;
    var s, t := Split(a, ','), Split(b, ',');
    TokensCover(s, t, min, max);
    TokensCover(t, s, min, max);
    OneListing(Listing(s, min, max, min), Listing(t, min, max, min));
  }

  lemma TokensCover(s: seq<string>, t: seq<string>, min: int, max: int)
    requires forall x :: x in s ==> x in t
    ensures AllReadable(t, min, max) ==> AllReadable(s, min, max)
    ensures forall v :: SomeTokenAllows(s, min, max, v) ==> SomeTokenAllows(t, min, max, v)
  {
    hide ReadToken, Allows;
    forall k | 0 <= k < |s|
      ensures exists j :: 0 <= j < |t| && t[j] == s[k]
    {
      var x := s[k];
      assert x in s;
    }
  }

  /** Extra spaces between, before or after the fields change nothing. */
  lemma ExtraSpacesAreIrrelevant(a: string, b: string)
    ensures ParseText(a + [' '] + ([' '] + b)) == ParseText(a + [' '] + b)
    ensures ParseText([' '] + b) == ParseText(b)
    ensures ParseText(a + [' ']) == ParseText(a)
  {
    hide Expression;
    assert ([' '] + b)[1..] == b;
    WordsAppend(a, [' '] + b);
    WordsAppend(a, b);
    WordsAppend(a, []);
    assert a + [' '] + [] == a + [' '];
    assert Words(a) + Words([]) == Words(a);
  }

  // Fields written out form by form: `*`, `*/n`, `lo-hi` and `n`.

  datatype Form = Star | Nth(n: int) | Span(lo: int, hi: int) | One(n: int)

  function FormText(f: Form): string {
    match f
    case Star => "*"
    case Nth(n) => "*/" + IntText(n)
    case Span(lo, hi) => IntText(lo) + "-" + IntText(hi)
    case One(n) => IntText(n)
  }

  /** The forms that are accepted. A range must not be upside down, but may leave the bounds; a number may not. */
  predicate Accepted(f: Form, min: int, max: int) {
    match f
    case Star => true
    case Nth(n) => 1 <= n <= 2147483647
    case Span(lo, hi) => 0 <= lo <= hi <= 2147483647
    case One(n) => 0 <= n <= 2147483647 && min <= n <= max
  }

  /** The values of [min, max] that a form names. */
  predicate Names(f: Form, min: int, max: int, v: int)
    requires Accepted(f, min, max)
  {
    && min <= v <= max
    && match f
       case Star => true
       case Nth(n) => (v - min) % n == 0
       case Span(lo, hi) => lo <= v <= hi
       case One(n) => v == n
  }

  lemma FirstDash(n: int, rest: string)
    ensures IndexOf(IntText(n) + ("-" + rest), '-', 0) == if n < 0 then 0 else |IntText(n)|
    ensures IndexOf(IntText(n), '-', 0) == if n < 0 then 0 else |IntText(n)|
    ensures IntText(n) != [] && IntText(n)[0] != '*'
  {
    var t := IntText(n);
    var s := t + ("-" + rest);
    if n < 0 {
      IndexOfIs(s, '-', 0, 0);
      IndexOfIs(t, '-', 0, 0);
    } else {
      assert forall i :: 0 <= i < |t| ==> s[i] == t[i] && IsDigit(t[i]);
      IndexOfIs(s, '-', 0, |t|);
      IndexOfIs(t, '-', 0, |t|);
    }
    assert IsDigit(Digits(if n < 0 then -n else n)[0]);
  }

  lemma NothingIsNoNumber()
    ensures ParseInt("") == None
  {
  }

  /** A negative number in front of a range or alone leaves nothing before its dash, and is refused. */
  lemma NegativeIsRefused(text: string, min: int, max: int)
    requires text != [] && text[0] == '-'
    ensures ReadToken(text, min, max) == Malformed
  {
    hide ParseInt;
    IndexOfIs(text, '-', 0, 0);
    assert text[..0] == "";
    NothingIsNoNumber();
  }

  lemma SpanIsRead(lo: int, hi: int, min: int, max: int)
    ensures ReadToken(FormText(Span(lo, hi)), min, max) ==
            if Accepted(Span(lo, hi), min, max) then Between(lo, hi) else Malformed
  {
    hide ParseInt, IndexOf, IntText;
    var left, right := IntText(lo), IntText(hi);
    var text := left + ("-" + right);
    assert FormText(Span(lo, hi)) == text;
    FirstDash(lo, right);
    IntReadsBack(lo);
    IntReadsBack(hi);
    if lo < 0 {
      NegativeStarts(lo);
      NegativeIsRefused(text, min, max);
    } else {
      assert text[..|left|] == left && text[|left| + 1..] == right;
    }
  }

  lemma NegativeStarts(n: int)
    requires n < 0
    ensures IntText(n) != [] && IntText(n)[0] == '-'
  {
  }

  lemma StepIsRead(n: int, min: int, max: int)
    ensures ReadToken(FormText(Nth(n)), min, max) == if Accepted(Nth(n), min, max) then EveryNth(n) else Malformed
  {
    hide ParseInt, IntText;
    var text := "*/" + IntText(n);
    FirstDash(n, "");
    IntReadsBack(n);
    assert text != "*" && text[2..] == IntText(n);
  }

  lemma NumberIsRead(n: int, min: int, max: int)
    ensures ReadToken(FormText(One(n)), min, max) == if Accepted(One(n), min, max) then Exactly(n) else Malformed
  {
    hide ParseInt, IntText;
    FirstDash(n, "");
    IntReadsBack(n);
    if n < 0 {
      NegativeStarts(n);
      NegativeIsRefused(IntText(n), min, max);
    }
  }

  /** What is read from the text of a form: a malformed token exactly if it is not accepted, and else its values. */
  lemma FormIsRead(f: Form, min: int, max: int)
    ensures ReadToken(FormText(f), min, max) != Malformed <==> Accepted(f, min, max)
    ensures forall v :: Allows(ReadToken(FormText(f), min, max), min, max, v) <==>
              Accepted(f, min, max) && Names(f, min, max, v)
  {
    hide ReadToken, FormText;
    match f
    case Star => StarIsRead(min, max);
    case Nth(n) => StepIsRead(n, min, max);
    case Span(lo, hi) => SpanIsRead(lo, hi, min, max);
    case One(n) => NumberIsRead(n, min, max);
  }

  lemma StarIsRead(min: int, max: int)
    ensures ReadToken(FormText(Star), min, max) == Every
  {
  }

  function FormTexts(forms: seq<Form>): (texts: seq<string>)
    ensures |texts| == |forms|
    ensures forall i :: 0 <= i < |forms| ==> texts[i] == FormText(forms[i])
  {
    seq(|forms|, i requires 0 <= i < |forms| => FormText(forms[i]))
  }

  lemma FormHasNoComma(f: Form)
    ensures ',' !in FormText(f)
  {
    hide Digits;
    match f
    case Star =>
    case Nth(n) => IntHasNoComma(n);
    case Span(lo, hi) => IntHasNoComma(lo); IntHasNoComma(hi);
    case One(n) => IntHasNoComma(n);
  }

  lemma IntHasNoComma(n: int)
    ensures ',' !in IntText(n)
  {
    hide Digits;
  }

  predicate AllAccepted(forms: seq<Form>, min: int, max: int) {
    forall i :: 0 <= i < |forms| ==> Accepted(forms[i], min, max)
  }

  predicate SomeFormNames(forms: seq<Form>, min: int, max: int, v: int)
    requires AllAccepted(forms, min, max)
  {
    exists i :: 0 <= i < |forms| && Names(forms[i], min, max, v)
  }

  /** A field written as any list of forms: it is refused exactly if some form is not accepted or all together name
      nothing, and else its values are exactly those that some form names. */
  lemma FormsAreRead(forms: seq<Form>, min: int, max: int)
    requires forms != []
    ensures var r := FieldValues(Join(FormTexts(forms), ','), min, max);
            && (r.None? <==> !AllAccepted(forms, min, max) || forall v :: !SomeFormNames(forms, min, max, v))
            && (r.Some? ==> forall v :: v in r.value <==> SomeFormNames(forms, min, max, v))
  {
    hide ReadToken, Allows, Listing, Split, FieldValues, FormText;
    var tokens := FormTexts(forms);
    forall i | 0 <= i < |forms|
      ensures ',' !in tokens[i]
    {
      FormHasNoComma(forms[i]);
    }
    SplitJoin(tokens, ',');
    FieldMeaning(Join(tokens, ','), min, max);
    FormsMeanTokens(forms, min, max);
    var r := FieldValues(Join(tokens, ','), min, max);
    if r.Some? {
      forall v ensures v in r.value <==> SomeTokenAllows(tokens, min, max, v) {
      }
    }
  }

  lemma FormsMeanTokens(forms: seq<Form>, min: int, max: int)
    ensures AllReadable(FormTexts(forms), min, max) <==> AllAccepted(forms, min, max)
    ensures AllAccepted(forms, min, max) ==>
              forall v :: SomeTokenAllows(FormTexts(forms), min, max, v) <==> SomeFormNames(forms, min, max, v)
  {
    hide ReadToken, Allows, FormText, Names;
    var tokens := FormTexts(forms);
    forall i | 0 <= i < |forms|
      ensures ReadToken(tokens[i], min, max) != Malformed <==> Accepted(forms[i], min, max)
      ensures forall v :: Allows(ReadToken(tokens[i], min, max), min, max, v) <==>
                Accepted(forms[i], min, max) && Names(forms[i], min, max, v)
    {
      FormIsRead(forms[i], min, max);
    }
  }

  /** Any five fields with a space between each two are read as minutes, hours, days, months and weekdays, each with its
      own bounds, and refused exactly if one of them is. */
  lemma FiveFields(f0: string, f1: string, f2: string, f3: string, f4: string)
    requires f0 != [] && f1 != [] && f2 != [] && f3 != [] && f4 != []
    requires ' ' !in f0 && ' ' !in f1 && ' ' !in f2 && ' ' !in f3 && ' ' !in f4
    ensures var r := ParseText(f0 + [' '] + (f1 + [' '] + (f2 + [' '] + (f3 + [' '] + f4))));
            && (r.Some? <==> FieldValues(f0, 0, 59).Some? && FieldValues(f1, 0, 23).Some? &&
                             FieldValues(f2, 1, 31).Some? && FieldValues(f3, 1, 12).Some? && FieldValues(f4, 0, 6).Some?)
            && (r.Some? ==> r.value == CronExpression(FieldValues(f0, 0, 59).value, FieldValues(f1, 0, 23).value,
                  FieldValues(f2, 1, 31).value, FieldValues(f3, 1, 12).value, FieldValues(f4, 0, 6).value))
  {
    hide Words, FieldValues;
    WordAlone(f0);
    WordAlone(f1);
    WordAlone(f2);
    WordAlone(f3);
    WordAlone(f4);
    WordsAppend(f3, f4);
    WordsAppend(f2, f3 + [' '] + f4);
    WordsAppend(f1, f2 + [' '] + (f3 + [' '] + f4));
    WordsAppend(f0, f1 + [' '] + (f2 + [' '] + (f3 + [' '] + f4)));
  }

  // Printing an expression canonically and reading it back.

  function DigitsOf(values: seq<int>): (texts: seq<string>)
    requires forall i :: 0 <= i < |values| ==> 0 <= values[i]
    ensures |texts| == |values|
    ensures forall i :: 0 <= i < |values| ==> texts[i] == Digits(values[i])
  {
    seq(|values|, i requires 0 <= i < |values| => Digits(values[i]))
  }

  function PrintField(values: seq<int>): string
    requires values != [] && forall i :: 0 <= i < |values| ==> 0 <= values[i]
  {
    Join(DigitsOf(values), ',')
  }

  function Print(e: CronExpression): string
    requires WellFormed(e)
  {
    PrintField(e.minutes) + [' '] + (PrintField(e.hours) + [' '] + (PrintField(e.days) + [' '] +
    (PrintField(e.months) + [' '] + PrintField(e.weekdays))))
  }

  lemma ReadPrintedNumber(n: nat, min: int, max: int)
    requires min <= n <= max <= INT_MAX
    ensures ReadToken(Digits(n), min, max) == Exactly(n)
  {
    NumberOfDigits(n);
    var s := Digits(n);
    assert IsDigit(s[0]);
    IndexOfIs(s, '-', 0, |s|);
  }

  lemma PrintedFieldReadsBack(values: seq<int>, min: int, max: int)
    requires FieldOf(values, min, max) && 0 <= min && max <= INT_MAX
    ensures FieldValues(PrintField(values), min, max) == Some(values)
  {
    hide ReadToken, Listing;
    var tokens := DigitsOf(values);
    SplitJoin(tokens, ',');
    forall k | 0 <= k < |values|
      ensures ReadToken(tokens[k], min, max) == Exactly(values[k])
    {
      ReadPrintedNumber(values[k], min, max);
    }
    var listing := Listing(tokens, min, max, min);
    forall v ensures v in values <==> v in listing {
      if v in values {
        var k :| 0 <= k < |values| && values[k] == v;
        assert Allows(ReadToken(tokens[k], min, max), min, max, v);
      }
    }
    OneListing(values, listing);
  }

  lemma {:induction false} JoinIsSolid(pieces: seq<string>)
    requires pieces != [] && forall i :: 0 <= i < |pieces| ==> pieces[i] != [] && AllDigits(pieces[i])
    ensures Join(pieces, ',') != [] && ' ' !in Join(pieces, ',')
  {
    if |pieces| > 1 {
      JoinIsSolid(pieces[1..]);
    }
  }

  lemma PrintedWords(e: CronExpression)
    requires WellFormed(e)
    ensures Words(Print(e)) == [PrintField(e.minutes), PrintField(e.hours), PrintField(e.days),
                                PrintField(e.months), PrintField(e.weekdays)]
  {
    hide Words, Join;
    var d, m, w := PrintField(e.days), PrintField(e.months), PrintField(e.weekdays);
    JoinIsSolid(DigitsOf(e.minutes));
    JoinIsSolid(DigitsOf(e.hours));
    JoinIsSolid(DigitsOf(e.days));
    JoinIsSolid(DigitsOf(e.months));
    JoinIsSolid(DigitsOf(e.weekdays));
    WordAlone(PrintField(e.minutes));
    WordAlone(PrintField(e.hours));
    WordAlone(d);
    WordAlone(m);
    WordAlone(w);
    WordsAppend(m, w);
    WordsAppend(d, m + [' '] + w);
    WordsAppend(PrintField(e.hours), d + [' '] + (m + [' '] + w));
    WordsAppend(PrintField(e.minutes), PrintField(e.hours) + [' '] + (d + [' '] + (m + [' '] + w)));
  }

  /** Printing any five lists inside the bounds and parsing the print gives the lists back. */
  lemma PrintedReadsBack(e: CronExpression)
    requires WellFormed(e)
    ensures ParseText(Print(e)) == Some(e)
  {
    hide FieldValues, Print, Words, PrintField;
    PrintedWords(e);
    PrintedFieldReadsBack(e.minutes, 0, 59);
    PrintedFieldReadsBack(e.hours, 0, 23);
    PrintedFieldReadsBack(e.days, 1, 31);
    PrintedFieldReadsBack(e.months, 1, 12);
    PrintedFieldReadsBack(e.weekdays, 0, 6);
  }

  /** So these, and no others, are the expressions that some text stands for. */
  lemma AcceptedExpressions(e: CronExpression)
    ensures (exists text :: ParseText(text) == Some(e)) <==>
            && FieldOf(e.minutes, 0, 59) && FieldOf(e.hours, 0, 23) && FieldOf(e.days, 1, 31)
            && FieldOf(e.months, 1, 12) && FieldOf(e.weekdays, 0, 6)
  {
    hide ParseText, FieldOf, Print;
    if text :| ParseText(text) == Some(e) {
      ParsedIsWellFormed(text);
    }
    if WellFormed(e) {
      PrintedReadsBack(e);
    }
  }
}
