/** Optional values and strings: searching, splitting, joining, and decimal numbers. */
module Text {

  datatype Option<+T> = None | Some(value: T) {
    predicate IsFailure() {
      None?
    }

    function PropagateFailure<U>(): Option<U>
      requires None?
    {
      None
    }

    function Extract(): T
      requires Some?
    {
      value
    }
  }

  /** `find`: the first index of `c` at or after `from`, or the length if there is none. */
  function IndexOf(s: string, c: char, from: nat): (i: nat)
    requires from <= |s|
    ensures from <= i <= |s|
    ensures i < |s| ==> s[i] == c
    ensures forall j :: from <= j < i ==> s[j] != c
    decreases |s| - from
  {
    if from == |s| || s[from] == c then from else IndexOf(s, c, from + 1)
  }

  lemma IndexOfIs(s: string, c: char, from: nat, i: nat)
    requires from <= i <= |s| && (i < |s| ==> s[i] == c)
    requires forall j :: from <= j < i ==> s[j] != c
    ensures IndexOf(s, c, from) == i
  {
  }

  /** The pieces of `s` between separators; always at least one. */
  function Split(s: string, sep: char): (pieces: seq<string>)
    ensures pieces != []
    ensures forall k :: 0 <= k < |pieces| ==> sep !in pieces[k]
    decreases |s|
  {
    var i := IndexOf(s, sep, 0);
    if i == |s| then [s] else [s[..i]] + Split(s[i + 1..], sep)
  }

  /** The first piece of what is left of `s` from `start` on. */
  lemma SplitFrom(s: string, sep: char, start: nat, end: nat)
    requires start <= end <= |s| && end == IndexOf(s, sep, start)
    ensures end == |s| ==> Split(s[start..], sep) == [s[start..end]]
    ensures end < |s| ==> Split(s[start..], sep) == [s[start..end]] + Split(s[end + 1..], sep)
  {
    hide IndexOf;
    var rest := s[start..];
    assert forall j :: 0 <= j < |rest| ==> rest[j] == s[start + j];
    IndexOfIs(rest, sep, 0, end - start);
    assert rest[..end - start] == s[start..end];
    if end < |s| {
      assert rest[end - start + 1..] == s[end + 1..];
    } else {
      assert rest == s[start..end];
    }
  }

  function Join(pieces: seq<string>, sep: char): string
    requires pieces != []
  {
    if |pieces| == 1 then pieces[0] else pieces[0] + [sep] + Join(pieces[1..], sep)
  }

  lemma {:induction false} SplitJoin(pieces: seq<string>, sep: char)
    requires pieces != [] && forall k :: 0 <= k < |pieces| ==> sep !in pieces[k]
    ensures Split(Join(pieces, sep), sep) == pieces
  {
    var s := Join(pieces, sep);
    IndexOfIs(s, sep, 0, |pieces[0]|);
    if |pieces| > 1 {
      assert s[..|pieces[0]|] == pieces[0];
      assert s[|pieces[0]| + 1..] == Join(pieces[1..], sep);
      SplitJoin(pieces[1..], sep);
    }
  }

  lemma {:induction false} JoinSplit(s: string, sep: char)
    ensures Join(Split(s, sep), sep) == s
    decreases |s|
  {
    var i := IndexOf(s, sep, 0);
    if i < |s| {
      JoinSplit(s[i + 1..], sep);
      assert s == s[..i] + [sep] + s[i + 1..];
    }
  }

  /** The non-empty runs of characters between spaces. */
  function Words(s: string): (words: seq<string>)
    ensures forall k :: 0 <= k < |words| ==> words[k] != [] && ' ' !in words[k]
    decreases |s|
  {
    if s == [] then []
    else if s[0] == ' ' then Words(s[1..])
    else
      var end := IndexOf(s, ' ', 0);
      [s[..end]] + Words(s[end..])
  }

  lemma {:induction false} WordsAppend(a: string, b: string)
    ensures Words(a + [' '] + b) == Words(a) + Words(b)
    decreases |a|
  {
    var s := a + [' '] + b;
    if a == [] {
      assert s[1..] == b;
    } else if a[0] == ' ' {
      assert s[1..] == a[1..] + [' '] + b;
      WordsAppend(a[1..], b);
    } else {
      var end := IndexOf(a, ' ', 0);
      IndexOfIs(s, ' ', 0, end);
      assert s[..end] == a[..end];
      assert s[end..] == a[end..] + [' '] + b;
      WordsAppend(a[end..], b);
    }
  }

  lemma WordAlone(w: string)
    requires w != [] && ' ' !in w
    ensures Words(w) == [w]
  {
    IndexOfIs(w, ' ', 0, |w|);
    assert w[..|w|] == w;
    assert Words(w[|w|..]) == [];
  }

  predicate NoRepeats(texts: seq<string>) {
    forall i, j :: 0 <= i < j < |texts| ==> texts[i] != texts[j]
  }

  predicate IsDigit(c: char) {
    '0' <= c <= '9'
  }

  predicate AllDigits(s: string) {
    forall i :: 0 <= i < |s| ==> IsDigit(s[i])
  }

  function DigitChar(d: nat): (c: char)
    requires d < 10
    ensures IsDigit(c) && c as int - '0' as int == d
  {
    '0' + d as char
  }

  /** Decimal digits of `n`, without leading zeros. */
  function Digits(n: nat): (s: string)
    ensures s != [] && AllDigits(s)
  {
    if n < 10 then [DigitChar(n)] else Digits(n / 10) + [DigitChar(n % 10)]
  }

  /** The number a digit string stands for. */
  function NumberOf(s: string): nat
    requires AllDigits(s)
  {
    if s == [] then 0 else 10 * NumberOf(s[..|s| - 1]) + (s[|s| - 1] as int - '0' as int)
  }

  lemma {:induction false} NumberOfDigits(n: nat)
    ensures NumberOf(Digits(n)) == n
  {
    if n >= 10 {
      assert Digits(n)[..|Digits(n)| - 1] == Digits(n / 10);
      NumberOfDigits(n / 10);
    } else {
      assert Digits(n)[..0] == [];
    }
  }

  function Zeros(k: nat): (s: string)
    ensures |s| == k && forall i :: 0 <= i < k ==> s[i] == '0'
  {
    seq(k, _ => '0')
  }

  /** Leading zeros do not count. */
  lemma {:induction false} NumberAfterZeros(k: nat, s: string)
    requires AllDigits(s)
    ensures AllDigits(Zeros(k) + s) && NumberOf(Zeros(k) + s) == NumberOf(s)
    decreases |s|, k
  {
    var t := Zeros(k) + s;
    if s != [] {
      assert t[..|t| - 1] == Zeros(k) + s[..|s| - 1];
      NumberAfterZeros(k, s[..|s| - 1]);
    } else if k > 0 {
      assert t[..|t| - 1] == Zeros(k - 1) + s;
      NumberAfterZeros(k - 1, s);
    }
  }

  /** Every digit string is some zeros and the digits of its number. */
  lemma {:induction false} ZerosAndDigits(s: string) returns (k: nat)
    requires s != [] && AllDigits(s)
    ensures s == Zeros(k) + Digits(NumberOf(s))
    decreases |s|
  {
    var front, last := s[..|s| - 1], s[|s| - 1];
    assert s == front + [last];
    if front == [] {
      k := 0;
      assert NumberOf(front) == 0;
    } else {
      k := ZerosAndDigits(front);
      if NumberOf(front) == 0 {
        assert front == Zeros(k + 1);
        k := k + 1;
      } else {
        assert Digits(NumberOf(s)) == Digits(NumberOf(front)) + [last];
      }
    }
  }

  /** The text after `prefix`, if `s` starts with it. */
  function Expect(s: string, prefix: string): Option<string> {
    if prefix <= s then Some(s[|prefix|..]) else None
  }

  lemma Expected(prefix: string, rest: string)
    ensures Expect(prefix + rest, prefix) == Some(rest)
  {
    assert (prefix + rest)[|prefix|..] == rest;
  }

  /** Two texts that differ at a place both reach. */
  lemma NotExpected(prefix: string, other: string, rest: string, k: nat)
    requires k < |prefix| && k < |other| && prefix[k] != other[k]
    ensures Expect(other + rest, prefix) == None
  {
    assert (other + rest)[k] == other[k];
  }

  /** The number at the start of `s`: all the digits there are. */
  function ReadNumber(s: string): (r: Option<(nat, string)>)
    ensures r.Some? ==> |r.value.1| < |s|
  {
    var end := DigitsEnd(s, 0);
    if end == 0 then None else Some((NumberOf(s[..end]), s[end..]))
  }

  function DigitsEnd(s: string, from: nat): (end: nat)
    requires from <= |s|
    ensures from <= end <= |s|
    ensures forall j :: from <= j < end ==> IsDigit(s[j])
    ensures end < |s| ==> !IsDigit(s[end])
    decreases |s| - from
  {
    if from < |s| && IsDigit(s[from]) then DigitsEnd(s, from + 1) else from
  }

  lemma ReadDigits(n: nat, rest: string)
    requires rest == [] || !IsDigit(rest[0])
    ensures ReadNumber(Digits(n) + rest) == Some((n, rest))
  {
    var s, end := Digits(n) + rest, DigitsEnd(Digits(n) + rest, 0);
    assert forall j :: 0 <= j < |Digits(n)| ==> s[j] == Digits(n)[j];
    assert rest != [] ==> s[|Digits(n)|] == rest[0];
    assert forall j :: 0 <= j < |Digits(n)| ==> IsDigit(s[j]);
    assert end == |Digits(n)|;
    assert s[..end] == Digits(n) && s[end..] == rest;
    NumberOfDigits(n);
  }
}
