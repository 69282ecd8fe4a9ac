/**
 * The pieces of Python's string handling that the API's SQL builders rely on:
 * `str()` of an int (through `"%s" % year`), `str.split` and `str.join` with a
 * one-character separator, and `str.lower` restricted to ASCII letters.
 */
module Text {

  predicate IsDigit(c: char) { '0' <= c <= '9' }

  predicate AllDigits(s: string) { forall i :: 0 <= i < |s| ==> IsDigit(s[i]) }

  function DigitChar(d: nat): (c: char)
    requires d < 10
    ensures IsDigit(c) && c as int - '0' as int == d
  {
    ('0' as int + d) as char
  }

  function DigitValue(c: char): nat
    requires IsDigit(c)
  {
    c as int - '0' as int
  }

  /** The decimal digits of `n` as Python's `str()` prints them: at least one digit, no leading zero. */
  function NatToDecimal(n: nat): (s: string)
    ensures |s| >= 1 && AllDigits(s)
    ensures (n < 10) == (|s| == 1)
    ensures (s[0] == '0') == (n == 0)
    decreases n
  {
    if n < 10 then [DigitChar(n)] else NatToDecimal(n / 10) + [DigitChar(n % 10)]
  }

  /** `str(n)` for any int: a minus sign before the digits of a negative number. */
  function IntToDecimal(n: int): (s: string)
    ensures CanonicalIntText(s)
  {
    if n < 0 then "-" + NatToDecimal(-n) else NatToDecimal(n)
  }

  /** The value of a run of decimal digits, read most significant first. */
  function DecimalValue(s: string): nat
    requires AllDigits(s)
  {
    if s == [] then 0 else DecimalValue(s[..|s| - 1]) * 10 + DigitValue(s[|s| - 1])
  }

  /** Text that reads back as an int: digits, optionally after one minus sign. */
  predicate IsIntText(s: string)
  {
    (|s| >= 1 && AllDigits(s)) || (|s| >= 2 && s[0] == '-' && AllDigits(s[1..]))
  }

  function ReadInt(s: string): int
    requires IsIntText(s)
  {
    if s[0] == '-' then -(DecimalValue(s[1..]) as int) else DecimalValue(s)
  }

  /** No leading zero unless the number is the single digit `0`, and a minus sign only before a non-zero number. */
  predicate CanonicalIntText(s: string)
  {
    && IsIntText(s)
    && (if s[0] == '-' then s[1] != '0' else |s| == 1 || s[0] != '0')
  }

  lemma {:induction false} NatToDecimalRoundTrip(n: nat)
    ensures DecimalValue(NatToDecimal(n)) == n
    decreases n
  {
    if n >= 10 {
      var prefix := NatToDecimal(n / 10);
      var s := prefix + [DigitChar(n % 10)];
      assert s[..|s| - 1] == prefix;
      NatToDecimalRoundTrip(n / 10);
    }
  }

  /** A minus sign before digits reads back as the negated value of the digits. */
  lemma ReadNegative(text: string, digits: string)
    requires |digits| >= 1 && AllDigits(digits) && text == "-" + digits
    ensures IsIntText(text) && ReadInt(text) == -(DecimalValue(digits) as int)
  {
    assert text[1..] == digits;
  }

  /** `str()` of an int can be read back: the decimal text is an inverse-able encoding. */
  lemma IntToDecimalRoundTrip(n: int)
    ensures IsIntText(IntToDecimal(n)) && ReadInt(IntToDecimal(n)) == n
  {
    if n < 0 {
      NatToDecimalRoundTrip(-n);
      ReadNegative(IntToDecimal(n), NatToDecimal(-n));
    } else {
      var digits := NatToDecimal(n);
      assert IsDigit(digits[0]);
      NatToDecimalRoundTrip(n);
      assert ReadInt(digits) == DecimalValue(digits);
    }
  }

  /** Digits without a leading zero are the decimal text of their value, which is positive unless they are `0`. */
  lemma {:induction false} CanonicalDigits(s: string)
    requires |s| >= 1 && AllDigits(s) && (|s| == 1 || s[0] != '0')
    ensures NatToDecimal(DecimalValue(s)) == s
    ensures (DecimalValue(s) == 0) == (s[0] == '0')
    decreases |s|
  {
    var last := s[|s| - 1];
    if |s| == 1 {
      assert s[..0] == [];
      assert DigitChar(DigitValue(last)) == last;
    } else {
      var front := s[..|s| - 1];
      CanonicalDigits(front);
      var n := DecimalValue(s);
      assert n / 10 == DecimalValue(front) && n % 10 == DigitValue(last);
      assert DigitChar(DigitValue(last)) == last;
      assert s == front + [last];
    }
  }

  /** Canonical integer text is exactly `str()` of the value it reads back as. */
  lemma CanonicalIntTextIsDecimal(s: string)
    requires CanonicalIntText(s)
    ensures s == IntToDecimal(ReadInt(s))
  {
    if s[0] == '-' {
      CanonicalDigits(s[1..]);
      assert s == "-" + s[1..];
    } else {
      CanonicalDigits(s);
    }
  }

  /** Two canonical texts that read back as the same int are the same text. */
  lemma CanonicalIntTextUnique(s: string, t: string)
    requires CanonicalIntText(s) && CanonicalIntText(t)
    requires ReadInt(s) == ReadInt(t)
    ensures s == t
  {
    CanonicalIntTextIsDecimal(s);
    CanonicalIntTextIsDecimal(t);
  }

  /** Distinct ints print as distinct text. */
  lemma IntToDecimalInjective(a: int, b: int)
    requires IntToDecimal(a) == IntToDecimal(b)
    ensures a == b
  {
    IntToDecimalRoundTrip(a);
    IntToDecimalRoundTrip(b);
  }

  /** The first position of `c` in `s` at or after `from`, or `|s|` when `c` does not occur there. */
  function IndexFrom(s: string, c: char, from: nat): (i: nat)
    requires from <= |s|
    ensures from <= i <= |s|
    ensures i < |s| ==> s[i] == c
    ensures forall j :: from <= j < i ==> s[j] != c
    decreases |s| - from
  {
    if from == |s| then |s| else if s[from] == c then from else IndexFrom(s, c, from + 1)
  }

  /** The first position of `c` in `s`, or `|s|` when `c` does not occur. */
  function IndexOf(s: string, c: char): (i: nat)
    ensures i <= |s|
    ensures i < |s| ==> s[i] == c
    ensures forall j :: 0 <= j < i ==> s[j] != c
  {
    IndexFrom(s, c, 0)
  }

  /** `s.split(sep)`: the pieces between occurrences of `sep`; there is always at least one. */
  function Split(s: string, sep: char): (parts: seq<string>)
    ensures |parts| >= 1
    decreases |s|
  {
    var i := IndexOf(s, sep);
    if i == |s| then
      assert s[..i] == s;
      [s]
    else
      [s[..i]] + Split(s[i + 1..], sep)
  }

  /** No piece of a split contains the separator. */
  lemma {:induction false} SplitPiecesHaveNoSeparator(s: string, sep: char)
    ensures forall k :: 0 <= k < |Split(s, sep)| ==> sep !in Split(s, sep)[k]
    decreases |s|
  {
    var i := IndexOf(s, sep);
    if i < |s| {
      SplitPiecesHaveNoSeparator(s[i + 1..], sep);
      SplitAtFirst(s, sep);
    } else {
      assert s[..i] == s;
    }
  }

  /** Up to the first separator comes the first piece; the rest is the split of what follows it. */
  lemma SplitAtFirst(s: string, sep: char)
    requires IndexOf(s, sep) < |s|
    ensures Split(s, sep) == [s[..IndexOf(s, sep)]] + Split(s[IndexOf(s, sep) + 1..], sep)
  {
  }

  /** Text without the separator splits into itself alone. */
  lemma SplitWithoutSeparator(s: string, sep: char)
    requires IndexOf(s, sep) == |s|
    ensures Split(s, sep) == [s]
  {
    assert s[..|s|] == s;
  }

  /** `sep.join(parts)`. */
  function Join(parts: seq<string>, sep: char): string
  {
    if |parts| == 0 then ""
    else if |parts| == 1 then parts[0]
    else parts[0] + [sep] + Join(parts[1..], sep)
  }

  /** Text is what comes before position `i`, the character there and what follows. */
  lemma Around(s: string, i: nat)
    requires i < |s|
    ensures s == s[..i] + [s[i]] + s[i + 1..]
  {
  }

  /** Joining a first piece before at least one more puts the separator after it. */
  lemma JoinCons(first: string, parts: seq<string>, sep: char)
    requires |parts| >= 1
    ensures Join([first] + parts, sep) == first + [sep] + Join(parts, sep)
  {
    assert ([first] + parts)[1..] == parts;
  }

  /** Joining the pieces of a split gives back the text. */
  lemma {:induction false} JoinSplit(s: string, sep: char)
    ensures Join(Split(s, sep), sep) == s
    decreases |s|
  {
    var i := IndexOf(s, sep);
    if i < |s| {
      var t := s[i + 1..];
      JoinSplit(t, sep);
      SplitAtFirst(s, sep);
      JoinCons(s[..i], Split(t, sep), sep);
      Around(s, i);
    } else {
      SplitWithoutSeparator(s, sep);
    }
  }

  /** In `a + [sep] + b` with `sep` not in `a`, the first separator is the joining one. */
  lemma FirstSeparatorAtJoin(s: string, a: string, sep: char, b: string)
    requires sep !in a && s == a + [sep] + b
    ensures IndexOf(s, sep) == |a|
    ensures s[..|a|] == a && s[|a| + 1..] == b
  {
    assert s[|a|] == sep;
    assert forall j :: 0 <= j < |a| ==> s[j] == a[j];
  }

  /** Splitting a join of separator-free pieces gives back the pieces. */
  lemma {:induction false} SplitJoin(parts: seq<string>, sep: char)
    requires |parts| >= 1
    requires forall k :: 0 <= k < |parts| ==> sep !in parts[k]
    ensures Split(Join(parts, sep), sep) == parts
    decreases |parts|
  {
    if |parts| == 1 {
      assert IndexOf(parts[0], sep) == |parts[0]|;
      SplitWithoutSeparator(parts[0], sep);
    } else {
      var s, rest := Join(parts, sep), Join(parts[1..], sep);
      FirstSeparatorAtJoin(s, parts[0], sep, rest);
      SplitAtFirst(s, sep);
      SplitJoin(parts[1..], sep);
      assert parts == [parts[0]] + parts[1..];
    }
  }

  /** `r` ends `s`, right after a separator unless it is all of `s`. */
  ghost predicate EndsAfterSeparator(s: string, r: string, sep: char)
  {
    && |r| <= |s|
    && s[|s| - |r|..] == r
    && (|r| < |s| ==> s[|s| - |r| - 1] == sep)
  }

  /** The last position of `c` in `s`, or -1 when `c` does not occur. */
  function LastIndexOf(s: string, c: char): (i: int)
    ensures -1 <= i < |s|
    ensures i >= 0 ==> s[i] == c
    ensures forall j :: i < j < |s| ==> s[j] != c
  {
    if s == [] then -1
    else if s[|s| - 1] == c then |s| - 1
    else LastIndexOf(s[..|s| - 1], c)
  }

  /** What follows a separator ends the text right after that separator. */
  lemma EndsAfterJoin(s: string, front: string, sep: char, last: string)
    requires s == front + [sep] + last
    ensures EndsAfterSeparator(s, last, sep)
  {
    assert s[|s| - |last|..] == last;
  }

  /** The last piece of a split is a suffix of the text, preceded by the separator unless it is the whole text. */
  lemma SplitLast(s: string, sep: char)
    ensures EndsAfterSeparator(s, Split(s, sep)[|Split(s, sep)| - 1], sep)
  {
    var i := LastIndexOf(s, sep);
    if i < 0 {
      assert IndexOf(s, sep) == |s|;
      SplitWithoutSeparator(s, sep);
      assert s[0..] == s;
    } else {
      var front, last := s[..i], s[i + 1..];
      Around(s, i);
      assert sep !in last;
      SplitAfterLastSeparator(s, front, sep, last);
      EndsAfterJoin(s, front, sep, last);
    }
  }

  /** Putting an element in front does not change the last element. */
  lemma LastOfCons<T>(whole: seq<T>, x: T, xs: seq<T>)
    requires |xs| >= 1 && whole == [x] + xs
    ensures whole[|whole| - 1] == xs[|xs| - 1]
  {
  }

  /** What follows position `i` of `front + [sep] + last`: `last` itself when `i` is the joining separator. */
  lemma AfterJoinPoint(s: string, front: string, sep: char, last: string, i: nat)
    requires s == front + [sep] + last && i == IndexOf(s, sep)
    ensures i <= |front|
    ensures i < |front| ==> s[i + 1..] == front[i + 1..] + [sep] + last
    ensures i == |front| ==> s[i + 1..] == last
  {
    assert s[|front|] == sep;
  }

  /** After the last separator of the text comes its last piece. */
  lemma {:induction false} SplitAfterLastSeparator(s: string, front: string, sep: char, last: string)
    requires sep !in last && s == front + [sep] + last
    ensures Split(s, sep)[|Split(s, sep)| - 1] == last
    decreases |front|
  {
    var i := IndexOf(s, sep);
    AfterJoinPoint(s, front, sep, last, i);
    SplitAtFirst(s, sep);
    var rest := s[i + 1..];
    if i < |front| {
      SplitAfterLastSeparator(rest, front[i + 1..], sep, last);
    } else {
      assert IndexOf(last, sep) == |last|;
      SplitWithoutSeparator(rest, sep);
    }
    LastOfCons(Split(s, sep), s[..i], Split(rest, sep));
  }

  /** ASCII `str.lower` of one character. */
  function LowerChar(c: char): (l: char)
    ensures !('A' <= l <= 'Z')
    ensures !('A' <= c <= 'Z') ==> l == c
    ensures 'A' <= c <= 'Z' ==> l as int == c as int + 32
  {
    if 'A' <= c <= 'Z' then (c as int + 32) as char else c
  }
}
