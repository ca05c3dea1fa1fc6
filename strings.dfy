/**
 * Kotlin strings as sequences of UTF-16 code units, and the three library
 * operations the renderer relies on: decimal formatting of an `Int`,
 * `joinToString(separator)` and `split(separator)`.
 */
module Strings {

  /** One UTF-16 code unit (a Kotlin `Char`). */
  newtype CodeUnit = u: int | 0 <= u < 0x1_0000

  /** A Kotlin `String`. */
  type Text = seq<CodeUnit>

  const LineFeed: CodeUnit := 0x0A
  const Escape: CodeUnit := 0x1B
  const Space: CodeUnit := 0x20
  const Minus: CodeUnit := 0x2D
  const Semicolon: CodeUnit := 0x3B
  const LeftBracket: CodeUnit := 0x5B
  const LowerM: CodeUnit := 0x6D

  /** `Char.isHighSurrogate()`. */
  predicate IsHighSurrogate(u: CodeUnit) {
    0xD800 <= u <= 0xDBFF
  }

  predicate IsDigit(u: CodeUnit) {
    0x30 <= u <= 0x39
  }

  /** True if `s` does not contain the code unit `u`. */
  predicate Free(s: Text, u: CodeUnit) {
    forall i :: 0 <= i < |s| ==> s[i] != u
  }

  /** The decimal digits of `n`, most significant first. */
  function Digits(n: nat): (r: Text)
    ensures 1 <= |r|
    decreases n
  {
    if n < 10 then [(0x30 + n) as CodeUnit] else Digits(n / 10) + [(0x30 + n % 10) as CodeUnit]
  }

  /** Every unit of `Digits(n)` is a decimal digit. */
  lemma {:induction false} DigitsChars(n: nat)
    ensures forall i :: 0 <= i < |Digits(n)| ==> IsDigit(Digits(n)[i])
    decreases n
  {
    if n >= 10 {
      DigitsChars(n / 10);
    }
  }

  /** `Int.toString()`: an optional minus sign followed by the digits. */
  function Decimal(n: int): (r: Text)
    ensures 1 <= |r|
  {
    if n < 0 then [Minus] + Digits(-n) else Digits(n)
  }

  /** A decimal is made of digits, except for a leading minus sign on a negative number. */
  lemma DecimalChars(n: int)
    ensures forall i :: 0 <= i < |Decimal(n)| ==> IsDigit(Decimal(n)[i]) || (i == 0 && Decimal(n)[i] == Minus && n < 0)
  {
    var r := Decimal(n);
    DigitsChars(if n < 0 then -n else n);
    if n < 0 {
      assert forall i :: 1 <= i < |r| ==> r[i] == Digits(-n)[i - 1];
    }
  }

  /** A decimal contains no line feed. */
  lemma DecimalSingleLine(n: int)
    ensures Free(Decimal(n), LineFeed)
  {
    DecimalChars(n);
  }

  /** Appending two texts in turn appends their concatenation. */
  lemma Associative(a: Text, b: Text, c: Text)
    ensures a + b + c == a + (b + c)
  {
  }

  /** The parts concatenated, with nothing between them. */
  function Flatten(parts: seq<Text>): Text
    decreases |parts|
  {
    if |parts| == 0 then [] else Flatten(parts[..|parts| - 1]) + parts[|parts| - 1]
  }

  /** Flattening distributes over concatenation. */
  lemma {:induction false} FlattenAppend(a: seq<Text>, b: seq<Text>)
    ensures Flatten(a + b) == Flatten(a) + Flatten(b)
    decreases |b|
  {
    if b == [] {
      assert a + b == a;
    } else {
      var n := |b|;
      var ab := a + b;
      FlattenAppend(a, b[..n - 1]);
      assert ab[..|ab| - 1] == a + b[..n - 1];
      calc {
        Flatten(ab);
        Flatten(a + b[..n - 1]) + b[n - 1];
        Flatten(a) + Flatten(b[..n - 1]) + b[n - 1];
      }
    }
  }

  /** Each part preceded by the separator. */
  function Prefix(parts: seq<Text>, sep: CodeUnit): (r: seq<Text>)
    ensures |r| == |parts|
    ensures forall i :: 0 <= i < |parts| ==> r[i] == [sep] + parts[i]
  {
    seq(|parts|, i requires 0 <= i < |parts| => [sep] + parts[i])
  }

  /** `parts.joinToString(separator = sep)`. */
  function Join(parts: seq<Text>, sep: CodeUnit): Text
    decreases |parts|
  {
    if |parts| == 0 then []
    else if |parts| == 1 then parts[0]
    else Join(parts[..|parts| - 1], sep) + [sep] + parts[|parts| - 1]
  }

  /** `joinToString` with one more part: the separator, then the part, unless it is the first. */
  lemma JoinAppend(parts: seq<Text>, part: Text, sep: CodeUnit)
    ensures Join(parts + [part], sep) == if |parts| == 0 then part else Join(parts, sep) + [sep] + part
  {
    assert (parts + [part])[..|parts|] == parts;
  }

  /** What one more code unit `u` in front of a text does to its pieces `rest`. */
  function Prepend(u: CodeUnit, rest: seq<Text>, sep: CodeUnit): (r: seq<Text>)
    requires 1 <= |rest|
    ensures 1 <= |r|
  {
    if u == sep then [[]] + rest else [[u] + rest[0]] + rest[1..]
  }

  /**
   * `s.split(sep)`: the pieces between separators, empty ones included, so
   * that the empty string splits into one empty piece.
   */
  function Split(s: Text, sep: CodeUnit): (r: seq<Text>)
    ensures 1 <= |r|
    decreases |s|
  {
    if |s| == 0 then [[]] else Prepend(s[0], Split(s[1..], sep), sep)
  }

  /** A code unit in front only changes the first of the pieces. */
  lemma PrependAppend(u: CodeUnit, ra: seq<Text>, rb: seq<Text>, sep: CodeUnit)
    requires 1 <= |ra|
    ensures Prepend(u, ra + rb, sep) == Prepend(u, ra, sep) + rb
  {
    if u != sep {
      assert (ra + rb)[1..] == ra[1..] + rb;
    }
  }

  /** Splitting at an occurrence of the separator splits both sides independently. */
  lemma {:induction false} SplitAtSeparator(a: Text, b: Text, sep: CodeUnit)
    ensures Split(a + [sep] + b, sep) == Split(a, sep) + Split(b, sep)
    decreases |a|
  {
    var s := a + [sep] + b;
    if |a| == 0 {
      assert s[1..] == b;
    } else {
      assert s[1..] == a[1..] + [sep] + b;
      SplitAtSeparator(a[1..], b, sep);
      PrependAppend(a[0], Split(a[1..], sep), Split(b, sep), sep);
    }
  }

  /** A text without the separator splits into itself. */
  lemma {:induction false} SplitFree(s: Text, sep: CodeUnit)
    requires Free(s, sep)
    ensures Split(s, sep) == [s]
    decreases |s|
  {
    if |s| > 0 {
      SplitFree(s[1..], sep);
      assert [s[0]] + s[1..] == s;
    }
  }

  /** `split` undoes `joinToString` when no part contains the separator. */
  lemma {:induction false} SplitJoin(parts: seq<Text>, sep: CodeUnit)
    requires 1 <= |parts|
    requires forall i :: 0 <= i < |parts| ==> Free(parts[i], sep)
    ensures Split(Join(parts, sep), sep) == parts
    decreases |parts|
  {
    if |parts| == 1 {
      SplitFree(parts[0], sep);
    } else {
      var init := parts[..|parts| - 1];
      SplitJoin(init, sep);
      SplitAtSeparator(Join(init, sep), parts[|parts| - 1], sep);
      SplitFree(parts[|parts| - 1], sep);
      assert init + [parts[|parts| - 1]] == parts;
    }
  }

  /** A joined text contains the separator only where the parts or the separators put it. */
  lemma {:induction false} JoinFree(parts: seq<Text>, sep: CodeUnit, u: CodeUnit)
    requires u != sep
    requires forall i :: 0 <= i < |parts| ==> Free(parts[i], u)
    ensures Free(Join(parts, sep), u)
    decreases |parts|
  {
    if |parts| > 1 {
      JoinFree(parts[..|parts| - 1], sep, u);
    }
  }

  /** Writing every part after a separator gives the joined parts after one leading separator. */
  lemma {:induction false} FlattenPrefixIsJoin(parts: seq<Text>, sep: CodeUnit)
    requires parts != []
    ensures Flatten(Prefix(parts, sep)) == [sep] + Join(parts, sep)
    decreases |parts|
  {
    var n := |parts|;
    var init := parts[..n - 1];
    assert Prefix(parts, sep)[..n - 1] == Prefix(init, sep);
    if n > 1 {
      FlattenPrefixIsJoin(init, sep);
    }
  }
}
