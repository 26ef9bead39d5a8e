/** The JavaScript string operations the handlers and pages rely on. */
module Text {

  /** The characters JavaScript's `\s` class and `String.prototype.trim`
      treat as white space (WhiteSpace and LineTerminator). */
  predicate IsSpace(c: char) {
    || c == ' ' || c == '\t' || c == '\n' || c == '\r' || c == '\U{B}' || c == '\U{C}'
    || c == '\U{A0}' || c == '\U{1680}' || ('\U{2000}' <= c <= '\U{200A}')
    || c == '\U{2028}' || c == '\U{2029}' || c == '\U{202F}' || c == '\U{205F}'
    || c == '\U{3000}' || c == '\U{FEFF}'
  }

  /** Every character is white space (the empty string included). */
  predicate Blank(s: string) {
    forall i :: 0 <= i < |s| ==> IsSpace(s[i])
  }

  /** Drops the white space at the front. */
  function TrimStart(s: string): (r: string)
    ensures |r| <= |s|
    ensures Blank(s[..|s| - |r|])
    ensures r == [] || !IsSpace(r[0])
  {
    if s != [] && IsSpace(s[0]) then TrimStart(s[1..]) else s
  }

  /** What TrimStart keeps is a suffix of its argument. */
  lemma {:induction false} TrimStartSuffix(s: string)
    ensures TrimStart(s) == s[|s| - |TrimStart(s)|..]
  {
    if s != [] && IsSpace(s[0]) {
      TrimStartSuffix(s[1..]);
    }
  }

  /** Drops the white space at the back. */
  function TrimEnd(s: string): (r: string)
    ensures |r| <= |s|
    ensures Blank(s[|r|..])
    ensures r == [] || !IsSpace(r[|r| - 1])
  {
    if s != [] && IsSpace(s[|s| - 1]) then TrimEnd(s[..|s| - 1]) else s
  }

  /** What TrimEnd keeps is a prefix of its argument. */
  lemma {:induction false} TrimEndPrefix(s: string)
    ensures TrimEnd(s) == s[..|TrimEnd(s)|]
  {
    if s != [] && IsSpace(s[|s| - 1]) {
      TrimEndPrefix(s[..|s| - 1]);
    }
  }

  /** `String.prototype.trim`. */
  function Trim(s: string): (r: string)
    ensures |r| <= |s|
    ensures r == [] || (!IsSpace(r[0]) && !IsSpace(r[|r| - 1]))
  {
    TrimEndPrefix(TrimStart(s));
    TrimEnd(TrimStart(s))
  }

  /** Trim removes only padding: what it keeps is the slice of the input
      between a blank prefix and a blank suffix. */
  lemma TrimRemovesOnlyPadding(s: string)
    ensures exists i, j :: 0 <= i <= j <= |s| && Trim(s) == s[i..j] && Blank(s[..i]) && Blank(s[j..])
  {
    var a := TrimStart(s);
    TrimStartSuffix(s);
    TrimEndPrefix(a);
    var i := |s| - |a|;
    var j := i + |Trim(s)|;
    assert Trim(s) == s[i..j];
    assert s[j..] == a[|Trim(s)|..];
  }

  /** A string trims to "" exactly when it is all white space. */
  lemma TrimEmptyIffBlank(s: string)
    ensures Trim(s) == [] <==> Blank(s)
  {
    var a := TrimStart(s);
    TrimStartSuffix(s);
    if a != [] {
      assert !IsSpace(a[0]) && a[0] == s[|s| - |a|];
      assert a[0..] == a;
    } else {
      assert s[..|s|] == s;
    }
  }

  /** Trimming a string that neither starts nor ends with white space changes nothing. */
  lemma TrimUnpadded(s: string)
    requires s == [] || (!IsSpace(s[0]) && !IsSpace(s[|s| - 1]))
    ensures Trim(s) == s
  {
  }

  /** Trimming twice is trimming once. */
  lemma TrimIdempotent(s: string)
    ensures Trim(Trim(s)) == Trim(s)
  {
    TrimUnpadded(Trim(s));
  }

  /** Trimming keeps a string that is not all white space from becoming so. */
  lemma TrimKeepsNonBlank(s: string)
    requires !Blank(s)
    ensures !Blank(Trim(s))
  {
    TrimEmptyIffBlank(s);
    TrimEmptyIffBlank(Trim(s));
  }

  /** The number of UTF-16 code units JavaScript uses for a character. */
  function Utf16Units(c: char): nat {
    if c <= '\U{FFFF}' then 1 else 2
  }

  /** JavaScript's `length`: UTF-16 code units, not characters. */
  function JsLength(s: string): (n: nat)
    ensures |s| <= n <= 2 * |s|
    ensures (forall i :: 0 <= i < |s| ==> s[i] <= '\U{FFFF}') ==> n == |s|
  {
    if s == [] then 0 else Utf16Units(s[0]) + JsLength(s[1..])
  }

  /** JavaScript's `length` of a concatenation is the sum of the lengths. */
  lemma {:induction false} JsLengthAppend(a: string, b: string)
    ensures JsLength(a + b) == JsLength(a) + JsLength(b)
  {
    if a != [] {
      assert (a + b)[1..] == a[1..] + b;
      JsLengthAppend(a[1..], b);
    } else {
      assert a + b == b;
    }
  }

  /** A character above U+FFFF is a surrogate pair: `length` counts it twice. */
  lemma AstralCharCountsTwice(c: char)
    requires c > '\U{FFFF}'
    ensures JsLength([c]) == 2
  {
    assert [c][1..] == [];
  }

  /** Position of the first occurrence of `c`. */
  function IndexOf(s: string, c: char): (k: nat)
    requires c in s
    ensures k < |s| && s[k] == c && c !in s[..k]
  {
    if s[0] == c then 0
    else
      var k := 1 + IndexOf(s[1..], c);
      assert s[..k] == [s[0]] + s[1..][..k - 1];
      k
  }

  /** The first occurrence of `c` is the one with no `c` before it. */
  lemma IndexOfIs(s: string, c: char, k: nat)
    requires k < |s| && s[k] == c && c !in s[..k]
    ensures IndexOf(s, c) == k
  {
  }

  /** Position of the last occurrence of `c`. */
  function LastIndexOf(s: string, c: char): (k: nat)
    requires c in s
    ensures k < |s| && s[k] == c && c !in s[k + 1..]
  {
    if s[|s| - 1] == c then |s| - 1
    else
      assert c in s[..|s| - 1] by {
        var j :| 0 <= j < |s| && s[j] == c;
        assert s[..|s| - 1][j] == c;
      }
      var k := LastIndexOf(s[..|s| - 1], c);
      assert s[k + 1..] == s[..|s| - 1][k + 1..] + [s[|s| - 1]];
      k
  }

  /** The last occurrence of `c` is the one with no `c` after it. */
  lemma LastIndexOfIs(s: string, c: char, k: nat)
    requires k < |s| && s[k] == c && c !in s[k + 1..]
    ensures LastIndexOf(s, c) == k
  {
  }

  /** `Array.prototype.join` with a one-character separator. */
  function Join(parts: seq<string>, sep: char): string {
    if |parts| == 0 then ""
    else if |parts| == 1 then parts[0]
    else parts[0] + [sep] + Join(parts[1..], sep)
  }

  /** `String.prototype.split` with a one-character separator: the pieces
      between separators, in order, empty pieces included. */
  function Split(s: string, sep: char): (parts: seq<string>)
    ensures |parts| >= 1
    ensures forall i :: 0 <= i < |parts| ==> sep !in parts[i]
    decreases |s|
  {
    if sep !in s then [s]
    else
      var k := IndexOf(s, sep);
      [s[..k]] + Split(s[k + 1..], sep)
  }

  /** Joining the pieces of a split with the same separator gives the
      string back. */
  lemma {:induction false} JoinSplit(s: string, sep: char)
    ensures Join(Split(s, sep), sep) == s
    decreases |s|
  {
    if sep in s {
      var k := IndexOf(s, sep);
      var rest := Split(s[k + 1..], sep);
      JoinSplit(s[k + 1..], sep);
      assert ([s[..k]] + rest)[1..] == rest;
      assert s == s[..k] + [sep] + s[k + 1..];
    }
  }

  /** Splitting what was joined gives the pieces back, provided no piece
      holds the separator. */
  lemma {:induction false} SplitJoin(parts: seq<string>, sep: char)
    requires |parts| >= 1
    requires forall i :: 0 <= i < |parts| ==> sep !in parts[i]
    ensures Split(Join(parts, sep), sep) == parts
  {
    if |parts| > 1 {
      var p := parts[0];
      var tail := Join(parts[1..], sep);
      var s := p + [sep] + tail;
      assert s[|p|] == sep;
      assert s[..|p|] == p;
      IndexOfIs(s, sep, |p|);
      assert s[|p| + 1..] == tail;
      SplitJoin(parts[1..], sep);
    }
  }

  /** Joining the first i+1 pieces extends the join of the first i by one separator and one piece. */
  lemma JoinPrefixStep(parts: seq<string>, sep: char, i: nat)
    requires 0 < i < |parts|
    ensures Join(parts[..i + 1], sep) == Join(parts[..i], sep) + [sep] + parts[i]
    decreases i
  {
    if i > 1 {
      assert parts[..i + 1][1..] == parts[1..][..i];
      assert parts[..i][1..] == parts[1..][..i - 1];
      JoinPrefixStep(parts[1..], sep, i - 1);
    }
  }

  /** ASCII upper case to lower case; every other character unchanged. */
  function LowerChar(c: char): char {
    if 'A' <= c <= 'Z' then (c as int + 32) as char else c
  }

  /** ASCII lower case to upper case; every other character unchanged. */
  function UpperChar(c: char): char {
    if 'a' <= c <= 'z' then (c as int - 32) as char else c
  }

  /** `toLowerCase` on the ASCII letters. */
  function Lower(s: string): (r: string)
    ensures |r| == |s|
    ensures forall i :: 0 <= i < |s| ==> r[i] == LowerChar(s[i])
  {
    seq(|s|, i requires 0 <= i < |s| => LowerChar(s[i]))
  }

  /** `t` occurs somewhere in `s` (an unanchored match). */
  predicate HasSubstring(s: string, t: string) {
    exists i :: 0 <= i <= |s| && t <= s[i..]
  }

  /** A non-empty run of decimal digits. */
  predicate IsDigits(s: string) {
    |s| > 0 && forall i :: 0 <= i < |s| ==> '0' <= s[i] <= '9'
  }

  // ------------------------------------------------------------- Number()

  /** The index of the first 'e' or 'E', or the length when there is none. */
  function ExponentAt(s: string): (k: nat)
    ensures k <= |s|
  {
    if s == [] || s[0] == 'e' || s[0] == 'E' then 0 else 1 + ExponentAt(s[1..])
  }

  /** ExponentAt finds the first 'e' or 'E': none comes before it, and one
      is at it unless it is the length. */
  lemma {:induction false} ExponentAtIsFirst(s: string)
    ensures forall i :: 0 <= i < ExponentAt(s) ==> s[i] != 'e' && s[i] != 'E'
    ensures ExponentAt(s) < |s| ==> s[ExponentAt(s)] == 'e' || s[ExponentAt(s)] == 'E'
  {
    if s != [] && s[0] != 'e' && s[0] != 'E' {
      ExponentAtIsFirst(s[1..]);
    }
  }

  /** Digits with at most one '.', and at least one digit. */
  predicate Mantissa(m: string) {
    if '.' in m then
      var d := IndexOf(m, '.');
      && (d > 0 || d + 1 < |m|)
      && (d == 0 || IsDigits(m[..d]))
      && (d + 1 == |m| || IsDigits(m[d + 1..]))
    else IsDigits(m)
  }

  /** Digits, with an optional sign in front. */
  predicate SignedDigits(t: string) {
    IsDigits(t) || (|t| > 0 && (t[0] == '+' || t[0] == '-') && IsDigits(t[1..]))
  }

  /** An unsigned decimal literal: a mantissa, then an optional exponent. */
  predicate UnsignedDecimal(s: string) {
    var k := ExponentAt(s);
    Mantissa(s[..k]) && (k == |s| || SignedDigits(s[k + 1..]))
  }

  /** A decimal literal or "Infinity", with an optional sign in front. */
  predicate DecimalLiteral(s: string) {
    var u := if |s| > 0 && (s[0] == '+' || s[0] == '-') then s[1..] else s;
    UnsignedDecimal(u) || u == "Infinity"
  }

  predicate IsHexDigit(c: char) {
    '0' <= c <= '9' || 'a' <= c <= 'f' || 'A' <= c <= 'F'
  }

  /** A hexadecimal, octal or binary literal, unsigned: "0x1f", "0o17", "0b101". */
  predicate NonDecimalLiteral(s: string) {
    && |s| > 2 && s[0] == '0'
    && (|| ((s[1] == 'x' || s[1] == 'X') && forall i :: 2 <= i < |s| ==> IsHexDigit(s[i]))
        || ((s[1] == 'o' || s[1] == 'O') && forall i :: 2 <= i < |s| ==> '0' <= s[i] <= '7')
        || ((s[1] == 'b' || s[1] == 'B') && forall i :: 2 <= i < |s| ==> s[i] == '0' || s[i] == '1'))
  }

  /** `!isNaN(Number(s))`: after trimming, the string is empty (which
      converts to 0) or one whole numeric literal. */
  predicate IsNumeric(s: string) {
    var t := Trim(s);
    t == "" || DecimalLiteral(t) || NonDecimalLiteral(t)
  }

  /** A string without 'e' or 'E' has no exponent. */
  lemma {:induction false} NoExponent(s: string)
    requires forall i :: 0 <= i < |s| ==> s[i] != 'e' && s[i] != 'E'
    ensures ExponentAt(s) == |s|
  {
    if s != [] {
      NoExponent(s[1..]);
    }
  }

  /** A run of digits is an unsigned decimal literal. */
  lemma DigitsAreDecimal(s: string)
    requires IsDigits(s)
    ensures UnsignedDecimal(s)
  {
    NoExponent(s);
    assert s[..|s|] == s;
    assert '.' !in s;
  }

  /** A run of digits is a decimal literal. */
  lemma DigitsAreDecimalLiteral(s: string)
    requires IsDigits(s)
    ensures DecimalLiteral(s)
  {
    DigitsAreDecimal(s);
    assert s[0] != '+' && s[0] != '-';
  }

  /** A run of digits converts to a number. */
  lemma DigitsAreNumeric(s: string)
    requires IsDigits(s)
    ensures IsNumeric(s)
  {
    assert !IsSpace(s[0]) && !IsSpace(s[|s| - 1]);
    TrimUnpadded(s);
    DigitsAreDecimalLiteral(s);
  }

  /** An exponent form converts to a number: `Number("1e3")` is 1000. */
  lemma ExponentIsNumeric()
    ensures DecimalLiteral("1e3")
    ensures IsNumeric("1e3")
  {
    TrimUnpadded("1e3");
    assert ExponentAt("1e3") == 1;
    assert "1e3"[..1] == "1" && "1e3"[2..] == "3";
  }

  /** Digits followed by a letter do not convert: `Number("12a")` is NaN. */
  lemma TrailingLetterIsNotNumeric()
    ensures !DecimalLiteral("12a") && !NonDecimalLiteral("12a")
    ensures !IsNumeric("12a")
  {
    TrimUnpadded("12a");
    NoExponent("12a");
    assert "12a"[..3] == "12a";
    assert "12a"[2] == 'a';
  }
}
