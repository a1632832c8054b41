/** The few JavaScript string operations the pages rely on: truthiness of an
    optional string, `trim`, ASCII `toLowerCase`, `includes`, the `<` order on
    strings, `Number.parseInt` and `Number.prototype.toString` on integers. */
module JsStrings {
  import opened Wrappers

  /** `x` used as a condition: `undefined` and `""` are false, every other string is true. */
  predicate Truthy(o: Option<string>) {
    o.Some? && o.value != ""
  }

  // ---------------------------------------------------------------------------
  // Whitespace and trim
  // ---------------------------------------------------------------------------

  /** The characters `String.prototype.trim` removes: WhiteSpace and LineTerminator of ECMA-262. */
  predicate IsWhitespace(c: char) {
    c == '\t' || c == '\n' || c == '\U{000B}' || c == '\U{000C}' || c == '\r' || c == ' '
    || c == '\U{00A0}' || c == '\U{1680}' || ('\U{2000}' <= c <= '\U{200A}')
    || c == '\U{2028}' || c == '\U{2029}' || c == '\U{202F}' || c == '\U{205F}'
    || c == '\U{3000}' || c == '\U{FEFF}'
  }

  /** True when `s.trim()` is the empty string. */
  predicate IsBlank(s: string) {
    forall i :: 0 <= i < |s| ==> IsWhitespace(s[i])
  }

  /** `s.trimStart()`: a suffix of `s` that does not start with whitespace;
      everything dropped was whitespace. */
  function TrimStart(s: string): (r: string)
    ensures |r| <= |s| && r == s[|s| - |r|..]
    ensures r == [] || !IsWhitespace(r[0])
    ensures IsBlank(s[..|s| - |r|])
  {
    if |s| > 0 && IsWhitespace(s[0]) then
      var t := s[1..];
      var r := TrimStart(t);
      assert r == s[|s| - |r|..] by {
        assert s[|s| - |r|..] == t[|t| - |r|..];
      }
      assert IsBlank(s[..|s| - |r|]) by {
        forall i | 0 <= i < |s| - |r| ensures IsWhitespace(s[i]) {
          if i > 0 {
            assert s[i] == t[..|t| - |r|][i - 1];
          }
        }
      }
      r
    else s
  }

  /** `s.trimEnd()`: a prefix of `s` that does not end with whitespace;
      everything dropped was whitespace. */
  function TrimEnd(s: string): (r: string)
    ensures |r| <= |s| && r == s[..|r|]
    ensures r == [] || !IsWhitespace(r[|r| - 1])
    ensures IsBlank(s[|r|..])
  {
    if |s| > 0 && IsWhitespace(s[|s| - 1]) then
      var r := TrimEnd(s[..|s| - 1]);
      assert IsBlank(s[|r|..]) by {
        forall i | 0 <= i < |s| - |r| ensures IsWhitespace(s[|r|..][i]) {
          if i < |s| - 1 - |r| {
            assert s[|r|..][i] == s[..|s| - 1][|r|..][i];
          }
        }
      }
      r
    else s
  }

  /** `s.trim()`. */
  function Trim(s: string): string {
    TrimEnd(TrimStart(s))
  }

  lemma {:induction false} BlankTrimStart(s: string)
    requires IsBlank(s)
    ensures TrimStart(s) == []
  {
    if |s| > 0 {
      BlankTrimStart(s[1..]);
    }
  }

  /** `s.trim()` is empty exactly when every character of `s` is whitespace. */
  lemma TrimEmptyIffBlank(s: string)
    ensures Trim(s) == "" <==> IsBlank(s)
  {
    if IsBlank(s) {
      BlankTrimStart(s);
    }
  }

  // ---------------------------------------------------------------------------
  // Case mapping (ASCII only)
  // ---------------------------------------------------------------------------

  predicate IsUpper(c: char) {
    'A' <= c <= 'Z'
  }

  function LowerChar(c: char): char {
    if IsUpper(c) then (c as int + 32) as char else c
  }

  function UpperChar(c: char): char {
    if 'a' <= c <= 'z' then (c as int - 32) as char else c
  }

  /** `s.toLowerCase()` restricted to ASCII letters: same length, upper-case letters mapped one by one. */
  function ToLower(s: string): (r: string)
    ensures |r| == |s| && forall i :: 0 <= i < |s| ==> r[i] == LowerChar(s[i])
  {
    if s == [] then [] else [LowerChar(s[0])] + ToLower(s[1..])
  }

  // ---------------------------------------------------------------------------
  // includes
  // ---------------------------------------------------------------------------

  /** `hay.includes(needle)`. */
  function Includes(hay: string, needle: string): bool
    decreases |hay|
  {
    needle <= hay || (|hay| > 0 && Includes(hay[1..], needle))
  }

  /** `needle` occurs in `hay` starting at offset `i`. */
  predicate OccursAt(hay: string, needle: string, i: int) {
    0 <= i && i + |needle| <= |hay| && hay[i..i + |needle|] == needle
  }

  /** `includes` holds exactly when `needle` occurs at some offset of `hay`. */
  lemma {:induction false} IncludesIffOccurs(hay: string, needle: string)
    ensures Includes(hay, needle) <==> exists i :: OccursAt(hay, needle, i)
    decreases |hay|
  {
    if needle <= hay {
      assert OccursAt(hay, needle, 0);
    } else if |hay| > 0 {
      IncludesIffOccurs(hay[1..], needle);
      if exists i :: OccursAt(hay, needle, i) {
        var i :| OccursAt(hay, needle, i);
        assert i != 0;
        assert OccursAt(hay[1..], needle, i - 1);
      }
      if Includes(hay[1..], needle) {
        var j :| OccursAt(hay[1..], needle, j);
        assert OccursAt(hay, needle, j + 1);
      }
    } else {
      assert needle != [];
      assert forall i :: !OccursAt(hay, needle, i);
    }
  }

  // ---------------------------------------------------------------------------
  // The `<` order on strings
  // ---------------------------------------------------------------------------

  /** `a < b` on strings: lexicographic by character, a proper prefix comes first. */
  function StrLess(a: string, b: string): bool {
    if a == [] then b != []
    else if b == [] then false
    else if a[0] != b[0] then a[0] < b[0]
    else StrLess(a[1..], b[1..])
  }

  lemma {:induction false} StrLessIrreflexive(a: string)
    ensures !StrLess(a, a)
  {
    if a != [] { StrLessIrreflexive(a[1..]); }
  }

  lemma {:induction false} StrLessTransitive(a: string, b: string, c: string)
    requires StrLess(a, b) && StrLess(b, c)
    ensures StrLess(a, c)
  {
    if a != [] && b != [] && c != [] && a[0] == b[0] && b[0] == c[0] {
      StrLessTransitive(a[1..], b[1..], c[1..]);
    }
  }

  /** Two different strings are ordered one way or the other. */
  lemma {:induction false} StrLessTotal(a: string, b: string)
    requires a != b
    ensures StrLess(a, b) || StrLess(b, a)
  {
    if a != [] && b != [] && a[0] == b[0] {
      assert a == [a[0]] + a[1..] && b == [b[0]] + b[1..];
      StrLessTotal(a[1..], b[1..]);
    }
  }

  lemma {:induction false} StrLessAsymmetric(a: string, b: string)
    requires StrLess(a, b)
    ensures !StrLess(b, a)
  {
    if a != [] && b != [] && a[0] == b[0] {
      StrLessAsymmetric(a[1..], b[1..]);
    }
  }

  // ---------------------------------------------------------------------------
  // Number.parseInt and integer toString
  // ---------------------------------------------------------------------------

  predicate IsRadixDigit(c: char, radix: nat) {
    ('0' <= c <= '9') || (radix == 16 && (('a' <= c <= 'f') || ('A' <= c <= 'F')))
  }

  /** The value of a hexadecimal digit (0 for any other character). */
  function DigitOf(c: char): nat {
    if '0' <= c <= '9' then c as int - '0' as int
    else if 'a' <= c <= 'f' then c as int - 'a' as int + 10
    else if 'A' <= c <= 'F' then c as int - 'A' as int + 10
    else 0
  }

  /** The longest prefix of `s` made of digits of `radix`. */
  function DigitPrefix(s: string, radix: nat): (z: string)
    ensures z <= s
    ensures forall i :: 0 <= i < |z| ==> IsRadixDigit(z[i], radix)
    ensures |z| < |s| ==> !IsRadixDigit(s[|z|], radix)
  {
    if |s| > 0 && IsRadixDigit(s[0], radix) then [s[0]] + DigitPrefix(s[1..], radix) else []
  }

  /** The value of a string of digits, most significant first. */
  function DigitsValue(z: string, radix: nat): nat {
    if z == [] then 0
    else
      var high := DigitsValue(z[..|z| - 1], radix);
      (if radix == 16 then high * 16 else high * 10) + DigitOf(z[|z| - 1])
  }

  /** The digits after the sign: a `0x`/`0X` prefix selects base 16,
      otherwise base 10; the longest run of digits is read, `None` when it is empty. */
  function ReadUnsigned(u: string): Option<nat> {
    var hex := |u| >= 2 && u[0] == '0' && (u[1] == 'x' || u[1] == 'X');
    var radix := if hex then 16 else 10;
    var z := DigitPrefix(if hex then u[2..] else u, radix);
    if z == [] then None else Some(DigitsValue(z, radix))
  }

  /** `Number.parseInt(s)` with no radix argument; `None` stands for `NaN`.
      Leading whitespace is skipped and one sign is read before the digits. */
  function ParseInt(s: string): Option<int> {
    var (negative, u) := SplitSign(TrimStart(s));
    ApplySign(negative, ReadUnsigned(u))
  }

  function ApplySign(negative: bool, r: Option<nat>): Option<int> {
    match r
    case None => None
    case Some(v) => Some(if negative then -(v as int) else v)
  }

  function DigitChar(d: nat): char
    requires d < 10
  {
    (d + '0' as int) as char
  }

  /** The decimal digits of `n`, without leading zeros. */
  function NatDigits(n: nat): (r: string)
    ensures r != []
    ensures forall i :: 0 <= i < |r| ==> '0' <= r[i] <= '9'
  {
    if n < 10 then [DigitChar(n)] else NatDigits(n / 10) + [DigitChar(n % 10)]
  }

  /** `n.toString()` for an integer `n`. */
  function DecimalString(n: int): string {
    if n < 0 then "-" + NatDigits(-n) else NatDigits(n)
  }

  lemma {:induction false} NatDigitsValue(n: nat)
    ensures DigitsValue(NatDigits(n), 10) == n
  {
    if n >= 10 {
      var s := NatDigits(n / 10);
      NatDigitsValue(n / 10);
      assert (s + [DigitChar(n % 10)])[..|s|] == s;
    }
  }

  lemma {:induction false} DigitPrefixOfDigits(z: string)
    requires forall i :: 0 <= i < |z| ==> '0' <= z[i] <= '9'
    ensures DigitPrefix(z, 10) == z
  {
    if z != [] {
      DigitPrefixOfDigits(z[1..]);
    }
  }

  lemma ReadUnsignedOfDigits(digits: string)
    requires digits != [] && forall i :: 0 <= i < |digits| ==> '0' <= digits[i] <= '9'
    ensures ReadUnsigned(digits) == Some(DigitsValue(digits, 10))
  {
    var hex := |digits| >= 2 && digits[0] == '0' && (digits[1] == 'x' || digits[1] == 'X');
    assert !hex by {
      if |digits| >= 2 { assert '0' <= digits[1] <= '9'; }
    }
    DigitPrefixOfDigits(digits);
  }

  /** The sign `parseInt` reads: whether the text starts with `-`, and the text after a `+` or `-`. */
  function SplitSign(t: string): (bool, string) {
    if |t| > 0 && (t[0] == '-' || t[0] == '+') then (t[0] == '-', t[1..]) else (false, t)
  }

  /** `parseInt` on decimal digits. */
  lemma ParseIntOfDigits(digits: string)
    requires digits != [] && forall i :: 0 <= i < |digits| ==> '0' <= digits[i] <= '9'
    ensures ParseInt(digits) == Some(DigitsValue(digits, 10) as int)
  {
    assert !IsWhitespace(digits[0]);
    assert TrimStart(digits) == digits;
    assert SplitSign(digits) == (false, digits);
    ReadUnsignedOfDigits(digits);
  }

  lemma ParseIntAfterMinus(digits: string)
    requires digits != [] && '0' <= digits[0] <= '9'
    ensures ParseInt("-" + digits) == ApplySign(true, ReadUnsigned(digits))
  {
    var s := "-" + digits;
    assert !IsWhitespace(s[0]);
    assert TrimStart(s) == s;
    assert s[1..] == digits;
    assert SplitSign(s) == (true, digits);
  }

  /** `parseInt` on a minus sign followed by decimal digits. */
  lemma ParseIntOfNegativeDigits(digits: string)
    requires digits != [] && forall i :: 0 <= i < |digits| ==> '0' <= digits[i] <= '9'
    ensures ParseInt("-" + digits) == ApplySign(true, Some(DigitsValue(digits, 10)))
  {
    ReadUnsignedOfDigits(digits);
    ParseIntAfterMinus(digits);
  }

  /** Reading back what `toString` wrote gives the same integer. */
  lemma ParseIntDecimalString(n: int)
    ensures ParseInt(DecimalString(n)) == Some(n)
  {
    var m: nat := if n < 0 then -n else n;
    NatDigitsValue(m);
    if n < 0 {
      ParseIntOfNegativeDigits(NatDigits(m));
    } else {
      ParseIntOfDigits(NatDigits(m));
    }
  }

}
