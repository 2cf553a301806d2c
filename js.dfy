/** The JavaScript string and number primitives the sidebar relies on:
    `??`, `slice`, `toUpperCase`, `padStart`, `Number.prototype.toString`,
    `parseInt` and `split`. Numbers are NaN or unbounded integers; text is a
    sequence of characters, and upper-casing is defined for ASCII only. */
module Js {

  datatype Option<+T> = None | Some(value: T) {
    /** `x ?? fallback` */
    function GetOr(fallback: T): T {
      if Some? then value else fallback
    }
  }

  /** The JavaScript numbers these programs produce: NaN or an integer. */
  datatype Number = NaN | Int(value: int)

  /** `x + k`; NaN absorbs. */
  function Plus(x: Number, k: int): Number {
    match x
    case NaN => NaN
    case Int(v) => Int(v + k)
  }

  function Min(a: int, b: int): int { if a < b then a else b }
  function Max(a: int, b: int): int { if a < b then b else a }

  function Pow10(k: nat): (r: nat)
    ensures r >= 1
  {
    if k == 0 then 1 else 10 * Pow10(k - 1)
  }

  // ---------------------------------------------------------------- characters

  predicate IsAscii(s: string) {
    forall i | 0 <= i < |s| :: s[i] as int < 128
  }

  predicate IsDigit(c: char) { '0' <= c <= '9' }

  predicate IsDigits(s: string) {
    forall i | 0 <= i < |s| :: IsDigit(s[i])
  }

  predicate IsLower(c: char) { 'a' <= c <= 'z' }

  predicate IsLetter(c: char) { 'a' <= c <= 'z' || 'A' <= c <= 'Z' }

  /** Upper case of one ASCII character. */
  function UpperChar(c: char): char {
    if IsLower(c) then (c as int - 32) as char else c
  }

  /** The characters JavaScript's `StrWhiteSpaceChar` admits: white space
      and line terminators. */
  predicate IsWhiteSpace(c: char) {
    var k := c as int;
    (9 <= k <= 13) || k == 32 || k == 0xA0 || k == 0x1680 || (0x2000 <= k <= 0x200A)
    || k == 0x2028 || k == 0x2029 || k == 0x202F || k == 0x205F || k == 0x3000 || k == 0xFEFF
  }

  /** Value of a character as a digit in radices up to 36; 36 when it is
      not a digit at all. */
  function DigitValue(c: char): (d: nat)
    ensures d <= 36
    ensures d < 10 <==> IsDigit(c)
  {
    if '0' <= c <= '9' then c as int - '0' as int
    else if 'a' <= c <= 'z' then c as int - 'a' as int + 10
    else if 'A' <= c <= 'Z' then c as int - 'A' as int + 10
    else 36
  }

  function DigitChar(d: nat): (c: char)
    requires d < 10
    ensures IsDigit(c) && DigitValue(c) == d
  {
    ('0' as int + d) as char
  }

  // ---------------------------------------------------------------- strings

  /** `s.toUpperCase()` on ASCII text. */
  function ToUpperCase(s: string): (r: string)
    requires IsAscii(s)
    ensures |r| == |s| && IsAscii(r)
    ensures forall i | 0 <= i < |s| :: r[i] == UpperChar(s[i]) && !IsLower(r[i])
  {
    if s == [] then [] else [UpperChar(s[0])] + ToUpperCase(s[1..])
  }

  lemma AsciiConcat(a: string, b: string)
    requires IsAscii(a) && IsAscii(b)
    ensures IsAscii(a + b)
  {
    forall i | 0 <= i < |a + b| ensures (a + b)[i] as int < 128 {
      if i >= |a| { assert (a + b)[i] == b[i - |a|]; }
    }
  }

  /** Upper-casing commutes with concatenation. */
  lemma {:induction false} UpperConcat(a: string, b: string)
    requires IsAscii(a) && IsAscii(b)
    ensures IsAscii(a + b)
    ensures ToUpperCase(a + b) == ToUpperCase(a) + ToUpperCase(b)
  {
    AsciiConcat(a, b);
    if a != [] {
      assert (a + b)[1..] == a[1..] + b;
      UpperConcat(a[1..], b);
    }
  }

  /** `s.slice(0, n)`: the first n characters, or all of s when it is shorter. */
  function Slice(s: string, n: nat): (r: string)
    ensures |r| == Min(|s|, n)
    ensures r == s[..|r|]
  {
    if |s| <= n then s else s[..n]
  }

  function Repeat(c: char, k: nat): (r: string)
    ensures |r| == k
    ensures forall i | 0 <= i < k :: r[i] == c
  {
    if k == 0 then [] else [c] + Repeat(c, k - 1)
  }

  /** `s.padStart(width, fill)` with a one-character fill string: never
      shortens s, and leaves it as the tail of the result. */
  function PadStart(s: string, width: nat, fill: char): (r: string)
    ensures |r| == Max(width, |s|)
    ensures r[|r| - |s|..] == s
    ensures forall i | 0 <= i < |r| - |s| :: r[i] == fill
  {
    if |s| >= width then s else Repeat(fill, width - |s|) + s
  }

  /** Leading white space removed, as `parseInt` does first. */
  function TrimStart(s: string): (r: string)
    ensures |r| <= |s| && r == s[|s| - |r|..]
    ensures |r| > 0 ==> !IsWhiteSpace(r[0])
    ensures forall i | 0 <= i < |s| - |r| :: IsWhiteSpace(s[i])
  {
    if |s| > 0 && IsWhiteSpace(s[0]) then TrimStart(s[1..]) else s
  }

  /** `s.split(sep)` for a one-character separator. */
  function Split(s: string, sep: char): (parts: seq<string>)
    ensures |parts| >= 1
    ensures forall i | 0 <= i < |parts| :: sep !in parts[i]
  {
    if s == [] then [""]
    else
      var rest := Split(s[1..], sep);
      if s[0] == sep then [""] + rest else [[s[0]] + rest[0]] + rest[1..]
  }

  /** `parts.join(sep)`, the inverse of `Split`. */
  function Join(parts: seq<string>, sep: char): string
    requires |parts| >= 1
  {
    if |parts| == 1 then parts[0] else parts[0] + [sep] + Join(parts[1..], sep)
  }

  lemma {:induction false} JoinSplit(s: string, sep: char)
    ensures Join(Split(s, sep), sep) == s
  {
    if s != [] {
      var rest := Split(s[1..], sep);
      JoinSplit(s[1..], sep);
      if s[0] == sep {
        assert Split(s, sep)[1..] == rest;
      } else {
        var parts := Split(s, sep);
        assert parts[1..] == rest[1..];
        if |rest| > 1 {
          assert Join(rest, sep) == rest[0] + [sep] + Join(rest[1..], sep);
        }
      }
    }
  }

  /** `s.split(sep)[k]`, where an index past the end is `undefined` (None). */
  function SplitField(s: string, sep: char, k: nat): (r: Option<string>)
    ensures r.Some? ==> sep !in r.value
  {
    var parts := Split(s, sep);
    if k < |parts| then Some(parts[k]) else None
  }

  lemma {:induction false} SplitWithout(b: string, sep: char)
    requires sep !in b
    ensures Split(b, sep) == [b]
  {
    if b != [] {
      SplitWithout(b[1..], sep);
      assert [b[0]] + b[1..] == b;
    }
  }

  lemma {:induction false} SplitAtFirst(a: string, b: string, sep: char)
    requires sep !in a
    ensures Split(a + [sep] + b, sep) == [a] + Split(b, sep)
  {
    if a == [] {
      assert (a + [sep] + b)[1..] == b;
    } else {
      assert (a + [sep] + b)[1..] == a[1..] + [sep] + b;
      SplitAtFirst(a[1..], b, sep);
      assert [a[0]] + a[1..] == a;
    }
  }

  /** The field after the first separator of `a + sep + b` is b, when neither
      a nor b holds the separator. */
  lemma SecondField(a: string, b: string, sep: char)
    requires sep !in a && sep !in b
    ensures SplitField(a + [sep] + b, sep, 1) == Some(b)
  {
    SplitAtFirst(a, b, sep);
    SplitWithout(b, sep);
  }

  // ---------------------------------------------------------------- numbers

  /** Joining at a dash, with the dash already on the second part. */
  lemma Dash(p: string, s: string, dashed: string)
    requires dashed == "-" + s
    ensures p + "-" + s == p + dashed
  {
  }

  /** Decimal numeral of a natural number, without leading zeros. */
  function Decimal(n: nat): (r: string)
    ensures |r| >= 1 && IsDigits(r)
    ensures r[0] == '0' ==> n == 0
  {
    if n < 10 then [DigitChar(n)] else Decimal(n / 10) + [DigitChar(n % 10)]
  }

  /** `x.toString()` for the numbers of this model. */
  function NumberToString(x: Number): string {
    match x
    case NaN => "NaN"
    case Int(v) => if v < 0 then "-" + Decimal(-v) else Decimal(v)
  }

  /** Value of a numeral in the given radix, most significant digit first. */
  function RadixValue(ds: string, radix: nat): nat {
    if ds == [] then 0
    else RadixValue(ds[..|ds| - 1], radix) * radix + DigitValue(ds[|ds| - 1])
  }

  /** The longest prefix of s made of digits of the radix. */
  function LeadingDigits(s: string, radix: nat): (r: string)
    ensures |r| <= |s| && r == s[..|r|]
    ensures forall i | 0 <= i < |r| :: DigitValue(r[i]) < radix
    ensures |r| < |s| ==> DigitValue(s[|r|]) >= radix
  {
    if s == [] || DigitValue(s[0]) >= radix then [] else [s[0]] + LeadingDigits(s[1..], radix)
  }

  /** `parseInt(s, radix)`, where radix 0 stands for an omitted radix
      (`ToInt32(undefined)` is 0): skip white space, then read a signed
      numeral as `SignedPart` does. */
  function ParseInt(s: string, radix: int): (r: Number)
    ensures '-' !in s && r.Int? ==> r.value >= 0
  {
    var t := TrimStart(s);
    assert |t| > 0 ==> t[0] == s[|s| - |t|];
    SignedPart(t, radix)
  }

  /** Take one sign, then read the digits as `UnsignedPart` does; NaN for a
      radix outside 2..36. */
  function SignedPart(t: string, radix: int): (r: Number)
    ensures r.Int? && r.value < 0 ==> |t| > 0 && t[0] == '-'
  {
    var negative := |t| > 0 && t[0] == '-';
    var u := if |t| > 0 && (t[0] == '-' || t[0] == '+') then t[1..] else t;
    if radix != 0 && (radix < 2 || radix > 36) then NaN
    else
      match UnsignedPart(u, radix)
      case NaN => NaN
      case Int(v) => if negative then Int(-v) else Int(v)
  }

  /** The unsigned part of `parseInt`: with no radix or radix 16 a `0x`/`0X`
      prefix selects hexadecimal, then the longest run of digits is read;
      NaN when that run is empty. */
  function UnsignedPart(u: string, radix: int): (r: Number)
    requires radix == 0 || 2 <= radix <= 36
    ensures r.Int? ==> r.value >= 0
  {
    var hex := (radix == 0 || radix == 16) && |u| >= 2 && u[0] == '0' && (u[1] == 'x' || u[1] == 'X');
    var r: nat := if hex then 16 else if radix == 0 then 10 else radix;
    var z := LeadingDigits(if hex then u[2..] else u, r);
    if z == [] then NaN else Int(RadixValue(z, r))
  }

  // ---------------------------------------------------------------- lemmas

  /** Reading a decimal numeral back gives the number. */
  lemma {:induction false} DecimalReadsBack(n: nat)
    ensures RadixValue(Decimal(n), 10) == n
  {
    if n >= 10 {
      DecimalReadsBack(n / 10);
      var d := Decimal(n);
      assert d[..|d| - 1] == Decimal(n / 10);
    }
  }

  /** Decimal(n) has at most k digits exactly when n < 10^k. */
  lemma {:induction false} DecimalLength(n: nat, k: nat)
    requires k >= 1
    ensures |Decimal(n)| <= k <==> n < Pow10(k)
  {
    if n >= 10 {
      if k == 1 {
        assert Pow10(1) == 10;
      } else {
        DecimalLength(n / 10, k - 1);
      }
    } else {
      assert Pow10(k) == 10 * Pow10(k - 1);
    }
  }

  lemma {:induction false} ZerosValue(k: nat)
    ensures RadixValue(Repeat('0', k), 10) == 0
  {
    if k > 0 {
      var z := Repeat('0', k);
      assert z[..k - 1] == Repeat('0', k - 1);
      ZerosValue(k - 1);
    }
  }

  /** Leading zeros do not change a numeral's value. */
  lemma {:induction false} LeadingZerosValue(k: nat, s: string)
    ensures RadixValue(Repeat('0', k) + s, 10) == RadixValue(s, 10)
  {
    if s == [] {
      assert Repeat('0', k) + s == Repeat('0', k);
      ZerosValue(k);
    } else {
      var z := Repeat('0', k) + s;
      assert z[..|z| - 1] == Repeat('0', k) + s[..|s| - 1];
      LeadingZerosValue(k, s[..|s| - 1]);
    }
  }

  lemma {:induction false} DigitsAreLeading(ds: string)
    requires IsDigits(ds)
    ensures LeadingDigits(ds, 10) == ds
  {
    if ds != [] {
      DigitsAreLeading(ds[1..]);
    }
  }

  /** `parseInt` reads a plain decimal numeral exactly, with radix 10 and
      with no radix. */
  lemma ParseDecimal(ds: string, radix: int)
    requires |ds| > 0 && IsDigits(ds)
    requires radix == 0 || radix == 10
    ensures ParseInt(ds, radix) == Int(RadixValue(ds, 10))
  {
    assert IsDigit(ds[0]);
    ParseUnsigned(ds, radix);
    UnsignedDecimal(ds, radix);
  }

  /** A text that starts with a decimal digit has no white space and no
      sign for `parseInt` to take: only its unsigned reading remains. */
  lemma ParseUnsigned(s: string, radix: int)
    requires |s| > 0 && IsDigit(s[0])
    requires radix == 0 || radix == 10
    ensures ParseInt(s, radix) == UnsignedPart(s, radix)
  {
    assert TrimStart(s) == s by {
      assert !IsWhiteSpace(s[0]);
    }
    NoSign(s, radix);
  }

  lemma NoSign(t: string, radix: int)
    requires |t| > 0 && IsDigit(t[0])
    requires radix == 0 || radix == 10
    ensures SignedPart(t, radix) == UnsignedPart(t, radix)
  {
    assert t[0] != '-' && t[0] != '+';
  }

  lemma UnsignedDecimal(ds: string, radix: int)
    requires |ds| > 0 && IsDigits(ds)
    requires radix == 0 || radix == 10
    ensures UnsignedPart(ds, radix) == Int(RadixValue(ds, 10))
  {
    var hex := (radix == 0 || radix == 16) && |ds| >= 2 && ds[0] == '0' && (ds[1] == 'x' || ds[1] == 'X');
    assert !hex by {
      if |ds| >= 2 { assert IsDigit(ds[1]); }
    }
    DigitsAreLeading(ds);
  }
}
