/** Which code the "highest code with this prefix" query hands to the
    generator. Both sidebars ask for the matching plants ordered by
    `-fields.code` and take the first, so `last` is the greatest code in
    string order. Past the padding width string order and numeric order part
    ways, and the generator proposes a code that already exists. The
    corrected selection takes the code with the greatest number after the
    dash; with it the next code is always new, as long as every matched
    code is the prefix, a dash and digits. */
module CodeOrder {
  import opened Js
  import opened Plants
  import Sidebar
  import LegacySidebar

  /** String order by character code: a is a prefix of b, or a has the
      smaller character where they first differ. */
  predicate LexLe(a: string, b: string) {
    a == [] || (b != [] && (a[0] < b[0] || (a[0] == b[0] && LexLe(a[1..], b[1..]))))
  }

  lemma {:induction false} LexLeReflexive(a: string)
    ensures LexLe(a, a)
  {
    if a != [] {
      LexLeReflexive(a[1..]);
    }
  }

  lemma {:induction false} LexLeTotal(a: string, b: string)
    ensures LexLe(a, b) || LexLe(b, a)
  {
    if a != [] && b != [] && a[0] == b[0] {
      LexLeTotal(a[1..], b[1..]);
    }
  }

  lemma {:induction false} LexLeTransitive(a: string, b: string, c: string)
    requires LexLe(a, b) && LexLe(b, c)
    ensures LexLe(a, c)
  {
    if a != [] && a[0] == b[0] && b[0] == c[0] {
      LexLeTransitive(a[1..], b[1..], c[1..]);
    }
  }

  lemma {:induction false} LexLeAntisymmetric(a: string, b: string)
    requires LexLe(a, b) && LexLe(b, a)
    ensures a == b
  {
    if a != [] {
      LexLeAntisymmetric(a[1..], b[1..]);
      assert a == [a[0]] + a[1..] && b == [b[0]] + b[1..];
    }
  }

  /** A shared head does not change the order. */
  lemma {:induction false} LexLeCommonHead(h: string, a: string, b: string)
    ensures LexLe(h + a, h + b) <==> LexLe(a, b)
  {
    if h != [] {
      assert (h + a)[0] == h[0] == (h + b)[0];
      assert (h + a)[1..] == h[1..] + a && (h + b)[1..] == h[1..] + b;
      assert LexLe(h + a, h + b) == LexLe(h[1..] + a, h[1..] + b);
      LexLeCommonHead(h[1..], a, b);
    } else {
      assert h + a == a && h + b == b;
    }
  }

  /** The query as written: the first result in descending code order, None
      when nothing matched. */
  function TopByCode(codes: seq<string>): (r: Option<string>)
    ensures r.None? <==> codes == []
    ensures r.Some? ==> r.value in codes && forall c | c in codes :: LexLe(c, r.value)
  {
    if codes == [] then None
    else match TopByCode(codes[1..])
      case None =>
        LexLeReflexive(codes[0]);
        assert codes == [codes[0]];
        Some(codes[0])
      case Some(t) =>
        if LexLe(codes[0], t) then Some(t)
        else
          LexLeReflexive(codes[0]);
          LexLeTotal(codes[0], t);
          assert forall c | c in codes[1..] :: LexLe(c, codes[0]) by {
            forall c | c in codes[1..] ensures LexLe(c, codes[0]) {
              LexLeTransitive(c, t, codes[0]);
            }
          }
          Some(codes[0])
  }

  /** A numeral of k digits is below 10^k. */
  lemma {:induction false} NumeralBound(s: string)
    requires IsDigits(s)
    ensures RadixValue(s, 10) < Pow10(|s|)
  {
    if s != [] {
      NumeralBound(s[..|s| - 1]);
    }
  }

  /** A numeral's value split at its first digit. */
  lemma {:induction false} NumeralHead(s: string)
    requires |s| > 0 && IsDigits(s)
    ensures RadixValue(s, 10) == DigitValue(s[0]) * Pow10(|s| - 1) + RadixValue(s[1..], 10)
  {
    var n := |s|;
    if n == 1 {
      assert s[..0] == [] && s[1..] == [];
    } else {
      var init := s[..n - 1];
      NumeralHead(init);
      assert init[1..] == s[1..][..n - 2];
      assert s[1..][n - 2] == s[n - 1];
      assert RadixValue(s[1..], 10) == RadixValue(init[1..], 10) * 10 + DigitValue(s[n - 1]);
      assert Pow10(n - 1) == Pow10(n - 2) * 10;
      ShiftDigit(DigitValue(s[0]), Pow10(n - 2), RadixValue(init[1..], 10), DigitValue(s[n - 1]));
    }
  }

  lemma ShiftDigit(d: int, w: int, rest: int, last: int)
    ensures (d * w + rest) * 10 + last == d * (w * 10) + (rest * 10 + last)
  {
  }

  /** On numerals of the same length string order is numeric order. */
  lemma {:induction false} LexLeSameWidth(a: string, b: string)
    requires |a| == |b| && IsDigits(a) && IsDigits(b)
    ensures LexLe(a, b) <==> RadixValue(a, 10) <= RadixValue(b, 10)
  {
    if a != [] {
      var w := Pow10(|a| - 1);
      var da, db := DigitValue(a[0]), DigitValue(b[0]);
      var ra, rb := RadixValue(a[1..], 10), RadixValue(b[1..], 10);
      NumeralHead(a);
      NumeralHead(b);
      NumeralBound(a[1..]);
      NumeralBound(b[1..]);
      assert IsDigit(a[0]) && IsDigit(b[0]);
      if a[0] == b[0] {
        LexLeSameWidth(a[1..], b[1..]);
      } else if a[0] < b[0] {
        HeadDecides(da, db, ra, rb, w);
      } else {
        HeadDecides(db, da, rb, ra, w);
      }
    }
  }

  lemma HeadDecides(da: nat, db: nat, ra: nat, rb: nat, w: nat)
    requires da < db && ra < w
    ensures da * w + ra < db * w + rb
  {
    assert da * w + ra < (da + 1) * w;
    assert (da + 1) * w <= db * w;
  }

  /** The counterexample for the current sidebar: once `-999` and `-1000`
      both exist, `-999` still sorts first in descending order, and the
      generator proposes `-1000` again. */
  lemma RepeatsAfter999(p: string)
    requires '-' !in p
    ensures var codes := [p + "-999", p + "-1000"];
      && TopByCode(codes) == Some(p + "-999")
      && Sidebar.NextPlantCode(p, TopByCode(codes)) == p + "-1000"
      && Sidebar.NextPlantCode(p, TopByCode(codes)) in codes
  {
    var codes := [p + "-999", p + "-1000"];
    assert LexLe(p + "-1000", p + "-999") by {
      assert LexLe("-1000", "-999");
      Dash(p, "1000", "-1000");
      Dash(p, "999", "-999");
      LexLeCommonHead(p, "-1000", "-999");
    }
    assert !LexLe(p + "-999", p + "-1000") by {
      if LexLe(p + "-999", p + "-1000") {
        LexLeAntisymmetric(p + "-999", p + "-1000");
      }
    }
    Sidebar.NextAfter999(p);
  }

  /** The same for the legacy sidebar one digit earlier: `-99` sorts above
      `-100`, and `-100` comes back. */
  lemma RepeatsAfter99(p: string)
    requires '-' !in p
    ensures var codes := [p + "-99", p + "-100"];
      && TopByCode(codes) == Some(p + "-99")
      && LegacySidebar.NextPlantCode(p, TopByCode(codes)) == p + "-100"
      && LegacySidebar.NextPlantCode(p, TopByCode(codes)) in codes
  {
    var codes := [p + "-99", p + "-100"];
    assert LexLe(p + "-100", p + "-99") by {
      assert LexLe("-100", "-99");
      Dash(p, "100", "-100");
      Dash(p, "99", "-99");
      LexLeCommonHead(p, "-100", "-99");
    }
    assert !LexLe(p + "-99", p + "-100") by {
      if LexLe(p + "-99", p + "-100") {
        LexLeAntisymmetric(p + "-99", p + "-100");
      }
    }
    LegacySidebar.NextAfter99(p);
  }

  /** The two sidebars share one prefix space: once the legacy sidebar has
      written `-01` and the current one `-002`, `-01` still sorts first in
      descending order, and the current generator proposes `-002` again. */
  lemma RepeatsAfterLegacyCode(p: string)
    requires '-' !in p
    ensures var codes := [p + "-01", p + "-002"];
      && TopByCode(codes) == Some(p + "-01")
      && Sidebar.NextPlantCode(p, TopByCode(codes)) == p + "-002"
      && Sidebar.NextPlantCode(p, TopByCode(codes)) in codes
  {
    var codes := [p + "-01", p + "-002"];
    assert LexLe(p + "-002", p + "-01") by {
      assert LexLe("-002", "-01");
      Dash(p, "002", "-002");
      Dash(p, "01", "-01");
      LexLeCommonHead(p, "-002", "-01");
    }
    assert !LexLe(p + "-01", p + "-002") by {
      if LexLe(p + "-01", p + "-002") {
        LexLeAntisymmetric(p + "-01", p + "-002");
      }
    }
    NextAfterLegacyOne(p);
  }

  /** After the legacy `-01` the current generator writes `-002`. */
  lemma NextAfterLegacyOne(p: string)
    requires '-' !in p
    ensures Sidebar.NextPlantCode(p, Some(p + "-01")) == p + "-002"
  {
    assert p + "-" + Sidebar.GeneratePaddedNumber(Int(2)) == p + "-002" by {
      Sidebar.PaddedOneDigit(2);
      Dash(p, "002", "-002");
    }
    LegacyOneReads(p);
    Sidebar.NextFromNumber(p, p + "-01", Int(2));
  }

  lemma LegacyOneReads(p: string)
    requires '-' !in p
    ensures Sidebar.LastNumber(p + "-01") == Int(1)
  {
    Dash(p, "01", "-01");
    OneValue();
    SuffixOfCode(p, "01", 10);
  }

  lemma OneValue()
    ensures IsDigits("01") && RadixValue("01", 10) == 1
  {
    assert "01"[..1] == "0";
  }

  /** A `-NaN` code, once written, sorts above every numbered code with the
      same prefix: `N` comes after every digit. */
  lemma NaNSortsFirst(p: string)
    requires '-' !in p
    ensures TopByCode([p + "-001", p + "-NaN"]) == Some(p + "-NaN")
  {
    assert LexLe(p + "-001", p + "-NaN") by {
      assert LexLe("-001", "-NaN");
      Dash(p, "001", "-001");
      Dash(p, "NaN", "-NaN");
      LexLeCommonHead(p, "-001", "-NaN");
    }
  }

  /** With a `-NaN` code in use the current generator writes `-NaN` again:
      every later creation proposes that same code. */
  lemma RepeatsAfterNaN(p: string)
    requires '-' !in p
    ensures var codes := [p + "-001", p + "-NaN"];
      && Sidebar.NextPlantCode(p, TopByCode(codes)) == p + "-NaN"
      && Sidebar.NextPlantCode(p, TopByCode(codes)) in codes
  {
    NaNSortsFirst(p);
    NaNIsItsOwnSuccessor(p);
  }

  /** After `p-NaN` comes `p-NaN`. */
  lemma NaNIsItsOwnSuccessor(p: string)
    requires '-' !in p
    ensures Sidebar.NextPlantCode(p, Some(p + "-NaN")) == p + "-NaN"
  {
    assert p + "-" + Sidebar.GeneratePaddedNumber(NaN) == p + "-NaN" by {
      assert Sidebar.GeneratePaddedNumber(NaN) == "NaN";
      Dash(p, "NaN", "-NaN");
    }
    assert Sidebar.LastNumber(p + "-NaN") == NaN by {
      Dash(p, "NaN", "-NaN");
      SuffixOfNaN(p, 10);
    }
    Sidebar.NextFromNumber(p, p + "-NaN", NaN);
  }

  /** The corrected generator reports a last code whose counter does not
      parse, instead of writing a `-NaN` code: None exactly then, and
      otherwise the code the current generator writes, which is the prefix,
      a dash and digits. */
  function CheckedNextCode(p: string, last: Option<string>): (r: Option<string>)
    ensures r.None? <==> last.Some? && Sidebar.LastNumber(last.value).NaN?
    ensures r.Some? ==> r.value == Sidebar.NextPlantCode(p, last) && WellFormed(p, r.value)
  {
    if last.Some? && Sidebar.LastNumber(last.value).NaN? then None
    else
      NextIsWellFormed(p, last);
      Some(Sidebar.NextPlantCode(p, last))
  }

  /** The number after the dash as a sort key; a code without one sorts
      below every numbered code. */
  function SuffixKey(code: string, radix: int): (k: int)
    ensures k >= -1
    ensures SuffixNumber(code, radix).Int? <==> k >= 0
    ensures SuffixNumber(code, radix).Int? ==> k == SuffixNumber(code, radix).value
  {
    match SuffixNumber(code, radix)
    case NaN => -1
    case Int(v) => v
  }

  /** A code of `codes` with the greatest key, the first such when several
      tie; None when there are no codes. */
  function TopBy(codes: seq<string>, key: string -> int): (r: Option<string>)
    ensures r.None? <==> codes == []
    ensures r.Some? ==> r.value in codes && forall c | c in codes :: key(c) <= key(r.value)
  {
    if codes == [] then None
    else match TopBy(codes[1..], key)
      case None => Some(codes[0])
      case Some(t) => if key(codes[0]) < key(t) then Some(t) else Some(codes[0])
  }

  /** The corrected query: a code with the greatest number after the dash. */
  function TopBySuffix(codes: seq<string>, radix: int): (r: Option<string>)
    ensures GreatestBySuffix(codes, r, radix)
  {
    TopBy(codes, c => SuffixKey(c, radix))
  }

  /** A code the generator writes for prefix p: p, a dash, and a non-empty
      run of decimal digits. */
  predicate WellFormed(p: string, code: string) {
    |code| > |p| + 1 && code[..|p| + 1] == p + "-" && IsDigits(code[|p| + 1..])
  }

  /** A well-formed code's key is the value of its digits, read with radix
      10 or with no radix. */
  lemma WellFormedKey(p: string, code: string, radix: int)
    requires '-' !in p && WellFormed(p, code)
    requires radix == 0 || radix == 10
    ensures SuffixKey(code, radix) == RadixValue(code[|p| + 1..], 10)
  {
    var ds := code[|p| + 1..];
    assert code == p + "-" + ds;
    SuffixOfCode(p, ds, radix);
  }

  /** The current generator writes well-formed codes whenever `last` has a
      number after its dash (or nothing matched). */
  lemma NextIsWellFormed(p: string, last: Option<string>)
    requires last.None? || Sidebar.LastNumber(last.value).Int?
    ensures WellFormed(p, Sidebar.NextPlantCode(p, last))
  {
    var n := if last.None? then 1 else Sidebar.LastNumber(last.value).value + 1;
    var r := Sidebar.NextPlantCode(p, last);
    var ds := Sidebar.GeneratePaddedNumber(Int(n));
    Sidebar.PaddedNumberReadsBack(n);
    if last.None? {
      Sidebar.PaddedOne();
    }
    assert r == p + "-" + ds;
    assert r[|p| + 1..] == ds;
  }

  /** The legacy generator, likewise. */
  lemma LegacyNextIsWellFormed(p: string, last: Option<string>)
    requires last.None? || LegacySidebar.LastNumber(last.value).Int?
    ensures WellFormed(p, LegacySidebar.NextPlantCode(p, last))
  {
    var n := if last.None? then 1 else LegacySidebar.LastNumber(last.value).value + 1;
    var r := LegacySidebar.NextPlantCode(p, last);
    var ds := LegacySidebar.PadNextNumber(Int(n));
    LegacySidebar.PadNextNumberReadsBack(n);
    if last.None? {
      LegacySidebar.Padded1And2();
    }
    assert r == p + "-" + ds;
    assert r[|p| + 1..] == ds;
  }

  /** `last` is a code of `codes` with the greatest number after the dash,
      and None only when there are no codes. */
  predicate GreatestBySuffix(codes: seq<string>, last: Option<string>, radix: int) {
    && (last.None? ==> codes == [])
    && (last.Some? ==> last.value in codes && forall c | c in codes :: SuffixKey(c, radix) <= SuffixKey(last.value, radix))
  }

  /** After a code with the greatest number the current generator writes a
      new, well-formed code: its number is one more than any number in use. */
  lemma NextAfterGreatestIsFresh(p: string, codes: seq<string>, last: Option<string>)
    requires '-' !in p
    requires forall c | c in codes :: WellFormed(p, c)
    requires GreatestBySuffix(codes, last, 10)
    ensures var next := Sidebar.NextPlantCode(p, last);
      next !in codes && WellFormed(p, next)
  {
    if last.Some? {
      WellFormedKey(p, last.value, 10);
    }
    NextIsWellFormed(p, last);
    Sidebar.NextCodeReadsBack(p, last);
  }

  /** The same for the legacy generator, whose `parseInt` has no radix. */
  lemma LegacyNextAfterGreatestIsFresh(p: string, codes: seq<string>, last: Option<string>)
    requires '-' !in p
    requires forall c | c in codes :: WellFormed(p, c)
    requires GreatestBySuffix(codes, last, 0)
    ensures var next := LegacySidebar.NextPlantCode(p, last);
      next !in codes && WellFormed(p, next)
  {
    if last.Some? {
      WellFormedKey(p, last.value, 0);
    }
    LegacyNextIsWellFormed(p, last);
    LegacySidebar.NextCodeReadsBack(p, last);
  }

  /** The corrected selection: with it the current generator's next code is
      always new and well-formed, as long as every code with the prefix is. */
  lemma CorrectedNextIsFresh(p: string, codes: seq<string>)
    requires '-' !in p
    requires forall c | c in codes :: WellFormed(p, c)
    ensures var next := Sidebar.NextPlantCode(p, TopBySuffix(codes, 10));
      next !in codes && WellFormed(p, next)
  {
    NextAfterGreatestIsFresh(p, codes, TopBySuffix(codes, 10));
  }

  /** The corrected selection for the legacy generator. */
  lemma LegacyCorrectedNextIsFresh(p: string, codes: seq<string>)
    requires '-' !in p
    requires forall c | c in codes :: WellFormed(p, c)
    ensures var next := LegacySidebar.NextPlantCode(p, TopBySuffix(codes, 0));
      next !in codes && WellFormed(p, next)
  {
    LegacyNextAfterGreatestIsFresh(p, codes, TopBySuffix(codes, 0));
  }

  /** While every code with the prefix has a counter of the same width, the
      first code in string order has the greatest number. */
  lemma TopByCodeWithinWidth(p: string, codes: seq<string>, width: nat, radix: int)
    requires '-' !in p
    requires radix == 0 || radix == 10
    requires forall c | c in codes :: WellFormed(p, c) && |c| == |p| + 1 + width
    ensures GreatestBySuffix(codes, TopByCode(codes), radix)
  {
    if codes != [] {
      var t := TopByCode(codes).value;
      forall c | c in codes
        ensures SuffixKey(c, radix) <= SuffixKey(t, radix)
      {
        SameWidthOrder(p, c, t, radix);
      }
    }
  }

  /** Two well-formed codes with counters of one width: string order is
      numeric order of the counters. */
  lemma SameWidthOrder(p: string, c: string, t: string, radix: int)
    requires '-' !in p
    requires radix == 0 || radix == 10
    requires WellFormed(p, c) && WellFormed(p, t) && |c| == |t|
    ensures LexLe(c, t) <==> SuffixKey(c, radix) <= SuffixKey(t, radix)
  {
    var h := p + "-";
    assert c == h + c[|h|..] && t == h + t[|h|..];
    LexLeCommonHead(h, c[|h|..], t[|h|..]);
    LexLeSameWidth(c[|h|..], t[|h|..]);
    WellFormedKey(p, c, radix);
    WellFormedKey(p, t, radix);
  }

  /** The query as written is right as long as the counters fit the
      padding: with only three-digit counters in use the current generator's
      next code is new. */
  lemma AsWrittenFreshBelow1000(p: string, codes: seq<string>)
    requires '-' !in p
    requires forall c | c in codes :: WellFormed(p, c) && |c| == |p| + 4
    ensures Sidebar.NextPlantCode(p, TopByCode(codes)) !in codes
  {
    TopByCodeWithinWidth(p, codes, 3, 10);
    NextAfterGreatestIsFresh(p, codes, TopByCode(codes));
  }

  /** For the legacy generator: with only two-digit counters in use its
      next code is new. */
  lemma LegacyAsWrittenFreshBelow100(p: string, codes: seq<string>)
    requires '-' !in p
    requires forall c | c in codes :: WellFormed(p, c) && |c| == |p| + 3
    ensures LegacySidebar.NextPlantCode(p, TopByCode(codes)) !in codes
  {
    TopByCodeWithinWidth(p, codes, 2, 0);
    LegacyNextAfterGreatestIsFresh(p, codes, TopByCode(codes));
  }
}
