/** The earlier plant sidebar of src/components/Sidebar.tsx. It reads the
    publication date and the genus and species fields on every render
    instead of subscribing to them, pads the counter to two digits by hand,
    and calls `parseInt` without a radix. The busy flag and the plant list
    follow the same workflow as in the current sidebar. */
module LegacySidebar {
  import opened Js
  import opened Plants
  import Sidebar

  /** `codeStart`: the first two characters of genus and of species (a
      missing value reads as ""), joined and then upper-cased. */
  function CodeStart(genus: Option<string>, species: Option<string>): (r: string)
    requires Sidebar.AsciiHead(genus) && Sidebar.AsciiHead(species)
    ensures |r| <= 4
    ensures r == Sidebar.CodeStart(genus, species)
  {
    ToUpperCase(Slice(genus.GetOr(""), 2) + Slice(species.GetOr(""), 2))
  }

  /** `parseInt(lastPlant.fields.code.fr.split('-')[1])`, with no radix. */
  function LastNumber(code: string): Number {
    SuffixNumber(code, 0)
  }

  /** `nextNumber < 10 ? `0${nextNumber}` : nextNumber`, as the template
      literal prints it; NaN is not below 10 and prints as "NaN". */
  function PadNextNumber(n: Number): string {
    if n.Int? && n.value < 10 then "0" + NumberToString(n) else NumberToString(n)
  }

  /** `getNextPlantCode()` with the answer of the remote query as `last`:
      `-01` when nothing matched, else the successor of the number after
      the dash of `last`. */
  function NextPlantCode(codeStart: string, last: Option<string>): (r: string)
    ensures |r| > |codeStart| && r[..|codeStart| + 1] == codeStart + "-"
    ensures last.None? ==> r == codeStart + "-01"
  {
    match last
    case None => codeStart + "-01"
    case Some(code) => codeStart + "-" + PadNextNumber(Plus(LastNumber(code), 1))
  }

  /** The hand-made padding is `padStart` to width two: all digits, two
      characters below 100 and n's numeral from there on, reading back as n. */
  lemma PadNextNumberReadsBack(n: nat)
    ensures var r := PadNextNumber(Int(n));
      && r == PadStart(Decimal(n), 2, '0')
      && IsDigits(r)
      && |r| == Max(2, |Decimal(n)|)
      && (|r| == 2 <==> n < 100)
      && RadixValue(r, 10) == n
  {
    var d := Decimal(n);
    DecimalReadsBack(n);
    DecimalLength(n, 1);
    DecimalLength(n, 2);
    assert Pow10(2) == 100;
    if n < 10 {
      assert Repeat('0', 1) == "0";
      LeadingZerosValue(1, d);
    }
  }

  /** From 100 on the two versions write the same counter; below that the
      current one pads to three digits where this one pads to two. */
  lemma PaddingsAgreeFrom100(n: nat)
    ensures n >= 100 <==> PadNextNumber(Int(n)) == Sidebar.GeneratePaddedNumber(Int(n))
  {
    PadNextNumberReadsBack(n);
    Sidebar.PaddedNumberReadsBack(n);
  }

  /** Round trip: reading the number back from a generated code gives 1 when
      nothing matched, and otherwise one more than the number read from
      `last` (NaN stays NaN). */
  lemma NextCodeReadsBack(codeStart: string, last: Option<string>)
    requires '-' !in codeStart
    ensures LastNumber(NextPlantCode(codeStart, last))
         == if last.None? then Int(1) else Plus(LastNumber(last.value), 1)
  {
    var next := if last.None? then Int(1) else Plus(LastNumber(last.value), 1);
    assert NextPlantCode(codeStart, last) == codeStart + "-" + PadNextNumber(next) by {
      if last.None? {
        Dash(codeStart, "01", "-01");
        Padded1And2();
      }
    }
    match next
    case NaN =>
      SuffixOfNaN(codeStart, 0);
    case Int(v) =>
      PadNextNumberReadsBack(v);
      SuffixOfCode(codeStart, PadNextNumber(Int(v)), 0);
  }

  /** The round trip on generated codes: after `q-<padded k>` comes
      `codeStart-<padded k+1>`. */
  lemma NextCodeAfterPadded(codeStart: string, q: string, k: nat)
    requires '-' !in q
    ensures NextPlantCode(codeStart, Some(q + "-" + PadNextNumber(Int(k))))
         == codeStart + "-" + PadNextNumber(Int(k + 1))
  {
    PadNextNumberReadsBack(k);
    SuffixOfCode(q, PadNextNumber(Int(k)), 0);
  }

  /** Two creations in a row with nothing else matching give `-01` then
      `-02`. */
  lemma ConsecutiveCodes(codeStart: string)
    requires '-' !in codeStart
    ensures NextPlantCode(codeStart, None) == codeStart + "-01"
    ensures NextPlantCode(codeStart, Some(codeStart + "-01")) == codeStart + "-02"
  {
    Dash(codeStart, "01", "-01");
    Dash(codeStart, "02", "-02");
    Padded1And2();
    NextCodeAfterPadded(codeStart, codeStart, 1);
  }

  lemma Padded1And2()
    ensures PadNextNumber(Int(1)) == "01"
    ensures PadNextNumber(Int(2)) == "02"
  {
    assert Decimal(1) == "1";
    assert Decimal(2) == "2";
  }

  /** 99 is followed by 100: from there on the counter has three digits. */
  lemma NextAfter99(codeStart: string)
    requires '-' !in codeStart
    ensures NextPlantCode(codeStart, Some(codeStart + "-99")) == codeStart + "-100"
  {
    Dash(codeStart, "99", "-99");
    Dash(codeStart, "100", "-100");
    Padded99And100();
    NextCodeAfterPadded(codeStart, codeStart, 99);
  }

  lemma Padded99And100()
    ensures PadNextNumber(Int(99)) == "99"
    ensures PadNextNumber(Int(100)) == "100"
  {
    assert Decimal(99) == "99";
    assert Decimal(100) == "100" by {
      assert Decimal(10) == "10";
    }
  }

  /** With no radix `parseInt` reads a `0x` suffix as hexadecimal: after
      `-0x1F` comes `-32`. */
  lemma HexSuffix(codeStart: string)
    requires '-' !in codeStart
    ensures NextPlantCode(codeStart, Some(codeStart + "-0x1F")) == codeStart + "-32"
  {
    assert codeStart + "-" + PadNextNumber(Int(32)) == codeStart + "-32" by {
      assert PadNextNumber(Int(32)) == "32" by {
        assert Decimal(32) == "32" by {
          assert Decimal(3) == "3";
        }
      }
      Dash(codeStart, "32", "-32");
    }
    HexSuffixNumbers(codeStart);
    NextFromNumber(codeStart, codeStart + "-0x1F", Int(32));
  }

  /** The code after `last` is the prefix, a dash and the padding of the
      number read from `last` plus one. */
  lemma NextFromNumber(codeStart: string, last: string, next: Number)
    requires Plus(LastNumber(last), 1) == next
    ensures NextPlantCode(codeStart, Some(last)) == codeStart + "-" + PadNextNumber(next)
  {
  }

  /** The current sidebar, reading in base 10, stops at the `x` of the same
      code and continues with `-001`. */
  lemma HexSuffixInBase10(codeStart: string)
    requires '-' !in codeStart
    ensures Sidebar.NextPlantCode(codeStart, Some(codeStart + "-0x1F")) == codeStart + "-001"
  {
    assert codeStart + "-" + Sidebar.GeneratePaddedNumber(Int(1)) == codeStart + "-001" by {
      Sidebar.PaddedOne();
      Dash(codeStart, "001", "-001");
    }
    HexSuffixNumbers(codeStart);
    Sidebar.NextFromNumber(codeStart, codeStart + "-0x1F", Int(1));
  }

  lemma HexSuffixNumbers(codeStart: string)
    requires '-' !in codeStart
    ensures SuffixNumber(codeStart + "-0x1F", 0) == Int(31)
    ensures SuffixNumber(codeStart + "-0x1F", 10) == Int(0)
  {
    Dash(codeStart, "0x1F", "-0x1F");
    assert '-' !in "0x1F";
    SecondField(codeStart, "0x1F", '-');
    HexNumeral();
    ZeroBeforeX();
  }

  lemma HexNumeral()
    ensures ParseInt("0x1F", 0) == Int(31)
  {
    ParseUnsigned("0x1F", 0);
    HexUnsigned();
  }

  lemma HexUnsigned()
    ensures UnsignedPart("0x1F", 0) == Int(31)
  {
    HexDigits();
    assert "0x1F"[2..] == "1F";
  }

  lemma HexDigits()
    ensures LeadingDigits("1F", 16) == "1F"
    ensures RadixValue("1F", 16) == 31
  {
    assert DigitValue('1') == 1 && DigitValue('F') == 15;
    assert LeadingDigits("F", 16) == "F";
    assert "1F"[..1] == "1";
    assert RadixValue("1", 16) == 1;
  }

  lemma ZeroBeforeX()
    ensures ParseInt("0x1F", 10) == Int(0)
  {
    ParseUnsigned("0x1F", 10);
    DecimalZeroBeforeX();
  }

  lemma DecimalZeroBeforeX()
    ensures UnsignedPart("0x1F", 10) == Int(0)
  {
    var s := "0x1F";
    assert LeadingDigits(s, 10) == "0" by {
      assert DigitValue('x') == 33;
      assert LeadingDigits(s[1..], 10) == [];
    }
    assert RadixValue("0", 10) == 0;
  }

  /** The legacy sidebar component. Its state hooks are the busy flag and
      the plant list; the publication state and the code prefix are
      recomputed from the entry on every render, and the click handler of a
      render sees that render's values. */
  class Component {
    var isCreatingPlant: bool
    var plants: seq<Plant>
    /** What the latest render read from the entry. */
    var isPublished: bool
    var codeStart: string

    /** The first render: not busy, no plants. */
    constructor (publishedAt: Option<string>, genus: Option<string>, species: Option<string>)
      requires Sidebar.AsciiHead(genus) && Sidebar.AsciiHead(species)
      ensures isPublished == Published(publishedAt) && codeStart == CodeStart(genus, species)
      ensures !isCreatingPlant && plants == []
    {
      isCreatingPlant := false;
      plants := [];
      isPublished := Published(publishedAt);
      codeStart := CodeStart(genus, species);
    }

    /** A re-render: the entry is read again; the state hooks keep their
        values. */
    method Render(publishedAt: Option<string>, genus: Option<string>, species: Option<string>)
      requires Sidebar.AsciiHead(genus) && Sidebar.AsciiHead(species)
      modifies this`isPublished, this`codeStart
      ensures isPublished == Published(publishedAt) && codeStart == CodeStart(genus, species)
    {
      isPublished := Published(publishedAt);
      codeStart := CodeStart(genus, species);
    }

    /** The mount effect: the list becomes the plants linked to this card,
        in the order the query returned them. */
    method LoadPlants(items: seq<PlantEntry>)
      modifies this`plants
      ensures plants == ToPlants(items)
    {
      plants := ToPlants(items);
    }

    /** The synchronous start of `createNewPlant`: the busy flag goes up and
        the handler keeps this render's list and prefix. */
    method BeginCreate() returns (closure: Closure)
      requires isPublished && !isCreatingPlant
      modifies this`isCreatingPlant
      ensures isCreatingPlant
      ensures closure == Closure(plants, codeStart)
    {
      isCreatingPlant := true;
      closure := Closure(plants, codeStart);
    }

    /** The rest of `createNewPlant` once the remote calls have settled: on
        success the captured list plus the new plant replaces the list, on
        failure the list stays; one toast; the flag goes down on both paths. */
    method CompleteCreate(closure: Closure, last: Option<string>, outcome: CreateOutcome)
      returns (note: Notification)
      requires isCreatingPlant
      modifies this`plants, this`isCreatingPlant
      ensures !isCreatingPlant
      ensures var code := NextPlantCode(closure.codeStart, last);
        && note == Notify(code, outcome)
        && plants == if outcome.Created? then AfterCreate(closure.plants, code, outcome) else old(plants)
    {
      var nextCode := NextPlantCode(closure.codeStart, last);
      match outcome {
        case Created(id) =>
          plants := closure.plants + [Plant(id, nextCode)];
        case Failed =>
      }
      note := Notify(nextCode, outcome);
      isCreatingPlant := false;
    }

    /** `createNewPlant` with nothing interleaved: the list gains exactly the
        new plant at its end on success and is unchanged on failure. */
    method CreateNewPlant(last: Option<string>, outcome: CreateOutcome) returns (note: Notification)
      requires isPublished && !isCreatingPlant
      modifies this`plants, this`isCreatingPlant
      ensures !isCreatingPlant
      ensures var code := NextPlantCode(old(codeStart), last);
        note == Notify(code, outcome) && plants == AfterCreate(old(plants), code, outcome)
    {
      var closure := BeginCreate();
      note := CompleteCreate(closure, last, outcome);
    }
  }
}
