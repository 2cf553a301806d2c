/** The plant sidebar of src/locations/Sidebar.tsx: the code prefix read from
    the plant card's genus and species fields, the next plant code with a
    three-digit counter, and the component state (the busy flag and the plant
    list) that the creation workflow updates. The remote calls are inputs:
    the answer of the "highest code with this prefix" query is `last`, and
    the create and publish steps end in a `CreateOutcome`. */
module Sidebar {
  import opened Js
  import opened Plants

  /** Width the number of a plant code is padded to. */
  const CodeNumberLength: nat := 3

  /** `generatePaddedNumber(n)`: n's decimal numeral, left-padded with zeros
      to three characters. */
  function GeneratePaddedNumber(n: Number): string {
    PadStart(NumberToString(n), CodeNumberLength, '0')
  }

  /** The characters of a field value that `getCode` upper-cases are ASCII. */
  predicate AsciiHead(value: Option<string>) {
    IsAscii(Slice(value.GetOr(""), 2))
  }

  /** `getCode(field)`: the first two characters of the field's value,
      upper-cased; a missing value reads as "". */
  function GetCode(value: Option<string>): (r: string)
    requires AsciiHead(value)
    ensures |r| == Min(2, |value.GetOr("")|)
    ensures forall i | 0 <= i < |r| :: r[i] == UpperChar(value.GetOr("")[i]) && !IsLower(r[i])
    ensures value.None? ==> r == ""
  {
    ToUpperCase(Slice(value.GetOr(""), 2))
  }

  /** `codeStart`: the genus code followed by the species code, which is the
      upper case of the first two characters of each field, joined. */
  function CodeStart(genus: Option<string>, species: Option<string>): (r: string)
    requires AsciiHead(genus) && AsciiHead(species)
    ensures |r| <= 4
    ensures var g, s := Slice(genus.GetOr(""), 2), Slice(species.GetOr(""), 2);
      IsAscii(g + s) && r == ToUpperCase(g + s)
  {
    UpperConcat(Slice(genus.GetOr(""), 2), Slice(species.GetOr(""), 2));
    GetCode(genus) + GetCode(species)
  }

  /** `parseInt(lastPlant.fields.code.fr.split('-')[1], 10)` */
  function LastNumber(code: string): Number {
    SuffixNumber(code, 10)
  }

  /** `getNextPlantCode()`, with the answer of the remote query as `last`:
      None when no code matched (`results.total === 0`), else the code of the
      first result. The code is the prefix, a dash, and the padded successor
      of the number read after the dash of `last`. */
  function NextPlantCode(codeStart: string, last: Option<string>): (r: string)
    ensures |r| > |codeStart| && r[..|codeStart| + 1] == codeStart + "-"
    ensures last.None? ==> r == codeStart + "-001"
  {
    PaddedOne();
    match last
    case None => codeStart + "-" + GeneratePaddedNumber(Int(1))
    case Some(code) => codeStart + "-" + GeneratePaddedNumber(Plus(LastNumber(code), 1))
  }

  lemma PaddedOne()
    ensures GeneratePaddedNumber(Int(1)) == "001"
  {
    var r := GeneratePaddedNumber(Int(1));
    assert Decimal(1) == "1";
    assert r == Repeat('0', 2) + "1";
  }

  /** The padded number is all digits, as long as three digits or n's
      numeral if that is longer (so exactly three below 1000), never cuts
      n's numeral, and reads back as n. */
  lemma PaddedNumberReadsBack(n: nat)
    ensures var r := GeneratePaddedNumber(Int(n));
      && IsDigits(r)
      && |r| == Max(3, |Decimal(n)|)
      && (|r| == 3 <==> n < 1000)
      && r[|r| - |Decimal(n)|..] == Decimal(n)
      && RadixValue(r, 10) == n
  {
    var d := Decimal(n);
    var r := GeneratePaddedNumber(Int(n));
    DecimalReadsBack(n);
    DecimalLength(n, 3);
    assert Pow10(3) == 1000;
    if |d| < 3 {
      assert r == Repeat('0', 3 - |d|) + d;
      LeadingZerosValue(3 - |d|, d);
    }
  }

  /** Round trip: reading the number back from a generated code gives 1 when
      nothing matched, and otherwise one more than the number read from
      `last` (NaN stays NaN). */
  lemma NextCodeReadsBack(codeStart: string, last: Option<string>)
    requires '-' !in codeStart
    ensures LastNumber(NextPlantCode(codeStart, last))
         == if last.None? then Int(1) else Plus(LastNumber(last.value), 1)
  {
    var next := if last.None? then Int(1) else Plus(LastNumber(last.value), 1);
    assert NextPlantCode(codeStart, last) == codeStart + "-" + GeneratePaddedNumber(next);
    match next
    case NaN =>
      assert GeneratePaddedNumber(NaN) == "NaN";
      SuffixOfNaN(codeStart, 10);
    case Int(v) =>
      PaddedNumberReadsBack(v);
      SuffixOfCode(codeStart, GeneratePaddedNumber(Int(v)), 10);
  }

  /** The round trip on generated codes: after `q-<padded k>` comes
      `codeStart-<padded k+1>`. */
  lemma NextCodeAfterPadded(codeStart: string, q: string, k: nat)
    requires '-' !in q
    ensures NextPlantCode(codeStart, Some(q + "-" + GeneratePaddedNumber(Int(k))))
         == codeStart + "-" + GeneratePaddedNumber(Int(k + 1))
  {
    PaddedNumberReadsBack(k);
    SuffixOfCode(q, GeneratePaddedNumber(Int(k)), 10);
  }

  lemma PaddedOneDigit(d: nat)
    requires d < 10
    ensures GeneratePaddedNumber(Int(d)) == ['0', '0', DigitChar(d)]
  {
    assert GeneratePaddedNumber(Int(d)) == Repeat('0', 2) + [DigitChar(d)];
  }

  /** Two creations in a row with nothing else matching give `-001` then
      `-002`. */
  lemma ConsecutiveCodes(codeStart: string)
    requires '-' !in codeStart
    ensures NextPlantCode(codeStart, None) == codeStart + "-001"
    ensures NextPlantCode(codeStart, Some(codeStart + "-001")) == codeStart + "-002"
  {
    var one, two := GeneratePaddedNumber(Int(1)), GeneratePaddedNumber(Int(2));
    assert codeStart + "-" + one == codeStart + "-001" by {
      PaddedOne();
      Dash(codeStart, one, "-001");
    }
    assert codeStart + "-" + two == codeStart + "-002" by {
      PaddedOneDigit(2);
      assert DigitChar(2) == '2';
      Dash(codeStart, two, "-002");
    }
    NextCodeAfterPadded(codeStart, codeStart, 1);
  }

  /** Rosa rugosa gives the prefix RORU, and its first plant is RORU-001. */
  lemma RosaRugosaPrefix()
    ensures CodeStart(Some("Rosa"), Some("rugosa")) == "RORU"
    ensures NextPlantCode("RORU", None) == "RORU-001"
  {
    assert Slice("Rosa", 2) + Slice("rugosa", 2) == "Roru";
  }

  /** 007 is followed by 008. */
  lemma NextAfter007()
    ensures NextPlantCode("RORE", Some("RORE-007")) == "RORE-008"
  {
    var seven, eight := GeneratePaddedNumber(Int(7)), GeneratePaddedNumber(Int(8));
    assert "RORE" + "-" + seven == "RORE-007" by {
      PaddedOneDigit(7);
      Dash("RORE", seven, "-007");
    }
    assert "RORE" + "-" + eight == "RORE-008" by {
      PaddedOneDigit(8);
      Dash("RORE", eight, "-008");
    }
    NextCodeAfterPadded("RORE", "RORE", 7);
  }

  /** 099 is followed by 100: the padding grows with the number. */
  lemma NextAfter099(codeStart: string)
    requires '-' !in codeStart
    ensures NextPlantCode(codeStart, Some(codeStart + "-099")) == codeStart + "-100"
  {
    Dash(codeStart, "099", "-099");
    Dash(codeStart, "100", "-100");
    Padded99And100();
    NextCodeAfterPadded(codeStart, codeStart, 99);
  }

  lemma Padded99And100()
    ensures GeneratePaddedNumber(Int(99)) == "099"
    ensures GeneratePaddedNumber(Int(100)) == "100"
  {
    assert Decimal(99) == "99";
    assert Repeat('0', 1) == "0";
    assert Decimal(100) == "100" by {
      assert Decimal(10) == "10";
    }
  }

  /** 999 is followed by 1000: padding never cuts a longer numeral. */
  lemma NextAfter999(codeStart: string)
    requires '-' !in codeStart
    ensures NextPlantCode(codeStart, Some(codeStart + "-999")) == codeStart + "-1000"
  {
    Dash(codeStart, "999", "-999");
    Dash(codeStart, "1000", "-1000");
    Padded999And1000();
    NextCodeAfterPadded(codeStart, codeStart, 999);
  }

  lemma Padded999And1000()
    ensures GeneratePaddedNumber(Int(999)) == "999"
    ensures GeneratePaddedNumber(Int(1000)) == "1000"
  {
    assert Decimal(999) == "999" by {
      assert Decimal(99) == "99";
    }
    assert Decimal(1000) == "1000" by {
      assert Decimal(100) == "100" by {
        assert Decimal(10) == "10";
      }
    }
  }

  /** A last code without a dash has no number after a dash; the counter
      becomes NaN and the code reads `-NaN`. */
  lemma CodeWithoutDash(codeStart: string, last: string)
    requires '-' !in last
    ensures NextPlantCode(codeStart, Some(last)) == codeStart + "-NaN"
  {
    assert codeStart + "-" + GeneratePaddedNumber(NaN) == codeStart + "-NaN" by {
      assert GeneratePaddedNumber(NaN) == "NaN";
      Dash(codeStart, "NaN", "-NaN");
    }
    SuffixWithoutDash(last, 10);
    NextFromNumber(codeStart, last, NaN);
  }

  /** The code after `last` is the prefix, a dash and the padding of the
      number read from `last` plus one. */
  lemma NextFromNumber(codeStart: string, last: string, next: Number)
    requires Plus(LastNumber(last), 1) == next
    ensures NextPlantCode(codeStart, Some(last)) == codeStart + "-" + GeneratePaddedNumber(next)
  {
  }

  /** The sidebar component's state: the publication state of the plant
      card, the two field codes, the busy flag and the plant list. */
  class Component {
    var isPublished: bool
    var isCreatingPlant: bool
    var genusCode: string
    var speciesCode: string
    var plants: seq<Plant>
    /** The field values the two codes were last read from. */
    ghost var genus: Option<string>
    ghost var species: Option<string>

    ghost predicate Valid()
      reads this
    {
      && AsciiHead(genus) && AsciiHead(species)
      && genusCode == GetCode(genus) && speciesCode == GetCode(species)
    }

    /** The first render: codes read from the fields, not busy, no plants. */
    constructor (publishedAt: Option<string>, genusValue: Option<string>, speciesValue: Option<string>)
      requires AsciiHead(genusValue) && AsciiHead(speciesValue)
      ensures Valid() && genus == genusValue && species == speciesValue
      ensures isPublished == Published(publishedAt) && !isCreatingPlant && plants == []
    {
      isPublished := Published(publishedAt);
      isCreatingPlant := false;
      genusCode := GetCode(genusValue);
      speciesCode := GetCode(speciesValue);
      plants := [];
      genus, species := genusValue, speciesValue;
    }

    /** The memoised `codeStart` of the current render. */
    function CurrentCodeStart(): (r: string)
      reads this
      requires Valid()
      ensures r == CodeStart(genus, species)
    {
      genusCode + speciesCode
    }

    /** `onSysChanged`: the publication state follows the entry's. */
    method OnSysChanged(publishedAt: Option<string>)
      modifies this`isPublished
      ensures isPublished == Published(publishedAt)
    {
      isPublished := Published(publishedAt);
    }

    /** `onValueChanged` of the genus field: the genus code is read again. */
    method OnGenusChanged(value: Option<string>)
      requires Valid() && AsciiHead(value)
      modifies this`genusCode, this`genus
      ensures Valid() && genus == value
    {
      genusCode := GetCode(value);
      genus := value;
    }

    /** `onValueChanged` of the species field: the species code is read again. */
    method OnSpeciesChanged(value: Option<string>)
      requires Valid() && AsciiHead(value)
      modifies this`speciesCode, this`species
      ensures Valid() && species == value
    {
      speciesCode := GetCode(value);
      species := value;
    }

    /** The mount effect: the list becomes the plants linked to this card,
      in the order the query returned them. */
    method LoadPlants(items: seq<PlantEntry>)
      modifies this`plants
      ensures plants == ToPlants(items)
    {
      plants := ToPlants(items);
    }

    /** The synchronous start of `createNewPlant`: the busy flag goes up and
        the handler keeps the list and prefix of this render. The button is
        only shown for a published card and is disabled while busy. */
    method BeginCreate() returns (closure: Closure)
      requires Valid() && isPublished && !isCreatingPlant
      modifies this`isCreatingPlant
      ensures isCreatingPlant
      ensures closure == Closure(plants, CurrentCodeStart())
    {
      isCreatingPlant := true;
      closure := Closure(plants, CurrentCodeStart());
    }

    /** The rest of `createNewPlant`, once the remote calls have settled:
        on success the captured list plus the new plant replaces the list;
        on failure the list stays; exactly one toast; the flag goes down on
        both paths. */
    method CompleteCreate(closure: Closure, last: Option<string>, outcome: CreateOutcome)
      returns (note: Notification)
      requires isCreatingPlant
      modifies this`plants, this`isCreatingPlant
      ensures !isCreatingPlant
      ensures var code := NextPlantCode(closure.codeStart, last);
        && note == Notify(code, outcome)
        && plants == if outcome.Created? then AfterCreate(closure.plants, code, outcome) else old(plants)
    {
      var nextCode := NextPlantCode(closure.codeStart, last);
      match outcome {
        case Created(id) =>
          plants := closure.plants + [Plant(id, nextCode)];
        case Failed =>
      }
      note := Notify(nextCode, outcome);
      isCreatingPlant := false;
    }

    /** `createNewPlant` with nothing interleaved: the list gains exactly the
        new plant at its end on success and is unchanged on failure, and the
        component is not busy afterwards. */
    method CreateNewPlant(last: Option<string>, outcome: CreateOutcome) returns (note: Notification)
      requires Valid() && isPublished && !isCreatingPlant
      modifies this`plants, this`isCreatingPlant
      ensures Valid() && !isCreatingPlant
      ensures var code := NextPlantCode(old(CurrentCodeStart()), last);
        note == Notify(code, outcome) && plants == AfterCreate(old(plants), code, outcome)
    {
      var closure := BeginCreate();
      note := CompleteCreate(closure, last, outcome);
    }
  }
}
