/** What both versions of the sidebar share: the plant records, the outcome of
    the remote create-and-publish steps, the notification shown to the user,
    and the reading of the number after the dash of a plant code. */
module Plants {
  import opened Js

  /** `!!sys.publishedAt`: the card counts as published when its entry has a
      publication date, and an empty date string is falsy. */
  predicate Published(publishedAt: Option<string>) {
    publishedAt.Some? && publishedAt.value != ""
  }

  /** A plant as the sidebar lists it. */
  datatype Plant = Plant(id: string, code: string)

  /** A plant entry as the content store returns it for the query on the
      card's id: its id and its code. */
  datatype PlantEntry = PlantEntry(id: string, code: string)

  /** How the remote part of one creation ended: the code query, the create
      and the publish all succeeded and the new entry got this id, or one of
      them threw. */
  datatype CreateOutcome = Created(id: string) | Failed

  /** The one toast a creation shows. */
  datatype Notification = Success(message: string) | Error(message: string)

  /** What the click handler captured when it was invoked: the plant list
      and the code prefix of that render. */
  datatype Closure = Closure(plants: seq<Plant>, codeStart: string)

  /** The initial list: the query results mapped to `{id, code}`, in order. */
  function ToPlants(items: seq<PlantEntry>): (r: seq<Plant>)
    ensures |r| == |items|
    ensures forall i | 0 <= i < |items| :: r[i].id == items[i].id && r[i].code == items[i].code
  {
    if items == [] then [] else [Plant(items[0].id, items[0].code)] + ToPlants(items[1..])
  }

  /** Mapping the results commutes with splitting them: the order of the
      query results is the order of the list. */
  lemma {:induction false} ToPlantsConcat(a: seq<PlantEntry>, b: seq<PlantEntry>)
    ensures ToPlants(a + b) == ToPlants(a) + ToPlants(b)
  {
    if a != [] {
      assert (a + b)[1..] == a[1..] + b;
      ToPlantsConcat(a[1..], b);
    }
  }

  /** The list a successful creation leaves: the captured list with the new
      plant appended once at the end; a failure leaves the list as it is. */
  function AfterCreate(plants: seq<Plant>, code: string, outcome: CreateOutcome): (r: seq<Plant>)
    ensures outcome.Created? ==> |r| == |plants| + 1 && r[..|plants|] == plants
                                 && r[|plants|] == Plant(outcome.id, code)
    ensures outcome.Failed? ==> r == plants
  {
    match outcome
    case Created(id) => plants + [Plant(id, code)]
    case Failed => plants
  }

  /** The toast of one creation: a success naming the new code, or the
      generic error. */
  function Notify(code: string, outcome: CreateOutcome): (n: Notification)
    ensures n.Success? <==> outcome.Created?
  {
    match outcome
    case Created(_) => Success("Plant " + code + " created!")
    case Failed => Error("Could not create a new plant :(")
  }

  /** `parseInt(code.split('-')[1], radix)`: the number after the first dash
      of a code, up to the next dash. With no second field the argument is
      `undefined`, which `parseInt` reads as the text "undefined". */
  function SuffixNumber(code: string, radix: int): (r: Number)
    ensures r.Int? ==> r.value >= 0
  {
    assert '-' !in "undefined";
    ParseInt(SplitField(code, '-', 1).GetOr("undefined"), radix)
  }

  /** The suffix of `prefix-digits` is the value of the digits, when the
      prefix holds no dash. */
  lemma SuffixOfCode(prefix: string, ds: string, radix: int)
    requires '-' !in prefix
    requires |ds| > 0 && IsDigits(ds)
    requires radix == 0 || radix == 10
    ensures SuffixNumber(prefix + "-" + ds, radix) == Int(RadixValue(ds, 10))
  {
    assert '-' !in ds;
    SecondField(prefix, ds, '-');
    ParseDecimal(ds, radix);
  }

  /** The suffix of `prefix-NaN` is NaN again. */
  lemma SuffixOfNaN(prefix: string, radix: int)
    requires '-' !in prefix
    requires radix == 0 || radix == 10
    ensures SuffixNumber(prefix + "-" + "NaN", radix) == NaN
  {
    assert '-' !in "NaN";
    SecondField(prefix, "NaN", '-');
    ParseWord("NaN", radix);
  }

  /** A code without a dash has no second field, and `parseInt(undefined)`
      reads the text "undefined": NaN. */
  lemma SuffixWithoutDash(code: string, radix: int)
    requires '-' !in code
    requires radix == 0 || radix == 10
    ensures SuffixNumber(code, radix) == NaN
  {
    SplitWithout(code, '-');
    ParseWord("undefined", radix);
  }

  /** `parseInt` of a text that starts with a letter which is no decimal
      digit is NaN. */
  lemma ParseWord(w: string, radix: int)
    requires |w| > 0 && IsLetter(w[0])
    requires radix == 0 || radix == 10
    ensures ParseInt(w, radix) == NaN
  {
    assert TrimStart(w) == w;
    assert LeadingDigits(w, 10) == [];
    assert UnsignedPart(w, radix) == NaN;
  }
}
