/**
 * Card records and the normalisation that turns legacy card entries (a bare string,
 * a loosely typed dictionary or any other value) into the canonical
 * `{front, back, marked, weight}` record (cards/utils.py).
 */
module Cards {
  import opened Wrappers
  import Text

  /** The weight a card gets when none (or an unreadable one) is given. */
  const DefaultWeight: real := 100.0

  /** A JSON-shaped Python value as it may sit in a field of a legacy card dictionary. */
  datatype Value =
    | Str(s: string)
    | Bool(b: bool)
      /** An `int` or `float`; `repr` is the text `str()` gives for it. */
    | Number(x: real, repr: string)
    | Null
      /** A list or dictionary: the text `str()` gives for it and whether it is non-empty. */
    | Compound(repr: string, nonEmpty: bool)

  /** A card entry as loaded: a bare string, a dictionary, or any other value (by its `str()` text). */
  datatype RawEntry =
    | RawStr(s: string)
    | RawDict(fields: map<string, Value>)
    | RawOther(repr: string)

  /** The canonical card record. */
  datatype Card = Card(front: string, back: string, marked: bool, weight: real)

  /** Python's `str(v)`. */
  function StrOf(v: Value): string
  {
    match v
    case Str(s) => s
    case Bool(b) => if b then "True" else "False"
    case Number(_, repr) => repr
    case Null => "None"
    case Compound(repr, _) => repr
  }

  /** Python's `bool(v)`. */
  function Truthy(v: Value): bool
  {
    match v
    case Str(s) => s != ""
    case Bool(b) => b
    case Number(x, _) => x != 0.0
    case Null => false
    case Compound(_, nonEmpty) => nonEmpty
  }

  /** Python's `float(v)`; `None` where it raises `TypeError` or `ValueError`. */
  function FloatOf(v: Value): Option<real>
  {
    match v
    case Str(s) => Text.ParseDecimal(s)
    case Bool(b) => Some(if b then 1.0 else 0.0)
    case Number(x, _) => Some(x)
    case Null => None
    case Compound(_, _) => None
  }

  /** `d.get(key, default)`. */
  function Get(fields: map<string, Value>, key: string, default: Value): Value
  {
    if key in fields then fields[key] else default
  }

  /** `create_card`: the canonical record, with the weight stored as a float. */
  function CreateCard(front: string, back: string := "", marked: bool := false,
                      weight: real := DefaultWeight): Card
  {
    Card(front, back, marked, weight)
  }

  /** `normalize_card_entry`. */
  function Normalize(entry: RawEntry): (c: Card)
    ensures entry.RawStr? ==> c == Card(entry.s, "", false, DefaultWeight)
    ensures entry.RawOther? ==> c == Card(entry.repr, "", false, DefaultWeight)
  {
    match entry
    case RawStr(s) => CreateCard(s)
    case RawDict(fields) =>
      var weight := FloatOf(Get(fields, "weight", Number(DefaultWeight, "100.0"))).GetOr(DefaultWeight);
      CreateCard(StrOf(Get(fields, "front", Str(""))), StrOf(Get(fields, "back", Str(""))),
                 Truthy(Get(fields, "marked", Bool(false))), weight)
    case RawOther(repr) => CreateCard(repr)
  }

  /**
   * The dictionary a canonical card is stored as. The `repr` of the weight is never read:
   * normalisation only ever applies `float()` to it.
   */
  function ToRaw(c: Card): RawEntry
  {
    RawDict(map["front" := Str(c.front), "back" := Str(c.back), "marked" := Bool(c.marked),
                "weight" := Number(c.weight, "")])
  }

  /** A dictionary without any of the four keys becomes the all-defaults card. */
  lemma NormalizeEmptyDict()
    ensures Normalize(RawDict(map[])) == Card("", "", false, DefaultWeight)
  {
  }

  /** Each field of a dictionary is coerced with `str`/`bool`, and an unreadable weight becomes 100. */
  lemma NormalizeDictFields(fields: map<string, Value>)
    ensures Normalize(RawDict(fields)).front == (if "front" in fields then StrOf(fields["front"]) else "")
    ensures Normalize(RawDict(fields)).back == (if "back" in fields then StrOf(fields["back"]) else "")
    ensures Normalize(RawDict(fields)).marked == ("marked" in fields && Truthy(fields["marked"]))
    ensures Normalize(RawDict(fields)).weight
         == if "weight" in fields && FloatOf(fields["weight"]).Some? then FloatOf(fields["weight"]).value
            else DefaultWeight
  {
  }

  /** Normalisation does not clamp: any readable weight, even outside [10, 200] or not positive, is kept. */
  lemma NormalizeDoesNotClamp(w: real)
    ensures Normalize(RawDict(map["weight" := Number(w, "")])).weight == w
    ensures Normalize(RawDict(map["weight" := Str("abc")])).weight == DefaultWeight
  {
    Text.StripUnpadded("abc");
    assert !Text.IsDigit("abc"[0]);
  }

  /** A canonical card reads back unchanged from the dictionary it is stored as. */
  lemma NormalizeToRaw(c: Card)
    ensures Normalize(ToRaw(c)) == c
  {
  }

  /** Normalisation is idempotent. */
  lemma NormalizeIdempotent(entry: RawEntry)
    ensures Normalize(ToRaw(Normalize(entry))) == Normalize(entry)
  {
    NormalizeToRaw(Normalize(entry));
  }

  /** `find_card`: the position of the first card whose front is `text`, if any. */
  function FindCard(cards: seq<Card>, text: string): (r: Option<nat>)
    ensures r.None? <==> forall i :: 0 <= i < |cards| ==> cards[i].front != text
    ensures r.Some? ==> r.value < |cards| && cards[r.value].front == text
    ensures r.Some? ==> forall i :: 0 <= i < r.value ==> cards[i].front != text
  {
    if cards == [] then None
    else if cards[0].front == text then Some(0)
    else
      match FindCard(cards[1..], text)
      case None => None
      case Some(k) => Some(k + 1)
  }

  /** Every entry of a card list replaced by its normalised dictionary. */
  function NormalizedList(s: seq<RawEntry>): (r: seq<RawEntry>)
    ensures |r| == |s|
  {
    seq(|s|, i requires 0 <= i < |s| => ToRaw(Normalize(s[i])))
  }

  lemma NormalizedListIdempotent(s: seq<RawEntry>)
    ensures NormalizedList(NormalizedList(s)) == NormalizedList(s)
  {
    forall i | 0 <= i < |s|
      ensures NormalizedList(NormalizedList(s))[i] == NormalizedList(s)[i]
    {
      NormalizeToRaw(Normalize(s[i]));
    }
  }

  /** The inner loop of `normalize_cards_tree`: `card_list[idx] = normalize_card_entry(card)`. */
  method NormalizeList(a: array<RawEntry>)
    modifies a
    ensures a[..] == NormalizedList(old(a[..]))
  {
    var idx := 0;
    while idx < a.Length
      invariant 0 <= idx <= a.Length
      invariant forall i :: 0 <= i < idx ==> a[i] == ToRaw(Normalize(old(a[i])))
      invariant forall i :: idx <= i < a.Length ==> a[i] == old(a[i])
    {
      a[idx] := ToRaw(Normalize(a[idx]));
      idx := idx + 1;
    }
  }

  /** The card lists of one row, by column. */
  type RowLists = map<string, array<RawEntry>>

  /** Every card list reachable from a row -> column -> list tree. */
  function TreeLists(tree: map<string, RowLists>): set<array<RawEntry>>
  {
    set r, c | r in tree && c in tree[r] :: tree[r][c]
  }

  /**
   * The middle loop: every list of one row is normalised in place. Lists shared between
   * columns are normalised twice, which leaves them as normalised once.
   */
  method NormalizeRow(row: RowLists)
    modifies row.Values
    ensures forall a :: a in row.Values ==> a[..] == NormalizedList(old(a[..]))
  {
    var pending := row.Keys;
    ghost var done: set<array<RawEntry>> := {};
    while pending != {}
      invariant pending <= row.Keys
      invariant done <= row.Values
      invariant forall c :: c in row.Keys - pending ==> row[c] in done
      invariant forall a :: a in done ==> a[..] == NormalizedList(old(a[..]))
      invariant forall a :: a in row.Values - done ==> a[..] == old(a[..])
      decreases pending
    {
      var c :| c in pending;
      var a := row[c];
      NormalizeList(a);
      if a in done {
        NormalizedListIdempotent(old(a[..]));
      }
      done := done + {a};
      pending := pending - {c};
    }
  }

  /**
   * `normalize_cards_tree`: every entry of every list is replaced by its normalised form,
   * in place; the maps, the lists and their lengths stay the same.
   */
  method NormalizeCardsTree(tree: map<string, RowLists>)
    modifies TreeLists(tree)
    ensures forall r, c :: r in tree && c in tree[r] ==>
      tree[r][c][..] == NormalizedList(old(tree[r][c][..]))
  {
    var pending := tree.Keys;
    ghost var done: set<array<RawEntry>> := {};
    while pending != {}
      invariant pending <= tree.Keys
      invariant done <= TreeLists(tree)
      invariant forall r, c :: r in tree.Keys - pending && c in tree[r] ==> tree[r][c] in done
      invariant forall a :: a in done ==> a[..] == NormalizedList(old(a[..]))
      invariant forall a :: a in TreeLists(tree) - done ==> a[..] == old(a[..])
      decreases pending
    {
      var r :| r in pending;
      NormalizeRow(tree[r]);
      forall a | a in tree[r].Values && a in done
        ensures a[..] == NormalizedList(old(a[..]))
      {
        NormalizedListIdempotent(old(a[..]));
      }
      done := done + tree[r].Values;
      pending := pending - {r};
    }
  }
}
