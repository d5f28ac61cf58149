/** The card-data preparation script: one flat record per card of the dump,
    with the sanitised `safe_name` and image `file_name`, the release year,
    the legal formats and a default for every optional field. These records
    are the items the search code filters. */
module CardRecords {
  import opened Wrappers
  import opened Text
  import opened Hyphens
  import opened FileNames
  import opened QueryEngine
  import opened JsonData

  /** The exceptions the record construction raises. */
  datatype RecordError =
    | MissingKey(key: string)      // `card[key]` on an absent key
    | NotText(key: string)         // a string method or `+` on a non-string
    | NotObject(key: string)       // `.get` or `.items()` on a non-dict
    | NotAnInteger(text: string)   // `int(text)` on a non-number

  /** A field the construction needs as a string. */
  function Required(card: Card, key: string): (r: Result<string, RecordError>)
    ensures r.Ok? <==> key in card && card[key].JString?
    ensures r.Ok? ==> card[key] == JString(r.value)
    ensures key !in card ==> r == Err(MissingKey(key))
  {
    if key !in card then Err(MissingKey(key))
    else if card[key].JString? then Ok(card[key].s)
    else Err(NotText(key))
  }

  /** A '-' at index `k` is an occurrence of "-". */
  lemma HyphenAt(s: string, k: nat)
    requires k < |s|
    ensures s[k] == '-' <==> OccursAt(s, "-", k)
  {
    assert s[k..k + 1][0] == s[k];
  }

  /** `s.split("-")[0]`: the text before the first '-', or all of `s`. */
  function BeforeFirstHyphen(s: string): (r: string)
    ensures r <= s && '-' !in r
    ensures r != s ==> s[|r|] == '-'
  {
    match Find(s, "-")
    case None =>
      assert forall k :: 0 <= k < |s| ==> s[k] != '-' by {
        forall k | 0 <= k < |s| ensures s[k] != '-' {
          HyphenAt(s, k);
        }
      }
      s
    case Some(j) =>
      HyphenAt(s, j);
      assert forall k :: 0 <= k < j ==> s[k] != '-' by {
        forall k | 0 <= k < j ensures s[k] != '-' {
          HyphenAt(s, k);
        }
      }
      s[..j]
  }

  /** `int(released_at.split("-")[0])` for an ASCII digit string. */
  function Year(releasedAt: string): Result<int, RecordError> {
    var text := BeforeFirstHyphen(releasedAt);
    if IsDigits(text) then Ok(DigitsValue(text)) else Err(NotAnInteger(text))
  }

  /** `card.get(key, default)` as the record holds it. */
  function Get(card: Card, key: string, default: Value): Value {
    if key in card then ToValue(card[key]) else default
  }

  /** `card.get("prices", {}).get(currency, 0.0)`; the float default 0.0
      is the integer 0 here. */
  function Price(card: Card, currency: string): Result<Value, RecordError> {
    if "prices" !in card then Ok(Int(0))
    else
      match card["prices"]
      case JObject(fields) =>
        (match Lookup(fields, currency)
         case Some(v) => Ok(ToValue(v))
         case None => Ok(Int(0)))
      case _ => Err(NotObject("prices"))
  }

  /** `[fmt for fmt, legal in legalities.items() if legal == "legal"]` */
  function LegalFormats(legalities: seq<(string, Json)>): seq<string> {
    if legalities == [] then []
    else (if legalities[0].1 == JString("legal") then [legalities[0].0] else []) + LegalFormats(legalities[1..])
  }

  /** The `legal_formats` field: none when the card has no legalities. */
  function Legalities(card: Card): Result<seq<string>, RecordError> {
    if "legalities" !in card then Ok([])
    else
      match card["legalities"]
      case JObject(fields) => Ok(LegalFormats(fields))
      case _ => Err(NotObject("legalities"))
  }

  /** The fields the record cannot do without, in the order the dict
      literal reads them: name, type line, release date and its year. */
  datatype Header = Header(name: string, typeLine: string, releasedAt: string, year: int)

  function ReadHeader(card: Card): Result<Header, RecordError> {
    match Required(card, "name")
    case Err(x) => Err(x)
    case Ok(name) =>
      match Required(card, "type_line")
      case Err(x) => Err(x)
      case Ok(typeLine) =>
        match Required(card, "released_at")
        case Err(x) => Err(x)
        case Ok(releasedAt) =>
          match Year(releasedAt)
          case Err(x) => Err(x)
          case Ok(year) => Ok(Header(name, typeLine, releasedAt, year))
  }

  /** The fields read from nested objects: both prices and the legal
      formats. */
  datatype Nested = Nested(euro: Value, usd: Value, formats: seq<string>)

  function ReadNested(card: Card): Result<Nested, RecordError> {
    match Price(card, "eur")
    case Err(x) => Err(x)
    case Ok(euro) =>
      match Price(card, "usd")
      case Err(x) => Err(x)
      case Ok(usd) =>
        match Legalities(card)
        case Err(x) => Err(x)
        case Ok(formats) => Ok(Nested(euro, usd, formats))
  }

  /** The record itself, once nothing can raise any more. */
  function Record(card: Card, h: Header, n: Nested): Item {
    map[
      "name" := Str(h.name),
      "safe_name" := Str(FileName(h.name)),
      "file_name" := Str(FileName(h.name + "-" + h.typeLine) + ".webp"),
      "released-at" := Str(h.releasedAt),
      "year" := Int(h.year),
      "mana_cost" := Get(card, "mana_cost", Str("")),
      "cmc" := Get(card, "cmc", Int(0)),
      "type_line" := Get(card, "type_line", Str("")),
      "oracle_text" := Get(card, "oracle_text", Str("")),
      "power" := Get(card, "power", Str("")),
      "toughness" := Get(card, "toughness", Str("")),
      "loyalty" := Get(card, "loyalty", Str("")),
      "colors" := Get(card, "colors", List([])),
      "color_identity" := Get(card, "color_identity", List([])),
      "keywords" := Get(card, "keywords", List([])),
      "set" := Get(card, "set", Str("")),
      "rarity" := Get(card, "rarity", Str("")),
      "edhrec_rank" := Get(card, "edhrec_rank", Int(0)),
      "price_euro" := n.euro,
      "price_usd" := n.usd,
      "legal_formats" := List(n.formats)
    ]
  }

  /** The dict literal of the main loop, evaluated key by key: the first
      key whose expression raises decides the error. */
  function CardRecord(card: Card): Result<Item, RecordError> {
    match ReadHeader(card)
    case Err(x) => Err(x)
    case Ok(h) =>
      match ReadNested(card)
      case Err(x) => Err(x)
      case Ok(n) => Ok(Record(card, h, n))
  }

  /** `f` applied to every card in order, stopping at the first error. */
  function MapRecords(f: Card -> Result<Item, RecordError>, cards: seq<Card>): Result<seq<Item>, RecordError>
    decreases |cards|
  {
    if cards == [] then Ok([])
    else
      match MapRecords(f, cards[..|cards| - 1])
      case Err(x) => Err(x)
      case Ok(rs) =>
        match f(cards[|cards| - 1])
        case Err(x) => Err(x)
        case Ok(r) => Ok(rs + [r])
  }

  /** The records of a whole dump; the script stops at the first card whose
      record raises. */
  function Records(cards: seq<Card>): Result<seq<Item>, RecordError> {
    MapRecords(CardRecord, cards)
  }

  /** The main loop: `data_out.append({...})` once per card. */
  method PrepareData(cards: seq<Card>) returns (r: Result<seq<Item>, RecordError>)
    ensures r == Records(cards)
  {
    var dataOut: seq<Item> := [];
    for i := 0 to |cards|
      invariant Records(cards[..i]) == Ok(dataOut)
    {
      assert cards[..i + 1][..i] == cards[..i];
      var record := CardRecord(cards[i]);
      if record.Err? {
        MapPrefixFails(CardRecord, cards, i + 1);
        return Err(record.error);
      }
      dataOut := dataOut + [record.value];
    }
    assert cards[..|cards|] == cards;
    r := Ok(dataOut);
  }

  /** Once a prefix of the dump fails, the whole dump fails the same way. */
  lemma {:induction false} MapPrefixFails(f: Card -> Result<Item, RecordError>, cards: seq<Card>, k: nat)
    requires k <= |cards| && MapRecords(f, cards[..k]).Err?
    ensures MapRecords(f, cards) == MapRecords(f, cards[..k])
    decreases |cards| - k
  {
    if k < |cards| {
      assert cards[..k + 1][..k] == cards[..k];
      MapPrefixFails(f, cards, k + 1);
    } else {
      assert cards[..k] == cards;
    }
  }

  // ---------------------------------------------------------------------
  // Properties of one record

  /** A card has a record exactly when its name, type line and release date
      are strings, the date starts with digits, and its prices and
      legalities, when present, are objects. */
  lemma RecordExists(card: Card)
    ensures CardRecord(card).Ok? <==>
      && "name" in card && card["name"].JString?
      && "type_line" in card && card["type_line"].JString?
      && "released_at" in card && card["released_at"].JString?
      && IsDigits(BeforeFirstHyphen(card["released_at"].s))
      && ("prices" in card ==> card["prices"].JObject?)
      && ("legalities" in card ==> card["legalities"].JObject?)
  {
  }

  /** The record's fields come from the header and nested parts read from
      the card. */
  lemma RecordParts(card: Card)
    requires CardRecord(card).Ok?
    ensures ReadHeader(card).Ok? && ReadNested(card).Ok?
    ensures CardRecord(card).value == Record(card, ReadHeader(card).value, ReadNested(card).value)
    ensures ReadHeader(card).value.name == card["name"].s
    ensures ReadHeader(card).value.typeLine == card["type_line"].s
    ensures ReadHeader(card).value.releasedAt == card["released_at"].s
  {
  }

  // The fields of a record display, a few at a time.

  lemma NameFields(card: Card, h: Header, n: Nested)
    ensures Record(card, h, n)["safe_name"] == Str(FileName(h.name))
    ensures Record(card, h, n)["file_name"] == Str(FileName(h.name + "-" + h.typeLine) + ".webp")
  {
  }

  lemma TextFields(card: Card, h: Header, n: Nested)
    ensures Record(card, h, n)["mana_cost"] == Get(card, "mana_cost", Str(""))
    ensures Record(card, h, n)["cmc"] == Get(card, "cmc", Int(0))
  {
  }

  lemma OracleField(card: Card, h: Header, n: Nested)
    ensures Record(card, h, n)["oracle_text"] == Get(card, "oracle_text", Str(""))
  {
  }

  lemma ListFields(card: Card, h: Header, n: Nested)
    ensures Record(card, h, n)["colors"] == Get(card, "colors", List([]))
    ensures Record(card, h, n)["keywords"] == Get(card, "keywords", List([]))
    ensures Record(card, h, n)["edhrec_rank"] == Get(card, "edhrec_rank", Int(0))
  {
  }

  lemma StatFields(card: Card, h: Header, n: Nested)
    ensures Record(card, h, n)["power"] == Get(card, "power", Str(""))
    ensures Record(card, h, n)["toughness"] == Get(card, "toughness", Str(""))
  {
  }

  lemma LoyaltyField(card: Card, h: Header, n: Nested)
    ensures Record(card, h, n)["loyalty"] == Get(card, "loyalty", Str(""))
  {
  }

  lemma PrintingFields(card: Card, h: Header, n: Nested)
    ensures Record(card, h, n)["color_identity"] == Get(card, "color_identity", List([]))
    ensures Record(card, h, n)["set"] == Get(card, "set", Str(""))
    ensures Record(card, h, n)["rarity"] == Get(card, "rarity", Str(""))
  {
  }

  /** The two names of a record: the sanitised card name, and the
      sanitised "<name>-<type line>" with the image extension. */
  lemma RecordNames(card: Card)
    requires CardRecord(card).Ok?
    ensures CardRecord(card).value["safe_name"] == Str(FileName(card["name"].s))
    ensures CardRecord(card).value["file_name"] == Str(FileName(card["name"].s + "-" + card["type_line"].s) + ".webp")
  {
    RecordParts(card);
    NameFields(card, ReadHeader(card).value, ReadNested(card).value);
  }

  /** The safe name holds only lower-case ASCII letters, digits, '-' and
      '_', has no "--", and a second sanitising leaves it unchanged. */
  lemma SafeNameClean(card: Card)
    requires CardRecord(card).Ok?
    ensures var safe := CardRecord(card).value["safe_name"].s;
      && (forall c <- safe :: IsSafeChar(c))
      && NoDoubleHyphen(safe)
      && FileName(safe) == safe
  {
    RecordNames(card);
    var name := card["name"].s;
    FileNameCharset(name);
    FileNameHyphens(name);
    FileNameIdempotent(name);
  }

  /** The image name is a sanitised stem followed by ".webp". */
  lemma ImageNameClean(card: Card)
    requires CardRecord(card).Ok?
    ensures var file := CardRecord(card).value["file_name"].s;
      && EndsWith(file, ".webp")
      && FileName(file[..|file| - 5]) == file[..|file| - 5]
  {
    RecordNames(card);
    var stem := FileName(card["name"].s + "-" + card["type_line"].s);
    FileNameIdempotent(card["name"].s + "-" + card["type_line"].s);
    var file := stem + ".webp";
    assert file[..|file| - 5] == stem;
    assert file[|file| - 5..] == ".webp";
  }

  /** The first '-' of a date written "<digits>-<rest>" follows the
      digits. */
  lemma DateYearText(digits: string, rest: string)
    requires IsDigits(digits)
    ensures BeforeFirstHyphen(digits + "-" + rest) == digits
  {
    var date := digits + "-" + rest;
    HyphenAt(date, |digits|);
    forall j: nat | j < |digits| ensures !OccursAt(date, "-", j) {
      HyphenAt(date, j);
      assert date[j] == digits[j] && digits[j] in digits;
    }
    assert Find(date, "-") == Some(|digits|);
  }

  /** The year is the integer the date starts with: a date written
      "<year>-<rest>" gives back that year. */
  lemma YearOfDate(card: Card, year: nat, rest: string)
    requires CardRecord(card).Ok?
    requires card["released_at"] == JString(NatToString(year) + "-" + rest)
    ensures CardRecord(card).value["year"] == Int(year)
  {
    RecordParts(card);
    var header := ReadHeader(card).value;
    NatToStringRoundTrip(year);
    DateYearText(NatToString(year), rest);
    assert Year(header.releasedAt) == Ok(year);
    assert header.year == year;
  }

  /** Every optional field holds the card's value, or its default when the
      card has none. */
  lemma OptionalFields(card: Card)
    requires CardRecord(card).Ok?
    ensures var rec := CardRecord(card).value;
      && rec["mana_cost"] == (if "mana_cost" in card then ToValue(card["mana_cost"]) else Str(""))
      && rec["cmc"] == (if "cmc" in card then ToValue(card["cmc"]) else Int(0))
      && rec["oracle_text"] == (if "oracle_text" in card then ToValue(card["oracle_text"]) else Str(""))
      && rec["colors"] == (if "colors" in card then ToValue(card["colors"]) else List([]))
      && rec["keywords"] == (if "keywords" in card then ToValue(card["keywords"]) else List([]))
      && rec["edhrec_rank"] == (if "edhrec_rank" in card then ToValue(card["edhrec_rank"]) else Int(0))
  {
    RecordParts(card);
    TextFields(card, ReadHeader(card).value, ReadNested(card).value);
    OracleField(card, ReadHeader(card).value, ReadNested(card).value);
    ListFields(card, ReadHeader(card).value, ReadNested(card).value);
  }

  /** The other optional fields: the stats and the set default to "", and
      the color identity to no colors. */
  lemma MoreOptionalFields(card: Card)
    requires CardRecord(card).Ok?
    ensures var rec := CardRecord(card).value;
      && rec["power"] == (if "power" in card then ToValue(card["power"]) else Str(""))
      && rec["toughness"] == (if "toughness" in card then ToValue(card["toughness"]) else Str(""))
      && rec["loyalty"] == (if "loyalty" in card then ToValue(card["loyalty"]) else Str(""))
      && rec["color_identity"] == (if "color_identity" in card then ToValue(card["color_identity"]) else List([]))
      && rec["set"] == (if "set" in card then ToValue(card["set"]) else Str(""))
      && rec["rarity"] == (if "rarity" in card then ToValue(card["rarity"]) else Str(""))
  {
    RecordParts(card);
    StatFields(card, ReadHeader(card).value, ReadNested(card).value);
    LoyaltyField(card, ReadHeader(card).value, ReadNested(card).value);
    PrintingFields(card, ReadHeader(card).value, ReadNested(card).value);
  }

  /** With a "prices" object, each price is that object's entry for the
      currency, or 0 when the currency is missing. */
  lemma PricesCopied(card: Card)
    requires CardRecord(card).Ok? && "prices" in card
    ensures card["prices"].JObject?
    ensures var eur := Lookup(card["prices"].fields, "eur");
      CardRecord(card).value["price_euro"] == if eur.Some? then ToValue(eur.value) else Int(0)
    ensures var usd := Lookup(card["prices"].fields, "usd");
      CardRecord(card).value["price_usd"] == if usd.Some? then ToValue(usd.value) else Int(0)
  {
    RecordParts(card);
  }

  /** Prices default to 0 and legal formats to none. */
  lemma NestedDefaults(card: Card)
    requires CardRecord(card).Ok?
    ensures "prices" !in card ==> CardRecord(card).value["price_euro"] == Int(0) && CardRecord(card).value["price_usd"] == Int(0)
    ensures "legalities" !in card ==> CardRecord(card).value["legal_formats"] == List([])
    ensures "legalities" in card ==> CardRecord(card).value["legal_formats"] == List(LegalFormats(card["legalities"].fields))
  {
    RecordParts(card);
  }

  /** The type line is required for the image name, so its default is
      never used. */
  lemma TypeLineCopied(card: Card)
    requires CardRecord(card).Ok?
    ensures CardRecord(card).value["type_line"] == Str(card["type_line"].s)
  {
    RecordParts(card);
  }

  // ---------------------------------------------------------------------
  // legal_formats

  /** A format is listed exactly when the card is legal in it. */
  lemma {:induction false} LegalFormatsMembers(legalities: seq<(string, Json)>, format: string)
    ensures format in LegalFormats(legalities) <==> (format, JString("legal")) in legalities
    decreases |legalities|
  {
    if legalities != [] {
      LegalFormatsMembers(legalities[1..], format);
      assert legalities == [legalities[0]] + legalities[1..];
    }
  }

  /** The list keeps the input order: it distributes over concatenation. */
  lemma {:induction false} LegalFormatsAppend(a: seq<(string, Json)>, b: seq<(string, Json)>)
    ensures LegalFormats(a + b) == LegalFormats(a) + LegalFormats(b)
    decreases |a|
  {
    if a == [] {
      assert a + b == b;
    } else {
      var head := if a[0].1 == JString("legal") then [a[0].0] else [];
      assert (a + b)[0] == a[0] && (a + b)[1..] == a[1..] + b;
      assert LegalFormats(a + b) == head + LegalFormats(a[1..] + b);
      assert LegalFormats(a) == head + LegalFormats(a[1..]);
      LegalFormatsAppend(a[1..], b);
      assert head + (LegalFormats(a[1..]) + LegalFormats(b)) == (head + LegalFormats(a[1..])) + LegalFormats(b);
    }
  }

  // ---------------------------------------------------------------------
  // The whole dump

  /** The records are one per card, in order, or the error of the first
      card whose record raises. */
  lemma RecordsMeaning(cards: seq<Card>)
    ensures Records(cards).Ok? <==> forall i :: 0 <= i < |cards| ==> CardRecord(cards[i]).Ok?
    ensures Records(cards).Ok? ==> |Records(cards).value| == |cards|
    ensures Records(cards).Ok? ==> forall i :: 0 <= i < |cards| ==> CardRecord(cards[i]) == Ok(Records(cards).value[i])
    ensures Records(cards).Err? ==>
      exists i :: 0 <= i < |cards| && CardRecord(cards[i]) == Err(Records(cards).error) && forall j :: 0 <= j < i ==> CardRecord(cards[j]).Ok?
  {
    MapRecordsMeaning(CardRecord, cards);
  }

  lemma {:induction false} MapRecordsMeaning(f: Card -> Result<Item, RecordError>, cards: seq<Card>)
    ensures MapRecords(f, cards).Ok? <==> forall i :: 0 <= i < |cards| ==> f(cards[i]).Ok?
    ensures MapRecords(f, cards).Ok? ==> |MapRecords(f, cards).value| == |cards|
    ensures MapRecords(f, cards).Ok? ==> forall i :: 0 <= i < |cards| ==> f(cards[i]) == Ok(MapRecords(f, cards).value[i])
    ensures MapRecords(f, cards).Err? ==>
      exists i :: 0 <= i < |cards| && f(cards[i]) == Err(MapRecords(f, cards).error) && forall j :: 0 <= j < i ==> f(cards[j]).Ok?
    decreases |cards|
  {
    if cards != [] {
      var init := cards[..|cards| - 1];
      MapRecordsMeaning(f, init);
      assert forall i :: 0 <= i < |init| ==> init[i] == cards[i];
    }
  }
}
