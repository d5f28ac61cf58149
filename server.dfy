/** The web server's request handling over the loaded card records: search,
    random card, lookup by name, the card page and static files. File
    contents, file existence and the random choice are parameters. */
module Server {
  import opened Wrappers
  import opened Text
  import opened QueryEngine
  import opened QueryParser

  /** The bodies the handlers answer with. */
  datatype Response =
    | CardBody(card: Item)                        // {"card": card}
    | CardsBody(cards: seq<Item>)                 // {"cards": cards}
    | ErrorBody(error: string)                    // {"error": message}
    | FailureBody(error: string, details: Error)  // {"error": message, "details": str(e)}
    | ServerError                                 // an uncaught exception: status 500
    | HtmlBody(content: string)
    | FileBody(path: string)
    | NotFoundBody                                // status 404, "File not found"

  const NoMatchMessage := "No cards found matching the query"
  const FailedQueryMessage := "Failed to process query"
  const NoCardsMessage := "No cards available"
  const CardNotFoundMessage := "Card not found"

  // ---------------------------------------------------------------------
  // Search

  /** `search_cards` once `query_to_filter` has answered with `parsed`. */
  function SearchWith(cards: seq<Item>, parsed: Result<Expr, Error>): Response {
    match parsed
    case Err(e) => FailureBody(FailedQueryMessage, e)
    case Ok(f) =>
      match ApplyFilters(cards, f)
      case Err(e) => FailureBody(FailedQueryMessage, e)
      case Ok(found) => if found == [] then ErrorBody(NoMatchMessage) else CardsBody(found)
  }

  /** `search_cards`: parse, filter, and report an empty result or any
      exception as an error. */
  function SearchCards(cards: seq<Item>, q: string): Response {
    SearchWith(cards, Parse(q))
  }

  /** A search answers with cards exactly when the query parses, every card
      can be checked and some card matches; the cards are then exactly the
      matching ones, in catalog order. Otherwise it answers with an error:
      the exception's, or "no cards found" when every card was checked and
      none matched. */
  lemma SearchMeaning(cards: seq<Item>, parsed: Result<Expr, Error>)
    ensures SearchWith(cards, parsed).CardsBody? || SearchWith(cards, parsed).ErrorBody? || SearchWith(cards, parsed).FailureBody?
    ensures SearchWith(cards, parsed).FailureBody? <==>
      parsed.Err? || exists i :: 0 <= i < |cards| && Check(parsed.value, cards[i]).Err?
    ensures SearchWith(cards, parsed).CardsBody? ==>
      && parsed.Ok?
      && SearchWith(cards, parsed).cards == ApplyFilters(cards, parsed.value).value
      && SearchWith(cards, parsed).cards != []
      && (forall x <- SearchWith(cards, parsed).cards :: x in cards && Check(parsed.value, x) == Ok(true))
      && (forall i :: 0 <= i < |cards| && Check(parsed.value, cards[i]) == Ok(true) ==> cards[i] in SearchWith(cards, parsed).cards)
    ensures SearchWith(cards, parsed) == ErrorBody(NoMatchMessage) <==>
      parsed.Ok? && forall i :: 0 <= i < |cards| ==> Check(parsed.value, cards[i]) == Ok(false)
  {
    if parsed.Ok? {
      var f := parsed.value;
      ApplyFiltersMeaning(cards, f);
      if ApplyFilters(cards, f).Ok? {
        var found := ApplyFilters(cards, f).value;
        if found == [] {
          assert forall i :: 0 <= i < |cards| ==> Check(f, cards[i]) == Ok(false);
        } else {
          assert found[0] in found;
        }
      }
    }
  }

  /** A query the parser rejects, such as one made only of "and"/"or"
      tokens, is answered with the parser's error. */
  lemma UnparsableQuery(cards: seq<Item>, q: string)
    requires Parse(q).Err?
    ensures SearchCards(cards, q) == FailureBody(FailedQueryMessage, Parse(q).error)
  {
  }

  // ---------------------------------------------------------------------
  // Random card

  /** `get_random_card`; `pick` is the index `random.choice` draws. */
  function RandomCard(cards: seq<Item>, pick: nat): (r: Response)
    requires cards != [] ==> pick < |cards|
    ensures r == ErrorBody(NoCardsMessage) <==> cards == []
    ensures r != ErrorBody(NoCardsMessage) ==> r.CardBody? && r.card in cards
  {
    if cards == [] then ErrorBody(NoCardsMessage) else CardBody(cards[pick])
  }

  // ---------------------------------------------------------------------
  // Card names

  predicate IsNameChar(c: char) {
    IsLetter(c) || IsDigit(c) || IsSpace(c)
  }

  /** `re.sub(r"[^a-zA-Z0-9\s]", "", s)` */
  function KeepNameChars(s: string): (r: string)
    ensures forall c <- r :: IsNameChar(c)
    ensures |r| <= |s|
  {
    if s == [] then []
    else (if IsNameChar(s[0]) then [s[0]] else []) + KeepNameChars(s[1..])
  }

  /** The name in the URL as both card handlers clean it: other characters
      removed, surrounding whitespace stripped, lower-cased. */
  function Normalize(name: string): string {
    Lower(Strip(KeepNameChars(name)))
  }

  /** `strip()` leaves a contiguous piece with no whitespace at either end. */
  lemma StripPiece(s: string) returns (i: nat)
    ensures i + |Strip(s)| <= |s| && Strip(s) == s[i..i + |Strip(s)|]
    ensures Strip(s) == [] || (!IsSpace(Strip(s)[0]) && !IsSpace(Strip(s)[|Strip(s)| - 1]))
  {
    var l := TrimLeadingSpaces(s);
    var t := TrimTrailingSpaces(l);
    i := |s| - |l|;
    assert Strip(s) == t;
    assert l == s[i..] && t == l[..|t|];
    SliceOfSuffix(s, i, |t|);
  }

  lemma SliceOfSuffix<T>(s: seq<T>, i: nat, n: nat)
    requires i + n <= |s|
    ensures s[i..][..n] == s[i..i + n]
  {
  }

  /** A normalised name holds only lower-case ASCII letters, digits and
      whitespace, and does not start or end with whitespace. */
  lemma NormalizeShape(name: string)
    ensures forall c <- Normalize(name) :: IsLowerLetter(c) || IsDigit(c) || IsSpace(c)
    ensures Normalize(name) == [] || (!IsSpace(Normalize(name)[0]) && !IsSpace(Normalize(name)[|Normalize(name)| - 1]))
  {
    var kept := KeepNameChars(name);
    var stripped := Strip(kept);
    var i := StripPiece(kept);
    forall k | 0 <= k < |stripped| ensures IsNameChar(stripped[k]) {
      assert stripped[k] == kept[i + k];
      assert kept[i + k] in kept;
    }
    var r := Normalize(name);
    forall c <- r ensures IsLowerLetter(c) || IsDigit(c) || IsSpace(c) {
      var k :| 0 <= k < |r| && r[k] == c;
      assert r[k] == LowerChar(stripped[k]);
    }
  }

  lemma {:induction false} KeepAllNameChars(s: string)
    requires forall c <- s :: IsNameChar(c)
    ensures KeepNameChars(s) == s
    decreases |s|
  {
    if s != [] {
      KeepAllNameChars(s[1..]);
    }
  }

  /** Normalising twice is normalising once. */
  lemma NormalizeIdempotent(name: string)
    ensures Normalize(Normalize(name)) == Normalize(name)
  {
    var n := Normalize(name);
    NormalizeShape(name);
    assert forall c <- n :: IsNameChar(c);
    KeepAllNameChars(n);
    assert TrimLeadingSpaces(n) == n;
    assert TrimTrailingSpaces(n) == n;
    assert forall c <- n :: !IsUpper(c);
    LowerIdentity(n);
  }

  // ---------------------------------------------------------------------
  // Lookup by name

  /** The scan of `get_card_by_name` over the catalog for an already
      normalised name; a record without a string "name" raises. */
  function FindByName(cards: seq<Item>, wanted: string): Response
    decreases |cards|
  {
    if cards == [] then ErrorBody(CardNotFoundMessage)
    else if "name" !in cards[0] || !cards[0]["name"].Str? then ServerError
    else if Lower(cards[0]["name"].s) == wanted then CardBody(cards[0])
    else FindByName(cards[1..], wanted)
  }

  /** The card's name matches a wanted name. */
  predicate NamedAs(card: Item, wanted: string) {
    "name" in card && card["name"].Str? && Lower(card["name"].s) == wanted
  }

  /** A record the scan can pass over: a string name that does not match. */
  predicate OtherName(card: Item, wanted: string) {
    "name" in card && card["name"].Str? && Lower(card["name"].s) != wanted
  }

  /** One pass of the scan, at position `i` of the catalog. */
  lemma FindByNameAt(cards: seq<Item>, i: nat, wanted: string)
    requires i < |cards|
    ensures var card := cards[i];
      FindByName(cards[i..], wanted) ==
        if "name" !in card || !card["name"].Str? then ServerError
        else if Lower(card["name"].s) == wanted then CardBody(card)
        else FindByName(cards[i + 1..], wanted)
  {
    assert cards[i..][0] == cards[i] && cards[i..][1..] == cards[i + 1..];
  }

  /** `get_card_by_name` as the source runs it: a loop with an early return. */
  method GetCardByName(cards: seq<Item>, cardName: string) returns (r: Response)
    ensures r == FindByName(cards, Normalize(cardName))
  {
    var wanted := Lower(Strip(KeepNameChars(cardName)));
    assert cards[0..] == cards;
    for i := 0 to |cards|
      invariant FindByName(cards[i..], wanted) == FindByName(cards, wanted)
    {
      var card := cards[i];
      FindByNameAt(cards, i, wanted);
      if "name" !in card || !card["name"].Str? {
        return ServerError;
      }
      if Lower(card["name"].s) == wanted {
        return CardBody(card);
      }
    }
    assert cards[|cards|..] == [];
    r := ErrorBody(CardNotFoundMessage);
  }

  /** The lookup answers with the first card, in catalog order, whose
      lower-cased name is the wanted name, and "Card not found" exactly when
      every card has a string name and none matches. */
  lemma {:induction false} FindByNameMeaning(cards: seq<Item>, wanted: string)
    ensures FindByName(cards, wanted) == ErrorBody(CardNotFoundMessage) <==>
      forall i :: 0 <= i < |cards| ==> OtherName(cards[i], wanted)
    ensures FindByName(cards, wanted).CardBody? ==>
      exists i :: 0 <= i < |cards| && cards[i] == FindByName(cards, wanted).card && NamedAs(cards[i], wanted) && forall j :: 0 <= j < i ==> OtherName(cards[j], wanted)
    ensures FindByName(cards, wanted).CardBody? || FindByName(cards, wanted).ErrorBody? || FindByName(cards, wanted) == ServerError
    decreases |cards|
  {
    if cards != [] {
      FindByNameMeaning(cards[1..], wanted);
      assert forall i :: 1 <= i < |cards| ==> cards[i] == cards[1..][i - 1];
      if FindByName(cards, wanted).CardBody? && !NamedAs(cards[0], wanted) {
        var i :| 0 <= i < |cards[1..]| && cards[1..][i] == FindByName(cards, wanted).card
          && NamedAs(cards[1..][i], wanted) && forall j :: 0 <= j < i ==> OtherName(cards[1..][j], wanted);
        assert cards[i + 1] == cards[1..][i];
      }
    }
  }

  /** A card whose name holds punctuation or any other character outside
      letters, digits and whitespace is never found. */
  lemma PunctuatedNameNeverFound(cards: seq<Item>, cardName: string)
    ensures var r := FindByName(cards, Normalize(cardName));
      r.CardBody? ==> "name" in r.card && r.card["name"].Str? && forall c <- r.card["name"].s :: IsNameChar(c)
  {
    var wanted := Normalize(cardName);
    FindByNameMeaning(cards, wanted);
    NormalizeShape(cardName);
    if FindByName(cards, wanted).CardBody? {
      var name := FindByName(cards, wanted).card["name"].s;
      forall c <- name ensures IsNameChar(c) {
        var k :| 0 <= k < |name| && name[k] == c;
        assert Lower(name)[k] == LowerChar(c);
        assert LowerChar(c) in wanted;
      }
    }
  }

  // ---------------------------------------------------------------------
  // Card page

  const Placeholder := "[CARD_NAME]"

  /** `get_card_page`: the template with every "[CARD_NAME]" replaced by the
      normalised name; `template` is the text of static/card.html. */
  function CardPage(template: string, cardName: string): Response {
    HtmlBody(ReplaceAll(template, Placeholder, Normalize(cardName)))
  }

  /** `s` holds no "[CARD_NAME]". */
  ghost predicate NoPlaceholder(s: string) {
    forall j: nat :: !OccursAt(s, Placeholder, j)
  }

  /** Text in which no match starts is copied, and the scan goes on after
      it. */
  lemma {:induction false} ReplaceSkips(pre: string, s: string, pat: string, rep: string)
    requires pat != []
    requires forall j: nat :: j < |pre| ==> !OccursAt(pre + s, pat, j)
    ensures ReplaceAll(pre + s, pat, rep) == pre + ReplaceAll(s, pat, rep)
    decreases |pre|
  {
    var t := pre + s;
    if pre == [] {
      assert t == s;
    } else if |t| < |pat| {
      assert |s| < |pat|;
    } else {
      ReplaceSkipOne(t, pat, rep);
      assert t[0] == pre[0] && t[1..] == pre[1..] + s;
      NoMatchShift(pre, s, pat);
      ReplaceSkips(pre[1..], s, pat, rep);
      AppendAssociative([pre[0]], pre[1..], ReplaceAll(s, pat, rep));
      assert [pre[0]] + pre[1..] == pre;
    }
  }

  /** One unfolding of the scan where no match starts. */
  lemma ReplaceSkipOne(t: string, pat: string, rep: string)
    requires pat != [] && |pat| <= |t| && !OccursAt(t, pat, 0)
    ensures ReplaceAll(t, pat, rep) == [t[0]] + ReplaceAll(t[1..], pat, rep)
  {
  }

  /** Dropping the first character keeps the match-free prefix match-free. */
  lemma NoMatchShift(pre: string, s: string, pat: string)
    requires pre != []
    requires forall j: nat :: j < |pre| ==> !OccursAt(pre + s, pat, j)
    ensures forall j: nat :: j < |pre| - 1 ==> !OccursAt(pre[1..] + s, pat, j)
  {
    var t := pre + s;
    assert t[1..] == pre[1..] + s;
    forall j: nat | j < |pre| - 1
      ensures !OccursAt(pre[1..] + s, pat, j)
    {
      assert !OccursAt(t, pat, j + 1);
      if j + |pat| <= |t| - 1 {
        assert t[1..][j..j + |pat|] == t[j + 1..j + 1 + |pat|];
      }
    }
  }

  /** '[' stands only at the start of the placeholder. */
  lemma OneBracket()
    ensures Placeholder[0] == '['
    ensures forall d :: 1 <= d < |Placeholder| ==> Placeholder[d] != '['
  {
  }

  /** No match can start inside placeholder-free text that is followed by
      a placeholder or by nothing: it would need a second '['. */
  lemma NoMatchAcross(pre: string, s: string)
    requires NoPlaceholder(pre)
    requires s == [] || Placeholder <= s
    ensures forall j: nat :: j < |pre| ==> !OccursAt(pre + s, Placeholder, j)
  {
    OneBracket();
    forall j: nat | j < |pre|
      ensures !OccursAt(pre + s, Placeholder, j)
    {
      var t := pre + s;
      if j + |Placeholder| <= |pre| {
        assert t[j..j + |Placeholder|] == pre[j..j + |Placeholder|];
        assert !OccursAt(pre, Placeholder, j);
      } else if j + |Placeholder| <= |t| {
        var d := |pre| - j;
        assert s != [] && s[0] == '[';
        assert t[j..j + |Placeholder|][d] == '[';
        assert Placeholder[d] != '[';
      }
    }
  }

  /** A template without "[CARD_NAME]" is served unchanged. */
  lemma NoPlaceholderUnchanged(template: string, cardName: string)
    requires NoPlaceholder(template)
    ensures CardPage(template, cardName) == HtmlBody(template)
  {
    ReplaceAllAbsent(template, Placeholder, Normalize(cardName));
  }

  /** A placeholder at the start is replaced, and the scan goes on after it. */
  lemma ReplaceAtStart(post: string, rep: string)
    ensures ReplaceAll(Placeholder + post, Placeholder, rep) == rep + ReplaceAll(post, Placeholder, rep)
  {
    var t := Placeholder + post;
    assert t[..|Placeholder|] == Placeholder;
    assert t[|Placeholder|..] == post;
  }

  /** Text cut at its placeholders is put back together with `rep` in
      every place a placeholder stood. */
  lemma {:induction false} FillAll(pieces: seq<string>, rep: string)
    requires forall p <- pieces :: NoPlaceholder(p)
    ensures ReplaceAll(Join(pieces, Placeholder), Placeholder, rep) == Join(pieces, rep)
    decreases |pieces|
  {
    if |pieces| == 1 {
      assert pieces[0] in pieces;
      ReplaceAllAbsent(pieces[0], Placeholder, rep);
    } else if |pieces| > 1 {
      var p, rest := pieces[0], Join(pieces[1..], Placeholder);
      assert p in pieces;
      assert forall q <- pieces[1..] :: q in pieces;
      NoMatchAcross(p, Placeholder + rest);
      ReplaceSkips(p, Placeholder + rest, Placeholder, rep);
      assert Join(pieces, Placeholder) == p + (Placeholder + rest);
      ReplaceAtStart(rest, rep);
      FillAll(pieces[1..], rep);
    }
  }

  /** Every template is its placeholder-free pieces joined by the
      placeholder, as `template.split("[CARD_NAME]")` would cut it. */
  lemma {:induction false} PlaceholderPieces(template: string) returns (pieces: seq<string>)
    ensures |pieces| >= 1
    ensures Join(pieces, Placeholder) == template
    ensures forall p <- pieces :: NoPlaceholder(p)
    decreases |template|
  {
    match Find(template, Placeholder)
    case None =>
      pieces := [template];
    case Some(j) =>
      var pre, post := template[..j], template[j + |Placeholder|..];
      forall i: nat ensures !OccursAt(pre, Placeholder, i) {
        if i + |Placeholder| <= |pre| {
          assert !OccursAt(template, Placeholder, i);
          assert pre[i..i + |Placeholder|] == template[i..i + |Placeholder|];
        }
      }
      var rest := PlaceholderPieces(post);
      pieces := [pre] + rest;
      assert pieces[1..] == rest;
      assert template == pre + Placeholder + post;
  }

  /** `get_card_page` puts the normalised name in place of every
      "[CARD_NAME]" of the template, and changes nothing else. */
  lemma PlaceholderFilled(template: string, cardName: string) returns (pieces: seq<string>)
    ensures Join(pieces, Placeholder) == template
    ensures forall p <- pieces :: NoPlaceholder(p)
    ensures CardPage(template, cardName) == HtmlBody(Join(pieces, Normalize(cardName)))
  {
    pieces := PlaceholderPieces(template);
    FillAll(pieces, Normalize(cardName));
  }

  // ---------------------------------------------------------------------
  // Static files

  /** `os.path.join(directory, path)` on POSIX, for a directory without a
      trailing '/': an absolute `path` replaces the directory. */
  function PathJoin(directory: string, path: string): string {
    if StartsWith(path, "/") then path else directory + "/" + path
  }

  /** The file `get_static_file` looks for. */
  function StaticPath(path: string): string {
    var p := if path == [] then "index.html" else path;
    if EndsWith(p, ".webp") then PathJoin("images", p) else PathJoin("static", p)
  }

  /** `get_static_file`; `existing` is the set of files that exist. */
  function StaticFile(path: string, existing: set<string>): Response {
    var full := StaticPath(path);
    if full in existing then FileBody(full) else NotFoundBody
  }

  /** A relative path is served from "images" when it names a .webp file
      and from "static" otherwise; the empty path is the index page. */
  lemma StaticRouting(path: string)
    requires !StartsWith(path, "/")
    ensures path == [] ==> StaticPath(path) == "static/index.html"
    ensures path != [] && EndsWith(path, ".webp") ==> StaticPath(path) == "images/" + path
    ensures path != [] && !EndsWith(path, ".webp") ==> StaticPath(path) == "static/" + path
  {
    if path == [] {
      assert "index.html"[0] != '/';
      assert "index.html"[5..] != ".webp";
    }
  }

  /** An absolute path is looked up as it is, outside both directories. */
  lemma AbsolutePathKept(path: string)
    requires StartsWith(path, "/")
    ensures StaticPath(path) == path
  {
  }

  /** A missing file is answered with 404, an existing one is served. */
  lemma StaticFileFound(path: string, existing: set<string>)
    ensures StaticFile(path, existing) == NotFoundBody <==> StaticPath(path) !in existing
    ensures StaticFile(path, existing) != NotFoundBody ==> StaticFile(path, existing) == FileBody(StaticPath(path))
  {
  }
}
