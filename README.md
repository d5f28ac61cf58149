# local-scryfall: a Dafny model of its card search

local-scryfall is a local copy of the Scryfall card search for Magic: The
Gathering. A preparation script turns Scryfall's bulk card dump into one
flat record per card. An image script downloads each card's picture. A
small web server answers searches written in Scryfall's query syntax,
looks cards up by name, serves the card page and serves static files.

This project models, and proves properties of:

- **The query engine** (`QueryEngine`, `QueryParser`, `FilterPrinter`).
  - A filter tree and its evaluation against a card record.
  - `query_to_filter`: the quote-masking pre-pass, tokenisation, operator
    detection, key shorthands, value unquoting and integer conversion,
    negation, `and`/`or` tokens and the final assembly.
  - `print_filters`, returning the text instead of printing it.
- **The file-name sanitisers.**
  - `card_name_to_file_name` (`FileNames`, helped by `Hyphens`), which gives
    the records' `safe_name` and `file_name`.
  - The different `card_name_to_filename` of the image extractor
    (`ExtractNames`).
- **The per-card record** of the preparation script (`CardRecords`, over the
  JSON values of `JsonData`).
- **The download decision** for one card (`ImageDownload`).
- **The server's handlers** (`Server`): search, random card, lookup by name,
  card page and static-file routing.

Python behaviour is written out where it matters:

- `str.replace` replaces non-overlapping matches from the left.
- `in` on a parenthesised single string is a substring test, not a tuple
  membership test.
- Dicts keep insertion order.
- `os.path.join` keeps an absolute second argument.
- JSON values have Python truthiness.
- Exceptions become `Err`, `Failed` or `ServerError` values.

Loops in the source are methods. So are the statement blocks of the token
loop's body. Each method is proved equal to a function, and the lemmas are
stated about that function:

- the loops `MaskQuotes`, `ScanOperators` (called by `DetectOperator`),
  `ScanShortHands` (called by `ResolveShorthand`) and `QueryToFilter` in
  `QueryParser`;
- the body of the token loop in `QueryParser`:
  - `ProcessToken`, one pass;
  - `AddComparison` and `AddWord`, its two branches;
  - `BuildComparison`, `ConvertValue` and `Unquote`, its statement blocks;
- `FormatFilter` in `FilterPrinter`;
- `CardNameToFileName`, `CardNameToFilename` and `PrepareData`;
- `GetCardByName` in `Server`.

### Where the docstrings and the code disagree

The model follows the code.

- Example 1 of `query_to_filter` (scryfall_syntax_parser.py:171-186)
  promises an AND that holds an OR. The code puts every filter after the
  `OR` into the OR. See `QueryParser.ConnectiveGroupsRest`.
- Example 4 (scryfall_syntax_parser.py:215-235) promises two NOT nodes. The
  second comparison goes into the first NOT, so checking that NOT always
  raises. See `QueryParser.NegationSwallowsRest`.
- Example 5 (scryfall_syntax_parser.py:237-246) promises EQUALS and
  "Lightning Bolt". In the code, ':' gives CONTAINS, and the quoted blank
  stays masked as '#'. See `QueryParser.QuotedBlanksMasked` and
  `QueryParser.ColonToken`.

## Model

| member | source | states |
|---|---|---|
| QueryEngine.CheckLeaf | scryfall_syntax_parser.py:45-84 | A missing key is false. str/str: EQUALS is equality and CONTAINS is a case-insensitive substring test. list/str: EQUALS is membership and CONTAINS holds iff some element contains the value case-insensitively. int/int: the five comparisons are numeric. Any other operator for that pair is its ValueError. Any other pair of types is false. |
| QueryEngine.AnyContains | scryfall_syntax_parser.py:65 | `any(...)` over a list is true iff some lowercased element contains the text |
| QueryEngine.CheckAllMeaning | scryfall_syntax_parser.py:111-117 | AND is true iff every child is true. Otherwise the result is the first child, from the left, that is not true. |
| QueryEngine.CheckAnyMeaning | scryfall_syntax_parser.py:120-126 | OR is false iff every child is false. Otherwise the result is the first child, from the left, that is not false. |
| QueryEngine.LogicalCheck | scryfall_syntax_parser.py:106-134 | An empty logical filter is true. A NOT with other than one child raises. A NOT with one child negates it. AND and OR are all-of and any-of. |
| QueryEngine.ApplyFiltersMeaning | scryfall_syntax_parser.py:143-144 | `apply_filters` fails iff some check raises. Otherwise it keeps exactly the items whose check is true, in their order, and each kept item comes from the input. |
| QueryEngine.ApplyFiltersAppend | scryfall_syntax_parser.py:143-144 | Filtering a concatenation gives the concatenation of the filtered parts (order is kept) |
| QueryEngine.ApplyFiltersSingle | scryfall_syntax_parser.py:143-144 | A single item is kept, dropped, or gives its check's error |
| QueryParser.MaskQuotes | scryfall_syntax_parser.py:259-268 | The character loop with its quote toggle computes `Mask(query)` |
| QueryParser.MaskChanges | scryfall_syntax_parser.py:259-268 | The masked query has the query's length. It differs only where a blank inside a quote span became '#'. A '#' is never turned back into a blank. |
| QueryParser.MaskWithoutQuotes | scryfall_syntax_parser.py:259-268 | A query without quote characters is unchanged |
| QueryParser.NoQuoteNoFlag | scryfall_syntax_parser.py:262-263 | Without quote characters the in-quote flag stays off |
| QueryParser.InQuoteAppend | scryfall_syntax_parser.py:262-263 | Characters other than quotes do not change the flag |
| QueryParser.QuotedBlanksMasked | scryfall_syntax_parser.py:262-266 | In `a'b'c`, with no quotes in a or b, exactly the blanks of b become '#' |
| Text.Split | scryfall_syntax_parser.py:270 | `split()` gives nonempty words without whitespace |
| Text.SplitConcat | scryfall_syntax_parser.py:270 | The words of `split()` concatenate to the input with all whitespace removed |
| Text.SplitWord | scryfall_syntax_parser.py:270 | A word followed by whitespace or by nothing is split off whole |
| Text.SplitJoin | scryfall_syntax_parser.py:270 | `split()` gives back the words a single blank joined: it cuts exactly at the maximal runs |
| Text.TrimLeadingSpaces | scryfall_syntax_parser.py:273 | The left half of `strip()` leaves a suffix that does not start with whitespace |
| Text.LeadingSpacesDropped | scryfall_syntax_parser.py:273 | Everything the left half of `strip()` removes is whitespace |
| Text.TrimTrailingSpaces | scryfall_syntax_parser.py:273 | The right half of `strip()` leaves a prefix that does not end with whitespace |
| Text.TrailingSpacesDropped | scryfall_syntax_parser.py:273 | Everything the right half of `strip()` removes is whitespace |
| Text.Find | scryfall_syntax_parser.py:279 | `split(sym, 1)` splits at the first occurrence: there is a match at the result and none before it |
| QueryParser.FirstOperator | scryfall_syntax_parser.py:276-279 | The chosen symbol is the first entry of the table that the token contains. None means no entry is contained. |
| QueryParser.ScanOperators | scryfall_syntax_parser.py:276-279 | The operator loop with its `break`, over any table, finds `FirstOperator(table, part)` |
| QueryParser.DetectOperator | scryfall_syntax_parser.py:275-279 | The loop over `OPERATOR_SYMBOLS` finds `OperatorOf(part)` |
| QueryParser.OperatorOfChain | scryfall_syntax_parser.py:27-35 | The operator is found by testing =, >, <, >=, <=, %= and : in table order |
| QueryParser.CompoundOperatorsNeverChosen | scryfall_syntax_parser.py:27-35 | A token containing '=' is always EQUALS. '>=', '<=' and '%=' are never selected. |
| QueryParser.FirstShortHand | scryfall_syntax_parser.py:282-285 | A key that no entry matches is kept. A rewritten key is the full key of an entry that matches it. |
| QueryParser.FirstShortHandIsFirst | scryfall_syntax_parser.py:282-285 | When entry k matches and no earlier entry does, the key becomes entry k's full key, whatever later entries say (the `break`) |
| QueryParser.ScanShortHands | scryfall_syntax_parser.py:282-285 | The shorthand loop with its `break`, over any table, computes `FirstShortHand(table, key)` |
| QueryParser.ResolveShorthand | scryfall_syntax_parser.py:282-285 | The loop over `KEY_SHORT_HANDS` computes `ResolveKey(key)` |
| QueryParser.ShortHandTableFacts | scryfall_syntax_parser.py:147-164 | Every full key is nonempty, and no alias contains '-' |
| QueryParser.FirstThreeShortHands | scryfall_syntax_parser.py:147-150 | "type_line" has the tuple ("t", "type"). "name" and "cmc" have the plain strings "n" and "cost". |
| QueryParser.ShortHandInCost | scryfall_syntax_parser.py:150 | Every one-letter key found in "cost" except 't' ("c", "o", "s") resolves to "cmc", because the match is a substring test |
| QueryParser.ShortHandFirstEntries | scryfall_syntax_parser.py:282-285 | "t" resolves to "type_line", and the empty key resolves to "name" |
| QueryParser.ResolveKeyNonEmpty | scryfall_syntax_parser.py:282-285 | A resolved key is never empty |
| QueryParser.HyphenatedKeyNotResolved | scryfall_syntax_parser.py:282-285 | A key containing '-' is never rewritten |
| QueryParser.Unquote | scryfall_syntax_parser.py:288-291 | The two quote tests compute `Unquoted(value)`, whose meaning is stated by `QuotedValue` and `UnquotedUnchanged` |
| QueryParser.QuotedValue | scryfall_syntax_parser.py:288-291 | Unquoting undoes quoting with ' or with ". A lone quote character becomes the empty string. |
| QueryParser.UnquotedUnchanged | scryfall_syntax_parser.py:288-291 | A value is left as it is iff it does not start and end with the same quote character |
| QueryParser.ConvertValue | scryfall_syntax_parser.py:288-293 | A comparison's value is unquoted text when quoted, the integer when all digits, and the text otherwise: `OperandOf(value)` |
| QueryParser.BuildComparison | scryfall_syntax_parser.py:279-297 | Splitting, stripping, resolving, converting and negating one token computes `ComparisonFilter` |
| QueryParser.AddComparison | scryfall_syntax_parser.py:279-307 | The operator branch puts the comparison into a trailing logical filter, or appends it: `Attach` |
| QueryParser.AddWord | scryfall_syntax_parser.py:310-330 | The no-operator branch: `and`/`or` re-label a trailing logical filter, wrap any other last filter, and do nothing to an empty list. Any other word appends a name search. |
| QueryParser.ProcessToken | scryfall_syntax_parser.py:272-330 | One pass of the token loop computes `Step` on the classified stripped token |
| QueryParser.QueryToFilter | scryfall_syntax_parser.py:259-339 | `query_to_filter` computes `Parse(query)` |
| QueryParser.ClassifyValid | scryfall_syntax_parser.py:295-330 | Every token is a leaf comparison, a NOT over one leaf, a name search or a connective |
| QueryParser.ClassifiedValid | scryfall_syntax_parser.py:272-330 | Every classified token of a query is valid |
| QueryParser.RunEmpty | scryfall_syntax_parser.py:319-327 | The token loop leaves the list empty iff it started empty and every token was `and`/`or` |
| QueryParser.ParseFails | scryfall_syntax_parser.py:332-333 | Parsing fails iff every token is `and`/`or`, and the error is "No valid filters found in query" |
| QueryParser.ParseTopLevel | scryfall_syntax_parser.py:335-339 | One top-level filter is returned as it is. Several are joined under an AND. |
| QueryParser.StepLeaves | scryfall_syntax_parser.py:295-330 | A comparison or name token adds exactly one leaf. A connective adds none. |
| QueryParser.RunLeaves | scryfall_syntax_parser.py:272-330 | The loop adds one leaf per comparison or name token |
| QueryParser.ParseLeaves | scryfall_syntax_parser.py:259-339 | A parsed tree has exactly one leaf per non-connective token: no filter is lost or duplicated |
| QueryParser.StepWellFormed | scryfall_syntax_parser.py:295-327 | Each token keeps every top-level filter well formed (no empty logical filter) |
| QueryParser.RunWellFormed | scryfall_syntax_parser.py:272-330 | The token loop keeps every top-level filter well formed |
| QueryParser.AssembleWellFormed | scryfall_syntax_parser.py:335-339 | Assembling well-formed filters gives a well-formed tree |
| QueryParser.ParseWellFormed | scryfall_syntax_parser.py:259-339 | Every parsed tree is well formed |
| QueryParser.RunAbsorbs | scryfall_syntax_parser.py:298-307 | Once the last top-level filter is logical, later comparisons go into it in order. The list does not grow and that filter's operator is kept. |
| QueryParser.NegationSwallowsRest | scryfall_syntax_parser.py:295-301 | A negated comparison followed by comparisons parses to one NOT holding all of them, and checking it always raises "NOT operator requires exactly one filter" |
| QueryParser.ConnectiveGroupsRest | scryfall_syntax_parser.py:319-327 | "x OR y z" is one OR over x, y and z |
| QueryParser.ConnectiveDropsNegation | scryfall_syntax_parser.py:321-325 | An `and`/`or` after a negated comparison overwrites the NOT, so the negation is lost |
| QueryParser.LeadingConnectivesIgnored | scryfall_syntax_parser.py:321 | An `and`/`or` before any filter has no effect |
| QueryParser.ColonToken | scryfall_syntax_parser.py:276-279 | A `key:value` token without other operator characters takes ':' (CONTAINS) and splits at that ':' |
| QueryParser.ClassifyComparison | scryfall_syntax_parser.py:276-308 | A token containing an operator is a comparison built by splitting at that operator |
| QueryParser.DigitsOperand | scryfall_syntax_parser.py:292-293 | A value of ASCII digits becomes its integer |
| QueryParser.ColonDigitsSplit | scryfall_syntax_parser.py:279-303 | `key:digits` splits into the resolved key and the digits' integer, with CONTAINS |
| QueryParser.ColonDigitsFilter | scryfall_syntax_parser.py:272-307 | `key:digits`, such as `cmc:4`, is a CONTAINS leaf on an integer |
| QueryParser.ColonNumberRaises | scryfall_syntax_parser.py:69-82 | `key:digits` on an integer field raises "Unsupported operator for numeric comparison" at check time |
| QueryParser.NegatedKeySplit | scryfall_syntax_parser.py:295-297 | Splitting `-key:value` gives a NOT over the key without its '-', which is not resolved |
| QueryParser.NegatedKeyToken | scryfall_syntax_parser.py:282-297 | A `-key:value` token is a NOT over a CONTAINS leaf on the unresolved key |
| QueryParser.NegatedShorthandKept | scryfall_syntax_parser.py:282-297 | "-t:x" tests key "t", not "type_line" |
| QueryParser.NegatedShorthandMatchesAll | scryfall_syntax_parser.py:46-47 | On a record without key "t", the NOT of "t:x" holds |
| FilterPrinter.FormatFilter | scryfall_syntax_parser.py:356-374 | The recursive printer with its loop over the children computes `Format(e)` |
| FilterPrinter.FormatFails | scryfall_syntax_parser.py:361-362 | Printing fails iff it reaches a NOT without children (its IndexError) |
| FilterPrinter.FormatPartsFails | scryfall_syntax_parser.py:366-373 | An AND or OR list fails iff some child does. Otherwise it has one part per child. |
| FilterPrinter.WellFormedPrints | scryfall_syntax_parser.py:356-374 | A well-formed tree always prints |
| FilterPrinter.ParsedQueryPrints | scryfall_syntax_parser.py:352-375 | Every tree `query_to_filter` returns can be printed |
| FilterPrinter.NotPrintsFirstOnly | scryfall_syntax_parser.py:361-365 | A NOT prints as '¬' and its first child only |
| FilterPrinter.FormatBalanced | scryfall_syntax_parser.py:363-371 | When keys and values hold no parentheses, the printed text's parentheses balance |
| FilterPrinter.PartsBalanced | scryfall_syntax_parser.py:368-372 | Every part of an AND or OR list is balanced |
| FilterPrinter.WrappedBalance | scryfall_syntax_parser.py:364 | Parenthesising keeps the balance |
| Text.IntToString | scryfall_syntax_parser.py:359 | An integer prints as digits and a sign |
| Text.NatToStringRoundTrip | scryfall_syntax_parser.py:292-293 | Reading back a printed natural number gives the number |
| FileNames.CardNameToFileName | prepare_data.py:8-19 | The rewriting loops compute `FileName(name)`, which every property below is stated about |
| FileNames.KeepFileNameChars | prepare_data.py:11 | Only ASCII letters, digits, '-' and '_' are kept |
| Text.ReplaceCharAt | prepare_data.py:9 | Replacing one character by another changes exactly those positions |
| Hyphens.DoubleHyphenIff | prepare_data.py:13 | `"--" in s` holds iff s has two adjacent hyphens |
| Hyphens.HalveShrinks | prepare_data.py:13-14 | One `replace("--", "-")` never lengthens the string and shortens one that contains "--", so the loop ends |
| Hyphens.HalvePreservesCollapse | prepare_data.py:13-14 | One `replace("--", "-")` does not change the string's collapse, so the loop ends at the collapse |
| Hyphens.CollapseFixpoint | prepare_data.py:13-14 | A string without "--" is its own collapse |
| Hyphens.CollapseHasNoDoubleHyphen | prepare_data.py:13-14 | A collapse never contains "--" |
| Hyphens.CollapseChars | prepare_data.py:13-14 | Collapsing only removes hyphens and keeps the first character |
| Hyphens.DropHyphensCollapse | prepare_data.py:13-14 | Collapsing changes nothing but hyphens |
| Hyphens.TrimLeadingFacts | prepare_data.py:15-16 | The leading-hyphen loop removes exactly the leading hyphens |
| Hyphens.TrimTrailingFacts | prepare_data.py:17-18 | The trailing-hyphen loop removes exactly the trailing hyphens |
| Hyphens.TrimLeadingKeepsText | prepare_data.py:15-16 | Trimming leading hyphens changes nothing but hyphens |
| Hyphens.TrimTrailingKeepsText | prepare_data.py:17-18 | Trimming trailing hyphens changes nothing but hyphens |
| Hyphens.DropHyphensLower | prepare_data.py:19 | Lowercasing and removing hyphens commute |
| FileNames.TrimmedPiece | prepare_data.py:15-19 | The trimmed name is a slice that neither starts nor ends with '-' |
| FileNames.FileNameCharset | prepare_data.py:9-19 | The output holds only lowercase ASCII letters, digits, '-' and '_' |
| FileNames.FileNameHyphens | prepare_data.py:13-19 | The output never contains "--" and never starts or ends with '-' |
| FileNames.DroppedHyphensAreWordChars | prepare_data.py:9-11 | Without its hyphens, the filtered name is the name's [A-Za-z0-9_] characters in order |
| FileNames.FileNameKeepsText | prepare_data.py:9-19 | Removing all '-' from the output gives the input's [A-Za-z0-9_] characters, lowercased, in order |
| FileNames.FileNameIdempotent | prepare_data.py:8-19 | Applying the sanitiser to its own output changes nothing |
| ExtractNames.CardNameToFilename | extract_images.py:18-28 | The replace loop, the collapse loop and the two trims compute `ImageFileName(name)` |
| ExtractNames.MaskOneMore | extract_images.py:20-21 | Each pass of the `not_allowed` loop replaces one more character by '-' |
| ExtractNames.ImageFileNameExtension | extract_images.py:28 | The result ends with ".webp", after the stem |
| ExtractNames.StemHasNoForbiddenChar | extract_images.py:16-21 | The stem contains no character of `not_allowed` |
| ExtractNames.StemHasNoDoubleHyphen | extract_images.py:22-23 | The stem contains no "--" |
| ExtractNames.StemIsPrefix | extract_images.py:22-27 | The stem is the collapsed name with at most two characters cut off its end |
| ExtractNames.TrimsOnlyOnce | extract_images.py:24-27 | Only one trailing '-' and then one trailing '.' are cut: "a-." gives "a-", and "a--" gives "a" |
| ExtractNames.StemKeepsLeadingHyphen | extract_images.py:18-27 | A leading '-' (or a leading forbidden character) stays a leading '-' |
| ExtractNames.StemNotLonger | extract_images.py:18-27 | The stem is never longer than the name |
| ExtractNames.StemKeepsText | extract_images.py:18-27 | Apart from hyphens, the stem is the name with forbidden characters removed and letter case kept, except for a '.' cut off the end |
| JsonData.Lookup | prepare_data.py:48-49 | `get` finds a value iff the key is present, and returns a value stored under it |
| JsonData.ToValue | scryfall_syntax_parser.py:51-69 | Strings, integers and lists of strings reach `check` as themselves, with their elements |
| CardRecords.Required | prepare_data.py:30 | `card[key]` succeeds iff the key is there with a string, and gives that string. A missing key is a KeyError. |
| CardRecords.BeforeFirstHyphen | prepare_data.py:34 | `split("-")[0]` is the prefix up to, not including, the first '-' |
| CardRecords.DateYearText | prepare_data.py:34 | The year text of "digits-rest" is the digits |
| CardRecords.YearOfDate | prepare_data.py:34 | A release date "YYYY-..." gives the year YYYY |
| CardRecords.PrepareData | prepare_data.py:26-51 | The main loop computes `Records(cards)` |
| CardRecords.RecordsMeaning | prepare_data.py:26-51 | The dump converts iff every card does. The output has one record per card, in order. A failure is the first failing card's. |
| CardRecords.MapRecordsMeaning | prepare_data.py:28-51 | The same, for any per-card function |
| CardRecords.RecordExists | prepare_data.py:29-51 | A card gives a record iff name, type_line and released_at are strings, the year text is digits, and "prices" and "legalities" are objects when present |
| CardRecords.RecordNames | prepare_data.py:31-32 | `safe_name` is f(name), and `file_name` is f(name + "-" + type_line) + ".webp" |
| CardRecords.SafeNameClean | prepare_data.py:31 | `safe_name` holds only safe characters, has no "--" and is a fixpoint of the sanitiser |
| CardRecords.ImageNameClean | prepare_data.py:32 | `file_name` ends with ".webp", and its stem is a fixpoint of the sanitiser |
| CardRecords.OptionalFields | prepare_data.py:35-47 | `mana_cost`, `cmc`, `oracle_text`, `colors`, `keywords` and `edhrec_rank` copy the card's value, or take their defaults ("", 0, "", [], [], 0) when the key is missing |
| CardRecords.MoreOptionalFields | prepare_data.py:39-46 | `power`, `toughness`, `loyalty`, `set` and `rarity` copy the card's value or default to "". `color_identity` copies it or defaults to []. |
| CardRecords.PricesCopied | prepare_data.py:48-49 | With a "prices" object, each price is its entry for "eur" or "usd", or 0 when that currency is missing |
| CardRecords.TypeLineCopied | prepare_data.py:37 | `type_line` is the card's type line |
| CardRecords.NestedDefaults | prepare_data.py:48-50 | Missing "prices" gives price 0. Missing "legalities" gives no formats. Present legalities give their legal formats. |
| CardRecords.LegalFormatsMembers | prepare_data.py:50 | A format is listed iff its legality is "legal" |
| CardRecords.LegalFormatsAppend | prepare_data.py:50 | The formats keep the legalities' order |
| ImageDownload.FirstFaceFallback | download_images.py:36-39 | Without `image_uris`, the first card face's normal URL is used |
| ImageDownload.NoFacesSkipped | download_images.py:36-45 | Without `image_uris` and without card faces, the URL is "" and the card is skipped |
| ImageDownload.SkipNoImageIff | download_images.py:41-45 | A card is skipped for want of an image iff its normal URL is missing or empty |
| ImageDownload.DownloadTargets | download_images.py:47-58 | A download uses a nonempty URL and a path that does not exist yet. A card is skipped as existing iff its path exists. |
| ImageDownload.DecidePath | download_images.py:47-50 | A download, or a skip for an existing file, happens only when name and type_line are strings, and at their target path |
| ImageDownload.TargetIsRecordFile | download_images.py:48-50 | The target path is "./images/" + the record's `file_name` |
| Server.SearchMeaning | server.py:37-47 | The search fails iff parsing or some check raises. "No cards found" is returned iff every card is false. Otherwise the answer is exactly `apply_filters`, nonempty. |
| Server.UnparsableQuery | server.py:46-47 | A query that does not parse gives "Failed to process query" with the parser's error |
| Server.RandomCard | server.py:49-55 | "No cards available" is returned iff there are no cards. Otherwise the answer is one of the cards. |
| Server.KeepNameChars | server.py:60 | Only ASCII letters, digits and whitespace are kept |
| Server.NormalizeShape | server.py:60 | A normalised name holds only lowercase letters, digits and whitespace, and does not start or end with whitespace |
| Server.NormalizeIdempotent | server.py:60 | Normalising twice is normalising once |
| Server.GetCardByName | server.py:57-64 | The scan loop computes `FindByName(cards, Normalize(cardName))` |
| Server.FindByNameMeaning | server.py:61-64 | "Card not found" is returned iff no card's lowercased name equals the wanted name. A found card is the first that matches. |
| Server.PunctuatedNameNeverFound | server.py:60-63 | A card found by name has a name without punctuation |
| Server.ReplaceSkips | server.py:74 | `replace` copies text in which no match starts and goes on after it |
| Server.NoMatchAcross | server.py:74 | No match starts inside placeholder-free text followed by a placeholder or by nothing |
| Server.NoPlaceholderUnchanged | server.py:72-74 | A template without "[CARD_NAME]" is served unchanged |
| Server.ReplaceAtStart | server.py:74 | A placeholder at the start is replaced, and the scan goes on after it |
| Server.FillAll | server.py:74 | Text cut at its placeholders gets the replacement in every place a placeholder stood |
| Server.PlaceholderPieces | server.py:74 | Every template is its placeholder-free pieces joined by "[CARD_NAME]" |
| Server.PlaceholderFilled | server.py:72-74 | Every "[CARD_NAME]" of the template becomes the normalised name, and nothing else changes |
| Server.StaticRouting | server.py:86-91 | An empty path is "static/index.html". A ".webp" path is under "images/". Any other relative path is under "static/". |
| Server.AbsolutePathKept | server.py:88-91 | An absolute path is served as it is, through `os.path.join` |
| Server.StaticFileFound | server.py:93-95 | 404 is returned iff the joined path does not exist. Otherwise that file is served. |

## Left out

- Console output. `printd` and the debug flag have no effect on results. `print_filters` is `Format`, which returns the text.
- `LogicalFilter.__str__` and `Filter.__str__` are left out. They only appear in log messages.
- The "Unsupported logical operator" branch (scryfall_syntax_parser.py:133-134) is left out, because no value reaches it.
- `LogicalFilter.add_filter` and the operator overwrite change the last filter of the list in place. The model replaces that element with a new value. Nothing else holds a reference to it, so no result differs.
- QueryEngine.CheckLeaf: does not model floats. Numbers are integers, so `cmc` and prices compare as integers.
- JsonData.ToValue: a JSON object, a list holding a non-string, and a float are not modelled as values. The first two become `Null`, which matches no comparison, as a dict does. A float is out of scope.
- CardRecords.Price: does not model the 0.0 float default. The missing price is `Int(0)`.
- CardRecords.Year: accepts only ASCII digits. Python's `int()` also accepts a sign, surrounding whitespace, underscores and non-ASCII digits.
- Text.Lower: `lower()`, `isdigit()`, `\s` and `split()` are ASCII only. Whitespace also covers \x1c-\x1f, as in Python.
- JSON objects are lists of fields with distinct keys, as `json.load` returns them. Duplicate keys are not modelled.
- ImageDownload.Decide: does not model the in-place update of the card's `image_uris`. It returns the decision only.
- ImageDownload.Decide: any exception collapses into `Failed`. The message is not modelled.
- The worker threads, the queue, the progress bar, `requests` and PIL (download_images.py) are left out as I/O and concurrency. So are sqlite, base64, PIL and the thread pool (extract_images.py).
- The join of "images" with the extracted file name is not modelled.
- `card_name_to_file_name` in download_images.py:13-24 has the same body as the one in prepare_data.py. `FileNames` models both, so they agree on every input.
- Reading and writing the JSON files is not modelled. `PrepareData` takes the parsed dump and returns the records.
- Server.RandomCard: `random.choice` is the `pick` parameter.
- Server.StaticFile: file existence is a set of paths. `FileResponse` is a path.
- Server.CardPage: the template's contents are a parameter.
- The `/random` route (server.py:78-80) always answers with "static/random.html", so there is nothing to model.
- FastAPI's routing and the port option of `__main__` are left out.
- The draft pages and static/draft.js are client code. update_db.py and scryfall_bulk_importer.py download and load files. These are not part of this model.
