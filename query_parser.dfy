/** `query_to_filter`: the card-search query string turned into a filter
    tree. A quote-aware pre-pass masks quoted blanks, the result is split on
    whitespace, and every token either becomes a comparison filter (it holds
    an operator symbol), an `and`/`or` connective, or a name search. */
module QueryParser {
  import opened Wrappers
  import opened Text
  import opened QueryEngine

  // ---------------------------------------------------------------------
  // The quote pre-pass

  predicate IsQuote(c: char) { c == '\'' || c == '"' }

  /** Whether the pre-pass is inside a quote after reading `p`: every ' and
      every " flips the same flag. */
  function InQuote(p: string): bool
    decreases |p|
  {
    if p == [] then false
    else if IsQuote(p[|p| - 1]) then !InQuote(p[..|p| - 1])
    else InQuote(p[..|p| - 1])
  }

  /** The pre-pass output: a blank read while inside a quote (the flag is
      flipped before the test) becomes '#'; every other character is kept. */
  function Mask(query: string): string {
    seq(|query|, i requires 0 <= i < |query| =>
      if query[i] == ' ' && InQuote(query[..i + 1]) then '#' else query[i])
  }

  /** The character loop of the pre-pass. */
  method MaskQuotes(query: string) returns (newQuery: string)
    ensures newQuery == Mask(query)
  {
    var isInQuote := false;
    newQuery := "";
    for i := 0 to |query|
      invariant isInQuote == InQuote(query[..i])
      invariant newQuery == Mask(query)[..i]
    {
      var c := query[i];
      assert query[..i + 1][..i] == query[..i];
      if c == '\'' || c == '"' {
        isInQuote := !isInQuote;
      }
      if c == ' ' && isInQuote {
        newQuery := newQuery + "#";
      } else {
        newQuery := newQuery + [c];
      }
      assert Mask(query)[..i + 1] == Mask(query)[..i] + [Mask(query)[i]];
    }
    assert Mask(query)[..|query|] == Mask(query);
  }

  /** The pre-pass keeps the length and changes blanks into '#' only; a
      '#' of the query stays a '#', so no blank is ever added. */
  lemma MaskChanges(query: string)
    ensures |Mask(query)| == |query|
    ensures forall i :: 0 <= i < |query| ==>
      Mask(query)[i] == query[i] || (query[i] == ' ' && Mask(query)[i] == '#')
    ensures forall i :: 0 <= i < |query| ==> (Mask(query)[i] == ' ' ==> query[i] == ' ')
    ensures forall i :: 0 <= i < |query| ==> (query[i] == '#' ==> Mask(query)[i] == '#')
  {
  }

  /** Without quote characters the flag never rises. */
  lemma {:induction false} NoQuoteNoFlag(p: string)
    requires forall c <- p :: !IsQuote(c)
    ensures !InQuote(p)
    decreases |p|
  {
    if p != [] {
      assert forall c <- p[..|p| - 1] :: c in p;
      NoQuoteNoFlag(p[..|p| - 1]);
    }
  }

  /** A query without quote characters passes the pre-pass unchanged. */
  lemma MaskWithoutQuotes(query: string)
    requires forall c <- query :: !IsQuote(c)
    ensures Mask(query) == query
  {
    forall i | 0 <= i < |query| ensures Mask(query)[i] == query[i] {
      assert forall c <- query[..i + 1] :: c in query;
      NoQuoteNoFlag(query[..i + 1]);
    }
  }

  /** The tokens of a query: the pre-pass output split on whitespace. */
  function Tokens(query: string): seq<string> {
    Split(Mask(query))
  }

  // ---------------------------------------------------------------------
  // Operator detection

  /** `OPERATOR_SYMBOLS` in dictionary order; ':' is a second spelling of
      CONTAINS. */
  const OperatorSymbols: seq<(string, Operator)> := [
    ("=", Equals), (">", GreaterThan), ("<", LessThan), (">=", GreaterOrEqual),
    ("<=", LessOrEqual), ("%=", Contains), (":", Contains)]

  /** The first entry of `table` whose symbol occurs in `part`. */
  function FirstOperator(table: seq<(string, Operator)>, part: string): (r: Option<(string, Operator)>)
    ensures r.Some? ==> HasSubstring(part, r.value.0)
    ensures r.None? <==> forall k :: 0 <= k < |table| ==> !HasSubstring(part, table[k].0)
    ensures r.Some? ==>
      exists k :: 0 <= k < |table| && table[k] == r.value && forall j :: 0 <= j < k ==> !HasSubstring(part, table[j].0)
  {
    if table == [] then None
    else if HasSubstring(part, table[0].0) then Some(table[0])
    else
      var r := FirstOperator(table[1..], part);
      assert forall k :: 1 <= k < |table| ==> table[k] == table[1..][k - 1];
      if r.Some? then
        assert exists k :: 0 <= k < |table| && table[k] == r.value && forall j :: 0 <= j < k ==> !HasSubstring(part, table[j].0) by {
          var k :| 0 <= k < |table[1..]| && table[1..][k] == r.value &&
            forall j :: 0 <= j < k ==> !HasSubstring(part, table[1..][j].0);
          assert table[k + 1] == r.value;
          forall j | 0 <= j < k + 1 ensures !HasSubstring(part, table[j].0) {
            if j > 0 {
              assert table[j] == table[1..][j - 1];
            }
          }
        }
        r
      else r
  }

  /** The operator the token loop settles on, with the symbol it splits at. */
  function OperatorOf(part: string): Option<(string, Operator)> {
    FirstOperator(OperatorSymbols, part)
  }

  /** The inner `for op_symbol, op in ...items()` loop with its `break`,
      over any table of symbols. */
  method ScanOperators(table: seq<(string, Operator)>, part: string) returns (found: Option<(string, Operator)>)
    ensures found == FirstOperator(table, part)
  {
    found := None;
    var k := 0;
    while k < |table|
      invariant 0 <= k <= |table|
      invariant FirstOperator(table, part) == FirstOperator(table[k..], part)
    {
      if HasSubstring(part, table[k].0) {
        found := Some(table[k]);
        return;
      }
      assert table[k..][1..] == table[k + 1..];
      k := k + 1;
    }
  }

  /** The inner loop over `OPERATOR_SYMBOLS`. */
  method DetectOperator(part: string) returns (found: Option<(string, Operator)>)
    ensures found == OperatorOf(part)
  {
    found := ScanOperators(OperatorSymbols, part);
  }

  /** Every character of a substring is a character of the string. */
  lemma SubstringChars(s: string, sub: string)
    ensures HasSubstring(s, sub) ==> forall c <- sub :: c in s
  {
    if HasSubstring(s, sub) {
      var j := Find(s, sub).value;
      forall c <- sub ensures c in s {
        var i :| 0 <= i < |sub| && sub[i] == c;
        assert s[j..j + |sub|][i] == s[j + i];
      }
    }
  }

  /** Any token holding '=' becomes EQUALS, and the two-character symbols
      ">=", "<=" and "%=" are never chosen: a token holding one of them also
      holds '>', '<' or '=', which come first in the table. */
  lemma {:induction false} CompoundOperatorsNeverChosen(part: string)
    ensures HasSubstring(part, "=") ==> OperatorOf(part) == Some(("=", Equals))
    ensures OperatorOf(part).Some? ==>
      OperatorOf(part).value.0 != ">=" && OperatorOf(part).value.0 != "<=" && OperatorOf(part).value.0 != "%="
    ensures OperatorOf(part).Some? ==>
      OperatorOf(part).value.1 != GreaterOrEqual && OperatorOf(part).value.1 != LessOrEqual
  {
    OperatorOfChain(part);
    SubstringChars(part, ">=");
    SubstringChars(part, "<=");
    SubstringChars(part, "%=");
    assert '=' in ">=" && '=' in "<=" && '=' in "%=";
    HasCharIff(part, '=');
  }

  /** The operator table read as a chain of tests, in table order. */
  lemma OperatorOfChain(part: string)
    ensures OperatorOf(part) ==
      if HasSubstring(part, "=") then Some(("=", Equals))
      else if HasSubstring(part, ">") then Some((">", GreaterThan))
      else if HasSubstring(part, "<") then Some(("<", LessThan))
      else if HasSubstring(part, ">=") then Some((">=", GreaterOrEqual))
      else if HasSubstring(part, "<=") then Some(("<=", LessOrEqual))
      else if HasSubstring(part, "%=") then Some(("%=", Contains))
      else if HasSubstring(part, ":") then Some((":", Contains))
      else None
  {
    var t := OperatorSymbols;
    assert t[0] == ("=", Equals);
    assert t[1..][0] == (">", GreaterThan);
    assert t[2..][0] == ("<", LessThan);
    assert t[3..][0] == (">=", GreaterOrEqual);
    assert t[4..][0] == ("<=", LessOrEqual);
    assert t[5..][0] == ("%=", Contains);
    assert t[6..][0] == (":", Contains);
    assert t[1..][1..] == t[2..] && t[2..][1..] == t[3..] && t[3..][1..] == t[4..];
    assert t[4..][1..] == t[5..] && t[5..][1..] == t[6..] && t[6..][1..] == [];
    assert FirstOperator(t, part) == if HasSubstring(part, "=") then Some(t[0]) else FirstOperator(t[1..], part);
    assert FirstOperator(t[1..], part) == if HasSubstring(part, ">") then Some(t[1..][0]) else FirstOperator(t[2..], part);
    assert FirstOperator(t[2..], part) == if HasSubstring(part, "<") then Some(t[2..][0]) else FirstOperator(t[3..], part);
    assert FirstOperator(t[3..], part) == if HasSubstring(part, ">=") then Some(t[3..][0]) else FirstOperator(t[4..], part);
    assert FirstOperator(t[4..], part) == if HasSubstring(part, "<=") then Some(t[4..][0]) else FirstOperator(t[5..], part);
    assert FirstOperator(t[5..], part) == if HasSubstring(part, "%=") then Some(t[5..][0]) else FirstOperator(t[6..], part);
    assert FirstOperator(t[6..], part) == if HasSubstring(part, ":") then Some(t[6..][0]) else FirstOperator([], part);
  }

  /** A one-character pattern occurs exactly when the character does. */
  lemma HasCharIff(s: string, c: char)
    ensures HasSubstring(s, [c]) <==> c in s
  {
    if c in s {
      var i :| 0 <= i < |s| && s[i] == c;
      assert OccursAt(s, [c], i);
    }
    SubstringChars(s, [c]);
  }

  // ---------------------------------------------------------------------
  // Key short-hands

  /** A `KEY_SHORT_HANDS` value: a tuple is matched by membership, but a
      parenthesised single string such as `("cost")` is a plain string and
      is matched by substring. */
  datatype Aliases = Several(names: seq<string>) | One(text: string)

  /** `key in shorthand_values` */
  predicate Matches(aliases: Aliases, key: string) {
    match aliases
    case Several(names) => key in names
    case One(text) => HasSubstring(text, key)
  }

  /** `KEY_SHORT_HANDS` in dictionary order. */
  const KeyShortHands: seq<(string, Aliases)> := [
    ("type_line", Several(["t", "type"])),
    ("name", One("n")),
    ("cmc", One("cost")),
    ("keywords", One("kw")),
    ("set", One("s")),
    ("rarity", One("r")),
    ("price_euro", Several(["euro", "eur"])),
    ("price_usd", One("usd")),
    ("legal_formats", Several(["f", "format"])),
    ("power", Several(["pow", "p"])),
    ("toughness", Several(["tough", "to"])),
    ("loyalty", Several(["l", "loy"])),
    ("oracle_text", Several(["text", "o"])),
    ("colors", Several(["col", "c"])),
    ("color_identity", Several(["col_id", "ci"])),
    ("released-at", Several(["release", "date"]))]

  /** The key after the first matching entry of `table` rewrote it. */
  function FirstShortHand(table: seq<(string, Aliases)>, key: string): (r: string)
    ensures r == key <== forall k :: 0 <= k < |table| ==> !Matches(table[k].1, key)
    ensures r != key ==> exists k :: 0 <= k < |table| && r == table[k].0 && Matches(table[k].1, key)
  {
    if table == [] then key
    else if Matches(table[0].1, key) then table[0].0
    else
      var r := FirstShortHand(table[1..], key);
      assert forall k :: 1 <= k < |table| ==> table[k] == table[1..][k - 1];
      r
  }

  /** The entry that rewrites the key is the first one that matches: when
      entry `k` matches and none before it does, the key becomes entry
      `k`'s full key, whatever later entries say. */
  lemma {:induction false} FirstShortHandIsFirst(table: seq<(string, Aliases)>, key: string, k: nat)
    requires k < |table| && Matches(table[k].1, key)
    requires forall j :: 0 <= j < k ==> !Matches(table[j].1, key)
    ensures FirstShortHand(table, key) == table[k].0
    decreases k
  {
    if k > 0 {
      assert !Matches(table[0].1, key);
      assert forall j :: 0 <= j < k - 1 ==> table[1..][j] == table[j + 1];
      FirstShortHandIsFirst(table[1..], key, k - 1);
    }
  }

  function ResolveKey(key: string): string {
    FirstShortHand(KeyShortHands, key)
  }

  /** The `for shorthand_key, shorthand_values in ...items()` loop with its
      `break`, over any table of shorthands. */
  method ScanShortHands(table: seq<(string, Aliases)>, key: string) returns (resolved: string)
    ensures resolved == FirstShortHand(table, key)
  {
    resolved := key;
    var k := 0;
    while k < |table|
      invariant 0 <= k <= |table|
      invariant FirstShortHand(table, key) == FirstShortHand(table[k..], key)
    {
      if Matches(table[k].1, key) {
        resolved := table[k].0;
        return;
      }
      assert table[k..][1..] == table[k + 1..];
      k := k + 1;
    }
  }

  /** The shorthand loop over `KEY_SHORT_HANDS`. */
  method ResolveShorthand(key: string) returns (resolved: string)
    ensures resolved == ResolveKey(key)
  {
    resolved := ScanShortHands(KeyShortHands, key);
  }

  /** No alias of `aliases` holds the character `c`. */
  predicate AliasesAvoid(aliases: Aliases, c: char) {
    match aliases
    case Several(names) => forall n <- names :: c !in n
    case One(text) => c !in text
  }

  lemma ShortHandTableFacts()
    ensures forall k :: 0 <= k < |KeyShortHands| ==> KeyShortHands[k].0 != []
    ensures forall k :: 0 <= k < |KeyShortHands| ==> AliasesAvoid(KeyShortHands[k].1, '-')
  {
  }

  /** The empty key is found in the string "n", so `key[0]` never fails. */
  lemma ResolveKeyNonEmpty(key: string)
    ensures ResolveKey(key) != []
  {
    ShortHandTableFacts();
    if key == [] {
      assert !Matches(KeyShortHands[0].1, key);
      assert FirstShortHand(KeyShortHands, key) == FirstShortHand(KeyShortHands[1..], key);
      assert KeyShortHands[1..][0] == ("name", One("n"));
      assert OccursAt("n", key, 0);
    } else if ResolveKey(key) != key {
      var k :| 0 <= k < |KeyShortHands| && ResolveKey(key) == KeyShortHands[k].0 && Matches(KeyShortHands[k].1, key);
    }
  }

  /** The first three entries of the table, by name. */
  lemma FirstThreeShortHands()
    ensures KeyShortHands[0] == ("type_line", Several(["t", "type"]))
    ensures KeyShortHands[1..][0] == ("name", One("n"))
    ensures KeyShortHands[1..][1..][0] == ("cmc", One("cost"))
  {
  }

  /** Substring matching of single-string entries: a one-letter key found in
      "cost" (such as "o" or "s") resolves to "cmc" before the oracle-text
      and set entries are reached. */
  lemma {:induction false} ShortHandInCost(c: char)
    requires c in "cost" && c != 't'
    ensures ResolveKey([c]) == "cmc"
  {
    var t := KeyShortHands;
    FirstThreeShortHands();
    HasCharIff("n", c);
    HasCharIff("cost", c);
    assert !Matches(t[0].1, [c]);
    assert FirstShortHand(t, [c]) == FirstShortHand(t[1..], [c]);
    assert !Matches(t[1..][0].1, [c]);
    assert FirstShortHand(t[1..], [c]) == FirstShortHand(t[1..][1..], [c]);
    assert Matches(t[1..][1..][0].1, [c]);
  }

  /** "t" is caught by the type-line tuple, and the empty key by the
      substring test against "n". */
  lemma ShortHandFirstEntries()
    ensures ResolveKey("t") == "type_line"
    ensures ResolveKey("") == "name"
  {
    var t := KeyShortHands;
    assert t[0] == ("type_line", Several(["t", "type"]));
    assert t[1..][0] == ("name", One("n"));
    assert OccursAt("n", "", 0);
  }

  /** A key holding '-' is never rewritten, since no alias holds one. The
      key is resolved before its leading '-' is removed, so "-t:x" builds a
      filter on the key "t", not on "type_line". */
  lemma {:induction false} HyphenatedKeyNotResolved(key: string)
    requires '-' in key
    ensures ResolveKey(key) == key
  {
    ShortHandTableFacts();
    forall k | 0 <= k < |KeyShortHands| ensures !Matches(KeyShortHands[k].1, key) {
      var a := KeyShortHands[k].1;
      assert AliasesAvoid(a, '-');
      if a.One? {
        SubstringChars(a.text, key);
      }
    }
  }

  // ---------------------------------------------------------------------
  // Values

  /** `value[1:-1]`; a lone quote gives "". */
  function Inner(v: string): string {
    if |v| >= 2 then v[1..|v| - 1] else []
  }

  predicate QuotedWith(v: string, q: char) {
    StartsWith(v, [q]) && EndsWith(v, [q])
  }

  predicate Quoted(v: string) {
    QuotedWith(v, '\'') || QuotedWith(v, '"')
  }

  /** The value after unquoting, with no integer conversion. */
  function Unquoted(v: string): string {
    if Quoted(v) then Inner(v) else v
  }

  /** Unquoting undoes quoting with either quote character, and a lone
      quote character becomes the empty string. */
  lemma QuotedValue(q: char, t: string)
    requires IsQuote(q)
    ensures Unquoted([q] + t + [q]) == t
    ensures Unquoted([q]) == []
  {
    var v := [q] + t + [q];
    assert v[..1] == [q] && v[|v| - 1..] == [q];
    assert v[1..|v| - 1] == t;
  }

  /** A value is left as it is exactly when it does not start and end with
      the same quote character; "'x\"" is such a value. */
  lemma UnquotedUnchanged(v: string)
    ensures Unquoted(v) == v <==> !(v != [] && IsQuote(v[0]) && v[|v| - 1] == v[0])
  {
    if v != [] {
      assert StartsWith(v, [v[0]]) by { assert v[..1] == [v[0]]; }
      assert EndsWith(v, [v[|v| - 1]]) by { assert v[|v| - 1..] == [v[|v| - 1]]; }
    }
  }

  /** The value of a comparison: unquoted text, else a digit string read as
      an integer, else the text as it is. */
  function OperandOf(v: string): Operand {
    if Quoted(v) then TextValue(Inner(v))
    else if IsDigits(v) then IntValue(DigitsValue(v))
    else TextValue(v)
  }

  // ---------------------------------------------------------------------
  // Tokens

  /** What one token contributes. */
  datatype Token =
    | Comparison(f: Expr)        // attached to a trailing logical filter, else appended
    | Connective(lop: LogicalOperator)
    | NameSearch(f: Expr)        // always appended at the top level

  /** The filter a comparison token builds: the split at the symbol's first
      occurrence, key resolution, then the '-' test on the resolved key. */
  function ComparisonFilter(part: string, sym: string, op: Operator): Expr
    requires HasSubstring(part, sym)
  {
    var j := Find(part, sym).value;
    var key := ResolveKey(Strip(part[..j]));
    var value := OperandOf(Strip(part[j + |sym|..]));
    ResolveKeyNonEmpty(Strip(part[..j]));
    if key[0] == '-' then Logical(Not, [Leaf(key[1..], value, op)])
    else Leaf(key, value, op)
  }

  function Classify(part: string): Token {
    match OperatorOf(part)
    case Some((sym, op)) => Comparison(ComparisonFilter(part, sym, op))
    case None => WordToken(Unquoted(Strip(part)))
  }

  /** A part without an operator symbol, after unquoting: `and`/`or` in any
      case is a connective, anything else a name search. */
  function WordToken(value: string): Token {
    if Lower(value) == "and" then Connective(And)
    else if Lower(value) == "or" then Connective(Or)
    else NameSearch(Leaf("name", TextValue(value), Contains))
  }

  /** The shape of every token `Classify` returns: a comparison is one
      filter, alone or under a NOT, and a name search is one filter. */
  predicate ValidToken(t: Token) {
    match t
    case Comparison(f) =>
      f.Leaf? || (f.lop == Not && |f.children| == 1 && f.children[0].Leaf?)
    case Connective(_) => true
    case NameSearch(f) => f.Leaf?
  }

  lemma ClassifyValid(part: string)
    ensures ValidToken(Classify(part))
  {
  }

  /** A comparison filter goes into a trailing logical filter when there is
      one, and to the end of the list otherwise. */
  function Attach(filters: seq<Expr>, f: Expr): seq<Expr> {
    if filters != [] && filters[|filters| - 1].Logical? then
      filters[..|filters| - 1] + [AddFilter(filters[|filters| - 1], f)]
    else filters + [f]
  }

  /** An `and`/`or` token: the trailing logical filter takes the new
      operator (whatever it was, NOT included), a trailing comparison is
      wrapped, and an empty list is left alone. */
  function Connect(filters: seq<Expr>, lop: LogicalOperator): seq<Expr> {
    if filters == [] then filters
    else
      var last := filters[|filters| - 1];
      filters[..|filters| - 1] + [if last.Logical? then Logical(lop, last.children) else Logical(lop, [last])]
  }

  /** One pass of the token loop, given what the token is. */
  function Step(filters: seq<Expr>, t: Token): seq<Expr> {
    match t
    case Comparison(f) => Attach(filters, f)
    case Connective(lop) => Connect(filters, lop)
    case NameSearch(f) => filters + [f]
  }

  /** The token loop from a given list onwards. */
  function Run(filters: seq<Expr>, ts: seq<Token>): seq<Expr>
    decreases |ts|
  {
    if ts == [] then filters else Run(Step(filters, ts[0]), ts[1..])
  }

  /** Each token after `part.strip()`, classified. */
  function Classified(parts: seq<string>): (ts: seq<Token>)
    ensures |ts| == |parts|
  {
    seq(|parts|, i requires 0 <= i < |parts| => Classify(Strip(parts[i])))
  }

  /** The final assembly: no filter is an error, a single one is returned
      as it is, several are joined by AND. */
  function Assemble(filters: seq<Expr>): Result<Expr, Error> {
    if filters == [] then Err(NoValidFilters)
    else if |filters| == 1 then Ok(filters[0])
    else Ok(Logical(And, filters))
  }

  /** The result of `query_to_filter(query)`. */
  function Parse(query: string): Result<Expr, Error> {
    Assemble(Run([], Classified(Tokens(query))))
  }

  /** The unquoting of a stripped value, the same statements for both kinds
      of token. */
  method Unquote(value: string) returns (v: string)
    ensures v == Unquoted(value)
  {
    v := value;
    if StartsWith(v, "'") && EndsWith(v, "'") {
      v := Inner(v);
    } else if StartsWith(v, "\"") && EndsWith(v, "\"") {
      v := Inner(v);
    }
  }

  /** The value of a comparison: unquoted when quoted, an integer when it
      is all digits, and the text as it is otherwise. */
  method ConvertValue(value: string) returns (operand: Operand)
    ensures operand == OperandOf(value)
  {
    if Quoted(value) {
      var text := Unquote(value);
      operand := TextValue(text);
    } else if IsDigits(value) {
      operand := IntValue(DigitsValue(value));
    } else {
      operand := TextValue(value);
    }
  }

  /** The body of the operator loop once a symbol is found: split, resolve
      the key, convert the value, then test the key for a leading '-'. */
  method BuildComparison(part: string, sym: string, op: Operator) returns (f: Expr)
    requires HasSubstring(part, sym)
    ensures f == ComparisonFilter(part, sym, op)
  {
    var j := Find(part, sym).value;
    var key := Strip(part[..j]);
    ghost var stripped := key;
    key := ResolveShorthand(key);
    ResolveKeyNonEmpty(stripped);
    var value := Strip(part[j + |sym|..]);
    var operand := ConvertValue(value);
    if key[0] == '-' {
      key := key[1..];
      f := Logical(Not, [Leaf(key, operand, op)]);
    } else {
      f := Leaf(key, operand, op);
    }
  }

  /** A part holding an operator symbol attaches its comparison filter. */
  lemma StepComparison(filters: seq<Expr>, part: string)
    requires OperatorOf(part).Some?
    ensures var (sym, op) := OperatorOf(part).value;
      Step(filters, Classify(part)) == Attach(filters, ComparisonFilter(part, sym, op))
  {
  }

  /** The pass for a part where an operator symbol was found: build the
      comparison and put it into a trailing logical filter, or at the end. */
  method AddComparison(filters: seq<Expr>, part: string, sym: string, op: Operator) returns (next: seq<Expr>)
    requires HasSubstring(part, sym)
    ensures next == Attach(filters, ComparisonFilter(part, sym, op))
  {
    next := filters;
    var f := BuildComparison(part, sym, op);
    if next != [] && next[|next| - 1].Logical? {
      next := next[..|next| - 1] + [AddFilter(next[|next| - 1], f)];
    } else {
      next := next + [f];
    }
  }

  /** The pass for a part with no operator symbol: `and`/`or` regroup the
      last filter, anything else is a name search. */
  method AddWord(filters: seq<Expr>, part: string) returns (next: seq<Expr>)
    ensures next == Step(filters, WordToken(Unquoted(Strip(part))))
  {
    next := filters;
    var value := Unquote(Strip(part));
    var word := Lower(value);
    if word == "and" || word == "or" {
      var operator := if word == "and" then And else Or;
      if next != [] {
        var lastFilter := next[|next| - 1];
        next := next[..|next| - 1];
        if lastFilter.Logical? {
          next := next + [Logical(operator, lastFilter.children)];
        } else {
          next := next + [Logical(operator, [lastFilter])];
        }
      }
    } else {
      next := next + [Leaf("name", TextValue(value), Contains)];
    }
  }

  /** One pass of the token loop over the list being built. */
  method ProcessToken(filters: seq<Expr>, token: string) returns (next: seq<Expr>)
    ensures next == Step(filters, Classify(Strip(token)))
  {
    var part := Strip(token);
    var found := DetectOperator(part);
    if found.Some? {
      StepComparison(filters, part);
      next := AddComparison(filters, part, found.value.0, found.value.1);
    } else {
      next := AddWord(filters, part);
    }
  }

  /** The token loop at position `i` takes one step. */
  lemma RunStep(filters: seq<Expr>, ts: seq<Token>, i: nat)
    requires i < |ts|
    ensures Run(filters, ts[i..]) == Run(Step(filters, ts[i]), ts[i + 1..])
  {
    assert ts[i..][0] == ts[i] && ts[i..][1..] == ts[i + 1..];
  }

  /** `query_to_filter` as the source runs it. */
  method QueryToFilter(query: string) returns (r: Result<Expr, Error>)
    ensures r == Parse(query)
  {
    var newQuery := MaskQuotes(query);
    var parts := Split(newQuery);
    var filters: seq<Expr> := [];
    ghost var ts := Classified(parts);
    assert parts == Tokens(query);
    assert ts[0..] == ts;
    for i := 0 to |parts|
      invariant Run(filters, ts[i..]) == Run([], ts)
    {
      ghost var before := filters;
      assert ts[i] == Classify(Strip(parts[i]));
      filters := ProcessToken(filters, parts[i]);
      RunStep(before, ts, i);
    }
    assert ts[|parts|..] == [];
    assert Parse(query) == Assemble(filters);
    if filters == [] {
      r := Err(NoValidFilters);
    } else if |filters| == 1 {
      r := Ok(filters[0]);
    } else {
      r := Ok(Logical(And, filters));
    }
  }

  // ---------------------------------------------------------------------
  // What the token loop builds

  predicate AllValid(ts: seq<Token>) {
    forall t <- ts :: ValidToken(t)
  }

  lemma ClassifiedValid(parts: seq<string>)
    ensures AllValid(Classified(parts))
  {
    var ts := Classified(parts);
    forall i | 0 <= i < |ts| ensures ValidToken(ts[i]) {
      ClassifyValid(Strip(parts[i]));
    }
  }

  /** The number of tokens that add a filter. */
  function FilterTokenCount(ts: seq<Token>): nat {
    if ts == [] then 0 else (if ts[0].Connective? then 0 else 1) + FilterTokenCount(ts[1..])
  }

  lemma {:induction false} RunEmpty(filters: seq<Expr>, ts: seq<Token>)
    ensures Run(filters, ts) == [] <==> filters == [] && forall t <- ts :: t.Connective?
    decreases |ts|
  {
    if ts != [] {
      var next := Step(filters, ts[0]);
      assert next == [] <==> filters == [] && ts[0].Connective?;
      RunEmpty(next, ts[1..]);
      assert Run(filters, ts) == Run(next, ts[1..]);
      assert forall t <- ts :: t == ts[0] || t in ts[1..];
      assert forall t <- ts[1..] :: t in ts;
    }
  }

  /** `query_to_filter` fails, with "No valid filters", exactly when every
      token of the query is `and` or `or` (the empty query included). */
  lemma ParseFails(query: string)
    ensures Parse(query).Err? <==> forall t <- Classified(Tokens(query)) :: t.Connective?
    ensures Parse(query).Err? ==> Parse(query).error == NoValidFilters
  {
    RunEmpty([], Classified(Tokens(query)));
  }

  /** A step adds one comparison filter for a token that is not a
      connective, and none for a connective: `and`/`or` only regroup. */
  lemma StepLeaves(filters: seq<Expr>, t: Token)
    requires ValidToken(t)
    ensures LeavesIn(Step(filters, t)) == LeavesIn(filters) + (if t.Connective? then 0 else 1)
  {
    if filters != [] {
      var n := |filters| - 1;
      var last := filters[n];
      assert filters == filters[..n] + [last];
      LeavesInAppend(filters[..n], [last]);
      assert LeavesIn([last]) == Leaves(last);
    }
    match t
    case Comparison(f) =>
      assert Leaves(f) == 1 by {
        if f.Logical? {
          assert LeavesIn(f.children) == Leaves(f.children[0]) + LeavesIn(f.children[1..]);
        }
      }
      if filters != [] && filters[|filters| - 1].Logical? {
        var n := |filters| - 1;
        var last := filters[n];
        var added := AddFilter(last, f);
        LeavesInAppend(filters[..n], [added]);
        LeavesInAppend(last.children, [f]);
        assert LeavesIn([added]) == Leaves(added);
        assert LeavesIn([f]) == Leaves(f);
      } else {
        LeavesInAppend(filters, [f]);
        assert LeavesIn([f]) == Leaves(f);
      }
    case Connective(lop) =>
      if filters != [] {
        var n := |filters| - 1;
        var last := filters[n];
        var node := if last.Logical? then Logical(lop, last.children) else Logical(lop, [last]);
        LeavesInAppend(filters[..n], [node]);
        assert LeavesIn([node]) == Leaves(node);
      }
    case NameSearch(f) =>
      LeavesInAppend(filters, [f]);
      assert LeavesIn([f]) == 1;
  }

  lemma {:induction false} RunLeaves(filters: seq<Expr>, ts: seq<Token>)
    requires AllValid(ts)
    ensures LeavesIn(Run(filters, ts)) == LeavesIn(filters) + FilterTokenCount(ts)
    decreases |ts|
  {
    if ts != [] {
      assert ts[0] in ts;
      assert forall t <- ts[1..] :: t in ts;
      StepLeaves(filters, ts[0]);
      RunLeaves(Step(filters, ts[0]), ts[1..]);
    }
  }

  /** No filter token is lost or duplicated: the tree holds one comparison
      per token that is not `and`/`or`. */
  lemma ParseLeaves(query: string)
    ensures Parse(query).Ok? ==> Leaves(Parse(query).value) == FilterTokenCount(Classified(Tokens(query)))
  {
    var ts := Classified(Tokens(query));
    var filters := Run([], ts);
    ClassifiedValid(Tokens(query));
    RunLeaves([], ts);
    if |filters| == 1 {
      assert LeavesIn(filters) == Leaves(filters[0]) + LeavesIn(filters[1..]);
      assert filters[1..] == [];
    }
  }

  /** Every step keeps every logical node non-empty. */
  lemma StepWellFormed(filters: seq<Expr>, t: Token)
    requires ValidToken(t)
    requires AllWellFormed(filters)
    ensures AllWellFormed(Step(filters, t))
  {
    AllWellFormedIff(filters);
    var next := Step(filters, t);
    match t
    case Comparison(f) =>
      assert WellFormed(f) by {
        if f.Logical? {
          assert AllWellFormed(f.children[1..]);
        }
      }
      if filters != [] && filters[|filters| - 1].Logical? {
        var last := filters[|filters| - 1];
        AllWellFormedIff(last.children);
        AllWellFormedIff(last.children + [f]);
      }
      AllWellFormedIff(next);
    case Connective(lop) =>
      if filters != [] {
        var last := filters[|filters| - 1];
        if !last.Logical? {
          assert [last][1..] == [];
          assert WellFormed(Logical(lop, [last]));
        }
        AllWellFormedIff(next);
      }
    case NameSearch(f) =>
      AllWellFormedIff(next);
  }

  lemma {:induction false} RunWellFormed(filters: seq<Expr>, ts: seq<Token>)
    requires AllValid(ts)
    requires AllWellFormed(filters)
    ensures AllWellFormed(Run(filters, ts))
    decreases |ts|
  {
    if ts != [] {
      assert ts[0] in ts;
      assert forall t <- ts[1..] :: t in ts;
      StepWellFormed(filters, ts[0]);
      RunWellFormed(Step(filters, ts[0]), ts[1..]);
    }
  }

  /** Every logical filter the parser builds has at least one sub-filter. */
  lemma ParseWellFormed(query: string)
    ensures Parse(query).Ok? ==> WellFormed(Parse(query).value)
  {
    var ts := Classified(Tokens(query));
    var filters := Run([], ts);
    ClassifiedValid(Tokens(query));
    RunWellFormed([], ts);
    AssembleWellFormed(filters);
  }

  lemma AssembleWellFormed(filters: seq<Expr>)
    requires AllWellFormed(filters)
    ensures Assemble(filters).Ok? ==> WellFormed(Assemble(filters).value)
  {
  }

  // ---------------------------------------------------------------------
  // How filters are grouped

  /** The filters a run of comparison tokens builds, in order. */
  function ComparisonFilters(ts: seq<Token>): (fs: seq<Expr>)
    requires forall t <- ts :: t.Comparison?
    ensures |fs| == |ts|
  {
    if ts == [] then [] else [ts[0].f] + ComparisonFilters(ts[1..])
  }

  /** Once the last top-level filter is a logical one, every later
      comparison is appended inside it: the list does not grow, and the
      logical filter keeps its operator, whatever it is. */
  lemma {:induction false} RunAbsorbs(filters: seq<Expr>, ts: seq<Token>)
    requires filters != [] && filters[|filters| - 1].Logical?
    requires forall t <- ts :: t.Comparison?
    ensures |Run(filters, ts)| == |filters|
    ensures Run(filters, ts)[..|filters| - 1] == filters[..|filters| - 1]
    ensures Run(filters, ts)[|filters| - 1] ==
      Logical(filters[|filters| - 1].lop, filters[|filters| - 1].children + ComparisonFilters(ts))
    decreases |ts|
  {
    var n := |filters| - 1;
    var last := filters[n];
    if ts == [] {
      assert last.children + [] == last.children;
    } else {
      var f := ts[0].f;
      var next := filters[..n] + [AddFilter(last, f)];
      assert Step(filters, ts[0]) == Attach(filters, f) == next;
      assert Run(filters, ts) == Run(next, ts[1..]);
      assert |next| == |filters| && next[..n] == filters[..n] && next[n] == Logical(last.lop, last.children + [f]);
      assert forall t <- ts[1..] :: t in ts;
      RunAbsorbs(next, ts[1..]);
      assert ComparisonFilters(ts) == [f] + ComparisonFilters(ts[1..]);
      AppendAssociative(last.children, [f], ComparisonFilters(ts[1..]));
    }
  }

  /** A negated comparison followed only by comparisons is returned as one
      NOT node holding all of them, so evaluating the query always fails
      with "NOT operator requires exactly one filter". */
  lemma NegationSwallowsRest(ts: seq<Token>, item: Item)
    requires |ts| >= 2
    requires forall t <- ts :: t.Comparison?
    requires ValidToken(ts[0]) && ts[0].f.Logical?
    ensures |Run([], ts)| == 1 && Run([], ts)[0].Logical? && Run([], ts)[0].lop == Not
    ensures |Run([], ts)[0].children| == |ts|
    ensures Check(Assemble(Run([], ts)).value, item) == Err(NotNeedsOneFilter)
  {
    var first := ts[0].f;
    assert Step([], ts[0]) == [first];
    assert forall t <- ts[1..] :: t in ts;
    RunAbsorbs([first], ts[1..]);
  }

  /** An `and`/`or` token after a first comparison wraps it, and every later
      comparison joins that group: "t:creature OR t:planeswalker cmc:4" is
      one OR over all three filters, not an AND holding an OR. */
  lemma ConnectiveGroupsRest(first: Token, connective: Token, rest: seq<Token>)
    requires first.Comparison? && first.f.Leaf?
    requires connective.Connective?
    requires forall t <- rest :: t.Comparison?
    ensures Run([], [first, connective] + rest) == [Logical(connective.lop, [first.f] + ComparisonFilters(rest))]
  {
    var f := first.f;
    var ts := [first, connective] + rest;
    assert Step([], first) == [f];
    assert Step([f], connective) == [Logical(connective.lop, [f])];
    assert ts[1..][1..] == rest;
    RunAbsorbs([Logical(connective.lop, [f])], rest);
  }

  /** An `and`/`or` token after a negated comparison overwrites the NOT:
      "-t:land or t:goblin" is an OR over both comparisons, and the
      negation is lost. */
  lemma ConnectiveDropsNegation(f: Expr, connective: Token, rest: seq<Token>)
    requires connective.Connective?
    requires forall t <- rest :: t.Comparison?
    ensures Run([], [Comparison(Logical(Not, [f])), connective] + rest) == [Logical(connective.lop, [f] + ComparisonFilters(rest))]
  {
    var first := Comparison(Logical(Not, [f]));
    var ts := [first, connective] + rest;
    var negated := [Logical(Not, [f])];
    var grouped := [Logical(connective.lop, [f])];
    assert ts[0] == first && ts[1..] == [connective] + rest;
    assert Step([], first) == negated;
    calc {
      Run([], ts);
      Run(negated, [connective] + rest);
      { assert ([connective] + rest)[0] == connective && ([connective] + rest)[1..] == rest;
        assert Step(negated, connective) == grouped; }
      Run(grouped, rest);
    }
    RunAbsorbs(grouped, rest);
  }

  /** An `and`/`or` token before any filter has no effect. */
  lemma LeadingConnectivesIgnored(lop: LogicalOperator, ts: seq<Token>)
    ensures Run([], [Connective(lop)] + ts) == Run([], ts)
  {
    assert ([Connective(lop)] + ts)[1..] == ts;
  }

  /** A query that parses gives its single top-level filter as it is, and
      an AND over the top-level filters when there are several. */
  lemma ParseTopLevel(query: string)
    requires Parse(query).Ok?
    ensures var fs := Run([], Classified(Tokens(query)));
      || (|fs| == 1 && Parse(query).value == fs[0])
      || (|fs| >= 2 && Parse(query).value == Logical(And, fs))
  {
  }

  // ---------------------------------------------------------------------
  // The `key:value` form

  predicate NoOperatorChar(s: string) {
    forall c <- s :: c != '=' && c != '>' && c != '<' && c != ':'
  }

  /** `strip()` leaves a string without whitespace as it is. */
  lemma StripNoSpace(s: string)
    requires forall c <- s :: !IsSpace(c)
    ensures Strip(s) == s
  {
    assert TrimLeadingSpaces(s) == s;
  }

  /** With no other operator character around, ':' is what the loop finds,
      and it means CONTAINS whatever the value: "cmc:4" compares with
      CONTAINS against the integer 4. */
  lemma {:induction false} ColonToken(key: string, value: string)
    requires NoOperatorChar(key) && NoOperatorChar(value)
    ensures OperatorOf(key + ":" + value) == Some((":", Contains))
    ensures Find(key + ":" + value, ":") == Some(|key|)
  {
    var part := key + ":" + value;
    assert forall c <- part :: c in key || c == ':' || c in value;
    OperatorOfChain(part);
    HasCharIff(part, '=');
    HasCharIff(part, '>');
    HasCharIff(part, '<');
    SubstringChars(part, ">=");
    SubstringChars(part, "<=");
    SubstringChars(part, "%=");
    assert part[|key|] == ':';
    assert OccursAt(part, ":", |key|);
    forall j: nat | j < |key| ensures !OccursAt(part, ":", j) {
      assert part[j..j + 1][0] == key[j];
      assert key[j] in key;
    }
  }

  /** A token whose operator is found builds the comparison for it. */
  lemma ClassifyComparison(part: string, sym: string, op: Operator)
    requires OperatorOf(part) == Some((sym, op))
    ensures HasSubstring(part, sym)
    ensures Classify(part) == Comparison(ComparisonFilter(part, sym, op))
  {
  }

  /** An unquoted digit string is read as an integer. */
  lemma DigitsOperand(digits: string)
    requires IsDigits(digits)
    ensures OperandOf(digits) == IntValue(DigitsValue(digits))
  {
    assert !Quoted(digits) by {
      assert digits[0] in digits;
    }
  }

  lemma SplitAtColon(key: string, value: string)
    ensures (key + ":" + value)[..|key|] == key
    ensures (key + ":" + value)[|key| + 1..] == value
  {
  }

  /** The comparison a part builds, from its stripped key and value. */
  lemma ComparisonFilterOf(part: string, sym: string, op: Operator, key: string, value: string)
    requires Find(part, sym).Some?
    requires Strip(part[..Find(part, sym).value]) == key
    requires Strip(part[Find(part, sym).value + |sym|..]) == value
    ensures ResolveKey(key) != []
    ensures ComparisonFilter(part, sym, op) ==
      if ResolveKey(key)[0] == '-' then Logical(Not, [Leaf(ResolveKey(key)[1..], OperandOf(value), op)])
      else Leaf(ResolveKey(key), OperandOf(value), op)
  {
    ResolveKeyNonEmpty(key);
  }

  lemma FirstCharNot(s: string, c: char)
    requires s != [] && !StartsWith(s, [c])
    ensures s[0] != c
  {
    assert s[..1] == [s[0]];
  }

  /** Splitting `key:digits` at its ':' reads the digits as an integer. */
  lemma ColonDigitsSplit(key: string, digits: string)
    requires forall c <- key :: !IsSpace(c)
    requires IsDigits(digits)
    requires !StartsWith(ResolveKey(key), "-")
    requires Find(key + ":" + digits, ":") == Some(|key|)
    ensures ComparisonFilter(key + ":" + digits, ":", Contains) == Leaf(ResolveKey(key), IntValue(DigitsValue(digits)), Contains)
  {
    ColonPieces(key, digits);
    DigitsOperand(digits);
    ResolveKeyNonEmpty(key);
    FirstCharNot(ResolveKey(key), '-');
    ComparisonFilterOf(key + ":" + digits, ":", Contains, key, digits);
  }

  /** Both sides of the ':' in `key:digits` are already stripped. */
  lemma ColonPieces(key: string, digits: string)
    requires forall c <- key :: !IsSpace(c)
    requires IsDigits(digits)
    ensures Strip((key + ":" + digits)[..|key|]) == key
    ensures Strip((key + ":" + digits)[|key| + 1..]) == digits
  {
    SplitAtColon(key, digits);
    StripNoSpace(key);
    assert forall c <- digits :: !IsSpace(c) by {
      forall c <- digits ensures !IsSpace(c) {
        assert IsDigit(c);
      }
    }
    StripNoSpace(digits);
  }

  /** The filter a `key:digits` token builds. */
  lemma ColonDigitsFilter(key: string, digits: string)
    requires NoOperatorChar(key) && forall c <- key :: !IsSpace(c)
    requires IsDigits(digits)
    requires !StartsWith(ResolveKey(key), "-")
    ensures Classify(key + ":" + digits) == Comparison(Leaf(ResolveKey(key), IntValue(DigitsValue(digits)), Contains))
  {
    assert NoOperatorChar(digits);
    ColonToken(key, digits);
    ClassifyComparison(key + ":" + digits, ":", Contains);
    ColonDigitsSplit(key, digits);
  }

  /** So a numeric field compared with ':' always fails at check time. */
  lemma ColonNumberRaises(key: string, digits: string, item: Item)
    requires NoOperatorChar(key) && forall c <- key :: !IsSpace(c)
    requires IsDigits(digits)
    requires !StartsWith(ResolveKey(key), "-") && ResolveKey(key) in item && item[ResolveKey(key)].Int?
    ensures var t := Classify(key + ":" + digits); t.Comparison? && Check(t.f, item) == Err(UnsupportedNumericOperator(Contains))
  {
    ColonDigitsFilter(key, digits);
  }

  /** Splitting `-key:value` at its ':' keeps the key as written, minus
      its '-', under a NOT. */
  lemma NegatedKeySplit(key: string, value: string)
    requires key != [] && key[0] == '-'
    requires forall c <- key :: !IsSpace(c)
    requires forall c <- value :: !IsSpace(c)
    requires Find(key + ":" + value, ":") == Some(|key|)
    ensures ComparisonFilter(key + ":" + value, ":", Contains) == Logical(Not, [Leaf(key[1..], OperandOf(value), Contains)])
  {
    SplitAtColon(key, value);
    StripNoSpace(key);
    StripNoSpace(value);
    assert key[0] in key;
    HyphenatedKeyNotResolved(key);
  }

  /** A negated `key:value` token is a NOT over the comparison on the key
      without its '-', and that key is never resolved: the shorthand test
      saw the '-'. */
  lemma NegatedKeyToken(key: string, value: string)
    requires key != [] && key[0] == '-'
    requires NoOperatorChar(key) && forall c <- key :: !IsSpace(c)
    requires NoOperatorChar(value) && forall c <- value :: !IsSpace(c)
    ensures Classify(key + ":" + value) == Comparison(Logical(Not, [Leaf(key[1..], OperandOf(value), Contains)]))
  {
    ColonToken(key, value);
    ClassifyComparison(key + ":" + value, ":", Contains);
    NegatedKeySplit(key, value);
  }

  /** "-t:x" tests the key "t" rather than "type_line". */
  lemma NegatedShorthandKept()
    ensures Classify("-t:x") == Comparison(Logical(Not, [Leaf("t", TextValue("x"), Contains)]))
  {
    assert "-t"[0] == '-' && "-t"[1..] == "t";
    assert NoOperatorChar("x") && NoOperatorChar("-t");
    assert "-t" + ":" + "x" == "-t:x";
    assert OperandOf("x") == TextValue("x") by {
      assert "x"[0] == 'x' && !IsDigit('x');
      assert !StartsWith("x", ['\'']) && !StartsWith("x", ['"']);
    }
    NegatedKeyToken("-t", "x");
  }

  /** No card record has the key "t", so "-t:x" holds for every card. */
  lemma NegatedShorthandMatchesAll(item: Item)
    requires "t" !in item
    ensures Check(Logical(Not, [Leaf("t", TextValue("x"), Contains)]), item) == Ok(true)
  {
  }

  // ---------------------------------------------------------------------
  // Quoted blanks

  lemma {:induction false} InQuoteAppend(p: string, q: string)
    requires forall c <- q :: !IsQuote(c)
    ensures InQuote(p + q) == InQuote(p)
    decreases |q|
  {
    if q != [] {
      var q' := q[..|q| - 1];
      assert (p + q)[..|p + q| - 1] == p + q';
      assert q[|q| - 1] in q;
      assert forall c <- q' :: c in q;
      InQuoteAppend(p, q');
    } else {
      assert p + q == p;
    }
  }

  /** Between an opening quote and its closing quote every blank becomes
      '#', and the quotes themselves stay: "name:'Lightning Bolt'" yields
      the token "name:'Lightning#Bolt'", whose value keeps the '#'. */
  lemma QuotedBlanksMasked(a: string, b: string, c: string)
    requires forall x <- a :: !IsQuote(x)
    requires forall x <- b :: !IsQuote(x)
    ensures Mask(a + "'" + b + "'" + c)[..|a| + |b| + 2] ==
      a + "'" + seq(|b|, i requires 0 <= i < |b| => if b[i] == ' ' then '#' else b[i]) + "'"
  {
    var q := a + "'" + b + "'" + c;
    var m := Mask(q);
    var masked := seq(|b|, i requires 0 <= i < |b| => if b[i] == ' ' then '#' else b[i]);
    var want := a + "'" + masked + "'";
    assert q == a + ("'" + b + "'" + c);
    MaskKeepsUnquoted(a, "'" + b + "'" + c);
    assert q[..|a| + 1] == a + "'";
    assert InQuote(a + "'") by {
      NoQuoteNoFlag(a);
      assert (a + "'")[..|a|] == a;
    }
    assert q == (a + "'") + b + ("'" + c);
    MaskInsideQuote(a + "'", b, "'" + c);
    forall i | 0 <= i < |a| + |b| + 2 ensures m[i] == want[i] {
      if i < |a| {
        assert want[i] == a[i];
      } else if i == |a| {
        assert q[i] == '\'' && want[i] == '\'';
      } else if i < |a| + 1 + |b| {
        assert want[i] == masked[i - |a| - 1];
      } else {
        assert q[i] == '\'' && want[i] == '\'';
      }
    }
  }

  /** Before any quote nothing is masked. */
  lemma MaskKeepsUnquoted(a: string, rest: string)
    requires forall x <- a :: !IsQuote(x)
    ensures forall i :: 0 <= i < |a| ==> Mask(a + rest)[i] == a[i]
  {
    var q := a + rest;
    forall i | 0 <= i < |a| ensures Mask(q)[i] == a[i] {
      assert q[i] == a[i];
      assert q[..i + 1] == a[..i + 1];
      assert forall x <- a[..i + 1] :: x in a;
      NoQuoteNoFlag(a[..i + 1]);
    }
  }

  /** Inside an open quote, every blank of a quote-free stretch is masked
      and every other character kept. */
  lemma MaskInsideQuote(p: string, b: string, rest: string)
    requires InQuote(p)
    requires forall x <- b :: !IsQuote(x)
    ensures forall i :: 0 <= i < |b| ==> Mask(p + b + rest)[|p| + i] == (if b[i] == ' ' then '#' else b[i])
  {
    var q := p + b + rest;
    forall i | 0 <= i < |b| ensures Mask(q)[|p| + i] == (if b[i] == ' ' then '#' else b[i]) {
      StillInQuote(p, b, rest, i);
      MaskInsideAt(p, b, rest, i);
    }
  }

  lemma MaskInsideAt(p: string, b: string, rest: string, i: nat)
    requires i < |b| && InQuote((p + b + rest)[..|p| + i + 1])
    ensures Mask(p + b + rest)[|p| + i] == if b[i] == ' ' then '#' else b[i]
  {
    MiddleIndex(p, b, rest, i);
    MaskInQuote(p + b + rest, |p| + i);
  }

  lemma MaskInQuote(q: string, k: nat)
    requires k < |q| && InQuote(q[..k + 1])
    ensures Mask(q)[k] == if q[k] == ' ' then '#' else q[k]
  {
  }

  lemma StillInQuote(p: string, b: string, rest: string, i: nat)
    requires InQuote(p)
    requires forall x <- b :: !IsQuote(x)
    requires i < |b|
    ensures InQuote((p + b + rest)[..|p| + i + 1])
  {
    MiddleIndex(p, b, rest, i);
    NoQuotePrefix(b, i + 1);
    InQuoteAppend(p, b[..i + 1]);
  }

  lemma NoQuotePrefix(b: string, n: nat)
    requires n <= |b| && forall x <- b :: !IsQuote(x)
    ensures forall x <- b[..n] :: !IsQuote(x)
  {
    assert forall x <- b[..n] :: x in b;
  }

  lemma MiddleIndex<T>(p: seq<T>, b: seq<T>, rest: seq<T>, i: nat)
    requires i < |b|
    ensures (p + b + rest)[|p| + i] == b[i]
    ensures (p + b + rest)[..|p| + i + 1] == p + b[..i + 1]
  {
  }
}
