/** `print_filters`: the filter tree written with the symbols '^' (AND),
    'v' (OR) and '¬' (NOT), parenthesising a sub-tree whose operator differs
    from its parent's. The text is returned rather than printed. */
module FilterPrinter {
  import opened Wrappers
  import opened Text
  import opened QueryEngine
  import opened QueryParser

  /** A leaf's key as printed: "type_line" shows as its shorthand "t". */
  function PrintedKey(key: string): string {
    if key == "type_line" then "t" else key
  }

  /** `f"{expr.value}"` for the two kinds of value the parser builds. */
  function OperandText(v: Operand): string {
    match v
    case TextValue(t) => t
    case IntValue(n) => IntToString(n)
  }

  /** The separator of an AND or an OR list. */
  function Separator(lop: LogicalOperator): string {
    if lop == And then " ^ " else " v "
  }

  /** A child of an AND or OR list, in parentheses when it is a logical
      filter with another operator. */
  function Piece(lop: LogicalOperator, c: Expr, s: string): string {
    if c.Logical? && c.lop != lop then "(" + s + ")" else s
  }

  /** A NOT's operand, in parentheses when it is a logical filter. */
  function Negated(c: Expr, s: string): string {
    "¬" + if c.Logical? then "(" + s + ")" else s
  }

  /** `_format(expr)`. A NOT prints its first filter only, and a NOT with
      no filter raises `IndexError`; an empty AND or OR prints "". */
  function Format(e: Expr): Result<string, Error>
    decreases e
  {
    match e
    case Leaf(key, value, op) => Ok(PrintedKey(key) + Symbol(op) + OperandText(value))
    case Logical(lop, cs) =>
      if lop == Not then
        if cs == [] then Err(NotWithoutFilter)
        else
          match Format(cs[0])
          case Err(x) => Err(x)
          case Ok(sub) => Ok(Negated(cs[0], sub))
      else
        match FormatParts(lop, cs)
        case Err(x) => Err(x)
        case Ok(parts) => Ok(Join(parts, Separator(lop)))
  }

  /** The `parts` list of an AND or OR, or the first error a child raises. */
  function FormatParts(lop: LogicalOperator, cs: seq<Expr>): Result<seq<string>, Error>
    decreases cs
  {
    if cs == [] then Ok([])
    else
      match Format(cs[0])
      case Err(x) => Err(x)
      case Ok(s) =>
        match FormatParts(lop, cs[1..])
        case Err(x) => Err(x)
        case Ok(rest) => Ok([Piece(lop, cs[0], s)] + rest)
  }

  /** `parts` in front of whatever the remaining children give. */
  function Prefixed(parts: seq<string>, r: Result<seq<string>, Error>): Result<seq<string>, Error> {
    match r
    case Err(x) => Err(x)
    case Ok(rest) => Ok(parts + rest)
  }

  /** `_format` as the source runs it: recursion on the sub-filters and a
      loop that appends one part per child of an AND or OR. */
  method FormatFilter(e: Expr) returns (r: Result<string, Error>)
    ensures r == Format(e)
    decreases e
  {
    match e
    case Leaf(key, value, op) =>
      var printedKey := if key == "type_line" then "t" else key;
      r := Ok(printedKey + Symbol(op) + OperandText(value));
    case Logical(lop, cs) =>
      if lop == Not {
        if cs == [] {
          return Err(NotWithoutFilter);
        }
        var sub := FormatFilter(cs[0]);
        if sub.Err? {
          return Err(sub.error);
        }
        var s := sub.value;
        if cs[0].Logical? {
          s := "(" + s + ")";
        }
        r := Ok("¬" + s);
      } else {
        var sep := if lop == And then " ^ " else " v ";
        var parts: seq<string> := [];
        assert cs[0..] == cs;
        PrefixedNothing(FormatParts(lop, cs));
        for i := 0 to |cs|
          invariant Prefixed(parts, FormatParts(lop, cs[i..])) == FormatParts(lop, cs)
        {
          assert cs[i..][1..] == cs[i + 1..];
          var sub := FormatFilter(cs[i]);
          if sub.Err? {
            return Err(sub.error);
          }
          var s := sub.value;
          if cs[i].Logical? && cs[i].lop != lop {
            s := "(" + s + ")";
          }
          PrefixedAppend(parts, s, FormatParts(lop, cs[i + 1..]));
          parts := parts + [s];
        }
        assert cs[|cs|..] == [];
        assert parts + [] == parts;
        r := Ok(Join(parts, sep));
      }
  }

  lemma PrefixedNothing(r: Result<seq<string>, Error>)
    ensures Prefixed([], r) == r
  {
    if r.Ok? {
      assert [] + r.value == r.value;
    }
  }

  lemma PrefixedAppend(parts: seq<string>, s: string, r: Result<seq<string>, Error>)
    ensures Prefixed(parts + [s], r) == Prefixed(parts, Prefixed([s], r))
  {
    if r.Ok? {
      assert parts + [s] + r.value == parts + ([s] + r.value);
    }
  }

  // ---------------------------------------------------------------------
  // When printing fails

  /** Some NOT that the printer reaches has no filter: the NOT's first
      filter and every filter of an AND or OR are reached. */
  predicate ReachesEmptyNot(e: Expr)
    decreases e
  {
    match e
    case Leaf(_, _, _) => false
    case Logical(lop, cs) =>
      if lop == Not then cs == [] || ReachesEmptyNot(cs[0])
      else AnyReachesEmptyNot(cs)
  }

  predicate AnyReachesEmptyNot(cs: seq<Expr>)
    decreases cs
  {
    cs != [] && (ReachesEmptyNot(cs[0]) || AnyReachesEmptyNot(cs[1..]))
  }

  /** Printing fails exactly when it reaches a NOT without a filter, and
      the failure is that NOT's `IndexError`. */
  lemma {:induction false} FormatFails(e: Expr)
    ensures Format(e).Err? <==> ReachesEmptyNot(e)
    ensures Format(e).Err? ==> Format(e) == Err(NotWithoutFilter)
    decreases e
  {
    match e
    case Leaf(_, _, _) =>
    case Logical(lop, cs) =>
      if lop == Not {
        if cs != [] {
          FormatFails(cs[0]);
        }
      } else {
        FormatPartsFails(lop, cs);
      }
  }

  lemma {:induction false} FormatPartsFails(lop: LogicalOperator, cs: seq<Expr>)
    ensures FormatParts(lop, cs).Err? <==> AnyReachesEmptyNot(cs)
    ensures FormatParts(lop, cs).Err? ==> FormatParts(lop, cs) == Err(NotWithoutFilter)
    ensures FormatParts(lop, cs).Ok? ==> |FormatParts(lop, cs).value| == |cs|
    decreases cs
  {
    if cs != [] {
      FormatFails(cs[0]);
      FormatPartsFails(lop, cs[1..]);
    }
  }

  /** A well-formed tree (no empty logical filter) always prints. */
  lemma {:induction false} WellFormedPrints(e: Expr)
    requires WellFormed(e)
    ensures !ReachesEmptyNot(e)
    ensures Format(e).Ok?
    decreases e
  {
    FormatFails(e);
    match e
    case Leaf(_, _, _) =>
    case Logical(lop, cs) =>
      AllWellFormedIff(cs);
      if lop == Not {
        WellFormedPrints(cs[0]);
      } else {
        AllWellFormedPrint(cs);
      }
  }

  lemma {:induction false} AllWellFormedPrint(cs: seq<Expr>)
    requires AllWellFormed(cs)
    ensures !AnyReachesEmptyNot(cs)
    decreases cs
  {
    if cs != [] {
      WellFormedPrints(cs[0]);
      AllWellFormedPrint(cs[1..]);
    }
  }

  /** Every filter the query parser returns can be printed. */
  lemma ParsedQueryPrints(query: string)
    requires Parse(query).Ok?
    ensures Format(Parse(query).value).Ok?
  {
    ParseWellFormed(query);
    WellFormedPrints(Parse(query).value);
  }

  /** A NOT prints only its first filter: further filters, which make its
      check raise, do not show. */
  lemma NotPrintsFirstOnly(first: Expr, rest: seq<Expr>)
    ensures Format(Logical(Not, [first] + rest)) == Format(Logical(Not, [first]))
  {
  }

  // ---------------------------------------------------------------------
  // Parentheses

  /** Number of '(' minus number of ')'. */
  function Balance(s: string): int {
    if s == [] then 0
    else (if s[0] == '(' then 1 else if s[0] == ')' then -1 else 0) + Balance(s[1..])
  }

  lemma {:induction false} BalanceAppend(a: string, b: string)
    ensures Balance(a + b) == Balance(a) + Balance(b)
    decreases |a|
  {
    if a == [] {
      assert a + b == b;
    } else {
      assert (a + b)[1..] == a[1..] + b;
      BalanceAppend(a[1..], b);
    }
  }

  /** A string without parentheses has balance 0. */
  lemma {:induction false} NoParensBalance(s: string)
    requires '(' !in s && ')' !in s
    ensures Balance(s) == 0
    decreases |s|
  {
    if s != [] {
      assert s[0] in s;
      assert forall c <- s[1..] :: c in s;
      NoParensBalance(s[1..]);
    }
  }

  lemma {:induction false} JoinBalance(parts: seq<string>, sep: string)
    requires forall i :: 0 <= i < |parts| ==> Balance(parts[i]) == 0
    requires Balance(sep) == 0
    ensures Balance(Join(parts, sep)) == 0
    decreases |parts|
  {
    if |parts| > 1 {
      JoinBalance(parts[1..], sep);
      BalanceAppend(parts[0], sep);
      BalanceAppend(parts[0] + sep, Join(parts[1..], sep));
    }
  }

  /** No key or text value of the tree holds a parenthesis. */
  predicate ParenFree(e: Expr)
    decreases e
  {
    match e
    case Leaf(key, value, _) =>
      '(' !in key && ')' !in key && (value.TextValue? ==> '(' !in value.text && ')' !in value.text)
    case Logical(_, cs) => forall c <- cs :: ParenFree(c)
  }

  /** The parentheses the printer adds always pair up: when the cards'
      keys and values hold none, the printed text is balanced. */
  lemma {:induction false} FormatBalanced(e: Expr)
    requires ParenFree(e) && Format(e).Ok?
    ensures Balance(Format(e).value) == 0
    decreases e
  {
    match e
    case Leaf(key, value, op) =>
      var text := OperandText(value);
      assert '(' !in text && ')' !in text by {
        if value.IntValue? {
          assert forall c <- text :: IsDigit(c) || c == '-';
        }
      }
      NoParensBalance(PrintedKey(key));
      NoParensBalance(Symbol(op));
      NoParensBalance(text);
      BalanceAppend(PrintedKey(key), Symbol(op));
      BalanceAppend(PrintedKey(key) + Symbol(op), text);
    case Logical(lop, cs) =>
      if lop == Not {
        assert cs[0] in cs;
        FormatBalanced(cs[0]);
        WrappedBalance(Format(cs[0]).value);
        BalanceAppend("¬", if cs[0].Logical? then "(" + Format(cs[0]).value + ")" else Format(cs[0]).value);
      } else {
        PartsBalanced(lop, cs);
        NoParensBalance(Separator(lop));
        JoinBalance(FormatParts(lop, cs).value, Separator(lop));
      }
  }

  lemma {:induction false} PartsBalanced(lop: LogicalOperator, cs: seq<Expr>)
    requires forall c <- cs :: ParenFree(c)
    requires FormatParts(lop, cs).Ok?
    ensures forall i :: 0 <= i < |FormatParts(lop, cs).value| ==> Balance(FormatParts(lop, cs).value[i]) == 0
    decreases cs
  {
    if cs != [] {
      assert cs[0] in cs;
      assert forall c <- cs[1..] :: c in cs;
      FormatBalanced(cs[0]);
      PartsBalanced(lop, cs[1..]);
      WrappedBalance(Format(cs[0]).value);
    }
  }

  /** Wrapping in parentheses keeps the balance. */
  lemma WrappedBalance(s: string)
    ensures Balance("(" + s + ")") == Balance(s)
  {
    BalanceAppend("(", s);
    BalanceAppend("(" + s, ")");
  }
}
