/** The filter tree of the card-search language and its evaluation against a
    card record: `Filter.check`, `LogicalFilter.check` and `apply_filters`. */
module QueryEngine {
  import opened Wrappers
  import opened Text

  /** A field of a card record as the JSON loader gives it. */
  datatype Value = Str(s: string) | Int(n: int) | List(items: seq<string>) | Null

  /** A card record: field name to value. */
  type Item = map<string, Value>

  /** Comparison operators; the symbols are their printed `value`s. */
  datatype Operator = Equals | GreaterThan | LessThan | GreaterOrEqual | LessOrEqual | Contains

  function Symbol(op: Operator): string {
    match op
    case Equals => "="
    case GreaterThan => ">"
    case LessThan => "<"
    case GreaterOrEqual => ">="
    case LessOrEqual => "<="
    case Contains => "%="
  }

  /** The value a comparison filter tests against: the parser produces
      strings and non-negative integers. */
  datatype Operand = TextValue(text: string) | IntValue(number: int)

  datatype LogicalOperator = And | Or | Not

  /** A `Filter` (leaf) or a `LogicalFilter` over a list of sub-filters. */
  datatype Expr =
    | Leaf(key: string, value: Operand, op: Operator)
    | Logical(lop: LogicalOperator, children: seq<Expr>)

  /** The `ValueError`s (and one `IndexError`) the search code raises. */
  datatype Error =
    | UnsupportedStringOperator(op: Operator)
    | UnsupportedListOperator(op: Operator)
    | UnsupportedNumericOperator(op: Operator)
    | NotNeedsOneFilter
    | NoValidFilters
    | NotWithoutFilter

  /** Python's `sub.lower() in s.lower()`, stated without the search
      function that computes it. */
  ghost predicate ContainsIgnoringCase(s: string, sub: string) {
    exists j: nat :: OccursAt(Lower(s), Lower(sub), j)
  }

  /** `Filter.check`: compare the item's field with the filter's value. */
  function CheckLeaf(key: string, value: Operand, op: Operator, item: Item): (r: Result<bool, Error>)
    ensures key !in item ==> r == Ok(false)
    ensures key in item && item[key].Str? && value.TextValue? ==>
      && (op == Equals ==> r == Ok(item[key].s == value.text))
      && (op == Contains ==> (r == Ok(true) <==> ContainsIgnoringCase(item[key].s, value.text)) && r.Ok?)
      && (op != Equals && op != Contains ==> r == Err(UnsupportedStringOperator(op)))
    ensures key in item && item[key].List? && value.TextValue? ==>
      && (op == Equals ==> r == Ok(value.text in item[key].items))
      && (op == Contains ==> r.Ok? && (r == Ok(true) <==>
            exists v <- item[key].items :: ContainsIgnoringCase(v, value.text)))
      && (op != Equals && op != Contains ==> r == Err(UnsupportedListOperator(op)))
    ensures key in item && item[key].Int? && value.IntValue? ==>
      var a, b := item[key].n, value.number;
      && (op == Equals ==> r == Ok(a == b))
      && (op == GreaterThan ==> r == Ok(a > b))
      && (op == LessThan ==> r == Ok(a < b))
      && (op == GreaterOrEqual ==> r == Ok(a >= b))
      && (op == LessOrEqual ==> r == Ok(a <= b))
      && (op == Contains ==> r == Err(UnsupportedNumericOperator(op)))
    ensures key in item ==>
      (!(item[key].Str? && value.TextValue?) && !(item[key].List? && value.TextValue?) && !(item[key].Int? && value.IntValue?)
       ==> r == Ok(false))
  {
    if key !in item then Ok(false)
    else
      match (item[key], value)
      case (Str(s), TextValue(t)) =>
        if op == Equals then Ok(s == t)
        else if op == Contains then Ok(HasSubstring(Lower(s), Lower(t)))
        else Err(UnsupportedStringOperator(op))
      case (List(vs), TextValue(t)) =>
        if op == Equals then Ok(t in vs)
        else if op == Contains then Ok(AnyContains(vs, Lower(t)))
        else Err(UnsupportedListOperator(op))
      case (Int(a), IntValue(b)) =>
        (match op
         case Equals => Ok(a == b)
         case GreaterThan => Ok(a > b)
         case LessThan => Ok(a < b)
         case GreaterOrEqual => Ok(a >= b)
         case LessOrEqual => Ok(a <= b)
         case Contains => Err(UnsupportedNumericOperator(op)))
      case _ => Ok(false)
  }

  /** `any(sub in str(v).lower() for v in vs)` with `sub` already lowered. */
  function AnyContains(vs: seq<string>, sub: string): (b: bool)
    ensures b <==> exists v <- vs :: HasSubstring(Lower(v), sub)
  {
    if vs == [] then false
    else
      var rest := AnyContains(vs[1..], sub);
      assert (exists v <- vs :: HasSubstring(Lower(v), sub)) <==> HasSubstring(Lower(vs[0]), sub) || rest by {
        if exists v <- vs :: HasSubstring(Lower(v), sub) {
          var v :| v in vs && HasSubstring(Lower(v), sub);
          var i :| 0 <= i < |vs| && vs[i] == v;
          if i > 0 {
            assert vs[1..][i - 1] == v;
          }
        }
        if rest {
          var v :| v in vs[1..] && HasSubstring(Lower(v), sub);
          assert v in vs;
        }
      }
      HasSubstring(Lower(vs[0]), sub) || rest
  }

  /** `LogicalFilter.add_filter`: one more sub-filter at the end of the list. */
  function AddFilter(lf: Expr, f: Expr): Expr
    requires lf.Logical?
  {
    Logical(lf.lop, lf.children + [f])
  }

  /** The number of comparison filters in a tree. */
  function Leaves(e: Expr): nat
    decreases e
  {
    match e
    case Leaf(_, _, _) => 1
    case Logical(_, cs) => LeavesIn(cs)
  }

  function LeavesIn(cs: seq<Expr>): nat
    decreases cs
  {
    if cs == [] then 0 else Leaves(cs[0]) + LeavesIn(cs[1..])
  }

  lemma {:induction false} LeavesInAppend(a: seq<Expr>, b: seq<Expr>)
    ensures LeavesIn(a + b) == LeavesIn(a) + LeavesIn(b)
    decreases |a|
  {
    if a == [] {
      assert a + b == b;
    } else {
      assert (a + b)[0] == a[0];
      assert (a + b)[1..] == a[1..] + b;
      LeavesInAppend(a[1..], b);
    }
  }

  /** Every logical node has at least one sub-filter. */
  predicate WellFormed(e: Expr)
    decreases e
  {
    match e
    case Leaf(_, _, _) => true
    case Logical(_, cs) => cs != [] && AllWellFormed(cs)
  }

  predicate AllWellFormed(cs: seq<Expr>)
    decreases cs
  {
    cs == [] || (WellFormed(cs[0]) && AllWellFormed(cs[1..]))
  }

  lemma {:induction false} AllWellFormedIff(cs: seq<Expr>)
    ensures AllWellFormed(cs) <==> forall i :: 0 <= i < |cs| ==> WellFormed(cs[i])
    decreases |cs|
  {
    if cs != [] {
      AllWellFormedIff(cs[1..]);
      assert forall i :: 1 <= i < |cs| ==> cs[i] == cs[1..][i - 1];
    }
  }

  /** `check` on either kind of filter. */
  function Check(e: Expr, item: Item): Result<bool, Error>
    decreases e
  {
    match e
    case Leaf(key, value, op) => CheckLeaf(key, value, op, item)
    case Logical(lop, cs) =>
      if cs == [] then Ok(true)
      else
        match lop
        case And => CheckAll(cs, item)
        case Or => CheckAny(cs, item)
        case Not =>
          if |cs| != 1 then Err(NotNeedsOneFilter)
          else
            match Check(cs[0], item)
            case Ok(b) => Ok(!b)
            case Err(x) => Err(x)
  }

  /** The AND loop: stops at the first child that is not true. */
  function CheckAll(cs: seq<Expr>, item: Item): Result<bool, Error>
    decreases cs
  {
    if cs == [] then Ok(true)
    else
      match Check(cs[0], item)
      case Err(x) => Err(x)
      case Ok(b) => if !b then Ok(false) else CheckAll(cs[1..], item)
  }

  /** The OR loop: stops at the first child that is not false. */
  function CheckAny(cs: seq<Expr>, item: Item): Result<bool, Error>
    decreases cs
  {
    if cs == [] then Ok(false)
    else
      match Check(cs[0], item)
      case Err(x) => Err(x)
      case Ok(b) => if b then Ok(true) else CheckAny(cs[1..], item)
  }

  /** AND is true exactly when every child is true, and otherwise answers
      what the first child that is not true answered (false, or its
      error). */
  lemma {:induction false} CheckAllMeaning(cs: seq<Expr>, item: Item)
    ensures CheckAll(cs, item) == Ok(true) <==> forall i :: 0 <= i < |cs| ==> Check(cs[i], item) == Ok(true)
    ensures CheckAll(cs, item) != Ok(true) ==>
      exists i :: 0 <= i < |cs| && CheckAll(cs, item) == Check(cs[i], item) && forall j :: 0 <= j < i ==> Check(cs[j], item) == Ok(true)
    decreases |cs|
  {
    if cs != [] {
      var tail := cs[1..];
      CheckAllMeaning(tail, item);
      assert forall i :: 1 <= i < |cs| ==> cs[i] == tail[i - 1];
      if Check(cs[0], item) == Ok(true) && CheckAll(tail, item) != Ok(true) {
        var i :| 0 <= i < |tail| && CheckAll(tail, item) == Check(tail[i], item)
          && forall j :: 0 <= j < i ==> Check(tail[j], item) == Ok(true);
        assert CheckAll(cs, item) == Check(cs[i + 1], item);
      }
    }
  }

  /** OR is false exactly when every child is false, and otherwise answers
      what the first child that is not false answered (true, or its
      error). */
  lemma {:induction false} CheckAnyMeaning(cs: seq<Expr>, item: Item)
    ensures CheckAny(cs, item) == Ok(false) <==> forall i :: 0 <= i < |cs| ==> Check(cs[i], item) == Ok(false)
    ensures CheckAny(cs, item) != Ok(false) ==>
      exists i :: 0 <= i < |cs| && CheckAny(cs, item) == Check(cs[i], item) && forall j :: 0 <= j < i ==> Check(cs[j], item) == Ok(false)
    decreases |cs|
  {
    if cs != [] {
      var tail := cs[1..];
      CheckAnyMeaning(tail, item);
      assert forall i :: 1 <= i < |cs| ==> cs[i] == tail[i - 1];
      if Check(cs[0], item) == Ok(false) && CheckAny(tail, item) != Ok(false) {
        var i :| 0 <= i < |tail| && CheckAny(tail, item) == Check(tail[i], item)
          && forall j :: 0 <= j < i ==> Check(tail[j], item) == Ok(false);
        assert CheckAny(cs, item) == Check(cs[i + 1], item);
      }
    }
  }

  /** `LogicalFilter.check` as a whole: an empty list is true, NOT needs
      exactly one child, AND and OR are all-of and any-of. */
  lemma LogicalCheck(lop: LogicalOperator, cs: seq<Expr>, item: Item)
    ensures cs == [] ==> Check(Logical(lop, cs), item) == Ok(true)
    ensures cs != [] && lop == Not && |cs| != 1 ==> Check(Logical(lop, cs), item) == Err(NotNeedsOneFilter)
    ensures |cs| == 1 && lop == Not ==>
      (Check(Logical(lop, cs), item) == Ok(true) <==> Check(cs[0], item) == Ok(false))
    ensures cs != [] && lop == And ==>
      (Check(Logical(lop, cs), item) == Ok(true) <==> forall i :: 0 <= i < |cs| ==> Check(cs[i], item) == Ok(true))
    ensures cs != [] && lop == Or ==>
      (Check(Logical(lop, cs), item) == Ok(true) <==>
        exists i :: 0 <= i < |cs| && Check(cs[i], item) == Ok(true) && forall j :: 0 <= j < i ==> Check(cs[j], item) == Ok(false))
  {
    CheckAllMeaning(cs, item);
    CheckAnyMeaning(cs, item);
    if cs != [] && lop == Or && Check(Logical(lop, cs), item) == Ok(true) {
      var i :| 0 <= i < |cs| && Ok(true) == Check(cs[i], item)
        && forall j :: 0 <= j < i ==> Check(cs[j], item) == Ok(false);
    }
  }

  // ---------------------------------------------------------------------
  // apply_filters

  /** `[item for item in data if filter.check(item)]`: the first item whose
      check raises makes the whole comprehension raise. */
  function ApplyFilters(data: seq<Item>, f: Expr): Result<seq<Item>, Error> {
    if data == [] then Ok([])
    else
      match Check(f, data[0])
      case Err(x) => Err(x)
      case Ok(keep) =>
        match ApplyFilters(data[1..], f)
        case Err(x) => Err(x)
        case Ok(rest) => Ok((if keep then [data[0]] else []) + rest)
  }

  /** The search succeeds exactly when no item's check raises; it then holds
      the items whose check is true and no others, and otherwise reports the
      error of the first item whose check raises. */
  lemma {:induction false} ApplyFiltersMeaning(data: seq<Item>, f: Expr)
    ensures ApplyFilters(data, f).Ok? <==> forall i :: 0 <= i < |data| ==> Check(f, data[i]).Ok?
    ensures ApplyFilters(data, f).Ok? ==> forall x <- ApplyFilters(data, f).value :: x in data && Check(f, x) == Ok(true)
    ensures ApplyFilters(data, f).Ok? ==>
      forall i :: 0 <= i < |data| && Check(f, data[i]) == Ok(true) ==> data[i] in ApplyFilters(data, f).value
    ensures ApplyFilters(data, f).Err? ==>
      exists i :: 0 <= i < |data| && Check(f, data[i]) == Err(ApplyFilters(data, f).error) && forall j :: 0 <= j < i ==> Check(f, data[j]).Ok?
    decreases |data|
  {
    if data != [] {
      var tail := data[1..];
      ApplyFiltersStep(data, f);
      ApplyFiltersMeaning(tail, f);
      assert forall i :: 1 <= i < |data| ==> data[i] == tail[i - 1];
      if Check(f, data[0]).Ok? && ApplyFilters(tail, f).Err? {
        var i :| 0 <= i < |tail| && Check(f, tail[i]) == Err(ApplyFilters(tail, f).error)
          && forall j :: 0 <= j < i ==> Check(f, tail[j]).Ok?;
        assert Check(f, data[i + 1]) == Err(ApplyFilters(data, f).error);
      }
      if ApplyFilters(data, f).Ok? {
        var rest := ApplyFilters(tail, f).value;
        forall x <- ApplyFilters(data, f).value ensures x in data && Check(f, x) == Ok(true) {
          if x in rest {
            var k :| 0 <= k < |tail| && tail[k] == x;
            assert data[k + 1] == x;
          }
        }
      }
    }
  }

  /** A search passes when the first item's check and the rest of the
      search pass; the first item is then kept or not by its own check,
      ahead of the rest. */
  lemma ApplyFiltersStep(data: seq<Item>, f: Expr)
    requires data != []
    ensures ApplyFilters(data, f).Ok? <==> Check(f, data[0]).Ok? && ApplyFilters(data[1..], f).Ok?
    ensures ApplyFilters(data, f).Ok? ==>
      ApplyFilters(data, f).value == (if Check(f, data[0]).value then [data[0]] else []) + ApplyFilters(data[1..], f).value
  {
  }

  /** Filtering a concatenation filters each part and keeps their order,
      so the result lists the matching items in catalog order. */
  lemma {:induction false} ApplyFiltersAppend(a: seq<Item>, b: seq<Item>, f: Expr)
    requires ApplyFilters(a, f).Ok? && ApplyFilters(b, f).Ok?
    ensures ApplyFilters(a + b, f) == Ok(ApplyFilters(a, f).value + ApplyFilters(b, f).value)
    decreases |a|
  {
    if a == [] {
      assert a + b == b;
      assert ApplyFilters(a, f) == Ok([]);
      assert [] + ApplyFilters(b, f).value == ApplyFilters(b, f).value;
    } else {
      var ab := a + b;
      assert ab[0] == a[0] && ab[1..] == a[1..] + b;
      ApplyFiltersStep(a, f);
      ApplyFiltersAppend(a[1..], b, f);
      ApplyFiltersStep(ab, f);
      var head := if Check(f, a[0]).value then [a[0]] else [];
      var restA, restB := ApplyFilters(a[1..], f).value, ApplyFilters(b, f).value;
      AppendAssociative(head, restA, restB);
    }
  }

  lemma AppendAssociative<T>(x: seq<T>, y: seq<T>, z: seq<T>)
    ensures x + (y + z) == (x + y) + z
  {
  }

  /** One item is kept exactly when its check is true. */
  lemma ApplyFiltersSingle(x: Item, f: Expr)
    ensures Check(f, x) == Ok(true) ==> ApplyFilters([x], f) == Ok([x])
    ensures Check(f, x) == Ok(false) ==> ApplyFilters([x], f) == Ok([])
    ensures Check(f, x).Err? ==> ApplyFilters([x], f) == Err(Check(f, x).error)
  {
    assert [x][0] == x && [x][1..] == [];
    assert ApplyFilters([], f) == Ok([]);
    var none: seq<Item> := [];
    assert [x] + none == [x] && none + none == none;
  }
}
