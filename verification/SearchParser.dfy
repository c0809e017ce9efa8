/** The shift-reduce parser of prefix search criteria (section 6.4.4 of RFC 9051). */
module SearchParser {
  import opened Wrappers
  import opened Sequences
  import opened SearchFilter
  import opened Decimal
  import SequenceSet

  /** The keys that a keyword and its arguments are read as: all but BEFORE. */
  type ParsedKey = key: Key | !key.Before? witness All

  /** A token of the criteria; a key stands for its keyword and its arguments, except that BEFORE
      and its date are two tokens, as they are to the parser. */
  datatype Token =
    | KeyToken(key: ParsedKey)
    | BeforeToken
    | DateToken(date: int)
    | OrToken
    | NotToken
    | ParenthesisOpen
    | ParenthesisClose
    | Unexpected

  datatype Frame = Frame(filters: seq<Filter>, operator: Operator)

  const MAX_NESTING: nat := 10

  // ----- The parser -----

  /** The variables of the parser's loop: the level being filled, and the levels around it. */
  datatype State = State(filters: seq<Filter>, operator: Operator, stack: seq<Frame>)

  const INITIAL := State([], And, [])

  /** A finished level as part of the level around it. */
  function Merge(outer: Frame, operator: Operator, filters: seq<Filter>): seq<Filter> {
    if operator == And && (outer.operator != Or || |filters| == 1) then outer.filters + filters
    else outer.filters + [Operator(operator, filters)]
  }

  predicate Open(operator: Operator, filters: seq<Filter>) {
    operator == And || (operator == Or && |filters| < 2)
  }

  /** Closes finished levels until one can still take a filter. */
  function Reduce(filters: seq<Filter>, operator: Operator, stack: seq<Frame>): State
    decreases |stack|
  {
    if stack == [] then State(filters, operator, stack)
    else
      var outer, rest := stack[|stack| - 1], stack[..|stack| - 1];
      var merged := Merge(outer, operator, filters);
      if Open(outer.operator, merged) then State(merged, outer.operator, rest)
      else Reduce(merged, outer.operator, rest)
  }

  function Enter(st: State, operator: Operator): Option<State> {
    if |st.stack| > MAX_NESTING then None
    else Some(State([], operator, st.stack + [Frame(st.filters, st.operator)]))
  }

  /** A key joins the level being filled. */
  function Push(st: State, key: Key): State {
    var filters := st.filters + [Leaf(key)];
    if st.stack != [] && ((st.operator == Or && |filters| == 2) || (st.operator == Not && |filters| == 1)) then
      Reduce(filters, st.operator, st.stack)
    else st.(filters := filters)
  }

  /** BEFORE is read as ALL and leaves its date, which is then taken for a sequence set and refused. */
  function Step(st: State, token: Token): Option<State> {
    match token
    case KeyToken(key) => Some(Push(st, key))
    case BeforeToken => Some(Push(st, All))
    case DateToken(_) => None
    case OrToken => Enter(st, Or)
    case NotToken => Enter(st, Not)
    case ParenthesisOpen => Enter(st, And)
    case ParenthesisClose =>
      if st.stack == [] then None else Some(Reduce(st.filters, st.operator, st.stack))
    case Unexpected => None
  }

  function Run(st: State, tokens: seq<Token>): Option<seq<Filter>>
    decreases |tokens|
  {
    if tokens == [] then Some(st.filters)
    else
      var next :- Step(st, tokens[0]);
      Run(next, tokens[1..])
  }

  method ParseFilters(tokens: seq<Token>) returns (result: Option<seq<Filter>>)
    ensures result == Run(INITIAL, tokens)
  {
    var filters, operator := [], And;
    var stack: seq<Frame> := [];
    assert tokens[0..] == tokens;
    for i := 0 to |tokens|
      invariant Run(State(filters, operator, stack), tokens[i..]) == Run(INITIAL, tokens)
    {
      assert tokens[i..][1..] == tokens[i + 1..];
      var foundParenthesis := false;
      match tokens[i] {
        case KeyToken(key) =>
          filters := filters + [Leaf(key)];
        case BeforeToken =>
          filters := filters + [Leaf(All)];
        case DateToken(_) =>
          return None;
        case ParenthesisClose =>
          if stack == [] {
            return None;
          }
          foundParenthesis := true;
        case Unexpected =>
          return None;
        case _ =>
          if |stack| > MAX_NESTING {
            return None;
          }
          stack := stack + [Frame(filters, operator)];
          filters := [];
          operator := if tokens[i].OrToken? then Or else if tokens[i].NotToken? then Not else And;
          continue;
      }
      if stack != [] && (foundParenthesis || (operator == Or && |filters| == 2) || (operator == Not && |filters| == 1)) {
        filters, operator, stack := ReduceLevels(filters, operator, stack);
      }
    }
    return Some(filters);
  }

  /** The inner loop of the parser. */
  method ReduceLevels(level: seq<Filter>, levelOperator: Operator, levels: seq<Frame>)
    returns (filters: seq<Filter>, operator: Operator, stack: seq<Frame>)
    ensures State(filters, operator, stack) == Reduce(level, levelOperator, levels)
  {
    filters, operator, stack := level, levelOperator, levels;
    while stack != []
      invariant Reduce(filters, operator, stack) == Reduce(level, levelOperator, levels)
      decreases |stack|
    {
      var prev := stack[|stack| - 1];
      ghost var before := State(filters, operator, stack);
      stack := stack[..|stack| - 1];
      if operator == And && (prev.operator != Or || |filters| == 1) {
        filters := prev.filters + filters;
      } else {
        filters := prev.filters + [Operator(operator, filters)];
      }
      operator := prev.operator;
      if operator == And || (operator == Or && |filters| < 2) {
        return;
      }
    }
  }

  /** The criteria of a command as one filter. */
  method ParseSearch(tokens: seq<Token>) returns (result: Option<Filter>)
    ensures result == Combine(Run(INITIAL, tokens))
  {
    var filters := ParseFilters(tokens);
    if filters.None? || |filters.value| == 0 {
      return None;
    } else if |filters.value| == 1 {
      return Some(filters.value[0]);
    }
    return Some(Operator(And, filters.value));
  }

  function Combine(filters: Option<seq<Filter>>): Option<Filter> {
    var filters :- filters;
    if |filters| == 0 then None else if |filters| == 1 then Some(filters[0]) else Some(Operator(And, filters))
  }

  // ----- Expressions of the grammar -----

  /** A search key of the grammar. */
  datatype Expr = Plain(key: Key) | Negated(e: Expr) | Either(a: Expr, b: Expr) | Group(es: seq<Expr>)

  function Print(e: Expr): seq<Token>
    decreases e, 1
  {
    match e
    case Plain(key) => if key.Before? then [BeforeToken, DateToken(key.date)] else [KeyToken(key)]
    case Negated(e) => [NotToken] + Print(e)
    case Either(a, b) => [OrToken] + Print(a) + Print(b)
    case Group(es) => [ParenthesisOpen] + PrintAll(es) + [ParenthesisClose]
  }

  function PrintAll(es: seq<Expr>): seq<Token>
    decreases es, 0
  {
    if es == [] then [] else Print(es[0]) + PrintAll(es[1..])
  }

  /** How many levels an expression opens inside each other. */
  function Depth(e: Expr): nat
    decreases e, 1
  {
    match e
    case Plain(_) => 0
    case Negated(e) => 1 + Depth(e)
    case Either(a, b) => 1 + Max(Depth(a), Depth(b))
    case Group(es) => 1 + DepthAll(es)
  }

  function DepthAll(es: seq<Expr>): nat
    decreases es, 0
  {
    if es == [] then 0 else Max(Depth(es[0]), DepthAll(es[1..]))
  }

  /** BEFORE is not among the keys. */
  predicate NoBefore(e: Expr)
    decreases e, 1
  {
    match e
    case Plain(key) => !key.Before?
    case Negated(e) => NoBefore(e)
    case Either(a, b) => NoBefore(a) && NoBefore(b)
    case Group(es) => NoBeforeAll(es)
  }

  predicate NoBeforeAll(es: seq<Expr>)
    decreases es, 0
  {
    es == [] || (NoBefore(es[0]) && NoBeforeAll(es[1..]))
  }

  /** The parser can take the expression inside so many levels. */
  predicate Fits(e: Expr, levels: nat) {
    levels + Depth(e) <= 11 && NoBefore(e)
  }

  predicate FitAll(es: seq<Expr>, levels: nat) {
    levels + DepthAll(es) <= 11 && NoBeforeAll(es)
  }

  function Max(a: nat, b: nat): nat {
    if a < b then b else a
  }

  /** What an expression means when the keys in `v` hold. */
  ghost predicate Meaning(e: Expr, v: iset<Key>)
    decreases e, 1
  {
    match e
    case Plain(key) => key in v
    case Negated(e) => !Meaning(e, v)
    case Either(a, b) => Meaning(a, v) || Meaning(b, v)
    case Group(es) => MeaningAll(es, v)
  }

  ghost predicate MeaningAll(es: seq<Expr>, v: iset<Key>)
    decreases es, 0
  {
    es == [] || (Meaning(es[0], v) && MeaningAll(es[1..], v))
  }

  // ----- What the parser makes of an expression -----

  /** The filters that an expression adds to a level with the given operator: a group is dissolved
      into the level around it, except that inside OR it must stay one filter. */
  function Flatten(e: Expr, operator: Operator): (filters: seq<Filter>)
    ensures operator == Or ==> |filters| == 1
    decreases e, 1
  {
    match e
    case Plain(key) => [Leaf(key)]
    case Negated(e) => [Operator(Not, Flatten(e, Not))]
    case Either(a, b) => [Operator(Or, Flatten(a, Or) + Flatten(b, Or))]
    case Group(es) => Merge(Frame([], operator), And, FlattenAll(es))
  }

  function FlattenAll(es: seq<Expr>): seq<Filter>
    decreases es, 0
  {
    if es == [] then [] else Flatten(es[0], And) + FlattenAll(es[1..])
  }

  /** The state after filters have been added to the level being filled. */
  function Add(st: State, filters: seq<Filter>): State {
    var all := st.filters + filters;
    if Open(st.operator, all) then st.(filters := all) else Reduce(all, st.operator, st.stack)
  }

  /** The level being filled can take one more key. */
  predicate Ready(st: State) {
    st.operator == And || (st.stack != [] && (st.operator == Or ==> |st.filters| < 2) && (st.operator == Not ==> st.filters == []))
  }

  lemma MergeAdds(outer: Frame, operator: Operator, filters: seq<Filter>)
    ensures Merge(outer, operator, filters) == outer.filters + Merge(Frame([], outer.operator), operator, filters)
  {
  }

  lemma RunConcat(st: State, first: Token, tokens: seq<Token>)
    requires Step(st, first).Some?
    ensures Run(st, [first] + tokens) == Run(Step(st, first).value, tokens)
  {
    assert ([first] + tokens)[1..] == tokens;
  }

  lemma {:induction false} ParseExpr(e: Expr, st: State, rest: seq<Token>)
    requires Ready(st) && Fits(e, |st.stack|)
    ensures Run(st, Print(e) + rest) == Run(Add(st, Flatten(e, st.operator)), rest)
    decreases e, 1
  {
    match e
    case Plain(key) => RunConcat(st, KeyToken(key), rest);
    case Negated(_) => ParseNegated(e, st, rest);
    case Either(_, _) => ParseEither(e, st, rest);
    case Group(_) => ParseGroup(e, st, rest);
  }

  lemma {:induction false} ParseNegated(e: Expr, st: State, rest: seq<Token>)
    requires e.Negated? && Fits(e, |st.stack|)
    ensures Run(st, Print(e) + rest) == Run(Add(st, Flatten(e, st.operator)), rest)
    decreases e, 0
  {
    var inner := State([], Not, st.stack + [Frame(st.filters, st.operator)]);
    Associative([NotToken], Print(e.e), rest);
    RunConcat(st, NotToken, Print(e.e) + rest);
    ParseExpr(e.e, inner, rest);
    EmptyLeft(Flatten(e.e, Not));
    AddNested(inner, st, Flatten(e.e, Not));
  }

  lemma {:induction false} ParseEither(e: Expr, st: State, rest: seq<Token>)
    requires e.Either? && Fits(e, |st.stack|)
    ensures Run(st, Print(e) + rest) == Run(Add(st, Flatten(e, st.operator)), rest)
    decreases e, 0
  {
    var inner := State([], Or, st.stack + [Frame(st.filters, st.operator)]);
    var fa, fb := Flatten(e.a, Or), Flatten(e.b, Or);
    Associative([OrToken] + Print(e.a), Print(e.b), rest);
    Associative([OrToken], Print(e.a), Print(e.b) + rest);
    RunConcat(st, OrToken, Print(e.a) + (Print(e.b) + rest));
    ParseExpr(e.a, inner, Print(e.b) + rest);
    EmptyLeft(fa);
    ParseExpr(e.b, inner.(filters := fa), rest);
    AddNested(inner, st, fa + fb);
  }

  lemma {:induction false} ParseGroup(e: Expr, st: State, rest: seq<Token>)
    requires e.Group? && Fits(e, |st.stack|)
    ensures Run(st, Print(e) + rest) == Run(Add(st, Flatten(e, st.operator)), rest)
    decreases e, 0
  {
    var inner := State([], And, st.stack + [Frame(st.filters, st.operator)]);
    var tokens := PrintAll(e.es);
    Associative([ParenthesisOpen] + tokens, [ParenthesisClose], rest);
    Associative([ParenthesisOpen], tokens, [ParenthesisClose] + rest);
    RunConcat(st, ParenthesisOpen, tokens + ([ParenthesisClose] + rest));
    ParseExprs(e.es, inner, [ParenthesisClose] + rest);
    EmptyLeft(FlattenAll(e.es));
    RunConcat(inner.(filters := FlattenAll(e.es)), ParenthesisClose, rest);
    AddNested(inner, st, FlattenAll(e.es));
  }

  /** Closing a level gives its filters to the level around it. */
  lemma AddNested(inner: State, st: State, filters: seq<Filter>)
    requires inner.stack == st.stack + [Frame(st.filters, st.operator)]
    ensures Reduce(filters, inner.operator, inner.stack) == Add(st, Merge(Frame([], st.operator), inner.operator, filters))
    ensures inner.operator != And ==> Merge(Frame([], st.operator), inner.operator, filters) == [Operator(inner.operator, filters)]
  {
    MergeAdds(Frame(st.filters, st.operator), inner.operator, filters);
    EmptyLeft([Operator(inner.operator, filters)]);
    assert inner.stack[..|inner.stack| - 1] == st.stack;
  }

  lemma {:induction false} ParseExprs(es: seq<Expr>, st: State, rest: seq<Token>)
    requires st.operator == And && FitAll(es, |st.stack|)
    ensures Run(st, PrintAll(es) + rest) == Run(st.(filters := st.filters + FlattenAll(es)), rest)
    decreases es, 0
  {
    if es == [] {
      assert [] + rest == rest;
      assert st.filters + [] == st.filters;
    } else {
      Associative(Print(es[0]), PrintAll(es[1..]), rest);
      ParseExpr(es[0], st, PrintAll(es[1..]) + rest);
      ParseExprs(es[1..], st.(filters := st.filters + Flatten(es[0], And)), rest);
      Associative(st.filters, Flatten(es[0], And), FlattenAll(es[1..]));
    }
  }

  lemma {:induction false} RejectExpr(e: Expr, st: State, rest: seq<Token>)
    requires Ready(st) && |st.stack| <= MAX_NESTING + 1 && !Fits(e, |st.stack|)
    ensures Run(st, Print(e) + rest).None?
    decreases e, 1
  {
    if e.Plain? {
      RunConcat(st, BeforeToken, [DateToken(e.key.date)] + rest);
      Associative([BeforeToken], [DateToken(e.key.date)], rest);
    } else if |st.stack| <= MAX_NESTING {
      var stack := st.stack + [Frame(st.filters, st.operator)];
      match e
      case Negated(x) =>
        Associative([NotToken], Print(x), rest);
        RunConcat(st, NotToken, Print(x) + rest);
        RejectExpr(x, State([], Not, stack), rest);
      case Either(a, b) =>
        Associative([OrToken] + Print(a), Print(b), rest);
        Associative([OrToken], Print(a), Print(b) + rest);
        RunConcat(st, OrToken, Print(a) + (Print(b) + rest));
        RejectEither(e, State([], Or, stack), rest);
      case Group(es) =>
        Associative([ParenthesisOpen] + PrintAll(es), [ParenthesisClose], rest);
        Associative([ParenthesisOpen], PrintAll(es), [ParenthesisClose] + rest);
        RunConcat(st, ParenthesisOpen, PrintAll(es) + ([ParenthesisClose] + rest));
        RejectExprs(es, State([], And, stack), [ParenthesisClose] + rest);
    }
  }

  lemma {:induction false} RejectEither(e: Expr, st: State, rest: seq<Token>)
    requires e.Either? && st.operator == Or && st.filters == [] && st.stack != []
    requires |st.stack| <= MAX_NESTING + 1 && !(Fits(e.a, |st.stack|) && Fits(e.b, |st.stack|))
    ensures Run(st, Print(e.a) + (Print(e.b) + rest)).None?
    decreases e, 0
  {
    if !Fits(e.a, |st.stack|) {
      RejectExpr(e.a, st, Print(e.b) + rest);
    } else {
      ParseExpr(e.a, st, Print(e.b) + rest);
      EmptyLeft(Flatten(e.a, Or));
      RejectExpr(e.b, st.(filters := Flatten(e.a, Or)), rest);
    }
  }

  lemma {:induction false} RejectExprs(es: seq<Expr>, st: State, rest: seq<Token>)
    requires st.operator == And && |st.stack| <= MAX_NESTING + 1 && !FitAll(es, |st.stack|)
    ensures Run(st, PrintAll(es) + rest).None?
    decreases es, 0
  {
    Associative(Print(es[0]), PrintAll(es[1..]), rest);
    if !Fits(es[0], |st.stack|) {
      RejectExpr(es[0], st, PrintAll(es[1..]) + rest);
    } else {
      ParseExpr(es[0], st, PrintAll(es[1..]) + rest);
      RejectExprs(es[1..], st.(filters := st.filters + Flatten(es[0], And)), rest);
    }
  }

  /** Criteria are accepted exactly when they nest at most eleven levels deep and BEFORE is not among
      the keys; then every token is used and the result is the flattened filters. */
  lemma ParsePrinted(es: seq<Expr>)
    ensures Run(INITIAL, PrintAll(es)) == if FitAll(es, 0) then Some(FlattenAll(es)) else None
  {
    EmptyRight(PrintAll(es));
    if FitAll(es, 0) {
      ParseExprs(es, INITIAL, []);
      EmptyLeft(FlattenAll(es));
    } else {
      RejectExprs(es, INITIAL, []);
    }
  }

  // ----- The meaning is kept -----

  /** Every NOT is applied to an expression that flattens to one filter. */
  predicate SingleNots(e: Expr)
    decreases e, 1
  {
    match e
    case Plain(_) => true
    case Negated(x) => |Flatten(x, Not)| == 1 && SingleNots(x)
    case Either(a, b) => SingleNots(a) && SingleNots(b)
    case Group(es) => SingleNotsAll(es)
  }

  predicate SingleNotsAll(es: seq<Expr>)
    decreases es, 0
  {
    es == [] || (SingleNots(es[0]) && SingleNotsAll(es[1..]))
  }

  lemma {:induction false} FlattenKeepsMeaning(e: Expr, operator: Operator, v: iset<Key>)
    requires SingleNots(e)
    ensures AllHold(Flatten(e, operator), v) <==> Meaning(e, v)
    decreases e, 1
  {
    match e
    case Plain(key) =>
    case Negated(x) =>
      FlattenKeepsMeaning(x, Not, v);
      HoldOne(Flatten(x, Not)[0], v);
      assert Flatten(x, Not) == [Flatten(x, Not)[0]];
    case Either(a, b) =>
      FlattenKeepsMeaning(a, Or, v);
      FlattenKeepsMeaning(b, Or, v);
      HoldConcat(Flatten(a, Or), Flatten(b, Or), v);
      HoldOne(Flatten(a, Or)[0], v);
      HoldOne(Flatten(b, Or)[0], v);
      assert Flatten(a, Or) == [Flatten(a, Or)[0]] && Flatten(b, Or) == [Flatten(b, Or)[0]];
    case Group(es) =>
      FlattenAllKeepsMeaning(es, v);
      MergeHolds(operator, FlattenAll(es), v);
  }

  lemma MergeHolds(operator: Operator, filters: seq<Filter>, v: iset<Key>)
    ensures AllHold(Merge(Frame([], operator), And, filters), v) <==> AllHold(filters, v)
    ensures filters != [] && !SomeHold(filters, v) ==> !SomeHold(Merge(Frame([], operator), And, filters), v)
  {
    EmptyLeft(filters);
    EmptyLeft([Operator(And, filters)]);
    HoldOne(Operator(And, filters), v);
  }

  lemma {:induction false} FlattenAllKeepsMeaning(es: seq<Expr>, v: iset<Key>)
    requires SingleNotsAll(es)
    ensures AllHold(FlattenAll(es), v) <==> MeaningAll(es, v)
    decreases es, 0
  {
    if es != [] {
      FlattenKeepsMeaning(es[0], And, v);
      FlattenAllKeepsMeaning(es[1..], v);
      HoldConcat(Flatten(es[0], And), FlattenAll(es[1..]), v);
    }
  }

  // ----- The condition is exact -----

  ghost function Keys(e: Expr): iset<Key>
    decreases e, 1
  {
    match e
    case Plain(key) => iset{key}
    case Negated(e) => Keys(e)
    case Either(a, b) => Keys(a) + Keys(b)
    case Group(es) => KeysAll(es)
  }

  ghost function KeysAll(es: seq<Expr>): iset<Key>
    decreases es, 0
  {
    if es == [] then iset{} else Keys(es[0]) + KeysAll(es[1..])
  }

  /** No key is used twice, and no group is empty: the keys are then independent of each other. */
  ghost predicate ReadOnce(e: Expr)
    decreases e, 1
  {
    match e
    case Plain(_) => true
    case Negated(x) => ReadOnce(x)
    case Either(a, b) => ReadOnce(a) && ReadOnce(b) && Keys(a) !! Keys(b)
    case Group(es) => es != [] && ReadOnceAll(es)
  }

  ghost predicate ReadOnceAll(es: seq<Expr>)
    decreases es, 0
  {
    es == [] || (ReadOnce(es[0]) && ReadOnceAll(es[1..]) && Keys(es[0]) !! KeysAll(es[1..]))
  }

  /** Only the keys of an expression matter to it and to the filters it flattens to. */
  lemma {:induction false} OnlyItsKeys(e: Expr, operator: Operator, v: iset<Key>, w: iset<Key>)
    requires v * Keys(e) == w * Keys(e)
    ensures Meaning(e, v) <==> Meaning(e, w)
    ensures AllHold(Flatten(e, operator), v) <==> AllHold(Flatten(e, operator), w)
    ensures SomeHold(Flatten(e, operator), v) <==> SomeHold(Flatten(e, operator), w)
    decreases e, 1
  {
    match e
    case Plain(key) =>
      assert key in v <==> key in v * Keys(e);
      assert key in w <==> key in w * Keys(e);
    case Negated(x) =>
      OnlyItsKeys(x, Not, v, w);
      HoldOne(Operator(Not, Flatten(x, Not)), v);
      HoldOne(Operator(Not, Flatten(x, Not)), w);
    case Either(a, b) =>
      SmallerKeys(v, w, Keys(a), Keys(e));
      SmallerKeys(v, w, Keys(b), Keys(e));
      OnlyItsKeys(a, Or, v, w);
      OnlyItsKeys(b, Or, v, w);
      HoldConcat(Flatten(a, Or), Flatten(b, Or), v);
      HoldConcat(Flatten(a, Or), Flatten(b, Or), w);
    case Group(es) =>
      OnlyTheirKeys(es, v, w);
      EmptyLeft(FlattenAll(es));
  }

  lemma SmallerKeys(v: iset<Key>, w: iset<Key>, small: iset<Key>, large: iset<Key>)
    requires small <= large && v * large == w * large
    ensures v * small == w * small
  {
    assert v * small == (v * large) * small;
    assert w * small == (w * large) * small;
  }

  lemma {:induction false} OnlyTheirKeys(es: seq<Expr>, v: iset<Key>, w: iset<Key>)
    requires v * KeysAll(es) == w * KeysAll(es)
    ensures MeaningAll(es, v) <==> MeaningAll(es, w)
    ensures AllHold(FlattenAll(es), v) <==> AllHold(FlattenAll(es), w)
    ensures SomeHold(FlattenAll(es), v) <==> SomeHold(FlattenAll(es), w)
    decreases es, 0
  {
    if es != [] {
      SmallerKeys(v, w, Keys(es[0]), KeysAll(es));
      SmallerKeys(v, w, KeysAll(es[1..]), KeysAll(es));
      OnlyItsKeys(es[0], And, v, w);
      OnlyTheirKeys(es[1..], v, w);
      HoldConcat(Flatten(es[0], And), FlattenAll(es[1..]), v);
      HoldConcat(Flatten(es[0], And), FlattenAll(es[1..]), w);
    }
  }

  /** A set of keys that makes every key not under an odd number of NOTs hold, and its opposite. */
  ghost function Truth(e: Expr, value: bool): iset<Key>
    decreases e, 1
  {
    match e
    case Plain(key) => if value then iset{key} else iset{}
    case Negated(x) => Truth(x, !value)
    case Either(a, b) => Truth(a, value) + Truth(b, value)
    case Group(es) => TruthAll(es, value)
  }

  ghost function TruthAll(es: seq<Expr>, value: bool): iset<Key>
    decreases es, 0
  {
    if es == [] then iset{} else Truth(es[0], value) + TruthAll(es[1..], value)
  }

  lemma {:induction false} TruthUsesKeys(e: Expr, value: bool)
    ensures Truth(e, value) <= Keys(e)
    decreases e, 1
  {
    match e
    case Plain(_) =>
    case Negated(x) => TruthUsesKeys(x, !value);
    case Either(a, b) => TruthUsesKeys(a, value); TruthUsesKeys(b, value);
    case Group(es) => TruthAllUsesKeys(es, value);
  }

  lemma {:induction false} TruthAllUsesKeys(es: seq<Expr>, value: bool)
    ensures TruthAll(es, value) <= KeysAll(es)
    decreases es, 0
  {
    if es != [] {
      TruthUsesKeys(es[0], value);
      TruthAllUsesKeys(es[1..], value);
    }
  }

  /** Adding keys foreign to `e` changes nothing for `e`. */
  lemma Foreign(e: Expr, operator: Operator, v: iset<Key>, others: iset<Key>)
    requires others !! Keys(e)
    ensures Meaning(e, v + others) <==> Meaning(e, v)
    ensures AllHold(Flatten(e, operator), v + others) <==> AllHold(Flatten(e, operator), v)
    ensures SomeHold(Flatten(e, operator), v + others) <==> SomeHold(Flatten(e, operator), v)
  {
    assert (v + others) * Keys(e) == v * Keys(e);
    OnlyItsKeys(e, operator, v + others, v);
  }

  lemma ForeignAll(es: seq<Expr>, v: iset<Key>, others: iset<Key>)
    requires others !! KeysAll(es)
    ensures MeaningAll(es, v + others) <==> MeaningAll(es, v)
    ensures AllHold(FlattenAll(es), v + others) <==> AllHold(FlattenAll(es), v)
    ensures SomeHold(FlattenAll(es), v + others) <==> SomeHold(FlattenAll(es), v)
  {
    assert (v + others) * KeysAll(es) == v * KeysAll(es);
    OnlyTheirKeys(es, v + others, v);
  }

  /** Independent keys can make an expression and all its filters hold, or none of them. */
  lemma {:induction false} BothValues(e: Expr, operator: Operator, value: bool)
    requires ReadOnce(e)
    ensures Flatten(e, operator) != []
    ensures Meaning(e, Truth(e, value)) == value
    ensures if value then AllHold(Flatten(e, operator), Truth(e, value)) else !SomeHold(Flatten(e, operator), Truth(e, value))
    decreases e, 1
  {
    match e
    case Plain(key) => HoldOne(Leaf(key), Truth(e, value));
    case Negated(x) =>
      BothValues(x, Not, !value);
      if !value {
        AllImpliesSome(Flatten(x, Not), Truth(x, true));
      }
      HoldOne(Operator(Not, Flatten(x, Not)), Truth(e, value));
    case Either(a, b) =>
      BothValuesEither(a, b, value);
      HoldOne(Operator(Or, Flatten(a, Or) + Flatten(b, Or)), Truth(e, value));
    case Group(es) =>
      BothValuesAll(es, value);
      MergeHolds(operator, FlattenAll(es), Truth(e, value));
  }

  lemma {:induction false} BothValuesEither(a: Expr, b: Expr, value: bool)
    requires ReadOnce(a) && ReadOnce(b) && Keys(a) !! Keys(b)
    ensures var v := Truth(a, value) + Truth(b, value);
            && Meaning(a, v) == Meaning(b, v) == value
            && SomeHold(Flatten(a, Or) + Flatten(b, Or), v) == value
    decreases Either(a, b), 0
  {
    BothValues(a, Or, value);
    BothValues(b, Or, value);
    TruthUsesKeys(a, value);
    TruthUsesKeys(b, value);
    Foreign(a, Or, Truth(a, value), Truth(b, value));
    Foreign(b, Or, Truth(b, value), Truth(a, value));
    assert Truth(a, value) + Truth(b, value) == Truth(b, value) + Truth(a, value);
    HoldConcat(Flatten(a, Or), Flatten(b, Or), Truth(a, value) + Truth(b, value));
  }

  lemma {:induction false} BothValuesAll(es: seq<Expr>, value: bool)
    requires ReadOnceAll(es)
    ensures es != [] ==> FlattenAll(es) != []
    ensures es != [] ==> MeaningAll(es, TruthAll(es, value)) == value
    ensures if value then AllHold(FlattenAll(es), TruthAll(es, value)) else !SomeHold(FlattenAll(es), TruthAll(es, value))
    decreases es, 0
  {
    if es != [] {
      var first, rest := Truth(es[0], value), TruthAll(es[1..], value);
      BothValues(es[0], And, value);
      BothValuesAll(es[1..], value);
      TruthUsesKeys(es[0], value);
      TruthAllUsesKeys(es[1..], value);
      Foreign(es[0], And, first, rest);
      ForeignAll(es[1..], rest, first);
      assert first + rest == rest + first;
      HoldConcat(Flatten(es[0], And), FlattenAll(es[1..]), first + rest);
    }
  }

  /** A group that flattens to several filters can fail while one of its filters holds. */
  lemma {:induction false} SplitGroup(e: Expr, operator: Operator) returns (v: iset<Key>)
    requires ReadOnce(e) && operator != Or && |Flatten(e, operator)| > 1
    ensures v <= Keys(e) && SomeHold(Flatten(e, operator), v) && !Meaning(e, v)
    decreases e
  {
    assert e.Group?;
    EmptyLeft(FlattenAll(e.es));
    var first, rest := e.es[0], e.es[1..];
    if rest == [] {
      assert FlattenAll(rest) == [];
      EmptyRight(Flatten(first, And));
      assert Flatten(e, operator) == Flatten(first, And);
      v := SplitGroup(first, And);
    } else {
      BothValues(first, And, true);
      BothValuesAll(rest, false);
      TruthUsesKeys(first, true);
      TruthAllUsesKeys(rest, false);
      v := Truth(first, true) + TruthAll(rest, false);
      Foreign(first, And, Truth(first, true), TruthAll(rest, false));
      ForeignAll(rest, TruthAll(rest, false), Truth(first, true));
      assert v == TruthAll(rest, false) + Truth(first, true);
      HoldConcat(Flatten(first, And), FlattenAll(rest), v);
      AllImpliesSome(Flatten(first, And), v);
    }
  }

  lemma AllImpliesSome(filters: seq<Filter>, v: iset<Key>)
    requires filters != [] && AllHold(filters, v)
    ensures SomeHold(filters, v)
  {
  }

  /** With independent keys, a NOT of several filters always shows. */
  lemma {:induction false} Differs(e: Expr, operator: Operator) returns (v: iset<Key>)
    requires ReadOnce(e) && !SingleNots(e)
    ensures v <= Keys(e) && AllHold(Flatten(e, operator), v) != Meaning(e, v)
    decreases e, 1
  {
    match e
    case Negated(x) =>
      HoldsNot(x);
      BothValues(x, Not, true);
      if |Flatten(x, Not)| > 1 {
        v := SplitGroup(x, Not);
      } else {
        v := Differs(x, Not);
        HoldOne(Flatten(x, Not)[0], v);
        assert Flatten(x, Not) == [Flatten(x, Not)[0]];
      }
    case Either(a, b) =>
      v := DiffersEither(a, b);
      HoldOne(Operator(Or, Flatten(a, Or) + Flatten(b, Or)), v);
    case Group(es) =>
      v := DiffersAll(es);
      MergeHolds(operator, FlattenAll(es), v);
  }

  lemma HoldsNot(x: Expr)
    ensures forall v: iset<Key> :: AllHold([Operator(Not, Flatten(x, Not))], v) <==> !SomeHold(Flatten(x, Not), v)
  {
    forall v: iset<Key>
      ensures AllHold([Operator(Not, Flatten(x, Not))], v) <==> !SomeHold(Flatten(x, Not), v)
    {
      HoldOne(Operator(Not, Flatten(x, Not)), v);
    }
  }

  lemma {:induction false} DiffersEither(a: Expr, b: Expr) returns (v: iset<Key>)
    requires ReadOnce(Either(a, b)) && !SingleNots(Either(a, b))
    ensures v <= Keys(a) + Keys(b)
    ensures SomeHold(Flatten(a, Or) + Flatten(b, Or), v) != (Meaning(a, v) || Meaning(b, v))
    decreases Either(a, b), 0
  {
    var (x, y) := if SingleNots(a) then (b, a) else (a, b);
    var w := Differs(x, Or);
    BothValues(y, Or, false);
    TruthUsesKeys(y, false);
    v := w + Truth(y, false);
    Foreign(x, Or, w, Truth(y, false));
    Foreign(y, Or, Truth(y, false), w);
    assert v == Truth(y, false) + w;
    HoldConcat(Flatten(a, Or), Flatten(b, Or), v);
    HoldOne(Flatten(x, Or)[0], v);
    assert Flatten(x, Or) == [Flatten(x, Or)[0]];
  }

  lemma {:induction false} DiffersAll(es: seq<Expr>) returns (v: iset<Key>)
    requires ReadOnceAll(es) && !SingleNotsAll(es)
    ensures v <= KeysAll(es) && AllHold(FlattenAll(es), v) != MeaningAll(es, v)
    decreases es, 0
  {
    var first, rest := es[0], es[1..];
    var w: iset<Key>, u: iset<Key>;
    if SingleNots(first) {
      w := Truth(first, true);
      u := DiffersAll(rest);
      BothValues(first, And, true);
      TruthUsesKeys(first, true);
    } else {
      w := Differs(first, And);
      u := TruthAll(rest, true);
      BothValuesAll(rest, true);
      TruthAllUsesKeys(rest, true);
    }
    v := w + u;
    Foreign(first, And, w, u);
    ForeignAll(rest, u, w);
    assert v == u + w;
    HoldConcat(Flatten(first, And), FlattenAll(rest), v);
  }

  /** The meaning of parsed criteria: every key of the command holds. */
  ghost predicate ParsedMeaning(es: seq<Expr>, v: iset<Key>) {
    var filter := Combine(Run(INITIAL, PrintAll(es)));
    filter.Some? && Holds(filter.value, v)
  }

  lemma ParsedIsFlattened(es: seq<Expr>, v: iset<Key>)
    requires FlattenAll(es) != [] && FitAll(es, 0)
    ensures ParsedMeaning(es, v) <==> AllHold(FlattenAll(es), v)
  {
    ParsePrinted(es);
    if |FlattenAll(es)| == 1 {
      HoldOne(FlattenAll(es)[0], v);
      assert FlattenAll(es) == [FlattenAll(es)[0]];
    }
  }

  /** Parsing keeps the meaning of criteria whose NOTs each apply to a single filter. */
  lemma ParseKeepsMeaning(es: seq<Expr>, v: iset<Key>)
    requires FlattenAll(es) != [] && FitAll(es, 0) && SingleNotsAll(es)
    ensures ParsedMeaning(es, v) <==> MeaningAll(es, v)
  {
    ParsedIsFlattened(es, v);
    FlattenAllKeepsMeaning(es, v);
  }

  /** For criteria over independent keys that condition is exact. */
  lemma ParseKeepsMeaningIff(es: seq<Expr>)
    requires es != [] && ReadOnceAll(es) && FitAll(es, 0)
    ensures (forall v: iset<Key> :: ParsedMeaning(es, v) <==> MeaningAll(es, v)) <==> SingleNotsAll(es)
  {
    BothValuesAll(es, true);
    forall v: iset<Key>
      ensures SingleNotsAll(es) ==> (ParsedMeaning(es, v) <==> MeaningAll(es, v))
    {
      if SingleNotsAll(es) {
        ParseKeepsMeaning(es, v);
      }
    }
    if !SingleNotsAll(es) {
      var v := DiffersAll(es);
      ParsedIsFlattened(es, v);
      assert ParsedMeaning(es, v) != MeaningAll(es, v);
    }
  }

  /** `BEFORE 1-Jan-2020` is refused, as `BEFORE` with any other date. */
  lemma BeforeIsRefused(date: int)
    ensures PrintAll([Plain(Before(date))]) == [BeforeToken, DateToken(date)]
    ensures Run(INITIAL, PrintAll([Plain(Before(date))])).None?
  {
    var es := [Plain(Before(date))];
    var none: seq<Expr> := [];
    assert es[1..] == none;
    EmptyRight(Print(es[0]));
    ParsePrinted(es);
  }

  /** Why the date of BEFORE is refused: no text with a hyphen is a sequence set. */
  lemma HyphenIsRefused(value: seq<Byte>)
    requires 45 in value
    ensures SequenceSet.Parse(value).None?
  {
    var at :| 0 <= at < |value| && value[at] == 45;
    SequenceSet.OtherIsRefused(value, at);
  }

  /** `NOT (KEYWORD a KEYWORD b)` does not match a message with one of the two flags. */
  lemma NotOfGroupIsNoneOf(a: Key, b: Key)
    requires a != b && !a.Before? && !b.Before?
    ensures var es := [Negated(Group([Plain(a), Plain(b)]))];
            MeaningAll(es, iset{a}) && !ParsedMeaning(es, iset{a})
  {
    var pair, last := [Plain(a), Plain(b)], [Plain(b)];
    var es := [Negated(Group(pair))];
    var none: seq<Expr> := [];
    assert pair[1..] == last && last[1..] == none && es[1..] == none;
    assert FlattenAll(last) == [Leaf(b)] + FlattenAll(none) == [Leaf(b)];
    assert FlattenAll(pair) == [Leaf(a)] + FlattenAll(last) == [Leaf(a), Leaf(b)];
    EmptyLeft(FlattenAll(pair));
    assert Flatten(Group(pair), Not) == FlattenAll(pair);
    assert FlattenAll(es) == [Operator(Not, [Leaf(a), Leaf(b)])] + FlattenAll(none);
    EmptyRight(Flatten(es[0], And));
    assert DepthAll(last) == 0 && DepthAll(pair) == 0 && Depth(es[0]) == 2 && DepthAll(es) == 2;
    assert NoBefore(Plain(a)) && NoBefore(Plain(b)) && NoBeforeAll(last) && NoBeforeAll(pair);
    assert NoBefore(Group(pair)) && NoBefore(es[0]);
    assert !MeaningAll(last, iset{a}) && !MeaningAll(pair, iset{a}) && MeaningAll(none, iset{a});
    ParsedIsFlattened(es, iset{a});
    HoldOne(Operator(Not, [Leaf(a), Leaf(b)]), iset{a});
    assert SomeHold([Leaf(a), Leaf(b)], iset{a});
  }
}
