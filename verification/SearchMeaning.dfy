/** Which criteria keep their meaning from the parser to the translation that drops ALL. */
module SearchMeaning {
  import opened Wrappers
  import opened Sequences
  import opened SearchFilter
  import opened SearchParser
  import opened DroppedAll

  // ----- Levels of filters -----

  /** A level says that all its filters hold, or, for false, that some filter holds. */
  datatype Level = Level(filters: seq<Filter>, value: bool)

  ghost predicate Says(l: Level, v: iset<Key>) {
    AllAre(l.filters, l.value, v) == l.value
  }

  /** What the level says in any case. */
  function Constant(l: Level): Option<bool> {
    var alike :- FoldLevel(l.filters, l.value);
    Some(alike == l.value)
  }

  lemma ConstantIsSound(l: Level, v: iset<Key>)
    requires All in v
    ensures Constant(l).Some? ==> Says(l, v) == Constant(l).value
  {
    FoldLevelIsSound(l.filters, l.value, v);
  }

  lemma Pick(l: Level, outcome: bool) returns (v: iset<Key>)
    requires OnceEach(l.filters) && Constant(l) != Some(!outcome)
    ensures v <= KeysOfEach(l.filters) && Says(l, With(v)) == outcome
  {
    v := ChooseLevel(l.filters, l.value, outcome == l.value);
  }

  /** Keys of another part do not matter. */
  lemma Undisturbed(l: Level, v: iset<Key>, others: iset<Key>)
    requires KeysOfEach(l.filters) !! others
    ensures Says(l, With(v + others)) == Says(l, With(v))
  {
    AllIsNoneOf(l.filters);
    assert With(v + others) * KeysOfEach(l.filters) == With(v) * KeysOfEach(l.filters);
    OnlyTheirKeysMatter(l.filters, l.value, With(v + others), With(v));
  }

  lemma {:induction false} DropConcat(a: seq<Filter>, b: seq<Filter>)
    ensures DropEach(a + b) == DropEach(a) + DropEach(b)
  {
    if a == [] {
      EmptyLeft(b);
      EmptyLeft(DropEach(b));
    } else {
      assert (a + b)[1..] == a[1..] + b;
      DropConcat(a[1..], b);
      Associative([Drop(a[0])], DropEach(a[1..]), DropEach(b));
    }
  }

  lemma {:induction false} AllAreConcat(a: seq<Filter>, b: seq<Filter>, value: bool, v: iset<Key>)
    ensures AllAre(a + b, value, v) <==> AllAre(a, value, v) && AllAre(b, value, v)
  {
    if a == [] {
      EmptyLeft(b);
    } else {
      assert (a + b)[1..] == a[1..] + b;
      AllAreConcat(a[1..], b, value, v);
    }
  }

  lemma {:induction false} OnceConcat(a: seq<Filter>, b: seq<Filter>)
    ensures KeysOfEach(a + b) == KeysOfEach(a) + KeysOfEach(b)
    ensures OnceEach(a) && OnceEach(b) && KeysOfEach(a) !! KeysOfEach(b) ==> OnceEach(a + b)
  {
    if a == [] {
      EmptyLeft(b);
    } else {
      assert (a + b)[1..] == a[1..] + b;
      OnceConcat(a[1..], b);
    }
  }

  // ----- Two parts of an expression -----

  /** What two parts mean together (`x`, `y`) and what is made of them (`p`, `q`) is alike, when both
      are joined by AND, or, for false, by OR. */
  predicate JoinedAlike(all: bool, x: Level, y: Level, p: Level, q: Level, parts: bool) {
    if Constant(x) == Some(!all) || Constant(y) == Some(!all) then Constant(p) == Some(!all) || Constant(q) == Some(!all)
    else Constant(p) != Some(!all) && Constant(q) != Some(!all) && parts
  }

  /** The same when the meanings are joined by AND, but what is made of them by OR. */
  predicate MixedAlike(x: Level, y: Level, p: Level, q: Level, first: bool, second: bool) {
    if Constant(x) == Some(false) || Constant(y) == Some(false) then Constant(p) == Some(false) && Constant(q) == Some(false)
    else if Constant(x) == Some(true) && Constant(y) == Some(true) then Constant(p) == Some(true) || Constant(q) == Some(true)
    else if Constant(x) == Some(true) then Constant(p) == Some(false) && second
    else Constant(y) == Some(true) && Constant(q) == Some(false) && first
  }

  /** The conditions for two parts keep the meaning. */
  lemma AlikeKeepsMeaning(x: Level, y: Level, p: Level, q: Level, first: bool, second: bool, v: iset<Key>)
    requires All in v && (first ==> Says(x, v) == Says(p, v)) && (second ==> Says(y, v) == Says(q, v))
    ensures JoinedAlike(true, x, y, p, q, first && second) ==> ((Says(x, v) && Says(y, v)) == (Says(p, v) && Says(q, v)))
    ensures JoinedAlike(false, x, y, p, q, first && second) ==> ((Says(x, v) || Says(y, v)) == (Says(p, v) || Says(q, v)))
    ensures MixedAlike(x, y, p, q, first, second) ==> ((Says(x, v) && Says(y, v)) == (Says(p, v) || Says(q, v)))
  {
    ConstantIsSound(x, v);
    ConstantIsSound(y, v);
    ConstantIsSound(p, v);
    ConstantIsSound(q, v);
  }

  /** The parts have independent keys. */
  ghost predicate Independent(x: Level, y: Level, p: Level, q: Level) {
    && OnceEach(x.filters) && OnceEach(y.filters) && OnceEach(p.filters) && OnceEach(q.filters)
    && KeysOfEach(p.filters) == KeysOfEach(x.filters) && KeysOfEach(q.filters) == KeysOfEach(y.filters)
    && KeysOfEach(x.filters) !! KeysOfEach(y.filters)
  }

  /** A choice for each part. */
  lemma Together(x: Level, y: Level, p: Level, q: Level, u: iset<Key>, w: iset<Key>)
    requires Independent(x, y, p, q) && u <= KeysOfEach(x.filters) && w <= KeysOfEach(y.filters)
    ensures Says(x, With(u + w)) == Says(x, With(u)) && Says(p, With(u + w)) == Says(p, With(u))
    ensures Says(y, With(u + w)) == Says(y, With(w)) && Says(q, With(u + w)) == Says(q, With(w))
  {
    Undisturbed(x, u, w);
    Undisturbed(p, u, w);
    assert u + w == w + u;
    Undisturbed(y, w, u);
    Undisturbed(q, w, u);
  }

  ghost predicate JoinsDiffer(all: bool, x: Level, y: Level, p: Level, q: Level, v: iset<Key>) {
    if all then (Says(x, v) && Says(y, v)) != (Says(p, v) && Says(q, v))
    else (Says(x, v) || Says(y, v)) != (Says(p, v) || Says(q, v))
  }

  /** Otherwise there is a choice that tells the difference: `u` does for the first part, if that is
      not kept, and `w` for the second. */
  lemma JoinsShow(all: bool, x: Level, y: Level, p: Level, q: Level, first: bool, second: bool, u: iset<Key>, w: iset<Key>)
    returns (v: iset<Key>)
    requires Independent(x, y, p, q) && !JoinedAlike(all, x, y, p, q, first && second)
    requires u <= KeysOfEach(x.filters) && w <= KeysOfEach(y.filters)
    requires !first ==> Says(x, With(u)) != Says(p, With(u))
    requires !second ==> Says(y, With(w)) != Says(q, With(w))
    ensures v <= KeysOfEach(x.filters) + KeysOfEach(y.filters) && JoinsDiffer(all, x, y, p, q, With(v))
  {
    var s: iset<Key>, t: iset<Key>;
    if Constant(x) == Some(!all) || Constant(y) == Some(!all) {
      s := Pick(p, all);
      t := Pick(q, all);
      ConstantIsSound(x, With(s + t));
      ConstantIsSound(y, With(s + t));
    } else {
      s := Pick(x, all);
      t := Pick(y, all);
      if Says(p, With(s)) == all && Says(q, With(t)) == all {
        ConstantIsSound(p, With(s));
        ConstantIsSound(q, With(t));
        if first {
          t := w;
        } else {
          s := u;
        }
      }
    }
    v := s + t;
    Together(x, y, p, q, s, t);
  }

  lemma MixShows(x: Level, y: Level, p: Level, q: Level, first: bool, second: bool, u: iset<Key>, w: iset<Key>)
    returns (v: iset<Key>)
    requires Independent(x, y, p, q) && !MixedAlike(x, y, p, q, first, second)
    requires u <= KeysOfEach(x.filters) && w <= KeysOfEach(y.filters)
    requires !first ==> Says(x, With(u)) != Says(p, With(u))
    requires !second ==> Says(y, With(w)) != Says(q, With(w))
    ensures v <= KeysOfEach(x.filters) + KeysOfEach(y.filters)
    ensures (Says(x, With(v)) && Says(y, With(v))) != (Says(p, With(v)) || Says(q, With(v)))
  {
    var s: iset<Key>, t: iset<Key> := iset{}, iset{};
    if Constant(x) == Some(false) || Constant(y) == Some(false) {
      if Constant(p) != Some(false) {
        s := Pick(p, true);
      } else {
        t := Pick(q, true);
      }
      ConstantIsSound(x, With(s + t));
      ConstantIsSound(y, With(s + t));
    } else if Constant(x) == Some(true) && Constant(y) == Some(true) {
      s := Pick(p, false);
      t := Pick(q, false);
      ConstantIsSound(x, With(s + t));
      ConstantIsSound(y, With(s + t));
    } else if Constant(x) == Some(true) {
      if Constant(p) != Some(false) {
        s := Pick(p, true);
        t := Pick(y, false);
      } else {
        t := w;
      }
      ConstantIsSound(x, With(s + t));
      ConstantIsSound(p, With(s + t));
    } else if Constant(y) == Some(true) {
      if Constant(q) != Some(false) {
        s := Pick(x, false);
        t := Pick(q, true);
      } else {
        s := u;
      }
      ConstantIsSound(y, With(s + t));
      ConstantIsSound(q, With(s + t));
    } else {
      s, t := OpenParts(x, y, p, q);
    }
    v := s + t;
    Together(x, y, p, q, s, t);
  }

  /** Two parts that can each be true or false are never the same under AND as under OR. */
  lemma OpenParts(x: Level, y: Level, p: Level, q: Level) returns (s: iset<Key>, t: iset<Key>)
    requires Independent(x, y, p, q) && Constant(x).None? && Constant(y).None?
    ensures s <= KeysOfEach(x.filters) && t <= KeysOfEach(y.filters)
    ensures (Says(x, With(s)) && Says(y, With(t))) != (Says(p, With(s)) || Says(q, With(t)))
  {
    var s0 := Pick(x, false);
    var s1 := Pick(x, true);
    var t0 := Pick(y, false);
    var t1 := Pick(y, true);
    if Says(p, With(s0)) || Says(q, With(t0)) {
      return s0, t0;
    } else if Says(p, With(s1)) {
      return s1, t0;
    } else if Says(q, With(t1)) {
      return s0, t1;
    }
    return s1, t1;
  }

  // ----- Meaning, and what is made of it -----

  /** An expression as a filter that means the same. */
  function Exact(e: Expr): Filter
    decreases e, 1
  {
    match e
    case Plain(key) => Leaf(key)
    case Negated(x) => Operator(Not, [Exact(x)])
    case Either(a, b) => Operator(Or, [Exact(a), Exact(b)])
    case Group(es) => Operator(And, ExactAll(es))
  }

  function ExactAll(es: seq<Expr>): seq<Filter>
    decreases es, 0
  {
    if es == [] then [] else [Exact(es[0])] + ExactAll(es[1..])
  }

  function Meant(e: Expr): Level {
    Level([Exact(e)], true)
  }

  function MeantAll(es: seq<Expr>): Level {
    Level(ExactAll(es), true)
  }

  /** What an expression adds to a level with the operator, once ALL has been dropped. */
  function Made(e: Expr, operator: Operator): Level {
    Level(DropEach(Flatten(e, operator)), operator == And)
  }

  function MadeAll(es: seq<Expr>, all: bool): Level {
    Level(DropEach(FlattenAll(es)), all)
  }

  lemma SaysOne(f: Filter, value: bool, v: iset<Key>)
    ensures Says(Level([f], value), v) <==> Holds(f, v)
  {
    var none: seq<Filter> := [];
    assert [f][1..] == none && AllAre(none, value, v);
    assert AllAre([f], value, v) == (Holds(f, v) == value);
  }

  lemma {:induction false} ExactMeans(e: Expr, v: iset<Key>)
    ensures Holds(Exact(e), v) <==> Meaning(e, v)
    ensures Says(Meant(e), v) <==> Meaning(e, v)
    decreases e, 1
  {
    SaysOne(Exact(e), true, v);
    match e
    case Plain(_) =>
    case Negated(x) =>
      ExactMeans(x, v);
      HoldOne(Exact(x), v);
    case Either(a, b) =>
      ExactMeans(a, v);
      ExactMeans(b, v);
      HoldConcat([Exact(a)], [Exact(b)], v);
      HoldOne(Exact(a), v);
      HoldOne(Exact(b), v);
      assert [Exact(a)] + [Exact(b)] == [Exact(a), Exact(b)];
    case Group(es) =>
      ExactAllMean(es, v);
      LevelsAreAll(ExactAll(es), v);
  }

  lemma {:induction false} ExactAllMean(es: seq<Expr>, v: iset<Key>)
    ensures Says(MeantAll(es), v) <==> MeaningAll(es, v)
    decreases es, 0
  {
    if es != [] {
      ExactMeans(es[0], v);
      ExactAllMean(es[1..], v);
      assert ExactAll(es)[1..] == ExactAll(es[1..]);
    }
  }

  /** Does a group under the operator say that all its members hold? Otherwise, that some member does. */
  predicate SaysAll(es: seq<Expr>, operator: Operator) {
    operator == And || (operator == Or && |FlattenAll(es)| != 1)
  }

  lemma SameUnderNot(e: Expr)
    ensures Flatten(e, And) == Flatten(e, Not)
  {
  }

  lemma MadeNegated(x: Expr, operator: Operator, v: iset<Key>)
    ensures Says(Made(Negated(x), operator), v) <==> !Says(Made(x, Not), v)
  {
    var f := Operator(Not, Flatten(x, Not));
    DropOne(f);
    SaysOne(Drop(f), operator == And, v);
    OperatorHolds(Not, DropEach(Flatten(x, Not)), v);
  }

  lemma MadeEither(a: Expr, b: Expr, operator: Operator, v: iset<Key>)
    ensures Says(Made(Either(a, b), operator), v) <==> Says(Made(a, Or), v) || Says(Made(b, Or), v)
  {
    var f := Operator(Or, Flatten(a, Or) + Flatten(b, Or));
    DropOne(f);
    SaysOne(Drop(f), operator == And, v);
    DropConcat(Flatten(a, Or), Flatten(b, Or));
    OperatorHolds(Or, DropEach(Flatten(a, Or) + Flatten(b, Or)), v);
    AllAreConcat(DropEach(Flatten(a, Or)), DropEach(Flatten(b, Or)), false, v);
  }

  lemma MadeGroup(es: seq<Expr>, operator: Operator, v: iset<Key>)
    ensures Says(Made(Group(es), operator), v) <==> Says(MadeAll(es, SaysAll(es, operator)), v)
  {
    EmptyLeft(FlattenAll(es));
    if operator == Or && |FlattenAll(es)| != 1 {
      var f := Operator(And, FlattenAll(es));
      EmptyLeft([f]);
      DropOne(f);
      SaysOne(Drop(f), false, v);
      OperatorHolds(And, DropEach(FlattenAll(es)), v);
    }
  }

  lemma MadeMembers(es: seq<Expr>, all: bool, v: iset<Key>)
    requires es != []
    ensures var first, rest := Says(Made(es[0], if all then And else Not), v), Says(MadeAll(es[1..], all), v);
            Says(MadeAll(es, all), v) <==> if all then first && rest else first || rest
  {
    SameUnderNot(es[0]);
    DropConcat(Flatten(es[0], And), FlattenAll(es[1..]));
    AllAreConcat(DropEach(Flatten(es[0], And)), DropEach(FlattenAll(es[1..])), all, v);
  }

  lemma DropOne(f: Filter)
    requires f != Leaf(All)
    ensures DropEach([f]) == [Drop(f)]
  {
    var none: seq<Filter> := [];
    assert [f][1..] == none;
  }

  // ----- The condition -----

  /** What is made of the expression under the operator is what it means. */
  predicate Right(e: Expr, operator: Operator)
    decreases e, 1
  {
    match e
    case Plain(key) => key != All || operator == And
    case Negated(x) => Right(x, Not)
    case Either(a, b) => JoinedAlike(false, Meant(a), Meant(b), Made(a, Or), Made(b, Or), Right(a, Or) && Right(b, Or))
    case Group(es) => RightAll(es, SaysAll(es, operator))
  }

  predicate RightAll(es: seq<Expr>, all: bool)
    decreases es, 0
  {
    if es == [] then all
    else if all then
      JoinedAlike(true, Meant(es[0]), MeantAll(es[1..]), Made(es[0], And), MadeAll(es[1..], true),
                  Right(es[0], And) && RightAll(es[1..], true))
    else
      MixedAlike(Meant(es[0]), MeantAll(es[1..]), Made(es[0], Not), MadeAll(es[1..], false),
                 Right(es[0], Not), RightAll(es[1..], false))
  }

  lemma {:induction false} RightKeepsMeaning(e: Expr, operator: Operator, v: iset<Key>)
    requires All in v && Right(e, operator)
    ensures Says(Made(e, operator), v) <==> Meaning(e, v)
    decreases e, 1
  {
    match e
    case Plain(key) =>
      if key != All {
        DropOne(Leaf(key));
        SaysOne(Leaf(key), operator == And, v);
      } else {
        var none: seq<Filter> := [];
        assert [Leaf(All)][1..] == none && Made(e, operator).filters == DropEach(none);
      }
    case Negated(x) =>
      RightKeepsMeaning(x, Not, v);
      MadeNegated(x, operator, v);
    case Either(a, b) =>
      MadeEither(a, b, operator, v);
      PartKeepsMeaning(a, Or, v);
      PartKeepsMeaning(b, Or, v);
      AlikeKeepsMeaning(Meant(a), Meant(b), Made(a, Or), Made(b, Or), Right(a, Or), Right(b, Or), v);
    case Group(es) =>
      MadeGroup(es, operator, v);
      RightAllKeepsMeaning(es, SaysAll(es, operator), v);
  }

  lemma {:induction false} PartKeepsMeaning(e: Expr, operator: Operator, v: iset<Key>)
    requires All in v
    ensures Says(Meant(e), v) <==> Meaning(e, v)
    ensures Right(e, operator) ==> Says(Made(e, operator), v) == Says(Meant(e), v)
    decreases e, 2
  {
    ExactMeans(e, v);
    if Right(e, operator) {
      RightKeepsMeaning(e, operator, v);
    }
  }

  lemma {:induction false} RightAllKeepsMeaning(es: seq<Expr>, all: bool, v: iset<Key>)
    requires All in v && RightAll(es, all)
    ensures Says(MadeAll(es, all), v) <==> MeaningAll(es, v)
    decreases es, 0
  {
    if es != [] {
      var operator := if all then And else Not;
      var first, rest := es[0], es[1..];
      PartKeepsMeaning(first, operator, v);
      ExactAllMean(rest, v);
      if RightAll(rest, all) {
        RightAllKeepsMeaning(rest, all, v);
      }
      AlikeKeepsMeaning(Meant(first), MeantAll(rest), Made(first, operator), MadeAll(rest, all),
                        Right(first, operator), RightAll(rest, all), v);
      MadeMembers(es, all, v);
    }
  }

  // ----- The condition is exact -----

  lemma OnceOne(f: Filter)
    ensures KeysOfEach([f]) == KeysOf(f) && (OnceEach([f]) <==> Once(f))
  {
    var none: seq<Filter> := [];
    assert [f][1..] == none;
  }

  lemma OnceTwo(f: Filter, g: Filter)
    ensures KeysOfEach([f, g]) == KeysOf(f) + KeysOf(g)
    ensures OnceEach([f, g]) <==> Once(f) && Once(g) && KeysOf(f) !! KeysOf(g)
  {
    assert [f, g][1..] == [g];
    OnceOne(g);
  }

  lemma {:induction false} FlattenOnce(e: Expr, operator: Operator)
    ensures KeysOfEach(Flatten(e, operator)) == KeysOf(Exact(e))
    ensures Once(Exact(e)) ==> OnceEach(Flatten(e, operator))
    decreases e, 1
  {
    match e
    case Plain(key) => OnceOne(Leaf(key));
    case Negated(x) =>
      FlattenOnce(x, Not);
      OnceOne(Exact(x));
      OnceOne(Operator(Not, Flatten(x, Not)));
    case Either(a, b) =>
      FlattenOnce(a, Or);
      FlattenOnce(b, Or);
      OnceTwo(Exact(a), Exact(b));
      OnceConcat(Flatten(a, Or), Flatten(b, Or));
      OnceOne(Operator(Or, Flatten(a, Or) + Flatten(b, Or)));
    case Group(es) =>
      FlattenAllOnce(es);
      EmptyLeft(FlattenAll(es));
      EmptyLeft([Operator(And, FlattenAll(es))]);
      OnceOne(Operator(And, FlattenAll(es)));
  }

  lemma {:induction false} FlattenAllOnce(es: seq<Expr>)
    ensures KeysOfEach(FlattenAll(es)) == KeysOfEach(ExactAll(es))
    ensures OnceEach(ExactAll(es)) ==> OnceEach(FlattenAll(es))
    decreases es, 0
  {
    if es != [] {
      FlattenOnce(es[0], And);
      FlattenAllOnce(es[1..]);
      OnceConcat(Flatten(es[0], And), FlattenAll(es[1..]));
      assert ExactAll(es)[1..] == ExactAll(es[1..]);
    }
  }

  lemma SameKeys(e: Expr, operator: Operator)
    requires Once(Exact(e))
    ensures OnceEach(Meant(e).filters) && OnceEach(Made(e, operator).filters)
    ensures KeysOfEach(Meant(e).filters) == KeysOfEach(Made(e, operator).filters) == KeysOf(Exact(e))
  {
    OnceOne(Exact(e));
    FlattenOnce(e, operator);
    DropEachKeepsKeys(Flatten(e, operator));
  }

  lemma SameKeysAll(es: seq<Expr>, all: bool)
    requires OnceEach(ExactAll(es))
    ensures OnceEach(MadeAll(es, all).filters) && KeysOfEach(MadeAll(es, all).filters) == KeysOfEach(ExactAll(es))
  {
    FlattenAllOnce(es);
    DropEachKeepsKeys(FlattenAll(es));
  }

  lemma EitherIsIndependent(a: Expr, b: Expr)
    requires Once(Exact(Either(a, b)))
    ensures Independent(Meant(a), Meant(b), Made(a, Or), Made(b, Or))
    ensures Once(Exact(a)) && Once(Exact(b))
    ensures KeysOf(Exact(Either(a, b))) == KeysOfEach(Meant(a).filters) + KeysOfEach(Meant(b).filters)
  {
    OnceTwo(Exact(a), Exact(b));
    SameKeys(a, Or);
    SameKeys(b, Or);
  }

  lemma MembersAreIndependent(es: seq<Expr>, all: bool)
    requires es != [] && OnceEach(ExactAll(es))
    ensures Independent(Meant(es[0]), MeantAll(es[1..]), Made(es[0], if all then And else Not), MadeAll(es[1..], all))
    ensures Once(Exact(es[0])) && OnceEach(ExactAll(es[1..]))
    ensures KeysOfEach(ExactAll(es)) == KeysOfEach(Meant(es[0]).filters) + KeysOfEach(MeantAll(es[1..]).filters)
  {
    assert ExactAll(es)[1..] == ExactAll(es[1..]);
    SameKeys(es[0], if all then And else Not);
    SameKeysAll(es[1..], all);
  }

  /** A choice that tells the difference, if there is one; it serves for a part of an expression. */
  lemma {:induction false} Wrong(e: Expr, operator: Operator) returns (v: iset<Key>)
    requires Once(Exact(e))
    ensures v <= KeysOf(Exact(e))
    ensures !Right(e, operator) ==> Says(Made(e, operator), With(v)) != Says(Meant(e), With(v))
    decreases e, 1
  {
    v := iset{};
    if !Right(e, operator) {
      match e {
        case Plain(key) =>
        case Negated(x) =>
          v := Wrong(x, Not);
          MadeNegated(x, operator, With(v));
          ExactMeans(x, With(v));
        case Either(a, b) => v := WrongEither(a, b, operator);
        case Group(es) =>
          v := WrongAll(es, SaysAll(es, operator));
          MadeGroup(es, operator, With(v));
          ExactAllMean(es, With(v));
      }
      ExactMeans(e, With(v));
    }
  }

  lemma {:induction false} WrongEither(a: Expr, b: Expr, operator: Operator) returns (v: iset<Key>)
    requires Once(Exact(Either(a, b))) && !Right(Either(a, b), operator)
    ensures v <= KeysOf(Exact(Either(a, b)))
    ensures Says(Made(Either(a, b), operator), With(v)) != Meaning(Either(a, b), With(v))
    decreases Either(a, b), 0
  {
    EitherIsIndependent(a, b);
    var u := Wrong(a, Or);
    var w := Wrong(b, Or);
    v := JoinsShow(false, Meant(a), Meant(b), Made(a, Or), Made(b, Or), Right(a, Or), Right(b, Or), u, w);
    MadeEither(a, b, operator, With(v));
    ExactMeans(a, With(v));
    ExactMeans(b, With(v));
  }

  lemma {:induction false} WrongAll(es: seq<Expr>, all: bool) returns (v: iset<Key>)
    requires OnceEach(ExactAll(es))
    ensures v <= KeysOfEach(ExactAll(es))
    ensures !RightAll(es, all) ==> Says(MadeAll(es, all), With(v)) != Says(MeantAll(es), With(v))
    decreases es, 0
  {
    v := iset{};
    if !RightAll(es, all) && es != [] {
      var operator := if all then And else Not;
      var first, rest := es[0], es[1..];
      MembersAreIndependent(es, all);
      var u := Wrong(first, operator);
      var w := WrongAll(rest, all);
      if all {
        v := JoinsShow(true, Meant(first), MeantAll(rest), Made(first, And), MadeAll(rest, true),
                       Right(first, And), RightAll(rest, true), u, w);
      } else {
        v := MixShows(Meant(first), MeantAll(rest), Made(first, Not), MadeAll(rest, false),
                      Right(first, Not), RightAll(rest, false), u, w);
      }
      MadeMembers(es, all, With(v));
      ExactMeans(first, With(v));
      ExactAllMean(rest, With(v));
      ExactAllMean(es, With(v));
    }
  }

  /** What is made of criteria with independent keys is always what they mean exactly if they are right. */
  lemma RightIff(es: seq<Expr>)
    requires OnceEach(ExactAll(es))
    ensures (forall v: iset<Key> :: All in v ==> (Says(MadeAll(es, true), v) <==> MeaningAll(es, v))) <==> RightAll(es, true)
  {
    forall v: iset<Key> | RightAll(es, true) && All in v
      ensures Says(MadeAll(es, true), v) <==> MeaningAll(es, v)
    {
      RightAllKeepsMeaning(es, true, v);
    }
    if !RightAll(es, true) {
      var v := WrongAll(es, true);
      ExactAllMean(es, With(v));
      assert All in With(v);
    }
  }

  lemma OneMember(e: Expr, v: iset<Key>)
    ensures (MeaningAll([e], v) <==> Meaning(e, v)) && ExactAll([e]) == [Exact(e)] && FlattenAll([e]) == Flatten(e, And)
  {
    var none: seq<Expr> := [];
    assert [e][1..] == none && MeaningAll(none, v);
    EmptyRight([Exact(e)]);
    EmptyRight(Flatten(e, And));
  }

  lemma TwoMembers(a: Expr, b: Expr, v: iset<Key>)
    ensures MeaningAll([a, b], v) <==> Meaning(a, v) && Meaning(b, v)
    ensures ExactAll([a, b]) == [Exact(a), Exact(b)] && FlattenAll([a, b]) == Flatten(a, And) + Flatten(b, And)
  {
    assert [a, b][1..] == [b];
    OneMember(b, v);
  }

  /** In `NOT (ALL key)` two errors cancel: the parser reads none-of, which with ALL in it would hold of
      nothing, and the translation drops the ALL. */
  lemma ErrorsCancel(key: Key)
    requires key != All
    ensures var es := [Negated(Group([Plain(All), Plain(key)]))];
            !SingleNotsAll(es) && FlattenAll(es) == [Operator(Not, [Leaf(All), Leaf(key)])] && RightAll(es, true)
  {
    var pair := Group([Plain(All), Plain(key)]);
    var es := [Negated(pair)];
    TwoMembers(Plain(All), Plain(key), iset{});
    OneMember(Negated(pair), iset{});
    EmptyLeft(FlattenAll(pair.es));
    assert FlattenAll(es) == [Operator(Not, [Leaf(All), Leaf(key)])];
    OnceTwo(Leaf(All), Leaf(key));
    OnceOne(Exact(pair));
    OnceOne(Exact(Negated(pair)));
    forall v: iset<Key> | All in v
      ensures Says(MadeAll(es, true), v) <==> MeaningAll(es, v)
    {
      PairMeans(key, v);
      TwoMembers(Plain(All), Plain(key), v);
      OneMember(Negated(pair), v);
    }
    RightIff(es);
  }

  lemma PairMeans(key: Key, v: iset<Key>)
    requires key != All
    ensures Says(Level(DropEach([Operator(Not, [Leaf(All), Leaf(key)])]), true), v) <==> key !in v
  {
    var f := Operator(Not, [Leaf(All), Leaf(key)]);
    assert [Leaf(All), Leaf(key)][1..] == [Leaf(key)];
    DropOne(f);
    DropOne(Leaf(key));
    SaysOne(Drop(f), true, v);
    OperatorHolds(Not, [Leaf(key)], v);
    SaysOne(Leaf(key), false, v);
  }
}
