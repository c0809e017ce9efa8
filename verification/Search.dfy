/** The SEARCH command from its tokens to the filter sent to the JMAP server. */
module Search {
  import opened Wrappers
  import opened Sequences
  import opened SearchFilter
  import opened DroppedAll
  import opened SearchParser
  import opened SearchCompiler
  import opened SearchMeaning

  lemma {:induction false} PlainlyConcat(a: seq<Filter>, b: seq<Filter>, ctx: Context)
    ensures PlainlyAll(a + b, ctx) <==> PlainlyAll(a, ctx) && PlainlyAll(b, ctx)
  {
    if a == [] {
      EmptyLeft(b);
    } else {
      assert (a + b)[1..] == a[1..] + b;
      PlainlyConcat(a[1..], b, ctx);
    }
  }

  lemma {:induction false} FlattenIsPlain(e: Expr, operator: Operator, ctx: Context)
    requires forall key :: key in Keys(e) ==> Expressible(key, ctx)
    ensures PlainlyAll(Flatten(e, operator), ctx)
    decreases e, 1
  {
    match e
    case Plain(key) => PlainlyOne(Leaf(key), ctx);
    case Negated(x) =>
      FlattenIsPlain(x, Not, ctx);
      PlainlyOne(Operator(Not, Flatten(x, Not)), ctx);
    case Either(a, b) =>
      FlattenIsPlain(a, Or, ctx);
      FlattenIsPlain(b, Or, ctx);
      PlainlyConcat(Flatten(a, Or), Flatten(b, Or), ctx);
      PlainlyOne(Operator(Or, Flatten(a, Or) + Flatten(b, Or)), ctx);
    case Group(es) =>
      FlattenAllIsPlain(es, ctx);
      EmptyLeft(FlattenAll(es));
      EmptyLeft([Operator(And, FlattenAll(es))]);
      PlainlyOne(Operator(And, FlattenAll(es)), ctx);
  }

  lemma PlainlyOne(f: Filter, ctx: Context)
    ensures PlainlyAll([f], ctx) <==> Plainly(f, ctx)
  {
    var none: seq<Filter> := [];
    assert [f][1..] == none;
  }

  lemma {:induction false} FlattenAllIsPlain(es: seq<Expr>, ctx: Context)
    requires forall key :: key in KeysAll(es) ==> Expressible(key, ctx)
    ensures PlainlyAll(FlattenAll(es), ctx)
    decreases es, 0
  {
    if es != [] {
      FlattenIsPlain(es[0], And, ctx);
      FlattenAllIsPlain(es[1..], ctx);
      PlainlyConcat(Flatten(es[0], And), FlattenAll(es[1..]), ctx);
    }
  }

  /** The filter that a command's criteria end up as; None when one of the two passes refuses. */
  function Compiled(es: seq<Expr>, ctx: Context, mailbox: Option<string>): Option<JmapFilter> {
    var filter :- Combine(Run(INITIAL, PrintAll(es)));
    Compile(filter, ctx, mailbox)
  }

  /** The filter that accepted criteria are parsed to. */
  function FilterOf(es: seq<Expr>): Filter {
    var filters := FlattenAll(es);
    if |filters| == 1 then filters[0] else Operator(And, filters)
  }

  lemma CompiledIsFilter(es: seq<Expr>, ctx: Context, mailbox: Option<string>)
    requires Compiled(es, ctx, mailbox).Some?
    ensures FitAll(es, 0) && FlattenAll(es) != [] && Compiled(es, ctx, mailbox) == Compile(FilterOf(es), ctx, mailbox)
  {
    ParsePrinted(es);
  }

  lemma FilterIsPlain(es: seq<Expr>, ctx: Context)
    requires forall key :: key in KeysAll(es) ==> Expressible(key, ctx)
    ensures Plainly(FilterOf(es), ctx)
  {
    FlattenAllIsPlain(es, ctx);
    var filters := FlattenAll(es);
    assert |filters| == 1 ==> filters == [filters[0]];
  }

  lemma DroppedFilter(es: seq<Expr>, v: iset<Key>)
    requires All in v
    ensures Holds(Drop(FilterOf(es)), v) <==> Says(MadeAll(es, true), v)
  {
    var filters := FlattenAll(es);
    if |filters| == 1 {
      var none: seq<Filter> := [];
      assert filters == [filters[0]] && filters[1..] == none && DropEach(none) == none;
      SaysOne(Drop(filters[0]), true, v);
      if filters[0] != Leaf(All) {
        DropOne(filters[0]);
      }
    } else {
      OperatorHolds(And, DropEach(filters), v);
    }
  }

  lemma FindsWhatIsMade(es: seq<Expr>, ctx: Context, mailbox: string, m: Message)
    requires Compiled(es, ctx, Some(mailbox)).Some? && Plainly(FilterOf(es), ctx)
    ensures Matches(Compiled(es, ctx, Some(mailbox)).value, m)
       <==> mailbox in m.mailboxes && Says(MadeAll(es, true), Truths(m, ctx))
  {
    CompiledIsFilter(es, ctx, Some(mailbox));
    CompileDropsAll(FilterOf(es), ctx, mailbox, m);
    DroppedFilter(es, Truths(m, ctx));
  }

  /** SEARCH finds exactly the messages of the mailbox for which the criteria are true, if the keys are
      expressible and the criteria are right: neither NOT of a group nor a dropped ALL makes a
      difference. */
  lemma SearchFinds(es: seq<Expr>, ctx: Context, mailbox: string, m: Message)
    requires Compiled(es, ctx, Some(mailbox)).Some?
    requires RightAll(es, true) && forall key :: key in KeysAll(es) ==> Expressible(key, ctx)
    ensures Matches(Compiled(es, ctx, Some(mailbox)).value, m)
       <==> mailbox in m.mailboxes && MeaningAll(es, Truths(m, ctx))
  {
    FilterIsPlain(es, ctx);
    FindsWhatIsMade(es, ctx, mailbox, m);
    RightAllKeepsMeaning(es, true, Truths(m, ctx));
  }

  /** For criteria of independent text keys and ALLs that is exact: SEARCH finds the right messages of
      every mail store exactly if the criteria are right. */
  lemma SearchFindsIff(es: seq<Expr>, ctx: Context, mailbox: string)
    requires FitAll(es, 0) && FlattenAll(es) != [] && OnceEach(ExactAll(es))
    requires forall key :: key in KeysOfEach(ExactAll(es)) ==> IsTextKey(key)
    ensures Compiled(es, ctx, Some(mailbox)).Some?
    ensures (forall m: Message :: Matches(Compiled(es, ctx, Some(mailbox)).value, m)
                               <==> mailbox in m.mailboxes && MeaningAll(es, Truths(m, ctx)))
       <==> RightAll(es, true)
  {
    TextCriteria(es, ctx, mailbox);
    if RightAll(es, true) {
      forall m: Message
        ensures Matches(Compiled(es, ctx, Some(mailbox)).value, m) <==> mailbox in m.mailboxes && MeaningAll(es, Truths(m, ctx))
      {
        FindsWhatIsMade(es, ctx, mailbox, m);
        RightAllKeepsMeaning(es, true, Truths(m, ctx));
      }
    } else {
      var m := WrongMessage(es, ctx, mailbox);
    }
  }

  /** A message whose texts tell the difference. */
  lemma WrongMessage(es: seq<Expr>, ctx: Context, mailbox: string) returns (m: Message)
    requires Compiled(es, ctx, Some(mailbox)).Some? && Plainly(FilterOf(es), ctx) && OnceEach(ExactAll(es)) && !RightAll(es, true)
    requires forall key :: key in KeysOfEach(ExactAll(es)) ==> IsTextKey(key)
    ensures Matches(Compiled(es, ctx, Some(mailbox)).value, m) != (mailbox in m.mailboxes && MeaningAll(es, Truths(m, ctx)))
  {
    var v := WrongAll(es, true);
    m := Message([], "", {mailbox}, 0, 0, 0, {}, v);
    FindsWhatIsMade(es, ctx, mailbox, m);
    SaysOfTexts(es, v, m, ctx);
    ExactAllMean(es, Truths(m, ctx));
  }

  lemma TextCriteria(es: seq<Expr>, ctx: Context, mailbox: string)
    requires FitAll(es, 0) && FlattenAll(es) != []
    requires forall key :: key in KeysOfEach(ExactAll(es)) ==> IsTextKey(key)
    ensures Plainly(FilterOf(es), ctx)
    ensures Compiled(es, ctx, Some(mailbox)).Some?
    ensures Compiled(es, ctx, Some(mailbox)) == Compile(FilterOf(es), ctx, Some(mailbox))
  {
    var filters := FlattenAll(es);
    ParsePrinted(es);
    FlattenAllOnce(es);
    if |filters| == 1 {
      OnceOne(filters[0]);
      assert filters == [filters[0]];
    }
    TextIsPlain(FilterOf(es), ctx);
  }

  /** A message can have any texts. */
  lemma SaysOfTexts(es: seq<Expr>, v: iset<Key>, m: Message, ctx: Context)
    requires v <= KeysOfEach(ExactAll(es)) && m.texts == v && forall key :: key in KeysOfEach(ExactAll(es)) ==> IsTextKey(key)
    ensures Says(MadeAll(es, true), Truths(m, ctx)) == Says(MadeAll(es, true), With(v))
    ensures Says(MeantAll(es), Truths(m, ctx)) == Says(MeantAll(es), With(v))
  {
    var keys := KeysOfEach(ExactAll(es));
    FlattenAllOnce(es);
    DropEachKeepsKeys(FlattenAll(es));
    AllIsNoneOf(ExactAll(es));
    assert Truths(m, ctx) * keys == With(v) * keys;
    OnlyTheirKeysMatter(MadeAll(es, true).filters, true, Truths(m, ctx), With(v));
    OnlyTheirKeysMatter(ExactAll(es), true, Truths(m, ctx), With(v));
  }

  /** In All Mail, right criteria that come to a lone NOT of one filter are wrong on every message, and
      all others are right on every message. */
  lemma SearchFindsInAllMailIff(es: seq<Expr>, ctx: Context, m: Message)
    requires Compiled(es, ctx, None).Some?
    requires RightAll(es, true) && forall key :: key in KeysAll(es) ==> Expressible(key, ctx)
    ensures (Matches(Compiled(es, ctx, None).value, m) <==> MeaningAll(es, Truths(m, ctx)))
       <==> !(FilterOf(es).Operator? && FilterOf(es).operator == Not && |DropEach(FilterOf(es).filters)| == 1)
  {
    CompiledIsFilter(es, ctx, None);
    FilterIsPlain(es, ctx);
    AllMailDropsAllIff(FilterOf(es), ctx, m);
    DroppedFilter(es, Truths(m, ctx));
    RightAllKeepsMeaning(es, true, Truths(m, ctx));
  }

  lemma OnlyAllIsRight()
    ensures RightAll([Plain(All)], true)
  {
    var es := [Plain(All)];
    var none: seq<Expr> := [];
    var noFilter: seq<Filter> := [];
    assert es[1..] == none && RightAll(none, true) && Right(es[0], And);
    assert [Leaf(All)][1..] == noFilter;
    assert Constant(Meant(es[0])) == Some(true) && Constant(MeantAll(none)) == Some(true);
    assert Made(es[0], And).filters == noFilter && MadeAll(none, true).filters == noFilter;
  }

  /** `SEARCH ALL` finds all messages of the mailbox. */
  lemma SearchAll(ctx: Context, mailbox: string, m: Message)
    ensures Compiled([Plain(All)], ctx, Some(mailbox)).Some?
    ensures Matches(Compiled([Plain(All)], ctx, Some(mailbox)).value, m) <==> mailbox in m.mailboxes
  {
    var es := [Plain(All)];
    var none: seq<Expr> := [];
    assert es[1..] == none && FlattenAll(none) == [];
    EmptyRight(Flatten(es[0], And));
    assert FlattenAll(es) == [Leaf(All)];
    var noFilter: seq<Filter> := [];
    assert [Leaf(All)][1..] == noFilter && ModSeqsAll(noFilter) == [];
    assert DepthAll(none) == 0 && DepthAll(es) == 0 && NoBeforeAll(none) && NoBefore(es[0]) && NoBeforeAll(es);
    SearchAccepts(es, ctx, Some(mailbox));
    assert KeysAll(none) == iset{} && KeysAll(es) == iset{All};
    OnlyAllIsRight();
    SearchFinds(es, ctx, mailbox, m);
    assert MeaningAll(none, Truths(m, ctx));
  }

  /** Criteria are refused exactly for nesting too deeply, for a BEFORE among the keys, for having no
      key at all, and for a second or unknown MODSEQ. */
  lemma SearchAccepts(es: seq<Expr>, ctx: Context, mailbox: Option<string>)
    ensures Compiled(es, ctx, mailbox).Some?
       <==> FitAll(es, 0) && FlattenAll(es) != [] && Answerable(ModSeqsAll(FlattenAll(es)), ctx)
  {
    ParsePrinted(es);
    var filters := FlattenAll(es);
    if |filters| == 1 {
      var none: seq<Filter> := [];
      assert filters[1..] == none;
      EmptyRight(ModSeqs(filters[0]));
    }
  }
}
