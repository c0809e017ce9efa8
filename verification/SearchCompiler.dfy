/** The translation of IMAP search filters to JMAP email filters (section 4.4.1 of RFC 8621). */
module SearchCompiler {
  import opened Wrappers
  import opened Sequences
  import opened Decimal
  import opened SequenceSet
  import opened SearchFilter
  import opened DroppedAll
  import UidIndex
  import SelectedView
  import Selection

  type Id = UidIndex.Id

  datatype Condition =
    | InMailbox(mailbox: string)
    | IdIn(ids: set<Id>)
    | InThread(thread: string)
    | ReceivedBefore(date: int)
    | ReceivedAfter(date: int)
    | SentBeforeDate(date: int)
    | SentAfterDate(date: int)
    | MinSize(size: nat)
    | MaxSize(size: nat)
    | HasKeyword(flag: Flag)
    | NotKeyword(flag: Flag)
    | HasText(query: Key)

  datatype JmapFilter = Test(condition: Condition) | Compound(operator: Operator, filters: seq<JmapFilter>)

  /** A message as both protocols see it; `texts` holds the text queries that match it. */
  datatype Message = Message(
    id: Id,
    thread: string,
    mailboxes: set<string>,
    receivedAt: int,
    sentAt: int,
    size: nat,
    flags: set<Flag>,
    texts: iset<Key>)

  /** What the translation looks up: the selected mailbox's view, the saved result, the clock, and
      the ids changed since each known modseq. */
  datatype Context = Context(
    view: seq<SelectedView.Message>,
    isUid: bool,
    saved: set<Id>,
    now: nat,
    changedSince: map<nat, set<Id>>)

  const DAY := 86400

  // ----- Meaning of the two sides -----

  /** The ids changed since a modseq; nothing has changed since one that was never given out. */
  function Changed(ctx: Context, modseq: nat): set<Id> {
    if modseq in ctx.changedSince then ctx.changedSince[modseq] else {}
  }

  /** A search key on a message as the standards have it (section 6.4.4 of RFC 9051, RFC 5032, RFC
      7162). Under UID SEARCH a set without UID still holds sequence numbers (section 6.4.8 of RFC
      3501), and a set with `$` in it is the union of its members. Which ids changed since a modseq
      is opaque; modseqs that were given out have 32 bits. */
  ghost predicate KeyHolds(key: Key, m: Message, ctx: Context) {
    match key
    case All => true
    case SequenceKey(s, isUid) =>
      || (IsSavedSearch(s) && m.id in ctx.saved)
      || (exists pos :: 0 <= pos < |ctx.view| && ctx.view[pos].id == m.id && Selection.IsRequested(ctx.view, s, isUid, pos))
    case On(date) => date <= m.receivedAt < date + 86_400
    case Since(date) => date <= m.receivedAt
    case Before(date) => m.receivedAt < date
    case SentOn(date) => date <= m.sentAt < date + 86_400
    case SentSince(date) => date <= m.sentAt
    case SentBefore(date) => m.sentAt < date
    case Older(interval) => m.receivedAt <= ctx.now - interval
    case Younger(interval) => m.receivedAt >= ctx.now - interval
    case Larger(size) => m.size > size
    case Smaller(size) => m.size < size
    case Keyword(flag) => flag in m.flags
    case Unkeyword(flag) => flag !in m.flags
    case New => Recent in m.flags && Seen !in m.flags
    case Old => Recent !in m.flags
    case ModSeq(modseq) => modseq <= MAX_U32 && m.id in Changed(ctx, modseq)
    case EmailId(id) => m.id == id
    case ThreadId(id) => m.thread == id
    case _ => key in m.texts
  }

  ghost predicate TestHolds(c: Condition, m: Message) {
    match c
    case InMailbox(mailbox) => mailbox in m.mailboxes
    case IdIn(ids) => m.id in ids
    case InThread(thread) => m.thread == thread
    case ReceivedBefore(date) => m.receivedAt < date
    case ReceivedAfter(date) => m.receivedAt >= date
    case SentBeforeDate(date) => m.sentAt < date
    case SentAfterDate(date) => m.sentAt >= date
    case MinSize(size) => m.size >= size
    case MaxSize(size) => m.size < size
    case HasKeyword(flag) => flag in m.flags
    case NotKeyword(flag) => flag !in m.flags
    case HasText(query) => query in m.texts
  }

  ghost predicate Matches(f: JmapFilter, m: Message)
    decreases f, 1
  {
    match f
    case Test(c) => TestHolds(c, m)
    case Compound(And, filters) => AllMatch(filters, m)
    case Compound(Or, filters) => SomeMatch(filters, m)
    case Compound(Not, filters) => !SomeMatch(filters, m)
  }

  ghost predicate AllMatch(filters: seq<JmapFilter>, m: Message)
    decreases filters, 0
  {
    filters == [] || (Matches(filters[0], m) && AllMatch(filters[1..], m))
  }

  ghost predicate SomeMatch(filters: seq<JmapFilter>, m: Message)
    decreases filters, 0
  {
    filters != [] && (Matches(filters[0], m) || SomeMatch(filters[1..], m))
  }

  // ----- The translation -----

  /** The ids of the messages of the view that a set without `$` asks for. */
  function IdsOf(ctx: Context, s: Sequence, isUid: bool): set<Id> {
    set p | 0 <= p < |ctx.view| && Selection.IsRequested(ctx.view, s, isUid, p) :: ctx.view[p].id
  }

  /** `modseq as u32`. */
  function LowBits(modseq: nat): nat {
    modseq % 0x1_0000_0000
  }

  /** The filters pushed for a search key: one, or none for ALL. A set with `$` in it stands for the
      saved result alone, and under UID SEARCH every other set is one of UIDs. */
  function TranslateKey(key: Key, ctx: Context): seq<JmapFilter> {
    match key
    case All => []
    case SequenceKey(s, isUid) => [Test(IdIn(if IsSavedSearch(s) then ctx.saved else IdsOf(ctx, s, ctx.isUid || isUid)))]
    case On(date) => [Compound(And, [Test(ReceivedAfter(date)), Test(ReceivedBefore(date + DAY))])]
    case Since(date) => [Test(ReceivedAfter(date))]
    case Before(date) => [Test(ReceivedBefore(date))]
    case SentOn(date) => [Compound(And, [Test(SentAfterDate(date)), Test(SentBeforeDate(date + DAY))])]
    case SentSince(date) => [Test(SentAfterDate(date))]
    case SentBefore(date) => [Test(SentBeforeDate(date))]
    case Older(interval) => [Test(ReceivedAfter(SaturatingSub(ctx.now, interval)))]
    case Younger(interval) => [Test(ReceivedAfter(SaturatingSub(ctx.now, interval)))]
    case Larger(size) => [Test(MinSize((size + 1) % 0x1_0000_0000))]
    case Smaller(size) => [Test(MaxSize(size))]
    case Keyword(flag) => [Test(HasKeyword(flag))]
    case Unkeyword(flag) => [Test(NotKeyword(flag))]
    case New => [Compound(And, [Test(HasKeyword(Recent)), Test(NotKeyword(Seen))])]
    case Old => [Test(HasKeyword(Recent))]
    case ModSeq(modseq) => [Test(IdIn(Changed(ctx, LowBits(modseq))))]
    case EmailId(id) => [Test(IdIn({id}))]
    case ThreadId(id) => [Test(InThread(id))]
    case _ => [Test(HasText(key))]
  }

  function Translate(f: Filter, ctx: Context): seq<JmapFilter>
    decreases f, 1
  {
    match f
    case Leaf(key) => TranslateKey(key, ctx)
    case Operator(operator, filters) => [Compound(operator, TranslateAll(filters, ctx))]
  }

  function TranslateAll(filters: seq<Filter>, ctx: Context): seq<JmapFilter>
    decreases filters, 0
  {
    if filters == [] then [] else Translate(filters[0], ctx) + TranslateAll(filters[1..], ctx)
  }

  /** The modseqs of a filter in the order in which they are reached. */
  function ModSeqs(f: Filter): seq<nat>
    decreases f, 1
  {
    match f
    case Leaf(ModSeq(n)) => [n]
    case Leaf(_) => []
    case Operator(_, filters) => ModSeqsAll(filters)
  }

  function ModSeqsAll(filters: seq<Filter>): seq<nat>
    decreases filters, 0
  {
    if filters == [] then [] else ModSeqs(filters[0]) + ModSeqsAll(filters[1..])
  }

  /** At most one MODSEQ, and one whose low 32 bits are known. */
  predicate Answerable(modseqs: seq<nat>, ctx: Context) {
    |modseqs| == 0 || (|modseqs| == 1 && LowBits(modseqs[0]) in ctx.changedSince)
  }

  /** The translated level inside its mailbox; without a mailbox (All Mail) a lone filter is
      returned bare. */
  function Scope(operator: Operator, filters: seq<JmapFilter>, mailbox: Option<string>): JmapFilter {
    if mailbox.Some? then
      var inMailbox := Test(InMailbox(mailbox.value));
      if operator != And then Compound(And, [inMailbox, Compound(operator, filters)])
      else if filters == [] then inMailbox
      else Compound(And, filters + [inMailbox])
    else if |filters| == 1 then filters[0]
    else Compound(operator, filters)
  }

  /** The top level of a filter. */
  function Top(f: Filter): (Operator, seq<Filter>) {
    if f.Operator? then (f.operator, f.filters) else (And, [f])
  }

  function Compile(f: Filter, ctx: Context, mailbox: Option<string>): Option<JmapFilter> {
    if !Answerable(ModSeqs(f), ctx) then None
    else Some(Scope(Top(f).0, TranslateAll(Top(f).1, ctx), mailbox))
  }

  // ----- The explicit-stack loop -----

  /** A level put aside: its operator, what is left of it, and what has been translated. */
  datatype Level = Level(operator: Operator, rest: seq<Filter>, done: seq<JmapFilter>)

  /** The top level's operator and filters, once the current level has come to `done`. */
  function Unwind(operator: Operator, done: seq<JmapFilter>, stack: seq<Level>, ctx: Context): (Operator, seq<JmapFilter>)
    decreases |stack|
  {
    if stack == [] then (operator, done)
    else
      var outer := stack[|stack| - 1];
      Unwind(outer.operator, outer.done + [Compound(operator, done)] + TranslateAll(outer.rest, ctx), stack[..|stack| - 1], ctx)
  }

  /** The modseqs not reached yet: those left at the current level, then those of the stack. */
  function PendingModSeqs(rest: seq<Filter>, stack: seq<Level>): seq<nat> {
    ModSeqsAll(rest) + StackModSeqs(stack)
  }

  function StackModSeqs(stack: seq<Level>): seq<nat>
    decreases |stack|
  {
    if stack == [] then [] else ModSeqsAll(stack[|stack| - 1].rest) + StackModSeqs(stack[..|stack| - 1])
  }

  function Size(f: Filter): (n: nat)
    ensures n > 0
    decreases f, 1
  {
    match f
    case Leaf(_) => 1
    case Operator(_, filters) => 1 + SizeAll(filters)
  }

  function SizeAll(filters: seq<Filter>): nat
    decreases filters, 0
  {
    if filters == [] then 0 else Size(filters[0]) + SizeAll(filters[1..])
  }

  function PendingSize(rest: seq<Filter>, stack: seq<Level>): nat {
    SizeAll(rest) + StackSize(stack)
  }

  function StackSize(stack: seq<Level>): nat
    decreases |stack|
  {
    if stack == [] then 0 else SizeAll(stack[|stack| - 1].rest) + StackSize(stack[..|stack| - 1])
  }

  /** The arms of the loop for keys; a second or unknown MODSEQ is an error. */
  method TranslateLeaf(key: Key, ctx: Context, seenModSeq: bool) returns (filters: Option<seq<JmapFilter>>)
    ensures filters == if key.ModSeq? && (seenModSeq || LowBits(key.modseq) !in ctx.changedSince) then None
                       else Some(Translate(Leaf(key), ctx))
  {
    if key.ModSeq? && (seenModSeq || LowBits(key.modseq) !in ctx.changedSince) {
      return None;
    }
    if key.SequenceKey? && !IsSavedSearch(key.sequence) {
      var ids := Selection.SequenceToJmap(ctx.view, key.sequence, ctx.isUid || key.isUid);
      assert ids.Keys == IdsOf(ctx, key.sequence, ctx.isUid || key.isUid);
      return Some([Test(IdIn(ids.Keys))]);
    }
    return Some(TranslateKey(key, ctx));
  }

  lemma AllOfCons(f: Filter, rest: seq<Filter>, ctx: Context)
    ensures TranslateAll([f] + rest, ctx) == Translate(f, ctx) + TranslateAll(rest, ctx)
    ensures ModSeqsAll([f] + rest) == ModSeqs(f) + ModSeqsAll(rest)
    ensures SizeAll([f] + rest) == Size(f) + SizeAll(rest)
  {
    assert ([f] + rest)[1..] == rest;
  }

  lemma Pushed(stack: seq<Level>, level: Level)
    ensures (stack + [level])[..|stack|] == stack
    ensures StackModSeqs(stack + [level]) == ModSeqsAll(level.rest) + StackModSeqs(stack)
    ensures StackSize(stack + [level]) == SizeAll(level.rest) + StackSize(stack)
  {
    assert (stack + [level])[..|stack|] == stack;
  }

  lemma PushLevel(operator: Operator, done: seq<JmapFilter>, inner: Operator, filters: seq<Filter>, rest: seq<Filter>, stack: seq<Level>, ctx: Context)
    ensures var all := [Operator(inner, filters)] + rest;
            var stack' := stack + [Level(operator, rest, done)];
            && Unwind(inner, [] + TranslateAll(filters, ctx), stack', ctx)
            == Unwind(operator, done + TranslateAll(all, ctx), stack, ctx)
            && PendingModSeqs(filters, stack') == PendingModSeqs(all, stack)
            && PendingSize(filters, stack') < PendingSize(all, stack)
  {
    var f := Operator(inner, filters);
    AllOfCons(f, rest, ctx);
    Pushed(stack, Level(operator, rest, done));
    EmptyLeft(TranslateAll(filters, ctx));
    Associative(done, Translate(f, ctx), TranslateAll(rest, ctx));
    Associative(ModSeqsAll(filters), ModSeqsAll(rest), StackModSeqs(stack));
  }

  lemma NextLeaf(done: seq<JmapFilter>, f: Filter, rest: seq<Filter>, stack: seq<Level>, ctx: Context)
    ensures var all := [f] + rest;
            && done + TranslateAll(all, ctx) == done + Translate(f, ctx) + TranslateAll(rest, ctx)
            && PendingModSeqs(all, stack) == ModSeqs(f) + PendingModSeqs(rest, stack)
            && PendingSize(rest, stack) < PendingSize(all, stack)
  {
    AllOfCons(f, rest, ctx);
    Associative(done, Translate(f, ctx), TranslateAll(rest, ctx));
    Associative(ModSeqs(f), ModSeqsAll(rest), StackModSeqs(stack));
  }

  lemma PopLevel(operator: Operator, done: seq<JmapFilter>, stack: seq<Level>, ctx: Context)
    requires stack != []
    ensures var outer, rest := stack[|stack| - 1], stack[..|stack| - 1];
            && Unwind(operator, done + TranslateAll([], ctx), stack, ctx)
            == Unwind(outer.operator, outer.done + [Compound(operator, done)] + TranslateAll(outer.rest, ctx), rest, ctx)
            && PendingModSeqs([], stack) == PendingModSeqs(outer.rest, rest)
            && PendingSize([], stack) == PendingSize(outer.rest, rest)
  {
    EmptyRight(done);
    EmptyLeft(StackModSeqs(stack));
  }

  /** The loop's invariant: what is still to come completes the translation of `filter`, and
      `seen` are the modseqs met so far. */
  ghost predicate OnTrack(filter: Filter, ctx: Context, operator: Operator, rest: seq<Filter>, done: seq<JmapFilter>, stack: seq<Level>, seen: seq<nat>) {
    && Unwind(operator, done + TranslateAll(rest, ctx), stack, ctx) == (Top(filter).0, TranslateAll(Top(filter).1, ctx))
    && seen + PendingModSeqs(rest, stack) == ModSeqs(filter)
  }

  lemma StartOnTrack(filter: Filter, ctx: Context)
    ensures OnTrack(filter, ctx, Top(filter).0, Top(filter).1, [], [], [])
  {
    EmptyLeft(TranslateAll(Top(filter).1, ctx));
    EmptyLeft(PendingModSeqs(Top(filter).1, []));
    EmptyRight(ModSeqsAll(Top(filter).1));
    if filter.Leaf? {
      EmptyRight(ModSeqs(filter));
      var none: seq<Filter> := [];
      assert [filter][1..] == none && ModSeqsAll(none) == [];
    }
  }

  lemma LeafOnTrack(filter: Filter, ctx: Context, operator: Operator, key: Key, tail: seq<Filter>, done: seq<JmapFilter>, stack: seq<Level>, seen: seq<nat>)
    requires OnTrack(filter, ctx, operator, [Leaf(key)] + tail, done, stack, seen)
    requires |seen| <= 1 && Answerable(seen, ctx)
    ensures PendingSize(tail, stack) < PendingSize([Leaf(key)] + tail, stack)
    ensures if key.ModSeq? && (|seen| == 1 || LowBits(key.modseq) !in ctx.changedSince) then Compile(filter, ctx, None).None?
            else
              && OnTrack(filter, ctx, operator, tail, done + Translate(Leaf(key), ctx), stack, seen + ModSeqs(Leaf(key)))
              && Answerable(seen + ModSeqs(Leaf(key)), ctx)
              && |seen + ModSeqs(Leaf(key))| == |seen| + (if key.ModSeq? then 1 else 0)
  {
    NextLeaf(done, Leaf(key), tail, stack, ctx);
    Associative(seen, ModSeqs(Leaf(key)), PendingModSeqs(tail, stack));
    if !key.ModSeq? {
      EmptyRight(seen);
    }
  }

  lemma DoneOnTrack(filter: Filter, ctx: Context, operator: Operator, done: seq<JmapFilter>, seen: seq<nat>)
    requires OnTrack(filter, ctx, operator, [], done, [], seen)
    ensures (operator, done) == (Top(filter).0, TranslateAll(Top(filter).1, ctx)) && seen == ModSeqs(filter)
  {
    EmptyRight(done);
    EmptyRight(seen);
    assert PendingModSeqs([], []) == [];
  }

  method ImapFilterToJmap(filter: Filter, ctx: Context, mailbox: Option<string>) returns (result: Option<JmapFilter>)
    ensures result == Compile(filter, ctx, mailbox)
  {
    var (operator, rest) := Top(filter);
    var done: seq<JmapFilter>, stack: seq<Level> := [], [];
    var seenModSeq := false;
    ghost var seen: seq<nat> := [];
    StartOnTrack(filter, ctx);
    while true
      invariant OnTrack(filter, ctx, operator, rest, done, stack, seen)
      invariant |seen| == (if seenModSeq then 1 else 0) && Answerable(seen, ctx)
      decreases PendingSize(rest, stack), |stack|
    {
      if rest != [] {
        var tail := rest[1..];
        assert rest == [rest[0]] + tail;
        match rest[0] {
          case Operator(inner, filters) =>
            PushLevel(operator, done, inner, filters, tail, stack, ctx);
            stack := stack + [Level(operator, tail, done)];
            operator, rest, done := inner, filters, [];
          case Leaf(key) =>
            LeafOnTrack(filter, ctx, operator, key, tail, done, stack, seen);
            var translated := TranslateLeaf(key, ctx, seenModSeq);
            if translated.None? {
              return None;
            }
            seenModSeq := seenModSeq || key.ModSeq?;
            seen := seen + ModSeqs(Leaf(key));
            done, rest := done + translated.value, tail;
        }
      } else if stack != [] {
        PopLevel(operator, done, stack, ctx);
        var outer := stack[|stack| - 1];
        stack := stack[..|stack| - 1];
        done := outer.done + [Compound(operator, done)];
        operator, rest := outer.operator, outer.rest;
      } else {
        break;
      }
    }
    DoneOnTrack(filter, ctx, operator, done, seen);
    return Some(Scope(operator, done, mailbox));
  }

  // ----- The translation keeps the meaning -----

  /** The search keys that hold of a message. */
  ghost function Truths(m: Message, ctx: Context): iset<Key> {
    iset key | KeyHolds(key, m, ctx)
  }

  /** The keys whose translation holds of exactly the messages that the key holds of. ALL has no
      translation of its own; what dropping it does depends on where it stands. */
  predicate Expressible(key: Key, ctx: Context) {
    match key
    case Older(_) => false
    case Old => false
    case Larger(size) => size < MAX_U32
    case Younger(interval) => interval <= ctx.now
    case ModSeq(modseq) => modseq <= MAX_U32 || Changed(ctx, LowBits(modseq)) == {}
    case SequenceKey(s, isUid) => ReadAsMeant(s, isUid, ctx)
    case _ => true
  }

  /** A set with `$` selects nothing besides the saved result, and a set without UID selects the same
      messages by UID as by number if the command is UID SEARCH. */
  predicate ReadAsMeant(s: Sequence, isUid: bool, ctx: Context) {
    if IsSavedSearch(s) then IdsOf(ctx, s, isUid) <= ctx.saved
    else !ctx.isUid || isUid || IdsOf(ctx, s, true) == IdsOf(ctx, s, false)
  }

  lemma AllMatchPair(a: JmapFilter, b: JmapFilter, m: Message)
    ensures Matches(Compound(And, [a, b]), m) <==> Matches(a, m) && Matches(b, m)
  {
    assert [a, b][1..] == [b];
    MatchOne(b, m);
  }

  lemma KeyMeaning(key: Key, m: Message, ctx: Context)
    requires !key.All? && Expressible(key, ctx)
    ensures |TranslateKey(key, ctx)| == 1
    ensures Matches(TranslateKey(key, ctx)[0], m) <==> KeyHolds(key, m, ctx)
  {
    match key
    case On(date) => AllMatchPair(Test(ReceivedAfter(date)), Test(ReceivedBefore(date + DAY)), m);
    case SentOn(date) => AllMatchPair(Test(SentAfterDate(date)), Test(SentBeforeDate(date + DAY)), m);
    case New => AllMatchPair(Test(HasKeyword(Recent)), Test(NotKeyword(Seen)), m);
    case _ => SimpleKeyMeaning(key, m, ctx);
  }

  /** A key translated to a single test. */
  function TestOf(key: Key, ctx: Context): Condition
    requires !key.All? && !key.On? && !key.SentOn? && !key.New?
  {
    TranslateKey(key, ctx)[0].condition
  }

  lemma SimpleKeyMeaning(key: Key, m: Message, ctx: Context)
    requires !key.All? && Expressible(key, ctx) && !key.On? && !key.SentOn? && !key.New?
    ensures TranslateKey(key, ctx) == [Test(TestOf(key, ctx))]
    ensures TestHolds(TestOf(key, ctx), m) <==> KeyHolds(key, m, ctx)
  {
    match key
    case SequenceKey(s, isUid) => SequenceMeaning(s, isUid, m, ctx);
    case _ =>
  }

  /** What a set means, and what it is translated to. */
  lemma SequenceMeaning(s: Sequence, isUid: bool, m: Message, ctx: Context)
    ensures KeyHolds(SequenceKey(s, isUid), m, ctx)
       <==> (IsSavedSearch(s) && m.id in ctx.saved) || m.id in IdsOf(ctx, s, isUid)
    ensures Matches(TranslateKey(SequenceKey(s, isUid), ctx)[0], m)
       <==> m.id in if IsSavedSearch(s) then ctx.saved else IdsOf(ctx, s, ctx.isUid || isUid)
  {
  }

  ghost predicate SameOnEveryMessage(key: Key, ctx: Context)
    requires !key.All?
  {
    forall m: Message :: Matches(TranslateKey(key, ctx)[0], m) <==> KeyHolds(key, m, ctx)
  }

  /** A message like no other, for the keys that look at one attribute only. */
  function Sample(id: Id, receivedAt: int): Message {
    Message(id, "", {}, receivedAt, 0, 0, {}, iset{})
  }

  /** A message on which meaning and translation of a key differ. */
  lemma SampleDiffers(key: Key, ctx: Context) returns (m: Message)
    requires !key.All? && !Expressible(key, ctx) && (key.Larger? ==> key.size <= MAX_U32)
    ensures Matches(TranslateKey(key, ctx)[0], m) != KeyHolds(key, m, ctx)
  {
    match key
    case Older(interval) => m := Sample([], SaturatingSub(ctx.now, interval) + 1);
    case Younger(interval) => m := Sample([], ctx.now - interval);
    case ModSeq(modseq) =>
      var id :| id in Changed(ctx, LowBits(modseq));
      m := Sample(id, 0);
    case SequenceKey(s, isUid) => m := SampleSequence(s, isUid, ctx);
    case _ => m := Sample([], 0);
  }

  lemma SampleSequence(s: Sequence, isUid: bool, ctx: Context) returns (m: Message)
    requires !ReadAsMeant(s, isUid, ctx)
    ensures Matches(TranslateKey(SequenceKey(s, isUid), ctx)[0], m) != KeyHolds(SequenceKey(s, isUid), m, ctx)
  {
    var read := if IsSavedSearch(s) then ctx.saved else IdsOf(ctx, s, true);
    var meant := IdsOf(ctx, s, isUid);
    var id: Id;
    if meant <= read {
      id :| id in read && id !in meant;
    } else {
      id :| id in meant && id !in read;
    }
    m := Sample(id, 0);
    SequenceMeaning(s, isUid, m, ctx);
  }

  /** That list of exceptions is exact: OLDER is translated as YOUNGER, OLD as RECENT, LARGER
      overflows at the last 32-bit size, YOUNGER saturates before the epoch, MODSEQ is cut to 32 bits,
      a set with `$` loses its other members, and under UID SEARCH numbers are taken for UIDs. */
  lemma ExpressibleIff(key: Key, ctx: Context)
    requires !key.All? && (key.Larger? ==> key.size <= MAX_U32)
    ensures SameOnEveryMessage(key, ctx) <==> Expressible(key, ctx)
  {
    if Expressible(key, ctx) {
      forall m: Message
        ensures Matches(TranslateKey(key, ctx)[0], m) <==> KeyHolds(key, m, ctx)
      {
        KeyMeaning(key, m, ctx);
      }
    } else {
      var m := SampleDiffers(key, ctx);
      assert Matches(TranslateKey(key, ctx)[0], m) != KeyHolds(key, m, ctx);
    }
  }

  /** What the keys that can go wrong find instead. */
  lemma FoundInstead(key: Key, m: Message, ctx: Context)
    requires !key.All? && (key.Larger? ==> key.size <= MAX_U32)
    ensures var found := Matches(TranslateKey(key, ctx)[0], m);
            match key
            case Older(interval) => found <==> 0 <= m.receivedAt && ctx.now <= m.receivedAt + interval
            case Younger(interval) => found <==> 0 <= m.receivedAt && ctx.now <= m.receivedAt + interval
            case Old => found <==> Recent in m.flags
            case Larger(size) => found <==> m.size > size || size == 0xFFFF_FFFF
            case ModSeq(modseq) => found <==> m.id in Changed(ctx, modseq % 0x1_0000_0000)
            case SequenceKey(s, isUid) =>
              if IsSavedSearch(s) then found <==> m.id in ctx.saved
              else found <==> exists pos :: 0 <= pos < |ctx.view| && ctx.view[pos].id == m.id
                                            && Selection.IsRequested(ctx.view, s, ctx.isUid || isUid, pos)
            case _ => true
  {
  }

  /** Every key of a filter is expressible, or ALL. */
  predicate Plainly(f: Filter, ctx: Context)
    decreases f, 1
  {
    match f
    case Leaf(key) => Expressible(key, ctx)
    case Operator(_, filters) => PlainlyAll(filters, ctx)
  }

  predicate PlainlyAll(filters: seq<Filter>, ctx: Context)
    decreases filters, 0
  {
    filters == [] || (Plainly(filters[0], ctx) && PlainlyAll(filters[1..], ctx))
  }

  lemma {:induction false} MatchConcat(a: seq<JmapFilter>, b: seq<JmapFilter>, m: Message)
    ensures AllMatch(a + b, m) <==> AllMatch(a, m) && AllMatch(b, m)
    ensures SomeMatch(a + b, m) <==> SomeMatch(a, m) || SomeMatch(b, m)
  {
    if a == [] {
      EmptyLeft(b);
    } else {
      assert (a + b)[1..] == a[1..] + b;
      MatchConcat(a[1..], b, m);
    }
  }

  lemma MatchOne(f: JmapFilter, m: Message)
    ensures AllMatch([f], m) <==> Matches(f, m)
    ensures SomeMatch([f], m) <==> Matches(f, m)
  {
  }

  /** A translated filter holds of exactly the messages that the filter without its ALLs holds of. */
  lemma {:induction false} TranslateDropsAll(f: Filter, m: Message, ctx: Context)
    requires Plainly(f, ctx) && f != Leaf(All)
    ensures |Translate(f, ctx)| == 1
    ensures Matches(Translate(f, ctx)[0], m) <==> Holds(Drop(f), Truths(m, ctx))
    decreases f, 1
  {
    match f
    case Leaf(key) => KeyMeaning(key, m, ctx);
    case Operator(operator, filters) => TranslateAllDropsAll(filters, m, ctx);
  }

  lemma {:induction false} TranslateAllDropsAll(filters: seq<Filter>, m: Message, ctx: Context)
    requires PlainlyAll(filters, ctx)
    ensures AllMatch(TranslateAll(filters, ctx), m) <==> AllHold(DropEach(filters), Truths(m, ctx))
    ensures SomeMatch(TranslateAll(filters, ctx), m) <==> SomeHold(DropEach(filters), Truths(m, ctx))
    ensures |TranslateAll(filters, ctx)| == |DropEach(filters)|
    decreases filters, 0
  {
    if filters != [] {
      var first, rest := filters[0], filters[1..];
      TranslateAllDropsAll(rest, m, ctx);
      if first == Leaf(All) {
        EmptyLeft(TranslateAll(rest, ctx));
      } else {
        TranslateDropsAll(first, m, ctx);
        assert Translate(first, ctx) == [Translate(first, ctx)[0]];
        MatchConcat(Translate(first, ctx), TranslateAll(rest, ctx), m);
        MatchOne(Translate(first, ctx)[0], m);
        HoldConcat([Drop(first)], DropEach(rest), Truths(m, ctx));
        HoldOne(Drop(first), Truths(m, ctx));
      }
    }
  }

  /** Where dropping ALL does no harm, a filter and its translation hold of the same messages. */
  lemma TranslateKeepsMeaning(f: Filter, m: Message, ctx: Context)
    requires Plainly(f, ctx) && Unharmed(f) && f != Leaf(All)
    ensures |Translate(f, ctx)| == 1
    ensures Matches(Translate(f, ctx)[0], m) <==> Holds(f, Truths(m, ctx))
  {
    TranslateDropsAll(f, m, ctx);
    UnharmedKeepsMeaning(f, Truths(m, ctx));
  }

  /** An OR or NOT that has ALL in it is right on a message exactly if something else in it holds. */
  lemma AllUnderOrIff(operator: Operator, filters: seq<Filter>, m: Message, ctx: Context)
    requires PlainlyAll(filters, ctx) && operator != And && Leaf(All) in filters
    ensures (Matches(Compound(operator, TranslateAll(filters, ctx)), m) <==> Holds(Operator(operator, filters), Truths(m, ctx)))
       <==> SomeHold(DropEach(filters), Truths(m, ctx))
  {
    TranslateAllDropsAll(filters, m, ctx);
    HasAll(filters, Truths(m, ctx));
  }

  lemma {:induction false} HasAll(filters: seq<Filter>, v: iset<Key>)
    requires All in v && Leaf(All) in filters
    ensures SomeHold(filters, v)
  {
    if filters[0] != Leaf(All) {
      HasAll(filters[1..], v);
    }
  }

  /** The top level of a filter, translated, holds of the messages that the filter without its ALLs
      holds of. */
  lemma TopMeaning(f: Filter, ctx: Context, m: Message)
    requires Plainly(f, ctx)
    ensures Matches(Compound(Top(f).0, TranslateAll(Top(f).1, ctx)), m) <==> Holds(Drop(f), Truths(m, ctx))
  {
    var none: seq<Filter> := [];
    assert f.Leaf? ==> [f][1..] == none && DropEach(none) == none;
    TranslateAllDropsAll(Top(f).1, m, ctx);
    if f.Leaf? && !f.key.All? {
      assert DropEach([f]) == [f];
      HoldOne(f, Truths(m, ctx));
    }
  }

  /** In a mailbox the compiled filter holds of exactly the messages of that mailbox that the IMAP
      filter without its ALLs holds of. */
  lemma CompileDropsAll(f: Filter, ctx: Context, mailbox: string, m: Message)
    requires Plainly(f, ctx) && Compile(f, ctx, Some(mailbox)).Some?
    ensures Matches(Compile(f, ctx, Some(mailbox)).value, m)
       <==> mailbox in m.mailboxes && Holds(Drop(f), Truths(m, ctx))
  {
    var (operator, filters) := Top(f);
    var translated, inMailbox := TranslateAll(filters, ctx), Test(InMailbox(mailbox));
    TopMeaning(f, ctx, m);
    if operator != And {
      AllMatchPair(inMailbox, Compound(operator, translated), m);
    } else {
      MatchConcat(translated, [inMailbox], m);
      MatchOne(inMailbox, m);
    }
  }

  /** Where dropping ALL does no harm, those are the messages that the filter itself holds of. */
  lemma CompileKeepsMeaning(f: Filter, ctx: Context, mailbox: string, m: Message)
    requires Plainly(f, ctx) && Unharmed(f) && Compile(f, ctx, Some(mailbox)).Some?
    ensures Matches(Compile(f, ctx, Some(mailbox)).value, m)
       <==> mailbox in m.mailboxes && Holds(f, Truths(m, ctx))
  {
    CompileDropsAll(f, ctx, mailbox, m);
    UnharmedKeepsMeaning(f, Truths(m, ctx));
  }

  /** Keys that ask for a text. */
  predicate IsTextKey(key: Key) {
    key.From? || key.To? || key.Cc? || key.Bcc? || key.Body? || key.Subject? || key.Text? || key.Header?
  }

  lemma {:induction false} TextIsPlain(f: Filter, ctx: Context)
    requires forall key :: key in KeysOf(f) ==> IsTextKey(key)
    ensures Plainly(f, ctx) && ModSeqs(f) == []
    decreases f, 1
  {
    match f
    case Leaf(key) => assert key.All? || key in KeysOf(f);
    case Operator(_, filters) => TextsArePlain(filters, ctx);
  }

  lemma {:induction false} TextsArePlain(filters: seq<Filter>, ctx: Context)
    requires forall key :: key in KeysOfEach(filters) ==> IsTextKey(key)
    ensures PlainlyAll(filters, ctx) && ModSeqsAll(filters) == []
    decreases filters, 0
  {
    if filters != [] {
      TextIsPlain(filters[0], ctx);
      TextsArePlain(filters[1..], ctx);
    }
  }

  /** For a filter of independent text keys and ALLs the condition is exact: the compiled filter is right
      on every message exactly if dropping the ALLs does no harm. */
  lemma CompileKeepsMeaningIff(f: Filter, ctx: Context, mailbox: string)
    requires Once(f) && forall key :: key in KeysOf(f) ==> IsTextKey(key)
    ensures Compile(f, ctx, Some(mailbox)).Some?
    ensures (forall m: Message :: Matches(Compile(f, ctx, Some(mailbox)).value, m)
                               <==> mailbox in m.mailboxes && Holds(f, Truths(m, ctx)))
       <==> Unharmed(f)
  {
    TextIsPlain(f, ctx);
    if Unharmed(f) {
      forall m: Message
        ensures Matches(Compile(f, ctx, Some(mailbox)).value, m) <==> mailbox in m.mailboxes && Holds(f, Truths(m, ctx))
      {
        CompileKeepsMeaning(f, ctx, mailbox, m);
      }
    } else {
      var v := HarmShows(f);
      var m := Message([], "", {mailbox}, 0, 0, 0, {}, v);
      CompileDropsAll(f, ctx, mailbox, m);
      TextsHold(f, v, m, ctx);
    }
  }

  /** A message can have any texts. */
  lemma TextsHold(f: Filter, v: iset<Key>, m: Message, ctx: Context)
    requires v <= KeysOf(f) && m.texts == v && forall key :: key in KeysOf(f) ==> IsTextKey(key)
    ensures Holds(f, Truths(m, ctx)) <==> Holds(f, With(v))
    ensures Holds(Drop(f), Truths(m, ctx)) <==> Holds(Drop(f), With(v))
  {
    DropKeepsKeys(f);
    AllIsNoKey(f);
    assert Truths(m, ctx) * KeysOf(f) == With(v) * KeysOf(f);
    OnlyKeysMatter(f, Truths(m, ctx), With(v));
    OnlyKeysMatter(Drop(f), Truths(m, ctx), With(v));
  }

  /** Without a mailbox the operator of a lone filter is lost: that is right on any message unless
      the operator is NOT, and then it is wrong on every message. */
  lemma AllMailDropsAllIff(f: Filter, ctx: Context, m: Message)
    requires Plainly(f, ctx) && Compile(f, ctx, None).Some?
    ensures (Matches(Compile(f, ctx, None).value, m) <==> Holds(Drop(f), Truths(m, ctx)))
       <==> !(f.Operator? && f.operator == Not && |DropEach(f.filters)| == 1)
  {
    TopMeaning(f, ctx, m);
    TranslateAllDropsAll(Top(f).1, m, ctx);
    var translated := TranslateAll(Top(f).1, ctx);
    if |translated| == 1 {
      MatchOne(translated[0], m);
      assert translated == [translated[0]];
    }
  }

  lemma AllMailKeepsMeaningIff(f: Filter, ctx: Context, m: Message)
    requires Plainly(f, ctx) && Unharmed(f) && Compile(f, ctx, None).Some?
    ensures (Matches(Compile(f, ctx, None).value, m) <==> Holds(f, Truths(m, ctx)))
       <==> !(f.Operator? && f.operator == Not && |DropEach(f.filters)| == 1)
  {
    AllMailDropsAllIff(f, ctx, m);
    UnharmedKeepsMeaning(f, Truths(m, ctx));
  }

  /** In All Mail `NOT KEYWORD flag` finds the messages that have the flag. */
  lemma NotInAllMail(flag: Flag, ctx: Context, m: Message)
    ensures var filter := Operator(Not, [Leaf(Keyword(flag))]);
            && Compile(filter, ctx, None) == Some(Test(HasKeyword(flag)))
            && (Holds(filter, Truths(m, ctx)) <==> flag !in m.flags)
  {
    var filters := [Leaf(Keyword(flag))];
    var none: seq<Filter> := [];
    assert filters[1..] == none;
    assert TranslateAll(filters, ctx) == [Test(HasKeyword(flag))];
    assert ModSeqsAll(filters) == [];
    HoldOne(filters[0], Truths(m, ctx));
  }

  /** With UIDs 2 and 5, the `2` of `UID SEARCH 2` is the second message, but the first is found. */
  lemma NumbersUnderUidSearch(first: Id, second: Id, m: Message)
    requires first != second
    ensures var ctx := Context([SelectedView.Message(first, 2), SelectedView.Message(second, 5)], true, {}, 0, map[]);
            var key := SequenceKey(Number(2), false);
            && (KeyHolds(key, m, ctx) <==> m.id == second)
            && (Matches(TranslateKey(key, ctx)[0], m) <==> m.id == first)
  {
    var ctx := Context([SelectedView.Message(first, 2), SelectedView.Message(second, 5)], true, {}, 0, map[]);
    SequenceMeaning(Number(2), false, m, ctx);
    assert IdsOf(ctx, Number(2), false) == {second} by {
      assert Selection.IsRequested(ctx.view, Number(2), false, 1);
    }
    assert IdsOf(ctx, Number(2), true) == {first} by {
      assert Selection.IsRequested(ctx.view, Number(2), true, 0);
    }
  }

  /** With nothing saved, `$,1` asks for the first message, but nothing is found. */
  lemma MemberBesidesSaved(first: Id, uid: nat, m: Message)
    requires uid > 0
    ensures var ctx := Context([SelectedView.Message(first, uid)], false, {}, 0, map[]);
            var key := SequenceKey(List([SavedSearch, Number(1)]), false);
            && (KeyHolds(key, m, ctx) <==> m.id == first)
            && !Matches(TranslateKey(key, ctx)[0], m)
  {
    var ctx := Context([SelectedView.Message(first, uid)], false, {}, 0, map[]);
    var set1 := List([SavedSearch, Number(1)]);
    assert IsSavedSearch(set1.items[0]) && IsSavedSearch(set1);
    SequenceMeaning(set1, false, m, ctx);
    assert IdsOf(ctx, set1, false) == {first} by {
      assert Contains(set1.items[1], 1, 1);
      assert Selection.IsRequested(ctx.view, set1, false, 0);
    }
  }

  /** MODSEQ 2^32 + 1 finds what has changed since modseq 1. */
  lemma HighModSeq(id: Id, m: Message)
    ensures var ctx := Context([], false, {}, 0, map[1 := {id}]);
            var key := ModSeq(0x1_0000_0001);
            && !KeyHolds(key, m, ctx)
            && (Matches(TranslateKey(key, ctx)[0], m) <==> m.id == id)
  {
    assert LowBits(0x1_0000_0001) == 1;
  }

  /** `OR ALL KEYWORD flag` finds only the messages that have the flag. */
  lemma AllUnderOr(flag: Flag, ctx: Context, mailbox: string, m: Message)
    requires mailbox in m.mailboxes
    ensures var filter := Operator(Or, [Leaf(All), Leaf(Keyword(flag))]);
            && Holds(filter, Truths(m, ctx))
            && Compile(filter, ctx, Some(mailbox)).Some?
            && (Matches(Compile(filter, ctx, Some(mailbox)).value, m) <==> flag in m.flags)
  {
    var filters := [Leaf(All), Leaf(Keyword(flag))];
    var none: seq<Filter> := [];
    assert filters[1..] == [Leaf(Keyword(flag))] && filters[1..][1..] == none;
    assert TranslateAll(filters[1..], ctx) == [Test(HasKeyword(flag))];
    assert TranslateAll(filters, ctx) == [Test(HasKeyword(flag))];
    assert ModSeqsAll(filters[1..]) == [];
    assert ModSeqsAll(filters) == ModSeqs(filters[0]) + ModSeqsAll(filters[1..]);
    MatchOne(Test(HasKeyword(flag)), m);
    AllMatchPair(Test(InMailbox(mailbox)), Compound(Or, [Test(HasKeyword(flag))]), m);
  }
}
