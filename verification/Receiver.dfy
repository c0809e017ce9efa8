/** The byte-at-a-time reader of requests: its states, and what each byte does. */
module Receiver {
  import opened Wrappers
  import opened Sequences
  import opened Decimal

  type Bytes = seq<Byte>

  datatype Token =
    | Argument(bytes: Bytes)
    | ParenthesisOpen
    | ParenthesisClose
    | BracketOpen
    | BracketClose
    | Lt
    | Gt
    | Dot
    | Nil

  /** A command by its name, and whether UID stood before it. */
  datatype Command = Default | Command(name: Bytes, isUid: bool)

  datatype Request = Request(tag: Bytes, command: Command, tokens: seq<Token>)

  const EMPTY := Request([], Default, [])

  datatype State =
    | Start
    | Tag
    | CommandName(isUid: bool)
    | Arguments(last: Byte)
    | Quoted(escaped: bool)
    | Literal(nonSync: bool)
    | LiteralSeek(size: nat, nonSync: bool)
    | LiteralData(remaining: nat)

  datatype Problem =
    | ExpectedTag | InvalidTagUtf8 | TagTooLong | InvalidTagCharacter
    | CommandTooLong | UnknownCommand | InvalidCommandCharacter
    | RequestTooLarge | QuotedTooLong | UnterminatedQuoted
    | LiteralNotANumber | LiteralTooLarge | EmptyLiteral | InvalidNonSync | InvalidLiteral | ExpectedCrlf

  datatype Event = Complete(request: Request) | NeedsLiteral(size: nat) | Failed(tag: Option<Bytes>, problem: Problem)

  /** The commands known, those whose brackets are tokens, the size limit, and where a request begins. */
  datatype Config = Config(known: set<Bytes>, bracketed: set<Bytes>, max: nat, start: State)

  datatype Machine = Machine(buf: Bytes, request: Request, state: State, size: nat)

  datatype Outcome = Outcome(machine: Machine, events: seq<Event>)

  // ----- Bytes -----

  const LF: Byte := 10
  const CR: Byte := 13
  const SPACE: Byte := 32
  const QUOTE: Byte := 34
  const BACKSLASH: Byte := 92

  predicate IsSpace(b: Byte) {
    b == 9 || b == 10 || b == 12 || b == 13 || b == 32
  }

  predicate IsAlphanumeric(b: Byte) {
    48 <= b <= 57 || 65 <= b <= 90 || 97 <= b <= 122
  }

  function ToUpper(b: Byte): Byte {
    if 97 <= b <= 122 then b - 32 else b
  }

  const UID: Bytes := [85, 73, 68]

  predicate Continues(b: Byte) {
    0x80 <= b <= 0xBF
  }

  /** Well-formed UTF-8 (section 4 of RFC 3629). */
  predicate IsUtf8(bytes: Bytes)
    decreases |bytes|
  {
    if bytes == [] then true
    else if bytes[0] <= 0x7F then IsUtf8(bytes[1..])
    else if 0xC2 <= bytes[0] <= 0xDF then |bytes| >= 2 && Continues(bytes[1]) && IsUtf8(bytes[2..])
    else if 0xE0 <= bytes[0] <= 0xEF then
      && |bytes| >= 3 && Continues(bytes[1]) && Continues(bytes[2])
      && (bytes[0] == 0xE0 ==> bytes[1] >= 0xA0) && (bytes[0] == 0xED ==> bytes[1] <= 0x9F)
      && IsUtf8(bytes[3..])
    else if 0xF0 <= bytes[0] <= 0xF4 then
      && |bytes| >= 4 && Continues(bytes[1]) && Continues(bytes[2]) && Continues(bytes[3])
      && (bytes[0] == 0xF0 ==> bytes[1] >= 0x90) && (bytes[0] == 0xF4 ==> bytes[1] <= 0x8F)
      && IsUtf8(bytes[4..])
    else false
  }

  lemma {:induction false} DigitsAreUtf8(bytes: Bytes)
    requires AllDigits(bytes)
    ensures IsUtf8(bytes)
  {
    if bytes != [] {
      DigitsAreUtf8(bytes[1..]);
    }
  }

  // ----- What one byte does -----

  function Fail(c: Config, m: Machine, problem: Problem): Outcome {
    Outcome(Machine([], EMPTY, c.start, 0), [Failed(if m.request.tag != [] then Some(m.request.tag) else None, problem)])
  }

  function AddToken(m: Machine, token: Token): Machine {
    m.(request := m.request.(tokens := m.request.tokens + [token]))
  }

  function PushArgument(c: Config, m: Machine, inQuote: bool): Outcome {
    if m.buf != [] then
      if m.size + |m.buf| > c.max then Fail(c, m, RequestTooLarge)
      else Outcome(AddToken(m, Argument(m.buf)).(buf := [], size := m.size + |m.buf|), [])
    else if inQuote then Outcome(AddToken(m, Nil), [])
    else Outcome(m, [])
  }

  function PushToken(c: Config, m: Machine, token: Token): Outcome {
    if m.size + 1 > c.max then Fail(c, m, RequestTooLarge)
    else Outcome(AddToken(m, token).(size := m.size + 1), [])
  }

  /** An error ends the step; otherwise the reader goes to `state`. */
  function GoTo(o: Outcome, state: State): Outcome {
    if o.events != [] then o else Outcome(o.machine.(state := state), [])
  }

  function PushBoth(c: Config, m: Machine, token: Token): Outcome {
    var o := PushArgument(c, m, false);
    if o.events != [] then o else PushToken(c, o.machine, token)
  }

  function Finish(c: Config, m: Machine): Outcome {
    Outcome(Machine(m.buf, EMPTY, c.start, 0), [Complete(m.request)])
  }

  function StepStart(c: Config, m: Machine, ch: Byte): Outcome {
    if !IsSpace(ch) then Outcome(m.(buf := m.buf + [ch], state := Tag), [])
    else if ch == LF then Fail(c, m, ExpectedTag)
    else Outcome(m, [])
  }

  function StepTag(c: Config, m: Machine, ch: Byte): Outcome {
    if ch == SPACE then
      if m.buf == [] then Outcome(m, [])
      else if !IsUtf8(m.buf) then Fail(c, m, InvalidTagUtf8)
      else Outcome(m.(buf := [], request := m.request.(tag := m.buf), state := CommandName(false)), [])
    else if IsSpace(ch) then Fail(c, m, InvalidTagCharacter)
    else if |m.buf| < 128 then Outcome(m.(buf := m.buf + [ch]), [])
    else Fail(c, m, TagTooLong)
  }

  function StepCommand(c: Config, m: Machine, ch: Byte, isUid: bool): Outcome {
    if IsAlphanumeric(ch) then
      if |m.buf| < 15 then Outcome(m.(buf := m.buf + [ToUpper(ch)]), []) else Fail(c, m, CommandTooLong)
    else if !IsSpace(ch) then Fail(c, m, InvalidCommandCharacter)
    else if m.buf == [] then Outcome(m, [])
    else if m.buf == UID then Outcome(m.(buf := [], state := CommandName(true)), [])
    else if m.buf !in c.known then Fail(c, m, UnknownCommand)
    else
      var m' := m.(buf := [], request := m.request.(command := Command(m.buf, isUid)));
      if ch != LF then Outcome(m'.(state := Arguments(SPACE)), []) else Finish(c, m')
  }

  predicate Brackets(c: Config, m: Machine) {
    m.request.command.Command? && m.request.command.name in c.bracketed
  }

  /** The token that a delimiter stands for. */
  function Delimiter(ch: Byte, brackets: bool): Option<Token> {
    if ch == 40 then Some(ParenthesisOpen)
    else if ch == 41 then Some(ParenthesisClose)
    else if !brackets then None
    else if ch == 91 then Some(BracketOpen)
    else if ch == 93 then Some(BracketClose)
    else if ch == 60 then Some(Lt)
    else if ch == 62 then Some(Gt)
    else if ch == 46 then Some(Dot)
    else None
  }

  /** Which bytes are delimiters, and what each stands for. */
  lemma DelimitersAre(ch: Byte, brackets: bool)
    ensures Delimiter(40, brackets) == Some(ParenthesisOpen) && Delimiter(41, brackets) == Some(ParenthesisClose)
    ensures Delimiter(91, true) == Some(BracketOpen) && Delimiter(93, true) == Some(BracketClose)
    ensures Delimiter(60, true) == Some(Lt) && Delimiter(62, true) == Some(Gt) && Delimiter(46, true) == Some(Dot)
    ensures Delimiter(ch, brackets).Some? <==> ch in {40, 41} || (brackets && ch in {91, 93, 60, 62, 46})
  {
  }

  /** White space is tab, line feed, form feed, carriage return and space; letters are raised to upper
      case, and nothing else is changed. */
  lemma ClassesAre(b: Byte)
    ensures IsSpace(b) <==> b in {9, 10, 12, 13, 32}
    ensures IsAlphanumeric(b) <==> 48 <= b < 58 || 65 <= b < 91 || 97 <= b < 123
    ensures ToUpper(b) == if 97 <= b < 123 then b - 32 else b
  {
  }

  function StepArguments(c: Config, m: Machine, ch: Byte, last: Byte): Outcome {
    var token := Delimiter(ch, Brackets(c, m));
    if ch == QUOTE && IsSpace(last) then GoTo(PushArgument(c, m, false), Quoted(false))
    else if ch == 123 && IsSpace(last) then GoTo(PushArgument(c, m, false), Literal(false))
    else if token.Some? then PushBoth(c, m, token.value)
    else if ch == LF then
      var o := PushArgument(c, m, false);
      if o.events != [] then o else Finish(c, o.machine)
    else if IsSpace(ch) then GoTo(PushArgument(c, m, false), Arguments(ch))
    else Outcome(m.(buf := m.buf + [ch], state := Arguments(ch)), [])
  }

  function StepQuoted(c: Config, m: Machine, ch: Byte, escaped: bool): Outcome {
    if ch == QUOTE then
      if !escaped then GoTo(PushArgument(c, m, true), Arguments(SPACE))
      else if |m.buf| < 1024 then Outcome(m.(buf := m.buf + [ch], state := Quoted(false)), [])
      else Fail(c, m, QuotedTooLong)
    else if ch == BACKSLASH then
      Outcome(m.(buf := m.buf + if escaped then [ch] else [], state := Quoted(!escaped)), [])
    else if ch == LF then Fail(c, m, UnterminatedQuoted)
    else if |m.buf| < 1024 then
      Outcome(m.(buf := m.buf + (if escaped then [BACKSLASH] else []) + [ch], state := Quoted(false)), [])
    else Fail(c, m, QuotedTooLong)
  }

  function StepLiteral(c: Config, m: Machine, ch: Byte, nonSync: bool): Outcome {
    if ch == 125 then
      if m.buf == [] then Fail(c, m, EmptyLiteral)
      else
        var size := ParseU32(m.buf);
        if size.None? then Fail(c, m, LiteralNotANumber)
        else if m.size + size.value > c.max then Fail(c, m, LiteralTooLarge)
        else Outcome(m.(buf := [], state := LiteralSeek(size.value, nonSync)), [])
    else if ch == 43 then
      if m.buf == [] then Fail(c, m, InvalidNonSync) else Outcome(m.(state := Literal(true)), [])
    else if IsDigit(ch) && !nonSync then Outcome(m.(buf := m.buf + [ch]), [])
    else Fail(c, m, InvalidLiteral)
  }

  function StepSeek(c: Config, m: Machine, ch: Byte, size: nat, nonSync: bool): Outcome {
    if ch == LF then
      var o := if size > 0 then Outcome(m.(state := LiteralData(size)), [])
               else PushToken(c, m.(state := Arguments(SPACE)), Nil);
      if o.events != [] || nonSync then o else Outcome(o.machine, [NeedsLiteral(size)])
    else if IsSpace(ch) then Outcome(m, [])
    else Fail(c, m, ExpectedCrlf)
  }

  function StepData(c: Config, m: Machine, ch: Byte, remaining: nat): Outcome {
    var m' := m.(buf := m.buf + [ch]);
    if remaining > 1 then Outcome(m'.(state := LiteralData(remaining - 1)), [])
    else GoTo(PushArgument(c, m', false), Arguments(SPACE))
  }

  function Step(c: Config, m: Machine, ch: Byte): Outcome {
    match m.state
    case Start => StepStart(c, m, ch)
    case Tag => StepTag(c, m, ch)
    case CommandName(isUid) => StepCommand(c, m, ch, isUid)
    case Arguments(last) => StepArguments(c, m, ch, last)
    case Quoted(escaped) => StepQuoted(c, m, ch, escaped)
    case Literal(nonSync) => StepLiteral(c, m, ch, nonSync)
    case LiteralSeek(size, nonSync) => StepSeek(c, m, ch, size, nonSync)
    case LiteralData(remaining) => StepData(c, m, ch, remaining)
  }

  /** A stream of bytes, with everything that is reported on the way. */
  function Feed(c: Config, m: Machine, bytes: Bytes): Outcome
    decreases |bytes|
  {
    if bytes == [] then Outcome(m, [])
    else
      var first := Step(c, m, bytes[0]);
      var rest := Feed(c, first.machine, bytes[1..]);
      Outcome(rest.machine, first.events + rest.events)
  }

  /** However the stream is cut, the reader ends up in the same state and reports the same. */
  lemma {:induction false} FeedConcat(c: Config, m: Machine, a: Bytes, b: Bytes)
    ensures var first := Feed(c, m, a);
            var rest := Feed(c, first.machine, b);
            Feed(c, m, a + b) == Outcome(rest.machine, first.events + rest.events)
    decreases |a|
  {
    if a == [] {
      EmptyLeft(b);
      EmptyLeft(Feed(c, m, b).events);
    } else {
      var first := Step(c, m, a[0]);
      assert (a + b)[1..] == a[1..] + b;
      FeedConcat(c, first.machine, a[1..], b);
      var middle := Feed(c, first.machine, a[1..]);
      Associative(first.events, middle.events, Feed(c, middle.machine, b).events);
    }
  }

  // ----- What holds in every state -----

  function SizeOf(token: Token): nat {
    match token
    case Argument(bytes) => |bytes|
    case Nil => 0
    case _ => 1
  }

  function SizeOfAll(tokens: seq<Token>): nat
    decreases |tokens|
  {
    if tokens == [] then 0 else SizeOfAll(tokens[..|tokens| - 1]) + SizeOf(tokens[|tokens| - 1])
  }

  lemma SizeOfAdded(tokens: seq<Token>, token: Token)
    ensures SizeOfAll(tokens + [token]) == SizeOfAll(tokens) + SizeOf(token)
  {
    assert (tokens + [token])[..|tokens|] == tokens;
  }

  /** The size counter stays within the limit. */
  predicate Accounted(c: Config, m: Machine) {
    m.size <= c.max
  }

  /** What each state says about the buffer and the request. */
  ghost predicate Shaped(c: Config, m: Machine) {
    match m.state
    case Start => m.buf == [] && m.request == EMPTY
    case Tag => |m.buf| <= 128 && m.request == EMPTY
    case CommandName(_) => |m.buf| <= 15 && m.request.tokens == []
    case Literal(_) => AllDigits(m.buf)
    case LiteralSeek(size, _) => m.buf == [] && size <= MAX_U32 && m.size + size <= c.max
    case LiteralData(remaining) => 0 < remaining && |m.buf| + remaining <= MAX_U32 && m.size + |m.buf| + remaining <= c.max
    case _ => true
  }

  ghost predicate Valid(c: Config, m: Machine) {
    Accounted(c, m) && Shaped(c, m)
  }

  predicate GoodStart(c: Config) {
    c.start.Start? || c.start == CommandName(false)
  }

  function Initial(c: Config): Machine {
    Machine([], EMPTY, c.start, 0)
  }

  lemma FailValid(c: Config, m: Machine, problem: Problem)
    requires GoodStart(c)
    ensures Valid(c, Fail(c, m, problem).machine)
  {
  }

  /** States in which the buffer may hold anything. */
  predicate FreeForm(state: State) {
    state.Arguments? || state.Quoted?
  }

  lemma BufferValid(c: Config, m: Machine, buf: Bytes, state: State)
    requires Accounted(c, m) && FreeForm(state)
    ensures Valid(c, m.(buf := buf, state := state))
  {
  }

  lemma PushArgumentValid(c: Config, m: Machine, inQuote: bool, state: State)
    requires Accounted(c, m) && GoodStart(c) && (FreeForm(state) || (state.Literal? && !inQuote))
    ensures Valid(c, GoTo(PushArgument(c, m, inQuote), state).machine)
  {
  }

  lemma PushBothValid(c: Config, m: Machine, token: Token)
    requires Accounted(c, m) && GoodStart(c) && FreeForm(m.state) && !token.Argument?
    ensures Valid(c, PushBoth(c, m, token).machine)
  {
  }

  lemma FinishValid(c: Config, m: Machine)
    requires GoodStart(c) && m.buf == []
    ensures Valid(c, Finish(c, m).machine)
  {
  }

  lemma StepArgumentsValid(c: Config, m: Machine, ch: Byte, last: Byte)
    requires Valid(c, m) && GoodStart(c) && m.state == Arguments(last)
    ensures Valid(c, StepArguments(c, m, ch, last).machine)
  {
    var token := Delimiter(ch, Brackets(c, m));
    if ch == QUOTE && IsSpace(last) {
      PushArgumentValid(c, m, false, Quoted(false));
    } else if ch == 123 && IsSpace(last) {
      PushArgumentValid(c, m, false, Literal(false));
    } else if token.Some? {
      PushBothValid(c, m, token.value);
    } else if ch == LF {
      var o := PushArgument(c, m, false);
      if o.events == [] {
        FinishValid(c, o.machine);
      } else {
        FailValid(c, m, RequestTooLarge);
      }
    } else if IsSpace(ch) {
      PushArgumentValid(c, m, false, Arguments(ch));
    } else {
      BufferValid(c, m, m.buf + [ch], Arguments(ch));
    }
  }

  lemma StepSeekValid(c: Config, m: Machine, ch: Byte, size: nat, nonSync: bool)
    requires Valid(c, m) && GoodStart(c) && m.state == LiteralSeek(size, nonSync)
    ensures Valid(c, StepSeek(c, m, ch, size, nonSync).machine)
  {
  }

  lemma StepDataValid(c: Config, m: Machine, ch: Byte, remaining: nat)
    requires Valid(c, m) && GoodStart(c) && m.state == LiteralData(remaining)
    ensures Valid(c, StepData(c, m, ch, remaining).machine)
    ensures StepData(c, m, ch, remaining).events == []
  {
  }

  lemma StepQuotedValid(c: Config, m: Machine, ch: Byte, escaped: bool)
    requires Valid(c, m) && GoodStart(c) && m.state == Quoted(escaped)
    ensures Valid(c, StepQuoted(c, m, ch, escaped).machine)
  {
    if ch == QUOTE && !escaped {
      PushArgumentValid(c, m, true, Arguments(SPACE));
    } else if StepQuoted(c, m, ch, escaped).events != [] {
      FailValid(c, m, if ch == LF then UnterminatedQuoted else QuotedTooLong);
    } else {
      var m' := StepQuoted(c, m, ch, escaped).machine;
      BufferValid(c, m, m'.buf, m'.state);
    }
  }

  lemma StepLiteralValid(c: Config, m: Machine, ch: Byte, nonSync: bool)
    requires Valid(c, m) && GoodStart(c) && m.state == Literal(nonSync)
    ensures Valid(c, StepLiteral(c, m, ch, nonSync).machine)
  {
  }

  lemma StepValid(c: Config, m: Machine, ch: Byte)
    requires Valid(c, m) && GoodStart(c)
    ensures Valid(c, Step(c, m, ch).machine)
  {
    match m.state
    case Arguments(last) => StepArgumentsValid(c, m, ch, last);
    case Quoted(escaped) => StepQuotedValid(c, m, ch, escaped);
    case Literal(nonSync) => StepLiteralValid(c, m, ch, nonSync);
    case LiteralSeek(size, nonSync) => StepSeekValid(c, m, ch, size, nonSync);
    case LiteralData(remaining) => StepDataValid(c, m, ch, remaining);
    case _ =>
  }

  // ----- What the size counter counts -----

  /** How many empty literals the request holds after one more byte; a request that is complete or in
      error is over. */
  function EmptyAfter(c: Config, m: Machine, ch: Byte, empty: nat): nat {
    var events := Step(c, m, ch).events;
    if events != [] && !events[0].NeedsLiteral? then 0
    else if m.state.LiteralSeek? && m.state.size == 0 && ch == LF then empty + 1
    else empty
  }

  function EmptyLiterals(c: Config, m: Machine, bytes: Bytes, empty: nat): nat
    decreases |bytes|
  {
    if bytes == [] then empty
    else EmptyLiterals(c, Step(c, m, bytes[0]).machine, bytes[1..], EmptyAfter(c, m, bytes[0], empty))
  }

  /** The counter is the size of the tokens read, in which NIL has none, and one for each empty
      literal: a NIL that came from a quoted string is free. */
  predicate Counts(m: Machine, empty: nat) {
    m.size == SizeOfAll(m.request.tokens) + empty
  }

  lemma PushArgumentCounts(c: Config, m: Machine, inQuote: bool, empty: nat)
    requires Counts(m, empty)
    ensures var o := PushArgument(c, m, inQuote);
            Counts(o.machine, if o.events == [] then empty else 0)
  {
    SizeOfAdded(m.request.tokens, Argument(m.buf));
    SizeOfAdded(m.request.tokens, Nil);
  }

  lemma PushTokenCounts(c: Config, m: Machine, token: Token, empty: nat)
    requires Counts(m, empty) && !token.Argument?
    ensures var o := PushToken(c, m, token);
            Counts(o.machine, if o.events != [] then 0 else if token.Nil? then empty + 1 else empty)
  {
    SizeOfAdded(m.request.tokens, token);
  }

  lemma StepArgumentsCounts(c: Config, m: Machine, ch: Byte, last: Byte, empty: nat)
    requires Counts(m, empty)
    ensures var o := StepArguments(c, m, ch, last);
            Counts(o.machine, if o.events == [] then empty else 0)
  {
    PushArgumentCounts(c, m, false, empty);
    var token := Delimiter(ch, Brackets(c, m));
    if token.Some? {
      PushBothCounts(c, m, token.value, empty);
    }
  }

  lemma PushBothCounts(c: Config, m: Machine, token: Token, empty: nat)
    requires Counts(m, empty) && !token.Argument? && !token.Nil?
    ensures var o := PushBoth(c, m, token);
            Counts(o.machine, if o.events == [] then empty else 0)
  {
    PushArgumentCounts(c, m, false, empty);
    var o := PushArgument(c, m, false);
    if o.events == [] {
      PushTokenCounts(c, o.machine, token, empty);
    }
  }

  lemma StepSeekCounts(c: Config, m: Machine, ch: Byte, size: nat, nonSync: bool, empty: nat)
    requires Counts(m, empty)
    ensures var o := StepSeek(c, m, ch, size, nonSync);
            Counts(o.machine, if o.events != [] && !o.events[0].NeedsLiteral? then 0
                              else if size == 0 && ch == LF then empty + 1
                              else empty)
  {
    PushTokenCounts(c, m.(state := Arguments(SPACE)), Nil, empty);
  }

  lemma StepQuotedCounts(c: Config, m: Machine, ch: Byte, escaped: bool, empty: nat)
    requires Counts(m, empty)
    ensures var o := StepQuoted(c, m, ch, escaped);
            Counts(o.machine, if o.events == [] then empty else 0)
  {
    PushArgumentCounts(c, m, true, empty);
  }

  lemma StepDataCounts(c: Config, m: Machine, ch: Byte, remaining: nat, empty: nat)
    requires Counts(m, empty)
    ensures var o := StepData(c, m, ch, remaining);
            Counts(o.machine, if o.events == [] then empty else 0)
  {
    PushArgumentCounts(c, m.(buf := m.buf + [ch]), false, empty);
  }

  /** The states that read no tokens. */
  lemma StepHeaderCounts(c: Config, m: Machine, ch: Byte, empty: nat)
    requires Counts(m, empty) && (m.state.Start? || m.state.Tag? || m.state.CommandName? || m.state.Literal?)
    ensures var o := Step(c, m, ch);
            Counts(o.machine, if o.events == [] then empty else 0)
  {
  }

  lemma NoAnnouncement(c: Config, m: Machine, ch: Byte)
    requires !m.state.LiteralSeek?
    ensures var o := Step(c, m, ch);
            o.events != [] ==> !o.events[0].NeedsLiteral?
  {
  }

  lemma StepCounts(c: Config, m: Machine, ch: Byte, empty: nat)
    requires Counts(m, empty)
    ensures Counts(Step(c, m, ch).machine, EmptyAfter(c, m, ch, empty))
  {
    if m.state.LiteralSeek? {
      StepSeekCounts(c, m, ch, m.state.size, m.state.nonSync, empty);
    } else {
      NoAnnouncement(c, m, ch);
      OtherStepCounts(c, m, ch, empty);
    }
  }

  lemma OtherStepCounts(c: Config, m: Machine, ch: Byte, empty: nat)
    requires Counts(m, empty) && !m.state.LiteralSeek?
    ensures var o := Step(c, m, ch);
            Counts(o.machine, if o.events == [] then empty else 0)
  {
    match m.state
    case Arguments(last) => StepArgumentsCounts(c, m, ch, last, empty);
    case Quoted(escaped) => StepQuotedCounts(c, m, ch, escaped, empty);
    case LiteralData(remaining) => StepDataCounts(c, m, ch, remaining, empty);
    case _ => StepHeaderCounts(c, m, ch, empty);
  }

  /** Whatever bytes arrive, the size counter is exact and within the limit, the digits of a literal
      are digits, and a literal that was accepted fits. An atom is counted when it ends. */
  lemma {:induction false} FeedValid(c: Config, m: Machine, bytes: Bytes, empty: nat)
    requires Valid(c, m) && GoodStart(c) && Counts(m, empty)
    ensures Valid(c, Feed(c, m, bytes).machine)
    ensures Counts(Feed(c, m, bytes).machine, EmptyLiterals(c, m, bytes, empty))
    decreases |bytes|
  {
    if bytes != [] {
      StepValid(c, m, bytes[0]);
      StepCounts(c, m, bytes[0], empty);
      FeedValid(c, Step(c, m, bytes[0]).machine, bytes[1..], EmptyAfter(c, m, bytes[0], empty));
    }
  }

  /** The bytes of an accepted literal are taken as they are, all of them and no more, without any
      error: bytes read and bytes remaining always make up the announced size. */
  lemma {:induction false} LiteralBytes(c: Config, m: Machine, data: Bytes)
    requires Valid(c, m) && m.state.LiteralData? && |data| <= m.state.remaining
    ensures Feed(c, m, data) == if |data| < m.state.remaining
                                then Outcome(m.(buf := m.buf + data, state := LiteralData(m.state.remaining - |data|)), [])
                                else GoTo(PushArgument(c, m.(buf := m.buf + data), false), Arguments(SPACE))
    ensures Feed(c, m, data).events == []
    decreases |data|
  {
    if data == [] {
      EmptyRight(m.buf);
    } else if |data| == 1 {
      assert data == [data[0]];
      assert Feed(c, Step(c, m, data[0]).machine, []) == Outcome(Step(c, m, data[0]).machine, []);
    } else {
      var next := StepData(c, m, data[0], m.state.remaining).machine;
      assert data == [data[0]] + data[1..];
      Associative(m.buf, [data[0]], data[1..]);
      LiteralBytes(c, next, data[1..]);
    }
  }
}
