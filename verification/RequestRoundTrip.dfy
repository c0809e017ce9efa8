/** Requests as clients write them, and what the reader makes of them. */
module RequestRoundTrip {
  import opened Wrappers
  import opened Sequences
  import opened Decimal
  import opened Receiver

  // ----- Printing -----

  /** An argument as an atom, a quoted string or a literal, or a delimiter. */
  datatype Item =
    | AtomItem(text: Bytes)
    | QuotedItem(text: Bytes)
    | LiteralItem(data: Bytes, sync: bool)
    | DelimiterItem(token: Token)

  /** `quoted_string`: quotes and backslashes are escaped. */
  function Escape(text: Bytes): Bytes
    decreases |text|
  {
    if text == [] then []
    else (if text[0] == QUOTE || text[0] == BACKSLASH then [BACKSLASH, text[0]] else [text[0]]) + Escape(text[1..])
  }

  /** `{n}` or `{n+}` and a line break. */
  function Announce(size: nat, sync: bool): Bytes {
    [123] + Digits(size) + (if sync then [] else [43]) + [125, CR, LF]
  }

  /** The byte that is written for a delimiter. */
  function Sign(token: Token): Byte {
    match token
    case ParenthesisOpen => 40
    case ParenthesisClose => 41
    case BracketOpen => 91
    case BracketClose => 93
    case Lt => 60
    case Gt => 62
    case Dot => 46
    case _ => 0
  }

  function Print(item: Item): Bytes {
    match item
    case AtomItem(text) => text
    case QuotedItem(text) => [QUOTE] + Escape(text) + [QUOTE]
    case LiteralItem(data, sync) => Announce(|data|, sync) + data
    case DelimiterItem(token) => [Sign(token)]
  }

  /** The items to the end of the line, with separators after those items for which `gaps` says so. */
  function PrintItems(items: seq<Item>, gaps: seq<bool>): Bytes
    requires |gaps| == |items|
    decreases |items|
  {
    if items == [] then [LF] else Print(items[0]) + Gap(items[1..], gaps[0]) + PrintItems(items[1..], gaps[1..])
  }

  function Gap(items: seq<Item>, gap: bool): Bytes {
    if gap then [Separator(items)] else []
  }

  /** A gap may be missing next to a delimiter, though not at the end of the line. But a string is
      recognised only if what stands before it, delimiters apart, is a space or another string. */
  predicate GapsFit(items: seq<Item>, gaps: seq<bool>, spaced: bool)
    requires |gaps| == |items|
    decreases |items|
  {
    if items == [] then true
    else
      var isString := items[0].QuotedItem? || items[0].LiteralItem?;
      && (isString ==> spaced)
      && (!gaps[0] ==> |items| > 1 && (items[0].DelimiterItem? || items[1].DelimiterItem?))
      && GapsFit(items[1..], gaps[1..], gaps[0] || isString || (items[0].DelimiterItem? && spaced))
  }

  function Separator(items: seq<Item>): (ch: Byte)
    ensures IsSpace(ch) && ch != LF
  {
    if items == [] then CR else SPACE
  }

  /** A request, with the word UID and the name of the command as they are spelled. */
  function PrintRequest(tag: Bytes, uid: Bytes, name: Bytes, items: seq<Item>, gaps: seq<bool>): Bytes
    requires |gaps| == |items|
  {
    tag + [SPACE] + (if uid != [] then uid + [SPACE] else []) + name + [Separator(items)] + PrintItems(items, gaps)
  }

  // ----- What is printed can be read -----

  /** No white space, no parenthesis and, where these are delimiters, no `[`, `]`, `<`, `>` or dot. */
  predicate IsAtomByte(ch: Byte, brackets: bool) {
    ch !in {9, 10, 12, 13, 32, 40, 41} && (brackets ==> ch !in {91, 93, 60, 62, 46})
  }

  predicate IsDelimiter(token: Token, brackets: bool) {
    token.ParenthesisOpen? || token.ParenthesisClose?
    || (brackets && (token.BracketOpen? || token.BracketClose? || token.Lt? || token.Gt? || token.Dot?))
  }

  /** No line feed, and nothing but backslashes from position 1024 on. */
  predicate Quotable(text: Bytes) {
    forall i :: 0 <= i < |text| ==> text[i] != LF && (i >= 1024 ==> text[i] == BACKSLASH)
  }

  predicate Printable(item: Item, brackets: bool) {
    match item
    case AtomItem(text) =>
      text != [] && text[0] != QUOTE && text[0] != 123 && forall i :: 0 <= i < |text| ==> IsAtomByte(text[i], brackets)
    case QuotedItem(text) => Quotable(text)
    case LiteralItem(data, _) => |data| <= MAX_U32
    case DelimiterItem(token) => IsDelimiter(token, brackets)
  }

  predicate AllPrintable(items: seq<Item>, brackets: bool) {
    forall i :: 0 <= i < |items| ==> Printable(items[i], brackets)
  }

  function TokenOf(item: Item): Token {
    match item
    case AtomItem(text) => Argument(text)
    case QuotedItem(text) => if text == [] then Nil else Argument(text)
    case LiteralItem(data, _) => if data == [] then Nil else Argument(data)
    case DelimiterItem(token) => token
  }

  function TokensOf(items: seq<Item>): seq<Token> {
    seq(|items|, i requires 0 <= i < |items| => TokenOf(items[i]))
  }

  /** What an item takes from the size limit. */
  function Cost(item: Item): nat {
    match item
    case AtomItem(text) => |text|
    case QuotedItem(text) => |text|
    case LiteralItem(data, _) => if data == [] then 1 else |data|
    case DelimiterItem(_) => 1
  }

  function CostOf(items: seq<Item>): nat
    decreases |items|
  {
    if items == [] then 0 else Cost(items[0]) + CostOf(items[1..])
  }

  function Prompt(size: nat, sync: bool): seq<Event> {
    if sync then [NeedsLiteral(size)] else []
  }

  function PromptOf(item: Item): seq<Event> {
    if item.LiteralItem? then Prompt(|item.data|, item.sync) else []
  }

  function PromptsOf(items: seq<Item>): seq<Event>
    decreases |items|
  {
    if items == [] then []
    else PromptOf(items[0]) + PromptsOf(items[1..])
  }

  // ----- One byte, and bytes one after the other -----

  lemma FeedByte(c: Config, m: Machine, ch: Byte)
    ensures Feed(c, m, [ch]) == Step(c, m, ch)
  {
    var o := Step(c, m, ch);
    assert Feed(c, o.machine, []) == Outcome(o.machine, []);
    EmptyRight(o.events);
  }

  /** `m` reads `bytes` to become `m'`, with `events` to report. */
  ghost predicate Reads(c: Config, m: Machine, bytes: Bytes, m': Machine, events: seq<Event>) {
    Feed(c, m, bytes) == Outcome(m', events)
  }

  lemma ReadsByte(c: Config, m: Machine, ch: Byte)
    ensures Reads(c, m, [ch], Step(c, m, ch).machine, Step(c, m, ch).events)
  {
    FeedByte(c, m, ch);
  }

  lemma ReadsThen(c: Config, m: Machine, a: Bytes, m': Machine, e: seq<Event>, b: Bytes, m'': Machine, f: seq<Event>)
    requires Reads(c, m, a, m', e) && Reads(c, m', b, m'', f)
    ensures Reads(c, m, a + b, m'', e + f)
  {
    FeedConcat(c, m, a, b);
  }

  lemma ReadsQuietly(c: Config, m: Machine, a: Bytes, m': Machine, b: Bytes, m'': Machine)
    requires Reads(c, m, a, m', []) && Reads(c, m', b, m'', [])
    ensures Reads(c, m, a + b, m'', [])
  {
    FeedConcat(c, m, a, b);
    EmptyLeft<Event>([]);
  }

  // ----- Items -----

  /** Between items: after a separator, with nothing pending. */
  predicate Ready(m: Machine) {
    m.state.Arguments? && IsSpace(m.state.last) && m.buf == []
  }

  lemma {:induction false} ReadsAtom(c: Config, m: Machine, text: Bytes)
    requires m.state.Arguments? && !(IsSpace(m.state.last) && text != [] && (text[0] == QUOTE || text[0] == 123))
    requires forall i :: 0 <= i < |text| ==> IsAtomByte(text[i], Brackets(c, m))
    ensures Reads(c, m, text, m.(buf := m.buf + text, state := Arguments(if text == [] then m.state.last else text[|text| - 1])), [])
    decreases |text|
  {
    if text == [] {
      EmptyRight(m.buf);
    } else {
      var next := Step(c, m, text[0]).machine;
      assert next == m.(buf := m.buf + [text[0]], state := Arguments(text[0]));
      assert text == [text[0]] + text[1..];
      Associative(m.buf, [text[0]], text[1..]);
      ReadsAtom(c, next, text[1..]);
    }
  }

  /** From inside the quotes: the escaped text goes to the buffer as it was. */
  lemma {:induction false} ReadsEscaped(c: Config, m: Machine, text: Bytes)
    requires m.state == Quoted(false)
    requires forall i :: 0 <= i < |text| ==> text[i] != LF && (|m.buf| + i >= 1024 ==> text[i] == BACKSLASH)
    ensures Reads(c, m, Escape(text), m.(buf := m.buf + text), [])
    decreases |text|
  {
    if text == [] {
      EmptyRight(m.buf);
    } else {
      var first := if text[0] == QUOTE || text[0] == BACKSLASH then [BACKSLASH, text[0]] else [text[0]];
      var next := m.(buf := m.buf + [text[0]]);
      ReadsEscapedByte(c, m, text[0]);
      assert text == [text[0]] + text[1..];
      Associative(m.buf, [text[0]], text[1..]);
      ReadsEscaped(c, next, text[1..]);
      ReadsQuietly(c, m, first, next, Escape(text[1..]), m.(buf := m.buf + text));
    }
  }

  lemma ReadsEscapedByte(c: Config, m: Machine, ch: Byte)
    requires m.state == Quoted(false) && ch != LF && (|m.buf| >= 1024 ==> ch == BACKSLASH)
    ensures Reads(c, m, if ch == QUOTE || ch == BACKSLASH then [BACKSLASH, ch] else [ch], m.(buf := m.buf + [ch]), [])
  {
    if ch == QUOTE || ch == BACKSLASH {
      var m1 := m.(state := Quoted(true));
      ReadsByte(c, m, BACKSLASH);
      EmptyRight(m.buf);
      assert Step(c, m, BACKSLASH) == Outcome(m1, []);
      ReadsByte(c, m1, ch);
      assert Step(c, m1, ch) == Outcome(m.(buf := m.buf + [ch]), []);
      ReadsQuietly(c, m, [BACKSLASH], m1, [ch], m.(buf := m.buf + [ch]));
      assert [BACKSLASH] + [ch] == [BACKSLASH, ch];
    } else {
      ReadsByte(c, m, ch);
      assert m.buf + [] + [ch] == m.buf + [ch];
    }
  }

  /** The machine with one more token, ready for the next. */
  function Taken(m: Machine, token: Token, cost: nat, last: Byte): Machine {
    AddToken(m, token).(buf := [], size := m.size + cost, state := Arguments(last))
  }

  lemma ReadsQuoted(c: Config, m: Machine, text: Bytes)
    requires Ready(m) && Quotable(text) && m.size + |text| <= c.max
    ensures Reads(c, m, Print(QuotedItem(text)), Taken(m, TokenOf(QuotedItem(text)), |text|, SPACE), [])
  {
    var m1 := m.(state := Quoted(false));
    var m2 := m1.(buf := m1.buf + text);
    ReadsByte(c, m, QUOTE);
    ReadsEscaped(c, m1, text);
    EmptyLeft(text);
    ReadsByte(c, m2, QUOTE);
    ReadsQuietly(c, m, [QUOTE], m1, Escape(text), m2);
    ReadsQuietly(c, m, [QUOTE] + Escape(text), m2, [QUOTE], Taken(m, TokenOf(QuotedItem(text)), |text|, SPACE));
  }

  lemma {:induction false} ReadsDigits(c: Config, m: Machine, digits: Bytes)
    requires m.state == Literal(false) && AllDigits(digits)
    ensures Reads(c, m, digits, m.(buf := m.buf + digits), [])
    decreases |digits|
  {
    if digits == [] {
      EmptyRight(m.buf);
    } else {
      var next := m.(buf := m.buf + [digits[0]]);
      assert Step(c, m, digits[0]) == Outcome(next, []);
      assert digits == [digits[0]] + digits[1..];
      Associative(m.buf, [digits[0]], digits[1..]);
      ReadsDigits(c, next, digits[1..]);
    }
  }

  /** The announcement of a literal that fits leads to its line break. */
  lemma ReadsAnnounced(c: Config, m: Machine, size: nat, sync: bool)
    requires Ready(m) && size <= MAX_U32 && m.size + size <= c.max
    ensures Reads(c, m, [123] + Digits(size) + (if sync then [] else [43]) + [125], m.(state := LiteralSeek(size, !sync)), [])
  {
    var digits, plus := Digits(size), if sync then [] else [43];
    var m1 := m.(state := Literal(false));
    var m2 := m1.(buf := digits);
    var m3 := m2.(state := Literal(!sync));
    ReadsByte(c, m, 123);
    ReadsDigits(c, m1, digits);
    EmptyLeft(digits);
    ReadsQuietly(c, m, [123], m1, digits, m2);
    if !sync {
      ReadsByte(c, m2, 43);
    }
    ReadsQuietly(c, m, [123] + digits, m2, plus, m3);
    ParseOfDigits(size);
    ReadsByte(c, m3, 125);
    ReadsQuietly(c, m, [123] + digits + plus, m3, [125], m.(state := LiteralSeek(size, !sync)));
  }

  /** The line break leads to the data, or to the next argument if there is none. */
  lemma ReadsLineBreak(c: Config, m: Machine, size: nat, sync: bool)
    requires m.state == LiteralSeek(size, !sync) && m.buf == [] && (size == 0 ==> m.size + 1 <= c.max)
    ensures Reads(c, m, [CR, LF],
                  if size > 0 then m.(state := LiteralData(size)) else Taken(m, Nil, 1, SPACE), Prompt(size, sync))
  {
    ReadsByte(c, m, CR);
    ReadsByte(c, m, LF);
    ReadsThen(c, m, [CR], m, [], [LF], Step(c, m, LF).machine, Step(c, m, LF).events);
    EmptyLeft(Step(c, m, LF).events);
    assert [CR] + [LF] == [CR, LF];
  }

  /** The machine after the announcement of a literal. */
  function Announced(m: Machine, size: nat): Machine {
    if size > 0 then m.(state := LiteralData(size)) else Taken(m, Nil, 1, SPACE)
  }

  lemma ReadsAnnouncement(c: Config, m: Machine, size: nat, sync: bool)
    requires Ready(m) && size <= MAX_U32 && m.size + (if size == 0 then 1 else size) <= c.max
    ensures Reads(c, m, Announce(size, sync), Announced(m, size), Prompt(size, sync))
  {
    var head := [123] + Digits(size) + (if sync then [] else [43]) + [125];
    var m1 := m.(state := LiteralSeek(size, !sync));
    ReadsAnnounced(c, m, size, sync);
    ReadsLineBreak(c, m1, size, sync);
    ReadsThen(c, m, head, m1, [], [CR, LF], Announced(m, size), Prompt(size, sync));
    EmptyLeft(Prompt(size, sync));
    assert head + [CR, LF] == Announce(size, sync);
  }

  lemma ReadsData(c: Config, m: Machine, data: Bytes)
    requires Ready(m) && 0 < |data| <= MAX_U32 && m.size + |data| <= c.max
    ensures Reads(c, Announced(m, |data|), data, Taken(m, Argument(data), |data|, SPACE), [])
  {
    LiteralBytes(c, Announced(m, |data|), data);
    EmptyLeft(data);
  }

  lemma ReadsLiteral(c: Config, m: Machine, data: Bytes, sync: bool)
    requires Ready(m) && |data| <= MAX_U32 && m.size + Cost(LiteralItem(data, sync)) <= c.max
    ensures Reads(c, m, Print(LiteralItem(data, sync)),
                  Taken(m, TokenOf(LiteralItem(data, sync)), Cost(LiteralItem(data, sync)), SPACE), Prompt(|data|, sync))
  {
    ReadsAnnouncement(c, m, |data|, sync);
    if data == [] {
      EmptyRight(Announce(|data|, sync));
    } else {
      ReadsData(c, m, data);
      ReadsThen(c, m, Announce(|data|, sync), Announced(m, |data|), Prompt(|data|, sync), data,
                Taken(m, Argument(data), |data|, SPACE), []);
      EmptyRight(Prompt(|data|, sync));
    }
  }

  /** The machine once an atom in its buffer has become a token. */
  function Flushed(m: Machine): Machine
    requires m.state.Arguments?
  {
    if m.buf == [] then m else Taken(m, Argument(m.buf), |m.buf|, m.state.last)
  }

  /** An item can be read: only a delimiter may follow an atom at once, and a string needs a space. */
  predicate Accepts(m: Machine, item: Item) {
    && m.state.Arguments?
    && (item.DelimiterItem? || m.buf == [])
    && (item.QuotedItem? || item.LiteralItem? ==> IsSpace(m.state.last))
  }

  /** The machine at the end of an item. */
  function Past(m: Machine, item: Item, brackets: bool): Machine
    requires Accepts(m, item) && Printable(item, brackets)
  {
    match item
    case AtomItem(text) => m.(buf := text, state := Arguments(text[|text| - 1]))
    case DelimiterItem(_) => Taken(Flushed(m), TokenOf(item), 1, m.state.last)
    case _ => Taken(m, TokenOf(item), Cost(item), SPACE)
  }

  lemma ReadsItem(c: Config, m: Machine, item: Item)
    requires Accepts(m, item) && Printable(item, Brackets(c, m)) && m.size + |m.buf| + Cost(item) <= c.max
    ensures Reads(c, m, Print(item), Past(m, item, Brackets(c, m)), PromptOf(item))
  {
    match item
    case AtomItem(text) =>
      EmptyLeft(text);
      ReadsAtom(c, m, text);
    case QuotedItem(text) => ReadsQuoted(c, m, text);
    case LiteralItem(data, sync) => ReadsLiteral(c, m, data, sync);
    case DelimiterItem(token) => ReadsByte(c, m, Sign(token));
  }

  /** The machine after the gap that follows an item, if there is one. */
  function Beyond(m: Machine, items: seq<Item>, gap: bool): Machine
    requires m.state.Arguments?
  {
    if gap then Flushed(m).(state := Arguments(Separator(items))) else m
  }

  lemma ReadsGap(c: Config, m: Machine, items: seq<Item>, gap: bool)
    requires m.state.Arguments? && m.size + |m.buf| <= c.max
    ensures Reads(c, m, Gap(items, gap), Beyond(m, items, gap), [])
  {
    if gap {
      ReadsByte(c, m, Separator(items));
    }
  }

  /** The request once the items have been read to the end. */
  function Finished(m: Machine, items: seq<Item>): Request
    requires m.state.Arguments?
  {
    var m := Flushed(m);
    m.request.(tokens := m.request.tokens + TokensOf(items))
  }

  lemma FinishedStep(m: Machine, m': Machine, items: seq<Item>, gap: bool, brackets: bool)
    requires items != [] && Accepts(m, items[0]) && Printable(items[0], brackets)
    requires m' == Beyond(Past(m, items[0], brackets), items[1..], gap)
    ensures Finished(m, items) == Finished(m', items[1..])
    ensures m'.size + |m'.buf| == m.size + |m.buf| + Cost(items[0])
  {
    var token := TokenOf(items[0]);
    assert TokensOf(items) == [token] + TokensOf(items[1..]);
    assert Flushed(m').request.tokens == Flushed(m).request.tokens + [token];
    Associative(Flushed(m).request.tokens, [token], TokensOf(items[1..]));
  }

  /** The items can be read, to the end of the line. */
  predicate CanRead(c: Config, m: Machine, items: seq<Item>, gaps: seq<bool>) {
    && m.state.Arguments? && |gaps| == |items| && GapsFit(items, gaps, IsSpace(m.state.last))
    && (if items == [] then m.buf == [] else Accepts(m, items[0]))
    && AllPrintable(items, Brackets(c, m)) && m.size + |m.buf| + CostOf(items) <= c.max
  }

  /** After an item and its gap the others can be read. */
  lemma CanReadRest(c: Config, m: Machine, m': Machine, items: seq<Item>, gaps: seq<bool>)
    requires items != [] && CanRead(c, m, items, gaps)
    requires m' == Beyond(Past(m, items[0], Brackets(c, m)), items[1..], gaps[0])
    ensures CanRead(c, m', items[1..], gaps[1..]) && Brackets(c, m') == Brackets(c, m)
    ensures Finished(m, items) == Finished(m', items[1..])
  {
    FinishedStep(m, m', items, gaps[0], Brackets(c, m));
  }

  lemma ReadsFirst(c: Config, m: Machine, m': Machine, items: seq<Item>, gaps: seq<bool>)
    requires items != [] && CanRead(c, m, items, gaps)
    requires m' == Beyond(Past(m, items[0], Brackets(c, m)), items[1..], gaps[0])
    ensures Reads(c, m, Print(items[0]) + Gap(items[1..], gaps[0]), m', PromptOf(items[0]))
  {
    var m1 := Past(m, items[0], Brackets(c, m));
    ReadsItem(c, m, items[0]);
    FinishedStep(m, m', items, gaps[0], Brackets(c, m));
    ReadsGap(c, m1, items[1..], gaps[0]);
    ReadsThen(c, m, Print(items[0]), m1, PromptOf(items[0]), Gap(items[1..], gaps[0]), m', []);
    EmptyRight(PromptOf(items[0]));
  }

  lemma ReadsLast(c: Config, m: Machine)
    requires CanRead(c, m, [], [])
    ensures Reads(c, m, [LF], Initial(c), PromptsOf([]) + [Complete(Finished(m, []))])
  {
    ReadsByte(c, m, LF);
    EmptyRight(m.request.tokens);
    assert TokensOf([]) == [];
    EmptyLeft([Complete(m.request)]);
  }

  /** The items to the end of the line. */
  lemma {:induction false} ReadsItems(c: Config, m: Machine, items: seq<Item>, gaps: seq<bool>)
    requires CanRead(c, m, items, gaps)
    ensures Reads(c, m, PrintItems(items, gaps), Initial(c),
                  PromptsOf(items) + [Complete(Finished(m, items))])
    decreases |items|
  {
    if items == [] {
      ReadsLast(c, m);
    } else {
      var item, rest := items[0], items[1..];
      var m' := Beyond(Past(m, item, Brackets(c, m)), rest, gaps[0]);
      var done := [Complete(Finished(m, items))];
      CanReadRest(c, m, m', items, gaps);
      ReadsFirst(c, m, m', items, gaps);
      ReadsItems(c, m', rest, gaps[1..]);
      ReadsThen(c, m, Print(item) + Gap(rest, gaps[0]), m', PromptOf(item), PrintItems(rest, gaps[1..]), Initial(c), PromptsOf(rest) + done);
      Associative(PromptOf(item), PromptsOf(rest), done);
    }
  }

  // ----- Tag and command -----

  predicate HasNoSpace(bytes: Bytes) {
    forall i :: 0 <= i < |bytes| ==> bytes[i] !in {9, 10, 12, 13, 32}
  }

  predicate IsTag(tag: Bytes) {
    0 < |tag| <= 128 && IsUtf8(tag) && HasNoSpace(tag)
  }

  const UID_WORD: Bytes := [85, 73, 68]

  /** Upper-case letters and digits. */
  predicate IsUpper(name: Bytes) {
    forall i :: 0 <= i < |name| ==> 48 <= name[i] <= 57 || 65 <= name[i] <= 90
  }

  predicate IsCommandName(name: Bytes) {
    0 < |name| <= 15 && name != UID_WORD && IsUpper(name)
  }

  /** The name, written with letters of either case. */
  predicate Spells(written: Bytes, name: Bytes) {
    |written| == |name|
    && forall i :: 0 <= i < |name| ==> written[i] == name[i] || (65 <= name[i] <= 90 && written[i] == name[i] + 32)
  }

  lemma {:induction false} ReadsTagBytes(c: Config, m: Machine, bytes: Bytes)
    requires m.state.Tag? && |m.buf| + |bytes| <= 128 && HasNoSpace(bytes)
    ensures Reads(c, m, bytes, m.(buf := m.buf + bytes), [])
    decreases |bytes|
  {
    if bytes == [] {
      EmptyRight(m.buf);
    } else {
      var next := m.(buf := m.buf + [bytes[0]]);
      assert Step(c, m, bytes[0]) == Outcome(next, []);
      assert bytes == [bytes[0]] + bytes[1..];
      Associative(m.buf, [bytes[0]], bytes[1..]);
      ReadsTagBytes(c, next, bytes[1..]);
    }
  }

  lemma ReadsTagText(c: Config, tag: Bytes)
    requires c.start.Start? && 0 < |tag| <= 128 && HasNoSpace(tag)
    ensures Reads(c, Initial(c), tag, Machine(tag, EMPTY, Tag, 0), [])
  {
    var m0, first, rest := Initial(c), tag[0], tag[1..];
    var m1 := Machine([first], EMPTY, Tag, 0);
    assert tag == [first] + rest;
    EmptyLeft([first]);
    ReadsByte(c, m0, first);
    ReadsTagBytes(c, m1, rest);
    ReadsQuietly(c, m0, [first], m1, rest, Machine(tag, EMPTY, Tag, 0));
  }

  lemma ReadsTag(c: Config, tag: Bytes)
    requires c.start.Start? && IsTag(tag)
    ensures Reads(c, Initial(c), tag + [SPACE], Machine([], Request(tag, Default, []), CommandName(false), 0), [])
  {
    var m := Machine(tag, EMPTY, Tag, 0);
    ReadsTagText(c, tag);
    ReadsByte(c, m, SPACE);
    ReadsQuietly(c, Initial(c), tag, m, [SPACE], Machine([], Request(tag, Default, []), CommandName(false), 0));
  }

  /** A tag without white space is refused exactly if it is longer than 128 bytes or not UTF-8. */
  lemma TagIff(c: Config, tag: Bytes)
    requires c.start.Start? && tag != [] && HasNoSpace(tag)
    ensures Feed(c, Initial(c), tag + [SPACE]).events == [] <==> |tag| <= 128 && IsUtf8(tag)
  {
    if |tag| <= 128 {
      ReadsTagText(c, tag);
      FeedByte(c, Machine(tag, EMPTY, Tag, 0), SPACE);
      FeedConcat(c, Initial(c), tag, [SPACE]);
    } else {
      var head, rest := tag[..128], tag[129..];
      var m := Machine(head, EMPTY, Tag, 0);
      assert tag + [SPACE] == head + [tag[128]] + (rest + [SPACE]);
      ReadsTagText(c, head);
      FeedByte(c, m, tag[128]);
      FeedConcat(c, Initial(c), head, [tag[128]]);
      FeedConcat(c, Initial(c), head + [tag[128]], rest + [SPACE]);
    }
  }

  lemma {:induction false} ReadsName(c: Config, m: Machine, written: Bytes, name: Bytes)
    requires m.state.CommandName? && |m.buf| + |name| <= 15 && Spells(written, name) && IsUpper(name)
    ensures Reads(c, m, written, m.(buf := m.buf + name), [])
    decreases |name|
  {
    if name == [] {
      EmptyRight(m.buf);
    } else {
      var next := m.(buf := m.buf + [name[0]]);
      assert Step(c, m, written[0]) == Outcome(next, []);
      assert name == [name[0]] + name[1..] && written == [written[0]] + written[1..];
      Associative(m.buf, [name[0]], name[1..]);
      ReadsName(c, next, written[1..], name[1..]);
    }
  }

  /** A command name of letters and digits is refused exactly if it is longer than 15 bytes or, in upper
      case, not known. */
  lemma CommandIff(c: Config, m: Machine, written: Bytes, name: Bytes)
    requires m.state.CommandName? && m.buf == [] && Spells(written, name) && IsUpper(name) && name != [] && name != UID_WORD
    ensures Feed(c, m, written + [SPACE]).events == [] <==> |name| <= 15 && name in c.known
  {
    if |name| <= 15 {
      EmptyLeft(name);
      ReadsName(c, m, written, name);
      FeedByte(c, m.(buf := name), SPACE);
      FeedConcat(c, m, written, [SPACE]);
    } else {
      var head, ch, rest := written[..15], written[15], written[16..];
      assert written + [SPACE] == head + [ch] + (rest + [SPACE]);
      assert Spells(head, name[..15]) && IsUpper(name[..15]) && IsAlphanumeric(ch);
      TooLong(c, m, head, name[..15], ch);
      FeedConcat(c, m, head + [ch], rest + [SPACE]);
    }
  }

  lemma TooLong(c: Config, m: Machine, head: Bytes, name: Bytes, ch: Byte)
    requires m.state.CommandName? && m.buf == [] && Spells(head, name) && IsUpper(name) && |name| == 15 && IsAlphanumeric(ch)
    ensures Feed(c, m, head + [ch]).events != []
  {
    EmptyLeft(name);
    ReadsName(c, m, head, name);
    FeedByte(c, m.(buf := name), ch);
    FeedConcat(c, m, head, [ch]);
  }

  lemma ReadsUid(c: Config, m: Machine, uid: Bytes)
    requires m.state == CommandName(false) && m.buf == [] && Spells(uid, UID_WORD)
    ensures Reads(c, m, uid + [SPACE], m.(state := CommandName(true)), [])
  {
    EmptyLeft(UID_WORD);
    ReadsName(c, m, uid, UID_WORD);
    ReadsByte(c, m.(buf := UID_WORD), SPACE);
    ReadsQuietly(c, m, uid, m.(buf := UID_WORD), [SPACE], m.(state := CommandName(true)));
  }

  lemma ReadsCommand(c: Config, m: Machine, written: Bytes, name: Bytes, ch: Byte)
    requires m.state.CommandName? && m.buf == [] && Spells(written, name) && IsCommandName(name) && name in c.known
    requires IsSpace(ch) && ch != LF
    ensures Reads(c, m, written + [ch],
                  m.(request := m.request.(command := Command(name, m.state.isUid)), state := Arguments(SPACE)), [])
  {
    EmptyLeft(name);
    ReadsName(c, m, written, name);
    ReadsByte(c, m.(buf := name), ch);
    ReadsQuietly(c, m, written, m.(buf := name), [ch],
                 m.(request := m.request.(command := Command(name, m.state.isUid)), state := Arguments(SPACE)));
  }

  /** The words as they are spelled, and the command that they stand for. */
  predicate SpellsCommand(uid: Bytes, written: Bytes, command: Command) {
    command.Command? && (if command.isUid then Spells(uid, UID_WORD) else uid == []) && Spells(written, command.name)
  }

  /** Tag, command and separator. */
  lemma ReadsHead(c: Config, tag: Bytes, uid: Bytes, written: Bytes, command: Command, ch: Byte)
    requires c.start.Start? && IsTag(tag) && SpellsCommand(uid, written, command)
    requires IsCommandName(command.name) && command.name in c.known && IsSpace(ch) && ch != LF
    ensures Reads(c, Initial(c), tag + [SPACE] + (if uid != [] then uid + [SPACE] else []) + written + [ch],
                  Machine([], Request(tag, command, []), Arguments(SPACE), 0), [])
  {
    var m1 := Machine([], Request(tag, Default, []), CommandName(false), 0);
    var m2 := m1.(state := CommandName(command.isUid));
    var head, word := tag + [SPACE], if uid != [] then uid + [SPACE] else [];
    ReadsTag(c, tag);
    if command.isUid {
      ReadsUid(c, m1, uid);
    }
    ReadsQuietly(c, Initial(c), head, m1, word, m2);
    ReadsCommand(c, m2, written, command.name, ch);
    ReadsQuietly(c, Initial(c), head + word, m2, written + [ch], Machine([], Request(tag, command, []), Arguments(SPACE), 0));
    Associative(head + word, written, [ch]);
  }

  /** A request that is printed and read comes out as it was, with one prompt for each literal that
      waits for one, and the reader is as it was at the start. */
  lemma RequestRoundTrip(c: Config, tag: Bytes, uid: Bytes, written: Bytes, command: Command, items: seq<Item>, gaps: seq<bool>)
    requires c.start.Start? && IsTag(tag) && SpellsCommand(uid, written, command)
    requires IsCommandName(command.name) && command.name in c.known
    requires AllPrintable(items, command.name in c.bracketed) && CostOf(items) <= c.max
    requires |gaps| == |items| && GapsFit(items, gaps, true)
    ensures Feed(c, Initial(c), PrintRequest(tag, uid, written, items, gaps))
         == Outcome(Initial(c), PromptsOf(items) + [Complete(Request(tag, command, TokensOf(items)))])
  {
    var ch := Separator(items);
    var m := Machine([], Request(tag, command, []), Arguments(SPACE), 0);
    ReadsHead(c, tag, uid, written, command, ch);
    ReadsItems(c, m, items, gaps);
    EmptyLeft(TokensOf(items));
    var head := tag + [SPACE] + (if uid != [] then uid + [SPACE] else []) + written + [ch];
    var events := PromptsOf(items) + [Complete(Request(tag, command, TokensOf(items)))];
    ReadsThen(c, Initial(c), head, m, [], PrintItems(items, gaps), Initial(c), events);
    EmptyLeft(events);
  }

  /** The signs of the protocol, byte by byte: `"a"`, `"\""`, `"\\"`, a literal of one byte that waits
      and one that does not, and the end of the line. */
  lemma SignsAre()
    ensures Print(QuotedItem([97])) == [34, 97, 34]
    ensures Print(QuotedItem([34])) == [34, 92, 34, 34] && Print(QuotedItem([92])) == [34, 92, 92, 34]
    ensures Print(LiteralItem([97], true)) == [123, 49, 125, 13, 10, 97]
    ensures Print(LiteralItem([97], false)) == [123, 49, 43, 125, 13, 10, 97]
    ensures PrintItems([], []) == [10] && Separator([]) == 13 && SPACE == 32 && UID == [85, 73, 68]
  {
    var none: Bytes := [];
    assert [97][1..] == none && [34][1..] == none && [92][1..] == none;
    assert Digits(1) == [49];
  }

  // ----- Quoted strings that do not come through -----

  /** The text up to the first byte that the reader refuses. */
  lemma {:induction false} FirstRefused(text: Bytes) returns (k: nat)
    requires !Quotable(text)
    ensures k < |text| && Quotable(text[..k]) && (text[k] == LF || (k >= 1024 && text[k] != BACKSLASH))
    decreases |text|
  {
    var last := |text| - 1;
    if Quotable(text[..last]) {
      k := last;
    } else {
      k := FirstRefused(text[..last]);
      assert text[..last][..k] == text[..k];
    }
  }

  lemma {:induction false} EscapeConcat(a: Bytes, b: Bytes)
    ensures Escape(a + b) == Escape(a) + Escape(b)
    decreases |a|
  {
    if a == [] {
      EmptyLeft(b);
      EmptyLeft(Escape(b));
    } else {
      var first := if a[0] == QUOTE || a[0] == BACKSLASH then [BACKSLASH, a[0]] else [a[0]];
      assert (a + b)[1..] == a[1..] + b;
      EscapeConcat(a[1..], b);
      Associative(first, Escape(a[1..]), Escape(b));
    }
  }

  lemma ReadsRefused(c: Config, m: Machine, ch: Byte)
    requires m.state == Quoted(false) && (ch == LF || (|m.buf| >= 1024 && ch != BACKSLASH))
    ensures Reads(c, m, Escape([ch]), Initial(c), Fail(c, m, if ch == LF then UnterminatedQuoted else QuotedTooLong).events)
  {
    assert [ch][1..] == [];
    if ch == QUOTE {
      var m1 := m.(state := Quoted(true));
      EmptyRight(m.buf);
      ReadsByte(c, m, BACKSLASH);
      ReadsByte(c, m1, ch);
      ReadsThen(c, m, [BACKSLASH], m1, [], [ch], Initial(c), Fail(c, m, QuotedTooLong).events);
      assert Escape([ch]) == [BACKSLASH] + [ch];
    } else {
      ReadsByte(c, m, ch);
    }
  }

  lemma PrintSplits(text: Bytes, k: nat)
    requires k < |text|
    ensures Print(QuotedItem(text)) == [QUOTE] + Escape(text[..k]) + Escape([text[k]]) + (Escape(text[k + 1..]) + [QUOTE])
  {
    var before, ch, rest := text[..k], [text[k]], text[k + 1..];
    assert text == before + ch + rest;
    EscapeConcat(before + ch, rest);
    EscapeConcat(before, ch);
    Associative([QUOTE], Escape(before), Escape(ch));
    Associative([QUOTE], Escape(before) + Escape(ch), Escape(rest));
    Associative([QUOTE] + Escape(before) + Escape(ch), Escape(rest), [QUOTE]);
  }

  lemma ReadsToRefused(c: Config, m: Machine, before: Bytes, ch: Byte)
    requires Ready(m) && Quotable(before) && (ch == LF || (|before| >= 1024 && ch != BACKSLASH))
    ensures Feed(c, m, [QUOTE] + Escape(before) + Escape([ch])).events != []
  {
    var m1 := m.(state := Quoted(false));
    var m2 := m1.(buf := before);
    ReadsByte(c, m, QUOTE);
    EmptyLeft(before);
    ReadsEscaped(c, m1, before);
    ReadsQuietly(c, m, [QUOTE], m1, Escape(before), m2);
    ReadsRefused(c, m2, ch);
    var error := Fail(c, m2, if ch == LF then UnterminatedQuoted else QuotedTooLong).events;
    ReadsThen(c, m, [QUOTE] + Escape(before), m2, [], Escape([ch]), Initial(c), error);
  }

  /** A quoted string is reported as an error exactly if its text has a line feed or, from position
      1024 on, anything but backslashes. */
  lemma QuotedIff(c: Config, m: Machine, text: Bytes)
    requires Ready(m) && m.size + |text| <= c.max
    ensures Feed(c, m, Print(QuotedItem(text))).events == [] <==> Quotable(text)
  {
    if Quotable(text) {
      ReadsQuoted(c, m, text);
    } else {
      var k := FirstRefused(text);
      ReadsToRefused(c, m, text[..k], text[k]);
      PrintSplits(text, k);
      FeedConcat(c, m, [QUOTE] + Escape(text[..k]) + Escape([text[k]]), Escape(text[k + 1..]) + [QUOTE]);
    }
  }

  // ----- The printers -----

  method QuotedString(buf: Bytes, text: Bytes) returns (out: Bytes)
    ensures out == buf + Print(QuotedItem(text))
  {
    out := buf + [QUOTE];
    ghost var start := out;
    EmptyRight(start);
    for i := 0 to |text|
      invariant out == start + Escape(text[..i])
    {
      EscapeNext(text, i);
      Associative(start, Escape(text[..i]), Escape([text[i]]));
      out := EscapedByte(out, text[i]);
    }
    assert text[..|text|] == text;
    out := out + [QUOTE];
    Append3(buf, [QUOTE], Escape(text), [QUOTE]);
  }

  lemma EscapeNext(text: Bytes, i: nat)
    requires i < |text|
    ensures Escape(text[..i + 1]) == Escape(text[..i]) + Escape([text[i]])
  {
    assert text[..i + 1] == text[..i] + [text[i]];
    EscapeConcat(text[..i], [text[i]]);
  }

  method EscapedByte(buf: Bytes, ch: Byte) returns (out: Bytes)
    ensures out == buf + Escape([ch])
  {
    out := buf;
    assert Escape([ch]) == (if ch == BACKSLASH || ch == QUOTE then [BACKSLASH, ch] else [ch]);
    if ch == BACKSLASH || ch == QUOTE {
      out := out + [BACKSLASH];
    }
    out := out + [ch];
  }

  method LiteralString(buf: Bytes, text: Bytes) returns (out: Bytes)
    ensures out == buf + Print(LiteralItem(text, true))
  {
    out := buf + [123];
    out := out + Digits(|text|);
    out := out + [125, CR, LF];
    out := out + text;
  }
}
