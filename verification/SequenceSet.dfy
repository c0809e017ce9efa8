/** Sequence sets (section 9 of RFC 3501): the parser, the printer, and the two ways of asking
    which numbers a set denotes. */
module SequenceSet {
  import opened Wrappers
  import opened Decimal
  import opened Sequences

  datatype Sequence =
    | Number(value: nat)
    | Range(start: Option<nat>, end: Option<nat>)
    | SavedSearch
    | List(items: seq<Sequence>)

  const COMMA: Byte := 44
  const COLON: Byte := 58
  const STAR: Byte := 42
  const DOLLAR: Byte := 36

  // ----- Parser -----

  /** The local variables of the parser's loop. */
  datatype State = State(
    items: seq<Sequence>,
    rangeStart: Option<nat>,
    tokenStart: Option<nat>,
    isWildcard: bool,
    isRange: bool,
    isSavedSearch: bool)

  const INITIAL := State([], None, None, false, false, false)

  /** `parse_number` of the token that ends at `end`. */
  function Token(value: seq<Byte>, tokenStart: Option<nat>, end: nat): Option<nat>
    requires end <= |value|
  {
    if tokenStart.None? || tokenStart.value > end then None else ParseU32(value[tokenStart.value..end])
  }

  /** One character other than a comma. */
  function Read(value: seq<Byte>, pos: nat, st: State): Option<State>
    requires pos < |value|
  {
    var ch := value[pos];
    if ch == COLON then
      if st.isRange then None
      else if st.tokenStart.Some? then
        var from :- Token(value, st.tokenStart, pos);
        Some(st.(rangeStart := Some(from), tokenStart := None, isRange := true))
      else if st.isWildcard then Some(st.(isWildcard := false, isRange := true))
      else None
    else if ch == STAR then
      if st.isWildcard || st.tokenStart.Some? then None else Some(st.(isWildcard := true))
    else if ch == DOLLAR then
      if pos + 1 == |value| || value[pos + 1] == COMMA then Some(st.(isSavedSearch := true)) else None
    else if !IsDigit(ch) || st.isWildcard then None
    else Some(if st.tokenStart.None? then st.(tokenStart := Some(pos)) else st)
  }

  /** The end of an item: a comma, or the end of the text. */
  function Finish(value: seq<Byte>, end: nat, st: State): Option<State>
    requires end <= |value|
  {
    if st.isRange then
      var last: Option<nat> :- if st.isWildcard then Some(None) else
                 var n :- Token(value, st.tokenStart, end); Some(Some(n));
      Some(State(st.items + [Range(st.rangeStart, last)], None, None, false, false, st.isSavedSearch))
    else if st.isWildcard then
      Some(st.(items := st.items + [Range(None, None)], tokenStart := None, isWildcard := false))
    else if st.isSavedSearch then
      Some(st.(items := st.items + [SavedSearch], tokenStart := None, isSavedSearch := false))
    else
      var n :- Token(value, st.tokenStart, end);
      Some(st.(items := st.items + [Number(n)], tokenStart := None))
  }

  /** The items of the text from `pos` on, added to those of `st`. */
  function ParseFrom(value: seq<Byte>, pos: nat, st: State): Option<seq<Sequence>>
    requires pos <= |value|
    decreases |value| - pos
  {
    if pos == |value| then Some(st.items)
    else if value[pos] == COMMA then
      var next :- Finish(value, pos, st);
      ParseFrom(value, pos + 1, next)
    else
      var read :- Read(value, pos, st);
      var next :- if pos == |value| - 1 then Finish(value, pos + 1, read) else Some(read);
      ParseFrom(value, pos + 1, next)
  }

  function Collect(items: Option<seq<Sequence>>): Option<Sequence> {
    var items :- items;
    if |items| == 0 then None
    else if |items| == 1 then Some(items[0])
    else Some(List(items))
  }

  function Parse(value: seq<Byte>): Option<Sequence> {
    Collect(ParseFrom(value, 0, INITIAL))
  }

  method ParseSequenceSet(value: seq<Byte>) returns (result: Option<Sequence>)
    ensures result == Parse(value)
  {
    var items := [];
    var rangeStart: Option<nat>, tokenStart: Option<nat> := None, None;
    var isWildcard, isRange, isSavedSearch := false, false, false;
    for pos := 0 to |value|
      invariant Collect(ParseFrom(value, pos, State(items, rangeStart, tokenStart, isWildcard, isRange, isSavedSearch)))
             == Parse(value)
    {
      var ch := value[pos];
      if ch == COLON {
        if isRange {
          return None;
        }
        if tokenStart.Some? {
          rangeStart := Token(value, tokenStart, pos);
          if rangeStart.None? {
            return None;
          }
          tokenStart := None;
        } else if isWildcard {
          isWildcard := false;
        } else {
          return None;
        }
        isRange := true;
      } else if ch == STAR {
        if isWildcard {
          return None;
        }
        if |value| == 1 {
          return Some(Range(None, None));
        }
        if tokenStart.Some? {
          return None;
        }
        isWildcard := true;
      } else if ch == DOLLAR {
        if pos + 1 < |value| && value[pos + 1] != COMMA {
          return None;
        }
        isSavedSearch := true;
      } else if ch != COMMA {
        if !IsDigit(ch) || isWildcard {
          return None;
        }
        if tokenStart.None? {
          tokenStart := Some(pos);
        }
      }

      if ch == COMMA || pos == |value| - 1 {
        var end := if ch == COMMA then pos else pos + 1;
        if isRange {
          var last: Option<nat> := None;
          if !isWildcard {
            last := Token(value, tokenStart, end);
            if last.None? {
              return None;
            }
          }
          isWildcard := false;
          items := items + [Range(rangeStart, last)];
          isRange, rangeStart := false, None;
        } else if isWildcard {
          items := items + [Range(None, None)];
          isWildcard := false;
        } else if isSavedSearch {
          items := items + [SavedSearch];
          isSavedSearch := false;
        } else {
          var n := Token(value, tokenStart, end);
          if n.None? {
            return None;
          }
          items := items + [Number(n.value)];
        }
        tokenStart := None;
      }
    }
    if |items| == 1 {
      return Some(items[0]);
    } else if |items| == 0 {
      return None;
    }
    return Some(List(items));
  }

  // ----- The parser accepts the grammar -----

  /** A member of a sequence set as it is written: a number or `*`, a range of those with a colon
      between them, or `$`. */
  datatype Member = Single(number: Option<nat>) | Pair(start: Option<nat>, end: Option<nat>) | Saved {
    predicate Valid() {
      match this
      case Single(n) => n.Some? ==> n.value <= MAX_U32
      case Pair(start, end) => (start.Some? ==> start.value <= MAX_U32) && (end.Some? ==> end.value <= MAX_U32)
      case Saved => true
    }

    function Text(): (text: seq<Byte>)
      ensures |text| > 0
    {
      match this
      case Single(n) => PrintEnd(n)
      case Pair(start, end) => PrintEnd(start) + [58] + PrintEnd(end)
      case Saved => [36]
    }

    function Denotation(): Sequence {
      match this
      case Single(None) => Range(None, None)
      case Single(Some(n)) => Number(n)
      case Pair(start, end) => Range(start, end)
      case Saved => SavedSearch
    }
  }

  function PrintEnd(n: Option<nat>): (text: seq<Byte>)
    ensures |text| > 0
  {
    if n.None? then [42] else Digits(n.value)
  }

  predicate AllValid(members: seq<Member>) {
    forall i :: 0 <= i < |members| ==> members[i].Valid()
  }

  function Print(members: seq<Member>): (text: seq<Byte>)
    requires |members| > 0
    ensures |text| > 0
  {
    if |members| == 1 then members[0].Text() else members[0].Text() + [44] + Print(members[1..])
  }

  function Denotations(members: seq<Member>): (items: seq<Sequence>)
    ensures |items| == |members|
    ensures forall i :: 0 <= i < |items| ==> items[i] == members[i].Denotation()
  {
    if members == [] then [] else [members[0].Denotation()] + Denotations(members[1..])
  }

  /** What happens from `pos` on, once the character before it has been read. */
  function After(value: seq<Byte>, pos: nat, st: State): Option<seq<Sequence>>
    requires pos <= |value|
  {
    if pos == |value| then
      var next :- Finish(value, pos, st);
      Some(next.items)
    else ParseFrom(value, pos, st)
  }

  lemma {:induction false} ReadDigits(value: seq<Byte>, pos: nat, end: nat, st: State)
    requires pos < end <= |value| && !st.isWildcard
    requires forall i :: pos <= i < end ==> IsDigit(value[i])
    ensures ParseFrom(value, pos, st) == After(value, end, if st.tokenStart.None? then st.(tokenStart := Some(pos)) else st)
    decreases end - pos
  {
    var next := if st.tokenStart.None? then st.(tokenStart := Some(pos)) else st;
    if pos + 1 < end {
      ReadDigits(value, pos + 1, end, next);
    }
  }

  lemma ReadDigitsAt(value: seq<Byte>, pos: nat, text: seq<Byte>, st: State)
    requires text != [] && AllDigits(text) && At(value, pos, text) && !st.isWildcard && st.tokenStart.None?
    ensures ParseFrom(value, pos, st) == After(value, pos + |text|, st.(tokenStart := Some(pos)))
    ensures Token(value, Some(pos), pos + |text|) == ParseU32(text)
  {
    forall i | pos <= i < pos + |text|
      ensures IsDigit(value[i])
    {
      AtIndex(value, pos, text, i - pos);
    }
    ReadDigits(value, pos, pos + |text|, st);
  }

  lemma ReadNumber(value: seq<Byte>, pos: nat, n: nat, st: State)
    requires n <= MAX_U32 && At(value, pos, Digits(n)) && !st.isWildcard && st.tokenStart.None?
    ensures ParseFrom(value, pos, st) == After(value, pos + |Digits(n)|, st.(tokenStart := Some(pos)))
    ensures Token(value, Some(pos), pos + |Digits(n)|) == Some(n)
  {
    ReadDigitsAt(value, pos, Digits(n), st);
    ParseOfDigits(n);
  }

  /** The state in which an item begins. */
  function Begin(items: seq<Sequence>): State {
    State(items, None, None, false, false, false)
  }

  predicate Fresh(st: State) {
    st == Begin(st.items)
  }

  lemma ReadStart(value: seq<Byte>, pos: nat, start: Option<nat>, st: State)
    requires start.Some? ==> start.value <= MAX_U32
    requires At(value, pos, PrintEnd(start)) && At(value, pos + |PrintEnd(start)|, [COLON])
    requires pos + |PrintEnd(start)| + 1 < |value| && Fresh(st)
    ensures ParseFrom(value, pos, st)
         == ParseFrom(value, pos + |PrintEnd(start)| + 1, st.(rangeStart := start, isRange := true))
  {
    AtIndex(value, pos + |PrintEnd(start)|, [COLON], 0);
    if start.Some? {
      ReadNumber(value, pos, start.value, st);
    } else {
      AtIndex(value, pos, [STAR], 0);
    }
  }

  /** At the end of the text, or before a comma. */
  predicate Ends(value: seq<Byte>, pos: nat) {
    pos == |value| || (pos < |value| - 1 && value[pos] == COMMA)
  }

  /** The parser after an item that ends at `end`: done, or past the comma. */
  function NextItem(value: seq<Byte>, end: nat, items: seq<Sequence>): Option<seq<Sequence>>
    requires Ends(value, end)
  {
    if end == |value| then Some(items) else ParseFrom(value, end + 1, Begin(items))
  }

  lemma ReadEnd(value: seq<Byte>, pos: nat, n: Option<nat>, st: State)
    requires n.Some? ==> n.value <= MAX_U32
    requires At(value, pos, PrintEnd(n)) && Ends(value, pos + |PrintEnd(n)|)
    requires st == State(st.items, st.rangeStart, None, false, true, false)
    ensures ParseFrom(value, pos, st) == NextItem(value, pos + |PrintEnd(n)|, st.items + [Range(st.rangeStart, n)])
  {
    var end := pos + |PrintEnd(n)|;
    if n.Some? {
      ReadNumber(value, pos, n.value, st);
      assert Finish(value, end, st.(tokenStart := Some(pos))).value.items == st.items + [Range(st.rangeStart, n)];
    } else {
      AtIndex(value, pos, [STAR], 0);
      assert ParseFrom(value, pos, st) == After(value, end, st.(isWildcard := true));
    }
  }

  lemma PairAt(value: seq<Byte>, pos: nat, start: Option<nat>, end: Option<nat>)
    requires Pair(start, end).Valid() && At(value, pos, Pair(start, end).Text())
    ensures At(value, pos, PrintEnd(start)) && At(value, pos + |PrintEnd(start)|, [COLON])
    ensures At(value, pos + |PrintEnd(start)| + 1, PrintEnd(end))
    ensures |Pair(start, end).Text()| == |PrintEnd(start)| + 1 + |PrintEnd(end)|
  {
    AtConcat(value, pos, PrintEnd(start) + [COLON], PrintEnd(end));
    AtConcat(value, pos, PrintEnd(start), [COLON]);
  }

  lemma ReadPair(value: seq<Byte>, pos: nat, start: Option<nat>, end: Option<nat>, st: State)
    requires Pair(start, end).Valid() && Fresh(st)
    requires At(value, pos, Pair(start, end).Text()) && Ends(value, pos + |Pair(start, end).Text()|)
    ensures ParseFrom(value, pos, st)
         == NextItem(value, pos + |Pair(start, end).Text()|, st.items + [Range(start, end)])
  {
    PairAt(value, pos, start, end);
    var next := pos + |PrintEnd(start)| + 1;
    assert next + |PrintEnd(end)| == pos + |Pair(start, end).Text()|;
    PairStart(value, pos, start, end, st);
    PairEnd(value, next, start, end, st);
  }

  lemma PairStart(value: seq<Byte>, pos: nat, start: Option<nat>, end: Option<nat>, st: State)
    requires Pair(start, end).Valid() && Fresh(st)
    requires At(value, pos, PrintEnd(start)) && At(value, pos + |PrintEnd(start)|, [COLON])
    requires At(value, pos + |PrintEnd(start)| + 1, PrintEnd(end))
    ensures ParseFrom(value, pos, st)
         == ParseFrom(value, pos + |PrintEnd(start)| + 1, State(st.items, start, None, false, true, false))
  {
    ReadStart(value, pos, start, st);
  }

  lemma PairEnd(value: seq<Byte>, next: nat, start: Option<nat>, end: Option<nat>, st: State)
    requires Pair(start, end).Valid() && At(value, next, PrintEnd(end)) && Ends(value, next + |PrintEnd(end)|)
    ensures ParseFrom(value, next, State(st.items, start, None, false, true, false))
         == NextItem(value, next + |PrintEnd(end)|, st.items + [Range(start, end)])
  {
    ReadEnd(value, next, end, State(st.items, start, None, false, true, false));
  }

  /** Reading one printed member adds its item, and leaves the parser ready for the next one. */
  lemma ReadMember(value: seq<Byte>, pos: nat, member: Member, st: State)
    requires member.Valid() && At(value, pos, member.Text()) && Ends(value, pos + |member.Text()|) && Fresh(st)
    ensures ParseFrom(value, pos, st) == NextItem(value, pos + |member.Text()|, st.items + [member.Denotation()])
  {
    match member
    case Single(Some(n)) => ReadNumber(value, pos, n, st);
    case Single(None) => AtIndex(value, pos, [STAR], 0);
    case Saved => AtIndex(value, pos, [DOLLAR], 0);
    case Pair(start, end) => ReadPair(value, pos, start, end, st);
  }

  /** A printed member and the comma after it are read, and a new item begins. */
  lemma ReadBeforeComma(value: seq<Byte>, pos: nat, member: Member, tail: seq<Byte>, st: State)
    requires member.Valid() && Fresh(st) && tail != []
    requires At(value, pos, member.Text() + [COMMA] + tail)
    ensures At(value, pos + |member.Text()| + 1, tail)
    ensures ParseFrom(value, pos, st)
         == ParseFrom(value, pos + |member.Text()| + 1, Begin(st.items + [member.Denotation()]))
  {
    var text := member.Text();
    AtConcat(value, pos, text + [COMMA], tail);
    AtConcat(value, pos, text, [COMMA]);
    AtIndex(value, pos + |text|, [COMMA], 0);
    ReadMember(value, pos, member, st);
  }

  /** The text from `pos` on is these members. */
  ghost predicate Remain(value: seq<Byte>, pos: nat, members: seq<Member>) {
    |members| > 0 && AllValid(members) && At(value, pos, Print(members)) && pos + |Print(members)| == |value|
  }

  ghost predicate Yields(value: seq<Byte>, pos: nat, st: State, items: seq<Sequence>)
    requires pos <= |value|
  {
    ParseFrom(value, pos, st) == Some(items)
  }

  lemma ReadLast(value: seq<Byte>, pos: nat, members: seq<Member>, items: seq<Sequence>)
    requires |members| == 1 && Remain(value, pos, members)
    ensures Yields(value, pos, Begin(items), items + Denotations(members))
  {
    ReadMember(value, pos, members[0], Begin(items));
    EmptyRight([members[0].Denotation()]);
  }

  lemma PrintSplits(members: seq<Member>)
    requires |members| > 1
    ensures Print(members) == members[0].Text() + [COMMA] + Print(members[1..])
    ensures AllValid(members) ==> AllValid(members[1..])
  {
  }

  /** The members after the first are what remains after its comma. */
  lemma RemainAfter(value: seq<Byte>, pos: nat, members: seq<Member>)
    requires |members| > 1 && Remain(value, pos, members)
    ensures Remain(value, pos + |members[0].Text()| + 1, members[1..])
  {
    PrintSplits(members);
    AtAfter(value, pos, Print(members), members[0].Text() + [COMMA], Print(members[1..]), pos + |members[0].Text()| + 1);
  }

  lemma ReadFirst(value: seq<Byte>, pos: nat, next: nat, members: seq<Member>, items: seq<Sequence>, all: seq<Sequence>)
    requires |members| > 1 && Remain(value, pos, members) && next == pos + |members[0].Text()| + 1 && next <= |value|
    requires Yields(value, next, Begin(items + [members[0].Denotation()]), all)
    ensures Yields(value, pos, Begin(items), all)
  {
    PrintSplits(members);
    ReadBeforeComma(value, pos, members[0], Print(members[1..]), Begin(items));
  }

  lemma {:induction false} ReadMembers(value: seq<Byte>, pos: nat, members: seq<Member>, items: seq<Sequence>)
    requires Remain(value, pos, members)
    ensures Yields(value, pos, Begin(items), items + Denotations(members))
    decreases |members|
  {
    if |members| == 1 {
      ReadLast(value, pos, members, items);
    } else {
      var first, rest := [members[0].Denotation()], members[1..];
      var next := pos + |members[0].Text()| + 1;
      RemainAfter(value, pos, members);
      ReadMembers(value, next, rest, items + first);
      Associative(items, first, Denotations(rest));
      ReadFirst(value, pos, next, members, items, items + Denotations(members));
    }
  }

  /** Every sequence set of the grammar is accepted and parsed to what it denotes. */
  lemma ParsePrinted(members: seq<Member>)
    requires |members| > 0 && AllValid(members)
    ensures Parse(Print(members))
         == Some(if |members| == 1 then members[0].Denotation() else List(Denotations(members)))
  {
    ReadAll(members);
  }

  lemma ReadAll(members: seq<Member>)
    requires |members| > 0 && AllValid(members)
    ensures ParseFrom(Print(members), 0, INITIAL) == Some(Denotations(members))
  {
    AtStart(Print(members));
    ReadMembers(Print(members), 0, members, []);
    EmptyLeft(Denotations(members));
  }

  predicate IsSetByte(b: Byte) {
    IsDigit(b) || b == 44 || b == 58 || b == 42 || b == 36
  }

  lemma {:induction false} OtherFrom(value: seq<Byte>, pos: nat, st: State, at: nat)
    requires pos <= at < |value| && !IsSetByte(value[at])
    ensures ParseFrom(value, pos, st).None?
    decreases at - pos
  {
    if pos < at && ParseFrom(value, pos, st).Some? {
      var next := if value[pos] == COMMA then Finish(value, pos, st).value else Read(value, pos, st).value;
      OtherFrom(value, pos + 1, next, at);
    }
  }

  /** Only digits, `,`, `:`, `*` and `$` stand in a sequence set. */
  lemma OtherIsRefused(value: seq<Byte>, at: nat)
    requires at < |value| && !IsSetByte(value[at])
    ensures Parse(value).None?
  {
    OtherFrom(value, 0, INITIAL, at);
  }

  // ----- Membership -----

  predicate Contains(s: Sequence, n: nat, max: nat) {
    match s
    case Number(v) => v == n
    case Range(Some(start), Some(end)) => start <= n <= end || end <= n <= start
    case Range(Some(v), None) => v <= n <= max || max <= n <= v
    case Range(None, Some(v)) => v <= n <= max || max <= n <= v
    case Range(None, None) => n == max
    case SavedSearch => false
    case List(items) => exists i :: 0 <= i < |items| && Contains(items[i], n, max)
  }

  /** A set with `$` stands for the saved search result, whatever else is in it. */
  predicate IsSavedSearch(s: Sequence) {
    s.SavedSearch? || (s.List? && exists i :: 0 <= i < |s.items| && IsSavedSearch(s.items[i]))
  }

  lemma SavedAlone(member: Member)
    ensures IsSavedSearch(member.Denotation()) <==> member == Saved
  {
  }

  lemma SavedAmong(members: seq<Member>, items: seq<Sequence>)
    requires items == Denotations(members)
    ensures IsSavedSearch(List(items)) <==> Saved in members
  {
    if Saved in members {
      var i :| 0 <= i < |members| && members[i] == Saved;
      assert IsSavedSearch(items[i]);
    }
  }

  lemma SavedOf(members: seq<Member>, parsed: Sequence)
    requires |members| > 0 && parsed == if |members| == 1 then members[0].Denotation() else List(Denotations(members))
    ensures IsSavedSearch(parsed) <==> Saved in members
  {
    if |members| == 1 {
      SavedAlone(members[0]);
    } else {
      SavedAmong(members, Denotations(members));
    }
  }

  /** A written set stands for the saved search result exactly if `$` is one of its members. */
  lemma SavedIff(members: seq<Member>)
    requires |members| > 0 && AllValid(members)
    ensures Parse(Print(members)).Some? && (IsSavedSearch(Parse(Print(members)).value) <==> Saved in members)
  {
    ParsePrinted(members);
    SavedOf(members, Parse(Print(members)).value);
  }

  /** `a..=b`. */
  function Span(a: nat, b: nat): (span: set<nat>)
    ensures forall n :: n in span <==> a <= n <= b
    decreases b + 1 - a
  {
    if a > b then {} else {a} + Span(a + 1, b)
  }

  function ExpandRange(start: Option<nat>, end: Option<nat>, max: nat): set<nat> {
    var start := if start.None? then max else start.value;
    var end := if end.None? then max else end.value;
    if start == end then {start} else if start < end then Span(start, end) else Span(end, start)
  }

  ghost predicate Expands(s: Sequence, n: nat, max: nat) {
    if s.List? then exists i :: 0 <= i < |s.items| && !s.items[i].List? && Contains(s.items[i], n, max)
    else Contains(s, n, max)
  }

  /** The numbers of a set, given the one that `*` stands for; lists inside lists are skipped. */
  method Expand(s: Sequence, max: nat) returns (result: set<nat>)
    ensures forall n :: n in result <==> Expands(s, n, max)
  {
    match s
    case Number(v) =>
      result := {v};
    case Range(start, end) =>
      result := ExpandRange(start, end, max);
    case SavedSearch =>
      result := {};
    case List(items) =>
      result := {};
      for k := 0 to |items|
        invariant forall n :: n in result <==> exists i :: 0 <= i < k && !items[i].List? && Contains(items[i], n, max)
      {
        match items[k] {
          case Number(v) =>
            result := result + {v};
          case Range(start, end) =>
            result := result + ExpandRange(start, end, max);
          case _ =>
        }
      }
  }

  /** No list inside a list. */
  predicate Flat(s: Sequence) {
    s.List? ==> forall i :: 0 <= i < |s.items| ==> !s.items[i].List?
  }

  lemma {:induction false} ParsedItemsAreFlat(value: seq<Byte>, pos: nat, st: State)
    requires pos <= |value| && Flat(List(st.items)) && ParseFrom(value, pos, st).Some?
    ensures Flat(List(ParseFrom(value, pos, st).value))
    decreases |value| - pos
  {
    if pos < |value| {
      var next := if value[pos] == COMMA then Finish(value, pos, st).value
                  else if pos == |value| - 1 then Finish(value, pos + 1, Read(value, pos, st).value).value
                  else Read(value, pos, st).value;
      ParsedItemsAreFlat(value, pos + 1, next);
    }
  }

  lemma ParsedIsFlat(value: seq<Byte>)
    requires Parse(value).Some?
    ensures Flat(Parse(value).value)
  {
    ParsedItemsAreFlat(value, 0, INITIAL);
  }

  lemma FlatExpandsAsContains(s: Sequence, n: nat, max: nat)
    requires Flat(s)
    ensures Expands(s, n, max) <==> Contains(s, n, max)
  {
  }

  /** `contains` and `expand` agree on whatever the parser returns, `$` included. */
  lemma ExpandsAsContains(value: seq<Byte>, n: nat, max: nat)
    requires Parse(value).Some?
    ensures Expands(Parse(value).value, n, max) <==> Contains(Parse(value).value, n, max)
  {
    ParsedIsFlat(value);
  }

  // ----- Printer -----

  /** `n + 1` on 32 bits. */
  function Succ(n: nat): nat {
    if n == MAX_U32 then 0 else n + 1
  }

  predicate Follows(list: seq<nat>, i: nat) {
    0 < i < |list| && list[i] == Succ(list[i - 1])
  }

  /** Each element follows its predecessor by one. */
  predicate IsRun(run: seq<nat>) {
    forall i :: 0 < i < |run| ==> Follows(run, i)
  }

  /** How many leading elements each follow their predecessor by one. */
  function RunLength(list: seq<nat>): (k: nat)
    requires |list| > 0
    ensures 1 <= k <= |list|
    ensures forall i :: 0 < i < k ==> Follows(list, i)
    ensures !Follows(list, k)
  {
    if Follows(list, 1) then
      var k := RunLength(list[1..]);
      assert forall i :: 0 < i < |list| - 1 ==> (Follows(list[1..], i) <==> Follows(list, i + 1));
      assert forall i :: 1 < i < k + 1 ==> (Follows(list, i) <==> Follows(list[1..], i - 1));
      k + 1
    else 1
  }

  lemma FirstRun(list: seq<nat>)
    requires list != []
    ensures IsRun(list[..RunLength(list)])
  {
    var run := list[..RunLength(list)];
    forall i | 0 < i < |run|
      ensures Follows(run, i)
    {
      assert Follows(list, i);
    }
  }

  function Run(list: seq<nat>, k: nat): Member
    requires 1 <= k <= |list|
  {
    if list[k - 1] == list[0] then Single(Some(list[0])) else Pair(Some(list[0]), Some(list[k - 1]))
  }

  /** The maximal runs of a list, in order. */
  function Runs(list: seq<nat>): (members: seq<Member>)
    ensures list != [] ==> |members| > 0
  {
    if list == [] then [] else [Run(list, RunLength(list))] + Runs(list[RunLength(list)..])
  }

  function Serialize(list: seq<nat>): seq<Byte> {
    if list == [] then [] else Print(Runs(list))
  }

  lemma SerializeRun(list: seq<nat>, k: nat)
    requires list != [] && k == RunLength(list)
    ensures k == |list| ==> Serialize(list) == Run(list, k).Text()
    ensures k < |list| ==> Serialize(list) == Run(list, k).Text() + [COMMA] + Serialize(list[k..])
  {
    assert Runs(list)[1..] == Runs(list[k..]);
    if k == |list| {
      assert list[k..] == [];
    }
  }

  method SerializeSequence(buf: seq<Byte>, list: seq<nat>) returns (result: seq<Byte>)
    ensures result == buf + Serialize(list)
  {
    result := buf;
    var ids := list;
    while ids != []
      invariant result + Serialize(ids) == buf + Serialize(list)
      decreases |ids|
    {
      ghost var start, rest := result, ids;
      var k;
      result, k := SerializeNext(result, ids);
      ghost var text := Run(rest, k).Text();
      SerializeRun(rest, k);
      ids := ids[k..];
      if ids != [] {
        result := result + [COMMA];
        ghost var tail := Serialize(ids);
        Append3(start, text, [COMMA], tail);
      }
    }
  }

  /** The inner loop of the printer: the run at the head of the list. */
  method SerializeNext(buf: seq<Byte>, ids: seq<nat>) returns (result: seq<Byte>, k: nat)
    requires ids != []
    ensures k == RunLength(ids) && result == buf + Run(ids, k).Text()
  {
    var rangeId := ids[0];
    k := 1;
    while k < |ids| && ids[k] == Succ(rangeId)
      invariant 1 <= k <= RunLength(ids) && rangeId == ids[k - 1]
    {
      assert Follows(ids, k);
      rangeId := Succ(rangeId);
      k := k + 1;
    }
    assert !Follows(ids, k);
    result := buf + Digits(ids[0]);
    if rangeId != ids[0] {
      result := result + [COLON] + Digits(rangeId);
    }
  }

  // ----- Printing and parsing back -----

  predicate WrapsAt(list: seq<nat>, i: nat) {
    0 < i < |list| && list[i - 1] == MAX_U32 && list[i] == 0
  }

  /** No run of the list goes on from 2^32 - 1 to 0. */
  predicate NoWrap(list: seq<nat>) {
    forall i :: 0 < i < |list| ==> !WrapsAt(list, i)
  }

  predicate AllU32(list: seq<nat>) {
    forall i :: 0 <= i < |list| ==> list[i] <= MAX_U32
  }

  lemma {:induction false} RunSteps(run: seq<nat>, k: nat)
    requires IsRun(run) && NoWrap(run) && AllU32(run) && k < |run|
    ensures run[k] == run[0] + k
  {
    if k > 0 {
      RunSteps(run, k - 1);
      assert Follows(run, k) && !WrapsAt(run, k);
    }
  }

  lemma RunDenotes(list: seq<nat>, n: nat, max: nat)
    requires list != [] && AllU32(list) && NoWrap(list[..RunLength(list)])
    ensures Contains(Run(list, RunLength(list)).Denotation(), n, max) <==> n in list[..RunLength(list)]
  {
    var run := list[..RunLength(list)];
    FirstRun(list);
    forall i | 0 <= i < |run|
      ensures run[i] == run[0] + i
    {
      RunSteps(run, i);
    }
    if run[0] <= n < run[0] + |run| {
      assert run[n - run[0]] == n;
    }
  }

  /** A list wraps where its first run does, or where the rest does. */
  lemma WrapSplit(list: seq<nat>, k: nat, i: nat)
    requires list != [] && k == RunLength(list) && 0 < i < |list|
    ensures WrapsAt(list, i) <==> if i < k then WrapsAt(list[..k], i) else i > k && WrapsAt(list[k..], i - k)
  {
    assert i == k ==> !Follows(list, i);
  }

  lemma NoWrapSplit(list: seq<nat>, k: nat)
    requires list != [] && k == RunLength(list) && NoWrap(list)
    ensures NoWrap(list[..k]) && NoWrap(list[k..])
  {
    forall i | 0 < i < k
      ensures !WrapsAt(list[..k], i)
    {
      WrapSplit(list, k, i);
    }
    forall i | 0 < i < |list| - k
      ensures !WrapsAt(list[k..], i)
    {
      WrapSplit(list, k, k + i);
    }
  }

  /** Some member of a set denotes `n`. */
  ghost predicate SomeContains(members: seq<Member>, n: nat, max: nat) {
    exists i :: 0 <= i < |members| && Contains(members[i].Denotation(), n, max)
  }

  lemma SomeContainsFirst(members: seq<Member>, n: nat, max: nat)
    requires members != []
    ensures SomeContains(members, n, max)
       <==> Contains(members[0].Denotation(), n, max) || SomeContains(members[1..], n, max)
  {
    if SomeContains(members[1..], n, max) {
      var i :| 0 <= i < |members[1..]| && Contains(members[1..][i].Denotation(), n, max);
      assert members[i + 1] == members[1..][i];
    }
    if i :| 0 < i < |members| && Contains(members[i].Denotation(), n, max) {
      assert members[1..][i - 1] == members[i];
    }
  }

  lemma {:induction false} RunsAreValid(list: seq<nat>)
    requires AllU32(list)
    ensures AllValid(Runs(list))
    decreases |list|
  {
    if list != [] {
      RunsAreValid(list[RunLength(list)..]);
    }
  }

  /** What a printed list denotes: what its first run does, and what the others do. */
  lemma RunsSplit(list: seq<nat>, n: nat, max: nat)
    requires list != []
    ensures SomeContains(Runs(list), n, max)
       <==> Contains(Run(list, RunLength(list)).Denotation(), n, max) || SomeContains(Runs(list[RunLength(list)..]), n, max)
  {
    SomeContainsFirst(Runs(list), n, max);
    assert Runs(list)[1..] == Runs(list[RunLength(list)..]);
  }

  lemma {:induction false} RunsDenote(list: seq<nat>, n: nat, max: nat)
    requires NoWrap(list) && AllU32(list)
    ensures SomeContains(Runs(list), n, max) <==> n in list
    decreases |list|
  {
    if list != [] {
      var k := RunLength(list);
      NoWrapSplit(list, k);
      RunDenotes(list, n, max);
      RunsDenote(list[k..], n, max);
      RunsSplit(list, n, max);
      InSplit(list, k, n);
    }
  }

  /** A printed list is parsed back to the set of its runs. */
  lemma SerializeParses(list: seq<nat>, n: nat, max: nat)
    requires list != [] && AllU32(list)
    ensures Parse(Serialize(list)).Some?
    ensures Contains(Parse(Serialize(list)).value, n, max) <==> SomeContains(Runs(list), n, max)
  {
    var runs := Runs(list);
    RunsAreValid(list);
    ParsePrinted(runs);
    if |runs| > 1 {
      assert forall i :: 0 <= i < |runs| ==> Denotations(runs)[i] == runs[i].Denotation();
    }
  }

  /** A printed list is parsed back to a set with exactly its members, whatever `*` stands for. */
  lemma SerializeRoundTrip(list: seq<nat>, n: nat, max: nat)
    requires list != [] && AllU32(list) && NoWrap(list)
    ensures Parse(Serialize(list)).Some?
    ensures Contains(Parse(Serialize(list)).value, n, max) <==> n in list
  {
    SerializeParses(list, n, max);
    RunsDenote(list, n, max);
  }

  /** UIDs and sequence numbers start at 1: every list of them survives. */
  lemma NumbersRoundTrip(list: seq<nat>, n: nat, max: nat)
    requires list != [] && forall i :: 0 <= i < |list| ==> 1 <= list[i] <= MAX_U32
    ensures Parse(Serialize(list)).Some?
    ensures Contains(Parse(Serialize(list)).value, n, max) <==> n in list
  {
    SerializeRoundTrip(list, n, max);
  }

  predicate Ascending(list: seq<nat>) {
    forall i, j :: 0 <= i < j < |list| ==> list[i] < list[j]
  }

  lemma AscendingRoundTrip(list: seq<nat>, n: nat, max: nat)
    requires list != [] && AllU32(list) && Ascending(list)
    ensures Parse(Serialize(list)).Some?
    ensures Contains(Parse(Serialize(list)).value, n, max) <==> n in list
  {
    assert NoWrap(list);
    SerializeRoundTrip(list, n, max);
  }

  // ----- When a wrap is harmless -----

  ghost function Denoted(list: seq<nat>, max: nat): iset<nat> {
    iset n | SomeContains(Runs(list), n, max)
  }

  ghost function Elements(list: seq<nat>): iset<nat> {
    iset n | n in list
  }

  /** The numbers between two, whichever is the lower one. */
  ghost function Between(a: nat, b: nat): iset<nat> {
    iset n | IsBetween(a, b, n)
  }

  predicate IsBetween(a: nat, b: nat, n: nat) {
    a <= n <= b || b <= n <= a
  }

  lemma ElementsConcat(a: seq<nat>, b: seq<nat>)
    ensures Elements(a + b) == Elements(a) + Elements(b)
  {
  }

  /** A list and a maximal run in it that wraps. */
  datatype Wrap = Wrap(before: seq<nat>, run: seq<nat>, after: seq<nat>, zero: nat) {
    function List(): seq<nat> {
      before + run + after
    }

    predicate Valid() {
      && IsRun(run) && WrapsAt(run, zero)
      && (before != [] ==> run[0] != Succ(before[|before| - 1]))
      && (after != [] ==> after[0] != Succ(run[|run| - 1]))
    }

    /** The run is taken for all the numbers between its ends, the others for themselves. */
    ghost function Misread(): iset<nat>
      requires run != []
    {
      Elements(before) + Between(run[0], run[|run| - 1]) + Elements(after)
    }
  }

  ghost function FirstDenoted(list: seq<nat>, max: nat): iset<nat>
    requires list != []
  {
    iset n | Contains(Run(list, RunLength(list)).Denotation(), n, max)
  }

  lemma DenotedSplit(list: seq<nat>, max: nat)
    requires list != []
    ensures Denoted(list, max) == FirstDenoted(list, max) + Denoted(list[RunLength(list)..], max)
  {
    forall n
      ensures n in Denoted(list, max) <==> n in FirstDenoted(list, max) || n in Denoted(list[RunLength(list)..], max)
    {
      RunsSplit(list, n, max);
    }
  }

  lemma FirstDenotes(list: seq<nat>, run: seq<nat>, max: nat)
    requires list != [] && run == list[..RunLength(list)]
    ensures FirstDenoted(list, max) == Between(run[0], run[|run| - 1])
  {
    assert run[0] == list[0] && run[|run| - 1] == list[RunLength(list) - 1];
    forall n
      ensures n in FirstDenoted(list, max) <==> n in Between(run[0], run[|run| - 1])
    {
    }
  }

  lemma FirstDenotesElements(list: seq<nat>, max: nat)
    requires list != [] && AllU32(list) && NoWrap(list[..RunLength(list)])
    ensures FirstDenoted(list, max) == Elements(list[..RunLength(list)])
  {
    forall n
      ensures n in FirstDenoted(list, max) <==> n in Elements(list[..RunLength(list)])
    {
      RunDenotes(list, n, max);
    }
  }

  lemma DenotesElements(list: seq<nat>, max: nat)
    requires NoWrap(list) && AllU32(list)
    ensures Denoted(list, max) == Elements(list)
  {
    forall n
      ensures n in Denoted(list, max) <==> n in Elements(list)
    {
      RunsDenote(list, n, max);
    }
  }

  /** The first run wraps. */
  lemma FirstWraps(list: seq<nat>, w: Wrap)
    requires list != [] && WrapsAt(list[..RunLength(list)], w.zero)
    requires w == Wrap([], list[..RunLength(list)], list[RunLength(list)..], w.zero)
    ensures w.List() == list && w.Valid()
  {
    FirstRun(list);
    EmptyLeft(w.run);
    assert w.after != [] ==> w.after[0] == list[RunLength(list)];
  }

  lemma FirstMisread(list: seq<nat>, w: Wrap, max: nat)
    requires list != [] && AllU32(w.after) && NoWrap(w.after)
    requires w.before == [] && w.run == list[..RunLength(list)] && w.after == list[RunLength(list)..]
    ensures Denoted(list, max) == w.Misread()
  {
    DenotedSplit(list, max);
    FirstDenotes(list, w.run, max);
    DenotesElements(w.after, max);
    UnionOfEmpty(Elements(w.before), FirstDenoted(list, max), Elements(w.after));
  }

  lemma UnionOfEmpty(a: iset<nat>, b: iset<nat>, c: iset<nat>)
    requires forall n :: n !in a
    ensures a + b + c == b + c
  {
  }

  lemma UnionOfFour(a: iset<nat>, b: iset<nat>, c: iset<nat>, d: iset<nat>)
    ensures a + (b + c + d) == a + b + c + d
  {
  }

  /** A later run wraps. */
  lemma LaterWraps(list: seq<nat>, w: Wrap, w': Wrap)
    requires list != [] && list[RunLength(list)..] == w.List() && w.Valid()
    requires w' == w.(before := list[..RunLength(list)] + w.before)
    ensures w'.List() == list && w'.Valid()
  {
    var first, rest := list[..RunLength(list)], list[RunLength(list)..];
    assert list == first + rest;
    Append3(first, w.before, w.run, w.after);
    if w.before == [] {
      EmptyRight(first);
      EmptyLeft(w.run);
      FirstOf(w.run, w.after);
      assert list[RunLength(list)] == rest[0] == w.run[0];
    }
  }

  lemma FirstOf(a: seq<nat>, b: seq<nat>)
    requires a != []
    ensures (a + b)[0] == a[0]
  {
  }

  lemma LaterMisread(list: seq<nat>, w: Wrap, w': Wrap, max: nat)
    requires list != [] && AllU32(list) && NoWrap(list[..RunLength(list)])
    requires list[RunLength(list)..] == w.List() && w.run != [] && Denoted(w.List(), max) == w.Misread()
    requires w' == w.(before := list[..RunLength(list)] + w.before)
    ensures Denoted(list, max) == w'.Misread()
  {
    var first := list[..RunLength(list)];
    ElementsConcat(first, w.before);
    DenotedSplit(list, max);
    FirstDenotesElements(list, max);
    UnionOfFour(Elements(first), Elements(w.before), Between(w.run[0], w.run[|w.run| - 1]), Elements(w.after));
  }

  /** Without duplicates, there is one wrap. */
  lemma OneWrap(list: seq<nat>, k: nat)
    requires list != [] && k == RunLength(list) && NoDuplicates(list) && AllU32(list)
    ensures NoDuplicates(list[k..]) && AllU32(list[k..])
    ensures NoWrap(list) || NoWrap(list[..k]) != NoWrap(list[k..])
  {
    if i :| 0 < i < |list| && WrapsAt(list, i) {
      forall j | 0 < j < |list|
        ensures WrapsAt(list, j) <==> j == i
        ensures WrapsAt(list, j) <==> if j < k then WrapsAt(list[..k], j) else j > k && WrapsAt(list[k..], j - k)
      {
        WrapSplit(list, k, j);
      }
      assert forall j :: 0 < j < |list| - k && WrapsAt(list[k..], j) ==> WrapsAt(list, j + k);
      assert i < k ==> WrapsAt(list[..k], i);
      assert i >= k ==> WrapsAt(list[k..], i - k);
    }
  }

  /** A list without duplicates wraps once, and only that run is misread. */
  lemma {:induction false} WrapsOnce(list: seq<nat>, max: nat) returns (w: Wrap)
    requires NoDuplicates(list) && AllU32(list) && !NoWrap(list)
    ensures w.List() == list && w.Valid() && Denoted(list, max) == w.Misread()
    decreases |list|
  {
    var k := RunLength(list);
    OneWrap(list, k);
    if NoWrap(list[..k]) {
      var rest := WrapsOnce(list[k..], max);
      w := rest.(before := list[..k] + rest.before);
      LaterWraps(list, rest, w);
      LaterMisread(list, rest, w, max);
    } else {
      var zero :| WrapsAt(list[..k], zero);
      w := Wrap([], list[..k], list[k..], zero);
      FirstWraps(list, w);
      FirstMisread(list, w, max);
    }
  }

  /** 2^32 - 1 and this 0 are a run of their own. */
  predicate WrapsAlone(list: seq<nat>, zero: nat) {
    WrapsAt(list, zero) && (zero > 1 ==> list[zero - 2] != MAX_U32 - 1) && (zero + 1 < |list| ==> list[zero + 1] != 1)
  }

  /** The list survives being printed and parsed: no run wraps, or the one that wraps is taken for all
      32-bit numbers and all of them are listed. */
  ghost predicate Survives(list: seq<nat>) {
    NoWrap(list) || ((exists zero :: WrapsAlone(list, zero)) && forall n: nat :: n <= MAX_U32 ==> n in list)
  }

  /** A number of the run that is not at its ends is missed. */
  lemma InsideIsMissed(w: Wrap, i: nat)
    requires w.run != [] && NoDuplicates(w.List()) && i < |w.run|
    requires !IsBetween(w.run[0], w.run[|w.run| - 1], w.run[i])
    ensures w.run[i] in Elements(w.List()) && w.run[i] !in w.Misread()
  {
    var list, at := w.List(), |w.before| + i;
    assert list[at] == w.run[i];
    assert forall j :: 0 <= j < |w.before| ==> w.before[j] == list[j];
    assert forall j :: 0 <= j < |w.after| ==> w.after[j] == list[|w.before| + |w.run| + j];
  }

  lemma RunEnds(w: Wrap, i: nat)
    requires w.run != [] && NoDuplicates(w.List()) && i < |w.run|
    ensures (w.run[0] == w.run[i] <==> i == 0) && (w.run[|w.run| - 1] == w.run[i] <==> i == |w.run| - 1)
  {
    var list := w.List();
    assert forall j :: 0 <= j < |w.run| ==> w.run[j] == list[|w.before| + j];
  }

  lemma OnlyPair(w: Wrap, zero: nat)
    requires WrapsAt(w.run, zero) && NoDuplicates(w.List()) && AllU32(w.run)
    ensures w.run != [MAX_U32, 0] ==> w.Misread() != Elements(w.List())
  {
    RunEnds(w, zero);
    RunEnds(w, zero - 1);
    if zero > 1 {
      InsideIsMissed(w, zero - 1);
    } else if zero + 1 < |w.run| {
      InsideIsMissed(w, zero);
    }
  }

  lemma WrapsAloneIff(w: Wrap)
    requires w.Valid() && NoDuplicates(w.List())
    ensures (exists i :: WrapsAlone(w.List(), i)) <==> w.run == [MAX_U32, 0]
  {
    var list, at := w.List(), |w.before| + w.zero;
    assert WrapsAt(list, at);
    assert forall i :: WrapsAlone(list, i) ==> i == at;
    if w.zero > 1 {
      assert Follows(w.run, w.zero - 1) && list[at - 2] == w.run[w.zero - 2];
    } else if w.zero + 1 < |w.run| {
      assert Follows(w.run, w.zero + 1) && list[at + 1] == w.run[w.zero + 1];
    } else {
      assert WrapsAlone(list, at);
    }
  }

  lemma PairMisread(w: Wrap)
    requires w.run == [MAX_U32, 0] && AllU32(w.List())
    ensures w.Misread() == Elements(w.List()) <==> forall n: nat :: n <= MAX_U32 ==> n in w.List()
  {
    var list := w.List();
    forall n: nat
      ensures n in w.Misread() <==> n <= MAX_U32
    {
      assert n in w.before || n in w.after ==> n in list;
      assert IsBetween(MAX_U32, 0, n) <==> n <= MAX_U32;
      assert n in w.Misread() <==> n in w.before || n in Between(MAX_U32, 0) || n in w.after;
    }
    assert forall n :: n in Elements(list) <==> n in list;
  }

  lemma SurvivesIff(w: Wrap)
    requires w.Valid() && NoDuplicates(w.List()) && AllU32(w.List()) && !NoWrap(w.List())
    ensures w.Misread() == Elements(w.List()) <==> Survives(w.List())
  {
    assert forall i :: 0 <= i < |w.run| ==> w.run[i] == w.List()[|w.before| + i];
    OnlyPair(w, w.zero);
    WrapsAloneIff(w);
    if w.run == [MAX_U32, 0] {
      PairMisread(w);
    }
  }

  /** For lists without duplicates that condition is exact. */
  lemma RoundTripIff(list: seq<nat>, max: nat)
    requires list != [] && AllU32(list) && NoDuplicates(list)
    ensures Parse(Serialize(list)).Some?
    ensures (forall n :: Contains(Parse(Serialize(list)).value, n, max) <==> n in list) <==> Survives(list)
  {
    SerializeParses(list, 0, max);
    forall n
      ensures Contains(Parse(Serialize(list)).value, n, max) <==> n in Denoted(list, max)
    {
      SerializeParses(list, n, max);
    }
    if NoWrap(list) {
      DenotesElements(list, max);
    } else {
      var w := WrapsOnce(list, max);
      SurvivesIff(w);
    }
    assert forall n :: n in list <==> n in Elements(list);
  }

  /** `[2^32 - 1, 0]` is printed as a range that denotes 7 too. */
  lemma WrappedRangeIsWrong()
    ensures var list := [MAX_U32, 0];
            7 !in list && Parse(Serialize(list)).Some? && Contains(Parse(Serialize(list)).value, 7, 7)
  {
    var list := [MAX_U32, 0];
    assert Follows(list, 1) && RunLength(list) == 2;
    assert list[2..] == [];
    assert Runs(list) == [Pair(Some(MAX_U32), Some(0))];
    ParsePrinted(Runs(list));
  }

  function First(m: Member): nat
    requires (m.Single? && m.number.Some?) || (m.Pair? && m.start.Some?)
  {
    if m.Single? then m.number.value else m.start.value
  }

  function Last(m: Member): nat
    requires (m.Single? && m.number.Some?) || (m.Pair? && m.end.Some?)
  {
    if m.Single? then m.number.value else m.end.value
  }

  /** Printed ranges are maximal: no member continues the one before it. */
  lemma {:induction false} RunsAreMaximal(list: seq<nat>, i: nat)
    requires i + 1 < |Runs(list)|
    ensures var a, b := Runs(list)[i], Runs(list)[i + 1];
            && !a.Saved? && !b.Saved?
            && (a.Single? ==> a.number.Some?) && (b.Single? ==> b.number.Some?)
            && (a.Pair? ==> a.end.Some?) && (b.Pair? ==> b.start.Some?)
            && First(b) != Succ(Last(a))
    decreases |list|
  {
    var k := RunLength(list);
    var rest := list[k..];
    assert Runs(list)[1..] == Runs(rest);
    if i == 0 {
      assert Runs(list)[1] == Run(rest, RunLength(rest));
      assert rest[0] == list[k];
    } else {
      RunsAreMaximal(rest, i - 1);
      assert Runs(list)[i] == Runs(rest)[i - 1] && Runs(list)[i + 1] == Runs(rest)[i];
    }
  }
}
