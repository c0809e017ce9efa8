/** The reader as an object: every byte changes its fields in place. */
module RequestReader {
  import opened Wrappers
  import opened Sequences
  import opened Decimal
  import opened Receiver

  function Listed(e: Option<Event>): seq<Event> {
    if e.Some? then [e.value] else []
  }

  lemma FeedSnoc(c: Config, m: Machine, a: Bytes, b: Byte)
    requires Feed(c, m, a).events == []
    ensures Feed(c, m, a + [b]) == Step(c, Feed(c, m, a).machine, b)
  {
    var m' := Feed(c, m, a).machine;
    FeedConcat(c, m, a, [b]);
    var o := Step(c, m', b);
    assert Feed(c, o.machine, []) == Outcome(o.machine, []);
    EmptyRight(o.events);
    EmptyLeft(o.events);
  }

  lemma ParseStep(c: Config, m: Machine, bytes: Bytes, from: nat, next: nat)
    requires from <= next < |bytes| && Feed(c, m, bytes[from..next]).events == []
    ensures Feed(c, m, bytes[from..next + 1]) == Step(c, Feed(c, m, bytes[from..next]).machine, bytes[next])
  {
    assert bytes[from..next + 1] == bytes[from..next] + [bytes[next]];
    FeedSnoc(c, m, bytes[from..next], bytes[next]);
  }

  class Reader {
    const config: Config
    var buf: Bytes
    var request: Request
    var state: State
    var currentRequestSize: nat

    function Snapshot(): Machine
      reads this
    {
      Machine(buf, request, state, currentRequestSize)
    }

    constructor (config: Config)
      ensures Snapshot() == Initial(config) && this.config == config
    {
      this.config := config;
      buf, request, state, currentRequestSize := [], EMPTY, config.start, 0;
    }

    method ErrorReset(problem: Problem) returns (e: Option<Event>)
      modifies this
      ensures e.Some? && Outcome(Snapshot(), Listed(e)) == Fail(config, old(Snapshot()), problem)
    {
      e := Some(Failed(if request.tag != [] then Some(request.tag) else None, problem));
      request := EMPTY;
      buf := [];
      state := config.start;
      currentRequestSize := 0;
    }

    method AddArgument(inQuote: bool) returns (e: Option<Event>)
      modifies this
      ensures Outcome(Snapshot(), Listed(e)) == PushArgument(config, old(Snapshot()), inQuote)
    {
      e := None;
      if buf != [] {
        currentRequestSize := currentRequestSize + |buf|;
        if currentRequestSize > config.max {
          e := ErrorReset(RequestTooLarge);
          return;
        }
        request := request.(tokens := request.tokens + [Argument(buf)]);
        buf := [];
      } else if inQuote {
        request := request.(tokens := request.tokens + [Nil]);
      }
    }

    method AddCounted(token: Token) returns (e: Option<Event>)
      modifies this
      ensures Outcome(Snapshot(), Listed(e)) == PushToken(config, old(Snapshot()), token)
    {
      e := None;
      currentRequestSize := currentRequestSize + 1;
      if currentRequestSize > config.max {
        e := ErrorReset(RequestTooLarge);
        return;
      }
      request := request.(tokens := request.tokens + [token]);
    }

    /** The request is handed over. */
    method TakeRequest() returns (e: Option<Event>)
      modifies this
      ensures e.Some? && Outcome(Snapshot(), Listed(e)) == Finish(config, old(Snapshot()))
    {
      state := config.start;
      currentRequestSize := 0;
      e := Some(Complete(request));
      request := EMPTY;
    }

    method OnTag(ch: Byte) returns (e: Option<Event>)
      modifies this
      ensures Outcome(Snapshot(), Listed(e)) == StepTag(config, old(Snapshot()), ch)
    {
      e := None;
      if ch == SPACE {
        if buf != [] {
          if !IsUtf8(buf) {
            e := ErrorReset(InvalidTagUtf8);
            return;
          }
          request := request.(tag := buf);
          buf := [];
          state := CommandName(false);
        }
      } else if IsSpace(ch) {
        e := ErrorReset(InvalidTagCharacter);
      } else if |buf| < 128 {
        buf := buf + [ch];
      } else {
        e := ErrorReset(TagTooLong);
      }
    }

    method OnCommand(ch: Byte, isUid: bool) returns (e: Option<Event>)
      modifies this
      ensures Outcome(Snapshot(), Listed(e)) == StepCommand(config, old(Snapshot()), ch, isUid)
    {
      e := None;
      if IsAlphanumeric(ch) {
        if |buf| < 15 {
          buf := buf + [ToUpper(ch)];
        } else {
          e := ErrorReset(CommandTooLong);
        }
      } else if IsSpace(ch) {
        if buf == UID {
          buf := [];
          state := CommandName(true);
        } else if buf != [] {
          if buf !in config.known {
            e := ErrorReset(UnknownCommand);
            return;
          }
          request := request.(command := Command(buf, isUid));
          buf := [];
          if ch != LF {
            state := Arguments(SPACE);
          } else {
            e := TakeRequest();
          }
        }
      } else {
        e := ErrorReset(InvalidCommandCharacter);
      }
    }

    method OnArguments(ch: Byte, last: Byte) returns (e: Option<Event>)
      modifies this
      ensures Outcome(Snapshot(), Listed(e)) == StepArguments(config, old(Snapshot()), ch, last)
    {
      var token := Delimiter(ch, Brackets(config, Snapshot()));
      if (ch == QUOTE && IsSpace(last)) || (ch == 123 && IsSpace(last)) || token.Some? || IsSpace(ch) {
        e := AddArgument(false);
        if e.Some? {
          return;
        }
        if ch == QUOTE && IsSpace(last) {
          state := Quoted(false);
        } else if ch == 123 && IsSpace(last) {
          state := Literal(false);
        } else if token.Some? {
          e := AddCounted(token.value);
        } else if ch == LF {
          e := TakeRequest();
        } else {
          state := Arguments(ch);
        }
      } else {
        e := None;
        buf := buf + [ch];
        state := Arguments(ch);
      }
    }

    method OnQuoted(ch: Byte, escaped: bool) returns (e: Option<Event>)
      modifies this
      ensures Outcome(Snapshot(), Listed(e)) == StepQuoted(config, old(Snapshot()), ch, escaped)
    {
      e := None;
      if ch == QUOTE && !escaped {
        e := AddArgument(true);
        if e.None? {
          state := Arguments(SPACE);
        }
      } else if ch == BACKSLASH {
        if escaped {
          buf := buf + [ch];
        }
        state := Quoted(!escaped);
      } else if ch == LF {
        e := ErrorReset(UnterminatedQuoted);
      } else if |buf| < 1024 {
        if escaped && ch != QUOTE {
          buf := buf + [BACKSLASH];
        }
        buf := buf + [ch];
        state := Quoted(false);
      } else {
        e := ErrorReset(QuotedTooLong);
      }
    }

    method OnLiteral(ch: Byte, nonSync: bool) returns (e: Option<Event>)
      modifies this
      ensures Outcome(Snapshot(), Listed(e)) == StepLiteral(config, old(Snapshot()), ch, nonSync)
    {
      e := None;
      if ch == 125 {
        if buf != [] {
          var size := ParseU32(buf);
          if size.None? {
            e := ErrorReset(LiteralNotANumber);
          } else if currentRequestSize + size.value > config.max {
            e := ErrorReset(LiteralTooLarge);
          } else {
            state := LiteralSeek(size.value, nonSync);
            buf := [];
          }
        } else {
          e := ErrorReset(EmptyLiteral);
        }
      } else if ch == 43 {
        if buf != [] {
          state := Literal(true);
        } else {
          e := ErrorReset(InvalidNonSync);
        }
      } else if IsDigit(ch) && !nonSync {
        buf := buf + [ch];
      } else {
        e := ErrorReset(InvalidLiteral);
      }
    }

    method OnSeek(ch: Byte, size: nat, nonSync: bool) returns (e: Option<Event>)
      modifies this
      ensures Outcome(Snapshot(), Listed(e)) == StepSeek(config, old(Snapshot()), ch, size, nonSync)
    {
      e := None;
      if ch == LF {
        if size > 0 {
          state := LiteralData(size);
        } else {
          state := Arguments(SPACE);
          e := AddCounted(Nil);
        }
        if e.None? && !nonSync {
          e := Some(NeedsLiteral(size));
        }
      } else if !IsSpace(ch) {
        e := ErrorReset(ExpectedCrlf);
      }
    }

    method OnData(ch: Byte, remaining: nat) returns (e: Option<Event>)
      modifies this
      ensures Outcome(Snapshot(), Listed(e)) == StepData(config, old(Snapshot()), ch, remaining)
    {
      e := None;
      buf := buf + [ch];
      if remaining > 1 {
        state := LiteralData(remaining - 1);
      } else {
        e := AddArgument(false);
        if e.None? {
          state := Arguments(SPACE);
        }
      }
    }

    method OnByte(ch: Byte) returns (e: Option<Event>)
      modifies this
      ensures Outcome(Snapshot(), Listed(e)) == Step(config, old(Snapshot()), ch)
    {
      e := None;
      match state
      case Start =>
        if !IsSpace(ch) {
          buf := buf + [ch];
          state := Tag;
        } else if ch == LF {
          e := ErrorReset(ExpectedTag);
        }
      case Tag => e := OnTag(ch);
      case CommandName(isUid) => e := OnCommand(ch, isUid);
      case Arguments(last) => e := OnArguments(ch, last);
      case Quoted(escaped) => e := OnQuoted(ch, escaped);
      case Literal(nonSync) => e := OnLiteral(ch, nonSync);
      case LiteralSeek(size, nonSync) => e := OnSeek(ch, size, nonSync);
      case LiteralData(remaining) => e := OnData(ch, remaining);
    }

    /** Reads up to the first thing to report, or to the end of the bytes if there is none. */
    method Parse(bytes: Bytes, from: nat) returns (e: Option<Event>, next: nat)
      requires from <= |bytes|
      modifies this
      ensures from <= next <= |bytes| && (e.None? ==> next == |bytes|)
      ensures Feed(config, old(Snapshot()), bytes[from..next]) == Outcome(Snapshot(), Listed(e))
    {
      ghost var m := Snapshot();
      e, next := None, from;
      while next < |bytes|
        invariant from <= next <= |bytes| && e.None?
        invariant Feed(config, m, bytes[from..next]) == Outcome(Snapshot(), [])
      {
        ParseStep(config, m, bytes, from, next);
        e := OnByte(bytes[next]);
        next := next + 1;
        if e.Some? {
          return;
        }
      }
    }

    /** A session reads a chunk to its end, taking up after every report. */
    method ParseChunk(bytes: Bytes) returns (events: seq<Event>)
      modifies this
      ensures Feed(config, old(Snapshot()), bytes) == Outcome(Snapshot(), events)
    {
      events := [];
      var next := 0;
      while next < |bytes|
        invariant next <= |bytes|
        invariant Feed(config, old(Snapshot()), bytes[..next]) == Outcome(Snapshot(), events)
      {
        ghost var m, from := Snapshot(), next;
        var e;
        e, next := Parse(bytes, next);
        assert bytes[..next] == bytes[..from] + bytes[from..next];
        FeedConcat(config, old(Snapshot()), bytes[..from], bytes[from..next]);
        events := events + Listed(e);
        ParseAdvances(config, m, bytes[from..next], e, |bytes| - from);
      }
      assert bytes[..next] == bytes;
    }
  }

  /** A report takes at least one byte. */
  lemma ParseAdvances(c: Config, m: Machine, read: Bytes, e: Option<Event>, left: nat)
    requires left > 0 && Feed(c, m, read).events == Listed(e) && (e.None? ==> |read| == left)
    ensures |read| > 0
  {
  }
}
