/** IMAP search filters: the criteria of a SEARCH command after parsing. */
module SearchFilter {
  import opened Decimal
  import opened SequenceSet

  datatype Operator = And | Or | Not

  datatype Flag = Answered | Deleted | Draft | Flagged | Seen | Recent | Custom(name: string)

  /** The search keys without sub-keys. Dates are seconds since the epoch. */
  datatype Key =
    | All
    | SequenceKey(sequence: Sequence, isUid: bool)
    | From(text: string)
    | To(text: string)
    | Cc(text: string)
    | Bcc(text: string)
    | Body(text: string)
    | Subject(text: string)
    | Text(text: string)
    | Header(header: string, value: string)
    | On(date: int)
    | Since(date: int)
    | Before(date: int)
    | SentOn(date: int)
    | SentSince(date: int)
    | SentBefore(date: int)
    | Older(interval: nat)
    | Younger(interval: nat)
    | Larger(size: nat)
    | Smaller(size: nat)
    | Keyword(flag: Flag)
    | Unkeyword(flag: Flag)
    | New
    | Old
    | ModSeq(modseq: nat)
    | EmailId(id: seq<Byte>)
    | ThreadId(thread: string)

  datatype Filter = Leaf(key: Key) | Operator(operator: Operator, filters: seq<Filter>)

  /** Does a filter hold when the keys in `v` do? NOT is none-of (section 5.5 of RFC 8620). */
  ghost predicate Holds(f: Filter, v: iset<Key>)
    decreases f, 1
  {
    match f
    case Leaf(key) => key in v
    case Operator(And, filters) => AllHold(filters, v)
    case Operator(Or, filters) => SomeHold(filters, v)
    case Operator(Not, filters) => !SomeHold(filters, v)
  }

  ghost predicate AllHold(filters: seq<Filter>, v: iset<Key>)
    decreases filters, 0
  {
    filters == [] || (Holds(filters[0], v) && AllHold(filters[1..], v))
  }

  ghost predicate SomeHold(filters: seq<Filter>, v: iset<Key>)
    decreases filters, 0
  {
    filters != [] && (Holds(filters[0], v) || SomeHold(filters[1..], v))
  }

  lemma {:induction false} HoldConcat(a: seq<Filter>, b: seq<Filter>, v: iset<Key>)
    ensures AllHold(a + b, v) <==> AllHold(a, v) && AllHold(b, v)
    ensures SomeHold(a + b, v) <==> SomeHold(a, v) || SomeHold(b, v)
  {
    if a == [] {
      assert a + b == b;
    } else {
      assert (a + b)[1..] == a[1..] + b;
      HoldConcat(a[1..], b, v);
    }
  }

  lemma HoldOne(f: Filter, v: iset<Key>)
    ensures AllHold([f], v) <==> Holds(f, v)
    ensures SomeHold([f], v) <==> Holds(f, v)
  {
  }
}
