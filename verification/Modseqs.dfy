/** Modification sequences: the numbers that stand for an account's JMAP states. */
module Modseqs {
  import opened Wrappers
  import opened Sequences
  import opened Decimal
  import opened Keys
  import opened Database

  type State = Bytes

  datatype Modseqs = Modseqs(numbers: map<State, nat>, states: map<nat, State>, highest: nat)

  /** Each state has one number and each number one state; numbers count up from 1. */
  ghost predicate Numbered(m: Modseqs) {
    && (forall s :: s in m.numbers ==> m.numbers[s] in m.states && m.states[m.numbers[s]] == s)
    && (forall n :: n in m.states ==> 0 < n <= m.highest && m.states[n] in m.numbers && m.numbers[m.states[n]] == n)
  }

  /** A state seen before keeps its number. A new one gets the next. */
  function Assign(m: Modseqs, state: State): Modseqs {
    if state in m.numbers then m
    else Modseqs(m.numbers[state := m.highest + 1], m.states[m.highest + 1 := state], m.highest + 1)
  }

  function AssignAll(m: Modseqs, states: seq<State>): Modseqs
    decreases |states|
  {
    if states == [] then m else AssignAll(Assign(m, states[0]), states[1..])
  }

  /** Over any run, numbers keep their states, and a state first seen later has a higher number. */
  lemma {:induction false} NumbersStay(m: Modseqs, states: seq<State>)
    requires Numbered(m)
    ensures Numbered(AssignAll(m, states))
    ensures forall n :: n in m.states ==> n in AssignAll(m, states).states && AssignAll(m, states).states[n] == m.states[n]
    ensures forall s :: s in AssignAll(m, states).numbers && s !in m.numbers ==> m.highest < AssignAll(m, states).numbers[s]
    ensures forall s :: s in AssignAll(m, states).numbers <==> s in m.numbers || s in states
    ensures m.highest <= AssignAll(m, states).highest
    decreases |states|
  {
    if states != [] {
      var first := states[0];
      assert Numbered(Assign(m, first));
      NumbersStay(Assign(m, first), states[1..]);
      assert forall s :: s in states <==> s == first || s in states[1..];
    }
  }

  /** Every number from 1 up to the highest stands for a state. */
  ghost predicate NoGaps(m: Modseqs) {
    forall n :: 0 < n <= m.highest ==> n in m.states
  }

  lemma {:induction false} GapsNeverArise(m: Modseqs, states: seq<State>)
    requires NoGaps(m)
    ensures NoGaps(AssignAll(m, states))
    decreases |states|
  {
    if states != [] {
      GapsNeverArise(Assign(m, states[0]), states[1..]);
    }
  }

  // ----- On the database -----

  function Highest(t: Table, account: Bytes): nat {
    if HighestModseq(account) in t && t[HighestModseq(account)].Num? then t[HighestModseq(account)].n else 0
  }

  ghost predicate ShowsModseqs(t: Table, account: Bytes, m: Modseqs) {
    && (forall s :: StateToModseq(account, s) in t <==> s in m.numbers)
    && (forall s :: s in m.numbers ==> t[StateToModseq(account, s)] == Num(m.numbers[s]))
    && (forall n :: ModseqToState(account, n) in t <==> n in m.states)
    && (forall n :: n in m.states ==> t[ModseqToState(account, n)] == Name(m.states[n]))
    && Highest(t, account) == m.highest
  }

  function Assigned(t: Table, account: Bytes, state: State, n: nat): Table {
    t[HighestModseq(account) := Num(n)][StateToModseq(account, state) := Num(n)][ModseqToState(account, n) := Name(state)]
  }

  lemma AssignShows(t: Table, t': Table, account: Bytes, state: State, n: nat, m: Modseqs)
    requires ShowsModseqs(t, account, m) && state !in m.numbers
    requires n == Highest(t, account) + 1 && t' == Assigned(t, account, state, n)
    ensures ShowsModseqs(t', account, Assign(m, state)) && n == Assign(m, state).numbers[state]
  {
  }

  method LookUpState(db: Db, account: Bytes, state: State) returns (n: Option<nat>)
    requires db.Valid() && IsId(account) && IsId(state)
    ensures n.None? <==> StateToModseq(account, state) !in db.table
    ensures n.Some? ==> db.table[StateToModseq(account, state)] == Num(n.value)
  {
    var value := db.Get(StateToModseq(account, state));
    if value.None? {
      return None;
    }
    BigEndianRoundTrip(db.table[StateToModseq(account, state)].n);
    return Some(FromBigEndian(value.value));
  }

  /** One more than the highest number. */
  method NextModseq(db: Db, account: Bytes) returns (n: nat)
    requires db.Valid() && IsId(account)
    ensures n == Highest(db.table, account) + 1
  {
    var value := db.Get(HighestModseq(account));
    if value.None? {
      return 1;
    }
    BigEndianRoundTrip(db.table[HighestModseq(account)].n);
    return FromBigEndian(value.value) + 1;
  }

  /** The number of a state. Only a new state changes the table, by its three facts. */
  method GetModseq(db: Db, account: Bytes, state: State, ghost m: Modseqs) returns (n: nat)
    requires db.Valid() && IsId(account) && IsId(state) && ShowsModseqs(db.table, account, m)
    requires m.highest + 1 < 0x100_0000
    modifies db
    ensures db.Valid() && ShowsModseqs(db.table, account, Assign(m, state))
    ensures n == Assign(m, state).numbers[state]
    ensures db.table == if state in m.numbers then old(db.table) else Assigned(old(db.table), account, state, n)
  {
    var known := LookUpState(db, account, state);
    if known.Some? {
      return known.value;
    }
    n := NextModseq(db, account);
    db.Insert(HighestModseq(account), Num(n));
    db.Insert(StateToModseq(account, state), Num(n));
    db.Insert(ModseqToState(account, n), Name(state));
    AssignShows(old(db.table), db.table, account, state, n, m);
  }

  /** The UID of All Mail whose key is also the key of this modseq. */
  function Clash(account: Bytes, n: nat): Key {
    UidToJmap(MailboxId(account, None), (if n < 0x100_0000 then 0 else n - 0x100_0000) * 0x100 + 4)
  }

  lemma ModseqBytes(account: Bytes, n: nat)
    requires IsId(account) && n <= MAX_U32
    ensures n < 0x100_0000 ==> SerializeModseq(account, BigEndian(n), MODSEQ_TO_STATE) == Encode(ModseqToState(account, n))
    ensures 0x100_0000 <= n < 0x200_0000 ==>
      Clash(account, n).Valid() && SerializeModseq(account, BigEndian(n), MODSEQ_TO_STATE) == Encode(Clash(account, n))
  {
    if 0x100_0000 <= n < 0x200_0000 {
      var b, c := BigEndian(n), BigEndian(Clash(account, n).uid);
      ClashBytes(n);
      assert b + [MODSEQ_TO_STATE] == [UID_TO_JMAP] + c;
      EmptyRight(account + [0]);
      Associative(account + [0], b, [MODSEQ_TO_STATE]);
      Associative(account + [0], [UID_TO_JMAP], c);
    }
  }

  lemma ClashBytes(n: nat)
    requires 0x100_0000 <= n < 0x200_0000
    ensures (n - 0x100_0000) * 0x100 + 4 <= MAX_U32
    ensures BigEndian((n - 0x100_0000) * 0x100 + 4) == BigEndian(n)[1..] + [4]
    ensures BigEndian(n)[0] == 1
  {
    var m := n - 0x100_0000;
    var c := m * 0x100 + 4;
    assert c / 0x100 == m && c % 0x100 == 4;
    assert c / 0x1_0000 == m / 0x100 && c / 0x100_0000 == m / 0x1_0000;
    assert m / 0x1_0000 == n / 0x1_0000 - 0x100 && m / 0x100 == n / 0x100 - 0x1_0000;
    assert n / 0x1_0000 % 0x100 == m / 0x1_0000;
  }

  /** From 2^25 on, a modseq's key is no fact's key. */
  lemma NoFactHere(account: Bytes, n: nat, k: Key)
    requires IsId(account) && 0x200_0000 <= n <= MAX_U32 && k.Valid()
    ensures Encode(k) != SerializeModseq(account, BigEndian(n), MODSEQ_TO_STATE)
  {
    var p, b := PartsOf(k), BigEndian(n);
    EncodeIsJoin(k);
    Associative(account + [0], b, [MODSEQ_TO_STATE]);
    NoFactAfter(b, k);
    if Encode(k) == SerializeModseq(account, b, MODSEQ_TO_STATE) {
      Cut(p.account, 0, p.name + [p.separator] + p.rest, account, 0, b + [MODSEQ_TO_STATE]);
    }
  }

  lemma NoFactAfter(b: Bytes, k: Key)
    requires k.Valid() && |b| == 4 && b[0] > 1
    ensures PartsOf(k).name + [PartsOf(k).separator] + PartsOf(k).rest != b + [MODSEQ_TO_STATE]
  {
    var p := PartsOf(k);
    var bytes := p.name + [p.separator] + p.rest;
    if |bytes| == 5 {
      assert bytes[|p.name|] == p.separator;
      assert p.rest != [] ==> bytes[4] == p.rest[|p.rest| - 1];
      assert p.name == [] ==> bytes[0] == p.separator;
    }
  }

  /** What reading the state of a number finds, for a table that shows `m`. */
  function Read(t: Table, account: Bytes, n: nat): Option<Bytes> {
    var k := if n < 0x100_0000 then ModseqToState(account, n) else Clash(account, n);
    if n < 0x200_0000 && k in t && t[k].Name? then Some(t[k].id) else None
  }

  /** The state of a number that a client has sent. */
  method GetState(db: Db, account: Bytes, n: nat) returns (state: Option<Bytes>)
    requires db.Valid() && IsId(account) && n <= MAX_U32
    ensures state == Read(db.table, account, n)
  {
    var key := SerializeModseq(account, BigEndian(n), MODSEQ_TO_STATE);
    state := db.Find(key);
    ModseqBytes(account, n);
    if n < 0x100_0000 {
      EntryIff(db.entries, db.table, ModseqToState(account, n));
    } else if n < 0x200_0000 {
      EntryIff(db.entries, db.table, Clash(account, n));
    } else if key in db.entries {
      ghost var k := FactOf(db.entries, db.table, key);
      NoFactHere(account, n, k);
      assert false;
    }
  }

  /** The message of All Mail with UID 4 is read back as the state of the modseq 2^24. */
  lemma MessageReadAsState(t: Table, account: Bytes, id: Bytes)
    requires IsId(account) && UidToJmap(MailboxId(account, None), 4) in t && t[UidToJmap(MailboxId(account, None), 4)] == Name(id)
    ensures Read(t, account, 0x100_0000) == Some(id)
    ensures SerializeModseq(account, BigEndian(0x100_0000), MODSEQ_TO_STATE) == Encode(UidToJmap(MailboxId(account, None), 4))
  {
    ModseqBytes(account, 0x100_0000);
  }

  /** A number is answered with its own state, or none if it has none. The exception is a number of
      25 bits whose key is taken by a message of All Mail, which is answered with that message's id. */
  lemma ReadIsRightIff(t: Table, account: Bytes, n: nat, m: Modseqs)
    requires forall k :: k in t ==> k.Valid() && Fits(k, t[k])
    requires ShowsModseqs(t, account, m) && Numbered(m) && m.highest < 0x100_0000 && n <= MAX_U32
    ensures Read(t, account, n) == (if n in m.states then Some(m.states[n]) else None)
       <==> !(0x100_0000 <= n < 0x200_0000 && Clash(account, n) in t)
  {
  }
}
