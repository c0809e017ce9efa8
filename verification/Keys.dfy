/** The flat key space of the database: which bytes stand for which fact. */
module Keys {
  import opened Wrappers
  import opened Sequences
  import opened Decimal

  type Bytes = seq<Byte>

  const JMAP_TO_UID: Byte := 0
  const UID_TO_JMAP: Byte := 1
  const UID_NEXT: Byte := 2
  const UID_VALIDITY: Byte := 3
  const MODSEQ_TO_STATE: Byte := 4
  const STATE_TO_MODSEQ: Byte := 5
  const HIGHEST_MODSEQ: Byte := 6
  const JMAP_DELETED_IDS: Byte := 7

  /** The characters of an id (section 1.2 of RFC 8620). */
  predicate IsIdByte(b: Byte) {
    b == 45 || 48 <= b <= 57 || 65 <= b <= 90 || b == 95 || 97 <= b <= 122
  }

  predicate IsId(id: Bytes) {
    |id| > 0 && forall i :: 0 <= i < |id| ==> IsIdByte(id[i])
  }

  datatype MailboxId = MailboxId(account: Bytes, mailbox: Option<Bytes>) {
    predicate Valid() {
      IsId(account) && (mailbox.Some? ==> IsId(mailbox.value))
    }

    function Name(): Bytes {
      if mailbox.Some? then mailbox.value else []
    }
  }

  datatype Key =
    | JmapToUid(mailbox: MailboxId, id: Bytes)
    | UidToJmap(mailbox: MailboxId, uid: nat)
    | UidNext(mailbox: MailboxId)
    | UidValidity(mailbox: MailboxId)
    | DeletedId(mailbox: MailboxId, id: Bytes)
    | ModseqToState(account: Bytes, modseq: nat)
    | StateToModseq(account: Bytes, state: Bytes)
    | HighestModseq(account: Bytes)
  {
    /** Ids of id characters, UIDs of 32 bits, modseqs of 24 bits. */
    predicate Valid() {
      match this
      case JmapToUid(mailbox, id) => mailbox.Valid() && IsId(id)
      case UidToJmap(mailbox, uid) => mailbox.Valid() && uid <= MAX_U32
      case UidNext(mailbox) => mailbox.Valid()
      case UidValidity(mailbox) => mailbox.Valid()
      case DeletedId(mailbox, id) => mailbox.Valid() && IsId(id)
      case ModseqToState(account, modseq) => IsId(account) && modseq < 0x100_0000
      case StateToModseq(account, state) => IsId(account) && IsId(state)
      case HighestModseq(account) => IsId(account)
    }

    predicate OfMailbox() {
      JmapToUid? || UidToJmap? || UidNext? || UidValidity? || DeletedId?
    }
  }

  /** `to_be_bytes` of a 32-bit number. */
  function BigEndian(n: nat): (bytes: Bytes)
    requires n <= MAX_U32
    ensures |bytes| == 4
  {
    [n / 0x100_0000, n / 0x1_0000 % 0x100, n / 0x100 % 0x100, n % 0x100]
  }

  function FromBigEndian(bytes: Bytes): (n: nat)
    requires |bytes| == 4
  {
    var a: int, b: int, c: int, d: int := bytes[0], bytes[1], bytes[2], bytes[3];
    a * 0x100_0000 + b * 0x1_0000 + c * 0x100 + d
  }

  lemma BigEndianRoundTrip(n: nat)
    requires n <= MAX_U32
    ensures FromBigEndian(BigEndian(n)) == n
  {
    assert n == n / 0x100 * 0x100 + n % 0x100;
    assert n / 0x100 == n / 0x1_0000 * 0x100 + n / 0x100 % 0x100;
    assert n / 0x1_0000 == n / 0x100_0000 * 0x100 + n / 0x1_0000 % 0x100;
  }

  // ----- The serializers -----

  function SerializeKey(mailbox: MailboxId, separator: Byte, value: Bytes): Bytes {
    mailbox.account + [0] + mailbox.Name() + [separator] + value
  }

  function SerializeKeyPrefix(mailbox: MailboxId, separator: Byte): Bytes {
    mailbox.account + [0] + mailbox.Name() + [separator]
  }

  function SerializeAccountPrefix(account: Bytes): Bytes {
    account + [0]
  }

  function SerializeModseq(account: Bytes, value: Bytes, separator: Byte): Bytes {
    account + [0] + value + [separator]
  }

  function Encode(k: Key): Bytes
    requires k.Valid()
  {
    match k
    case JmapToUid(mailbox, id) => SerializeKey(mailbox, JMAP_TO_UID, id)
    case UidToJmap(mailbox, uid) => SerializeKey(mailbox, UID_TO_JMAP, BigEndian(uid))
    case UidNext(mailbox) => SerializeKeyPrefix(mailbox, UID_NEXT)
    case UidValidity(mailbox) => SerializeKeyPrefix(mailbox, UID_VALIDITY)
    case DeletedId(mailbox, id) => SerializeKey(mailbox, JMAP_DELETED_IDS, id)
    case ModseqToState(account, modseq) => SerializeModseq(account, BigEndian(modseq), MODSEQ_TO_STATE)
    case StateToModseq(account, state) => SerializeModseq(account, state, STATE_TO_MODSEQ)
    case HighestModseq(account) => account + [0] + [HIGHEST_MODSEQ]
  }

  /** The bytes of each key, after `account + [0]`; a key of a mailbox goes on with the mailbox's id. */
  lemma Layout(k: Key)
    requires k.Valid()
    ensures match k
            case JmapToUid(mb, id) => Encode(k) == mb.account + [0] + mb.Name() + [0] + id
            case UidToJmap(mb, uid) => Encode(k) == mb.account + [0] + mb.Name() + [1] + BigEndian(uid)
            case UidNext(mb) => Encode(k) == mb.account + [0] + mb.Name() + [2]
            case UidValidity(mb) => Encode(k) == mb.account + [0] + mb.Name() + [3]
            case ModseqToState(account, modseq) => Encode(k) == account + [0] + BigEndian(modseq) + [4]
            case StateToModseq(account, state) => Encode(k) == account + [0] + state + [5]
            case HighestModseq(account) => Encode(k) == account + [0, 6]
            case DeletedId(mb, id) => Encode(k) == mb.account + [0] + mb.Name() + [7] + id
  {
    if k.HighestModseq? {
      assert k.account + [0] + [HIGHEST_MODSEQ] == k.account + [0, 6];
    }
  }

  // ----- The encoding is exact -----

  /** A key as account, the id characters after it, the first byte that is none, and the rest. */
  datatype Parts = Parts(account: Bytes, name: Bytes, separator: Byte, rest: Bytes)

  function Join(p: Parts): Bytes {
    p.account + [0] + (p.name + [p.separator] + p.rest)
  }

  predicate NoSeparator(bytes: Bytes) {
    forall i :: 0 <= i < |bytes| ==> bytes[i] > 7
  }

  function PartsOf(k: Key): (p: Parts)
    requires k.Valid()
    ensures NoSeparator(p.account) && NoSeparator(p.name) && p.separator <= 7
  {
    match k
    case JmapToUid(mailbox, id) => Parts(mailbox.account, mailbox.Name(), JMAP_TO_UID, id)
    case UidToJmap(mailbox, uid) => Parts(mailbox.account, mailbox.Name(), UID_TO_JMAP, BigEndian(uid))
    case UidNext(mailbox) => Parts(mailbox.account, mailbox.Name(), UID_NEXT, [])
    case UidValidity(mailbox) => Parts(mailbox.account, mailbox.Name(), UID_VALIDITY, [])
    case DeletedId(mailbox, id) => Parts(mailbox.account, mailbox.Name(), JMAP_DELETED_IDS, id)
    case ModseqToState(account, modseq) => Parts(account, [], 0, BigEndian(modseq)[1..] + [MODSEQ_TO_STATE])
    case StateToModseq(account, state) => Parts(account, state, STATE_TO_MODSEQ, [])
    case HighestModseq(account) => Parts(account, [], HIGHEST_MODSEQ, [])
  }

  lemma EncodeIsJoin(k: Key)
    requires k.Valid()
    ensures Encode(k) == Join(PartsOf(k))
  {
    var p := PartsOf(k);
    match k
    case ModseqToState(account, modseq) =>
      assert BigEndian(modseq)[0] == 0;
      assert BigEndian(modseq) + [MODSEQ_TO_STATE] == [] + [0] + (BigEndian(modseq)[1..] + [MODSEQ_TO_STATE]);
      Associative(account + [0], BigEndian(modseq), [MODSEQ_TO_STATE]);
    case _ =>
      Associative(p.account + [0] + p.name, [p.separator], p.rest);
      Associative(p.account + [0], p.name, [p.separator] + p.rest);
      Associative(p.name, [p.separator], p.rest);
      EmptyRight(p.name + [p.separator]);
      Associative(p.account + [0], p.name, [p.separator]);
  }

  /** The first separator splits a byte string in one way only. */
  lemma Cut(a: Bytes, s: Byte, r: Bytes, b: Bytes, t: Byte, q: Bytes)
    requires NoSeparator(a) && NoSeparator(b) && s <= 7 && t <= 7
    requires a + [s] + r == b + [t] + q
    ensures a == b && s == t && r == q
  {
    var x, y := a + [s] + r, b + [t] + q;
    assert forall i :: 0 <= i < |a| ==> x[i] > 7;
    assert forall i :: 0 <= i < |b| ==> y[i] > 7;
    assert x[|a|] == s && y[|b|] == t;
    assert a == x[..|a|] && b == y[..|b|];
    assert r == x[|a| + 1..] && q == y[|b| + 1..];
  }

  lemma JoinInjective(p: Parts, q: Parts)
    requires NoSeparator(p.account) && NoSeparator(p.name) && p.separator <= 7
    requires NoSeparator(q.account) && NoSeparator(q.name) && q.separator <= 7
    requires Join(p) == Join(q)
    ensures p == q
  {
    Cut(p.account, 0, p.name + [p.separator] + p.rest, q.account, 0, q.name + [q.separator] + q.rest);
    Cut(p.name, p.separator, p.rest, q.name, q.separator, q.rest);
  }

  lemma NameInjective(m: MailboxId, n: MailboxId)
    requires m.Valid() && n.Valid() && m.account == n.account && m.Name() == n.Name()
    ensures m == n
  {
  }

  lemma BigEndianInjective(m: nat, n: nat)
    requires m <= MAX_U32 && n <= MAX_U32 && BigEndian(m) == BigEndian(n)
    ensures m == n
  {
    BigEndianRoundTrip(m);
    BigEndianRoundTrip(n);
  }

  /** The separator after a modseq is no id character. */
  lemma ModseqRest(k: Key)
    requires k.Valid() && k.ModseqToState?
    ensures |PartsOf(k).rest| == 4 && PartsOf(k).rest[3] == MODSEQ_TO_STATE
  {
  }

  lemma PartsInjective(k: Key, l: Key)
    requires k.Valid() && l.Valid() && PartsOf(k) == PartsOf(l)
    ensures k == l
  {
    if k.OfMailbox() && l.OfMailbox() {
      NameInjective(k.mailbox, l.mailbox);
      if k.UidToJmap? {
        BigEndianInjective(k.uid, l.uid);
      }
    } else if k.ModseqToState? && l.ModseqToState? {
      assert PartsOf(k).rest[..3] == BigEndian(k.modseq)[1..] && PartsOf(l).rest[..3] == BigEndian(l.modseq)[1..];
      assert BigEndian(k.modseq) == [0] + BigEndian(k.modseq)[1..];
      assert BigEndian(l.modseq) == [0] + BigEndian(l.modseq)[1..];
      BigEndianInjective(k.modseq, l.modseq);
    } else if k.ModseqToState? {
      ModseqRest(k);
    } else if l.ModseqToState? {
      ModseqRest(l);
    }
  }

  /** Distinct facts have distinct keys, even when one mailbox id is a prefix of another. */
  lemma EncodeInjective(k: Key, l: Key)
    requires k.Valid() && l.Valid() && Encode(k) == Encode(l)
    ensures k == l
  {
    EncodeIsJoin(k);
    EncodeIsJoin(l);
    JoinInjective(PartsOf(k), PartsOf(l));
    PartsInjective(k, l);
  }

  predicate HasPrefix(bytes: Bytes, prefix: Bytes) {
    |prefix| <= |bytes| && bytes[..|prefix|] == prefix
  }

  lemma PrefixSplits(bytes: Bytes, prefix: Bytes)
    requires HasPrefix(bytes, prefix)
    ensures bytes == prefix + bytes[|prefix|..]
  {
  }

  lemma PrefixParts(mailbox: MailboxId, separator: Byte, k: Key)
    requires mailbox.Valid() && k.Valid() && separator <= 7
    ensures HasPrefix(Encode(k), SerializeKeyPrefix(mailbox, separator))
       <==> PartsOf(k).account == mailbox.account && PartsOf(k).name == mailbox.Name() && PartsOf(k).separator == separator
  {
    var prefix, p := SerializeKeyPrefix(mailbox, separator), PartsOf(k);
    EncodeIsJoin(k);
    if HasPrefix(Encode(k), prefix) {
      var rest := Encode(k)[|prefix|..];
      PrefixSplits(Encode(k), prefix);
      Associative(mailbox.account + [0] + mailbox.Name(), [separator], rest);
      Associative(mailbox.account + [0], mailbox.Name(), [separator] + rest);
      Associative(mailbox.Name(), [separator], rest);
      JoinInjective(p, Parts(mailbox.account, mailbox.Name(), separator, rest));
    } else if p.account == mailbox.account && p.name == mailbox.Name() && p.separator == separator {
      Associative(p.account + [0], p.name + [p.separator], p.rest);
      Associative(p.account + [0], p.name, [p.separator]);
    }
  }

  /** The separator after the mailbox id. */
  function MailboxSeparator(k: Key): Byte
    requires k.OfMailbox()
  {
    match k
    case JmapToUid(_, _) => JMAP_TO_UID
    case UidToJmap(_, _) => UID_TO_JMAP
    case UidNext(_) => UID_NEXT
    case UidValidity(_) => UID_VALIDITY
    case DeletedId(_, _) => JMAP_DELETED_IDS
  }

  /** Keys of the account that can pass for keys of a mailbox: a modseq below 2^24 starts with the zero
      byte that separates JMAP_TO_UID, a state stands where the mailbox id does, and the highest modseq
      has nothing there. */
  predicate PassesFor(k: Key, mailbox: MailboxId, separator: Byte) {
    match k
    case ModseqToState(account, _) => account == mailbox.account && mailbox.mailbox.None? && separator == JMAP_TO_UID
    case StateToModseq(account, state) => account == mailbox.account && mailbox.mailbox == Some(state) && separator == STATE_TO_MODSEQ
    case HighestModseq(account) => account == mailbox.account && mailbox.mailbox.None? && separator == HIGHEST_MODSEQ
    case _ => false
  }

  /** The prefix of a mailbox and a separator finds that mailbox's facts of that kind, and besides
      them exactly the keys that pass for such facts. */
  lemma PrefixExact(mailbox: MailboxId, separator: Byte, k: Key)
    requires mailbox.Valid() && k.Valid() && separator <= 7
    ensures HasPrefix(Encode(k), SerializeKeyPrefix(mailbox, separator))
       <==> (k.OfMailbox() && k.mailbox == mailbox && MailboxSeparator(k) == separator) || PassesFor(k, mailbox, separator)
  {
    PrefixParts(mailbox, separator, k);
    if k.OfMailbox() && PartsOf(k).account == mailbox.account && PartsOf(k).name == mailbox.Name() {
      NameInjective(k.mailbox, mailbox);
    }
  }

  /** Every modseq below 2^24 starts like the ids of All Mail. */
  lemma ModseqUnderIdPrefix(account: Bytes, modseq: nat)
    requires IsId(account) && modseq < 0x100_0000
    ensures HasPrefix(Encode(ModseqToState(account, modseq)), SerializeKeyPrefix(MailboxId(account, None), JMAP_TO_UID))
  {
    PrefixExact(MailboxId(account, None), JMAP_TO_UID, ModseqToState(account, modseq));
  }

  lemma UidPrefixExact(mailbox: MailboxId, k: Key)
    requires mailbox.Valid() && k.Valid()
    ensures HasPrefix(Encode(k), SerializeKeyPrefix(mailbox, UID_TO_JMAP)) <==> k.UidToJmap? && k.mailbox == mailbox
  {
    PrefixExact(mailbox, UID_TO_JMAP, k);
  }

  /** From 2^24 to 2^25 a modseq key does fall under the UID prefix of the account's All Mail. */
  lemma ModseqUnderUidPrefixIff(account: Bytes, modseq: nat)
    requires IsId(account) && modseq <= MAX_U32
    ensures HasPrefix(SerializeModseq(account, BigEndian(modseq), MODSEQ_TO_STATE),
                      SerializeKeyPrefix(MailboxId(account, None), UID_TO_JMAP))
       <==> 0x100_0000 <= modseq < 0x200_0000
  {
    var key := SerializeModseq(account, BigEndian(modseq), MODSEQ_TO_STATE);
    var prefix := SerializeKeyPrefix(MailboxId(account, None), UID_TO_JMAP);
    EmptyRight(account + [0]);
    assert key[..|account| + 1] == account + [0];
    assert key[|account| + 1] == BigEndian(modseq)[0];
    assert key[..|prefix|] == account + [0] + [BigEndian(modseq)[0]];
    assert prefix[|account| + 1] == UID_TO_JMAP;
  }

  // ----- Byte order is numeric order -----

  predicate Before(a: Bytes, b: Bytes) {
    b != [] && (a == [] || a[0] < b[0] || (a[0] == b[0] && Before(a[1..], b[1..])))
  }

  lemma {:induction false} BeforePrefix(p: Bytes, a: Bytes, b: Bytes)
    ensures Before(p + a, p + b) <==> Before(a, b)
  {
    if p == [] {
      EmptyLeft(a);
      EmptyLeft(b);
    } else {
      assert (p + a)[1..] == p[1..] + a && (p + b)[1..] == p[1..] + b;
      BeforePrefix(p[1..], a, b);
    }
  }

  lemma BigEndianOrder(m: nat, n: nat)
    requires m <= MAX_U32 && n <= MAX_U32
    ensures Before(BigEndian(m), BigEndian(n)) <==> m < n
  {
    var a, b := BigEndian(m), BigEndian(n);
    assert a[1..][1..] == a[2..] && b[1..][1..] == b[2..];
    assert a[2..][1..] == a[3..] && b[2..][1..] == b[3..];
    assert a[3..][1..] == [] && b[3..][1..] == [];
    assert Before(a[3..], b[3..]) <==> a[3] < b[3];
    assert Before(a[2..], b[2..]) <==> a[2] < b[2] || (a[2] == b[2] && a[3] < b[3]);
    assert Before(a[1..], b[1..]) <==> a[1] < b[1] || (a[1] == b[1] && (a[2] < b[2] || (a[2] == b[2] && a[3] < b[3])));
    BigEndianRoundTrip(m);
    BigEndianRoundTrip(n);
  }

  /** A mailbox's UID keys are ordered as its UIDs. */
  lemma UidKeyOrder(mailbox: MailboxId, m: nat, n: nat)
    requires mailbox.Valid() && m <= MAX_U32 && n <= MAX_U32
    ensures Before(Encode(UidToJmap(mailbox, m)), Encode(UidToJmap(mailbox, n))) <==> m < n
  {
    BeforePrefix(SerializeKeyPrefix(mailbox, UID_TO_JMAP), BigEndian(m), BigEndian(n));
    BigEndianOrder(m, n);
  }
}
