/** UID assignment on the database: every operation acts on the flat key space and is specified by
    what it does to the abstract index of its mailbox. */
module UidStore {
  import opened Wrappers
  import opened Sequences
  import opened Decimal
  import opened Keys
  import opened Database
  import opened UidIndex

  ghost predicate TypedTable(t: Table) {
    forall k :: k in t ==> k.Valid() && Fits(k, t[k])
  }

  function Counter(t: Table, mailbox: MailboxId): nat {
    if UidNext(mailbox) in t && t[UidNext(mailbox)].Num? then t[UidNext(mailbox)].n else 0
  }

  /** The facts about a mailbox are exactly those of the abstract index `b`. */
  ghost predicate Shows(t: Table, mailbox: MailboxId, b: Index) {
    && TypedTable(t)
    && (forall id :: JmapToUid(mailbox, id) in t <==> id in b.uids)
    && (forall id :: id in b.uids ==> t[JmapToUid(mailbox, id)] == Num(b.uids[id]))
    && (forall uid :: UidToJmap(mailbox, uid) in t <==> uid in b.names)
    && (forall uid :: uid in b.names ==> t[UidToJmap(mailbox, uid)] == Name(b.names[uid]))
    && (forall id :: DeletedId(mailbox, id) in t <==> id in b.deleted)
    && (forall id :: id in b.deleted ==> t[DeletedId(mailbox, id)] == Stamp(b.deleted[id].0, b.deleted[id].1))
    && Counter(t, mailbox) == b.last
  }

  predicate Elsewhere(k: Key, mailbox: MailboxId) {
    !k.OfMailbox() || k.mailbox != mailbox || k.UidValidity?
  }

  /** Other mailboxes' facts, the modseqs, and this mailbox's UIDVALIDITY are untouched. */
  ghost predicate SameElsewhere(t: Table, t': Table, mailbox: MailboxId) {
    forall k :: Elsewhere(k, mailbox) ==> (k in t <==> k in t') && (k in t ==> t[k] == t'[k])
  }

  /** Every table shows an index of every mailbox. */
  ghost function IndexOf(t: Table, mailbox: MailboxId): Index
    requires TypedTable(t)
  {
    Index(
      map k | k in t && k.JmapToUid? && k.mailbox == mailbox :: k.id := t[k].n,
      map k | k in t && k.UidToJmap? && k.mailbox == mailbox :: k.uid := t[k].id,
      Counter(t, mailbox),
      map k | k in t && k.DeletedId? && k.mailbox == mailbox :: k.id := (t[k].uid, t[k].time))
  }

  lemma ShowsIndexOf(t: Table, mailbox: MailboxId)
    requires TypedTable(t)
    ensures Shows(t, mailbox, IndexOf(t, mailbox))
  {
  }

  /** Another mailbox goes on showing its index. */
  lemma ShowsElsewhere(t: Table, t': Table, mailbox: MailboxId, other: MailboxId, b: Index)
    requires SameElsewhere(t, t', mailbox) && TypedTable(t') && other != mailbox && Shows(t, other, b)
    ensures Shows(t', other, b)
  {
    assert forall id :: Elsewhere(JmapToUid(other, id), mailbox) && Elsewhere(DeletedId(other, id), mailbox);
    assert forall uid :: Elsewhere(UidToJmap(other, uid), mailbox);
    assert Elsewhere(UidNext(other), mailbox);
  }

  // ----- Single facts -----

  lemma PutLast(t: Table, mailbox: MailboxId, n: nat, b: Index)
    requires mailbox.Valid() && n <= MAX_U32 && Shows(t, mailbox, b)
    ensures Shows(t[UidNext(mailbox) := Num(n)], mailbox, b.(last := n))
    ensures SameElsewhere(t, t[UidNext(mailbox) := Num(n)], mailbox)
  {
  }

  lemma PutUid(t: Table, mailbox: MailboxId, id: Id, uid: nat, b: Index)
    requires mailbox.Valid() && IsId(id) && uid <= MAX_U32 && Shows(t, mailbox, b)
    ensures Shows(t[JmapToUid(mailbox, id) := Num(uid)], mailbox, b.(uids := b.uids[id := uid]))
    ensures SameElsewhere(t, t[JmapToUid(mailbox, id) := Num(uid)], mailbox)
  {
  }

  lemma PutName(t: Table, mailbox: MailboxId, uid: nat, id: Id, b: Index)
    requires mailbox.Valid() && IsId(id) && uid <= MAX_U32 && Shows(t, mailbox, b)
    ensures Shows(t[UidToJmap(mailbox, uid) := Name(id)], mailbox, b.(names := b.names[uid := id]))
    ensures SameElsewhere(t, t[UidToJmap(mailbox, uid) := Name(id)], mailbox)
  {
  }

  lemma PutDeleted(t: Table, mailbox: MailboxId, id: Id, uid: nat, now: nat, b: Index)
    requires mailbox.Valid() && IsId(id) && Stamp(uid, now).Valid() && Shows(t, mailbox, b)
    ensures Shows(t[DeletedId(mailbox, id) := Stamp(uid, now)], mailbox, b.(deleted := b.deleted[id := (uid, now)]))
    ensures SameElsewhere(t, t[DeletedId(mailbox, id) := Stamp(uid, now)], mailbox)
  {
  }

  lemma RemoveUid(t: Table, mailbox: MailboxId, id: Id, b: Index)
    requires Shows(t, mailbox, b)
    ensures Shows(t - {JmapToUid(mailbox, id)}, mailbox, b.(uids := b.uids - {id}))
    ensures SameElsewhere(t, t - {JmapToUid(mailbox, id)}, mailbox)
  {
  }

  lemma RemoveName(t: Table, mailbox: MailboxId, uid: nat, b: Index)
    requires Shows(t, mailbox, b)
    ensures Shows(t - {UidToJmap(mailbox, uid)}, mailbox, b.(names := b.names - {uid}))
    ensures SameElsewhere(t, t - {UidToJmap(mailbox, uid)}, mailbox)
  {
  }

  lemma SameElsewhereTransitive(t: Table, t': Table, t'': Table, mailbox: MailboxId)
    requires SameElsewhere(t, t', mailbox) && SameElsewhere(t', t'', mailbox)
    ensures SameElsewhere(t, t'', mailbox)
  {
  }

  // ----- Handing out a UID -----

  /** The last UID handed out. */
  method LastUid(db: Db, mailbox: MailboxId) returns (last: nat)
    requires db.Valid() && mailbox.Valid()
    ensures last == Counter(db.table, mailbox)
  {
    var value := db.Get(UidNext(mailbox));
    if value.None? {
      return 0;
    }
    BigEndianRoundTrip(db.table[UidNext(mailbox)].n);
    return FromBigEndian(value.value);
  }

  function Inserted(t: Table, mailbox: MailboxId, id: Id, uid: nat): Table {
    t[UidNext(mailbox) := Num(uid)][JmapToUid(mailbox, id) := Num(uid)][UidToJmap(mailbox, uid) := Name(id)]
  }

  lemma InsertUidShows(t: Table, mailbox: MailboxId, id: Id, uid: nat, b: Index)
    requires mailbox.Valid() && IsId(id) && Shows(t, mailbox, b) && uid <= MAX_U32
    ensures var t' := t[UidNext(mailbox) := Num(uid)][JmapToUid(mailbox, id) := Num(uid)];
            Shows(t', mailbox, b.(last := uid, uids := b.uids[id := uid])) && SameElsewhere(t, t', mailbox)
  {
    var t1 := t[UidNext(mailbox) := Num(uid)];
    PutLast(t, mailbox, uid, b);
    PutUid(t1, mailbox, id, uid, b.(last := uid));
    SameElsewhereTransitive(t, t1, t1[JmapToUid(mailbox, id) := Num(uid)], mailbox);
  }

  lemma InsertShows(t: Table, t': Table, mailbox: MailboxId, id: Id, uid: nat, b: Index)
    requires mailbox.Valid() && IsId(id) && Shows(t, mailbox, b) && b.last < MAX_U32
    requires uid == Counter(t, mailbox) + 1 && t' == Inserted(t, mailbox, id, uid)
    ensures uid == b.last + 1 && Shows(t', mailbox, InsertId(b, id)) && SameElsewhere(t, t', mailbox)
  {
    var t2 := t[UidNext(mailbox) := Num(uid)][JmapToUid(mailbox, id) := Num(uid)];
    InsertUidShows(t, mailbox, id, uid, b);
    PutName(t2, mailbox, uid, id, b.(last := uid, uids := b.uids[id := uid]));
    SameElsewhereTransitive(t, t2, t', mailbox);
  }

  method InsertJmapId(db: Db, mailbox: MailboxId, id: Id) returns (uid: nat)
    requires db.Valid() && mailbox.Valid() && IsId(id) && Counter(db.table, mailbox) < MAX_U32
    modifies db
    ensures db.Valid() && uid == Counter(old(db.table), mailbox) + 1
    ensures db.table == Inserted(old(db.table), mailbox, id, uid)
  {
    uid := LastUid(db, mailbox);
    uid := uid + 1;
    db.Insert(UidNext(mailbox), Num(uid));
    db.Insert(JmapToUid(mailbox, id), Num(uid));
    db.Insert(UidToJmap(mailbox, uid), Name(id));
  }

  // ----- delete_ids -----

  /** The batch operations that retire one UID. */
  function Retirement(mailbox: MailboxId, id: Id, uid: nat, now: nat): seq<Op> {
    [Put(DeletedId(mailbox, id), Stamp(uid, now)), Remove(JmapToUid(mailbox, id)), Remove(UidToJmap(mailbox, uid))]
  }

  lemma ApplyOne(t: Table, batch: seq<Op>, op: Op)
    ensures Apply(t, batch + [op])
         == if op.Put? then Apply(t, batch)[op.key := op.value] else Apply(t, batch) - {op.key}
  {
    assert (batch + [op])[..|batch|] == batch;
  }

  lemma ApplyThree(t: Table, batch: seq<Op>, mailbox: MailboxId, id: Id, uid: nat, now: nat)
    ensures Apply(t, batch + Retirement(mailbox, id, uid, now))
         == Apply(t, batch)[DeletedId(mailbox, id) := Stamp(uid, now)] - {JmapToUid(mailbox, id)} - {UidToJmap(mailbox, uid)}
  {
    var r := Retirement(mailbox, id, uid, now);
    ApplyOne(t, batch, r[0]);
    ApplyOne(t, batch + [r[0]], r[1]);
    ApplyOne(t, batch + [r[0]] + [r[1]], r[2]);
    Append3(batch, [r[0]], [r[1]], [r[2]]);
    assert r == [r[0]] + [r[1]] + [r[2]];
  }

  /** Retiring in a batch is retiring in the index. */
  lemma RetirementShows(t: Table, batch: seq<Op>, mailbox: MailboxId, id: Id, uid: nat, now: nat, b: Index)
    requires mailbox.Valid() && IsId(id) && Stamp(uid, now).Valid()
    requires Shows(Apply(t, batch), mailbox, b) && SameElsewhere(t, Apply(t, batch), mailbox)
    ensures var b' := Index(b.uids - {id}, b.names - {uid}, b.last, b.deleted[id := (uid, now)]);
            var t' := Apply(t, batch + Retirement(mailbox, id, uid, now));
            Shows(t', mailbox, b') && SameElsewhere(t, t', mailbox)
  {
    ApplyThree(t, batch, mailbox, id, uid, now);
    var t0 := Apply(t, batch);
    var t1 := t0[DeletedId(mailbox, id) := Stamp(uid, now)];
    var b1 := b.(deleted := b.deleted[id := (uid, now)]);
    PutDeleted(t0, mailbox, id, uid, now, b);
    RemoveUid(t1, mailbox, id, b1);
    RemoveName(t1 - {JmapToUid(mailbox, id)}, mailbox, uid, b1.(uids := b.uids - {id}));
    SameElsewhereTransitive(t, t0, t1, mailbox);
    SameElsewhereTransitive(t, t1, t1 - {JmapToUid(mailbox, id)}, mailbox);
    SameElsewhereTransitive(t, t1 - {JmapToUid(mailbox, id)}, t1 - {JmapToUid(mailbox, id)} - {UidToJmap(mailbox, uid)}, mailbox);
  }

  predicate AllIds(ids: seq<Id>) {
    forall i :: 0 <= i < |ids| ==> IsId(ids[i])
  }

  /** The UID that the table holds for a message. */
  method LookUp(db: Db, mailbox: MailboxId, id: Id) returns (uid: Option<nat>)
    requires db.Valid() && mailbox.Valid() && IsId(id)
    ensures uid.None? <==> JmapToUid(mailbox, id) !in db.table
    ensures uid.Some? ==> uid.value <= MAX_U32 && db.table[JmapToUid(mailbox, id)] == Num(uid.value)
  {
    var value := db.Get(JmapToUid(mailbox, id));
    if value.None? {
      return None;
    }
    BigEndianRoundTrip(db.table[JmapToUid(mailbox, id)].n);
    return Some(FromBigEndian(value.value));
  }

  /** `c` is `b` with some messages retired at `now`. */
  ghost predicate PartlyDeleted(b: Index, c: Index, now: nat) {
    && (forall id :: id in c.uids ==> id in b.uids && c.uids[id] == b.uids[id])
    && (forall id :: id in b.uids && id !in c.uids ==>
          b.uids[id] !in c.names && id in c.deleted && c.deleted[id] == (b.uids[id], now))
  }

  /** Retiring a message again, with the UID it had, has no effect. */
  lemma RetireAgain(b: Index, c: Index, id: Id, now: nat)
    requires Inverse(b) && PartlyDeleted(b, c, now) && id in b.uids
    ensures Index(c.uids - {id}, c.names - {b.uids[id]}, c.last, c.deleted[id := (b.uids[id], now)]) == DeleteId(c, id, now)
    ensures PartlyDeleted(b, DeleteId(c, id, now), now)
  {
    if id !in c.uids {
      assert c.uids - {id} == c.uids && c.names - {b.uids[id]} == c.names;
      assert c.deleted[id := (b.uids[id], now)] == c.deleted;
    }
  }

  /** One turn of the deletion loop. The UID is looked up in the database, which the batch has not
      reached yet: a message listed twice is retired twice, to the same effect. */
  lemma DeletionStep(t: Table, batch: seq<Op>, mailbox: MailboxId, id: Id, now: nat, b: Index, c: Index)
    requires mailbox.Valid() && IsId(id) && id in b.uids && Stamp(b.uids[id], now).Valid()
    requires Inverse(b) && PartlyDeleted(b, c, now)
    requires Shows(Apply(t, batch), mailbox, c) && SameElsewhere(t, Apply(t, batch), mailbox)
    ensures var t' := Apply(t, batch + Retirement(mailbox, id, b.uids[id], now));
            Shows(t', mailbox, DeleteId(c, id, now)) && SameElsewhere(t, t', mailbox)
    ensures PartlyDeleted(b, DeleteId(c, id, now), now)
  {
    RetirementShows(t, batch, mailbox, id, b.uids[id], now, c);
    RetireAgain(b, c, id, now);
  }

  predicate AllValid(batch: seq<Op>) {
    forall j :: 0 <= j < |batch| ==> batch[j].Valid()
  }

  lemma AddRetirement(batch: seq<Op>, mailbox: MailboxId, id: Id, uid: nat, now: nat)
    requires AllValid(batch) && mailbox.Valid() && IsId(id) && Stamp(uid, now).Valid()
    ensures AllValid(batch + Retirement(mailbox, id, uid, now))
  {
  }

  method DeleteJmapIds(db: Db, mailbox: MailboxId, ids: seq<Id>, now: nat, ghost b: Index)
    requires db.Valid() && mailbox.Valid() && AllIds(ids) && now < 0x1_0000_0000_0000_0000
    requires Shows(db.table, mailbox, b) && Inverse(b)
    modifies db
    ensures db.Valid() && Shows(db.table, mailbox, DeleteIds(b, ids, now))
    ensures SameElsewhere(old(db.table), db.table, mailbox)
  {
    var batch := DeletionBatch(db, mailbox, ids, now, b);
    db.ApplyBatch(batch);
  }

  /** The loop that collects the deletions. */
  method DeletionBatch(db: Db, mailbox: MailboxId, ids: seq<Id>, now: nat, ghost b: Index) returns (batch: seq<Op>)
    requires db.Valid() && mailbox.Valid() && AllIds(ids) && now < 0x1_0000_0000_0000_0000
    requires Shows(db.table, mailbox, b) && Inverse(b)
    ensures AllValid(batch) && Shows(Apply(db.table, batch), mailbox, DeleteIds(b, ids, now))
    ensures SameElsewhere(db.table, Apply(db.table, batch), mailbox)
  {
    batch := [];
    ghost var t, c := db.table, b;
    assert ids[0..] == ids;
    for i := 0 to |ids|
      invariant Shows(Apply(t, batch), mailbox, c) && SameElsewhere(t, Apply(t, batch), mailbox)
      invariant PartlyDeleted(b, c, now) && DeleteIds(c, ids[i..], now) == DeleteIds(b, ids, now)
      invariant AllValid(batch)
    {
      assert ids[i..][1..] == ids[i + 1..];
      var uid := LookUp(db, mailbox, ids[i]);
      if uid.Some? {
        DeletionStep(t, batch, mailbox, ids[i], now, b, c);
        AddRetirement(batch, mailbox, ids[i], uid.value, now);
        batch := batch + Retirement(mailbox, ids[i], uid.value, now);
      }
      c := DeleteId(c, ids[i], now);
    }
  }

  // ----- Scanning a mailbox -----

  /** A scan's result: the mailbox's UIDs in ascending order, each with its message. */
  ghost predicate IsScan(found: seq<(nat, Id)>, t: Table, mailbox: MailboxId) {
    && (forall i :: 0 <= i < |found| ==>
          IsId(found[i].1) && UidToJmap(mailbox, found[i].0) in t && t[UidToJmap(mailbox, found[i].0)] == Name(found[i].1))
    && (forall i, j :: 0 <= i < j < |found| ==> found[i].0 < found[j].0)
    && (forall uid :: UidToJmap(mailbox, uid) in t ==> exists i :: 0 <= i < |found| && found[i].0 == uid)
  }

  /** A key found under the UID prefix is a UID key of the mailbox, and its tail is the UID. */
  lemma ScannedKey(entries: map<Bytes, Bytes>, t: Table, mailbox: MailboxId, key: Bytes) returns (uid: nat)
    requires Represents(entries, t) && mailbox.Valid()
    requires key in entries && HasPrefix(key, SerializeKeyPrefix(mailbox, UID_TO_JMAP))
    ensures IsUidKey(t, mailbox, key, uid) && t[UidToJmap(mailbox, uid)] == Name(entries[key]) && IsId(entries[key])
    ensures |key| == |SerializeKeyPrefix(mailbox, UID_TO_JMAP)| + 4
    ensures FromBigEndian(key[|SerializeKeyPrefix(mailbox, UID_TO_JMAP)|..]) == uid
  {
    var k := FactOf(entries, t, key);
    UidPrefixExact(mailbox, k);
    uid := k.uid;
    BigEndianRoundTrip(uid);
    assert key[|SerializeKeyPrefix(mailbox, UID_TO_JMAP)|..] == BigEndian(uid);
  }

  ghost predicate IsUidKey(t: Table, mailbox: MailboxId, key: Bytes, uid: nat)
    requires mailbox.Valid()
  {
    uid <= MAX_U32 && UidToJmap(mailbox, uid) in t && key == Encode(UidToJmap(mailbox, uid))
  }

  /** The UID and the message of one entry. */
  ghost predicate IsEntry(t: Table, mailbox: MailboxId, key: Bytes, entry: (nat, Id))
    requires mailbox.Valid()
  {
    IsUidKey(t, mailbox, key, entry.0) && t[UidToJmap(mailbox, entry.0)] == Name(entry.1) && IsId(entry.1)
  }

  method ReadEntry(db: Db, mailbox: MailboxId, key: Bytes, prefix: Bytes) returns (entry: (nat, Id))
    requires db.Valid() && mailbox.Valid() && prefix == SerializeKeyPrefix(mailbox, UID_TO_JMAP)
    requires key in db.entries && HasPrefix(key, prefix)
    ensures IsEntry(db.table, mailbox, key, entry)
  {
    ghost var uid := ScannedKey(db.entries, db.table, mailbox, key);
    entry := (FromBigEndian(key[|prefix|..]), db.entries[key]);
  }

  ghost predicate EntriesRead(t: Table, mailbox: MailboxId, keys: seq<Bytes>, found: seq<(nat, Id)>)
    requires mailbox.Valid()
  {
    |found| <= |keys| && forall j :: 0 <= j < |found| ==> IsEntry(t, mailbox, keys[j], found[j])
  }

  lemma EntryRead(t: Table, mailbox: MailboxId, keys: seq<Bytes>, found: seq<(nat, Id)>, entry: (nat, Id))
    requires mailbox.Valid() && EntriesRead(t, mailbox, keys, found)
    requires |found| < |keys| && IsEntry(t, mailbox, keys[|found|], entry)
    ensures EntriesRead(t, mailbox, keys, found + [entry])
  {
    var all := found + [entry];
    forall j | 0 <= j < |all|
      ensures IsEntry(t, mailbox, keys[j], all[j])
    {
      assert all[j] == if j < |found| then found[j] else entry;
    }
  }

  method ScanUids(db: Db, mailbox: MailboxId) returns (found: seq<(nat, Id)>)
    requires db.Valid() && mailbox.Valid()
    ensures IsScan(found, db.table, mailbox)
  {
    var prefix := SerializeKeyPrefix(mailbox, UID_TO_JMAP);
    var keys := db.ScanPrefix(prefix);
    found := [];
    for i := 0 to |keys|
      invariant |found| == i && EntriesRead(db.table, mailbox, keys, found)
    {
      assert keys[i] in keys;
      var entry := ReadEntry(db, mailbox, keys[i], prefix);
      EntryRead(db.table, mailbox, keys, found, entry);
      found := found + [entry];
    }
    EntriesAreScan(db.entries, db.table, mailbox, keys, found);
  }

  lemma EntriesAreScan(entries: map<Bytes, Bytes>, t: Table, mailbox: MailboxId, keys: seq<Bytes>, found: seq<(nat, Id)>)
    requires Represents(entries, t) && mailbox.Valid() && |keys| == |found| && EntriesRead(t, mailbox, keys, found)
    requires forall k :: k in keys <==> k in entries && HasPrefix(k, SerializeKeyPrefix(mailbox, UID_TO_JMAP))
    requires forall i, j :: 0 <= i < j < |keys| ==> Before(keys[i], keys[j])
    ensures IsScan(found, t, mailbox)
  {
    ScanOrdered(t, mailbox, keys, found);
    ScanComplete(entries, t, mailbox, keys, found);
  }

  lemma ScanOrdered(t: Table, mailbox: MailboxId, keys: seq<Bytes>, found: seq<(nat, Id)>)
    requires mailbox.Valid() && |keys| == |found|
    requires forall j :: 0 <= j < |keys| ==> IsUidKey(t, mailbox, keys[j], found[j].0)
    requires forall i, j :: 0 <= i < j < |keys| ==> Before(keys[i], keys[j])
    ensures forall i, j :: 0 <= i < j < |found| ==> found[i].0 < found[j].0
  {
    forall i, j | 0 <= i < j < |found|
      ensures found[i].0 < found[j].0
    {
      UidKeyOrder(mailbox, found[i].0, found[j].0);
      assert Before(keys[i], keys[j]);
    }
  }

  lemma ScanComplete(entries: map<Bytes, Bytes>, t: Table, mailbox: MailboxId, keys: seq<Bytes>, found: seq<(nat, Id)>)
    requires Represents(entries, t) && mailbox.Valid() && |keys| == |found|
    requires forall k :: k in keys <==> k in entries && HasPrefix(k, SerializeKeyPrefix(mailbox, UID_TO_JMAP))
    requires forall j :: 0 <= j < |keys| ==> IsUidKey(t, mailbox, keys[j], found[j].0)
    ensures forall uid :: UidToJmap(mailbox, uid) in t ==> exists i :: 0 <= i < |found| && found[i].0 == uid
  {
    forall uid | UidToJmap(mailbox, uid) in t
      ensures exists i :: 0 <= i < |found| && found[i].0 == uid
    {
      var k := UidToJmap(mailbox, uid);
      UidPrefixExact(mailbox, k);
      assert Encode(k) in keys;
      var i :| 0 <= i < |keys| && keys[i] == Encode(k);
      EncodeInjective(k, UidToJmap(mailbox, found[i].0));
    }
  }
}
