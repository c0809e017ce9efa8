/** Deletion by key bytes: what each sweep over the flat key space removes, fact by fact. */
module Purges {
  import opened Wrappers
  import opened Sequences
  import opened Decimal
  import opened Keys
  import opened Database
  import opened UidIndex
  import opened UidStore

  /** The UID maps and the counters; a purge of a mailbox spares its deleted ids. */
  predicate IsUidFact(k: Key) {
    k.JmapToUid? || k.UidToJmap? || k.UidNext? || k.UidValidity?
  }

  lemma SeparatorOf(k: Key)
    requires k.Valid()
    ensures IsUidFact(k) && k.mailbox.mailbox.Some? <==> PartsOf(k).separator <= UID_VALIDITY && PartsOf(k).name != []
    ensures IsUidFact(k) && k.mailbox.mailbox.Some? ==> PartsOf(k).account == k.mailbox.account && PartsOf(k).name == k.mailbox.mailbox.value
  {
  }

  /** A predicate on facts is what a batch removed. */
  ghost predicate RemovesExactly(before: Table, after: Table, gone: iset<Key>) {
    && (forall k :: k in after <==> k in before && k !in gone)
    && (forall k :: k in after ==> after[k] == before[k])
  }

  lemma RemovedExactly(entries: map<Bytes, Bytes>, table: Table, keys: set<Bytes>, gone: iset<Key>)
    requires Represents(entries, table)
    requires forall k :: k in table && k.Valid() ==> (Encode(k) in keys <==> k in gone)
    ensures RemovesExactly(table, Without(table, keys), gone)
  {
  }

  // ----- delete_mailbox -----

  /** The byte after the mailbox id tells the mailbox's own UID facts from everything else. */
  predicate DeletesKey(key: Bytes, prefix: Bytes) {
    HasPrefix(key, prefix) && |key| > |prefix| && key[|prefix|] <= UID_VALIDITY
  }

  lemma LongerPrefix(key: Bytes, prefix: Bytes, s: Byte)
    ensures HasPrefix(key, prefix + [s]) <==> HasPrefix(key, prefix) && |key| > |prefix| && key[|prefix|] == s
  {
    if |key| > |prefix| {
      assert key[..|prefix| + 1] == key[..|prefix|] + [key[|prefix|]];
      assert (prefix + [s])[..|prefix|] == prefix && (prefix + [s])[|prefix|] == s;
    }
  }

  ghost function FactsOf(mailbox: MailboxId): iset<Key> {
    iset k: Key | IsUidFact(k) && k.mailbox == mailbox
  }

  lemma DeletesKeyIff(account: Bytes, id: Bytes, k: Key)
    requires IsId(account) && IsId(id) && k.Valid()
    ensures DeletesKey(Encode(k), SerializeAccountPrefix(account) + id) <==> k in FactsOf(MailboxId(account, Some(id)))
  {
    var prefix, mailbox := SerializeAccountPrefix(account) + id, MailboxId(account, Some(id));
    if DeletesKey(Encode(k), prefix) {
      var s := Encode(k)[|prefix|];
      LongerPrefix(Encode(k), prefix, s);
      PrefixExact(mailbox, s, k);
    } else if k in FactsOf(mailbox) {
      PrefixExact(mailbox, MailboxSeparator(k), k);
      LongerPrefix(Encode(k), prefix, MailboxSeparator(k));
    }
  }

  method CollectMailbox(keys: seq<Bytes>, prefix: Bytes) returns (batch: set<Bytes>)
    requires forall key :: key in keys ==> HasPrefix(key, prefix)
    ensures forall key :: key in batch <==> key in keys && DeletesKey(key, prefix)
  {
    batch := {};
    for i := 0 to |keys|
      invariant forall key :: key in batch ==> key in keys && DeletesKey(key, prefix)
      invariant forall j :: 0 <= j < i && DeletesKey(keys[j], prefix) ==> keys[j] in batch
    {
      var key := keys[i];
      if |key| > |prefix| && key[|prefix|] <= UID_VALIDITY {
        batch := batch + {key};
      }
    }
  }

  method DeleteMailbox(db: Db, account: Bytes, id: Bytes)
    requires db.Valid() && IsId(account) && IsId(id)
    modifies db
    ensures db.Valid() && RemovesExactly(old(db.table), db.table, FactsOf(MailboxId(account, Some(id))))
  {
    var prefix := SerializeAccountPrefix(account) + id;
    var keys := db.ScanPrefix(prefix);
    var batch := CollectMailbox(keys, prefix);
    forall k | k in db.table && k.Valid()
      ensures Encode(k) in batch <==> k in FactsOf(MailboxId(account, Some(id)))
    {
      DeletesKeyIff(account, id, k);
    }
    RemovedExactly(db.entries, db.table, batch, FactsOf(MailboxId(account, Some(id))));
    db.RemoveKeys(batch);
  }

  /** The mailbox is left with nothing but its deleted ids. Every other one shows the index it had. */
  lemma DeletedMailboxShows(t: Table, t': Table, mailbox: MailboxId, other: MailboxId, b: Index)
    requires RemovesExactly(t, t', FactsOf(mailbox)) && Shows(t, other, b)
    ensures Shows(t', other, if other == mailbox then Index(map[], map[], 0, b.deleted) else b)
  {
    FactsGone(t, t', mailbox);
    if other != mailbox {
      forall id
        ensures JmapToUid(other, id) !in FactsOf(mailbox) && DeletedId(other, id) !in FactsOf(mailbox)
      {
      }
      assert forall uid :: UidToJmap(other, uid) !in FactsOf(mailbox);
      assert UidNext(other) !in FactsOf(mailbox);
    }
  }

  lemma FactsGone(t: Table, t': Table, mailbox: MailboxId)
    requires RemovesExactly(t, t', FactsOf(mailbox))
    ensures forall id :: JmapToUid(mailbox, id) !in t' && (DeletedId(mailbox, id) in t' <==> DeletedId(mailbox, id) in t)
    ensures forall uid :: UidToJmap(mailbox, uid) !in t'
    ensures UidNext(mailbox) !in t' && UidValidity(mailbox) !in t'
  {
    assert forall id :: JmapToUid(mailbox, id) in FactsOf(mailbox) && DeletedId(mailbox, id) !in FactsOf(mailbox);
    assert forall uid :: UidToJmap(mailbox, uid) in FactsOf(mailbox);
  }

  // ----- delete_account -----

  function AccountOf(k: Key): Bytes {
    if k.OfMailbox() then k.mailbox.account else k.account
  }

  /** An account's prefix finds the account's facts only, and the rest of the key is the name, its
      separator and what follows. */
  lemma AccountPrefixExact(account: Bytes, k: Key)
    requires IsId(account) && k.Valid()
    ensures HasPrefix(Encode(k), SerializeAccountPrefix(account)) <==> AccountOf(k) == account
    ensures AccountOf(k) == account ==>
      Encode(k)[|account| + 1..] == PartsOf(k).name + [PartsOf(k).separator] + PartsOf(k).rest
  {
    var p, prefix := PartsOf(k), SerializeAccountPrefix(account);
    EncodeIsJoin(k);
    if HasPrefix(Encode(k), prefix) {
      PrefixSplits(Encode(k), prefix);
      Cut(p.account, 0, p.name + [p.separator] + p.rest, account, 0, Encode(k)[|prefix|..]);
    }
  }

  method DeleteAccount(db: Db, account: Bytes)
    requires db.Valid() && IsId(account)
    modifies db
    ensures db.Valid() && RemovesExactly(old(db.table), db.table, iset k: Key | AccountOf(k) == account)
  {
    var prefix := SerializeAccountPrefix(account);
    var keys := db.ScanPrefix(prefix);
    var batch := set key | key in keys;
    forall k | k in db.table && k.Valid()
      ensures Encode(k) in batch <==> AccountOf(k) == account
    {
      AccountPrefixExact(account, k);
    }
    RemovedExactly(db.entries, db.table, batch, iset k: Key | AccountOf(k) == account);
    db.RemoveKeys(batch);
  }

  // ----- purge_deleted_mailboxes -----

  /** The position of the first byte that is a UID separator. */
  function FirstSeparator(bytes: Bytes): (pos: Option<nat>)
    ensures pos.Some? ==> pos.value < |bytes| && bytes[pos.value] <= UID_VALIDITY
                          && forall i :: 0 <= i < pos.value ==> bytes[i] > UID_VALIDITY
    ensures pos.None? ==> forall i :: 0 <= i < |bytes| ==> bytes[i] > UID_VALIDITY
  {
    if bytes == [] then None
    else if bytes[0] <= UID_VALIDITY then Some(0)
    else
      var rest := FirstSeparator(bytes[1..]);
      if rest.None? then None else Some(rest.value + 1)
  }

  predicate PurgesKey(key: Bytes, prefix: Bytes, live: set<Bytes>) {
    && HasPrefix(key, prefix)
    && var part := key[|prefix|..];
       var pos := FirstSeparator(part);
       pos.Some? && pos.value > 0 && part[..pos.value] !in live
  }

  ghost function DeadFacts(account: Bytes, live: set<Bytes>): iset<Key> {
    iset k: Key | IsUidFact(k) && k.mailbox.account == account && k.mailbox.mailbox.Some? && k.mailbox.mailbox.value !in live
  }

  /** What stands before the first separator is the mailbox id. */
  lemma {:induction false} FirstSeparatorOf(name: Bytes, separator: Byte, rest: Bytes)
    requires NoSeparator(name) && separator <= UID_VALIDITY
    ensures FirstSeparator(name + [separator] + rest) == Some(|name|)
  {
    var part := name + [separator] + rest;
    assert part[0] == if name == [] then separator else name[0];
    if name != [] {
      assert part[1..] == name[1..] + [separator] + rest;
      FirstSeparatorOf(name[1..], separator, rest);
    }
  }

  lemma RestOf(k: Key)
    requires k.Valid() && PartsOf(k).separator > UID_VALIDITY
    ensures forall i :: 0 <= i < |PartsOf(k).rest| ==> PartsOf(k).rest[i] > UID_VALIDITY
  {
  }

  lemma PurgesKeyIff(account: Bytes, live: set<Bytes>, k: Key)
    requires IsId(account) && k.Valid()
    ensures PurgesKey(Encode(k), SerializeAccountPrefix(account), live) <==> k in DeadFacts(account, live)
  {
    var p := PartsOf(k);
    AccountPrefixExact(account, k);
    SeparatorOf(k);
    if p.separator <= UID_VALIDITY {
      FirstSeparatorOf(p.name, p.separator, p.rest);
      assert (p.name + [p.separator] + p.rest)[..|p.name|] == p.name;
    } else {
      RestOf(k);
    }
  }

  method CollectDead(keys: seq<Bytes>, prefix: Bytes, live: set<Bytes>) returns (batch: set<Bytes>)
    requires forall key :: key in keys ==> HasPrefix(key, prefix)
    ensures forall key :: key in batch <==> key in keys && PurgesKey(key, prefix, live)
  {
    batch := {};
    for i := 0 to |keys|
      invariant forall key :: key in batch ==> key in keys && PurgesKey(key, prefix, live)
      invariant forall j :: 0 <= j < i && PurgesKey(keys[j], prefix, live) ==> keys[j] in batch
    {
      var key := keys[i];
      assert key in keys;
      var part := key[|prefix|..];
      var pos := FirstSeparator(part);
      if pos.Some? && pos.value > 0 && part[..pos.value] !in live {
        batch := batch + {key};
      }
    }
  }

  /** An account whose mailboxes are not known is left alone. */
  method PurgeDeletedMailboxes(db: Db, account: Bytes, live: set<Bytes>)
    requires db.Valid() && IsId(account)
    modifies db
    ensures db.Valid()
    ensures RemovesExactly(old(db.table), db.table, if live == {} then iset{} else DeadFacts(account, live))
  {
    if live == {} {
      return;
    }
    var prefix := SerializeAccountPrefix(account);
    var keys := db.ScanPrefix(prefix);
    var batch := CollectDead(keys, prefix, live);
    forall k | k in db.table && k.Valid()
      ensures Encode(k) in batch <==> k in DeadFacts(account, live)
    {
      PurgesKeyIff(account, live, k);
    }
    RemovedExactly(db.entries, db.table, batch, DeadFacts(account, live));
    db.RemoveKeys(batch);
  }

  // ----- purge_deleted_ids -----

  /** Deleted ids are known by the length of their value alone: 12 bytes, read as a UID and a time. */
  predicate LooksExpired(value: Bytes, now: nat, ttl: nat) {
    && |value| == 12
    && var time := FromBigEndian64(value[4..]);
       time < now && now - time >= ttl
  }

  ghost function ExpiredFacts(t: Table, now: nat, ttl: nat): iset<Key> {
    iset k: Key | k in t && t[k].Stamp? && t[k].time < now && now - t[k].time >= ttl
  }

  /** Read as a time, an id of 12 characters is at least this much: every character is 45 or more. */
  const EARLIEST_ID_TIME := 0x2D2D_2D2D_2D2D_2D2D

  lemma IdTime(id: Bytes)
    requires IsId(id) && |id| == 12
    ensures FromBigEndian64(id[4..]) >= EARLIEST_ID_TIME
  {
    var a, b := id[4..][..4], id[4..][4..];
    assert forall i :: 0 <= i < 4 ==> a[i] == id[4 + i] && b[i] == id[8 + i];
    assert forall i :: 0 <= i < 4 ==> a[i] >= 45 && b[i] >= 45;
    assert FromBigEndian(a) >= 0x2D2D_2D2D && FromBigEndian(b) >= 0x2D2D_2D2D;
  }

  /** Ids and states of 12 characters are safe at all times up to that bound, and not beyond. */
  lemma IdsAreSafeIff(now: nat)
    ensures (forall id :: IsId(id) ==> !LooksExpired(id, now, 0)) <==> now <= EARLIEST_ID_TIME
  {
    if now <= EARLIEST_ID_TIME {
      forall id | IsId(id) && |id| == 12
        ensures FromBigEndian64(id[4..]) >= EARLIEST_ID_TIME
      {
        IdTime(id);
      }
    } else {
      var dashes: Bytes := [45, 45, 45, 45, 45, 45, 45, 45, 45, 45, 45, 45];
      assert dashes[4..][..4] == [45, 45, 45, 45] && dashes[4..][4..] == [45, 45, 45, 45];
      assert FromBigEndian64(dashes[4..]) == EARLIEST_ID_TIME;
      assert IsId(dashes) && LooksExpired(dashes, now, 0);
    }
  }

  lemma LooksExpiredIff(v: Value, now: nat, ttl: nat)
    requires v.Valid() && now <= EARLIEST_ID_TIME
    ensures LooksExpired(EncodeValue(v), now, ttl) <==> v.Stamp? && v.time < now && now - v.time >= ttl
  {
    match v
    case Num(n) =>
    case Name(id) =>
      if |id| == 12 {
        IdTime(id);
      }
    case Stamp(uid, time) =>
      assert EncodeValue(v)[4..] == BigEndian64(time);
      BigEndian64RoundTrip(time);
  }

  lemma DistinctKeysAdded(batch: set<Bytes>, key: Bytes)
    requires key !in batch
    ensures |batch + {key}| == |batch| + 1
  {
  }

  method CollectExpired(keys: seq<Bytes>, entries: map<Bytes, Bytes>, now: nat, ttl: nat)
    returns (batch: set<Bytes>, deletions: nat)
    requires forall i :: 0 <= i < |keys| ==> keys[i] in entries
    requires forall i, j :: 0 <= i < j < |keys| ==> Before(keys[i], keys[j])
    ensures forall key :: key in batch <==> key in keys && key in entries && LooksExpired(entries[key], now, ttl)
    ensures deletions == |batch|
  {
    batch, deletions := {}, 0;
    for i := 0 to |keys|
      invariant forall key :: key in batch ==> key in keys[..i] && key in entries && LooksExpired(entries[key], now, ttl)
      invariant forall j :: 0 <= j < i && LooksExpired(entries[keys[j]], now, ttl) ==> keys[j] in batch
      invariant deletions == |batch|
    {
      if LooksExpired(entries[keys[i]], now, ttl) {
        DistinctScan(keys, i);
        DistinctKeysAdded(batch, keys[i]);
        batch := batch + {keys[i]};
        deletions := deletions + 1;
      }
    }
  }

  method PurgeDeletedIds(db: Db, now: nat, ttl: nat) returns (deletions: nat)
    requires db.Valid() && now <= EARLIEST_ID_TIME
    modifies db
    ensures db.Valid() && RemovesExactly(old(db.table), db.table, ExpiredFacts(old(db.table), now, ttl))
    ensures deletions == |old(db.entries)| - |db.entries|
  {
    var keys := db.ScanPrefix([]);
    assert forall key :: HasPrefix(key, []);
    assert forall i :: 0 <= i < |keys| ==> keys[i] in keys;
    var batch;
    batch, deletions := CollectExpired(keys, db.entries, now, ttl);
    forall k | k in db.table && k.Valid()
      ensures Encode(k) in batch <==> k in ExpiredFacts(db.table, now, ttl)
    {
      LooksExpiredIff(db.table[k], now, ttl);
    }
    RemovedExactly(db.entries, db.table, batch, ExpiredFacts(db.table, now, ttl));
    CountRemoved(db.entries, batch);
    db.RemoveKeys(batch);
  }

  lemma DistinctScan(keys: seq<Bytes>, i: nat)
    requires i < |keys| && forall i, j :: 0 <= i < j < |keys| ==> Before(keys[i], keys[j])
    ensures keys[i] !in keys[..i]
  {
    if keys[i] in keys[..i] {
      BeforeIrreflexive(keys[i]);
    }
  }

  lemma CountRemoved(entries: map<Bytes, Bytes>, keys: set<Bytes>)
    requires keys <= entries.Keys
    ensures |entries - keys| == |entries| - |keys|
  {
    assert (entries - keys).Keys == entries.Keys - keys;
  }

  /** Only the tombstones go: every deletion of a UID younger than `ttl`, and every fact of any
      other kind, is still there. */
  lemma ExpiredAreDeletedIds(t: Table, now: nat, ttl: nat, k: Key)
    requires forall k :: k in t ==> k.Valid() && Fits(k, t[k])
    requires k in ExpiredFacts(t, now, ttl)
    ensures k.DeletedId? && t[k].time + ttl <= now
  {
  }
}
