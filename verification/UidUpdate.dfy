/** Making the UIDs of a mailbox agree with the messages that the server lists for it, and looking
    up the UIDs of single messages. */
module UidUpdate {
  import opened Wrappers
  import opened Sequences
  import opened Decimal
  import opened Keys
  import opened Database
  import opened UidIndex
  import opened UidStore

  // ----- Sorting the entries found into those to keep and those to retire -----

  /** The listed messages still to be met, by position; which positions have been met; the messages
      kept and their UIDs; the deletions. */
  datatype Scan = Scan(pending: map<Id, nat>, found: seq<bool>, ids: seq<Id>, uids: seq<nat>, batch: seq<Op>)

  /** A listed message is kept. Any other is retired. */
  function SortEntry(s: Scan, mailbox: MailboxId, entry: (nat, Id), now: nat): Scan
    requires forall id :: id in s.pending ==> s.pending[id] < |s.found|
  {
    var (uid, id) := entry;
    if id in s.pending then
      Scan(s.pending - {id}, s.found[s.pending[id] := true], s.ids + [id], s.uids + [uid], s.batch)
    else
      s.(batch := s.batch + Retirement(mailbox, id, uid, now))
  }

  predicate IsLast(ids: seq<Id>, p: nat)
    requires p < |ids|
  {
    forall q :: p < q < |ids| ==> ids[q] != ids[p]
  }

  /** The listed messages not seen yet, each with its last position. */
  ghost predicate Pending(ids: seq<Id>, seen: set<Id>, pending: map<Id, nat>) {
    && (forall id :: id in pending <==> id in ids && id !in seen)
    && (forall id :: id in pending ==> pending[id] < |ids| && ids[pending[id]] == id && IsLast(ids, pending[id]))
  }

  ghost predicate Found(ids: seq<Id>, seen: set<Id>, found: seq<bool>) {
    |found| == |ids| && forall p :: 0 <= p < |ids| ==> (found[p] <==> ids[p] in seen && IsLast(ids, p))
  }

  /** The messages kept, in the order of their UIDs. */
  ghost predicate Keeping(b: Index, ids: seq<Id>, seen: set<Id>, kept: seq<Id>, uids: seq<nat>) {
    && |kept| == |uids|
    && (forall i :: 0 <= i < |uids| ==> uids[i] in b.names && b.names[uids[i]] == kept[i] && kept[i] in ids && kept[i] in seen)
    && (forall i, j :: 0 <= i < j < |uids| ==> uids[i] < uids[j])
    && (forall id :: id in seen && id in ids && id in b.uids ==> b.uids[id] in uids)
  }

  function Kept(b: Index, ids: seq<Id>, seen: set<Id>): set<Id> {
    b.uids.Keys - (seen - ToSet(ids))
  }

  /** The batch retires what has been seen and is not listed. */
  ghost predicate Retiring(t: Table, mailbox: MailboxId, b: Index, ids: seq<Id>, seen: set<Id>, now: nat, batch: seq<Op>) {
    && AllValid(batch)
    && Shows(Apply(t, batch), mailbox, Retain(b, Kept(b, ids, seen), now))
    && SameElsewhere(t, Apply(t, batch), mailbox)
  }

  lemma PendingStep(ids: seq<Id>, seen: set<Id>, s: Scan, mailbox: MailboxId, uid: nat, id: Id, now: nat)
    requires Pending(ids, seen, s.pending) && Found(ids, seen, s.found) && id !in seen
    ensures var s' := SortEntry(s, mailbox, (uid, id), now);
            Pending(ids, seen + {id}, s'.pending) && Found(ids, seen + {id}, s'.found)
  {
  }

  lemma KeepingStep(b: Index, ids: seq<Id>, seen: set<Id>, kept: seq<Id>, uids: seq<nat>, id: Id, uid: nat)
    requires Keeping(b, ids, seen, kept, uids) && Inverse(b)
    requires uid in b.names && b.names[uid] == id
    requires forall i :: 0 <= i < |uids| ==> uids[i] < uid
    ensures id in ids ==> Keeping(b, ids, seen + {id}, kept + [id], uids + [uid])
    ensures id !in ids ==> Keeping(b, ids, seen + {id}, kept, uids)
  {
  }

  lemma RetiringStep(t: Table, mailbox: MailboxId, b: Index, ids: seq<Id>, seen: set<Id>, now: nat, batch: seq<Op>, id: Id)
    requires mailbox.Valid() && Inverse(b) && Retiring(t, mailbox, b, ids, seen, now, batch)
    requires IsId(id) && id in b.uids && id !in seen && Stamp(b.uids[id], now).Valid()
    ensures id in ids ==> Retiring(t, mailbox, b, ids, seen + {id}, now, batch)
    ensures id !in ids ==> Retiring(t, mailbox, b, ids, seen + {id}, now, batch + Retirement(mailbox, id, b.uids[id], now))
  {
    var keep := Kept(b, ids, seen);
    if id in ids {
      assert Kept(b, ids, seen + {id}) == keep;
    } else {
      assert Kept(b, ids, seen + {id}) == keep - {id};
      RetirementShows(t, batch, mailbox, id, b.uids[id], now, Retain(b, keep, now));
      AddRetirement(batch, mailbox, id, b.uids[id], now);
      DeleteFromRetained(b, keep, id, now);
      assert id in keep;
    }
  }

  method Positions(ids: seq<Id>) returns (positions: map<Id, nat>)
    ensures Pending(ids, {}, positions)
  {
    positions := map[];
    for i := 0 to |ids|
      invariant forall id :: id in positions <==> id in ids[..i]
      invariant forall id :: id in positions ==>
        positions[id] < i && ids[positions[id]] == id && forall q :: positions[id] < q < i ==> ids[q] != id
    {
      positions := positions[ids[i] := i];
    }
    assert ids[..|ids|] == ids;
  }

  ghost predicate Sorting(t: Table, mailbox: MailboxId, b: Index, ids: seq<Id>, seen: set<Id>, now: nat, s: Scan) {
    && Pending(ids, seen, s.pending) && Found(ids, seen, s.found)
    && Keeping(b, ids, seen, s.ids, s.uids) && Retiring(t, mailbox, b, ids, seen, now, s.batch)
  }

  lemma SortStep(t: Table, mailbox: MailboxId, b: Index, ids: seq<Id>, seen: set<Id>, now: nat, s: Scan, uid: nat, id: Id,
                 seen': set<Id>, s': Scan)
    requires mailbox.Valid() && Inverse(b) && Sorting(t, mailbox, b, ids, seen, now, s)
    requires uid in b.names && b.names[uid] == id && IsId(id) && Stamp(uid, now).Valid()
    requires forall i :: i in seen ==> i in b.uids && b.uids[i] < uid
    requires seen' == seen + {id} && s' == SortEntry(s, mailbox, (uid, id), now)
    ensures Sorting(t, mailbox, b, ids, seen', now, s')
  {
    PendingStep(ids, seen, s, mailbox, uid, id, now);
    KeepingStep(b, ids, seen, s.ids, s.uids, id, uid);
    RetiringStep(t, mailbox, b, ids, seen, now, s.batch, id);
  }

  /** The entries are the messages of the index, in the order of their UIDs. */
  ghost predicate Listed(b: Index, entries: seq<(nat, Id)>) {
    && (forall i :: 0 <= i < |entries| ==>
          entries[i].0 <= MAX_U32 && IsId(entries[i].1) && entries[i].0 in b.names && b.names[entries[i].0] == entries[i].1)
    && (forall i, j :: 0 <= i < j < |entries| ==> entries[i].0 < entries[j].0)
  }

  ghost predicate ListedAll(b: Index, entries: seq<(nat, Id)>) {
    forall uid :: uid in b.names ==> exists i :: 0 <= i < |entries| && entries[i].0 == uid
  }

  lemma ScanListed(t: Table, mailbox: MailboxId, entries: seq<(nat, Id)>, b: Index)
    requires Shows(t, mailbox, b) && IsScan(entries, t, mailbox)
    ensures Listed(b, entries) && ListedAll(b, entries)
  {
    forall i | 0 <= i < |entries|
      ensures entries[i].0 <= MAX_U32
    {
      assert UidToJmap(mailbox, entries[i].0).Valid();
    }
  }

  ghost predicate SeenUpTo(b: Index, entries: seq<(nat, Id)>, i: nat, seen: set<Id>)
    requires i <= |entries|
  {
    && (forall id :: id in seen ==> id in b.uids && (i < |entries| ==> b.uids[id] < entries[i].0))
    && (forall j :: 0 <= j < i ==> entries[j].1 in seen)
  }

  lemma SeenStep(b: Index, entries: seq<(nat, Id)>, i: nat, seen: set<Id>, seen': set<Id>)
    requires Inverse(b) && Listed(b, entries) && i < |entries| && SeenUpTo(b, entries, i, seen)
    requires seen' == seen + {entries[i].1}
    ensures SeenUpTo(b, entries, i + 1, seen')
  {
  }

  lemma SeenAll(b: Index, entries: seq<(nat, Id)>, seen: set<Id>)
    requires Inverse(b) && Listed(b, entries) && ListedAll(b, entries) && SeenUpTo(b, entries, |entries|, seen)
    ensures seen == b.uids.Keys
  {
    forall id | id in b.uids
      ensures id in seen
    {
      assert b.uids[id] in b.names;
    }
  }

  lemma SortStart(t: Table, mailbox: MailboxId, b: Index, ids: seq<Id>, now: nat, s: Scan)
    requires Shows(t, mailbox, b) && Inverse(b)
    requires Pending(ids, {}, s.pending) && s.batch == [] && s.ids == [] && s.uids == []
    requires |s.found| == |ids| && forall p :: 0 <= p < |ids| ==> !s.found[p]
    ensures Sorting(t, mailbox, b, ids, {}, now, s)
  {
    RetainAll(b, Kept(b, ids, {}), now);
  }

  /** The loop over the entries found. */
  method SortEntries(mailbox: MailboxId, ids: seq<Id>, entries: seq<(nat, Id)>, now: nat, ghost t: Table, ghost b: Index)
    returns (s: Scan, ghost seen: set<Id>)
    requires mailbox.Valid() && now < 0x1_0000_0000_0000_0000
    requires Shows(t, mailbox, b) && Inverse(b) && Listed(b, entries)
    ensures Sorting(t, mailbox, b, ids, seen, now, s) && SeenUpTo(b, entries, |entries|, seen)
  {
    var positions := Positions(ids);
    s := Scan(positions, seq(|ids|, i => false), [], [], []);
    SortStart(t, mailbox, b, ids, now, s);
    seen := {};
    for i := 0 to |entries|
      invariant Sorting(t, mailbox, b, ids, seen, now, s) && SeenUpTo(b, entries, i, seen)
    {
      SortTurn(t, mailbox, b, ids, seen, now, s, entries, i);
      s := SortEntry(s, mailbox, entries[i], now);
      seen := seen + {entries[i].1};
    }
  }

  lemma SortTurn(t: Table, mailbox: MailboxId, b: Index, ids: seq<Id>, seen: set<Id>, now: nat, s: Scan, entries: seq<(nat, Id)>, i: nat)
    requires mailbox.Valid() && now < 0x1_0000_0000_0000_0000 && Inverse(b) && Listed(b, entries) && i < |entries|
    requires Sorting(t, mailbox, b, ids, seen, now, s) && SeenUpTo(b, entries, i, seen)
    ensures forall id :: id in s.pending ==> s.pending[id] < |s.found|
    ensures Sorting(t, mailbox, b, ids, seen + {entries[i].1}, now, SortEntry(s, mailbox, entries[i], now))
    ensures SeenUpTo(b, entries, i + 1, seen + {entries[i].1})
  {
    var seen' := seen + {entries[i].1};
    var s' := SortEntry(s, mailbox, entries[i], now);
    SortStep(t, mailbox, b, ids, seen, now, s, entries[i].0, entries[i].1, seen', s');
    SeenStep(b, entries, i, seen, seen');
  }

  /** What the scan leaves to do. */
  lemma Sorted(t: Table, mailbox: MailboxId, b: Index, ids: seq<Id>, now: nat, s: Scan)
    requires Inverse(b) && Sorting(t, mailbox, b, ids, b.uids.Keys, now, s)
    ensures AllValid(s.batch) && Shows(Apply(t, s.batch), mailbox, Retain(b, ToSet(ids), now))
    ensures SameElsewhere(t, Apply(t, s.batch), mailbox)
    ensures IsListing(Retain(b, ToSet(ids), now), s.ids, s.uids)
    ensures s.pending == map[] <==> AllKnown(b, ids)
  {
    RetainSame(b, Kept(b, ids, b.uids.Keys), ToSet(ids), now);
    KeepingLists(b, ids, now, s.ids, s.uids);
    if s.pending != map[] {
      var id :| id in s.pending;
      assert exists i :: 0 <= i < |ids| && ids[i] == id;
    } else {
      forall i | 0 <= i < |ids|
        ensures ids[i] in b.uids
      {
        assert ids[i] in s.pending <==> ids[i] !in b.uids.Keys;
      }
    }
  }

  lemma KeepingLists(b: Index, ids: seq<Id>, now: nat, kept: seq<Id>, uids: seq<nat>)
    requires Inverse(b) && Keeping(b, ids, b.uids.Keys, kept, uids)
    ensures IsListing(Retain(b, ToSet(ids), now), kept, uids)
  {
    var names := Retain(b, ToSet(ids), now).names;
    forall uid | uid in names
      ensures uid in uids
    {
      assert b.names[uid] in ids;
    }
  }

  // ----- Giving UIDs to the messages not found -----

  lemma FreshStep(b: Index, ids: seq<Id>, p: nat)
    requires p < |ids|
    ensures Fresh(b, ids[p..]) == (if ids[p] in b.uids && IsLast(ids, p) then [] else [ids[p]]) + Fresh(b, ids[p + 1..])
  {
    assert ids[p..][1..] == ids[p + 1..];
    if ids[p] in ids[p + 1..] {
      var j :| 0 <= j < |ids[p + 1..]| && ids[p + 1..][j] == ids[p];
      assert ids[p + 1 + j] == ids[p];
    } else {
      assert forall q :: p < q < |ids| ==> ids[q] == ids[p + 1..][q - p - 1];
    }
  }

  /** One turn of the insertion loop, on the index. */
  lemma MissingStep(b: Index, ids: seq<Id>, found: seq<bool>, p: nat, c: Index, whole: Index)
    requires p < |ids| && Found(ids, b.uids.Keys, found) && InsertIds(c, Fresh(b, ids[p..])) == whole
    ensures !found[p] ==> c.last < whole.last
    ensures found[p] ==> InsertIds(c, Fresh(b, ids[p + 1..])) == whole
    ensures !found[p] ==> InsertIds(InsertId(c, ids[p]), Fresh(b, ids[p + 1..])) == whole
  {
    FreshStep(b, ids, p);
    InsertIdsLast(c, Fresh(b, ids[p..]));
    var rest := Fresh(b, ids[p + 1..]);
    EmptyLeft(rest);
    assert ([ids[p]] + rest)[1..] == rest;
  }

  /** The table shows the index, the lists list it, and nothing else has changed since `t0`. */
  ghost predicate Inserting(t0: Table, t: Table, mailbox: MailboxId, c: Index, ids: seq<Id>, uids: seq<nat>) {
    && Shows(t, mailbox, c) && SameElsewhere(t0, t, mailbox)
    && (forall uid :: uid in c.names ==> uid <= c.last)
    && IsListing(c, ids, uids)
  }

  lemma InsertingStep(t0: Table, t: Table, t': Table, mailbox: MailboxId, c: Index, ids: seq<Id>, uids: seq<nat>, id: Id, uid: nat)
    requires mailbox.Valid() && IsId(id) && c.last < MAX_U32 && Inserting(t0, t, mailbox, c, ids, uids)
    requires uid == Counter(t, mailbox) + 1 && t' == Inserted(t, mailbox, id, uid)
    ensures Inserting(t0, t', mailbox, InsertId(c, id), ids + [id], uids + [uid])
  {
    InsertShows(t, t', mailbox, id, uid, c);
    SameElsewhereTransitive(t0, t, t', mailbox);
    ListingGrows(c, ids, uids, id);
  }

  lemma LastBound(t: Table, mailbox: MailboxId, b: Index)
    requires Shows(t, mailbox, b)
    ensures Counter(t, mailbox) == b.last
  {
  }

  /** One message gets a UID. */
  method InsertOne(db: Db, mailbox: MailboxId, id: Id, ids: seq<Id>, uids: seq<nat>, ghost t0: Table, ghost c: Index)
    returns (ids': seq<Id>, uids': seq<nat>)
    requires db.Valid() && mailbox.Valid() && IsId(id) && c.last < MAX_U32
    requires Inserting(t0, db.table, mailbox, c, ids, uids)
    modifies db
    ensures db.Valid() && Inserting(t0, db.table, mailbox, InsertId(c, id), ids', uids')
  {
    LastBound(db.table, mailbox, c);
    var uid := InsertJmapId(db, mailbox, id);
    ids', uids' := ids + [id], uids + [uid];
    InsertingStep(t0, old(db.table), db.table, mailbox, c, ids, uids, id, uid);
  }

  method InsertMissing(db: Db, mailbox: MailboxId, ids: seq<Id>, found: seq<bool>, kept: seq<Id>, keptUids: seq<nat>,
                       ghost b: Index, ghost c0: Index) returns (ids': seq<Id>, uids': seq<nat>)
    requires db.Valid() && mailbox.Valid() && AllIds(ids) && Found(ids, b.uids.Keys, found)
    requires Inserting(db.table, db.table, mailbox, c0, kept, keptUids)
    requires InsertIds(c0, Fresh(b, ids)).last <= MAX_U32
    modifies db
    ensures db.Valid() && Inserting(old(db.table), db.table, mailbox, InsertIds(c0, Fresh(b, ids)), ids', uids')
  {
    ids', uids' := kept, keptUids;
    ghost var c := c0;
    assert ids[0..] == ids;
    for p := 0 to |found|
      invariant db.Valid() && Inserting(old(db.table), db.table, mailbox, c, ids', uids')
      invariant InsertIds(c, Fresh(b, ids[p..])) == InsertIds(c0, Fresh(b, ids))
    {
      MissingStep(b, ids, found, p, c, InsertIds(c0, Fresh(b, ids)));
      if !found[p] {
        ids', uids' := InsertOne(db, mailbox, ids[p], ids', uids', old(db.table), c);
        c := InsertId(c, ids[p]);
      }
    }
  }

  // ----- UIDVALIDITY -----

  /** Hours since the start of the year 2000, in 32 bits. */
  function Hours(now: nat): (hours: nat)
    ensures hours <= MAX_U32
  {
    (if now < 946684800 then 0 else now - 946684800) / 3600 % 0x1_0000_0000
  }

  function ValidityOf(t: Table, mailbox: MailboxId, now: nat): nat {
    if UidValidity(mailbox) in t && t[UidValidity(mailbox)].Num? then t[UidValidity(mailbox)].n else Hours(now)
  }

  /** A new UIDVALIDITY is the whole hours since the start of the year 2000, for the next 490 000 years. */
  lemma HoursSince2000(now: nat)
    requires 946_684_800 <= now < 946_684_800 + 3600 * 0x1_0000_0000
    ensures 3600 * Hours(now) <= now - 946_684_800 < 3600 * (Hours(now) + 1)
  {
    assert (now - 946_684_800) / 3600 < 0x1_0000_0000;
  }

  /** The mailbox's UIDVALIDITY, which is chosen when it is first asked for. */
  method GetUidValidity(db: Db, mailbox: MailboxId, now: nat) returns (validity: nat)
    requires db.Valid() && mailbox.Valid()
    modifies db
    ensures db.Valid() && validity == ValidityOf(old(db.table), mailbox, now)
    ensures db.table == old(db.table)[UidValidity(mailbox) := Num(validity)]
  {
    var value := db.Get(UidValidity(mailbox));
    if value.Some? {
      BigEndianRoundTrip(db.table[UidValidity(mailbox)].n);
      return FromBigEndian(value.value);
    }
    validity := Hours(now);
    db.Insert(UidValidity(mailbox), Num(validity));
  }

  lemma ValidityShows(t: Table, mailbox: MailboxId, validity: nat, b: Index)
    requires mailbox.Valid() && validity <= MAX_U32 && Shows(t, mailbox, b)
    ensures Shows(t[UidValidity(mailbox) := Num(validity)], mailbox, b)
  {
  }

  // ----- update_uids -----

  /** `last + 1` on 32 bits. */
  function NextUid(last: nat): nat {
    if last == MAX_U32 then 0 else last + 1
  }

  /** A UIDNEXT is the UID after the last one, or 0 when 32 bits are used up. */
  ghost predicate IsNext(next: nat, last: nat) {
    next == if last == 0xFFFF_FFFF then 0 else last + 1
  }

  datatype MailboxData = MailboxData(validity: nat, next: nat, total: nat, ids: seq<Id>, uids: seq<nat>)

  /** The database ends up with the index that the list of messages asks for, and the result lists
      its messages in the order of their UIDs. */
  method UpdateUids(db: Db, mailbox: MailboxId, ids: seq<Id>, now: nat, ghost b: Index) returns (data: MailboxData)
    requires db.Valid() && mailbox.Valid() && AllIds(ids) && now < 0x1_0000_0000_0000_0000
    requires Shows(db.table, mailbox, b) && Consistent(b) && Update(b, ids, now).last <= MAX_U32
    modifies db
    ensures db.Valid() && Shows(db.table, mailbox, Update(b, ids, now))
    ensures data.validity == ValidityOf(old(db.table), mailbox, now)
    ensures SameElsewhere(old(db.table)[UidValidity(mailbox) := Num(data.validity)], db.table, mailbox)
    ensures IsListing(Update(b, ids, now), data.ids, data.uids) && data.total == |data.uids|
    ensures IsNext(data.next, Update(b, ids, now).last)
  {
    var validity := GetUidValidity(db, mailbox, now);
    ValidityShows(old(db.table), mailbox, validity, b);
    ghost var t := db.table;
    var ids', uids' := UpdateMaps(db, mailbox, ids, now, b);
    var last := LastUid(db, mailbox);
    data := MailboxData(validity, NextUid(last), |uids'|, ids', uids');
  }

  method UpdateMaps(db: Db, mailbox: MailboxId, ids: seq<Id>, now: nat, ghost b: Index) returns (ids': seq<Id>, uids': seq<nat>)
    requires db.Valid() && mailbox.Valid() && AllIds(ids) && now < 0x1_0000_0000_0000_0000
    requires Shows(db.table, mailbox, b) && Consistent(b) && Update(b, ids, now).last <= MAX_U32
    modifies db
    ensures db.Valid() && Shows(db.table, mailbox, Update(b, ids, now))
    ensures SameElsewhere(old(db.table), db.table, mailbox)
    ensures IsListing(Update(b, ids, now), ids', uids')
  {
    var entries := ScanUids(db, mailbox);
    ScanListed(db.table, mailbox, entries, b);
    var s;
    ghost var seen;
    s, seen := SortEntries(mailbox, ids, entries, now, db.table, b);
    SeenAll(b, entries, seen);
    Sorted(db.table, mailbox, b, ids, now, s);
    if s.batch != [] {
      db.ApplyBatch(s.batch);
    }
    ids', uids' := s.ids, s.uids;
    if s.pending != map[] {
      ghost var t := db.table;
      ids', uids' := InsertMissing(db, mailbox, ids, s.found, s.ids, s.uids, b, Retain(b, ToSet(ids), now));
      SameElsewhereTransitive(old(db.table), t, db.table, mailbox);
    }
  }

  /** What a caller of update_uids can rely on when the list has no duplicates. */
  lemma UpdateResult(b: Index, ids: seq<Id>, now: nat, data: MailboxData)
    requires Consistent(b) && NoDuplicates(ids)
    requires IsListing(Update(b, ids, now), data.ids, data.uids) && IsNext(data.next, Update(b, ids, now).last)
    ensures forall id :: id in data.ids <==> id in ids
    ensures NoDuplicates(data.ids)
    ensures Update(b, ids, now).last < MAX_U32 ==> forall i :: 0 <= i < |data.uids| ==> 0 < data.uids[i] < data.next
    ensures forall i :: 0 <= i < |data.ids| && data.ids[i] in b.uids ==> data.uids[i] == b.uids[data.ids[i]]
  {
    UpdateConsistent(b, ids, now);
    var b' := Update(b, ids, now);
    forall id | id in ids
      ensures id in data.ids
    {
      assert b'.uids[id] in b'.names;
      var i :| 0 <= i < |data.uids| && data.uids[i] == b'.uids[id];
      assert data.ids[i] == id;
    }
  }

  /** Calling it again with the same list returns the same lists and changes nothing. */
  lemma UpdateTwice(b: Index, ids: seq<Id>, now: nat, later: nat, data: MailboxData, again: MailboxData)
    requires Consistent(b) && NoDuplicates(ids)
    requires IsListing(Update(b, ids, now), data.ids, data.uids) && IsNext(data.next, Update(b, ids, now).last)
    requires var b' := Update(b, ids, now);
             IsListing(Update(b', ids, later), again.ids, again.uids) && IsNext(again.next, Update(b', ids, later).last)
    ensures Update(Update(b, ids, now), ids, later) == Update(b, ids, now)
    ensures again.ids == data.ids && again.uids == data.uids && again.next == data.next
  {
    UpdateIdempotent(b, ids, now, later);
    ListingUnique(Update(b, ids, now), data.ids, data.uids, again.ids, again.uids);
  }

  // ----- jmap_to_imap -----

  /** The UID of a retired message. */
  method LookUpDeleted(db: Db, mailbox: MailboxId, id: Id) returns (uid: Option<nat>)
    requires db.Valid() && mailbox.Valid() && IsId(id)
    ensures uid.None? <==> DeletedId(mailbox, id) !in db.table
    ensures uid.Some? ==> db.table[DeletedId(mailbox, id)].Stamp? && db.table[DeletedId(mailbox, id)].uid == uid.value
  {
    var value := db.Get(DeletedId(mailbox, id));
    if value.None? {
      return None;
    }
    ghost var stamp := db.table[DeletedId(mailbox, id)];
    assert value.value[..4] == BigEndian(stamp.uid);
    BigEndianRoundTrip(stamp.uid);
    return Some(FromBigEndian(value.value[..4]));
  }

  /** What a message that is known, or retired, adds to the two lists; nothing if the message is to
      get a new UID. */
  method LookUpBoth(db: Db, mailbox: MailboxId, id: Id, options: MappingOptions, ghost b: Index) returns (found: Option<(seq<Id>, seq<nat>)>)
    requires db.Valid() && mailbox.Valid() && IsId(id) && Shows(db.table, mailbox, b)
    ensures found.None? <==> options == AddIfMissing && id !in b.uids
    ensures found.Some? ==> Mapping(b, found.value.0, found.value.1) == MapId(b, id, options)
  {
    LookUpsAgree(db.table, mailbox, id, b);
    if options != OnlyIncludeDeleted {
      var uid := LookUp(db, mailbox, id);
      if uid.Some? {
        return Some(([id], [uid.value]));
      } else if options == AddIfMissing {
        return None;
      } else if options != IncludeDeleted {
        return Some(([], []));
      }
    }
    var uid := LookUpDeleted(db, mailbox, id);
    found := Some(([], if uid.Some? then [uid.value] else []));
  }

  /** One turn of the lookup loop: what it adds to the two lists. Only a new UID changes the table. */
  method MapOne(db: Db, mailbox: MailboxId, id: Id, options: MappingOptions, ghost b: Index)
    returns (ids: seq<Id>, uids: seq<nat>, ghost c: Index)
    requires db.Valid() && mailbox.Valid() && IsId(id) && Shows(db.table, mailbox, b)
    requires MapId(b, id, options).index.last <= MAX_U32
    modifies db
    ensures db.Valid() && Mapping(c, ids, uids) == MapId(b, id, options)
    ensures (c == b && db.table == old(db.table)) || (c == InsertId(b, id) && db.table == Inserted(old(db.table), mailbox, id, b.last + 1))
  {
    var found := LookUpBoth(db, mailbox, id, options, b);
    if found.Some? {
      return found.value.0, found.value.1, b;
    }
    LastBound(db.table, mailbox, b);
    var uid := InsertJmapId(db, mailbox, id);
    return [id], [uid], InsertId(b, id);
  }

  lemma MappedShows(t0: Table, t: Table, t': Table, mailbox: MailboxId, id: Id, b: Index, c: Index)
    requires mailbox.Valid() && IsId(id) && c.last <= MAX_U32 && Shows(t, mailbox, b) && SameElsewhere(t0, t, mailbox)
    requires (c == b && t' == t) || (c == InsertId(b, id) && t' == Inserted(t, mailbox, id, b.last + 1))
    ensures Shows(t', mailbox, c) && SameElsewhere(t0, t', mailbox)
  {
    if t' != t {
      InsertShows(t, t', mailbox, id, b.last + 1, b);
      SameElsewhereTransitive(t0, t, t', mailbox);
    }
  }

  lemma LookUpsAgree(t: Table, mailbox: MailboxId, id: Id, b: Index)
    requires Shows(t, mailbox, b)
    ensures id in b.uids <==> JmapToUid(mailbox, id) in t
    ensures id in b.uids ==> t[JmapToUid(mailbox, id)] == Num(b.uids[id])
    ensures id in b.deleted <==> DeletedId(mailbox, id) in t
    ensures id in b.deleted ==> t[DeletedId(mailbox, id)] == Stamp(b.deleted[id].0, b.deleted[id].1)
    ensures Counter(t, mailbox) == b.last
  {
  }

  method JmapToImapIds(db: Db, mailbox: MailboxId, ids: seq<Id>, options: MappingOptions, ghost b: Index)
    returns (ids': seq<Id>, uids': seq<nat>)
    requires db.Valid() && mailbox.Valid() && AllIds(ids)
    requires Shows(db.table, mailbox, b) && MapIds(b, ids, options).index.last <= MAX_U32
    modifies db
    ensures db.Valid() && Shows(db.table, mailbox, MapIds(b, ids, options).index)
    ensures SameElsewhere(old(db.table), db.table, mailbox)
    ensures ids' == MapIds(b, ids, options).ids && uids' == MapIds(b, ids, options).uids
  {
    ids', uids' := [], [];
    ghost var c := b;
    assert ids[0..] == ids;
    for i := 0 to |ids|
      invariant db.Valid() && Shows(db.table, mailbox, c) && SameElsewhere(old(db.table), db.table, mailbox)
      invariant Resumes(MapIds(b, ids, options), ids', uids', MapIds(c, ids[i..], options))
    {
      ghost var t, c0 := db.table, c;
      MapStep(c, ids, i, options, MapIds(b, ids, options), ids', uids');
      var newIds, newUids;
      newIds, newUids, c := MapOne(db, mailbox, ids[i], options, c);
      ids', uids' := ids' + newIds, uids' + newUids;
      MappedShows(old(db.table), t, db.table, mailbox, ids[i], c0, c);
    }
    EmptyRight(ids');
    EmptyRight(uids');
  }

  /** `rest` completes what has been found to the whole. */
  ghost predicate Resumes(whole: Mapping, ids: seq<Id>, uids: seq<nat>, rest: Mapping) {
    whole == Mapping(rest.index, ids + rest.ids, uids + rest.uids)
  }

  lemma MapStep(c: Index, ids: seq<Id>, i: nat, options: MappingOptions, whole: Mapping, before: seq<Id>, uids: seq<nat>)
    requires i < |ids| && Resumes(whole, before, uids, MapIds(c, ids[i..], options))
    ensures var first := MapId(c, ids[i], options);
            && Resumes(whole, before + first.ids, uids + first.uids, MapIds(first.index, ids[i + 1..], options))
            && first.index.last <= whole.index.last
  {
    var first := MapId(c, ids[i], options);
    assert ids[i..][1..] == ids[i + 1..];
    var rest := MapIds(first.index, ids[i + 1..], options);
    MapIdsLast(first.index, ids[i + 1..], options);
    Associative(before, first.ids, rest.ids);
    Associative(uids, first.uids, rest.uids);
  }
}
