/** The UIDs of one mailbox, as the abstract index that the database must agree with. */
module UidIndex {
  import opened Wrappers
  import opened Sequences
  import opened Decimal
  import opened Keys
  import opened Database

  type Id = Bytes

  /** The two UID maps, the last UID handed out, and the UIDs of deleted messages with the time of
      their deletion. */
  datatype Index = Index(uids: map<Id, nat>, names: map<nat, Id>, last: nat, deleted: map<Id, (nat, nat)>)

  /** The maps are inverse to each other. */
  ghost predicate Inverse(b: Index) {
    && (forall id :: id in b.uids ==> b.uids[id] in b.names && b.names[b.uids[id]] == id)
    && (forall uid :: uid in b.names ==> b.names[uid] in b.uids && b.uids[b.names[uid]] == uid)
  }

  /** Every UID in use or retired has been handed out, and none is both. */
  ghost predicate Bounded(b: Index) {
    && (forall uid :: uid in b.names ==> 0 < uid <= b.last)
    && (forall id :: id in b.deleted ==> 0 < b.deleted[id].0 <= b.last && b.deleted[id].0 !in b.names)
  }

  ghost predicate Consistent(b: Index) {
    Inverse(b) && Bounded(b)
  }

  // ----- The operations on the abstract index -----

  /** A message gets the next UID. */
  function InsertId(b: Index, id: Id): Index {
    Index(b.uids[id := b.last + 1], b.names[b.last + 1 := id], b.last + 1, b.deleted)
  }

  function InsertIds(b: Index, ids: seq<Id>): Index
    decreases |ids|
  {
    if ids == [] then b else InsertIds(InsertId(b, ids[0]), ids[1..])
  }

  lemma {:induction false} InsertIdsLast(b: Index, ids: seq<Id>)
    ensures InsertIds(b, ids).last == b.last + |ids|
    decreases |ids|
  {
    if ids != [] {
      InsertIdsLast(InsertId(b, ids[0]), ids[1..]);
    }
  }

  /** A message's UID is retired. */
  function DeleteId(b: Index, id: Id, now: nat): Index {
    if id !in b.uids then b
    else Index(b.uids - {id}, b.names - {b.uids[id]}, b.last, b.deleted[id := (b.uids[id], now)])
  }

  function DeleteIds(b: Index, ids: seq<Id>, now: nat): Index
    decreases |ids|
  {
    if ids == [] then b else DeleteIds(DeleteId(b, ids[0], now), ids[1..], now)
  }

  /** Everything but the messages in `keep` is retired. */
  function Retain(b: Index, keep: set<Id>, now: nat): Index {
    Index(map id | id in b.uids && id in keep :: b.uids[id],
        map uid | uid in b.names && b.names[uid] in keep :: b.names[uid],
        b.last,
        b.deleted + map id | id in b.uids && id !in keep :: (b.uids[id], now))
  }

  function ToSet<T>(s: seq<T>): set<T> {
    set x | x in s
  }

  predicate AllKnown(b: Index, ids: seq<Id>) {
    forall i :: 0 <= i < |ids| ==> ids[i] in b.uids
  }

  /** Positions of a list whose message gets a new UID: those of unknown messages, and of all but
      the last occurrence of a known one. */
  function Fresh(b: Index, ids: seq<Id>): seq<Id> {
    if ids == [] then []
    else (if ids[0] in b.uids && ids[0] !in ids[1..] then [] else [ids[0]]) + Fresh(b, ids[1..])
  }

  /** The index after the mailbox has been found to hold exactly the messages `ids`. */
  function Update(b: Index, ids: seq<Id>, now: nat): Index {
    InsertIds(Retain(b, ToSet(ids), now), Added(b, ids))
  }

  // ----- Invariants -----

  lemma InsertConsistent(b: Index, id: Id)
    requires Consistent(b) && id !in b.uids
    ensures Consistent(InsertId(b, id))
  {
  }

  lemma {:induction false} InsertIdsConsistent(b: Index, ids: seq<Id>)
    requires Consistent(b) && NoDuplicates(ids) && forall id :: id in ids ==> id !in b.uids
    ensures Consistent(InsertIds(b, ids))
    ensures InsertIds(b, ids).uids.Keys == b.uids.Keys + ToSet(ids)
    ensures InsertIds(b, ids).last == b.last + |ids| && InsertIds(b, ids).deleted == b.deleted
    ensures forall id :: id in b.uids ==> InsertIds(b, ids).uids[id] == b.uids[id]
    decreases |ids|
  {
    if ids != [] {
      InsertConsistent(b, ids[0]);
      InsertIdsConsistent(InsertId(b, ids[0]), ids[1..]);
      assert ToSet(ids) == {ids[0]} + ToSet(ids[1..]);
    }
  }

  lemma DeleteConsistent(b: Index, id: Id, now: nat)
    requires Consistent(b)
    ensures Consistent(DeleteId(b, id, now))
  {
  }

  lemma {:induction false} DeleteIdsConsistent(b: Index, ids: seq<Id>, now: nat)
    requires Consistent(b)
    ensures Consistent(DeleteIds(b, ids, now))
    ensures DeleteIds(b, ids, now).uids == b.uids - ToSet(ids)
    decreases |ids|
  {
    if ids != [] {
      DeleteConsistent(b, ids[0], now);
      DeleteIdsConsistent(DeleteId(b, ids[0], now), ids[1..], now);
      assert ToSet(ids) == {ids[0]} + ToSet(ids[1..]);
    }
  }

  lemma RetainConsistent(b: Index, keep: set<Id>, now: nat)
    requires Consistent(b)
    ensures Consistent(Retain(b, keep, now))
    ensures Retain(b, keep, now).uids.Keys == b.uids.Keys * keep
  {
  }

  lemma {:induction false} FreshIsUnknown(b: Index, ids: seq<Id>)
    requires NoDuplicates(ids)
    ensures NoDuplicates(Fresh(b, ids))
    ensures forall id :: id in Fresh(b, ids) <==> id in ids && id !in b.uids
    decreases |ids|
  {
    if ids != [] {
      var first, rest := ids[0], ids[1..];
      FreshIsUnknown(b, rest);
      assert first !in rest && first !in Fresh(b, rest);
      assert forall i :: 0 <= i < |Fresh(b, rest)| ==> Fresh(b, rest)[i] in Fresh(b, rest);
    }
  }

  /** The messages that an update adds to the index. */
  function Added(b: Index, ids: seq<Id>): seq<Id> {
    if AllKnown(b, ids) then [] else Fresh(b, ids)
  }

  lemma AddedIsUnknown(b: Index, ids: seq<Id>)
    requires NoDuplicates(ids)
    ensures NoDuplicates(Added(b, ids))
    ensures forall id :: id in Added(b, ids) <==> id in ids && id !in b.uids
  {
    FreshIsUnknown(b, ids);
  }

  /** A list without duplicates leaves exactly its messages in the index; the known ones keep
      their UIDs, and the index stays a bijection. */
  lemma UpdateConsistent(b: Index, ids: seq<Id>, now: nat)
    requires Consistent(b) && NoDuplicates(ids)
    ensures Consistent(Update(b, ids, now))
    ensures forall id :: id in Update(b, ids, now).uids <==> id in ids
    ensures forall id :: id in ids && id in b.uids ==> Update(b, ids, now).uids[id] == b.uids[id]
    ensures forall id :: id in ids && id !in b.uids ==> b.last < Update(b, ids, now).uids[id]
  {
    var kept := Retain(b, ToSet(ids), now);
    RetainConsistent(b, ToSet(ids), now);
    AddedIsUnknown(b, ids);
    InsertIdsConsistent(kept, Added(b, ids));
    NewUidsAbove(kept, Added(b, ids));
  }

  lemma {:induction false} NewUidsAbove(b: Index, ids: seq<Id>)
    ensures forall id :: id in ids ==> id in InsertIds(b, ids).uids && b.last < InsertIds(b, ids).uids[id]
    ensures forall id :: id in b.uids ==>
      id in InsertIds(b, ids).uids && (InsertIds(b, ids).uids[id] == b.uids[id] || b.last < InsertIds(b, ids).uids[id])
    decreases |ids|
  {
    if ids != [] {
      NewUidsAbove(InsertId(b, ids[0]), ids[1..]);
    }
  }

  // ----- Retiring in steps -----

  lemma DeleteRetained(b: Index, keep: set<Id>, id: Id, now: nat)
    requires Inverse(b) && id in b.uids && id in keep
    ensures var c, d := DeleteId(Retain(b, keep, now), id, now), Retain(b, keep - {id}, now);
            c.uids == d.uids && c.names == d.names
  {
  }

  lemma DeleteStamped(b: Index, keep: set<Id>, id: Id, now: nat)
    requires id in b.uids && id in keep
    ensures DeleteId(Retain(b, keep, now), id, now).deleted == Retain(b, keep - {id}, now).deleted
  {
  }

  lemma DeleteFromRetained(b: Index, keep: set<Id>, id: Id, now: nat)
    requires Inverse(b) && id in b.uids
    ensures DeleteId(Retain(b, keep, now), id, now) == Retain(b, keep - {id}, now)
  {
    if id in keep {
      DeleteRetained(b, keep, id, now);
      DeleteStamped(b, keep, id, now);
    } else {
      assert keep - {id} == keep;
    }
  }

  /** Only the messages of the index matter. */
  lemma RetainSame(b: Index, keep: set<Id>, also: set<Id>, now: nat)
    requires Inverse(b) && forall id :: id in b.uids ==> (id in keep <==> id in also)
    ensures Retain(b, keep, now) == Retain(b, also, now)
  {
    var c, d := Retain(b, keep, now), Retain(b, also, now);
    assert c.uids == d.uids;
    assert c.names == d.names;
    assert (map id | id in b.uids && id !in keep :: (b.uids[id], now)) == (map id | id in b.uids && id !in also :: (b.uids[id], now));
  }

  // ----- Listings -----

  /** Two parallel lists of the messages of an index, in the order of their UIDs. */
  ghost predicate IsListing(b: Index, ids: seq<Id>, uids: seq<nat>) {
    && |ids| == |uids|
    && (forall i :: 0 <= i < |uids| ==> uids[i] in b.names && b.names[uids[i]] == ids[i])
    && (forall i, j :: 0 <= i < j < |uids| ==> uids[i] < uids[j])
    && (forall uid :: uid in b.names ==> uid in uids)
  }

  /** A message with a new UID goes to the end of the listing. */
  lemma ListingGrows(b: Index, ids: seq<Id>, uids: seq<nat>, id: Id)
    requires IsListing(b, ids, uids) && forall uid :: uid in b.names ==> uid <= b.last
    ensures IsListing(InsertId(b, id), ids + [id], uids + [b.last + 1])
  {
  }

  /** The lists of an index are determined by it. */
  lemma {:induction false} ListingUnique(b: Index, ids: seq<Id>, uids: seq<nat>, ids': seq<Id>, uids': seq<nat>)
    requires IsListing(b, ids, uids) && IsListing(b, ids', uids')
    ensures ids == ids' && uids == uids'
  {
    AscendingUnique(uids, uids');
  }

  lemma {:induction false} AscendingUnique(s: seq<nat>, t: seq<nat>)
    requires forall i, j :: 0 <= i < j < |s| ==> s[i] < s[j]
    requires forall i, j :: 0 <= i < j < |t| ==> t[i] < t[j]
    requires forall x :: x in s <==> x in t
    ensures s == t
  {
    assert s != [] ==> s[0] in t;
    assert t != [] ==> t[0] in s;
    if s != [] && t != [] {
      forall x
        ensures x in s[1..] <==> x in t[1..]
      {
        assert x in s <==> x == s[0] || x in s[1..];
        assert x in t <==> x == t[0] || x in t[1..];
      }
      AscendingUnique(s[1..], t[1..]);
      assert s == [s[0]] + s[1..] && t == [t[0]] + t[1..];
    }
  }

  // ----- UIDs over time -----

  /** `later` may have lost messages of `b` and gained new ones, but it has given no UID of `b`'s
      time to another message, nor one back to a message that had lost it. */
  ghost predicate Later(b: Index, later: Index) {
    && b.last <= later.last
    && forall uid :: uid in later.names && uid <= b.last ==> uid in b.names && later.names[uid] == b.names[uid]
  }

  lemma {:induction false} InsertIdsLater(b: Index, ids: seq<Id>)
    ensures Later(b, InsertIds(b, ids))
    decreases |ids|
  {
    if ids != [] {
      assert Later(b, InsertId(b, ids[0]));
      InsertIdsLater(InsertId(b, ids[0]), ids[1..]);
    }
  }

  lemma {:induction false} DeleteIdsLater(b: Index, ids: seq<Id>, now: nat)
    ensures Later(b, DeleteIds(b, ids, now))
    decreases |ids|
  {
    if ids != [] {
      DeleteIdsLater(DeleteId(b, ids[0], now), ids[1..], now);
    }
  }

  lemma UpdateLater(b: Index, ids: seq<Id>, now: nat)
    ensures Later(b, Update(b, ids, now))
  {
    InsertIdsLater(Retain(b, ToSet(ids), now), Added(b, ids));
  }

  lemma RetainAll(b: Index, keep: set<Id>, now: nat)
    requires Inverse(b) && forall id :: id in b.uids ==> id in keep
    ensures Retain(b, keep, now) == b
  {
    assert (map id | id in b.uids && id in keep :: b.uids[id]) == b.uids;
    assert (map uid | uid in b.names && b.names[uid] in keep :: b.names[uid]) == b.names;
    assert (map id | id in b.uids && id !in keep :: (b.uids[id], now)) == map[];
  }

  /** A second update with the same list changes nothing. */
  lemma UpdateIdempotent(b: Index, ids: seq<Id>, now: nat, later: nat)
    requires Consistent(b) && NoDuplicates(ids)
    ensures Update(Update(b, ids, now), ids, later) == Update(b, ids, now)
  {
    var b' := Update(b, ids, now);
    UpdateConsistent(b, ids, now);
    RetainAll(b', ToSet(ids), later);
  }

  lemma {:induction false} InsertedNames(b: Index, ids: seq<Id>, i: nat)
    requires i < |ids|
    ensures b.last + 1 + i in InsertIds(b, ids).names && InsertIds(b, ids).names[b.last + 1 + i] == ids[i]
    decreases |ids|
  {
    var next := InsertId(b, ids[0]);
    if i == 0 {
      NamesStay(next, ids[1..], next.last);
    } else {
      InsertedNames(next, ids[1..], i - 1);
    }
  }

  lemma {:induction false} NamesStay(b: Index, ids: seq<Id>, uid: nat)
    requires uid in b.names && uid <= b.last
    ensures uid in InsertIds(b, ids).names && InsertIds(b, ids).names[uid] == b.names[uid]
    decreases |ids|
  {
    if ids != [] {
      NamesStay(InsertId(b, ids[0]), ids[1..], uid);
    }
  }

  /** Where the message at position `p` stands among those that get a new UID. */
  lemma {:induction false} FreshAt(b: Index, ids: seq<Id>, p: nat) returns (i: nat)
    requires p < |ids| && (ids[p] in b.uids ==> ids[p] in ids[p + 1..])
    ensures i < |Fresh(b, ids)| && Fresh(b, ids)[i] == ids[p]
    ensures i == |Fresh(b, ids)| - |Fresh(b, ids[p..])|
    decreases p
  {
    if p == 0 {
      assert ids[0..] == ids;
      i := 0;
    } else {
      var rest := ids[1..];
      assert rest[p - 1..] == ids[p..] && rest[p..] == ids[p + 1..];
      var j := FreshAt(b, rest, p - 1);
      i := |Fresh(b, ids)| - |Fresh(b, rest)| + j;
    }
  }

  lemma DuplicateGetsTwoUids(b: Index, ids: seq<Id>, p: nat, q: nat, now: nat)
    requires Consistent(b) && p < q < |ids| && ids[p] == ids[q] && !AllKnown(b, ids)
    ensures !Inverse(Update(b, ids, now))
  {
    var kept, added, id := Retain(b, ToSet(ids), now), Fresh(b, ids), ids[p];
    assert ids[p + 1..][q - p - 1] == id;
    var i := FreshAt(b, ids, p);
    InsertedNames(kept, added, i);
    if id in b.uids {
      assert id in ToSet(ids);
      NamesStay(kept, added, b.uids[id]);
    } else {
      var j := FreshAt(b, ids, q);
      FreshShrinks(b, ids, p, q);
      InsertedNames(kept, added, j);
    }
  }

  lemma {:induction false} FreshShrinks(b: Index, ids: seq<Id>, p: nat, q: nat)
    requires p < q <= |ids| && (ids[p] in b.uids ==> ids[p] in ids[p + 1..])
    ensures |Fresh(b, ids[q..])| < |Fresh(b, ids[p..])|
    decreases q
  {
    assert ids[p..][1..] == ids[p + 1..];
    if p + 1 < q {
      FreshShorter(b, ids, p + 1, q);
    }
  }

  lemma {:induction false} FreshShorter(b: Index, ids: seq<Id>, p: nat, q: nat)
    requires p <= q <= |ids|
    ensures |Fresh(b, ids[q..])| <= |Fresh(b, ids[p..])|
    decreases q - p
  {
    if p < q {
      assert ids[p..][1..] == ids[p + 1..];
      FreshShorter(b, ids, p + 1, q);
    }
  }

  /** Duplicates do no harm while every message is known. Otherwise each one leaves a message with
      two UIDs. */
  lemma UpdateConsistentIff(b: Index, ids: seq<Id>, now: nat)
    requires Consistent(b)
    ensures Consistent(Update(b, ids, now)) <==> NoDuplicates(ids) || AllKnown(b, ids)
  {
    if NoDuplicates(ids) {
      UpdateConsistent(b, ids, now);
    } else if AllKnown(b, ids) {
      RetainConsistent(b, ToSet(ids), now);
    } else {
      var p, q :| 0 <= p < q < |ids| && ids[p] == ids[q];
      DuplicateGetsTwoUids(b, ids, p, q, now);
    }
  }

  /** An unknown message that is listed twice keeps two UIDs. */
  lemma TwiceListed(id: Id, now: nat)
    ensures Update(EMPTY, [id, id], now).names == map[1 := id, 2 := id]
  {
    var none: seq<Id> := [];
    assert [id, id][1..] == [id] && [id][1..] == none;
    assert Fresh(EMPTY, [id]) == [id] + Fresh(EMPTY, none) == [id];
    assert Fresh(EMPTY, [id, id]) == [id] + Fresh(EMPTY, [id, id][1..]) == [id] + [id];
    var kept := Retain(EMPTY, ToSet([id, id]), now);
    assert kept == EMPTY;
    assert InsertIds(EMPTY, [id, id]) == InsertIds(InsertId(EMPTY, id), [id]);
    assert InsertIds(InsertId(EMPTY, id), [id]) == InsertId(InsertId(EMPTY, id), id);
  }

  // ----- Looking up a list of messages -----

  datatype MappingOptions = Plain | AddIfMissing | IncludeDeleted | OnlyIncludeDeleted

  datatype Mapping = Mapping(index: Index, ids: seq<Id>, uids: seq<nat>)

  /** One message of a lookup. A deleted message contributes its retired UID, but not its id. */
  function MapId(b: Index, id: Id, options: MappingOptions): Mapping {
    if options != OnlyIncludeDeleted && id in b.uids then Mapping(b, [id], [b.uids[id]])
    else if options == AddIfMissing then Mapping(InsertId(b, id), [id], [b.last + 1])
    else if options != Plain && id in b.deleted then Mapping(b, [], [b.deleted[id].0])
    else Mapping(b, [], [])
  }

  function MapIds(b: Index, ids: seq<Id>, options: MappingOptions): Mapping
    decreases |ids|
  {
    if ids == [] then Mapping(b, [], [])
    else
      var first := MapId(b, ids[0], options);
      var rest := MapIds(first.index, ids[1..], options);
      Mapping(rest.index, first.ids + rest.ids, first.uids + rest.uids)
  }

  lemma {:induction false} MapIdsLast(b: Index, ids: seq<Id>, options: MappingOptions)
    ensures b.last <= MapIds(b, ids, options).index.last
    decreases |ids|
  {
    if ids != [] {
      MapIdsLast(MapId(b, ids[0], options).index, ids[1..], options);
    }
  }

  lemma {:induction false} MapIdsConsistent(b: Index, ids: seq<Id>, options: MappingOptions)
    requires Consistent(b)
    ensures Consistent(MapIds(b, ids, options).index) && Later(b, MapIds(b, ids, options).index)
    ensures options != AddIfMissing ==> MapIds(b, ids, options).index == b
    ensures forall id :: id in b.uids ==> id in MapIds(b, ids, options).index.uids && MapIds(b, ids, options).index.uids[id] == b.uids[id]
    decreases |ids|
  {
    if ids != [] {
      MapIdsConsistent(MapId(b, ids[0], options).index, ids[1..], options);
    }
  }

  /** The index holds `uids` for `ids`, position by position. */
  ghost predicate HoldsFor(b: Index, ids: seq<Id>, uids: seq<nat>) {
    |uids| == |ids| && forall i :: 0 <= i < |ids| ==> ids[i] in b.uids && b.uids[ids[i]] == uids[i]
  }

  lemma HoldsForCons(b: Index, id: Id, ids: seq<Id>, uid: nat, uids: seq<nat>)
    requires HoldsFor(b, ids, uids) && id in b.uids && b.uids[id] == uid
    ensures HoldsFor(b, [id] + ids, [uid] + uids)
  {
  }

  lemma MapIdAligned(b: Index, id: Id)
    requires Consistent(b)
    ensures var first := MapId(b, id, AddIfMissing);
            && Consistent(first.index) && first.ids == [id]
            && id in first.index.uids && first.uids == [first.index.uids[id]]
  {
  }

  /** With AddIfMissing every requested message is returned, in order, with the UID that the index
      then holds for it. */
  lemma {:induction false} MapIdsAligned(b: Index, ids: seq<Id>)
    requires Consistent(b)
    ensures MapIds(b, ids, AddIfMissing).ids == ids
    ensures HoldsFor(MapIds(b, ids, AddIfMissing).index, ids, MapIds(b, ids, AddIfMissing).uids)
    decreases |ids|
  {
    if ids != [] {
      var first := MapId(b, ids[0], AddIfMissing);
      var rest := MapIds(first.index, ids[1..], AddIfMissing);
      MapIdAligned(b, ids[0]);
      MapIdsConsistent(first.index, ids[1..], AddIfMissing);
      MapIdsAligned(first.index, ids[1..]);
      HoldsForCons(rest.index, ids[0], ids[1..], first.uids[0], rest.uids);
      assert ids == [ids[0]] + ids[1..];
    }
  }

  /** The listed messages of a set, in order. */
  function Those(ids: seq<Id>, known: set<Id>): seq<Id> {
    if ids == [] then [] else (if ids[0] in known then [ids[0]] else []) + Those(ids[1..], known)
  }

  /** The UIDs of the listed messages that have one, in order. */
  function UidsIn(ids: seq<Id>, uids: map<Id, nat>): seq<nat> {
    if ids == [] then [] else (if ids[0] in uids then [uids[ids[0]]] else []) + UidsIn(ids[1..], uids)
  }

  /** The UID that each deleted message had. */
  ghost function Retired(b: Index): map<Id, nat> {
    map id | id in b.deleted :: b.deleted[id].0
  }

  /** Exactly the known messages, each with its UID. */
  lemma {:induction false} PlainFindsKnown(b: Index, ids: seq<Id>)
    ensures MapIds(b, ids, Plain) == Mapping(b, Those(ids, b.uids.Keys), UidsIn(ids, b.uids))
    decreases |ids|
  {
    if ids != [] {
      PlainFindsKnown(b, ids[1..]);
    }
  }

  /** No ids, and the retired UID of each listed message that has one. */
  lemma {:induction false} OnlyDeletedFindsRetired(b: Index, ids: seq<Id>)
    ensures MapIds(b, ids, OnlyIncludeDeleted) == Mapping(b, [], UidsIn(ids, Retired(b)))
    decreases |ids|
  {
    if ids != [] {
      OnlyDeletedFindsRetired(b, ids[1..]);
    }
  }

  /** The known messages, and for each listed message the UID in use, or else the retired one. */
  lemma {:induction false} DeletedFindsBoth(b: Index, ids: seq<Id>)
    ensures MapIds(b, ids, IncludeDeleted) == Mapping(b, Those(ids, b.uids.Keys), UidsIn(ids, Retired(b) + b.uids))
    decreases |ids|
  {
    if ids != [] {
      DeletedFindsBoth(b, ids[1..]);
    }
  }

  /** What is remembered of a deletion is the UID that the message had, and the time. */
  lemma {:induction false} DeletionIsRemembered(b: Index, ids: seq<Id>, id: Id, now: nat)
    requires id in b.uids && id in ids
    ensures id in DeleteIds(b, ids, now).deleted && DeleteIds(b, ids, now).deleted[id] == (b.uids[id], now)
    decreases |ids|
  {
    var next := DeleteId(b, ids[0], now);
    if id == ids[0] {
      DeletionsStay(next, ids[1..], id, now);
    } else {
      DeletionIsRemembered(next, ids[1..], id, now);
    }
  }

  lemma {:induction false} DeletionsStay(b: Index, ids: seq<Id>, id: Id, now: nat)
    requires id !in b.uids
    ensures id !in DeleteIds(b, ids, now).uids
    ensures id in b.deleted ==> id in DeleteIds(b, ids, now).deleted && DeleteIds(b, ids, now).deleted[id] == b.deleted[id]
    decreases |ids|
  {
    if ids != [] {
      DeletionsStay(DeleteId(b, ids[0], now), ids[1..], id, now);
    }
  }

  lemma {:induction false} InsertKeepsDeletions(b: Index, ids: seq<Id>)
    ensures InsertIds(b, ids).deleted == b.deleted
    decreases |ids|
  {
    if ids != [] {
      InsertKeepsDeletions(InsertId(b, ids[0]), ids[1..]);
    }
  }

  /** An update retires the messages that are not listed, with the UID that they had, and forgets no
      other deletion. */
  lemma UpdateRetires(b: Index, ids: seq<Id>, id: Id, now: nat)
    ensures var gone := Update(b, ids, now).deleted;
            if id in b.uids && id !in ids then id in gone && gone[id] == (b.uids[id], now)
            else if id in b.deleted then id in gone && gone[id] == b.deleted[id]
            else id !in gone
  {
    InsertKeepsDeletions(Retain(b, ToSet(ids), now), Added(b, ids));
  }

  // ----- Whole runs -----

  datatype Action =
    | UpdateUids(ids: seq<Id>, now: nat)
    | JmapToImap(ids: seq<Id>, options: MappingOptions)
    | DeleteMessages(ids: seq<Id>, now: nat)

  function Perform(b: Index, action: Action): Index {
    match action
    case UpdateUids(ids, now) => Update(b, ids, now)
    case JmapToImap(ids, options) => MapIds(b, ids, options).index
    case DeleteMessages(ids, now) => DeleteIds(b, ids, now)
  }

  function RunAll(b: Index, actions: seq<Action>): Index
    decreases |actions|
  {
    if actions == [] then b else RunAll(Perform(b, actions[0]), actions[1..])
  }

  const EMPTY := Index(map[], map[], 0, map[])

  ghost predicate WithoutDuplicates(actions: seq<Action>) {
    forall i :: 0 <= i < |actions| && actions[i].UpdateUids? ==> NoDuplicates(actions[i].ids)
  }

  /** Every run keeps the two maps inverse, keeps every UID in use or retired at or below the last
      one handed out, and never gives a UID to two messages or back to a retired one. */
  lemma {:induction false} RunConsistent(b: Index, actions: seq<Action>)
    requires Consistent(b) && WithoutDuplicates(actions)
    ensures Consistent(RunAll(b, actions)) && Later(b, RunAll(b, actions))
    decreases |actions|
  {
    if actions != [] {
      var next := Perform(b, actions[0]);
      match actions[0] {
        case UpdateUids(ids, now) =>
          UpdateConsistent(b, ids, now);
          UpdateLater(b, ids, now);
        case JmapToImap(ids, options) => MapIdsConsistent(b, ids, options);
        case DeleteMessages(ids, now) =>
          DeleteIdsConsistent(b, ids, now);
          DeleteIdsLater(b, ids, now);
      }
      RunConsistent(next, actions[1..]);
    }
  }

  /** A UID retired at some time of a run is not in use at any later time. */
  lemma RetiredForGood(before: seq<Action>, after: seq<Action>, id: Id)
    requires WithoutDuplicates(before) && WithoutDuplicates(after)
    requires id in RunAll(EMPTY, before).deleted
    ensures RunAll(EMPTY, before).deleted[id].0 !in RunAll(RunAll(EMPTY, before), after).names
  {
    RunConsistent(EMPTY, before);
    RunConsistent(RunAll(EMPTY, before), after);
  }
}
