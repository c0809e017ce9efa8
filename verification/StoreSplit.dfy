/** A conditional STORE divides the requested messages: those to change, and those to report as
    modified. */
module StoreSplit {
  import opened Wrappers
  import opened Decimal
  import opened UidIndex
  import opened SelectedView
  import opened Selection
  import SequenceSet

  // ----- The split -----

  datatype Changes = Changes(created: set<Id>, updated: set<Id>, destroyed: set<Id>)

  predicate HasChanged(changes: Changes, id: Id) {
    id in changes.created || id in changes.updated || id in changes.destroyed
  }

  /** A message has changed if the server names it in any of its three lists. */
  lemma ChangedIff(changes: Changes, id: Id)
    ensures HasChanged(changes, id) <==> id in changes.created + changes.updated + changes.destroyed
  {
  }

  datatype Split = Split(kept: map<Id, ImapId>, modified: set<nat>, failed: bool)

  /** No two of the selected messages have the same number. */
  ghost predicate DistinctNumbers(ids: map<Id, ImapId>, isUid: bool) {
    forall a, b :: a in ids && b in ids && Number(ids[a], isUid) == Number(ids[b], isUid) ==> a == b
  }

  /** What the loop has done with the messages that are no longer in `rest`. */
  ghost predicate Splitting(ids: map<Id, ImapId>, rest: map<Id, ImapId>, requested: set<nat>, left: set<nat>, s: Split,
                            changes: Changes, isUid: bool) {
    && (forall id :: id in rest ==> id in ids && rest[id] == ids[id])
    && (forall id :: id in s.kept <==> id in ids && id !in rest && !HasChanged(changes, id))
    && (forall id :: id in s.kept ==> s.kept[id] == ids[id])
    && (forall n :: n in s.modified <==>
          exists id :: id in ids && id !in rest && HasChanged(changes, id) && Number(ids[id], isUid) == n)
    && (forall n :: n in left <==> n in requested && forall id :: id in ids && id !in rest ==> Number(ids[id], isUid) != n)
    && (s.failed <==> exists id :: id in ids && id !in rest && id in changes.destroyed)
  }

  lemma SplitStep(ids: map<Id, ImapId>, rest: map<Id, ImapId>, requested: set<nat>, left: set<nat>, s: Split,
                  changes: Changes, isUid: bool, id: Id)
    requires Splitting(ids, rest, requested, left, s, changes, isUid) && id in rest
    ensures var n := Number(rest[id], isUid);
            var failed := s.failed || id in changes.destroyed;
            var s' := if HasChanged(changes, id) then Split(s.kept, s.modified + {n}, failed)
                      else Split(s.kept[id := rest[id]], s.modified, failed);
            Splitting(ids, rest - {id}, requested, left - {n}, s', changes, isUid)
  {
    var n := Number(rest[id], isUid);
    var rest' := rest - {id};
    forall m
      ensures m in left - {n} <==> m in requested && forall x :: x in ids && x !in rest' ==> Number(ids[x], isUid) != m
    {
    }
  }

  method SplitLoop(ids: map<Id, ImapId>, requested: set<nat>, changes: Changes, isUid: bool) returns (s: Split, left: set<nat>)
    ensures Splitting(ids, map[], requested, left, s, changes, isUid)
  {
    var rest := ids;
    s, left := Split(map[], {}, false), requested;
    while rest != map[]
      invariant Splitting(ids, rest, requested, left, s, changes, isUid)
      decreases |rest|
    {
      var id :| id in rest;
      SplitStep(ids, rest, requested, left, s, changes, isUid, id);
      var n := Number(rest[id], isUid);
      left := left - {n};
      var failed := s.failed || id in changes.destroyed;
      if HasChanged(changes, id) {
        s := Split(s.kept, s.modified + {n}, failed);
      } else {
        s := Split(s.kept[id := rest[id]], s.modified, failed);
      }
      rest := rest - {id};
    }
  }

  function Numbers(ids: map<Id, ImapId>, isUid: bool): set<nat> {
    set id | id in ids :: Number(ids[id], isUid)
  }

  /** The split of a request that selects at least one message of the view, and the messages that it
      selects. It counts as failed if one of them is destroyed or a requested number has no message. */
  method SplitStore(view: seq<Message>, sequence: SequenceSet.Sequence, changes: Changes, isUid: bool)
    returns (s: Option<Split>, ids: map<Id, ImapId>)
    requires SequenceSet.Flat(sequence) && !SequenceSet.IsSavedSearch(sequence)
    requires isUid ==> forall i, j :: 0 <= i < j < |view| ==> view[i].uid != view[j].uid
    ensures Selects(ids, view, sequence, isUid, |view|)
    ensures s.None? <==> forall pos :: 0 <= pos < |view| ==> !IsRequested(view, sequence, isUid, pos)
    ensures s.Some? ==> IsExactSplit(view, sequence, changes, isUid, s.value)
    ensures s.Some? ==> forall id :: id in s.value.kept <==> id in ids && !HasChanged(changes, id)
    ensures s.Some? ==> (s.value.failed <==> Fails(view, sequence, changes, isUid, ids))
  {
    ids := SequenceToJmap(view, sequence, isUid);
    if ids == map[] {
      return None, ids;
    }
    var max := Largest(view, isUid);
    var requested := SequenceSet.Expand(sequence, max);
    var split, left := SplitLoop(ids, requested, changes, isUid);
    forall n
      ensures n in requested <==> SequenceSet.Contains(sequence, n, max)
    {
      SequenceSet.FlatExpandsAsContains(sequence, n, max);
    }
    SplitIsExact(view, sequence, changes, isUid, ids, requested, left, split);
    SplitFails(view, sequence, changes, isUid, ids, requested, left, split);
    s := Some(Split(split.kept, split.modified + left, split.failed || left != {}));
  }

  ghost predicate Fails(view: seq<Message>, sequence: SequenceSet.Sequence, changes: Changes, isUid: bool, ids: map<Id, ImapId>) {
    || (exists id :: id in ids && id in changes.destroyed)
    || (exists n :: SequenceSet.Contains(sequence, n, Largest(view, isUid)) && n !in Numbers(ids, isUid))
  }

  lemma SplitFails(view: seq<Message>, sequence: SequenceSet.Sequence, changes: Changes, isUid: bool,
                   ids: map<Id, ImapId>, requested: set<nat>, left: set<nat>, s: Split)
    requires forall n :: n in requested <==> SequenceSet.Contains(sequence, n, Largest(view, isUid))
    requires Splitting(ids, map[], requested, left, s, changes, isUid)
    ensures s.failed || left != {} <==> Fails(view, sequence, changes, isUid, ids)
  {
    if left != {} {
      var n :| n in left;
      assert n in requested && n !in Numbers(ids, isUid);
    } else {
      forall n | SequenceSet.Contains(sequence, n, Largest(view, isUid))
        ensures n in Numbers(ids, isUid)
      {
        assert n in requested;
        var id :| id in ids && Number(ids[id], isUid) == n;
      }
    }
  }

  /** Each requested number is either that of a message to change or reported as modified, and never
      both; no other number is either. */
  ghost predicate IsExactSplit(view: seq<Message>, sequence: SequenceSet.Sequence, changes: Changes, isUid: bool, s: Split) {
    && (forall n :: n in s.modified || n in Numbers(s.kept, isUid) <==> SequenceSet.Contains(sequence, n, Largest(view, isUid)))
    && (forall n :: !(n in s.modified && n in Numbers(s.kept, isUid)))
    && (forall id :: id in s.kept ==>
          !HasChanged(changes, id) && exists pos :: 0 <= pos < |view| && view[pos].id == id && s.kept[id] == At(view, pos))
  }

  lemma SelectedNumbers(view: seq<Message>, sequence: SequenceSet.Sequence, isUid: bool, ids: map<Id, ImapId>)
    requires Selects(ids, view, sequence, isUid, |view|)
    requires isUid ==> forall i, j :: 0 <= i < j < |view| ==> view[i].uid != view[j].uid
    ensures DistinctNumbers(ids, isUid)
    ensures forall id :: id in ids ==> SequenceSet.Contains(sequence, Number(ids[id], isUid), Largest(view, isUid))
  {
  }

  lemma SplitCovers(ids: map<Id, ImapId>, requested: set<nat>, left: set<nat>, s: Split, changes: Changes, isUid: bool, n: nat)
    requires Splitting(ids, map[], requested, left, s, changes, isUid)
    requires forall id :: id in ids ==> Number(ids[id], isUid) in requested
    ensures n in s.modified + left || n in Numbers(s.kept, isUid) <==> n in requested
  {
    if n in requested && n !in left {
      var id :| id in ids && Number(ids[id], isUid) == n;
      if !HasChanged(changes, id) {
        assert id in s.kept;
      }
    }
  }

  lemma SplitDisjoint(ids: map<Id, ImapId>, requested: set<nat>, left: set<nat>, s: Split, changes: Changes, isUid: bool, n: nat)
    requires Splitting(ids, map[], requested, left, s, changes, isUid) && DistinctNumbers(ids, isUid)
    ensures !(n in s.modified + left && n in Numbers(s.kept, isUid))
  {
    if n in Numbers(s.kept, isUid) {
      var id :| id in s.kept && Number(s.kept[id], isUid) == n;
      assert id in ids && !HasChanged(changes, id);
    }
  }

  lemma SplitIsExact(view: seq<Message>, sequence: SequenceSet.Sequence, changes: Changes, isUid: bool,
                     ids: map<Id, ImapId>, requested: set<nat>, left: set<nat>, s: Split)
    requires Selects(ids, view, sequence, isUid, |view|)
    requires isUid ==> forall i, j :: 0 <= i < j < |view| ==> view[i].uid != view[j].uid
    requires forall n :: n in requested <==> SequenceSet.Contains(sequence, n, Largest(view, isUid))
    requires Splitting(ids, map[], requested, left, s, changes, isUid)
    ensures IsExactSplit(view, sequence, changes, isUid, Split(s.kept, s.modified + left, s.failed || left != {}))
  {
    SelectedNumbers(view, sequence, isUid, ids);
    SplitNumbers(ids, requested, left, s, changes, isUid);
    SplitKept(view, sequence, isUid, ids, requested, left, s, changes);
  }

  lemma SplitNumbers(ids: map<Id, ImapId>, requested: set<nat>, left: set<nat>, s: Split, changes: Changes, isUid: bool)
    requires Splitting(ids, map[], requested, left, s, changes, isUid) && DistinctNumbers(ids, isUid)
    requires forall id :: id in ids ==> Number(ids[id], isUid) in requested
    ensures forall n :: n in s.modified + left || n in Numbers(s.kept, isUid) <==> n in requested
    ensures forall n :: !(n in s.modified + left && n in Numbers(s.kept, isUid))
  {
    forall n
      ensures n in s.modified + left || n in Numbers(s.kept, isUid) <==> n in requested
      ensures !(n in s.modified + left && n in Numbers(s.kept, isUid))
    {
      SplitCovers(ids, requested, left, s, changes, isUid, n);
      SplitDisjoint(ids, requested, left, s, changes, isUid, n);
    }
  }

  lemma SplitKept(view: seq<Message>, sequence: SequenceSet.Sequence, isUid: bool,
                  ids: map<Id, ImapId>, requested: set<nat>, left: set<nat>, s: Split, changes: Changes)
    requires Selects(ids, view, sequence, isUid, |view|) && Splitting(ids, map[], requested, left, s, changes, isUid)
    ensures forall id :: id in s.kept ==>
      !HasChanged(changes, id) && exists pos :: 0 <= pos < |view| && view[pos].id == id && s.kept[id] == At(view, pos)
  {
    forall id | id in s.kept
      ensures exists pos :: 0 <= pos < |view| && view[pos].id == id && s.kept[id] == At(view, pos)
    {
      var pos :| 0 <= pos < |view| && IsRequested(view, sequence, isUid, pos) && view[pos].id == id && ids[id] == At(view, pos);
    }
  }
}
