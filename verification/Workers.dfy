/** Calls of insert_jmap_id running at the same time, interleaved between database operations. */
module Workers {
  import opened Wrappers
  import opened Sequences
  import opened Decimal
  import opened Keys
  import opened Database
  import opened UidIndex
  import opened UidStore

  /** How far a call has come: nothing done, the counter incremented, the UID written under the
      id, the id written under the UID. */
  datatype Progress = Waiting | Counted | Written | Done

  datatype Call = Call(id: Id, progress: Progress, uid: nat)

  /** The index of one mailbox and the calls made for it so far. */
  datatype System = System(index: Index, calls: seq<Call>)

  datatype Step =
    | Start(id: Id)
    | Advance(i: nat)
    | Retire(ids: seq<Id>, now: nat)
    | RetireOthers(ids: seq<Id>, now: nat)

  /** One atomic database operation, or the start of a call. */
  function Next(s: System, step: Step): System {
    match step
    case Start(id) => System(s.index, s.calls + [Call(id, Waiting, 0)])
    case Advance(i) => if i < |s.calls| then AdvanceCall(s, i) else s
    case Retire(ids, now) => System(DeleteIds(s.index, ids, now), s.calls)
    case RetireOthers(ids, now) => System(Retain(s.index, ToSet(ids), now), s.calls)
  }

  function AdvanceCall(s: System, i: nat): System
    requires i < |s.calls|
  {
    var b, c := s.index, s.calls[i];
    match c.progress
    case Waiting => System(b.(last := b.last + 1), s.calls[i := Call(c.id, Counted, b.last + 1)])
    case Counted => System(b.(uids := b.uids[c.id := c.uid]), s.calls[i := c.(progress := Written)])
    case Written => System(b.(names := b.names[c.uid := c.id]), s.calls[i := c.(progress := Done)])
    case Done => s
  }

  function Run(s: System, steps: seq<Step>): System
    decreases |steps|
  {
    if steps == [] then s else Run(Next(s, steps[0]), steps[1..])
  }

  /** The database operation of a call that has not finished. */
  function WriteOf(t: Table, mailbox: MailboxId, c: Call): Table {
    match c.progress
    case Waiting => t[UidNext(mailbox) := Num(Counter(t, mailbox) + 1)]
    case Counted => t[JmapToUid(mailbox, c.id) := Num(c.uid)]
    case Written => t[UidToJmap(mailbox, c.uid) := Name(c.id)]
    case Done => t
  }

  /** Advancing a call on the index is its next database operation. */
  lemma AdvanceShows(t: Table, mailbox: MailboxId, s: System, i: nat)
    requires mailbox.Valid() && i < |s.calls| && IsId(s.calls[i].id) && s.calls[i].uid <= MAX_U32
    requires Shows(t, mailbox, s.index) && s.index.last < MAX_U32
    ensures Shows(WriteOf(t, mailbox, s.calls[i]), mailbox, AdvanceCall(s, i).index)
    ensures SameElsewhere(t, WriteOf(t, mailbox, s.calls[i]), mailbox)
  {
    var c := s.calls[i];
    match c.progress
    case Waiting => PutLast(t, mailbox, s.index.last + 1, s.index);
    case Counted => PutUid(t, mailbox, c.id, c.uid, s.index);
    case Written => PutName(t, mailbox, c.uid, c.id, s.index);
    case Done =>
  }

  // ----- UIDs are never shared -----

  /** Every call that has a UID has one of its own, handed out since `base`; what is written under
      such a UID was written by a call that has finished. */
  ghost predicate Separate(s: System, base: nat) {
    && base <= s.index.last
    && (forall i :: 0 <= i < |s.calls| && !s.calls[i].progress.Waiting? ==> base < s.calls[i].uid <= s.index.last)
    && (forall i, j :: 0 <= i < j < |s.calls| && !s.calls[i].progress.Waiting? && !s.calls[j].progress.Waiting? ==>
          s.calls[i].uid != s.calls[j].uid)
    && (forall uid :: uid in s.index.names && uid > base ==>
          exists i :: 0 <= i < |s.calls| && s.calls[i].progress.Done? && s.calls[i].uid == uid)
  }

  lemma {:induction false} RetireNames(b: Index, ids: seq<Id>, now: nat)
    ensures DeleteIds(b, ids, now).last == b.last
    ensures forall uid :: uid in DeleteIds(b, ids, now).names ==> uid in b.names
    decreases |ids|
  {
    if ids != [] {
      RetireNames(DeleteId(b, ids[0], now), ids[1..], now);
    }
  }

  lemma AdvanceSeparate(s: System, base: nat, i: nat)
    requires Separate(s, base) && i < |s.calls|
    ensures Separate(AdvanceCall(s, i), base)
  {
    var s' := AdvanceCall(s, i);
    forall uid | uid in s'.index.names && uid > base
      ensures exists j :: 0 <= j < |s'.calls| && s'.calls[j].progress.Done? && s'.calls[j].uid == uid
    {
      if s.calls[i].progress.Written? && uid == s.calls[i].uid {
        assert s'.calls[i].progress.Done?;
      } else {
        var j :| 0 <= j < |s.calls| && s.calls[j].progress.Done? && s.calls[j].uid == uid;
        assert s'.calls[j] == s.calls[j];
      }
    }
  }

  lemma NextSeparate(s: System, base: nat, step: Step)
    requires Separate(s, base)
    ensures Separate(Next(s, step), base)
    ensures s.index.last <= Next(s, step).index.last && |s.calls| <= |Next(s, step).calls|
    ensures forall i :: 0 <= i < |s.calls| && !s.calls[i].progress.Waiting? ==>
      !Next(s, step).calls[i].progress.Waiting? && Next(s, step).calls[i].uid == s.calls[i].uid
  {
    match step
    case Start(id) => StartSeparate(s, base, id);
    case Advance(i) => if i < |s.calls| { AdvanceSeparate(s, base, i); }
    case Retire(ids, now) => RetireNames(s.index, ids, now);
    case RetireOthers(ids, now) =>
  }

  lemma StartSeparate(s: System, base: nat, id: Id)
    requires Separate(s, base)
    ensures Separate(System(s.index, s.calls + [Call(id, Waiting, 0)]), base)
  {
    var calls := s.calls + [Call(id, Waiting, 0)];
    forall uid | uid in s.index.names && uid > base
      ensures exists i :: 0 <= i < |calls| && calls[i].progress.Done? && calls[i].uid == uid
    {
      var i :| 0 <= i < |s.calls| && s.calls[i].progress.Done? && s.calls[i].uid == uid;
      assert calls[i] == s.calls[i];
    }
  }

  lemma {:induction false} RunSeparate(s: System, base: nat, steps: seq<Step>)
    requires Separate(s, base)
    ensures Separate(Run(s, steps), base)
    ensures s.index.last <= Run(s, steps).index.last && |s.calls| <= |Run(s, steps).calls|
    ensures forall i :: 0 <= i < |s.calls| && !s.calls[i].progress.Waiting? ==>
      !Run(s, steps).calls[i].progress.Waiting? && Run(s, steps).calls[i].uid == s.calls[i].uid
    decreases |steps|
  {
    if steps != [] {
      NextSeparate(s, base, steps[0]);
      RunSeparate(Next(s, steps[0]), base, steps[1..]);
    }
  }

  ghost predicate Idle(b: Index) {
    forall uid :: uid in b.names ==> uid <= b.last
  }

  /** However the calls interleave, no two of them get the same UID. */
  lemma UidsAreDistinct(b: Index, steps: seq<Step>, i: nat, j: nat)
    requires Idle(b)
    requires var s := Run(System(b, []), steps);
             i < j < |s.calls| && !s.calls[i].progress.Waiting? && !s.calls[j].progress.Waiting?
    ensures var s := Run(System(b, []), steps);
            s.calls[i].uid != s.calls[j].uid && s.calls[i].uid > b.last && s.calls[j].uid > b.last
  {
    RunSeparate(System(b, []), b.last, steps);
  }

  /** A call that increments the counter later gets the higher UID. */
  lemma UidsInOrderOfCounting(b: Index, before: seq<Step>, after: seq<Step>, i: nat, j: nat)
    requires Idle(b)
    requires var s := Run(System(b, []), before);
             var s' := Run(s, after);
             && i < |s.calls| && !s.calls[i].progress.Waiting?
             && j < |s'.calls| && !s'.calls[j].progress.Waiting? && (j >= |s.calls| || s.calls[j].progress.Waiting?)
    ensures var s' := Run(Run(System(b, []), before), after);
            i < |s'.calls| && s'.calls[i].uid < s'.calls[j].uid
  {
    var s := Run(System(b, []), before);
    RunSeparate(System(b, []), b.last, before);
    RunSeparate(s, b.last, after);
    LateCallsAbove(s, b.last, after);
  }

  /** UIDs handed out in a stretch of a run lie above the counter at its start. */
  ghost predicate LateAbove(s: System, s': System) {
    |s.calls| <= |s'.calls| && s.index.last <= s'.index.last
    && forall j :: 0 <= j < |s'.calls| && !s'.calls[j].progress.Waiting? && (j >= |s.calls| || s.calls[j].progress.Waiting?) ==>
        s.index.last < s'.calls[j].uid
  }

  lemma {:induction false} LateCallsAbove(s: System, base: nat, steps: seq<Step>)
    requires Separate(s, base)
    ensures LateAbove(s, Run(s, steps))
    decreases |steps|
  {
    if steps != [] {
      var next := Next(s, steps[0]);
      NextSeparate(s, base, steps[0]);
      RunSeparate(next, base, steps[1..]);
      LateCallsAbove(next, base, steps[1..]);
    }
  }

  /** A call about to write the id under its UID finds nothing there. */
  lemma NothingOverwritten(b: Index, steps: seq<Step>, i: nat)
    requires Idle(b)
    requires var s := Run(System(b, []), steps); i < |s.calls| && s.calls[i].progress.Written?
    ensures var s := Run(System(b, []), steps); s.calls[i].uid !in s.index.names
  {
    RunSeparate(System(b, []), b.last, steps);
  }

  // ----- When the maps end up inverse -----

  /** What insertions alone have made of the index `b`. */
  ghost predicate Grown(b: Index, s: System) {
    && Separate(s, b.last)
    && GrownNames(b, s)
  }

  ghost predicate GrownNames(b: Index, s: System) {
    && (forall uid :: uid in b.names ==> uid in s.index.names && s.index.names[uid] == b.names[uid])
    && (forall uid :: uid in s.index.names && uid <= b.last ==> uid in b.names)
    && (forall i :: 0 <= i < |s.calls| && s.calls[i].progress.Done? ==>
          s.calls[i].uid in s.index.names && s.index.names[s.calls[i].uid] == s.calls[i].id)
  }

  ghost predicate HasWritten(c: Call, id: Id, uid: nat) {
    (c.progress.Written? || c.progress.Done?) && c.id == id && c.uid == uid
  }

  ghost predicate GrownUids(b: Index, s: System) {
    && (forall id :: id in s.index.uids ==>
          (id in b.uids && s.index.uids[id] == b.uids[id])
          || exists i :: 0 <= i < |s.calls| && HasWritten(s.calls[i], id, s.index.uids[id]))
    && (forall id :: id in b.uids ==> id in s.index.uids)
    && (forall i :: 0 <= i < |s.calls| && HasWritten(s.calls[i], s.calls[i].id, s.calls[i].uid) ==> s.calls[i].id in s.index.uids)
  }

  predicate OnlyInserts(steps: seq<Step>) {
    forall i :: 0 <= i < |steps| ==> steps[i].Start? || steps[i].Advance?
  }

  lemma AdvanceGrown(b: Index, s: System, i: nat)
    requires Idle(b) && Grown(b, s) && GrownUids(b, s) && i < |s.calls|
    ensures Grown(b, AdvanceCall(s, i)) && GrownUids(b, AdvanceCall(s, i))
  {
    AdvanceSeparate(s, b.last, i);
    AdvanceGrownUids(b, s, i);
    AdvanceGrownNames(b, s, i);
  }

  lemma FreshName(s: System, base: nat, i: nat)
    requires Separate(s, base) && i < |s.calls| && s.calls[i].progress.Written?
    ensures s.calls[i].uid !in s.index.names && s.calls[i].uid > base
  {
  }

  lemma AdvanceGrownNames(b: Index, s: System, i: nat)
    requires Idle(b) && Separate(s, b.last) && GrownNames(b, s) && i < |s.calls|
    ensures GrownNames(b, AdvanceCall(s, i))
  {
    if s.calls[i].progress.Written? {
      FreshName(s, b.last, i);
      var s' := AdvanceCall(s, i);
      assert s'.index.names == s.index.names[s.calls[i].uid := s.calls[i].id];
      forall j | 0 <= j < |s'.calls| && s'.calls[j].progress.Done?
        ensures s'.calls[j].uid in s'.index.names && s'.index.names[s'.calls[j].uid] == s'.calls[j].id
      {
        if j != i {
          assert s'.calls[j] == s.calls[j];
        }
      }
    }
  }

  lemma AdvanceGrownUids(b: Index, s: System, i: nat)
    requires GrownUids(b, s) && i < |s.calls|
    ensures GrownUids(b, AdvanceCall(s, i))
  {
    var s' := AdvanceCall(s, i);
    forall id | id in s'.index.uids && !(id in b.uids && s'.index.uids[id] == b.uids[id])
      ensures exists j :: 0 <= j < |s'.calls| && HasWritten(s'.calls[j], id, s'.index.uids[id])
    {
      if s.calls[i].progress.Counted? && id == s.calls[i].id {
        assert HasWritten(s'.calls[i], id, s'.index.uids[id]);
      } else {
        var j :| 0 <= j < |s.calls| && HasWritten(s.calls[j], id, s.index.uids[id]);
        assert HasWritten(s'.calls[j], id, s'.index.uids[id]);
      }
    }
  }

  lemma StartGrown(b: Index, s: System, id: Id)
    requires Grown(b, s) && GrownUids(b, s)
    ensures Grown(b, Next(s, Start(id))) && GrownUids(b, Next(s, Start(id)))
  {
    StartSeparate(s, b.last, id);
    StartGrownUids(b, s, id);
    StartGrownNames(b, s, id);
  }

  lemma StartGrownNames(b: Index, s: System, id: Id)
    requires GrownNames(b, s)
    ensures GrownNames(b, Next(s, Start(id)))
  {
  }

  lemma StartGrownUids(b: Index, s: System, id: Id)
    requires GrownUids(b, s)
    ensures GrownUids(b, Next(s, Start(id)))
  {
    var s' := Next(s, Start(id));
    forall x | x in s'.index.uids && !(x in b.uids && s'.index.uids[x] == b.uids[x])
      ensures exists j :: 0 <= j < |s'.calls| && HasWritten(s'.calls[j], x, s'.index.uids[x])
    {
      var j :| 0 <= j < |s.calls| && HasWritten(s.calls[j], x, s.index.uids[x]);
      assert s'.calls[j] == s.calls[j];
    }
  }

  lemma {:induction false} RunGrown(b: Index, s: System, steps: seq<Step>)
    requires Idle(b) && Grown(b, s) && GrownUids(b, s) && OnlyInserts(steps)
    ensures Grown(b, Run(s, steps)) && GrownUids(b, Run(s, steps))
    decreases |steps|
  {
    if steps != [] {
      match steps[0] {
        case Start(id) => StartGrown(b, s, id);
        case Advance(i) => if i < |s.calls| { AdvanceGrown(b, s, i); }
      }
      RunGrown(b, Next(s, steps[0]), steps[1..]);
    }
  }

  ghost predicate AllDone(s: System) {
    forall i :: 0 <= i < |s.calls| ==> s.calls[i].progress.Done?
  }

  /** No message is inserted twice or a second time. */
  ghost predicate NewAndDistinct(b: Index, calls: seq<Call>) {
    && (forall i :: 0 <= i < |calls| ==> calls[i].id !in b.uids)
    && (forall i, j :: 0 <= i < j < |calls| ==> calls[i].id != calls[j].id)
  }

  /** Once all calls have finished, in whatever interleaving, the maps are inverse exactly if the
      calls were for distinct messages, none of them in the index before. */
  lemma InverseIff(b: Index, steps: seq<Step>)
    requires Idle(b) && Inverse(b) && OnlyInserts(steps) && AllDone(Run(System(b, []), steps))
    ensures var s := Run(System(b, []), steps);
            Inverse(s.index) <==> NewAndDistinct(b, s.calls)
  {
    var s := Run(System(b, []), steps);
    RunGrown(b, System(b, []), steps);
    if NewAndDistinct(b, s.calls) {
      DistinctInverse(b, s);
    } else if Inverse(s.index) {
      InverseDistinct(b, s);
    }
  }

  lemma DistinctInverse(b: Index, s: System)
    requires Inverse(b) && Grown(b, s) && GrownUids(b, s) && AllDone(s) && NewAndDistinct(b, s.calls)
    ensures Inverse(s.index)
  {
    forall uid | uid in s.index.names
      ensures s.index.names[uid] in s.index.uids && s.index.uids[s.index.names[uid]] == uid
    {
      DistinctName(b, s, uid);
    }
    forall id | id in s.index.uids
      ensures s.index.uids[id] in s.index.names && s.index.names[s.index.uids[id]] == id
    {
      DistinctUid(b, s, id);
    }
  }

  lemma DistinctName(b: Index, s: System, uid: nat)
    requires Inverse(b) && Grown(b, s) && GrownUids(b, s) && AllDone(s) && NewAndDistinct(b, s.calls) && uid in s.index.names
    ensures s.index.names[uid] in s.index.uids && s.index.uids[s.index.names[uid]] == uid
  {
    if uid > b.last {
      var i :| 0 <= i < |s.calls| && s.calls[i].progress.Done? && s.calls[i].uid == uid;
      WrittenByOne(b, s, i);
    } else {
      NameOfBefore(b, s, uid);
    }
  }

  lemma WrittenByOne(b: Index, s: System, i: nat)
    requires GrownUids(b, s) && NewAndDistinct(b, s.calls) && i < |s.calls| && s.calls[i].progress.Done?
    ensures s.calls[i].id in s.index.uids && s.index.uids[s.calls[i].id] == s.calls[i].uid
  {
    var id := s.calls[i].id;
    assert HasWritten(s.calls[i], id, s.calls[i].uid);
    var j :| 0 <= j < |s.calls| && HasWritten(s.calls[j], id, s.index.uids[id]);
    assert s.calls[j].id == s.calls[i].id;
  }

  lemma NameOfBefore(b: Index, s: System, uid: nat)
    requires Inverse(b) && GrownNames(b, s) && GrownUids(b, s) && NewAndDistinct(b, s.calls)
    requires uid in s.index.names && uid <= b.last
    ensures s.index.names[uid] in s.index.uids && s.index.uids[s.index.names[uid]] == uid
  {
    var id := s.index.names[uid];
    assert id in b.uids && id in s.index.uids;
  }

  lemma DistinctUid(b: Index, s: System, id: Id)
    requires Inverse(b) && GrownNames(b, s) && GrownUids(b, s) && AllDone(s) && id in s.index.uids
    ensures s.index.uids[id] in s.index.names && s.index.names[s.index.uids[id]] == id
  {
    if !(id in b.uids && s.index.uids[id] == b.uids[id]) {
      var i :| 0 <= i < |s.calls| && HasWritten(s.calls[i], id, s.index.uids[id]);
    }
  }

  lemma InverseDistinct(b: Index, s: System)
    requires Idle(b) && Inverse(b) && Grown(b, s) && AllDone(s) && Inverse(s.index)
    ensures NewAndDistinct(b, s.calls)
  {
    assert forall id :: id in b.uids ==> s.index.names[b.uids[id]] == id && b.uids[id] <= b.last;
    forall i | 0 <= i < |s.calls|
      ensures s.calls[i].id !in b.uids
    {
      assert s.index.names[s.calls[i].uid] == s.calls[i].id && s.calls[i].uid > b.last;
    }
    forall i, j | 0 <= i < j < |s.calls|
      ensures s.calls[i].id != s.calls[j].id
    {
      assert s.index.names[s.calls[i].uid] == s.calls[i].id;
      assert s.index.names[s.calls[j].uid] == s.calls[j].id;
    }
  }
}
