/** The selected mailbox as the server holds it: the messages in order, edited by each sync. */
module SelectedView {
  import opened Wrappers
  import opened Sequences
  import opened Decimal
  import opened Keys
  import opened UidIndex

  datatype Message = Message(id: Id, uid: nat)

  datatype ImapId = ImapId(uid: nat, seqnum: nat)

  datatype Response = Expunge(n: nat) | Exists(n: nat)

  function Zip(ids: seq<Id>, uids: seq<nat>): (view: seq<Message>)
    requires |ids| == |uids|
    ensures |view| == |ids| && forall i :: 0 <= i < |ids| ==> view[i] == Message(ids[i], uids[i])
  {
    seq(|ids|, i requires 0 <= i < |ids| => Message(ids[i], uids[i]))
  }

  predicate HasUid(view: seq<Message>, uid: nat) {
    exists i :: 0 <= i < |view| && view[i].uid == uid
  }

  // ----- What each edit makes of the view -----

  /** The items that stand where `view` has a message that is not gone. */
  ghost function Sieve<T>(items: seq<T>, view: seq<Message>, gone: iset<Message>): (left: seq<T>)
    requires |items| == |view|
    ensures |left| <= |view|
    decreases |view|
  {
    if view == [] then []
    else
      var last := |view| - 1;
      Sieve(items[..last], view[..last], gone) + if view[last] in gone then [] else [items[last]]
  }

  ghost function Remaining(view: seq<Message>, gone: iset<Message>): seq<Message> {
    Sieve(view, view, gone)
  }

  /** The sequence numbers of the messages that are gone. */
  ghost function GoneNumbers(view: seq<Message>, gone: iset<Message>): seq<nat>
    decreases |view|
  {
    if view == [] then []
    else
      var last := |view| - 1;
      GoneNumbers(view[..last], gone) + if view[last] in gone then [|view|] else []
  }

  /** Each listed message whose UID the view lacks goes to its end. */
  ghost function AddMissing(view: seq<Message>, list: seq<Message>): seq<Message>
    decreases |list|
  {
    if list == [] then view
    else AddMissing(if HasUid(view, list[0].uid) then view else view + [list[0]], list[1..])
  }

  ghost function NotListed(uids: seq<nat>): iset<Message> {
    iset m: Message | m.uid !in uids
  }

  ghost function WithIds(ids: seq<Id>): iset<Message> {
    iset m: Message | m.id in ids
  }

  lemma SieveStep<T>(items: seq<T>, view: seq<Message>, gone: iset<Message>, i: nat)
    requires |items| == |view| && i < |view|
    ensures Sieve(items[..i + 1], view[..i + 1], gone) == Sieve(items[..i], view[..i], gone) + if view[i] in gone then [] else [items[i]]
  {
    assert items[..i + 1][..i] == items[..i] && view[..i + 1][..i] == view[..i];
  }

  lemma GoneStep(view: seq<Message>, gone: iset<Message>, i: nat)
    requires i < |view|
    ensures GoneNumbers(view[..i + 1], gone) == GoneNumbers(view[..i], gone) + if view[i] in gone then [i + 1] else []
  {
    assert view[..i + 1][..i] == view[..i];
  }

  lemma ZipStep(ids: seq<Id>, uids: seq<nat>, id: Id, uid: nat)
    requires |ids| == |uids|
    ensures Zip(ids + [id], uids + [uid]) == Zip(ids, uids) + [Message(id, uid)]
  {
  }

  lemma {:induction false} GoneAndRemaining(view: seq<Message>, gone: iset<Message>)
    ensures |GoneNumbers(view, gone)| + |Remaining(view, gone)| == |view|
    ensures forall i :: 0 <= i < |GoneNumbers(view, gone)| ==> 0 < GoneNumbers(view, gone)[i] <= |view|
    ensures forall i, j :: 0 <= i < j < |GoneNumbers(view, gone)| ==> GoneNumbers(view, gone)[i] < GoneNumbers(view, gone)[j]
    decreases |view|
  {
    if view != [] {
      GoneAndRemaining(view[..|view| - 1], gone);
    }
  }

  /** The sequence numbers of deletions, as long as each names the UID that has its number. */
  ghost function Numbers(view: seq<Message>, deletions: seq<ImapId>): seq<nat> {
    seq(|deletions|, i requires 0 <= i < |deletions| =>
      var d := deletions[i]; if 0 < d.seqnum <= |view| && view[d.seqnum - 1].uid == d.uid then d.seqnum else 0)
  }

  lemma NumbersStep(view: seq<Message>, deletions: seq<ImapId>, uid: nat, n: nat)
    requires 0 < n <= |view| && view[n - 1].uid == uid
    ensures Numbers(view, deletions + [ImapId(uid, n)]) == Numbers(view, deletions) + [n]
  {
  }

  /** The loop over the parallel lists. */
  method SplitView(ids: seq<Id>, uids: seq<nat>, listed: seq<nat>)
    returns (newIds: seq<Id>, newUids: seq<nat>, deletions: seq<ImapId>)
    requires |ids| == |uids|
    ensures |newIds| == |newUids| && Zip(newIds, newUids) == Remaining(Zip(ids, uids), NotListed(listed))
    ensures Numbers(Zip(ids, uids), deletions) == GoneNumbers(Zip(ids, uids), NotListed(listed))
  {
    newIds, newUids, deletions := [], [], [];
    ghost var view, gone := Zip(ids, uids), NotListed(listed);
    for i := 0 to |ids|
      invariant |newIds| == |newUids| && Zip(newIds, newUids) == Remaining(view[..i], gone)
      invariant Numbers(view, deletions) == GoneNumbers(view[..i], gone)
    {
      SieveStep(view, view, gone, i);
      GoneStep(view, gone, i);
      if uids[i] in listed {
        ZipStep(newIds, newUids, ids[i], uids[i]);
        newIds, newUids := newIds + [ids[i]], newUids + [uids[i]];
        EmptyRight(GoneNumbers(view[..i], gone));
      } else {
        EmptyRight(Remaining(view[..i], gone));
        NumbersStep(view, deletions, uids[i], i + 1);
        deletions := deletions + [ImapId(uids[i], i + 1)];
      }
    }
    assert view[..|view|] == view;
  }

  lemma {:induction false} NothingGone<T>(items: seq<T>, view: seq<Message>)
    requires |items| == |view|
    ensures Sieve(items, view, iset{}) == items && GoneNumbers(view, iset{}) == []
    decreases |view|
  {
    if view != [] {
      var last := |view| - 1;
      NothingGone(items[..last], view[..last]);
      assert items == items[..last] + [items[last]];
    }
  }

  lemma NumbersAre(view: seq<Message>, deletions: seq<ImapId>, gone: iset<Message>)
    requires Numbers(view, deletions) == GoneNumbers(view, gone)
    ensures seq(|deletions|, i requires 0 <= i < |deletions| => deletions[i].seqnum) == GoneNumbers(view, gone)
  {
    GoneAndRemaining(view, gone);
    forall i | 0 <= i < |deletions|
      ensures deletions[i].seqnum == GoneNumbers(view, gone)[i]
    {
      assert Numbers(view, deletions)[i] > 0;
    }
  }

  /** The loop of MOVE over the parallel lists. */
  method SplitMoved(ids: seq<Id>, uids: seq<nat>, destroyed: seq<Id>)
    returns (newIds: seq<Id>, newUids: seq<nat>, numbers: seq<nat>)
    requires |ids| == |uids|
    ensures |newIds| == |newUids| && Zip(newIds, newUids) == Remaining(Zip(ids, uids), WithIds(destroyed))
    ensures numbers == GoneNumbers(Zip(ids, uids), WithIds(destroyed))
  {
    newIds, newUids, numbers := [], [], [];
    ghost var view, gone := Zip(ids, uids), WithIds(destroyed);
    for i := 0 to |ids|
      invariant |newIds| == |newUids| && Zip(newIds, newUids) == Remaining(view[..i], gone)
      invariant numbers == GoneNumbers(view[..i], gone)
    {
      SieveStep(view, view, gone, i);
      GoneStep(view, gone, i);
      if ids[i] !in destroyed {
        ZipStep(newIds, newUids, ids[i], uids[i]);
        newIds, newUids := newIds + [ids[i]], newUids + [uids[i]];
        EmptyRight(numbers);
      } else {
        EmptyRight(Remaining(view[..i], gone));
        numbers := numbers + [i + 1];
      }
    }
    assert view[..|view|] == view;
  }

  /** The loop of EXPUNGE: the numbers of the messages that the new list lacks. */
  method CollectDeleted(ids: seq<Id>, uids: seq<nat>, listed: seq<nat>) returns (deleted: seq<nat>)
    requires |ids| == |uids|
    ensures deleted == GoneNumbers(Zip(ids, uids), NotListed(listed))
  {
    deleted := [];
    ghost var view, gone := Zip(ids, uids), NotListed(listed);
    for i := 0 to |uids|
      invariant deleted == GoneNumbers(view[..i], gone)
    {
      GoneStep(view, gone, i);
      if uids[i] !in listed {
        deleted := deleted + [i + 1];
      }
    }
    assert view[..|view|] == view;
  }

  // ----- The view -----

  class SelectedMailbox {
    var jmapIds: seq<Id>
    var imapUids: seq<nat>
    var totalMessages: nat

    ghost predicate Valid()
      reads this
    {
      |jmapIds| == |imapUids| == totalMessages
    }

    ghost function View(): seq<Message>
      reads this
      requires Valid()
    {
      Zip(jmapIds, imapUids)
    }

    /** The messages that are not listed leave the view. */
    method RemoveMissing(uids: seq<nat>) returns (deletions: seq<ImapId>)
      requires Valid()
      modifies this
      ensures Valid() && View() == Remaining(old(View()), NotListed(uids))
      ensures Numbers(old(View()), deletions) == GoneNumbers(old(View()), NotListed(uids))
    {
      ghost var view := View();
      var newIds, newUids;
      newIds, newUids, deletions := SplitView(jmapIds, imapUids, uids);
      GoneAndRemaining(view, NotListed(uids));
      jmapIds, imapUids := newIds, newUids;
      totalMessages := SaturatingSub(totalMessages, |deletions|);
    }

    /** The listed messages that are not in the view join it. */
    method AddNew(ids: seq<Id>, uids: seq<nat>) returns (hasInserts: bool)
      requires Valid() && |ids| == |uids|
      modifies this
      ensures Valid() && View() == AddMissing(old(View()), Zip(ids, uids))
      ensures hasInserts <==> View() != old(View())
    {
      hasInserts := false;
      ghost var list := Zip(ids, uids);
      assert list[0..] == list;
      for i := 0 to |ids|
        invariant Valid() && AddMissing(View(), list[i..]) == AddMissing(old(View()), list)
        invariant |old(View())| <= |View()| && (hasInserts <==> |View()| > |old(View())|)
        invariant !hasInserts ==> View() == old(View())
      {
        assert list[i..][1..] == list[i + 1..];
        if uids[i] !in imapUids {
          ZipStep(jmapIds, imapUids, ids[i], uids[i]);
          jmapIds, imapUids := jmapIds + [ids[i]], imapUids + [uids[i]];
          totalMessages := totalMessages + 1;
          hasInserts := true;
        }
      }
    }

    /** The count to announce, if it may have changed, and the deletions, if any. */
    method SynchronizeUids(ids: seq<Id>, uids: seq<nat>, removeMissing: bool)
      returns (count: Option<nat>, deletions: Option<seq<ImapId>>)
      requires Valid() && |ids| == |uids|
      modifies this
      ensures Valid()
      ensures var gone := if removeMissing then NotListed(uids) else iset{};
              var left := Remaining(old(View()), gone);
              && View() == AddMissing(left, Zip(ids, uids))
              && (deletions.None? <==> GoneNumbers(old(View()), gone) == [])
              && (deletions.Some? ==> Numbers(old(View()), deletions.value) == GoneNumbers(old(View()), gone))
              && count == if View() != left || deletions.Some? then Some(|View()|) else None
    {
      NothingGone(View(), View());
      deletions := None;
      if removeMissing {
        var removed := RemoveMissing(uids);
        deletions := if removed != [] then Some(removed) else None;
      }
      var hasInserts := AddNew(ids, uids);
      count := if hasInserts || deletions.Some? then Some(totalMessages) else None;
    }

    /** The whole view is replaced. */
    method Replace(ids: seq<Id>, uids: seq<nat>)
      requires |ids| == |uids|
      modifies this
      ensures Valid() && View() == Zip(ids, uids)
    {
      jmapIds, imapUids, totalMessages := ids, uids, |uids|;
    }

    /** The messages that a MOVE has destroyed leave the view. */
    method RemoveMoved(destroyed: seq<Id>) returns (numbers: seq<nat>)
      requires Valid()
      modifies this
      ensures Valid() && View() == Remaining(old(View()), WithIds(destroyed))
      ensures numbers == GoneNumbers(old(View()), WithIds(destroyed))
    {
      ghost var view := View();
      var newIds, newUids;
      newIds, newUids, numbers := SplitMoved(jmapIds, imapUids, destroyed);
      GoneAndRemaining(view, WithIds(destroyed));
      totalMessages := SaturatingSub(totalMessages, |numbers|);
      jmapIds, imapUids := newIds, newUids;
    }
  }

  // ----- Responses -----

  /** Each removal in turn, numbered by what is left at that moment. */
  ghost function Expunges(view: seq<Message>, gone: iset<Message>): seq<Response>
    decreases |view|
  {
    if view == [] then []
    else
      var before := view[..|view| - 1];
      Expunges(before, gone) + if view[|view| - 1] in gone then [Expunge(|Remaining(before, gone)| + 1)] else []
  }

  function Shifted(ids: seq<nat>): seq<Response> {
    seq(|ids|, i requires 0 <= i < |ids| => Expunge(SaturatingSub(ids[i], i)))
  }

  lemma ShiftedStep(ids: seq<nat>, id: nat)
    ensures Shifted(ids + [id]) == Shifted(ids) + [Expunge(SaturatingSub(id, |ids|))]
  {
  }

  /** Subtracting the deletions so far turns positions in the old view into positions in what is left. */
  lemma {:induction false} ShiftedIsExpunges(view: seq<Message>, gone: iset<Message>)
    ensures Shifted(GoneNumbers(view, gone)) == Expunges(view, gone)
    decreases |view|
  {
    if view != [] {
      var before := view[..|view| - 1];
      ShiftedIsExpunges(before, gone);
      GoneAndRemaining(before, gone);
      ShiftedStep(GoneNumbers(before, gone), |view|);
      EmptyRight(GoneNumbers(before, gone));
    }
  }

  method SerializeExpunges(ids: seq<nat>) returns (responses: seq<Response>)
    ensures responses == Shifted(ids)
  {
    responses := [];
    for i := 0 to |ids|
      invariant responses == Shifted(ids[..i])
    {
      assert ids[..i + 1] == ids[..i] + [ids[i]];
      ShiftedStep(ids[..i], ids[i]);
      responses := responses + [Expunge(SaturatingSub(ids[i], i))];
    }
    assert ids[..|ids|] == ids;
  }

  ghost function IdleView(view: seq<Message>, list: seq<Message>): seq<Message> {
    AddMissing(Remaining(view, NotListed(Uids(list))), list)
  }

  function Uids(list: seq<Message>): (uids: seq<nat>)
    ensures |uids| == |list| && forall i :: 0 <= i < |list| ==> uids[i] == list[i].uid
  {
    seq(|list|, i requires 0 <= i < |list| => list[i].uid)
  }

  /** Announced if anything has changed. */
  ghost function IdleResponses(view: seq<Message>, list: seq<Message>): seq<Response> {
    var gone := NotListed(Uids(list));
    var changed := IdleView(view, list) != Remaining(view, gone) || GoneNumbers(view, gone) != [];
    Expunges(view, gone) + if changed then [Exists(|IdleView(view, list)|)] else []
  }

  ghost function ExpungeResponses(view: seq<Message>, list: seq<Message>): seq<Response> {
    var gone := NotListed(Uids(list));
    Expunges(view, gone) + if GoneNumbers(view, gone) != [] || |view| != |list| then [Exists(|list|)] else []
  }

  ghost function AppendResponses(view: seq<Message>, list: seq<Message>): seq<Response> {
    if AddMissing(view, list) != view then [Exists(|AddMissing(view, list)|)] else []
  }

  /** IDLE and NOOP. */
  method WriteChanges(mailbox: SelectedMailbox, ids: seq<Id>, uids: seq<nat>) returns (responses: seq<Response>)
    requires mailbox.Valid() && |ids| == |uids|
    modifies mailbox
    ensures mailbox.Valid() && mailbox.View() == IdleView(old(mailbox.View()), Zip(ids, uids))
    ensures responses == IdleResponses(old(mailbox.View()), Zip(ids, uids))
  {
    ghost var view := mailbox.View();
    ghost var gone := NotListed(uids);
    assert Uids(Zip(ids, uids)) == uids;
    ShiftedIsExpunges(view, gone);
    responses := [];
    var count, deletions := mailbox.SynchronizeUids(ids, uids, true);
    if deletions.Some? {
      var numbers := seq(|deletions.value|, i requires 0 <= i < |deletions.value| => deletions.value[i].seqnum);
      NumbersAre(view, deletions.value, gone);
      responses := SerializeExpunges(numbers);
    }
    if count.Some? {
      responses := responses + [Exists(count.value)];
    }
  }

  /** EXPUNGE. */
  method HandleExpunge(mailbox: SelectedMailbox, ids: seq<Id>, uids: seq<nat>) returns (responses: seq<Response>)
    requires mailbox.Valid() && |ids| == |uids|
    modifies mailbox
    ensures mailbox.Valid() && mailbox.View() == Zip(ids, uids)
    ensures responses == ExpungeResponses(old(mailbox.View()), Zip(ids, uids))
  {
    assert Uids(Zip(ids, uids)) == uids;
    ShiftedIsExpunges(mailbox.View(), NotListed(uids));
    var deleted := CollectDeleted(mailbox.jmapIds, mailbox.imapUids, uids);
    responses := [];
    if deleted != [] || mailbox.totalMessages != |uids| {
      if deleted != [] {
        responses := SerializeExpunges(deleted);
      }
      responses := responses + [Exists(|uids|)];
    }
    mailbox.Replace(ids, uids);
  }

  /** The tail of MOVE. */
  method FinishMove(mailbox: SelectedMailbox, destroyed: seq<Id>) returns (responses: seq<Response>)
    requires mailbox.Valid()
    modifies mailbox
    ensures mailbox.Valid() && mailbox.View() == Remaining(old(mailbox.View()), WithIds(destroyed))
    ensures responses == Expunges(old(mailbox.View()), WithIds(destroyed))
  {
    ShiftedIsExpunges(mailbox.View(), WithIds(destroyed));
    var numbers := mailbox.RemoveMoved(destroyed);
    responses := SerializeExpunges(numbers);
  }

  /** APPEND, SEARCH and THREAD, when they find the view out of date. */
  method AppendSync(mailbox: SelectedMailbox, ids: seq<Id>, uids: seq<nat>) returns (responses: seq<Response>)
    requires mailbox.Valid() && |ids| == |uids|
    modifies mailbox
    ensures mailbox.Valid() && mailbox.View() == AddMissing(old(mailbox.View()), Zip(ids, uids))
    ensures responses == AppendResponses(old(mailbox.View()), Zip(ids, uids))
  {
    NothingGone(mailbox.View(), mailbox.View());
    var count, _ := mailbox.SynchronizeUids(ids, uids, false);
    responses := if count.Some? then [Exists(count.value)] else [];
  }
}
