/** The messages of the view that a sequence set asks for, by UID or by sequence number. */
module Selection {
  import opened UidIndex
  import opened SelectedView
  import SequenceSet

  function Number(m: ImapId, isUid: bool): nat {
    if isUid then m.uid else m.seqnum
  }

  /** The number that `*` stands for. */
  function Largest(view: seq<Message>, isUid: bool): nat {
    if !isUid then |view| else if view == [] then 0 else view[|view| - 1].uid
  }

  function At(view: seq<Message>, pos: nat): ImapId
    requires pos < |view|
  {
    ImapId(view[pos].uid, pos + 1)
  }

  predicate IsRequested(view: seq<Message>, sequence: SequenceSet.Sequence, isUid: bool, pos: nat)
    requires pos < |view|
  {
    view[pos].uid != 0 && SequenceSet.Contains(sequence, Number(At(view, pos), isUid), Largest(view, isUid))
  }

  /** The requested messages that the view holds, by id. */
  ghost predicate Selects(ids: map<Id, ImapId>, view: seq<Message>, sequence: SequenceSet.Sequence, isUid: bool, upTo: nat)
    requires upTo <= |view|
  {
    && (forall pos :: 0 <= pos < upTo && IsRequested(view, sequence, isUid, pos) ==> view[pos].id in ids)
    && (forall id :: id in ids ==>
          exists pos :: 0 <= pos < upTo && IsRequested(view, sequence, isUid, pos) && view[pos].id == id && ids[id] == At(view, pos))
  }

  method SequenceToJmap(view: seq<Message>, sequence: SequenceSet.Sequence, isUid: bool) returns (ids: map<Id, ImapId>)
    ensures Selects(ids, view, sequence, isUid, |view|)
  {
    ids := map[];
    var max := Largest(view, isUid);
    for pos := 0 to |view|
      invariant Selects(ids, view, sequence, isUid, pos)
    {
      if view[pos].uid != 0 && SequenceSet.Contains(sequence, if isUid then view[pos].uid else pos + 1, max) {
        assert IsRequested(view, sequence, isUid, pos);
        ids := ids[view[pos].id := ImapId(view[pos].uid, pos + 1)];
      }
    }
  }

  // ----- What a sequence set asks for -----

  /** The view as a sync leaves it: every UID is positive, and they ascend. */
  ghost predicate InOrder(view: seq<Message>) {
    && (forall i :: 0 <= i < |view| ==> 0 < view[i].uid)
    && (forall i, j :: 0 <= i < j < |view| ==> view[i].uid < view[j].uid)
  }

  /** The number by which a request knows the message at a position. */
  ghost function NumberAt(view: seq<Message>, isUid: bool, pos: nat): nat
    requires pos < |view|
  {
    if isUid then view[pos].uid else pos + 1
  }

  /** What RFC 3501 (section 9, `seq-range` and `sequence-set`) makes of a sequence set, said of
      positions: `*` is the last message, and `n:*` always includes it. */
  ghost predicate AsksFor(view: seq<Message>, s: SequenceSet.Sequence, isUid: bool, pos: nat)
    requires pos < |view|
  {
    match s
    case Number(v) => NumberAt(view, isUid, pos) == v
    case Range(Some(a), Some(b)) => if a <= b then a <= NumberAt(view, isUid, pos) <= b else b <= NumberAt(view, isUid, pos) <= a
    case Range(Some(n), None) => n <= NumberAt(view, isUid, pos) || pos == |view| - 1
    case Range(None, Some(n)) => n <= NumberAt(view, isUid, pos) || pos == |view| - 1
    case Range(None, None) => pos == |view| - 1
    case SavedSearch => false
    case List(items) => exists i :: 0 <= i < |items| && AsksFor(view, items[i], isUid, pos)
  }

  /** The last message has the largest number. */
  lemma LargestIsLast(view: seq<Message>, isUid: bool, pos: nat)
    requires InOrder(view) && pos < |view|
    ensures NumberAt(view, isUid, pos) <= Largest(view, isUid)
    ensures NumberAt(view, isUid, pos) == Largest(view, isUid) <==> pos == |view| - 1
  {
  }

  lemma {:induction false} ContainsIff(view: seq<Message>, s: SequenceSet.Sequence, isUid: bool, pos: nat)
    requires InOrder(view) && pos < |view|
    ensures SequenceSet.Contains(s, NumberAt(view, isUid, pos), Largest(view, isUid)) <==> AsksFor(view, s, isUid, pos)
  {
    LargestIsLast(view, isUid, pos);
    if s.List? {
      forall i | 0 <= i < |s.items|
        ensures SequenceSet.Contains(s.items[i], NumberAt(view, isUid, pos), Largest(view, isUid)) <==> AsksFor(view, s.items[i], isUid, pos)
      {
        ContainsIff(view, s.items[i], isUid, pos);
      }
    }
  }

  lemma RequestedIff(view: seq<Message>, s: SequenceSet.Sequence, isUid: bool, pos: nat)
    requires InOrder(view) && pos < |view|
    ensures IsRequested(view, s, isUid, pos) <==> AsksFor(view, s, isUid, pos)
  {
    ContainsIff(view, s, isUid, pos);
  }

  /** The messages selected are exactly those that the set asks for, each with its UID and position. */
  lemma SelectsIff(ids: map<Id, ImapId>, view: seq<Message>, s: SequenceSet.Sequence, isUid: bool, pos: nat)
    requires InOrder(view) && pos < |view| && Selects(ids, view, s, isUid, |view|)
    requires forall i, j :: 0 <= i < j < |view| ==> view[i].id != view[j].id
    ensures view[pos].id in ids <==> AsksFor(view, s, isUid, pos)
    ensures view[pos].id in ids ==> ids[view[pos].id] == ImapId(view[pos].uid, pos + 1)
  {
    RequestedIff(view, s, isUid, pos);
  }
}
