/** A client that replays every EXPUNGE and EXISTS numbers its messages as the server does. */
module Mirror {
  import opened Wrappers
  import opened Sequences
  import opened Keys
  import opened UidIndex
  import opened SelectedView

  /** What the client knows of each message, in order: its UID, or nothing yet. */
  type Client = seq<Option<nat>>

  function Unknown(n: nat): (slots: Client)
    ensures |slots| == n && forall i :: 0 <= i < n ==> slots[i] == None
  {
    seq(n, i => None)
  }

  /** Section 7.4.1 and 7.3.1 of RFC 3501: an expunged message leaves its place to the next one;
      new messages come at the end. */
  function Receive(c: Client, r: Response): Client {
    match r
    case Expunge(n) => if 0 < n <= |c| then c[..n - 1] + c[n..] else c
    case Exists(n) => if n > |c| then c + Unknown(n - |c|) else c
  }

  function Replay(c: Client, responses: seq<Response>): Client
    decreases |responses|
  {
    if responses == [] then c
    else Receive(Replay(c, responses[..|responses| - 1]), responses[|responses| - 1])
  }

  /** As many messages as the server has, and each one known under the UID that it has there. */
  ghost predicate Mirrors(c: Client, view: seq<Message>) {
    |c| == |view| && forall i :: 0 <= i < |c| && c[i].Some? ==> c[i].value == view[i].uid
  }

  // ----- Replaying removals -----

  lemma ReplaySnoc(c: Client, responses: seq<Response>, r: Response)
    ensures Replay(c, responses + [r]) == Receive(Replay(c, responses), r)
  {
    assert (responses + [r])[..|responses|] == responses;
  }

  lemma CutOut(a: Client, x: Option<nat>, tail: Client)
    ensures Receive(a + [x] + tail, Expunge(|a| + 1)) == a + tail
  {
  }

  /** Replaying the removals leaves the client with its slots for the messages that remain. */
  lemma {:induction false} ReplayExpunges(c: Client, tail: Client, view: seq<Message>, gone: iset<Message>)
    requires |c| == |view|
    ensures Replay(c + tail, Expunges(view, gone)) == Sieve(c, view, gone) + tail
    ensures |Sieve(c, view, gone)| == |Remaining(view, gone)|
    decreases |view|
  {
    if view == [] {
    } else {
      var last := |view| - 1;
      var x := c[last];
      assert c + tail == c[..last] + ([x] + tail);
      ReplayExpunges(c[..last], [x] + tail, view[..last], gone);
      var left := Sieve(c[..last], view[..last], gone);
      Associative(left, [x], tail);
      if view[last] in gone {
        ReplaySnoc(c + tail, Expunges(view[..last], gone), Expunge(|left| + 1));
        CutOut(left, x, tail);
        EmptyRight(left);
      } else {
        EmptyRight(Expunges(view[..last], gone));
      }
    }
  }

  lemma ReplayRemovals(c: Client, view: seq<Message>, gone: iset<Message>)
    requires |c| == |view|
    ensures Replay(c, Expunges(view, gone)) == Sieve(c, view, gone)
    ensures |Sieve(c, view, gone)| == |Remaining(view, gone)|
  {
    ReplayExpunges(c, [], view, gone);
    EmptyRight(c);
    EmptyRight(Sieve(c, view, gone));
  }

  lemma {:induction false} SieveMirrors(c: Client, view: seq<Message>, gone: iset<Message>)
    requires Mirrors(c, view)
    ensures Mirrors(Sieve(c, view, gone), Remaining(view, gone))
    decreases |view|
  {
    if view != [] {
      SieveMirrors(c[..|view| - 1], view[..|view| - 1], gone);
    }
  }

  // ----- MOVE, in every state -----

  lemma MoveMirrors(c: Client, view: seq<Message>, destroyed: seq<Id>)
    requires Mirrors(c, view)
    ensures Mirrors(Replay(c, Expunges(view, WithIds(destroyed))), Remaining(view, WithIds(destroyed)))
  {
    ReplayRemovals(c, view, WithIds(destroyed));
    SieveMirrors(c, view, WithIds(destroyed));
  }

  // ----- Syncs that append, in every state -----

  ghost predicate IsPrefix<T(!new)>(a: seq<T>, b: seq<T>) {
    |a| <= |b| && b[..|a|] == a
  }

  lemma {:induction false} AddMissingGrows(view: seq<Message>, list: seq<Message>)
    ensures IsPrefix(view, AddMissing(view, list))
    decreases |list|
  {
    if list != [] {
      AddMissingGrows(if HasUid(view, list[0].uid) then view else view + [list[0]], list[1..]);
    }
  }

  lemma ExistsMirrors(c: Client, view: seq<Message>, view': seq<Message>)
    requires Mirrors(c, view) && IsPrefix(view, view')
    ensures Mirrors(Receive(c, Exists(|view'|)), view')
  {
    var c' := Receive(c, Exists(|view'|));
    forall i | 0 <= i < |c'| && c'[i].Some?
      ensures c'[i].value == view'[i].uid
    {
      assert i < |c| && c'[i] == c[i] && view'[..|view|][i] == view'[i];
    }
  }

  lemma AppendMirrors(c: Client, view: seq<Message>, list: seq<Message>)
    requires Mirrors(c, view)
    ensures Mirrors(Replay(c, AppendResponses(view, list)), AddMissing(view, list))
  {
    AddMissingGrows(view, list);
    ReplaySnoc(c, [], Exists(|AddMissing(view, list)|));
    assert [] + [Exists(|AddMissing(view, list)|)] == [Exists(|AddMissing(view, list)|)];
    ExistsMirrors(c, view, AddMissing(view, list));
  }

  // ----- IDLE, in every state -----

  lemma {:induction false} GoneNone(view: seq<Message>, gone: iset<Message>)
    requires GoneNumbers(view, gone) == []
    ensures Remaining(view, gone) == view && Expunges(view, gone) == []
    decreases |view|
  {
    GoneAndRemaining(view, gone);
    ShiftedIsExpunges(view, gone);
    SieveAll(view, gone);
  }

  lemma {:induction false} SieveAll(view: seq<Message>, gone: iset<Message>)
    requires GoneNumbers(view, gone) == []
    ensures Remaining(view, gone) == view
    decreases |view|
  {
    if view != [] {
      var last := |view| - 1;
      SieveAll(view[..last], gone);
      assert view == view[..last] + [view[last]];
    }
  }

  lemma IdleMirrors(c: Client, view: seq<Message>, list: seq<Message>)
    requires Mirrors(c, view)
    ensures Mirrors(Replay(c, IdleResponses(view, list)), IdleView(view, list))
  {
    var gone := NotListed(Uids(list));
    var left, view' := Remaining(view, gone), IdleView(view, list);
    ReplayRemovals(c, view, gone);
    SieveMirrors(c, view, gone);
    AddMissingGrows(left, list);
    ReplaySnoc(c, Expunges(view, gone), Exists(|view'|));
    ExistsMirrors(Replay(c, Expunges(view, gone)), left, view');
    EmptyRight(Expunges(view, gone));
    if view' == left && GoneNumbers(view, gone) == [] {
      GoneNone(view, gone);
    }
  }

  // ----- EXPUNGE, which replaces the view -----

  ghost predicate DistinctUids(view: seq<Message>) {
    forall i, j :: 0 <= i < j < |view| ==> view[i].uid != view[j].uid
  }

  ghost predicate SameUids(a: seq<Message>, b: seq<Message>) {
    |a| <= |b| && forall i :: 0 <= i < |a| ==> a[i].uid == b[i].uid
  }

  lemma ExpungeMirrors(c: Client, view: seq<Message>, list: seq<Message>)
    requires Mirrors(c, view) && SameUids(Remaining(view, NotListed(Uids(list))), list)
    ensures Mirrors(Replay(c, ExpungeResponses(view, list)), list)
  {
    var gone := NotListed(Uids(list));
    var c' := Sieve(c, view, gone);
    ReplayRemovals(c, view, gone);
    SieveMirrors(c, view, gone);
    if GoneNumbers(view, gone) != [] || |view| != |list| {
      ReplaySnoc(c, Expunges(view, gone), Exists(|list|));
      ExpungeExists(c', Remaining(view, gone), list);
    } else {
      GoneNone(view, gone);
      EmptyRight(Expunges(view, gone));
    }
  }

  lemma ExpungeExists(c: Client, left: seq<Message>, list: seq<Message>)
    requires Mirrors(c, left) && SameUids(left, list)
    ensures Mirrors(Receive(c, Exists(|list|)), list)
  {
  }

  /** A client that knows every UID. */
  function Knowing(view: seq<Message>): (c: Client)
    ensures |c| == |view| && forall i :: 0 <= i < |c| ==> c[i] == Some(view[i].uid)
  {
    seq(|view|, i requires 0 <= i < |view| => Some(view[i].uid))
  }

  lemma {:induction false} SieveKnowing(view: seq<Message>, gone: iset<Message>)
    ensures Sieve(Knowing(view), view, gone) == Knowing(Remaining(view, gone))
    decreases |view|
  {
    if view != [] {
      var last := |view| - 1;
      assert Knowing(view)[..last] == Knowing(view[..last]);
      SieveKnowing(view[..last], gone);
    }
  }

  /** What the client is left with: its slots for the remaining messages come first. */
  lemma ExpungeLeaves(view: seq<Message>, list: seq<Message>)
    ensures var left := Knowing(Remaining(view, NotListed(Uids(list))));
            IsPrefix(left, Replay(Knowing(view), ExpungeResponses(view, list)))
  {
    var gone := NotListed(Uids(list));
    ReplayRemovals(Knowing(view), view, gone);
    SieveKnowing(view, gone);
    ReplaySnoc(Knowing(view), Expunges(view, gone), Exists(|list|));
    EmptyRight(Expunges(view, gone));
  }

  lemma PrefixMirrors(left: seq<Message>, c: Client, list: seq<Message>)
    requires IsPrefix(Knowing(left), c) && Mirrors(c, list)
    ensures SameUids(left, list)
  {
    forall i | 0 <= i < |left|
      ensures left[i].uid == list[i].uid
    {
      assert c[i] == c[..|left|][i] == Some(left[i].uid);
    }
  }

  /** Replacing the view keeps a client in step exactly when what remains of the old view comes
      first in the new one. */
  lemma ExpungeMirrorsIff(view: seq<Message>, list: seq<Message>)
    ensures Mirrors(Replay(Knowing(view), ExpungeResponses(view, list)), list)
       <==> SameUids(Remaining(view, NotListed(Uids(list))), list)
  {
    var left := Remaining(view, NotListed(Uids(list)));
    if SameUids(left, list) {
      ExpungeMirrors(Knowing(view), view, list);
    } else if Mirrors(Replay(Knowing(view), ExpungeResponses(view, list)), list) {
      ExpungeLeaves(view, list);
      PrefixMirrors(left, Replay(Knowing(view), ExpungeResponses(view, list)), list);
    }
  }

  // ----- What the syncs rely on -----

  /** The list is the index's, in the order of its UIDs. */
  ghost predicate Lists(b: Index, list: seq<Message>) {
    && (forall i :: 0 <= i < |list| ==> list[i].uid in b.names && b.names[list[i].uid] == list[i].id)
    && Ascending(list)
    && (forall uid :: uid in b.names ==> HasUid(list, uid))
  }

  ghost predicate Ascending(view: seq<Message>) {
    forall i, j :: 0 <= i < j < |view| ==> view[i].uid < view[j].uid
  }

  lemma ListingLists(b: Index, ids: seq<Id>, uids: seq<nat>)
    requires IsListing(b, ids, uids)
    ensures Lists(b, Zip(ids, uids))
  {
    forall uid | uid in b.names
      ensures HasUid(Zip(ids, uids), uid)
    {
      var i :| 0 <= i < |uids| && uids[i] == uid;
      assert Zip(ids, uids)[i].uid == uid;
    }
  }

  /** The view is in the order of its UIDs and holds every message in use that has a UID up to
      `mark`; no UID above it is in the view. */
  ghost predicate UpToDate(view: seq<Message>, mark: nat, b: Index) {
    && Ascending(view) && mark <= b.last
    && (forall i :: 0 <= i < |view| ==> view[i].uid <= mark && (view[i].uid in b.names ==> b.names[view[i].uid] == view[i].id))
    && (forall uid :: uid in b.names && uid <= mark ==> HasUid(view, uid))
  }

  /** Changes made by others leave the view up to date as far as it goes. */
  lemma StaysUpToDate(view: seq<Message>, mark: nat, b: Index, b': Index)
    requires UpToDate(view, mark, b) && Later(b, b')
    ensures UpToDate(view, mark, b')
  {
  }

  lemma ListedUpToDate(list: seq<Message>, b: Index)
    requires Lists(b, list) && Bounded(b)
    ensures UpToDate(list, b.last, b)
  {
  }

  lemma {:induction false} RemainingIn(view: seq<Message>, gone: iset<Message>)
    requires Ascending(view)
    ensures Ascending(Remaining(view, gone))
    ensures forall m :: m in Remaining(view, gone) <==> m in view && m !in gone
    decreases |view|
  {
    if view != [] {
      var last := |view| - 1;
      var before := view[..last];
      RemainingIn(before, gone);
      assert view == before + [view[last]];
      var left := Remaining(before, gone);
      forall m | m in left
        ensures m.uid < view[last].uid
      {
        var i :| 0 <= i < |before| && before[i] == m;
      }
      assert forall i :: 0 <= i < |left| ==> left[i] in left;
    }
  }

  lemma {:induction false} SameMembers(a: seq<Message>, b: seq<Message>)
    requires Ascending(a) && Ascending(b) && forall m :: m in a <==> m in b
    ensures a == b
    decreases |a|
  {
    assert a != [] ==> a[0] in b;
    assert b != [] ==> b[0] in a;
    if a != [] && b != [] {
      forall m
        ensures m in a[1..] <==> m in b[1..]
      {
        assert m in a <==> m == a[0] || m in a[1..];
        assert m in b <==> m == b[0] || m in b[1..];
      }
      SameMembers(a[1..], b[1..]);
      assert a == [a[0]] + a[1..] && b == [b[0]] + b[1..];
    }
  }

  /** How many of an ascending list have UIDs up to `mark`. */
  ghost function CountUpTo(list: seq<Message>, mark: nat): (k: nat)
    requires Ascending(list)
    ensures k <= |list| && (forall i :: 0 <= i < k ==> list[i].uid <= mark) && (forall i :: k <= i < |list| ==> list[i].uid > mark)
    decreases |list|
  {
    if list == [] then 0
    else if list[|list| - 1].uid <= mark then |list|
    else CountUpTo(list[..|list| - 1], mark)
  }

  /** What remains of an up-to-date view is the beginning of the new list; the rest of the list is new. */
  lemma RemainingIsPrefix(view: seq<Message>, mark: nat, b: Index, list: seq<Message>)
    requires UpToDate(view, mark, b) && Lists(b, list)
    ensures var k := CountUpTo(list, mark);
            Remaining(view, NotListed(Uids(list))) == list[..k]
  {
    var k, gone := CountUpTo(list, mark), NotListed(Uids(list));
    RemainingIn(view, gone);
    forall m
      ensures m in Remaining(view, gone) <==> m in list[..k]
    {
      if m in Remaining(view, gone) {
        InView(view, mark, b, list, m);
      } else if m in list[..k] {
        InList(view, mark, b, list, m);
      }
    }
    SameMembers(Remaining(view, gone), list[..k]);
  }

  lemma InView(view: seq<Message>, mark: nat, b: Index, list: seq<Message>, m: Message)
    requires UpToDate(view, mark, b) && Lists(b, list) && m in view && m.uid in Uids(list)
    ensures m in list[..CountUpTo(list, mark)]
  {
    var i :| 0 <= i < |Uids(list)| && Uids(list)[i] == m.uid;
    assert list[i] == m;
    assert i < CountUpTo(list, mark);
    assert list[..CountUpTo(list, mark)][i] == m;
  }

  lemma InList(view: seq<Message>, mark: nat, b: Index, list: seq<Message>, m: Message)
    requires UpToDate(view, mark, b) && Lists(b, list) && m in list[..CountUpTo(list, mark)]
    ensures m in view && m.uid in Uids(list)
  {
    var i :| 0 <= i < CountUpTo(list, mark) && list[i] == m;
    assert Uids(list)[i] == m.uid;
    assert HasUid(view, m.uid);
  }

  /** Messages that the view lacks are all added, in order. */
  lemma {:induction false} AddNewOnes(view: seq<Message>, list: seq<Message>)
    requires DistinctUids(list) && forall i :: 0 <= i < |list| ==> !HasUid(view, list[i].uid)
    ensures AddMissing(view, list) == view + list
    decreases |list|
  {
    if list != [] {
      var view' := view + [list[0]];
      forall i | 0 <= i < |list[1..]|
        ensures !HasUid(view', list[1..][i].uid)
      {
        assert list[1..][i] == list[i + 1];
      }
      AddNewOnes(view', list[1..]);
      assert view' + list[1..] == view + list;
    }
  }

  /** Messages that the view has are passed over. */
  lemma {:induction false} SkipKnown(view: seq<Message>, known: seq<Message>, rest: seq<Message>)
    requires forall i :: 0 <= i < |known| ==> HasUid(view, known[i].uid)
    ensures AddMissing(view, known + rest) == AddMissing(view, rest)
    decreases |known|
  {
    if known == [] {
      EmptyLeft(rest);
    } else {
      assert (known + rest)[0] == known[0] && (known + rest)[1..] == known[1..] + rest;
      SkipKnown(view, known[1..], rest);
    }
  }

  lemma AddListed(view: seq<Message>, mark: nat, list: seq<Message>)
    requires Ascending(list) && forall i :: 0 <= i < |view| ==> view[i].uid <= mark
    requires forall i :: 0 <= i < CountUpTo(list, mark) ==> HasUid(view, list[i].uid)
    ensures AddMissing(view, list) == view + list[CountUpTo(list, mark)..]
  {
    var k := CountUpTo(list, mark);
    assert list == list[..k] + list[k..];
    SkipKnown(view, list[..k], list[k..]);
    AddNewOnes(view, list[k..]);
  }

  lemma Halves(list: seq<Message>, k: nat)
    requires k <= |list|
    ensures list[..k] + list[k..] == list
  {
  }

  lemma PrefixHasUids(list: seq<Message>, k: nat)
    requires k <= |list|
    ensures forall i :: 0 <= i < k ==> HasUid(list[..k], list[i].uid)
  {
    forall i | 0 <= i < k
      ensures HasUid(list[..k], list[i].uid)
    {
      assert list[..k][i] == list[i];
    }
  }

  /** An IDLE sync makes the view the new list. */
  lemma IdleViewIsList(view: seq<Message>, mark: nat, b: Index, list: seq<Message>)
    requires UpToDate(view, mark, b) && Lists(b, list)
    ensures IdleView(view, list) == list
  {
    var k := CountUpTo(list, mark);
    var left := list[..k];
    RemainingIsPrefix(view, mark, b, list);
    PrefixHasUids(list, k);
    AddListed(left, mark, list);
    Halves(list, k);
  }

  lemma ConcatAscending(view: seq<Message>, rest: seq<Message>, mark: nat)
    requires Ascending(view) && Ascending(rest)
    requires forall i :: 0 <= i < |view| ==> view[i].uid <= mark
    requires forall i :: 0 <= i < |rest| ==> mark < rest[i].uid
    ensures Ascending(view + rest)
  {
  }

  lemma {:induction false} HasUidConcat(view: seq<Message>, rest: seq<Message>, uid: nat)
    ensures HasUid(view + rest, uid) <==> HasUid(view, uid) || HasUid(rest, uid)
  {
    if HasUid(view, uid) {
      var i :| 0 <= i < |view| && view[i].uid == uid;
      assert (view + rest)[i].uid == uid;
    } else if HasUid(rest, uid) {
      var i :| 0 <= i < |rest| && rest[i].uid == uid;
      assert (view + rest)[|view| + i].uid == uid;
    }
  }

  /** An appending sync leaves the view up to date with the whole index. */
  lemma AppendUpToDate(view: seq<Message>, mark: nat, b: Index, list: seq<Message>)
    requires UpToDate(view, mark, b) && Lists(b, list) && Bounded(b)
    ensures UpToDate(AddMissing(view, list), b.last, b)
  {
    AddListed(view, mark, list);
    AppendComplete(view, mark, b, list);
    NewOnes(mark, b, list);
    AppendedUpToDate(view, list[CountUpTo(list, mark)..], mark, b, AddMissing(view, list));
  }

  /** What an ascending list has above `mark`. */
  lemma NewOnes(mark: nat, b: Index, list: seq<Message>)
    requires Lists(b, list)
    ensures var rest := list[CountUpTo(list, mark)..];
            Ascending(rest) && forall i :: 0 <= i < |rest| ==> mark < rest[i].uid && rest[i].uid in b.names && b.names[rest[i].uid] == rest[i].id
  {
  }

  lemma AppendedUpToDate(view: seq<Message>, rest: seq<Message>, mark: nat, b: Index, all: seq<Message>)
    requires UpToDate(view, mark, b) && Bounded(b) && Ascending(rest) && all == view + rest
    requires forall i :: 0 <= i < |rest| ==> mark < rest[i].uid && rest[i].uid in b.names && b.names[rest[i].uid] == rest[i].id
    requires forall uid :: uid in b.names ==> HasUid(all, uid)
    ensures UpToDate(all, b.last, b)
  {
    ConcatAscending(view, rest, mark);
    AppendNames(view, rest, b);
  }

  lemma AppendComplete(view: seq<Message>, mark: nat, b: Index, list: seq<Message>)
    requires UpToDate(view, mark, b) && Lists(b, list)
    ensures forall uid :: uid in b.names ==> HasUid(view + list[CountUpTo(list, mark)..], uid)
  {
    var k := CountUpTo(list, mark);
    forall uid | uid in b.names
      ensures HasUid(view + list[k..], uid)
    {
      HasUidConcat(view, list[k..], uid);
      if uid > mark {
        var i :| 0 <= i < |list| && list[i].uid == uid;
        assert list[k..][i - k].uid == uid;
      }
    }
  }

  lemma AppendNames(view: seq<Message>, rest: seq<Message>, b: Index)
    requires forall i :: 0 <= i < |view| ==> view[i].uid <= b.last && (view[i].uid in b.names ==> b.names[view[i].uid] == view[i].id)
    requires forall i :: 0 <= i < |rest| ==> rest[i].uid <= b.last && (rest[i].uid in b.names ==> b.names[rest[i].uid] == rest[i].id)
    ensures var all := view + rest;
            forall i :: 0 <= i < |all| ==> all[i].uid <= b.last && (all[i].uid in b.names ==> b.names[all[i].uid] == all[i].id)
  {
  }

  /** A MOVE takes the same messages from the view and from the index. */
  lemma MoveUpToDate(view: seq<Message>, mark: nat, b: Index, destroyed: seq<Id>, now: nat)
    requires UpToDate(view, mark, b) && Inverse(b) && Consistent(b)
    ensures UpToDate(Remaining(view, WithIds(destroyed)), mark, DeleteIds(b, destroyed, now))
  {
    var b', left := DeleteIds(b, destroyed, now), Remaining(view, WithIds(destroyed));
    DeleteIdsConsistent(b, destroyed, now);
    DeleteIdsLater(b, destroyed, now);
    RemainingIn(view, WithIds(destroyed));
    assert forall i :: 0 <= i < |left| ==> left[i] in left && left[i] in view;
    forall uid | uid in b'.names && uid <= mark
      ensures HasUid(left, uid)
    {
      var i :| 0 <= i < |view| && view[i].uid == uid;
      assert b'.names[uid] == view[i].id && view[i].id in b'.uids;
      assert view[i] in left;
      var j :| 0 <= j < |left| && left[j] == view[i];
    }
  }

  // ----- Whole runs -----

  /** A session with its client, and the mailbox as all sessions change it. */
  datatype Session = Session(index: Index, mark: nat, view: seq<Message>, client: Client)

  datatype Event =
    | Others(actions: seq<Action>)
    | Learn(i: nat)
    | Idle(ids: seq<Id>, now: nat, list: seq<Message>)
    | ExpungeAll(ids: seq<Id>, now: nat, list: seq<Message>)
    | Append(ids: seq<Id>, now: nat, list: seq<Message>)
    | Move(destroyed: seq<Id>, now: nat)

  /** A sync updates the index with what the mail server lists and works on the index's listing. */
  ghost predicate Legal(s: Session, e: Event) {
    match e
    case Others(actions) => WithoutDuplicates(actions)
    case Idle(ids, now, list) => NoDuplicates(ids) && Lists(Update(s.index, ids, now), list)
    case ExpungeAll(ids, now, list) => NoDuplicates(ids) && Lists(Update(s.index, ids, now), list)
    case Append(ids, now, list) => NoDuplicates(ids) && Lists(Update(s.index, ids, now), list)
    case _ => true
  }

  /** The server edits its view and the client replays the responses. In Learn the server tells the
      client the UID of one message. */
  ghost function Next(s: Session, e: Event): Session {
    match e
    case Others(actions) => s.(index := RunAll(s.index, actions))
    case Learn(i) =>
      if i < |s.client| && i < |s.view| then s.(client := s.client[i := Some(s.view[i].uid)]) else s
    case Idle(ids, now, list) =>
      var b := Update(s.index, ids, now);
      Session(b, b.last, IdleView(s.view, list), Replay(s.client, IdleResponses(s.view, list)))
    case ExpungeAll(ids, now, list) =>
      var b := Update(s.index, ids, now);
      Session(b, b.last, list, Replay(s.client, ExpungeResponses(s.view, list)))
    case Append(ids, now, list) =>
      var b := Update(s.index, ids, now);
      Session(b, b.last, AddMissing(s.view, list), Replay(s.client, AppendResponses(s.view, list)))
    case Move(destroyed, now) =>
      var gone := WithIds(destroyed);
      Session(DeleteIds(s.index, destroyed, now), s.mark, Remaining(s.view, gone), Replay(s.client, Expunges(s.view, gone)))
  }

  ghost predicate InStep(s: Session) {
    Consistent(s.index) && UpToDate(s.view, s.mark, s.index) && Mirrors(s.client, s.view)
  }

  lemma NextInStep(s: Session, e: Event)
    requires InStep(s) && Legal(s, e)
    ensures InStep(Next(s, e))
  {
    match e
    case Others(actions) =>
      RunConsistent(s.index, actions);
      StaysUpToDate(s.view, s.mark, s.index, RunAll(s.index, actions));
    case Learn(i) =>
    case Move(destroyed, now) =>
      DeleteIdsConsistent(s.index, destroyed, now);
      MoveUpToDate(s.view, s.mark, s.index, destroyed, now);
      MoveMirrors(s.client, s.view, destroyed);
    case Idle(ids, now, list) =>
      SyncStart(s, ids, now);
      IdleViewIsList(s.view, s.mark, Update(s.index, ids, now), list);
      ListedUpToDate(list, Update(s.index, ids, now));
      IdleMirrors(s.client, s.view, list);
    case ExpungeAll(ids, now, list) =>
      SyncStart(s, ids, now);
      RemainingIsPrefix(s.view, s.mark, Update(s.index, ids, now), list);
      ListedUpToDate(list, Update(s.index, ids, now));
      ExpungeMirrors(s.client, s.view, list);
    case Append(ids, now, list) =>
      SyncStart(s, ids, now);
      AppendUpToDate(s.view, s.mark, Update(s.index, ids, now), list);
      AppendMirrors(s.client, s.view, list);
  }

  lemma SyncStart(s: Session, ids: seq<Id>, now: nat)
    requires InStep(s) && NoDuplicates(ids)
    ensures Consistent(Update(s.index, ids, now)) && UpToDate(s.view, s.mark, Update(s.index, ids, now))
  {
    UpdateConsistent(s.index, ids, now);
    UpdateLater(s.index, ids, now);
    StaysUpToDate(s.view, s.mark, s.index, Update(s.index, ids, now));
  }

  ghost predicate LegalRun(s: Session, events: seq<Event>)
    decreases |events|
  {
    events == [] || (Legal(s, events[0]) && LegalRun(Next(s, events[0]), events[1..]))
  }

  ghost function Run(s: Session, events: seq<Event>): Session
    decreases |events|
  {
    if events == [] then s else Run(Next(s, events[0]), events[1..])
  }

  lemma {:induction false} RunInStep(s: Session, events: seq<Event>)
    requires InStep(s) && LegalRun(s, events)
    ensures InStep(Run(s, events))
    decreases |events|
  {
    if events != [] {
      NextInStep(s, events[0]);
      RunInStep(Next(s, events[0]), events[1..]);
    }
  }

  /** SELECT: the view is the listing, and the client knows how many messages there are. */
  ghost function Selected(b: Index, list: seq<Message>): Session {
    Session(b, b.last, list, Unknown(|list|))
  }

  /** After any run since the mailbox was selected the client has as many messages as the server, and
      each message that it knows stands at its place in the server's view. */
  lemma ClientMirrorsServer(b: Index, list: seq<Message>, events: seq<Event>)
    requires Consistent(b) && Lists(b, list) && LegalRun(Selected(b, list), events)
    ensures var s := Run(Selected(b, list), events);
            && |s.client| == |s.view| && Ascending(s.view)
            && forall i :: 0 <= i < |s.client| && s.client[i].Some? ==> s.client[i].value == s.view[i].uid
  {
    ListedUpToDate(list, b);
    RunInStep(Selected(b, list), events);
  }

  /** No step makes the client forget a message that is still there. */
  lemma KnowledgeStays(s: Session, e: Event, i: nat)
    requires InStep(s) && Legal(s, e) && i < |s.client| && s.client[i].Some? && HasUid(Next(s, e).view, s.view[i].uid)
    ensures Some(s.view[i].uid) in Next(s, e).client
  {
    match e
    case Others(_) => assert s.client[i] in s.client;
    case Learn(j) =>
      if j < |s.client| {
        assert Next(s, e).client[i] == Some(s.view[i].uid);
      }
    case Move(destroyed, now) =>
      var gone := WithIds(destroyed);
      ReplayRemovals(s.client, s.view, gone);
      RemainingIn(s.view, gone);
      StillThere(s.view, gone, i);
      SieveKeeps(s.client, s.view, gone, i);
    case Idle(ids, now, list) =>
      SyncStart(s, ids, now);
      IdleViewIsList(s.view, s.mark, Update(s.index, ids, now), list);
      SyncKeeps(s, IdleResponses(s.view, list), list, i);
    case ExpungeAll(ids, now, list) => SyncKeeps(s, ExpungeResponses(s.view, list), list, i);
    case Append(ids, now, list) =>
      var n := |AddMissing(s.view, list)|;
      assert s.client[i] in s.client;
      if AddMissing(s.view, list) != s.view {
        assert [] + [Exists(n)] == [Exists(n)];
        ReplaySnoc(s.client, [], Exists(n));
        ExistsKeeps(s.client, n);
      }
  }

  lemma StillThere(view: seq<Message>, gone: iset<Message>, i: nat)
    requires Ascending(view) && i < |view| && HasUid(Remaining(view, gone), view[i].uid)
    ensures view[i] !in gone
  {
    RemainingIn(view, gone);
    var left := Remaining(view, gone);
    var j :| 0 <= j < |left| && left[j].uid == view[i].uid;
    assert left[j] in left;
  }

  lemma {:induction false} SieveKeeps(c: Client, view: seq<Message>, gone: iset<Message>, i: nat)
    requires |c| == |view| && i < |view| && view[i] !in gone
    ensures c[i] in Sieve(c, view, gone)
    decreases |view|
  {
    if i < |view| - 1 {
      SieveKeeps(c[..|view| - 1], view[..|view| - 1], gone, i);
    }
  }

  lemma ExistsKeeps(c: Client, n: nat)
    ensures forall slot :: slot in c ==> slot in Receive(c, Exists(n))
  {
  }

  lemma SyncKeeps(s: Session, responses: seq<Response>, list: seq<Message>, i: nat)
    requires Mirrors(s.client, s.view) && i < |s.client| && s.client[i].Some? && HasUid(list, s.view[i].uid)
    requires responses == IdleResponses(s.view, list) || responses == ExpungeResponses(s.view, list)
    ensures s.client[i] in Replay(s.client, responses)
  {
    var gone := NotListed(Uids(list));
    var expunges := Expunges(s.view, gone);
    var j :| 0 <= j < |list| && list[j].uid == s.view[i].uid;
    assert Uids(list)[j] == s.view[i].uid;
    ReplayRemovals(s.client, s.view, gone);
    SieveKeeps(s.client, s.view, gone, i);
    EmptyRight(expunges);
    if responses != expunges {
      var r := responses[|expunges|];
      assert responses == expunges + [r];
      ReplaySnoc(s.client, expunges, r);
      ExistsKeeps(Replay(s.client, expunges), r.n);
    }
  }

  /** An EXPUNGE with a partial list, or after a sync that appended out of order, can break this: the
      remaining message no longer comes first. */
  lemma OutOfOrderExpunge(id: Id)
    ensures var view, list := [Message(id, 7)], [Message(id, 3), Message(id, 7)];
            !Mirrors(Replay(Knowing(view), ExpungeResponses(view, list)), list)
  {
    var view, list := [Message(id, 7)], [Message(id, 3), Message(id, 7)];
    ExpungeMirrorsIff(view, list);
    assert Uids(list)[1] == 7;
    assert view[..0] == [];
    assert Remaining(view, NotListed(Uids(list))) == view;
  }
}
