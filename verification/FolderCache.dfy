/** The cache of mailbox names as CREATE and RENAME change it: no mailbox is lost, none is put in the
    place of another, and every name keeps the names it lies under. */
module FolderCache {
  import opened Wrappers
  import opened Sequences
  import opened Folders

  type Names = map<string, Id>
  type Flags = map<Id, bool>

  // ----- Created mailboxes -----

  function Extend(base: string, item: string): string {
    if base != "" then base + "/" + item else item
  }

  function NameAt(base: string, path: seq<string>, j: nat): string
    requires j <= |path|
  {
    if j == 0 then base else Extend(NameAt(base, path, j - 1), path[j - 1])
  }

  function AddNames(names: Names, base: string, path: seq<string>, ids: seq<Id>, j: nat): Names
    requires j <= |path| == |ids|
  {
    if j == 0 then names else AddNames(names, base, path, ids, j - 1)[NameAt(base, path, j) := ids[j - 1]]
  }

  /** All but the last of the created mailboxes have children at once; the last one has if `more` is
      to go under it. */
  function AddFlags(flags: Flags, ids: seq<Id>, more: bool, j: nat): Flags
    requires j <= |ids|
  {
    if j == 0 then flags else AddFlags(flags, ids, more, j - 1)[ids[j - 1] := j < |ids| || more]
  }

  function FlagParent(flags: Flags, parentId: Option<Id>): Flags {
    if parentId.Some? && parentId.value in flags then flags[parentId.value := true] else flags
  }

  function BaseOf(params: CreateParams): string {
    if params.parentName.Some? then params.parentName.value else ""
  }

  // ----- The rewriting of RENAME -----

  /** Where a name goes when `source` becomes `target`. */
  function Moved(name: string, source: string, target: string): string {
    if name == source then target else if Below(name, source) then target + name[|source|..] else name
  }

  /** Every mailbox is still there, under its moved name, and nothing else is. */
  ghost predicate IsRewrite(names: Names, names': Names, source: string, target: string) {
    && (forall n :: n in names ==> Moved(n, source, target) in names' && names'[Moved(n, source, target)] == names[n])
    && (forall m :: m in names' ==> exists n :: n in names && Moved(n, source, target) == m)
  }

  lemma MovedUnder(name: string, source: string, target: string)
    requires Below(name, source)
    ensures Below(Moved(name, source, target), target)
    ensures Moved(name, source, target)[|target|..] == name[|source|..]
  {
    var m := Moved(name, source, target);
    assert name[|source|..][0] == '/';
    assert m[..|target|] == target && m[|target|] == name[|source|..][0];
  }

  /** The mailbox itself gets the new name, one below it keeps the rest of its name below the new one,
      and any other name stays. */
  lemma MovedTo(name: string, source: string, target: string, rest: string)
    ensures Moved(source, source, target) == target
    ensures Moved(source + "/" + rest, source, target) == target + "/" + rest
    ensures name != source && !(source + "/" <= name) ==> Moved(name, source, target) == name
  {
    var child := source + "/" + rest;
    assert child[..|source|] == source && child[|source|..] == "/" + rest;
    if Below(name, source) {
      assert name[..|source| + 1] == source + "/";
    }
  }

  /** No two mailboxes end up under the same name. */
  lemma MovedInjective(names: Names, source: string, target: string, n: string, m: string)
    requires ParentClosed(names) && target !in names && n in names && m in names
    requires Moved(n, source, target) == Moved(m, source, target)
    ensures n == m
  {
    if Below(n, source) {
      MovedUnder(n, source, target);
    }
    if Below(m, source) {
      MovedUnder(m, source, target);
    }
    if Below(n, source) && Below(m, source) {
      assert n == source + n[|source|..] && m == source + m[|source|..];
    }
  }

  /** The names outside `rest` have been moved, except `source` itself. */
  ghost predicate Moving(names: Names, rest: Names, moved: Names, source: string, target: string) {
    && (forall n :: n in rest ==> n in names && rest[n] == names[n])
    && (forall n :: n in names && n !in rest && n != source ==>
          Moved(n, source, target) in moved && moved[Moved(n, source, target)] == names[n])
    && (forall m :: m in moved ==> exists n :: n in names && n !in rest && n != source && Moved(n, source, target) == m)
  }

  lemma MoveStep(names: Names, rest: Names, moved: Names, source: string, target: string, name: string)
    requires ParentClosed(names) && target !in names && name in rest && Moving(names, rest, moved, source, target)
    ensures name == source ==> Moving(names, rest - {name}, moved, source, target)
    ensures name != source ==> Moving(names, rest - {name}, moved[Moved(name, source, target) := rest[name]], source, target)
  {
    if name != source {
      var moved' := moved[Moved(name, source, target) := rest[name]];
      forall n | n in names && n !in rest && n != source
        ensures Moved(n, source, target) in moved' && moved'[Moved(n, source, target)] == names[n]
      {
        if Moved(n, source, target) == Moved(name, source, target) {
          MovedInjective(names, source, target, n, name);
        }
      }
    }
  }

  lemma MoveLast(names: Names, moved: Names, source: string, target: string)
    requires ParentClosed(names) && target !in names && source in names && Moving(names, map[], moved, source, target)
    ensures IsRewrite(names, moved[target := names[source]], source, target)
  {
    var names' := moved[target := names[source]];
    forall n | n in names
      ensures Moved(n, source, target) in names' && names'[Moved(n, source, target)] == names[n]
    {
      if n != source && Moved(n, source, target) == target {
        MovedInjective(names, source, target, n, source);
      }
    }
  }

  // ----- The account -----

  /** What the mail server says of the mailboxes to create, and whether it has renamed the mailbox. */
  datatype Reply = Reply(created: seq<Option<Id>>, updated: bool)

  predicate AllCreated(created: seq<Option<Id>>) {
    forall i :: 0 <= i < |created| ==> created[i].Some?
  }

  function IdsOf(created: seq<Option<Id>>): (ids: seq<Id>)
    requires AllCreated(created)
    ensures |ids| == |created| && forall i :: 0 <= i < |ids| ==> ids[i] == created[i].value
  {
    seq(|created|, i requires 0 <= i < |created| => created[i].value)
  }

  /** Where the last slash is, which ends the name of the parent. */
  function ParentLength(name: string): (k: nat)
    requires HasSlash(name)
    ensures k < |name| && name[k] == '/' && forall i :: k < i < |name| ==> name[i] != '/'
    decreases |name|
  {
    var last := |name| - 1;
    if name[last] == '/' then last
    else
      assert HasSlash(name[..last]) by {
        var i :| 0 <= i < |name| && name[i] == '/';
        assert name[..last][i] == '/';
      }
      ParentLength(name[..last])
  }

  predicate AnyOther(names: Names, source: string, parent: string) {
    exists n :: n in names && n != source && Below(n, parent)
  }

  /** The flag of the parent that is left: whether another name lies under it. */
  function FlagOldParent(names: Names, flags: Flags, source: string): Flags {
    if !HasSlash(source) then flags
    else
      var parent := source[..ParentLength(source)];
      if parent in names && names[parent] in flags then flags[names[parent] := AnyOther(names, source, parent)] else flags
  }

  predicate ParentAgrees(params: CreateParams) {
    params.parentId.Some? <==> params.parentName.Some?
  }

  /** The names with the new parents, which are all but the last item of the path. */
  function WithParents(names: Names, params: CreateParams, created: seq<Option<Id>>): Names
    requires AllCreated(created) && |created| <= |params.path|
  {
    AddNames(names, BaseOf(params), params.path[..|created|], IdsOf(created), |created|)
  }

  function RenamedFlags(names: Names, flags: Flags, source: string, params: CreateParams, created: seq<Option<Id>>): Flags
    requires AllCreated(created) && |created| <= |params.path|
  {
    var start := if created == [] then flags else FlagParent(flags, params.parentId);
    FlagParent(FlagOldParent(WithParents(names, params, created), AddFlags(start, IdsOf(created), true, |created|), source), params.parentId)
  }

  /** The flags when the new parents have been created but the rename has been refused. */
  function RefusedFlags(flags: Flags, params: CreateParams, created: seq<Option<Id>>): Flags
    requires AllCreated(created)
  {
    if created == [] then flags else AddFlags(FlagParent(flags, params.parentId), IdsOf(created), false, |created|)
  }

  class Account {
    var names: Names
    var hasChildren: Flags

    /** The mailboxes that the mail server has created enter the cache, if it has created them all. */
    method AddCreated(params: CreateParams, path: seq<string>, created: seq<Option<Id>>, more: bool) returns (ok: bool)
      requires |created| == |path| && ParentAgrees(params)
      modifies this
      ensures ok == AllCreated(created)
      ensures !ok ==> names == old(names) && hasChildren == old(hasChildren)
      ensures ok ==> names == AddNames(old(names), BaseOf(params), path, IdsOf(created), |path|)
      ensures ok ==> hasChildren == AddFlags(FlagParent(old(hasChildren), params.parentId), IdsOf(created), more, |path|)
    {
      ok := AllCreated(created);
      if !ok {
        return;
      }
      var ids := IdsOf(created);
      if params.parentName.Some? && params.parentId.value in hasChildren {
        hasChildren := hasChildren[params.parentId.value := true];
      }
      var mailboxName := BaseOf(params);
      ghost var flags := hasChildren;
      for pos := 0 to |path|
        invariant mailboxName == NameAt(BaseOf(params), path, pos)
        invariant names == AddNames(old(names), BaseOf(params), path, ids, pos)
        invariant hasChildren == AddFlags(flags, ids, more, pos)
      {
        mailboxName := if mailboxName != "" then mailboxName + "/" + path[pos] else path[pos];
        names := names[mailboxName := ids[pos]];
        hasChildren := hasChildren[ids[pos] := pos < |path| - 1 || more];
      }
    }

    /** Every name in turn goes to its place in a new map. */
    method Rewrite(source: string, target: string)
      requires ParentClosed(names) && target !in names && source in names
      modifies this`names
      ensures IsRewrite(old(names), names, source, target)
    {
      var id := names[source];
      var rest, moved := names, map[];
      while rest != map[]
        invariant names == old(names) && Moving(names, rest, moved, source, target)
        decreases |rest|
      {
        var name :| name in rest;
        MoveStep(names, rest, moved, source, target, name);
        if name != source {
          if Below(name, source) {
            moved := moved[target + name[|source|..] := rest[name]];
          } else {
            moved := moved[name := rest[name]];
          }
        }
        rest := rest - {name};
      }
      MoveLast(names, moved, source, target);
      names := moved[target := id];
    }

    method UpdateFlags(source: string, params: CreateParams)
      modifies this`hasChildren
      ensures hasChildren == FlagParent(FlagOldParent(names, old(hasChildren), source), params.parentId)
    {
      if HasSlash(source) {
        var parent := source[..ParentLength(source)];
        if parent in names && names[parent] in hasChildren {
          hasChildren := hasChildren[names[parent] := AnyOther(names, source, parent)];
        }
      }
      if params.parentId.Some? && params.parentId.value in hasChildren {
        hasChildren := hasChildren[params.parentId.value := true];
      }
    }

    /** CREATE, once the mail server has answered. */
    method CreateMailbox(params: CreateParams, created: seq<Option<Id>>) returns (ok: bool)
      requires |created| == |params.path| && ParentAgrees(params)
      modifies this
      ensures ok == AllCreated(created)
      ensures !ok ==> names == old(names) && hasChildren == old(hasChildren)
      ensures ok ==> names == AddNames(old(names), BaseOf(params), params.path, IdsOf(created), |created|)
      ensures ok ==> hasChildren == AddFlags(FlagParent(old(hasChildren), params.parentId), IdsOf(created), false, |created|)
    {
      ok := AddCreated(params, params.path, created, false);
    }

    /** RENAME of a mailbox that is there to a name that has been validated. */
    method RenameMailbox(source: string, params: CreateParams, reply: Reply, ghost items: seq<string>, ghost k: nat) returns (ok: bool)
      requires source in names && ParentClosed(names) && AreItems(items) && Splits(names, items, params, k)
      requires |reply.created| == |params.path| - 1
      modifies this
      ensures ok == (AllCreated(reply.created) && reply.updated)
      ensures !AllCreated(reply.created) ==> names == old(names) && hasChildren == old(hasChildren)
      ensures AllCreated(reply.created) && !ok ==> names == WithParents(old(names), params, reply.created)
      ensures AllCreated(reply.created) && !ok ==> hasChildren == RefusedFlags(old(hasChildren), params, reply.created)
      ensures ok ==> IsRewrite(WithParents(old(names), params, reply.created), names, source, params.fullPath)
      ensures ok ==> hasChildren == RenamedFlags(old(names), old(hasChildren), source, params, reply.created)
    {
      var path := params.path[..|params.path| - 1];
      if path != [] {
        var created := AddCreated(params, path, reply.created, reply.updated);
        if !created {
          return false;
        }
      }
      if !reply.updated {
        return false;
      }
      if AllCreated(reply.created) {
        CreatedNames(old(names), items, params, k, IdsOf(reply.created), |path|);
      }
      UpdateFlags(source, params);
      Rewrite(source, params.fullPath);
      ok := true;
    }
  }

  // ----- Creation -----

  /** One more item makes the next longer part of the path. */
  lemma ExtendJoin(items: seq<string>, j: nat)
    requires AreItems(items) && j < |items|
    ensures Extend(if j == 0 then "" else PathTo(items, j), items[j]) == PathTo(items, j + 1)
  {
    if j == 0 {
      JoinOne(items);
    } else {
      JoinStep(items, j);
      JoinNonEmpty(items, j);
    }
  }

  /** The path is the part of the items from `k` on. */
  predicate IsPart(items: seq<string>, k: nat, path: seq<string>) {
    k + |path| <= |items| && forall i :: 0 <= i < |path| ==> path[i] == items[k + i]
  }

  lemma NameAtStep(base: string, items: seq<string>, k: nat, path: seq<string>, j: nat)
    requires AreItems(items) && 0 < j <= |path| && k + j <= |items| && path[j - 1] == items[k + j - 1]
    requires NameAt(base, path, j - 1) == if k + j == 1 then "" else PathTo(items, k + j - 1)
    ensures NameAt(base, path, j) == PathTo(items, k + j)
  {
    ExtendJoin(items, k + j - 1);
  }

  lemma {:induction false} NameAtIsJoin(base: string, items: seq<string>, k: nat, path: seq<string>, j: nat)
    requires AreItems(items) && j <= |path| && IsPart(items, k, path)
    requires base == if k == 0 then "" else PathTo(items, k)
    ensures NameAt(base, path, j) == if k + j == 0 then "" else PathTo(items, k + j)
    decreases j
  {
    if j > 0 {
      NameAtIsJoin(base, items, k, path, j - 1);
      NameAtStep(base, items, k, path, j);
    }
  }

  /** The names after the first `j` creations: those before, and `j` more of the path. */
  ghost predicate IsCreated(names: Names, names1: Names, items: seq<string>, k: nat, ids: seq<Id>, j: nat)
    requires j <= |ids| <= |items| - k
  {
    && (forall n :: n in names ==> n in names1 && names1[n] == names[n])
    && (forall i :: k < i <= k + j ==> PathTo(items, i) in names1 && names1[PathTo(items, i)] == ids[i - k - 1])
    && (forall n :: n in names1 ==> n in names || exists i :: k < i <= k + j && n == PathTo(items, i))
  }

  lemma CreatedStep(names: Names, before: Names, after: Names, items: seq<string>, k: nat, ids: seq<Id>, j: nat, name: string)
    requires 0 < j <= |ids| <= |items| - k && IsCreated(names, before, items, k, ids, j - 1)
    requires name == PathTo(items, k + j) && name !in names && forall i :: 0 < i < k + j ==> PathTo(items, i) != name
    requires after == before[name := ids[j - 1]]
    ensures IsCreated(names, after, items, k, ids, j)
  {
  }

  lemma ShorterPaths(items: seq<string>, j: nat)
    requires 0 < j <= |items|
    ensures forall i :: 0 < i < j ==> PathTo(items, i) != PathTo(items, j)
  {
    forall i | 0 < i < j
      ensures PathTo(items, i) != PathTo(items, j)
    {
      JoinBelow(items, i, j);
    }
  }

  lemma AddOne(names: Names, base: string, items: seq<string>, k: nat, path: seq<string>, ids: seq<Id>, j: nat)
    requires AreItems(items) && 0 < j <= |ids| == |path| && k + |path| <= |items| && path == items[k..k + |path|]
    requires base == if k == 0 then "" else PathTo(items, k)
    ensures AddNames(names, base, path, ids, j) == AddNames(names, base, path, ids, j - 1)[PathTo(items, k + j) := ids[j - 1]]
  {
    NameAtIsJoin(base, items, k, path, j);
  }

  lemma {:induction false} AddNamesIsCreated(names: Names, base: string, items: seq<string>, k: nat, path: seq<string>, ids: seq<Id>, j: nat)
    requires AreItems(items) && j <= |ids| == |path| && k + |path| <= |items| && path == items[k..k + |path|]
    requires base == if k == 0 then "" else PathTo(items, k)
    requires forall i :: k < i <= |items| ==> PathTo(items, i) !in names
    ensures IsCreated(names, AddNames(names, base, path, ids, j), items, k, ids, j)
    decreases j
  {
    if j > 0 {
      var before, after := AddNames(names, base, path, ids, j - 1), AddNames(names, base, path, ids, j);
      AddNamesIsCreated(names, base, items, k, path, ids, j - 1);
      AddOne(names, base, items, k, path, ids, j);
      ShorterPaths(items, k + j);
      CreatedStep(names, before, after, items, k, ids, j, PathTo(items, k + j));
    }
  }

  lemma CreatedClosed(names: Names, names1: Names, items: seq<string>, params: CreateParams, k: nat, ids: seq<Id>, j: nat)
    requires AreItems(items) && Splits(names, items, params, k) && j <= |ids| <= |items| - k
    requires ParentClosed(names) && IsCreated(names, names1, items, k, ids, j)
    ensures ParentClosed(names1)
  {
    forall n, a | n in names1 && Below(n, a)
      ensures a in names1
    {
      if n !in names {
        var i :| k < i <= k + j && n == PathTo(items, i);
        var i' := BelowJoin(items, i, a);
        if i' < k {
          JoinBelow(items, i', k);
        }
      }
    }
  }

  lemma CreatedNames(names: Names, items: seq<string>, params: CreateParams, k: nat, ids: seq<Id>, j: nat)
    requires AreItems(items) && Splits(names, items, params, k) && ParentClosed(names) && j == |ids| < |items| - k
    ensures var names1 := AddNames(names, BaseOf(params), params.path[..j], ids, j);
            ParentClosed(names1) && params.fullPath !in names1 && IsCreated(names, names1, items, k, ids, j)
  {
    assert params.path[..j] == items[k..k + j];
    var names1 := AddNames(names, BaseOf(params), params.path[..j], ids, j);
    AddNamesIsCreated(names, BaseOf(params), items, k, params.path[..j], ids, j);
    CreatedClosed(names, names1, items, params, k, ids, j);
    ShorterPaths(items, |items|);
  }

  // ----- Renaming keeps the names closed -----

  /** The moved names have all the names that they lie under, exactly if the mailbox has not been
      moved under itself. */
  lemma RenameClosedIff(names: Names, names': Names, source: string, target: string)
    requires ParentClosed(names) && source in names && target !in names && IsRewrite(names, names', source, target)
    requires forall a :: Below(target, a) ==> a in names
    ensures ParentClosed(names') <==> !Below(target, source)
  {
    if Below(target, source) {
      SourceGone(names, names', source, target);
      assert Moved(source, source, target) == target;
    } else {
      forall n', a | n' in names' && Below(n', a)
        ensures a in names'
      {
        var n :| n in names && Moved(n, source, target) == n';
        MovedParent(names, names', source, target, n, a);
      }
    }
  }

  lemma SourceGone(names: Names, names': Names, source: string, target: string)
    requires source in names && target !in names && IsRewrite(names, names', source, target) && Below(target, source)
    ensures source !in names'
  {
    if source in names' {
      var n :| n in names && Moved(n, source, target) == source;
      if Below(n, source) {
        MovedUnder(n, source, target);
      }
    }
  }

  /** A name that is neither `source` nor under it stays. */
  lemma Stays(names: Names, names': Names, source: string, target: string, a: string)
    requires IsRewrite(names, names', source, target) && a in names && a != source && !Below(a, source)
    ensures a in names' && names'[a] == names[a]
  {
    assert Moved(a, source, target) == a;
  }

  lemma MovedParent(names: Names, names': Names, source: string, target: string, n: string, a: string)
    requires ParentClosed(names) && source in names && target !in names && IsRewrite(names, names', source, target)
    requires forall a :: Below(target, a) ==> a in names
    requires !Below(target, source) && n in names && Below(Moved(n, source, target), a)
    ensures a in names'
  {
    var n' := Moved(n, source, target);
    if n != source && !Below(n, source) {
      if Below(a, source) {
        BelowTransitive(n, a, source);
      }
      Stays(names, names', source, target, a);
    } else {
      if n != source {
        MovedUnder(n, source, target);
      }
      if |a| < |target| {
        BelowComparable(n', a, target);
        if Below(a, source) {
          BelowTransitive(target, a, source);
        }
        Stays(names, names', source, target, a);
      } else if |a| == |target| {
        assert a == target == Moved(source, source, target);
      } else {
        var b := source + n[|source|..][..|a| - |target|];
        MovedPrefix(n, source, target, a, b);
        assert Moved(b, source, target) == a;
      }
    }
  }

  /** What a moved name lies under, below `target`, is itself moved. */
  lemma MovedPrefix(n: string, source: string, target: string, a: string, b: string)
    requires Below(n, source) && Below(Moved(n, source, target), a) && |a| > |target|
    requires b == source + n[|source|..][..|a| - |target|]
    ensures Below(n, b) && Below(b, source) && Moved(b, source, target) == a
  {
    var n', tail, d := Moved(n, source, target), n[|source|..], |a| - |target|;
    assert n == source + tail && n' == target + tail;
    assert n[..|b|] == source + tail[..d];
    assert n[|b|] == tail[d] == n'[|a|];
    assert b[..|source|] == source && b[|source|] == tail[0] == n[|source|];
    assert a == n'[..|a|] == target + tail[..d];
    assert b[|source|..] == tail[..d];
  }

  // ----- The flags after a rename -----

  ghost predicate HasBelow(names: Names, name: string) {
    exists m :: m in names && Below(m, name)
  }

  /** Every mailbox is flagged exactly if another lies under it. */
  ghost predicate FlagsRight(names: Names, flags: Flags) {
    forall n :: n in names ==> names[n] in flags && (flags[names[n]] <==> HasBelow(names, n))
  }

  ghost predicate DistinctIds(names: Names) {
    forall n, m :: n in names && m in names && names[n] == names[m] ==> n == m
  }

  /** A rename whose new parents have been created as `names1`. */
  ghost predicate Renaming(names: Names, names1: Names, items: seq<string>, k: nat, ids: seq<Id>, source: string, target: string) {
    && AreItems(items) && k + |ids| + 1 == |items| && target == PathTo(items, |items|)
    && ParentClosed(names) && ParentClosed(names1) && IsCreated(names, names1, items, k, ids, |ids|)
    && source in names && target !in names1 && !Below(target, source)
    && (forall j :: k < j <= |items| ==> PathTo(items, j) !in names)
    && (k > 0 ==> PathTo(items, k) in names)
  }

  predicate Untouched(name: string, source: string) {
    name != source && !Below(name, source)
  }

  ghost predicate HasUntouchedBelow(names: Names, source: string, name: string) {
    exists m :: m in names && Untouched(m, source) && Below(m, name)
  }

  /** What the new name lies under and is there before: the nearest parent, or what that lies under. */
  lemma TargetAncestor(names: Names, names1: Names, items: seq<string>, k: nat, ids: seq<Id>, source: string, target: string, n: string)
    requires Renaming(names, names1, items, k, ids, source, target) && n in names && Below(target, n)
    ensures k > 0 && (n == PathTo(items, k) || Below(PathTo(items, k), n))
  {
    var i := BelowJoin(items, |items|, n);
    if i < k {
      JoinBelow(items, i, k);
    }
  }

  lemma NearestParent(names: Names, names1: Names, items: seq<string>, k: nat, ids: seq<Id>, source: string, target: string)
    requires Renaming(names, names1, items, k, ids, source, target) && k > 0
    ensures PathTo(items, k) in names1 && Below(target, PathTo(items, k)) && Untouched(PathTo(items, k), source)
  {
    var parent := PathTo(items, k);
    JoinBelow(items, k, |items|);
    if Below(parent, source) {
      BelowTransitive(target, parent, source);
    }
  }

  lemma CreatedParent(names: Names, names1: Names, items: seq<string>, k: nat, ids: seq<Id>, source: string, target: string, n: string)
    requires Renaming(names, names1, items, k, ids, source, target) && n in names1 && n !in names
    ensures Below(target, n) && Untouched(n, source)
  {
    var i :| k < i <= k + |ids| && n == PathTo(items, i);
    JoinBelow(items, i, |items|);
    if Below(n, source) {
      BelowTransitive(target, n, source);
    }
  }

  /** What lies under a moved mailbox is what lay under it before. */
  lemma BelowMoved(names1: Names, names': Names, source: string, target: string, n: string)
    requires ParentClosed(names1) && target !in names1 && IsRewrite(names1, names', source, target)
    requires n in names1 && !Untouched(n, source)
    ensures HasBelow(names', Moved(n, source, target)) <==> HasBelow(names1, n)
  {
    var n' := Moved(n, source, target);
    var tail := if n == source then "" else n[|source|..];
    assert n == source + tail && n' == target + tail;
    if HasBelow(names1, n) {
      var m :| m in names1 && Below(m, n);
      if n != source {
        BelowTransitive(m, n, source);
      }
      MovedBelowMoved(m, n, tail, source, target);
    } else if HasBelow(names', n') {
      var m' :| m' in names' && Below(m', n');
      var m :| m in names1 && Moved(m, source, target) == m';
      if n != source {
        MovedUnder(n, source, target);
        BelowTransitive(m', n', target);
      }
      if m != source && Below(m, source) {
        MovedBelowMoved(m, n, tail, source, target);
      }
    }
  }

  lemma MovedBelowMoved(m: string, n: string, tail: string, source: string, target: string)
    requires Below(m, source) && n == source + tail
    ensures Below(m, n) <==> Below(Moved(m, source, target), target + tail)
  {
    var rest := m[|source|..];
    assert m == source + rest && Moved(m, source, target) == target + rest;
    if |rest| > |tail| {
      assert m[..|n|] == source + rest[..|tail|] && m[|n|] == rest[|tail|];
      var m', n' := target + rest, target + tail;
      assert m'[..|n'|] == target + rest[..|tail|] && m'[|n'|] == rest[|tail|];
      assert (source + rest[..|tail|])[|source|..] == rest[..|tail|] && (source + tail)[|source|..] == tail;
      assert (target + rest[..|tail|])[|target|..] == rest[..|tail|] && (target + tail)[|target|..] == tail;
    }
  }

  /** What lies under an untouched mailbox: untouched ones, and the mailbox moved there. */
  lemma BelowUntouched(names1: Names, names': Names, source: string, target: string, n: string)
    requires ParentClosed(names1) && source in names1 && target !in names1 && IsRewrite(names1, names', source, target)
    requires n in names1 && Untouched(n, source)
    ensures HasBelow(names', n) <==> HasUntouchedBelow(names1, source, n) || Below(target, n)
  {
    if HasUntouchedBelow(names1, source, n) {
      var m :| m in names1 && Untouched(m, source) && Below(m, n);
      Stays(names1, names', source, target, m);
    } else if Below(target, n) {
      assert Moved(source, source, target) == target;
    } else if HasBelow(names', n) {
      var m' :| m' in names' && Below(m', n);
      var m :| m in names1 && Moved(m, source, target) == m';
      if Below(m, source) {
        MovedUnder(m, source, target);
        if |n| < |target| {
          BelowComparable(m', n, target);
        } else if |n| == |target| {
          SameLength(m', n, target);
        } else {
          BelowComparable(m', target, n);
        }
      }
    }
  }

  /** The parent that the mailbox leaves. */
  lemma OldParent(source: string) returns (parent: string)
    requires HasSlash(source)
    ensures parent == source[..ParentLength(source)] && Below(source, parent)
    ensures forall a :: Below(source, a) ==> a == parent || Below(parent, a)
  {
    parent := source[..ParentLength(source)];
    forall a | Below(source, a)
      ensures a == parent || Below(parent, a)
    {
      if |a| < |parent| {
        BelowComparable(source, a, parent);
      } else if |a| == |parent| {
        SameLength(source, a, parent);
      }
    }
  }

  /** The mailbox that is left keeps its flag although nothing lies under it any more: the flag was
      set anew from a map in which what lay under the moved mailbox had not moved yet. */
  ghost predicate Stale(names: Names, source: string, target: string) {
    && HasSlash(source)
    && var parent := source[..ParentLength(source)];
       !Below(target, parent) && HasBelow(names, source) && !HasUntouchedBelow(names, source, parent)
  }

  /** The flag of a mailbox after the rename. */
  ghost function FlagAfter(names: Names, names1: Names, flags: Flags, source: string, parentName: Option<string>, n: string): bool
    requires n in names ==> names[n] in flags
  {
    if parentName == Some(n) then true
    else if HasSlash(source) && n == source[..ParentLength(source)] then AnyOther(names1, source, n)
    else if n !in names then true
    else flags[names[n]]
  }

  ghost function NearestName(items: seq<string>, k: nat): Option<string>
    requires k <= |items|
  {
    if k == 0 then None else Some(PathTo(items, k))
  }

  /** An untouched mailbox other than the parent that is left. */
  lemma UntouchedFlag(names: Names, names1: Names, names': Names, items: seq<string>, k: nat, ids: seq<Id>, source: string, target: string, n: string)
    requires Renaming(names, names1, items, k, ids, source, target) && IsRewrite(names1, names', source, target)
    requires n in names && Untouched(n, source) && NearestName(items, k) != Some(n)
    requires HasSlash(source) ==> n != source[..ParentLength(source)]
    ensures HasBelow(names', n) <==> HasBelow(names, n)
  {
    BelowUntouched(names1, names', source, target, n);
    if m :| m in names && Below(m, n) {
      UntouchedWitness(names, source, n, m);
    }
    if Below(target, n) {
      TargetAncestor(names, names1, items, k, ids, source, target, n);
    } else if m :| m in names1 && Untouched(m, source) && Below(m, n) {
      if m !in names {
        CreatedParent(names, names1, items, k, ids, source, target, m);
        BelowTransitive(target, m, n);
      }
    }
  }

  /** What lies under an untouched mailbox other than the parent that is left is, or lies beside, an
      untouched one. */
  lemma UntouchedWitness(names: Names, source: string, n: string, m: string)
    requires ParentClosed(names) && source in names && Untouched(n, source) && m in names && Below(m, n)
    requires HasSlash(source) ==> n != source[..ParentLength(source)]
    ensures HasUntouchedBelow(names, source, n)
  {
    if !Untouched(m, source) {
      SourceBelow(m, n, source);
      assert HasSlash(source);
      var parent := OldParent(source);
      assert parent in names;
    }
  }

  lemma SourceBelow(m: string, n: string, source: string)
    requires !Untouched(m, source) && Untouched(n, source) && Below(m, n)
    ensures Below(source, n)
  {
    if m != source {
      if |n| < |source| {
        BelowComparable(m, n, source);
      } else if |n| == |source| {
        SameLength(m, n, source);
      } else {
        BelowComparable(m, source, n);
      }
    }
  }

  /** The parent that is left: its flag is right unless it is stale. */
  lemma OldParentFlag(names: Names, names1: Names, names': Names, items: seq<string>, k: nat, ids: seq<Id>, source: string, target: string)
    requires Renaming(names, names1, items, k, ids, source, target) && IsRewrite(names1, names', source, target) && HasSlash(source)
    requires NearestName(items, k) != Some(source[..ParentLength(source)])
    ensures var parent := source[..ParentLength(source)];
            && parent in names1 && Untouched(parent, source)
            && ((AnyOther(names1, source, parent) <==> HasBelow(names', parent)) <==> !Stale(names, source, target))
  {
    var parent := OldParent(source);
    assert parent in names;
    BelowUntouched(names1, names', source, target, parent);
    if Below(target, parent) {
      TargetAncestor(names, names1, items, k, ids, source, target, parent);
      NearestParent(names, names1, items, k, ids, source, target);
    } else {
      forall m | m in names1 && Below(m, parent)
        ensures m in names
      {
        if m !in names {
          CreatedParent(names, names1, items, k, ids, source, target, m);
          BelowTransitive(target, m, parent);
        }
      }
      OtherBelow(names, names1, source, parent);
    }
  }

  lemma OtherBelow(names: Names, names1: Names, source: string, parent: string)
    requires Below(source, parent)
    requires forall n :: n in names ==> n in names1
    requires forall m :: m in names1 && Below(m, parent) ==> m in names
    ensures AnyOther(names1, source, parent) <==> HasUntouchedBelow(names, source, parent) || HasBelow(names, source)
    ensures HasUntouchedBelow(names1, source, parent) <==> HasUntouchedBelow(names, source, parent)
  {
    if m :| m in names && Below(m, source) {
      BelowTransitive(m, source, parent);
    }
  }

  /** All flags are right after a rename, unless the one of the parent that is left is stale. */
  lemma RenameFlagsIff(names: Names, names1: Names, names': Names, flags: Flags, items: seq<string>, k: nat, ids: seq<Id>, source: string, target: string)
    requires Renaming(names, names1, items, k, ids, source, target) && IsRewrite(names1, names', source, target)
    requires FlagsRight(names, flags)
    ensures (forall n :: n in names1 ==>
              (FlagAfter(names, names1, flags, source, NearestName(items, k), n) <==> HasBelow(names', Moved(n, source, target))))
       <==> !Stale(names, source, target)
  {
    var nearest := NearestName(items, k);
    forall n | n in names1 && !(HasSlash(source) && n == source[..ParentLength(source)] && nearest != Some(n))
      ensures FlagAfter(names, names1, flags, source, nearest, n) <==> HasBelow(names', Moved(n, source, target))
    {
      OtherFlags(names, names1, names', flags, items, k, ids, source, target, n);
    }
    if HasSlash(source) {
      if nearest == Some(source[..ParentLength(source)]) {
        NearestParent(names, names1, items, k, ids, source, target);
      } else {
        OldParentFlag(names, names1, names', items, k, ids, source, target);
      }
    }
  }

  // ----- The flags as the code sets them -----

  predicate FreshIds(ids: seq<Id>, names: Names) {
    && (forall i :: 0 <= i < |ids| ==> ids[i] !in names.Values)
    && (forall i, j :: 0 <= i < j < |ids| ==> ids[i] != ids[j])
  }

  lemma CreatedDistinct(names: Names, names1: Names, items: seq<string>, k: nat, ids: seq<Id>)
    requires |ids| <= |items| - k && IsCreated(names, names1, items, k, ids, |ids|) && DistinctIds(names) && FreshIds(ids, names)
    ensures DistinctIds(names1)
  {
  }

  lemma {:induction false} AddedFlags(flags: Flags, ids: seq<Id>, j: nat, id: Id)
    requires j <= |ids|
    ensures id !in ids[..j] ==> (id in AddFlags(flags, ids, true, j) <==> id in flags)
    ensures id !in ids[..j] && id in flags ==> AddFlags(flags, ids, true, j)[id] == flags[id]
    ensures id in ids[..j] ==> id in AddFlags(flags, ids, true, j) && AddFlags(flags, ids, true, j)[id]
    decreases j
  {
    if j > 0 {
      AddedFlags(flags, ids, j - 1, id);
      assert ids[..j] == ids[..j - 1] + [ids[j - 1]];
    }
  }

  /** The flag before the parents are updated: a new mailbox has one, any other keeps its own, unless
      it is the nearest parent. */
  lemma CreatedFlag(names: Names, names1: Names, flags: Flags, items: seq<string>, k: nat, ids: seq<Id>, parentId: Option<Id>, n: string)
    requires |ids| <= |items| - k && IsCreated(names, names1, items, k, ids, |ids|) && FlagsRight(names, flags)
    requires FreshIds(ids, names) && n in names1
    ensures var start := if ids == [] then flags else FlagParent(flags, parentId);
            var flags1 := AddFlags(start, ids, true, |ids|);
            && names1[n] in flags1
            && (n !in names ==> flags1[names1[n]])
            && (n in names && parentId != Some(names[n]) ==> flags1[names1[n]] == flags[names[n]])
  {
    var start := if ids == [] then flags else FlagParent(flags, parentId);
    AddedFlags(start, ids, |ids|, names1[n]);
    assert ids[..|ids|] == ids;
    if n !in names {
      var i :| k < i <= k + |ids| && n == PathTo(items, i);
      assert names1[n] == ids[i - k - 1];
    } else {
      assert names[n] in names.Values;
    }
  }

  lemma UpdatedFlag(names: Names, names1: Names, flags1: Flags, source: string, parentId: Option<Id>, nearest: Option<string>, n: string)
    requires DistinctIds(names1) && ParentClosed(names1) && source in names1 && n in names1
    requires forall m :: m in names1 ==> names1[m] in flags1
    requires nearest.Some? ==> nearest.value in names1 && parentId == Some(names1[nearest.value])
    requires nearest.None? ==> parentId.None?
    ensures var flags' := FlagParent(FlagOldParent(names1, flags1, source), parentId);
            && names1[n] in flags'
            && flags'[names1[n]] == (if nearest == Some(n) then true
                                     else if HasSlash(source) && n == source[..ParentLength(source)] then AnyOther(names1, source, n)
                                     else flags1[names1[n]])
  {
    if HasSlash(source) {
      var parent := OldParent(source);
      assert parent in names1;
    }
  }

  /** The flag that the code leaves on a mailbox. */
  lemma FlagsAreAfter(names: Names, names1: Names, flags: Flags, items: seq<string>, params: CreateParams, k: nat,
                      created: seq<Option<Id>>, source: string, n: string)
    requires AreItems(items) && Splits(names, items, params, k) && ParentClosed(names) && FlagsRight(names, flags)
    requires AllCreated(created) && |created| + 1 == |params.path| && names1 == WithParents(names, params, created)
    requires DistinctIds(names) && FreshIds(IdsOf(created), names) && source in names && n in names1
    ensures var flags' := RenamedFlags(names, flags, source, params, created);
            names1[n] in flags' && flags'[names1[n]] == FlagAfter(names, names1, flags, source, NearestName(items, k), n)
  {
    var ids := IdsOf(created);
    var start := if ids == [] then flags else FlagParent(flags, params.parentId);
    var flags1 := AddFlags(start, ids, true, |ids|);
    CreatedNames(names, items, params, k, ids, |ids|);
    CreatedDistinct(names, names1, items, k, ids);
    forall m | m in names1
      ensures names1[m] in flags1
    {
      CreatedFlag(names, names1, flags, items, k, ids, params.parentId, m);
    }
    CreatedFlag(names, names1, flags, items, k, ids, params.parentId, n);
    UpdatedFlag(names, names1, flags1, source, params.parentId, NearestName(items, k), n);
  }

  lemma OtherFlags(names: Names, names1: Names, names': Names, flags: Flags, items: seq<string>, k: nat, ids: seq<Id>, source: string, target: string, n: string)
    requires Renaming(names, names1, items, k, ids, source, target) && IsRewrite(names1, names', source, target)
    requires FlagsRight(names, flags) && n in names1
    requires !(HasSlash(source) && n == source[..ParentLength(source)] && NearestName(items, k) != Some(n))
    ensures FlagAfter(names, names1, flags, source, NearestName(items, k), n) <==> HasBelow(names', Moved(n, source, target))
  {
    if NearestName(items, k) == Some(n) {
      NearestParent(names, names1, items, k, ids, source, target);
      BelowUntouched(names1, names', source, target, n);
    } else if n !in names {
      CreatedParent(names, names1, items, k, ids, source, target, n);
      BelowUntouched(names1, names', source, target, n);
    } else if Untouched(n, source) {
      UntouchedFlag(names, names1, names', items, k, ids, source, target, n);
    } else {
      BelowMoved(names1, names', source, target, n);
      if m :| m in names1 && Below(m, n) {
        if n != source {
          BelowTransitive(m, n, source);
        }
        if m !in names {
          CreatedParent(names, names1, items, k, ids, source, target, m);
        }
      }
    }
  }

  /** RENAME: the flags are right again, unless the parent that is left keeps a stale one. */
  lemma RenameKeepsFlagsIff(names: Names, names': Names, flags: Flags, items: seq<string>, params: CreateParams, k: nat,
                            created: seq<Option<Id>>, source: string)
    requires AreItems(items) && Splits(names, items, params, k) && ParentClosed(names) && FlagsRight(names, flags)
    requires AllCreated(created) && |created| + 1 == |params.path|
    requires DistinctIds(names) && FreshIds(IdsOf(created), names) && source in names && !Below(params.fullPath, source)
    requires IsRewrite(WithParents(names, params, created), names', source, params.fullPath)
    ensures FlagsRight(names', RenamedFlags(names, flags, source, params, created)) <==> !Stale(names, source, params.fullPath)
  {
    var names1, flags' := WithParents(names, params, created), RenamedFlags(names, flags, source, params, created);
    var target, nearest := params.fullPath, NearestName(items, k);
    CreatedNames(names, items, params, k, IdsOf(created), |created|);
    RenameFlagsIff(names, names1, names', flags, items, k, IdsOf(created), source, target);
    forall n | n in names1
      ensures names'[Moved(n, source, target)] in flags'
      ensures flags'[names'[Moved(n, source, target)]] == FlagAfter(names, names1, flags, source, nearest, n)
    {
      FlagsAreAfter(names, names1, flags, items, params, k, created, source, n);
    }
    FlagsAgree(names, names1, names', flags, flags', source, target, nearest);
  }

  /** When `a/b`, with `a/b/c` under it, is all that lies under `a`, renaming it to `d` leaves `a`
      flagged, although all flags were right. */
  lemma StaleExample(names': Names)
    requires IsRewrite(map["a" := "1", "a/b" := "2", "a/b/c" := "3"], names', "a/b", "d")
    ensures var names, flags := map["a" := "1", "a/b" := "2", "a/b/c" := "3"], map["1" := true, "2" := true, "3" := false];
            && FlagsRight(names, flags)
            && !FlagsRight(names', RenamedFlags(names, flags, "a/b", CreateParams(["d"], "d", None, None), []))
  {
    var names, flags := map["a" := "1", "a/b" := "2", "a/b/c" := "3"], map["1" := true, "2" := true, "3" := false];
    ExampleNames(names);
    ExampleFlags(names, flags);
    StaleAtTop(names, names', flags, "a/b", "d");
  }

  lemma StaleAtTop(names: Names, names': Names, flags: Flags, source: string, target: string)
    requires ParentClosed(names) && DistinctIds(names) && FlagsRight(names, flags) && source in names && target !in names
    requires target != "" && !HasSlash(target) && IsRewrite(names, names', source, target) && Stale(names, source, target)
    ensures !FlagsRight(names', RenamedFlags(names, flags, source, CreateParams([target], target, None, None), []))
  {
    var items, params := [target], CreateParams([target], target, None, None);
    JoinOne(items);
    assert WithParents(names, params, []) == names;
    RenameKeepsFlagsIff(names, names', flags, items, params, 0, [], source);
  }

  lemma ExampleNames(names: Names)
    requires names == map["a" := "1", "a/b" := "2", "a/b/c" := "3"]
    ensures ParentClosed(names) && DistinctIds(names) && Stale(names, "a/b", "d")
  {
    assert "a/b"[1] == '/' && "a/b"[..1] == "a" && ParentLength("a/b") == 1;
    assert Below("a/b/c", "a/b");
    forall n, a | n in names && Below(n, a)
      ensures a in names
    {
      assert "a/b/c"[..1] == "a" && "a/b/c"[..3] == "a/b";
      assert |a| == 1 || |a| == 3;
    }
  }

  lemma ExampleFlags(names: Names, flags: Flags)
    requires names == map["a" := "1", "a/b" := "2", "a/b/c" := "3"] && flags == map["1" := true, "2" := true, "3" := false]
    ensures FlagsRight(names, flags)
  {
    assert "a/b/c"[..3] == "a/b" && "a/b"[..1] == "a";
    assert Below("a/b/c", "a/b") && Below("a/b", "a");
    forall m | m in names
      ensures !Below(m, "a/b/c")
    {
    }
  }

  lemma FlagsAgree(names: Names, names1: Names, names': Names, flags: Flags, flags': Flags, source: string, target: string, nearest: Option<string>)
    requires IsRewrite(names1, names', source, target) && FlagsRight(names, flags)
    requires forall n :: n in names1 ==>
      names'[Moved(n, source, target)] in flags' && flags'[names'[Moved(n, source, target)]] == FlagAfter(names, names1, flags, source, nearest, n)
    ensures FlagsRight(names', flags')
       <==> forall n :: n in names1 ==> (FlagAfter(names, names1, flags, source, nearest, n) <==> HasBelow(names', Moved(n, source, target)))
  {
    if forall n :: n in names1 ==> (FlagAfter(names, names1, flags, source, nearest, n) <==> HasBelow(names', Moved(n, source, target))) {
      forall m | m in names'
        ensures names'[m] in flags' && (flags'[names'[m]] <==> HasBelow(names', m))
      {
        var n :| n in names1 && Moved(n, source, target) == m;
      }
    } else {
      var n :| n in names1 && FlagAfter(names, names1, flags, source, nearest, n) != HasBelow(names', Moved(n, source, target));
      assert Moved(n, source, target) in names';
    }
  }

  /** RENAME conserves mailboxes: afterwards there are those of before and the new parents. */
  lemma RenameConserves(names: Names, names': Names, items: seq<string>, params: CreateParams, k: nat, created: seq<Option<Id>>, source: string)
    requires AreItems(items) && Splits(names, items, params, k) && ParentClosed(names) && source in names
    requires AllCreated(created) && |created| + 1 == |params.path|
    requires IsRewrite(WithParents(names, params, created), names', source, params.fullPath)
    ensures forall id :: id in names'.Values <==> id in names.Values || id in IdsOf(created)
    ensures forall n :: n in names ==> Moved(n, source, params.fullPath) in names' && names'[Moved(n, source, params.fullPath)] == names[n]
    ensures DistinctIds(names) && FreshIds(IdsOf(created), names) ==> DistinctIds(names')
    ensures ParentClosed(names') <==> !Below(params.fullPath, source)
  {
    var ids, names1 := IdsOf(created), WithParents(names, params, created);
    CreatedNames(names, items, params, k, ids, |ids|);
    TargetParents(names, names1, items, k, ids);
    RenameClosedIff(names1, names', source, params.fullPath);
    CreatedIds(names, names1, items, k, ids);
    MovedIds(names1, names', source, params.fullPath);
    if DistinctIds(names) && FreshIds(ids, names) {
      CreatedDistinct(names, names1, items, k, ids);
    }
  }

  /** All that the new name lies under is there. */
  lemma TargetParents(names: Names, names1: Names, items: seq<string>, k: nat, ids: seq<Id>)
    requires AreItems(items) && k + |ids| + 1 == |items| && ParentClosed(names) && IsCreated(names, names1, items, k, ids, |ids|)
    requires k > 0 ==> PathTo(items, k) in names
    ensures forall a :: Below(PathTo(items, |items|), a) ==> a in names1
  {
    forall a | Below(PathTo(items, |items|), a)
      ensures a in names1
    {
      var i := BelowJoin(items, |items|, a);
      if i < k {
        JoinBelow(items, i, k);
      }
    }
  }

  lemma MovedIds(names1: Names, names': Names, source: string, target: string)
    requires IsRewrite(names1, names', source, target)
    ensures forall id :: id in names'.Values <==> id in names1.Values
    ensures DistinctIds(names1) ==> DistinctIds(names')
  {
    forall id | id in names1.Values
      ensures id in names'.Values
    {
      var n :| n in names1 && names1[n] == id;
      assert names'[Moved(n, source, target)] == id;
    }
    forall id | id in names'.Values
      ensures id in names1.Values
    {
      var m :| m in names' && names'[m] == id;
      var n :| n in names1 && Moved(n, source, target) == m;
      assert names1[n] == id;
    }
  }

  lemma CreatedIds(names: Names, names1: Names, items: seq<string>, k: nat, ids: seq<Id>)
    requires |ids| <= |items| - k && IsCreated(names, names1, items, k, ids, |ids|)
    ensures forall id :: id in names1.Values <==> id in names.Values || id in ids
  {
    forall id | id in names.Values
      ensures id in names1.Values
    {
      var n :| n in names && names[n] == id;
      assert names1[n] == id;
    }
    forall id | id in ids
      ensures id in names1.Values
    {
      var i :| 0 <= i < |ids| && ids[i] == id;
      assert k < i + k + 1 <= k + |ids|;
      assert names1[PathTo(items, i + k + 1)] == id;
    }
    forall id | id in names1.Values
      ensures id in names.Values || id in ids
    {
      var n :| n in names1 && names1[n] == id;
      if n !in names {
        var i :| k < i <= k + |ids| && n == PathTo(items, i);
        assert ids[i - k - 1] == id;
      }
    }
  }

  // ----- CREATE -----

  lemma {:induction false} NewFlag(flags: Flags, ids: seq<Id>, j: nat, i: nat)
    requires i < j <= |ids| && forall a, b :: 0 <= a < b < |ids| ==> ids[a] != ids[b]
    ensures ids[i] in AddFlags(flags, ids, false, j) && AddFlags(flags, ids, false, j)[ids[i]] == (i + 1 < |ids|)
    decreases j
  {
    if i < j - 1 {
      NewFlag(flags, ids, j - 1, i);
    }
  }

  lemma {:induction false} OldFlag(flags: Flags, ids: seq<Id>, j: nat, id: Id)
    requires j <= |ids| && id !in ids && id in flags
    ensures id in AddFlags(flags, ids, false, j) && AddFlags(flags, ids, false, j)[id] == flags[id]
    decreases j
  {
    if j > 0 {
      OldFlag(flags, ids, j - 1, id);
    }
  }

  lemma CreatedMember(names: Names, names': Names, items: seq<string>, k: nat, ids: seq<Id>, n: string) returns (i: nat)
    requires |ids| <= |items| - k && IsCreated(names, names', items, k, ids, |ids|) && n in names' && n !in names
    ensures k < i <= k + |ids| && n == PathTo(items, i) && names'[n] == ids[i - k - 1]
  {
    i :| k < i <= k + |ids| && n == PathTo(items, i);
  }

  lemma NothingBelowLast(names: Names, names': Names, items: seq<string>, k: nat, ids: seq<Id>, m: string)
    requires ParentClosed(names) && |ids| == |items| - k > 0 && IsCreated(names, names', items, k, ids, |ids|)
    requires PathTo(items, |items|) !in names && m in names'
    ensures !Below(m, PathTo(items, |items|))
  {
    if m !in names {
      var j := CreatedMember(names, names', items, k, ids, m);
      if j < |items| {
        JoinBelow(items, j, |items|);
      }
    }
  }

  /** A new mailbox has one under it unless it is the last. */
  lemma NewMailbox(names: Names, names': Names, items: seq<string>, k: nat, ids: seq<Id>, i: nat)
    requires ParentClosed(names) && |ids| == |items| - k && IsCreated(names, names', items, k, ids, |ids|) && k < i <= |items|
    requires PathTo(items, |items|) !in names
    ensures HasBelow(names', PathTo(items, i)) <==> i < |items|
  {
    if i < |items| {
      JoinBelow(items, i, i + 1);
      assert k < i + 1 <= k + |ids|;
    } else if m :| m in names' && Below(m, PathTo(items, i)) {
      NothingBelowLast(names, names', items, k, ids, m);
    }
  }

  /** Of the mailboxes of before only the nearest parent may get the first one under it. */
  lemma OldMailbox(names: Names, names': Names, items: seq<string>, k: nat, ids: seq<Id>, n: string)
    requires AreItems(items) && ParentClosed(names) && |ids| == |items| - k > 0 && IsCreated(names, names', items, k, ids, |ids|)
    requires n in names && (k > 0 ==> PathTo(items, k) in names) && forall j :: k < j <= |items| ==> PathTo(items, j) !in names
    ensures HasBelow(names', n) <==> HasBelow(names, n) || (k > 0 && n == PathTo(items, k))
  {
    if HasBelow(names, n) {
      var m :| m in names && Below(m, n);
      assert m in names';
    } else if k > 0 && n == PathTo(items, k) {
      JoinBelow(items, k, k + 1);
      assert k < k + 1 <= k + |ids|;
    } else if m :| m in names' && Below(m, n) {
      var j := CreatedMember(names, names', items, k, ids, m);
      var i := BelowJoin(items, j, n);
      if i < k {
        JoinBelow(items, i, k);
      }
    }
  }

  lemma OldMailboxFlag(names: Names, names': Names, flags: Flags, items: seq<string>, params: CreateParams, k: nat, ids: seq<Id>, n: string)
    requires Splits(names, items, params, k) && FlagsRight(names, flags) && DistinctIds(names) && FreshIds(ids, names)
    requires n in names && n in names' && names'[n] == names[n]
    requires HasBelow(names', n) <==> HasBelow(names, n) || (k > 0 && n == PathTo(items, k))
    ensures var flags' := AddFlags(FlagParent(flags, params.parentId), ids, false, |ids|);
            names'[n] in flags' && (flags'[names'[n]] <==> HasBelow(names', n))
  {
    assert names[n] in names.Values;
    OldFlag(FlagParent(flags, params.parentId), ids, |ids|, names[n]);
  }

  lemma NewMailboxFlag(names': Names, flags: Flags, items: seq<string>, parentId: Option<Id>, k: nat, ids: seq<Id>, i: nat, n: string)
    requires |ids| == |items| - k && k < i <= |items| && forall a, b :: 0 <= a < b < |ids| ==> ids[a] != ids[b]
    requires n in names' && names'[n] == ids[i - k - 1] && (HasBelow(names', n) <==> i < |items|)
    ensures var flags' := AddFlags(FlagParent(flags, parentId), ids, false, |ids|);
            names'[n] in flags' && (flags'[names'[n]] <==> HasBelow(names', n))
  {
    NewFlag(FlagParent(flags, parentId), ids, |ids|, i - k - 1);
  }

  lemma MailboxFlag(names: Names, names': Names, flags: Flags, items: seq<string>, params: CreateParams, k: nat, ids: seq<Id>, n: string)
    requires AreItems(items) && Splits(names, items, params, k) && ParentClosed(names) && FlagsRight(names, flags)
    requires |ids| == |items| - k && IsCreated(names, names', items, k, ids, |ids|) && DistinctIds(names) && FreshIds(ids, names)
    requires n in names'
    ensures var flags' := AddFlags(FlagParent(flags, params.parentId), ids, false, |ids|);
            names'[n] in flags' && (flags'[names'[n]] <==> HasBelow(names', n))
  {
    if n in names {
      OldMailbox(names, names', items, k, ids, n);
      OldMailboxFlag(names, names', flags, items, params, k, ids, n);
    } else {
      var i := CreatedMember(names, names', items, k, ids, n);
      NewMailbox(names, names', items, k, ids, i);
      NewMailboxFlag(names', flags, items, params.parentId, k, ids, i, n);
    }
  }

  /** CREATE: the names stay closed, the new mailboxes are the missing part of the path, and every
      flag is right again. */
  lemma CreateKeepsAll(names: Names, flags: Flags, items: seq<string>, params: CreateParams, k: nat, created: seq<Option<Id>>)
    requires AreItems(items) && Splits(names, items, params, k) && ParentClosed(names)
    requires AllCreated(created) && |created| == |params.path|
    requires DistinctIds(names) && FreshIds(IdsOf(created), names) && FlagsRight(names, flags)
    ensures var names' := AddNames(names, BaseOf(params), params.path, IdsOf(created), |created|);
            && IsCreated(names, names', items, k, IdsOf(created), |created|)
            && ParentClosed(names') && DistinctIds(names')
            && FlagsRight(names', AddFlags(FlagParent(flags, params.parentId), IdsOf(created), false, |created|))
  {
    var ids := IdsOf(created);
    var names' := AddNames(names, BaseOf(params), params.path, ids, |ids|);
    assert params.path == items[k..k + |ids|];
    AddNamesIsCreated(names, BaseOf(params), items, k, params.path, ids, |ids|);
    CreatedClosed(names, names', items, params, k, ids, |ids|);
    CreatedDistinct(names, names', items, k, ids);
    forall n | n in names'
      ensures var flags' := AddFlags(FlagParent(flags, params.parentId), ids, false, |ids|);
              names'[n] in flags' && (flags'[names'[n]] <==> HasBelow(names', n))
    {
      MailboxFlag(names, names', flags, items, params, k, ids, n);
    }
  }

  /** A rename that is refused after its new parents have been created: the names are closed, no mailbox
      is lost, and every flag is right. */
  lemma RefusedKeepsAll(names: Names, flags: Flags, items: seq<string>, params: CreateParams, k: nat, created: seq<Option<Id>>)
    requires AreItems(items) && Splits(names, items, params, k) && ParentClosed(names)
    requires AllCreated(created) && |created| + 1 == |params.path|
    requires DistinctIds(names) && FreshIds(IdsOf(created), names) && FlagsRight(names, flags)
    ensures var names1 := WithParents(names, params, created);
            && IsCreated(names, names1, items, k, IdsOf(created), |created|)
            && ParentClosed(names1) && DistinctIds(names1)
            && FlagsRight(names1, RefusedFlags(flags, params, created))
  {
    var ids, names1 := IdsOf(created), WithParents(names, params, created);
    CreatedNames(names, items, params, k, ids, |ids|);
    CreatedDistinct(names, names1, items, k, ids);
    if created != [] {
      ParentsAreRight(names, names1, flags, items, params, k, created);
    }
  }

  lemma ParentsAreRight(names: Names, names1: Names, flags: Flags, items: seq<string>, params: CreateParams, k: nat,
                        created: seq<Option<Id>>)
    requires AreItems(items) && Splits(names, items, params, k) && ParentClosed(names)
    requires AllCreated(created) && |created| + 1 == |params.path| && created != [] && names1 == WithParents(names, params, created)
    requires DistinctIds(names) && FreshIds(IdsOf(created), names) && FlagsRight(names, flags)
    ensures FlagsRight(names1, RefusedFlags(flags, params, created))
  {
    var parents := items[..|items| - 1];
    var params' := params.(path := params.path[..|params.path| - 1], fullPath := PathTo(parents, |parents|));
    ParentsSplit(names, items, params, params', k);
    CreateKeepsAll(names, flags, parents, params', k, created);
  }

  lemma ParentsSplit(names: Names, items: seq<string>, params: CreateParams, params': CreateParams, k: nat)
    requires AreItems(items) && Splits(names, items, params, k) && k + 1 < |items|
    requires params' == params.(path := params.path[..|params.path| - 1], fullPath := PathTo(items[..|items| - 1], |items| - 1))
    ensures AreItems(items[..|items| - 1]) && Splits(names, items[..|items| - 1], params', k)
  {
    var parents := items[..|items| - 1];
    forall j | 0 <= j <= |parents|
      ensures PathTo(parents, j) == PathTo(items, j)
    {
      assert parents[..j] == items[..j];
    }
    assert params.path[..|params.path| - 1] == parents[k..];
  }
}
