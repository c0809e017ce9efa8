/** The tree of an account's mailboxes, built from a flat list by a loop with a stack of its own. */
module MailboxTree {
  import opened Wrappers
  import opened Sequences

  type Id = string

  datatype Entry = Entry(id: Option<Id>, parent: Option<Id>, name: Option<string>, isInbox: bool)

  /** How many levels of the tree may be open below the top. */
  const MAX_DEPTH := 100

  // ----- Chains of mailboxes from the top -----

  /** Positions of mailboxes, each the parent of the next. */
  type Chain = seq<nat>

  predicate InRange(list: seq<Entry>, chain: Chain) {
    forall i :: 0 <= i < |chain| ==> chain[i] < |list|
  }

  function LastId(list: seq<Entry>, chain: Chain): Option<Id>
    requires InRange(list, chain)
  {
    if chain == [] then None else list[chain[|chain| - 1]].id
  }

  predicate IsChain(list: seq<Entry>, chain: Chain) {
    && InRange(list, chain)
    && forall i :: 0 <= i < |chain| ==>
        && list[chain[i]].parent == LastId(list, chain[..i])
        && (i + 1 < |chain| ==> list[chain[i]].id.Some?)
  }

  function NameOf(e: Entry, isShared: bool): string {
    if e.isInbox && !isShared then "INBOX" else if e.name.Some? then e.name.value else ""
  }

  /** The names from the top, after the prefix of a shared account. */
  function PathOf(list: seq<Entry>, prefix: Option<string>, chain: Chain): seq<string>
    requires InRange(list, chain)
    decreases |chain|
  {
    if chain == [] then if prefix.Some? then [prefix.value] else []
    else PathOf(list, prefix, chain[..|chain| - 1]) + [NameOf(list[chain[|chain| - 1]], prefix.Some?)]
  }

  function Join(path: seq<string>): string
    decreases |path|
  {
    if path == [] then "" else if |path| == 1 then path[0] else Join(path[..|path| - 1]) + "/" + path[|path| - 1]
  }

  predicate IsParent(list: seq<Entry>, id: Option<Id>) {
    exists i :: 0 <= i < |list| && list[i].parent == id
  }

  /** The mailboxes below `chain` from position `from` of the list, each followed by those below it. */
  function Below(list: seq<Entry>, from: nat, chain: Chain): (chains: seq<Chain>)
    requires InRange(list, chain) && from <= |list| && |chain| <= MAX_DEPTH
    decreases MAX_DEPTH - |chain|, |list| - from
  {
    if from == |list| then []
    else
      var rest := Below(list, from + 1, chain);
      if list[from].parent != LastId(list, chain) then rest
      else [chain + [from]] + Under(list, from, chain) + rest
  }

  /** The mailboxes below the one at position `from`. */
  function Under(list: seq<Entry>, from: nat, chain: Chain): (chains: seq<Chain>)
    requires InRange(list, chain) && from < |list| && |chain| <= MAX_DEPTH
    decreases MAX_DEPTH - |chain|, 0
  {
    if Opens(list, from, chain) then Below(list, 0, chain + [from]) else []
  }

  predicate Opens(list: seq<Entry>, from: nat, chain: Chain)
    requires from < |list|
  {
    list[from].id.Some? && IsParent(list, list[from].id) && |chain| < MAX_DEPTH
  }

  // ----- The loop -----

  datatype Frame = Frame(from: nat, parent: Option<Id>, path: seq<string>)

  datatype Tree = Tree(names: map<string, Id>, children: map<Id, bool>)

  const EMPTY := Tree(map[], map[])

  /** A mailbox enters the cache: its path, and whether it has children. */
  function Enter(tree: Tree, list: seq<Entry>, path: seq<string>, id: Id): Tree {
    Tree(tree.names[Join(path) := id], tree.children[id := IsParent(list, Some(id))])
  }

  predicate AllHaveIds(list: seq<Entry>, chains: seq<Chain>)
    requires AllInRange(list, chains)
  {
    forall i :: 0 <= i < |chains| ==> LastId(list, chains[i]).Some?
  }

  /** The cache after a list of mailboxes has entered it, in order. */
  function TreeOf(list: seq<Entry>, prefix: Option<string>, chains: seq<Chain>): Tree
    requires AllInRange(list, chains)
    decreases |chains|
  {
    if chains == [] then EMPTY
    else
      var tree, chain := TreeOf(list, prefix, chains[..|chains| - 1]), chains[|chains| - 1];
      if LastId(list, chain).None? then tree else Enter(tree, list, PathOf(list, prefix, chain), LastId(list, chain).value)
  }

  predicate AllInRange(list: seq<Entry>, chains: seq<Chain>) {
    forall i :: 0 <= i < |chains| ==> InRange(list, chains[i])
  }

  lemma {:induction false} BelowInRange(list: seq<Entry>, from: nat, chain: Chain)
    requires InRange(list, chain) && from <= |list| && |chain| <= MAX_DEPTH
    ensures AllInRange(list, Below(list, from, chain))
    decreases MAX_DEPTH - |chain|, |list| - from
  {
    if from < |list| {
      BelowInRange(list, from + 1, chain);
      if Opens(list, from, chain) {
        BelowInRange(list, 0, chain + [from]);
      }
    }
  }

  /** What the frames on the stack have left to visit; the frame at level k is that of `chain[..k]`. */
  function Pending(list: seq<Entry>, stack: seq<Frame>, chain: Chain): seq<Chain>
    requires StackValid(list, stack, chain)
    decreases |stack|
  {
    if stack == [] then []
    else
      var last := |stack| - 1;
      Below(list, stack[last].from, chain[..last]) + Pending(list, stack[..last], chain[..last])
  }

  predicate StackValid(list: seq<Entry>, stack: seq<Frame>, chain: Chain) {
    InRange(list, chain) && |stack| == |chain| <= MAX_DEPTH && forall k :: 0 <= k < |stack| ==> stack[k].from <= |list|
  }

  predicate FramesMatch(list: seq<Entry>, prefix: Option<string>, stack: seq<Frame>, chain: Chain)
    requires InRange(list, chain) && |stack| == |chain|
  {
    forall k :: 0 <= k < |stack| ==>
      stack[k].parent == LastId(list, chain[..k]) && stack[k].path == PathOf(list, prefix, chain[..k])
  }

  lemma PendingPush(list: seq<Entry>, stack: seq<Frame>, f: Frame, chain: Chain, next: nat)
    requires StackValid(list, stack, chain) && f.from <= |list| && next < |list| && |chain| < MAX_DEPTH
    ensures StackValid(list, stack + [f], chain + [next])
    ensures Pending(list, stack + [f], chain + [next]) == Below(list, f.from, chain) + Pending(list, stack, chain)
  {
    assert (stack + [f])[..|stack|] == stack && (chain + [next])[..|chain|] == chain;
  }

  lemma FramesPush(list: seq<Entry>, prefix: Option<string>, stack: seq<Frame>, f: Frame, chain: Chain, next: nat)
    requires InRange(list, chain) && |stack| == |chain| && FramesMatch(list, prefix, stack, chain) && next < |list|
    requires f.parent == LastId(list, chain) && f.path == PathOf(list, prefix, chain)
    ensures FramesMatch(list, prefix, stack + [f], chain + [next])
  {
    forall k | 0 <= k < |stack + [f]|
      ensures (chain + [next])[..k] == chain[..k]
    {
    }
    assert chain[..|chain|] == chain;
  }

  lemma FramesPop(list: seq<Entry>, prefix: Option<string>, stack: seq<Frame>, chain: Chain)
    requires InRange(list, chain) && |stack| == |chain| > 0 && FramesMatch(list, prefix, stack, chain)
    ensures FramesMatch(list, prefix, stack[..|stack| - 1], chain[..|chain| - 1])
  {
    var last := |stack| - 1;
    forall k | 0 <= k < last
      ensures chain[..last][..k] == chain[..k]
    {
    }
  }

  // ----- It ends, whatever the list -----

  /** The turns that the loop takes below `chain`. */
  function Turns(list: seq<Entry>, from: nat, chain: Chain): nat
    requires InRange(list, chain) && from <= |list| && |chain| <= MAX_DEPTH
    decreases MAX_DEPTH - |chain|, |list| - from
  {
    if from == |list| then 1
    else
      1 + Turns(list, from + 1, chain)
      + if list[from].parent == LastId(list, chain) && Opens(list, from, chain) then Turns(list, 0, chain + [from]) else 0
  }

  function StackTurns(list: seq<Entry>, stack: seq<Frame>, chain: Chain): nat
    requires StackValid(list, stack, chain)
    decreases |stack|
  {
    if stack == [] then 0
    else
      var last := |stack| - 1;
      Turns(list, stack[last].from, chain[..last]) + StackTurns(list, stack[..last], chain[..last])
  }

  lemma StackTurnsPush(list: seq<Entry>, stack: seq<Frame>, f: Frame, chain: Chain, next: nat)
    requires StackValid(list, stack, chain) && f.from <= |list| && next < |list| && |chain| < MAX_DEPTH
    ensures StackValid(list, stack + [f], chain + [next])
    ensures StackTurns(list, stack + [f], chain + [next]) == Turns(list, f.from, chain) + StackTurns(list, stack, chain)
  {
    assert (stack + [f])[..|stack|] == stack && (chain + [next])[..|chain|] == chain;
  }

  /** The loop's variables, with the chain of mailboxes that are open. */
  ghost predicate LoopValid(list: seq<Entry>, prefix: Option<string>, from: nat, parent: Option<Id>, path: seq<string>,
                            stack: seq<Frame>, chain: Chain) {
    && StackValid(list, stack, chain) && from <= |list|
    && FramesMatch(list, prefix, stack, chain)
    && parent == LastId(list, chain) && path == PathOf(list, prefix, chain)
  }

  ghost predicate Remains(list: seq<Entry>, done: seq<Chain>, from: nat, stack: seq<Frame>, chain: Chain)
    requires StackValid(list, stack, chain) && from <= |list|
  {
    done + (Below(list, from, chain) + Pending(list, stack, chain)) == Below(list, 0, [])
  }

  ghost function Measure(list: seq<Entry>, from: nat, stack: seq<Frame>, chain: Chain): nat
    requires StackValid(list, stack, chain) && from <= |list|
  {
    Turns(list, from, chain) + StackTurns(list, stack, chain)
  }

  lemma SkipStep(list: seq<Entry>, done: seq<Chain>, from: nat, stack: seq<Frame>, chain: Chain)
    requires StackValid(list, stack, chain) && from < |list| && Remains(list, done, from, stack, chain)
    requires list[from].parent != LastId(list, chain)
    ensures Remains(list, done, from + 1, stack, chain)
    ensures Measure(list, from + 1, stack, chain) < Measure(list, from, stack, chain)
  {
  }

  lemma LeafStep(list: seq<Entry>, done: seq<Chain>, from: nat, stack: seq<Frame>, chain: Chain)
    requires StackValid(list, stack, chain) && from < |list| && Remains(list, done, from, stack, chain)
    requires list[from].parent == LastId(list, chain) && !Opens(list, from, chain)
    ensures Remains(list, done + [chain + [from]], from + 1, stack, chain)
    ensures Measure(list, from + 1, stack, chain) < Measure(list, from, stack, chain)
  {
    var self: seq<Chain>, rest, pending := [chain + [from]], Below(list, from + 1, chain), Pending(list, stack, chain);
    EmptyRight(self);
    assert Below(list, from, chain) == self + rest;
    Associative(self, rest, pending);
    Associative(done, self, rest + pending);
  }

  lemma OpenStep(list: seq<Entry>, done: seq<Chain>, from: nat, stack: seq<Frame>, chain: Chain, f: Frame)
    requires StackValid(list, stack, chain) && from < |list| && Remains(list, done, from, stack, chain)
    requires list[from].parent == LastId(list, chain) && Opens(list, from, chain) && f.from == from + 1
    ensures StackValid(list, stack + [f], chain + [from])
    ensures Remains(list, done + [chain + [from]], 0, stack + [f], chain + [from])
    ensures Measure(list, 0, stack + [f], chain + [from]) < Measure(list, from, stack, chain)
  {
    PendingPush(list, stack, f, chain, from);
    StackTurnsPush(list, stack, f, chain, from);
    var self: seq<Chain>, under := [chain + [from]], Below(list, 0, chain + [from]);
    var rest, pending := Below(list, from + 1, chain), Pending(list, stack, chain);
    assert Below(list, from, chain) == self + under + rest;
    Associative(self + under, rest, pending);
    Associative(self, under, rest + pending);
    Associative(done, self, under + (rest + pending));
  }

  lemma PopStep(list: seq<Entry>, done: seq<Chain>, stack: seq<Frame>, chain: Chain)
    requires StackValid(list, stack, chain) && stack != [] && Remains(list, done, |list|, stack, chain)
    ensures var last := |stack| - 1;
            && StackValid(list, stack[..last], chain[..last])
            && Remains(list, done, stack[last].from, stack[..last], chain[..last])
            && Measure(list, stack[last].from, stack[..last], chain[..last]) < Measure(list, |list|, stack, chain)
  {
    EmptyLeft(Pending(list, stack, chain));
  }

  lemma PathStep(list: seq<Entry>, prefix: Option<string>, chain: Chain, from: nat)
    requires InRange(list, chain) && from < |list|
    ensures PathOf(list, prefix, chain + [from]) == PathOf(list, prefix, chain) + [NameOf(list[from], prefix.Some?)]
    ensures LastId(list, chain + [from]) == list[from].id
  {
    assert (chain + [from])[..|chain|] == chain;
  }

  lemma TreeStep(list: seq<Entry>, prefix: Option<string>, done: seq<Chain>, chain: Chain)
    requires InRange(list, chain) && AllInRange(list, done)
    ensures AllInRange(list, done + [chain])
    ensures LastId(list, chain).Some? ==>
      TreeOf(list, prefix, done + [chain]) == Enter(TreeOf(list, prefix, done), list, PathOf(list, prefix, chain), LastId(list, chain).value)
  {
    assert (done + [chain])[..|done|] == done;
  }

  ghost predicate Entered(list: seq<Entry>, prefix: Option<string>, done: seq<Chain>, account: Tree) {
    AllInRange(list, done) && AllHaveIds(list, done) && account == TreeOf(list, prefix, done)
  }

  /** The loop's variables, the chain of the mailboxes that are open, and those visited. */
  ghost predicate LoopInvariant(list: seq<Entry>, prefix: Option<string>, from: nat, parent: Option<Id>, path: seq<string>,
                                stack: seq<Frame>, account: Tree, chain: Chain, done: seq<Chain>) {
    && LoopValid(list, prefix, from, parent, path, stack, chain)
    && Remains(list, done, from, stack, chain)
    && Entered(list, prefix, done, account)
  }

  /** One turn at a mailbox whose parent is open. */
  method Visit(list: seq<Entry>, prefix: Option<string>, from: nat, parent: Option<Id>, path: seq<string>, stack: seq<Frame>,
               account: Tree, ghost chain: Chain, ghost done: seq<Chain>)
    returns (from': nat, parent': Option<Id>, path': seq<string>, stack': seq<Frame>, account': Tree,
             ghost chain': Chain, ghost done': seq<Chain>)
    requires LoopInvariant(list, prefix, from, parent, path, stack, account, chain, done)
    requires from < |list| && list[from].parent == parent && list[from].id.Some?
    ensures LoopInvariant(list, prefix, from', parent', path', stack', account', chain', done')
    ensures Measure(list, from', stack', chain') < Measure(list, from, stack, chain)
  {
    var mailbox := list[from];
    var mailboxPath := path + [NameOf(mailbox, prefix.Some?)];
    var hasChildren := IsParent(list, mailbox.id);
    account' := Tree(account.names[Join(mailboxPath) := mailbox.id.value], account.children[mailbox.id.value := hasChildren]);
    PathStep(list, prefix, chain, from);
    TreeStep(list, prefix, done, chain + [from]);
    done' := done + [chain + [from]];
    if hasChildren && |stack| < MAX_DEPTH {
      var f := Frame(from + 1, parent, path);
      OpenStep(list, done, from, stack, chain, f);
      FramesPush(list, prefix, stack, f, chain, from);
      chain' := chain + [from];
      stack', parent', path', from' := stack + [f], mailbox.id, mailboxPath, 0;
    } else {
      LeafStep(list, done, from, stack, chain);
      chain' := chain;
      stack', parent', path', from' := stack, parent, path, from + 1;
    }
  }

  lemma LoopStarts(list: seq<Entry>, prefix: Option<string>, path: seq<string>)
    requires path == if prefix.Some? then [prefix.value] else []
    ensures LoopInvariant(list, prefix, 0, None, path, [], EMPTY, [], [])
  {
    BelowInRange(list, 0, []);
    EmptyRight(Below(list, 0, []));
    EmptyLeft(Below(list, 0, []));
  }

  lemma LoopSkips(list: seq<Entry>, prefix: Option<string>, from: nat, parent: Option<Id>, path: seq<string>, stack: seq<Frame>,
                  account: Tree, chain: Chain, done: seq<Chain>)
    requires LoopInvariant(list, prefix, from, parent, path, stack, account, chain, done)
    requires from < |list| && list[from].parent != parent
    ensures LoopInvariant(list, prefix, from + 1, parent, path, stack, account, chain, done)
    ensures Measure(list, from + 1, stack, chain) < Measure(list, from, stack, chain)
  {
    SkipStep(list, done, from, stack, chain);
  }

  lemma LoopFails(list: seq<Entry>, prefix: Option<string>, from: nat, parent: Option<Id>, path: seq<string>, stack: seq<Frame>,
                  account: Tree, chain: Chain, done: seq<Chain>)
    requires LoopInvariant(list, prefix, from, parent, path, stack, account, chain, done)
    requires from < |list| && list[from].parent == parent && list[from].id.None? && AllInRange(list, Below(list, 0, []))
    ensures !AllHaveIds(list, Below(list, 0, []))
  {
    LeafStep(list, done, from, stack, chain);
    NullIdVisited(list, done, chain, from, Below(list, from + 1, chain) + Pending(list, stack, chain));
  }

  lemma LoopPops(list: seq<Entry>, prefix: Option<string>, from: nat, parent: Option<Id>, path: seq<string>, stack: seq<Frame>,
                 account: Tree, chain: Chain, done: seq<Chain>)
    requires LoopInvariant(list, prefix, from, parent, path, stack, account, chain, done)
    requires from == |list| && stack != []
    ensures var last := |stack| - 1;
            var f := stack[last];
            && last < |chain|
            && LoopInvariant(list, prefix, f.from, f.parent, f.path, stack[..last], account, chain[..last], done)
            && Measure(list, f.from, stack[..last], chain[..last]) < Measure(list, from, stack, chain)
  {
    PopStep(list, done, stack, chain);
    FramesPop(list, prefix, stack, chain);
  }

  lemma LoopEnds(list: seq<Entry>, prefix: Option<string>, from: nat, parent: Option<Id>, path: seq<string>, stack: seq<Frame>,
                 account: Tree, chain: Chain, done: seq<Chain>)
    requires LoopInvariant(list, prefix, from, parent, path, stack, account, chain, done)
    requires from == |list| && stack == [] && AllInRange(list, Below(list, 0, []))
    ensures AllHaveIds(list, Below(list, 0, [])) && account == TreeOf(list, prefix, Below(list, 0, []))
  {
    EmptyRight(done);
  }

  /** The caches of an account, or nothing if the server gave no id for a mailbox that is visited. */
  method FetchMailboxes(list: seq<Entry>, prefix: Option<string>) returns (tree: Option<Tree>)
    ensures AllInRange(list, Below(list, 0, []))
    ensures tree == if AllHaveIds(list, Below(list, 0, [])) then Some(TreeOf(list, prefix, Below(list, 0, []))) else None
  {
    BelowInRange(list, 0, []);
    var from: nat, parent: Option<Id>, stack: seq<Frame> := 0, None, [];
    var path := if prefix.Some? then [prefix.value] else [];
    var account := EMPTY;
    ghost var chain: Chain, done: seq<Chain> := [], [];
    LoopStarts(list, prefix, path);
    while true
      invariant LoopInvariant(list, prefix, from, parent, path, stack, account, chain, done)
      decreases Measure(list, from, stack, chain)
    {
      ghost var before := Measure(list, from, stack, chain);
      while from < |list|
        invariant LoopInvariant(list, prefix, from, parent, path, stack, account, chain, done)
        invariant Measure(list, from, stack, chain) <= before
        decreases Measure(list, from, stack, chain)
      {
        if list[from].parent != parent {
          LoopSkips(list, prefix, from, parent, path, stack, account, chain, done);
          from := from + 1;
        } else if list[from].id.None? {
          LoopFails(list, prefix, from, parent, path, stack, account, chain, done);
          return None;
        } else {
          from, parent, path, stack, account, chain, done := Visit(list, prefix, from, parent, path, stack, account, chain, done);
        }
      }
      if stack == [] {
        LoopEnds(list, prefix, from, parent, path, stack, account, chain, done);
        return Some(account);
      }
      LoopPops(list, prefix, from, parent, path, stack, account, chain, done);
      var f := stack[|stack| - 1];
      from, parent, path, stack, chain := f.from, f.parent, f.path, stack[..|stack| - 1], chain[..|stack| - 1];
    }
  }

  lemma NullIdVisited(list: seq<Entry>, done: seq<Chain>, chain: Chain, from: nat, rest: seq<Chain>)
    requires InRange(list, chain) && from < |list| && list[from].id.None?
    requires done + [chain + [from]] + rest == Below(list, 0, [])
    requires AllInRange(list, Below(list, 0, []))
    ensures !AllHaveIds(list, Below(list, 0, []))
  {
    assert Below(list, 0, [])[|done|] == chain + [from];
  }

  // ----- What the caches hold -----

  /** A chain whose last mailbox can be opened. */
  predicate IsOpenChain(list: seq<Entry>, chain: Chain) {
    IsChain(list, chain) && (chain != [] ==> LastId(list, chain).Some?)
  }

  predicate Extends(x: Chain, chain: Chain, from: nat) {
    |x| > |chain| && x[..|chain|] == chain && x[|chain|] >= from
  }

  lemma ChainStep(list: seq<Entry>, chain: Chain, next: nat)
    requires IsOpenChain(list, chain) && next < |list| && list[next].parent == LastId(list, chain)
    ensures IsChain(list, chain + [next]) && LastId(list, chain + [next]) == list[next].id
  {
    var x := chain + [next];
    forall i | 0 <= i < |x|
      ensures list[x[i]].parent == LastId(list, x[..i]) && (i + 1 < |x| ==> list[x[i]].id.Some?)
    {
      if i < |chain| {
        assert x[i] == chain[i] && x[..i] == chain[..i];
        if i + 1 == |chain| {
          assert LastId(list, chain) == list[chain[i]].id;
        }
      } else {
        assert x[..i] == chain;
      }
    }
  }

  /** A chain below `chain` passes through a mailbox whose parent is the last of `chain`. */
  lemma ExtensionFirst(list: seq<Entry>, chain: Chain, x: Chain)
    requires InRange(list, chain) && IsChain(list, x) && Extends(x, chain, 0)
    ensures x[|chain|] < |list| && list[x[|chain|]].parent == LastId(list, chain)
    ensures |x| > |chain| + 1 ==> IsParent(list, list[x[|chain|]].id) && list[x[|chain|]].id.Some?
  {
    var i := |chain|;
    assert x[..i] == chain;
    if |x| > i + 1 {
      assert LastId(list, x[..i + 1]) == list[x[i]].id;
    }
  }

  lemma ExtensionCases(chain: Chain, from: nat, x: Chain)
    requires Extends(x, chain, from)
    ensures x == chain + [from] || Extends(x, chain + [from], 0) || Extends(x, chain, from + 1)
  {
    if x[|chain|] == from {
      assert x[..|chain| + 1] == x[..|chain|] + [x[|chain|]];
      if |x| == |chain| + 1 {
        assert x == x[..|chain| + 1];
      }
    }
  }

  lemma {:induction false} BelowAreChains(list: seq<Entry>, from: nat, chain: Chain, x: Chain)
    requires IsOpenChain(list, chain) && from <= |list| && |chain| <= MAX_DEPTH && x in Below(list, from, chain)
    ensures IsChain(list, x) && Extends(x, chain, from) && |x| <= MAX_DEPTH + 1
    decreases MAX_DEPTH - |chain|, |list| - from
  {
    var next := chain + [from];
    if list[from].parent != LastId(list, chain) {
      BelowAreChains(list, from + 1, chain, x);
    } else {
      ChainStep(list, chain, from);
      if x == next {
        assert x[..|chain|] == chain;
      } else if x in Under(list, from, chain) {
        BelowAreChains(list, 0, next, x);
        assert x[..|chain|] == x[..|next|][..|chain|] == chain && x[|chain|] == x[..|next|][|chain|];
      } else {
        BelowAreChains(list, from + 1, chain, x);
      }
    }
  }

  /** A chain that goes through the mailbox at `from` ends there or goes on below it. */
  lemma ExtensionAt(list: seq<Entry>, from: nat, chain: Chain, x: Chain)
    requires IsOpenChain(list, chain) && from < |list| && |chain| <= MAX_DEPTH
    requires IsChain(list, x) && Extends(x, chain, from) && !Extends(x, chain, from + 1) && |x| <= MAX_DEPTH + 1
    ensures list[from].parent == LastId(list, chain)
    ensures x == chain + [from] || (Opens(list, from, chain) && IsOpenChain(list, chain + [from]) && Extends(x, chain + [from], 0))
  {
    ExtensionFirst(list, chain, x);
    ExtensionCases(chain, from, x);
    if x != chain + [from] {
      assert x[|chain|] == from;
      ChainStep(list, chain, from);
    }
  }

  lemma {:induction false} ChainsAreBelow(list: seq<Entry>, from: nat, chain: Chain, x: Chain)
    requires IsOpenChain(list, chain) && from <= |list| && |chain| <= MAX_DEPTH
    requires IsChain(list, x) && Extends(x, chain, from) && |x| <= MAX_DEPTH + 1
    ensures x in Below(list, from, chain)
    decreases MAX_DEPTH - |chain|, |list| - from
  {
    ExtensionFirst(list, chain, x);
    BelowSplits(list, from, chain, x);
    if Extends(x, chain, from + 1) {
      ChainsAreBelow(list, from + 1, chain, x);
    } else {
      ExtensionAt(list, from, chain, x);
      if x != chain + [from] {
        ChainsAreBelow(list, 0, chain + [from], x);
      }
    }
  }

  lemma BelowSplits(list: seq<Entry>, from: nat, chain: Chain, x: Chain)
    requires InRange(list, chain) && from < |list| && |chain| <= MAX_DEPTH
    ensures x in Below(list, from, chain)
       <==> x in Below(list, from + 1, chain)
            || (list[from].parent == LastId(list, chain) && (x == chain + [from] || x in Under(list, from, chain)))
  {
  }

  /** The loop visits exactly the mailboxes that a chain of at most 101 mailboxes leads to. */
  lemma VisitedIff(list: seq<Entry>, x: Chain)
    ensures x in Below(list, 0, []) <==> IsChain(list, x) && 0 < |x| <= 101
  {
    if x in Below(list, 0, []) {
      BelowAreChains(list, 0, [], x);
    } else if IsChain(list, x) && 0 < |x| <= MAX_DEPTH + 1 {
      assert x[..0] == [];
      ChainsAreBelow(list, 0, [], x);
    }
  }

  lemma NoDuplicatesConcat<T>(a: seq<T>, b: seq<T>)
    requires NoDuplicates(a) && NoDuplicates(b) && forall x :: x in a ==> x !in b
    ensures NoDuplicates(a + b)
  {
    forall i, j | 0 <= i < j < |a + b|
      ensures (a + b)[i] != (a + b)[j]
    {
      if i < |a| <= j {
        assert a[i] in a && b[j - |a|] in b;
      }
    }
  }

  /** The mailboxes under one have chains that pass through it. */
  lemma UnderThrough(list: seq<Entry>, from: nat, chain: Chain, x: Chain)
    requires IsOpenChain(list, chain) && from < |list| && |chain| <= MAX_DEPTH && list[from].parent == LastId(list, chain)
    requires x in Under(list, from, chain)
    ensures |x| > |chain| + 1 && x[|chain|] == from
  {
    ChainStep(list, chain, from);
    BelowAreChains(list, 0, chain + [from], x);
    assert x[|chain|] == x[..|chain| + 1][|chain|] == from;
  }

  /** The mailboxes under one and those after it are different chains. */
  lemma ApartFrom(list: seq<Entry>, from: nat, chain: Chain, x: Chain)
    requires IsOpenChain(list, chain) && from < |list| && |chain| <= MAX_DEPTH && list[from].parent == LastId(list, chain)
    requires x in Below(list, from + 1, chain)
    ensures x != chain + [from] && x !in Under(list, from, chain)
  {
    BelowAreChains(list, from + 1, chain, x);
    if x in Under(list, from, chain) {
      UnderThrough(list, from, chain, x);
    }
  }

  lemma {:induction false} BelowDistinct(list: seq<Entry>, from: nat, chain: Chain)
    requires IsOpenChain(list, chain) && from <= |list| && |chain| <= MAX_DEPTH
    ensures NoDuplicates(Below(list, from, chain))
    decreases MAX_DEPTH - |chain|, |list| - from
  {
    if from < |list| {
      BelowDistinct(list, from + 1, chain);
      if list[from].parent == LastId(list, chain) {
        var self: seq<Chain> := [chain + [from]];
        ChainStep(list, chain, from);
        if Opens(list, from, chain) {
          BelowDistinct(list, 0, chain + [from]);
        }
        forall x | x in Below(list, from + 1, chain)
          ensures x !in self && x !in Under(list, from, chain)
        {
          ApartFrom(list, from, chain, x);
        }
        forall x | x in Under(list, from, chain)
          ensures x !in self
        {
          UnderThrough(list, from, chain, x);
        }
        NoDuplicatesConcat(self, Under(list, from, chain));
        NoDuplicatesConcat(self + Under(list, from, chain), Below(list, from + 1, chain));
      }
    }
  }

  predicate DistinctIds(list: seq<Entry>) {
    forall i, j :: 0 <= i < j < |list| && list[i].id.Some? ==> list[i].id != list[j].id
  }

  lemma ChainPrefix(list: seq<Entry>, x: Chain)
    requires IsChain(list, x) && x != []
    ensures IsChain(list, x[..|x| - 1])
  {
    var y := x[..|x| - 1];
    forall i | 0 <= i < |y|
      ensures list[y[i]].parent == LastId(list, y[..i]) && (i + 1 < |y| ==> list[y[i]].id.Some?)
    {
      assert y[..i] == x[..i];
    }
  }

  /** The parent of the last mailbox of a chain is the one before it. */
  lemma LastParent(list: seq<Entry>, x: Chain)
    requires IsChain(list, x) && x != []
    ensures |x| == 1 ==> list[x[|x| - 1]].parent == None
    ensures |x| > 1 ==> list[x[|x| - 2]].id.Some? && list[x[|x| - 1]].parent == list[x[|x| - 2]].id
  {
    assert list[x[|x| - 1]].parent == LastId(list, x[..|x| - 1]);
  }

  /** With distinct ids a mailbox has one chain only. */
  lemma {:induction false} ChainUnique(list: seq<Entry>, x: Chain, y: Chain)
    requires DistinctIds(list) && IsChain(list, x) && IsChain(list, y) && x != [] && y != []
    requires x[|x| - 1] == y[|y| - 1]
    ensures x == y
    decreases |x|
  {
    var before, other := x[..|x| - 1], y[..|y| - 1];
    LastParent(list, x);
    LastParent(list, y);
    assert x == before + [x[|x| - 1]] && y == other + [y[|y| - 1]];
    if before != [] {
      ChainPrefix(list, x);
      ChainPrefix(list, y);
      ChainUnique(list, before, other);
    }
  }

  /** No mailbox is visited twice, even if some of the list's mailboxes are each other's ancestors. */
  lemma VisitedOnce(list: seq<Entry>, i: nat, j: nat)
    requires DistinctIds(list) && i < j < |Below(list, 0, [])|
    ensures Below(list, 0, [])[i] != [] && Below(list, 0, [])[j] != []
    ensures var x, y := Below(list, 0, [])[i], Below(list, 0, [])[j];
            x[|x| - 1] != y[|y| - 1]
  {
    var x, y := Below(list, 0, [])[i], Below(list, 0, [])[j];
    BelowDistinct(list, 0, []);
    VisitedIff(list, x);
    VisitedIff(list, y);
    if x[|x| - 1] == y[|y| - 1] {
      ChainUnique(list, x, y);
    }
  }

  /** The chain leads to mailbox `id`, by the names that make up `path`. */
  ghost predicate Leads(list: seq<Entry>, prefix: Option<string>, chain: Chain, path: string, id: Id) {
    InRange(list, chain) && Join(PathOf(list, prefix, chain)) == path && LastId(list, chain) == Some(id)
  }

  ghost predicate NamesOf(list: seq<Entry>, prefix: Option<string>, chains: seq<Chain>, names: map<string, Id>) {
    && (forall path :: path in names ==> exists chain :: chain in chains && Leads(list, prefix, chain, path, names[path]))
    && (forall chain, path, id :: chain in chains && Leads(list, prefix, chain, path, id) ==> path in names)
  }

  ghost predicate ChildrenOf(list: seq<Entry>, prefix: Option<string>, chains: seq<Chain>, children: map<Id, bool>) {
    && (forall id :: id in children ==> exists chain, path :: chain in chains && Leads(list, prefix, chain, path, id))
    && (forall chain, path, id :: chain in chains && Leads(list, prefix, chain, path, id) ==> id in children)
    && (forall id :: id in children ==> (children[id] <==> IsParent(list, Some(id))))
  }

  lemma NamesStep(list: seq<Entry>, prefix: Option<string>, chains: seq<Chain>, chain: Chain, path: string, id: Id, names: map<string, Id>)
    requires NamesOf(list, prefix, chains, names) && Leads(list, prefix, chain, path, id)
    ensures NamesOf(list, prefix, chains + [chain], names[path := id])
  {
    var names' := names[path := id];
    forall p | p in names'
      ensures exists c :: c in chains + [chain] && Leads(list, prefix, c, p, names'[p])
    {
      if p == path {
        assert chain in chains + [chain];
      } else {
        var c :| c in chains && Leads(list, prefix, c, p, names[p]);
        assert c in chains + [chain];
      }
    }
  }

  lemma ChildrenStep(list: seq<Entry>, prefix: Option<string>, chains: seq<Chain>, chain: Chain, path: string, id: Id, children: map<Id, bool>)
    requires ChildrenOf(list, prefix, chains, children) && Leads(list, prefix, chain, path, id)
    ensures ChildrenOf(list, prefix, chains + [chain], children[id := IsParent(list, Some(id))])
  {
    forall x | x in children
      ensures exists c, p :: c in chains + [chain] && Leads(list, prefix, c, p, x)
    {
      var c, p :| c in chains && Leads(list, prefix, c, p, x);
      assert c in chains + [chain];
    }
    assert chain in chains + [chain];
  }

  lemma NamesWithout(list: seq<Entry>, prefix: Option<string>, chains: seq<Chain>, chain: Chain, names: map<string, Id>)
    requires NamesOf(list, prefix, chains, names) && InRange(list, chain) && LastId(list, chain).None?
    ensures NamesOf(list, prefix, chains + [chain], names)
  {
    forall path | path in names
      ensures exists c :: c in chains + [chain] && Leads(list, prefix, c, path, names[path])
    {
      var c :| c in chains && Leads(list, prefix, c, path, names[path]);
      assert c in chains + [chain];
    }
  }

  lemma ChildrenWithout(list: seq<Entry>, prefix: Option<string>, chains: seq<Chain>, chain: Chain, children: map<Id, bool>)
    requires ChildrenOf(list, prefix, chains, children) && InRange(list, chain) && LastId(list, chain).None?
    ensures ChildrenOf(list, prefix, chains + [chain], children)
  {
    forall id | id in children
      ensures exists c, path :: c in chains + [chain] && Leads(list, prefix, c, path, id)
    {
      var c, path :| c in chains && Leads(list, prefix, c, path, id);
      assert c in chains + [chain];
    }
  }

  lemma {:induction false} TreeHolds(list: seq<Entry>, prefix: Option<string>, chains: seq<Chain>)
    requires AllInRange(list, chains)
    ensures NamesOf(list, prefix, chains, TreeOf(list, prefix, chains).names)
    ensures ChildrenOf(list, prefix, chains, TreeOf(list, prefix, chains).children)
    decreases |chains|
  {
    if chains != [] {
      var before, chain := chains[..|chains| - 1], chains[|chains| - 1];
      var tree := TreeOf(list, prefix, before);
      TreeHolds(list, prefix, before);
      assert before + [chain] == chains;
      if LastId(list, chain).None? {
        NamesWithout(list, prefix, before, chain, tree.names);
        ChildrenWithout(list, prefix, before, chain, tree.children);
      } else {
        var path, id := Join(PathOf(list, prefix, chain)), LastId(list, chain).value;
        NamesStep(list, prefix, before, chain, path, id, tree.names);
        ChildrenStep(list, prefix, before, chain, path, id, tree.children);
      }
    }
  }

  /** A mailbox within reach of the top, with its path. */
  ghost predicate Reached(list: seq<Entry>, prefix: Option<string>, chain: Chain, path: string, id: Id) {
    IsChain(list, chain) && 0 < |chain| <= 101 && Leads(list, prefix, chain, path, id)
  }

  /** `chains` are those within reach of the top. */
  ghost predicate AreReachable(list: seq<Entry>, chains: seq<Chain>) {
    forall c :: c in chains <==> IsChain(list, c) && 0 < |c| <= MAX_DEPTH + 1
  }

  lemma ReachableNames(list: seq<Entry>, prefix: Option<string>, chains: seq<Chain>, names: map<string, Id>)
    requires AreReachable(list, chains) && NamesOf(list, prefix, chains, names)
    ensures forall path :: path in names ==> exists chain :: Reached(list, prefix, chain, path, names[path])
    ensures forall chain, path, id :: Reached(list, prefix, chain, path, id) ==> path in names
  {
    forall path | path in names
      ensures exists chain :: Reached(list, prefix, chain, path, names[path])
    {
      var chain :| chain in chains && Leads(list, prefix, chain, path, names[path]);
      assert Reached(list, prefix, chain, path, names[path]);
    }
  }

  lemma ReachableChildren(list: seq<Entry>, prefix: Option<string>, chains: seq<Chain>, children: map<Id, bool>, id: Id)
    requires AreReachable(list, chains) && ChildrenOf(list, prefix, chains, children)
    ensures id in children <==> exists chain, path :: Reached(list, prefix, chain, path, id)
    ensures id in children ==> (children[id] <==> IsParent(list, Some(id)))
  {
    if id in children {
      var chain, path :| chain in chains && Leads(list, prefix, chain, path, id);
      assert Reached(list, prefix, chain, path, id);
    }
  }

  lemma BelowTop(list: seq<Entry>) returns (chains: seq<Chain>)
    ensures chains == Below(list, 0, []) && AllInRange(list, chains) && AreReachable(list, chains)
  {
    chains := Below(list, 0, []);
    BelowInRange(list, 0, []);
    forall c
      ensures c in chains <==> IsChain(list, c) && 0 < |c| <= MAX_DEPTH + 1
    {
      VisitedIff(list, c);
    }
  }

  /** The names in the cache are the joined names on the way from the top to the mailboxes within
      reach, no more and no fewer; each stands for a mailbox that has it. */
  lemma NamesAreExact(list: seq<Entry>, prefix: Option<string>) returns (tree: Tree)
    ensures AllInRange(list, Below(list, 0, [])) && tree == TreeOf(list, prefix, Below(list, 0, []))
    ensures forall path :: path in tree.names ==> exists chain :: Reached(list, prefix, chain, path, tree.names[path])
    ensures forall chain, path, id :: Reached(list, prefix, chain, path, id) ==> path in tree.names
  {
    var chains := BelowTop(list);
    TreeHolds(list, prefix, chains);
    tree := TreeOf(list, prefix, chains);
    ReachableNames(list, prefix, chains, tree.names);
  }

  /** The cache holds data for the mailboxes within reach and for no others; one has children
      exactly if a mailbox of the list names it as its parent. */
  lemma ChildrenAreExact(list: seq<Entry>, prefix: Option<string>, id: Id) returns (tree: Tree)
    ensures AllInRange(list, Below(list, 0, [])) && tree == TreeOf(list, prefix, Below(list, 0, []))
    ensures id in tree.children <==> exists chain, path :: Reached(list, prefix, chain, path, id)
    ensures id in tree.children ==> (tree.children[id] <==> IsParent(list, Some(id)))
  {
    var chains := BelowTop(list);
    TreeHolds(list, prefix, chains);
    tree := TreeOf(list, prefix, chains);
    ReachableChildren(list, prefix, chains, tree.children, id);
  }

  // ----- Which names are on the way -----

  /** A path holds one name for each mailbox of the chain, after the prefix of a shared account: the
      inbox of a personal account is INBOX, and a mailbox without a name has the empty one. */
  lemma {:induction false} NamesOnTheWay(list: seq<Entry>, prefix: Option<string>, chain: Chain, k: nat)
    requires InRange(list, chain) && k < |chain|
    ensures var path, e := PathOf(list, prefix, chain), list[chain[k]];
            && |path| == |chain| + (if prefix.Some? then 1 else 0)
            && (prefix.Some? ==> path[0] == prefix.value)
            && path[k + (if prefix.Some? then 1 else 0)]
            == (if e.isInbox && prefix.None? then "INBOX" else if e.name == None then "" else e.name.value)
    decreases |chain|
  {
    var last := |chain| - 1;
    assert PathOf(list, prefix, chain) == PathOf(list, prefix, chain[..last]) + [NameOf(list[chain[last]], prefix.Some?)];
    if k < last {
      NamesOnTheWay(list, prefix, chain[..last], k);
    } else if last > 0 {
      NamesOnTheWay(list, prefix, chain[..last], 0);
    }
  }

  // ----- When every mailbox keeps its name -----

  /** No two mailboxes within reach have the same joined path. */
  ghost predicate PathsDiffer(list: seq<Entry>, prefix: Option<string>) {
    forall c, d, path, i, j :: Reached(list, prefix, c, path, i) && Reached(list, prefix, d, path, j) ==> i == j
  }

  /** Every mailbox within reach is found under its name, exactly if no two have the same. */
  lemma EveryNameKeptIff(list: seq<Entry>, prefix: Option<string>) returns (tree: Tree)
    ensures AllInRange(list, Below(list, 0, [])) && tree == TreeOf(list, prefix, Below(list, 0, []))
    ensures (forall chain, path, id :: Reached(list, prefix, chain, path, id) ==> path in tree.names && tree.names[path] == id)
       <==> PathsDiffer(list, prefix)
  {
    tree := NamesAreExact(list, prefix);
    if PathsDiffer(list, prefix) {
      forall chain, path, id | Reached(list, prefix, chain, path, id)
        ensures path in tree.names && tree.names[path] == id
      {
        var other :| Reached(list, prefix, other, path, tree.names[path]);
      }
    }
  }

  lemma TopPath(list: seq<Entry>, prefix: Option<string>, at: nat)
    requires at < |list|
    ensures var name := NameOf(list[at], prefix.Some?);
            Join(PathOf(list, prefix, [at])) == if prefix.None? then name else prefix.value + "/" + name
  {
    var name := NameOf(list[at], prefix.Some?);
    assert [at][..0] == [];
    if prefix.Some? {
      assert PathOf(list, prefix, [at]) == [prefix.value, name];
      assert [prefix.value, name][..1] == [prefix.value];
    } else {
      assert PathOf(list, prefix, [at]) == [name];
    }
  }

  /** The inbox at the top of a personal account is found under INBOX; of a shared account, under the
      prefix and its own name. */
  lemma InboxIsFound(list: seq<Entry>, prefix: Option<string>, at: nat) returns (tree: Tree)
    requires at < |list| && list[at].parent == None && list[at].isInbox && list[at].id.Some? && list[at].name.Some?
    requires PathsDiffer(list, prefix)
    ensures AllInRange(list, Below(list, 0, [])) && tree == TreeOf(list, prefix, Below(list, 0, []))
    ensures var path := if prefix.None? then "INBOX" else prefix.value + "/" + list[at].name.value;
            path in tree.names && tree.names[path] == list[at].id.value
  {
    tree := EveryNameKeptIff(list, prefix);
    TopPath(list, prefix, at);
    assert [at][..0] == [];
    assert Reached(list, prefix, [at], Join(PathOf(list, prefix, [at])), list[at].id.value);
  }

  predicate NoSlash(s: string) {
    forall i :: 0 <= i < |s| ==> s[i] != '/'
  }

  /** Siblings have different names, and no name has a slash. */
  predicate SiblingsDiffer(list: seq<Entry>, isShared: bool) {
    && (forall i :: 0 <= i < |list| ==> NoSlash(NameOf(list[i], isShared)))
    && (forall i, j :: 0 <= i < j < |list| && list[i].parent == list[j].parent ==>
          NameOf(list[i], isShared) != NameOf(list[j], isShared))
  }

  /** The last slash cuts a name in one way only. */
  lemma LastSlash(a: string, x: string, b: string, y: string)
    requires NoSlash(x) && NoSlash(y) && a + "/" + x == b + "/" + y
    ensures a == b && x == y
  {
    var s, t := a + "/" + x, b + "/" + y;
    assert s[|a|] == '/' && t[|b|] == '/';
    assert forall i :: |a| < i < |s| ==> s[i] == x[i - |a| - 1];
    assert forall i :: |b| < i < |t| ==> t[i] == y[i - |b| - 1];
    assert a == s[..|a|] && b == t[..|b|] && x == s[|a| + 1..] && y == t[|b| + 1..];
  }

  lemma JoinLast(path: seq<string>, x: string)
    ensures Join(path + [x]) == if path == [] then x else Join(path) + "/" + x
  {
    assert (path + [x])[..|path|] == path;
  }

  function Start(prefix: Option<string>): seq<string> {
    if prefix.Some? then [prefix.value] else []
  }

  predicate NoSlashes(names: seq<string>) {
    forall i :: 0 <= i < |names| ==> NoSlash(names[i])
  }

  lemma LastApart<T>(s: seq<T>)
    requires s != []
    ensures s == s[..|s| - 1] + [s[|s| - 1]]
  {
  }

  lemma JoinStarts(prefix: Option<string>, names: seq<string>)
    requires names != []
    ensures var before := Start(prefix) + names[..|names| - 1];
            Join(Start(prefix) + names) == if before == [] then names[|names| - 1] else Join(before) + "/" + names[|names| - 1]
    ensures prefix.Some? ==> Join(Start(prefix) + names) != prefix.value
  {
    var before, last := names[..|names| - 1], names[|names| - 1];
    LastApart(names);
    Associative(Start(prefix), before, [last]);
    JoinLast(Start(prefix) + before, last);
    if prefix.Some? {
      LongerThanPrefix(prefix.value, names);
    }
  }

  /** A path below the top of a shared account is longer than the prefix. */
  lemma {:induction false} LongerThanPrefix(prefix: string, names: seq<string>)
    ensures |Join([prefix] + names)| >= |prefix| + |names|
    decreases |names|
  {
    if names == [] {
      EmptyRight([prefix]);
    } else {
      var before, last := names[..|names| - 1], names[|names| - 1];
      LongerThanPrefix(prefix, before);
      LastApart(names);
      Associative([prefix], before, [last]);
      JoinLast([prefix] + before, last);
    }
  }

  lemma OneName(x: string, a: string, y: string)
    requires NoSlash(x)
    ensures x != a + "/" + y
  {
    assert (a + "/" + y)[|a|] == '/';
  }

  /** The joined path determines the names on the way. */
  lemma {:induction false} SameNames(prefix: Option<string>, p: seq<string>, q: seq<string>)
    requires p != [] && q != [] && NoSlashes(p) && NoSlashes(q)
    requires Join(Start(prefix) + p) == Join(Start(prefix) + q)
    ensures p == q
    decreases |p|
  {
    var p', q', x, y := p[..|p| - 1], q[..|q| - 1], p[|p| - 1], q[|q| - 1];
    JoinStarts(prefix, p);
    JoinStarts(prefix, q);
    if Start(prefix) + p' == [] {
      if Start(prefix) + q' != [] {
        OneName(x, Join(Start(prefix) + q'), y);
      }
    } else if Start(prefix) + q' == [] {
      OneName(y, Join(Start(prefix) + p'), x);
    } else {
      LastSlash(Join(Start(prefix) + p'), x, Join(Start(prefix) + q'), y);
      ShorterNames(prefix, p', q');
      if p' != [] && q' != [] {
        SameNames(prefix, p', q');
      }
    }
    assert p == p' + [x] && q == q' + [y];
  }

  lemma ShorterNames(prefix: Option<string>, p: seq<string>, q: seq<string>)
    requires NoSlashes(p) && NoSlashes(q) && Start(prefix) + p != [] && Start(prefix) + q != []
    requires Join(Start(prefix) + p) == Join(Start(prefix) + q)
    ensures p == [] <==> q == []
  {
    EmptyRight(Start(prefix));
    if p != [] {
      JoinStarts(prefix, p);
    }
    if q != [] {
      JoinStarts(prefix, q);
    }
  }

  /** The names on the way, without the prefix. */
  function NamesOn(list: seq<Entry>, isShared: bool, chain: Chain): (names: seq<string>)
    requires InRange(list, chain)
    ensures |names| == |chain|
    decreases |chain|
  {
    if chain == [] then [] else NamesOn(list, isShared, chain[..|chain| - 1]) + [NameOf(list[chain[|chain| - 1]], isShared)]
  }

  lemma {:induction false} PathIsNames(list: seq<Entry>, prefix: Option<string>, chain: Chain)
    requires InRange(list, chain)
    ensures PathOf(list, prefix, chain) == Start(prefix) + NamesOn(list, prefix.Some?, chain)
    decreases |chain|
  {
    if chain == [] {
      EmptyRight(Start(prefix));
    } else {
      var before := chain[..|chain| - 1];
      PathIsNames(list, prefix, before);
      Associative(Start(prefix), NamesOn(list, prefix.Some?, before), [NameOf(list[chain[|chain| - 1]], prefix.Some?)]);
    }
  }

  lemma {:induction false} NamesHaveNoSlashes(list: seq<Entry>, isShared: bool, chain: Chain)
    requires InRange(list, chain) && SiblingsDiffer(list, isShared)
    ensures NoSlashes(NamesOn(list, isShared, chain))
    decreases |chain|
  {
    if chain != [] {
      NamesHaveNoSlashes(list, isShared, chain[..|chain| - 1]);
    }
  }

  lemma SameSibling(list: seq<Entry>, isShared: bool, i: nat, j: nat)
    requires SiblingsDiffer(list, isShared) && i < |list| && j < |list|
    requires list[i].parent == list[j].parent && NameOf(list[i], isShared) == NameOf(list[j], isShared)
    ensures i == j
  {
  }

  /** The names determine the chain. */
  lemma {:induction false} SameChain(list: seq<Entry>, isShared: bool, c: Chain, d: Chain)
    requires IsChain(list, c) && IsChain(list, d) && SiblingsDiffer(list, isShared)
    requires NamesOn(list, isShared, c) == NamesOn(list, isShared, d)
    ensures c == d
    decreases |c|
  {
    if c != [] {
      var last := |c| - 1;
      NamesEnd(list, isShared, c, d);
      ChainBefore(list, c);
      ChainBefore(list, d);
      SameChain(list, isShared, c[..last], d[..last]);
      SameSibling(list, isShared, c[last], d[last]);
      assert c == c[..last] + [c[last]] && d == d[..last] + [d[last]];
    }
  }

  lemma NamesEnd(list: seq<Entry>, isShared: bool, c: Chain, d: Chain)
    requires InRange(list, c) && InRange(list, d) && c != [] && NamesOn(list, isShared, c) == NamesOn(list, isShared, d)
    ensures |c| == |d|
    ensures NamesOn(list, isShared, c[..|c| - 1]) == NamesOn(list, isShared, d[..|d| - 1])
    ensures NameOf(list[c[|c| - 1]], isShared) == NameOf(list[d[|d| - 1]], isShared)
  {
    var p, q := NamesOn(list, isShared, c), NamesOn(list, isShared, d);
    assert p[..|p| - 1] == NamesOn(list, isShared, c[..|c| - 1]);
    assert q[..|q| - 1] == NamesOn(list, isShared, d[..|d| - 1]);
    assert p[|p| - 1] == q[|q| - 1];
  }

  lemma ChainBefore(list: seq<Entry>, c: Chain)
    requires IsChain(list, c) && c != []
    ensures IsChain(list, c[..|c| - 1]) && list[c[|c| - 1]].parent == LastId(list, c[..|c| - 1])
  {
    var before := c[..|c| - 1];
    forall i | 0 <= i < |before|
      ensures list[before[i]].parent == LastId(list, before[..i])
      ensures i + 1 < |before| ==> list[before[i]].id.Some?
    {
      assert before[..i] == c[..i];
    }
  }

  /** If siblings have different names without slashes, every mailbox within reach keeps its name. */
  lemma SiblingsSuffice(list: seq<Entry>, prefix: Option<string>)
    requires SiblingsDiffer(list, prefix.Some?)
    ensures PathsDiffer(list, prefix)
  {
    forall c, d, path, i, j | Reached(list, prefix, c, path, i) && Reached(list, prefix, d, path, j)
      ensures i == j
    {
      SamePath(list, prefix, c, d);
    }
  }

  lemma SamePath(list: seq<Entry>, prefix: Option<string>, c: Chain, d: Chain)
    requires IsChain(list, c) && IsChain(list, d) && c != [] && d != [] && SiblingsDiffer(list, prefix.Some?)
    requires Join(PathOf(list, prefix, c)) == Join(PathOf(list, prefix, d))
    ensures c == d
  {
    PathIsNames(list, prefix, c);
    PathIsNames(list, prefix, d);
    NamesHaveNoSlashes(list, prefix.Some?, c);
    NamesHaveNoSlashes(list, prefix.Some?, d);
    SameNames(prefix, NamesOn(list, prefix.Some?, c), NamesOn(list, prefix.Some?, d));
    SameChain(list, prefix.Some?, c, d);
  }
}
