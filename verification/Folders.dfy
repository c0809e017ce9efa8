/** Creating and renaming mailboxes in the personal account's cache of names. */
module Folders {
  import opened Wrappers
  import opened Sequences
  import MailboxTree

  type Id = string

  const MAX_MAILBOX_DEPTH := 10

  function Join(path: seq<string>): string {
    MailboxTree.Join(path)
  }

  // ----- Names -----

  /** `name` lies somewhere under `ancestor`. */
  predicate Below(name: string, ancestor: string) {
    |name| > |ancestor| && name[..|ancestor|] == ancestor && name[|ancestor|] == '/'
  }

  lemma BelowTransitive(a: string, b: string, c: string)
    requires Below(a, b) && Below(b, c)
    ensures Below(a, c)
  {
    assert a[..|c|] == a[..|b|][..|c|];
    assert a[|c|] == a[..|b|][|c|];
  }

  /** The names that a name lies under are in line. */
  lemma BelowComparable(name: string, a: string, b: string)
    requires Below(name, a) && (Below(name, b) || name == b) && |a| < |b|
    ensures Below(b, a)
  {
    assert b == name[..|b|];
    assert b[..|a|] == name[..|a|] && b[|a|] == name[|a|];
  }

  lemma SameLength(name: string, a: string, b: string)
    requires Below(name, a) && Below(name, b) && |a| == |b|
    ensures a == b
  {
  }

  /** Every name has all the names it lies under. */
  ghost predicate ParentClosed(names: map<string, Id>) {
    forall n, a :: n in names && Below(n, a) ==> a in names
  }

  predicate HasSlash(s: string) {
    exists i :: 0 <= i < |s| && s[i] == '/'
  }

  /** Path items: none empty, none with a slash. */
  predicate AreItems(items: seq<string>) {
    forall i :: 0 <= i < |items| ==> items[i] != "" && !HasSlash(items[i])
  }

  /** The first `j` items as a name. */
  function PathTo(items: seq<string>, j: nat): string
    requires j <= |items|
  {
    Join(items[..j])
  }

  lemma JoinStep(items: seq<string>, j: nat)
    requires 0 < j < |items|
    ensures PathTo(items, j + 1) == PathTo(items, j) + "/" + items[j]
  {
    assert items[..j + 1][..j] == items[..j];
  }

  lemma JoinOne(items: seq<string>)
    requires items != []
    ensures PathTo(items, 1) == items[0]
  {
  }

  lemma JoinNonEmpty(items: seq<string>, j: nat)
    requires AreItems(items) && 0 < j <= |items|
    ensures PathTo(items, j) != ""
  {
    if j == 1 {
      JoinOne(items);
    } else {
      JoinStep(items, j - 1);
    }
  }

  lemma JoinBelowStep(items: seq<string>, j: nat)
    requires 0 < j < |items|
    ensures Below(PathTo(items, j + 1), PathTo(items, j))
  {
    JoinStep(items, j);
    var name, parent := PathTo(items, j + 1), PathTo(items, j);
    assert name == parent + ("/" + items[j]);
    assert name[..|parent|] == parent && name[|parent|] == '/';
  }

  lemma {:induction false} JoinBelow(items: seq<string>, i: nat, j: nat)
    requires 0 < i < j <= |items|
    ensures Below(PathTo(items, j), PathTo(items, i))
    decreases j
  {
    JoinBelowStep(items, j - 1);
    if i < j - 1 {
      JoinBelow(items, i, j - 1);
      BelowTransitive(PathTo(items, j), PathTo(items, j - 1), PathTo(items, i));
    }
  }

  lemma SlashAfter(parent: string, item: string, a: string)
    requires Below(parent + "/" + item, a) && |a| > |parent|
    ensures HasSlash(item)
  {
    assert item[|a| - |parent| - 1] == (parent + "/" + item)[|a|];
  }

  /** What a path lies under is a shorter part of it. */
  lemma {:induction false} BelowJoin(items: seq<string>, j: nat, a: string) returns (i: nat)
    requires AreItems(items) && 0 < j <= |items| && Below(PathTo(items, j), a)
    ensures 0 < i < j && a == PathTo(items, i)
    decreases j
  {
    var name := PathTo(items, j);
    if j == 1 {
      JoinOne(items);
      assert HasSlash(items[0]);
    } else {
      var parent := PathTo(items, j - 1);
      JoinStep(items, j - 1);
      JoinBelowStep(items, j - 1);
      if |a| > |parent| {
        SlashAfter(parent, items[j - 1], a);
        assert false;
      } else if |a| == |parent| {
        SameLength(name, a, parent);
        i := j - 1;
      } else {
        BelowComparable(name, a, parent);
        i := BelowJoin(items, j - 1, a);
      }
    }
  }

  // ----- Validation of a new name -----

  /** White space of Unicode. */
  predicate IsWhitespace(c: char) {
    var n := c as int;
    9 <= n <= 13 || n == 0x20 || n == 0x85 || n == 0xA0 || n == 0x1680 || 0x2000 <= n <= 0x200A
    || n == 0x2028 || n == 0x2029 || n == 0x202F || n == 0x205F || n == 0x3000
  }

  function TrimStart(s: string): string
    decreases |s|
  {
    if s != "" && IsWhitespace(s[0]) then TrimStart(s[1..]) else s
  }

  function TrimEnd(s: string): string
    decreases |s|
  {
    if s != "" && IsWhitespace(s[|s| - 1]) then TrimEnd(s[..|s| - 1]) else s
  }

  function Trim(s: string): string {
    TrimEnd(TrimStart(s))
  }

  lemma {:induction false} TrimStartSlash(s: string)
    ensures HasSlash(TrimStart(s)) ==> HasSlash(s)
    decreases |s|
  {
    if s != "" && IsWhitespace(s[0]) {
      var rest := s[1..];
      TrimStartSlash(rest);
      if i :| 0 <= i < |rest| && rest[i] == '/' {
        assert s[i + 1] == '/';
      }
    }
  }

  lemma {:induction false} TrimEndSlash(s: string)
    ensures HasSlash(TrimEnd(s)) ==> HasSlash(s)
    decreases |s|
  {
    if s != "" && IsWhitespace(s[|s| - 1]) {
      var rest := s[..|s| - 1];
      TrimEndSlash(rest);
      if i :| 0 <= i < |rest| && rest[i] == '/' {
        assert s[i] == '/';
      }
    }
  }

  /** The parts between slashes. */
  function Split(s: string): (parts: seq<string>)
    ensures |parts| > 0 && forall i :: 0 <= i < |parts| ==> !HasSlash(parts[i])
    decreases |s|
  {
    if s == "" then [""]
    else
      var last := |s| - 1;
      var before := Split(s[..last]);
      if s[last] == '/' then before + [""] else before[..|before| - 1] + [before[|before| - 1] + [s[last]]]
  }

  lemma {:induction false} SplitAtSlash(s: string)
    requires HasSlash(s)
    ensures |Split(s)| > 1
    decreases |s|
  {
    var last := |s| - 1;
    if s[last] != '/' {
      var i :| 0 <= i < |s| && s[i] == '/';
      assert s[..last][i] == '/';
      SplitAtSlash(s[..last]);
    }
  }

  function Stripped(name: string): string {
    var a := Trim(name);
    var b := if a != "" && a[0] == '/' then Trim(a[1..]) else a;
    if b != "" && b[|b| - 1] == '/' then Trim(b[..|b| - 1]) else b
  }

  function TrimAll(parts: seq<string>): (items: seq<string>)
    ensures |items| == |parts| && forall i :: 0 <= i < |parts| ==> items[i] == Trim(parts[i])
  {
    seq(|parts|, i requires 0 <= i < |parts| => Trim(parts[i]))
  }

  /** The path that a client's name stands for. */
  function ItemsOf(name: string): seq<string> {
    var stripped := Stripped(name);
    if HasSlash(stripped) then TrimAll(Split(stripped)) else [stripped]
  }

  lemma ItemsHaveNoSlash(name: string, i: nat)
    requires i < |ItemsOf(name)|
    ensures !HasSlash(ItemsOf(name)[i])
  {
    var stripped := Stripped(name);
    if HasSlash(stripped) {
      var part := Split(stripped)[i];
      TrimStartSlash(part);
      TrimEndSlash(TrimStart(part));
    }
  }

  // ----- What trimming and splitting do -----

  predicate AllWhitespace(s: string) {
    forall i :: 0 <= i < |s| ==> IsWhitespace(s[i])
  }

  /** Not empty, and neither end is white space. */
  predicate IsTrimmed(s: string) {
    s != "" && !IsWhitespace(s[0]) && !IsWhitespace(s[|s| - 1])
  }

  const WHITE_SPACE: set<int> := {
    0x09, 0x0A, 0x0B, 0x0C, 0x0D, 0x20, 0x85, 0xA0, 0x1680, 0x2000, 0x2001, 0x2002, 0x2003, 0x2004, 0x2005, 0x2006,
    0x2007, 0x2008, 0x2009, 0x200A, 0x2028, 0x2029, 0x202F, 0x205F, 0x3000}

  /** The white space of Unicode, one by one. */
  lemma WhitespaceIs(c: char)
    ensures IsWhitespace(c) <==> c as int in WHITE_SPACE
  {
  }

  lemma {:induction false} TrimStartCuts(s: string) returns (a: string)
    ensures s == a + TrimStart(s) && AllWhitespace(a)
    ensures TrimStart(s) != "" ==> !IsWhitespace(TrimStart(s)[0])
    decreases |s|
  {
    if s != "" && IsWhitespace(s[0]) {
      var rest := TrimStartCuts(s[1..]);
      a := [s[0]] + rest;
      Associative([s[0]], rest, TrimStart(s));
      assert s == [s[0]] + s[1..];
    } else {
      a := "";
      EmptyLeft(s);
    }
  }

  lemma {:induction false} TrimEndCuts(s: string) returns (b: string)
    ensures s == TrimEnd(s) + b && AllWhitespace(b)
    ensures TrimEnd(s) != "" ==> !IsWhitespace(TrimEnd(s)[|TrimEnd(s)| - 1])
    decreases |s|
  {
    if s != "" && IsWhitespace(s[|s| - 1]) {
      var before, last := s[..|s| - 1], [s[|s| - 1]];
      var rest := TrimEndCuts(before);
      b := rest + last;
      Associative(TrimEnd(s), rest, last);
      assert s == before + last;
    } else {
      b := "";
      EmptyRight(s);
    }
  }

  /** Trimming returns the middle of a text: what it cuts is white space, and neither end of what is
      left is. */
  lemma TrimCuts(s: string) returns (a: string, b: string)
    ensures s == a + Trim(s) + b && AllWhitespace(a) && AllWhitespace(b)
    ensures Trim(s) == "" || IsTrimmed(Trim(s))
  {
    a := TrimStartCuts(s);
    b := TrimEndCuts(TrimStart(s));
    Associative(a, Trim(s), b);
    if Trim(s) != "" {
      assert TrimStart(s)[0] == Trim(s)[0];
    }
  }

  lemma {:induction false} TrimStartOf(a: string, x: string)
    requires AllWhitespace(a) && IsTrimmed(x)
    ensures TrimStart(a + x) == x
    decreases |a|
  {
    if a == "" {
      EmptyLeft(x);
    } else {
      assert (a + x)[1..] == a[1..] + x;
      TrimStartOf(a[1..], x);
    }
  }

  lemma {:induction false} TrimEndOf(x: string, b: string)
    requires AllWhitespace(b) && IsTrimmed(x)
    ensures TrimEnd(x + b) == x
    decreases |b|
  {
    if b == "" {
      EmptyRight(x);
    } else {
      var before := b[..|b| - 1];
      assert (x + b)[..|x + b| - 1] == x + before;
      TrimEndOf(x, before);
    }
  }

  lemma {:induction false} TrimStartPadded(a: string, x: string, b: string)
    requires AllWhitespace(a) && AllWhitespace(b) && IsTrimmed(x)
    ensures TrimStart(a + (x + b)) == x + b
    decreases |a|
  {
    if a == "" {
      EmptyLeft(x + b);
    } else {
      assert (a + (x + b))[1..] == a[1..] + (x + b);
      TrimStartPadded(a[1..], x, b);
    }
  }

  /** White space around a trimmed text is cut. */
  lemma TrimOf(a: string, x: string, b: string)
    requires AllWhitespace(a) && AllWhitespace(b) && IsTrimmed(x)
    ensures Trim(a + x + b) == x
  {
    Associative(a, x, b);
    TrimStartPadded(a, x, b);
    TrimEndOf(x, b);
  }

  /** The parts of a text, joined, are the text. */
  lemma {:induction false} JoinOfSplit(s: string)
    ensures Join(Split(s)) == s
    decreases |s|
  {
    if s != "" {
      var last := |s| - 1;
      var before := Split(s[..last]);
      var front, end := before[..|before| - 1], before[|before| - 1];
      JoinOfSplit(s[..last]);
      assert s == s[..last] + [s[last]] && before == front + [end];
      if s[last] == '/' {
        MailboxTree.JoinLast(before, "");
      } else {
        MailboxTree.JoinLast(front, end);
        MailboxTree.JoinLast(front, end + [s[last]]);
        if front != [] {
          Associative(Join(front) + "/", end, [s[last]]);
        }
      }
    }
  }

  predicate WithoutSlashes(parts: seq<string>) {
    forall i :: 0 <= i < |parts| ==> !HasSlash(parts[i])
  }

  lemma NoneHasSlash(parts: seq<string>)
    requires WithoutSlashes(parts)
    ensures MailboxTree.NoSlashes(parts)
  {
    forall i, j | 0 <= i < |parts| && 0 <= j < |parts[i]|
      ensures parts[i][j] != '/'
    {
      assert !HasSlash(parts[i]);
    }
  }

  /** Parts without slashes come back from being joined and split. */
  lemma SplitOfJoin(parts: seq<string>)
    requires parts != [] && WithoutSlashes(parts)
    ensures Split(Join(parts)) == parts
  {
    var again := Split(Join(parts));
    JoinOfSplit(Join(parts));
    NoneHasSlash(parts);
    NoneHasSlash(again);
    EmptyLeft(parts);
    EmptyLeft(again);
    MailboxTree.SameNames(None, parts, again);
  }

  // ----- Which path a name stands for -----

  /** A path as it may be written: white space around the items, but not at the outer ends. */
  ghost predicate IsWritten(parts: seq<string>, items: seq<string>) {
    && |parts| == |items| > 0 && WithoutSlashes(parts)
    && parts[0] != "" && !IsWhitespace(parts[0][0])
    && parts[|parts| - 1] != "" && !IsWhitespace(parts[|parts| - 1][|parts[|parts| - 1]| - 1])
    && forall i :: 0 <= i < |parts| ==> IsTrimmed(items[i]) && Trim(parts[i]) == items[i]
  }

  predicate IsLead(s: string) {
    s == "" || (s[0] == '/' && AllWhitespace(s[1..]))
  }

  predicate IsTrail(s: string) {
    s == "" || (s[|s| - 1] == '/' && AllWhitespace(s[..|s| - 1]))
  }

  lemma {:induction false} JoinEnds(parts: seq<string>)
    requires parts != [] && parts[0] != "" && parts[|parts| - 1] != ""
    ensures Join(parts) != "" && Join(parts)[0] == parts[0][0]
    ensures var last := parts[|parts| - 1];
            Join(parts)[|Join(parts)| - 1] == last[|last| - 1]
    decreases |parts|
  {
    var front, last := parts[..|parts| - 1], parts[|parts| - 1];
    assert parts == front + [last];
    MailboxTree.JoinLast(front, last);
    if front != [] {
      JoinBegins(front, last);
    }
  }

  lemma {:induction false} JoinBegins(front: seq<string>, last: string)
    requires front != [] && front[0] != ""
    ensures Join(front) != "" && Join(front)[0] == front[0][0]
    decreases |front|
  {
    var before, end := front[..|front| - 1], front[|front| - 1];
    assert front == before + [end];
    MailboxTree.JoinLast(before, end);
    if before != [] {
      JoinBegins(before, end);
    }
  }

  lemma WrittenEnds(parts: seq<string>, items: seq<string>)
    requires IsWritten(parts, items)
    ensures var written := Join(parts);
            IsTrimmed(written) && written[0] != '/' && written[|written| - 1] != '/'
  {
    JoinEnds(parts);
    var first, last := parts[0], parts[|parts| - 1];
    assert !HasSlash(first) && !HasSlash(last);
  }

  lemma TrimOne(x: string)
    requires x == "" || IsTrimmed(x)
    ensures Trim(x) == x
  {
    if x != "" {
      EmptyLeft(x);
      EmptyRight(x);
      TrimOf("", x, "");
    }
  }

  /** The slash before, and the white space after it. */
  lemma LeadIsCut(lead: string, tail: string)
    requires IsLead(lead) && IsTrimmed(tail) && tail[0] != '/'
    ensures var x := lead + tail;
            IsTrimmed(x) && (if x[0] == '/' then Trim(x[1..]) else x) == tail
  {
    if lead == "" {
      EmptyLeft(tail);
    } else {
      assert (lead + tail)[1..] == lead[1..] + tail;
      EmptyRight(lead[1..] + tail);
      TrimOf(lead[1..], tail, "");
    }
  }

  /** The slash after, and the white space before it. */
  lemma TrailIsCut(written: string, trail: string)
    requires IsTrail(trail) && IsTrimmed(written) && written[|written| - 1] != '/'
    ensures var x := written + trail;
            IsTrimmed(x) && x[0] == written[0] && (if x[|x| - 1] == '/' then Trim(x[..|x| - 1]) else x) == written
  {
    if trail == "" {
      EmptyRight(written);
    } else {
      var x, space := written + trail, trail[..|trail| - 1];
      assert x[..|x| - 1] == written + space;
      EmptyLeft(written);
      TrimOf("", written, space);
    }
  }

  /** White space around the name, a slash before and a slash after are taken off. */
  lemma StrippedOf(a: string, lead: string, written: string, trail: string, b: string)
    requires AllWhitespace(a) && AllWhitespace(b) && IsLead(lead) && IsTrail(trail)
    requires IsTrimmed(written) && written[0] != '/' && written[|written| - 1] != '/'
    ensures Stripped(a + (lead + written + trail) + b) == written
  {
    var tail, whole := written + trail, lead + (written + trail);
    TrailIsCut(written, trail);
    LeadIsCut(lead, tail);
    Associative(lead, written, trail);
    TrimOf(a, whole, b);
    StrippedInSteps(a + whole + b, whole, tail, written);
  }

  lemma StrippedInSteps(name: string, whole: string, tail: string, written: string)
    requires Trim(name) == whole && whole != "" && tail != ""
    requires (if whole[0] == '/' then Trim(whole[1..]) else whole) == tail
    requires (if tail[|tail| - 1] == '/' then Trim(tail[..|tail| - 1]) else tail) == written
    ensures Stripped(name) == written
  {
  }

  lemma WrittenItems(parts: seq<string>, items: seq<string>)
    requires IsWritten(parts, items)
    ensures if HasSlash(Join(parts)) then TrimAll(Split(Join(parts))) == items else [Join(parts)] == items
  {
    SplitOfJoin(parts);
    if |parts| > 1 {
      var front, last := parts[..|parts| - 1], parts[|parts| - 1];
      assert parts == front + [last];
      MailboxTree.JoinLast(front, last);
      assert Join(parts)[|Join(front)|] == '/';
      assert TrimAll(parts) == items;
    } else {
      assert parts == [parts[0]] && Join(parts) == parts[0];
      EmptyLeft(parts[0]);
      EmptyRight(parts[0]);
      TrimOf("", parts[0], "");
      assert items == [items[0]];
    }
  }

  /** A name stands for the items that it is written with, whatever white space is around them, and with
      or without a slash before the first and after the last one. */
  lemma NameStandsFor(parts: seq<string>, items: seq<string>, a: string, lead: string, trail: string, b: string)
    requires IsWritten(parts, items) && AllWhitespace(a) && AllWhitespace(b) && IsLead(lead) && IsTrail(trail)
    ensures ItemsOf(a + (lead + Join(parts) + trail) + b) == items
  {
    WrittenEnds(parts, items);
    StrippedOf(a, lead, Join(parts), trail, b);
    WrittenItems(parts, items);
  }

  /** In particular a joined path stands for itself, and so does what is accepted for it. */
  lemma JoinedPath(names: map<string, Id>, items: seq<string>, params: CreateParams, k: nat)
    requires items != [] && WithoutSlashes(items) && forall i :: 0 <= i < |items| ==> IsTrimmed(items[i])
    ensures ItemsOf(Join(items)) == items
    ensures Splits(names, ItemsOf(Join(items)), params, k) ==> params.fullPath == Join(items) && params.path == items[k..]
  {
    forall i | 0 <= i < |items|
      ensures Trim(items[i]) == items[i]
    {
      EmptyLeft(items[i]);
      EmptyRight(items[i]);
      TrimOf("", items[i], "");
    }
    NameStandsFor(items, items, "", "", "", "");
    EmptyLeft(Join(items));
    EmptyRight(Join(items));
    assert items[..|items|] == items;
  }

  /** Only one slash is taken off: `//a` has an empty item. */
  lemma DoubledSlash()
    ensures ItemsOf("//a") == ["", "a"] && NameProblem(ItemsOf("//a")) == Some(EmptyItem)
    ensures ItemsOf("/") == [""] && NameProblem(ItemsOf("/")) == Some(InvalidName)
  {
    var parts := ["", "a"];
    MailboxTree.JoinLast([""], "a");
    assert parts == [""] + ["a"] && Join(parts) == "/a";
    SplitOfJoin(parts);
    TrimOne("//a");
    TrimOne("/a");
    TrimOne("a");
    TrimOne("/");
    TrimOne("");
    assert "//a"[1..] == "/a" && "/"[1..] == "";
    assert "/a"[0] == '/';
    assert TrimAll(parts) == parts;
  }

  datatype Problem = InvalidName | EmptyItem | TooDeep | VirtualFolder | AlreadyExists

  /** What is to be created below the nearest parent that exists. */
  datatype CreateParams = CreateParams(path: seq<string>, fullPath: string, parentId: Option<Id>, parentName: Option<string>)

  datatype Validation = Rejected(problem: Problem) | OtherAccount | Accepted(params: CreateParams)

  /** The first reason to reject a path by itself. */
  function NameProblem(items: seq<string>): Option<Problem> {
    if items == [""] then Some(InvalidName)
    else if "" in items then Some(EmptyItem)
    else if |items| > MAX_MAILBOX_DEPTH then Some(TooDeep)
    else None
  }

  /** A path is rejected by itself exactly if it has an empty item or more than ten items. */
  lemma NameProblemIff(items: seq<string>)
    requires items != []
    ensures NameProblem(items).Some? <==> "" in items || |items| > 10
    ensures NameProblem(items) == Some(TooDeep) <==> "" !in items && |items| > 10
  {
  }

  /** The first reason to reject a path in the personal account, if any. */
  function ProblemOf(items: seq<string>, names: map<string, Id>, folderAll: string): Option<Problem>
    requires items != []
  {
    if NameProblem(items).Some? then NameProblem(items)
    else if items[0] == folderAll then Some(VirtualFolder)
    else if Join(items) in names then Some(AlreadyExists)
    else None
  }

  /** The first `k` items of the path exist, and no more of them do; the others are to be created. */
  ghost predicate Splits(names: map<string, Id>, items: seq<string>, params: CreateParams, k: nat) {
    && k < |items| && params.fullPath == PathTo(items, |items|) && params.path == items[k..]
    && (forall j :: k < j <= |items| ==> PathTo(items, j) !in names)
    && (k == 0 ==> params.parentId.None? && params.parentName.None?)
    && (k > 0 ==> PathTo(items, k) in names && params.parentName == Some(PathTo(items, k)) && params.parentId == Some(names[PathTo(items, k)]))
  }

  method SplitPath(name: string) returns (items: Option<seq<string>>)
    requires HasSlash(name)
    ensures items == if "" in TrimAll(Split(name)) then None else Some(TrimAll(Split(name)))
  {
    var parts := Split(name);
    var path := [];
    for i := 0 to |parts|
      invariant path == TrimAll(parts)[..i] && "" !in path
    {
      var item := Trim(parts[i]);
      if item == "" {
        assert TrimAll(parts)[i] == "";
        return None;
      }
      path := path + [item];
    }
    assert TrimAll(parts)[..|parts|] == TrimAll(parts);
    items := Some(path);
  }

  /** The path of a new mailbox and its nearest parent. The name is known not to be there. */
  method FindParent(names: map<string, Id>, items: seq<string>) returns (params: CreateParams, ghost k: nat)
    requires items != [] && Join(items) !in names
    ensures 0 < |params.path| <= |items| && params.path == items[|items| - |params.path|..] && params.fullPath == Join(items)
    ensures Splits(names, items, params, k)
  {
    var fullPath := Join(items);
    assert items[..|items|] == items;
    if |items| == 1 {
      k := 0;
      return CreateParams(items, fullPath, None, None), 0;
    }
    var path, createPath := items, [];
    var parentId, parentName := None, None;
    while path != []
      invariant |path| <= |items| && path == items[..|path|] && createPath == items[|path|..]
      invariant forall j :: |path| < j <= |items| ==> PathTo(items, j) !in names
      invariant parentId.None? && parentName.None?
      decreases |path|
    {
      var mailboxName := Join(path);
      if mailboxName in names {
        parentId, parentName := Some(names[mailboxName]), Some(mailboxName);
        break;
      }
      createPath := [path[|path| - 1]] + createPath;
      path := path[..|path| - 1];
    }
    k := |path|;
    params := CreateParams(createPath, fullPath, parentId, parentName);
  }

  method PathItems(name: string) returns (items: seq<string>, problem: Option<Problem>)
    ensures ItemsOf(name) != [] && problem == NameProblem(ItemsOf(name))
    ensures problem.None? ==> items == ItemsOf(name) && AreItems(items) && |items| <= MAX_MAILBOX_DEPTH
  {
    var stripped := Stripped(name);
    if stripped == "" {
      return [], Some(InvalidName);
    }
    items := [stripped];
    if HasSlash(stripped) {
      var split := SplitPath(stripped);
      SplitAtSlash(stripped);
      if split.None? {
        return [], Some(EmptyItem);
      }
      items := split.value;
      if |items| > MAX_MAILBOX_DEPTH {
        return [], Some(TooDeep);
      }
    }
    forall i | 0 <= i < |items|
      ensures items[i] != "" && !HasSlash(items[i])
    {
      ItemsHaveNoSlash(name, i);
    }
    problem := None;
  }

  method ValidateMailboxCreate(names: map<string, Id>, name: string, folderAll: string, folderShared: string)
    returns (result: Validation, ghost k: nat)
    requires folderAll != folderShared
    ensures result.Accepted? ==>
      AreItems(ItemsOf(name)) && |ItemsOf(name)| <= 10 && ItemsOf(name)[0] !in {folderAll, folderShared}
      && Splits(names, ItemsOf(name), result.params, k)
    ensures ItemsOf(name) != [] && (result.OtherAccount? <==> NameProblem(ItemsOf(name)).None? && ItemsOf(name)[0] == folderShared)
    ensures !result.OtherAccount? ==>
      match ProblemOf(ItemsOf(name), names, folderAll)
      case Some(p) => result == Rejected(p)
      case None => result.Accepted?
  {
    k := 0;
    var items, problem := PathItems(name);
    if problem.Some? {
      return Rejected(problem.value), 0;
    }
    if items[0] == folderAll {
      return Rejected(VirtualFolder), 0;
    } else if items[0] == folderShared {
      return OtherAccount, 0;
    }
    if Join(items) in names {
      return Rejected(AlreadyExists), 0;
    }
    var params;
    params, k := FindParent(names, items);
    result := Accepted(params);
  }
}
