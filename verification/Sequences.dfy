/** Facts about concatenation that the verifier needs spelled out. */
module Sequences {
  lemma Associative<T>(a: seq<T>, b: seq<T>, c: seq<T>)
    ensures a + (b + c) == a + b + c
  {
  }

  lemma Append3<T>(a: seq<T>, b: seq<T>, c: seq<T>, d: seq<T>)
    ensures a + (b + c + d) == a + b + c + d
  {
  }

  lemma EmptyLeft<T>(a: seq<T>)
    ensures [] + a == a
  {
  }

  lemma EmptyRight<T>(a: seq<T>)
    ensures a + [] == a
  {
  }

  lemma InSplit<T>(a: seq<T>, k: nat, x: T)
    requires k <= |a|
    ensures x in a <==> x in a[..k] || x in a[k..]
  {
    assert a == a[..k] + a[k..];
  }

  predicate NoDuplicates<T(==)>(s: seq<T>) {
    forall i, j :: 0 <= i < j < |s| ==> s[i] != s[j]
  }

  /** `text` stands in `a` at position `from`. */
  predicate At<T(==)>(a: seq<T>, from: nat, text: seq<T>) {
    from + |text| <= |a| && a[from..from + |text|] == text
  }

  lemma AtIndex<T>(a: seq<T>, from: nat, text: seq<T>, i: nat)
    requires At(a, from, text) && i < |text|
    ensures a[from + i] == text[i]
  {
    assert a[from..from + |text|][i] == a[from + i];
  }

  lemma AtConcat<T>(a: seq<T>, from: nat, left: seq<T>, right: seq<T>)
    requires At(a, from, left + right)
    ensures At(a, from, left) && At(a, from + |left|, right)
  {
    assert (left + right)[..|left|] == left && (left + right)[|left|..] == right;
    assert a[from..from + |left|] == a[from..from + |left + right|][..|left|];
    assert a[from + |left|..from + |left| + |right|] == a[from..from + |left + right|][|left|..];
  }

  lemma AtAfter<T>(a: seq<T>, from: nat, whole: seq<T>, left: seq<T>, right: seq<T>, next: nat)
    requires At(a, from, whole) && whole == left + right && next == from + |left|
    ensures At(a, next, right) && next + |right| == from + |whole|
  {
    AtConcat(a, from, left, right);
  }

  lemma AtStart<T>(a: seq<T>)
    ensures At(a, 0, a)
  {
  }
}
