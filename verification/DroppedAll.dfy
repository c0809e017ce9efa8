/** What becomes of a filter when ALL is dropped from every level of it. */
module DroppedAll {
  import opened Wrappers
  import opened Sequences
  import opened SearchFilter

  function Drop(f: Filter): Filter
    decreases f, 1
  {
    if f.Leaf? then f else Operator(f.operator, DropEach(f.filters))
  }

  function DropEach(filters: seq<Filter>): seq<Filter>
    decreases filters, 0
  {
    if filters == [] then []
    else if filters[0] == Leaf(All) then DropEach(filters[1..])
    else [Drop(filters[0])] + DropEach(filters[1..])
  }

  // ----- Levels -----

  /** All filters of a level have the value: that is AND, or, for false, NOT and the opposite of OR. */
  ghost predicate AllAre(filters: seq<Filter>, value: bool, v: iset<Key>) {
    filters == [] || (Holds(filters[0], v) == value && AllAre(filters[1..], value, v))
  }

  lemma {:induction false} LevelsAreAll(filters: seq<Filter>, v: iset<Key>)
    ensures AllHold(filters, v) <==> AllAre(filters, true, v)
    ensures SomeHold(filters, v) <==> !AllAre(filters, false, v)
  {
    if filters != [] {
      LevelsAreAll(filters[1..], v);
    }
  }

  lemma OperatorHolds(operator: Operator, filters: seq<Filter>, v: iset<Key>)
    ensures Holds(Operator(operator, filters), v) == (AllAre(filters, operator == And, v) != (operator == Or))
  {
    LevelsAreAll(filters, v);
  }

  // ----- Constants -----

  /** The value that a filter has whatever its keys are, if folding constants finds one. */
  function Fold(f: Filter): Option<bool>
    decreases f, 1
  {
    match f
    case Leaf(key) => if key.All? then Some(true) else None
    case Operator(operator, filters) =>
      var level :- FoldLevel(filters, operator == And);
      Some(level != (operator == Or))
  }

  /** The same for "all filters of the level have the value". */
  function FoldLevel(filters: seq<Filter>, value: bool): Option<bool>
    decreases filters, 0
  {
    if filters == [] then Some(true)
    else
      var first, rest := Fold(filters[0]), FoldLevel(filters[1..], value);
      if first == Some(!value) || rest == Some(false) then Some(false)
      else if first == Some(value) then rest
      else None
  }

  lemma {:induction false} FoldIsSound(f: Filter, v: iset<Key>)
    requires All in v
    ensures Fold(f).Some? ==> Holds(f, v) == Fold(f).value
    decreases f, 1
  {
    if f.Operator? {
      FoldLevelIsSound(f.filters, f.operator == And, v);
      OperatorHolds(f.operator, f.filters, v);
    }
  }

  lemma {:induction false} FoldLevelIsSound(filters: seq<Filter>, value: bool, v: iset<Key>)
    requires All in v
    ensures FoldLevel(filters, value).Some? ==> AllAre(filters, value, v) == FoldLevel(filters, value).value
    decreases filters, 0
  {
    if filters != [] {
      FoldIsSound(filters[0], v);
      FoldLevelIsSound(filters[1..], value, v);
    }
  }

  // ----- Where dropping ALL does no harm -----

  /** A level is unharmed if it comes to a constant false before and after, or else if each of its
      other filters is unharmed; an ALL that counts would make OR and NOT constant. */
  predicate Unharmed(f: Filter)
    decreases f, 1
  {
    f.Leaf? || LevelUnharmed(f.filters, f.operator == And)
  }

  predicate LevelUnharmed(filters: seq<Filter>, value: bool)
    decreases filters, 0
  {
    if filters == [] then true
    else if FoldLevel(filters, value) == Some(false) || FoldLevel(DropEach(filters), value) == Some(false) then
      FoldLevel(filters, value) == FoldLevel(DropEach(filters), value)
    else (filters[0] == Leaf(All) || Unharmed(filters[0])) && LevelUnharmed(filters[1..], value)
  }

  lemma {:induction false} UnharmedKeepsMeaning(f: Filter, v: iset<Key>)
    requires All in v && Unharmed(f)
    ensures Holds(Drop(f), v) <==> Holds(f, v)
    decreases f, 1
  {
    if f.Operator? {
      LevelKeepsMeaning(f.filters, f.operator == And, v);
      OperatorHolds(f.operator, f.filters, v);
      OperatorHolds(f.operator, DropEach(f.filters), v);
    }
  }

  lemma {:induction false} LevelKeepsMeaning(filters: seq<Filter>, value: bool, v: iset<Key>)
    requires All in v && LevelUnharmed(filters, value)
    ensures AllAre(DropEach(filters), value, v) <==> AllAre(filters, value, v)
    decreases filters, 0
  {
    FoldLevelIsSound(filters, value, v);
    FoldLevelIsSound(DropEach(filters), value, v);
    if filters != [] && FoldLevel(filters, value) != Some(false) && FoldLevel(DropEach(filters), value) != Some(false) {
      LevelKeepsMeaning(filters[1..], value, v);
      if filters[0] == Leaf(All) {
        assert Fold(filters[0]) == Some(true);
      } else {
        UnharmedKeepsMeaning(filters[0], v);
        DroppedHead(filters, value, v);
      }
    }
  }

  lemma DroppedHead(filters: seq<Filter>, value: bool, v: iset<Key>)
    requires filters != [] && filters[0] != Leaf(All)
    ensures AllAre(DropEach(filters), value, v) <==> Holds(Drop(filters[0]), v) == value && AllAre(DropEach(filters[1..]), value, v)
  {
    assert DropEach(filters)[1..] == DropEach(filters[1..]);
  }

  // ----- Independent keys -----

  /** The keys of a filter other than ALL. */
  ghost function KeysOf(f: Filter): iset<Key>
    decreases f, 1
  {
    match f
    case Leaf(key) => if key.All? then iset{} else iset{key}
    case Operator(_, filters) => KeysOfEach(filters)
  }

  ghost function KeysOfEach(filters: seq<Filter>): iset<Key>
    decreases filters, 0
  {
    if filters == [] then iset{} else KeysOf(filters[0]) + KeysOfEach(filters[1..])
  }

  /** No key other than ALL is used twice. */
  ghost predicate Once(f: Filter)
    decreases f, 1
  {
    f.Leaf? || OnceEach(f.filters)
  }

  ghost predicate OnceEach(filters: seq<Filter>)
    decreases filters, 0
  {
    filters == [] || (Once(filters[0]) && OnceEach(filters[1..]) && KeysOf(filters[0]) !! KeysOfEach(filters[1..]))
  }

  lemma {:induction false} DropKeepsKeys(f: Filter)
    ensures KeysOf(Drop(f)) == KeysOf(f) && (Once(f) ==> Once(Drop(f)))
    decreases f, 1
  {
    if f.Operator? {
      DropEachKeepsKeys(f.filters);
    }
  }

  lemma {:induction false} DropEachKeepsKeys(filters: seq<Filter>)
    ensures KeysOfEach(DropEach(filters)) == KeysOfEach(filters) && (OnceEach(filters) ==> OnceEach(DropEach(filters)))
    decreases filters, 0
  {
    if filters != [] {
      DropEachKeepsKeys(filters[1..]);
      if filters[0] != Leaf(All) {
        DropKeepsKeys(filters[0]);
        assert DropEach(filters)[1..] == DropEach(filters[1..]);
      }
    }
  }

  /** Only the keys of a filter matter to it, as long as ALL holds. */
  lemma {:induction false} OnlyKeysMatter(f: Filter, v: iset<Key>, w: iset<Key>)
    requires All in v && All in w && v * KeysOf(f) == w * KeysOf(f)
    ensures Holds(f, v) <==> Holds(f, w)
    decreases f, 1
  {
    match f
    case Leaf(key) =>
      assert !key.All? ==> (key in v <==> key in v * KeysOf(f)) && (key in w <==> key in w * KeysOf(f));
    case Operator(operator, filters) =>
      OnlyTheirKeysMatter(filters, operator == And, v, w);
      OperatorHolds(operator, filters, v);
      OperatorHolds(operator, filters, w);
  }

  lemma {:induction false} OnlyTheirKeysMatter(filters: seq<Filter>, value: bool, v: iset<Key>, w: iset<Key>)
    requires All in v && All in w && v * KeysOfEach(filters) == w * KeysOfEach(filters)
    ensures AllAre(filters, value, v) <==> AllAre(filters, value, w)
    decreases filters, 0
  {
    if filters != [] {
      SmallerOverlap(v, w, KeysOf(filters[0]), KeysOfEach(filters));
      SmallerOverlap(v, w, KeysOfEach(filters[1..]), KeysOfEach(filters));
      OnlyKeysMatter(filters[0], v, w);
      OnlyTheirKeysMatter(filters[1..], value, v, w);
    }
  }

  lemma SmallerOverlap(v: iset<Key>, w: iset<Key>, small: iset<Key>, large: iset<Key>)
    requires small <= large && v * large == w * large
    ensures v * small == w * small
  {
    assert v * small == (v * large) * small;
    assert w * small == (w * large) * small;
  }

  /** The keys in `v`, and ALL. */
  ghost function With(v: iset<Key>): iset<Key> {
    v + iset{All}
  }

  lemma {:induction false} AllIsNoKey(f: Filter)
    ensures All !in KeysOf(f)
    decreases f, 1
  {
    if f.Operator? {
      AllIsNoneOf(f.filters);
    }
  }

  lemma {:induction false} AllIsNoneOf(filters: seq<Filter>)
    ensures All !in KeysOfEach(filters)
    decreases filters, 0
  {
    if filters != [] {
      AllIsNoKey(filters[0]);
      AllIsNoneOf(filters[1..]);
    }
  }

  /** A choice for the first filter and one for the others do not disturb each other. */
  lemma Apart(first: Filter, rest: seq<Filter>, value: bool, u: iset<Key>, w: iset<Key>)
    requires u <= KeysOf(first) && w <= KeysOfEach(rest) && KeysOf(first) !! KeysOfEach(rest)
    ensures Holds(first, With(u + w)) <==> Holds(first, With(u))
    ensures AllAre(rest, value, With(u + w)) <==> AllAre(rest, value, With(w))
  {
    AllIsNoKey(first);
    AllIsNoneOf(rest);
    assert With(u + w) * KeysOf(first) == With(u) * KeysOf(first);
    assert With(u + w) * KeysOfEach(rest) == With(w) * KeysOfEach(rest);
    OnlyKeysMatter(first, With(u + w), With(u));
    OnlyTheirKeysMatter(rest, value, With(u + w), With(w));
  }

  /** With independent keys, a filter that does not fold to a constant can have either value. */
  lemma {:induction false} Choose(f: Filter, value: bool) returns (v: iset<Key>)
    requires Once(f) && Fold(f) != Some(!value)
    ensures v <= KeysOf(f) && Holds(f, With(v)) == value
    decreases f, 1
  {
    match f
    case Leaf(key) => v := if value && !key.All? then iset{key} else iset{};
    case Operator(operator, filters) =>
      v := ChooseLevel(filters, operator == And, value != (operator == Or));
      OperatorHolds(operator, filters, With(v));
  }

  lemma {:induction false} ChooseLevel(filters: seq<Filter>, value: bool, outcome: bool) returns (v: iset<Key>)
    requires OnceEach(filters) && FoldLevel(filters, value) != Some(!outcome)
    ensures v <= KeysOfEach(filters) && AllAre(filters, value, With(v)) == outcome
    decreases filters, 0
  {
    if filters == [] {
      v := iset{};
    } else if outcome {
      var u := Choose(filters[0], value);
      var w := ChooseLevel(filters[1..], value, true);
      v := u + w;
      Apart(filters[0], filters[1..], value, u, w);
    } else if Fold(filters[0]) != Some(value) {
      v := Choose(filters[0], !value);
    } else {
      v := ChooseLevel(filters[1..], value, false);
    }
  }

  // ----- The condition is exact -----

  /** With independent keys, harm always shows. */
  lemma {:induction false} HarmShows(f: Filter) returns (v: iset<Key>)
    requires Once(f) && !Unharmed(f)
    ensures v <= KeysOf(f) && Holds(Drop(f), With(v)) != Holds(f, With(v))
    decreases f, 1
  {
    v := LevelHarmShows(f.filters, f.operator == And);
    OperatorHolds(f.operator, f.filters, With(v));
    OperatorHolds(f.operator, DropEach(f.filters), With(v));
  }

  lemma {:induction false} LevelHarmShows(filters: seq<Filter>, value: bool) returns (v: iset<Key>)
    requires OnceEach(filters) && !LevelUnharmed(filters, value)
    ensures v <= KeysOfEach(filters) && AllAre(DropEach(filters), value, With(v)) != AllAre(filters, value, With(v))
    decreases filters, 0
  {
    var dropped := DropEach(filters);
    DropEachKeepsKeys(filters);
    if FoldLevel(filters, value) == Some(false) {
      v := ChooseLevel(dropped, value, true);
      FoldLevelIsSound(filters, value, With(v));
    } else if FoldLevel(dropped, value) == Some(false) {
      v := ChooseLevel(filters, value, true);
      FoldLevelIsSound(dropped, value, With(v));
    } else if filters[0] == Leaf(All) {
      v := LevelHarmShows(filters[1..], value);
      assert Fold(filters[0]) == Some(true);
    } else {
      v := HeadOrRestShows(filters, value);
    }
  }

  /** The first filter or the others are harmed. What is harmed shows if the rest of the level can be
      made not to matter, before and after; and if it cannot, that shows. */
  lemma {:induction false} HeadOrRestShows(filters: seq<Filter>, value: bool) returns (v: iset<Key>)
    requires filters != [] && filters[0] != Leaf(All) && OnceEach(filters)
    requires FoldLevel(filters, value) != Some(false)
    requires !Unharmed(filters[0]) || !LevelUnharmed(filters[1..], value)
    ensures v <= KeysOfEach(filters) && AllAre(DropEach(filters), value, With(v)) != AllAre(filters, value, With(v))
    decreases filters, 0, 0
  {
    var first, rest := filters[0], filters[1..];
    var u := Choose(first, value);
    var w := ChooseLevel(rest, value, true);
    if Holds(Drop(first), With(u)) == value && AllAre(DropEach(rest), value, With(w)) {
      if !Unharmed(first) {
        u := HarmShows(first);
      } else {
        w := LevelHarmShows(rest, value);
      }
    }
    v := u + w;
    DropKeepsKeys(first);
    DropEachKeepsKeys(rest);
    Apart(first, rest, value, u, w);
    Apart(Drop(first), DropEach(rest), value, u, w);
    DroppedHead(filters, value, With(v));
  }

  /** Dropping ALL keeps the meaning of a filter with independent keys exactly if it is unharmed. */
  lemma DropKeepsMeaningIff(f: Filter)
    requires Once(f)
    ensures (forall v: iset<Key> :: All in v ==> (Holds(Drop(f), v) <==> Holds(f, v))) <==> Unharmed(f)
  {
    forall v: iset<Key> | Unharmed(f) && All in v
      ensures Holds(Drop(f), v) <==> Holds(f, v)
    {
      UnharmedKeepsMeaning(f, v);
    }
    if !Unharmed(f) {
      var v := HarmShows(f);
      assert All in With(v);
    }
  }
}
