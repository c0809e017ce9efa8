/** An ordered map from byte strings to byte strings with atomic operations, and the typed facts
    that its entries stand for. */
module Database {
  import opened Wrappers
  import opened Sequences
  import opened Decimal
  import opened Keys

  /** A stored value: a 32-bit number, an id or state, or a UID with the time of its deletion. */
  datatype Value = Num(n: nat) | Name(id: Bytes) | Stamp(uid: nat, time: nat) {
    predicate Valid() {
      match this
      case Num(n) => n <= MAX_U32
      case Name(id) => IsId(id)
      case Stamp(uid, time) => uid <= MAX_U32 && time < 0x1_0000_0000_0000_0000
    }
  }

  function BigEndian64(n: nat): (bytes: Bytes)
    requires n < 0x1_0000_0000_0000_0000
    ensures |bytes| == 8
  {
    BigEndian(n / 0x1_0000_0000) + BigEndian(n % 0x1_0000_0000)
  }

  function FromBigEndian64(bytes: Bytes): nat
    requires |bytes| == 8
  {
    FromBigEndian(bytes[..4]) * 0x1_0000_0000 + FromBigEndian(bytes[4..])
  }

  lemma BigEndian64RoundTrip(n: nat)
    requires n < 0x1_0000_0000_0000_0000
    ensures FromBigEndian64(BigEndian64(n)) == n
  {
    var high, low := n / 0x1_0000_0000, n % 0x1_0000_0000;
    assert BigEndian64(n)[..4] == BigEndian(high) && BigEndian64(n)[4..] == BigEndian(low);
    BigEndianRoundTrip(high);
    BigEndianRoundTrip(low);
  }

  function EncodeValue(v: Value): Bytes
    requires v.Valid()
  {
    match v
    case Num(n) => BigEndian(n)
    case Name(id) => id
    case Stamp(uid, time) => BigEndian(uid) + BigEndian64(time)
  }

  predicate Fits(k: Key, v: Value) {
    && v.Valid()
    && match k
       case UidToJmap(_, _) => v.Name?
       case ModseqToState(_, _) => v.Name?
       case DeletedId(_, _) => v.Stamp?
       case _ => v.Num?
  }

  type Table = map<Key, Value>

  /** The entries are the encoded facts of the table, no more and no less. */
  ghost predicate Represents(entries: map<Bytes, Bytes>, table: Table) {
    && (forall k :: k in table ==> k.Valid() && Fits(k, table[k]) && Encode(k) in entries && entries[Encode(k)] == EncodeValue(table[k]))
    && (forall b {:trigger IsKeyOf(table, b)} :: b in entries ==> IsKeyOf(table, b))
  }

  ghost predicate IsKeyOf(table: Table, b: Bytes) {
    exists k :: k in table && k.Valid() && Encode(k) == b
  }

  lemma FactOf(entries: map<Bytes, Bytes>, table: Table, b: Bytes) returns (k: Key)
    requires Represents(entries, table) && b in entries
    ensures k in table && k.Valid() && Encode(k) == b
  {
    assert IsKeyOf(table, b);
    k :| k in table && k.Valid() && Encode(k) == b;
  }

  lemma PutRepresents(entries: map<Bytes, Bytes>, table: Table, k: Key, v: Value)
    requires Represents(entries, table) && k.Valid() && Fits(k, v)
    ensures Represents(entries[Encode(k) := EncodeValue(v)], table[k := v])
  {
    var entries', table' := entries[Encode(k) := EncodeValue(v)], table[k := v];
    forall l | l in table'
      ensures l.Valid() && Fits(l, table'[l]) && Encode(l) in entries' && entries'[Encode(l)] == EncodeValue(table'[l])
    {
      if l != k && Encode(l) == Encode(k) {
        EncodeInjective(l, k);
      }
    }
    forall b | b in entries'
      ensures IsKeyOf(table', b)
    {
      if b == Encode(k) {
        assert k in table';
      } else {
        var l := FactOf(entries, table, b);
        assert l in table';
      }
    }
  }

  lemma RemoveRepresents(entries: map<Bytes, Bytes>, table: Table, k: Key)
    requires Represents(entries, table) && k.Valid()
    ensures Represents(entries - {Encode(k)}, table - {k})
  {
    var entries', table' := entries - {Encode(k)}, table - {k};
    forall l | l in table'
      ensures l.Valid() && Fits(l, table'[l]) && Encode(l) in entries' && entries'[Encode(l)] == EncodeValue(table'[l])
    {
      if Encode(l) == Encode(k) {
        EncodeInjective(l, k);
      }
    }
    forall b | b in entries'
      ensures IsKeyOf(table', b)
    {
      var l := FactOf(entries, table, b);
      assert l in table';
    }
  }

  lemma EntryIff(entries: map<Bytes, Bytes>, table: Table, k: Key)
    requires Represents(entries, table) && k.Valid()
    ensures Encode(k) in entries <==> k in table
  {
    if Encode(k) in entries {
      var l := FactOf(entries, table, Encode(k));
      EncodeInjective(l, k);
    }
  }

  // ----- The order of keys -----

  lemma {:induction false} BeforeIrreflexive(a: Bytes)
    ensures !Before(a, a)
  {
    if a != [] {
      BeforeIrreflexive(a[1..]);
    }
  }

  lemma {:induction false} BeforeTransitive(a: Bytes, b: Bytes, c: Bytes)
    requires Before(a, b) && Before(b, c)
    ensures Before(a, c)
  {
    if a != [] && a[0] == b[0] && b[0] == c[0] {
      BeforeTransitive(a[1..], b[1..], c[1..]);
    }
  }

  lemma {:induction false} BeforeTotal(a: Bytes, b: Bytes)
    ensures a == b || Before(a, b) || Before(b, a)
  {
    if a != [] && b != [] && a[0] == b[0] {
      BeforeTotal(a[1..], b[1..]);
      assert a == [a[0]] + a[1..] && b == [b[0]] + b[1..];
    }
  }

  lemma {:induction false} LeastKey(keys: set<Bytes>) returns (least: Bytes)
    requires keys != {}
    ensures least in keys && forall k :: k in keys && k != least ==> Before(least, k)
    decreases |keys|
  {
    var k :| k in keys;
    var rest := keys - {k};
    assert forall j :: j in keys ==> j == k || j in rest;
    if rest == {} {
      least := k;
    } else {
      var l := LeastKey(rest);
      BeforeTotal(k, l);
      least := if Before(k, l) then k else l;
      forall j | j in keys && j != least
        ensures Before(least, j)
      {
        if least == k && j != l {
          BeforeTransitive(k, l, j);
        }
      }
    }
  }

  datatype Op = Put(key: Key, value: Value) | Remove(key: Key) {
    predicate Valid() {
      key.Valid() && (Put? ==> Fits(key, value))
    }
  }

  /** A batch on the typed facts: its operations in order. */
  function Apply(table: Table, batch: seq<Op>): Table
    decreases |batch|
  {
    if batch == [] then table
    else
      var before, op := Apply(table, batch[..|batch| - 1]), batch[|batch| - 1];
      if op.Put? then before[op.key := op.value] else before - {op.key}
  }

  /** The facts whose keys are not among `keys`. */
  ghost function Without(table: Table, keys: set<Bytes>): Table {
    map k | k in table && !(k.Valid() && Encode(k) in keys) :: table[k]
  }

  lemma WithoutRepresents(entries: map<Bytes, Bytes>, table: Table, keys: set<Bytes>)
    requires Represents(entries, table)
    ensures Represents(entries - keys, Without(table, keys))
  {
    forall b | b in entries - keys
      ensures IsKeyOf(Without(table, keys), b)
    {
      var k := FactOf(entries, table, b);
      assert k in Without(table, keys);
    }
  }

  class Db {
    var entries: map<Bytes, Bytes>
    ghost var table: Table

    ghost predicate Valid()
      reads this
    {
      Represents(entries, table)
    }

    method Get(k: Key) returns (value: Option<Bytes>)
      requires Valid() && k.Valid()
      ensures k in table ==> table[k].Valid() && value == Some(EncodeValue(table[k]))
      ensures k !in table ==> value == None
    {
      EntryIff(entries, table, k);
      value := if Encode(k) in entries then Some(entries[Encode(k)]) else None;
    }

    /** The value at any key at all. */
    method Find(key: Bytes) returns (value: Option<Bytes>)
      ensures value == if key in entries then Some(entries[key]) else None
    {
      value := if key in entries then Some(entries[key]) else None;
    }

    method Insert(k: Key, v: Value)
      requires Valid() && k.Valid() && Fits(k, v)
      modifies this
      ensures Valid() && table == old(table)[k := v]
    {
      PutRepresents(entries, table, k, v);
      entries := entries[Encode(k) := EncodeValue(v)];
      table := table[k := v];
    }

    method ApplyBatch(batch: seq<Op>)
      requires Valid() && forall i :: 0 <= i < |batch| ==> batch[i].Valid()
      modifies this
      ensures Valid() && table == Apply(old(table), batch)
    {
      for i := 0 to |batch|
        invariant Valid() && table == Apply(old(table), batch[..i])
      {
        var op := batch[i];
        assert batch[..i + 1][..i] == batch[..i];
        if op.Put? {
          PutRepresents(entries, table, op.key, op.value);
          entries := entries[Encode(op.key) := EncodeValue(op.value)];
          table := table[op.key := op.value];
        } else {
          RemoveRepresents(entries, table, op.key);
          entries := entries - {Encode(op.key)};
          table := table - {op.key};
        }
      }
      assert batch[..|batch|] == batch;
    }

    /** A batch that only removes, by key. */
    method RemoveKeys(keys: set<Bytes>)
      requires Valid()
      modifies this
      ensures Valid() && table == Without(old(table), keys) && entries == old(entries) - keys
    {
      WithoutRepresents(entries, table, keys);
      table := Without(table, keys);
      entries := entries - keys;
    }

    /** The keys with a prefix, in byte order. */
    method ScanPrefix(prefix: Bytes) returns (keys: seq<Bytes>)
      ensures forall k :: k in keys <==> k in entries && HasPrefix(k, prefix)
      ensures forall i, j :: 0 <= i < j < |keys| ==> Before(keys[i], keys[j])
    {
      keys := [];
      var rest := set k | k in entries && HasPrefix(k, prefix);
      while rest != {}
        invariant forall k :: k in keys || k in rest <==> k in entries && HasPrefix(k, prefix)
        invariant forall i, j :: 0 <= i < j < |keys| ==> Before(keys[i], keys[j])
        invariant forall i, k :: 0 <= i < |keys| && k in rest ==> Before(keys[i], k)
        decreases |rest|
      {
        ghost var least := LeastKey(rest);
        var k :| k in rest && forall l :: l in rest && l != k ==> Before(k, l);
        keys := keys + [k];
        rest := rest - {k};
      }
    }
  }
}
