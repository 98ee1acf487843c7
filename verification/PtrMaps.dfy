/** The open-addressing table from interned strings to indices: for any hash it agrees with a
    mathematical map, every probe meets an empty slot, and rehashing never rehashes. */
module PtrMaps {
  import opened Arith

  datatype Entry<K> = Free | Used(key: K)

  /** The slot `d` places after `h`, round the end. */
  function Slot(h: nat, d: nat, cap: nat): (i: nat)
    requires cap > 0
    ensures i < cap
  {
    (h + d) % cap
  }

  lemma SlotNext(h: nat, d: nat, cap: nat)
    requires cap > 0
    ensures Slot(h, d + 1, cap) == (Slot(h, d, cap) + 1) % cap
  {
    var q, r := (h + d) / cap, (h + d) % cap;
    assert h + d + 1 == q * cap + (r + 1);
    if r + 1 < cap {
      DivModUnique(h + d + 1, cap, q, r + 1);
      DivModUnique(r + 1, cap, 0, r + 1);
    } else {
      assert (q + 1) * cap == q * cap + cap;
      DivModUnique(h + d + 1, cap, q + 1, 0);
      DivModUnique(cap, cap, 1, 0);
    }
  }

  /** Every slot is some distance less than `cap` after `h`. */
  lemma SlotReached(h: nat, i: nat, cap: nat) returns (d: nat)
    requires i < cap
    ensures d < cap && Slot(h, d, cap) == i
  {
    var q, r := h / cap, h % cap;
    assert h == q * cap + r;
    if r <= i {
      d := i - r;
      DivModUnique(h + d, cap, q, i);
    } else {
      d := cap - r + i;
      assert (q + 1) * cap == q * cap + cap;
      DivModUnique(h + d, cap, q + 1, i);
    }
  }

  // ---------------------------------------------------------------------------
  // Tables
  // ---------------------------------------------------------------------------

  /** The first `d` slots of the probe sequence from `h` are in use. */
  predicate Chain<K>(keys: seq<Entry<K>>, h: nat, d: nat)
    requires |keys| > 0
  {
    forall e :: 0 <= e < d ==> keys[Slot(h, e, |keys|)].Used?
  }

  /** Slot `i` is where `d` steps of probing from `h` lead, all over used slots. */
  predicate ProbesTo<K>(keys: seq<Entry<K>>, h: nat, d: nat, i: nat)
    requires |keys| > 0
  {
    d < |keys| && Slot(h, d, |keys|) == i && Chain(keys, h, d)
  }

  ghost predicate Probed<K>(keys: seq<Entry<K>>, h: nat, i: nat)
    requires |keys| > 0
  {
    exists d :: ProbesTo(keys, h, d, i)
  }

  ghost predicate HasKey<K>(keys: seq<Entry<K>>, k: K) {
    exists i :: 0 <= i < |keys| && keys[i] == Used(k)
  }

  /** No key twice, and each where probing for it passes no free slot. */
  ghost predicate TableOk<K>(keys: seq<Entry<K>>, hash: K -> nat) {
    && |keys| > 0
    && (forall i :: 0 <= i < |keys| && keys[i].Used? ==> Probed(keys, hash(keys[i].key), i))
    && (forall i, j :: 0 <= i < j < |keys| && keys[i].Used? ==> keys[i] != keys[j])
  }

  /** The table holds exactly the map. */
  ghost predicate Agrees<K(!new)>(keys: seq<Entry<K>>, vals: seq<nat>, m: map<K, nat>) {
    && |keys| == |vals|
    && (forall k :: k in m <==> HasKey(keys, k))
    && (forall i :: 0 <= i < |keys| && keys[i].Used? ==> keys[i].key in m && m[keys[i].key] == vals[i])
  }

  function CountUsed<K>(keys: seq<Entry<K>>): (n: nat)
    ensures n <= |keys|
  {
    if keys == [] then 0 else CountUsed(keys[..|keys| - 1]) + if keys[|keys| - 1].Used? then 1 else 0
  }

  lemma {:induction false} FreeSlot<K>(keys: seq<Entry<K>>) returns (i: nat)
    requires CountUsed(keys) < |keys|
    ensures i < |keys| && keys[i].Free?
  {
    if keys[|keys| - 1].Free? {
      i := |keys| - 1;
    } else {
      i := FreeSlot(keys[..|keys| - 1]);
    }
  }

  lemma {:induction false} CountSet<K>(keys: seq<Entry<K>>, i: nat, k: K)
    requires i < |keys|
    ensures CountUsed(keys[i := Used(k)]) == CountUsed(keys) + if keys[i].Free? then 1 else 0
  {
    var n := |keys| - 1;
    if i == n {
      assert keys[i := Used(k)][..n] == keys[..n];
    } else {
      assert keys[i := Used(k)][..n] == keys[..n][i := Used(k)];
      CountSet(keys[..n], i, k);
    }
  }

  lemma {:induction false} CountNone<K>(keys: seq<Entry<K>>)
    requires forall i :: 0 <= i < |keys| ==> keys[i].Free?
    ensures CountUsed(keys) == 0
  {
    if keys != [] {
      CountNone(keys[..|keys| - 1]);
    }
  }

  lemma CountNext<K>(keys: seq<Entry<K>>, i: nat)
    requires i < |keys|
    ensures CountUsed(keys[..i + 1]) == CountUsed(keys[..i]) + if keys[i].Used? then 1 else 0
  {
    assert keys[..i + 1][..i] == keys[..i];
  }

  /** A probe that meets a free slot before the key has shown the key absent. */
  lemma AbsentAt<K>(keys: seq<Entry<K>>, hash: K -> nat, k: K, d: nat, i: nat)
    requires TableOk(keys, hash) && ProbesTo(keys, hash(k), d, i) && keys[i].Free?
    requires forall e :: 0 <= e < d ==> keys[Slot(hash(k), e, |keys|)] != Used(k)
    ensures !HasKey(keys, k)
  {
    hide Slot;
  }

  /** Storing a key where its probe ended keeps the table in order. */
  lemma StoreOk<K>(keys: seq<Entry<K>>, hash: K -> nat, k: K, d: nat, i: nat)
    requires TableOk(keys, hash) && ProbesTo(keys, hash(k), d, i)
    requires keys[i] == Used(k) || (keys[i].Free? && !HasKey(keys, k))
    ensures TableOk(keys[i := Used(k)], hash)
  {
    hide Slot;
    var now := keys[i := Used(k)];
    forall j | 0 <= j < |now| && now[j].Used? ensures Probed(now, hash(now[j].key), j) {
      if j == i {
        assert ProbesTo(now, hash(k), d, i);
      } else {
        assert Probed(keys, hash(keys[j].key), j);
        var d' :| ProbesTo(keys, hash(keys[j].key), d', j);
        assert ProbesTo(now, hash(keys[j].key), d', j);
      }
    }
    forall a, b | 0 <= a < b < |now| && now[a].Used? ensures now[a] != now[b] {
      if keys[i].Free? {
        if a == i {
          assert keys[b] != Used(k);
        } else if b == i {
          assert keys[a] != Used(k);
        }
      }
    }
  }

  lemma StoreAgrees<K(!new)>(keys: seq<Entry<K>>, vals: seq<nat>, m: map<K, nat>, hash: K -> nat, k: K, i: nat, v: nat)
    requires TableOk(keys, hash) && Agrees(keys, vals, m) && i < |keys|
    requires keys[i] == Used(k) || (keys[i].Free? && !HasKey(keys, k))
    ensures Agrees(keys[i := Used(k)], vals[i := v], m[k := v])
  {
    hide Chain, ProbesTo, Slot, Probed;
    var now := keys[i := Used(k)];
    forall x ensures x in m[k := v] <==> HasKey(now, x) {
      if x == k {
        assert now[i] == Used(k);
      } else if HasKey(keys, x) {
        var j :| 0 <= j < |keys| && keys[j] == Used(x);
        assert now[j] == Used(x);
      }
    }
    forall j | 0 <= j < |now| && now[j].Used?
      ensures now[j].key in m[k := v] && m[k := v][now[j].key] == vals[i := v][j]
    {
      if j != i {
        OtherKey(keys, hash, k, i, j);
      }
    }
  }

  lemma OtherKey<K>(keys: seq<Entry<K>>, hash: K -> nat, k: K, i: nat, j: nat)
    requires TableOk(keys, hash) && i < |keys| && j < |keys| && j != i
    requires keys[i] == Used(k) || (keys[i].Free? && !HasKey(keys, k))
    ensures keys[j] != Used(k)
  {
    hide Chain, ProbesTo, Slot, Probed;
  }

  /** The load check leaves a slot free after one more entry in every table of at least four. */
  lemma RoomLeft(cap: nat)
    requires cap > 0
    ensures cap >= 4 <==> forall count: nat :: Loaded(count, cap) || count + 1 < cap
  {
    if cap < 4 {
      assert !Loaded(cap - 1, cap);
    }
  }

  /** The table is three quarters full. */
  predicate Loaded(count: nat, cap: nat) {
    count * 4 >= cap * 3
  }

  class PtrMap<K(==, !new)> {
    const hash: K -> nat
    var keys: array<Entry<K>>
    var vals: array<nat>
    var count: nat
    ghost var contents: map<K, nat>

    ghost predicate Valid()
      reads this, keys, vals
    {
      && keys.Length == vals.Length
      && count == CountUsed(keys[..]) < keys.Length && keys.Length >= 4
      && TableOk(keys[..], hash)
      && Agrees(keys[..], vals[..], contents)
    }

    constructor (h: K -> nat, cap: nat)
      requires cap >= 4
      ensures Valid() && contents == map[] && count == 0 && fresh(keys) && fresh(vals)
      ensures hash == h && keys.Length == cap
    {
      hash := h;
      keys := new Entry<K>[cap](_ => Free);
      vals := new nat[cap];
      count := 0;
      contents := map[];
      new;
      CountNone(keys[..]);
    }

    /** Probe for a key: to its slot, or to the free slot that shows it is not there. */
    method Probe(key: K) returns (i: nat, ghost d: nat)
      requires Valid()
      ensures i < keys.Length && ProbesTo(keys[..], hash(key), d, i) && i == (hash(key) + d) % keys.Length
      ensures keys[i] == Used(key) || (keys[i].Free? && !HasKey(keys[..], key))
    {
      hide Slot, CountUsed, Agrees, TableOk;
      var h, cap := hash(key), keys.Length;
      ghost var z := FreeSlot(keys[..]);
      ghost var dz := SlotReached(h, z, cap);
      i, d := h % cap, 0;
      SlotIs(h, 0, cap);
      while keys[i].Used? && keys[i] != Used(key)
        invariant i < cap && d <= dz && Slot(h, d, cap) == i && Chain(keys[..], h, d)
        invariant forall e :: 0 <= e < d ==> keys[Slot(h, e, cap)] != Used(key)
        decreases dz - d
      {
        SlotNext(h, d, cap);
        i := (i + 1) % cap;
        d := d + 1;
      }
      SlotIs(h, d, cap);
      if keys[i].Free? {
        AbsentAt(keys[..], hash, key, d, i);
      }
    }

    method Get(key: K) returns (found: bool, val: nat)
      requires Valid()
      ensures found <==> key in contents
      ensures found ==> val == contents[key]
    {
      hide TableOk, CountUsed, ProbesTo;
      var i, _ := Probe(key);
      if keys[i].Used? {
        assert HasKey(keys[..], key);
        return true, vals[i];
      }
      return false, 0;
    }

    /** Store a key, the load check having passed. */
    method Store(key: K, val: nat)
      requires Valid() && !Loaded(count, keys.Length)
      modifies this`count, this`contents, keys, vals
      ensures Valid() && contents == old(contents)[key := val]
      ensures count == old(count) + if key in old(contents) then 0 else 1
    {
      hide TableOk, CountUsed, ProbesTo, Agrees;
      ghost var was, wasVals := keys[..], vals[..];
      var i, d := Probe(key);
      StoreOk(was, hash, key, d, i);
      StoreAgrees(was, wasVals, contents, hash, key, i, val);
      CountSet(was, i, key);
      KeyIn(was, wasVals, contents, key, i);
      if keys[i].Free? {
        count := count + 1;
      }
      keys[i] := Used(key);
      vals[i] := val;
      contents := contents[key := val];
      assert keys[..] == was[i := Used(key)] && vals[..] == wasVals[i := val];
    }

    /** Twice the room.  Every entry is stored again without another load check. */
    method Grow()
      requires Valid()
      modifies this`keys, this`vals, this`count, this`contents
      ensures Valid() && contents == old(contents) && count == old(count)
      ensures fresh(keys) && fresh(vals) && keys.Length == 2 * old(keys.Length)
    {
      hide TableOk, CountUsed, Agrees;
      var oldKeys, oldVals := keys, vals;
      ghost var ks, vs, m := keys[..], vals[..], contents;
      var cap := keys.Length;
      keys := new Entry<K>[2 * cap](_ => Free);
      vals := new nat[2 * cap];
      count := 0;
      contents := map[];
      EmptyTable(keys[..], vals[..], hash);
      PrefixNone(ks, vs);
      for i: nat := 0 to cap
        invariant Valid() && fresh(keys) && fresh(vals) && keys.Length == 2 * cap
        invariant oldKeys[..] == ks && oldVals[..] == vs
        invariant count == CountUsed(ks[..i]) && Agrees(ks[..i], vs[..i], contents)
      {
        CountNext(ks, i);
        if oldKeys[i].Used? {
          PrefixNew(ks, vs, hash, contents, i);
          Store(oldKeys[i].key, oldVals[i]);
        } else {
          PrefixFree(ks, vs, contents, i);
        }
      }
      assert ks[..cap] == ks && vs[..cap] == vs;
      SameMap(ks, vs, m, contents);
    }

    /** Store a key, in a table of twice the size if this one is three quarters full. */
    method Put(key: K, val: nat)
      requires Valid()
      modifies this`keys, this`vals, this`count, this`contents, keys, vals
      ensures Valid() && contents == old(contents)[key := val]
      ensures keys.Length == (if old(count) * 4 >= old(keys.Length) * 3 then 2 * old(keys.Length) else old(keys.Length))
      ensures keys == old(keys) || fresh(keys)
      ensures vals == old(vals) || fresh(vals)
      ensures count == old(count) + if key in old(contents) then 0 else 1
    {
      if Loaded(count, keys.Length) {
        Grow();
      }
      Store(key, val);
    }
  }

  lemma SlotIs(h: nat, d: nat, cap: nat)
    requires cap > 0
    ensures Slot(h, d, cap) == (h + d) % cap
  {
  }

  lemma KeyIn<K(!new)>(keys: seq<Entry<K>>, vals: seq<nat>, m: map<K, nat>, k: K, i: nat)
    requires Agrees(keys, vals, m) && i < |keys|
    requires keys[i] == Used(k) || (keys[i].Free? && !HasKey(keys, k))
    ensures k in m <==> keys[i].Used?
  {
    if keys[i] == Used(k) {
      assert HasKey(keys, k);
    }
  }

  lemma EmptyTable<K(!new)>(keys: seq<Entry<K>>, vals: seq<nat>, hash: K -> nat)
    requires |keys| == |vals| > 0 && forall i :: 0 <= i < |keys| ==> keys[i].Free?
    ensures TableOk(keys, hash) && Agrees(keys, vals, map[]) && CountUsed(keys) == 0
  {
    CountNone(keys);
  }

  lemma PrefixNone<K(!new)>(ks: seq<Entry<K>>, vs: seq<nat>)
    ensures ks[..0] == [] && CountUsed(ks[..0]) == 0 && Agrees(ks[..0], vs[..0], map[])
  {
  }

  lemma PrefixFree<K(!new)>(ks: seq<Entry<K>>, vs: seq<nat>, m: map<K, nat>, i: nat)
    requires i < |ks| == |vs| && ks[i].Free? && Agrees(ks[..i], vs[..i], m)
    ensures Agrees(ks[..i + 1], vs[..i + 1], m)
  {
    forall k ensures HasKey(ks[..i + 1], k) <==> HasKey(ks[..i], k) {
      if HasKey(ks[..i], k) {
        var j :| 0 <= j < i && ks[..i][j] == Used(k);
        assert ks[..i + 1][j] == Used(k);
      }
      if HasKey(ks[..i + 1], k) {
        var j :| 0 <= j < i + 1 && ks[..i + 1][j] == Used(k);
        assert ks[..i][j] == Used(k);
      }
    }
  }

  /** The next entry is a new key, and storing it extends the map. */
  lemma PrefixNew<K(!new)>(ks: seq<Entry<K>>, vs: seq<nat>, hash: K -> nat, m: map<K, nat>, i: nat)
    requires i < |ks| == |vs| && ks[i].Used? && Agrees(ks[..i], vs[..i], m) && TableOk(ks, hash)
    ensures ks[i].key !in m && Agrees(ks[..i + 1], vs[..i + 1], m[ks[i].key := vs[i]])
  {
    hide Probed;
    var k := ks[i].key;
    assert forall j :: 0 <= j < i ==> ks[..i][j] == ks[j];
    forall x ensures HasKey(ks[..i + 1], x) <==> HasKey(ks[..i], x) || x == k {
      if HasKey(ks[..i], x) {
        var j :| 0 <= j < i && ks[..i][j] == Used(x);
        assert ks[..i + 1][j] == Used(x);
      }
      if x == k {
        assert ks[..i + 1][i] == Used(x);
      }
      if HasKey(ks[..i + 1], x) && x != k {
        var j :| 0 <= j < i + 1 && ks[..i + 1][j] == Used(x);
        assert ks[..i][j] == Used(x);
      }
    }
  }

  lemma SameMap<K(!new)>(ks: seq<Entry<K>>, vs: seq<nat>, m: map<K, nat>, n: map<K, nat>)
    requires Agrees(ks, vs, m) && Agrees(ks, vs, n)
    ensures m == n
  {
    forall k | k in m ensures k in n && m[k] == n[k] {
      var i :| 0 <= i < |ks| && ks[i] == Used(k);
    }
    assert forall k :: k in n ==> k in m;
  }
}
