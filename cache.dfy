/**
 The generic key/value cache of package `cache`: one object holding a map
 and an entry counter that every write updates in place. Each public call
 is one atomic step; the reader/writer lock that makes it so is not modelled.
 */
module Cache {
  import opened CacheSpec

  /** `ks` lists the keys of `m`, each exactly once, in some order. */
  ghost predicate Enumerates<K, V>(ks: seq<K>, m: map<K, V>)
  {
    && |ks| == |m|
    && (forall i :: 0 <= i < |ks| ==> ks[i] in m)
    && (forall i, j :: 0 <= i < j < |ks| ==> ks[i] != ks[j])
    && (forall k :: k in m ==> k in ks)
  }

  class Cache<K(==), V> {
    /** The stored entries. */
    var m: map<K, V>
    /** The entry counter: one up per `Set`, one down per removal of a present key. */
    var l: int
    /** The zero value of `K`, which fills the unused slots of a `Keys` snapshot. */
    const keyZero: K
    /** The zero value of `V`, which `Get` and `Pop` report for an absent key. */
    const valueZero: V

    /** The counter never falls below the number of keys, so a snapshot of length `l` has room for every key. */
    ghost predicate Valid()
      reads this
    {
      l >= |m|
    }

    /** The object's state as a value. */
    function Abstract(): State<K, V>
      reads this
    {
      State(m, l)
    }

    /** `New`: an empty map and a zero counter. */
    constructor (keyZero: K, valueZero: V)
      ensures Valid()
      ensures Abstract() == Empty()
      ensures this.keyZero == keyZero && this.valueZero == valueZero
    {
      m := map[];
      l := 0;
      this.keyZero := keyZero;
      this.valueZero := valueZero;
    }

    /** `set`: store the entry and count it, whether or not the key was already present. */
    method Insert(key: K, value: V)
      requires Valid()
      modifies this
      ensures Valid()
      ensures m == old(m)[key := value]
      ensures l == old(l) + 1
      ensures Abstract() == Apply(old(Abstract()), Op.Set(key, value))
    {
      m := m[key := value];
      l := l + 1;
    }

    /** `get`: the stored value and `true`, or the zero value and `false` when `key` is absent. */
    method Lookup(key: K) returns (value: V, ok: bool)
      ensures ok <==> key in m
      ensures ok ==> value == m[key]
      ensures !ok ==> value == valueZero
    {
      if key in m {
        value, ok := m[key], true;
      } else {
        value, ok := valueZero, false;
      }
    }

    /** `del`: remove a present key and uncount it; report whether it was present. */
    method Remove(key: K) returns (ok: bool)
      requires Valid()
      modifies this
      ensures Valid()
      ensures ok <==> key in old(m)
      ensures ok ==> m.Keys == old(m).Keys - {key} && l == old(l) - 1
      ensures !ok ==> m == old(m) && l == old(l)
      ensures forall j :: j in m ==> m[j] == old(m)[j]
      ensures Abstract() == Apply(old(Abstract()), Op.Delete(key))
    {
      var _, present := Lookup(key);
      ok := present;
      if ok {
        m := Without(m, key);
        l := l - 1;
      }
    }

    /** `Set`: insert or overwrite; the last write wins and the counter always goes up. */
    method Set(key: K, value: V)
      requires Valid()
      modifies this
      ensures Valid()
      ensures key in m && m[key] == value
      ensures forall j :: j != key ==> (j in m <==> j in old(m))
      ensures forall j :: j != key && j in m ==> m[j] == old(m)[j]
      ensures l == old(l) + 1
      ensures Abstract() == Apply(old(Abstract()), Op.Set(key, value))
    {
      Insert(key, value);
    }

    /** `Get`: a pure read under the shared lock. */
    method Get(key: K) returns (value: V, ok: bool)
      requires Valid()
      ensures ok <==> key in m
      ensures ok ==> value == m[key]
      ensures !ok ==> value == valueZero
      ensures (value, ok) == CacheSpec.Lookup(Abstract(), key, valueZero)
    {
      value, ok := Lookup(key);
    }

    /** `Delete`: remove `key` if present, keeping every other entry. */
    method Delete(key: K) returns (ok: bool)
      requires Valid()
      modifies this
      ensures Valid()
      ensures ok <==> key in old(m)
      ensures key !in m
      ensures forall j :: j != key ==> (j in m <==> j in old(m))
      ensures forall j :: j in m ==> m[j] == old(m)[j]
      ensures l == if ok then old(l) - 1 else old(l)
      ensures !ok ==> m == old(m)
      ensures Abstract() == Apply(old(Abstract()), Op.Delete(key))
    {
      ok := Remove(key);
    }

    /** `Pop`: look up and remove in one step, reporting what `Get` would have reported just before. */
    method Pop(key: K) returns (value: V, ok: bool)
      requires Valid()
      modifies this
      ensures Valid()
      ensures (value, ok) == CacheSpec.Lookup(old(Abstract()), key, valueZero)
      ensures key !in m
      ensures forall j :: j != key ==> (j in m <==> j in old(m))
      ensures forall j :: j in m ==> m[j] == old(m)[j]
      ensures l == if ok then old(l) - 1 else old(l)
      ensures !ok ==> m == old(m)
      ensures Abstract() == Apply(old(Abstract()), Op.Pop(key))
    {
      value, ok := Lookup(key);
      var _ := Remove(key);
    }

    /** `Keys`: a snapshot of length `l` whose first `|m|` slots list the keys once each; the rest hold the zero key. */
    method Keys() returns (keys: seq<K>)
      requires Valid()
      ensures |keys| == l
      ensures Enumerates(keys[..|m|], m)
      ensures forall i :: |m| <= i < |keys| ==> keys[i] == keyZero
    {
      var a := new K[l](_ => keyZero);
      var i := 0;
      var rest := m.Keys;
      while rest != {}
        invariant rest <= m.Keys
        invariant i + |rest| == |m|
        invariant 0 <= i <= a.Length
        invariant forall j :: 0 <= j < i ==> a[j] in m && a[j] !in rest
        invariant forall j, j' :: 0 <= j < j' < i ==> a[j] != a[j']
        invariant forall k :: k in m && k !in rest ==> k in a[..i]
        invariant forall j :: i <= j < a.Length ==> a[j] == keyZero
        decreases |rest|
      {
        var key :| key in rest;
        ghost var listed := a[..i];
        a[i] := key;
        assert a[..i + 1] == listed + [key];
        i := i + 1;
        rest := rest - {key};
      }
      keys := a[..];
      assert keys[..|m|] == a[..i];
    }

    /** `Values`: a snapshot of length `l` whose first `|m|` slots hold one value per key, in the order of `order`. */
    method Values() returns (values: seq<V>, ghost order: seq<K>)
      requires Valid()
      ensures |values| == l
      ensures Enumerates(order, m)
      ensures forall i :: 0 <= i < |order| ==> values[i] == m[order[i]]
      ensures forall i :: |m| <= i < |values| ==> values[i] == valueZero
    {
      var a := new V[l](_ => valueZero);
      var i := 0;
      var rest := m.Keys;
      order := [];
      while rest != {}
        invariant rest <= m.Keys
        invariant i + |rest| == |m|
        invariant 0 <= i <= a.Length
        invariant |order| == i
        invariant forall j :: 0 <= j < i ==> order[j] in m && order[j] !in rest
        invariant forall j, j' :: 0 <= j < j' < i ==> order[j] != order[j']
        invariant forall k :: k in m && k !in rest ==> k in order
        invariant forall j :: 0 <= j < i ==> a[j] == m[order[j]]
        invariant forall j :: i <= j < a.Length ==> a[j] == valueZero
        decreases |rest|
      {
        var key :| key in rest;
        a[i] := m[key];
        order := order + [key];
        i := i + 1;
        rest := rest - {key};
      }
      values := a[..];
    }
  }

  /** `Set` then `Get`, a `Delete` of a missing key, and `Pop` then `Get`, checked against the contracts above. */
  method ScenarioSetGetPop() {
    var c := new Cache<string, int>("", 0);
    c.Set("a", 1);
    var v, ok := c.Get("a");
    assert v == 1 && ok;

    ok := c.Delete("missing");
    assert !ok;

    c.Set("x", 5);
    v, ok := c.Pop("x");
    assert v == 5 && ok;
    v, ok := c.Get("x");
    assert v == 0 && !ok;
  }

  /** Two distinct keys give snapshots of length two. */
  method ScenarioSnapshotLengths() {
    var d := new Cache<string, int>("", 0);
    d.Set("a", 1);
    d.Set("b", 2);
    assert d.m.Keys == {"a", "b"};
    var ks := d.Keys();
    var vs, _ := d.Values();
    assert |ks| == 2 && |vs| == 2;
  }

  /** Overwriting counts twice: the snapshot has a zero-key slot after the one live key. */
  method ScenarioOverwrite() {
    var e := new Cache<string, int>("", 0);
    e.Set("a", 1);
    e.Set("a", 2);
    var ks := e.Keys();
    assert |e.m| == 1;
    assert |ks| == 2 && ks[1] == "";
  }
}
