/** Python dictionaries with string keys, as the comparator uses them: lookups
    plus insertion order, which decides iteration order and hence which entry a
    "first match, then break" loop picks. */
module OrderedDicts {
  import opened Wrappers

  /** `keys` lists the keys in insertion order; `entries` maps each to its value. */
  datatype Dict<V> = Dict(keys: seq<string>, entries: map<string, V>) {

    ghost predicate Valid() {
      && (forall i, j :: 0 <= i < j < |keys| ==> keys[i] != keys[j])
      && (forall k :: k in entries <==> k in keys)
    }

    /** Python `d[k] = v`: an existing key keeps its position and gets the new
        value; a new key is placed last. */
    function Put(k: string, v: V): Dict<V> {
      if k in entries then Dict(keys, entries[k := v])
      else Dict(keys + [k], entries[k := v])
    }
  }

  function Empty<V>(): (d: Dict<V>)
    ensures d.Valid() && d.keys == [] && d.entries == map[]
  {
    Dict([], map[])
  }

  /** `Put` keeps the dictionary well formed, binds `k` to `v` and leaves
      every other binding and the relative order of old keys alone. */
  lemma PutValid<V>(d: Dict<V>, k: string, v: V)
    requires d.Valid()
    ensures d.Put(k, v).Valid()
    ensures d.Put(k, v).entries == d.entries[k := v]
    ensures k in d.entries ==> d.Put(k, v).keys == d.keys
    ensures k !in d.entries ==> d.Put(k, v).keys == d.keys + [k]
  {
  }

  /** The items stored one after another, as a loop that does `d[k] = v` for
      each present item `(k, v)` and skips absent ones. */
  function PutAll<V>(d: Dict<V>, items: seq<Option<(string, V)>>): Dict<V>
    decreases |items|
  {
    if items == [] then d
    else
      var before := PutAll(d, items[..|items| - 1]);
      var last := items[|items| - 1];
      if last.Some? then before.Put(last.value.0, last.value.1) else before
  }

  /** Storing one more item is one more `Put`, or nothing for an absent item. */
  lemma PutAllSnoc<V>(d: Dict<V>, items: seq<Option<(string, V)>>, x: Option<(string, V)>)
    ensures PutAll(d, items + [x]) == if x.Some? then PutAll(d, items).Put(x.value.0, x.value.1) else PutAll(d, items)
  {
    assert (items + [x])[..|items|] == items;
  }

  /** Item `n` is present and has key `k`. */
  ghost predicate HasKey<V>(items: seq<Option<(string, V)>>, n: int, k: string) {
    0 <= n < |items| && items[n].Some? && items[n].value.0 == k
  }

  /** Index `n` holds the last item of `items` whose key is `k`. */
  ghost predicate LastAt<V>(items: seq<Option<(string, V)>>, k: string, n: int) {
    && HasKey(items, n, k)
    && forall m :: n < m < |items| ==> !HasKey(items, m, k)
  }

  /** Index `n` holds the first item of `items` whose key is `k`. */
  ghost predicate FirstAt<V>(items: seq<Option<(string, V)>>, k: string, n: int) {
    && HasKey(items, n, k)
    && forall m :: 0 <= m < n ==> !HasKey(items, m, k)
  }

  /** Storing items keeps the dictionary well formed, and a key is bound
      afterwards exactly when it was bound before or some item carries it. */
  lemma {:induction false} PutAllKeys<V>(d: Dict<V>, items: seq<Option<(string, V)>>)
    requires d.Valid()
    ensures PutAll(d, items).Valid()
    ensures forall k :: k in PutAll(d, items).entries <==>
      (k in d.entries || exists n :: HasKey(items, n, k))
    decreases |items|
  {
    if items != [] {
      var init := items[..|items| - 1];
      var last := items[|items| - 1];
      PutAllKeys(d, init);
      if last.Some? {
        PutValid(PutAll(d, init), last.value.0, last.value.1);
      }
      forall k | k in PutAll(d, items).entries
        ensures k in d.entries || exists n :: HasKey(items, n, k)
      {
        if !(last.Some? && k == last.value.0) && k !in d.entries {
          assert k in PutAll(d, init).entries;
          var n :| HasKey(init, n, k);
          assert items[n] == init[n];
          assert HasKey(items, n, k);
        } else if last.Some? && k == last.value.0 {
          assert HasKey(items, |items| - 1, k);
        }
      }
      forall k | exists n :: HasKey(items, n, k)
        ensures k in PutAll(d, items).entries
      {
        var n :| HasKey(items, n, k);
        if n < |init| {
          assert items[n] == init[n];
          assert HasKey(init, n, k);
        }
      }
    }
  }

  /** Storing items keeps a dictionary well formed. */
  lemma PutAllValid<V>(d: Dict<V>, items: seq<Option<(string, V)>>)
    requires d.Valid()
    ensures PutAll(d, items).Valid()
  {
    PutAllKeys(d, items);
  }

  /** The last item with a given key decides its value (later entries overwrite earlier ones). */
  lemma {:induction false} PutAllLastWins<V>(d: Dict<V>, items: seq<Option<(string, V)>>, k: string, n: int)
    requires LastAt(items, k, n)
    ensures k in PutAll(d, items).entries && PutAll(d, items).entries[k] == items[n].value.1
    decreases |items|
  {
    var init := items[..|items| - 1];
    if n < |items| - 1 {
      forall m | n < m < |init| ensures !HasKey(init, m, k) {
        assert init[m] == items[m];
        assert !HasKey(items, m, k);
      }
      assert init[n] == items[n];
      assert LastAt(init, k, n);
      PutAllLastWins(d, init, k, n);
      assert !HasKey(items, |items| - 1, k);
    }
  }

  /** A key that no item carries keeps its old binding, or stays unbound. */
  lemma {:induction false} PutAllUntouched<V>(d: Dict<V>, items: seq<Option<(string, V)>>, k: string)
    requires forall n :: !HasKey(items, n, k)
    ensures k in PutAll(d, items).entries <==> k in d.entries
    ensures k in d.entries ==> PutAll(d, items).entries[k] == d.entries[k]
    decreases |items|
  {
    if items != [] {
      var init := items[..|items| - 1];
      forall n ensures !HasKey(init, n, k) {
        if 0 <= n < |init| {
          assert init[n] == items[n];
        }
        assert !HasKey(items, n, k);
      }
      PutAllUntouched(d, init, k);
      assert !HasKey(items, |items| - 1, k);
    }
  }

  /** Item `j` is absent or carries key `ks[j]`, for distinct keys `ks`: the
      items of a loop that visits each key of a dictionary once. */
  ghost predicate Aligned<V>(items: seq<Option<(string, V)>>, ks: seq<string>) {
    && |items| == |ks|
    && (forall j :: 0 <= j < |ks| && items[j].Some? ==> items[j].value.0 == ks[j])
    && (forall i, j :: 0 <= i < j < |ks| ==> ks[i] != ks[j])
  }

  /** With aligned items, key `ks[n]` ends up bound exactly when it was bound
      before or item `n` is present, and then item `n` gives its value. */
  lemma PutAllAt<V>(d: Dict<V>, items: seq<Option<(string, V)>>, ks: seq<string>, n: nat)
    requires d.Valid() && Aligned(items, ks) && n < |ks|
    ensures ks[n] in PutAll(d, items).entries <==> ks[n] in d.entries || items[n].Some?
    ensures items[n].Some? ==> PutAll(d, items).entries[ks[n]] == items[n].value.1
  {
    PutAllKeys(d, items);
    var k := ks[n];
    if exists m :: HasKey(items, m, k) {
      var m :| HasKey(items, m, k);
      assert ks[m] == k;
      assert m == n;
    }
    if items[n].Some? {
      assert HasKey(items, n, k);
      forall m | n < m < |items| ensures !HasKey(items, m, k) {
        assert ks[m] != ks[n];
      }
      PutAllLastWins(d, items, k, n);
    }
  }

  /** With aligned items, a key outside `ks` keeps its old status. */
  lemma PutAllOutside<V>(d: Dict<V>, items: seq<Option<(string, V)>>, ks: seq<string>, k: string)
    requires d.Valid() && Aligned(items, ks) && k !in ks
    ensures k in PutAll(d, items).entries <==> k in d.entries
  {
    assert forall n :: !HasKey(items, n, k);
    PutAllUntouched(d, items, k);
  }

  /** Starting from an empty dictionary, keys are listed in the order of
      their first insertion: overwriting never moves a key. */
  lemma {:induction false} PutAllInsertionOrder<V>(items: seq<Option<(string, V)>>, i: int, j: int, p: int, q: int)
    requires 0 <= i < j < |PutAll(Empty(), items).keys|
    requires FirstAt(items, PutAll(Empty(), items).keys[i], p)
    requires FirstAt(items, PutAll(Empty(), items).keys[j], q)
    ensures p < q
    decreases |items|
  {
    var init := items[..|items| - 1];
    var last := items[|items| - 1];
    var before := PutAll(Empty(), init);
    var after := PutAll(Empty(), items);
    PutAllKeys(Empty(), init);
    var ki, kj := after.keys[i], after.keys[j];
    if last.None? || last.value.0 in before.entries {
      if last.Some? {
        PutValid(before, last.value.0, last.value.1);
      }
      assert after.keys == before.keys;
      ReFirst(init, items, ki, i, p);
      ReFirst(init, items, kj, j, q);
      PutAllInsertionOrder(init, i, j, p, q);
    } else {
      PutValid(before, last.value.0, last.value.1);
      assert after.keys == before.keys + [last.value.0];
      if j == |after.keys| - 1 {
        assert kj == last.value.0;
        forall m | 0 <= m < |init| ensures !HasKey(items, m, kj) {
          assert !HasKey(init, m, kj);
        }
        assert q == |items| - 1;
      } else {
        assert before.keys[i] == ki && before.keys[j] == kj;
        ReFirst(init, items, ki, i, p);
        ReFirst(init, items, kj, j, q);
        PutAllInsertionOrder(init, i, j, p, q);
      }
    }
  }

  /** A key listed after storing `init` from empty first occurs in `init`, at
      the same place where it first occurs in the extension `items`. */
  lemma ReFirst<V>(init: seq<Option<(string, V)>>, items: seq<Option<(string, V)>>, k: string, i: int, p: int)
    requires |items| >= 1 && init == items[..|items| - 1]
    requires 0 <= i < |PutAll(Empty(), init).keys| && PutAll(Empty(), init).keys[i] == k
    requires FirstAt(items, k, p)
    ensures FirstAt(init, k, p)
  {
    PutAllKeys(Empty(), init);
    assert k in PutAll(Empty(), init).entries;
    var n :| HasKey(init, n, k);
    assert HasKey(items, n, k);
    assert p <= n;
    forall m | 0 <= m < p ensures !HasKey(init, m, k) {
      assert !HasKey(items, m, k);
    }
  }
}
