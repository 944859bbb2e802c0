/** A dictionary that keeps a list of values for each key. The dictionary is a map from key
    to the key's list; the class mutates it in place, and the functions below state what
    each operation leaves behind. */
module Multimap {

  // ---------------------------------------------------------------------------
  // The lists as values
  // ---------------------------------------------------------------------------

  /** The list of key k, or an empty list when k is absent. */
  function ValuesOf<K, V>(m: map<K, seq<V>>, k: K): seq<V>
  {
    if k in m then m[k] else []
  }

  /** The number of values over all keys. */
  ghost function TotalCount<K, V>(m: map<K, seq<V>>): nat
    decreases |m|
  {
    if m == map[] then 0
    else
      var k :| k in m;
      |m[k]| + TotalCount(m - {k})
  }

  /** Every key's list may be counted first. */
  lemma {:induction false} TotalCountRemove<K, V>(m: map<K, seq<V>>, k: K)
    requires k in m
    ensures TotalCount(m) == |m[k]| + TotalCount(m - {k})
    decreases |m|
  {
    var k' :| k' in m && TotalCount(m) == |m[k']| + TotalCount(m - {k'});
    if k' != k {
      TotalCountRemove(m - {k'}, k);
      TotalCountRemove(m - {k}, k');
      assert m - {k'} - {k} == m - {k} - {k'};
    }
  }

  /** Replacing the list of k changes the count by the difference in length. */
  lemma TotalCountUpdate<K, V>(m: map<K, seq<V>>, k: K, l: seq<V>)
    ensures TotalCount(m[k := l]) + |ValuesOf(m, k)| == TotalCount(m) + |l|
  {
    TotalCountRemove(m[k := l], k);
    assert m[k := l] - {k} == m - {k};
    if k in m {
      TotalCountRemove(m, k);
    } else {
      assert m - {k} == m;
    }
  }

  /** Removing the first occurrence of v; the list is unchanged when v is not in it. */
  function RemoveFirst<V(==)>(s: seq<V>, v: V): (r: seq<V>)
    ensures v in s ==> |r| == |s| - 1 && multiset(r) == multiset(s) - multiset{v}
    ensures v !in s ==> r == s
  {
    if s == [] then []
    else
      assert s == [s[0]] + s[1..];
      if s[0] == v then s[1..]
      else [s[0]] + RemoveFirst(s[1..], v)
  }

  /** List.Remove takes out the first occurrence of v and keeps the other values in order. */
  lemma {:induction false} RemoveFirstAt<V>(s: seq<V>, v: V)
    requires v in s
    ensures exists i :: 0 <= i < |s| && s[i] == v && v !in s[..i] && RemoveFirst(s, v) == s[..i] + s[i + 1..]
  {
    if s[0] == v {
      assert s[..0] == [] && RemoveFirst(s, v) == s[..0] + s[1..];
    } else {
      var t := s[1..];
      assert v in t by { assert s == [s[0]] + t; }
      RemoveFirstAt(t, v);
      var j :| 0 <= j < |t| && t[j] == v && v !in t[..j] && RemoveFirst(t, v) == t[..j] + t[j + 1..];
      ConsAt(s, j);
      assert RemoveFirst(s, v) == [s[0]] + RemoveFirst(t, v);
      assert s[j + 1] == v;
    }
  }

  /** Cutting a list one place further on, when its head is kept in front. */
  lemma ConsAt<V>(s: seq<V>, j: nat)
    requires j + 1 < |s|
    ensures s[..j + 1] == [s[0]] + s[1..][..j]
    ensures s[j + 2..] == s[1..][j + 1..]
    ensures [s[0]] + (s[1..][..j] + s[1..][j + 1..]) == s[..j + 1] + s[j + 2..]
  {
  }

  /** The list of k after Add(k, v). */
  function AddTo<K, V>(m: map<K, seq<V>>, k: K, v: V): map<K, seq<V>>
  {
    m[k := ValuesOf(m, k) + [v]]
  }

  /** The lists after AddRange(k, vs): k is present afterwards even when vs is empty. */
  function AddRangeTo<K, V>(m: map<K, seq<V>>, k: K, vs: seq<V>): map<K, seq<V>>
  {
    m[k := ValuesOf(m, k) + vs]
  }

  /** The lists after RemoveValue(k, v): the first v leaves k's list, and k goes once its
      list is empty. */
  function RemoveFrom<K, V(==)>(m: map<K, seq<V>>, k: K, v: V): map<K, seq<V>>
  {
    if k !in m then m
    else
      var l := RemoveFirst(m[k], v);
      if |l| == 0 then m - {k} else m[k := l]
  }

  /** The lists LoadFromDictionary builds: one single-value list per key. */
  function Singletons<K, V>(d: map<K, V>): map<K, seq<V>>
  {
    map k | k in d :: [d[k]]
  }

  // ---------------------------------------------------------------------------
  // What the operations do to the lists
  // ---------------------------------------------------------------------------

  /** Add puts v at the end of k's list, one more value in all, and leaves every other key
      as it was. */
  lemma AddToSpec<K, V>(m: map<K, seq<V>>, k: K, v: V, j: K)
    ensures k in AddTo(m, k, v) && ValuesOf(AddTo(m, k, v), k) == ValuesOf(m, k) + [v]
    ensures TotalCount(AddTo(m, k, v)) == TotalCount(m) + 1
    ensures j != k ==> (j in AddTo(m, k, v) <==> j in m) && ValuesOf(AddTo(m, k, v), j) == ValuesOf(m, j)
  {
    TotalCountUpdate(m, k, ValuesOf(m, k) + [v]);
  }

  /** AddRange is Add of each value in turn, and adds |vs| values in all. */
  lemma {:induction false} AddRangeIsAdds<K, V>(m: map<K, seq<V>>, k: K, vs: seq<V>)
    ensures vs != [] ==> AddRangeTo(m, k, vs) == AddTo(AddRangeTo(m, k, vs[..|vs| - 1]), k, vs[|vs| - 1])
    ensures TotalCount(AddRangeTo(m, k, vs)) == TotalCount(m) + |vs|
  {
    if vs != [] {
      var init := vs[..|vs| - 1];
      assert ValuesOf(m, k) + vs == ValuesOf(m, k) + init + [vs[|vs| - 1]];
    }
    TotalCountUpdate(m, k, ValuesOf(m, k) + vs);
  }

  /** AddRange with no values still creates k, with an empty list. */
  lemma AddRangeNoneCreates<K, V>(m: map<K, seq<V>>, k: K)
    ensures k in AddRangeTo(m, k, []) && ValuesOf(AddRangeTo(m, k, []), k) == ValuesOf(m, k)
    ensures TotalCount(AddRangeTo(m, k, [])) == TotalCount(m)
  {
    AddRangeIsAdds(m, k, []);
    assert ValuesOf(m, k) + [] == ValuesOf(m, k);
  }

  /** RemoveValue takes one v out of k's list when it is there, drops k once its list is
      empty, changes nothing when k is absent, and leaves every other key as it was. */
  lemma RemoveFromSpec<K, V>(m: map<K, seq<V>>, k: K, v: V, j: K)
    ensures k !in m ==> RemoveFrom(m, k, v) == m
    ensures k in m ==> multiset(ValuesOf(RemoveFrom(m, k, v), k)) == multiset(m[k]) - multiset{v}
    ensures k in m && v in m[k] ==>
              exists i :: 0 <= i < |m[k]| && m[k][i] == v && v !in m[k][..i]
                          && ValuesOf(RemoveFrom(m, k, v), k) == m[k][..i] + m[k][i + 1..]
    ensures k in m && v !in m[k] ==> ValuesOf(RemoveFrom(m, k, v), k) == m[k]
    ensures k in RemoveFrom(m, k, v) <==> k in m && RemoveFirst(m[k], v) != []
    ensures TotalCount(RemoveFrom(m, k, v)) == TotalCount(m) - if k in m && v in m[k] then 1 else 0
    ensures j != k ==> (j in RemoveFrom(m, k, v) <==> j in m) && ValuesOf(RemoveFrom(m, k, v), j) == ValuesOf(m, j)
  {
    if k in m {
      var l := RemoveFirst(m[k], v);
      if v in m[k] {
        RemoveFirstAt(m[k], v);
      }
      TotalCountRemove(m, k);
      if |l| == 0 {
        assert multiset(l) == multiset{};
      } else {
        TotalCountUpdate(m, k, l);
      }
    }
  }

  /** Removing a value just added, when k's list did not hold it, gives the lists back. */
  lemma RemoveUndoesAdd<K, V>(m: map<K, seq<V>>, k: K, v: V)
    requires v !in ValuesOf(m, k) && (k in m ==> m[k] != [])
    ensures RemoveFrom(AddTo(m, k, v), k, v) == m
  {
    var l := ValuesOf(m, k);
    RemoveFirstAppend(l, v);
    if k !in m {
      UpdateThenRemove(m, k, [v]);
    } else {
      UpdateTwice(m, k, l + [v]);
    }
  }

  lemma UpdateThenRemove<K, V>(m: map<K, seq<V>>, k: K, l: seq<V>)
    requires k !in m
    ensures m[k := l] - {k} == m
  {
  }

  lemma UpdateTwice<K, V>(m: map<K, seq<V>>, k: K, l: seq<V>)
    requires k in m
    ensures m[k := l][k := m[k]] == m
  {
  }

  /** Removing v from a list that only gains v at its end gives the list back. */
  lemma {:induction false} RemoveFirstAppend<V>(l: seq<V>, v: V)
    requires v !in l
    ensures RemoveFirst(l + [v], v) == l
  {
    if l != [] {
      assert (l + [v])[1..] == l[1..] + [v];
      RemoveFirstAppend(l[1..], v);
    } else {
      assert [] + [v] == [v];
    }
  }

  /** LoadFromDictionary holds one value per key of the dictionary. */
  lemma {:induction false} SingletonsCount<K, V>(d: map<K, V>)
    ensures TotalCount(Singletons(d)) == |d|
    decreases |d|
  {
    if d != map[] {
      var k :| k in d;
      TotalCountRemove(Singletons(d), k);
      assert Singletons(d) - {k} == Singletons(d - {k});
      SingletonsCount(d - {k});
    } else {
      assert Singletons(d) == map[];
    }
  }

  /** One more entry copied by LoadFromDictionary. */
  lemma LoadStep<K, V>(d: map<K, V>, remaining: set<K>, k: K)
    requires k in remaining && remaining <= d.Keys
    ensures Singletons(d - (remaining - {k})) == Singletons(d - remaining)[k := [d[k]]]
  {
  }

  /** The keys of m whose lists are in S. */
  function Restrict<K, V>(m: map<K, seq<V>>, S: set<K>): map<K, seq<V>>
  {
    map k | k in m && k in S :: m[k]
  }

  // ---------------------------------------------------------------------------
  // The class
  // ---------------------------------------------------------------------------

  /** CollectionDictionary: the key-to-list dictionary, mutated in place. */
  class CollectionDictionary<K(==), V(==)> {
    var entries: map<K, seq<V>>

    /** An empty dictionary. */
    constructor ()
      ensures entries == map[]
    {
      entries := map[];
    }

    /** A dictionary with one single-value list per entry of the given dictionary. */
    constructor FromDictionary(dictionary: map<K, V>)
      ensures entries == Singletons(dictionary)
    {
      entries := map[];
      new;
      LoadFromDictionary(dictionary);
      assert map[] + Singletons(dictionary) == Singletons(dictionary);
    }

    /** LoadFromDictionary: adds a single-value list for every entry; Dictionary.Add would
      throw on a key that is already present. */
    method LoadFromDictionary(dictionary: map<K, V>)
      requires entries.Keys !! dictionary.Keys
      modifies this
      ensures entries == old(entries) + Singletons(dictionary)
    {
      var remaining := dictionary.Keys;
      assert dictionary - remaining == map[];
      assert old(entries) + Singletons(map[]) == old(entries);
      while remaining != {}
        invariant remaining <= dictionary.Keys
        invariant entries == old(entries) + Singletons(dictionary - remaining)
        decreases remaining
      {
        var key :| key in remaining;
        LoadStep(dictionary, remaining, key);
        entries := entries[key := [dictionary[key]]];
        remaining := remaining - {key};
      }
      assert dictionary - {} == dictionary;
    }

    /** ValueCount: the number of values over all keys. */
    method ValueCount() returns (count: nat)
      ensures count == TotalCount(entries)
    {
      count := 0;
      var remaining := entries.Keys;
      assert Restrict(entries, remaining) == entries;
      while remaining != {}
        invariant remaining <= entries.Keys
        invariant count + TotalCount(Restrict(entries, remaining)) == TotalCount(entries)
        decreases remaining
      {
        var key :| key in remaining;
        TotalCountRemove(Restrict(entries, remaining), key);
        assert Restrict(entries, remaining) - {key} == Restrict(entries, remaining - {key});
        count := count + |entries[key]|;
        remaining := remaining - {key};
      }
      assert Restrict(entries, {}) == map[];
    }

    /** Add: appends value to the list of key, creating the list when key is absent. */
    method Add(key: K, value: V)
      modifies this
      ensures entries == AddTo(old(entries), key, value)
    {
      if key !in entries {
        entries := entries[key := []];
      }
      entries := entries[key := entries[key] + [value]];
    }

    /** AddRange: appends every value in order, creating the list even when there are
      none. */
    method AddRange(key: K, values: seq<V>)
      modifies this
      ensures entries == AddRangeTo(old(entries), key, values)
    {
      ghost var start := ValuesOf(entries, key);
      if key !in entries {
        entries := entries[key := []];
      }
      assert start + values[..0] == start;
      for i := 0 to |values|
        invariant entries == old(entries)[key := start + values[..i]]
      {
        assert start + values[..i + 1] == start + values[..i] + [values[i]];
        entries := entries[key := entries[key] + [values[i]]];
      }
      assert values[..|values|] == values;
    }

    /** RemoveValue: removes the first occurrence of value from the list of key, and key
      itself once its list is empty; nothing when key is absent. */
    method RemoveValue(key: K, value: V)
      modifies this
      ensures entries == RemoveFrom(old(entries), key, value)
    {
      if key in entries {
        var collection := RemoveFirst(entries[key], value);
        entries := entries[key := collection];
        if |collection| == 0 {
          entries := entries - {key};
        }
      }
    }

    /** ContainsValue: whether any key's list holds value. */
    method ContainsValue(value: V) returns (r: bool)
      ensures r <==> exists k :: k in entries && value in entries[k]
    {
      var remaining := entries.Keys;
      while remaining != {}
        invariant remaining <= entries.Keys
        invariant forall k :: k in entries && k !in remaining ==> value !in entries[k]
        decreases remaining
      {
        var key :| key in remaining;
        if value in entries[key] {
          return true;
        }
        remaining := remaining - {key};
      }
      return false;
    }

    /** GetValuesOrEmpty: the list of key, or an empty list. */
    function GetValuesOrEmpty(key: K): (r: seq<V>)
      reads this
      ensures key in entries ==> r == entries[key]
      ensures key !in entries ==> r == []
    {
      ValuesOf(entries, key)
    }
  }
}
