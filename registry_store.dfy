/** The registry-backed settings store. A setting key such as "View.Window.Left" lives in
    value "Left" of registry key <base>\View\Window of the hive the store was opened on; the
    store reads and writes that hive directly, with no cache. */
module RegistryStore {
  import opened Common
  import opened Text
  import opened Registry
  import opened ValueCodec

  // ---------------------------------------------------------------------------
  // Key paths
  // ---------------------------------------------------------------------------

  /** SplitPath: the registry key and value name a setting key is stored at. Every dot but
      the last separates sub-keys below the base key; what follows the last dot is the
      value name. */
  function SplitPath(key: string, base: string): (string, string)
  {
    var dot := LastIndexOf(key, '.');
    if dot == -1 then (base, key)
    else (base + "\\" + ReplaceChar(key[..dot], '.', '\\'), key[dot + 1..])
  }

  /** The setting key of value n of registry key q below base: SplitPath read backwards. */
  function SettingKey(q: string, n: string, base: string): string
  {
    if |q| <= |base| then n else ReplaceChar(q[|base| + 1..], '\\', '.') + "." + n
  }

  /** Lists a value by its full setting key. */
  function FullName(base: string): Labeller
  {
    (q, n) => SettingKey(q, n, base)
  }

  /** The value name never holds a dot, and the registry key is the base key exactly when
      the setting key has no dot, and lies below it otherwise. */
  lemma SplitPathShape(key: string, base: string)
    ensures '.' !in SplitPath(key, base).1
    ensures SplitPath(key, base).0 == base <==> '.' !in key
    ensures SplitPath(key, base).0 != base ==> IsDescendantOf(base, SplitPath(key, base).0)
  {
  }

  /** A setting key without backslashes is recovered from where SplitPath stores it. */
  lemma SplitPathRoundTrip(key: string, base: string)
    requires '\\' !in key
    ensures SettingKey(SplitPath(key, base).0, SplitPath(key, base).1, base) == key
  {
    var dot := LastIndexOf(key, '.');
    if dot != -1 {
      var s := key[..dot];
      assert '\\' !in s by {
        forall i | 0 <= i < |s| ensures s[i] != '\\' { assert s[i] == key[i]; }
      }
      JoinedRest(base, ReplaceChar(s, '.', '\\'));
      ReplaceCharInverse(s, '.', '\\');
      RejoinAt(key, dot);
    }
  }

  lemma JoinedRest(base: string, rest: string)
    ensures (base + "\\" + rest)[|base| + 1..] == rest
  {
  }

  lemma RejoinAt(key: string, dot: nat)
    requires dot < |key| && key[dot] == '.'
    ensures key[..dot] + "." + key[dot + 1..] == key
  {
    assert key == key[..dot] + [key[dot]] + key[dot + 1..];
  }

  /** Setting keys without backslashes are stored at distinct places. */
  lemma SplitPathInjective(k1: string, k2: string, base: string)
    requires '\\' !in k1 && '\\' !in k2 && SplitPath(k1, base) == SplitPath(k2, base)
    ensures k1 == k2
  {
    SplitPathRoundTrip(k1, base);
    SplitPathRoundTrip(k2, base);
  }

  /** SplitPath finds value n of key q again under its setting key, when neither the value
      name nor the sub-keys below base hold a dot. */
  lemma SettingKeySplits(q: string, n: string, base: string)
    requires '.' !in n
    requires q == base || (IsDescendantOf(base, q) && '.' !in q[|base| + 1..])
    ensures SplitPath(SettingKey(q, n, base), base) == (q, n)
  {
    if q != base {
      var rel := q[|base| + 1..];
      var s := ReplaceChar(rel, '\\', '.');
      var key := s + "." + n;
      assert SettingKey(q, n, base) == key;
      assert key[|s|] == '.' && key[|s| + 1..] == n;
      LastIndexOfAt(key, '.', |s|);
      var dot := |s|;
      assert key[..dot] == s && key[dot + 1..] == n;
      ReplaceCharInverse(rel, '\\', '.');
      DescendantSplit(base, q);
    } else {
      assert SettingKey(q, n, base) == n;
    }
  }

  /** GetParentRegKey: the parent of a registry key and the name of the key within it;
      None for a key without a backslash, or when the parent would be a bare hive name
      such as HKEY_CURRENT_USER. */
  function GetParentRegKey(regKey: string): (r: Option<(string, string)>)
    ensures r.Some? ==> r.value.0 + "\\" + r.value.1 == regKey && '\\' !in r.value.1
  {
    var index := LastIndexOf(regKey, '\\');
    if index == -1 then None
    else
      var parent := regKey[..index];
      if StartsWithIgnoreCase(parent, "HKEY_") && IndexOf(parent, '\\') == -1 then None
      else
        assert regKey == parent + "\\" + regKey[index + 1..];
        Some((parent, regKey[index + 1..]))
  }

  /** A key one segment below a parent that is not a bare hive name has that parent. */
  lemma GetParentRegKeyOf(parent: string, child: string)
    requires '\\' !in child
    requires !StartsWithIgnoreCase(parent, "HKEY_") || '\\' in parent
    ensures GetParentRegKey(parent + "\\" + child) == Some((parent, child))
  {
    var p := parent + "\\" + child;
    assert p[|parent|] == '\\' && p[|parent| + 1..] == child;
    LastIndexOfAt(p, '\\', |parent|);
    assert p[..|parent|] == parent;
  }

  /** A top-level key, and a key right below a bare hive name, have no parent. */
  lemma GetParentRegKeyNone(regKey: string, hiveName: string, child: string)
    ensures '\\' !in regKey ==> GetParentRegKey(regKey).None?
    ensures '\\' !in hiveName && '\\' !in child && StartsWithIgnoreCase(hiveName, "HKEY_")
            ==> GetParentRegKey(hiveName + "\\" + child).None?
  {
    if '\\' !in hiveName && '\\' !in child && StartsWithIgnoreCase(hiveName, "HKEY_") {
      var p := hiveName + "\\" + child;
      assert p[|hiveName|] == '\\' && p[|hiveName| + 1..] == child;
      LastIndexOfAt(p, '\\', |hiveName|);
      assert p[..|hiveName|] == hiveName;
    }
  }

  // ---------------------------------------------------------------------------
  // What the write operations do to the hive
  // ---------------------------------------------------------------------------

  /** The value a setting key reads: Get's result on hive t. */
  function Stored(t: Tree, key: string, base: string): Option<RegValue>
  {
    Lookup(t, SplitPath(key, base).0, SplitPath(key, base).1)
  }

  lemma ParentInTree(t: Tree, p: string, parent: string, child: string)
    requires PrefixClosed(t) && p in t && parent + "\\" + child == p
    ensures parent in t && IsDescendantOf(parent, p)
  {
    assert p[|parent|] == '\\' && p[..|parent|] == parent;
  }

  /** The loop at the end of Remove: from key p upwards, every key left without values and
      sub-keys is deleted, stopping at the base key and at the top of the hive. */
  function PruneFrom(t: Tree, p: string, base: string): Tree
    requires PrefixClosed(t) && p in t
    decreases |p|
  {
    if t[p] != map[] || ChildKeys(t, p) != {} || EqualsIgnoreCase(p, base) then t
    else
      match GetParentRegKey(p)
      case None => t
      case Some((parent, child)) =>
        DeleteChildlessValid(t, p);
        ParentInTree(t, p, parent, child);
        PruneFrom(t - {p}, parent, base)
  }

  /** PruneFrom keeps the hive a tree and deletes only empty keys: p or keys above it, and
      never one that equals the base key. */
  lemma {:induction false} PruneFromSpec(t: Tree, p: string, base: string)
    requires PrefixClosed(t) && p in t
    ensures PrefixClosed(PruneFrom(t, p, base))
    ensures PruneFrom(t, p, base).Keys <= t.Keys
    ensures forall q :: q in PruneFrom(t, p, base) ==> PruneFrom(t, p, base)[q] == t[q]
    ensures forall q :: q in t && q !in PruneFrom(t, p, base) ==>
              t[q] == map[] && (q == p || IsDescendantOf(q, p)) && !EqualsIgnoreCase(q, base)
    decreases |p|
  {
    if t[p] != map[] || ChildKeys(t, p) != {} || EqualsIgnoreCase(p, base) {
    } else {
      match GetParentRegKey(p)
      case None =>
      case Some((parent, child)) =>
        DeleteChildlessValid(t, p);
        ParentInTree(t, p, parent, child);
        var t' := t - {p};
        PruneFromSpec(t', parent, base);
        var r := PruneFrom(t', parent, base);
        assert r == PruneFrom(t, p, base);
        forall q | q in t && q !in r
          ensures t[q] == map[] && (q == p || IsDescendantOf(q, p)) && !EqualsIgnoreCase(q, base)
        {
          if q != p {
            assert q in t' && q !in r;
            if q != parent {
              DescendantTransitive(q, parent, p);
            }
          }
        }
    }
  }

  /** PruneFrom deletes only keys without values, so every value is still found. */
  lemma PruneFromLookup(t: Tree, p: string, base: string, q: string, n: string)
    requires PrefixClosed(t) && p in t
    ensures Lookup(PruneFrom(t, p, base), q, n) == Lookup(t, q, n)
  {
    PruneFromSpec(t, p, base);
  }

  /** A key above parent\child, where child holds no backslash, is parent or above it. */
  lemma AboveParent(q: string, parent: string, child: string)
    requires '\\' !in child && IsDescendantOf(q, parent + "\\" + child)
    ensures q == parent || IsDescendantOf(q, parent)
  {
    var p := parent + "\\" + child;
    assert forall i :: |parent| < i < |p| ==> p[i] == child[i - |parent| - 1];
    assert p[..|parent|] == parent;
    if |q| < |parent| {
      assert parent[..|q|] == p[..|q|];
    }
  }

  /** The pruning loop, run from key p over hive t giving r, has gone as far as it should:
      it stopped at a key s that it kept, at or above p, that still has values or
      sub-keys, is the base key or has no parent; and every key from p up to just below s
      is gone. */
  ghost predicate PrunedUpTo(t: Tree, r: Tree, p: string, s: string, base: string)
  {
    s in r && (s == p || IsDescendantOf(s, p))
    && (r[s] != map[] || ChildKeys(r, s) != {} || EqualsIgnoreCase(s, base) || GetParentRegKey(s).None?)
    && forall q :: q in t && (q == p || IsDescendantOf(q, p)) && IsDescendantOf(s, q) ==> q !in r
  }

  /** PruneFrom deletes every key it should: it only stops where the loop's condition
      fails or the base key or the top of the hive is reached. */
  lemma {:induction false} PruneStops(t: Tree, p: string, base: string)
    requires PrefixClosed(t) && p in t
    ensures exists s :: PrunedUpTo(t, PruneFrom(t, p, base), p, s, base)
    decreases |p|
  {
    if t[p] != map[] || ChildKeys(t, p) != {} || EqualsIgnoreCase(p, base) {
      assert PrunedUpTo(t, PruneFrom(t, p, base), p, p, base);
    } else {
      match GetParentRegKey(p)
      case None =>
        assert PrunedUpTo(t, PruneFrom(t, p, base), p, p, base);
      case Some((parent, child)) =>
        DeleteChildlessValid(t, p);
        ParentInTree(t, p, parent, child);
        var t' := t - {p};
        var r := PruneFrom(t', parent, base);
        assert r == PruneFrom(t, p, base);
        PruneStops(t', parent, base);
        PruneFromSpec(t', parent, base);
        var s :| PrunedUpTo(t', r, parent, s, base);
        if s != parent {
          DescendantTransitive(s, parent, p);
        }
        forall q | q in t && (q == p || IsDescendantOf(q, p)) && IsDescendantOf(s, q)
          ensures q !in r
        {
          if q != p {
            AboveParent(q, parent, child);
          }
        }
        assert PrunedUpTo(t, r, p, s, base);
    }
  }

  /** What Remove does: whether the value existed, and the hive afterwards. */
  function RemoveEffect(t: Tree, key: string, base: string): (bool, Tree)
    requires PrefixClosed(t)
  {
    var (regKey, name) := SplitPath(key, base);
    if regKey !in t || name !in t[regKey] then (false, t)
    else
      DeleteValueLookup(t, regKey, name, regKey, name);
      (true, PruneFrom(DeleteValue(t, regKey, name), regKey, base))
  }

  /** Remove reports whether the setting was set; afterwards it is not, every other value
      is unchanged, the hive is still a tree and the base key still exists. */
  lemma RemoveSpec(t: Tree, key: string, base: string)
    requires PrefixClosed(t)
    ensures RemoveEffect(t, key, base).0 == Stored(t, key, base).Some?
    ensures PrefixClosed(RemoveEffect(t, key, base).1)
    ensures Stored(RemoveEffect(t, key, base).1, key, base) == None
    ensures forall q, n :: (q, n) != SplitPath(key, base) ==>
              Lookup(RemoveEffect(t, key, base).1, q, n) == Lookup(t, q, n)
    ensures base in t ==> base in RemoveEffect(t, key, base).1
    ensures Stored(t, key, base).Some? ==>
              exists s :: PrunedUpTo(t, RemoveEffect(t, key, base).1, SplitPath(key, base).0, s, base)
  {
    var (regKey, name) := SplitPath(key, base);
    if regKey in t && name in t[regKey] {
      var d := DeleteValue(t, regKey, name);
      DeleteValueLookup(t, regKey, name, regKey, name);
      PruneFromSpec(d, regKey, base);
      var r := PruneFrom(d, regKey, base);
      assert r == RemoveEffect(t, key, base).1;
      forall q, n ensures Lookup(r, q, n) == Lookup(d, q, n) {
        PruneFromLookup(d, regKey, base, q, n);
      }
      forall q, n | (q, n) != (regKey, name) ensures Lookup(r, q, n) == Lookup(t, q, n) {
        DeleteValueLookup(t, regKey, name, q, n);
      }
      if base in t && base !in r {
        EqualsIgnoreCaseReflexive(base);
      }
      PruneStops(d, regKey, base);
      var s :| PrunedUpTo(d, r, regKey, s, base);
      assert PrunedUpTo(t, r, regKey, s, base);
    }
  }

  /** A setting key without backslashes reads nothing after Remove, and every other such
      key reads what it read before. */
  lemma StoredAfterRemove(t: Tree, key: string, other: string, base: string)
    requires PrefixClosed(t) && '\\' !in key && '\\' !in other
    ensures Stored(RemoveEffect(t, key, base).1, other, base)
            == if other == key then None else Stored(t, other, base)
  {
    RemoveSpec(t, key, base);
    if other != key && SplitPath(other, base) == SplitPath(key, base) {
      SplitPathInjective(other, key, base);
    }
  }

  /** What Set writes for a value it accepts: the registry value at the setting's place. */
  function SetEffect(t: Tree, key: string, base: string, raw: RegValue): Tree
  {
    SetValue(t, SplitPath(key, base).0, SplitPath(key, base).1, raw)
  }

  /** What Set does to the hive, or the exception it throws: None removes the setting. */
  function SetOutcome(t: Tree, key: string, base: string, newValue: Option<SettingValue>): Result<Tree>
    requires PrefixClosed(t)
  {
    match newValue
    case None => Ok(RemoveEffect(t, key, base).1)
    case Some(v) =>
      match EncodeValue(v)
      case Ok(raw) => Ok(SetEffect(t, key, base, raw))
      case Err(e) => Err(e)
  }

  /** After Set a setting key without backslashes reads the written value and every other
      such key reads what it read before. */
  lemma StoredAfterSet(t: Tree, key: string, other: string, base: string, raw: RegValue)
    requires '\\' !in key && '\\' !in other
    ensures Stored(SetEffect(t, key, base, raw), other, base)
            == if other == key then Some(raw) else Stored(t, other, base)
  {
    var (q, n) := SplitPath(other, base);
    SetValueLookup(t, SplitPath(key, base).0, SplitPath(key, base).1, raw, q, n);
    if other != key && SplitPath(other, base) == SplitPath(key, base) {
      SplitPathInjective(other, key, base);
    }
  }

  /** Set keeps the hive a tree, whichever way it ends. */
  lemma SetOutcomeValid(t: Tree, key: string, base: string, newValue: Option<SettingValue>)
    requires PrefixClosed(t)
    ensures SetOutcome(t, key, base, newValue).Ok? ==> PrefixClosed(SetOutcome(t, key, base, newValue).value)
  {
    RemoveSpec(t, key, base);
    if newValue.Some? && EncodeValue(newValue.value).Ok? {
      SetValueValid(t, SplitPath(key, base).0, SplitPath(key, base).1, EncodeValue(newValue.value).value);
    }
  }

  /** A value Set accepts is read back by the getter of its type. */
  lemma SetThenRead(t: Tree, key: string, base: string, v: SettingValue)
    requires PrefixClosed(t)
    requires SetOutcome(t, key, base, Some(v)).Ok?
    requires v.NameValues? ==> DistinctKeys(v.pairs)
    ensures ReadAs(v, Stored(SetOutcome(t, key, base, Some(v)).value, key, base)) == Ok(v)
  {
    var raw := EncodeValue(v).value;
    SetValueLookup(t, SplitPath(key, base).0, SplitPath(key, base).1, raw,
                   SplitPath(key, base).0, SplitPath(key, base).1);
    SettingRoundTrip(v);
  }

  /** What Rename does: whether the old key was set, and the hive afterwards. */
  function RenameEffect(t: Tree, oldKey: string, newKey: string, base: string): (bool, Tree)
    requires PrefixClosed(t)
  {
    match Stored(t, oldKey, base)
    case None => (false, t)
    case Some(raw) => (true, SetEffect(RemoveEffect(t, oldKey, base).1, newKey, base, raw))
  }

  lemma LogFour(s: seq<string>, a: string, b: string, c: string, d: string)
    ensures s + [a] + [b] + [c] + [d] == s + [a, b, c, d]
  {
  }

  /** Rename moves the value of the old key to the new key and leaves every other setting
      as it was; when the old key is not set, nothing changes. */
  lemma RenameSpec(t: Tree, oldKey: string, newKey: string, other: string, base: string)
    requires PrefixClosed(t) && '\\' !in oldKey && '\\' !in newKey && '\\' !in other
    ensures RenameEffect(t, oldKey, newKey, base).0 == Stored(t, oldKey, base).Some?
    ensures !RenameEffect(t, oldKey, newKey, base).0 ==> RenameEffect(t, oldKey, newKey, base).1 == t
    ensures RenameEffect(t, oldKey, newKey, base).0 ==>
              Stored(RenameEffect(t, oldKey, newKey, base).1, newKey, base) == Stored(t, oldKey, base)
    ensures RenameEffect(t, oldKey, newKey, base).0 && oldKey != newKey ==>
              Stored(RenameEffect(t, oldKey, newKey, base).1, oldKey, base) == None
    ensures other != oldKey && other != newKey ==>
              Stored(RenameEffect(t, oldKey, newKey, base).1, other, base) == Stored(t, other, base)
  {
    match Stored(t, oldKey, base)
    case None =>
    case Some(raw) =>
      var t1 := RemoveEffect(t, oldKey, base).1;
      StoredAfterRemove(t, oldKey, oldKey, base);
      StoredAfterRemove(t, oldKey, other, base);
      StoredAfterSet(t1, newKey, newKey, base, raw);
      StoredAfterSet(t1, newKey, oldKey, base, raw);
      StoredAfterSet(t1, newKey, other, base, raw);
  }

  // ---------------------------------------------------------------------------
  // What GetKeys lists
  // ---------------------------------------------------------------------------

  /** The labels of every value at or below the base key; nothing when it does not exist. */
  ghost function ListedNames(t: Tree, base: string, labeller: Labeller): multiset<string>
  {
    if base in t then LabelsUnder(t, base, labeller) else multiset{}
  }

  /** No value name below base, and no sub-key name below base, holds a dot: every value
      there has a setting key that leads back to it. */
  ghost predicate Addressable(t: Tree, base: string)
  {
    forall q, n :: q in Subtree(t, base) && n in t[q] ==>
      '.' !in n && (q == base || '.' !in q[|base| + 1..])
  }

  /** Every setting key that reads a value is listed by its full name. */
  lemma StoredKeysAreListed(t: Tree, base: string, key: string)
    requires PrefixClosed(t) && '\\' !in key && Stored(t, key, base).Some?
    ensures key in ListedNames(t, base, FullName(base))
  {
    var (q, n) := SplitPath(key, base);
    SplitPathShape(key, base);
    SplitPathRoundTrip(key, base);
    if q != base {
      assert q[..|base|] == base;
      assert base in t;
    }
    assert q in Subtree(t, base) && n in t[q];
    LabelsInMember(t, Subtree(t, base), FullName(base), key);
    assert key == FullName(base)(q, n);
  }

  /** Every full name listed reads a value, when the keys below base are addressable. */
  lemma ListedKeysAreStored(t: Tree, base: string, key: string)
    requires PrefixClosed(t) && Addressable(t, base)
    requires key in ListedNames(t, base, FullName(base))
    ensures Stored(t, key, base).Some?
  {
    LabelsInMember(t, Subtree(t, base), FullName(base), key);
    var q, n :| q in Subtree(t, base) && n in t[q] && key == FullName(base)(q, n);
    SettingKeySplits(q, n, base);
  }

  /** GetKeys lists each value under its bare name: with setting "a.x" set below base key
      "B", the list is just "x"; "a.x" reads a value but is not listed, and "x" is listed
      but reads nothing. */
  lemma GetKeysListsValueNames()
    ensures var t := map["B" := map[], "B\\a" := map["x" := RegString("1")]];
            ListedNames(t, "B", BareName) == multiset{"x"}
            && Stored(t, "a.x", "B") == Some(RegString("1"))
            && Stored(t, "x", "B") == None
  {
    var t: Tree := map["B" := map[], "B\\a" := map["x" := RegString("1")]];
    assert IsDescendantOf("B", "B\\a");
    assert Subtree(t, "B") == {"B", "B\\a"};
    LabelsInRemove(t, {"B", "B\\a"}, BareName, "B");
    assert {"B", "B\\a"} - {"B"} == {"B\\a"};
    LabelsInRemove(t, {"B\\a"}, BareName, "B\\a");
    assert {"B\\a"} - {"B\\a"} == {};
    LabelsOfBare("B", t["B"].Keys);
    LabelsOfBare("B\\a", t["B\\a"].Keys);
    assert t["B\\a"].Keys == {"x"};
    SplitNestedKey();
  }

  lemma SplitNestedKey()
    ensures SplitPath("a.x", "B") == ("B\\a", "x") && SplitPath("x", "B") == ("B", "x")
  {
    LastIndexOfAt("a.x", '.', 1);
    assert "a.x"[..1] == "a" && "a.x"[2..] == "x";
    ReplaceCharAbsent("a", '.', '\\');
    assert "B" + "\\" + "a" == "B\\a";
  }

  // ---------------------------------------------------------------------------
  // Walking the hive
  // ---------------------------------------------------------------------------

  /** RegistryKey.GetValueNames of key q, each name listed through the labeller. */
  method ListValues(q: string, values: Values, labeller: Labeller) returns (names: seq<string>)
    ensures multiset(names) == LabelsOf(q, values.Keys, labeller)
  {
    names := [];
    var rest := values.Keys;
    while rest != {}
      invariant rest <= values.Keys
      invariant multiset(names) + LabelsOf(q, rest, labeller) == LabelsOf(q, values.Keys, labeller)
      decreases rest
    {
      var n :| n in rest;
      LabelsOfRemove(q, rest, labeller, n);
      names := names + [labeller(q, n)];
      rest := rest - {n};
    }
  }

  /** The sub-keys of a child of p lie below p and leave p out. */
  lemma SubtreeShrinks(t: Tree, p: string, c: string)
    requires p in t && c in ChildKeys(t, p)
    ensures Subtree(t, c) < Subtree(t, p)
  {
    SubtreeOfChild(t, p, c);
    assert p !in Subtree(t, c);
  }

  /** The labels at and below p are p's own labels and those of its sub-keys' subtrees. */
  lemma LabelsUnderSplit(t: Tree, p: string, labeller: Labeller)
    requires PrefixClosed(t) && p in t
    ensures LabelsUnder(t, p, labeller)
            == LabelsOf(p, t[p].Keys, labeller) + LabelsIn(t, Under(t, p, ChildKeys(t, p)), labeller)
  {
    SubtreeSplit(t, p);
    LabelsInRemove(t, Subtree(t, p), labeller, p);
    assert Subtree(t, p) - {p} == Under(t, p, ChildKeys(t, p));
  }

  // ---------------------------------------------------------------------------
  // The store
  // ---------------------------------------------------------------------------

  /** RegistrySettingsStore. */
  class RegistrySettingsStore {
    /** true: HKEY_LOCAL_MACHINE, false: HKEY_CURRENT_USER */
    const isGlobal: bool
    const baseKey: string
    const readOnly: bool
    /** The hive the store was opened on. */
    const hive: Hive
    var isDisposed: bool
    /** The setting keys reported through PropertyChanged, oldest first. */
    ghost var changed: seq<string>

    ghost predicate Valid()
      reads hive
    {
      PrefixClosed(hive.keys)
    }

    /** The hives are the machine's and the user's registry roots. */
    constructor (isGlobal: bool, baseKey: string, readOnly: bool, localMachine: Hive, currentUser: Hive)
      requires PrefixClosed(localMachine.keys) && PrefixClosed(currentUser.keys)
      ensures this.isGlobal == isGlobal && this.baseKey == baseKey && this.readOnly == readOnly
      ensures hive == if isGlobal then localMachine else currentUser
      ensures !isDisposed && changed == [] && Valid()
    {
      this.isGlobal := isGlobal;
      this.baseKey := baseKey;
      this.readOnly := readOnly;
      if isGlobal {
        hive := localMachine;
      } else {
        hive := currentUser;
      }
      isDisposed := false;
      changed := [];
    }

    /** The two-argument constructor: a store that may be written. */
    constructor Writable(isGlobal: bool, baseKey: string, localMachine: Hive, currentUser: Hive)
      requires PrefixClosed(localMachine.keys) && PrefixClosed(currentUser.keys)
      ensures this.isGlobal == isGlobal && this.baseKey == baseKey && !readOnly
      ensures hive == if isGlobal then localMachine else currentUser
      ensures !isDisposed && changed == [] && Valid()
    {
      this.isGlobal := isGlobal;
      this.baseKey := baseKey;
      this.readOnly := false;
      if isGlobal {
        hive := localMachine;
      } else {
        hive := currentUser;
      }
      isDisposed := false;
      changed := [];
    }

    /** Set: stores a value under a setting key; None removes the key. */
    method Set(key: string, newValue: Option<SettingValue>) returns (r: Result<()>)
      requires Valid()
      modifies this, hive
      ensures Valid() && isDisposed == old(isDisposed)
      ensures old(isDisposed) ==> r == Err(Disposed)
      ensures !old(isDisposed) && readOnly ==> r == Err(ReadOnly)
      ensures !old(isDisposed) && !readOnly ==>
                var outcome := SetOutcome(old(hive.keys), key, baseKey, newValue);
                r == (if outcome.Ok? then Ok(()) else Err(outcome.error))
      ensures hive.keys == if r.Ok? then SetOutcome(old(hive.keys), key, baseKey, newValue).value else old(hive.keys)
      ensures changed == old(changed) +
                if r.Ok? && (newValue.Some? || RemoveEffect(old(hive.keys), key, baseKey).0) then [key] else []
    {
      if isDisposed {
        return Err(Disposed);
      }
      if readOnly {
        return Err(ReadOnly);
      }
      if newValue.None? {
        var removed := Remove(key);
        return Ok(());
      }
      var value := newValue.value;
      if value.Unsupported? {
        return Err(UnsupportedType);
      }
      var (regKey, regValue) := SplitPath(key, baseKey);
      var encoded := EncodeValue(value);
      if value.NameValues? {
        var items := EncodeNameValues(value.pairs);
        encoded := Ok(RegMultiString(items[..]));
      }
      if encoded.Err? {
        return Err(encoded.error);
      }
      SetValueValid(hive.keys, regKey, regValue, encoded.value);
      hive.keys := SetValue(hive.keys, regKey, regValue, encoded.value);
      changed := changed + [key];
      return Ok(());
    }

    /** Remove: deletes the value of a setting key, then every key the deletion left without
      values and sub-keys, up to the base key; false when the value did not exist. */
    method Remove(key: string) returns (r: Result<bool>)
      requires Valid()
      modifies this, hive
      ensures Valid() && isDisposed == old(isDisposed)
      ensures r == if old(isDisposed) then Err(Disposed) else if readOnly then Err(ReadOnly)
                   else Ok(RemoveEffect(old(hive.keys), key, baseKey).0)
      ensures hive.keys == if r.Ok? then RemoveEffect(old(hive.keys), key, baseKey).1 else old(hive.keys)
      ensures changed == old(changed) + if r == Ok(true) then [key] else []
    {
      if isDisposed {
        return Err(Disposed);
      }
      if readOnly {
        return Err(ReadOnly);
      }
      var (regKey, regValue) := SplitPath(key, baseKey);
      if regKey !in hive.keys {
        return Ok(false);
      }
      if regValue !in hive.keys[regKey] {
        return Ok(false);
      }
      ghost var effect := RemoveEffect(hive.keys, key, baseKey).1;
      DeleteValueLookup(hive.keys, regKey, regValue, regKey, regValue);
      hive.keys := DeleteValue(hive.keys, regKey, regValue);
      changed := changed + [key];
      PruneEmptied(regKey);
      assert hive.keys == effect;
      return Ok(true);
    }

    /** The loop at the end of Remove: deletes every key left without values and sub-keys,
        from registry key start upwards, stopping at the base key and at the top of the hive. */
    method PruneEmptied(start: string)
      requires Valid() && start in hive.keys
      modifies hive
      ensures Valid() && hive.keys == PruneFrom(old(hive.keys), start, baseKey)
    {
      ghost var target := PruneFrom(hive.keys, start, baseKey);
      var p := start;
      while hive.keys[p] == map[] && ChildKeys(hive.keys, p) == {}
        modifies hive
        invariant PrefixClosed(hive.keys) && p in hive.keys
        invariant PruneFrom(hive.keys, p, baseKey) == target
        decreases |p|
      {
        if EqualsIgnoreCase(p, baseKey) {
          break;
        }
        var parent := GetParentRegKey(p);
        if parent.None? {
          break;
        }
        var (parentKey, childKey) := parent.value;
        DeleteChildlessValid(hive.keys, p);
        ParentInTree(hive.keys, p, parentKey, childKey);
        hive.keys := hive.keys - {parentKey + "\\" + childKey};
        p := parentKey;
      }
    }

    /** Rename: moves the value of one setting key to another; false when the old key is
      not set. */
    method Rename(oldKey: string, newKey: string) returns (r: Result<bool>)
      requires Valid()
      modifies this, hive
      ensures Valid() && isDisposed == old(isDisposed)
      ensures r == if old(isDisposed) then Err(Disposed) else if readOnly then Err(ReadOnly)
                   else Ok(RenameEffect(old(hive.keys), oldKey, newKey, baseKey).0)
      ensures hive.keys == if r.Ok? then RenameEffect(old(hive.keys), oldKey, newKey, baseKey).1 else old(hive.keys)
      ensures changed == old(changed) + if r == Ok(true) then [oldKey, oldKey, newKey, newKey] else []
    {
      if isDisposed {
        return Err(Disposed);
      }
      if readOnly {
        return Err(ReadOnly);
      }
      var data := Get(oldKey);
      if data.value.None? {
        return Ok(false);
      }
      var raw := data.value.value;
      ghost var start := changed;
      RemoveSpec(hive.keys, oldKey, baseKey);
      var removed := Remove(oldKey);
      changed := changed + [oldKey];
      FromRawRoundTrip(raw);
      var written := Set(newKey, Some(FromRaw(raw)));
      changed := changed + [newKey];
      LogFour(start, oldKey, oldKey, newKey, newKey);
      return Ok(true);
    }

    /** Get: the raw registry value of a setting key, None when it is not set. */
    method Get(key: string) returns (r: Result<Option<RegValue>>)
      ensures r == if isDisposed then Err(Disposed) else Ok(Stored(hive.keys, key, baseKey))
    {
      if isDisposed {
        return Err(Disposed);
      }
      var (regKey, regValue) := SplitPath(key, baseKey);
      if regKey !in hive.keys {
        return Ok(None);
      }
      if regValue !in hive.keys[regKey] {
        return Ok(None);
      }
      return Ok(Some(hive.keys[regKey][regValue]));
    }

    method GetBool(key: string, fallback: bool) returns (r: Result<bool>)
      ensures r == if isDisposed then Err(Disposed) else Ok(BoolFrom(Stored(hive.keys, key, baseKey), fallback))
    {
      var data := Get(key);
      if data.Err? {
        return Err(data.error);
      }
      return Ok(BoolFrom(data.value, fallback));
    }

    method GetBoolArray(key: string) returns (r: Result<seq<bool>>)
      ensures r == if isDisposed then Err(Disposed) else Ok(BoolArrayFrom(Stored(hive.keys, key, baseKey)))
    {
      var data := Get(key);
      if data.Err? {
        return Err(data.error);
      }
      return Ok(BoolArrayFrom(data.value));
    }

    method GetInt(key: string, fallback: int32) returns (r: Result<int32>)
      ensures r == if isDisposed then Err(Disposed) else IntFrom(Stored(hive.keys, key, baseKey), fallback)
    {
      var data := Get(key);
      if data.Err? {
        return Err(data.error);
      }
      return IntFrom(data.value, fallback);
    }

    method GetIntArray(key: string) returns (r: Result<seq<int32>>)
      ensures r == if isDisposed then Err(Disposed) else IntArrayFrom(Stored(hive.keys, key, baseKey))
    {
      var data := Get(key);
      if data.Err? {
        return Err(data.error);
      }
      return IntArrayFrom(data.value);
    }

    method GetLong(key: string, fallback: int64) returns (r: Result<int64>)
      ensures r == if isDisposed then Err(Disposed) else LongFrom(Stored(hive.keys, key, baseKey), fallback)
    {
      var data := Get(key);
      if data.Err? {
        return Err(data.error);
      }
      return LongFrom(data.value, fallback);
    }

    method GetLongArray(key: string) returns (r: Result<seq<int64>>)
      ensures r == if isDisposed then Err(Disposed) else LongArrayFrom(Stored(hive.keys, key, baseKey))
    {
      var data := Get(key);
      if data.Err? {
        return Err(data.error);
      }
      return LongArrayFrom(data.value);
    }

    method GetString(key: string, fallback: string) returns (r: Result<string>)
      ensures r == if isDisposed then Err(Disposed) else Ok(StringFrom(Stored(hive.keys, key, baseKey), fallback))
    {
      var data := Get(key);
      if data.Err? {
        return Err(data.error);
      }
      return Ok(StringFrom(data.value, fallback));
    }

    method GetStringArray(key: string) returns (r: Result<seq<string>>)
      ensures r == if isDisposed then Err(Disposed) else Ok(StringArrayFrom(Stored(hive.keys, key, baseKey)))
    {
      var data := Get(key);
      if data.Err? {
        return Err(data.error);
      }
      return Ok(StringArrayFrom(data.value));
    }

    /** GetTimeSpan: the tick count GetLong reads, with the fallback's ticks. */
    method GetTimeSpan(key: string, fallback: int64) returns (r: Result<int64>)
      ensures r == if isDisposed then Err(Disposed) else LongFrom(Stored(hive.keys, key, baseKey), fallback)
    {
      r := GetLong(key, fallback);
    }

    /** GetTimeSpanArray: the tick counts, read as GetLongArray reads them. */
    method GetTimeSpanArray(key: string) returns (r: Result<seq<int64>>)
      ensures r == if isDisposed then Err(Disposed) else LongArrayFrom(Stored(hive.keys, key, baseKey))
    {
      r := GetLongArray(key);
    }

    /** GetInt and GetLong as their doc comments describe them: the fallback also for a
        value of an incompatible type or range. */
    method GetNumberOrFallback(key: string, fallback: int, w: Width) returns (r: Result<int>)
      requires Fits(fallback, w)
      ensures r == if isDisposed then Err(Disposed) else Ok(NumberOrFallback(Stored(hive.keys, key, baseKey), fallback, w))
    {
      var data := Get(key);
      if data.Err? {
        return Err(data.error);
      }
      if data.value.None? {
        return Ok(fallback);
      }
      var converted := ConvertNumber(data.value.value, w);
      if converted.Err? {
        return Ok(fallback);
      }
      return Ok(converted.value);
    }

    /** GetIntArray and GetLongArray as their doc comments describe them: an empty array
        also for text that does not convert piece by piece. */
    method GetNumbersOrEmpty(key: string, w: Width) returns (r: Result<seq<int>>)
      ensures r == if isDisposed then Err(Disposed) else Ok(NumbersOrEmpty(Stored(hive.keys, key, baseKey), w))
    {
      var data := Get(key);
      if data.Err? {
        return Err(data.error);
      }
      if data.value.None? {
        return Ok([]);
      }
      var parsed := ParseNumbers(Pieces(data.value.value), w);
      if parsed.Err? {
        return Ok([]);
      }
      return Ok(parsed.value);
    }

    method GetNameValueCollection(key: string) returns (r: Result<NameValueCollection>)
      ensures r == if isDisposed then Err(Disposed) else Ok(NameValuesFrom(Stored(hive.keys, key, baseKey)))
    {
      var data := Get(key);
      if data.Err? {
        return Err(data.error);
      }
      match data.value
      case Some(RegMultiString(items)) =>
        var collection := DecodeNameValues(items);
        return Ok(collection);
      case _ =>
        return Ok([]);
    }

    /** GetValuesRecursive: appends the values of key p and of every key below it, each
      listed through the labeller. */
    method GetValuesRecursive(p: string, keys: seq<string>, labeller: Labeller) returns (r: seq<string>)
      requires Valid() && p in hive.keys
      ensures multiset(r) == multiset(keys) + LabelsUnder(hive.keys, p, labeller)
      decreases Subtree(hive.keys, p)
    {
      ghost var t := hive.keys;
      var names := ListValues(p, hive.keys[p], labeller);
      r := keys + names;
      var subKeys := ChildKeys(hive.keys, p);
      ghost var done: set<string> := {};
      while subKeys != {}
        invariant subKeys !! done && subKeys + done == ChildKeys(t, p)
        invariant multiset(r) == multiset(keys) + LabelsOf(p, t[p].Keys, labeller)
                                 + LabelsIn(t, Under(t, p, done), labeller)
        decreases subKeys
      {
        var c :| c in subKeys;
        SubtreeShrinks(t, p, c);
        r := GetValuesRecursive(c, r, labeller);
        LabelsUnderAdd(t, p, done, c, labeller);
        done := done + {c};
        subKeys := subKeys - {c};
      }
      LabelsUnderSplit(t, p, labeller);
    }

    /** GetKeys: the value names at and below the base key, in case-insensitive order. */
    method GetKeys() returns (r: Result<seq<string>>)
      requires Valid()
      ensures r.Err? <==> isDisposed
      ensures r.Err? ==> r.error == Disposed
      ensures r.Ok? ==> SortedIgnoreCase(r.value) && multiset(r.value) == ListedNames(hive.keys, baseKey, BareName)
    {
      if isDisposed {
        return Err(Disposed);
      }
      var keys: seq<string> := [];
      if baseKey in hive.keys {
        keys := GetValuesRecursive(baseKey, keys, BareName);
      }
      SortIgnoreCaseCorrect(keys);
      return Ok(SortIgnoreCase(keys));
    }

    /** GetKeys as intended: the full setting keys at and below the base key, in
      case-insensitive order. */
    method GetSettingKeys() returns (r: Result<seq<string>>)
      requires Valid()
      ensures r.Err? <==> isDisposed
      ensures r.Err? ==> r.error == Disposed
      ensures r.Ok? ==> SortedIgnoreCase(r.value) && multiset(r.value) == ListedNames(hive.keys, baseKey, FullName(baseKey))
    {
      if isDisposed {
        return Err(Disposed);
      }
      var keys: seq<string> := [];
      if baseKey in hive.keys {
        keys := GetValuesRecursive(baseKey, keys, FullName(baseKey));
      }
      SortIgnoreCaseCorrect(keys);
      return Ok(SortIgnoreCase(keys));
    }

    /** Dispose: marks the store disposed; every later operation throws. Repeating it
      changes nothing more. */
    method Dispose()
      modifies this
      ensures isDisposed && changed == old(changed)
    {
      if !isDisposed {
        isDisposed := true;
      }
    }
  }
}
