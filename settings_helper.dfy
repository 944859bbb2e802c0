/** Extension methods on a settings store: the display name of its location, and removal
    of every key that matches a pattern. */
module SettingsHelper {
  import opened Common
  import opened Text
  import opened Registry
  import opened RegistryStore

  // ---------------------------------------------------------------------------
  // GetLocationDisplayName
  // ---------------------------------------------------------------------------

  /** What GetLocationDisplayName can see of a store. */
  datatype StoreInfo =
    | FileStoreInfo(fileName: string, isReadOnly: bool, isEncrypted: bool)
    | RegistryStoreInfo(isGlobal: bool, baseKey: string, isReadOnly: bool)
    | OtherStore(text: string)   // any other store, by its ToString()

  /** What GetLocationDisplayName sees of a registry store. */
  function InfoOf(store: RegistrySettingsStore): StoreInfo
  {
    RegistryStoreInfo(store.isGlobal, store.baseKey, store.readOnly)
  }

  function HiveName(isGlobal: bool): string
  {
    if isGlobal then "HKEY_LOCAL_MACHINE" else "HKEY_CURRENT_USER"
  }

  /** GetLocationDisplayName: the file name or registry path of a store and its flags;
      ArgumentNullException for a null store. */
  function GetLocationDisplayName(store: Option<StoreInfo>): (r: Result<string>)
    ensures r.Err? <==> store.None?
  {
    match store
    case None => Err(ArgumentNull)
    case Some(FileStoreInfo(fileName, isReadOnly, isEncrypted)) =>
      Ok(fileName + (if isReadOnly then " [RO]" else "") + (if isEncrypted then " [ENC]" else ""))
    case Some(RegistryStoreInfo(isGlobal, baseKey, isReadOnly)) =>
      Ok(HiveName(isGlobal) + "\\" + baseKey + (if isReadOnly then " [RO]" else ""))
    case Some(OtherStore(text)) => Ok(text)
  }

  predicate EndsWith(s: string, suffix: string)
  {
    |suffix| <= |s| && s[|s| - |suffix|..] == suffix
  }

  /** The display name of a registry store tells its hive, base key and read-only flag
      apart, as long as the base key does not itself end in " [RO]". */
  lemma RegistryDisplayNameInjective(g1: bool, b1: string, ro1: bool, g2: bool, b2: string, ro2: bool)
    requires !EndsWith(b1, " [RO]") && !EndsWith(b2, " [RO]")
    requires GetLocationDisplayName(Some(RegistryStoreInfo(g1, b1, ro1)))
             == GetLocationDisplayName(Some(RegistryStoreInfo(g2, b2, ro2)))
    ensures g1 == g2 && b1 == b2 && ro1 == ro2
  {
    var s1 := if ro1 then " [RO]" else "";
    var s2 := if ro2 then " [RO]" else "";
    var d := HiveName(g1) + "\\" + b1 + s1;
    SameHive(g1, b1, s1, g2, b2, s2);
    DisplayNameRest(HiveName(g1), b1, s1);
    DisplayNameRest(HiveName(g1), b2, s2);
    var rest := d[|HiveName(g1)| + 1..];
    assert rest == b1 + s1 == b2 + s2;
    MarkedIff(b1, ro1);
    MarkedIff(b2, ro2);
    assert ro1 == ro2;
    assert b1 == rest[..|rest| - |s1|] == b2;
  }

  /** The " [RO]" mark is there exactly when it was appended to a base key without it. */
  lemma MarkedIff(b: string, ro: bool)
    requires !EndsWith(b, " [RO]")
    ensures EndsWith(b + (if ro then " [RO]" else ""), " [RO]") <==> ro
  {
    if ro {
      var m := b + " [RO]";
      assert m[|m| - 5..] == " [RO]";
    } else {
      assert b + "" == b;
    }
  }

  /** Registry display names of different hives differ already in the hive name. */
  lemma SameHive(g1: bool, b1: string, s1: string, g2: bool, b2: string, s2: string)
    requires HiveName(g1) + "\\" + b1 + s1 == HiveName(g2) + "\\" + b2 + s2
    ensures g1 == g2
  {
    var d1 := HiveName(g1) + "\\" + b1 + s1;
    var d2 := HiveName(g2) + "\\" + b2 + s2;
    assert d1[5] == HiveName(g1)[5];
    assert d2[5] == HiveName(g2)[5];
  }

  lemma DisplayNameRest(h: string, b: string, s: string)
    ensures (h + "\\" + b + s)[|h| + 1..] == b + s
  {
    assert h + "\\" + b + s == (h + "\\") + (b + s);
  }

  /** A read-only store is marked as such; an encrypted file store too. */
  lemma DisplayNameFlags(store: StoreInfo)
    ensures store.RegistryStoreInfo? && store.isReadOnly ==>
              EndsWith(GetLocationDisplayName(Some(store)).value, " [RO]")
    ensures store.FileStoreInfo? && store.isEncrypted ==>
              EndsWith(GetLocationDisplayName(Some(store)).value, " [ENC]")
    ensures store.FileStoreInfo? && store.isReadOnly && !store.isEncrypted ==>
              EndsWith(GetLocationDisplayName(Some(store)).value, " [RO]")
  {
  }

  /** The display name of a registry store marks it read-only, and tells two stores apart
      unless they share hive, base key and read-only flag (for base keys that do not end in
      " [RO]"). */
  lemma StoreDisplayName(s1: RegistrySettingsStore, s2: RegistrySettingsStore)
    requires !EndsWith(s1.baseKey, " [RO]") && !EndsWith(s2.baseKey, " [RO]")
    ensures s1.readOnly ==> EndsWith(GetLocationDisplayName(Some(InfoOf(s1))).value, " [RO]")
    ensures GetLocationDisplayName(Some(InfoOf(s1))) == GetLocationDisplayName(Some(InfoOf(s2))) ==>
              s1.isGlobal == s2.isGlobal && s1.baseKey == s2.baseKey && s1.readOnly == s2.readOnly
  {
    DisplayNameFlags(InfoOf(s1));
    if GetLocationDisplayName(Some(InfoOf(s1))) == GetLocationDisplayName(Some(InfoOf(s2))) {
      RegistryDisplayNameInjective(s1.isGlobal, s1.baseKey, s1.readOnly, s2.isGlobal, s2.baseKey, s2.readOnly);
    }
  }

  // ---------------------------------------------------------------------------
  // RemovePattern
  // ---------------------------------------------------------------------------

  type Outcome = (Result<bool>, Tree, seq<string>)

  /** The loop of RemovePattern, on the hive: each listed key that matches is removed. It
      yields whether any removal found its value (or the exception of the first Remove
      that throws), the hive afterwards and the keys reported changed. */
  function RemoveMatching(t: Tree, keys: seq<string>, isMatch: string -> bool, base: string, readOnly: bool): Outcome
    requires PrefixClosed(t)
    decreases |keys|
  {
    if |keys| == 0 then (Ok(false), t, [])
    else if !isMatch(keys[0]) then RemoveMatching(t, keys[1..], isMatch, base, readOnly)
    else if readOnly then (Err(ReadOnly), t, [])
    else
      RemoveSpec(t, keys[0], base);
      var (found, t1) := RemoveEffect(t, keys[0], base);
      var (rest, t2, log) := RemoveMatching(t1, keys[1..], isMatch, base, readOnly);
      (if rest.Ok? then Ok(found || rest.value) else rest, t2, (if found then [keys[0]] else []) + log)
  }

  /** The outcome of the loop when it resumes with flag anyRemoved and change log c. */
  function Resume(anyRemoved: bool, c: seq<string>, o: Outcome): Outcome
  {
    (if o.0.Ok? then Ok(anyRemoved || o.0.value) else o.0, o.1, c + o.2)
  }

  /** RemoveMatching only ever deletes values and keeps the hive a tree. */
  lemma {:induction false} RemoveMatchingShrinks(t: Tree, keys: seq<string>, isMatch: string -> bool, base: string, readOnly: bool)
    requires PrefixClosed(t)
    ensures PrefixClosed(RemoveMatching(t, keys, isMatch, base, readOnly).1)
    ensures forall q, n :: Lookup(RemoveMatching(t, keys, isMatch, base, readOnly).1, q, n) == None
                        || Lookup(RemoveMatching(t, keys, isMatch, base, readOnly).1, q, n) == Lookup(t, q, n)
    decreases |keys|
  {
    if |keys| > 0 {
      if !isMatch(keys[0]) {
        RemoveMatchingShrinks(t, keys[1..], isMatch, base, readOnly);
      } else if !readOnly {
        RemoveSpec(t, keys[0], base);
        var t1 := RemoveEffect(t, keys[0], base).1;
        RemoveMatchingShrinks(t1, keys[1..], isMatch, base, readOnly);
      }
    }
  }

  /** On a writable store, every listed key that matches reads nothing afterwards. */
  lemma {:induction false} RemoveMatchingClears(t: Tree, keys: seq<string>, isMatch: string -> bool, base: string, k: string)
    requires PrefixClosed(t) && k in keys && isMatch(k)
    ensures Stored(RemoveMatching(t, keys, isMatch, base, false).1, k, base) == None
    decreases |keys|
  {
    if !isMatch(keys[0]) {
      RemoveMatchingClears(t, keys[1..], isMatch, base, k);
    } else {
      RemoveSpec(t, keys[0], base);
      var t1 := RemoveEffect(t, keys[0], base).1;
      if k == keys[0] {
        RemoveMatchingShrinks(t1, keys[1..], isMatch, base, false);
        var fin := RemoveMatching(t1, keys[1..], isMatch, base, false).1;
        assert Lookup(fin, SplitPath(k, base).0, SplitPath(k, base).1) == None
            || Lookup(fin, SplitPath(k, base).0, SplitPath(k, base).1) == Stored(t1, k, base);
      } else {
        assert k in keys[1..];
        RemoveMatchingClears(t1, keys[1..], isMatch, base, k);
      }
    }
  }

  /** A place no matching listed key is stored at keeps its value. */
  lemma {:induction false} RemoveMatchingKeeps(t: Tree, keys: seq<string>, isMatch: string -> bool, base: string, readOnly: bool, q: string, n: string)
    requires PrefixClosed(t)
    requires forall k :: k in keys && isMatch(k) ==> SplitPath(k, base) != (q, n)
    ensures Lookup(RemoveMatching(t, keys, isMatch, base, readOnly).1, q, n) == Lookup(t, q, n)
    decreases |keys|
  {
    if |keys| > 0 {
      assert forall k :: k in keys[1..] ==> k in keys;
      if !isMatch(keys[0]) {
        RemoveMatchingKeeps(t, keys[1..], isMatch, base, readOnly, q, n);
      } else if !readOnly {
        RemoveSpec(t, keys[0], base);
        var t1 := RemoveEffect(t, keys[0], base).1;
        RemoveMatchingKeeps(t1, keys[1..], isMatch, base, readOnly, q, n);
      }
    }
  }

  /** On a writable store the loop ends normally, and reports a removal exactly when some
      matching listed key was set. */
  lemma {:induction false} RemoveMatchingResult(t: Tree, keys: seq<string>, isMatch: string -> bool, base: string)
    requires PrefixClosed(t)
    ensures RemoveMatching(t, keys, isMatch, base, false).0.Ok?
    ensures RemoveMatching(t, keys, isMatch, base, false).0.value <==>
              exists k :: k in keys && isMatch(k) && Stored(t, k, base).Some?
    decreases |keys|
  {
    if |keys| > 0 {
      var k0 := keys[0];
      assert forall k :: k in keys <==> k == k0 || k in keys[1..];
      if !isMatch(k0) {
        RemoveMatchingResult(t, keys[1..], isMatch, base);
      } else {
        RemoveSpec(t, k0, base);
        var (found, t1) := RemoveEffect(t, k0, base);
        RemoveMatchingResult(t1, keys[1..], isMatch, base);
        if !found {
          assert t1 == t;
        } else {
          forall k | k in keys[1..] && isMatch(k) && Stored(t1, k, base).Some?
            ensures Stored(t, k, base).Some?
          {
            RemoveSpec(t, k0, base);
            assert Lookup(t1, SplitPath(k, base).0, SplitPath(k, base).1) == Lookup(t, SplitPath(k, base).0, SplitPath(k, base).1);
          }
        }
      }
    }
  }

  /** On a read-only store the first matching key throws; with none, nothing happens. */
  lemma {:induction false} RemoveMatchingReadOnly(t: Tree, keys: seq<string>, isMatch: string -> bool, base: string)
    requires PrefixClosed(t)
    ensures RemoveMatching(t, keys, isMatch, base, true)
            == if exists k :: k in keys && isMatch(k) then (Err(ReadOnly), t, []) else (Ok(false), t, [])
    decreases |keys|
  {
    if |keys| > 0 {
      assert forall k :: k in keys <==> k == keys[0] || k in keys[1..];
      if !isMatch(keys[0]) {
        RemoveMatchingReadOnly(t, keys[1..], isMatch, base);
      }
    }
  }

  /** RemovePattern: removes every key GetKeys lists that the pattern matches (isMatch
      stands for Regex.IsMatch with the pattern); true if any of them existed. `listed` is
      what GetKeys returned. */
  method RemovePattern(store: RegistrySettingsStore?, isMatch: string -> bool) returns (r: Result<bool>, ghost listed: seq<string>)
    requires store != null ==> store.Valid()
    modifies if store == null then {} else {store, store.hive}
    ensures store == null ==> r == Err(ArgumentNull)
    ensures store != null ==> store.Valid() && store.isDisposed == old(store.isDisposed)
    ensures store != null && old(store.isDisposed) ==>
              r == Err(Disposed) && store.hive.keys == old(store.hive.keys) && store.changed == old(store.changed)
    ensures store != null && !old(store.isDisposed) ==>
              SortedIgnoreCase(listed)
              && multiset(listed) == ListedNames(old(store.hive.keys), store.baseKey, BareName)
              && (r, store.hive.keys, store.changed)
                 == Resume(false, old(store.changed),
                           RemoveMatching(old(store.hive.keys), listed, isMatch, store.baseKey, store.readOnly))
  {
    if store == null {
      return Err(ArgumentNull), [];
    }
    var keys := store.GetKeys();
    if keys.Err? {
      return Err(keys.error), [];
    }
    listed := keys.value;
    r := RemoveEach(store, keys.value, isMatch);
  }

  /** RemovePattern as intended: the same loop over the full setting keys. */
  method RemovePatternFull(store: RegistrySettingsStore?, isMatch: string -> bool) returns (r: Result<bool>, ghost listed: seq<string>)
    requires store != null ==> store.Valid()
    modifies if store == null then {} else {store, store.hive}
    ensures store == null ==> r == Err(ArgumentNull)
    ensures store != null ==> store.Valid() && store.isDisposed == old(store.isDisposed)
    ensures store != null && old(store.isDisposed) ==>
              r == Err(Disposed) && store.hive.keys == old(store.hive.keys) && store.changed == old(store.changed)
    ensures store != null && !old(store.isDisposed) ==>
              SortedIgnoreCase(listed)
              && multiset(listed) == ListedNames(old(store.hive.keys), store.baseKey, FullName(store.baseKey))
              && (r, store.hive.keys, store.changed)
                 == Resume(false, old(store.changed),
                           RemoveMatching(old(store.hive.keys), listed, isMatch, store.baseKey, store.readOnly))
  {
    if store == null {
      return Err(ArgumentNull), [];
    }
    var keys := store.GetSettingKeys();
    if keys.Err? {
      return Err(keys.error), [];
    }
    listed := keys.value;
    r := RemoveEach(store, keys.value, isMatch);
  }

  /** One turn of the loop: a key that does not match is skipped, a matching key throws on
      a read-only store and is removed otherwise. */
  lemma ResumeStep(b: bool, c: seq<string>, t: Tree, keys: seq<string>, i: nat,
                   isMatch: string -> bool, base: string, readOnly: bool)
    requires PrefixClosed(t) && i < |keys|
    ensures !isMatch(keys[i]) ==>
              Resume(b, c, RemoveMatching(t, keys[i..], isMatch, base, readOnly))
              == Resume(b, c, RemoveMatching(t, keys[i + 1..], isMatch, base, readOnly))
    ensures isMatch(keys[i]) && readOnly ==>
              Resume(b, c, RemoveMatching(t, keys[i..], isMatch, base, readOnly)) == (Err(ReadOnly), t, c)
    ensures isMatch(keys[i]) && !readOnly ==>
              var (found, t1) := RemoveEffect(t, keys[i], base);
              PrefixClosed(t1)
              && Resume(b, c, RemoveMatching(t, keys[i..], isMatch, base, readOnly))
                 == Resume(b || found, c + (if found then [keys[i]] else []),
                           RemoveMatching(t1, keys[i + 1..], isMatch, base, readOnly))
  {
    assert keys[i..][0] == keys[i] && keys[i..][1..] == keys[i + 1..];
    assert c + [] == c;
    RemoveSpec(t, keys[i], base);
    if isMatch(keys[i]) && !readOnly {
      var (found, t1) := RemoveEffect(t, keys[i], base);
      var o := RemoveMatching(t1, keys[i + 1..], isMatch, base, readOnly);
      var head := if found then [keys[i]] else [];
      assert c + (head + o.2) == c + head + o.2;
    }
  }

  /** The foreach loop of RemovePattern over the listed keys. */
  method RemoveEach(store: RegistrySettingsStore, keys: seq<string>, isMatch: string -> bool) returns (r: Result<bool>)
    requires store.Valid() && !store.isDisposed
    modifies store, store.hive
    ensures store.Valid() && !store.isDisposed
    ensures (r, store.hive.keys, store.changed)
            == Resume(false, old(store.changed),
                      RemoveMatching(old(store.hive.keys), keys, isMatch, store.baseKey, store.readOnly))
  {
    ghost var target := Resume(false, store.changed,
                               RemoveMatching(store.hive.keys, keys, isMatch, store.baseKey, store.readOnly));
    var anyRemoved := false;
    var i := 0;
    while i < |keys|
      invariant 0 <= i <= |keys|
      invariant store.Valid() && !store.isDisposed
      invariant Resume(anyRemoved, store.changed,
                       RemoveMatching(store.hive.keys, keys[i..], isMatch, store.baseKey, store.readOnly)) == target
    {
      var key := keys[i];
      ResumeStep(anyRemoved, store.changed, store.hive.keys, keys, i, isMatch, store.baseKey, store.readOnly);
      if isMatch(key) {
        var removed := store.Remove(key);
        if removed.Err? {
          return Err(removed.error);
        }
        anyRemoved := anyRemoved || removed.value;
      }
      i := i + 1;
    }
    assert keys[i..] == [] && store.changed + [] == store.changed;
    return Ok(anyRemoved);
  }

  // ---------------------------------------------------------------------------
  // What RemovePattern removes
  // ---------------------------------------------------------------------------

  /** A pattern such as ".*" that matches every key. */
  predicate MatchesAll(k: string)
  {
    true
  }

  /** As written, RemovePattern never removes a nested setting: with "a.x" set below base
      key "B", even a pattern that matches every key sees only the name "x", whose Remove
      finds nothing, so nothing is removed, "a.x" stays set and the result is false. */
  lemma RemovePatternMissesNested(listed: seq<string>)
    requires var t := map["B" := map[], "B\\a" := map["x" := RegString("1")]];
             multiset(listed) == ListedNames(t, "B", BareName)
    ensures var t := map["B" := map[], "B\\a" := map["x" := RegString("1")]];
            PrefixClosed(t)
            && RemoveMatching(t, listed, MatchesAll, "B", false) == (Ok(false), t, [])
            && Stored(t, "a.x", "B").Some?
  {
    GetKeysListsValueNames();
    assert |multiset(listed)| == 1;
    assert "x" in multiset(listed);
    assert listed == ["x"];
    var t: Tree := map["B" := map[], "B\\a" := map["x" := RegString("1")]];
    assert PrefixClosed(t) by {
      assert forall i :: 0 <= i < 1 ==> "B"[i] != '\\';
      assert forall i :: 0 <= i < 3 && "B\\a"[i] == '\\' ==> i == 1;
      assert "B\\a"[..1] == "B";
    }
    SplitNestedKey();
    assert "x" !in t["B"];
    assert RemoveEffect(t, "x", "B") == (false, t);
    assert listed[1..] == [];
    assert RemoveMatching(t, [], MatchesAll, "B", false) == (Ok(false), t, []);
    var o := RemoveMatching(t, listed, MatchesAll, "B", false);
    assert o.0 == Ok(false);
    assert o.1 == t;
    assert o.2 == [];
  }

  /** Over the full setting keys, RemovePattern leaves no matching setting key set. */
  lemma RemovePatternFullClears(t: Tree, listed: seq<string>, isMatch: string -> bool, base: string, k: string)
    requires PrefixClosed(t) && multiset(listed) == ListedNames(t, base, FullName(base))
    requires '\\' !in k && isMatch(k)
    ensures Stored(RemoveMatching(t, listed, isMatch, base, false).1, k, base) == None
  {
    if Stored(t, k, base).Some? {
      StoredKeysAreListed(t, base, k);
      assert k in multiset(listed);
      RemoveMatchingClears(t, listed, isMatch, base, k);
    } else {
      RemoveMatchingShrinks(t, listed, isMatch, base, false);
      var fin := RemoveMatching(t, listed, isMatch, base, false).1;
      assert Lookup(fin, SplitPath(k, base).0, SplitPath(k, base).1) == None
          || Lookup(fin, SplitPath(k, base).0, SplitPath(k, base).1) == Lookup(t, SplitPath(k, base).0, SplitPath(k, base).1);
    }
  }

  /** Over the full setting keys, every setting key the pattern does not match keeps its
      value, when the keys below base are addressable. */
  lemma RemovePatternFullKeeps(t: Tree, listed: seq<string>, isMatch: string -> bool, base: string, readOnly: bool, k: string)
    requires PrefixClosed(t) && Addressable(t, base)
    requires multiset(listed) == ListedNames(t, base, FullName(base))
    requires '\\' !in k && !isMatch(k)
    ensures Stored(RemoveMatching(t, listed, isMatch, base, readOnly).1, k, base) == Stored(t, k, base)
  {
    forall x | x in listed && isMatch(x) ensures SplitPath(x, base) != SplitPath(k, base) {
      assert x in multiset(listed);
      LabelsInMember(t, Subtree(t, base), FullName(base), x);
      var q, n :| q in Subtree(t, base) && n in t[q] && x == FullName(base)(q, n);
      SettingKeySplits(q, n, base);
      SplitPathRoundTrip(k, base);
    }
    RemoveMatchingKeeps(t, listed, isMatch, base, readOnly, SplitPath(k, base).0, SplitPath(k, base).1);
  }
}
