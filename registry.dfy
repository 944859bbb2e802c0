/** An in-memory model of one Windows registry hive (HKEY_LOCAL_MACHINE or
    HKEY_CURRENT_USER). A key is addressed by its hive-relative path, whose segments are
    separated by '\'; every key holds a map from value name to a typed value. The hive is
    stored flat, one entry per key path; the sub-keys of a key are the paths that extend it
    by one segment. */
module Registry {
  import opened Common
  import opened Text

  /** A registry value together with its RegistryValueKind. */
  datatype RegValue =
    | RegString(str: string)              // RegistryValueKind.String
    | RegMultiString(items: seq<string>)  // RegistryValueKind.MultiString
    | RegDWord(dword: int32)              // RegistryValueKind.DWord
    | RegQWord(qword: int64)              // RegistryValueKind.QWord

  /** The values of one key. */
  type Values = map<string, RegValue>

  /** The keys of a hive, by path. */
  type Tree = map<string, Values>

  /** q lies below p: q is p, a backslash, and at least nothing more. */
  predicate IsDescendantOf(p: string, q: string)
  {
    |q| > |p| && q[..|p|] == p && q[|p|] == '\\'
  }

  /** q is a direct sub-key of p: p, a backslash and one segment without a backslash. */
  predicate IsChildOf(p: string, q: string)
  {
    IsDescendantOf(p, q) && '\\' !in q[|p| + 1..]
  }

  /** RegistryKey.GetSubKeyNames, as full paths. */
  function ChildKeys(t: Tree, p: string): set<string>
  {
    set q | q in t && IsChildOf(p, q)
  }

  /** The hive is a tree: the parent of every key exists. */
  ghost predicate PrefixClosed(t: Tree)
  {
    forall q, i :: q in t && 0 <= i < |q| && q[i] == '\\' ==> q[..i] in t
  }

  /** The paths of all keys above p. */
  function Ancestors(p: string): set<string>
  {
    set i | 0 <= i < |p| && p[i] == '\\' :: p[..i]
  }

  /** RegistryKey.CreateSubKey: key p and each missing key above it, created empty. */
  function CreateKey(t: Tree, p: string): (r: Tree)
    ensures p in r
    ensures forall q :: q in t ==> q in r && r[q] == t[q]
    ensures forall q :: q in r ==> q in t || q == p || q in Ancestors(p)
    ensures forall q :: q in r && q !in t ==> r[q] == map[]
  {
    t + map q | q in Ancestors(p) + {p} && q !in t :: map[]
  }

  lemma CreateKeyValid(t: Tree, p: string)
    requires PrefixClosed(t)
    ensures PrefixClosed(CreateKey(t, p))
  {
    var r := CreateKey(t, p);
    forall q, i | q in r && 0 <= i < |q| && q[i] == '\\' ensures q[..i] in r {
      if q in t {
      } else if q == p {
        assert q[..i] in Ancestors(p);
      } else {
        var j :| 0 <= j < |p| && p[j] == '\\' && q == p[..j];
        assert p[i] == '\\' && q[..i] == p[..i];
        assert q[..i] in Ancestors(p);
      }
    }
  }

  /** Registry.SetValue: creates key p if need be and stores v under name. */
  function SetValue(t: Tree, p: string, name: string, v: RegValue): Tree
  {
    var c := CreateKey(t, p);
    c[p := c[p][name := v]]
  }

  /** RegistryKey.OpenSubKey(p).GetValue(name): None when the key or the value is absent. */
  function Lookup(t: Tree, p: string, name: string): Option<RegValue>
  {
    if p in t && name in t[p] then Some(t[p][name]) else None
  }

  lemma SetValueValid(t: Tree, p: string, name: string, v: RegValue)
    requires PrefixClosed(t)
    ensures PrefixClosed(SetValue(t, p, name, v))
  {
    CreateKeyValid(t, p);
  }

  /** After SetValue the value is found where it was written and nowhere else changed;
      no key is removed. */
  lemma SetValueLookup(t: Tree, p: string, name: string, v: RegValue, p': string, name': string)
    ensures Lookup(SetValue(t, p, name, v), p', name')
            == if p' == p && name' == name then Some(v) else Lookup(t, p', name')
    ensures t.Keys <= SetValue(t, p, name, v).Keys
  {
  }

  /** RegistryKey.DeleteValue: the value name of key p is removed, its key is kept. */
  function DeleteValue(t: Tree, p: string, name: string): Tree
    requires p in t
  {
    t[p := t[p] - {name}]
  }

  /** DeleteValue removes exactly the value it names and keeps the hive a tree. */
  lemma DeleteValueLookup(t: Tree, p: string, name: string, p': string, name': string)
    requires p in t
    ensures Lookup(DeleteValue(t, p, name), p', name')
            == if p' == p && name' == name then None else Lookup(t, p', name')
    ensures PrefixClosed(t) ==> PrefixClosed(DeleteValue(t, p, name))
  {
  }

  // ---------------------------------------------------------------------------
  // Sub-keys and deletion
  // ---------------------------------------------------------------------------

  /** A key below p is p, a backslash, and the rest of its path. */
  lemma DescendantSplit(p: string, q: string)
    requires IsDescendantOf(p, q)
    ensures q == p + "\\" + q[|p| + 1..]
  {
    assert q == q[..|p|] + [q[|p|]] + q[|p| + 1..];
  }

  lemma DescendantTransitive(a: string, b: string, c: string)
    requires IsDescendantOf(a, b) && IsDescendantOf(b, c)
    ensures IsDescendantOf(a, c)
  {
    assert c[..|a|] == c[..|b|][..|a|];
  }

  /** The sub-key of p that q lies in or is. */
  function ChildOn(p: string, q: string): (c: string)
    requires IsDescendantOf(p, q)
    ensures IsChildOf(p, c)
    ensures c == q || IsDescendantOf(c, q)
  {
    var rest := q[|p| + 1..];
    var k := IndexOf(rest, '\\');
    if k < 0 then q
    else
      var c := q[..|p| + 1 + k];
      assert c[|p| + 1..] == rest[..k];
      c
  }

  lemma ChildOnInTree(t: Tree, p: string, q: string)
    requires PrefixClosed(t) && q in t && IsDescendantOf(p, q)
    ensures ChildOn(p, q) in ChildKeys(t, p)
  {
    var c := ChildOn(p, q);
    if c != q {
      assert q[|c|] == '\\';
    }
  }

  /** A key that has no sub-key has no key below it at all. */
  lemma NoChildNoDescendant(t: Tree, p: string, q: string)
    requires PrefixClosed(t) && ChildKeys(t, p) == {} && q in t
    ensures !IsDescendantOf(p, q)
  {
    if IsDescendantOf(p, q) {
      ChildOnInTree(t, p, q);
      assert false;
    }
  }

  /** RegistryKey.DeleteSubKey on a key without sub-keys keeps the hive a tree. */
  lemma DeleteChildlessValid(t: Tree, p: string)
    requires PrefixClosed(t) && ChildKeys(t, p) == {}
    ensures PrefixClosed(t - {p})
  {
    forall q, i | q in t - {p} && 0 <= i < |q| && q[i] == '\\' ensures q[..i] in t - {p} {
      assert q[..i] in t;
      NoChildNoDescendant(t, p, q);
      assert q[..|q[..i]|] == q[..i];
    }
  }

  // ---------------------------------------------------------------------------
  // The value names below a key (what GetValuesRecursive collects)
  // ---------------------------------------------------------------------------

  /** The key p and every key below it. */
  function Subtree(t: Tree, p: string): set<string>
  {
    set q | q in t && (q == p || IsDescendantOf(p, q))
  }

  /** The keys below p that lie in one of the sub-keys C of p. */
  function Under(t: Tree, p: string, C: set<string>): set<string>
  {
    set q | q in t && IsDescendantOf(p, q) && ChildOn(p, q) in C
  }

  /** How a walk over the hive lists one value: from its key path and its value name. */
  type Labeller = (string, string) -> string

  /** RegistryKey.GetValueNames lists a value by its bare name. */
  function BareName(q: string, n: string): string { n }

  /** The labels of the values `names` of key q. */
  ghost function LabelsOf(q: string, names: set<string>, labeller: Labeller): multiset<string>
    decreases names
  {
    if names == {} then multiset{}
    else
      var n :| n in names;
      multiset{labeller(q, n)} + LabelsOf(q, names - {n}, labeller)
  }

  lemma {:induction false} LabelsOfRemove(q: string, names: set<string>, labeller: Labeller, n: string)
    requires n in names
    ensures LabelsOf(q, names, labeller) == multiset{labeller(q, n)} + LabelsOf(q, names - {n}, labeller)
    decreases names
  {
    var n' :| n' in names && LabelsOf(q, names, labeller) == multiset{labeller(q, n')} + LabelsOf(q, names - {n'}, labeller);
    if n' != n {
      LabelsOfRemove(q, names - {n'}, labeller, n);
      LabelsOfRemove(q, names - {n}, labeller, n');
      assert names - {n'} - {n} == names - {n} - {n'};
    }
  }

  /** Listed by bare name, the values of a key are just its value names. */
  lemma {:induction false} LabelsOfBare(q: string, names: set<string>)
    ensures LabelsOf(q, names, BareName) == multiset(names)
    decreases names
  {
    if names != {} {
      var n :| n in names;
      LabelsOfRemove(q, names, BareName, n);
      LabelsOfBare(q, names - {n});
      assert names == (names - {n}) + {n};
    }
  }

  /** A labeller is listed for the values `names` exactly when some name produces it. */
  lemma {:induction false} LabelsOfMember(q: string, names: set<string>, labeller: Labeller, x: string)
    ensures x in LabelsOf(q, names, labeller) <==> exists n :: n in names && x == labeller(q, n)
    decreases names
  {
    if names != {} {
      var n :| n in names;
      LabelsOfRemove(q, names, labeller, n);
      LabelsOfMember(q, names - {n}, labeller, x);
    }
  }

  /** The labels of every value of the keys S, counted once per value. */
  ghost function LabelsIn(t: Tree, S: set<string>, labeller: Labeller): multiset<string>
    requires S <= t.Keys
    decreases S
  {
    if S == {} then multiset{}
    else
      var q :| q in S;
      LabelsOf(q, t[q].Keys, labeller) + LabelsIn(t, S - {q}, labeller)
  }

  /** The labels of every value in p and the keys below it. */
  ghost function LabelsUnder(t: Tree, p: string, labeller: Labeller): multiset<string>
  {
    LabelsIn(t, Subtree(t, p), labeller)
  }

  lemma {:induction false} LabelsInRemove(t: Tree, S: set<string>, labeller: Labeller, q: string)
    requires S <= t.Keys && q in S
    ensures LabelsIn(t, S, labeller) == LabelsOf(q, t[q].Keys, labeller) + LabelsIn(t, S - {q}, labeller)
    decreases S
  {
    var q' :| q' in S && LabelsIn(t, S, labeller) == LabelsOf(q', t[q'].Keys, labeller) + LabelsIn(t, S - {q'}, labeller);
    if q' != q {
      LabelsInRemove(t, S - {q'}, labeller, q);
      LabelsInRemove(t, S - {q}, labeller, q');
      assert S - {q'} - {q} == S - {q} - {q'};
    }
  }

  lemma {:induction false} LabelsInUnion(t: Tree, A: set<string>, B: set<string>, labeller: Labeller)
    requires A <= t.Keys && B <= t.Keys && A !! B
    ensures LabelsIn(t, A + B, labeller) == LabelsIn(t, A, labeller) + LabelsIn(t, B, labeller)
    decreases A
  {
    if A == {} {
      assert A + B == B;
    } else {
      var a :| a in A;
      calc {
        LabelsIn(t, A + B, labeller);
      == { LabelsInRemove(t, A + B, labeller, a); }
        LabelsOf(a, t[a].Keys, labeller) + LabelsIn(t, A + B - {a}, labeller);
      == { assert A + B - {a} == (A - {a}) + B; }
        LabelsOf(a, t[a].Keys, labeller) + LabelsIn(t, (A - {a}) + B, labeller);
      == { LabelsInUnion(t, A - {a}, B, labeller); }
        LabelsOf(a, t[a].Keys, labeller) + LabelsIn(t, A - {a}, labeller) + LabelsIn(t, B, labeller);
      == { LabelsInRemove(t, A, labeller, a); }
        LabelsIn(t, A, labeller) + LabelsIn(t, B, labeller);
      }
    }
  }

  /** A labeller is listed for the keys S exactly when some value of one of them produces it. */
  lemma {:induction false} LabelsInMember(t: Tree, S: set<string>, labeller: Labeller, x: string)
    requires S <= t.Keys
    ensures x in LabelsIn(t, S, labeller) <==> exists q, n :: q in S && n in t[q] && x == labeller(q, n)
    decreases S
  {
    if S != {} {
      var q :| q in S;
      LabelsInRemove(t, S, labeller, q);
      LabelsInMember(t, S - {q}, labeller, x);
      LabelsOfMember(q, t[q].Keys, labeller, x);
    }
  }

  /** A key below the sub-key c of p lies below p, in c. */
  lemma ChildOnBelowChild(p: string, c: string, q: string)
    requires IsChildOf(p, c) && (q == c || IsDescendantOf(c, q))
    ensures IsDescendantOf(p, q) && ChildOn(p, q) == c
  {
    var rest := q[|p| + 1..];
    if q != c {
      assert q[..|p|] == c[..|p|];
      assert rest[..|c| - |p| - 1] == c[|p| + 1..];
      IndexOfAt(rest, '\\', |c| - |p| - 1);
    } else {
      assert IndexOf(rest, '\\') < 0;
    }
  }

  /** The keys under the sub-key c of p are those whose ChildOn is c. */
  lemma SubtreeOfChild(t: Tree, p: string, c: string)
    requires IsChildOf(p, c)
    ensures Subtree(t, c) == Under(t, p, {c})
  {
    forall q | q in Subtree(t, c) ensures q in Under(t, p, {c}) {
      ChildOnBelowChild(p, c, q);
    }
  }

  lemma UnderAdd(t: Tree, p: string, C: set<string>, c: string)
    requires IsChildOf(p, c) && c !in C
    ensures Under(t, p, C + {c}) == Under(t, p, C) + Subtree(t, c)
    ensures Under(t, p, C) !! Subtree(t, c)
  {
    SubtreeOfChild(t, p, c);
  }

  /** Walking one more sub-key c of p adds the labels of c's subtree. */
  lemma LabelsUnderAdd(t: Tree, p: string, C: set<string>, c: string, labeller: Labeller)
    requires IsChildOf(p, c) && c !in C
    ensures LabelsIn(t, Under(t, p, C + {c}), labeller)
            == LabelsIn(t, Under(t, p, C), labeller) + LabelsUnder(t, c, labeller)
  {
    UnderAdd(t, p, C, c);
    LabelsInUnion(t, Under(t, p, C), Subtree(t, c), labeller);
  }

  /** p together with the keys under all its sub-keys is the whole subtree of p. */
  lemma SubtreeSplit(t: Tree, p: string)
    requires PrefixClosed(t) && p in t
    ensures Subtree(t, p) == {p} + Under(t, p, ChildKeys(t, p))
    ensures p !in Under(t, p, ChildKeys(t, p))
  {
    forall q | q in Subtree(t, p) && q != p ensures q in Under(t, p, ChildKeys(t, p)) {
      ChildOnInTree(t, p, q);
    }
  }

  /** A hive, the registry root object the store writes through. */
  class Hive {
    var keys: Tree

    constructor (keys: Tree)
      requires PrefixClosed(keys)
      ensures this.keys == keys
    {
      this.keys := keys;
    }
  }
}
