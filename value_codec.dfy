/** How the registry store turns a setting value into a registry value (RegistrySettingsStore.Set)
    and how its typed getters turn a registry value back (GetBool, GetInt, GetIntArray, ...).
    The original type is not stored in the registry: int and bool become a DWord, long and
    TimeSpan a QWord, number and bool arrays a comma-joined string, string[] and a
    NameValueCollection a multi-string. */
module ValueCodec {
  import opened Common
  import opened Text
  import opened Registry

  // ---------------------------------------------------------------------------
  // NameValueCollection: an ordered list of entries whose keys are unique, compared
  // case-insensitively (the default comparer of NameValueCollection)
  // ---------------------------------------------------------------------------

  /** A collection's entries in order: (key, value). */
  type NameValueCollection = seq<(string, string)>

  /** A NameValueCollection never holds two entries whose keys differ only in case. */
  predicate DistinctKeys(c: NameValueCollection)
  {
    forall i, j :: 0 <= i < j < |c| ==> !EqualsIgnoreCase(c[i].0, c[j].0)
  }

  /** The index of the last entry whose key equals k ignoring case, or -1. */
  function FindKey(c: NameValueCollection, k: string): (r: int)
    ensures -1 <= r < |c|
    decreases |c|
  {
    if |c| == 0 then -1
    else if EqualsIgnoreCase(c[|c| - 1].0, k) then |c| - 1
    else FindKey(c[..|c| - 1], k)
  }

  /** FindKey finds an entry with key k exactly when there is one. */
  lemma {:induction false} FindKeySpec(c: NameValueCollection, k: string)
    ensures FindKey(c, k) >= 0 ==> EqualsIgnoreCase(c[FindKey(c, k)].0, k)
    ensures FindKey(c, k) == -1 <==> forall i :: 0 <= i < |c| ==> !EqualsIgnoreCase(c[i].0, k)
    decreases |c|
  {
    if |c| > 0 && !EqualsIgnoreCase(c[|c| - 1].0, k) {
      var prev := c[..|c| - 1];
      FindKeySpec(prev, k);
      assert forall i :: 0 <= i < |prev| ==> prev[i] == c[i];
    }
  }

  /** In a collection without repeated keys, the entry FindKey returns is the only one. */
  lemma FindKeyUnique(c: NameValueCollection, k: string, j: int)
    requires DistinctKeys(c) && 0 <= j < |c| && EqualsIgnoreCase(c[j].0, k)
    ensures FindKey(c, k) == j
  {
    FindKeySpec(c, k);
    var i := FindKey(c, k);
    EqualsIgnoreCaseSymmetric(c[j].0, k);
    EqualsIgnoreCaseTransitive(c[i].0, k, c[j].0);
    EqualsIgnoreCaseSymmetric(c[i].0, c[j].0);
  }

  /** collection[k]: the value stored under k, ignoring case. */
  function NvcGet(c: NameValueCollection, k: string): Option<string>
  {
    var i := FindKey(c, k);
    if i < 0 then None else Some(c[i].1)
  }

  /** collection[k] = v: overwrites the value of an existing key, keeping that entry's
      spelling and position, or appends a new entry. */
  function NvcSet(c: NameValueCollection, k: string, v: string): (r: NameValueCollection)
    ensures |r| == |c| || r == c + [(k, v)]
  {
    var i := FindKey(c, k);
    if i >= 0 then c[i := (c[i].0, v)] else c + [(k, v)]
  }

  /** Setting a value never makes two keys clash. */
  lemma NvcSetDistinct(c: NameValueCollection, k: string, v: string)
    requires DistinctKeys(c)
    ensures DistinctKeys(NvcSet(c, k, v))
  {
    FindKeySpec(c, k);
    var r := NvcSet(c, k, v);
    if FindKey(c, k) >= 0 {
      assert forall j :: 0 <= j < |c| ==> r[j].0 == c[j].0;
    } else {
      assert forall j :: 0 <= j < |c| ==> r[j] == c[j];
    }
  }

  /** The indexer's promise: the value just set is read back under every spelling of its
      key, and every other key keeps its value. */
  lemma NvcSetGet(c: NameValueCollection, k: string, v: string, k': string)
    requires DistinctKeys(c)
    ensures NvcGet(NvcSet(c, k, v), k') == if EqualsIgnoreCase(k, k') then Some(v) else NvcGet(c, k')
  {
    FindKeySpec(c, k);
    FindKeySpec(c, k');
    var i := FindKey(c, k);
    var r := NvcSet(c, k, v);
    NvcSetDistinct(c, k, v);
    FindKeySpec(r, k');
    if i >= 0 {
      assert forall j :: 0 <= j < |c| ==> r[j].0 == c[j].0;
      if EqualsIgnoreCase(k, k') {
        EqualsIgnoreCaseTransitive(c[i].0, k, k');
        FindKeyUnique(r, k', i);
      } else {
        if EqualsIgnoreCase(r[i].0, k') {
          EqualsIgnoreCaseSymmetric(c[i].0, k);
          EqualsIgnoreCaseTransitive(k, c[i].0, k');
        }
        if FindKey(c, k') >= 0 {
          FindKeyUnique(r, k', FindKey(c, k'));
        }
      }
    } else {
      assert forall j :: 0 <= j < |c| ==> r[j] == c[j];
      if EqualsIgnoreCase(k, k') {
        FindKeyUnique(r, k', |c|);
      } else if FindKey(c, k') >= 0 {
        FindKeyUnique(r, k', FindKey(c, k'));
      }
    }
  }

  /** The multi-string Set writes for a collection: key, value, key, value, ... */
  function Flatten(c: NameValueCollection): (r: seq<string>)
    ensures |r| == 2 * |c|
    decreases |c|
  {
    if |c| == 0 then []
    else Flatten(c[..|c| - 1]) + [c[|c| - 1].0, c[|c| - 1].1]
  }

  lemma {:induction false} FlattenAt(c: NameValueCollection, i: nat)
    requires i < |c|
    ensures Flatten(c)[2 * i] == c[i].0 && Flatten(c)[2 * i + 1] == c[i].1
    decreases |c|
  {
    if i < |c| - 1 {
      FlattenAt(c[..|c| - 1], i);
    }
  }

  /** The collection GetNameValueCollection builds from the first n pairs of a. */
  function NvcFromPairs(a: seq<string>, n: nat): NameValueCollection
    requires 2 * n <= |a|
    decreases n
  {
    if n == 0 then [] else NvcSet(NvcFromPairs(a, n - 1), a[2 * n - 2], a[2 * n - 1])
  }

  /** The collection read from a multi-string: its pairs in order, a trailing odd element
      ignored. */
  function NvcFromArray(a: seq<string>): NameValueCollection
  {
    NvcFromPairs(a, |a| / 2)
  }

  lemma {:induction false} NvcFromPairsDistinct(a: seq<string>, n: nat)
    requires 2 * n <= |a|
    ensures DistinctKeys(NvcFromPairs(a, n))
    decreases n
  {
    if n > 0 {
      NvcFromPairsDistinct(a, n - 1);
      NvcSetDistinct(NvcFromPairs(a, n - 1), a[2 * n - 2], a[2 * n - 1]);
    }
  }

  /** What GetNameValueCollection returns is a well-formed collection. */
  lemma NvcFromArrayDistinct(a: seq<string>)
    ensures DistinctKeys(NvcFromArray(a))
  {
    NvcFromPairsDistinct(a, |a| / 2);
  }

  /** Reading back what Set wrote gives the same collection. */
  lemma {:induction false} NvcFromFlatten(c: NameValueCollection, n: nat)
    requires DistinctKeys(c) && n <= |c|
    ensures NvcFromPairs(Flatten(c), n) == c[..n]
    decreases n
  {
    if n > 0 {
      var a := Flatten(c);
      FlattenAt(c, n - 1);
      NvcFromFlatten(c, n - 1);
      NvcFromPairsStep(a, n - 1, c[..n - 1], c[n - 1].0, c[n - 1].1);
      LastKeyIsNew(c, n);
    }
  }

  /** One more pair, whose key and value are known, extends a known collection. */
  lemma NvcFromPairsStep(a: seq<string>, n: nat, prev: NameValueCollection, k: string, v: string)
    requires 2 * n + 2 <= |a| && NvcFromPairs(a, n) == prev && a[2 * n] == k && a[2 * n + 1] == v
    ensures NvcFromPairs(a, n + 1) == NvcSet(prev, k, v)
  {
    NvcFromPairsNext(a, n);
  }

  /** One more pair of the multi-string is one more indexer assignment. */
  lemma NvcFromPairsNext(a: seq<string>, n: nat)
    requires 2 * n + 2 <= |a|
    ensures NvcFromPairs(a, n + 1) == NvcSet(NvcFromPairs(a, n), a[2 * n], a[2 * n + 1])
  {
  }

  /** In a collection no key repeats an earlier one. */
  lemma LastKeyIsNew(c: NameValueCollection, n: nat)
    requires DistinctKeys(c) && 0 < n <= |c|
    ensures FindKey(c[..n - 1], c[n - 1].0) == -1
    ensures NvcSet(c[..n - 1], c[n - 1].0, c[n - 1].1) == c[..n]
  {
    var prev := c[..n - 1];
    FindKeySpec(prev, c[n - 1].0);
    forall i | 0 <= i < |prev| ensures !EqualsIgnoreCase(prev[i].0, c[n - 1].0) {
      assert prev[i] == c[i];
    }
    assert prev + [c[n - 1]] == c[..n];
  }

  lemma NameValuesRoundTrip(c: NameValueCollection)
    requires DistinctKeys(c)
    ensures NvcFromArray(Flatten(c)) == c
  {
    var a := Flatten(c);
    assert |a| / 2 == |c|;
    NvcFromFlatten(c, |c|);
    assert c[..|c|] == c;
  }

  /** A trailing unpaired element of the multi-string is dropped. */
  lemma NvcIgnoresOddTail(a: seq<string>, x: string)
    requires |a| % 2 == 0
    ensures NvcFromArray(a + [x]) == NvcFromArray(a)
  {
    assert |a + [x]| / 2 == |a| / 2;
    NvcFromPairsPrefix(a, a + [x], |a| / 2);
  }

  lemma {:induction false} NvcFromPairsPrefix(a: seq<string>, b: seq<string>, n: nat)
    requires 2 * n <= |a| <= |b| && a == b[..|a|]
    ensures NvcFromPairs(a, n) == NvcFromPairs(b, n)
    decreases n
  {
    if n > 0 {
      NvcFromPairsPrefix(a, b, n - 1);
      assert a[2 * n - 2] == b[2 * n - 2] && a[2 * n - 1] == b[2 * n - 1];
    }
  }

  /** The loop of Set that builds the multi-string of a collection. */
  method EncodeNameValues(c: NameValueCollection) returns (a: array<string>)
    ensures fresh(a)
    ensures a[..] == Flatten(c)
  {
    a := new string[2 * |c|];
    var i := 0;
    ghost var flat := Flatten(c);
    while i < |c|
      invariant 0 <= i <= |c|
      invariant forall j :: 0 <= j < 2 * i ==> a[j] == flat[j]
    {
      FlattenAt(c, i);
      a[2 * i] := c[i].0;
      a[2 * i + 1] := c[i].1;
      i := i + 1;
    }
    assert a[..] == flat;
  }

  /** The loop of GetNameValueCollection over a multi-string. */
  method DecodeNameValues(items: seq<string>) returns (collection: NameValueCollection)
    ensures collection == NvcFromArray(items)
  {
    collection := [];
    var i := 0;
    ghost var n := 0;
    while i < |items| - 1
      invariant 0 <= i <= |items| && i == 2 * n
      invariant collection == NvcFromPairs(items, n)
    {
      NvcFromPairsNext(items, n);
      collection := NvcSet(collection, items[i], items[i + 1]);
      i := i + 2;
      n := n + 1;
    }
    assert n == |items| / 2;
  }

  // ---------------------------------------------------------------------------
  // Setting values and how Set stores them
  // ---------------------------------------------------------------------------

  /** A value passed to Set; a TimeSpan is its tick count. */
  datatype SettingValue =
    | Str(s: string)
    | StrArray(strs: seq<string>)
    | Int(i: int32)
    | IntArray(ints: seq<int32>)
    | Long(l: int64)
    | LongArray(longs: seq<int64>)
    | Bool(b: bool)
    | BoolArray(bools: seq<bool>)
    | TimeSpan(ticks: int64)
    | TimeSpanArray(spans: seq<int64>)
    | NameValues(pairs: NameValueCollection)
    | Unsupported(typeName: string)   // any type CheckType rejects

  /** Select(i => i.ToString(CultureInfo.InvariantCulture)) */
  function FormatAll(xs: seq<int>): (r: seq<string>)
    ensures |r| == |xs|
    ensures forall k :: 0 <= k < |xs| ==> r[k] == FormatInt(xs[k])
  {
    seq(|xs|, k requires 0 <= k < |xs| => FormatInt(xs[k]))
  }

  /** Select(i => i ? "1" : "0") */
  function BoolDigits(bs: seq<bool>): (r: seq<string>)
    ensures |r| == |bs|
    ensures forall k :: 0 <= k < |bs| ==> r[k] == (if bs[k] then "1" else "0")
  {
    seq(|bs|, k requires 0 <= k < |bs| => if bs[k] then "1" else "0")
  }

  /** Aggregate((a, b) => a + "," + b), which throws on an empty sequence. */
  function JoinCommas(parts: seq<string>): Result<RegValue>
  {
    if |parts| == 0 then Err(EmptySequence) else Ok(RegString(JoinWith(parts, ',')))
  }

  /** The registry value Set writes for a value, or the exception it throws first. */
  function EncodeValue(v: SettingValue): Result<RegValue>
  {
    match v
    case Str(s) => Ok(RegString(s))
    case StrArray(strs) => Ok(RegMultiString(strs))
    case Int(i) => Ok(RegDWord(i))
    case IntArray(ints) => JoinCommas(FormatAll(ints))
    case Long(l) => Ok(RegQWord(l))
    case LongArray(longs) => JoinCommas(FormatAll(longs))
    case Bool(b) => Ok(RegDWord(if b then 1 else 0))
    case BoolArray(bools) => JoinCommas(BoolDigits(bools))
    case TimeSpan(ticks) => Ok(RegQWord(ticks))
    case TimeSpanArray(spans) => JoinCommas(FormatAll(spans))
    case NameValues(pairs) => Ok(RegMultiString(Flatten(pairs)))
    case Unsupported(_) => Err(UnsupportedType)
  }

  /** Set stores a value unless CheckType rejects its type or it is an empty array of
      numbers or bools; an empty string array or collection is stored. */
  lemma EncodeValueFails(v: SettingValue)
    ensures EncodeValue(v).Err? <==>
              v.Unsupported? || (v.IntArray? && |v.ints| == 0) || (v.LongArray? && |v.longs| == 0)
              || (v.BoolArray? && |v.bools| == 0) || (v.TimeSpanArray? && |v.spans| == 0)
    ensures EncodeValue(v).Err? ==> EncodeValue(v).error == (if v.Unsupported? then UnsupportedType else EmptySequence)
  {
  }

  /** The value the untyped Get returns, seen as a setting value. */
  function FromRaw(raw: RegValue): SettingValue
  {
    match raw
    case RegString(s) => Str(s)
    case RegMultiString(items) => StrArray(items)
    case RegDWord(d) => Int(d)
    case RegQWord(q) => Long(q)
  }

  /** Writing back what Get returned stores the same registry value. */
  lemma FromRawRoundTrip(raw: RegValue)
    ensures EncodeValue(FromRaw(raw)) == Ok(raw)
  {
  }

  // ---------------------------------------------------------------------------
  // The typed getters, on what Get returned (None: the key or value does not exist)
  // ---------------------------------------------------------------------------

  /** object.ToString() / Convert.ToString(object, CultureInfo.InvariantCulture) of a
      registry value; a string[] prints as its type name. */
  function RawToString(v: RegValue): string
  {
    match v
    case RegString(s) => s
    case RegMultiString(_) => "System.String[]"
    case RegDWord(d) => FormatInt(d)
    case RegQWord(q) => FormatInt(q)
  }

  datatype Width = Int32Width | Int64Width

  predicate Fits(x: int, w: Width)
  {
    match w
    case Int32Width => IsInt32(x)
    case Int64Width => IsInt64(x)
  }

  /** Convert.ToInt32(string) / Convert.ToInt64(string) with the invariant culture. */
  function ParseNumber(s: string, w: Width): (r: Result<int>)
    ensures r.Ok? ==> Fits(r.value, w)
  {
    match ParseInteger(s)
    case None => Err(Format)
    case Some(n) => if Fits(n, w) then Ok(n) else Err(Overflow)
  }

  /** Convert.ToInt32(object) / Convert.ToInt64(object): numbers are range-checked, strings
      parsed, a string[] is not convertible. */
  function ConvertNumber(v: RegValue, w: Width): (r: Result<int>)
    ensures r.Ok? ==> Fits(r.value, w)
  {
    match v
    case RegDWord(d) => Ok(d)
    case RegQWord(q) => if Fits(q, w) then Ok(q) else Err(Overflow)
    case RegString(s) => ParseNumber(s, w)
    case RegMultiString(_) => Err(InvalidCast)
  }

  /** GetBool(key, fallback) */
  function BoolFrom(data: Option<RegValue>, fallback: bool): bool
  {
    match data
    case None => fallback
    case Some(v) =>
      var s := Trim(RawToString(v));
      if s == "1" || ToLower(s) == "true" then true
      else if s == "0" || ToLower(s) == "false" then false
      else fallback
  }

  /** The conversion GetInt and GetLong share: the fallback when nothing is stored or the
      text is not a number (FormatException is caught); overflow and a string[] raise. */
  function NumberFrom(data: Option<RegValue>, fallback: int, w: Width): (r: Result<int>)
    requires Fits(fallback, w)
    ensures r.Ok? ==> Fits(r.value, w)
    ensures r.Err? ==> r.error == Overflow || r.error == InvalidCast
    ensures data.None? ==> r == Ok(fallback)
  {
    match data
    case None => Ok(fallback)
    case Some(v) =>
      match ConvertNumber(v, w)
      case Ok(n) => Ok(n)
      case Err(e) => if e == Format then Ok(fallback) else Err(e)
  }

  /** GetInt(key, fallback) */
  function IntFrom(data: Option<RegValue>, fallback: int32): Result<int32>
  {
    match NumberFrom(data, fallback, Int32Width)
    case Ok(n) => Ok(n as int32)
    case Err(e) => Err(e)
  }

  /** GetLong(key, fallback), and GetTimeSpan(key, fallback) on ticks */
  function LongFrom(data: Option<RegValue>, fallback: int64): Result<int64>
  {
    match NumberFrom(data, fallback, Int64Width)
    case Ok(n) => Ok(n as int64)
    case Err(e) => Err(e)
  }

  /** Select(Convert.ToInt32) / Select(Convert.ToInt64) over split pieces, materialised by
      ToArray: every piece must convert. */
  function ParseNumbers(parts: seq<string>, w: Width): (r: Result<seq<int>>)
    ensures r.Ok? <==> forall k :: 0 <= k < |parts| ==> ParseNumber(parts[k], w).Ok?
    ensures r.Ok? ==> |r.value| == |parts|
    ensures r.Ok? ==> forall k :: 0 <= k < |parts| ==> r.value[k] == ParseNumber(parts[k], w).value
    ensures r.Ok? ==> forall k :: 0 <= k < |r.value| ==> Fits(r.value[k], w)
    decreases |parts|
  {
    if |parts| == 0 then Ok([])
    else
      match ParseNumber(parts[0], w)
      case Err(e) => Err(e)
      case Ok(n) =>
        var rest := ParseNumbers(parts[1..], w);
        assert forall k :: 0 <= k < |parts| - 1 ==> parts[1..][k] == parts[k + 1];
        if rest.Err? then Err(rest.error) else Ok([n] + rest.value)
  }

  /** The first piece that does not convert ends the call with its exception. */
  lemma {:induction false} ParseNumbersFirstError(parts: seq<string>, w: Width, k: nat)
    requires k < |parts| && ParseNumber(parts[k], w).Err?
    requires forall j :: 0 <= j < k ==> ParseNumber(parts[j], w).Ok?
    ensures ParseNumbers(parts, w) == Err(ParseNumber(parts[k], w).error)
    decreases k
  {
    if k > 0 {
      assert ParseNumber(parts[0], w).Ok?;
      assert forall j :: 0 <= j < |parts| - 1 ==> parts[1..][j] == parts[j + 1];
      ParseNumbersFirstError(parts[1..], w, k - 1);
    }
  }

  /** The pieces of the text of a stored value, split at commas. */
  function Pieces(v: RegValue): (r: seq<string>)
  {
    Split(RawToString(v), ',')
  }

  /** The numbers of a parsed array, each known to fit in 32 bits. */
  function AsInt32s(ns: seq<int>): (r: seq<int32>)
    requires forall k :: 0 <= k < |ns| ==> IsInt32(ns[k])
    ensures |r| == |ns| && forall k :: 0 <= k < |ns| ==> r[k] == ns[k]
  {
    seq(|ns|, k requires 0 <= k < |ns| && IsInt32(ns[k]) => ns[k] as int32)
  }

  /** The numbers of a parsed array, each known to fit in 64 bits. */
  function AsInt64s(ns: seq<int>): (r: seq<int64>)
    requires forall k :: 0 <= k < |ns| ==> IsInt64(ns[k])
    ensures |r| == |ns| && forall k :: 0 <= k < |ns| ==> r[k] == ns[k]
  {
    seq(|ns|, k requires 0 <= k < |ns| && IsInt64(ns[k]) => ns[k] as int64)
  }

  /** GetIntArray(key) */
  function IntArrayFrom(data: Option<RegValue>): Result<seq<int32>>
  {
    match data
    case None => Ok([])
    case Some(v) =>
      match ParseNumbers(Pieces(v), Int32Width)
      case Err(e) => Err(e)
      case Ok(ns) => Ok(AsInt32s(ns))
  }

  /** GetLongArray(key), and GetTimeSpanArray(key) on ticks */
  function LongArrayFrom(data: Option<RegValue>): Result<seq<int64>>
  {
    match data
    case None => Ok([])
    case Some(v) =>
      match ParseNumbers(Pieces(v), Int64Width)
      case Err(e) => Err(e)
      case Ok(ns) => Ok(AsInt64s(ns))
  }

  /** GetBoolArray(key): every piece other than "0" is true. */
  function BoolArrayFrom(data: Option<RegValue>): seq<bool>
  {
    match data
    case None => []
    case Some(v) =>
      var parts := Pieces(v);
      seq(|parts|, k requires 0 <= k < |parts| => parts[k] != "0")
  }

  /** GetString(key, fallback) */
  function StringFrom(data: Option<RegValue>, fallback: string): string
  {
    match data
    case None => fallback
    case Some(v) => RawToString(v)
  }

  /** GetStringArray(key): only a multi-string is a string[]. */
  function StringArrayFrom(data: Option<RegValue>): seq<string>
  {
    match data
    case Some(RegMultiString(items)) => items
    case _ => []
  }

  /** GetNameValueCollection(key): only a multi-string is read, anything else is empty. */
  function NameValuesFrom(data: Option<RegValue>): NameValueCollection
  {
    match data
    case Some(RegMultiString(items)) => NvcFromArray(items)
    case _ => []
  }

  /** The getter belonging to the type of v, with its default fallback (false, 0, "",
      TimeSpan.Zero). */
  function ReadAs(v: SettingValue, data: Option<RegValue>): Result<SettingValue>
  {
    match v
    case Str(_) => Ok(Str(StringFrom(data, "")))
    case StrArray(_) => Ok(StrArray(StringArrayFrom(data)))
    case Int(_) => (match IntFrom(data, 0) case Ok(i) => Ok(Int(i)) case Err(e) => Err(e))
    case IntArray(_) => (match IntArrayFrom(data) case Ok(a) => Ok(IntArray(a)) case Err(e) => Err(e))
    case Long(_) => (match LongFrom(data, 0) case Ok(l) => Ok(Long(l)) case Err(e) => Err(e))
    case LongArray(_) => (match LongArrayFrom(data) case Ok(a) => Ok(LongArray(a)) case Err(e) => Err(e))
    case Bool(_) => Ok(Bool(BoolFrom(data, false)))
    case BoolArray(_) => Ok(BoolArray(BoolArrayFrom(data)))
    case TimeSpan(_) => (match LongFrom(data, 0) case Ok(l) => Ok(TimeSpan(l)) case Err(e) => Err(e))
    case TimeSpanArray(_) => (match LongArrayFrom(data) case Ok(a) => Ok(TimeSpanArray(a)) case Err(e) => Err(e))
    case NameValues(_) => Ok(NameValues(NameValuesFrom(data)))
    case Unsupported(_) => Err(UnsupportedType)
  }

  // ---------------------------------------------------------------------------
  // Round trips
  // ---------------------------------------------------------------------------

  /** ParseNumbers succeeds with the pieces' values when every piece parses. */
  lemma ParseNumbersOk(parts: seq<string>, w: Width, xs: seq<int>)
    requires |parts| == |xs|
    requires forall k :: 0 <= k < |parts| ==> ParseNumber(parts[k], w) == Ok(xs[k])
    ensures ParseNumbers(parts, w) == Ok(xs)
  {
    var r := ParseNumbers(parts, w);
    assert r.Ok?;
    assert r.value == xs;
  }

  lemma NumbersRoundTrip(xs: seq<int>, w: Width)
    requires |xs| > 0
    requires forall k :: 0 <= k < |xs| ==> Fits(xs[k], w)
    ensures ParseNumbers(Pieces(RegString(JoinWith(FormatAll(xs), ','))), w) == Ok(xs)
  {
    var parts := FormatAll(xs);
    forall k | 0 <= k < |parts| ensures ',' !in parts[k] {
      FormatIntNoComma(xs[k]);
    }
    SplitJoinWith(parts, ',');
    assert Pieces(RegString(JoinWith(parts, ','))) == parts;
    forall k | 0 <= k < |parts| ensures ParseNumber(parts[k], w) == Ok(xs[k]) {
      ParseFormatInt(xs[k]);
    }
    ParseNumbersOk(parts, w, xs);
  }

  lemma BoolsRoundTrip(bs: seq<bool>)
    requires |bs| > 0
    ensures BoolArrayFrom(Some(RegString(JoinWith(BoolDigits(bs), ',')))) == bs
  {
    var parts := BoolDigits(bs);
    SplitJoinWith(parts, ',');
  }

  lemma BoolRoundTrip(b: bool, fallback: bool)
    ensures BoolFrom(Some(RegDWord(if b then 1 else 0)), fallback) == b
  {
    var s := RawToString(RegDWord(if b then 1 else 0));
    assert s == if b then "1" else "0";
    TrimByNoWhite(s, IsWhiteSpace);
  }

  lemma Int32sRoundTrip(xs: seq<int32>)
    requires |xs| > 0
    ensures IntArrayFrom(Some(EncodeValue(IntArray(xs)).value)) == Ok(xs)
  {
    var raw := RegString(JoinWith(FormatAll(xs), ','));
    assert EncodeValue(IntArray(xs)) == Ok(raw);
    NumbersRoundTrip(xs, Int32Width);
    assert ParseNumbers(Pieces(raw), Int32Width) == Ok(xs);
    assert AsInt32s(xs) == xs;
  }

  lemma Int64sRoundTrip(xs: seq<int64>)
    requires |xs| > 0
    ensures LongArrayFrom(Some(EncodeValue(LongArray(xs)).value)) == Ok(xs)
  {
    var raw := RegString(JoinWith(FormatAll(xs), ','));
    assert EncodeValue(LongArray(xs)) == Ok(raw);
    NumbersRoundTrip(xs, Int64Width);
    assert ParseNumbers(Pieces(raw), Int64Width) == Ok(xs);
    assert AsInt64s(xs) == xs;
  }

  /** Reading a stored value with the getter of its own type gives the value back. */
  lemma SettingRoundTrip(v: SettingValue)
    requires EncodeValue(v).Ok?
    requires v.NameValues? ==> DistinctKeys(v.pairs)
    ensures ReadAs(v, Some(EncodeValue(v).value)) == Ok(v)
  {
    var raw := EncodeValue(v).value;
    match v
    case Str(s) => assert raw == RegString(s);
    case StrArray(strs) => assert raw == RegMultiString(strs);
    case Int(i) => assert raw == RegDWord(i);
    case Long(l) => assert raw == RegQWord(l);
    case Bool(b) =>
      assert raw == RegDWord(if b then 1 else 0);
      BoolRoundTrip(b, false);
    case TimeSpan(t) => assert raw == RegQWord(t);
    case NameValues(c) =>
      assert raw == RegMultiString(Flatten(c));
      NameValuesRoundTrip(c);
    case BoolArray(bs) =>
      assert raw == RegString(JoinWith(BoolDigits(bs), ','));
      BoolsRoundTrip(bs);
    case IntArray(xs) =>
      Int32sRoundTrip(xs);
      assert IntArrayFrom(Some(raw)) == Ok(xs);
    case LongArray(xs) =>
      Int64sRoundTrip(xs);
      assert LongArrayFrom(Some(raw)) == Ok(xs);
    case TimeSpanArray(xs) =>
      assert raw == EncodeValue(LongArray(xs)).value;
      Int64sRoundTrip(xs);
      assert LongArrayFrom(Some(raw)) == Ok(xs);
  }

  /** An unset key reads as the fallback of a scalar getter and as an empty array or
      collection; an empty number or bool array cannot be stored at all, so an unset key
      and an "empty" one read alike. */
  lemma UnsetReadsEmpty(v: SettingValue, fallbackInt: int32, fallbackLong: int64, fallbackBool: bool, fallbackString: string)
    ensures IntFrom(None, fallbackInt) == Ok(fallbackInt)
    ensures LongFrom(None, fallbackLong) == Ok(fallbackLong)
    ensures BoolFrom(None, fallbackBool) == fallbackBool
    ensures StringFrom(None, fallbackString) == fallbackString
    ensures IntArrayFrom(None) == Ok([]) && LongArrayFrom(None) == Ok([])
    ensures BoolArrayFrom(None) == [] && StringArrayFrom(None) == [] && NameValuesFrom(None) == []
    ensures v.IntArray? && |v.ints| == 0 ==> EncodeValue(v) == Err(EmptySequence)
  {
  }

  /** A bool is stored as the DWord 1 or 0, so GetInt reads it as 1 or 0; a DWord other
      than 1 or 0 reads as the fallback of GetBool. */
  lemma BoolAsInt(b: bool, d: int32, fallback: bool)
    ensures IntFrom(Some(EncodeValue(Bool(b)).value), 0) == Ok(if b then 1 else 0)
    ensures BoolFrom(Some(RegDWord(d)), fallback) == (if d == 1 then true else if d == 0 then false else fallback)
  {
    var s := FormatInt(d);
    FormatIntShape(d);
    forall k | 0 <= k < |s| ensures !IsWhiteSpace(s[k]) { }
    TrimByNoWhite(s, IsWhiteSpace);
    if d != 1 && d != 0 {
      if d < 0 {
        assert s[0] == '-';
      } else {
        assert d >= 10 || s == [DigitChar(d)];
      }
      assert s != "1" && s != "0";
      assert ToLower(s)[0] == LowerChar(s[0]) && LowerChar(s[0]) != 't' && LowerChar(s[0]) != 'f';
    }
  }

  /** GetInt catches only FormatException: a number that does not fit raises. */
  lemma IntOverflowRaises(q: int64)
    requires !IsInt32(q)
    ensures IntFrom(Some(RegQWord(q)), 0) == Err(Overflow)
    ensures IntFrom(Some(RegString(FormatInt(q))), 0) == Err(Overflow)
  {
    ParseFormatInt(q);
    assert ParseNumber(FormatInt(q), Int32Width) == Err(Overflow);
    assert NumberFrom(Some(RegString(FormatInt(q))), 0, Int32Width) == Err(Overflow);
  }

  // ---------------------------------------------------------------------------
  // The number getters as their doc comments describe them
  // ---------------------------------------------------------------------------

  /** GetInt(key, fallback) and GetLong(key, fallback) as documented: the stored number
      when it converts to the width, and the fallback when the key is unset or its value
      has an incompatible type or range. */
  function NumberOrFallback(data: Option<RegValue>, fallback: int, w: Width): (r: int)
    requires Fits(fallback, w)
    ensures Fits(r, w)
    ensures data.None? ==> r == fallback
  {
    match data
    case None => fallback
    case Some(v) =>
      match ConvertNumber(v, w)
      case Ok(n) => n
      case Err(_) => fallback
  }

  /** GetIntArray(key) and GetLongArray(key) as documented: an empty array when the key is
      unset or its text does not convert piece by piece. */
  function NumbersOrEmpty(data: Option<RegValue>, w: Width): (r: seq<int>)
    ensures forall k :: 0 <= k < |r| ==> Fits(r[k], w)
    ensures data.None? ==> r == []
  {
    match data
    case None => []
    case Some(v) =>
      match ParseNumbers(Pieces(v), w)
      case Ok(ns) => ns
      case Err(_) => []
  }

  /** The documented getter returns what GetInt and GetLong return whenever they return,
      and the fallback where they throw. */
  lemma NumberOrFallbackAgrees(data: Option<RegValue>, fallback: int, w: Width)
    requires Fits(fallback, w)
    ensures NumberFrom(data, fallback, w).Ok? ==>
              NumberOrFallback(data, fallback, w) == NumberFrom(data, fallback, w).value
    ensures NumberFrom(data, fallback, w).Err? ==> NumberOrFallback(data, fallback, w) == fallback
  {
  }

  /** The documented array getter returns what GetIntArray returns whenever it returns,
      and an empty array where it throws. */
  lemma IntArrayAgrees(data: Option<RegValue>)
    ensures IntArrayFrom(data).Ok? ==>
              |NumbersOrEmpty(data, Int32Width)| == |IntArrayFrom(data).value|
              && forall k :: 0 <= k < |IntArrayFrom(data).value| ==>
                   NumbersOrEmpty(data, Int32Width)[k] == IntArrayFrom(data).value[k] as int
    ensures IntArrayFrom(data).Err? ==> NumbersOrEmpty(data, Int32Width) == []
  {
    if data.Some? {
      var parsed := ParseNumbers(Pieces(data.value), Int32Width);
      if parsed.Ok? {
        assert NumbersOrEmpty(data, Int32Width) == parsed.value;
      }
    }
  }

  /** The documented array getter returns what GetLongArray returns whenever it returns,
      and an empty array where it throws. */
  lemma LongArrayAgrees(data: Option<RegValue>)
    ensures LongArrayFrom(data).Ok? ==>
              |NumbersOrEmpty(data, Int64Width)| == |LongArrayFrom(data).value|
              && forall k :: 0 <= k < |LongArrayFrom(data).value| ==>
                   NumbersOrEmpty(data, Int64Width)[k] == LongArrayFrom(data).value[k] as int
    ensures LongArrayFrom(data).Err? ==> NumbersOrEmpty(data, Int64Width) == []
  {
    if data.Some? {
      var parsed := ParseNumbers(Pieces(data.value), Int64Width);
      if parsed.Ok? {
        assert NumbersOrEmpty(data, Int64Width) == parsed.value;
      }
    }
  }

  /** The documented number getters read back every number Set writes. */
  lemma DocumentedNumberRoundTrip(i: int32, l: int64, fi: int32, fl: int64)
    ensures NumberOrFallback(Some(EncodeValue(Int(i)).value), fi, Int32Width) == i
    ensures NumberOrFallback(Some(EncodeValue(Long(l)).value), fl, Int64Width) == l
  {
  }

  /** The documented array getters read back every non-empty number array Set writes. */
  lemma DocumentedArrayRoundTrip(xs: seq<int>, w: Width)
    requires |xs| > 0
    requires forall k :: 0 <= k < |xs| ==> Fits(xs[k], w)
    ensures NumbersOrEmpty(Some(RegString(JoinWith(FormatAll(xs), ','))), w) == xs
  {
    NumbersRoundTrip(xs, w);
  }

  /** The documented GetIntArray reads back every non-empty int[] Set writes. */
  lemma DocumentedIntsRoundTrip(xs: seq<int32>)
    requires |xs| > 0
    ensures NumbersOrEmpty(Some(EncodeValue(IntArray(xs)).value), Int32Width) == xs
  {
    var raw := RegString(JoinWith(FormatAll(xs), ','));
    assert EncodeValue(IntArray(xs)) == Ok(raw);
    DocumentedArrayRoundTrip(xs, Int32Width);
  }

  /** The documented GetLongArray reads back every non-empty long[] Set writes. */
  lemma DocumentedLongsRoundTrip(ys: seq<int64>)
    requires |ys| > 0
    ensures NumbersOrEmpty(Some(EncodeValue(LongArray(ys)).value), Int64Width) == ys
  {
    var raw := RegString(JoinWith(FormatAll(ys), ','));
    assert EncodeValue(LongArray(ys)) == Ok(raw);
    DocumentedArrayRoundTrip(ys, Int64Width);
  }

  /** GetInt also throws for a stored string[]; the documented getter falls back there and
      on a QWORD outside the 32-bit range. */
  lemma FallbackOnIncompatible(q: int64, items: seq<string>, fallback: int32)
    requires !IsInt32(q)
    ensures IntFrom(Some(RegMultiString(items)), fallback) == Err(InvalidCast)
    ensures NumberOrFallback(Some(RegQWord(q)), fallback, Int32Width) == fallback
    ensures NumberOrFallback(Some(RegMultiString(items)), fallback, Int32Width) == fallback
  {
  }

  /** GetIntArray of a stored string[] parses its text "System.String[]" and throws a
      FormatException; the documented getter gives an empty array. */
  lemma ArrayOfIncompatible(items: seq<string>)
    ensures IntArrayFrom(Some(RegMultiString(items))) == Err(Format)
    ensures NumbersOrEmpty(Some(RegMultiString(items)), Int32Width) == []
  {
    var text := RawToString(RegMultiString(items));
    assert ',' !in text;
    assert Pieces(RegMultiString(items)) == [text];
    TrimByNoWhite(text, IsNumberWhite);
    assert !IsDigit(text[0]);
    assert ParseInteger(text) == None;
  }
}
