# Registry settings store, multimap and settings helpers — a Dafny model

This project models the core of a .NET settings-persistence library.

- **The registry-backed settings store** (`RegistrySettingsStore`). A dotted setting key such as `View.Window.Left` maps to the value `Left` under the registry key `<base>\View\Window` of the hive the store was opened on. The model covers:
  - `Set`, `Remove`, `Rename`, `Get` and the typed getters with their fallbacks.
  - `GetKeys` and `Dispose`.
  - The disposed and read-only guards, and the change notification.
- **The registry** (`Registry`). It is an in-memory tree: a map from key path to a map from value name to a typed registry value (string, multi-string, DWORD, QWORD). The tree is closed under parents.
- **The value codec** (`ValueCodec`). It covers what `Set` writes for each supported .NET type, and how each getter reads a stored value back. That includes `int`, `long`, `bool`, `TimeSpan` and their arrays, `string[]` and `NameValueCollection`.
- **`CollectionDictionary`** (`Multimap`). It is a dictionary from a key to a list of values.
- **`SettingsHelper`**. It covers `GetLocationDisplayName` and `RemovePattern`.
- **`SettingsHelper.Forms`** (`ColorCodec`). It covers the `#aarrggbb` colour text format, in `ColorToString` and `StringToColor`.
- **Supporting modules:**
  - `Common`: machine integer ranges, `Option`, `Result` and the error kinds the code throws.
  - `Text`: the string operations the code relies on. These are `LastIndexOf`, `Replace`, ordinal case-insensitive comparison and sorting, `Trim`, `Split`/`Aggregate`, and invariant-culture integer formatting and parsing.

Some member kinds and their forms:

- The store and the multimap are classes whose methods update their fields. The registry hive is a class with one field, `keys`, which the store's methods update.
- `Remove`'s pruning loop is a recursive function over the tree. So is the loop of `RemovePattern`, which the method is proved against.
- `GetValuesRecursive` and the `NameValueCollection` encoder and decoder are loops with invariants.
- The pure conversions are functions.
- Exceptions are `Err` results carrying the kind of exception (`Disposed` for `ObjectDisposedException`, `ReadOnly` for the read-only `InvalidOperationException`, and so on).
- `PropertyChanged` is a ghost log `changed` of the keys reported, in order.

Where the source's own doc comments and its code disagree, the model follows the code and records the difference under "## Findings":

- **Getters can throw.** The doc comments of the typed getters promise the fallback, or an empty array, "if the key is unset or has an incompatible data type" (RegistrySettingsStore.cs:461-462, 508-509, 530-531). But `GetInt`/`GetLong` catch only `FormatException`, so an out-of-range number or a `string[]` still throws. The array getters catch nothing.
- **`GetKeys` returns bare names.** `GetKeys` is documented to get "all setting keys that are currently set" (RegistrySettingsStore.cs:394). But it returns the bare value names of every key below the base key.

## Model

Source paths are relative to the repository root.

| member | source | states |
|---|---|---|
| Registry.CreateKey | SettingsDemo/Unclassified/Util/RegistrySettingsStore.cs:303 | creating a key adds it and any missing ancestors as empty keys and leaves every existing key as it was |
| Registry.CreateKeyValid | SettingsDemo/Unclassified/Util/RegistrySettingsStore.cs:303 | creating a key keeps the tree closed under parents |
| Registry.SetValueValid | SettingsDemo/Unclassified/Util/RegistrySettingsStore.cs:303 | writing a value keeps the tree closed under parents |
| Registry.SetValueLookup | SettingsDemo/Unclassified/Util/RegistrySettingsStore.cs:303 | after writing a value, its place reads the new value, every other place reads what it read before, and no key disappears |
| Registry.DeleteValueLookup | SettingsDemo/Unclassified/Util/RegistrySettingsStore.cs:333 | deleting a value empties exactly its place and keeps the tree closed under parents |
| Registry.DeleteChildlessValid | SettingsDemo/Unclassified/Util/RegistrySettingsStore.cs:348 | deleting a key without sub-keys keeps the tree closed under parents |
| Registry.ChildOnInTree | SettingsDemo/Unclassified/Util/RegistrySettingsStore.cs:903 | the sub-key of p on the way to a descendant q is one of p's sub-keys in the tree |
| Registry.NoChildNoDescendant | SettingsDemo/Unclassified/Util/RegistrySettingsStore.cs:337 | a key without sub-keys has no descendants in the tree |
| Registry.LabelsOfBare | SettingsDemo/Unclassified/Util/RegistrySettingsStore.cs:902 | listing the value names of a key yields exactly those names, each once |
| Registry.LabelsInMember | SettingsDemo/Unclassified/Util/RegistrySettingsStore.cs:900-913 | a name is listed for a set of keys iff some value of one of those keys carries that label |
| Registry.LabelsInUnion | SettingsDemo/Unclassified/Util/RegistrySettingsStore.cs:900-913 | listing two disjoint sets of keys yields the two listings together |
| Registry.SubtreeSplit | SettingsDemo/Unclassified/Util/RegistrySettingsStore.cs:900-913 | the keys at and below p are p itself plus the subtrees of its sub-keys, and p is in none of them |
| Registry.UnderAdd | SettingsDemo/Unclassified/Util/RegistrySettingsStore.cs:903-911 | visiting one more sub-key adds exactly its subtree, disjoint from what was visited before |
| Registry.Hive.constructor | SettingsDemo/Unclassified/Util/RegistrySettingsStore.cs:73-77 | a hive holds the key tree it is opened on |
| Text.IndexOf | SettingsDemo/Unclassified/Util/RegistrySettingsStore.cs:895 | -1 iff the character is absent; otherwise the index of its first occurrence |
| Text.LastIndexOf | SettingsDemo/Unclassified/Util/RegistrySettingsStore.cs:877 | -1 iff the character is absent; otherwise the index of its last occurrence |
| Text.ReplaceCharInverse | SettingsDemo/Unclassified/Util/RegistrySettingsStore.cs:882 | replacing a character by one that does not occur in the string, and then back, gives the original string |
| Text.ReplaceCharRemoves | SettingsDemo/Unclassified/Util/RegistrySettingsStore.cs:882 | after Replace('.', '\\') no dot is left |
| Text.EqualsIgnoreCaseTransitive | SettingsDemo/Unclassified/Util/RegistrySettingsStore.cs:341 | ordinal case-insensitive equality is transitive |
| Text.EqualsIgnoreCaseSymmetric | SettingsDemo/Unclassified/Util/RegistrySettingsStore.cs:341 | ordinal case-insensitive equality is symmetric |
| Text.LessOrEqualIgnoreCaseTotal | SettingsDemo/Unclassified/Util/RegistrySettingsStore.cs:414 | the ordinal case-insensitive order relates every two strings |
| Text.LessOrEqualIgnoreCaseTransitive | SettingsDemo/Unclassified/Util/RegistrySettingsStore.cs:414 | the ordinal case-insensitive order is transitive |
| Text.SortIgnoreCaseCorrect | SettingsDemo/Unclassified/Util/RegistrySettingsStore.cs:414 | the sort yields a permutation of its input in case-insensitive order |
| Text.TrimByNoWhite | SettingsDemo/Unclassified/Util/RegistrySettingsStore.cs:473 | trimming a string without leading or trailing white space leaves it unchanged |
| Text.SplitJoinWith | SettingsDemo/Unclassified/Util/RegistrySettingsStore.cs:541 | splitting a comma-joined list of comma-free pieces gives back the pieces |
| Text.ParseFormatInt | SettingsDemo/Unclassified/Util/RegistrySettingsStore.cs:521 | parsing the invariant-culture text of an integer gives that integer back |
| Text.FormatIntNoComma | SettingsDemo/Unclassified/Util/RegistrySettingsStore.cs:216-218 | the text of an integer holds no comma, so it cannot break the comma-joined array format |
| Text.DecimalValueOfNat | SettingsDemo/Unclassified/Util/RegistrySettingsStore.cs:521 | the decimal digits of a natural number denote that number |
| ValueCodec.FindKeySpec | SettingsDemo/Unclassified/Util/RegistrySettingsStore.cs:840 | a collection lookup finds an entry with a case-insensitively equal key, and -1 iff there is none |
| ValueCodec.NvcSetGet | SettingsDemo/Unclassified/Util/RegistrySettingsStore.cs:840 | after collection[k] = v, reading any key equal to k ignoring case gives v, and any other key reads as before |
| ValueCodec.NvcSetDistinct | SettingsDemo/Unclassified/Util/RegistrySettingsStore.cs:840 | the indexer keeps the collection's keys distinct ignoring case |
| ValueCodec.FlattenAt | SettingsDemo/Unclassified/Util/RegistrySettingsStore.cs:293-297 | entry i of a collection sits at positions 2i and 2i+1 of the multi-string |
| ValueCodec.EncodeNameValues | SettingsDemo/Unclassified/Util/RegistrySettingsStore.cs:290-301 | the filled array holds each key followed by its value, in collection order |
| ValueCodec.DecodeNameValues | SettingsDemo/Unclassified/Util/RegistrySettingsStore.cs:834-844 | the loop assigns each complete key/value pair in order through the indexer and drops a trailing odd item |
| ValueCodec.NvcFromArrayDistinct | SettingsDemo/Unclassified/Util/RegistrySettingsStore.cs:838-841 | a decoded collection never holds two keys that are equal ignoring case |
| ValueCodec.NameValuesRoundTrip | SettingsDemo/Unclassified/Util/RegistrySettingsStore.cs:830-844 | decoding the multi-string written for a collection with distinct keys gives the collection back |
| ValueCodec.NvcIgnoresOddTail | SettingsDemo/Unclassified/Util/RegistrySettingsStore.cs:838 | an odd last item of the multi-string is ignored |
| ValueCodec.FormatAll | SettingsDemo/Unclassified/Util/RegistrySettingsStore.cs:216-217 | each number is formatted on its own, in order |
| ValueCodec.BoolDigits | SettingsDemo/Unclassified/Util/RegistrySettingsStore.cs:238-239 | each bool becomes "1" or "0", in order |
| ValueCodec.EncodeValueFails | SettingsDemo/Unclassified/Util/RegistrySettingsStore.cs:200-301 | Set refuses a value iff its type is unsupported (UnsupportedType) or it is an empty number, bool or TimeSpan array (the Aggregate fails) |
| ValueCodec.FromRawRoundTrip | SettingsDemo/Unclassified/Util/RegistrySettingsStore.cs:200-223 | writing back what Get returned stores the same registry value, of the same kind |
| ValueCodec.ParseNumber | SettingsDemo/Unclassified/Util/RegistrySettingsStore.cs:542 | a successful conversion lies in the target width |
| ValueCodec.ConvertNumber | SettingsDemo/Unclassified/Util/RegistrySettingsStore.cs:521 | a successful conversion lies in the target width |
| ValueCodec.NumberFrom | SettingsDemo/Unclassified/Util/RegistrySettingsStore.cs:514-527 | an unset value reads as the fallback; a result fits the width; the only exceptions that escape are overflow and invalid cast |
| ValueCodec.ParseNumbers | SettingsDemo/Unclassified/Util/RegistrySettingsStore.cs:539-543 | the array converts iff every piece converts, and then holds each piece's value in order |
| ValueCodec.ParseNumbersFirstError | SettingsDemo/Unclassified/Util/RegistrySettingsStore.cs:539-543 | a failing array conversion throws the error of its first bad piece |
| ValueCodec.ParseNumbersOk | SettingsDemo/Unclassified/Util/RegistrySettingsStore.cs:539-543 | pieces that each convert to the given numbers give exactly those numbers |
| ValueCodec.NumbersRoundTrip | SettingsDemo/Unclassified/Util/RegistrySettingsStore.cs:535-544 | reading back the comma-joined text of a non-empty number array gives the array |
| ValueCodec.Int32sRoundTrip | SettingsDemo/Unclassified/Util/RegistrySettingsStore.cs:535-544 | an int[] written by Set reads back from GetIntArray unchanged |
| ValueCodec.Int64sRoundTrip | SettingsDemo/Unclassified/Util/RegistrySettingsStore.cs:585-594 | a long[] written by Set reads back from GetLongArray unchanged |
| ValueCodec.BoolsRoundTrip | SettingsDemo/Unclassified/Util/RegistrySettingsStore.cs:485-494 | a non-empty bool[] written as "1"/"0" reads back from GetBoolArray unchanged |
| ValueCodec.BoolRoundTrip | SettingsDemo/Unclassified/Util/RegistrySettingsStore.cs:467-477 | a bool written as the DWORD 1 or 0 reads back from GetBool unchanged |
| ValueCodec.BoolAsInt | SettingsDemo/Unclassified/Util/RegistrySettingsStore.cs:467-477 | a bool reads back through GetInt as 1 or 0; GetBool reads DWORD 1 as true, 0 as false and anything else as the fallback |
| ValueCodec.IntOverflowRaises | SettingsDemo/Unclassified/Util/RegistrySettingsStore.cs:515-526 | GetInt of a QWORD or decimal text outside the 32-bit range throws OverflowException instead of returning the fallback |
| ValueCodec.NumberOrFallback | SettingsDemo/Unclassified/Util/RegistrySettingsStore.cs:508-527 | the corrected GetInt/GetLong: a number of the width, and the fallback when the key is unset |
| ValueCodec.NumbersOrEmpty | SettingsDemo/Unclassified/Util/RegistrySettingsStore.cs:530-544 | the corrected GetIntArray/GetLongArray: numbers of the width, and empty when the key is unset |
| ValueCodec.NumberOrFallbackAgrees | SettingsDemo/Unclassified/Util/RegistrySettingsStore.cs:514-527 | the corrected getter returns what GetInt/GetLong return whenever they return, and the fallback where they throw |
| ValueCodec.IntArrayAgrees | SettingsDemo/Unclassified/Util/RegistrySettingsStore.cs:535-544 | the corrected array getter returns what GetIntArray returns whenever it returns, and empty where it throws |
| ValueCodec.LongArrayAgrees | SettingsDemo/Unclassified/Util/RegistrySettingsStore.cs:585-594 | the corrected array getter returns what GetLongArray returns whenever it returns, and empty where it throws |
| ValueCodec.FallbackOnIncompatible | SettingsDemo/Unclassified/Util/RegistrySettingsStore.cs:514-527 | GetInt throws InvalidCastException on a stored string[], where the corrected getter returns the fallback, as it does for an out-of-range QWORD |
| ValueCodec.ArrayOfIncompatible | SettingsDemo/Unclassified/Util/RegistrySettingsStore.cs:535-544 | GetIntArray of a stored string[] throws FormatException, where the corrected getter returns an empty array |
| ValueCodec.DocumentedNumberRoundTrip | SettingsDemo/Unclassified/Util/RegistrySettingsStore.cs:508-527 | the corrected getters read back every int and long Set writes |
| ValueCodec.DocumentedArrayRoundTrip | SettingsDemo/Unclassified/Util/RegistrySettingsStore.cs:530-544 | the corrected array getter reads back the comma-joined text of every non-empty number array |
| ValueCodec.DocumentedIntsRoundTrip | SettingsDemo/Unclassified/Util/RegistrySettingsStore.cs:213-219 | the corrected GetIntArray reads back every non-empty int[] Set writes |
| ValueCodec.DocumentedLongsRoundTrip | SettingsDemo/Unclassified/Util/RegistrySettingsStore.cs:224-229 | the corrected GetLongArray reads back every non-empty long[] Set writes |
| ValueCodec.SettingRoundTrip | SettingsDemo/Unclassified/Util/RegistrySettingsStore.cs:163-307 | every value Set accepts reads back unchanged through the getter for its type |
| ValueCodec.UnsetReadsEmpty | SettingsDemo/Unclassified/Util/RegistrySettingsStore.cs:455-844 | an unset key reads as the fallback in every scalar getter and as an empty array or collection in every array getter |
| RegistryStore.SplitPathShape | SettingsDemo/Unclassified/Util/RegistrySettingsStore.cs:875-885 | the value name holds no dot; the registry key is the base key iff the setting key has no dot, and otherwise lies below it |
| RegistryStore.SplitPathRoundTrip | SettingsDemo/Unclassified/Util/RegistrySettingsStore.cs:875-885 | turning the sub-key path back into dots and appending the value name gives the setting key again |
| RegistryStore.SplitPathInjective | SettingsDemo/Unclassified/Util/RegistrySettingsStore.cs:875-885 | two setting keys without backslashes that map to the same place are equal |
| RegistryStore.SettingKeySplits | SettingsDemo/Unclassified/Util/RegistrySettingsStore.cs:875-885 | every place at or below the base key whose names hold no dot is reached from its dotted setting key |
| RegistryStore.GetParentRegKey | SettingsDemo/Unclassified/Util/RegistrySettingsStore.cs:887-898 | a parent returned joins with the child name, which holds no backslash, to give the input key |
| RegistryStore.GetParentRegKeyOf | SettingsDemo/Unclassified/Util/RegistrySettingsStore.cs:887-898 | a key one level below a parent that is not a bare HKEY_ name has exactly that parent |
| RegistryStore.GetParentRegKeyNone | SettingsDemo/Unclassified/Util/RegistrySettingsStore.cs:890-896 | a key without backslashes, or one right below a bare HKEY_ hive name, has no parent |
| RegistryStore.PruneFromSpec | SettingsDemo/Unclassified/Util/RegistrySettingsStore.cs:337-349 | the pruning loop keeps the tree closed under parents, changes no key it keeps, and deletes only empty keys at or above the start that are not the base key |
| RegistryStore.PruneStops | SettingsDemo/Unclassified/Util/RegistrySettingsStore.cs:336-349 | pruning deletes every key it should: it stops only at a key at or above the start that still has values or sub-keys, equals the base key ignoring case, or has no parent, and every key from the start up to that key is gone |
| RegistryStore.PruneFromLookup | SettingsDemo/Unclassified/Util/RegistrySettingsStore.cs:337-349 | pruning changes no value lookup |
| RegistryStore.RemoveSpec | SettingsDemo/Unclassified/Util/RegistrySettingsStore.cs:314-359 | removal reports true iff the setting was set; afterwards it is unset, every other value is unchanged, the tree is still closed under parents, and the base key survives; when the value existed, pruning went up to a key that still has values or sub-keys, is the base key or has no parent, and deleted every key below it on the way |
| RegistryStore.StoredAfterRemove | SettingsDemo/Unclassified/Util/RegistrySettingsStore.cs:314-359 | after removing a key, every other setting key reads what it read before |
| RegistryStore.StoredAfterSet | SettingsDemo/Unclassified/Util/RegistrySettingsStore.cs:186-304 | after writing a key it reads the written value, and every other setting key reads what it read before |
| RegistryStore.SetOutcomeValid | SettingsDemo/Unclassified/Util/RegistrySettingsStore.cs:163-307 | a successful Set keeps the tree closed under parents |
| RegistryStore.SetThenRead | SettingsDemo/Unclassified/Util/RegistrySettingsStore.cs:163-307 | a value Set accepts reads back unchanged from the setting key through the getter for its type |
| RegistryStore.RenameSpec | SettingsDemo/Unclassified/Util/RegistrySettingsStore.cs:367-388 | Rename reports true iff the old key was set; the new key then reads the old value and the old key (when different) reads nothing; other keys are unchanged; an unset old key changes nothing |
| RegistryStore.ListValues | SettingsDemo/Unclassified/Util/RegistrySettingsStore.cs:902 | the names appended are the labels of the key's values, each once |
| RegistryStore.GetKeysListsValueNames | SettingsDemo/Unclassified/Util/RegistrySettingsStore.cs:900-913 | with setting "a.x" set below base "B", the listing holds only "x"; "a.x" reads a value but is not listed, and "x" is listed but reads nothing |
| RegistryStore.StoredKeysAreListed | SettingsDemo/Unclassified/Util/RegistrySettingsStore.cs:398-417 | every setting key that reads a value appears in the full-name listing |
| RegistryStore.ListedKeysAreStored | SettingsDemo/Unclassified/Util/RegistrySettingsStore.cs:398-417 | every full name listed reads a value, when no name below the base key holds a dot |
| RegistryStore.RegistrySettingsStore.constructor | SettingsDemo/Unclassified/Util/RegistrySettingsStore.cs:65-79 | the store opens on the local-machine hive iff global, not disposed, with no change reported |
| RegistryStore.RegistrySettingsStore.Writable | SettingsDemo/Unclassified/Util/RegistrySettingsStore.cs:53-56 | the two-argument constructor opens the store writable |
| RegistryStore.RegistrySettingsStore.Set | SettingsDemo/Unclassified/Util/RegistrySettingsStore.cs:163-307 | throws Disposed, then ReadOnly; a null value removes the key; otherwise it writes the encoded value or throws the encoding's error without writing; the key is reported after each successful write |
| RegistryStore.RegistrySettingsStore.Remove | SettingsDemo/Unclassified/Util/RegistrySettingsStore.cs:314-359 | throws Disposed, then ReadOnly; otherwise it reports whether the value existed, deletes it and prunes emptied keys; the key is reported iff a value was deleted |
| RegistryStore.RegistrySettingsStore.PruneEmptied | SettingsDemo/Unclassified/Util/RegistrySettingsStore.cs:336-349 | the while loop deletes emptied keys upwards and ends with the tree PruneFrom gives, still closed under parents |
| RegistryStore.RegistrySettingsStore.Rename | SettingsDemo/Unclassified/Util/RegistrySettingsStore.cs:367-388 | throws Disposed, then ReadOnly; otherwise it moves the old key's value to the new key and reports old, old, new, new (Remove and Set each report once more) |
| RegistryStore.RegistrySettingsStore.Get | SettingsDemo/Unclassified/Util/RegistrySettingsStore.cs:429-447 | throws Disposed; otherwise it returns the value at the setting's place, or nothing |
| RegistryStore.RegistrySettingsStore.GetBool | SettingsDemo/Unclassified/Util/RegistrySettingsStore.cs:467-477 | the bool the stored value denotes, or the fallback |
| RegistryStore.RegistrySettingsStore.GetBoolArray | SettingsDemo/Unclassified/Util/RegistrySettingsStore.cs:485-494 | each comma-separated piece other than "0" reads true; unset reads as empty |
| RegistryStore.RegistrySettingsStore.GetInt | SettingsDemo/Unclassified/Util/RegistrySettingsStore.cs:514-527 | the stored number in the 32-bit range, or the fallback when unset or not a number, or the overflow or cast error |
| RegistryStore.RegistrySettingsStore.GetIntArray | SettingsDemo/Unclassified/Util/RegistrySettingsStore.cs:535-544 | the comma-separated 32-bit numbers; unset reads as empty; a bad piece throws |
| RegistryStore.RegistrySettingsStore.GetLong | SettingsDemo/Unclassified/Util/RegistrySettingsStore.cs:564-577 | the stored number in the 64-bit range, or the fallback when unset or not a number, or the overflow or cast error |
| RegistryStore.RegistrySettingsStore.GetLongArray | SettingsDemo/Unclassified/Util/RegistrySettingsStore.cs:585-594 | the comma-separated 64-bit numbers; unset reads as empty; a bad piece throws |
| RegistryStore.RegistrySettingsStore.GetString | SettingsDemo/Unclassified/Util/RegistrySettingsStore.cs:712-718 | the invariant-culture text of the stored value, or the fallback when unset |
| RegistryStore.RegistrySettingsStore.GetStringArray | SettingsDemo/Unclassified/Util/RegistrySettingsStore.cs:726-732 | the stored multi-string, or empty for any other kind |
| RegistryStore.RegistrySettingsStore.GetTimeSpan | SettingsDemo/Unclassified/Util/RegistrySettingsStore.cs:802-805 | the ticks GetLong reads, with the fallback's ticks |
| RegistryStore.RegistrySettingsStore.GetTimeSpanArray | SettingsDemo/Unclassified/Util/RegistrySettingsStore.cs:813-822 | the comma-separated ticks; unset reads as empty |
| RegistryStore.RegistrySettingsStore.GetNumberOrFallback | SettingsDemo/Unclassified/Util/RegistrySettingsStore.cs:508-527 | the corrected GetInt/GetLong: throws Disposed; otherwise the stored number, or the fallback when the key is unset or its value does not convert to the width |
| RegistryStore.RegistrySettingsStore.GetNumbersOrEmpty | SettingsDemo/Unclassified/Util/RegistrySettingsStore.cs:530-544 | the corrected GetIntArray/GetLongArray: throws Disposed; otherwise the comma-separated numbers, or empty when the key is unset or a piece does not convert |
| RegistryStore.RegistrySettingsStore.GetNameValueCollection | SettingsDemo/Unclassified/Util/RegistrySettingsStore.cs:830-844 | the collection decoded from a stored multi-string; empty for anything else |
| RegistryStore.RegistrySettingsStore.GetValuesRecursive | SettingsDemo/Unclassified/Util/RegistrySettingsStore.cs:900-913 | appends, to what the list held, the labels of every value at or below the key, each once |
| RegistryStore.RegistrySettingsStore.GetKeys | SettingsDemo/Unclassified/Util/RegistrySettingsStore.cs:398-417 | throws Disposed; otherwise a case-insensitively sorted permutation of the bare value names at or below the base key, empty when the base key is missing |
| RegistryStore.RegistrySettingsStore.GetSettingKeys | SettingsDemo/Unclassified/Util/RegistrySettingsStore.cs:398-417 | the corrected GetKeys: a case-insensitively sorted permutation of the full dotted setting keys of every value below the base key |
| RegistryStore.RegistrySettingsStore.Dispose | SettingsDemo/Unclassified/Util/RegistrySettingsStore.cs:922-932 | the store is disposed afterwards, also when called again, and nothing is reported |
| Multimap.RemoveFirst | SettingsDemo/Unclassified/Util/CollectionDictionary.cs:198 | List.Remove drops one occurrence of a value that is present, so the list is one shorter with the same other values, and leaves the list alone otherwise |
| Multimap.RemoveFirstAt | SettingsDemo/Unclassified/Util/CollectionDictionary.cs:198 | the occurrence List.Remove drops is the first one, and the values before and after it keep their order |
| Multimap.TotalCountRemove | SettingsDemo/Unclassified/Util/CollectionDictionary.cs:140-151 | the value count is one key's list length plus the count of the rest |
| Multimap.AddToSpec | SettingsDemo/Unclassified/Util/CollectionDictionary.cs:158-167 | Add appends the value to the key's list, creating it, raises the value count by one and leaves other keys alone |
| Multimap.AddRangeIsAdds | SettingsDemo/Unclassified/Util/CollectionDictionary.cs:174-186 | AddRange of values is Add of each in turn and raises the count by their number |
| Multimap.AddRangeNoneCreates | SettingsDemo/Unclassified/Util/CollectionDictionary.cs:174-186 | AddRange of no values still creates the key, with an empty list |
| Multimap.RemoveFromSpec | SettingsDemo/Unclassified/Util/CollectionDictionary.cs:193-204 | RemoveValue drops the first occurrence from the key's list and keeps the other values in order, leaves the list unchanged when the value is absent, deletes the key when its list becomes empty, lowers the count by one iff the value was there, and leaves other keys alone |
| Multimap.RemoveUndoesAdd | SettingsDemo/Unclassified/Util/CollectionDictionary.cs:158-204 | removing a value just added, that was not in a non-empty list before, gives the dictionary back |
| Multimap.RemoveFirstAppend | SettingsDemo/Unclassified/Util/CollectionDictionary.cs:198 | removing a value from a list it was just appended to, and in which it did not occur, gives the list back |
| Multimap.SingletonsCount | SettingsDemo/Unclassified/Util/CollectionDictionary.cs:123-131 | loading a dictionary yields one value per key |
| Multimap.CollectionDictionary.constructor | SettingsDemo/Unclassified/Util/CollectionDictionary.cs:52-54 | a new multimap is empty |
| Multimap.CollectionDictionary.FromDictionary | SettingsDemo/Unclassified/Util/CollectionDictionary.cs:62-65 | the new multimap maps each key of the dictionary to the one-element list of its value |
| Multimap.CollectionDictionary.LoadFromDictionary | SettingsDemo/Unclassified/Util/CollectionDictionary.cs:123-131 | each key of the dictionary is added with the one-element list of its value, keeping what was there |
| Multimap.CollectionDictionary.ValueCount | SettingsDemo/Unclassified/Util/CollectionDictionary.cs:140-151 | the sum of the list lengths over all keys |
| Multimap.CollectionDictionary.Add | SettingsDemo/Unclassified/Util/CollectionDictionary.cs:158-167 | the state becomes the one AddToSpec describes |
| Multimap.CollectionDictionary.AddRange | SettingsDemo/Unclassified/Util/CollectionDictionary.cs:174-186 | the key's list is extended by the values in order, created if missing |
| Multimap.CollectionDictionary.RemoveValue | SettingsDemo/Unclassified/Util/CollectionDictionary.cs:193-204 | the state becomes the one RemoveFromSpec describes |
| Multimap.CollectionDictionary.ContainsValue | SettingsDemo/Unclassified/Util/CollectionDictionary.cs:211-218 | true iff some key's list holds the value |
| Multimap.CollectionDictionary.GetValuesOrEmpty | SettingsDemo/Unclassified/Util/CollectionDictionary.cs:226-234 | the key's list when present, an empty list otherwise |
| SettingsHelper.GetLocationDisplayName | SettingsDemo/Unclassified/Util/SettingsHelper.cs:48-67 | throws ArgumentNull iff the store is null, and otherwise names it |
| SettingsHelper.DisplayNameFlags | SettingsDemo/Unclassified/Util/SettingsHelper.cs:52-65 | a read-only registry store's name ends in " [RO]"; an encrypted file store's ends in " [ENC]"; a read-only unencrypted file store's ends in " [RO]" |
| SettingsHelper.StoreDisplayName | SettingsDemo/Unclassified/Util/SettingsHelper.cs:59-65 | the display name of a registry store object ends in " [RO]" when it is read-only, and two stores with the same display name share hive, base key and read-only flag |
| SettingsHelper.RegistryDisplayNameInjective | SettingsDemo/Unclassified/Util/SettingsHelper.cs:59-65 | equal registry display names come from the same hive, base key and read-only flag |
| SettingsHelper.RemoveMatchingShrinks | SettingsDemo/Unclassified/Util/SettingsHelper.cs:80-88 | the loop keeps the tree closed under parents, and every value afterwards is either deleted or unchanged |
| SettingsHelper.RemoveMatchingClears | SettingsDemo/Unclassified/Util/SettingsHelper.cs:80-88 | on a writable store every listed key that matches reads nothing afterwards |
| SettingsHelper.RemoveMatchingKeeps | SettingsDemo/Unclassified/Util/SettingsHelper.cs:80-88 | a value whose place no matching listed key names is left as it was |
| SettingsHelper.RemoveMatchingResult | SettingsDemo/Unclassified/Util/SettingsHelper.cs:80-88 | on a writable store the result is true iff some matching listed key read a value before the loop |
| SettingsHelper.RemoveMatchingReadOnly | SettingsDemo/Unclassified/Util/SettingsHelper.cs:80-88 | on a read-only store the loop throws ReadOnly at the first match without changing anything, and succeeds with false when nothing matches |
| SettingsHelper.RemovePattern | SettingsDemo/Unclassified/Util/SettingsHelper.cs:76-89 | throws ArgumentNull for a null store and Disposed for a disposed one; otherwise its result, hive and reported keys are those of the loop over GetKeys |
| SettingsHelper.RemovePatternFull | SettingsDemo/Unclassified/Util/SettingsHelper.cs:76-89 | the corrected RemovePattern: the same loop over the full setting keys |
| SettingsHelper.RemoveEach | SettingsDemo/Unclassified/Util/SettingsHelper.cs:80-88 | the foreach loop calling Remove on each match ends in the state and result of the loop function |
| SettingsHelper.RemovePatternMissesNested | SettingsDemo/Unclassified/Util/SettingsHelper.cs:76-89 | with setting "a.x" below base "B" and a pattern matching every key, the loop over GetKeys calls Remove only on the bare name "x", which finds nothing: the hive is unchanged, nothing is reported, the result is false and "a.x" is still set |
| SettingsHelper.RemovePatternFullClears | SettingsDemo/Unclassified/Util/SettingsHelper.cs:76-89 | the corrected RemovePattern leaves no matching setting set on a writable store |
| SettingsHelper.RemovePatternFullKeeps | SettingsDemo/Unclassified/Util/SettingsHelper.cs:76-89 | the corrected RemovePattern leaves every non-matching setting as it was |
| ColorCodec.HexValueOfDigit | SettingsDemo/Unclassified/Util/SettingsHelper.Forms.cs:80-83 | a hex digit written for a value reads back as that value |
| ColorCodec.HexDigitOfValue | SettingsDemo/Unclassified/Util/SettingsHelper.Forms.cs:98 | reading a hex character and writing it back gives its lower-case form |
| ColorCodec.HexNumberPair | SettingsDemo/Unclassified/Util/SettingsHelper.Forms.cs:98 | appending two hex digits multiplies the number by 256 and adds their value |
| ColorCodec.Hex2RoundTrip | SettingsDemo/Unclassified/Util/SettingsHelper.Forms.cs:80-83 | the two-digit lower-case hex form of a byte reads back as that byte |
| ColorCodec.Hex2OfPair | SettingsDemo/Unclassified/Util/SettingsHelper.Forms.cs:80-83 | the two-digit form of a two-digit hex number is its lower-case text |
| ColorCodec.ChannelsOfArgb | SettingsDemo/Unclassified/Util/SettingsHelper.Forms.cs:99-104 | the shifts and masks recover the four bytes of a packed ARGB value |
| ColorCodec.StripHash | SettingsDemo/Unclassified/Util/SettingsHelper.Forms.cs:93-94 | the text is unchanged or had exactly one leading '#' removed |
| ColorCodec.StringToColor | SettingsDemo/Unclassified/Util/SettingsHelper.Forms.cs:91-105 | succeeds iff, after removing one '#', six or eight hex digits remain; every failure is a FormatException |
| ColorCodec.DigitsOfColor | SettingsDemo/Unclassified/Util/SettingsHelper.Forms.cs:78-84 | the digits after '#' are hex, six for an opaque colour and eight otherwise, and denote the colour's packed ARGB value (alpha 255 implied for six) |
| ColorCodec.ColorRoundTrip | SettingsDemo/Unclassified/Util/SettingsHelper.Forms.cs:78-105 | parsing the text of any ARGB colour gives the colour back |
| ColorCodec.Hex2IsFF | SettingsDemo/Unclassified/Util/SettingsHelper.Forms.cs:80 | a byte's two digits are "ff" iff the byte is 255 |
| ColorCodec.StringToColorCanonical | SettingsDemo/Unclassified/Util/SettingsHelper.Forms.cs:78-105 | re-writing a parsed colour gives the input in canonical form: '#', lower case, a leading "ff" alpha dropped |
| ColorCodec.CanonicalSameColor | SettingsDemo/Unclassified/Util/SettingsHelper.Forms.cs:91-105 | the canonical form of any text parses to the same result as the text |

## Left out

- Double and decimal values and arrays: floating-point and decimal formatting are not modelled. Nor are `DateTime` values and arrays, with their round-trip "o" text. Set treats all of these as an unsupported type in this model.
- Enum unpacking by reflection in `CheckType` and `Set`: an enum value is taken to be its underlying integer already.
- `CheckType`'s exact list of types: the model has one `Unsupported` case for every type the store rejects.
- The `lock (syncLock)` sections: the model is sequential.
- The operating-system registry:
  - Hives are in-memory trees passed to the constructor, chosen by `isGlobal`.
  - Registry key names are compared exactly, though the registry is case-insensitive.
  - Value names are compared exactly too. In the registry, `Set("a.X", 1)` followed by `Get("a.x")` reads 1; in the model the second key reads nothing.
  - Key paths are not normalised. The registry drops a trailing backslash and treats an empty segment as absent, so ".x" (stored at `<base>\`) aliases "x", and "a..x" aliases "a.x". The model keeps such paths distinct. `RegistryStore.SplitPathInjective`, `RegistryStore.StoredAfterSet`, `RegistryStore.StoredAfterRemove` and `RegistryStore.RenameSpec` therefore hold for the program only when setting keys have no empty dot-separated segment.
  - The `HKEY_...` path prefix that `Set` puts in front of the key is not modelled: `Set` writes into the store's hive directly.
  - Failures of the registry API, such as access denied, are not modelled.
- `ValueCodec.NameValueCollection`: an entry with several values is not modelled. The source writes `collection[i]` (RegistrySettingsStore.cs:298), which joins such values with commas, so they read back as one value. The model's collection is a list of single-valued pairs.
- Null strings, null keys and null values inside arrays. A null value passed to `Set` is `None`.
- Culture handling beyond the invariant culture. Case-insensitive comparison folds ASCII letters only.
- `Convert.ToInt32`/`ToInt64` of arbitrary objects: a string converts by an optional sign and decimal digits after trimming. The space and format rules of `NumberStyles.Integer` beyond that are not modelled.
- `ColorCodec.StringToColor`: the "X" hex parse and the `|=`, `>>` and `& 0xff` operations are written as addition, division and remainder. These agree on the non-negative values below 2^32 a six- or eight-digit string can denote.
- `ColorCodec.Color`: a colour is its four ARGB bytes. The name and known-colour state of `System.Drawing.Color` are not modelled.
- `CreateList`/`CreateDictionary`: they hand out bound collection views whose classes are not part of this model.
- The file-backed store: it is not part of this model. `GetLocationDisplayName` sees it only through its file name and flags. Any other store type reaches it by its `ToString()` text.
- `PropertyChanged` is a ghost log of reported keys. The event handlers themselves are not modelled.
- The no-argument getter overloads: each just calls the fallback overload with its default value (false, 0, "", `TimeSpan.Zero`), which is the member modelled.
- `Multimap.CollectionDictionary.ValueCount`: does not model the wrap-around of its `int` counter past 2^31 - 1, because the model's counts are unbounded.
- `Multimap.CollectionDictionary.GetValuesOrEmpty`: does not model that the returned list is the live list, shared with the dictionary, nor that the empty array returned is a shared instance. Lists are values in the model.
- `Multimap.CollectionDictionary.LoadFromDictionary`: requires that none of the dictionary's keys is present yet, where `Dictionary.Add` would throw. It is private and runs only on a new, empty instance.
- `Multimap.CollectionDictionary`: custom key comparers are not modelled (keys are compared by equality). Nor are the other `Dictionary` members the class inherits.
- `SettingsHelper.RemovePattern`: the regular expression is an abstract predicate on keys. Regex syntax, options and exceptions for malformed patterns are not modelled.
- `Text.SortIgnoreCase`: `List.Sort` is not stable. The model promises only what the code does: a sorted permutation.
- `GetAppDataPath` and `BindWindowState` depend on the environment and on UI binding, and are not modelled.

## Findings

| source | as written | input that shows it | evidently intended | confidence | as-written member | corrected member |
|---|---|---|---|---|---|---|
| SettingsDemo/Unclassified/Util/RegistrySettingsStore.cs:900-913 | `GetKeys` collects the bare value names of every key below the base key. So `SettingsHelper.RemovePattern`, which removes each listed key, never removes a nested setting. | Setting "a.x" under base key "B" (tree {"B": {}, "B\a": {"x": "1"}}): GetKeys lists "x". Removing "x" removes nothing. "a.x" stays set, and RemovePattern with an all-matching pattern returns false. | `GetKeys` returns the full dotted setting keys ("a.x"), which read back through `Get` and are removed by `Remove`. | not executed | RegistryStore.GetKeysListsValueNames, SettingsHelper.RemovePatternMissesNested | RegistryStore.RegistrySettingsStore.GetSettingKeys, RegistryStore.StoredKeysAreListed, RegistryStore.ListedKeysAreStored, SettingsHelper.RemovePatternFull, SettingsHelper.RemovePatternFullClears, SettingsHelper.RemovePatternFullKeeps |
| SettingsDemo/Unclassified/Util/RegistrySettingsStore.cs:508-544 | `GetInt`/`GetLong` catch only `FormatException`, and `GetIntArray`/`GetLongArray` catch nothing. So an incompatible stored value throws, although the doc comments at :508-509 and :530-531 promise the fallback or an empty array. | A QWORD 2^31 read by `GetInt(key, 0)` throws OverflowException. A stored `string[]` read by `GetInt` throws InvalidCastException. The same `string[]` read by `GetIntArray` throws FormatException on its text "System.String[]". | The getter returns the fallback, or an empty array, for any value that does not convert. It still reads back every number and non-empty number array `Set` writes. | not executed | ValueCodec.IntOverflowRaises, ValueCodec.FallbackOnIncompatible, ValueCodec.ArrayOfIncompatible | RegistryStore.RegistrySettingsStore.GetNumberOrFallback, RegistryStore.RegistrySettingsStore.GetNumbersOrEmpty, ValueCodec.NumberOrFallback, ValueCodec.NumbersOrEmpty, ValueCodec.NumberOrFallbackAgrees, ValueCodec.IntArrayAgrees, ValueCodec.LongArrayAgrees, ValueCodec.DocumentedNumberRoundTrip, ValueCodec.DocumentedIntsRoundTrip, ValueCodec.DocumentedLongsRoundTrip |
