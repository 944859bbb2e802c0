/** The pieces of System.String and of invariant-culture number formatting and parsing
    that the settings store relies on. */
module Text {
  import opened Common

  // ---------------------------------------------------------------------------
  // Searching and replacing characters
  // ---------------------------------------------------------------------------

  /** String.IndexOf(char): the first position of c in s, or -1. */
  function IndexOf(s: string, c: char): (r: int)
    ensures -1 <= r < |s|
    ensures r == -1 <==> c !in s
    ensures r >= 0 ==> s[r] == c && c !in s[..r]
    decreases |s|
  {
    if |s| == 0 then -1
    else if s[0] == c then 0
    else
      var k := IndexOf(s[1..], c);
      assert s[1..][..(if k < 0 then 0 else k)] == s[1..1 + (if k < 0 then 0 else k)];
      if k < 0 then -1 else k + 1
  }

  lemma IndexOfAt(s: string, c: char, i: nat)
    requires i < |s| && s[i] == c && c !in s[..i]
    ensures IndexOf(s, c) == i
  {
    var r := IndexOf(s, c);
    assert c !in s[..r];
  }

  /** String.LastIndexOf(char): the last position of c in s, or -1. */
  function LastIndexOf(s: string, c: char): (r: int)
    ensures -1 <= r < |s|
    ensures r == -1 <==> c !in s
    ensures r >= 0 ==> s[r] == c && c !in s[r + 1..]
    decreases |s|
  {
    if |s| == 0 then -1
    else if s[|s| - 1] == c then |s| - 1
    else
      var t := s[..|s| - 1];
      var k := LastIndexOf(t, c);
      assert s == t + [s[|s| - 1]];
      if k < 0 then -1
      else
        assert s[k + 1..] == t[k + 1..] + [s[|s| - 1]];
        k
  }

  lemma LastIndexOfAt(s: string, c: char, i: nat)
    requires i < |s| && s[i] == c && c !in s[i + 1..]
    ensures LastIndexOf(s, c) == i
  {
  }

  /** String.Replace(char, char): every occurrence of a becomes b. */
  function ReplaceChar(s: string, a: char, b: char): (r: string)
    ensures |r| == |s|
    ensures forall i :: 0 <= i < |s| ==> r[i] == (if s[i] == a then b else s[i])
    decreases |s|
  {
    if |s| == 0 then ""
    else [if s[0] == a then b else s[0]] + ReplaceChar(s[1..], a, b)
  }

  lemma ReplaceCharRemoves(s: string, a: char, b: char)
    requires a != b
    ensures a !in ReplaceChar(s, a, b)
  {
    var r := ReplaceChar(s, a, b);
    forall i | 0 <= i < |r| ensures r[i] != a { }
  }

  /** Replacing a character that does not occur changes nothing. */
  lemma ReplaceCharAbsent(s: string, a: char, b: char)
    requires a !in s
    ensures ReplaceChar(s, a, b) == s
  {
    var r := ReplaceChar(s, a, b);
    assert forall i :: 0 <= i < |s| ==> r[i] == s[i];
  }

  /** Replacing a by b and then b by a restores a string that held no b. */
  lemma ReplaceCharInverse(s: string, a: char, b: char)
    requires b !in s
    ensures ReplaceChar(ReplaceChar(s, a, b), b, a) == s
  {
    var r := ReplaceChar(s, a, b);
    var t := ReplaceChar(r, b, a);
    forall i | 0 <= i < |s| ensures t[i] == s[i] {
      if s[i] == a { assert r[i] == b; } else { assert r[i] == s[i]; assert s[i] != b; }
    }
  }

  lemma ReplaceCharConcat(s: string, t: string, a: char, b: char)
    ensures ReplaceChar(s + t, a, b) == ReplaceChar(s, a, b) + ReplaceChar(t, a, b)
  {
    var l := ReplaceChar(s + t, a, b);
    var rr := ReplaceChar(s, a, b) + ReplaceChar(t, a, b);
    forall i | 0 <= i < |s + t| ensures l[i] == rr[i] {
      if i < |s| { assert (s + t)[i] == s[i]; } else { assert (s + t)[i] == t[i - |s|]; }
    }
  }

  // ---------------------------------------------------------------------------
  // Case folding (ordinal comparisons ignoring case)
  // ---------------------------------------------------------------------------

  /** Upper-case folding of one character, as StringComparison.OrdinalIgnoreCase does it. */
  function UpperChar(c: char): char
  {
    if 'a' <= c <= 'z' then (c as int - 32) as char else c
  }

  /** Lower-case mapping of one character, as String.ToLower does it to ASCII letters. */
  function LowerChar(c: char): char
  {
    if 'A' <= c <= 'Z' then (c as int + 32) as char else c
  }

  /** String.ToLower() on the characters whose mapping matters here. */
  function ToLower(s: string): string
  {
    seq(|s|, i requires 0 <= i < |s| => LowerChar(s[i]))
  }

  /** String.Equals(a, b, StringComparison.OrdinalIgnoreCase): equal after folding every
      character by UpperChar. */
  predicate EqualsIgnoreCase(a: string, b: string)
    decreases |a|
  {
    |a| == |b| && (|a| == 0 || (UpperChar(a[0]) == UpperChar(b[0]) && EqualsIgnoreCase(a[1..], b[1..])))
  }

  /** Equality ignoring case is an equivalence relation. */
  lemma {:induction false} EqualsIgnoreCaseTransitive(a: string, b: string, c: string)
    requires EqualsIgnoreCase(a, b) && EqualsIgnoreCase(b, c)
    ensures EqualsIgnoreCase(a, c)
    decreases |a|
  {
    if |a| > 0 {
      EqualsIgnoreCaseTransitive(a[1..], b[1..], c[1..]);
    }
  }

  lemma {:induction false} EqualsIgnoreCaseSymmetric(a: string, b: string)
    requires EqualsIgnoreCase(a, b)
    ensures EqualsIgnoreCase(b, a)
    decreases |a|
  {
    if |a| > 0 {
      EqualsIgnoreCaseSymmetric(a[1..], b[1..]);
    }
  }

  lemma {:induction false} EqualsIgnoreCaseReflexive(a: string)
    ensures EqualsIgnoreCase(a, a)
    decreases |a|
  {
    if |a| > 0 {
      EqualsIgnoreCaseReflexive(a[1..]);
    }
  }

  /** s.StartsWith(prefix, StringComparison.OrdinalIgnoreCase) */
  predicate StartsWithIgnoreCase(s: string, prefix: string)
  {
    |prefix| <= |s| && EqualsIgnoreCase(s[..|prefix|], prefix)
  }

  /** String.Compare(a, b, StringComparison.OrdinalIgnoreCase) <= 0: ordinal lexicographic
      order of the upper-case folded strings. */
  predicate LessOrEqualIgnoreCase(a: string, b: string)
    decreases |a|
  {
    if |a| == 0 then true
    else if |b| == 0 then false
    else if UpperChar(a[0]) != UpperChar(b[0]) then UpperChar(a[0]) < UpperChar(b[0])
    else LessOrEqualIgnoreCase(a[1..], b[1..])
  }

  lemma {:induction false} LessOrEqualIgnoreCaseTotal(a: string, b: string)
    ensures LessOrEqualIgnoreCase(a, b) || LessOrEqualIgnoreCase(b, a)
    decreases |a|
  {
    if |a| > 0 && |b| > 0 && UpperChar(a[0]) == UpperChar(b[0]) {
      LessOrEqualIgnoreCaseTotal(a[1..], b[1..]);
    }
  }

  lemma {:induction false} LessOrEqualIgnoreCaseTransitive(a: string, b: string, c: string)
    requires LessOrEqualIgnoreCase(a, b) && LessOrEqualIgnoreCase(b, c)
    ensures LessOrEqualIgnoreCase(a, c)
    decreases |a|
  {
    if |a| > 0 && |b| > 0 && |c| > 0
       && UpperChar(a[0]) == UpperChar(b[0]) && UpperChar(b[0]) == UpperChar(c[0]) {
      LessOrEqualIgnoreCaseTransitive(a[1..], b[1..], c[1..]);
    }
  }

  // ---------------------------------------------------------------------------
  // Sorting by case-insensitive ordinal order (List<string>.Sort with that comparison)
  // ---------------------------------------------------------------------------

  ghost predicate SortedIgnoreCase(s: seq<string>)
  {
    forall i, j :: 0 <= i < j < |s| ==> LessOrEqualIgnoreCase(s[i], s[j])
  }

  function InsertIgnoreCase(x: string, s: seq<string>): seq<string>
    decreases |s|
  {
    if |s| == 0 then [x]
    else if LessOrEqualIgnoreCase(x, s[0]) then [x] + s
    else [s[0]] + InsertIgnoreCase(x, s[1..])
  }

  function SortIgnoreCase(s: seq<string>): seq<string>
    decreases |s|
  {
    if |s| == 0 then [] else InsertIgnoreCase(s[0], SortIgnoreCase(s[1..]))
  }

  lemma {:induction false} InsertIgnoreCaseElements(x: string, s: seq<string>)
    ensures multiset(InsertIgnoreCase(x, s)) == multiset(s) + multiset{x}
    ensures forall e :: e in InsertIgnoreCase(x, s) <==> e == x || e in s
    decreases |s|
  {
    if |s| > 0 && !LessOrEqualIgnoreCase(x, s[0]) {
      InsertIgnoreCaseElements(x, s[1..]);
      assert s == [s[0]] + s[1..];
    }
  }

  /** A sorted sequence stays sorted when an element no greater than all of it is put in
      front. */
  lemma ConsSortedIgnoreCase(h: string, t: seq<string>)
    requires SortedIgnoreCase(t)
    requires forall k :: 0 <= k < |t| ==> LessOrEqualIgnoreCase(h, t[k])
    ensures SortedIgnoreCase([h] + t)
  {
    var r := [h] + t;
    forall i, j | 0 <= i < j < |r| ensures LessOrEqualIgnoreCase(r[i], r[j]) {
      if i == 0 { assert r[j] == t[j - 1]; } else { assert r[i] == t[i - 1] && r[j] == t[j - 1]; }
    }
  }

  lemma {:induction false} InsertIgnoreCaseCorrect(x: string, s: seq<string>)
    requires SortedIgnoreCase(s)
    ensures multiset(InsertIgnoreCase(x, s)) == multiset(s) + multiset{x}
    ensures SortedIgnoreCase(InsertIgnoreCase(x, s))
    decreases |s|
  {
    InsertIgnoreCaseElements(x, s);
    if |s| == 0 {
    } else if LessOrEqualIgnoreCase(x, s[0]) {
      forall k | 0 <= k < |s| ensures LessOrEqualIgnoreCase(x, s[k]) {
        if k > 0 { LessOrEqualIgnoreCaseTransitive(x, s[0], s[k]); }
      }
      ConsSortedIgnoreCase(x, s);
    } else {
      LessOrEqualIgnoreCaseTotal(x, s[0]);
      var tail := s[1..];
      InsertIgnoreCaseCorrect(x, tail);
      InsertIgnoreCaseElements(x, tail);
      var it := InsertIgnoreCase(x, tail);
      forall k | 0 <= k < |it| ensures LessOrEqualIgnoreCase(s[0], it[k]) {
        assert it[k] in it;
        if it[k] != x {
          var m :| 0 <= m < |tail| && tail[m] == it[k];
          assert s[m + 1] == it[k];
        }
      }
      ConsSortedIgnoreCase(s[0], it);
    }
  }

  /** The sort yields an ordered permutation of its input. */
  lemma {:induction false} SortIgnoreCaseCorrect(s: seq<string>)
    ensures multiset(SortIgnoreCase(s)) == multiset(s)
    ensures SortedIgnoreCase(SortIgnoreCase(s))
    decreases |s|
  {
    if |s| > 0 {
      SortIgnoreCaseCorrect(s[1..]);
      InsertIgnoreCaseCorrect(s[0], SortIgnoreCase(s[1..]));
      assert s == [s[0]] + s[1..];
    }
  }

  // ---------------------------------------------------------------------------
  // White space and trimming
  // ---------------------------------------------------------------------------

  /** Char.IsWhiteSpace: the characters String.Trim() removes. */
  predicate IsWhiteSpace(c: char)
  {
    ('\U{9}' <= c <= '\U{D}') || c == ' ' || c == '\U{85}' || c == '\U{A0}' || c == '\U{1680}'
    || ('\U{2000}' <= c <= '\U{200A}') || c == '\U{2028}' || c == '\U{2029}' || c == '\U{202F}'
    || c == '\U{205F}' || c == '\U{3000}'
  }

  /** The white space that NumberStyles.AllowLeadingWhite/AllowTrailingWhite accept. */
  predicate IsNumberWhite(c: char)
  {
    ('\U{9}' <= c <= '\U{D}') || c == ' '
  }

  /** The number of leading characters satisfying isWhite. */
  function LeadingWhite(s: string, isWhite: char -> bool): (n: nat)
    ensures n <= |s|
    ensures forall k :: 0 <= k < n ==> isWhite(s[k])
    ensures n < |s| ==> !isWhite(s[n])
    decreases |s|
  {
    if |s| == 0 || !isWhite(s[0]) then 0 else 1 + LeadingWhite(s[1..], isWhite)
  }

  /** The start of the run of trailing characters satisfying isWhite that lies at or
      after position lo. */
  function TrailingWhite(s: string, isWhite: char -> bool, lo: nat): (m: nat)
    requires lo <= |s|
    ensures lo <= m <= |s|
    ensures forall k :: m <= k < |s| ==> isWhite(s[k])
    ensures m > lo ==> !isWhite(s[m - 1])
    decreases |s|
  {
    if |s| == lo || !isWhite(s[|s| - 1]) then |s|
    else TrailingWhite(s[..|s| - 1], isWhite, lo)
  }

  /** Strips leading and trailing characters satisfying isWhite. */
  function TrimBy(s: string, isWhite: char -> bool): string
  {
    var n := LeadingWhite(s, isWhite);
    s[n..TrailingWhite(s, isWhite, n)]
  }

  lemma TrimByNoWhite(s: string, isWhite: char -> bool)
    requires forall k :: 0 <= k < |s| ==> !isWhite(s[k])
    ensures TrimBy(s, isWhite) == s
  {
    var n := LeadingWhite(s, isWhite);
    assert n == 0 by { assert n < |s| || |s| == 0; }
    assert TrailingWhite(s, isWhite, 0) == |s|;
  }

  /** String.Trim() */
  function Trim(s: string): string
  {
    TrimBy(s, IsWhiteSpace)
  }

  // ---------------------------------------------------------------------------
  // Splitting and joining on a separator character
  // ---------------------------------------------------------------------------

  /** String.Split(sep): the pieces between separators, empty pieces included. */
  function Split(s: string, sep: char): (r: seq<string>)
    ensures |r| > 0
    decreases |s|
  {
    var i := IndexOf(s, sep);
    if i < 0 then [s] else [s[..i]] + Split(s[i + 1..], sep)
  }

  /** Aggregate((a, b) => a + sep + b) over a non-empty sequence: a left fold. */
  function JoinWith(parts: seq<string>, sep: char): string
    requires |parts| > 0
    decreases |parts|
  {
    if |parts| == 1 then parts[0]
    else JoinWith(parts[..|parts| - 1], sep) + [sep] + parts[|parts| - 1]
  }

  lemma {:induction false} JoinWithCons(first: string, rest: seq<string>, sep: char)
    requires |rest| > 0
    ensures JoinWith([first] + rest, sep) == first + [sep] + JoinWith(rest, sep)
    decreases |rest|
  {
    var all := [first] + rest;
    if |rest| == 1 {
      assert all[..1] == [first];
    } else {
      assert all[..|all| - 1] == [first] + rest[..|rest| - 1];
      JoinWithCons(first, rest[..|rest| - 1], sep);
    }
  }

  /** Splitting the join of separator-free pieces gives the pieces back. */
  lemma {:induction false} SplitJoinWith(parts: seq<string>, sep: char)
    requires |parts| > 0
    requires forall k :: 0 <= k < |parts| ==> sep !in parts[k]
    ensures Split(JoinWith(parts, sep), sep) == parts
    decreases |parts|
  {
    if |parts| == 1 {
    } else {
      var rest := parts[1..];
      assert parts == [parts[0]] + rest;
      JoinWithCons(parts[0], rest, sep);
      var s := JoinWith(parts, sep);
      assert s == parts[0] + [sep] + JoinWith(rest, sep);
      var i := IndexOf(s, sep);
      assert s[|parts[0]|] == sep;
      assert s[..|parts[0]|] == parts[0];
      IndexOfAt(s, sep, |parts[0]|);
      assert s[i + 1..] == JoinWith(rest, sep);
      SplitJoinWith(rest, sep);
    }
  }

  // ---------------------------------------------------------------------------
  // Invariant-culture decimal integers (ToString / Convert.ToInt32 / Convert.ToInt64)
  // ---------------------------------------------------------------------------

  predicate IsDigit(c: char) { '0' <= c <= '9' }

  predicate AllDigits(s: string) { forall k :: 0 <= k < |s| ==> IsDigit(s[k]) }

  function DigitChar(d: nat): (c: char)
    requires d < 10
    ensures IsDigit(c) && c as int - '0' as int == d
  {
    ('0' as int + d) as char
  }

  /** The decimal digits of n, most significant first, without leading zeros. */
  function NatToDecimal(n: nat): (r: string)
    ensures |r| > 0 && AllDigits(r)
    decreases n
  {
    if n < 10 then [DigitChar(n)] else NatToDecimal(n / 10) + [DigitChar(n % 10)]
  }

  /** The value of a string of decimal digits. */
  function DecimalValue(s: string): nat
    requires AllDigits(s)
    decreases |s|
  {
    if |s| == 0 then 0
    else DecimalValue(s[..|s| - 1]) * 10 + (s[|s| - 1] as int - '0' as int)
  }

  lemma {:induction false} DecimalValueOfNat(n: nat)
    ensures DecimalValue(NatToDecimal(n)) == n
    decreases n
  {
    if n >= 10 {
      var s := NatToDecimal(n);
      assert s[..|s| - 1] == NatToDecimal(n / 10);
      DecimalValueOfNat(n / 10);
    }
  }

  /** Int32.ToString / Int64.ToString with the invariant culture. */
  function FormatInt(x: int): (r: string)
    ensures |r| > 0
  {
    if x < 0 then "-" + NatToDecimal(-x) else NatToDecimal(x)
  }

  /** Int32.Parse / Int64.Parse with NumberStyles.Integer, before the range check:
      optional white space around an optional sign and at least one decimal digit.
      None is a FormatException. */
  function ParseInteger(s: string): (r: Option<int>)
    ensures r.Some? ==> |s| > 0
  {
    var t := TrimBy(s, IsNumberWhite);
    if |t| == 0 then None
    else
      var negative := t[0] == '-';
      var digits := if t[0] == '-' || t[0] == '+' then t[1..] else t;
      if |digits| == 0 || !AllDigits(digits) then None
      else
        var v: int := DecimalValue(digits);
        Some(if negative then -v else v)
  }

  lemma FormatIntShape(x: int)
    ensures forall k :: 0 <= k < |FormatInt(x)| ==> IsDigit(FormatInt(x)[k]) || (k == 0 && FormatInt(x)[k] == '-')
  {
  }

  /** Parsing the invariant decimal form of an integer gives the integer back. */
  lemma ParseFormatInt(x: int)
    ensures ParseInteger(FormatInt(x)) == Some(x)
  {
    var s := FormatInt(x);
    FormatIntShape(x);
    TrimByNoWhite(s, IsNumberWhite);
    if x < 0 {
      assert s[1..] == NatToDecimal(-x);
      DecimalValueOfNat(-x);
    } else {
      DecimalValueOfNat(x);
    }
  }

  /** The decimal form of an integer never holds a comma. */
  lemma FormatIntNoComma(x: int)
    ensures ',' !in FormatInt(x)
  {
    FormatIntShape(x);
  }
}
