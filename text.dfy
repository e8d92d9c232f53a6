/**
 * The text pieces of the SVG rendering: Python's `str(int)`, the `minmax` label, Python's
 * `str.replace`, and the placeholder substitution of `get_svg`.
 */
module Text {
  import opened Wrappers

  function DigitChar(d: nat): (c: char)
    requires d < 10
    ensures '0' <= c <= '9'
  {
    (d + '0' as int) as char
  }

  function DigitValue(c: char): nat
  {
    if '0' <= c <= '9' then c as int - '0' as int else 0
  }

  /** Decimal digits of n, most significant first, without leading zeros. */
  function NatToString(n: nat): (s: string)
    ensures |s| >= 1
    ensures forall i :: 0 <= i < |s| ==> '0' <= s[i] <= '9'
    ensures s[0] == '0' ==> n == 0
  {
    if n < 10 then [DigitChar(n)] else NatToString(n / 10) + [DigitChar(n % 10)]
  }

  /** The value of a string of decimal digits. */
  function ParseDigits(s: string): nat
  {
    if s == [] then 0 else 10 * ParseDigits(s[..|s| - 1]) + DigitValue(s[|s| - 1])
  }

  lemma {:induction false} ParseNatToString(n: nat)
    ensures ParseDigits(NatToString(n)) == n
  {
    var s := NatToString(n);
    if n >= 10 {
      assert s[..|s| - 1] == NatToString(n / 10);
      ParseNatToString(n / 10);
    }
  }

  /** Python's `str` (or an f-string) of an int: an optional '-' followed by the digits. */
  function IntToString(i: int): (s: string)
    ensures |s| >= 1
    ensures s[0] == '-' <==> i < 0
    ensures forall k :: 1 <= k < |s| ==> s[k] != '-'
  {
    if i < 0 then "-" + NatToString(-i) else NatToString(i)
  }

  /** Reads back what IntToString writes. */
  function ParseInt(s: string): int
  {
    if |s| > 0 && s[0] == '-' then 0 - ParseDigits(s[1..]) else ParseDigits(s)
  }

  lemma IntToStringRoundTrip(i: int)
    ensures ParseInt(IntToString(i)) == i
  {
    if i < 0 {
      ParseNatToString(-i);
      assert IntToString(i)[1..] == NatToString(-i);
    } else {
      ParseNatToString(i);
    }
  }

  /**
   * The `minmax` label over the already rounded minimum and maximum: one number when they
   * agree, otherwise both joined by '-', in the given order.
   */
  function MinMax(rmin: int, rmax: int): string
  {
    if rmin == rmax then IntToString(rmin) else IntToString(rmin) + "-" + IntToString(rmax)
  }

  /** The first '-' at or after position `from`. */
  function DashFrom(s: string, from: nat): (r: Option<nat>)
    ensures r.Some? ==> from <= r.value < |s| && s[r.value] == '-' &&
                        forall t :: from <= t < r.value ==> s[t] != '-'
    ensures r.None? ==> forall t :: from <= t < |s| ==> s[t] != '-'
    decreases |s| - from
  {
    if from >= |s| then None
    else if s[from] == '-' then Some(from)
    else DashFrom(s, from + 1)
  }

  /**
   * Reads a `minmax` label back: the separator is the first '-' after the first
   * character, since only a leading '-' can belong to a number.
   */
  function ParseMinMax(s: string): (int, int)
  {
    match DashFrom(s, 1)
    case None => (ParseInt(s), ParseInt(s))
    case Some(j) => (ParseInt(s[..j]), ParseInt(s[j + 1..]))
  }

  /** The label is unambiguous: both numbers, in their order, are recovered from it. */
  lemma MinMaxRoundTrip(rmin: int, rmax: int)
    ensures ParseMinMax(MinMax(rmin, rmax)) == (rmin, rmax)
  {
    var a := IntToString(rmin);
    var s := MinMax(rmin, rmax);
    IntToStringRoundTrip(rmin);
    if rmin == rmax {
      assert DashFrom(s, 1).None?;
    } else {
      var b := IntToString(rmax);
      IntToStringRoundTrip(rmax);
      assert forall t :: 1 <= t < |a| ==> s[t] == a[t];
      assert s[|a|] == '-';
      assert DashFrom(s, 1) == Some(|a|);
      assert s[..|a|] == a;
      assert s[|a| + 1..] == b;
    }
  }

  /** Different number pairs never give the same label. */
  lemma MinMaxInjective(a: int, b: int, c: int, d: int)
    requires MinMax(a, b) == MinMax(c, d)
    ensures a == c && b == d
  {
    MinMaxRoundTrip(a, b);
    MinMaxRoundTrip(c, d);
  }

  /** The labels of the unit tests of `minmax` whose rounded values are non-negative. */
  lemma MinMaxExamples()
    ensures MinMax(1, 2) == "1-2" && MinMax(2, 1) == "2-1" && MinMax(1, 1) == "1"
    ensures MinMax(2, 10) == "2-10"
  {
    assert IntToString(10) == NatToString(1) + "0";
  }

  /** The labels of the unit tests of `minmax` with a negative rounded value. */
  lemma MinMaxNegativeExamples()
    ensures MinMax(-2, 10) == "-2-10" && MinMax(2, -10) == "2--10" && MinMax(-2, -10) == "-2--10"
  {
    assert IntToString(10) == "10";
    assert IntToString(-10) == "-" + IntToString(10);
    assert IntToString(-2) == "-2";
  }

  /** Whether `key` occurs in `s` starting at position t. */
  predicate OccursAt(s: string, key: string, t: nat)
  {
    t + |key| <= |s| && s[t..t + |key|] == key
  }

  /**
   * Python's `s.replace(key, value)`: scanning left to right, each occurrence of `key` that
   * does not overlap an earlier one is replaced.  An empty key matches before every
   * character and at the end.
   */
  function ReplaceAll(s: string, key: string, value: string): string
    decreases |s|
  {
    if |key| > 0 && OccursAt(s, key, 0) then value + ReplaceAll(s[|key|..], key, value)
    else if s == [] then (if key == [] then value else [])
    else if key == [] then value + [s[0]] + ReplaceAll(s[1..], key, value)
    else [s[0]] + ReplaceAll(s[1..], key, value)
  }

  /** The lowest position at or after `from` where `key` occurs (Python's `s.find(key, from)`). */
  function FindFrom(s: string, key: string, from: nat): (r: Option<nat>)
    ensures r.Some? ==> from <= r.value && r.value + |key| <= |s|
    decreases |s| - from
  {
    if from + |key| > |s| then None
    else if OccursAt(s, key, from) then Some(from)
    else FindFrom(s, key, from + 1)
  }

  /** FindFrom finds an occurrence, the first one at or after `from`, and fails only when there is none. */
  lemma {:induction false} FindFromFirst(s: string, key: string, from: nat)
    ensures FindFrom(s, key, from).Some? ==>
              OccursAt(s, key, FindFrom(s, key, from).value) &&
              forall t :: from <= t < FindFrom(s, key, from).value ==> !OccursAt(s, key, t)
    ensures FindFrom(s, key, from).None? ==> forall t :: from <= t ==> !OccursAt(s, key, t)
    decreases |s| - from
  {
    if from + |key| <= |s| && !OccursAt(s, key, from) {
      FindFromFirst(s, key, from + 1);
    }
  }

  /** Replacement by repeated search, as `str.replace` is implemented: find, splice, continue after. */
  function ReplaceByFind(s: string, key: string, value: string): string
    requires |key| > 0
    decreases |s|
  {
    match FindFrom(s, key, 0)
    case None => s
    case Some(i) => s[..i] + value + ReplaceByFind(s[i + |key|..], key, value)
  }

  /** A search result moved one position to the right. */
  function ShiftRight(r: Option<nat>): Option<nat>
  {
    match r
    case None => None
    case Some(i) => Some(i + 1)
  }

  lemma TailSlice(s: string, a: nat, b: nat)
    requires a <= b && b + 1 <= |s|
    ensures s[1..][a..b] == s[a + 1..b + 1]
  {
  }

  /** Searching `s` from `from + 1` is searching `s` without its first character from `from`. */
  lemma {:induction false} FindDropFirst(s: string, key: string, from: nat)
    requires |s| > 0
    ensures FindFrom(s, key, from + 1) == ShiftRight(FindFrom(s[1..], key, from))
    decreases |s| - from
  {
    if from + 1 + |key| <= |s| {
      TailSlice(s, from, from + |key|);
      if !OccursAt(s, key, from + 1) {
        FindDropFirst(s, key, from + 1);
      }
    }
  }

  /** ReplaceAll at an occurrence of a non-empty key. */
  lemma ReplaceAllAtKey(s: string, key: string, value: string)
    requires |key| > 0 && OccursAt(s, key, 0)
    ensures ReplaceAll(s, key, value) == value + ReplaceAll(s[|key|..], key, value)
  {
  }

  /** ReplaceAll where no occurrence of a non-empty key starts. */
  lemma ReplaceAllPastChar(s: string, key: string, value: string)
    requires |key| > 0 && |s| > 0 && !OccursAt(s, key, 0)
    ensures ReplaceAll(s, key, value) == [s[0]] + ReplaceAll(s[1..], key, value)
  {
  }

  /** The scanning definition agrees with the search-based one for every non-empty key. */
  lemma {:induction false} ReplaceAllIsReplaceByFind(s: string, key: string, value: string)
    requires |key| > 0
    ensures ReplaceAll(s, key, value) == ReplaceByFind(s, key, value)
    decreases |s|
  {
    if OccursAt(s, key, 0) {
      ReplaceAllAtKey(s, key, value);
      ReplaceByFindAtKey(s, key, value);
      ReplaceAllIsReplaceByFind(s[|key|..], key, value);
    } else if s == [] {
      assert FindFrom(s, key, 0) == None;
    } else {
      ReplaceAllPastChar(s, key, value);
      ReplaceSkipFirst(s, key, value);
      ReplaceAllIsReplaceByFind(s[1..], key, value);
    }
  }

  /** The search-based replacement at an occurrence of the key. */
  lemma ReplaceByFindAtKey(s: string, key: string, value: string)
    requires |key| > 0 && OccursAt(s, key, 0)
    ensures ReplaceByFind(s, key, value) == value + ReplaceByFind(s[|key|..], key, value)
  {
    assert FindFrom(s, key, 0) == Some(0);
    assert s[..0] == [];
  }

  /** Where no occurrence starts at the first character, the search-based replacement keeps it. */
  lemma ReplaceSkipFirst(s: string, key: string, value: string)
    requires |key| > 0 && |s| > 0 && !OccursAt(s, key, 0)
    ensures ReplaceByFind(s, key, value) == [s[0]] + ReplaceByFind(s[1..], key, value)
  {
    FindDropFirst(s, key, 0);
    var r := FindFrom(s[1..], key, 0);
    assert FindFrom(s, key, 0) == FindFrom(s, key, 1) == ShiftRight(r);
    if r.None? {
      assert [s[0]] + s[1..] == s;
    } else {
      SpliceSkipFirst(s, key, value, r.value);
    }
  }

  lemma SpliceSkipFirst(s: string, key: string, value: string, i: nat)
    requires |key| > 0 && |s| > 0
    requires FindFrom(s, key, 0) == Some(i + 1) && FindFrom(s[1..], key, 0) == Some(i)
    ensures ReplaceByFind(s, key, value) == [s[0]] + ReplaceByFind(s[1..], key, value)
  {
    var t := s[1..];
    var rest := ReplaceByFind(s[i + 1 + |key|..], key, value);
    SplitAfterFirst(s, i, i + |key|);
    assert ReplaceByFind(s, key, value) == s[..i + 1] + value + rest;
    assert ReplaceByFind(t, key, value) == t[..i] + value + rest;
  }

  lemma SplitAfterFirst(s: string, i: nat, j: nat)
    requires i <= j && j + 1 <= |s|
    ensures s[1..][j..] == s[j + 1..]
    ensures s[..i + 1] == [s[0]] + s[1..][..i]
  {
  }

  /** A string in which the key does not occur is returned unchanged. */
  lemma {:induction false} ReplaceAbsent(s: string, key: string, value: string)
    requires |key| > 0
    requires forall t: nat :: !OccursAt(s, key, t)
    ensures ReplaceAll(s, key, value) == s
  {
    FindFromFirst(s, key, 0);
    assert FindFrom(s, key, 0).None?;
    ReplaceAllIsReplaceByFind(s, key, value);
  }

  /** The placeholder substitution of `get_svg`: every key, in the listed order. */
  function SubstituteAll(template: string, vars: seq<(string, string)>): string
    decreases |vars|
  {
    if vars == [] then template
    else SubstituteAll(ReplaceAll(template, vars[0].0, vars[0].1), vars[1..])
  }

  /** Substituting two lists is substituting the first, then the second. */
  lemma {:induction false} SubstituteAppend(template: string, first: seq<(string, string)>, second: seq<(string, string)>)
    ensures SubstituteAll(template, first + second) == SubstituteAll(SubstituteAll(template, first), second)
    decreases |first|
  {
    if first != [] {
      assert (first + second)[1..] == first[1..] + second;
      SubstituteAppend(ReplaceAll(template, first[0].0, first[0].1), first[1..], second);
    } else {
      assert first + second == second;
    }
  }

  /** A template in which none of the keys occurs is returned unchanged. */
  lemma {:induction false} SubstituteNoKeys(template: string, vars: seq<(string, string)>)
    requires forall k :: 0 <= k < |vars| ==> |vars[k].0| > 0
    requires forall k, t: nat :: 0 <= k < |vars| ==> !OccursAt(template, vars[k].0, t)
    ensures SubstituteAll(template, vars) == template
    decreases |vars|
  {
    if vars != [] {
      ReplaceAbsent(template, vars[0].0, vars[0].1);
      forall k | 0 <= k < |vars| - 1 ensures vars[1..][k] == vars[k + 1] {
      }
      SubstituteNoKeys(template, vars[1..]);
    }
  }

  /** The loop of `get_svg`, with the template text passed in instead of read from a file. */
  method GetSvg(template: string, vars: seq<(string, string)>) returns (res: string)
    ensures res == SubstituteAll(template, vars)
  {
    res := template;
    for i := 0 to |vars|
      invariant SubstituteAll(res, vars[i..]) == SubstituteAll(template, vars)
    {
      var (variable, value) := vars[i];
      assert vars[i..][1..] == vars[i + 1..];
      res := ReplaceAll(res, variable, value);
    }
    assert vars[|vars|..] == [];
  }
}
