/** Strings: decimal numerals, digests, and the order Go and JavaScript sort ASCII strings by. */
module Text {
  import opened Wrappers

  /** The text form of a SHA-256 digest. */
  predicate IsSha256(s: string) {
    |s| == 64 && forall k :: 0 <= k < |s| ==> '0' <= s[k] <= '9' || 'a' <= s[k] <= 'f'
  }

  // ---------------------------------------------------------------- versions

  function LeadingDigits(s: string): (n: nat)
    ensures n <= |s|
  {
    if s != "" && IsDigit(s[0]) then 1 + LeadingDigits(s[1..]) else 0
  }

  /** What follows a number and, where one is wanted, the dot after it. */
  function AfterNumber(s: string, dotted: bool): Option<string> {
    var n := LeadingDigits(s);
    if n == 0 then None
    else if !dotted then Some(s[n..])
    else if n < |s| && s[n] == '.' then Some(s[n + 1..])
    else None
  }

  /** What follows three numbers with dots between them. */
  function AfterVersion(s: string): Option<string> {
    var minor := AfterNumber(s, true);
    if minor.None? then None else
      var patch := AfterNumber(minor.value, true);
      if patch.None? then None else AfterNumber(patch.value, false)
  }

  lemma PlainVersion()
    ensures AfterVersion("1.0.0") == Some("")
  {
    assert LeadingDigits("1.0.0") == 1 && LeadingDigits("0.0") == 1 && LeadingDigits("0") == 1;
  }

  // ---------------------------------------------------------------- decimal numerals

  function Digit(d: nat): char
    requires d < 10
  {
    "0123456789"[d]
  }

  predicate IsDigit(c: char) {
    '0' <= c <= '9'
  }

  function DigitValue(c: char): (d: nat)
    requires IsDigit(c)
    ensures d < 10
  {
    (c as int - '0' as int) as nat
  }

  /** The minimal numeral of a number. */
  function Decimal(n: nat): (s: string)
    ensures |s| > 0
  {
    if n < 10 then [Digit(n)] else Decimal(n / 10) + [Digit(n % 10)]
  }

  predicate AllDigits(s: string) {
    forall i :: 0 <= i < |s| ==> IsDigit(s[i])
  }

  /** The number a string of digits stands for. */
  function NumeralValue(s: string): nat
    requires AllDigits(s)
  {
    if s == [] then 0 else NumeralValue(s[..|s| - 1]) * 10 + DigitValue(s[|s| - 1])
  }

  lemma {:induction false} DecimalRoundTrip(n: nat)
    ensures AllDigits(Decimal(n)) && NumeralValue(Decimal(n)) == n
    ensures |Decimal(n)| > 1 ==> Decimal(n)[0] != '0'
  {
    if n >= 10 {
      DecimalRoundTrip(n / 10);
      var head := Decimal(n / 10);
      assert Decimal(n)[..|head|] == head;
      assert |head| == 1 ==> n / 10 < 10;
    }
  }

  /** Minimal: no leading zero except in "0" itself. */
  predicate IsMinimalNumeral(s: string) {
    s != [] && AllDigits(s) && (|s| > 1 ==> s[0] != '0')
  }

  lemma DecimalStep(n: nat, d: nat)
    requires d < 10
    ensures Decimal(d) == [Digit(d)]
    ensures n > 0 ==> Decimal(n * 10 + d) == Decimal(n) + [Digit(d)]
  {
    assert (n * 10 + d) / 10 == n && (n * 10 + d) % 10 == d;
  }

  /** Minimal numerals of the same number are the same string. */
  lemma {:induction false} MinimalNumeralIsDecimal(s: string)
    requires IsMinimalNumeral(s)
    ensures s == Decimal(NumeralValue(s))
    ensures NumeralValue(s) == 0 ==> s == "0"
  {
    hide Decimal;
    var last := |s| - 1;
    var digit := DigitValue(s[last]);
    assert Digit(digit) == s[last];
    if last == 0 {
      assert NumeralValue(s[..0]) == 0;
      DecimalStep(0, digit);
    } else {
      MinimalNumeralIsDecimal(s[..last]);
      assert NumeralValue(s[..last]) > 0;
      DecimalStep(NumeralValue(s[..last]), digit);
      assert s == s[..last] + [s[last]];
    }
  }

  // ---------------------------------------------------------------- sets of strings in insertion order

  /** First occurrences only: the order of a JavaScript `Set`. */
  function Deduplicate(values: seq<string>): (r: seq<string>)
    ensures Distinct(r)
    ensures forall v :: v in r <==> v in values
  {
    if values == [] then
      []
    else
      var last := values[|values| - 1];
      assert values == values[..|values| - 1] + [last];
      var before := Deduplicate(values[..|values| - 1]);
      if last in before then before else before + [last]
  }

  /** Before any occurrence of a later value there is one of an earlier value. */
  ghost predicate InOrderOfFirst(r: seq<string>, values: seq<string>) {
    forall i, j, a :: 0 <= i < j < |r| && 0 <= a < |values| && values[a] == r[j] ==> r[i] in values[..a]
  }

  /** Every value comes where it first occurred. */
  lemma {:induction false} DeduplicateKeepsFirst(values: seq<string>)
    ensures InOrderOfFirst(Deduplicate(values), values)
  {
    if values != [] {
      var n := |values| - 1;
      DeduplicateKeepsFirst(values[..n]);
      var before, r := Deduplicate(values[..n]), Deduplicate(values);
      forall i, j, a | 0 <= i < j < |r| && 0 <= a < |values| && values[a] == r[j]
        ensures r[i] in values[..a]
      {
        assert r[i] == before[i] && before[i] in before;
        if a < n {
          assert values[..n][a] == values[a] && values[..n][..a] == values[..a];
          assert values[a] in values[..n];
          assert j < |before| && r[j] == before[j];
        }
      }
    }
  }

  // ---------------------------------------------------------------- order and sorting

  /** Lexicographic order by code point: Go's `<` on valid UTF-8, JavaScript's `<` on ASCII. */
  predicate Less(a: string, b: string) {
    b != [] && (a == [] || a[0] < b[0] || (a[0] == b[0] && Less(a[1..], b[1..])))
  }

  /** A proper beginning of the other, or smaller at the first difference. */
  ghost predicate IsBefore(a: string, b: string) {
    exists n: nat :: n <= |a| && n < |b| && a[..n] == b[..n] && (n == |a| || a[n] < b[n])
  }

  lemma {:induction false} LessIsBefore(a: string, b: string)
    ensures Less(a, b) <==> IsBefore(a, b)
  {
    if a == "" {
      assert b != "" ==> a[..0] == b[..0];
    } else if b != "" {
      LessIsBefore(a[1..], b[1..]);
      if a[0] == b[0] {
        forall n: nat
          ensures n <= |a| && n < |b| && a[..n] == b[..n] && (n == |a| || a[n] < b[n]) && n > 0 ==>
                    n - 1 <= |a[1..]| && n - 1 < |b[1..]| && a[1..][..n - 1] == b[1..][..n - 1]
                    && (n - 1 == |a[1..]| || a[1..][n - 1] < b[1..][n - 1])
        {
          if 0 < n <= |a| && n < |b| && a[..n] == b[..n] {
            assert a[1..][..n - 1] == a[..n][1..] && b[1..][..n - 1] == b[..n][1..];
          }
        }
        if IsBefore(a[1..], b[1..]) {
          var m: nat :| m <= |a[1..]| && m < |b[1..]| && a[1..][..m] == b[1..][..m]
                        && (m == |a[1..]| || a[1..][m] < b[1..][m]);
          assert a[..m + 1] == [a[0]] + a[1..][..m] && b[..m + 1] == [b[0]] + b[1..][..m];
        }
      } else {
        assert a[..0] == b[..0];
        forall n: nat | 0 < n <= |a| && n < |b|
          ensures a[..n] != b[..n]
        {
          assert a[..n][0] == a[0] && b[..n][0] == b[0];
        }
      }
    }
  }

  lemma {:induction false} LessIsTotal(a: string, b: string)
    ensures Less(a, b) || Less(b, a) || a == b
    ensures !(Less(a, b) && Less(b, a)) && !Less(a, a)
  {
    if a != [] {
      LessIsTotal(a[1..], if b == [] then [] else b[1..]);
      if b != [] {
        assert a == [a[0]] + a[1..] && b == [b[0]] + b[1..];
      }
    }
  }

  lemma {:induction false} LessIsTransitive(a: string, b: string, c: string)
    requires Less(a, b) && Less(b, c)
    ensures Less(a, c)
  {
    if a != [] && a[0] == b[0] == c[0] {
      LessIsTransitive(a[1..], b[1..], c[1..]);
    }
  }

  ghost predicate StrictlySorted(s: seq<string>) {
    forall i, j :: 0 <= i < j < |s| ==> Less(s[i], s[j])
  }

  /** A finite set of strings has one strictly sorted listing only. */
  lemma {:induction false} SortedListingIsUnique(s: seq<string>, t: seq<string>)
    requires StrictlySorted(s) && StrictlySorted(t)
    requires forall x :: x in s <==> x in t
    ensures s == t
  {
    SharedMembers(s, t);
    SharedMembers(t, s);
    if s != [] {
      FirstIsLeast(s, t);
      FirstIsLeast(t, s);
      LessIsTotal(s[0], t[0]);
      forall x
        ensures x in s[1..] <==> x in t[1..]
      {
        LessIsTotal(s[0], s[0]);
        assert x in s <==> x == s[0] || x in s[1..];
        assert x in t <==> x == t[0] || x in t[1..];
      }
      SortedListingIsUnique(s[1..], t[1..]);
      assert s == [s[0]] + s[1..] && t == [t[0]] + t[1..];
    }
  }

  lemma SharedMembers(s: seq<string>, t: seq<string>)
    requires forall x :: x in s ==> x in t
    ensures s != [] ==> t != []
  {
    if s != [] {
      assert s[0] in t;
    }
  }

  lemma FirstIsLeast(s: seq<string>, t: seq<string>)
    requires s != [] && t != [] && StrictlySorted(s) && t[0] in s
    ensures s[0] == t[0] || Less(s[0], t[0])
  {}

  /** Sorted by a key, equal keys allowed. */
  ghost predicate SortedBy<T>(s: seq<T>, key: T -> string) {
    forall i, j :: 0 <= i < j < |s| ==> !Less(key(s[j]), key(s[i]))
  }

  function InsertBy<T>(x: T, s: seq<T>, key: T -> string): (r: seq<T>)
    ensures multiset(r) == multiset(s) + multiset{x}
  {
    if s == [] then
      [x]
    else if Less(key(s[0]), key(x)) then
      assert s == [s[0]] + s[1..];
      [s[0]] + InsertBy(x, s[1..], key)
    else
      [x] + s
  }

  lemma {:induction false} InsertKeepsSorted<T>(x: T, s: seq<T>, key: T -> string)
    requires SortedBy(s, key)
    ensures SortedBy(InsertBy(x, s, key), key)
  {
    hide Less;
    if s == [] {
    } else if Less(key(s[0]), key(x)) {
      var rest := InsertBy(x, s[1..], key);
      InsertKeepsSorted(x, s[1..], key);
      LessIsTotal(key(s[0]), key(x));
      forall i | 0 <= i < |rest|
        ensures !Less(key(rest[i]), key(s[0]))
      {
        assert rest[i] in multiset(rest);
        assert rest[i] in s[1..] || rest[i] == x;
      }
    } else {
      NotLessIsTransitive(x, s, key);
    }
  }

  lemma NotLessIsTransitive<T>(x: T, s: seq<T>, key: T -> string)
    requires s != [] && SortedBy(s, key) && !Less(key(s[0]), key(x))
    ensures forall i :: 0 <= i < |s| ==> !Less(key(s[i]), key(x))
  {
    forall i | 0 <= i < |s|
      ensures !Less(key(s[i]), key(x))
    {
      if Less(key(s[i]), key(x)) {
        LessIsTotal(key(s[0]), key(s[i]));
        if key(s[0]) != key(s[i]) {
          LessIsTransitive(key(s[0]), key(s[i]), key(x));
        }
      }
    }
  }

  /** Sorting by a key, as `sort.Slice` and `Array.prototype.sort` do. */
  function Sort<T>(s: seq<T>, key: T -> string): (r: seq<T>)
    ensures SortedBy(r, key) && multiset(r) == multiset(s)
  {
    if s == [] then
      []
    else
      assert s == [s[0]] + s[1..];
      InsertKeepsSorted(s[0], Sort(s[1..], key), key);
      InsertBy(s[0], Sort(s[1..], key), key)
  }

  lemma SortKeepsMembers<T>(s: seq<T>, key: T -> string)
    ensures |Sort(s, key)| == |s|
    ensures forall x :: x in Sort(s, key) <==> x in s
  {
    assert |multiset(Sort(s, key))| == |multiset(s)|;
    forall x
      ensures x in Sort(s, key) <==> x in s
    {
      assert x in s <==> x in multiset(s);
      assert x in Sort(s, key) <==> x in multiset(Sort(s, key));
    }
  }

  ghost predicate DistinctBy<T>(s: seq<T>, key: T -> string) {
    forall i, j :: 0 <= i < j < |s| ==> key(s[i]) != key(s[j])
  }

  lemma DistinctByOneMore<T>(s: seq<T>, key: T -> string, x: T)
    ensures DistinctBy(s + [x], key) <==> DistinctBy(s, key) && forall y :: y in s ==> key(y) != key(x)
  {
    var r := s + [x];
    if DistinctBy(r, key) {
      forall i, j | 0 <= i < j < |s|
        ensures key(s[i]) != key(s[j])
      {
        assert r[i] == s[i] && r[j] == s[j];
      }
      forall y | y in s
        ensures key(y) != key(x)
      {
        var i :| 0 <= i < |s| && s[i] == y;
        assert r[i] == y && r[|s|] == x;
      }
    }
  }

  ghost predicate StrictlySortedBy<T>(s: seq<T>, key: T -> string) {
    forall i, j :: 0 <= i < j < |s| ==> Less(key(s[i]), key(s[j]))
  }

  lemma PositionIn<T>(s: seq<T>, r: seq<T>, i: nat) returns (a: nat)
    requires i < |r| && forall x :: x in r <==> x in s
    ensures a < |s| && s[a] == r[i]
  {
    assert r[i] in r;
    a :| 0 <= a < |s| && s[a] == r[i];
  }

  /** Values whose keys are distinct end up strictly sorted. */
  lemma SortIsStrict<T>(s: seq<T>, key: T -> string)
    requires DistinctBy(s, key)
    ensures StrictlySortedBy(Sort(s, key), key) && |Sort(s, key)| == |s|
    ensures forall x :: x in Sort(s, key) <==> x in s
  {
    hide Sort, Less;
    var r := Sort(s, key);
    SortKeepsMembers(s, key);
    forall i, j | 0 <= i < j < |r|
      ensures Less(key(r[i]), key(r[j]))
    {
      LessIsTotal(key(r[i]), key(r[j]));
      if key(r[i]) == key(r[j]) {
        var a := PositionIn(s, r, i);
        var b := PositionIn(s, r, j);
        assert a == b;
        TwiceInMultiset(r, i, j);
        DistinctOnce(s, r[i], key);
      }
    }
  }

  /** Sorting by one key keeps the values distinct by another. */
  lemma SortKeepsDistinct<T>(s: seq<T>, key: T -> string, other: T -> string)
    requires DistinctBy(s, other)
    ensures DistinctBy(Sort(s, key), other)
    ensures forall x :: x in Sort(s, key) <==> x in s
  {
    hide Sort, SortedBy;
    var r := Sort(s, key);
    SortKeepsMembers(s, key);
    forall i, j | 0 <= i < j < |r|
      ensures other(r[i]) != other(r[j])
    {
      if other(r[i]) == other(r[j]) {
        var a := PositionIn(s, r, i);
        var b := PositionIn(s, r, j);
        assert a == b;
        TwiceInMultiset(r, i, j);
        DistinctOnce(s, r[i], other);
      }
    }
  }

  lemma TwiceInMultiset<T>(r: seq<T>, i: nat, j: nat)
    requires i < j < |r| && r[i] == r[j]
    ensures multiset(r)[r[i]] >= 2
  {
    assert r == r[..j] + [r[j]] + r[j + 1..];
    assert r[..j][i] == r[j];
    assert r[j] in r[..j];
    assert multiset(r) == multiset(r[..j]) + multiset{r[j]} + multiset(r[j + 1..]);
    assert multiset(r[..j])[r[j]] >= 1;
  }

  lemma {:induction false} DistinctOnce<T>(s: seq<T>, x: T, key: T -> string)
    requires DistinctBy(s, key)
    ensures multiset(s)[x] <= 1
  {
    if s != [] {
      var n := |s| - 1;
      DistinctOnce(s[..n], x, key);
      assert s == s[..n] + [s[n]];
      assert s[n] !in s[..n];
      assert multiset(s[..n])[s[n]] == 0;
    }
  }

  /** The strings of a set, sorted: what Go code gets by collecting map keys and sorting them. */
  lemma SortedStrings(s: seq<string>)
    requires Distinct(s)
    ensures StrictlySorted(Sort(s, x => x))
    ensures forall x :: x in Sort(s, x => x) <==> x in s
  {
    SortIsStrict(s, x => x);
  }
}
