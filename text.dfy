/**
 * The string primitives both programs are built from, stated with the C++
 * standard library semantics the source relies on: `find`, `substr`,
 * `erase(find_last_not_of(...) + 1)`, `std::getline`, `::tolower`,
 * `std::to_string`, `std::stoull`, `std::stoi`, `operator>>` into a
 * `size_t`, and the ordering `std::map<std::string, ...>` iterates in.
 * A C++ `char` is a `char` here whose code is below 256.
 */
module Text {
  import opened Wrappers

  /** 2^64: one more than the largest `size_t` of a 64-bit build. */
  const UINT64_LIMIT: nat := 0x1_0000_0000_0000_0000
  /** The range of a 32-bit `int` (and of `long` on Windows, which `std::stoi` goes through). */
  const INT_MIN: int := -0x8000_0000
  const INT_MAX: int := 0x7FFF_FFFF

  // ---------------------------------------------------------------------------
  // Character classes
  // ---------------------------------------------------------------------------

  /** `std::isspace` in the "C" locale: what `operator>>`, `stoull` and `stoi` skip. */
  predicate IsSpace(c: char) {
    c == ' ' || c == '\t' || c == '\n' || c == '\r' || c == '\U{000B}' || c == '\U{000C}'
  }

  /** The four characters the source strips with `find_last_not_of(" \n\r\t")`. */
  predicate IsBlank(c: char) {
    c == ' ' || c == '\n' || c == '\r' || c == '\t'
  }

  predicate IsDigit(c: char) {
    '0' <= c <= '9'
  }

  predicate NotSpace(c: char) {
    !IsSpace(c)
  }

  /** `::tolower` in the "C" locale: only 'A'..'Z' change. */
  function Lower(c: char): (r: char)
    ensures 'A' <= c <= 'Z' ==> r as int == c as int + 32
    ensures !('A' <= c <= 'Z') ==> r == c
  {
    if 'A' <= c <= 'Z' then (c as int + 32) as char else c
  }

  /** `std::transform(s.begin(), s.end(), s.begin(), ::tolower)`. */
  function LowerString(s: string): (r: string)
    ensures |r| == |s|
    ensures forall i :: 0 <= i < |s| ==> r[i] == Lower(s[i])
  {
    seq(|s|, i requires 0 <= i < |s| => Lower(s[i]))
  }

  // ---------------------------------------------------------------------------
  // Trimming and scanning
  // ---------------------------------------------------------------------------

  /** `s.erase(s.find_last_not_of(" \n\r\t") + 1)`: drops the trailing blanks. */
  function TrimRight(s: string): (r: string)
    ensures r <= s
    ensures r == [] || !IsBlank(r[|r| - 1])
    ensures forall i :: |r| <= i < |s| ==> IsBlank(s[i])
  {
    if |s| > 0 && IsBlank(s[|s| - 1]) then TrimRight(s[..|s| - 1]) else s
  }

  /** A text that does not end in a blank is left as it is. */
  lemma TrimRightClean(s: string)
    requires s == [] || !IsBlank(s[|s| - 1])
    ensures TrimRight(s) == s
  {
  }

  /** The first index at or after `i` whose character does not satisfy `p`, or `|s|`. */
  function SkipWhile(s: string, i: nat, p: char -> bool): (j: nat)
    requires i <= |s|
    decreases |s| - i
    ensures i <= j <= |s|
    ensures forall k :: i <= k < j ==> p(s[k])
    ensures j == |s| || !p(s[j])
  {
    if i == |s| || !p(s[i]) then i else SkipWhile(s, i + 1, p)
  }

  /** `s.find(c, from)`; `None` plays the part of `npos`. */
  function FindChar(s: string, c: char, from: nat): (r: Option<nat>)
    decreases |s| - from
    ensures r.Some? ==> from <= r.value < |s| && s[r.value] == c
    ensures r.Some? ==> forall j :: from <= j < r.value ==> s[j] != c
    ensures r.None? ==> forall j :: from <= j < |s| ==> s[j] != c
  {
    if from >= |s| then None
    else if s[from] == c then Some(from)
    else FindChar(s, c, from + 1)
  }

  /** The first `c` in `s` at or after `from` is at `i`. */
  predicate FirstAt(s: string, c: char, from: nat, i: nat) {
    from <= i < |s| && s[i] == c && forall j :: from <= j < i ==> s[j] != c
  }

  /** The first `c` at or after `from` is found there. */
  lemma FindCharAt(s: string, c: char, from: nat, i: nat)
    requires from <= i < |s| && s[i] == c
    requires forall j :: from <= j < i ==> s[j] != c
    ensures FindChar(s, c, from) == Some(i)
  {
  }

  /** The first `c` from `from` is at `i` when the part before it holds no `c`. */
  lemma FindCharPast(s: string, c: char, from: nat, i: nat, part: string)
    requires from <= i < |s| && s[i] == c && s[from..i] == part && c !in part
    ensures FindChar(s, c, from) == Some(i)
  {
    forall j | from <= j < i
      ensures s[j] != c
    {
      assert s[j] == part[j - from];
    }
    FindCharAt(s, c, from, i);
  }

  lemma FindCharIn(a: string, c: char, b: string)
    requires c !in a
    ensures FindChar(a + [c] + b, c, 0) == Some(|a|)
  {
    var s := a + [c] + b;
    assert s[|a|] == c;
    assert forall j :: 0 <= j < |a| ==> s[j] == a[j];
  }

  predicate OccursAt(s: string, p: string, i: nat) {
    i + |p| <= |s| && s[i..i + |p|] == p
  }

  /** `s.find(p) != npos`. */
  function Contains(s: string, p: string): (r: bool)
    decreases |s|
    ensures r <==> exists i: nat :: OccursAt(s, p, i)
  {
    if p <= s then
      assert OccursAt(s, p, 0);
      true
    else if |s| == 0 then
      false
    else
      ShiftOccurrence(s, p);
      Contains(s[1..], p)
  }

  lemma ShiftOccurrence(s: string, p: string)
    requires |s| > 0 && !(p <= s)
    ensures (exists i: nat :: OccursAt(s, p, i)) <==> (exists i: nat :: OccursAt(s[1..], p, i))
  {
    if exists i: nat :: OccursAt(s, p, i) {
      var i: nat :| OccursAt(s, p, i);
      if i > 0 {
        assert s[1..][i - 1..i - 1 + |p|] == s[i..i + |p|];
        assert OccursAt(s[1..], p, i - 1);
      }
    }
    if exists i: nat :: OccursAt(s[1..], p, i) {
      var i: nat :| OccursAt(s[1..], p, i);
      assert s[1..][i..i + |p|] == s[i + 1..i + 1 + |p|];
      assert OccursAt(s, p, i + 1);
    }
  }

  /** A pattern holding a character that never occurs in `s` does not occur in `s`. */
  lemma NotContainsForeign(s: string, p: string, k: nat)
    requires k < |p| && p[k] !in s
    ensures !Contains(s, p)
  {
    forall i: nat | i + |p| <= |s|
      ensures !OccursAt(s, p, i)
    {
      assert s[i..i + |p|][k] == s[i + k];
    }
  }

  /** An occurrence of `p` cannot cover a position holding a character `p` lacks. */
  lemma OccurrenceAvoids(s: string, p: string, i: nat, m: nat)
    requires OccursAt(s, p, i) && m < |s| && s[m] !in p
    ensures m < i || i + |p| <= m
  {
  }

  /**
   * An occurrence of a pattern that lacks the separator `c` lies wholly on one
   * side of that separator.
   */
  lemma ContainsAcross(a: string, c: char, b: string, p: string)
    requires c !in p
    ensures Contains(a + [c] + b, p) ==> Contains(a, p) || Contains(b, p)
  {
    var s := a + [c] + b;
    if Contains(s, p) {
      var i: nat :| OccursAt(s, p, i);
      OccurrenceAvoids(s, p, i, |a|);
      if i + |p| <= |a| {
        assert s[i..i + |p|] == a[i..i + |p|];
        assert OccursAt(a, p, i);
      } else {
        assert s[i..i + |p|] == b[i - |a| - 1..i - |a| - 1 + |p|];
        assert OccursAt(b, p, i - |a| - 1);
      }
    }
  }

  /** `std::string(buffer)`: the text before the first NUL. */
  function CString(s: string): (r: string)
    ensures r <= s && '\0' !in r
    ensures |r| < |s| ==> s[|r|] == '\0'
  {
    match FindChar(s, '\0', 0)
    case None => s
    case Some(i) => s[..i]
  }

  /** A text without NUL is read whole. */
  lemma CStringClean(s: string)
    requires '\0' !in s
    ensures CString(s) == s
  {
  }

  // ---------------------------------------------------------------------------
  // std::getline
  // ---------------------------------------------------------------------------

  /**
   * The lines `while (std::getline(stream, line))` yields: pieces between
   * '\n's, with no empty piece after a final '\n'.
   */
  function Lines(s: string): (r: seq<string>)
    decreases |s|
    ensures forall k :: 0 <= k < |r| ==> '\n' !in r[k]
    ensures s == [] <==> r == []
  {
    if s == [] then []
    else match FindChar(s, '\n', 0)
      case None => [s]
      case Some(i) => [s[..i]] + Lines(s[i + 1..])
  }

  /** Writing each line followed by "\n". */
  function JoinLines(ls: seq<string>): string
  {
    if ls == [] then [] else ls[0] + "\n" + JoinLines(ls[1..])
  }


  lemma {:induction false} LinesOfJoin(ls: seq<string>)
    requires forall k :: 0 <= k < |ls| ==> '\n' !in ls[k]
    ensures Lines(JoinLines(ls)) == ls
  {
    if ls != [] {
      var rest := JoinLines(ls[1..]);
      var s := JoinLines(ls);
      assert s == ls[0] + ['\n'] + rest;
      FindCharIn(ls[0], '\n', rest);
      assert s[..|ls[0]|] == ls[0];
      assert s[|ls[0]| + 1..] == rest;
      LinesOfJoin(ls[1..]);
    }
  }

  /** Joined lines hold no NUL when no line does. */
  lemma {:induction false} JoinLinesNoNul(ls: seq<string>)
    requires forall i :: 0 <= i < |ls| ==> '\0' !in ls[i]
    ensures '\0' !in JoinLines(ls)
  {
    if ls != [] {
      JoinLinesNoNul(ls[1..]);
    }
  }

  // ---------------------------------------------------------------------------
  // Decimal numbers
  // ---------------------------------------------------------------------------

  function DigitChar(d: nat): (c: char)
    requires d < 10
    ensures IsDigit(c)
  {
    ('0' as int + d) as char
  }

  function DigitValue(c: char): (d: nat)
    requires IsDigit(c)
    ensures d < 10
  {
    c as int - '0' as int
  }

  predicate AllDigits(s: string) {
    forall i :: 0 <= i < |s| ==> IsDigit(s[i])
  }

  /** What `SkipWhile` passes over with `IsDigit` is a run of digits. */
  lemma SkippedDigits(s: string, k: nat)
    requires k <= |s|
    ensures AllDigits(s[k..SkipWhile(s, k, IsDigit)])
  {
    var e := SkipWhile(s, k, IsDigit);
    forall i | 0 <= i < e - k
      ensures IsDigit(s[k..e][i])
    {
      assert s[k..e][i] == s[k + i];
    }
  }

  /** The number a run of decimal digits denotes. */
  function DigitsValue(s: string): nat
    requires AllDigits(s)
  {
    if s == [] then 0 else 10 * DigitsValue(s[..|s| - 1]) + DigitValue(s[|s| - 1])
  }

  /** `std::to_string` of an unsigned value, and `stream << n` for one. */
  function NatToString(n: nat): (r: string)
    ensures |r| > 0 && AllDigits(r)
    ensures DigitsValue(r) == n
  {
    if n < 10 then [DigitChar(n)]
    else
      var r := NatToString(n / 10) + [DigitChar(n % 10)];
      assert r[..|r| - 1] == NatToString(n / 10);
      r
  }

  /** `std::to_string` of a signed value, and `stream << i` for one. */
  function IntToString(i: int): string
  {
    if i < 0 then "-" + NatToString(-i) else NatToString(i)
  }

  /** A formatted number is a single line. */
  lemma IntToStringDigits(i: int)
    ensures '\n' !in IntToString(i)
  {
    var r := NatToString(if i < 0 then -i else i);
    assert forall k :: 0 <= k < |r| ==> IsDigit(r[k]);
  }

  /** How `strtoull` and `stoull` end. */
  datatype UnsignedScan = NoDigits | OutOfRange | Scanned(value: nat, end: nat)

  /**
   * `std::strtoull(s + i, &end, 10)` as `std::stoull` reports it: leading
   * white space, an optional sign, a run of digits; no digit is an
   * `invalid_argument`, a value of 2^64 or more an `out_of_range`; a '-'
   * negates modulo 2^64. What follows the digits is ignored.
   */
  function ScanUnsigned(s: string, i: nat): (r: UnsignedScan)
    requires i <= |s|
    ensures r.Scanned? ==> r.value < UINT64_LIMIT && i < r.end <= |s|
  {
    var j := SkipWhile(s, i, IsSpace);
    var neg := j < |s| && s[j] == '-';
    var k := if j < |s| && (s[j] == '+' || s[j] == '-') then j + 1 else j;
    var e := SkipWhile(s, k, IsDigit);
    if e == k then NoDigits
    else
      SkippedDigits(s, k);
      var v := DigitsValue(s[k..e]);
      if v >= UINT64_LIMIT then OutOfRange
      else Scanned(if neg && v > 0 then UINT64_LIMIT - v else v, e)
  }

  /** `std::stoull(s)`: `None` where it throws. */
  function StoULL(s: string): (r: Option<nat>)
    ensures r.Some? ==> r.value < UINT64_LIMIT
  {
    match ScanUnsigned(s, 0)
    case Scanned(v, _) => Some(v)
    case _ => None
  }

  /** `std::stoi(s)`: `None` where it throws (no digits, or outside `int`). */
  function Stoi(s: string): (r: Option<int>)
    ensures r.Some? ==> INT_MIN <= r.value <= INT_MAX
  {
    var j := SkipWhile(s, 0, IsSpace);
    var neg := j < |s| && s[j] == '-';
    var k := if j < |s| && (s[j] == '+' || s[j] == '-') then j + 1 else j;
    var e := SkipWhile(s, k, IsDigit);
    if e == k then None
    else
      SkippedDigits(s, k);
      var m: int := DigitsValue(s[k..e]);
      var v := if neg then -m else m;
      if v < INT_MIN || v > INT_MAX then None else Some(v)
  }

  /** A run of characters satisfying `p`, followed by one that does not (or the end), is skipped whole. */
  lemma SkipRun(s: string, i: nat, run: string, p: char -> bool)
    requires i + |run| <= |s| && s[i..i + |run|] == run
    requires forall k :: 0 <= k < |run| ==> p(run[k])
    requires i + |run| == |s| || !p(s[i + |run|])
    ensures SkipWhile(s, i, p) == i + |run|
  {
  }

  /** A run of digits inside a text, below 2^64, scans to its value where it starts. */
  lemma ScanDigitsAt(s: string, i: nat, d: string)
    requires d != [] && AllDigits(d) && DigitsValue(d) < UINT64_LIMIT
    requires i + |d| <= |s| && s[i..i + |d|] == d
    requires i + |d| == |s| || !IsDigit(s[i + |d|])
    ensures ScanUnsigned(s, i) == Scanned(DigitsValue(d), i + |d|)
  {
    assert s[i] == d[0];
    assert SkipWhile(s, i, IsSpace) == i;
    DigitRun(s, i, d);
  }

  /** A formatted number inside a text scans back to itself where the digits start. */
  lemma ScanNatAt(s: string, i: nat, n: nat)
    requires n < UINT64_LIMIT
    requires i + |NatToString(n)| <= |s| && s[i..i + |NatToString(n)|] == NatToString(n)
    requires i + |NatToString(n)| == |s| || !IsDigit(s[i + |NatToString(n)|])
    ensures ScanUnsigned(s, i) == Scanned(n, i + |NatToString(n)|)
  {
    var d := NatToString(n);
    assert s[i] == d[0];
    assert SkipWhile(s, i, IsSpace) == i;
    DigitRun(s, i, d);
  }

  function Pow10(k: nat): nat
  {
    if k == 0 then 1 else 10 * Pow10(k - 1)
  }

  /** A number below 10^k has at most k digits. */
  lemma {:induction false} NatToStringLength(n: nat, k: nat)
    requires 1 <= k && n < Pow10(k)
    ensures |NatToString(n)| <= k
  {
    if n >= 10 {
      assert k >= 2;
      assert n / 10 < Pow10(k - 1);
      NatToStringLength(n / 10, k - 1);
    }
  }

  /** A `size_t` has at most 20 decimal digits. */
  lemma SizeDigits(n: nat)
    requires n < UINT64_LIMIT
    ensures |NatToString(n)| <= 20
  {
    assert Pow10(1) == 10;
    assert Pow10(2) == 100;
    assert Pow10(3) == 1000;
    assert Pow10(4) == 10000;
    assert Pow10(5) == 100000;
    assert Pow10(6) == 1000000;
    assert Pow10(7) == 10000000;
    assert Pow10(8) == 100000000;
    assert Pow10(9) == 1000000000;
    assert Pow10(10) == 10000000000;
    assert Pow10(11) == 100000000000;
    assert Pow10(12) == 1000000000000;
    assert Pow10(13) == 10000000000000;
    assert Pow10(14) == 100000000000000;
    assert Pow10(15) == 1000000000000000;
    assert Pow10(16) == 10000000000000000;
    assert Pow10(17) == 100000000000000000;
    assert Pow10(18) == 1000000000000000000;
    assert Pow10(19) == 10000000000000000000;
    assert Pow10(20) == 100000000000000000000;
    NatToStringLength(n, 20);
  }

  /** A digit run followed by a non-digit (or nothing) scans to its value. */
  lemma DigitRun(s: string, i: nat, digits: string)
    requires AllDigits(digits) && |digits| > 0
    requires i + |digits| <= |s| && s[i..i + |digits|] == digits
    requires i + |digits| == |s| || !IsDigit(s[i + |digits|])
    ensures SkipWhile(s, i, IsDigit) == i + |digits|
  {
    var e := SkipWhile(s, i, IsDigit);
    if e < i + |digits| {
      assert s[e] == digits[e - i];
    }
  }

  lemma {:induction false} StoULLOfString(n: nat, rest: string)
    requires n < UINT64_LIMIT
    requires rest == [] || !IsDigit(rest[0])
    ensures StoULL(NatToString(n) + rest) == Some(n)
    ensures ScanUnsigned(NatToString(n) + rest, 0) == Scanned(n, |NatToString(n)|)
  {
    var d := NatToString(n);
    var s := d + rest;
    assert s[0..|d|] == d;
    assert !IsSpace(s[0]);
    assert SkipWhile(s, 0, IsSpace) == 0;
    DigitRun(s, 0, d);
  }

  lemma {:induction false} StoiOfString(i: int)
    requires INT_MIN <= i <= INT_MAX
    ensures Stoi(IntToString(i)) == Some(i)
  {
    var s := IntToString(i);
    if i < 0 {
      var d := NatToString(-i);
      assert s == ['-'] + d;
      assert SkipWhile(s, 0, IsSpace) == 0;
      assert s[1..1 + |d|] == d;
      DigitRun(s, 1, d);
      assert s[1..|s|] == d;
    } else {
      assert SkipWhile(s, 0, IsSpace) == 0;
      assert s[0..|s|] == s;
      DigitRun(s, 0, s);
    }
  }

  // ---------------------------------------------------------------------------
  // The order of std::string keys in a std::map
  // ---------------------------------------------------------------------------

  /** `a < b` for `std::string`: lexicographic, character by character. */
  predicate Below(a: string, b: string)
    decreases |a|
  {
    |b| > 0 && (|a| == 0 || a[0] < b[0] || (a[0] == b[0] && Below(a[1..], b[1..])))
  }

  lemma {:induction false} BelowIrreflexive(a: string)
    ensures !Below(a, a)
  {
    if |a| > 0 { BelowIrreflexive(a[1..]); }
  }

  lemma {:induction false} BelowTransitive(a: string, b: string, c: string)
    requires Below(a, b) && Below(b, c)
    ensures Below(a, c)
  {
    if |a| > 0 && a[0] == b[0] && b[0] == c[0] {
      BelowTransitive(a[1..], b[1..], c[1..]);
    }
  }

  lemma {:induction false} BelowTotal(a: string, b: string)
    ensures a == b || Below(a, b) || Below(b, a)
  {
    if |a| > 0 && |b| > 0 && a[0] == b[0] {
      BelowTotal(a[1..], b[1..]);
      if a[1..] == b[1..] {
        assert a == [a[0]] + a[1..] && b == [b[0]] + b[1..];
      }
    }
  }

  predicate IsLeast(k: string, keys: set<string>) {
    k in keys && forall j :: j in keys && j != k ==> Below(k, j)
  }

  lemma {:induction false} LeastExists(keys: set<string>)
    requires keys != {}
    ensures exists k :: IsLeast(k, keys)
    decreases |keys|
  {
    var x :| x in keys;
    if keys == {x} {
      assert IsLeast(x, keys);
    } else {
      LeastExists(keys - {x});
      var m :| IsLeast(m, keys - {x});
      BelowTotal(m, x);
      if Below(x, m) {
        forall j | j in keys && j != x
          ensures Below(x, j)
        {
          if j != m { BelowTransitive(x, m, j); }
        }
        assert IsLeast(x, keys);
      } else {
        assert IsLeast(m, keys);
      }
    }
  }

  lemma LeastUnique(a: string, b: string, keys: set<string>)
    requires IsLeast(a, keys) && IsLeast(b, keys)
    ensures a == b
  {
    if a != b {
      BelowTransitive(a, b, a);
      BelowIrreflexive(a);
    }
  }

  /** The keys of a `std::map<std::string, ...>` in the order its iterators visit them. */
  ghost function SortedKeys(keys: set<string>): seq<string>
    decreases |keys|
  {
    if keys == {} then []
    else
      LeastExists(keys);
      var k :| IsLeast(k, keys);
      [k] + SortedKeys(keys - {k})
  }

  /** Every key once, in strictly ascending order. */
  lemma {:induction false} SortedKeysOrdered(keys: set<string>)
    decreases |keys|
    ensures var r := SortedKeys(keys);
      && |r| == |keys|
      && (forall i :: 0 <= i < |r| ==> r[i] in keys)
      && (forall k :: k in keys ==> k in r)
      && (forall i, j :: 0 <= i < j < |r| ==> Below(r[i], r[j]))
  {
    if keys != {} {
      LeastExists(keys);
      var k :| IsLeast(k, keys);
      SortedKeysStep(keys, k);
      SortedKeysOrdered(keys - {k});
      var rest := SortedKeys(keys - {k});
      assert forall i :: 0 <= i < |rest| ==> Below(k, rest[i]);
    }
  }

  lemma SortedKeysStep(keys: set<string>, k: string)
    requires IsLeast(k, keys)
    ensures SortedKeys(keys) == [k] + SortedKeys(keys - {k})
  {
    LeastExists(keys);
    var k' :| IsLeast(k', keys) && SortedKeys(keys) == [k'] + SortedKeys(keys - {k'});
    LeastUnique(k, k', keys);
  }
}
