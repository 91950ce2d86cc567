/**
 * The two `std::filesystem::path` operations the programs apply to text,
 * with the Windows (MSVC) rules both programs are built with: the file
 * name `path(p).filename()` the server keys its catalog by, and the
 * `path(folder) / name` the client saves a download at. A path starts with
 * an optional root name (a drive `X:`, a network `\\server`, or one of the
 * device prefixes `\\?\`, `\\.\`, `\??\`), then an optional root directory
 * (separators), then the relative part; '/' and '\\' both separate.
 */
module WinPath {
  /** `path::preferred_separator` on Windows. */
  const PREFERRED_SEPARATOR: char := '\\'

  predicate IsSeparator(c: char) {
    c == '/' || c == '\\'
  }

  predicate IsDriveLetter(c: char) {
    'A' <= c <= 'Z' || 'a' <= c <= 'z'
  }

  /** `X:` at the start. */
  predicate HasDrivePrefix(p: string) {
    |p| >= 2 && IsDriveLetter(p[0]) && p[1] == ':'
  }

  /** The first separator at or after `i`, or the end. */
  function NextSeparator(p: string, i: nat): (r: nat)
    requires i <= |p|
    decreases |p| - i
    ensures i <= r <= |p| && (r == |p| || IsSeparator(p[r]))
    ensures forall j :: i <= j < r ==> !IsSeparator(p[j])
  {
    if i == |p| || IsSeparator(p[i]) then i else NextSeparator(p, i + 1)
  }

  /** The first character at or after `i` that is not a separator, or the end. */
  function SkipSeparators(p: string, i: nat): (r: nat)
    requires i <= |p|
    decreases |p| - i
    ensures i <= r <= |p| && (r == |p| || !IsSeparator(p[r]))
    ensures forall j :: i <= j < r ==> IsSeparator(p[j])
  {
    if i == |p| || !IsSeparator(p[i]) then i else SkipSeparators(p, i + 1)
  }

  /**
   * Where the root name ends: after `X:`; after the three characters of a
   * device prefix `\\?\`, `\\.\` or `\??\`; at the separator that ends a
   * network name `\\server`; and at 0 when there is none.
   */
  function RootNameEnd(p: string): (r: nat)
    ensures r <= |p|
    ensures r > 0 ==> 2 <= r && (HasDrivePrefix(p) || IsSeparator(p[0]))
  {
    if |p| < 2 then 0
    else if HasDrivePrefix(p) then 2
    else if !IsSeparator(p[0]) then 0
    else if |p| >= 4 && IsSeparator(p[3]) && (|p| == 4 || !IsSeparator(p[4]))
            && ((IsSeparator(p[1]) && (p[2] == '?' || p[2] == '.')) || (p[1] == '?' && p[2] == '?')) then 3
    else if |p| >= 3 && IsSeparator(p[1]) && !IsSeparator(p[2]) then NextSeparator(p, 3)
    else 0
  }

  /** Where the relative part starts: after the root name and the root directory. */
  function RelativeStart(p: string): nat
  {
    SkipSeparators(p, RootNameEnd(p))
  }

  /** Walking back from `hi` to `lo` over characters that are not separators. */
  function FileStart(p: string, lo: nat, hi: nat): (r: nat)
    requires lo <= hi <= |p|
    decreases hi
    ensures lo <= r <= hi
  {
    if hi == lo || IsSeparator(p[hi - 1]) then hi else FileStart(p, lo, hi - 1)
  }

  /** `path(p).filename()`: the last component of the relative part. */
  function FileName(p: string): string
  {
    var lo := RelativeStart(p);
    p[FileStart(p, lo, |p|)..]
  }

  /**
   * The file name is a suffix of the path without separators, after the
   * root name, and as long as it can be: the character before it is a
   * separator, or nothing but the root name comes before it.
   */
  lemma {:induction false} FileStartBounds(p: string, lo: nat, hi: nat)
    requires lo <= hi <= |p|
    decreases hi
    ensures lo <= FileStart(p, lo, hi) <= hi
    ensures forall j :: FileStart(p, lo, hi) <= j < hi ==> !IsSeparator(p[j])
    ensures FileStart(p, lo, hi) == lo || IsSeparator(p[FileStart(p, lo, hi) - 1])
  {
    if hi != lo && !IsSeparator(p[hi - 1]) {
      FileStartBounds(p, lo, hi - 1);
    }
  }

  /**
   * `filename()` is the final component: a suffix without separators
   * that starts after the root name, right after a separator or right
   * after the root name.
   */
  lemma FileNameIsFinalComponent(p: string)
    ensures var s := |p| - |FileName(p)|;
      && RootNameEnd(p) <= s && FileName(p) == p[s..]
      && (forall i :: s <= i < |p| ==> !IsSeparator(p[i]))
      && (s == RootNameEnd(p) || IsSeparator(p[s - 1]))
  {
    var root := RootNameEnd(p);
    var lo := RelativeStart(p);
    FileStartBounds(p, lo, |p|);
    var s := FileStart(p, lo, |p|);
    assert |FileName(p)| == |p| - s;
    if s == lo && lo > root {
      assert IsSeparator(p[lo - 1]);
    }
  }

  /** A drive-relative path `X:name` has `name` as its file name; a network name alone has none. */
  lemma RootNameExamples()
    ensures FileName("C:x.txt") == "x.txt"
    ensures FileName("C:\\share\\x.txt") == "x.txt"
    ensures FileName("\\\\server\\share") == "share"
    ensures FileName("\\\\server") == ""
  {
    assert RootNameEnd("C:x.txt") == 2;
    assert RelativeStart("C:x.txt") == 2;
    assert FileStart("C:x.txt", 2, 7) == 2;
    assert RootNameEnd("C:\\share\\x.txt") == 2;
    assert FileStart("C:\\share\\x.txt", 3, 14) == 9;
    assert NextSeparator("\\\\server\\share", 3) == 8;
    assert RootNameEnd("\\\\server\\share") == 8;
    assert FileStart("\\\\server\\share", 9, 14) == 9;
    assert NextSeparator("\\\\server", 3) == 8;
    assert RootNameEnd("\\\\server") == 8;
  }

  /**
   * `is_absolute()`: a drive followed by a root directory, or any other
   * root name (a network name or a device prefix).
   */
  predicate IsAbsolute(p: string) {
    if HasDrivePrefix(p) then |p| >= 3 && IsSeparator(p[2]) else RootNameEnd(p) != 0
  }

  /**
   * `path(p) / q`: an absolute `q`, or one with a root name other than
   * `p`'s, replaces `p`; a `q` with a root directory keeps only `p`'s root
   * name; otherwise `q` goes after `p`, with a '\\' in between unless `p`
   * ends in a separator or is a root name of fewer than three characters
   * (`X:` or nothing). The root name of `q` is never repeated.
   */
  function Append(p: string, q: string): string
  {
    var pr := RootNameEnd(p);
    var qr := RootNameEnd(q);
    if IsAbsolute(q) || (qr != 0 && p[..pr] != q[..qr]) then q
    else if qr < |q| && IsSeparator(q[qr]) then p[..pr] + q[qr..]
    else if pr == |p| then (if pr >= 3 then p + [PREFERRED_SEPARATOR] else p) + q[qr..]
    else (if IsSeparator(p[|p| - 1]) then p else p + [PREFERRED_SEPARATOR]) + q[qr..]
  }

  /** A plain file name: not empty, no separator, no drive. */
  predicate IsPlainName(q: string) {
    q != [] && !HasDrivePrefix(q) && forall i :: 0 <= i < |q| ==> !IsSeparator(q[i])
  }

  /**
   * A folder can hold a plain name: anything but two separators alone,
   * which the name would turn into a network root name.
   */
  predicate IsFolder(p: string) {
    !(|p| == 2 && IsSeparator(p[0]) && IsSeparator(p[1]))
  }

  /** What `/` puts between a folder and a plain name. */
  function Joint(p: string): string
  {
    if RootNameEnd(p) == |p| then (if |p| >= 3 then [PREFERRED_SEPARATOR] else [])
    else if IsSeparator(p[|p| - 1]) then [] else [PREFERRED_SEPARATOR]
  }

  /**
   * The save path of a plain name in a folder: the folder, at most one
   * separator, then the name; and the name is the file name of the
   * result, so the file is saved inside the folder under its own name.
   */
  lemma AppendPlainName(p: string, q: string)
    requires IsPlainName(q) && IsFolder(p)
    ensures Append(p, q) == p + Joint(p) + q && |Joint(p)| <= 1
    ensures FileName(Append(p, q)) == q
  {
    assert RootNameEnd(q) == 0;
    var r := p + Joint(p) + q;
    var m := |p| + |Joint(p)|;
    assert r[m..] == q;
    RootOfJoined(p, q);
    var lo := RelativeStart(r);
    assert lo <= m by {
      SkipStopsAtName(r, RootNameEnd(r), m);
    }
    FileStartOverName(r, lo, m);
  }

  /** The root name of a folder joined to a plain name ends at or before the name. */
  lemma RootOfJoined(p: string, q: string)
    requires IsPlainName(q) && IsFolder(p)
    ensures var m := |p| + |Joint(p)|;
      RootNameEnd(p + Joint(p) + q) <= m && (p + Joint(p) + q)[m] == q[0]
      && (m == 0 || IsSeparator((p + Joint(p) + q)[m - 1]) || RootNameEnd(p + Joint(p) + q) == m)
  {
    var r := p + Joint(p) + q;
    var m := |p| + |Joint(p)|;
    assert r[m] == q[0];
    if |p| == 0 {
      assert r == q;
    } else if RootNameEnd(p) == |p| && |p| < 3 {
      assert HasDrivePrefix(p);
      assert r[..2] == p;
      assert RootNameEnd(r) == 2;
    } else {
      assert IsSeparator(r[m - 1]);
      if RootNameEnd(r) > m {
        RootBeyondJoint(p, q);
      }
    }
  }

  /** Once the text up to the name ends in a separator, a root name cannot run into the name. */
  lemma RootBeyondJoint(p: string, q: string)
    requires IsPlainName(q) && IsFolder(p) && |p| > 0
    requires !(RootNameEnd(p) == |p| && |p| < 3)
    requires IsSeparator((p + Joint(p) + q)[|p| + |Joint(p)| - 1])
    ensures RootNameEnd(p + Joint(p) + q) <= |p| + |Joint(p)|
  {
    var r := p + Joint(p) + q;
    var m := |p| + |Joint(p)|;
    assert RootNameEnd(r) != 2 && RootNameEnd(r) != 3 ==> RootNameEnd(r) <= m;
  }

  /** Skipping separators from before the name stops at the name. */
  lemma SkipStopsAtName(r: string, i: nat, m: nat)
    requires i <= m < |r| && !IsSeparator(r[m])
    ensures SkipSeparators(r, i) <= m
  {
  }

  /** Walking back over the name stops at its first character. */
  lemma FileStartOverName(r: string, lo: nat, m: nat)
    requires lo <= m < |r|
    requires forall i :: m <= i < |r| ==> !IsSeparator(r[i])
    requires m == lo || IsSeparator(r[m - 1])
    ensures FileStart(r, lo, |r|) == m
  {
    FileStartFrom(r, lo, m, |r|);
  }

  lemma {:induction false} FileStartFrom(r: string, lo: nat, m: nat, hi: nat)
    requires lo <= m <= hi <= |r|
    requires forall i :: m <= i < hi ==> !IsSeparator(r[i])
    requires m == lo || IsSeparator(r[m - 1])
    decreases hi
    ensures FileStart(r, lo, hi) == m
  {
    if hi > m {
      FileStartFrom(r, lo, m, hi - 1);
    }
  }

  /**
   * A name with a root directory but no root name (`\evil`) keeps only
   * the folder's root name: the result is outside the folder.
   */
  lemma AppendRooted(p: string, q: string)
    requires q != [] && IsSeparator(q[0]) && RootNameEnd(q) == 0
    ensures Append(p, q) == p[..RootNameEnd(p)] + q
  {
  }

  /** An absolute name replaces the folder. */
  lemma AppendAbsolute(p: string, q: string)
    requires IsAbsolute(q)
    ensures Append(p, q) == q
  {
  }

  /** `path("C:\\Downloads") / "\\evil"` is `C:\evil`, outside the folder. */
  lemma RootedExample()
    ensures Append("C:\\Downloads", "\\evil") == "C:\\evil"
  {
    assert RootNameEnd("C:\\Downloads") == 2;
    assert RootNameEnd("\\evil") == 0;
    AppendRooted("C:\\Downloads", "\\evil");
    assert "C:\\Downloads"[..2] == "C:";
  }

  /** `path("C:\\Downloads") / "x.txt"` is `C:\Downloads\x.txt`. */
  lemma PlainExample()
    ensures Append("C:\\Downloads", "x.txt") == "C:\\Downloads\\x.txt"
  {
    var p := "C:\\Downloads";
    assert RootNameEnd(p) == 2 && !IsSeparator(p[|p| - 1]);
    assert Joint(p) == "\\";
    AppendPlainName(p, "x.txt");
  }
}
