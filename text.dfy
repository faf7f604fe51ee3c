/**
 * The pieces of Python's `str`, `int` and `os.path` that the ingestion scripts
 * lean on: lower-casing, suffix and prefix tests, `split`, `replace` with an
 * empty replacement, `int()` on a decimal string, `f"{n}"` and `f"{n:02d}"`,
 * and `os.path.join`, `basename` and `splitext`.
 */
module Text {
  import opened Wrappers

  predicate IsDigit(c: char) { '0' <= c <= '9' }

  /** The ASCII characters for which `str.isspace()` holds; `int()` strips them. */
  predicate IsSpace(c: char) {
    c == ' ' || ('\t' <= c <= '\r') || ('\U{001C}' <= c <= '\U{001F}')
  }

  function LowerChar(c: char): char {
    if 'A' <= c <= 'Z' then (c as int + 32) as char else c
  }

  /** `s.lower()`, on ASCII letters. */
  function Lower(s: string): string {
    seq(|s|, i requires 0 <= i < |s| => LowerChar(s[i]))
  }

  predicate StartsWith(s: string, prefix: string) {
    |prefix| <= |s| && s[..|prefix|] == prefix
  }

  predicate EndsWith(s: string, suffix: string) {
    |suffix| <= |s| && s[|s| - |suffix|..] == suffix
  }

  /** `any(s.endswith(x) for x in suffixes)`, which is also `s.endswith(tuple)`. */
  predicate EndsWithAny(s: string, suffixes: seq<string>) {
    exists i :: 0 <= i < |suffixes| && EndsWith(s, suffixes[i])
  }

  /** Does `pat` occur anywhere in `s`? */
  predicate Occurs(pat: string, s: string) {
    exists i :: 0 <= i <= |s| && OccursAt(pat, s, i)
  }

  predicate OccursAt(pat: string, s: string, i: int) {
    0 <= i && i + |pat| <= |s| && s[i..i + |pat|] == pat
  }

  // ---------------------------------------------------------------------
  // str.split with a one-character separator, and its inverse

  /** Position of the first `c` in `s`. */
  function IndexOf(s: string, c: char): (i: nat)
    requires c in s
    ensures i < |s| && s[i] == c && c !in s[..i]
  {
    if s[0] == c then 0
    else
      assert c in s[1..] by { assert s == [s[0]] + s[1..]; }
      var j := IndexOf(s[1..], c);
      assert s[..j + 1] == [s[0]] + s[1..][..j];
      j + 1
  }

  /** `s.split(sep)`: the pieces between separators, empty pieces kept. */
  function Split(s: string, sep: char): (parts: seq<string>)
    ensures |parts| >= 1
    ensures forall k :: 0 <= k < |parts| ==> sep !in parts[k]
    decreases |s|
  {
    if sep !in s then [s]
    else
      var i := IndexOf(s, sep);
      [s[..i]] + Split(s[i + 1..], sep)
  }

  /** `sep.join(parts)`. */
  function Join(parts: seq<string>, sep: char): string
    requires |parts| >= 1
  {
    if |parts| == 1 then parts[0] else parts[0] + [sep] + Join(parts[1..], sep)
  }

  lemma {:induction false} IndexOfAfterPrefix(a: string, b: string, c: char)
    requires c !in a
    ensures IndexOf(a + [c] + b, c) == |a|
  {
    var s := a + [c] + b;
    if a != [] {
      assert s[0] == a[0];
      assert s[1..] == a[1..] + [c] + b;
      IndexOfAfterPrefix(a[1..], b, c);
    }
  }

  /** Splitting undoes joining, as long as no piece holds the separator. */
  lemma {:induction false} SplitJoin(parts: seq<string>, sep: char)
    requires |parts| >= 1
    requires forall k :: 0 <= k < |parts| ==> sep !in parts[k]
    ensures Split(Join(parts, sep), sep) == parts
  {
    if |parts| > 1 {
      var rest := Join(parts[1..], sep);
      var s := parts[0] + [sep] + rest;
      assert Join(parts, sep) == s;
      IndexOfAfterPrefix(parts[0], rest, sep);
      assert s[..|parts[0]|] == parts[0];
      assert s[|parts[0]| + 1..] == rest;
      SplitJoin(parts[1..], sep);
      assert parts == [parts[0]] + parts[1..];
    }
  }

  // ---------------------------------------------------------------------
  // str.replace(pat, "")

  /**
   * `s.replace(pat, "")`: scanning left to right, every non-overlapping
   * occurrence of `pat` is removed, not only a leading one.
   */
  function RemoveAll(s: string, pat: string): (r: string)
    requires pat != []
    ensures |r| <= |s|
    decreases |s|
  {
    if |s| < |pat| then s
    else if s[..|pat|] == pat then RemoveAll(s[|pat|..], pat)
    else [s[0]] + RemoveAll(s[1..], pat)
  }

  /** Where `pat` does not occur, removing it changes nothing. */
  lemma {:induction false} RemoveAllAbsent(s: string, pat: string)
    requires pat != [] && !Occurs(pat, s)
    ensures RemoveAll(s, pat) == s
  {
    if |s| >= |pat| {
      assert !OccursAt(pat, s, 0);
      assert !Occurs(pat, s[1..]) by {
        forall i | OccursAt(pat, s[1..], i)
          ensures false
        {
          assert s[1..][i..i + |pat|] == s[i + 1..i + 1 + |pat|];
          assert OccursAt(pat, s, i + 1);
        }
      }
      RemoveAllAbsent(s[1..], pat);
      assert s == [s[0]] + s[1..];
    }
  }

  /** A prefix that occurs nowhere else is removed and the rest kept. */
  lemma RemoveLeadingOnly(pat: string, rest: string)
    requires pat != [] && !Occurs(pat, rest)
    ensures RemoveAll(pat + rest, pat) == rest
  {
    var s := pat + rest;
    assert s[..|pat|] == pat;
    assert s[|pat|..] == rest;
    RemoveAllAbsent(rest, pat);
  }

  // ---------------------------------------------------------------------
  // int(s), str(n), f"{n:02d}"

  predicate AllDigits(s: string) {
    forall i :: 0 <= i < |s| ==> IsDigit(s[i])
  }

  predicate IsDigits(s: string) {
    |s| > 0 && AllDigits(s)
  }

  function DigitsValue(s: string): nat
    requires AllDigits(s)
  {
    if s == [] then 0
    else 10 * DigitsValue(s[..|s| - 1]) + (s[|s| - 1] as int - '0' as int)
  }

  /** A string of `n` decimal digits denotes a number below 10^n. */
  lemma {:induction false} DigitsValueBound(s: string, bound: nat)
    requires AllDigits(s) && bound == Pow10(|s|)
    ensures DigitsValue(s) < bound
  {
    if s != [] {
      DigitsValueBound(s[..|s| - 1], Pow10(|s| - 1));
    }
  }

  function Pow10(n: nat): nat {
    if n == 0 then 1 else 10 * Pow10(n - 1)
  }

  function TrimLeft(s: string): string {
    if s != [] && IsSpace(s[0]) then TrimLeft(s[1..]) else s
  }

  function TrimRight(s: string): string {
    if s != [] && IsSpace(s[|s| - 1]) then TrimRight(s[..|s| - 1]) else s
  }

  /** `int(s)`: optional surrounding white space, an optional sign, decimal digits. */
  function ParseInt(s: string): (r: Option<int>)
    ensures IsDigits(s) ==> r == Some(DigitsValue(s))
    ensures r.Some? ==> |s| > 0
  {
    var t := TrimRight(TrimLeft(s));
    if |t| > 0 && (t[0] == '-' || t[0] == '+') then
      if IsDigits(t[1..]) then
        var v: int := DigitsValue(t[1..]);
        Some(if t[0] == '-' then -v else v)
      else None
    else if IsDigits(t) then Some(DigitsValue(t))
    else None
  }

  /** Characters survive trimming only if they were in the input. */
  lemma {:induction false} TrimLeftKeeps(s: string)
    ensures forall c :: c in TrimLeft(s) ==> c in s
  {
    if s != [] && IsSpace(s[0]) {
      TrimLeftKeeps(s[1..]);
    }
  }

  lemma {:induction false} TrimRightKeeps(s: string)
    ensures forall c :: c in TrimRight(s) ==> c in s
  {
    if s != [] && IsSpace(s[|s| - 1]) {
      TrimRightKeeps(s[..|s| - 1]);
    }
  }

  /** `int()` raises ValueError on text without a digit, such as `abc`, ` `, `-` or the empty string. */
  lemma ParseIntNeedsDigit(s: string)
    requires forall k :: 0 <= k < |s| ==> !IsDigit(s[k])
    ensures ParseInt(s) == None
  {
    var t := TrimRight(TrimLeft(s));
    TrimLeftKeeps(s);
    TrimRightKeeps(TrimLeft(s));
    forall k | 0 <= k < |t| ensures !IsDigit(t[k]) {
      assert t[k] in s;
    }
  }

  /** A minus sign before a digit string negates its value. */
  lemma ParseIntNegative(d: string)
    requires IsDigits(d)
    ensures ParseInt("-" + d) == Some(-(DigitsValue(d) as int))
  {
    var s := "-" + d;
    assert !IsSpace(s[0]);
    assert !IsSpace(s[|s| - 1]) by {
      assert s[|s| - 1] == d[|d| - 1];
    }
    assert s[1..] == d;
  }

  /** Leading white space is stripped before parsing. */
  lemma ParseIntSkipsSpace(c: char, s: string)
    requires IsSpace(c)
    ensures ParseInt([c] + s) == ParseInt(s)
  {
    assert ([c] + s)[1..] == s;
  }

  function DigitChar(d: nat): char
    requires d < 10
  {
    ('0' as int + d) as char
  }

  function NatToString(n: nat): (s: string)
    ensures IsDigits(s)
  {
    if n < 10 then [DigitChar(n)] else NatToString(n / 10) + [DigitChar(n % 10)]
  }

  /** `str(n)`, also `f"{n}"`. */
  function IntToString(n: int): string {
    if n < 0 then "-" + NatToString(-n) else NatToString(n)
  }

  /** `f"{n:02d}"`: zero-padded to width 2; a negative number already has width 2. */
  function Pad2(n: int): string {
    if 0 <= n < 10 then "0" + NatToString(n) else IntToString(n)
  }

  lemma {:induction false} NatToStringValue(n: nat)
    ensures DigitsValue(NatToString(n)) == n
  {
    if n >= 10 {
      var s := NatToString(n);
      assert s[..|s| - 1] == NatToString(n / 10);
      NatToStringValue(n / 10);
    }
  }

  lemma TrimNothing(s: string)
    requires s != [] && !IsSpace(s[0]) && !IsSpace(s[|s| - 1])
    ensures TrimRight(TrimLeft(s)) == s
  {
  }

  /** `int(str(n)) == n` for every integer. */
  lemma IntToStringRoundTrip(n: int)
    ensures ParseInt(IntToString(n)) == Some(n)
  {
    var s := IntToString(n);
    TrimNothing(s);
    if n < 0 {
      assert s[1..] == NatToString(-n);
      NatToStringValue(-n);
    } else {
      NatToStringValue(n);
    }
  }

  /** `int(f"{n:02d}") == n`: the leading zero is harmless. */
  lemma Pad2RoundTrip(n: int)
    ensures ParseInt(Pad2(n)) == Some(n)
  {
    if 0 <= n < 10 {
      var s := Pad2(n);
      TrimNothing(s);
      assert s == ['0', DigitChar(n)];
      assert s[..1] == "0";
      assert DigitsValue(s[..1]) == 0 by { assert s[..1][..0] == []; }
    } else {
      IntToStringRoundTrip(n);
    }
  }

  /** Neither formatting ever produces a `/`. */
  lemma FormattedHasNoSlash(n: int)
    ensures '/' !in IntToString(n) && '/' !in Pad2(n)
  {
    var m: nat := if n < 0 then -n else n;
    assert IsDigits(NatToString(m));
    assert '/' !in NatToString(m);
  }

  // ---------------------------------------------------------------------
  // os.path on POSIX paths

  /** Position of the last `c` in `s`, or -1 when there is none (`str.rfind`). */
  function LastIndexOf(s: string, c: char): (i: int)
    ensures -1 <= i < |s|
    ensures i >= 0 ==> s[i] == c
    ensures forall k :: i < k < |s| ==> s[k] != c
  {
    if s == [] then -1
    else if s[|s| - 1] == c then |s| - 1
    else LastIndexOf(s[..|s| - 1], c)
  }

  /** Appending characters other than `c` leaves the last `c` where it was. */
  lemma {:induction false} LastIndexOfAppend(s: string, t: string, c: char)
    requires c !in t
    ensures LastIndexOf(s + t, c) == LastIndexOf(s, c)
    decreases |t|
  {
    if t != [] {
      var u := s + t;
      assert u[..|u| - 1] == s + t[..|t| - 1];
      assert u[|u| - 1] == t[|t| - 1];
      LastIndexOfAppend(s, t[..|t| - 1], c);
    } else {
      assert s + t == s;
    }
  }

  /** A suffix that starts with `c` and holds no other `c` puts the last `c` right after `s`. */
  lemma LastIndexOfAfter(s: string, t: string, c: char)
    requires t != [] && t[0] == c && c !in t[1..]
    ensures LastIndexOf(s + t, c) == |s|
  {
    var marked := s + [c];
    assert marked + t[1..] == s + t;
    LastIndexOfSnoc(s, c);
    LastIndexOfAppend(marked, t[1..], c);
  }

  /** The last `c` of `s + [c]` is the one just appended. */
  lemma LastIndexOfSnoc(s: string, c: char)
    ensures LastIndexOf(s + [c], c) == |s|
  {
    assert (s + [c])[|s|] == c;
  }

  /** `os.path.join(root, name)` for two components. */
  function JoinPath(root: string, name: string): string {
    if StartsWith(name, "/") then name
    else if root == [] || EndsWith(root, "/") then root + name
    else root + "/" + name
  }

  /**
   * `os.path.join` ends with the name. An absolute name replaces the root;
   * any other name is placed under it.
   */
  lemma JoinPathShape(root: string, name: string)
    ensures EndsWith(JoinPath(root, name), name)
    ensures StartsWith(name, "/") ==> JoinPath(root, name) == name
    ensures !StartsWith(name, "/") ==> StartsWith(JoinPath(root, name), root)
  {
    var r := JoinPath(root, name);
    if !StartsWith(name, "/") {
      if root == [] || EndsWith(root, "/") {
        assert r == root + name;
      } else {
        assert r == root + ("/" + name);
      }
      assert r[|r| - |name|..] == name;
      assert r[..|root|] == root;
    }
  }

  /** Joining a relative name keeps the directory in front and the name at the end. */
  lemma JoinPathInDir(root: string, name: string)
    requires '/' !in name
    ensures StartsWith(JoinPath(root, name), root) && EndsWith(JoinPath(root, name), name)
  {
    if name != [] {
      assert name[0] != '/';
    }
    var r := JoinPath(root, name);
    assert r[..|root|] == root;
    assert r[|r| - |name|..] == name;
  }

  /** `os.path.basename(path)`: what follows the last `/`. */
  function BaseName(path: string): (name: string)
    ensures '/' !in name && EndsWith(path, name)
  {
    path[LastIndexOf(path, '/') + 1..]
  }

  /** `basename` takes the whole last component: all of `path`, or everything after its last `/`. */
  lemma BaseNameWhole(path: string)
    ensures var name := BaseName(path);
      |name| == |path| || path[|path| - |name| - 1] == '/'
  {
  }

  /**
   * `os.path.splitext(p)[1]`: from the last `.` of the last path component on,
   * unless everything before that dot in the component is dots (".bashrc").
   */
  function Extension(p: string): (ext: string)
    ensures ext == [] || (ext[0] == '.' && EndsWith(p, ext) && '/' !in ext && '.' !in ext[1..])
  {
    var sepIndex := LastIndexOf(p, '/');
    var dotIndex := LastIndexOf(p, '.');
    if dotIndex > sepIndex && exists k :: sepIndex + 1 <= k < dotIndex && p[k] != '.' then
      p[dotIndex..]
    else []
  }

  /**
   * Where `splitext` cuts: a non-empty extension starts at the last `.` of `p`,
   * after the last `/`; an empty one means that everything before the last `.`
   * of the last component is dots (or that the component has no `.`).
   */
  lemma ExtensionPosition(p: string)
    ensures var ext := Extension(p);
      ext != [] ==> LastIndexOf(p, '/') < |p| - |ext| == LastIndexOf(p, '.')
    ensures var sep := LastIndexOf(p, '/');
      Extension(p) == [] ==> forall j, k :: sep < j < k < |p| && p[k] == '.' ==> p[j] == '.'
  {
  }

  /** `os.path.splitext(p)[0]`. */
  function Root(p: string): (root: string)
    ensures root + Extension(p) == p
  {
    p[..|p| - |Extension(p)|]
  }
}
