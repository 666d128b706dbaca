/** The Python built-ins on strings that the retrieval core relies on:
    `str.isspace` and `str.strip`, `str.lower`, `str(int)`, `str.join`,
    the slice `s[:n]` and `os.path.splitext` (POSIX flavour).
    Strings are sequences of Unicode code points, as in Python 3. */
module PyText {
  import opened Wrappers

  // ---------------------------------------------------------------- whitespace

  /** `c.isspace()`: the code points Python classes as whitespace. */
  predicate IsSpace(c: char) {
    || c == ' '
    || ('\t' <= c <= '\r')
    || ('\U{1C}' <= c <= '\U{1F}')
    || c == '\U{85}' || c == '\U{A0}' || c == '\U{1680}'
    || ('\U{2000}' <= c <= '\U{200A}')
    || c == '\U{2028}' || c == '\U{2029}' || c == '\U{202F}' || c == '\U{205F}' || c == '\U{3000}'
  }

  /** Every character of `s` is whitespace (so `s.strip()` is empty). */
  ghost predicate Blank(s: string) {
    forall k :: 0 <= k < |s| ==> IsSpace(s[k])
  }

  /** Index of the first non-whitespace character at or after `from`, or `|s|`. */
  function FirstNonSpace(s: string, from: nat): (i: nat)
    requires from <= |s|
    ensures from <= i <= |s|
    ensures forall k :: from <= k < i ==> IsSpace(s[k])
    ensures i < |s| ==> !IsSpace(s[i])
    decreases |s| - from
  {
    if from == |s| || !IsSpace(s[from]) then from else FirstNonSpace(s, from + 1)
  }

  /** Index just after the last non-whitespace character before `upto`, or 0. */
  function EndOfNonSpace(s: string, upto: nat): (j: nat)
    requires upto <= |s|
    ensures j <= upto
    ensures forall k :: j <= k < upto ==> IsSpace(s[k])
    ensures 0 < j ==> !IsSpace(s[j - 1])
    decreases upto
  {
    if upto == 0 || !IsSpace(s[upto - 1]) then upto else EndOfNonSpace(s, upto - 1)
  }

  /** Where `s.strip()` starts inside `s`. */
  function StripOffset(s: string): (i: nat)
    ensures i <= |s|
  {
    FirstNonSpace(s, 0)
  }

  /** `s.strip()`: `s` without its leading and trailing whitespace. */
  function Strip(s: string): (r: string)
    ensures StripOffset(s) + |r| <= |s|
  {
    var i := FirstNonSpace(s, 0);
    if i == |s| then [] else s[i..EndOfNonSpace(s, |s|)]
  }

  /** `s.strip()` is the infix of `s` that remains once its leading and trailing
      whitespace is removed: it is empty exactly when `s` is blank, and otherwise
      starts and ends with a non-whitespace character. */
  lemma StripSpec(s: string)
    ensures Strip(s) == s[StripOffset(s)..StripOffset(s) + |Strip(s)|]
    ensures forall k :: 0 <= k < StripOffset(s) ==> IsSpace(s[k])
    ensures forall k :: StripOffset(s) + |Strip(s)| <= k < |s| ==> IsSpace(s[k])
    ensures Strip(s) == [] <==> Blank(s)
    ensures Strip(s) != [] ==> !IsSpace(Strip(s)[0]) && !IsSpace(Strip(s)[|Strip(s)| - 1])
  {
    var i := FirstNonSpace(s, 0);
    if i < |s| {
      var j := EndOfNonSpace(s, |s|);
      assert !IsSpace(s[i]);
      assert i < j;
      var r := s[i..j];
      assert Strip(s) == r && |r| == j - i;
      assert r[0] == s[i] && r[|r| - 1] == s[j - 1];
      assert !Blank(s);
    } else {
      assert Strip(s) == [];
    }
  }

  /** Stripping a string that neither starts nor ends with whitespace changes nothing. */
  lemma StripTrimmed(s: string)
    requires s != [] && !IsSpace(s[0]) && !IsSpace(s[|s| - 1])
    ensures Strip(s) == s
  {
    StripSpec(s);
  }

  // ---------------------------------------------------------------- case

  /** `c.lower()` where the result is one code point and matters here: the ASCII
      capitals, and the Kelvin sign, whose lower case is the ASCII letter k. */
  function LowerChar(c: char): char {
    if 'A' <= c <= 'Z' then (c as int + 32) as char
    else if c == '\U{212A}' then 'k'
    else c
  }

  /** `s.lower()`, character by character. */
  function Lower(s: string): (r: string)
    ensures |r| == |s|
  {
    seq(|s|, k requires 0 <= k < |s| => LowerChar(s[k]))
  }

  // ---------------------------------------------------------------- integers

  predicate IsDigit(c: char) {
    '0' <= c <= '9'
  }

  function DigitChar(d: nat): (c: char)
    requires d < 10
    ensures IsDigit(c)
  {
    ('0' as int + d) as char
  }

  /** The decimal digits of `n`, most significant first (`str(n)` for `n >= 0`). */
  function NatToStr(n: nat): (r: string)
    ensures |r| >= 1
    ensures forall k :: 0 <= k < |r| ==> IsDigit(r[k])
    decreases n
  {
    if n < 10 then [DigitChar(n)] else NatToStr(n / 10) + [DigitChar(n % 10)]
  }

  /** `str(n)`: a minus sign for negative numbers, then the decimal digits. */
  function IntToStr(n: int): string {
    if n < 0 then "-" + NatToStr(-n) else NatToStr(n)
  }

  /** The number a non-empty string of decimal digits denotes. */
  function DigitsValue(s: string): nat
    requires |s| >= 1
    requires forall k :: 0 <= k < |s| ==> IsDigit(s[k])
    decreases |s|
  {
    assert IsDigit(s[|s| - 1]);
    var d := s[|s| - 1] as int - '0' as int;
    if |s| == 1 then d else DigitsValue(s[..|s| - 1]) * 10 + d
  }

  /** Reads back an optional minus sign followed by decimal digits. */
  function ParseInt(s: string): Option<int> {
    if |s| >= 2 && s[0] == '-' && (forall k :: 1 <= k < |s| ==> IsDigit(s[k])) then
      var magnitude: int := DigitsValue(s[1..]);
      Some(-magnitude)
    else if |s| >= 1 && (forall k :: 0 <= k < |s| ==> IsDigit(s[k])) then
      Some(DigitsValue(s))
    else
      None
  }

  lemma {:induction false} NatToStrRoundTrip(n: nat)
    ensures DigitsValue(NatToStr(n)) == n
    decreases n
  {
    if n >= 10 {
      NatToStrRoundTrip(n / 10);
      var r := NatToStr(n);
      assert r[..|r| - 1] == NatToStr(n / 10);
    }
  }

  /** `str(n)` can be read back as `n`: distinct numbers print differently. */
  lemma IntToStrRoundTrip(n: int)
    ensures ParseInt(IntToStr(n)) == Some(n)
  {
    if n < 0 {
      NatToStrRoundTrip(-n);
      assert IntToStr(n)[1..] == NatToStr(-n);
    } else {
      NatToStrRoundTrip(n);
    }
  }

  // ---------------------------------------------------------------- join and slices

  /** `sep.join(parts)`. */
  function Join(sep: string, parts: seq<string>): (r: string)
    ensures |parts| == 1 ==> r == parts[0]
    decreases |parts|
  {
    if |parts| == 0 then ""
    else if |parts| == 1 then parts[0]
    else parts[0] + sep + Join(sep, parts[1..])
  }

  /** `s[:n]` for `n >= 0`: the first `n` characters, or all of `s` when it is shorter. */
  function Take(s: string, n: nat): (r: string)
    ensures |r| == if n < |s| then n else |s|
    ensures s == r + s[|r|..]
  {
    if n < |s| then s[..n] else s
  }

  // ---------------------------------------------------------------- paths

  /** The last index of `c` in `s` (`s.rfind(c)`), or -1. */
  function LastIndexOf(s: string, c: char): (r: int)
    ensures -1 <= r < |s|
    ensures r >= 0 ==> s[r] == c
    ensures forall k :: r < k < |s| ==> s[k] != c
    decreases |s|
  {
    if |s| == 0 then -1
    else if s[|s| - 1] == c then |s| - 1
    else LastIndexOf(s[..|s| - 1], c)
  }

  /** `os.path.splitext(path)[1]` on POSIX: from the last dot of the final path
      component, provided that dot is preceded in the component by a character that
      is not a dot; otherwise the empty string. */
  function SplitExt(path: string): (ext: string)
    ensures ext != [] ==> ext[0] == '.' && |ext| <= |path| && ext == path[|path| - |ext|..]
    ensures forall k :: 1 <= k < |ext| ==> ext[k] != '.' && ext[k] != '/'
  {
    var sep := LastIndexOf(path, '/');
    var dot := LastIndexOf(path, '.');
    if sep < dot && exists k :: sep < k < dot && path[k] != '.' then path[dot..] else ""
  }

  /** The extension is non-empty exactly when some dot of the final path component
      comes after a character of that component that is not a dot. Together with the
      contract of `SplitExt` (a suffix starting with a dot and holding no later dot or
      slash), this makes it the suffix from the last dot whenever there is one. */
  lemma SplitExtSpec(path: string)
    ensures SplitExt(path) != [] <==>
      exists a, b :: 0 <= a < b < |path| && path[a] != '.' && path[b] == '.' && NoSlashFrom(path, a)
  {
    var sep := LastIndexOf(path, '/');
    var dot := LastIndexOf(path, '.');
    if SplitExt(path) != [] {
      var k :| sep < k < dot && path[k] != '.';
      assert NoSlashFrom(path, k);
    }
    if exists a, b :: 0 <= a < b < |path| && path[a] != '.' && path[b] == '.' && NoSlashFrom(path, a) {
      var a, b :| 0 <= a < b < |path| && path[a] != '.' && path[b] == '.' && NoSlashFrom(path, a);
      assert sep < a;
      assert b <= dot;
    }
  }

  /** A file name `stem.suffix` in any directory, whose stem is non-empty with no dot
      and whose suffix has no dot, has the extension `.suffix`. */
  lemma SplitExtOfName(dir: string, stem: string, suffix: string)
    requires stem != [] && forall k :: 0 <= k < |stem| ==> stem[k] != '.' && stem[k] != '/'
    requires forall k :: 0 <= k < |suffix| ==> suffix[k] != '.' && suffix[k] != '/'
    ensures SplitExt(dir + "/" + stem + "." + suffix) == "." + suffix
  {
    var p := dir + "/" + stem + "." + suffix;
    var a := |dir| + 1;
    var b := a + |stem|;
    assert p[|dir|] == '/' && p[a] == stem[0] && p[b] == '.';
    forall j | a <= j < |p| && j != b
      ensures p[j] != '.' && p[j] != '/'
    {
      if j < b { assert p[j] == stem[j - a]; } else { assert p[j] == suffix[j - b - 1]; }
    }
    assert NoSlashFrom(p, a);
    SplitExtSpec(p);
    var e := SplitExt(p);
    var q := |p| - |e|;
    assert p[q] == '.';
    assert forall j :: q <= j < |p| ==> p[j] == e[j - q];
    assert |dir| < q;
    assert q == b;
    assert p[b..] == "." + suffix;
  }

  /** No character of `path` from index `a` on is a slash: `a` lies in the final
      path component. */
  ghost predicate NoSlashFrom(path: string, a: nat) {
    forall k :: a <= k < |path| ==> path[k] != '/'
  }

  /** `os.path.splitext(path)[1].lower()`: the lower-cased final suffix. */
  function FileExtension(path: string): (ext: string)
    ensures |ext| == |SplitExt(path)|
  {
    Lower(SplitExt(path))
  }
}
