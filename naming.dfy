/** The names of the files the detector writes: `os.path.basename` of the video
    path, the decimal detection index and `os.path.join` with the output
    directory, all with POSIX path rules. */
module Naming {

  function Digit(d: nat): char
    requires d < 10
  {
    ('0' as int + d) as char
  }

  function DigitValue(c: char): int {
    c as int - '0' as int
  }

  /** Python's `str(n)` for a non-negative integer: decimal digits, no leading zero. */
  function DecimalString(n: nat): (s: string)
    ensures |s| >= 1
    ensures forall k :: 0 <= k < |s| ==> '0' <= s[k] <= '9'
    ensures s[0] == '0' ==> n == 0
    ensures n < 10 <==> |s| == 1
  {
    if n < 10 then [Digit(n)] else DecimalString(n / 10) + [Digit(n % 10)]
  }

  /** Reads a string of decimal digits back as a number. */
  function ParseDecimal(s: string): int {
    if s == [] then 0 else ParseDecimal(s[..|s| - 1]) * 10 + DigitValue(s[|s| - 1])
  }

  lemma {:induction false} ParseDecimalString(n: nat)
    ensures ParseDecimal(DecimalString(n)) == n
  {
    var s := DecimalString(n);
    if n < 10 {
      assert s[..|s| - 1] == [];
    } else {
      assert s[..|s| - 1] == DecimalString(n / 10);
      ParseDecimalString(n / 10);
    }
  }

  /** Distinct indices print differently. */
  lemma DecimalStringInjective(m: nat, n: nat)
    ensures DecimalString(m) == DecimalString(n) ==> m == n
  {
    ParseDecimalString(m);
    ParseDecimalString(n);
  }

  /** `os.path.basename` (POSIX): everything after the last '/'. */
  function BaseName(path: string): (b: string)
    ensures '/' !in b
    ensures |b| <= |path| && b == path[|path| - |b|..]
    ensures |b| < |path| ==> path[|path| - |b| - 1] == '/'
  {
    if path == [] || path[|path| - 1] == '/' then []
    else BaseName(path[..|path| - 1]) + [path[|path| - 1]]
  }

  /** `os.path.join(dir, name)` (POSIX) for two components. */
  function Join(dir: string, name: string): string {
    if |name| > 0 && name[0] == '/' then name
    else if dir == [] || dir[|dir| - 1] == '/' then dir + name
    else dir + "/" + name
  }

  /** The name of the file for detection number `index` of the video `base`. */
  function FrameName(base: string, index: nat): string {
    base + "_frame_" + DecimalString(index) + ".jpg"
  }

  /** The path written for detection number `index`. */
  function OutputPath(dir: string, videoPath: string, index: nat): string {
    Join(dir, FrameName(BaseName(videoPath), index))
  }

  lemma FrameNameInjective(base: string, i: nat, j: nat)
    ensures FrameName(base, i) == FrameName(base, j) ==> i == j
  {
    if FrameName(base, i) == FrameName(base, j) {
      var p := base + "_frame_";
      var si, sj := DecimalString(i), DecimalString(j);
      var n := FrameName(base, i);
      assert n == p + si + ".jpg" == p + sj + ".jpg";
      assert |si| == |sj|;
      assert si == n[|p|..|p| + |si|];
      assert sj == n[|p|..|p| + |sj|];
      DecimalStringInjective(i, j);
    }
  }

  /** A file name never starts with '/' when its base has none, so `Join`
      always keeps the directory. */
  lemma FrameNameIsRelative(base: string, index: nat)
    requires '/' !in base
    ensures |FrameName(base, index)| > 0 && FrameName(base, index)[0] != '/'
  {
    if base == [] {
      assert FrameName(base, index)[0] == '_';
    } else {
      assert FrameName(base, index)[0] == base[0];
    }
  }

  /** Joining one directory with two relative names keeps them apart. */
  lemma JoinInjective(dir: string, a: string, b: string)
    requires |a| > 0 && a[0] != '/'
    requires |b| > 0 && b[0] != '/'
    ensures Join(dir, a) == Join(dir, b) ==> a == b
  {
    var j := Join(dir, a);
    if j == Join(dir, b) {
      if dir == [] || dir[|dir| - 1] == '/' {
        assert a == j[|dir|..] == b;
      } else {
        assert a == j[|dir| + 1..] == b;
      }
    }
  }

  /** Different detection indices are written to different paths. */
  lemma OutputPathsDistinct(dir: string, videoPath: string, i: nat, j: nat)
    ensures OutputPath(dir, videoPath, i) == OutputPath(dir, videoPath, j) ==> i == j
  {
    var base := BaseName(videoPath);
    FrameNameIsRelative(base, i);
    FrameNameIsRelative(base, j);
    JoinInjective(dir, FrameName(base, i), FrameName(base, j));
    FrameNameInjective(base, i, j);
  }
}
