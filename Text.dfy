/** The Python string operations the climate loader relies on, over `seq<char>`. */
module Text {
  import opened Wrappers

  /** `pat` occurs in `s` starting at index i. */
  predicate OccursAt(s: string, pat: string, i: int) {
    0 <= i && i + |pat| <= |s| && s[i..i + |pat|] == pat
  }

  /** The first index at or after `from` where `pat` occurs (Python `str.find`). */
  function FindFrom(s: string, pat: string, from: nat): (r: Option<nat>)
    ensures r.Some? ==> from <= r.value && OccursAt(s, pat, r.value)
    ensures forall j :: from <= j && (r.None? || j < r.value) ==> !OccursAt(s, pat, j)
    decreases |s| - from
  {
    if from + |pat| > |s| then None
    else if s[from..from + |pat|] == pat then Some(from)
    else FindFrom(s, pat, from + 1)
  }

  /** `s.split(sep)[0]`: everything before the first occurrence of sep, or all of s. */
  function SplitHead(s: string, sep: string): (r: string)
    requires |sep| > 0
    ensures |r| <= |s| && r == s[..|r|]
    ensures |r| < |s| ==> OccursAt(s, sep, |r|)
    ensures forall j :: 0 <= j < |r| ==> !OccursAt(s, sep, j)
  {
    match FindFrom(s, sep, 0)
    case Some(i) => s[..i]
    case None => s
  }

  /** The last index of c in s (Python `str.rfind`), searched below `upto`. */
  function LastIndexBefore(s: string, c: char, upto: nat): (r: Option<nat>)
    requires upto <= |s|
    ensures r.Some? ==> r.value < upto && s[r.value] == c
    ensures forall j :: (if r.Some? then r.value < j else 0 <= j) && j < upto ==> s[j] != c
    decreases upto
  {
    if upto == 0 then None
    else if s[upto - 1] == c then Some(upto - 1)
    else LastIndexBefore(s, c, upto - 1)
  }

  /** `os.path.basename` on a POSIX path: what follows the last '/'. */
  function Basename(path: string): (r: string)
    ensures |r| <= |path| && r == path[|path| - |r|..]
    ensures '/' !in r
    ensures |r| < |path| ==> path[|path| - |r| - 1] == '/'
  {
    match LastIndexBefore(path, '/', |path|)
    case Some(i) => path[i + 1..]
    case None => path
  }

  /** Python's string order: lexicographic by code point, a proper prefix first. */
  predicate StrLe(a: string, b: string) {
    a == [] || (b != [] && (a[0] < b[0] || (a[0] == b[0] && StrLe(a[1..], b[1..]))))
  }

  lemma {:induction false} StrLeTotal(a: string, b: string)
    ensures StrLe(a, b) || StrLe(b, a)
  {
    if a != [] && b != [] && a[0] == b[0] {
      StrLeTotal(a[1..], b[1..]);
    }
  }

  lemma {:induction false} StrLeTransitive(a: string, b: string, c: string)
    requires StrLe(a, b) && StrLe(b, c)
    ensures StrLe(a, c)
  {
    if a != [] && a[0] == b[0] && b[0] == c[0] {
      StrLeTransitive(a[1..], b[1..], c[1..]);
    }
  }

  lemma {:induction false} StrLeAntisymmetric(a: string, b: string)
    requires StrLe(a, b) && StrLe(b, a)
    ensures a == b
  {
    if a != [] {
      StrLeAntisymmetric(a[1..], b[1..]);
      assert a == [a[0]] + a[1..];
      assert b == [b[0]] + b[1..];
    }
  }
}
