/**
 * The POSIX flavour of Python's `os.path` functions that the extractor
 * applies to entry names: `basename`, `splitext` and `join`, with `str.rfind`
 * underneath. Only '/' separates path components; '\' is an ordinary character.
 */
module PosixPath {

  const SEP: char := '/'

  /** Python's `s.rfind(c)`: the last position holding `c`, or -1. */
  function LastIndex(s: string, c: char): (r: int)
    ensures -1 <= r < |s|
    ensures r >= 0 ==> s[r] == c
    ensures forall i :: r < i < |s| ==> s[i] != c
  {
    if s == [] then -1
    else if s[|s| - 1] == c then |s| - 1
    else LastIndex(s[..|s| - 1], c)
  }

  /** The last occurrence is unique: a `c` at `k` with no `c` after it is what `rfind` reports. */
  lemma LastIndexIs(s: string, c: char, k: int)
    requires -1 <= k < |s|
    requires k >= 0 ==> s[k] == c
    requires forall i :: k < i < |s| ==> s[i] != c
    ensures LastIndex(s, c) == k
  {
  }

  /** `os.path.basename`: everything after the last '/'. */
  function Basename(p: string): (r: string)
    ensures SEP !in r
    ensures |r| <= |p| && r == p[|p| - |r|..]
    ensures SEP !in p ==> r == p
    ensures |r| < |p| ==> p[|p| - |r| - 1] == SEP
  {
    p[LastIndex(p, SEP) + 1..]
  }

  /** Some character strictly between positions `lo` and `hi` of `p` is not a dot. */
  predicate NonDotBetween(p: string, lo: int, hi: int)
  {
    exists i :: lo < i < hi && 0 <= i < |p| && p[i] != '.'
  }

  /**
   * `os.path.splitext`: splits at the last '.' of the last component, unless
   * every character before that dot (within the component) is a dot, as in
   * ".bashrc" or "..", in which case the extension is empty.
   */
  function SplitExt(p: string): (r: (string, string))
    ensures r.0 + r.1 == p
  {
    var sep := LastIndex(p, SEP);
    var dot := LastIndex(p, '.');
    if dot > sep && NonDotBetween(p, sep, dot) then (p[..dot], p[dot..])
    else
      (p, [])
  }

  /** A non-empty extension is one dot followed by characters that are neither '.' nor '/'. */
  lemma ExtShape(p: string)
    ensures var ext := SplitExt(p).1;
      ext == [] || (ext[0] == '.' && forall i :: 0 < i < |ext| ==> ext[i] != '.' && ext[i] != SEP)
  {
    var sep := LastIndex(p, SEP);
    var dot := LastIndex(p, '.');
    if dot > sep && NonDotBetween(p, sep, dot) {
      var ext := p[dot..];
      forall i | 0 < i < |ext| ensures ext[i] != '.' && ext[i] != SEP {
        assert ext[i] == p[dot + i];
      }
    }
  }

  /**
   * Python's leading-dots rule: a one-component name made of dots followed
   * by characters that are neither '.' nor '/' (".mp4", "..rc") has no
   * extension.
   */
  lemma LeadingDotsNoExt(p: string, d: nat)
    requires d <= |p|
    requires forall i :: 0 <= i < d ==> p[i] == '.'
    requires forall i :: d <= i < |p| ==> p[i] != '.' && p[i] != SEP
    ensures SplitExt(p) == (p, [])
  {
    var dot := LastIndex(p, '.');
    assert LastIndex(p, SEP) == -1;
    assert dot < d;
    assert !NonDotBetween(p, -1, dot);
  }

  /** `os.path.join(a, b)` for two components. */
  function Join(a: string, b: string): string
  {
    if b != [] && b[0] == SEP then b
    else if a == [] || a[|a| - 1] == SEP then a + b
    else a + [SEP] + b
  }

  /** The part `Join` puts in front of a relative name. */
  function JoinPrefix(a: string): string
  {
    if a == [] || a[|a| - 1] == SEP then a else a + [SEP]
  }

  /** A relative name `n` is joined below `a` as `a` (plus a separator) followed by `n` itself. */
  lemma JoinRelative(a: string, n: string)
    requires n == [] || n[0] != SEP
    ensures Join(a, n) == JoinPrefix(a) + n
  {
  }

  /**
   * A one-component name joined to a directory stays directly inside it:
   * the basename of the joined path is the name again.
   */
  lemma {:induction false} JoinBasename(a: string, n: string)
    requires SEP !in n
    ensures Basename(Join(a, n)) == n
  {
    JoinRelative(a, n);
    var pre := JoinPrefix(a);
    var p := pre + n;
    assert forall i :: |pre| <= i < |p| ==> p[i] == n[i - |pre|];
    LastIndexIs(p, SEP, |pre| - 1);
    assert p[|pre|..] == n;
  }

  /** Two relative names joined to the same directory give the same path only if they are equal. */
  lemma {:induction false} JoinInjective(a: string, n1: string, n2: string)
    requires SEP !in n1 && SEP !in n2
    requires Join(a, n1) == Join(a, n2)
    ensures n1 == n2
  {
    JoinRelative(a, n1);
    JoinRelative(a, n2);
    var pre := JoinPrefix(a);
    assert (pre + n1)[|pre|..] == n1;
    assert (pre + n2)[|pre|..] == n2;
  }
}
