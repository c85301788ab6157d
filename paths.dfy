/**
  Paths as the program sees them once `filepath.Join` has cleaned them.

  A path string is represented by its '/'-separated segments (`Split`); an
  absolute path starts with an empty segment.  Joining is concatenation of
  segment sequences and `path.Dir` is dropping the last segment (`Parent`).
  Because `Split` is injective, comparing two paths as segment sequences is
  the same as comparing the strings, which is what the source does.
 */
module Paths {

  type Path = seq<string>

  /** The segments of `s` between the '/' characters (`strings.Split(s, "/")`). */
  function Split(s: string): (r: seq<string>)
    ensures |r| >= 1
    decreases |s|
  {
    if s == [] then [[]]
    else
      var rest := Split(s[1..]);
      if s[0] == '/' then [[]] + rest
      else [[s[0]] + rest[0]] + rest[1..]
  }

  /** The segments put back together with '/' between them (`strings.Join(p, "/")`). */
  function JoinSegments(p: seq<string>): string
    requires |p| >= 1
    decreases |p|
  {
    if |p| == 1 then p[0] else p[0] + "/" + JoinSegments(p[1..])
  }

  /** Joining the segments of a string gives the string back. */
  lemma {:induction false} JoinSplit(s: string)
    ensures JoinSegments(Split(s)) == s
    decreases |s|
  {
    if s != [] {
      var c, t := s[0], s[1..];
      assert s == [c] + t;
      JoinSplit(t);
      if c == '/' {
        SplitConsSlash(t);
        JoinEmptyFirst(Split(t));
      } else {
        SplitConsChar(c, t);
        JoinExtendFirst([c], Split(t));
      }
    }
  }

  /** An empty first segment joins to a leading '/'. */
  lemma JoinEmptyFirst(x: seq<string>)
    requires |x| >= 1
    ensures JoinSegments([[]] + x) == "/" + JoinSegments(x)
  {
    assert ([[]] + x)[1..] == x;
  }

  /** Extending the first segment extends the joined string at its front. */
  lemma JoinExtendFirst(h: string, x: seq<string>)
    requires |x| >= 1
    ensures JoinSegments([h + x[0]] + x[1..]) == h + JoinSegments(x)
  {
    var y := [h + x[0]] + x[1..];
    if |x| == 1 {
      assert JoinSegments(y) == y[0];
    } else {
      assert y[1..] == x[1..];
      var j := JoinSegments(x[1..]);
      assert JoinSegments(y) == (h + x[0]) + "/" + j;
      assert JoinSegments(x) == x[0] + "/" + j;
      SlashAssoc(h, x[0], j);
    }
  }

  lemma SlashAssoc(h: string, a: string, j: string)
    ensures (h + a) + "/" + j == h + (a + "/" + j)
  {
  }

  /** Splitting the joined segments gives the segments back, when none contains '/'. */
  lemma {:induction false} SplitJoin(p: seq<string>)
    requires |p| >= 1
    requires forall i :: 0 <= i < |p| ==> '/' !in p[i]
    ensures Split(JoinSegments(p)) == p
    decreases |p|
  {
    if |p| == 1 {
      NoSlashSplit(p[0]);
    } else {
      SplitJoin(p[1..]);
      SplitAroundSlash(p[0], JoinSegments(p[1..]));
      NoSlashSplit(p[0]);
      assert p == [p[0]] + p[1..];
    }
  }

  /** A string without '/' is a single segment. */
  lemma {:induction false} NoSlashSplit(s: string)
    requires '/' !in s
    ensures Split(s) == [s]
    decreases |s|
  {
    if s != [] {
      assert '/' !in s[1..] by {
        forall i | 0 <= i < |s[1..]| ensures s[1..][i] != '/' { assert s[1..][i] == s[i + 1]; }
      }
      NoSlashSplit(s[1..]);
      assert s == [s[0]] + s[1..];
    }
  }

  /** A leading '/' ends an empty first segment. */
  lemma SplitConsSlash(t: string)
    ensures Split(['/'] + t) == [[]] + Split(t)
  {
    assert (['/'] + t)[1..] == t;
  }

  /** Any other leading character starts the first segment. */
  lemma SplitConsChar(c: char, t: string)
    requires c != '/'
    ensures Split([c] + t) == [[c] + Split(t)[0]] + Split(t)[1..]
  {
    assert ([c] + t)[1..] == t;
  }

  /** Splitting distributes over a '/' placed between two strings. */
  lemma {:induction false} SplitAroundSlash(a: string, b: string)
    ensures Split(a + "/" + b) == Split(a) + Split(b)
    decreases |a|
  {
    if a == [] {
      assert a + "/" + b == ['/'] + b;
      SplitConsSlash(b);
    } else {
      var c, t := a[0], a[1..];
      assert a == [c] + t;
      assert a + "/" + b == [c] + (t + "/" + b);
      SplitAroundSlash(t, b);
      if c == '/' {
        SplitAroundSlashCons(t, b);
      } else {
        SplitAroundCharCons(c, t, b);
      }
    }
  }

  lemma SplitAroundSlashCons(t: string, b: string)
    requires Split(t + "/" + b) == Split(t) + Split(b)
    ensures Split(['/'] + (t + "/" + b)) == Split(['/'] + t) + Split(b)
  {
    SplitConsSlash(t + "/" + b);
    SplitConsSlash(t);
  }

  lemma SplitAroundCharCons(c: char, t: string, b: string)
    requires c != '/'
    requires Split(t + "/" + b) == Split(t) + Split(b)
    ensures Split([c] + (t + "/" + b)) == Split([c] + t) + Split(b)
  {
    SplitConsChar(c, t + "/" + b);
    SplitConsChar(c, t);
    ExtendFirstSegment([c], Split(t), Split(b));
  }

  /** Extending the first segment commutes with appending later segments. */
  lemma ExtendFirstSegment(h: string, x: seq<string>, y: seq<string>)
    requires |x| >= 1
    ensures [h + (x + y)[0]] + (x + y)[1..] == ([h + x[0]] + x[1..]) + y
  {
    assert (x + y)[0] == x[0];
    assert (x + y)[1..] == x[1..] + y;
  }

  /** Distinct strings have distinct segments. */
  lemma SplitInjective(a: string, b: string)
    requires Split(a) == Split(b)
    ensures a == b
  {
    JoinSplit(a);
    JoinSplit(b);
  }

  predicate HasSuffix(s: string, suffix: string)
  {
    |suffix| <= |s| && s[|s| - |suffix|..] == suffix
  }

  /** `strings.TrimSuffix`: `s` without one trailing `suffix`, or `s` itself. */
  function TrimSuffix(s: string, suffix: string): (r: string)
    ensures HasSuffix(s, suffix) ==> r + suffix == s
    ensures !HasSuffix(s, suffix) ==> r == s
  {
    if HasSuffix(s, suffix) then s[..|s| - |suffix|] else s
  }

  /** The configured directory as a path: `strings.TrimSuffix(directory, "/")`, split. */
  function RootPath(directory: string): Path
  {
    Split(TrimSuffix(directory, "/"))
  }

  /**
    A directory the ancestor loop of `filesToDelete` stops at: once one
    trailing '/' is trimmed it is already clean (not empty, not "/", no
    empty, "." or ".." segment other than the leading empty segment of an
    absolute path).  Roots such as "./labels", "labels//" or "/" are not
    clean in this sense, and for them the source's loop never ends.
   */
  predicate CleanRoot(directory: string)
  {
    var r := RootPath(directory);
    r != [""] &&
    forall i :: 0 <= i < |r| ==> r[i] != "." && r[i] != ".." && (r[i] == "" ==> i == 0)
  }

  /**
    A label key `filepath.Join` leaves as it is: no empty, "." or ".."
    segment.  Every Kubernetes label key has this form.
   */
  predicate ValidKey(key: string)
  {
    forall s :: s in Split(key) ==> s != "" && s != "." && s != ".."
  }

  predicate ValidKeys(keys: set<string>)
  {
    forall k :: k in keys ==> ValidKey(k)
  }

  /** `path.Dir` of a clean path: the path without its last segment. */
  function Parent(p: Path): (r: Path)
    requires |p| > 0
    ensures r < p && |r| == |p| - 1
  {
    p[..|p| - 1]
  }

  /** `filepath.Join(directory, key)`, the file a label is written to. */
  function LabelPath(directory: string, key: string): (p: Path)
    ensures RootPath(directory) < p
    ensures |p| >= 2
  {
    RootPath(directory) + Split(key)
  }

  /**
    The label path is the split of the string the source joins: the root
    without its trailing '/', a '/', and the key.  For a clean root and a
    valid key that string is already clean, so `filepath.Join` returns it.
   */
  lemma LabelPathIsJoin(directory: string, key: string)
    ensures LabelPath(directory, key) == Split(TrimSuffix(directory, "/") + "/" + key)
  {
    SplitAroundSlash(TrimSuffix(directory, "/"), key);
  }

  /** Distinct valid label keys are written to distinct paths. */
  lemma LabelPathInjective(directory: string, j: string, k: string)
    requires ValidKey(j) && ValidKey(k)
    requires LabelPath(directory, j) == LabelPath(directory, k)
    ensures j == k
  {
    var r := RootPath(directory);
    assert Split(j) == LabelPath(directory, j)[|r|..];
    assert Split(k) == LabelPath(directory, k)[|r|..];
    SplitInjective(j, k);
  }

  /**
    A clean root without a trailing '/' and the same root with one denote
    the same path, so the ancestor loop stops at the same place for both.
   */
  lemma TrailingSlashSameRoot(directory: string)
    requires CleanRoot(directory)
    requires !HasSuffix(directory, "/")
    ensures CleanRoot(directory + "/")
    ensures RootPath(directory + "/") == RootPath(directory)
  {
    var d := directory + "/";
    assert HasSuffix(d, "/") by { assert d[|d| - 1..] == "/"; }
    assert d[..|d| - 1] == directory;
  }

  /** Two prefixes of one path are ordered by length. */
  lemma PrefixesOrdered(a: Path, b: Path, c: Path)
    requires a <= c && b <= c && |a| <= |b|
    ensures a <= b
  {
    assert a == c[..|a|];
    assert b[..|a|] == c[..|a|];
  }
}
