/** The parts of `pathlib.PurePosixPath` that the scripts use, on
    forward-slash path strings: `name`, `suffix`, `stem` and `with_suffix`.
    Each part is a slice of the path between two positions. */
module PurePath {
  import opened Common
  import opened Text

  /** Where the name starts: just after the last `/`, or at 0. */
  function NameStart(path: string): (k: nat)
    ensures k <= |path|
    ensures k > 0 ==> path[k - 1] == '/'
  {
    match LastIndexOf(path, '/')
    case Some(i) => i + 1
    case None => 0
  }

  /** Where the suffix starts: at the last `.` of the name, provided it is
      neither the first nor the last character of the name (pathlib's rule,
      so that `.bashrc` and `name.` have no suffix); otherwise at the end. */
  function SuffixStart(path: string): (k: nat)
    ensures NameStart(path) <= k <= |path|
    ensures k < |path| ==> NameStart(path) < k < |path| - 1 && path[k] == '.'
  {
    match LastIndexOf(path, '.')
    case Some(i) => if NameStart(path) < i < |path| - 1 then i else |path|
    case None => |path|
  }

  /** `PurePath.name`: the text after the last `/`. */
  function Name(path: string): string {
    path[NameStart(path)..]
  }

  /** `PurePath.suffix`: from the suffix dot to the end, or "". */
  function Suffix(path: string): string {
    path[SuffixStart(path)..]
  }

  /** `PurePath.stem`: the name without its suffix. */
  function Stem(path: string): string {
    path[NameStart(path)..SuffixStart(path)]
  }

  /** `path.with_suffix("")`: the path without the suffix of its name. */
  function WithoutSuffix(path: string): string {
    path[..SuffixStart(path)]
  }

  /** `path.with_suffix(suffix)`. */
  function WithSuffix(path: string, suffix: string): string {
    WithoutSuffix(path) + suffix
  }

  /** The name starts at 0 exactly when the path holds no `/`, and nothing
      after the start is a `/`. */
  lemma NameStartSpec(path: string)
    ensures NameStart(path) == 0 <==> '/' !in path
    ensures forall j :: NameStart(path) <= j < |path| ==> path[j] != '/'
  {
    match LastIndexOf(path, '/')
    case Some(i) =>
      assert path[i] in path;
    case None =>
  }

  /** There is a suffix exactly when the last `.` of the path lies inside
      the name, after its first and before its last character; the suffix
      then starts at that `.`. */
  lemma SuffixStartSpec(path: string)
    ensures SuffixStart(path) < |path| <==>
      exists i :: NameStart(path) < i < |path| - 1 && path[i] == '.' &&
        forall j :: i < j < |path| ==> path[j] != '.'
    ensures SuffixStart(path) < |path| ==>
      forall j :: SuffixStart(path) < j < |path| ==> path[j] != '.'
  {
    var n := NameStart(path);
    match LastIndexOf(path, '.')
    case Some(i) =>
      if SuffixStart(path) == |path| {
        forall i' | n < i' < |path| - 1 && path[i'] == '.'
          ensures exists j :: i' < j < |path| && path[j] == '.'
        {
          assert i' <= i;
          if i' == i {
            assert false;
          }
        }
      }
    case None =>
  }

  /** The name holds no `/`. */
  lemma NameShape(path: string)
    ensures '/' !in Name(path)
  {
    var k := NameStart(path);
    forall j | 0 <= j < |path| - k ensures Name(path)[j] != '/' {
      assert Name(path)[j] == path[k + j];
    }
  }

  /** A non-empty suffix is a dot followed by at least one character, with
      no other dot and no slash. */
  lemma SuffixShape(path: string)
    requires Suffix(path) != []
    ensures |Suffix(path)| >= 2 && Suffix(path)[0] == '.'
    ensures '.' !in Suffix(path)[1..] && '/' !in Suffix(path)
  {
    var k := SuffixStart(path);
    var r := Suffix(path);
    forall j | 0 <= j < |r| ensures r[j] != '/' && (j > 0 ==> r[j] != '.') {
      assert r[j] == path[k + j];
    }
    assert forall j :: 0 <= j < |r| - 1 ==> r[1..][j] == r[j + 1];
  }

  /** A path splits into its suffix-less part and its suffix, and the name
      into the stem and the suffix. */
  lemma SuffixSplits(path: string)
    ensures path == WithoutSuffix(path) + Suffix(path)
    ensures Name(path) == Stem(path) + Suffix(path)
    ensures Suffix(path) != [] ==> Stem(path) != []
  {
    var n := NameStart(path);
    var s := SuffixStart(path);
    assert path == path[..s] + path[s..];
    assert path[n..] == path[n..s] + path[s..];
  }

  /** `rfind` finds the one occurrence after which the character is absent. */
  lemma LastIndexOfAt(s: string, c: char, i: nat)
    requires i < |s| && s[i] == c
    requires forall j :: i < j < |s| ==> s[j] != c
    ensures LastIndexOf(s, c) == Some(i)
  {
    assert s[i] in s;
  }

  /** `rfind` on `a + b` finds the last occurrence in `b` when there is one. */
  lemma LastIndexOfAppend(a: string, b: string, c: char)
    requires c in b
    ensures LastIndexOf(a + b, c) == Some(|a| + LastIndexOf(b, c).value)
  {
    var i := LastIndexOf(b, c).value;
    assert forall j :: |a| + i < j < |a + b| ==> (a + b)[j] == b[j - |a|];
    LastIndexOfAt(a + b, c, |a| + i);
  }

  /** `rfind` on `a + b` looks into `a` when `b` does not hold the character. */
  lemma LastIndexOfAppendAbsent(a: string, b: string, c: char)
    requires c !in b
    ensures LastIndexOf(a + b, c) == LastIndexOf(a, c)
  {
    match LastIndexOf(a, c)
    case Some(i) => LastIndexOfAt(a + b, c, i);
    case None =>
      assert forall j :: 0 <= j < |a + b| ==> (a + b)[j] != c by {
        forall j | 0 <= j < |a + b| ensures (a + b)[j] != c {
          if j < |a| { assert a[j] in a; } else { assert b[j - |a|] in b; }
        }
      }
  }

  /** `rfind` on a prefix agrees with `rfind` on the whole when the rest
      does not hold the character. */
  lemma LastIndexOfPrefix(s: string, c: char, k: nat)
    requires k <= |s|
    requires forall j :: k <= j < |s| ==> s[j] != c
    ensures LastIndexOf(s[..k], c) == LastIndexOf(s, c)
  {
    assert s == s[..k] + s[k..];
    assert c !in s[k..] by {
      forall j | 0 <= j < |s| - k ensures s[k..][j] != c {
        assert s[k..][j] == s[k + j];
      }
    }
    LastIndexOfAppendAbsent(s[..k], s[k..], c);
  }

  /** Appending slash-free text extends the name. */
  lemma NameAppend(p: string, b: string)
    requires '/' !in b
    ensures NameStart(p + b) == NameStart(p)
    ensures Name(p + b) == Name(p) + b
  {
    LastIndexOfAppendAbsent(p, b, '/');
    var k := NameStart(p);
    assert (p + b)[k..] == p[k..] + b;
  }

  /** Appending `.jpg` to a path with a non-empty name gives it the
      suffix `.jpg`, and removing that suffix gives the path back. */
  lemma JpgSuffix(p: string)
    requires Name(p) != []
    ensures Suffix(p + ".jpg") == ".jpg"
    ensures WithoutSuffix(p + ".jpg") == p
  {
    var q := p + ".jpg";
    NameAppend(p, ".jpg");
    LastIndexOfAt(q, '.', |p|);
    assert SuffixStart(q) == |p|;
    assert q[|p|..] == ".jpg";
    assert q[..|p|] == p;
  }

  /** Replacing the suffix by `.jpg` and removing it again gives back the
      suffix-less path, as long as that path still has a non-empty name
      (pathlib refuses `with_suffix` otherwise). */
  lemma WithSuffixRoundTrip(path: string)
    requires Name(WithoutSuffix(path)) != []
    ensures Suffix(WithSuffix(path, ".jpg")) == ".jpg"
    ensures WithoutSuffix(WithSuffix(path, ".jpg")) == WithoutSuffix(path)
  {
    JpgSuffix(WithoutSuffix(path));
  }

  lemma NameStartUnderFolder(folder: string, rel: string)
    requires folder != [] && folder[|folder| - 1] == '/'
    ensures NameStart(folder + rel) == |folder| + NameStart(rel)
  {
    if '/' in rel {
      LastIndexOfAppend(folder, rel, '/');
    } else {
      LastIndexOfAppendAbsent(folder, rel, '/');
      LastIndexOfAt(folder, '/', |folder| - 1);
    }
  }

  lemma SuffixStartUnderFolder(folder: string, rel: string)
    requires folder != [] && folder[|folder| - 1] == '/'
    ensures SuffixStart(folder + rel) == |folder| + SuffixStart(rel)
  {
    NameStartUnderFolder(folder, rel);
    if '.' in rel {
      LastIndexOfAppend(folder, rel, '.');
    } else {
      LastIndexOfAppendAbsent(folder, rel, '.');
    }
  }

  lemma NameUnderFolder(folder: string, rel: string)
    requires folder != [] && folder[|folder| - 1] == '/'
    ensures Name(folder + rel) == Name(rel)
  {
    NameStartUnderFolder(folder, rel);
    assert (folder + rel)[|folder| + NameStart(rel)..] == rel[NameStart(rel)..];
  }

  /** Without its suffix, a path's name is its stem. */
  lemma NameWithoutSuffix(path: string)
    ensures Name(WithoutSuffix(path)) == Stem(path)
  {
    var n := NameStart(path);
    var s := SuffixStart(path);
    LastIndexOfPrefix(path, '/', s);
    assert NameStart(path[..s]) == n;
    assert path[..s][n..] == path[n..s];
  }

  /** Placing a relative path under a folder changes neither its name nor
      its suffix, and `with_suffix("")` acts on the relative part only. */
  lemma UnderFolder(folder: string, rel: string)
    requires folder != [] && folder[|folder| - 1] == '/'
    ensures Name(folder + rel) == Name(rel)
    ensures Suffix(folder + rel) == Suffix(rel)
    ensures WithoutSuffix(folder + rel) == folder + WithoutSuffix(rel)
  {
    NameUnderFolder(folder, rel);
    SuffixStartUnderFolder(folder, rel);
    var s := SuffixStart(rel);
    assert (folder + rel)[|folder| + s..] == rel[s..];
    assert (folder + rel)[..|folder| + s] == folder + rel[..s];
  }
}
