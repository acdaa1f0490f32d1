/**
 * The string operations bootstrap.rb applies to path names: `split("/", 2)`,
 * `sub(/\.erb$/, '')`, `end_with?(".erb")`, `File.dirname`, `File.join`,
 * `File.absolute_path` and the ancestors that `mkdir -p` walks through.
 * Paths are plain strings, exactly as Ruby sees them.
 */
module Paths {
  import opened Wrappers

  type Path = string

  /** Index of the first occurrence of `c` in `s`, if any. */
  function IndexOf(s: string, c: char): (r: Option<nat>)
    ensures r.None? <==> c !in s
    ensures r.Some? ==> r.value < |s| && s[r.value] == c && c !in s[..r.value]
    decreases |s|
  {
    if s == [] then None
    else if s[0] == c then Some(0)
    else
      match IndexOf(s[1..], c)
      case None => None
      case Some(i) =>
        assert s[..i + 1] == [s[0]] + s[1..][..i];
        Some(i + 1)
  }

  /** Index of the last occurrence of `c` in `s`, if any. */
  function LastIndexOf(s: string, c: char): (r: Option<nat>)
    ensures r.None? <==> c !in s
    ensures r.Some? ==> r.value < |s| && s[r.value] == c && c !in s[r.value + 1..]
    decreases |s|
  {
    if s == [] then None
    else if s[|s| - 1] == c then Some(|s| - 1)
    else
      match LastIndexOf(s[..|s| - 1], c)
      case None =>
        assert s == s[..|s| - 1] + [s[|s| - 1]];
        None
      case Some(i) =>
        assert s[i + 1..] == s[..|s| - 1][i + 1..] + [s[|s| - 1]];
        Some(i)
  }

  /**
   * `s.split("/", 2)[1]`: everything after the first '/', or nil when `s`
   * holds no '/'. With the limit 2 Ruby keeps an empty last field, so
   * "dotfiles/" gives "".
   */
  function AfterFirstSlash(s: string): (r: Option<string>)
    ensures r.None? <==> '/' !in s
    ensures r.Some? ==>
      && |r.value| < |s|
      && s[|s| - |r.value| - 1] == '/'
      && s[|s| - |r.value|..] == r.value
      && '/' !in s[..|s| - |r.value| - 1]
  {
    match IndexOf(s, '/')
    case None => None
    case Some(i) => Some(s[i + 1..])
  }

  /**
   * `is_erb?` (bootstrap.rb:55-57): `s.end_with?(".erb")`, which holds
   * exactly when the pattern `\.erb$` of line 28 matches at the very end.
   */
  predicate IsErb(s: string)
    ensures IsErb(s) <==> |s| >= 4 && ErbAtLineEnd(s, |s| - 4)
  {
    |s| >= 4 && s[|s| - 4..] == ".erb"
  }

  /**
   * The regular expression `\.erb$` matches at `i`: Ruby's `$` is an end of
   * LINE, so the match may sit before a newline as well as at the end.
   */
  predicate ErbAtLineEnd(s: string, i: nat)
  {
    i + 4 <= |s| && s[i..i + 4] == ".erb" && (i + 4 == |s| || s[i + 4] == '\n')
  }

  /** The leftmost position at or after `from` where `\.erb$` matches. */
  function FirstErbFrom(s: string, from: nat): (r: Option<nat>)
    requires from <= |s|
    ensures r.Some? ==>
      && from <= r.value
      && ErbAtLineEnd(s, r.value)
      && forall j :: from <= j < r.value ==> !ErbAtLineEnd(s, j)
    ensures r.None? ==> forall j :: from <= j ==> !ErbAtLineEnd(s, j)
    decreases |s| - from
  {
    if from + 4 > |s| then None
    else if ErbAtLineEnd(s, from) then Some(from)
    else FirstErbFrom(s, from + 1)
  }

  /** `s.sub(/\.erb$/, '')`: the leftmost match, and only it, is deleted. */
  function StripErb(s: string): (r: string)
    ensures (forall j: nat :: !ErbAtLineEnd(s, j)) ==> r == s
    ensures forall i: nat ::
      ErbAtLineEnd(s, i) && (forall j: nat :: j < i ==> !ErbAtLineEnd(s, j)) ==>
        r == s[..i] + s[i + 4..]
  {
    match FirstErbFrom(s, 0)
    case None => s
    case Some(i) => s[..i] + s[i + 4..]
  }

  /** `File.absolute_path(p)` for a relative `p` with the working directory `cwd`. */
  function AbsolutePath(cwd: Path, p: Path): Path
  {
    cwd + "/" + p
  }

  /** `"$HOME/.#{rel}"`, the dotted name under the home directory. */
  function DotPath(home: Path, rel: Path): Path
  {
    home + "/." + rel
  }

  /** `File.join(ENV['HOME'], ".#{f.sub(/\.erb$/, '')}")` (bootstrap.rb:28). */
  function TargetPath(home: Path, f: Path): Path
  {
    DotPath(home, StripErb(f))
  }

  /** `File.dirname(f)`: the text before the last '/', or "." without one. */
  function DirName(f: Path): (r: Path)
    ensures '/' in f ==> r < f && f[|r|] == '/' && '/' !in f[|r| + 1..]
  {
    match LastIndexOf(f, '/')
    case None => "."
    case Some(i) => f[..i]
  }

  /** The last path component, after the last '/'. */
  function BaseName(p: Path): (r: Path)
    ensures '/' !in r
    ensures '/' !in p ==> r == p
    ensures '/' in p ==> |r| < |p| && p[|p| - |r| - 1] == '/' && p[|p| - |r|..] == r
  {
    match LastIndexOf(p, '/')
    case None => p
    case Some(i) => p[i + 1..]
  }

  /** The directory a path lives in; "/" for a name directly under the root. */
  function ParentOf(p: Path): Path
  {
    match LastIndexOf(p, '/')
    case None => "."
    case Some(i) => if i == 0 then "/" else p[..i]
  }

  /**
   * The directories `mkdir -p` goes through for the relative name `d`:
   * every prefix of `d` that ends just before a '/', then `d` itself,
   * outermost first.
   */
  function Ancestry(d: Path): (r: seq<Path>)
    ensures |r| > 0 && r[|r| - 1] == d
    ensures forall k :: 0 <= k < |r| ==> r[k] <= d
    ensures forall k :: 0 <= k < |r| - 1 ==> |r[k]| < |d| && d[|r[k]|] == '/'
    ensures forall i {:trigger d[..i]} :: 0 <= i < |d| && d[i] == '/' ==> d[..i] in r
    ensures forall k :: 0 <= k < |r| - 1 ==> |r[k]| < |r[k + 1]|
    decreases |d|
  {
    match LastIndexOf(d, '/')
    case None => [d]
    case Some(i) =>
      var rest := Ancestry(d[..i]);
      SlashPrefixesExtend(d, i, rest);
      rest + [d]
  }

  /** One more level for `Ancestry`: the list for the text before the last '/', then `d`. */
  lemma SlashPrefixesExtend(d: Path, i: nat, rest: seq<Path>)
    requires i < |d| && d[i] == '/' && '/' !in d[i + 1..]
    requires |rest| > 0 && rest[|rest| - 1] == d[..i]
    requires forall k :: 0 <= k < |rest| ==> rest[k] <= d[..i]
    requires forall k :: 0 <= k < |rest| - 1 ==> |rest[k]| < i && d[..i][|rest[k]|] == '/'
    requires forall j :: 0 <= j < i && d[..i][j] == '/' ==> d[..i][..j] in rest
    requires forall k :: 0 <= k < |rest| - 1 ==> |rest[k]| < |rest[k + 1]|
    ensures var r := rest + [d];
      && (forall k :: 0 <= k < |r| ==> r[k] <= d)
      && (forall k :: 0 <= k < |r| - 1 ==> |r[k]| < |d| && d[|r[k]|] == '/')
      && (forall j :: 0 <= j < |d| && d[j] == '/' ==> d[..j] in r)
      && (forall k :: 0 <= k < |r| - 1 ==> |r[k]| < |r[k + 1]|)
  {
    forall j | 0 <= j < |d| && d[j] == '/'
      ensures d[..j] in rest + [d]
    {
      assert j <= i by {
        assert forall m :: i < m < |d| ==> d[m] == d[i + 1..][m - i - 1];
      }
      if j < i {
        assert d[..i][j] == '/' && d[..i][..j] == d[..j];
      } else {
        assert d[..j] == rest[|rest| - 1];
      }
    }
  }

  /** `p` is a leading part of `f` that stops just before one of its '/'. */
  predicate SlashPrefix(f: Path, p: Path)
  {
    |p| < |f| && p <= f && f[|p|] == '/'
  }

  /** Where `File.dirname(f)` and its ancestors sit in `f`: each ends just before a '/' of `f`, and every '/' of `f` ends one. */
  lemma DirNameAncestry(f: Path)
    requires '/' in f
    ensures forall k :: 0 <= k < |Ancestry(DirName(f))| ==> SlashPrefix(f, Ancestry(DirName(f))[k])
    ensures forall i {:trigger f[..i]} :: 0 <= i < |f| && f[i] == '/' ==> f[..i] in Ancestry(DirName(f))
  {
    var dir := DirName(f);
    var chain := Ancestry(dir);
    forall k | 0 <= k < |chain|
      ensures SlashPrefix(f, chain[k])
    {
      if k < |chain| - 1 {
        assert dir[|chain[k]|] == '/';
      }
    }
    forall i | 0 <= i < |f| && f[i] == '/'
      ensures f[..i] in chain
    {
      assert i <= |dir| by {
        assert forall m :: |dir| < m < |f| ==> f[m] == f[|dir| + 1..][m - |dir| - 1];
      }
      if i < |dir| {
        assert dir[i] == '/' && dir[..i] == f[..i];
      }
    }
  }

  /** `$HOME/.p` for each relative name `p` of `chain`, in the same order. */
  function DotPaths(home: Path, chain: seq<Path>): seq<Path>
  {
    seq(|chain|, k requires 0 <= k < |chain| => DotPath(home, chain[k]))
  }

  /**
   * The directories `mkdir -p "$HOME/.#{File.dirname(f)}"` (bootstrap.rb:26)
   * creates for a name holding a '/': `$HOME/.p` for every prefix `p` of `f`
   * that ends just before a '/', and no other, outermost first, the last one
   * being `$HOME/.` followed by `File.dirname(f)`.
   */
  function MkdirTargets(home: Path, f: Path): (r: seq<Path>)
    ensures |r| > 0
    ensures '/' in f ==> r[|r| - 1] == DotPath(home, DirName(f))
    ensures '/' in f ==> forall k :: 0 <= k < |r| ==> |home| + 2 <= |r[k]| && SlashPrefix(DotPath(home, f), r[k])
    ensures forall i {:trigger f[..i]} :: 0 <= i < |f| && f[i] == '/' ==> DotPath(home, f[..i]) in r
    ensures forall k :: 0 <= k < |r| - 1 ==> |r[k]| < |r[k + 1]|
  {
    var r := DotPaths(home, Ancestry(DirName(f)));
    MkdirTargetsMeaning(home, f, r);
    r
  }

  lemma MkdirTargetsMeaning(home: Path, f: Path, r: seq<Path>)
    requires r == DotPaths(home, Ancestry(DirName(f)))
    ensures |r| > 0
    ensures '/' in f ==> r[|r| - 1] == DotPath(home, DirName(f))
    ensures '/' in f ==> forall k :: 0 <= k < |r| ==> |home| + 2 <= |r[k]| && SlashPrefix(DotPath(home, f), r[k])
    ensures forall i {:trigger f[..i]} :: 0 <= i < |f| && f[i] == '/' ==> DotPath(home, f[..i]) in r
    ensures forall k :: 0 <= k < |r| - 1 ==> |r[k]| < |r[k + 1]|
  {
    var chain := Ancestry(DirName(f));
    DotPathsGrow(home, chain, r);
    if '/' in f {
      DotPathsWithinName(home, f, chain, r);
      DotPathsCoverSlashes(home, f, chain, r);
    }
  }

  lemma DotPathsGrow(home: Path, chain: seq<Path>, r: seq<Path>)
    requires r == DotPaths(home, chain)
    requires forall k :: 0 <= k < |chain| - 1 ==> |chain[k]| < |chain[k + 1]|
    ensures forall k :: 0 <= k < |r| - 1 ==> |r[k]| < |r[k + 1]|
  {
    forall k | 0 <= k < |r| - 1
      ensures |r[k]| < |r[k + 1]|
    {
      assert |r[k]| == |home| + 2 + |chain[k]|;
      assert |r[k + 1]| == |home| + 2 + |chain[k + 1]|;
    }
  }

  lemma DotPathsWithinName(home: Path, f: Path, chain: seq<Path>, r: seq<Path>)
    requires '/' in f && chain == Ancestry(DirName(f)) && r == DotPaths(home, chain)
    ensures forall k :: 0 <= k < |r| ==> |home| + 2 <= |r[k]| && SlashPrefix(DotPath(home, f), r[k])
  {
    DirNameAncestry(f);
    forall k | 0 <= k < |r|
      ensures |home| + 2 <= |r[k]| && SlashPrefix(DotPath(home, f), r[k])
    {
      DotPathKeepsSlashPrefix(home, f, chain[k]);
    }
  }

  lemma DotPathKeepsSlashPrefix(home: Path, f: Path, c: Path)
    requires SlashPrefix(f, c)
    ensures |home| + 2 <= |DotPath(home, c)| && SlashPrefix(DotPath(home, f), DotPath(home, c))
  {
    var whole := DotPath(home, f);
    var d := DotPath(home, c);
    assert whole[..|d|] == home + "/." + f[..|c|];
    assert whole[|d|] == f[|c|];
  }

  lemma DotPathsCoverSlashes(home: Path, f: Path, chain: seq<Path>, r: seq<Path>)
    requires '/' in f && chain == Ancestry(DirName(f)) && r == DotPaths(home, chain)
    ensures forall i {:trigger f[..i]} :: 0 <= i < |f| && f[i] == '/' ==> DotPath(home, f[..i]) in r
  {
    DirNameAncestry(f);
    forall i | 0 <= i < |f| && f[i] == '/'
      ensures DotPath(home, f[..i]) in r
    {
      DotPathOfMember(home, chain, r, f[..i]);
    }
  }

  lemma DotPathOfMember(home: Path, chain: seq<Path>, r: seq<Path>, p: Path)
    requires r == DotPaths(home, chain) && p in chain
    ensures DotPath(home, p) in r
  {
    var k :| 0 <= k < |chain| && chain[k] == p;
    assert r[k] == DotPath(home, p);
  }

  // ---------------------------------------------------------------------
  // Properties of the target name

  /** For a name without newlines, `sub(/\.erb$/, '')` drops exactly a trailing ".erb". */
  lemma StripErbPlain(s: string)
    requires '\n' !in s
    ensures StripErb(s) == if IsErb(s) then s[..|s| - 4] else s
  {
    forall j: nat
      ensures ErbAtLineEnd(s, j) ==> j + 4 == |s|
    {
      if j + 4 < |s| {
        assert s[j + 4] in s;
      }
    }
    if IsErb(s) {
      assert ErbAtLineEnd(s, |s| - 4);
    }
  }

  /**
   * The target is `$HOME/.` followed by the relative name, less one
   * trailing ".erb"; nothing else in the name changes.
   */
  lemma TargetPathShape(home: Path, f: Path)
    requires '\n' !in f
    ensures TargetPath(home, f) == home + "/." + (if IsErb(f) then f[..|f| - 4] else f)
    ensures IsErb(f) ==> TargetPath(home, f) + ".erb" == home + "/." + f
    ensures !IsErb(f) ==> TargetPath(home, f) == home + "/." + f
  {
    StripErbPlain(f);
  }

  /**
   * Because `$` also matches before a newline, a ".erb" that ends a line
   * inside the name is removed even though `is_erb?` is false.
   */
  lemma StripErbBeforeNewline(x: string, y: string)
    requires '\n' !in x
    ensures StripErb(x + ".erb\n" + y) == x + "\n" + y
  {
    var s := x + ".erb\n" + y;
    assert s[|x|..|x| + 4] == ".erb" && s[|x| + 4] == '\n';
    assert ErbAtLineEnd(s, |x|);
    forall j: nat | j < |x|
      ensures !ErbAtLineEnd(s, j)
    {
      if j + 4 < |x| {
        assert s[j + 4] == x[j + 4];
        assert x[j + 4] in x;
      } else {
        assert s[j + 4] in ".erb";
      }
    }
    assert s[..|x|] == x;
    assert s[|x| + 4..] == "\n" + y;
  }

  /** A template and a plain file of the same name share one target. */
  lemma TemplateAndPlainCollide(home: Path, f: Path)
    requires '\n' !in f && !IsErb(f)
    ensures TargetPath(home, f + ".erb") == TargetPath(home, f)
    ensures IsErb(f + ".erb")
  {
    var t := f + ".erb";
    assert t[|t| - 4..] == ".erb";
    assert '\n' !in t by {
      assert forall c :: c in t ==> c in f || c in ".erb";
    }
    StripErbPlain(t);
    assert t[..|t| - 4] == f;
    StripErbPlain(f);
  }

  /** Among newline-free names of the same kind, distinct names have distinct targets. */
  lemma TargetPathInjective(home: Path, f: Path, g: Path)
    requires '\n' !in f && '\n' !in g
    requires IsErb(f) == IsErb(g)
    requires TargetPath(home, f) == TargetPath(home, g)
    ensures f == g
  {
    TargetPathShape(home, f);
    TargetPathShape(home, g);
    var a := if IsErb(f) then f[..|f| - 4] else f;
    var b := if IsErb(g) then g[..|g| - 4] else g;
    assert home + "/." + a == home + "/." + b;
    assert a == (home + "/." + a)[|home| + 2..];
    assert b == (home + "/." + b)[|home| + 2..];
    if IsErb(f) {
      assert f == a + ".erb";
      assert g == b + ".erb";
    }
  }

  /** `is_erb?` gives the same answer on the glob entry, its relative name and its absolute path. */
  lemma IsErbAcrossNames(cwd: Path, src: Path, f: Path)
    requires AfterFirstSlash(src) == Some(f)
    ensures IsErb(src) <==> IsErb(f)
    ensures IsErb(AbsolutePath(cwd, src)) <==> IsErb(f)
  {
    var a := AbsolutePath(cwd, src);
    assert src[|src| - |f|..] == f;
    if |f| >= 4 {
      assert src[|src| - 4..] == f[|f| - 4..];
      assert a[|a| - 4..] == src[|src| - 4..];
    } else {
      if |src| >= 4 {
        assert src[|src| - 4..][3 - |f|] == '/';
      }
      if |a| >= 4 {
        assert a[|a| - |src|..] == src;
        assert a[|a| - 4..][3 - |f|] == '/';
      }
    }
  }
}
