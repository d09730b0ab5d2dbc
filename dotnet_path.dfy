/**
 * The `System.IO.Path` operations the core calls, with the Unix separator `/`:
 * `GetFileName`, `GetDirectoryName`, `GetExtension`, `HasExtension` and `Combine`.
 */
module DotNetPath {
  import opened Wrappers
  import opened DotNetText

  const Separator: char := '/'

  /** `Path.GetFileName`: what follows the last separator. */
  function GetFileName(path: string): (r: string)
    ensures Separator !in r
    ensures EndsWith(path, r)
    ensures |r| < |path| ==> path[|path| - |r| - 1] == Separator
    decreases |path|
  {
    if path == [] || path[|path| - 1] == Separator then []
    else
      var r := GetFileName(path[..|path| - 1]) + [path[|path| - 1]];
      assert path == path[..|path| - 1] + [path[|path| - 1]];
      r
  }

  /** A name without separators is its own file name. */
  lemma {:induction false} FileNameOfName(name: string)
    requires Separator !in name
    ensures GetFileName(name) == name
    decreases |name|
  {
    if name != [] {
      FileNameOfName(name[..|name| - 1]);
    }
  }

  /** The directory part of a path does not affect its file name. */
  lemma {:induction false} FileNameIgnoresDirectory(dir: string, name: string)
    requires Separator !in name
    ensures GetFileName(dir + [Separator] + name) == name
    decreases |name|
  {
    var p := dir + [Separator] + name;
    if name == [] {
      assert p[|p| - 1] == Separator;
    } else {
      var init := name[..|name| - 1];
      FileNameIgnoresDirectory(dir, init);
      assert p[..|p| - 1] == dir + [Separator] + init;
      assert init + [name[|name| - 1]] == name;
    }
  }

  /** The position of the `.` that starts the extension: the last `.` after the
      last separator. */
  function DotIndex(path: string): (r: Option<nat>)
    ensures r.Some? ==> r.value < |path| && path[r.value] == '.'
    ensures r.Some? ==> forall j :: r.value < j < |path| ==> path[j] != '.' && path[j] != Separator
    ensures r.None? ==> '.' !in GetFileName(path)
    decreases |path|
  {
    if path == [] then None
    else if path[|path| - 1] == '.' then Some(|path| - 1)
    else if path[|path| - 1] == Separator then None
    else
      var r := DotIndex(path[..|path| - 1]);
      assert r.None? ==> GetFileName(path) == GetFileName(path[..|path| - 1]) + [path[|path| - 1]];
      r
  }

  /** `Path.GetExtension`: from the last `.` of the file name to the end, or empty
      when there is no `.` or it is the last character. */
  function GetExtension(path: string): (r: string)
    ensures r != "" ==> r[0] == '.' && |r| >= 2 && EndsWith(path, r)
    ensures forall j :: 0 < j < |r| ==> r[j] != '.' && r[j] != Separator
  {
    match DotIndex(path)
    case None => ""
    case Some(i) => if i == |path| - 1 then "" else path[i..]
  }

  /** `Path.HasExtension`. */
  predicate HasExtension(path: string) {
    match DotIndex(path)
    case None => false
    case Some(i) => i != |path| - 1
  }

  /** `HasExtension` agrees with a non-empty `GetExtension`. */
  lemma {:induction false} HasExtensionIffExtension(path: string)
    ensures HasExtension(path) <==> GetExtension(path) != ""
    ensures GetExtension(path) != "" ==> GetExtension(path)[0] == '.' && |GetExtension(path)| >= 2
  {
  }

  /** Appending `.ext`, with `ext` free of dots and separators, sets the extension. */
  lemma {:induction false} ExtensionOfAppend(stem: string, ext: string)
    requires ext != [] && '.' !in ext && Separator !in ext
    ensures DotIndex(stem + "." + ext) == Some(|stem|)
    ensures GetExtension(stem + "." + ext) == "." + ext
    ensures HasExtension(stem + "." + ext)
  {
    DotIndexSkipsTail(stem + ".", ext);
    assert (stem + "." + ext)[|stem|..] == "." + ext;
  }

  lemma {:induction false} DotIndexSkipsTail(p: string, tail: string)
    requires p != [] && p[|p| - 1] == '.'
    requires '.' !in tail && Separator !in tail
    ensures DotIndex(p + tail) == Some(|p| - 1)
    decreases |tail|
  {
    if tail == [] {
      assert p + tail == p;
    } else {
      var init := tail[..|tail| - 1];
      DotIndexSkipsTail(p, init);
      assert (p + tail)[..|p + tail| - 1] == p + init;
      assert (p + tail)[|p + tail| - 1] == tail[|tail| - 1];
    }
  }

  /** The length of the root of a Unix path: 1 for an absolute path, 0 otherwise. */
  function RootLength(path: string): (r: nat)
    ensures r <= |path|
    ensures r == 1 <==> path != [] && path[0] == Separator
  {
    if path != [] && path[0] == Separator then 1 else 0
  }

  /** The first step of `GetDirectoryName`: the position of the last separator at or
      after the root, or the root length when there is none. */
  function LastSeparator(path: string, root: nat): (r: nat)
    requires root <= |path|
    ensures root <= r <= |path|
    ensures |path| > root ==> r < |path|
    ensures r > root ==> path[r] == Separator
    ensures forall j :: r < j < |path| ==> path[j] != Separator
    decreases |path|
  {
    if |path| == root then root
    else if path[|path| - 1] == Separator then |path| - 1
    else LastSeparator(path[..|path| - 1], root)
  }

  /** The second step: separators just before `end` are dropped too, down to the root. */
  function TrimSeparators(path: string, root: nat, end: nat): (r: nat)
    requires root <= end <= |path|
    ensures root <= r <= end
    ensures r > root ==> path[r - 1] != Separator
    ensures forall j :: r <= j < end ==> path[j] == Separator
    decreases end
  {
    if end > root && path[end - 1] == Separator then TrimSeparators(path, root, end - 1) else end
  }

  /** Two separators in a row somewhere in `s`. */
  predicate HasDoubleSeparator(s: string) {
    exists i :: 0 <= i < |s| - 1 && s[i] == Separator && s[i + 1] == Separator
  }

  /** `PathInternal.NormalizeDirectorySeparators` on Unix: a separator is dropped when
      another one follows it, so each run of separators is written as one. */
  function CollapseSeparators(s: string): (r: string)
    ensures |r| <= |s|
    ensures s != [] ==> r != [] && r[0] == s[0]
    ensures !HasDoubleSeparator(r)
    ensures !HasDoubleSeparator(s) ==> r == s
    ensures Without(r, Separator) == Without(s, Separator)
    decreases |s|
  {
    if |s| < 2 then s
    else
      var tail := CollapseSeparators(s[1..]);
      assert s == [s[0]] + s[1..];
      if s[0] == Separator && s[1] == Separator then
        assert HasDoubleSeparator(s);
        tail
      else
        var r := [s[0]] + tail;
        assert r[1..] == tail;
        assert !HasDoubleSeparator(r) by {
          forall i | 0 <= i < |r| - 1 ensures !(r[i] == Separator && r[i + 1] == Separator) {
            if i > 0 {
              assert r[i] == tail[i - 1] && r[i + 1] == tail[i];
            }
          }
        }
        assert !HasDoubleSeparator(s) ==> !HasDoubleSeparator(s[1..]) by {
          if HasDoubleSeparator(s[1..]) {
            var i :| 0 <= i < |s[1..]| - 1 && s[1..][i] == Separator && s[1..][i + 1] == Separator;
            assert s[i + 1] == Separator && s[i + 2] == Separator;
          }
        }
        r
  }

  /** Where `GetDirectoryName` cuts the path: at its last separator at or after the
      root, with the separators just before it dropped too. */
  function DirectoryNameOffset(path: string): (k: nat)
    requires |path| > RootLength(path)
    ensures RootLength(path) <= k < |path|
    ensures k > RootLength(path) ==> path[k - 1] != Separator
  {
    var root := RootLength(path);
    TrimSeparators(path, root, LastSeparator(path, root))
  }

  /** `Path.GetDirectoryName`: `None` (null) for an empty path or a bare root, the empty
      string for a name without directory, otherwise the path up to its last separator
      with each run of separators written as one. */
  function GetDirectoryName(path: string): (r: Option<string>)
    ensures r.None? <==> |path| <= RootLength(path)
    ensures r.Some? ==> |r.value| < |path| && !HasDoubleSeparator(r.value)
    ensures r.Some? && !HasDoubleSeparator(path) ==> r.value == path[..|r.value|]
  {
    if |path| <= RootLength(path) then None
    else
      var k := DirectoryNameOffset(path);
      assert !HasDoubleSeparator(path) ==> !HasDoubleSeparator(path[..k]) by {
        if HasDoubleSeparator(path[..k]) {
          var i :| 0 <= i < k - 1 && path[..k][i] == Separator && path[..k][i + 1] == Separator;
          assert path[i] == Separator && path[i + 1] == Separator;
        }
      }
      Some(CollapseSeparators(path[..k]))
  }

  /** A relative name without separators has the empty string as its directory. */
  lemma {:induction false} DirectoryOfBareName(name: string)
    requires name != [] && Separator !in name
    ensures GetDirectoryName(name) == Some([])
  {
    assert name[0] in name;
    NoSeparatorFound(name, 0);
  }

  lemma {:induction false} NoSeparatorFound(path: string, root: nat)
    requires root <= |path| && forall j :: root <= j < |path| ==> path[j] != Separator
    ensures LastSeparator(path, root) == root
    decreases |path|
  {
    if |path| > root {
      NoSeparatorFound(path[..|path| - 1], root);
    }
  }

  /** The directory of `dir/name` is `dir` with its separator runs collapsed, for a
      directory that does not end in a separator; so it is `dir` itself when `dir`
      holds no doubled separator. */
  lemma {:induction false} DirectoryOfJoined(dir: string, name: string)
    requires dir != [] && dir[|dir| - 1] != Separator && Separator !in name
    ensures GetDirectoryName(dir + [Separator] + name) == Some(CollapseSeparators(dir))
    ensures !HasDoubleSeparator(dir) ==> GetDirectoryName(dir + [Separator] + name) == Some(dir)
  {
    var p := dir + [Separator] + name;
    var root := RootLength(p);
    assert root == RootLength(dir);
    assert |dir| > root;
    SeparatorAt(dir, name, root);
    assert TrimSeparators(p, root, |dir|) == |dir|;
    assert p[..|dir|] == dir;
  }

  /** A doubled separator inside the directory is written once: the directory of
      `a//b/name` is `a/b`. */
  lemma {:induction false} DoubledSeparatorCollapses(a: string, b: string, name: string)
    requires a != [] && b != []
    requires Separator !in a && Separator !in b && Separator !in name
    ensures GetDirectoryName(a + [Separator, Separator] + b + [Separator] + name)
         == Some(a + [Separator] + b)
  {
    var dir := a + [Separator, Separator] + b;
    assert dir[|dir| - 1] == b[|b| - 1];
    DirectoryOfJoined(dir, name);
    CollapseDoubled(a, b);
  }

  /** Collapsing keeps a separator that no other separator follows. */
  lemma CollapseKeep(c: char, t: string)
    requires t != [] && !(c == Separator && t[0] == Separator)
    ensures CollapseSeparators([c] + t) == [c] + CollapseSeparators(t)
  {
    assert ([c] + t)[1..] == t;
  }

  /** Collapsing drops a separator that another one follows. */
  lemma CollapseDrop(t: string)
    requires t != [] && t[0] == Separator
    ensures CollapseSeparators([Separator] + t) == CollapseSeparators(t)
  {
    assert ([Separator] + t)[1..] == t;
  }

  lemma {:induction false} CollapseDoubled(a: string, b: string)
    requires Separator !in a && Separator !in b
    ensures CollapseSeparators(a + [Separator, Separator] + b) == a + [Separator] + b
    decreases |a|
  {
    if a == [] {
      assert a + [Separator, Separator] + b == [Separator] + ([Separator] + b);
      CollapseLeadingDouble(b);
      assert a + [Separator] + b == [Separator] + b;
    } else {
      var t := a[1..] + [Separator, Separator] + b;
      assert a + [Separator, Separator] + b == [a[0]] + t;
      assert a[0] in a;
      CollapseKeep(a[0], t);
      CollapseDoubled(a[1..], b);
      assert a + [Separator] + b == [a[0]] + (a[1..] + [Separator] + b);
    }
  }

  lemma CollapseLeadingDouble(b: string)
    requires Separator !in b
    ensures CollapseSeparators([Separator] + ([Separator] + b)) == [Separator] + b
  {
    var single := [Separator] + b;
    assert !HasDoubleSeparator(single) by {
      forall i | 1 <= i < |single| ensures single[i] != Separator {
        assert single[i] == b[i - 1];
      }
    }
    CollapseDrop(single);
  }

  lemma {:induction false} SeparatorAt(dir: string, name: string, root: nat)
    requires root <= |dir| && Separator !in name
    ensures LastSeparator(dir + [Separator] + name, root) == |dir|
    decreases |name|
  {
    var p := dir + [Separator] + name;
    if name == [] {
      assert p[|p| - 1] == Separator;
    } else {
      var init := name[..|name| - 1];
      assert name[|name| - 1] in name;
      SeparatorAt(dir, init, root);
      assert p[..|p| - 1] == dir + [Separator] + init;
    }
  }

  /** `Path.Combine(first, second)`: an empty side gives the other, a rooted second
      wins, and a separator is added only when neither side has one at the joint. */
  function Combine(first: string, second: string): (r: string)
    ensures EndsWith(r, second)
    ensures second == [] || second[0] != Separator ==> StartsWith(r, first)
    ensures |r| <= |first| + |second| + 1
  {
    if first == [] then second
    else if second == [] then first
    else if second[0] == Separator then second
    else if first[|first| - 1] == Separator then first + second
    else first + [Separator] + second
  }
}
