/** `CleanPathAndQuery`, the extension method on `Uri`, over the path-and-query text. */
module UriExtensions {
  import opened DotNetText

  /** `uri.PathAndQuery.Replace("//", "/")`. */
  function CleanPathAndQuery(pathAndQuery: string): (r: string)
    ensures |r| <= |pathAndQuery|
  {
    Replace(pathAndQuery, "//", "/")
  }

  /** Some `//` occurs in `s`. */
  predicate HasDoubleSlash(s: string) {
    exists i :: 0 <= i < |s| - 1 && s[i] == '/' && s[i + 1] == '/'
  }

  /** Some `///` occurs in `s`. */
  predicate HasTripleSlash(s: string) {
    exists i :: 0 <= i < |s| - 2 && s[i] == '/' && s[i + 1] == '/' && s[i + 2] == '/'
  }

  /** The number of `//` the left-to-right scan replaces. */
  function DoubleSlashCount(s: string): nat
    decreases |s|
  {
    if |s| < 2 then 0
    else if s[0] == '/' && s[1] == '/' then 1 + DoubleSlashCount(s[2..])
    else DoubleSlashCount(s[1..])
  }

  /** One step of the scan. */
  lemma {:induction false} CleanStep(s: string)
    ensures |s| < 2 ==> CleanPathAndQuery(s) == s
    ensures |s| >= 2 && s[0] == '/' && s[1] == '/' ==>
      CleanPathAndQuery(s) == "/" + CleanPathAndQuery(s[2..])
    ensures |s| >= 2 && !(s[0] == '/' && s[1] == '/') ==>
      CleanPathAndQuery(s) == [s[0]] + CleanPathAndQuery(s[1..])
  {
    if |s| >= 2 {
      assert s[..2] == "//" <==> s[0] == '/' && s[1] == '/';
    }
  }

  /** The cleanup keeps the first character. */
  lemma {:induction false} CleanKeepsFirst(s: string)
    requires s != []
    ensures CleanPathAndQuery(s) != [] && CleanPathAndQuery(s)[0] == s[0]
  {
    CleanStep(s);
  }

  /** Each replaced occurrence shortens the text by one character. */
  lemma {:induction false} CleanLength(s: string)
    ensures |CleanPathAndQuery(s)| == |s| - DoubleSlashCount(s)
    decreases |s|
  {
    CleanStep(s);
    if |s| >= 2 {
      if s[0] == '/' && s[1] == '/' { CleanLength(s[2..]); } else { CleanLength(s[1..]); }
    }
  }

  /** A `//` somewhere means the scan replaces at least one. */
  lemma {:induction false} HasDoubleSlashCounted(s: string)
    requires HasDoubleSlash(s)
    ensures DoubleSlashCount(s) > 0
    decreases |s|
  {
    if !(s[0] == '/' && s[1] == '/') {
      var i :| 0 <= i < |s| - 1 && s[i] == '/' && s[i + 1] == '/';
      assert i >= 1;
      assert s[1..][i - 1] == '/' && s[1..][i] == '/';
      HasDoubleSlashCounted(s[1..]);
    }
  }

  /** Text is left unchanged exactly when it holds no `//`. */
  lemma {:induction false} CleanUnchangedIff(s: string)
    ensures CleanPathAndQuery(s) == s <==> !HasDoubleSlash(s)
    decreases |s|
  {
    CleanLength(s);
    if HasDoubleSlash(s) {
      HasDoubleSlashCounted(s);
    } else if |s| >= 2 {
      CleanStep(s);
      assert !HasDoubleSlash(s[1..]);
      CleanUnchangedIff(s[1..]);
    } else {
      CleanStep(s);
    }
  }

  /** Only slashes are removed: every other character keeps its place in order. */
  lemma {:induction false} CleanRemovesOnlySlashes(s: string)
    ensures Without(CleanPathAndQuery(s), '/') == Without(s, '/')
    decreases |s|
  {
    CleanStep(s);
    if |s| >= 2 {
      if s[0] == '/' && s[1] == '/' {
        CleanRemovesOnlySlashes(s[2..]);
        assert s[1..][1..] == s[2..];
        assert Without(s, '/') == Without(s[2..], '/');
        assert Without("/" + CleanPathAndQuery(s[2..]), '/') == Without(CleanPathAndQuery(s[2..]), '/') by {
          assert ("/" + CleanPathAndQuery(s[2..]))[1..] == CleanPathAndQuery(s[2..]);
        }
      } else {
        CleanRemovesOnlySlashes(s[1..]);
        assert ([s[0]] + CleanPathAndQuery(s[1..]))[1..] == CleanPathAndQuery(s[1..]);
      }
    }
  }

  /** Without runs of three or more slashes, the result holds no `//` any more. */
  lemma {:induction false} CleanRemovesAllPairs(s: string)
    requires !HasTripleSlash(s)
    ensures !HasDoubleSlash(CleanPathAndQuery(s))
    decreases |s|
  {
    CleanStep(s);
    if |s| >= 2 {
      var first := |s| >= 2 && s[0] == '/' && s[1] == '/';
      var rest := if first then s[2..] else s[1..];
      assert !HasTripleSlash(rest);
      CleanRemovesAllPairs(rest);
      var head := if first then "/" else [s[0]];
      var c := CleanPathAndQuery(rest);
      assert CleanPathAndQuery(s) == head + c;
      if rest != [] {
        CleanKeepsFirst(rest);
        assert head[0] == '/' ==> rest[0] != '/' by {
          if first { assert s[2] == rest[0]; } else { assert rest[0] == s[1]; }
        }
      }
    }
  }

  /** One pass is not idempotent: `///` becomes `//`, which a second pass changes again. */
  lemma {:induction false} NotIdempotent()
    ensures CleanPathAndQuery("///") == "//"
    ensures CleanPathAndQuery(CleanPathAndQuery("///")) == "/"
    ensures HasDoubleSlash(CleanPathAndQuery("///"))
  {
    CleanStep("///");
    CleanStep("/");
    CleanStep("//");
    CleanStep("");
    assert "///"[2..] == "/";
    assert "//"[2..] == "";
    var r := CleanPathAndQuery("///");
    assert r[0] == '/' && r[1] == '/';
  }
}
