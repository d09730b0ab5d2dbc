/**
 * The archive patterns of the push verb. A pattern is turned into the text of a
 * .NET regular expression: `.` is escaped, `*` becomes `(.*)`, and the whole is
 * anchored with `^` and `$` and matched ignoring case. The model parses that text
 * into atoms, gives the atoms .NET's matching semantics, and proves them equal to
 * a plain glob matcher.
 */
module ArchivePattern {
  import opened Wrappers
  import opened DotNetText

  /** An element of the regular expressions that patterns translate to. */
  datatype Atom =
    | Literal(c: char)  // one character, compared ignoring case
    | AnyRun            // `(.*)`: any run of characters other than a line feed

  /** Characters with a regex meaning that the translation does not escape; a pattern
      holding one of them is outside the model. */
  predicate IsUnsupportedMeta(c: char) {
    c in "\\^$|?+()[]{}"
  }

  predicate IsSupportedPattern(pattern: string) {
    forall i :: 0 <= i < |pattern| ==> !IsUnsupportedMeta(pattern[i])
  }

  /** The regex body: `pattern.Replace(".", "\\.").Replace("*", "(.*)")`. */
  function EscapedPattern(pattern: string): string {
    Replace(Replace(pattern, ".", "\\."), "*", "(.*)")
  }

  /** The regex text the push verb builds from an archive pattern. */
  function ArchiveRegexText(pattern: string): string {
    "^" + EscapedPattern(pattern) + "$"
  }

  function Prepend(a: Atom, rest: Option<seq<Atom>>): Option<seq<Atom>> {
    match rest
    case Some(s) => Some([a] + s)
    case None => None
  }

  /** Reads the fragment of .NET regex syntax that translated patterns use: escaped
      characters, `(.*)` groups and plain literals; anything else is refused. */
  function ParseAtoms(body: string): Option<seq<Atom>>
    decreases |body|
  {
    if body == [] then Some([])
    else if body[0] == '\\' then
      if |body| >= 2 && (body[1] == '.' || body[1] == '*' || IsUnsupportedMeta(body[1]))
      then Prepend(Literal(body[1]), ParseAtoms(body[2..]))
      else None
    else if |body| >= 4 && body[..4] == "(.*)" then Prepend(AnyRun, ParseAtoms(body[4..]))
    else if body[0] == '.' || body[0] == '*' || IsUnsupportedMeta(body[0]) then None
    else Prepend(Literal(body[0]), ParseAtoms(body[1..]))
  }

  /** Reads an expression anchored at both ends. */
  function ParseAnchored(text: string): Option<seq<Atom>> {
    if |text| >= 2 && text[0] == '^' && text[|text| - 1] == '$' then ParseAtoms(text[1..|text| - 1])
    else None
  }

  /** Matching the whole of `s`, with `RegexOptions.IgnoreCase`. */
  function MatchAtoms(atoms: seq<Atom>, s: string): bool
    decreases |atoms|, |s|
  {
    if atoms == [] then s == []
    else match atoms[0]
      case Literal(c) => s != [] && LowerChar(c) == LowerChar(s[0]) && MatchAtoms(atoms[1..], s[1..])
      case AnyRun => MatchAtoms(atoms[1..], s) || (s != [] && s[0] != '\n' && MatchAtoms(atoms, s[1..]))
  }

  /** `Regex.IsMatch` for `^atoms$`: without `RegexOptions.Multiline`, `^` is the start
      and `$` is the end or the position before a final line feed. */
  function RegexIsMatch(atoms: seq<Atom>, s: string): bool {
    MatchAtoms(atoms, s) || (s != [] && s[|s| - 1] == '\n' && MatchAtoms(atoms, s[..|s| - 1]))
  }

  /** The atom a pattern character stands for. */
  function AtomOf(c: char): Atom {
    if c == '*' then AnyRun else Literal(c)
  }

  function GlobAtoms(pattern: string): (r: seq<Atom>)
    ensures |r| == |pattern|
    ensures forall i :: 0 <= i < |r| ==> r[i] == AtomOf(pattern[i])
    decreases |pattern|
  {
    if pattern == [] then [] else [AtomOf(pattern[0])] + GlobAtoms(pattern[1..])
  }

  /** The escaping of one pattern character. */
  function EscapeChar(c: char): string {
    if c == '.' then "\\." else if c == '*' then "(.*)" else [c]
  }

  /** The two replacements act on each character on its own. */
  lemma {:induction false} EscapedCons(x: char, rest: string)
    ensures EscapedPattern([x] + rest) == EscapeChar(x) + EscapedPattern(rest)
  {
    ReplaceCharCons(x, rest, '.', "\\.");
    var first := if x == '.' then "\\." else [x];
    ReplaceCharConcat(first, Replace(rest, ".", "\\."), '*', "(.*)");
    if x == '.' {
      ReplaceCharCons('\\', ".", '*', "(.*)");
      ReplaceCharCons('.', "", '*', "(.*)");
      assert Replace("", "*", "(.*)") == "";
      assert "\\." == ['\\'] + ".";
      assert "." == ['.'] + "";
    } else {
      ReplaceCharCons(x, "", '*', "(.*)");
      assert Replace("", "*", "(.*)") == "";
      assert [x] == [x] + "";
    }
  }

  /** The escaping of a supported character reads back as its atom. */
  lemma {:induction false} ParseEscapeChar(x: char, tail: string)
    requires !IsUnsupportedMeta(x)
    ensures ParseAtoms(EscapeChar(x) + tail) == Prepend(AtomOf(x), ParseAtoms(tail))
  {
    var body := EscapeChar(x) + tail;
    if x == '.' {
      assert body[0] == '\\' && body[1] == '.' && body[2..] == tail;
    } else if x == '*' {
      assert body[..4] == "(.*)" && body[4..] == tail;
    } else {
      assert body[0] == x && body[1..] == tail;
      assert |body| >= 4 ==> body[..4] != "(.*)" by {
        if |body| >= 4 { assert body[..4][0] == x; }
      }
    }
  }

  /** The escaped body of a supported pattern reads back as its glob atoms. */
  lemma {:induction false} ParseEscaped(pattern: string)
    requires IsSupportedPattern(pattern)
    ensures ParseAtoms(EscapedPattern(pattern)) == Some(GlobAtoms(pattern))
    decreases |pattern|
  {
    if pattern == [] {
      assert Replace("", ".", "\\.") == "";
      assert Replace("", "*", "(.*)") == "";
    } else {
      var rest := pattern[1..];
      assert pattern == [pattern[0]] + rest;
      EscapedCons(pattern[0], rest);
      ParseEscaped(rest);
      ParseEscapeChar(pattern[0], EscapedPattern(rest));
    }
  }

  /** The regex text of a supported pattern reads as its glob atoms, anchored. */
  lemma {:induction false} TranslationParses(pattern: string)
    requires IsSupportedPattern(pattern)
    ensures ParseAnchored(ArchiveRegexText(pattern)) == Some(GlobAtoms(pattern))
  {
    var text := ArchiveRegexText(pattern);
    assert text[1..|text| - 1] == EscapedPattern(pattern);
    ParseEscaped(pattern);
  }

  /** Whether the regex built from `pattern` matches `name`. */
  function IsArchiveMatch(pattern: string, name: string): bool
    requires IsSupportedPattern(pattern)
  {
    TranslationParses(pattern);
    RegexIsMatch(ParseAnchored(ArchiveRegexText(pattern)).value, name)
  }

  /** The reference glob matcher: `*` matches any run, every other character itself
      ignoring ASCII case, and the whole name must be consumed. */
  function GlobMatch(pattern: string, name: string): bool
    decreases |pattern|, |name|
  {
    if pattern == [] then name == []
    else if pattern[0] == '*' then
      GlobMatch(pattern[1..], name) || (name != [] && GlobMatch(pattern, name[1..]))
    else name != [] && LowerChar(pattern[0]) == LowerChar(name[0]) && GlobMatch(pattern[1..], name[1..])
  }

  lemma {:induction false} MatchAtomsIsGlob(pattern: string, name: string)
    requires '\n' !in name
    ensures MatchAtoms(GlobAtoms(pattern), name) == GlobMatch(pattern, name)
    decreases |pattern|, |name|
  {
    if pattern != [] {
      var atoms := GlobAtoms(pattern);
      assert atoms[1..] == GlobAtoms(pattern[1..]);
      if pattern[0] == '*' {
        MatchAtomsIsGlob(pattern[1..], name);
        if name != [] { MatchAtomsIsGlob(pattern, name[1..]); }
      } else if name != [] {
        MatchAtomsIsGlob(pattern[1..], name[1..]);
      }
    }
  }

  /** For names without line feeds the built regex matches exactly as the glob does. */
  lemma {:induction false} ArchiveMatchIsGlob(pattern: string, name: string)
    requires IsSupportedPattern(pattern)
    requires '\n' !in name
    ensures IsArchiveMatch(pattern, name) == GlobMatch(pattern, name)
  {
    TranslationParses(pattern);
    MatchAtomsIsGlob(pattern, name);
  }

  /** .NET's `$` also matches before a final line feed, so such a name matches too. */
  lemma {:induction false} TrailingLineFeedMatches(pattern: string, name: string)
    requires IsSupportedPattern(pattern)
    requires '\n' !in name
    requires GlobMatch(pattern, name)
    ensures IsArchiveMatch(pattern, name + "\n")
  {
    TranslationParses(pattern);
    MatchAtomsIsGlob(pattern, name);
    assert (name + "\n")[..|name|] == name;
  }

  predicate StarFree(pattern: string) {
    '*' !in pattern
  }

  /** Without `*`, a pattern matches exactly the names equal to it ignoring case;
      in particular `.` only matches a `.`. */
  lemma {:induction false} StarFreeMatchesEqual(pattern: string, name: string)
    requires StarFree(pattern)
    ensures GlobMatch(pattern, name) <==> EqualsIgnoreCase(pattern, name)
    decreases |pattern|
  {
    if pattern == [] {
      assert |ToLowerAscii(name)| == |name|;
    } else if name == [] {
      assert |ToLowerAscii(pattern)| != |ToLowerAscii(name)|;
    } else {
      StarFreeMatchesEqual(pattern[1..], name[1..]);
      EqualsIgnoreCaseCons(pattern[0], pattern[1..], name[0], name[1..]);
      assert pattern == [pattern[0]] + pattern[1..];
      assert name == [name[0]] + name[1..];
    }
  }

  /** A star-free prefix must match the start of the name. */
  lemma {:induction false} StarFreePrefix(prefix: string, rest: string, name: string)
    requires StarFree(prefix)
    ensures GlobMatch(prefix + rest, name) <==>
      |name| >= |prefix| && EqualsIgnoreCase(prefix, name[..|prefix|]) && GlobMatch(rest, name[|prefix|..])
    decreases |prefix|
  {
    if prefix == [] {
      assert prefix + rest == rest;
      assert ToLowerAscii(name[..0]) == [];
    } else {
      var p := prefix + rest;
      assert p[0] == prefix[0] && p[1..] == prefix[1..] + rest;
      if name == [] {
      } else {
        StarFreePrefix(prefix[1..], rest, name[1..]);
        assert prefix == [prefix[0]] + prefix[1..];
        if |name| >= |prefix| {
          EqualsIgnoreCaseCons(prefix[0], prefix[1..], name[0], name[1..][..|prefix| - 1]);
          assert name[..|prefix|] == [name[0]] + name[1..][..|prefix| - 1];
          assert name[1..][|prefix| - 1..] == name[|prefix|..];
        }
      }
    }
  }

  /** `*` followed by a star-free suffix matches the names ending in that suffix. */
  lemma {:induction false} StarThenSuffix(suffix: string, name: string)
    requires StarFree(suffix)
    ensures GlobMatch("*" + suffix, name) <==>
      |name| >= |suffix| && EqualsIgnoreCase(suffix, name[|name| - |suffix|..])
    decreases |name|
  {
    var p := "*" + suffix;
    assert p[0] == '*' && p[1..] == suffix;
    assert GlobMatch(p, name) == (GlobMatch(suffix, name) || (name != [] && GlobMatch(p, name[1..])));
    StarFreeMatchesEqual(suffix, name);
    assert EqualsIgnoreCase(suffix, name) ==> |name| == |suffix|;
    if |name| == |suffix| {
      assert name[|name| - |suffix|..] == name;
    }
    if name != [] {
      StarThenSuffix(suffix, name[1..]);
      if |name| > |suffix| {
        assert name[1..][|name| - 1 - |suffix|..] == name[|name| - |suffix|..];
      }
    }
  }

  /** A pattern with one `*`: the name must start with the part before it and end with
      the part after it, ignoring case, and be long enough for both. The match is anchored
      at both ends, so no part of a longer name is matched on its own. */
  lemma {:induction false} OneStarMatches(prefix: string, suffix: string, name: string)
    requires StarFree(prefix) && StarFree(suffix)
    ensures GlobMatch(prefix + "*" + suffix, name) <==>
      |name| >= |prefix| + |suffix| &&
      EqualsIgnoreCase(prefix, name[..|prefix|]) &&
      EqualsIgnoreCase(suffix, name[|name| - |suffix|..])
  {
    var rest := "*" + suffix;
    assert prefix + "*" + suffix == prefix + rest;
    var whole := GlobMatch(prefix + rest, name);
    StarFreePrefix(prefix, rest, name);
    if |name| >= |prefix| {
      var tail := name[|prefix|..];
      var head := EqualsIgnoreCase(prefix, name[..|prefix|]);
      assert whole <==> head && GlobMatch(rest, tail);
      StarThenSuffix(suffix, tail);
      if |tail| >= |suffix| {
        SuffixOfTail(name, |prefix|, |suffix|);
        assert GlobMatch(rest, tail) <==> EqualsIgnoreCase(suffix, name[|name| - |suffix|..]);
      } else {
        assert !GlobMatch(rest, tail);
      }
    } else {
      assert !whole;
    }
  }

  lemma {:induction false} SuffixOfTail(name: string, k: nat, n: nat)
    requires k + n <= |name|
    ensures name[k..][|name| - k - n..] == name[|name| - n..]
  {
  }

  /** The pattern `*` matches every name. */
  lemma {:induction false} StarMatchesAll(name: string)
    ensures GlobMatch("*", name)
  {
    OneStarMatches("", "", name);
    assert "" + "*" + "" == "*";
    assert ToLowerAscii(name[..0]) == ToLowerAscii("");
    assert ToLowerAscii(name[|name|..]) == ToLowerAscii("");
  }
}
