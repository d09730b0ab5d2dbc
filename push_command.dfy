/**
 * The push verb: the order of its checks, the selection of the packages to archive,
 * the "works with" version list and the "current" flag sent with the upload.
 * What `RunAndReturn` learns from the file system, the ZIP archive and the server is
 * given to it as a `PushEnvironment`.
 */
module PushCommand {
  import opened Wrappers
  import opened DotNetText
  import opened DotNetNumber
  import opened ErrorCodes
  import opened PackageHelper
  import opened ArchivePattern

  /** The options of the push verb; `Archive` is `None` when the option is absent. */
  datatype PushOptions = PushOptions(
    Package: string,
    ApiKey: string,
    Current: string,
    DotNetVersion: string,
    WorksWith: string,
    Archive: Option<seq<string>>)

  /** The archive pattern that stands for the current package rather than a regex. */
  const CurrentToken: string := "current"

  /** The id the server reports when there is no current package. */
  const NoCurrentPackage: string := "0"

  // ---------------------------------------------------------------------------
  // Selecting the packages to archive

  /** `packages.Where(x => archiveRegex.IsMatch(x.Name)).Select(x => x.Id)`. */
  function MatchingIds(pattern: string, packages: seq<PackageFile>): seq<int>
    requires IsSupportedPattern(pattern)
  {
    Flatten(PackageIds(pattern, packages))
  }

  /** What each package contributes, one list per package. */
  function PackageIds(pattern: string, packages: seq<PackageFile>): (r: seq<seq<int>>)
    requires IsSupportedPattern(pattern)
    ensures |r| == |packages|
    ensures forall j :: 0 <= j < |r| ==> r[j] == Selected(pattern, packages[j])
  {
    seq(|packages|, j requires 0 <= j < |packages| && IsSupportedPattern(pattern) => Selected(pattern, packages[j]))
  }

  /** The id of one package when its name matches, else nothing. */
  function Selected(pattern: string, package: PackageFile): (r: seq<int>)
    requires IsSupportedPattern(pattern)
    ensures r != [] <==> IsArchiveMatch(pattern, package.Name)
    ensures r == [] || r == [package.Id]
  {
    if IsArchiveMatch(pattern, package.Name) then [package.Id] else []
  }

  /** The number of packages whose name matches the pattern. */
  function MatchCount(pattern: string, packages: seq<PackageFile>): nat
    requires IsSupportedPattern(pattern)
    decreases |packages|
  {
    if packages == [] then 0
    else
      MatchCount(pattern, packages[..|packages| - 1])
        + (if IsArchiveMatch(pattern, packages[|packages| - 1].Name) then 1 else 0)
  }

  /** A pattern adds one id per package whose name matches it, so the count printed
      after archiving counts each matching package once per pattern. */
  lemma {:induction false} MatchingIdsCount(pattern: string, packages: seq<PackageFile>)
    requires IsSupportedPattern(pattern)
    ensures |MatchingIds(pattern, packages)| == MatchCount(pattern, packages)
  {
    MatchingIdsCountUpTo(pattern, packages, |packages|);
    assert packages[..|packages|] == packages;
  }

  lemma {:induction false} MatchingIdsCountUpTo(pattern: string, packages: seq<PackageFile>, k: nat)
    requires IsSupportedPattern(pattern) && k <= |packages|
    ensures |ConcatUpTo(PackageIds(pattern, packages), k)| == MatchCount(pattern, packages[..k])
    decreases k
  {
    if k == 0 {
      assert packages[..k] == [];
    } else {
      MatchingIdsCountUpTo(pattern, packages, k - 1);
      var per := PackageIds(pattern, packages);
      assert per[k - 1] == Selected(pattern, packages[k - 1]);
      var front := packages[..k];
      assert front[..|front| - 1] == packages[..k - 1];
      assert front[|front| - 1] == packages[k - 1];
    }
  }

  /** An id is selected exactly when a package that carries it has a matching name. */
  lemma {:induction false} MatchingIdsMembers(pattern: string, packages: seq<PackageFile>, x: int)
    requires IsSupportedPattern(pattern)
    ensures x in MatchingIds(pattern, packages) <==>
      exists j :: 0 <= j < |packages| && packages[j].Id == x && IsArchiveMatch(pattern, packages[j].Name)
  {
    var per := PackageIds(pattern, packages);
    if x in Flatten(per) {
      var j := ConcatUpToSource(per, |per|, x);
      assert per[j] == Selected(pattern, packages[j]);
    }
    if exists j :: 0 <= j < |packages| && packages[j].Id == x && IsArchiveMatch(pattern, packages[j].Name) {
      var j :| 0 <= j < |packages| && packages[j].Id == x && IsArchiveMatch(pattern, packages[j].Name);
      assert per[j] == [x];
      ConcatUpToInclude(per, |per|, j, x);
    }
  }

  /** What a regex pattern needs to be handled without an exception: a package list
      to filter, and only the regex characters the translation supports. */
  predicate PatternsUsable(patterns: seq<string>, packages: Option<seq<PackageFile>>) {
    forall i :: 0 <= i < |patterns| && patterns[i] != CurrentToken ==>
      IsSupportedPattern(patterns[i]) && packages.Some?
  }

  /** What the token `current` needs: `int.Parse` must accept the current id whenever
      it is used. */
  predicate CurrentIdUsable(currentPackageId: string) {
    currentPackageId != NoCurrentPackage ==> TryParseInt32(currentPackageId).Some?
  }

  /** The ids one pattern adds. The token `current` (compared ordinally) is never a
      regex: it adds the current id unless that is `"0"`. Where the push verb would
      throw instead (`Usable` fails) the pattern adds nothing here. */
  function IdsFor(pattern: string, packages: Option<seq<PackageFile>>, currentPackageId: string): (r: seq<int>)
  {
    if pattern == CurrentToken then
      if currentPackageId == NoCurrentPackage then []
      else match TryParseInt32(currentPackageId)
        case Some(id) => [id]
        case None => []
    else if packages.Some? && IsSupportedPattern(pattern) then MatchingIds(pattern, packages.value)
    else []
  }

  /** The ids of all patterns, pattern after pattern. */
  function CollectedIds(patterns: seq<string>, packages: Option<seq<PackageFile>>, currentPackageId: string): seq<int>
  {
    Flatten(PatternIds(patterns, packages, currentPackageId))
  }

  /** The ids of the first `k` patterns. */
  function IdsUpTo(patterns: seq<string>, k: nat, packages: Option<seq<PackageFile>>, currentPackageId: string): seq<int>
    requires k <= |patterns|
  {
    ConcatUpTo(PatternIds(patterns, packages, currentPackageId), k)
  }

  /** One more pattern appends what that pattern adds. */
  lemma {:induction false} IdsUpToStep(patterns: seq<string>, k: nat, packages: Option<seq<PackageFile>>, currentPackageId: string)
    requires k < |patterns|
    ensures IdsUpTo(patterns, k + 1, packages, currentPackageId) ==
      IdsUpTo(patterns, k, packages, currentPackageId) + IdsFor(patterns[k], packages, currentPackageId)
  {
    var per := PatternIds(patterns, packages, currentPackageId);
    assert per[k] == IdsFor(patterns[k], packages, currentPackageId);
  }

  /** The ids each pattern adds, one list per pattern. */
  function PatternIds(patterns: seq<string>, packages: Option<seq<PackageFile>>, currentPackageId: string): (r: seq<seq<int>>)
    ensures |r| == |patterns|
    ensures forall i :: 0 <= i < |r| ==> r[i] == IdsFor(patterns[i], packages, currentPackageId)
  {
    seq(|patterns|, i requires 0 <= i < |patterns| => IdsFor(patterns[i], packages, currentPackageId))
  }

  /** The lists one after the other, as repeated `AddRange` builds them. */
  function Flatten(xss: seq<seq<int>>): seq<int> {
    ConcatUpTo(xss, |xss|)
  }

  /** The first `k` lists one after the other. */
  function ConcatUpTo(xss: seq<seq<int>>, k: nat): seq<int>
    requires k <= |xss|
    decreases k
  {
    if k == 0 then [] else ConcatUpTo(xss, k - 1) + xss[k - 1]
  }

  /** The patterns can all be handled without an exception. */
  predicate Usable(patterns: seq<string>, packages: Option<seq<PackageFile>>, currentPackageId: string) {
    PatternsUsable(patterns, packages) && (CurrentToken in patterns ==> CurrentIdUsable(currentPackageId))
  }

  /** The archive loop: `packagesToArchive.Add`/`AddRange` pattern by pattern. */
  method CollectArchiveIds(archivePatterns: seq<string>, packages: Option<seq<PackageFile>>, currentPackageId: string)
    returns (packagesToArchive: seq<int>)
    requires Usable(archivePatterns, packages, currentPackageId)
    ensures packagesToArchive == CollectedIds(archivePatterns, packages, currentPackageId)
  {
    packagesToArchive := [];
    var i := 0;
    while i < |archivePatterns|
      invariant 0 <= i <= |archivePatterns|
      invariant packagesToArchive == IdsUpTo(archivePatterns, i, packages, currentPackageId)
    {
      var archiveIds := PatternStep(archivePatterns, i, packages, currentPackageId);
      packagesToArchive := packagesToArchive + archiveIds;
      i := i + 1;
    }
  }

  /** The body of the archive loop for pattern `i`: `Add(int.Parse(...))` for the token
      `current` when there is a current package, else `AddRange` of the matching ids. */
  method PatternStep(archivePatterns: seq<string>, i: nat, packages: Option<seq<PackageFile>>, currentPackageId: string)
    returns (archiveIds: seq<int>)
    requires i < |archivePatterns| && Usable(archivePatterns, packages, currentPackageId)
    ensures IdsUpTo(archivePatterns, i + 1, packages, currentPackageId) ==
      IdsUpTo(archivePatterns, i, packages, currentPackageId) + archiveIds
  {
    var archivePattern := archivePatterns[i];
    assert archivePattern in archivePatterns;
    if archivePattern == CurrentToken {
      if currentPackageId != NoCurrentPackage {
        archiveIds := [TryParseInt32(currentPackageId).value];
      } else {
        archiveIds := [];
      }
    } else {
      archiveIds := MatchingIds(archivePattern, packages.value);
    }
    IdsUpToStep(archivePatterns, i, packages, currentPackageId);
  }

  /** Collected ids follow the order of the patterns. */
  lemma {:induction false} CollectedIdsAppend(a: seq<string>, b: seq<string>, packages: Option<seq<PackageFile>>, currentPackageId: string)
    ensures CollectedIds(a + b, packages, currentPackageId) ==
      CollectedIds(a, packages, currentPackageId) + CollectedIds(b, packages, currentPackageId)
  {
    var pa := PatternIds(a, packages, currentPackageId);
    var pb := PatternIds(b, packages, currentPackageId);
    var pab := PatternIds(a + b, packages, currentPackageId);
    forall i | 0 <= i < |pab| ensures pab[i] == (pa + pb)[i] {
      if i < |a| { assert (a + b)[i] == a[i]; } else { assert (a + b)[i] == b[i - |a|]; }
    }
    assert pab == pa + pb;
    FlattenAppend(pa, pb);
  }

  /** `Flatten` distributes over concatenation. */
  lemma {:induction false} FlattenAppend(a: seq<seq<int>>, b: seq<seq<int>>)
    ensures Flatten(a + b) == Flatten(a) + Flatten(b)
  {
    ConcatUpToShift(a, b, |b|);
  }

  lemma {:induction false} ConcatUpToPrefix(a: seq<seq<int>>, b: seq<seq<int>>, k: nat)
    requires k <= |a|
    ensures ConcatUpTo(a + b, k) == ConcatUpTo(a, k)
    decreases k
  {
    if k > 0 {
      ConcatUpToPrefix(a, b, k - 1);
      assert (a + b)[k - 1] == a[k - 1];
    }
  }

  lemma {:induction false} ConcatUpToShift(a: seq<seq<int>>, b: seq<seq<int>>, j: nat)
    requires j <= |b|
    ensures ConcatUpTo(a + b, |a| + j) == ConcatUpTo(a, |a|) + ConcatUpTo(b, j)
    decreases j
  {
    if j == 0 {
      ConcatUpToPrefix(a, b, |a|);
    } else {
      ConcatUpToShift(a, b, j - 1);
      assert (a + b)[|a| + j - 1] == b[j - 1];
      var front := ConcatUpTo(a, |a|);
      var middle := ConcatUpTo(b, j - 1);
      assert ConcatUpTo(a + b, |a| + j) == front + middle + b[j - 1];
      assert front + middle + b[j - 1] == front + (middle + b[j - 1]);
    }
  }

  /** Within one pattern, ids follow the order of the package list. */
  lemma {:induction false} MatchingIdsAppend(pattern: string, a: seq<PackageFile>, b: seq<PackageFile>)
    requires IsSupportedPattern(pattern)
    ensures MatchingIds(pattern, a + b) == MatchingIds(pattern, a) + MatchingIds(pattern, b)
  {
    var pa := PackageIds(pattern, a);
    var pb := PackageIds(pattern, b);
    var pab := PackageIds(pattern, a + b);
    forall j | 0 <= j < |pab| ensures pab[j] == (pa + pb)[j] {
      if j < |a| { assert (a + b)[j] == a[j]; } else { assert (a + b)[j] == b[j - |a|]; }
    }
    assert pab == pa + pb;
    FlattenAppend(pa, pb);
  }

  /** An id is collected exactly when one of the patterns adds it. */
  lemma {:induction false} CollectedIdsMembers(patterns: seq<string>, packages: Option<seq<PackageFile>>, currentPackageId: string, x: int)
    ensures x in CollectedIds(patterns, packages, currentPackageId) <==>
      exists i :: 0 <= i < |patterns| && x in IdsFor(patterns[i], packages, currentPackageId)
  {
    var per := PatternIds(patterns, packages, currentPackageId);
    if x in Flatten(per) {
      var i := ConcatUpToSource(per, |per|, x);
      assert x in IdsFor(patterns[i], packages, currentPackageId);
    }
    if exists i :: 0 <= i < |patterns| && x in IdsFor(patterns[i], packages, currentPackageId) {
      var i :| 0 <= i < |patterns| && x in IdsFor(patterns[i], packages, currentPackageId);
      ConcatUpToInclude(per, |per|, i, x);
    }
  }

  /** What the first `k` lists hold comes from one of them. */
  lemma {:induction false} ConcatUpToSource(xss: seq<seq<int>>, k: nat, x: int) returns (i: nat)
    requires k <= |xss| && x in ConcatUpTo(xss, k)
    ensures i < k && x in xss[i]
    decreases k
  {
    if x in xss[k - 1] {
      i := k - 1;
    } else {
      i := ConcatUpToSource(xss, k - 1, x);
    }
  }

  /** What one of the first `k` lists holds is in their concatenation. */
  lemma {:induction false} ConcatUpToInclude(xss: seq<seq<int>>, k: nat, i: nat, x: int)
    requires i < k <= |xss| && x in xss[i]
    ensures x in ConcatUpTo(xss, k)
    decreases k
  {
    if i < k - 1 {
      ConcatUpToInclude(xss, k - 1, i, x);
    }
  }

  /** A pattern without `*` selects the packages whose name equals it ignoring case
      (for names without line feeds); its `.` only matches a `.`. */
  lemma {:induction false} StarFreePatternSelectsEqualNames(pattern: string, packages: seq<PackageFile>, x: int)
    requires IsSupportedPattern(pattern) && StarFree(pattern)
    requires forall j :: 0 <= j < |packages| ==> '\n' !in packages[j].Name
    ensures x in MatchingIds(pattern, packages) <==>
      exists j :: 0 <= j < |packages| && packages[j].Id == x && EqualsIgnoreCase(pattern, packages[j].Name)
  {
    MatchingIdsMembers(pattern, packages, x);
    forall j | 0 <= j < |packages|
      ensures IsArchiveMatch(pattern, packages[j].Name) <==> EqualsIgnoreCase(pattern, packages[j].Name)
    {
      ArchiveMatchIsGlob(pattern, packages[j].Name);
      StarFreeMatchesEqual(pattern, packages[j].Name);
    }
  }

  // ---------------------------------------------------------------------------
  // De-duplication

  /** LINQ `Distinct`: each value once, at its first occurrence. */
  function Distinct(xs: seq<int>): (r: seq<int>)
    ensures |r| <= |xs|
    ensures forall x :: x in r <==> x in xs
    ensures forall i, j :: 0 <= i < j < |r| ==> r[i] != r[j]
    decreases |xs|
  {
    if xs == [] then []
    else
      var init := xs[..|xs| - 1];
      var d := Distinct(init);
      var x := xs[|xs| - 1];
      assert xs == init + [x];
      if x in d then d else d + [x]
  }

  /** A list without duplicates is its own `Distinct`. */
  lemma {:induction false} DistinctOfDistinct(xs: seq<int>)
    requires forall i, j :: 0 <= i < j < |xs| ==> xs[i] != xs[j]
    ensures Distinct(xs) == xs
    decreases |xs|
  {
    if xs != [] {
      var init := xs[..|xs| - 1];
      DistinctOfDistinct(init);
      assert xs[|xs| - 1] !in init;
      assert xs == init + [xs[|xs| - 1]];
    }
  }

  /** Later values never reorder earlier ones: the de-duplicated list of a prefix is a
      prefix of the de-duplicated whole. */
  lemma {:induction false} DistinctKeepsFirstOccurrences(xs: seq<int>, ys: seq<int>)
    ensures |Distinct(xs)| <= |Distinct(xs + ys)|
    ensures Distinct(xs + ys)[..|Distinct(xs)|] == Distinct(xs)
    decreases |ys|
  {
    if ys == [] {
      assert xs + ys == xs;
    } else {
      var init := ys[..|ys| - 1];
      DistinctKeepsFirstOccurrences(xs, init);
      assert (xs + ys)[..|xs + ys| - 1] == xs + init;
      var d, e := Distinct(xs), Distinct(xs + init);
      assert Distinct(xs + ys)[..|e|] == e;
      assert e[..|d|] == d;
      assert Distinct(xs + ys)[..|d|] == Distinct(xs + ys)[..|e|][..|d|];
    }
  }

  // ---------------------------------------------------------------------------
  // The order of the checks

  /** What the push verb learns from outside the model. */
  datatype PushEnvironment = PushEnvironment(
    packageExists: bool,                      // File.Exists(options.Package)
    entryNames: seq<string>,                  // the names of the ZIP archive's entries
    packageList: Option<seq<PackageFile>>,    // GetPackageList's list; None for null
    packageListError: Option<ErrorCode>,      // GetPackageList's error code
    currentPackageId: string,                 // GetCurrentPackageFileId's response body
    currentPackageIdError: Option<ErrorCode>, // GetCurrentPackageFileId's error code
    archiveError: Option<ErrorCode>,          // ArchivePackages' error code
    packageXmlError: Option<ErrorCode>,       // PackageXml's error code
    uploadError: Option<ErrorCode>)           // UploadPackage's error code

  /** What a run of the push verb does, besides the API calls themselves. */
  datatype PushOutcome = PushOutcome(
    code: ErrorCode,             // the returned error code
    archived: Option<seq<int>>,  // the ids passed to ArchivePackages; None when it is not called
    reportedCount: Option<nat>,  // the count in the "Archived … packages" message, if printed
    uploaded: bool)              // whether UploadPackage was called

  /** The checks before the archive step, in the order they run:
      exists, ZIP, package.xml, package list, current id, duplicate name. */
  function PreUploadChecks(options: PushOptions, env: PushEnvironment): (r: seq<Option<ErrorCode>>)
    ensures |r| == 6
  {
    [ EnsurePackageExists(env.packageExists),
      EnsureIsZip(options.Package),
      EnsureContainsPackageXml(env.entryNames),
      env.packageListError,
      env.currentPackageIdError,
      DuplicateNameError(env.packageList, options.Package) ]
  }

  /** The position of the first failing check, or `|checks|` when none fails. */
  function FirstFailureIndex(checks: seq<Option<ErrorCode>>): (r: nat)
    ensures r <= |checks|
    ensures forall j :: 0 <= j < r ==> checks[j].None?
    ensures r < |checks| ==> checks[r].Some?
    decreases |checks|
  {
    if checks == [] || checks[0].Some? then 0 else 1 + FirstFailureIndex(checks[1..])
  }

  /** The error of the first failing check. */
  function FirstFailure(checks: seq<Option<ErrorCode>>): Option<ErrorCode> {
    var k := FirstFailureIndex(checks);
    if k < |checks| then checks[k] else None
  }

  /** The check at `k` is the first failing one (or none fails, for `k == |checks|`). */
  lemma {:induction false} FirstFailureAt(checks: seq<Option<ErrorCode>>, k: nat)
    requires k <= |checks|
    requires forall j :: 0 <= j < k ==> checks[j].None?
    requires k < |checks| ==> checks[k].Some?
    ensures FirstFailureIndex(checks) == k
    ensures FirstFailure(checks) == if k < |checks| then checks[k] else None
    decreases k
  {
    if k > 0 {
      FirstFailureAt(checks[1..], k - 1);
    }
  }

  /** The first failing check and the ones before it fix the answer: the checks after
      it can say anything. */
  lemma {:induction false} FirstFailureIgnoresLater(checks: seq<Option<ErrorCode>>, other: seq<Option<ErrorCode>>)
    requires FirstFailureIndex(checks) < |checks| && FirstFailureIndex(checks) < |other|
    requires other[..FirstFailureIndex(checks) + 1] == checks[..FirstFailureIndex(checks) + 1]
    ensures FirstFailureIndex(other) == FirstFailureIndex(checks)
    ensures FirstFailure(other) == FirstFailure(checks)
    decreases |checks|
  {
    var k := FirstFailureIndex(checks);
    assert other[k] == other[..k + 1][k] && checks[k] == checks[..k + 1][k];
    if k > 0 {
      assert checks[0] == checks[..k + 1][0] && other[0] == other[..k + 1][0];
      assert other[1..][..k] == other[..k + 1][1..];
      assert checks[1..][..k] == checks[..k + 1][1..];
      FirstFailureIgnoresLater(checks[1..], other[1..]);
    }
  }

  /** What the archive step needs once the checks pass. */
  predicate ArchiveReady(options: PushOptions, env: PushEnvironment) {
    FirstFailure(PreUploadChecks(options, env)).None? ==>
      Usable(options.Archive.GetOr([]), env.packageList, env.currentPackageId)
  }

  /** The outcome of the push verb, stated check by check. */
  function PushResult(options: PushOptions, env: PushEnvironment): PushOutcome
    requires ArchiveReady(options, env)
  {
    var failure := FirstFailure(PreUploadChecks(options, env));
    if failure.Some? then PushOutcome(failure.value, None, None, false)
    else ArchiveAndUpload(CollectedIds(options.Archive.GetOr([]), env.packageList, env.currentPackageId), env)
  }

  /** The steps after the checks, given the collected ids: the archive call when there
      are ids, then package.xml and the upload. */
  function ArchiveAndUpload(ids: seq<int>, env: PushEnvironment): PushOutcome {
    var archived := if |ids| > 0 then Some(Distinct(ids)) else None;
    if |ids| > 0 && env.archiveError.Some? then PushOutcome(env.archiveError.value, archived, None, false)
    else
      var count := if |ids| > 0 then Some(|ids|) else None;
      if env.packageXmlError.Some? then PushOutcome(env.packageXmlError.value, archived, count, false)
      else if env.uploadError.Some? then PushOutcome(env.uploadError.value, archived, count, true)
      else PushOutcome(Success, archived, count, true)
  }

  /** `RunAndReturn`: the checks with their early returns, then the archive step,
      the package.xml step and the upload. */
  method RunAndReturn(options: PushOptions, env: PushEnvironment) returns (outcome: PushOutcome)
    requires HasThreeParts(options.ApiKey)
    requires ArchiveReady(options, env)
    ensures outcome == PushResult(options, env)
  {
    var keyParts := SplitKey(options.ApiKey);
    ghost var checks := PreUploadChecks(options, env);

    var ensurePackageExistsErrorCode := EnsurePackageExists(env.packageExists);
    assert checks[0] == ensurePackageExistsErrorCode;
    if ensurePackageExistsErrorCode.Some? {
      FirstFailureAt(checks, 0);
      return PushOutcome(ensurePackageExistsErrorCode.value, None, None, false);
    }

    var ensureIsZipErrorCode := EnsureIsZip(options.Package);
    assert checks[1] == ensureIsZipErrorCode;
    if ensureIsZipErrorCode.Some? {
      FirstFailureAt(checks, 1);
      return PushOutcome(ensureIsZipErrorCode.value, None, None, false);
    }

    var ensureContainsPackageXmlErrorCode := EnsureContainsPackageXml(env.entryNames);
    assert checks[2] == ensureContainsPackageXmlErrorCode;
    if ensureContainsPackageXmlErrorCode.Some? {
      FirstFailureAt(checks, 2);
      return PushOutcome(ensureContainsPackageXmlErrorCode.value, None, None, false);
    }

    assert checks[3] == env.packageListError;
    if env.packageListError.Some? {
      FirstFailureAt(checks, 3);
      return PushOutcome(env.packageListError.value, None, None, false);
    }

    assert checks[4] == env.currentPackageIdError;
    if env.currentPackageIdError.Some? {
      FirstFailureAt(checks, 4);
      return PushOutcome(env.currentPackageIdError.value, None, None, false);
    }

    var duplicateErrorCode := EnsurePackageDoesntAlreadyExists(env.packageList, options.Package);
    assert checks[5] == duplicateErrorCode;
    if duplicateErrorCode.Some? {
      FirstFailureAt(checks, 5);
      return PushOutcome(duplicateErrorCode.value, None, None, false);
    }
    FirstFailureAt(checks, 6);

    var archivePatterns: seq<string> := [];
    if options.Archive.Some? {
      archivePatterns := archivePatterns + options.Archive.value;
    }
    assert archivePatterns == options.Archive.GetOr([]);

    var packagesToArchive: seq<int> := [];
    if |archivePatterns| > 0 {
      packagesToArchive := CollectArchiveIds(archivePatterns, env.packageList, env.currentPackageId);
    }
    assert packagesToArchive == CollectedIds(archivePatterns, env.packageList, env.currentPackageId);
    assert PushResult(options, env) == ArchiveAndUpload(packagesToArchive, env);

    var archived: Option<seq<int>> := None;
    var count: Option<nat> := None;
    if |packagesToArchive| > 0 {
      archived := Some(Distinct(packagesToArchive));
      if env.archiveError.Some? {
        return PushOutcome(env.archiveError.value, archived, None, false);
      }
      count := Some(|packagesToArchive|);
    }

    if env.packageXmlError.Some? {
      return PushOutcome(env.packageXmlError.value, archived, count, false);
    }

    if env.uploadError.Some? {
      return PushOutcome(env.uploadError.value, archived, count, true);
    }

    return PushOutcome(Success, archived, count, true);
  }

  /** A failing check decides the result: its code is returned, no check before it
      failed, and neither the archive call nor the upload happens. */
  lemma {:induction false} FailingCheckDecides(options: PushOptions, env: PushEnvironment)
    requires ArchiveReady(options, env)
    requires FirstFailureIndex(PreUploadChecks(options, env)) < 6
    ensures var checks := PreUploadChecks(options, env);
      var k := FirstFailureIndex(checks);
      PushResult(options, env) == PushOutcome(checks[k].value, None, None, false) &&
      forall j :: 0 <= j < k ==> checks[j].None?
  {
  }

  /** The checks after the first failing one are not consulted: environments that
      agree up to it give the same outcome. */
  lemma {:induction false} LaterChecksNotConsulted(options: PushOptions, env: PushEnvironment, other: PushEnvironment)
    requires ArchiveReady(options, env) && ArchiveReady(options, other)
    requires FirstFailureIndex(PreUploadChecks(options, env)) < 6
    requires var k := FirstFailureIndex(PreUploadChecks(options, env));
      PreUploadChecks(options, other)[..k + 1] == PreUploadChecks(options, env)[..k + 1]
    ensures PushResult(options, other) == PushResult(options, env)
  {
    FirstFailureIgnoresLater(PreUploadChecks(options, env), PreUploadChecks(options, other));
  }

  /** Once the checks pass, ArchivePackages is called exactly when something was
      collected, with the ids de-duplicated and none lost. */
  lemma {:induction false} ArchiveCall(options: PushOptions, env: PushEnvironment)
    requires ArchiveReady(options, env)
    requires FirstFailure(PreUploadChecks(options, env)).None?
    ensures var ids := CollectedIds(options.Archive.GetOr([]), env.packageList, env.currentPackageId);
      var archived := PushResult(options, env).archived;
      (archived.Some? <==> |ids| > 0) &&
      (archived.Some? ==>
        (forall i, j :: 0 <= i < j < |archived.value| ==> archived.value[i] != archived.value[j]) &&
        (forall x :: x in archived.value <==> x in ids))
  {
    var ids := CollectedIds(options.Archive.GetOr([]), env.packageList, env.currentPackageId);
    assert PushResult(options, env) == ArchiveAndUpload(ids, env);
    ArchivedIds(ids, env);
  }

  /** The archive call receives the distinct collected ids, and only when there are some. */
  lemma {:induction false} ArchivedIds(ids: seq<int>, env: PushEnvironment)
    ensures var archived := ArchiveAndUpload(ids, env).archived;
      (archived.Some? <==> |ids| > 0) &&
      (archived.Some? ==>
        (forall i, j :: 0 <= i < j < |archived.value| ==> archived.value[i] != archived.value[j]) &&
        (forall x :: x in archived.value <==> x in ids))
  {
    if |ids| > 0 {
      assert ArchiveAndUpload(ids, env).archived == Some(Distinct(ids));
    }
  }

  /** Once the checks pass, the "Archived" message is printed exactly when the archive
      call succeeded, and it reports the count before de-duplication. */
  lemma {:induction false} ArchiveReport(options: PushOptions, env: PushEnvironment)
    requires ArchiveReady(options, env)
    requires FirstFailure(PreUploadChecks(options, env)).None?
    ensures var ids := CollectedIds(options.Archive.GetOr([]), env.packageList, env.currentPackageId);
      var reported := PushResult(options, env).reportedCount;
      (reported.Some? <==> |ids| > 0 && env.archiveError.None?) &&
      (reported.Some? ==> reported.value == |ids|)
  {
    var ids := CollectedIds(options.Archive.GetOr([]), env.packageList, env.currentPackageId);
    assert PushResult(options, env) == ArchiveAndUpload(ids, env);
    ReportedCount(ids, env);
  }

  /** The count is reported when the archive call happened and succeeded, and it is the
      number of ids before de-duplication. */
  lemma {:induction false} ReportedCount(ids: seq<int>, env: PushEnvironment)
    ensures var reported := ArchiveAndUpload(ids, env).reportedCount;
      (reported.Some? <==> |ids| > 0 && env.archiveError.None?) &&
      (reported.Some? ==> reported.value == |ids|)
  {
  }

  /** The run succeeds exactly when no step reports an error (the steps never report
      `Success` as an error). */
  lemma {:induction false} SucceedsIffNoError(options: PushOptions, env: PushEnvironment)
    requires ArchiveReady(options, env)
    requires env.packageListError != Some(Success) && env.currentPackageIdError != Some(Success)
    requires env.archiveError != Some(Success) && env.packageXmlError != Some(Success)
    requires env.uploadError != Some(Success)
    ensures PushResult(options, env).code == Success <==>
      (forall i :: 0 <= i < 6 ==> PreUploadChecks(options, env)[i].None?) &&
      var ids := CollectedIds(options.Archive.GetOr([]), env.packageList, env.currentPackageId);
      (|ids| == 0 || env.archiveError.None?) && env.packageXmlError.None? && env.uploadError.None?
  {
    var checks := PreUploadChecks(options, env);
    var k := FirstFailureIndex(checks);
    if k < 6 {
      assert checks[k].value != Success;
    }
  }

  // ---------------------------------------------------------------------------
  // The values sent with the upload

  /** One entry of the `umbracoVersions` list. */
  datatype UmbracoVersion = UmbracoVersion(Version: string)

  /** `GetVersionCompatibility`: one version per non-empty comma-separated segment,
      untrimmed and in order (the JSON text itself is left out). */
  function GetVersionCompatibility(worksWithString: string): (r: seq<UmbracoVersion>)
    ensures forall i :: 0 <= i < |r| ==> r[i].Version != "" && ',' !in r[i].Version
  {
    var parts := SplitNonEmpty(worksWithString, ',');
    assert forall i :: 0 <= i < |parts| ==> parts[i] in Split(worksWithString, ',');
    seq(|parts|, i requires 0 <= i < |parts| => UmbracoVersion(parts[i]))
  }

  function VersionStrings(versions: seq<UmbracoVersion>): (r: seq<string>)
    ensures |r| == |versions|
    ensures forall i :: 0 <= i < |r| ==> r[i] == versions[i].Version
  {
    seq(|versions|, i requires 0 <= i < |versions| => versions[i].Version)
  }

  /** Comma-joined versions come back one for one, in order. */
  lemma {:induction false} VersionsRoundTrip(versions: seq<string>)
    requires |versions| >= 1
    requires forall i :: 0 <= i < |versions| ==> versions[i] != "" && ',' !in versions[i]
    ensures VersionStrings(GetVersionCompatibility(Join(versions, ','))) == versions
  {
    SplitJoin(versions, ',');
    RemoveEmptyKeepsNonEmpty(versions);
  }

  /** Nothing but the commas is lost: the versions glued together are the input
      without its commas, so no segment is trimmed or dropped unless it is empty. */
  lemma {:induction false} VersionsKeepAllText(worksWithString: string)
    ensures Concat(VersionStrings(GetVersionCompatibility(worksWithString))) == Without(worksWithString, ',')
  {
    assert VersionStrings(GetVersionCompatibility(worksWithString)) == SplitNonEmpty(worksWithString, ',');
    ConcatRemoveEmpty(Split(worksWithString, ','));
    ConcatSplit(worksWithString, ',');
  }

  /** `bool.TryParse`: `True` or `False` in any ASCII case, after trimming white space
      and NUL characters. */
  function BoolTryParse(value: string): (r: Option<bool>)
    ensures r == Some(true) <==> EqualsIgnoreCase(TrimWhiteSpaceAndNull(value), "True")
    ensures r == Some(false) <==> EqualsIgnoreCase(TrimWhiteSpaceAndNull(value), "False")
  {
    var trimmed := TrimWhiteSpaceAndNull(value);
    if EqualsIgnoreCase(trimmed, "True") then Some(true)
    else if EqualsIgnoreCase(trimmed, "False") then
      assert ToLowerAscii(trimmed)[0] == 'f' && ToLowerAscii("True")[0] == 't';
      Some(false)
    else None
  }

  /** `bool.ToString()`. */
  function BoolToString(b: bool): string {
    if b then "True" else "False"
  }

  /** `ParseCurrentFlag`: `"True"` or `"False"`, true only for input that parses as
      true; anything that does not parse gives `"False"`. */
  function ParseCurrentFlag(current: string): (r: string)
    ensures r == "True" || r == "False"
    ensures r == "True" <==> BoolTryParse(current) == Some(true)
  {
    match BoolTryParse(current)
    case Some(result) => BoolToString(result)
    case None => BoolToString(false)
  }

  /** The text of a boolean parses back as that boolean. */
  lemma {:induction false} BoolRoundTrip(b: bool)
    ensures BoolTryParse(BoolToString(b)) == Some(b)
  {
    var s := BoolToString(b);
    assert forall i :: 0 <= i < |s| ==> !IsWhiteSpaceOrNull(s[i]);
    BoolWordsLower();
  }

  lemma {:induction false} BoolWordsLower()
    ensures ToLowerAscii("True") == "true" == ToLowerAscii("true")
    ensures ToLowerAscii("False") == "false"
  {
  }

  lemma {:induction false} LetterIsNotWhite(c: char)
    requires 'a' <= LowerChar(c) <= 'z'
    ensures !IsWhiteSpaceOrNull(c)
  {
  }

  /** The normalised flag normalises to itself. */
  lemma {:induction false} ParseCurrentFlagIdempotent(current: string)
    ensures ParseCurrentFlag(ParseCurrentFlag(current)) == ParseCurrentFlag(current)
  {
    BoolRoundTrip(ParseCurrentFlag(current) == "True");
  }

  /** Any spelling of `true`, padded with white space or NULs, gives `"True"`;
      this covers the option's default `"true"`. */
  lemma {:induction false} PaddedTrueIsTrue(pad1: string, word: string, pad2: string)
    requires forall i :: 0 <= i < |pad1| ==> IsWhiteSpaceOrNull(pad1[i])
    requires forall i :: 0 <= i < |pad2| ==> IsWhiteSpaceOrNull(pad2[i])
    requires EqualsIgnoreCase(word, "true")
    ensures ParseCurrentFlag(pad1 + word + pad2) == "True"
  {
    EqualsIgnoreCaseAt(word, "true");
    LetterIsNotWhite(word[0]);
    LetterIsNotWhite(word[3]);
    TrimPadding(pad1, word, pad2);
    BoolWordsLower();
    assert EqualsIgnoreCase(TrimWhiteSpaceAndNull(pad1 + word + pad2), "True");
    assert BoolTryParse(pad1 + word + pad2) == Some(true);
  }

  /** Trimming removes exactly the padding around a word that neither starts nor ends
      with white space or NUL. */
  lemma {:induction false} TrimPadding(pad1: string, word: string, pad2: string)
    requires forall i :: 0 <= i < |pad1| ==> IsWhiteSpaceOrNull(pad1[i])
    requires forall i :: 0 <= i < |pad2| ==> IsWhiteSpaceOrNull(pad2[i])
    requires word != [] && !IsWhiteSpaceOrNull(word[0]) && !IsWhiteSpaceOrNull(word[|word| - 1])
    ensures TrimWhiteSpaceAndNull(pad1 + word + pad2) == word
  {
    var s := pad1 + word + pad2;
    var e := |pad1| + |word|;
    assert forall j :: 0 <= j < |pad1| ==> s[j] == pad1[j];
    assert s[|pad1|] == word[0];
    var start := SkipWhiteOrNull(s, 0);
    assert start == |pad1|;
    assert forall j :: e <= j < |s| ==> s[j] == pad2[j - e];
    assert s[e - 1] == word[|word| - 1];
    assert BackWhiteOrNull(s, start, |s|) == e;
    assert s[start..e] == word;
  }
}
