/**
 * The checks and the key handling of `PackageHelper`: splitting the API key into an
 * `ApiKeyModel`, and the pre-upload checks, each of which answers `None` (no error)
 * or the `ErrorCode` to exit with.
 */
module PackageHelper {
  import opened Wrappers
  import opened DotNetText
  import opened DotNetNumber
  import opened DotNetPath
  import opened ErrorCodes

  /** One entry of the project's file list as the server returns it. */
  datatype PackageFile = PackageFile(Id: int, Name: string)

  /** The three parts of an API key `projectId-memberId-token`. */
  class ApiKeyModel {
    var Token: string
    var ProjectId: int
    var MemberId: int

    constructor ()
      ensures Token == "" && ProjectId == 0 && MemberId == 0
    {
      Token := "";
      ProjectId := 0;
      MemberId := 0;
    }
  }

  /** The `-`-separated segments of a key. */
  function KeyParts(apiKey: string): (r: seq<string>)
    ensures |r| >= 1
  {
    Split(apiKey, '-')
  }

  /** A key `SplitKey` can index: it has a third segment. */
  predicate HasThreeParts(apiKey: string) {
    |KeyParts(apiKey)| >= 3
  }

  /** `SplitKey`: the ids are the integer values of the first two segments, or stay 0
      when a segment is not an `int`; the token is the third segment. */
  method SplitKey(apiKey: string) returns (keyModel: ApiKeyModel)
    requires HasThreeParts(apiKey)
    ensures fresh(keyModel)
    ensures TryParseInt32(KeyParts(apiKey)[0]).Some? ==>
      keyModel.ProjectId == TryParseInt32(KeyParts(apiKey)[0]).value
    ensures TryParseInt32(KeyParts(apiKey)[0]).None? ==> keyModel.ProjectId == 0
    ensures TryParseInt32(KeyParts(apiKey)[1]).Some? ==>
      keyModel.MemberId == TryParseInt32(KeyParts(apiKey)[1]).value
    ensures TryParseInt32(KeyParts(apiKey)[1]).None? ==> keyModel.MemberId == 0
    ensures keyModel.Token == KeyParts(apiKey)[2]
  {
    var keyParts := Split(apiKey, '-');
    keyModel := new ApiKeyModel();

    var projectId := TryParseInt32(keyParts[0]);
    if projectId.Some? {
      keyModel.ProjectId := projectId.value;
    }

    var memberId := TryParseInt32(keyParts[1]);
    if memberId.Some? {
      keyModel.MemberId := memberId.value;
    }

    keyModel.Token := keyParts[2];
  }

  /** A string without the separator is a single segment. */
  lemma {:induction false} SplitSingle(s: string, sep: char)
    requires sep !in s
    ensures Split(s, sep) == [s]
  {
    SplitJoin([s], sep);
  }

  /** Three `-`-free segments joined by `-` split back into those segments. */
  lemma {:induction false} SplitThree(a: string, b: string, c: string)
    requires '-' !in a && '-' !in b && '-' !in c
    ensures KeyParts(a + "-" + b + "-" + c) == [a, b, c]
  {
    SplitSingle(a, '-');
    SplitSingle(b, '-');
    SplitSingle(c, '-');
    assert a + "-" + b + "-" + c == a + ['-'] + (b + ['-'] + c);
    SplitAppend(b, c, '-');
    SplitAppend(a, b + ['-'] + c, '-');
  }

  /** A key built from two non-negative ids and a token without `-` splits back into
      exactly those three parts, and the ids parse back to their values. */
  lemma {:induction false} KeyRoundTrip(projectId: int, memberId: int, token: string)
    requires 0 <= projectId <= Int32Max && 0 <= memberId <= Int32Max
    requires '-' !in token
    ensures var key := IntToString(projectId) + "-" + IntToString(memberId) + "-" + token;
      KeyParts(key) == [IntToString(projectId), IntToString(memberId), token] &&
      TryParseInt32(KeyParts(key)[0]) == Some(projectId) &&
      TryParseInt32(KeyParts(key)[1]) == Some(memberId)
  {
    FormattedNatHasNoDash(projectId);
    FormattedNatHasNoDash(memberId);
    SplitThree(IntToString(projectId), IntToString(memberId), token);
    ParseFormatted(projectId);
    ParseFormatted(memberId);
  }

  /** Whatever follows a third `-` is not part of the token. */
  lemma {:induction false} TokenDropsTail(project: string, member: string, token: string, more: string)
    requires '-' !in project && '-' !in member && '-' !in token
    ensures var key := project + "-" + member + "-" + token + "-" + more;
      |KeyParts(key)| >= 4 && KeyParts(key)[2] == token
  {
    var key := project + "-" + member + "-" + token + "-" + more;
    SplitThree(project, member, token);
    assert key == (project + "-" + member + "-" + token) + ['-'] + more;
    SplitAppend(project + "-" + member + "-" + token, more, '-');
  }

  /** A negative project id brings its own `-`, so the segments shift: the project id
      segment is empty and stays 0, and the token is what was meant as the member id. */
  lemma {:induction false} NegativeIdShiftsSegments(memberId: string, token: string)
    requires '-' !in memberId && '-' !in token
    ensures var key := "-5-" + memberId + "-" + token;
      KeyParts(key) == ["", "5", memberId, token] &&
      TryParseInt32(KeyParts(key)[0]).None? &&
      KeyParts(key)[2] == memberId
  {
    SplitThree("5", memberId, token);
    assert "-5-" + memberId + "-" + token == "" + ['-'] + ("5" + "-" + memberId + "-" + token);
    SplitAppend("", "5" + "-" + memberId + "-" + token, '-');
    SplitSingle("", '-');
    assert NumberBody("") == "";
  }

  /** `EnsurePackageExists`, given the answer of `File.Exists`. */
  function EnsurePackageExists(fileExists: bool): (r: Option<ErrorCode>)
    ensures r.None? <==> fileExists
    ensures r.Some? ==> r.value == FileNotFound
  {
    if !fileExists then Some(FileNotFound) else None
  }

  /** `EnsureIsZip`: no error exactly when the lower-cased extension is `.zip`. */
  function EnsureIsZip(packagePath: string): (r: Option<ErrorCode>)
    ensures r.None? <==> ToLowerAscii(GetExtension(packagePath)) == ".zip"
    ensures r.Some? ==> r.value == InvalidName
  {
    if ToLowerAscii(GetExtension(packagePath)) != ".zip" then Some(InvalidName) else None
  }

  /** The ZIP check in terms of the path alone: it passes exactly when the path ends
      in `.zip` in any case, as in `MyPackage.ZIP`. */
  lemma {:induction false} EnsureIsZipIffSuffix(packagePath: string)
    ensures EnsureIsZip(packagePath).None? <==>
      |packagePath| >= 4 && EqualsIgnoreCase(packagePath[|packagePath| - 4..], ".zip")
  {
    if EnsureIsZip(packagePath).None? {
      ZipExtensionIsSuffix(packagePath);
    }
    if |packagePath| >= 4 && EqualsIgnoreCase(packagePath[|packagePath| - 4..], ".zip") {
      ZipSuffixIsExtension(packagePath);
    }
  }

  lemma {:induction false} ZipExtensionIsSuffix(p: string)
    requires ToLowerAscii(GetExtension(p)) == ".zip"
    ensures |p| >= 4 && EqualsIgnoreCase(p[|p| - 4..], ".zip")
  {
    var i := DotIndex(p).value;
    assert GetExtension(p) == p[i..];
    assert ToLowerAscii(".zip") == ".zip";
  }

  lemma {:induction false} ZipSuffixIsExtension(p: string)
    requires |p| >= 4 && EqualsIgnoreCase(p[|p| - 4..], ".zip")
    ensures ToLowerAscii(GetExtension(p)) == ".zip"
  {
    var tail := p[|p| - 4..];
    var ext := tail[1..];
    assert ToLowerAscii(".zip") == ".zip";
    assert ToLowerAscii(tail)[0] == '.' && ToLowerAscii(tail)[1] == 'z';
    assert ToLowerAscii(tail)[2] == 'i' && ToLowerAscii(tail)[3] == 'p';
    assert tail[0] == '.';
    assert forall k :: 0 <= k < |ext| ==> ext[k] != '.' && ext[k] != Separator;
    var stem := p[..|p| - 3];
    DotIndexSkipsTail(stem, ext);
    assert stem + ext == p;
    assert GetExtension(p) == tail;
  }

  /** `EnsureContainsPackageXml`, given the names of the archive's entries. */
  function EnsureContainsPackageXml(entryNames: seq<string>): (r: Option<ErrorCode>)
    ensures r.None? <==> exists i :: 0 <= i < |entryNames| && EqualsIgnoreCase(entryNames[i], "package.xml")
    ensures r.Some? ==> r.value == BadFileType
    decreases |entryNames|
  {
    if entryNames == [] then Some(BadFileType)
    else if EqualsIgnoreCase(entryNames[0], "package.xml") then None
    else
      var r := EnsureContainsPackageXml(entryNames[1..]);
      assert forall i :: 1 <= i < |entryNames| ==> entryNames[i] == entryNames[1..][i - 1];
      r
  }

  /** Some entry of the list has the name `fileName`, ignoring case. */
  predicate NameTaken(packages: seq<PackageFile>, fileName: string) {
    exists i :: 0 <= i < |packages| && EqualsIgnoreCase(packages[i].Name, fileName)
  }

  /** `EnsurePackageDoesntAlreadyExists`: a null list never reports an error; otherwise
      `FileExists` exactly when some entry already has the file's name. */
  method EnsurePackageDoesntAlreadyExists(packages: Option<seq<PackageFile>>, packageFile: string)
    returns (r: Option<ErrorCode>)
    ensures r.None? || r == Some(FileExists)
    ensures r == Some(FileExists) <==> packages.Some? && NameTaken(packages.value, GetFileName(packageFile))
  {
    if packages.Some? {
      var packageFileName := GetFileName(packageFile);
      var list := packages.value;
      var i := 0;
      while i < |list|
        invariant 0 <= i <= |list|
        invariant forall j :: 0 <= j < i ==> !EqualsIgnoreCase(list[j].Name, packageFileName)
      {
        if EqualsIgnoreCase(list[i].Name, packageFileName) {
          return Some(FileExists);
        }
        i := i + 1;
      }
    }
    return None;
  }

  /** The error `EnsurePackageDoesntAlreadyExists` reports, as a value. */
  function DuplicateNameError(packages: Option<seq<PackageFile>>, packageFile: string): (r: Option<ErrorCode>)
    ensures r.None? || r == Some(FileExists)
    ensures r == Some(FileExists) <==> packages.Some? && NameTaken(packages.value, GetFileName(packageFile))
  {
    if packages.Some? && NameTaken(packages.value, GetFileName(packageFile)) then Some(FileExists) else None
  }

  /** Only the file name counts: the same name in any directory is the same package. */
  lemma {:induction false} DirectoryIrrelevant(packages: Option<seq<PackageFile>>, dir: string, name: string)
    requires Separator !in name
    ensures DuplicateNameError(packages, dir + [Separator] + name) == DuplicateNameError(packages, name)
  {
    FileNameIgnoresDirectory(dir, name);
    FileNameOfName(name);
  }

  /** A list without a same-named entry passes the check, however long it is. */
  lemma {:induction false} NoMatchNoError(packages: seq<PackageFile>, packageFile: string)
    requires forall i :: 0 <= i < |packages| ==> !EqualsIgnoreCase(packages[i].Name, GetFileName(packageFile))
    ensures DuplicateNameError(Some(packages), packageFile).None?
  {
  }
}
