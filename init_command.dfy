/**
 * The init verb's pure parts: the choice between typed input and its default, the
 * license URL, the contributors list, the path of the package file, and the tree of
 * the generated package.xml. XML trees are values here: `Add` returns the element
 * with the child appended.
 */
module InitCommand {
  import opened Wrappers
  import opened DotNetText
  import opened DotNetNumber
  import opened DotNetPath

  // ---------------------------------------------------------------------------
  // Prompting

  /** The prompt `GetUserInput` writes: the default is shown only when it is not
      null or white space. */
  function PromptText(prompt: string, defaultValue: Option<string>): (r: string)
    ensures StartsWith(r, prompt + ": ")
    ensures defaultValue.Some? && !IsBlank(defaultValue.value) ==> r == prompt + ": (" + defaultValue.value + ") "
    ensures defaultValue.None? || IsBlank(defaultValue.value) ==> r == prompt + ": "
  {
    var head := prompt + ": ";
    if defaultValue.Some? && !IsBlank(defaultValue.value) then
      var r := head + "(" + defaultValue.value + ") ";
      assert r[..|head|] == head;
      r
    else head
  }

  /** `GetUserInput`'s answer for the line read (`None` at the end of input): the
      default when the line is null or white space, otherwise the line unchanged. */
  function GetUserInput(value: Option<string>, defaultValue: Option<string>): (r: Option<string>)
    ensures value.None? || IsBlank(value.value) ==> r == defaultValue
    ensures value.Some? && !IsBlank(value.value) ==> r == value
  {
    if value.None? || IsBlank(value.value) then defaultValue else value
  }

  /** Typing the default that the prompt shows gives the same answer as pressing enter. */
  lemma {:induction false} TypingDefaultIsEnter(defaultValue: Option<string>)
    ensures GetUserInput(defaultValue, defaultValue) == GetUserInput(None, defaultValue)
  {
  }

  /** A blank answer only ever comes from the default. */
  lemma {:induction false} BlankAnswerIsDefault(value: Option<string>, defaultValue: Option<string>)
    requires GetUserInput(value, defaultValue).Some?
    requires IsBlank(GetUserInput(value, defaultValue).value)
    ensures GetUserInput(value, defaultValue) == defaultValue
  {
  }

  // ---------------------------------------------------------------------------
  // License

  const MitLicenseUrl: string := "https://opensource.org/licenses/MIT"

  /** `GetLicenseUrl`: the MIT URL for `MIT` in any case, the empty string otherwise. */
  function GetLicenseUrl(licenseName: string): (r: string)
    ensures r == MitLicenseUrl <==> EqualsIgnoreCase(licenseName, "MIT")
    ensures r != MitLicenseUrl ==> r == ""
  {
    if EqualsIgnoreCase(licenseName, "MIT") then MitLicenseUrl else ""
  }

  /** The names with a URL are exactly the eight spellings of `MIT`. */
  lemma {:induction false} LicenseUrlSpellings(licenseName: string)
    ensures GetLicenseUrl(licenseName) != "" <==>
      |licenseName| == 3 && licenseName[0] in "Mm" && licenseName[1] in "Ii" && licenseName[2] in "Tt"
  {
    EqualsIgnoreCaseAt(licenseName, "MIT");
  }

  // ---------------------------------------------------------------------------
  // Contributors

  /** `.Where(x => !string.IsNullOrWhiteSpace(x))`. */
  function NonBlank(parts: seq<string>): (r: seq<string>)
    ensures forall i :: 0 <= i < |r| ==> !IsBlank(r[i])
    ensures forall x :: x in r <==> x in parts && !IsBlank(x)
    ensures |r| <= |parts|
    decreases |parts|
  {
    if parts == [] then []
    else if IsBlank(parts[0]) then NonBlank(parts[1..])
    else [parts[0]] + NonBlank(parts[1..])
  }

  /** The filter keeps the order: filtering two lists one after the other is filtering
      their concatenation. */
  lemma {:induction false} NonBlankAppend(a: seq<string>, b: seq<string>)
    ensures NonBlank(a + b) == NonBlank(a) + NonBlank(b)
    decreases |a|
  {
    if a == [] {
      assert a + b == b;
    } else {
      assert (a + b)[0] == a[0];
      assert (a + b)[1..] == a[1..] + b;
      NonBlankAppend(a[1..], b);
    }
  }

  /** `.Select(s => s.Trim())`. */
  function TrimAll(parts: seq<string>): (r: seq<string>)
    ensures |r| == |parts|
    ensures forall i :: 0 <= i < |r| ==> r[i] == Trim(parts[i])
  {
    seq(|parts|, i requires 0 <= i < |parts| => Trim(parts[i]))
  }

  /** Trimming keeps a run of the string, so it adds no character. */
  lemma {:induction false} TrimAddsNothing(s: string, c: char)
    requires c !in s
    ensures c !in Trim(s)
  {
    TrimIsInnerRun(s);
  }

  /** The contributors pipeline: comma-separated segments, empty and white-space-only
      ones dropped, the rest trimmed, in order; `None` for a null input. */
  function Contributors(contributors: Option<string>): (r: Option<seq<string>>)
    ensures r.None? <==> contributors.None?
    ensures r.Some? ==> forall i :: 0 <= i < |r.value| ==>
      r.value[i] != "" && IsTrimmed(r.value[i]) && ',' !in r.value[i]
  {
    match contributors
    case None => None
    case Some(s) =>
      var kept := NonBlank(SplitNonEmpty(s, ','));
      var r := TrimAll(kept);
      assert forall i :: 0 <= i < |r| ==> r[i] != "" && IsTrimmed(r[i]) && ',' !in r[i] by {
        forall i | 0 <= i < |r| ensures r[i] != "" && IsTrimmed(r[i]) && ',' !in r[i] {
          assert kept[i] in kept;
          assert kept[i] in Split(s, ',');
          TrimIsInnerRun(kept[i]);
          TrimAddsNothing(kept[i], ',');
        }
      }
      Some(r)
  }

  /** Dropping empty entries first changes nothing: the blank filter drops them too. */
  lemma {:induction false} NonBlankRemoveEmpty(parts: seq<string>)
    ensures NonBlank(RemoveEmpty(parts)) == NonBlank(parts)
    decreases |parts|
  {
    if parts != [] {
      NonBlankRemoveEmpty(parts[1..]);
      if parts[0] != "" {
        assert RemoveEmpty(parts) == [parts[0]] + RemoveEmpty(parts[1..]);
        assert ([parts[0]] + RemoveEmpty(parts[1..]))[1..] == RemoveEmpty(parts[1..]);
      }
    }
  }

  /** The contributors are the trimmed non-blank segments of the plain split. */
  lemma {:induction false} ContributorsOfSplit(s: string)
    ensures Contributors(Some(s)) == Some(TrimAll(NonBlank(Split(s, ','))))
  {
    NonBlankRemoveEmpty(Split(s, ','));
  }

  /** Names that are already trimmed, not blank and free of commas come back from
      their comma-joined list one for one. */
  lemma {:induction false} ContributorsRoundTrip(names: seq<string>)
    requires |names| >= 1
    requires forall i :: 0 <= i < |names| ==> !IsBlank(names[i]) && IsTrimmed(names[i]) && ',' !in names[i]
    ensures Contributors(Some(Join(names, ','))) == Some(names)
  {
    var s := Join(names, ',');
    SplitJoin(names, ',');
    assert Split(s, ',') == names;
    forall i | 0 <= i < |names| ensures names[i] != "" {
      if names[i] == "" {
        assert IsBlank(names[i]);
      }
    }
    RemoveEmptyKeepsNonEmpty(names);
    assert SplitNonEmpty(s, ',') == names;
    NonBlankKeepsNonBlank(names);
    var trimmed := TrimAll(names);
    forall i | 0 <= i < |names| ensures trimmed[i] == names[i] {
      TrimTrimmed(names[i]);
    }
    assert trimmed == names;
  }

  lemma {:induction false} NonBlankKeepsNonBlank(parts: seq<string>)
    requires forall i :: 0 <= i < |parts| ==> !IsBlank(parts[i])
    ensures NonBlank(parts) == parts
    decreases |parts|
  {
    if parts != [] {
      NonBlankKeepsNonBlank(parts[1..]);
    }
  }

  /** White space and commas alone give no contributors. */
  lemma {:induction false} BlankListHasNoContributors(s: string)
    requires forall i :: 0 <= i < |s| ==> s[i] == ',' || IsWhiteSpace(s[i])
    ensures Contributors(Some(s)) == Some([])
  {
    ContributorsOfSplit(s);
    var parts := Split(s, ',');
    JoinSplit(s, ',');
    forall i | 0 <= i < |parts| ensures IsBlank(parts[i]) {
      JoinedPieceIsBlank(parts, i, s);
    }
    AllBlankDropped(parts);
  }

  lemma {:induction false} AllBlankDropped(parts: seq<string>)
    requires forall i :: 0 <= i < |parts| ==> IsBlank(parts[i])
    ensures NonBlank(parts) == []
    decreases |parts|
  {
    if parts != [] {
      AllBlankDropped(parts[1..]);
    }
  }

  /** A piece of a joined string consists of characters of that string. */
  lemma {:induction false} JoinedPieceIsBlank(parts: seq<string>, i: nat, s: string)
    requires i < |parts| && Join(parts, ',') == s
    requires forall k :: 0 <= k < |s| ==> s[k] == ',' || IsWhiteSpace(s[k])
    requires forall k :: 0 <= k < |parts| ==> ',' !in parts[k]
    ensures IsBlank(parts[i])
    decreases |parts|
  {
    if |parts| > 1 {
      var rest := Join(parts[1..], ',');
      assert s == parts[0] + [','] + rest;
      assert forall k :: 0 <= k < |parts[0]| ==> parts[0][k] == s[k];
      if i > 0 {
        assert forall k :: 0 <= k < |rest| ==> rest[k] == s[|parts[0]| + 1 + k];
        JoinedPieceIsBlank(parts[1..], i - 1, rest);
      }
    } else {
      assert parts[0] == s;
    }
    forall k | 0 <= k < |parts[i]| ensures IsWhiteSpace(parts[i][k]) {
      assert parts[i][k] in parts[i];
    }
  }

  // ---------------------------------------------------------------------------
  // Package file path

  const PackageXmlName: string := "package.xml"

  /** `Directory.Exists` against the set of directories that exist: false for a null
      or empty path. */
  predicate DirectoryExists(directories: set<string>, path: Option<string>) {
    path.Some? && path.value != "" && path.value in directories
  }

  /** The folder check of `GetPackageFile` as written: exit code 2 unless the directory
      name of the path exists. */
  function FolderCheckAsWritten(filePath: string, directories: set<string>): (r: Option<int>)
    ensures r.None? <==> DirectoryExists(directories, GetDirectoryName(filePath))
    ensures r.Some? ==> r.value == 2
  {
    if !DirectoryExists(directories, GetDirectoryName(filePath)) then Some(2) else None
  }

  /** The folder a path is created in: its directory name, or the current directory
      `.` when the path has none. */
  function EnclosingFolder(filePath: string): (r: Option<string>)
    ensures r.Some? ==> r.value != ""
    ensures GetDirectoryName(filePath) == Some("") ==> r == Some(".")
    ensures GetDirectoryName(filePath) != Some("") ==> r == GetDirectoryName(filePath)
  {
    match GetDirectoryName(filePath)
    case Some(d) => if d == "" then Some(".") else Some(d)
    case None => None
  }

  /** The folder check with a bare file name taken to be in the current directory. */
  function FolderCheck(filePath: string, directories: set<string>): (r: Option<int>)
    ensures r.None? <==> DirectoryExists(directories, EnclosingFolder(filePath))
    ensures r.Some? ==> r.value == 2
  {
    if !DirectoryExists(directories, EnclosingFolder(filePath)) then Some(2) else None
  }

  /** As written, a bare file name exits with code 2 whatever directories exist, since
      its directory name is empty. */
  lemma {:induction false} BareNameAlwaysExits(name: string, directories: set<string>)
    requires name != [] && Separator !in name
    ensures FolderCheckAsWritten(name, directories) == Some(2)
  {
    DirectoryOfBareName(name);
  }

  /** `MyPackage.xml` is such a name: it has an extension, so it is kept as the path,
      and the check as written then exits. */
  lemma {:induction false} MyPackageXmlExits(directories: set<string>)
    ensures !IsBlank("MyPackage.xml") && HasExtension("MyPackage.xml")
    ensures FolderCheckAsWritten("MyPackage.xml", directories) == Some(2)
  {
    assert !IsWhiteSpace("MyPackage.xml"[0]);
    assert "MyPackage.xml" == "MyPackage" + "." + "xml";
    ExtensionOfAppend("MyPackage", "xml");
    BareNameAlwaysExits("MyPackage.xml", directories);
  }

  /** With the correction, a bare file name passes exactly when the current directory
      exists. */
  lemma {:induction false} BareNameUsesCurrentFolder(name: string, directories: set<string>)
    requires name != [] && Separator !in name
    ensures FolderCheck(name, directories).None? <==> "." in directories
  {
    DirectoryOfBareName(name);
  }

  /** Wherever the path names a directory the correction changes nothing. */
  lemma {:induction false} FolderCheckAgrees(filePath: string, directories: set<string>)
    requires GetDirectoryName(filePath) != Some("")
    ensures FolderCheck(filePath, directories) == FolderCheckAsWritten(filePath, directories)
  {
  }

  /** The default path is checked against the current directory. */
  lemma {:induction false} DefaultPathChecksCurrentFolder(directories: set<string>)
    ensures FolderCheck("./package.xml", directories).None? <==> "." in directories
  {
    assert "./package.xml" == "." + [Separator] + PackageXmlName;
    DirectoryOfJoined(".", PackageXmlName);
  }

  /** A folder argument is checked against that folder, with each run of separators in
      it written as one. */
  lemma {:induction false} FolderArgumentChecksFolder(folder: string, directories: set<string>)
    requires folder != [] && folder[|folder| - 1] != Separator
    ensures FolderCheck(Combine(folder, PackageXmlName), directories).None?
        <==> CollapseSeparators(folder) in directories
    ensures !HasDoubleSeparator(folder) ==>
        (FolderCheck(Combine(folder, PackageXmlName), directories).None? <==> folder in directories)
  {
    assert Combine(folder, PackageXmlName) == folder + [Separator] + PackageXmlName;
    DirectoryOfJoined(folder, PackageXmlName);
  }

  /** `GetPackageFile`: `./package.xml` for a blank argument, the argument itself when it
      has an extension, and the argument joined with `package.xml` otherwise; then exit
      code 2 when the folder of that path does not exist (with the correction above). */
  method GetPackageFile(packageFile: Option<string>, directories: set<string>)
    returns (filePath: string, exitCode: Option<int>)
    ensures packageFile.None? || IsBlank(packageFile.value) ==> filePath == "./package.xml"
    ensures packageFile.Some? && !IsBlank(packageFile.value) && HasExtension(packageFile.value) ==>
      filePath == packageFile.value
    ensures packageFile.Some? && !IsBlank(packageFile.value) && !HasExtension(packageFile.value) ==>
      filePath == Combine(packageFile.value, PackageXmlName)
    ensures HasExtension(filePath)
    ensures packageFile.None? || IsBlank(packageFile.value) || !HasExtension(packageFile.value) ==>
      GetFileName(filePath) == PackageXmlName
    ensures exitCode == FolderCheck(filePath, directories)
  {
    filePath := Combine(".", PackageXmlName);
    DefaultPackagePath();

    if packageFile.Some? && !IsBlank(packageFile.value) {
      if HasExtension(packageFile.value) {
        filePath := packageFile.value;
      } else {
        filePath := Combine(packageFile.value, PackageXmlName);
        CombinedPackageXml(packageFile.value);
      }
    }

    exitCode := None;
    if !DirectoryExists(directories, EnclosingFolder(filePath)) {
      exitCode := Some(2);
    }
  }

  /** The default path: `package.xml` in the current directory. */
  lemma {:induction false} DefaultPackagePath()
    ensures Combine(".", PackageXmlName) == "./package.xml"
    ensures HasExtension("./package.xml") && GetFileName("./package.xml") == PackageXmlName
  {
    assert Combine(".", PackageXmlName) == "." + [Separator] + PackageXmlName;
    CombinedPackageXml(".");
  }

  /** A folder combined with `package.xml` names a file `package.xml` with an
      extension. */
  lemma {:induction false} CombinedPackageXml(folder: string)
    requires folder != []
    ensures HasExtension(Combine(folder, PackageXmlName))
    ensures GetFileName(Combine(folder, PackageXmlName)) == PackageXmlName
  {
    var path := Combine(folder, PackageXmlName);
    var dir := if folder[|folder| - 1] == Separator then folder[..|folder| - 1] else folder;
    assert path == dir + [Separator] + PackageXmlName;
    FileNameIgnoresDirectory(dir, PackageXmlName);
    assert path == (dir + [Separator] + "package") + "." + "xml";
    ExtensionOfAppend(dir + [Separator] + "package", "xml");
  }

  // ---------------------------------------------------------------------------
  // The package.xml tree

  datatype XAttribute = XAttribute(name: string, value: string)

  /** LINQ to XML nodes: elements with attributes and child nodes, text and CDATA. */
  datatype XNode =
    | XElement(name: string, attributes: seq<XAttribute>, nodes: seq<XNode>)
    | XText(text: string)
    | XCData(text: string)
  {
    /** `Add(child)` on an element: the child goes last. */
    function Add(child: XNode): XNode
      requires XElement?
    {
      XElement(name, attributes, nodes + [child])
    }
  }

  /** `new XElement(name)`. */
  function Empty(name: string): XNode {
    XElement(name, [], [])
  }

  /** `new XElement(name, content)` for string or number content. */
  function Leaf(name: string, content: string): XNode {
    XElement(name, [], [XText(content)])
  }

  /** `Semver`'s `SemVersion`, as far as package.xml uses it. */
  datatype SemVersion = SemVersion(Major: nat, Minor: nat, Patch: nat, Prerelease: string, Build: string)

  /** `SemVersion.ToString()`: `major.minor.patch`, then `-prerelease` and `+build`
      when present. */
  function VersionText(v: SemVersion): string {
    NatToString(v.Major) + "." + NatToString(v.Minor) + "." + NatToString(v.Patch)
    + (if v.Prerelease != "" then "-" + v.Prerelease else "")
    + (if v.Build != "" then "+" + v.Build else "")
  }

  /** The answers gathered by the init verb. */
  datatype PackageSetup = PackageSetup(
    Name: string,
    Version: SemVersion,
    Url: string,
    Author: string,
    Website: string,
    License: string,
    Contributors: Option<string>,
    UmbracoVersion: SemVersion,
    Description: string)

  /** `XContainer.Element(name)`: the first child element with that name. */
  function Element(e: XNode, name: string): (r: Option<XNode>)
    ensures r.Some? ==> r.value.XElement? && r.value.name == name
  {
    if e.XElement? then FirstNamed(e.nodes, name) else None
  }

  function FirstNamed(nodes: seq<XNode>, name: string): (r: Option<XNode>)
    ensures r.Some? ==> r.value.XElement? && r.value.name == name && r.value in nodes
    decreases |nodes|
  {
    if nodes == [] then None
    else if nodes[0].XElement? && nodes[0].name == name then Some(nodes[0])
    else FirstNamed(nodes[1..], name)
  }

  /** The text of an element's text and CDATA children (its `Value` when it has no
      child elements). */
  function TextOf(nodes: seq<XNode>): string
    decreases |nodes|
  {
    if nodes == [] then ""
    else
      (match nodes[0] case XText(t) => t case XCData(t) => t case XElement(_, _, _) => "")
      + TextOf(nodes[1..])
  }

  /** The `contributor` elements of a list of contributors. */
  function ContributorElements(contributors: seq<string>): (r: seq<XNode>)
    ensures |r| == |contributors|
    ensures forall i :: 0 <= i < |r| ==> r[i] == Leaf("contributor", contributors[i])
  {
    seq(|contributors|, i requires 0 <= i < |contributors| => Leaf("contributor", contributors[i]))
  }

  /** The `requirements` element: of type strict, with the major, minor and patch
      numbers of the Umbraco version. */
  function RequirementsElement(major: string, minor: string, patch: string): XNode {
    XElement("requirements", [XAttribute("type", "strict")],
      [Leaf("major", major), Leaf("minor", minor), Leaf("patch", patch)])
  }

  /** The `package` element. */
  function PackageElement(name: string, version: string, license: string, url: string, requirements: XNode): XNode {
    XElement("package", [], [
      Leaf("name", name),
      Leaf("version", version),
      Leaf("iconUrl", ""),
      XElement("license", [XAttribute("url", GetLicenseUrl(license))], [XText(license)]),
      Leaf("url", url),
      requirements])
  }

  /** The `author` element. */
  function AuthorElement(author: string, website: string): XNode {
    XElement("author", [], [Leaf("name", author), Leaf("website", website)])
  }

  /** The `info` element: package, author, the contributors when there are any, and the
      readme as CDATA. */
  function InfoElement(package: XNode, author: XNode, contributors: seq<string>, description: string): XNode {
    XElement("info", [], [package, author] +
      (if |contributors| > 0 then [XElement("contributors", [], ContributorElements(contributors))] else []) +
      [XElement("readme", [], [XCData(description)])])
  }

  /** The empty section elements that follow `info` under the root, in order. */
  function SectionElements(): seq<XNode> {
    [Empty("files"), Empty("Actions"), Empty("control"), Empty("DocumentTypes"), Empty("Templates"),
     Empty("Stylesheets"), Empty("Macros"), Empty("DictionaryItems"), Empty("Languages"), Empty("DataTypes")]
  }

  /** The `umbPackage` root. */
  function RootElement(info: XNode): XNode {
    XElement("umbPackage", [], [info] + SectionElements())
  }

  /** The package.xml tree for a setup. */
  function ManifestTree(options: PackageSetup): XNode {
    RootElement(InfoElement(
      PackageElement(options.Name, VersionText(options.Version), options.License, options.Url,
        RequirementsElement(NatToString(options.UmbracoVersion.Major), NatToString(options.UmbracoVersion.Minor),
          NatToString(options.UmbracoVersion.Patch))),
      AuthorElement(options.Author, options.Website),
      Contributors(options.Contributors).GetOr([]),
      options.Description))
  }

  /** `MakePackageFile`: the tree built element by element with `Add`. */
  method MakePackageFile(options: PackageSetup) returns (node: XNode)
    ensures node == ManifestTree(options)
  {
    node := Empty("umbPackage");

    var info := Empty("info");

    var package := Empty("package");
    package := package.Add(Leaf("name", options.Name));
    package := package.Add(Leaf("version", VersionText(options.Version)));
    package := package.Add(Leaf("iconUrl", ""));
    package := package.Add(XElement("license", [XAttribute("url", GetLicenseUrl(options.License))],
      [XText(options.License)]));
    package := package.Add(Leaf("url", options.Url));
    var requirements := RequirementsElement(NatToString(options.UmbracoVersion.Major),
      NatToString(options.UmbracoVersion.Minor), NatToString(options.UmbracoVersion.Patch));
    package := package.Add(requirements);
    PackageBuilt(options.Name, VersionText(options.Version), options.License, options.Url, requirements);
    info := info.Add(package);

    var author := AuthorElement(options.Author, options.Website);
    info := info.Add(author);

    var contributors := Contributors(options.Contributors);
    if contributors.Some? && |contributors.value| > 0 {
      info := info.Add(XElement("contributors", [], ContributorElements(contributors.value)));
    }

    info := info.Add(XElement("readme", [], [XCData(options.Description)]));
    InfoBuilt(package, author, contributors.GetOr([]), options.Description);

    node := node.Add(info);
    node := node.Add(Empty("files"));
    node := node.Add(Empty("Actions"));
    node := node.Add(Empty("control"));
    node := node.Add(Empty("DocumentTypes"));
    node := node.Add(Empty("Templates"));
    node := node.Add(Empty("Stylesheets"));
    node := node.Add(Empty("Macros"));
    node := node.Add(Empty("DictionaryItems"));
    node := node.Add(Empty("Languages"));
    node := node.Add(Empty("DataTypes"));
    RootBuilt(info);
  }

  /** The `Add` calls for the package element give `PackageElement`. */
  lemma {:induction false} PackageBuilt(name: string, version: string, license: string, url: string, requirements: XNode)
    ensures Empty("package").Add(Leaf("name", name)).Add(Leaf("version", version)).Add(Leaf("iconUrl", ""))
      .Add(XElement("license", [XAttribute("url", GetLicenseUrl(license))], [XText(license)]))
      .Add(Leaf("url", url)).Add(requirements)
      == PackageElement(name, version, license, url, requirements)
  {
  }

  /** The `Add` calls for the info element give `InfoElement`. */
  lemma {:induction false} InfoBuilt(package: XNode, author: XNode, contributors: seq<string>, description: string)
    ensures var head := Empty("info").Add(package).Add(author);
      (if |contributors| > 0 then head.Add(XElement("contributors", [], ContributorElements(contributors))) else head)
        .Add(XElement("readme", [], [XCData(description)]))
      == InfoElement(package, author, contributors, description)
  {
  }

  /** The `Add` calls for the root give `RootElement`. */
  lemma {:induction false} RootBuilt(info: XNode)
    ensures Empty("umbPackage").Add(info).Add(Empty("files")).Add(Empty("Actions")).Add(Empty("control"))
      .Add(Empty("DocumentTypes")).Add(Empty("Templates")).Add(Empty("Stylesheets")).Add(Empty("Macros"))
      .Add(Empty("DictionaryItems")).Add(Empty("Languages")).Add(Empty("DataTypes"))
      == RootElement(info)
  {
  }

  /** `Element` finds the child at `k` when no earlier child element has its name. */
  lemma {:induction false} FirstNamedAt(nodes: seq<XNode>, name: string, k: nat)
    requires k < |nodes| && nodes[k].XElement? && nodes[k].name == name
    requires forall j :: 0 <= j < k ==> !(nodes[j].XElement? && nodes[j].name == name)
    ensures FirstNamed(nodes, name) == Some(nodes[k])
    decreases k
  {
    if k > 0 {
      FirstNamedAt(nodes[1..], name, k - 1);
    }
  }

  /** `Element` finds nothing when no child element has the name. */
  lemma {:induction false} FirstNamedNone(nodes: seq<XNode>, name: string)
    requires forall j :: 0 <= j < |nodes| ==> !(nodes[j].XElement? && nodes[j].name == name)
    ensures FirstNamed(nodes, name) == None
    decreases |nodes|
  {
    if nodes != [] {
      FirstNamedNone(nodes[1..], name);
    }
  }

  /** An element with a single text child reads back as that text. */
  lemma {:induction false} TextOfLeaf(t: string)
    ensures TextOf([XText(t)]) == t && TextOf([XCData(t)]) == t
  {
    assert [XText(t)][1..] == [];
    assert [XCData(t)][1..] == [];
  }

  /** A text child found by name reads back as its text. */
  lemma {:induction false} LeafReadBack(e: XNode, name: string, k: nat, t: string)
    requires e.XElement? && k < |e.nodes| && e.nodes[k] == Leaf(name, t)
    requires forall j :: 0 <= j < k ==> e.nodes[j].XElement? && e.nodes[j].name != name
    ensures Element(e, name) == Some(Leaf(name, t))
    ensures TextOf(Leaf(name, t).nodes) == t
  {
    FirstNamedAt(e.nodes, name, k);
    TextOfLeaf(t);
  }

  /** The root has eleven children: the info element first, then ten elements without
      attributes or children. */
  lemma {:induction false} RootLayout(info: XNode)
    ensures var root := RootElement(info);
      root.name == "umbPackage" && root.attributes == [] && |root.nodes| == 11 &&
      root.nodes[0] == info &&
      forall i :: 1 <= i < 11 ==>
        root.nodes[i].XElement? && root.nodes[i].nodes == [] && root.nodes[i].attributes == []
  {
  }

  /** The ten sections follow the info element. */
  lemma {:induction false} RootSectionNames(info: XNode)
    ensures RootElement(info).nodes[1..] == SectionElements()
  {
  }

  /** The sections in order: files, Actions, control, DocumentTypes, Templates,
      Stylesheets, Macros, DictionaryItems, Languages, DataTypes, each without attributes
      or children. */
  lemma {:induction false} SectionNames()
    ensures var n := SectionElements();
      |n| == 10 &&
      n[0] == Empty("files") && n[1] == Empty("Actions") && n[2] == Empty("control") &&
      n[3] == Empty("DocumentTypes") && n[4] == Empty("Templates") &&
      n[5] == Empty("Stylesheets") && n[6] == Empty("Macros") &&
      n[7] == Empty("DictionaryItems") && n[8] == Empty("Languages") &&
      n[9] == Empty("DataTypes")
  {
  }

  /** `Element("info")` on the root is the info element. */
  lemma {:induction false} RootInfo(info: XNode)
    requires info.XElement? && info.name == "info"
    ensures Element(RootElement(info), "info") == Some(info)
  {
    FirstNamedAt(RootElement(info).nodes, "info", 0);
  }

  /** The package element has six child elements, the third of which, iconUrl, holds
      an empty text. */
  lemma {:induction false} PackageLayout(name: string, version: string, license: string, url: string, requirements: XNode)
    requires requirements.XElement?
    ensures var p := PackageElement(name, version, license, url, requirements);
      |p.nodes| == 6 && (forall i :: 0 <= i < 6 ==> p.nodes[i].XElement?) &&
      p.nodes[2] == XElement("iconUrl", [], [XText("")])
  {
  }

  /** The package element's children in order: name, version, iconUrl, license, url,
      requirements. */
  lemma {:induction false} PackageChildNames(name: string, version: string, license: string, url: string, requirements: XNode)
    requires requirements.XElement? && requirements.name == "requirements"
    ensures var p := PackageElement(name, version, license, url, requirements).nodes;
      |p| == 6 &&
      p[0].name == "name" && p[1].name == "version" && p[2].name == "iconUrl" &&
      p[3].name == "license" && p[4].name == "url" && p[5].name == "requirements"
  {
  }

  /** The package name reads back as given. */
  lemma {:induction false} PackageNameReadBack(name: string, version: string, license: string, url: string, requirements: XNode)
    ensures var p := PackageElement(name, version, license, url, requirements);
      Element(p, "name") == Some(Leaf("name", name)) && TextOf(Leaf("name", name).nodes) == name
  {
    LeafReadBack(PackageElement(name, version, license, url, requirements), "name", 0, name);
  }

  /** The package version reads back as given. */
  lemma {:induction false} PackageVersionReadBack(name: string, version: string, license: string, url: string, requirements: XNode)
    ensures var p := PackageElement(name, version, license, url, requirements);
      Element(p, "version") == Some(Leaf("version", version)) && TextOf(Leaf("version", version).nodes) == version
  {
    LeafReadBack(PackageElement(name, version, license, url, requirements), "version", 1, version);
  }

  /** The package url reads back as given. */
  lemma {:induction false} PackageUrlReadBack(name: string, version: string, license: string, url: string, requirements: XNode)
    ensures var p := PackageElement(name, version, license, url, requirements);
      Element(p, "url") == Some(Leaf("url", url)) && TextOf(Leaf("url", url).nodes) == url
  {
    LeafReadBack(PackageElement(name, version, license, url, requirements), "url", 4, url);
  }

  /** The requirements element is found by name in the package element. */
  lemma {:induction false} PackageRequirements(name: string, version: string, license: string, url: string, requirements: XNode)
    requires requirements.XElement? && requirements.name == "requirements"
    ensures Element(PackageElement(name, version, license, url, requirements), "requirements") == Some(requirements)
  {
    FirstNamedAt(PackageElement(name, version, license, url, requirements).nodes, "requirements", 5);
  }

  /** The license element reads back as the license name, with its URL as attribute. */
  lemma {:induction false} LicenseLayout(name: string, version: string, license: string, url: string, requirements: XNode)
    requires requirements.XElement? && requirements.name == "requirements"
    ensures var l := Element(PackageElement(name, version, license, url, requirements), "license");
      l.Some? && TextOf(l.value.nodes) == license &&
      l.value.attributes == [XAttribute("url", GetLicenseUrl(license))]
  {
    var p := PackageElement(name, version, license, url, requirements);
    FirstNamedAt(p.nodes, "license", 3);
    TextOfLeaf(license);
  }

  /** The requirements element is of type strict and holds major, minor and patch, in
      that order, each reading back as given. */
  lemma {:induction false} RequirementsLayout(major: string, minor: string, patch: string)
    ensures var r := RequirementsElement(major, minor, patch);
      r.attributes == [XAttribute("type", "strict")] && |r.nodes| == 3 &&
      r.nodes[0].name == "major" && r.nodes[1].name == "minor" && r.nodes[2].name == "patch" &&
      Element(r, "major") == Some(Leaf("major", major)) && TextOf(Leaf("major", major).nodes) == major &&
      Element(r, "minor") == Some(Leaf("minor", minor)) && TextOf(Leaf("minor", minor).nodes) == minor &&
      Element(r, "patch") == Some(Leaf("patch", patch)) && TextOf(Leaf("patch", patch).nodes) == patch
  {
    var r := RequirementsElement(major, minor, patch);
    LeafReadBack(r, "major", 0, major);
    LeafReadBack(r, "minor", 1, minor);
    LeafReadBack(r, "patch", 2, patch);
  }

  /** The info element holds package and author, then contributors only when there are
      any, then readme last. */
  lemma {:induction false} InfoLayout(package: XNode, author: XNode, contributors: seq<string>, description: string)
    ensures var info := InfoElement(package, author, contributors, description);
      |info.nodes| == (if |contributors| > 0 then 4 else 3) &&
      info.nodes[0] == package && info.nodes[1] == author &&
      (|contributors| > 0 ==> info.nodes[2].XElement? && info.nodes[2].name == "contributors") &&
      info.nodes[|info.nodes| - 1] == XElement("readme", [], [XCData(description)])
  {
  }

  /** Looking up the children of the info element by name gives package, author and
      readme, which reads back as the description. */
  lemma {:induction false} InfoReadBack(package: XNode, author: XNode, contributors: seq<string>, description: string)
    requires package.XElement? && package.name == "package"
    requires author.XElement? && author.name == "author"
    ensures var info := InfoElement(package, author, contributors, description);
      Element(info, "package") == Some(package) &&
      Element(info, "author") == Some(author) &&
      Element(info, "readme") == Some(XElement("readme", [], [XCData(description)])) &&
      TextOf([XCData(description)]) == description
  {
    var info := InfoElement(package, author, contributors, description);
    FirstNamedAt(info.nodes, "package", 0);
    FirstNamedAt(info.nodes, "author", 1);
    FirstNamedAt(info.nodes, "readme", |info.nodes| - 1);
    TextOfLeaf(description);
  }

  /** The info element has a contributors element exactly when there are contributors. */
  lemma {:induction false} InfoContributors(package: XNode, author: XNode, contributors: seq<string>, description: string)
    requires package.XElement? && package.name == "package"
    requires author.XElement? && author.name == "author"
    ensures Element(InfoElement(package, author, contributors, description), "contributors").Some? <==> |contributors| > 0
  {
    var info := InfoElement(package, author, contributors, description);
    if |contributors| > 0 {
      FirstNamedAt(info.nodes, "contributors", 2);
    } else {
      FirstNamedNone(info.nodes, "contributors");
    }
  }

  /** The contributor elements read back as the contributors, in order. */
  lemma {:induction false} ContributorsLayout(package: XNode, author: XNode, contributors: seq<string>, description: string)
    requires package.XElement? && package.name == "package"
    requires author.XElement? && author.name == "author"
    requires |contributors| > 0
    ensures var c := Element(InfoElement(package, author, contributors, description), "contributors");
      c.Some? && |c.value.nodes| == |contributors| &&
      forall i :: 0 <= i < |contributors| ==>
        c.value.nodes[i] == Leaf("contributor", contributors[i]) && TextOf(c.value.nodes[i].nodes) == contributors[i]
  {
    var info := InfoElement(package, author, contributors, description);
    FirstNamedAt(info.nodes, "contributors", 2);
    forall i | 0 <= i < |contributors| ensures TextOf([XText(contributors[i])]) == contributors[i] {
      TextOfLeaf(contributors[i]);
    }
  }

  /** The tree for a setup, read back: the info element, the package name, version and
      license, and a contributors element exactly when the contributors pipeline leaves
      at least one name. */
  lemma {:induction false} ManifestReadBack(options: PackageSetup)
    ensures var info := Element(ManifestTree(options), "info");
      info.Some? &&
      var package := Element(info.value, "package");
      package.Some? &&
      Element(package.value, "name") == Some(Leaf("name", options.Name)) &&
      Element(package.value, "version") == Some(Leaf("version", VersionText(options.Version))) &&
      (Element(info.value, "contributors").Some? <==>
        Contributors(options.Contributors).Some? && |Contributors(options.Contributors).value| > 0) &&
      Element(info.value, "readme") == Some(XElement("readme", [], [XCData(options.Description)]))
  {
    var requirements := RequirementsElement(NatToString(options.UmbracoVersion.Major),
      NatToString(options.UmbracoVersion.Minor), NatToString(options.UmbracoVersion.Patch));
    var package := PackageElement(options.Name, VersionText(options.Version), options.License, options.Url, requirements);
    var author := AuthorElement(options.Author, options.Website);
    var contributors := Contributors(options.Contributors).GetOr([]);
    var info := InfoElement(package, author, contributors, options.Description);
    assert ManifestTree(options) == RootElement(info);
    RootInfo(info);
    InfoReadBack(package, author, contributors, options.Description);
    InfoContributors(package, author, contributors, options.Description);
    PackageNameReadBack(options.Name, VersionText(options.Version), options.License, options.Url, requirements);
    PackageVersionReadBack(options.Name, VersionText(options.Version), options.License, options.Url, requirements);
  }
}
