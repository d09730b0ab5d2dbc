# UmbPack core, modelled in Dafny

UmbPack is the command-line tool that creates, packs and pushes Umbraco packages to
our.umbraco.com. This project models the parts of it that decide things. The push
verb (`PushCommand`) is modelled in these parts:

- the order of its pre-upload checks and the early return of the first failing one;
- the archive step, which turns `--Archive` patterns into case-insensitive regular
  expressions, collects the ids of the matching package files, de-duplicates them
  and reports their count;
- the `umbracoVersions` list (`GetVersionCompatibility`);
- the `isCurrent` flag (`ParseCurrentFlag`).

The helper (`PackageHelper`) is modelled in these parts:

- splitting an API key `projectId-memberId-token` into an `ApiKeyModel`;
- the checks that the package file exists, is a ZIP, contains a `package.xml`, and is
  not already on the server under the same file name.

The init verb (`InitCommand`) is modelled in these parts:

- the `package.xml` tree it builds (`MakePackageFile`), including the contributors
  pipeline and the license URL;
- the prompt default of `GetUserInput`;
- the path choice and the folder check of `GetPackageFile`.

From the remaining core files the model takes the two string extensions
(`EnsureStartsWith`, `EnsureEndsWith`), the URL cleanup `CleanPathAndQuery`, and the
`ErrorCode` enumeration with its numeric values.

The .NET library calls the core relies on are written out as functions. Each one
follows the framework's behaviour on Unix, with two simplifications listed under
"Left out": case folding is ASCII only, and `StartsWith`/`EndsWith` compare
ordinally. The functions are:

- `string.Split` with and without `RemoveEmptyEntries`, `string.Join`, `Trim`,
  `string.IsNullOrWhiteSpace`, ordinal `Replace`, `StartsWith` and `EndsWith`;
- `int.TryParse` in the invariant culture and `int.ToString`;
- `bool.TryParse` and `bool.ToString`;
- `Path.GetFileName`, `GetExtension`, `HasExtension`, `GetDirectoryName` and
  `Combine`, with the Unix separator `/`. `GetDirectoryName` writes each run of
  separators in its result as one, as `PathInternal.NormalizeDirectorySeparators`
  does;
- the fragment of .NET regular-expression matching the translated patterns use.

Modules, one per file:

| module | file |
|---|---|
| `Wrappers` | `wrappers.dfy` |
| `DotNetText` | `dotnet_text.dfy` |
| `DotNetNumber` | `dotnet_number.dfy` |
| `DotNetPath` | `dotnet_path.dfy` |
| `ErrorCodes` | `error_code.dfy` |
| `StringExtensions` | `string_extensions.dfy` |
| `UriExtensions` | `uri_extensions.dfy` |
| `ArchivePattern` | `archive_pattern.dfy` |
| `PackageHelper` | `package_helper.dfy` |
| `PushCommand` | `push_command.dfy` |
| `InitCommand` | `init_command.dfy` |

What the push verb gets from the outside is a `PushEnvironment` value, one field per
answer:

- `File.Exists`;
- the ZIP entry names;
- the package list and its error;
- the current package id and its error;
- the errors of `ArchivePackages`, `PackageXml` and `UploadPackage`.

The verb itself is the method `PushCommand.RunAndReturn`. It is proved to return
exactly the `PushOutcome` that the function `PushResult` states check by check.
The archive loop (`CollectArchiveIds`) and the duplicate-name loop
(`EnsurePackageDoesntAlreadyExists`) are methods with loop invariants, proved against
specification functions. `ApiKeyModel` is a class whose fields `SplitKey` sets.

## Model

| member | source | states |
|---|---|---|
| ErrorCodes.ErrorCode.Value | src/ErrorCode.cs:9-39 | every code is a small non-negative exit status |
| ErrorCodes.FromValue | src/ErrorCode.cs:9-39 | a number maps back only to the member with that value |
| ErrorCodes.ValueRoundTrip | src/ErrorCode.cs:9-39 | every member is found again from its numeric value |
| ErrorCodes.Values | src/ErrorCode.cs:14-38 | the values are 0, 1, 2, 5, 80, 123 and 222 as declared |
| ErrorCodes.SuccessIsOnlyZero | src/ErrorCode.cs:14 | `Success` is the only member with value 0 |
| ErrorCodes.ValuesDistinct | src/ErrorCode.cs:9-39 | no two members share a value, so the exit code identifies the error |
| StringExtensions.EnsureStartsWith | src/Extensions/StringExtensions.cs:16-19 | the result starts with the prefix and ends with the input; it is the input when the prefix is already there, else prefix + input |
| StringExtensions.EnsureEndsWith | src/Extensions/StringExtensions.cs:29-32 | the result ends with the suffix and starts with the input; it is the input when the suffix is already there, else input + suffix |
| StringExtensions.EnsureStartsWithIdempotent | src/Extensions/StringExtensions.cs:16-19 | a second application changes nothing |
| StringExtensions.EnsureEndsWithIdempotent | src/Extensions/StringExtensions.cs:29-32 | a second application changes nothing |
| StringExtensions.EnsureStartsWithUnchanged | src/Extensions/StringExtensions.cs:16-19 | the input comes back unchanged exactly when it already starts with the prefix |
| StringExtensions.EnsureEndsWithUnchanged | src/Extensions/StringExtensions.cs:29-32 | the input comes back unchanged exactly when it already ends with the suffix |
| UriExtensions.CleanStep | src/Extensions/UriExtensions.cs:17-21 | the left-to-right scan of `Replace("//", "/")`: a `//` at the front becomes `/`, any other character is kept |
| UriExtensions.CleanKeepsFirst | src/Extensions/UriExtensions.cs:17-21 | the cleaned path keeps its first character, so a rooted path stays rooted |
| UriExtensions.CleanLength | src/Extensions/UriExtensions.cs:17-21 | the result is shorter by exactly the number of replaced `//` |
| UriExtensions.HasDoubleSlashCounted | src/Extensions/UriExtensions.cs:17-21 | a `//` anywhere means at least one replacement |
| UriExtensions.CleanUnchangedIff | src/Extensions/UriExtensions.cs:17-21 | the path is unchanged exactly when it holds no `//` |
| UriExtensions.CleanRemovesOnlySlashes | src/Extensions/UriExtensions.cs:17-21 | only slashes are removed; every other character keeps its order |
| UriExtensions.CleanRemovesAllPairs | src/Extensions/UriExtensions.cs:17-21 | without a run of three slashes, no `//` is left |
| UriExtensions.NotIdempotent | src/Extensions/UriExtensions.cs:17-21 | one pass turns `///` into `//`, which still holds a `//` |
| UriExtensions.CleanPathAndQuery | src/Extensions/UriExtensions.cs:17-21 | the cleaned text is never longer than the input; its partner lemmas state how much shorter (`CleanLength`), when it is unchanged (`CleanUnchangedIff`) and what is removed (`CleanRemovesOnlySlashes`) |
| DotNetText.TrimStart | src/Verbs/InitCommand.cs:135 | drops exactly the leading white space |
| DotNetText.TrimEnd | src/Verbs/InitCommand.cs:135 | drops exactly the trailing white space |
| DotNetText.Trim | src/Verbs/InitCommand.cs:135 | the result is no longer than the input and has no white space at either end |
| DotNetText.TrimIsInnerRun | src/Verbs/InitCommand.cs:135 | `Trim()` keeps a contiguous run of the input with white space on both sides of it, leaves no white space at its ends, and is empty exactly for blank input |
| DotNetText.TrimEmptyIffBlank | src/Verbs/InitCommand.cs:134-135 | trimming gives the empty string exactly when `IsNullOrWhiteSpace` holds |
| DotNetText.TrimTrimmed | src/Verbs/InitCommand.cs:135 | a string without white space at its ends is its own trimmed form |
| DotNetText.ToLowerAscii | src/PackageHelper.cs:64 | `ToLowerInvariant` keeps the length and folds each character on its own |
| DotNetText.EqualsIgnoreCaseAt | src/PackageHelper.cs:144 | case-insensitive equality is equal length plus equality of folded characters position by position |
| DotNetText.EqualsIgnoreCase | src/Verbs/InitCommand.cs:172 | equal strings are equal ignoring case, and strings equal ignoring case have the same length |
| DotNetText.StartsWith | src/Extensions/StringExtensions.cs:18 | through the `EnsureStartsWith` lemmas: the prefix test that decides whether the prefix is added (ordinal) |
| DotNetText.EndsWith | src/Extensions/StringExtensions.cs:31 | through the `EnsureEndsWith` lemmas: the suffix test that decides whether the suffix is added (ordinal) |
| DotNetText.Split | src/PackageHelper.cs:226 | `Split` gives at least one piece and no piece holds the separator |
| DotNetText.JoinSplit | src/PackageHelper.cs:226 | joining the pieces with the separator gives the string back |
| DotNetText.SplitJoin | src/PackageHelper.cs:226 | splitting a join of separator-free pieces gives the pieces back |
| DotNetText.Join | src/PackageHelper.cs:226 | the inverse used to state `Split`: `JoinSplit`, `SplitJoin` and `JoinAppend` relate the two |
| DotNetText.SplitPrefix | src/PackageHelper.cs:226 | a separator-free prefix only extends the first piece |
| DotNetText.SplitCons | src/PackageHelper.cs:226 | a separator-free first piece followed by a separator is the first piece of the split |
| DotNetText.SplitAppend | src/PackageHelper.cs:226 | splitting at one more separator splits the two sides on their own |
| DotNetText.JoinAppend | src/Verbs/PushCommand.cs:246 | joining two non-empty lists puts one separator between them |
| DotNetText.RemoveEmpty | src/Verbs/PushCommand.cs:246 | `RemoveEmptyEntries` keeps exactly the non-empty pieces |
| DotNetText.RemoveEmptyKeepsNonEmpty | src/Verbs/PushCommand.cs:246 | a list without empty pieces is kept whole and in order |
| DotNetText.ConcatSplit | src/Verbs/PushCommand.cs:246 | gluing the pieces of a split gives the input with its separators deleted |
| DotNetText.ConcatRemoveEmpty | src/Verbs/PushCommand.cs:246 | dropping the empty pieces loses no character |
| DotNetText.Without | src/Verbs/PushCommand.cs:246 | the string without a character holds no occurrence of it |
| DotNetText.ReplaceCharCons | src/Verbs/PushCommand.cs:125 | replacing one character acts on each character on its own |
| DotNetText.ReplaceCharConcat | src/Verbs/PushCommand.cs:125 | replacing one character distributes over concatenation |
| DotNetText.Replace | src/Verbs/PushCommand.cs:125 | replacing a text with itself changes nothing, and a replacement no longer than the text replaced never makes the string longer |
| DotNetText.EqualsIgnoreCaseCons | src/Verbs/PushCommand.cs:125 | case-insensitive equality is decided one character at a time |
| DotNetText.TrimWhiteSpaceAndNull | src/Verbs/PushCommand.cs:260 | the trimming of `bool.TryParse`: no white space or NUL at either end, and a string without any comes back unchanged |
| DotNetNumber.NatToStringDigits | src/PackageHelper.cs:229-237 | `int.ToString` of a non-negative number is decimal digits without a leading zero whose value is the number |
| DotNetNumber.TryParseInt32 | src/PackageHelper.cs:229-237 | `int.TryParse` only ever yields values inside the 32-bit range |
| DotNetNumber.ParseFormatted | src/PackageHelper.cs:229-237 | every `int` parses back from its text |
| DotNetNumber.ParseNonNegative | src/PackageHelper.cs:229-237 | a non-negative `int` parses back from its text |
| DotNetNumber.ParseNegative | src/PackageHelper.cs:229-237 | a negative `int` parses back from its text |
| DotNetNumber.ParseUnsigned | src/PackageHelper.cs:229-237 | digits alone parse as their value when it fits |
| DotNetNumber.ParseSigned | src/PackageHelper.cs:229-237 | a `-` followed by digits parses as the negated value when it fits |
| DotNetNumber.ParseDigitString | src/PackageHelper.cs:229-237 | a run of digits whose value fits parses as that value |
| DotNetNumber.BodyOfFormatted | src/PackageHelper.cs:229-237 | formatted numbers carry no surrounding white space or NUL |
| DotNetNumber.FormattedNatHasNoDash | src/PackageHelper.cs:226-237 | the text of a non-negative id holds no `-`, so it is one key segment |
| DotNetPath.GetFileName | src/PackageHelper.cs:140 | the file name is a separator-free suffix of the path that follows its last separator |
| DotNetPath.FileNameOfName | src/PackageHelper.cs:140 | a bare name is its own file name |
| DotNetPath.FileNameIgnoresDirectory | src/PackageHelper.cs:140 | the directory part does not affect the file name |
| DotNetPath.DotIndex | src/PackageHelper.cs:64 | the extension starts at the last `.` after the last separator; with no such `.` the file name has none |
| DotNetPath.HasExtensionIffExtension | src/Verbs/InitCommand.cs:233 | `HasExtension` holds exactly when `GetExtension` is non-empty, which then starts with `.` and has one more character |
| DotNetPath.ExtensionOfAppend | src/PackageHelper.cs:64 | appending `.ext` makes `.ext` the extension |
| DotNetPath.GetDirectoryName | src/Verbs/InitCommand.cs:243 | null exactly for an empty path or a bare root; otherwise shorter than the path and with no doubled separator, and a prefix of the path when the path has no doubled separator |
| DotNetPath.DirectoryOfBareName | src/Verbs/InitCommand.cs:243 | a relative name without separators has the empty string as its directory |
| DotNetPath.DirectoryOfJoined | src/Verbs/InitCommand.cs:243 | the directory of `dir/name` is `dir` with each run of separators written as one, so it is `dir` itself when `dir` has no doubled separator |
| DotNetPath.CollapseSeparators | src/Verbs/InitCommand.cs:243 | the separator normalisation of `GetDirectoryName` leaves no doubled separator, removes only separators, keeps the first character, and changes nothing in a path without a doubled separator |
| DotNetPath.CollapseDoubled | src/Verbs/InitCommand.cs:243 | `a//b` is normalised to `a/b` for separator-free `a` and `b` |
| DotNetPath.DoubledSeparatorCollapses | src/Verbs/InitCommand.cs:243 | the directory of `a//b/name` is `a/b` |
| DotNetPath.GetExtension | src/PackageHelper.cs:64 | a non-empty extension is a suffix of the path that starts with its one `.`, holds no separator and has at least one more character |
| DotNetPath.HasExtension | src/Verbs/InitCommand.cs:233 | through `HasExtensionIffExtension`: true exactly when `GetExtension` is non-empty |
| DotNetPath.Combine | src/Verbs/InitCommand.cs:229-239 | the result ends with the second part, starts with the first when the second is not rooted, and adds at most one separator |
| ArchivePattern.GlobAtoms | src/Verbs/PushCommand.cs:125 | one regex atom per pattern character, in order: `*` becomes any run, every other character a literal |
| ArchivePattern.IsArchiveMatch | src/Verbs/PushCommand.cs:125-128 | through `ArchiveMatchIsGlob`: for names without line feeds the built regex matches exactly the names the glob reference matches, ignoring case; through `TrailingLineFeedMatches`: a matching name followed by `\n` still matches |
| ArchivePattern.EscapedCons | src/Verbs/PushCommand.cs:125 | the two `Replace` calls escape each pattern character on its own |
| ArchivePattern.ParseEscapeChar | src/Verbs/PushCommand.cs:125 | the escaping of a supported character reads as that character's atom |
| ArchivePattern.ParseEscaped | src/Verbs/PushCommand.cs:125 | the escaped body of a supported pattern reads as its atoms: `\.` is a literal dot, `(.*)` is any run |
| ArchivePattern.TranslationParses | src/Verbs/PushCommand.cs:125 | the built regex text `^…$` reads as the pattern's atoms, anchored at both ends |
| ArchivePattern.MatchAtomsIsGlob | src/Verbs/PushCommand.cs:125 | for names without line feeds, the atoms match exactly as the glob reference does |
| ArchivePattern.ArchiveMatchIsGlob | src/Verbs/PushCommand.cs:125-128 | for names without line feeds, the regex built from a pattern matches exactly the names the glob matches, ignoring case |
| ArchivePattern.TrailingLineFeedMatches | src/Verbs/PushCommand.cs:125 | because .NET's `$` also matches before a final line feed, a matching name followed by `\n` matches too |
| ArchivePattern.StarFreeMatchesEqual | src/Verbs/PushCommand.cs:125 | a pattern without `*` matches only names equal to it ignoring case, so `.` matches only a dot |
| ArchivePattern.StarFreePrefix | src/Verbs/PushCommand.cs:125 | a star-free prefix of a pattern must match the start of the name |
| ArchivePattern.StarThenSuffix | src/Verbs/PushCommand.cs:125 | `*suffix` matches exactly the names ending in the suffix, ignoring case |
| ArchivePattern.OneStarMatches | src/Verbs/PushCommand.cs:125 | `prefix*suffix` matches exactly the names long enough to start with the prefix and end with the suffix, ignoring case |
| ArchivePattern.StarMatchesAll | src/Verbs/PushCommand.cs:125 | the pattern `*` matches every name |
| PackageHelper.ApiKeyModel.constructor | src/PackageHelper.cs:328-353 | a fresh key model has ids 0 and an empty token |
| PackageHelper.KeyParts | src/PackageHelper.cs:226 | a key has at least one `-`-separated segment |
| PackageHelper.SplitKey | src/PackageHelper.cs:224-242 | the project and member ids are the `int` values of the first two segments, or stay 0 when a segment does not parse; the token is the third segment |
| PackageHelper.SplitSingle | src/PackageHelper.cs:226 | a string without `-` is a single segment |
| PackageHelper.SplitThree | src/PackageHelper.cs:226 | three `-`-free parts joined by `-` split back into those parts |
| PackageHelper.KeyRoundTrip | src/PackageHelper.cs:224-242 | a key built from two non-negative ids and a `-`-free token splits back into those parts, and both ids parse back to their values |
| PackageHelper.TokenDropsTail | src/PackageHelper.cs:239 | whatever follows a third `-` is not part of the token |
| PackageHelper.NegativeIdShiftsSegments | src/PackageHelper.cs:226-239 | a negative project id brings its own `-`: the project segment is empty and stays 0, and the token is what was meant as the member id |
| PackageHelper.EnsurePackageExists | src/PackageHelper.cs:43-53 | `FileNotFound` exactly when the file does not exist, otherwise no error |
| PackageHelper.EnsureIsZip | src/PackageHelper.cs:62-72 | no error exactly when the lower-cased extension is `.zip`, otherwise `InvalidName` |
| PackageHelper.EnsureIsZipIffSuffix | src/PackageHelper.cs:62-72 | the ZIP check passes exactly when the path ends in `.zip` in any case |
| PackageHelper.EnsureContainsPackageXml | src/PackageHelper.cs:81-95 | no error exactly when some entry is named `package.xml` ignoring case, otherwise `BadFileType` |
| PackageHelper.EnsurePackageDoesntAlreadyExists | src/PackageHelper.cs:136-154 | the loop reports `FileExists` exactly when the list is not null and some entry has the file's name ignoring case, and nothing else |
| PackageHelper.DuplicateNameError | src/PackageHelper.cs:136-154 | the same answer as a value, which the push verb's check order uses |
| PackageHelper.DirectoryIrrelevant | src/PackageHelper.cs:140 | only the file name counts: the same name in any directory is the same package |
| PackageHelper.NoMatchNoError | src/PackageHelper.cs:141-153 | a list without a same-named entry passes, however long it is |
| PushCommand.Selected | src/Verbs/PushCommand.cs:128 | a package contributes exactly its own id, once, when its name matches the pattern's regex, and nothing otherwise |
| PushCommand.MatchingIdsCount | src/Verbs/PushCommand.cs:128-130 | one pattern adds as many ids as there are packages whose name matches it |
| PushCommand.MatchingIds | src/Verbs/PushCommand.cs:128 | through `MatchingIdsMembers` and `MatchingIdsAppend`: an id is selected exactly when a package with a matching name carries it, in package order |
| PushCommand.PackageIds | src/Verbs/PushCommand.cs:128 | one contribution per package, in list order |
| PushCommand.MatchingIdsMembers | src/Verbs/PushCommand.cs:125-128 | an id is selected exactly when some package carrying it has a name the regex matches |
| PushCommand.MatchingIdsAppend | src/Verbs/PushCommand.cs:128 | within one pattern, ids follow the order of the package list |
| PushCommand.StarFreePatternSelectsEqualNames | src/Verbs/PushCommand.cs:125-128 | a pattern without `*` selects the packages named like it ignoring case |
| PushCommand.PatternIds | src/Verbs/PushCommand.cs:114-131 | one contribution per pattern, in pattern order |
| PushCommand.IdsFor | src/Verbs/PushCommand.cs:116-131 | through `PatternIds`, `CollectedIdsMembers` and `CollectArchiveIds`: what one pattern adds, the current id for `current` unless it is `0`, else the matching ids |
| PushCommand.IdsUpToStep | src/Verbs/PushCommand.cs:114-131 | each pattern appends its own ids to those of the patterns before it |
| PushCommand.PatternStep | src/Verbs/PushCommand.cs:116-130 | one turn of the loop: `current` adds the parsed current id unless it is `"0"`, any other pattern adds its matching ids |
| PushCommand.CollectArchiveIds | src/Verbs/PushCommand.cs:104-133 | the loop's list is the patterns' ids, pattern after pattern |
| PushCommand.CollectedIdsAppend | src/Verbs/PushCommand.cs:114-131 | the collected ids follow the order of the patterns |
| PushCommand.CollectedIdsMembers | src/Verbs/PushCommand.cs:114-131 | an id is collected exactly when one of the patterns adds it |
| PushCommand.Distinct | src/Verbs/PushCommand.cs:137 | LINQ `Distinct` keeps every value, and each one once |
| PushCommand.DistinctOfDistinct | src/Verbs/PushCommand.cs:137 | a list without duplicates is its own `Distinct` |
| PushCommand.DistinctKeepsFirstOccurrences | src/Verbs/PushCommand.cs:137 | values keep their first-occurrence order: the de-duplicated prefix is a prefix of the de-duplicated whole |
| PushCommand.PreUploadChecks | src/Verbs/PushCommand.cs:66-101 | six checks in this order: exists, ZIP, package.xml, package list, current id, duplicate name |
| PushCommand.FirstFailureIndex | src/Verbs/PushCommand.cs:66-101 | the checks before the first failing one all pass |
| PushCommand.FirstFailureAt | src/Verbs/PushCommand.cs:66-101 | a failing check with only passing checks before it is the first failure |
| PushCommand.FirstFailureIgnoresLater | src/Verbs/PushCommand.cs:66-101 | the checks after the first failing one do not affect the answer |
| PushCommand.RunAndReturn | src/Verbs/PushCommand.cs:55-160 | the verb's early returns, archive step, package.xml step and upload give exactly `PushResult` |
| PushCommand.PushResult | src/Verbs/PushCommand.cs:55-160 | the outcome stated check by check; `RunAndReturn` computes it, `LaterChecksNotConsulted` shows that the checks after the first failing one do not matter, and `SucceedsIffNoError` says when it is `Success` |
| PushCommand.FailingCheckDecides | src/Verbs/PushCommand.cs:66-101 | a failing check's code is returned, every check before it passed, and neither archive nor upload happens |
| PushCommand.LaterChecksNotConsulted | src/Verbs/PushCommand.cs:66-101 | environments that agree up to the first failing check give the same outcome |
| PushCommand.ArchiveCall | src/Verbs/PushCommand.cs:104-143 | once the checks pass, `ArchivePackages` is called exactly when ids were collected, with each id once and none dropped |
| PushCommand.ArchivedIds | src/Verbs/PushCommand.cs:135-137 | the archive call gets the distinct ids, and only when there are some |
| PushCommand.ArchiveReport | src/Verbs/PushCommand.cs:135-143 | once the checks pass, the "Archived" message is printed exactly when the archive call happened and succeeded; the count is taken before de-duplication |
| PushCommand.ReportedCount | src/Verbs/PushCommand.cs:135-143 | the reported count is the number of ids before de-duplication |
| PushCommand.SucceedsIffNoError | src/Verbs/PushCommand.cs:55-160 | the verb returns `Success` exactly when no check and no later step reports an error |
| PushCommand.GetVersionCompatibility | src/Verbs/PushCommand.cs:243-249 | every version is a non-empty, comma-free segment |
| PushCommand.VersionStrings | src/Verbs/PushCommand.cs:274-286 | the `Version` of each entry, in order |
| PushCommand.VersionsRoundTrip | src/Verbs/PushCommand.cs:246 | comma-joined non-empty versions come back one for one, in order |
| PushCommand.VersionsKeepAllText | src/Verbs/PushCommand.cs:246 | nothing but the commas is lost: no segment is trimmed, and only empty ones are dropped |
| PushCommand.BoolTryParse | src/Verbs/PushCommand.cs:260 | `true` exactly for `True` in any case after trimming white space and NUL, `false` exactly for `False` |
| PushCommand.ParseCurrentFlag | src/Verbs/PushCommand.cs:258-266 | the flag is `"True"` or `"False"`, and `"True"` exactly when the input parses as true |
| PushCommand.BoolRoundTrip | src/Verbs/PushCommand.cs:262 | the text of a boolean parses back as that boolean |
| PushCommand.ParseCurrentFlagIdempotent | src/Verbs/PushCommand.cs:258-266 | normalising the normalised flag changes nothing |
| PushCommand.PaddedTrueIsTrue | src/Verbs/PushCommand.cs:29 | any spelling of `true`, padded with white space or NUL, gives `"True"`; this includes the option's default `"true"` |
| PushCommand.TrimPadding | src/Verbs/PushCommand.cs:260 | trimming removes exactly the padding around a word |
| InitCommand.PromptText | src/Verbs/InitCommand.cs:210-214 | the prompt is `prompt: `, followed by `(default) ` only when the default is not blank |
| InitCommand.GetUserInput | src/Verbs/InitCommand.cs:208-221 | a missing or blank answer gives the default, any other answer is returned as typed |
| InitCommand.TypingDefaultIsEnter | src/Verbs/InitCommand.cs:208-221 | typing the default gives the same result as pressing enter |
| InitCommand.BlankAnswerIsDefault | src/Verbs/InitCommand.cs:217-218 | a blank result can only come from the default |
| InitCommand.GetLicenseUrl | src/Verbs/InitCommand.cs:169-178 | the MIT URL exactly when the name is `MIT` ignoring case, otherwise the empty string |
| InitCommand.LicenseUrlSpellings | src/Verbs/InitCommand.cs:172 | under ASCII case folding, the names with a URL are exactly the eight case spellings of `MIT` |
| InitCommand.NonBlank | src/Verbs/InitCommand.cs:134 | the `Where` step keeps exactly the non-blank entries of the input, and never more entries than the input has |
| InitCommand.NonBlankAppend | src/Verbs/InitCommand.cs:134 | the filter keeps the order: the filter of a concatenation is the concatenation of the filters |
| InitCommand.TrimAll | src/Verbs/InitCommand.cs:135 | the `Select` step trims each entry, one for one |
| InitCommand.TrimAddsNothing | src/Verbs/InitCommand.cs:135 | trimming adds no character |
| InitCommand.Contributors | src/Verbs/InitCommand.cs:133-136 | null stays null; otherwise every contributor is non-empty, trimmed and comma-free |
| InitCommand.NonBlankRemoveEmpty | src/Verbs/InitCommand.cs:133-134 | `RemoveEmptyEntries` is subsumed by the blank filter |
| InitCommand.ContributorsOfSplit | src/Verbs/InitCommand.cs:133-136 | the contributors are the trimmed non-blank segments of the plain split |
| InitCommand.ContributorsRoundTrip | src/Verbs/InitCommand.cs:133-136 | trimmed, non-blank, comma-free names joined with commas come back as exactly those names |
| InitCommand.NonBlankKeepsNonBlank | src/Verbs/InitCommand.cs:134 | a list of non-blank entries passes the filter whole |
| InitCommand.BlankListHasNoContributors | src/Verbs/InitCommand.cs:133-138 | white space and commas alone give no contributors, so no `contributors` element |
| InitCommand.AllBlankDropped | src/Verbs/InitCommand.cs:134 | blank entries are all dropped |
| InitCommand.JoinedPieceIsBlank | src/Verbs/InitCommand.cs:133-134 | a segment of a text made of commas and white space is blank |
| InitCommand.FolderCheckAsWritten | src/Verbs/InitCommand.cs:243-247 | as written: exit code 2 exactly when `Directory.Exists(Path.GetDirectoryName(filePath))` fails |
| InitCommand.BareNameAlwaysExits | src/Verbs/InitCommand.cs:243-247 | as written, a bare file name exits with code 2 whatever directories exist |
| InitCommand.MyPackageXmlExits | src/Verbs/InitCommand.cs:231-247 | `MyPackage.xml` has an extension, is kept as the path, and exits with code 2 as written |
| InitCommand.EnclosingFolder | src/Verbs/InitCommand.cs:243 | the folder a path is created in: its directory name, or `.` for a bare name |
| InitCommand.FolderCheck | src/Verbs/InitCommand.cs:243-247 | corrected: exit code 2 exactly when the enclosing folder does not exist |
| InitCommand.DirectoryExists | src/Verbs/InitCommand.cs:243 | through `FolderCheckAsWritten` and `FolderCheck`: `Directory.Exists` is false for a null or empty path, otherwise membership in the existing directories |
| InitCommand.BareNameUsesCurrentFolder | src/Verbs/InitCommand.cs:243-247 | corrected, a bare file name passes exactly when the current directory exists |
| InitCommand.FolderCheckAgrees | src/Verbs/InitCommand.cs:243-247 | wherever the path names a directory, the correction agrees with the code as written |
| InitCommand.DefaultPathChecksCurrentFolder | src/Verbs/InitCommand.cs:229-247 | the default path is checked against the current directory |
| InitCommand.FolderArgumentChecksFolder | src/Verbs/InitCommand.cs:239-247 | a folder argument is checked against that folder with each run of separators written as one, which is the folder itself when it has no doubled separator |
| InitCommand.DefaultPackagePath | src/Verbs/InitCommand.cs:229 | the default path is `./package.xml`, has an extension and names `package.xml` |
| InitCommand.CombinedPackageXml | src/Verbs/InitCommand.cs:239 | a folder combined with `package.xml` names a file `package.xml` with an extension |
| InitCommand.GetPackageFile | src/Verbs/InitCommand.cs:227-251 | `./package.xml` for a blank argument, the argument when it has an extension, else the argument combined with `package.xml`; the path always has an extension; exit code 2 exactly when the corrected folder check fails |
| InitCommand.Element | src/Verbs/InitCommand.cs:108-162 | a child found by name is an element with that name |
| InitCommand.FirstNamed | src/Verbs/InitCommand.cs:108-162 | the child found is one of the children and carries the name |
| InitCommand.FirstNamedAt | src/Verbs/InitCommand.cs:108-162 | the lookup finds the first child element with the name |
| InitCommand.FirstNamedNone | src/Verbs/InitCommand.cs:108-162 | the lookup finds nothing when no child has the name |
| InitCommand.TextOfLeaf | src/Verbs/InitCommand.cs:115-146 | text and CDATA content read back as the text |
| InitCommand.LeafReadBack | src/Verbs/InitCommand.cs:115-131 | a text child found by name reads back as its text |
| InitCommand.ContributorElements | src/Verbs/InitCommand.cs:141 | one `contributor` element per contributor, in order |
| InitCommand.MakePackageFile | src/Verbs/InitCommand.cs:108-162 | the `Add` calls build exactly the package.xml tree of the setup |
| InitCommand.ManifestTree | src/Verbs/InitCommand.cs:108-162 | the package.xml tree stated as one value; `MakePackageFile` builds it and `ManifestReadBack` reads the name, the version, the contributors element and the readme back out of it |
| InitCommand.PackageBuilt | src/Verbs/InitCommand.cs:114-126 | the six `Add` calls on `package` give the package element |
| InitCommand.InfoBuilt | src/Verbs/InitCommand.cs:127-146 | the `Add` calls on `info` give the info element, with contributors only when there are some |
| InitCommand.RootBuilt | src/Verbs/InitCommand.cs:148-159 | the eleven `Add` calls on the root give the root element |
| InitCommand.RootLayout | src/Verbs/InitCommand.cs:110-159 | the `umbPackage` root has eleven children: `info` first, then ten empty elements |
| InitCommand.RootSectionNames | src/Verbs/InitCommand.cs:150-159 | the ten sections follow the info element |
| InitCommand.SectionNames | src/Verbs/InitCommand.cs:150-159 | the sections are files, Actions, control, DocumentTypes, Templates, Stylesheets, Macros, DictionaryItems, Languages, DataTypes, in that order |
| InitCommand.RootInfo | src/Verbs/InitCommand.cs:148 | `Element("info")` on the root is the info element |
| InitCommand.PackageLayout | src/Verbs/InitCommand.cs:114-126 | the package element has six child elements; the third, `iconUrl`, holds an empty text |
| InitCommand.PackageChildNames | src/Verbs/InitCommand.cs:115-126 | the children are name, version, iconUrl, license, url and requirements, in that order |
| InitCommand.PackageNameReadBack | src/Verbs/InitCommand.cs:115 | the package name reads back as given |
| InitCommand.PackageVersionReadBack | src/Verbs/InitCommand.cs:116 | the package version reads back as given |
| InitCommand.PackageUrlReadBack | src/Verbs/InitCommand.cs:121 | the package url reads back as given |
| InitCommand.PackageRequirements | src/Verbs/InitCommand.cs:122-126 | the requirements element is found by name in the package element |
| InitCommand.LicenseLayout | src/Verbs/InitCommand.cs:118-119 | the license element reads back as the license name, with the license URL as its `url` attribute |
| InitCommand.RequirementsLayout | src/Verbs/InitCommand.cs:122-126 | the requirements element is of type `strict` and holds major, minor and patch, in order, each reading back as given |
| InitCommand.InfoLayout | src/Verbs/InitCommand.cs:127-146 | the info element holds package, then author, then contributors only when there are some, then readme last |
| InitCommand.InfoReadBack | src/Verbs/InitCommand.cs:127-146 | package, author and readme are found by name, and the readme reads back as the description |
| InitCommand.InfoContributors | src/Verbs/InitCommand.cs:138-143 | there is a contributors element exactly when there are contributors |
| InitCommand.ContributorsLayout | src/Verbs/InitCommand.cs:140-142 | the contributor elements read back as the contributors, in order |
| InitCommand.ManifestReadBack | src/Verbs/InitCommand.cs:108-162 | the whole tree read back: the info element, the package name and version, a contributors element exactly when the pipeline leaves a name, and the readme |

## Left out

- Network calls are not modelled: `GetPackageList`, `GetCurrentPackageFileId`,
  `ArchivePackages`, `PackageXml` and the HTTP upload of `UploadPackage`. Their
  answers are fields of `PushEnvironment`. Only the order in which they are
  consulted and how their error codes are used are modelled.
- `GetClientBase`, the HMAC request signing and `WriteError` are not modelled: they
  are cryptography and console output.
- File-system access is not modelled. `File.Exists` becomes a boolean, the ZIP entry
  list becomes a list of names, and `Directory.Exists` becomes membership in a set
  of existing directories.
- The init verb's console flow is not modelled: `InitCommand.RunAndReturn`, its
  confirmation prompt, `XDocument.Save` and `Environment.Exit`. `GetPackageFile`
  returns the exit code instead of exiting.
- `GetVersionString` is not modelled. It is an unbounded prompt loop around
  `SemVersion.TryParse`, and SemVer parsing is part of a library this model does not
  include. `PackageSetup` holds its result as a `SemVersion` value.
- GetVersionCompatibility: the model gives the list of `UmbracoVersion` values, not
  the JSON text `JsonConvert` makes from it.
- Case-insensitive comparisons use ASCII case folding. This covers
  `InvariantCultureIgnoreCase`, `ToLowerInvariant` and `RegexOptions.IgnoreCase`.
  Unicode case mappings are not modelled.
- `InvariantCultureIgnoreCase` is a culture comparison. It also skips ignorable
  code points such as U+00AD (soft hyphen), and U+0000 under ICU. The model
  compares character by character after ASCII folding, so a name with such a code
  point is unequal to the same name without it. The members below therefore state
  their results under ASCII case folding only.
- InitCommand.GetLicenseUrl: the source gives `MI\u00ADT` the MIT URL at
  src/Verbs/InitCommand.cs:172; the model gives it the empty string.
- InitCommand.LicenseUrlSpellings: the eight case spellings of `MIT` are the only
  names with a URL under ASCII folding. Culture rules admit more, such as `MI\u00ADT`.
- PackageHelper.EnsureContainsPackageXml: an entry named `package\u00AD.xml` passes
  the source's comparison at src/PackageHelper.cs:85; the model reports
  `BadFileType` for it.
- PackageHelper.EnsurePackageDoesntAlreadyExists: a server entry named
  `pkg\u00AD.zip` makes the source report `FileExists` for `pkg.zip` at
  src/PackageHelper.cs:144; the model finds no match.
- Paths use the Unix separator `/` only. Windows drive roots and `\` are not modelled.
- `Directory.Exists` compares path strings: a directory listed as `out/pkg` does not
  also answer to `out/./pkg` or `out/../out/pkg`. `GetDirectoryName` already turns
  `out//pkg` into `out/pkg` before the lookup.
- StringExtensions.EnsureStartsWith: `input.StartsWith(toStartWith)` without a
  `StringComparison` compares with the current culture. The model compares
  ordinally. The two differ only where culture rules treat different characters
  as equal (ignorable characters, or composed and decomposed forms); culture data
  is not modelled.
- StringExtensions.EnsureEndsWith: `input.EndsWith(toEndWith)` compares with the
  current culture, the model ordinally, with the same consequences as for
  `EnsureStartsWith`.
- PackageHelper.EnsurePackageDoesntAlreadyExists: a server entry without a `Name`
  makes `packageName.Equals` throw `NullReferenceException` at
  src/PackageHelper.cs:144. The model gives every `PackageFile` a name, so that
  case is assumed away.
- PushCommand.MatchingIds: a server entry without a `Name` makes
  `archiveRegex.IsMatch` throw at src/Verbs/PushCommand.cs:128, and a missing or
  non-`Int32` `Id` makes `Value<int>("Id")` throw there too. The model gives every
  `PackageFile` a name and an `int` id, so those cases are assumed away.
- PackageHelper.EnsureContainsPackageXml: `ZipFile.OpenRead` throws
  `InvalidDataException` at src/PackageHelper.cs:83 for a `.zip` file that is not a
  ZIP archive. The model receives the entry names of a readable archive, so that
  case is assumed away.
- ArchivePattern.IsArchiveMatch: only patterns without the regex characters
  `\ ^ $ | ? + ( ) [ ] { }` are modelled. The source passes those through unescaped
  into the regex, where they change its meaning or make the constructor throw.
- PushCommand.IdsFor: where the source throws, the model has an extra
  precondition (`Usable`) on `CollectArchiveIds` and `RunAndReturn`. The two
  throwing cases are a regex pattern against a null package list, and `int.Parse`
  of a current id that is not an `int`. The methods may not be called in those
  cases, and `IdsFor` adds no ids for them.
- PackageHelper.SplitKey: a key with fewer than three segments makes the source
  throw `IndexOutOfRangeException`. The model requires three segments instead. A
  null key is not modelled.
- PackageHelper.ApiKeyModel.constructor: the model starts `Token` as the empty
  string where C# starts it as null. `SplitKey` always overwrites it.
- PushCommand.BoolTryParse: the model keeps only `True`/`False` in any case,
  surrounded by white space and NUL. Other framework details of `bool.TryParse`,
  such as a null input, are not modelled.
- LINQ to XML is modelled as plain tree values. Node identity and parent links are
  not modelled: `XElement.Add` of an element that already has a parent would copy
  it, and here every node is a value anyway.
- `PackCommand` and the remaining files are outside the core and are not modelled.
  These are `Program.cs`, `Verify.cs`, `Parse.cs`, `Options.cs`, the authentication
  files and `DateTimeExtensions`.

## Findings

| source | as written | input that shows it | evidently intended | confidence | as-written member | corrected member |
|---|---|---|---|---|---|---|
| src/Verbs/InitCommand.cs:243-247 | `Directory.Exists(Path.GetDirectoryName(filePath))` is false for a bare file name, because its directory name is the empty string, so the verb exits with code 2 | `umbpack init MyPackage.xml` (any name with an extension and no folder) | a bare file name is created in the current directory, so the current directory is checked | not executed | InitCommand.FolderCheckAsWritten, InitCommand.BareNameAlwaysExits, InitCommand.MyPackageXmlExits | InitCommand.FolderCheck, InitCommand.BareNameUsesCurrentFolder (used by InitCommand.GetPackageFile) |
