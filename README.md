# MonorepoBuilder: composer.json merging and git queries, in Dafny

This project models two pieces of the monorepo builder.

- **The composer.json merger** (`PackageComposerJsonMerger`). It folds the
  decoded composer.json of every package, in order, into the root
  composer.json. Only the sections named in `mergeSections` are merged.
  Before an `autoload` or `autoload-dev` section is merged, the paths under
  its `classmap`, `files`, `exclude-from-classmap`, `psr-4` and `psr-0` keys
  are re-anchored to the package directory. An array section is combined
  with what was merged so far and sorted. A scalar section overwrites it.
  `repositories` is de-duplicated and re-indexed. Finally, when both `require` and `require-dev` are set, a package
  already in `require` is dropped from `require-dev`, and a `require-dev`
  left empty is dropped. The name of every package is handed to the merged-packages
  collector.
- **The git queries of the split command** (`GitManager`). They build the
  argv of `git tag` and `git rev-parse`, parse the tag listing, pick the most
  recent tag and the current branch, and rewrite an SSH remote into an HTTPS
  URL that carries a GitHub token.

Files:

- `php_values.dfy` (module `PhpValues`): decoded JSON values as PHP holds
  them. A PHP array is an ordered sequence of key/value entries. It has
  lookup, assignment, `unset`, `array_keys`, `array_unique` with
  `SORT_REGULAR` and `array_values`, with their laws.
- `php_strings.dfy` (module `PhpStrings`): `trim`, `ltrim` with one
  character, `str_replace` of one character by nothing, `explode`/`implode`
  on one character, a one-character regex replacement and `empty()` on
  strings.
- `package_composer_json_merger.dfy` (module `Package`): the merger. Each
  step of the source is a method of class `PackageComposerJsonMerger`,
  proved equal to a specification function. The properties are proved
  about those functions.
- `git_manager.dfy` (module `SplitGit`): class `GitManager`, whose fields
  are the process runner and the token set by its constructor.

The merger's collaborators `ParametersMerger::mergeWithCombine` and
`ArraySorter::recursiveSort` are fields holding arbitrary functions. Every
property of the merger holds whatever they compute. The process runner is
a field too: a function from argv to output text. The working directory is
an input string.

## Model

| member | source | states |
|---|---|---|
| PhpValues.IsSetFirstEntry | src/Package/PackageComposerJsonMerger.php:72 | `isset($a[$k])` holds exactly when the first entry with key k exists and its value is not null |
| PhpValues.Keys | src/Package/PackageComposerJsonMerger.php:166-170 | `array_keys`: the keys in order, and a key is listed exactly when the array has it |
| PhpValues.SetLaws | src/Package/PackageComposerJsonMerger.php:150 | assigning `$a[$k]` stores the value under k and leaves every other key's value alone; the key set gains k; unique keys stay unique; an existing key keeps its place |
| PhpValues.UnsetLaws | src/Package/PackageComposerJsonMerger.php:178 | `unset($a[$k])` removes k and nothing else, and keys stay unique |
| PhpValues.RemoveAtGet | src/Package/PackageComposerJsonMerger.php:178 | removing the entry that holds a key, from an array with unique keys, makes that key missing and leaves every other key's value alone |
| PhpValues.ArrayValues | src/Package/PackageComposerJsonMerger.php:143 | `array_values` keeps every value in order and gives entry i the key i |
| PhpValues.ArrayUniqueValueSet | src/Package/PackageComposerJsonMerger.php:141 | `array_unique` drops no value and adds none |
| PhpValues.ArrayUniqueDistinct | src/Package/PackageComposerJsonMerger.php:141 | `array_unique` leaves no two entries with equal values |
| PhpValues.ArrayUniqueKeepsFirst | src/Package/PackageComposerJsonMerger.php:141 | every entry `array_unique` keeps is the first input entry holding its value, key included |
| PhpValues.ArrayUniqueOrder | src/Package/PackageComposerJsonMerger.php:141 | the kept entries come in the order of their first occurrence |
| PhpStrings.Trim | packages/Split/src/Git/GitManager.php:62 | the result of `trim` is empty or neither starts nor ends with a blank |
| PhpStrings.TrimLeftSplit | packages/Split/src/Git/GitManager.php:62 | the input is a blank prefix followed by what `ltrim` leaves |
| PhpStrings.TrimRightSplit | packages/Split/src/Git/GitManager.php:62 | the input is what `rtrim` leaves followed by a blank suffix |
| PhpStrings.TrimShape | packages/Split/src/Git/GitManager.php:62 | the input is a blank prefix, then `trim` of it, then a blank suffix: `trim` removes blank ends and nothing else |
| PhpStrings.TrimOfPadded | packages/Split/src/Git/GitManager.php:101 | conversely, `trim` gives back any text without blank ends from between any blank padding |
| PhpStrings.TrimLeftChar | src/Package/PackageComposerJsonMerger.php:194 | `ltrim($p, '/')` is a suffix of p, what it removes is all slashes, and it does not start with a slash |
| PhpStrings.RemoveChar | packages/Split/src/Git/GitManager.php:105 | after `str_replace("\r", '', $s)` no `\r` is left, every other character occurs exactly when it did before, the text is no longer, and a one-character text loses its character exactly when it is `\r` |
| PhpStrings.RemoveCharConcat | packages/Split/src/Git/GitManager.php:105 | deleting works piece by piece, so with the one-character case every other character is kept in order and count |
| PhpStrings.RemoveAbsentChar | packages/Split/src/Git/GitManager.php:105 | removing a character that does not occur changes nothing |
| PhpStrings.Explode | packages/Split/src/Git/GitManager.php:107 | `explode` gives at least one piece and no piece holds the separator |
| PhpStrings.ExplodeAvoids | packages/Split/src/Git/GitManager.php:107 | a character absent from the text is absent from every piece |
| PhpStrings.ImplodeExplode | packages/Split/src/Git/GitManager.php:107 | joining the pieces with the separator gives back the text |
| PhpStrings.ExplodeImplode | packages/Split/src/Git/GitManager.php:107 | cutting joined pieces gives back the pieces when none holds the separator |
| PhpStrings.ReplaceChar | packages/Split/src/Git/GitManager.php:91 | replacing `:` by `/` keeps the length and changes exactly the `:` positions |
| PhpStrings.IndexOf | packages/Split/src/Git/GitManager.php:89-90 | the position `explode('@', $s, 2)` cuts at holds the first `@` |
| PhpStrings.EmptyByLength | packages/Split/src/Git/GitManager.php:64 | `empty()` on a string holds for `""` and `"0"` and for no other string |
| SplitGit.ScopedCommand | packages/Split/src/Git/GitManager.php:31-36 | the argv starts with the base command; it is longer than the base exactly when the working directory differs from the git directory, and then ends with `--git-dir` and the directory |
| SplitGit.ParseTags | packages/Split/src/Git/GitManager.php:99-108 | the tag list is never empty, no tag holds `\r` or `\n`, and joining the tags with `\n` gives the trimmed output without `\r` |
| SplitGit.BlankTagOutput | packages/Split/src/Git/GitManager.php:101-107 | blank output parses to the one empty tag |
| SplitGit.ParseTagListing | packages/Split/src/Git/GitManager.php:99-108 | a listing of non-empty tags without blanks, one per line, parses back to those tags |
| SplitGit.TokenIsEmptyCases | packages/Split/src/Git/GitManager.php:85 | `empty($this->githubToken)` holds exactly for a null, `""` or `"0"` token |
| SplitGit.AuthenticatedRemote | packages/Split/src/Git/GitManager.php:89-93 | the URL is `https://`, the token and `@`, then the text after the first `@` of the remote with every `:` turned into `/`; that part holds no `:` |
| SplitGit.SshRemoteRewrite | packages/Split/src/Git/GitManager.php:75-80 | a remote `user@host:path` becomes `https://TOKEN@host/path` |
| SplitGit.ColonsReplaced | packages/Split/src/Git/GitManager.php:91 | in `host:path` with no other `:` the one colon becomes `/` and nothing else changes |
| SplitGit.GitManager.constructor | packages/Split/src/Git/GitManager.php:20-24 | the process runner and the token are stored |
| SplitGit.GitManager.GetMostRecentTag | packages/Split/src/Git/GitManager.php:29-48 | runs the scoped `git tag` command; the result is null exactly when the last parsed tag is empty or `"0"`, and is that tag otherwise (non-empty, no line breaks) |
| SplitGit.GitManager.GetCurrentBranch | packages/Split/src/Git/GitManager.php:53-69 | runs the scoped `git rev-parse` command; the result is null exactly when the trimmed output is empty or `"0"`, and is the trimmed output otherwise |
| SplitGit.GitManager.CompleteRemoteRepositoryWithGithubToken | packages/Split/src/Git/GitManager.php:82-94 | with a null, empty or `"0"` token the remote comes back unchanged; otherwise it is the authenticated URL |
| Package.AnchoredPathIsAnchored | src/Package/PackageComposerJsonMerger.php:194 | `$dir . '/' . ltrim($p, '/')` is the directory, one slash, then the path without its leading slashes |
| Package.RelativizedValue | src/Package/PackageComposerJsonMerger.php:192-198 | a path is re-anchored; an array of paths keeps its length and keys and has each path re-anchored |
| Package.Relativized | src/Package/PackageComposerJsonMerger.php:188-202 | every entry keeps its key and place and has its value re-anchored; the result is again a map of paths |
| Package.RelativizedInner | src/Package/PackageComposerJsonMerger.php:109-118 | one pass re-anchors the one path key when it is set and changes no other key |
| Package.RelativizedAt | src/Package/PackageComposerJsonMerger.php:109-118 | one pass changes only the merge section, keeps which keys are set, and keeps the path keys well typed |
| Package.PreparedFrom | src/Package/PackageComposerJsonMerger.php:109-118 | the remaining passes change only the merge section and keep which keys are set |
| Package.PreparedAutoloadPaths | src/Package/PackageComposerJsonMerger.php:100-121 | preparing one section changes no other section, keeps which keys are set and keeps every section well typed |
| Package.PreparedFromEffect | src/Package/PackageComposerJsonMerger.php:109-118 | the passes from the t-th path key on re-anchor exactly the set path keys among them and leave every other key of the section alone |
| Package.PreparedSectionEffect | src/Package/PackageComposerJsonMerger.php:109-118 | all passes together re-anchor exactly the set path keys of an array section and leave its other keys alone |
| Package.PreparedFromNonArray | src/Package/PackageComposerJsonMerger.php:110-112 | when the section is not an array no pass changes anything |
| Package.PrepareTouchesOnlyPaths | src/Package/PackageComposerJsonMerger.php:100-121 | only `autoload` and `autoload-dev` change, and within them only the set keys among the five path keys, each re-anchored; everything else is unchanged |
| Package.CoalesceCases | src/Package/PackageComposerJsonMerger.php:133 | `$merged[$section] ?? []` is the stored value when it is present and not null, and the empty array otherwise; never null |
| Package.DeduplicatedRepositories | src/Package/PackageComposerJsonMerger.php:139-144 | `repositories` ends with keys 0..n-1, no two equal entries, every distinct input entry, in the order of first occurrence |
| Package.MergedSection | src/Package/PackageComposerJsonMerger.php:128-153 | an array section becomes `recursiveSort(mergeWithCombine(merged[section] ?? [], incoming))` (de-duplicated for `repositories`); any other value overwrites the section; no other section changes; keys stay unique |
| Package.WithoutKeys | src/Package/PackageComposerJsonMerger.php:170-174 | no entry left has a dropped key |
| Package.WithoutKeysGet | src/Package/PackageComposerJsonMerger.php:165-174 | dropping keys leaves exactly the other keys, with their values |
| Package.ArrayIntersect | src/Package/PackageComposerJsonMerger.php:165-168 | a key is duplicated exactly when it is in both key lists |
| Package.FilterStep | src/Package/PackageComposerJsonMerger.php:170-174 | one pass of the loop unsets the next `require-dev` entry exactly when `require` has its key |
| Package.DuplicatedPackages | src/Package/PackageComposerJsonMerger.php:165-171 | an entry of `require-dev` is among the duplicated packages exactly when `require` has its key |
| Package.FilteredDuplicatesEffect | src/Package/PackageComposerJsonMerger.php:159-182 | with either section missing nothing changes; otherwise `require` and all other sections are unchanged, `require-dev` keeps exactly the keys `require` lacks with their values, and is removed when that leaves nothing |
| Package.FilteredDuplicatesKeys | src/Package/PackageComposerJsonMerger.php:159-182 | the filter adds no top-level key and keeps keys unique |
| Package.MergedSections | src/Package/PackageComposerJsonMerger.php:76-88 | merging one manifest keeps the keys of the result unique |
| Package.MergedFiles | src/Package/PackageComposerJsonMerger.php:69-89 | merging the manifests keeps the keys of the result unique |
| Package.PackageNamesAppend | src/Package/PackageComposerJsonMerger.php:69-74 | names are collected manifest by manifest in input order |
| Package.PackageNamesSnoc | src/Package/PackageComposerJsonMerger.php:69-74 | after a manifest the collected names are the earlier ones followed by its name when it sets one |
| Package.MergedSectionsFrame | src/Package/PackageComposerJsonMerger.php:76-88 | a manifest adds only merge sections, and a key it does not set keeps its value in the accumulator |
| Package.MergedFilesFrame | src/Package/PackageComposerJsonMerger.php:65-89 | all manifests together add only merge sections, and a key no manifest sets keeps its value |
| Package.MergedComposerJsonKeys | src/Package/PackageComposerJsonMerger.php:65-92 | the top-level keys of the result are unique merge sections, and a section no manifest sets is absent |
| Package.MergedPackagesCollector.AddPackage | src/Package/PackageComposerJsonMerger.php:73 | the name is appended to the collected names |
| Package.PackageComposerJsonMerger.constructor | src/Package/PackageComposerJsonMerger.php:47-59 | the collaborators, the collector and the merge sections are stored |
| Package.PackageComposerJsonMerger.MergeFileInfos | src/Package/PackageComposerJsonMerger.php:65-92 | the result is the filtered fold of the manifests over the merge sections, and the collector gains, in order, the name of each manifest that sets one |
| Package.PackageComposerJsonMerger.PrepareAutoloadPaths | src/Package/PackageComposerJsonMerger.php:100-121 | a section other than the autoload ones, or one that is not an array, comes back unchanged; otherwise exactly the set path keys are re-anchored and nothing else changes |
| Package.PackageComposerJsonMerger.MergeSection | src/Package/PackageComposerJsonMerger.php:128-153 | an array section becomes the sorted combination (de-duplicated and re-indexed for `repositories`), a scalar overwrites, and no other section changes |
| Package.PackageComposerJsonMerger.FilterOutDuplicatesRequireAndRequireDev | src/Package/PackageComposerJsonMerger.php:159-182 | with either section missing the input comes back; otherwise `require-dev` keeps exactly the keys `require` lacks, is removed when empty, and nothing else changes |
| Package.PackageComposerJsonMerger.RelativizePath | src/Package/PackageComposerJsonMerger.php:188-202 | every entry keeps its key and place; a path becomes `dir/` plus the path without leading slashes, an array of paths is mapped element-wise |

## Left out

- Loading the manifests (`JsonFileManager::loadFromFileInfo`, `SmartFileInfo`) is file I/O. The model takes each decoded manifest together with its directory relative to the working directory. That directory stands for `dirname(getRelativeFilePathFromDirectory(getcwd()))`.
- `getcwd()` in the git queries is an input string. Its failure (`false`) is not modelled.
- `ParametersMerger::mergeWithCombine` and `ArraySorter::recursiveSort` are not part of this model. They are arbitrary functions held by the merger. The model assumes `recursiveSort` receives and returns an array.
- The collector's own storage is not part of this model. It is a sequence of names that `AddPackage` appends to.
- `ProcessRunner::run` is a function from argv to output text. A failing process or an exception is not modelled.
- The JSON value model has no floating-point numbers.
- PHP strings are byte strings; the model's strings are sequences of characters. Every character the model inspects (the blanks `trim` strips, `\n`, `\r`, `@`, `:`, `/`) is ASCII, so the behaviour is the same, but text that is not valid UTF-8 cannot be represented.
- PHP turns a decimal-integer string key into an integer key. The model takes a string key never to be decimal, so keys are not normalised.
- `array_unique` with `SORT_REGULAR` compares loosely in PHP. The model compares values structurally.
- Inputs that raise a PHP `TypeError` under strict types are excluded by preconditions rather than modelled:
  - a path-bearing key that holds something other than an array of paths or of path lists (`PathsTyped`, `IsPathMap`);
  - merged `require` and `require-dev` that are both set but not both arrays (`RequireSectionsAreArrays`).
- `CompleteRemoteRepositoryWithGithubToken` requires an `@` in the remote when the token is non-empty. Without one PHP's destructuring yields null with a warning, and the result is not modelled.
- `Strings::replace` with the pattern `#:#` is modelled as a plain replacement of the character `:`; no other regex behaviour is modelled.
- The model follows the code in these details:
  - the rewritten remote has every `:` after the first `@` replaced, not only the first;
  - no error is raised for a malformed manifest;
  - the collector receives one name per manifest that sets `name`, duplicates included, rather than a set of names;
  - the tag list is never empty, and the most recent tag is null when the last line is empty or `"0"`.
