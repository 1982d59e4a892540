# Asset and dependency maintenance scripts, modelled in Dafny

This project models the decision logic of the Flutter marketplace app's two
maintenance scripts:

- `dependency_analysis.py` does three things:
  - it recognises the `import 'package:…'` lines of the Dart sources and extracts each line's package name;
  - it compares the imported packages with the keys of `dependencies` in `pubspec.yaml`, excluding `flutter`, and reports two sorted differences: unused declarations and undeclared imports;
  - it marks heavy dependencies and flags commented-out dependency lines.
- `asset_optimization_script.py` does two things:
  - it reports assets whose base name and normalised path appear in neither the joined Dart sources nor `lib/const/resource.dart`;
  - it re-encodes WebP images in place, tries a WebP sibling for each PNG, and adds up the image sizes before and after.

The modules are:

- `Strings` holds the Python `str` operations the scripts use, over `seq<char>`:
  - `startswith`;
  - substring `in`;
  - `split(sep)[0]` and `split(sep)[1]`;
  - `replace`;
  - `strip`, with Python's full whitespace set.
- `StringOrder` holds Python's ordering on `str` and `sorted` of a set.
- `AssetNames` holds `.DS_Store`, which both asset passes skip.
- `Sequences` holds the subsequence relation that states "in the order of the input" for the listings.
- `DependencyAnalysis`, `UnusedAssets` and `ImageOptimization` follow the scripts' functions.

The loops of the scripts are methods whose loops build the same lists, sets,
texts and totals. Most of these methods are proved equal to a recursive
specification function, and the properties are proved about those functions.
The exceptions are stated directly as contracts:

- `FindUnusedDependencies` is specified by the two set differences of `CrossCheckDependencies`, together with sortedness.
- `SortedList` and `Minimum` are specified by the order and by set membership.
- `FindCommentedDependencies` is specified line by line through `Reports`.

The callers supply everything the scripts obtain by I/O:

- a Dart file is the sequence of its lines, or its whole text;
- the declared dependencies are a set of keys, and the listing is a sequence of name/version pairs;
- an asset walk is a sequence of entries;
- the file system is a map from path to size;
- the `cwebp` encoder is a map from input path to the size of the file it writes, where a missing entry means the tool failed or is absent.

Four behaviours the models make explicit:

- The Dart files are joined with no separator, so an asset name split across two files still counts as a reference (`UnusedAssets.StraddlingReferenceCounts`).
- `split('package:')[1].split('/')[0]` ends the package name at the next `package:` as well as at the next `/`. `PackageName` follows that exactly.
- Converting `x.png` writes `x.webp` over any file already there. When the result is not below 80 % of the PNG, the script deletes it, so a pre-existing `x.webp` is lost too (`ImageOptimization.ConvertToWebp`).
- The `0.8` factor is compared exactly, as `5 * webp < 4 * png`.

## Model

| member | source | states |
|---|---|---|
| Strings.StartsWith | dependency_analysis.py:67-68 | `str.startswith`: the text's first characters are the prefix; the import tests of `IsPackageImport`, the comment test of `IsCommentedDependency` and the `marketplace_app` test pinned by `OwnPackageIff` use it |
| Strings.Contains | asset_optimization_script.py:109-112 | `p in s` as a scan from the left; `ContainsIffOccurs` proves it holds exactly when `p` occurs at some offset |
| Strings.ContainsAt | asset_optimization_script.py:109-112 | an occurrence of the pattern at any offset makes the left-to-right scan for `in` succeed |
| Strings.ContainsOccurs | asset_optimization_script.py:109-112 | a successful `in` scan has an offset where the pattern occurs |
| Strings.ContainsIffOccurs | asset_optimization_script.py:109-112 | `p in s` holds exactly when `p` occurs at some offset of `s` |
| Strings.ContainsChar | dependency_analysis.py:70 | a one-character substring test is membership of that character |
| Strings.ContainsConcat | asset_optimization_script.py:88-94 | a substring of either part is a substring of the concatenation |
| Strings.Before | dependency_analysis.py:70 | `split(sep)[0]` is a prefix of the text, holds no `sep`, and is the whole text or is followed by `sep` |
| Strings.AfterFirst | dependency_analysis.py:70 | the text is its part before the first `sep`, then `sep`, then the result; this is the start of `split(sep)[1]` |
| Strings.Replace | dependency_analysis.py:70 | `replace` leaves a text without the pattern unchanged |
| Strings.ReplaceCharPointwise | asset_optimization_script.py:106 | replacing one character by another keeps the length and rewrites exactly the positions that held it |
| Strings.ReplaceCharRemoves | dependency_analysis.py:70 | removing a character leaves none of it, and brings in nothing new; `ReplaceCharAppend` adds that the other characters keep their order |
| Strings.ReplaceCharAppend | dependency_analysis.py:70 | removing `'` or `;` from `a + b` gives the result on `a` followed by the result on `b`, so the other characters keep their order |
| Strings.ReplaceAppend | asset_optimization_script.py:53 | with no occurrence straddling the seam, replacing in `a + b` is replacing in `a` and in `b` |
| Strings.TrimStart | dependency_analysis.py:67 | `lstrip()`, dropping leading characters of Python's `isspace` set; `TrimStartSpec` states what it keeps |
| Strings.TrimStartSpec | dependency_analysis.py:67 | left trimming keeps a suffix that starts with a non-space, and drops only whitespace |
| Strings.TrimEnd | dependency_analysis.py:67 | `rstrip()`, dropping trailing characters of Python's `isspace` set; `TrimEndSpec` states what it keeps |
| Strings.TrimEndSpec | dependency_analysis.py:67 | right trimming keeps a prefix that ends with a non-space, and drops only whitespace |
| Strings.Strip | dependency_analysis.py:67 | `strip()` as left then right trimming; `StripSpec` states what it returns |
| Strings.StripSpec | dependency_analysis.py:67 | the stripped line is the piece of the line left after dropping whitespace at both ends: only whitespace precedes and follows it, and it neither starts nor ends with whitespace |
| Strings.StripNewline | dependency_analysis.py:66-67 | a line read with its trailing newline strips back to the unpadded line |
| Strings.StripUnpadded | dependency_analysis.py:67 | `strip` leaves unchanged a text that neither starts nor ends with whitespace |
| StringOrder.Less | dependency_analysis.py:87 | Python's `<` on `str`; the three lemmas below prove it is a strict total order |
| StringOrder.LessIrreflexive | dependency_analysis.py:87 | no string sorts before itself |
| StringOrder.LessTransitive | dependency_analysis.py:87 | the `str` order is transitive |
| StringOrder.LessTotal | dependency_analysis.py:87 | two different strings are ordered one way or the other |
| StringOrder.Minimum | dependency_analysis.py:87 | finds an element of a non-empty set smaller than every other element |
| StringOrder.SortedList | dependency_analysis.py:87-97 | `sorted(set)`: strictly ascending, and holding exactly the set's elements |
| DependencyAnalysis.IsPackageImport | dependency_analysis.py:67-68 | the stripped line starts with `import 'package:` but not with the app's own namespace; `ImportLineRecognised` and `OwnPackageIff` prove which names pass |
| DependencyAnalysis.PackageName | dependency_analysis.py:70 | the extracted package name contains no `/`, `'` or `;` |
| DependencyAnalysis.ImportLineRecognised | dependency_analysis.py:67-68 | a well-formed import of `name` counts exactly when `name` does not start with `marketplace_app` |
| DependencyAnalysis.ImportLineName | dependency_analysis.py:67-70 | a well-formed import of a clean name survives `strip` and yields that name back |
| DependencyAnalysis.ImportLineRead | dependency_analysis.py:66-70 | a third-party import of a clean name, as the file loop yields it with its newline, is recognised and yields that name |
| DependencyAnalysis.OwnPackageIff | dependency_analysis.py:68 | the own-namespace prefix test fires exactly for names that start with `marketplace_app` |
| DependencyAnalysis.FilePackages | dependency_analysis.py:65-71 | the packages one file adds; `FilePackagesComplete` and `FilePackagesSound` prove it is exactly the names of its import lines |
| DependencyAnalysis.ImportedPackages | dependency_analysis.py:61-71 | the final `import_statements`; `ImportedPackagesComplete` and `ImportedPackagesSound` prove it is exactly the names of all import lines |
| DependencyAnalysis.FilePackagesComplete | dependency_analysis.py:66-71 | every package import line of a file adds its package |
| DependencyAnalysis.FilePackagesSound | dependency_analysis.py:66-71 | a file adds only packages that one of its import lines names |
| DependencyAnalysis.ImportedPackagesComplete | dependency_analysis.py:61-71 | every import line of every file puts its package in `import_statements` |
| DependencyAnalysis.ImportedPackagesSound | dependency_analysis.py:61-71 | `import_statements` holds only packages that some import line names |
| DependencyAnalysis.AddFileImports | dependency_analysis.py:65-71 | scanning one file's lines adds exactly that file's imported packages to the set |
| DependencyAnalysis.ScanImports | dependency_analysis.py:61-71 | the scan over all files yields exactly the imported packages |
| DependencyAnalysis.CrossCheckDependencies | dependency_analysis.py:79-94 | `unused` is exactly the declared, non-`flutter`, non-imported names; `missing` is exactly the imported names not declared, `flutter` included; `flutter` is never unused and is always missing when imported; the two sets are disjoint; declared minus `flutter` equals unused plus declared-and-imported |
| DependencyAnalysis.FindUnusedDependencies | dependency_analysis.py:61-98 | both reported lists are strictly sorted and hold exactly the unused, or the missing, names of the scanned files, which are the two sets `CrossCheckDependencies` computes from the imported packages |
| DependencyAnalysis.Annotate | dependency_analysis.py:35-40 | a dependency is marked heavy, and gets a non-empty note ending with the table's text, exactly when it is a key of the heavy-dependency table |
| DependencyAnalysis.Annotations | dependency_analysis.py:31-40 | the listing never includes `flutter`; every non-`flutter` dependency is listed with its own annotation, and nothing else is |
| DependencyAnalysis.AnnotationsCounts | dependency_analysis.py:31-42 | each dependency other than `flutter` is listed as many times as the mapping holds it, `flutter` never |
| DependencyAnalysis.AnnotationsInOrder | dependency_analysis.py:31-42 | the (name, version) pairs of the listing are a subsequence of the mapping, so the listing keeps mapping order |
| DependencyAnalysis.AnnotateDependencies | dependency_analysis.py:31-42 | the listing loop produces the listing, in mapping order |
| DependencyAnalysis.IsCommentedDependency | dependency_analysis.py:50 | the stripped line starts with `#` and the raw line contains `google_maps` or `webview_universal`; `FindCommentedDependencies` reports exactly these lines |
| DependencyAnalysis.FindCommentedDependencies | dependency_analysis.py:49-51 | every reported line is a flagged line, reported under its 1-based number with its stripped text; every flagged line is reported; numbers strictly increase |
| UnusedAssets.AssetCandidates | asset_optimization_script.py:82-85 | the candidates are exactly the regular files not named `.DS_Store` |
| UnusedAssets.AssetCandidatesCounts | asset_optimization_script.py:82-85 | each regular file other than `.DS_Store` becomes a candidate as many times as the walk lists it, anything else never |
| UnusedAssets.AssetCandidatesInOrder | asset_optimization_script.py:82-85 | the candidates, as the files they came from, are a subsequence of the walk, so they keep walk order |
| UnusedAssets.CollectAssetFiles | asset_optimization_script.py:82-85 | the first walk builds the candidate list in walk order |
| UnusedAssets.JoinDartSources | asset_optimization_script.py:88-94 | the second walk builds the joined Dart text |
| UnusedAssets.Concat | asset_optimization_script.py:88-94 | `dart_content`, the texts joined with no separator; `ConcatContainsEachFile` and `StraddlingReferenceCounts` prove what it mentions |
| UnusedAssets.ResourceText | asset_optimization_script.py:97-101 | `resource_content`, empty when the file does not exist; `MissingResourceIsEmpty` proves the consequence for the verdict |
| UnusedAssets.ConcatContainsEachFile | asset_optimization_script.py:88-94 | whatever one Dart file mentions, the joined text mentions |
| UnusedAssets.NormalizedPath | asset_optimization_script.py:106 | the normalised path has the same length, has `/` wherever the path has a backslash, and agrees with the path at every other position |
| UnusedAssets.IsUnused | asset_optimization_script.py:109-112 | the four negated substring tests; `UnusedIffNoOccurrence` restates them as "occurs at no offset" |
| UnusedAssets.FindUnused | asset_optimization_script.py:103-113 | a candidate is reported exactly when none of the four substring tests finds it; the report keeps candidate order; no candidates gives no report |
| UnusedAssets.FindUnusedCounts | asset_optimization_script.py:103-113 | an unused candidate is reported as many times as it is listed, any other candidate never |
| UnusedAssets.FindUnusedAssets | asset_optimization_script.py:82-113 | the whole scan reports the unused candidates of the walk against the joined Dart text and the resource text |
| UnusedAssets.UnusedIffNoOccurrence | asset_optimization_script.py:109-113 | reported exactly when neither the name nor the normalised path occurs at any offset of either text |
| UnusedAssets.FindUnusedIdempotent | asset_optimization_script.py:103-113 | filtering the report again changes nothing |
| UnusedAssets.MoreCodeFewerUnused | asset_optimization_script.py:88-110 | more Dart text can only remove assets from the report |
| UnusedAssets.AnotherDartFileOnlyShrinks | asset_optimization_script.py:88-94 | adding a Dart file can only remove assets from the report |
| UnusedAssets.MissingResourceIsEmpty | asset_optimization_script.py:97-101 | a missing resource file gives the same verdict as an empty one, and then only the Dart text decides |
| UnusedAssets.EmptyProbeAlwaysReferenced | asset_optimization_script.py:109-112 | an asset with an empty name or path is never reported |
| UnusedAssets.NamedAssetNotReported | asset_optimization_script.py:109-113 | an asset whose name the Dart text contains is not reported, whatever the other candidates |
| UnusedAssets.LoneNamedAssetNotReported | asset_optimization_script.py:109-113 | a lone candidate whose name the Dart text contains gives an empty report |
| UnusedAssets.StraddlingReferenceCounts | asset_optimization_script.py:88-109 | a name split across two Dart files, and found in neither alone, still counts as referenced |
| ImageOptimization.Recompress | asset_optimization_script.py:30-49 | the temporary file is gone afterwards; the image never grows; it shrinks exactly when the re-encoding is strictly smaller, and then takes the re-encoding's size; no other file changes |
| ImageOptimization.ConvertToWebp | asset_optimization_script.py:52-65 | after a successful encoding the `.webp` exists exactly when `5 * webp < 4 * png`, with the encoder's size; a failing encoder changes nothing; only the `.webp` path changes |
| ImageOptimization.Visit | asset_optimization_script.py:29-65 | a visit never makes the visited image larger |
| ImageOptimization.VisitImage | asset_optimization_script.py:29-65 | the loop body's file operations have the effect of `Visit` |
| ImageOptimization.Step | asset_optimization_script.py:20-68 | one iteration of the loop; `StepSpec` states its effect |
| ImageOptimization.StepSpec | asset_optimization_script.py:20-68 | `.DS_Store` is skipped with nothing changed; a missing image aborts with its path; otherwise the before total grows by the image's size before its visit, the after total by its size after it, and the after total by no more than the before total |
| ImageOptimization.Run | asset_optimization_script.py:17-68 | the loop over the images in order, from totals of zero; `OptimizeImages` is proved equal to it, and `TotalsNeverGrow`, `IndependentRun` and `SourceOrderRun` state its results |
| ImageOptimization.OptimizeImages | asset_optimization_script.py:17-68 | the loop's file system and accumulators are those of `Run` |
| ImageOptimization.RunErrPersists | asset_optimization_script.py:24-67 | an unreadable image ends the whole run with its path |
| ImageOptimization.TotalsNeverGrow | asset_optimization_script.py:17-68 | the after total never exceeds the before total |
| ImageOptimization.Saved | asset_optimization_script.py:71-72 | the saving exists exactly when the before total exceeds the after total; it is positive and makes up the difference |
| ImageOptimization.TempPath | asset_optimization_script.py:31 | the path with `_temp` appended; `TempNotMatched` proves no image pattern matches it |
| ImageOptimization.WebpPath | asset_optimization_script.py:53 | `replace('.png', '.webp')` on the path; `WebpPathOfPng`, `PngWebpPathDiffers` and `PngSibling` prove where it points |
| ImageOptimization.WebpPathOfPng | asset_optimization_script.py:53 | the WebP name of `x.png` is the WebP name of `x` followed by `.webp` |
| ImageOptimization.PngWebpPathDiffers | asset_optimization_script.py:53 | converting a PNG never writes over the PNG itself |
| ImageOptimization.VisitSize | asset_optimization_script.py:29-68 | after its own visit, an image has its re-encoded size when it shrinks and its old size otherwise; only its own path changes, plus its temporary file for a WebP or its sibling `.webp` for a PNG |
| ImageOptimization.IndependentRun | asset_optimization_script.py:17-68 | when no visit touches a later image and every image other than `.DS_Store` is on disk, with a `.png` suffix only on a path ending in `.png`, the run never aborts; `total_before` is the sum of the initial sizes of the non-`.DS_Store` images; `total_after` counts each shrinking WebP at its re-encoded size; nothing outside the images' footprint changes: their paths, each WebP's `_temp` file and each PNG's sibling `.webp` |
| ImageOptimization.ExpectedSavings | asset_optimization_script.py:67-72 | the expected after total is at most the before total, and strictly below it exactly when some WebP image shrinks |
| ImageOptimization.SavedIffSomeWebpShrinks | asset_optimization_script.py:67-72 | on such a run, the "Saved" line appears exactly when some WebP image re-encodes strictly smaller |
| ImageOptimization.TempNotMatched | asset_optimization_script.py:31 | a temporary file, ending in `_temp`, matches none of `*.webp`, `*.png`, `*.jpg`, `*.jpeg` |
| ImageOptimization.PngSibling | asset_optimization_script.py:53 | the sibling of a `.png` path ends in `.webp`, and the `.png` path does not |
| ImageOptimization.Matched | asset_optimization_script.py:14 | a path ends in one of the four patterns `.webp`, `.png`, `.jpg`, `.jpeg`; `TempNotMatched` proves a temporary file never matches, and `SourceOrder` requires every listed path to match |
| ImageOptimization.SourceOrder | asset_optimization_script.py:13-15 | what the list built by the four globs guarantees: every path matched, a `.png` suffix with a `.png` ending, every `.webp` match before every other image, no path twice; `SourceOrderIndependent` and `SourceOrderRun` prove its consequences |
| ImageOptimization.SourceOrderIndependent | asset_optimization_script.py:13-68 | in the order the globs build, all `.webp` images first and no path twice, no visit touches a later image |
| ImageOptimization.SourceOrderRun | asset_optimization_script.py:13-72 | in that order, with every image present, the run never aborts, the totals are the initial and the expected sums, and "Saved" appears exactly when some WebP shrinks |

## Left out

- Reading files, walking directories with `rglob`, `stat`, and parsing `pubspec.yaml` with `yaml.safe_load` are not modelled. Their results are inputs: line sequences, texts, entry sequences, a key set, a size map.
- The `cwebp` subprocess is not modelled. Only the size of the file it writes is an input, and a failing run is an absent entry. On failure, the model assumes a PNG conversion leaves no partial `.webp` behind.
- `Path.suffix` and the name/path relation of a walk entry are not derived. The suffix is given with each image, and the totals lemmas require that a `.png` suffix means the path ends in `.png`.
- `rglob` itself is not modelled, so the image list is an input in any order. `SourceOrder` states what the four globs in turn guarantee, and `SourceOrderRun` proves the totals for that order.
- The bare `except: continue` around reading a Dart file is not modelled as an exception:
  - In `find_unused_dependencies` a file whose reading fails partway has already added the imports of the lines before the failure. The caller passes that prefix of its lines, and a file unreadable from the start passes no lines.
  - In `find_unused_assets` the whole text is read before it is appended, so an unreadable file is left out of the list.
- The size total of the unused assets, KB formatting (`/ 1024`, `.1f`) and all `print` output are presentation only.
- The suggestion and command tables are static text.
- `remove_ds_store_files` is file deletion, which is I/O.
- The `0.8` factor is read as the exact rational 4/5. Floating-point rounding of `before_size * 0.8` is not modelled.
- Python integers are unbounded, and so are the model's; no width is involved.
- ImageOptimization.IndependentRun: proves the before total equals the sum of the initial sizes only when no visit touches a later image. The lemma accepts the images in any order, and in an arbitrary order a PNG's conversion can overwrite a `.webp` image listed after it. In the order the script builds, every `.webp` comes first, so this cannot happen (`SourceOrderIndependent`). In any order, each step adds the size at the moment the image is read, as `StepSpec` states.
