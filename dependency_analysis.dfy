/**
  The dependency cross-check of `dependency_analysis.py`: which `package:` imports
  the Dart sources make, which declared dependencies none of them imports, which
  imports have no declaration, and the two advisory line classifiers run over
  `pubspec.yaml`. Reading files and parsing YAML are left to the caller: a Dart
  file is the sequence of its lines, the declared dependencies are the keys (and
  printed versions) of the `dependencies` mapping.
*/
module DependencyAnalysis {
  import opened Strings
  import opened StringOrder
  import opened Sequences

  const ImportMarker: string := "import 'package:"
  const OwnPackageMarker: string := "import 'package:marketplace_app"
  const PackageMarker: string := "package:"
  /** The framework's own entry in `dependencies`, never treated as a package to check. */
  const Flutter: string := "flutter"

  /** A line, once stripped, imports a third-party package: a `package:` import outside the app's own namespace. */
  predicate IsPackageImport(line: string) {
    StartsWith(Strip(line), ImportMarker) && !StartsWith(Strip(line), OwnPackageMarker)
  }

  /**
    The package name of a stripped import line:
    `line.split('package:')[1].split('/')[0]` with every `'` and `;` removed.
  */
  function PackageName(line: string): (name: string)
    requires StartsWith(line, ImportMarker)
    ensures '/' !in name && '\'' !in name && ';' !in name
  {
    assert line[8..16] == PackageMarker by {
      assert line[8..16] == line[..|ImportMarker|][8..16];
    }
    ContainsAt(line, PackageMarker, 8);
    var field := Before(AfterFirst(line, PackageMarker), PackageMarker);
    var segment := Before(field, "/");
    ContainsChar(segment, '/');
    var unquoted := Replace(segment, "'", "");
    ReplaceCharRemoves(segment, '\'', "");
    var name := Replace(unquoted, ";", "");
    ReplaceCharRemoves(unquoted, ';', "");
    name
  }

  /** The packages imported by one file's lines (the `import_statements.add` calls for that file). */
  function FilePackages(lines: seq<string>): set<string>
  {
    if lines == [] then {}
    else
      var last := lines[|lines| - 1];
      FilePackages(lines[..|lines| - 1]) + (if IsPackageImport(last) then {PackageName(Strip(last))} else {})
  }

  /** The packages imported by all Dart files: the final `import_statements` set. */
  function ImportedPackages(files: seq<seq<string>>): set<string>
  {
    if files == [] then {}
    else ImportedPackages(files[..|files| - 1]) + FilePackages(files[|files| - 1])
  }

  /** Line `j` of a file is a package import of `p`. */
  ghost predicate ImportsAt(lines: seq<string>, j: int, p: string) {
    0 <= j < |lines| && IsPackageImport(lines[j]) && PackageName(Strip(lines[j])) == p
  }

  /** Every package import line of a file contributes its package. */
  lemma {:induction false} FilePackagesComplete(lines: seq<string>, j: int)
    requires 0 <= j < |lines| && IsPackageImport(lines[j])
    ensures PackageName(Strip(lines[j])) in FilePackages(lines)
    decreases |lines|
  {
    var init := lines[..|lines| - 1];
    var last := lines[|lines| - 1];
    assert FilePackages(init) <= FilePackages(lines);
    if j < |init| {
      assert init[j] == lines[j];
      FilePackagesComplete(init, j);
    } else {
      assert last == lines[j];
    }
  }

  /** A file contributes nothing but the packages its import lines name. */
  lemma {:induction false} FilePackagesSound(lines: seq<string>, p: string)
    requires p in FilePackages(lines)
    ensures exists j :: ImportsAt(lines, j, p)
    decreases |lines|
  {
    var init := lines[..|lines| - 1];
    if p in FilePackages(init) {
      FilePackagesSound(init, p);
      var j :| ImportsAt(init, j, p);
      assert lines[j] == init[j];
      assert ImportsAt(lines, j, p);
    } else {
      assert ImportsAt(lines, |lines| - 1, p);
    }
  }

  /** Every package import line of every file contributes its package to the scan's result. */
  lemma {:induction false} ImportedPackagesComplete(files: seq<seq<string>>, i: int, j: int)
    requires 0 <= i < |files| && 0 <= j < |files[i]| && IsPackageImport(files[i][j])
    ensures PackageName(Strip(files[i][j])) in ImportedPackages(files)
    decreases |files|
  {
    var init := files[..|files| - 1];
    var last := files[|files| - 1];
    assert ImportedPackages(files) == ImportedPackages(init) + FilePackages(last);
    if i < |init| {
      assert init[i] == files[i];
      ImportedPackagesComplete(init, i, j);
    } else {
      assert last == files[i];
      FilePackagesComplete(last, j);
    }
  }

  /** Line `j` of file `i` is a package import of `p`. */
  ghost predicate ImportedAt(files: seq<seq<string>>, i: int, j: int, p: string) {
    0 <= i < |files| && ImportsAt(files[i], j, p)
  }

  /** The scan's result holds nothing but packages that some import line names. */
  lemma {:induction false} ImportedPackagesSound(files: seq<seq<string>>, p: string)
    requires p in ImportedPackages(files)
    ensures exists i, j :: ImportedAt(files, i, j, p)
    decreases |files|
  {
    var init := files[..|files| - 1];
    var last := files[|files| - 1];
    if p in ImportedPackages(init) {
      ImportedPackagesSound(init, p);
      var i, j :| ImportedAt(init, i, j, p);
      assert files[i] == init[i];
      assert ImportedAt(files, i, j, p);
    } else {
      FilePackagesSound(last, p);
      var j :| ImportsAt(last, j, p);
      assert ImportedAt(files, |files| - 1, j, p);
    }
  }

  /** One more line adds its package, if it imports one, to the file's packages. */
  lemma FilePackagesStep(lines: seq<string>, j: int)
    requires 0 <= j < |lines|
    ensures FilePackages(lines[..j + 1]) == FilePackages(lines[..j])
              + (if IsPackageImport(lines[j]) then {PackageName(Strip(lines[j]))} else {})
  {
    assert lines[..j + 1][..j] == lines[..j];
  }

  /** The scan of one Dart file: each stripped line that imports a third-party package adds that package. */
  method AddFileImports(imports: set<string>, lines: seq<string>) returns (updated: set<string>)
    ensures updated == imports + FilePackages(lines)
  {
    updated := imports;
    for j := 0 to |lines|
      invariant updated == imports + FilePackages(lines[..j])
    {
      var line := Strip(lines[j]);
      FilePackagesStep(lines, j);
      if StartsWith(line, ImportMarker) && !StartsWith(line, OwnPackageMarker) {
        updated := updated + {PackageName(line)};
      }
    }
    assert lines[..|lines|] == lines;
  }

  /** The import scan: every line of every Dart file, in order, adding each package it imports. */
  method ScanImports(files: seq<seq<string>>) returns (imports: set<string>)
    ensures imports == ImportedPackages(files)
  {
    imports := {};
    for i := 0 to |files|
      invariant imports == ImportedPackages(files[..i])
    {
      imports := AddFileImports(imports, files[i]);
      assert files[..i + 1][..i] == files[..i];
    }
    assert files[..|files|] == files;
  }

  /** A well-formed import of package `name` is recognised exactly when the name is not the app's own. */
  lemma ImportLineRecognised(name: string, rest: string)
    requires rest == [] || !IsSpace(rest[|rest| - 1])
    ensures IsPackageImport(ImportMarker + name + "/" + rest) <==> !StartsWith(name, "marketplace_app")
  {
    var line := ImportMarker + name + "/" + rest;
    assert line == ImportMarker + (name + "/" + rest);
    StripUnpadded(line);
    assert line == ImportMarker + name + ("/" + rest);
    OwnPackageIff(name, "/" + rest);
  }

  /** The package name extracted from a well-formed import of a clean `name` is `name` itself. */
  lemma ImportLineName(name: string, rest: string)
    requires '/' !in name && '\'' !in name && ';' !in name && !Contains(name, PackageMarker)
    requires rest == [] || !IsSpace(rest[|rest| - 1])
    ensures var line := ImportMarker + name + "/" + rest;
            Strip(line) == line && PackageName(line) == name
  {
    var line := ImportMarker + name + "/" + rest;
    assert line == ImportMarker + (name + "/" + rest);
    StripUnpadded(line);
    ImportTail(line, name + "/" + rest);
    FieldOfImport(name, rest);
    SegmentOfField(name, Before(rest, PackageMarker));
    ContainsChar(name, '\'');
    ContainsChar(name, ';');
  }

  /**
    The same round trip for the line as `for line in f` yields it, newline
    included: a third-party import of a clean `name` is recognised and gives `name`.
  */
  lemma ImportLineRead(name: string, rest: string)
    requires '/' !in name && '\'' !in name && ';' !in name && !Contains(name, PackageMarker)
    requires !StartsWith(name, "marketplace_app")
    requires rest == [] || !IsSpace(rest[|rest| - 1])
    ensures var line := ImportMarker + name + "/" + rest;
            IsPackageImport(line + "\n") && PackageName(Strip(line + "\n")) == name
  {
    var line := ImportMarker + name + "/" + rest;
    assert line[0] == 'i';
    assert line[|line| - 1] == if rest == [] then '/' else rest[|rest| - 1];
    StripNewline(line);
    ImportLineRecognised(name, rest);
    ImportLineName(name, rest);
  }

  /** The own-namespace test fires exactly for names that start with the app's package name. */
  lemma OwnPackageIff(name: string, rest: string)
    requires |rest| > 0 && rest[0] == '/'
    ensures StartsWith(ImportMarker + name + rest, OwnPackageMarker) <==> StartsWith(name, "marketplace_app")
  {
    var line := ImportMarker + name + rest;
    var app := "marketplace_app";
    assert OwnPackageMarker == ImportMarker + app;
    if |name| >= 15 {
      assert line[..|OwnPackageMarker|] == ImportMarker + name[..15];
      if name[..15] != app {
        var i :| 0 <= i < 15 && name[i] != app[i];
        assert line[16 + i] == name[i];
        Mismatch(line, OwnPackageMarker, 16 + i);
      }
    } else {
      assert line[16 + |name|] == '/';
      assert '/' !in OwnPackageMarker;
      Mismatch(line, OwnPackageMarker, 16 + |name|);
    }
  }

  /** The first `package:` of an import line is the one in its `import 'package:` prefix. */
  lemma ImportTail(line: string, tail: string)
    requires line == ImportMarker + tail
    ensures Contains(line, PackageMarker) && AfterFirst(line, PackageMarker) == tail
  {
    assert line[8..] == PackageMarker + tail;
    assert StartsWith(line[8..], PackageMarker);
    forall j | 0 <= j < 8
      ensures !StartsWith(line[j..], PackageMarker)
    {
      if j == 2 {
        Mismatch(line[j..], PackageMarker, 1);
      } else {
        Mismatch(line[j..], PackageMarker, 0);
      }
    }
    AfterFirstSkip(line, PackageMarker, 8);
  }

  /** The field after the marker ends at the next `package:`, which cannot start inside a clean name or at its `/`. */
  lemma FieldOfImport(name: string, rest: string)
    requires !Contains(name, PackageMarker)
    ensures Before(name + "/" + rest, PackageMarker) == name + "/" + Before(rest, PackageMarker)
  {
    var s := name + "/" + rest;
    ContainsIffOccurs(name, PackageMarker);
    forall k | 0 <= k < |name + "/"|
      ensures !StartsWith(s[k..], PackageMarker)
    {
      NoMarkerAt(name, rest, k);
    }
    BeforeAppend(name + "/", rest, PackageMarker);
  }

  lemma NoMarkerAt(name: string, rest: string, k: nat)
    requires forall i :: !OccursAt(name, PackageMarker, i)
    requires k <= |name|
    ensures !StartsWith((name + "/" + rest)[k..], PackageMarker)
  {
    var s := name + "/" + rest;
    if k + 8 <= |name| {
      assert !OccursAt(name, PackageMarker, k);
      assert s[k..k + 8] == name[k..k + 8];
      assert s[k..][..8] == s[k..k + 8];
    } else if k + 8 <= |s| {
      assert s[k..][|name| - k] == '/';
      assert '/' !in PackageMarker;
      Mismatch(s[k..], PackageMarker, |name| - k);
    }
  }

  /** `split('/')[0]` of a field stops at the `/` that ends the name. */
  lemma SegmentOfField(name: string, x: string)
    requires '/' !in name
    ensures Before(name + "/" + x, "/") == name
  {
    var s := name + "/" + x;
    assert s == name + ("/" + x);
    forall k | 0 <= k < |name|
      ensures !StartsWith(s[k..], "/")
    {
      Mismatch(s[k..], "/", 0);
    }
    BeforeAppend(name, "/" + x, "/");
  }

  /** The two reports of the cross-check: declared but never imported, and imported but not declared. */
  datatype CrossCheck = CrossCheck(unused: set<string>, missing: set<string>)

  /**
    The declared set (the `dependencies` keys with `flutter` discarded) compared with
    the imported set by exact set difference, in both directions.
  */
  function CrossCheckDependencies(keys: set<string>, imported: set<string>): (r: CrossCheck)
    ensures forall d :: d in r.unused <==> d in keys && d != Flutter && d !in imported
    ensures forall d :: d in r.missing <==> d in imported && (d !in keys || d == Flutter)
    ensures Flutter !in r.unused && (Flutter in imported ==> Flutter in r.missing)
    ensures r.unused !! r.missing
    ensures keys - {Flutter} == r.unused + (keys - {Flutter}) * imported
  {
    var declared := keys - {Flutter};
    CrossCheck(declared - imported, imported - declared)
  }

  /**
    `find_unused_dependencies`: scan the imports, discard `flutter` from the declared
    keys, and list both differences in sorted order: exactly the two sets
    `CrossCheckDependencies` computes from the imported packages.
  */
  method FindUnusedDependencies(files: seq<seq<string>>, keys: set<string>)
    returns (unused: seq<string>, missing: seq<string>)
    ensures StrictlySorted(unused) && StrictlySorted(missing)
    ensures forall d :: d in unused <==> d in keys && d != Flutter && d !in ImportedPackages(files)
    ensures forall d :: d in missing <==> d in ImportedPackages(files) && (d !in keys || d == Flutter)
    ensures var c := CrossCheckDependencies(keys, ImportedPackages(files));
            forall d :: (d in unused <==> d in c.unused) && (d in missing <==> d in c.missing)
  {
    var imports := ScanImports(files);
    var dependencies := keys;
    dependencies := dependencies - {Flutter};
    unused := SortedList(dependencies - imports);
    missing := SortedList(imports - dependencies);
  }

  /** The advisory table of packages known to be heavy, with the note printed beside each. */
  const HeavyDeps: map<string, string> := map[
    "google_maps_flutter" := "Heavy mapping - consider alternatives like map_launcher",
    "firebase_messaging" := "Check if all Firebase features are needed",
    "webview_flutter" := "Large WebView implementation",
    "image_picker" := "Consider file_picker if only file selection needed",
    "geolocator" := "Heavy location package",
    "permission_handler" := "Large permission management"
  ]

  /** The size marker printed before a dependency: the plain package mark or the warning mark. */
  datatype SizeImpact = Regular | Heavy

  /** One line of the dependency listing: name, version text, marker and note. */
  datatype Annotation = Annotation(name: string, version: string, impact: SizeImpact, notes: string)

  /** The listing line for one declared dependency other than `flutter`. */
  function Annotate(name: string, version: string): (a: Annotation)
    ensures a.name == name && a.version == version
    ensures a.impact == Heavy <==> name in HeavyDeps
    ensures a.notes != [] <==> name in HeavyDeps
    ensures name in HeavyDeps ==> EndsWith(a.notes, HeavyDeps[name])
  {
    if name in HeavyDeps then Annotation(name, version, Heavy, " - " + HeavyDeps[name])
    else Annotation(name, version, Regular, "")
  }

  /** The listing of all declared dependencies, in mapping order, with `flutter` skipped. */
  function Annotations(deps: seq<(string, string)>): (r: seq<Annotation>)
    ensures |r| <= |deps|
    ensures forall a :: a in r ==> a.name != Flutter && (a.name, a.version) in deps && a == Annotate(a.name, a.version)
    ensures forall d :: d in deps && d.0 != Flutter ==> Annotate(d.0, d.1) in r
  {
    if deps == [] then []
    else
      var init := deps[..|deps| - 1];
      var (name, version) := deps[|deps| - 1];
      var rest := Annotations(init);
      assert forall d :: d in init ==> d in deps;
      if name == Flutter then rest else rest + [Annotate(name, version)]
  }

  /** The (name, version) pair each listing line shows. */
  function Shown(lines: seq<Annotation>): (r: seq<(string, string)>)
    ensures |r| == |lines|
    ensures forall k :: 0 <= k < |lines| ==> r[k] == (lines[k].name, lines[k].version)
  {
    seq(|lines|, k requires 0 <= k < |lines| => (lines[k].name, lines[k].version))
  }

  /** Every dependency other than `flutter` is listed as many times as the mapping holds it, `flutter` never. */
  lemma {:induction false} AnnotationsCounts(deps: seq<(string, string)>)
    ensures forall n, v :: multiset(Annotations(deps))[Annotate(n, v)]
                           == if n == Flutter then 0 else multiset(deps)[(n, v)]
    decreases |deps|
  {
    if deps != [] {
      var init := deps[..|deps| - 1];
      var d := deps[|deps| - 1];
      AnnotationsCounts(init);
      assert deps == init + [d];
      assert multiset(deps) == multiset(init) + multiset{d};
    }
  }

  /** The listing follows mapping order: the pairs it shows are a subsequence of the mapping. */
  lemma {:induction false} AnnotationsInOrder(deps: seq<(string, string)>)
    ensures IsSubsequence(Shown(Annotations(deps)), deps)
    decreases |deps|
  {
    if deps != [] {
      var init := deps[..|deps| - 1];
      var d := deps[|deps| - 1];
      var rest := Annotations(init);
      AnnotationsInOrder(init);
      if d.0 != Flutter {
        var r := Shown(rest + [Annotate(d.0, d.1)]);
        assert r[..|r| - 1] == Shown(rest);
        assert r[|r| - 1] == d;
      }
    }
  }

  /** The listing loop of `analyze_dependencies`. */
  method AnnotateDependencies(deps: seq<(string, string)>) returns (lines: seq<Annotation>)
    ensures lines == Annotations(deps)
  {
    lines := [];
    for i := 0 to |deps|
      invariant lines == Annotations(deps[..i])
    {
      var (name, version) := deps[i];
      assert deps[..i + 1][..i] == deps[..i];
      if name == Flutter {
        continue;
      }
      lines := lines + [Annotate(name, version)];
    }
    assert deps[..|deps|] == deps;
  }

  /** A `pubspec.yaml` line that comments out one of the two known optional dependencies. */
  predicate IsCommentedDependency(line: string) {
    StartsWith(Strip(line), "#") && (Contains(line, "google_maps") || Contains(line, "webview_universal"))
  }

  /** A reported commented line: its 1-based number and its stripped text. */
  datatype CommentedLine = CommentedLine(number: nat, text: string)

  /** `c` reports a flagged line of the file under its 1-based number, with its stripped text. */
  ghost predicate Reports(lines: seq<string>, c: CommentedLine) {
    1 <= c.number <= |lines| &&
    IsCommentedDependency(lines[c.number - 1]) &&
    c.text == Strip(lines[c.number - 1])
  }

  /** Reporting line `i + 1` after lines numbered at most `i` keeps the numbers strictly increasing. */
  lemma NumbersIncrease(found: seq<CommentedLine>, c: CommentedLine, i: int)
    requires forall k, l :: 0 <= k < l < |found| ==> found[k].number < found[l].number
    requires forall k :: 0 <= k < |found| ==> found[k].number <= i < c.number
    ensures forall k, l :: 0 <= k < l < |found + [c]| ==> (found + [c])[k].number < (found + [c])[l].number
  {
  }

  /** The commented-dependency report of `analyze_dependencies`: every flagged line, in file order. */
  method FindCommentedDependencies(lines: seq<string>) returns (found: seq<CommentedLine>)
    ensures forall c :: c in found ==> Reports(lines, c)
    ensures forall i :: 0 <= i < |lines| && IsCommentedDependency(lines[i]) ==>
              CommentedLine(i + 1, Strip(lines[i])) in found
    ensures forall k, l :: 0 <= k < l < |found| ==> found[k].number < found[l].number
  {
    found := [];
    for i := 0 to |lines|
      invariant forall c :: c in found ==> Reports(lines, c) && c.number <= i
      invariant forall i' :: 0 <= i' < i && IsCommentedDependency(lines[i']) ==>
                  CommentedLine(i' + 1, Strip(lines[i'])) in found
      invariant forall k, l :: 0 <= k < l < |found| ==> found[k].number < found[l].number
    {
      if IsCommentedDependency(lines[i]) {
        var c := CommentedLine(i + 1, Strip(lines[i]));
        assert Reports(lines, c);
        NumbersIncrease(found, c, i);
        found := found + [c];
      }
    }
  }
}
