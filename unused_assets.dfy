/**
  The unused-asset scan of `asset_optimization_script.py` (`find_unused_assets`):
  an asset is reported when neither its base name nor its slash-normalised path
  occurs, as a substring, in the concatenated Dart sources under `lib` or in
  `lib/const/resource.dart`. Walking the directories and reading the files are
  left to the caller, which passes the walk's entries and the files' texts.
*/
module UnusedAssets {
  import opened Wrappers
  import opened Strings
  import opened AssetNames
  import opened Sequences

  /** One result of walking `assets` recursively: base name, path as the OS spells it, whether it is a regular file. */
  datatype Entry = Entry(name: string, path: string, isFile: bool)

  /** An asset candidate: its base name and its path. */
  datatype Asset = Asset(name: string, path: string)

  /** The candidate list: every regular file found under `assets` except `.DS_Store`, in walk order. */
  function AssetCandidates(entries: seq<Entry>): (r: seq<Asset>)
    ensures |r| <= |entries|
    ensures forall a :: a in r ==> a.name != DsStore
    ensures forall a :: a in r <==> exists e :: e in entries && e.isFile && e.name != DsStore && a == Asset(e.name, e.path)
  {
    if entries == [] then []
    else
      var init := entries[..|entries| - 1];
      var e := entries[|entries| - 1];
      var rest := AssetCandidates(init);
      assert forall x :: x in init ==> x in entries;
      assert forall x :: x in entries ==> x in init || x == e;
      if e.isFile && e.name != DsStore then rest + [Asset(e.name, e.path)] else rest
  }

  /** The walk entries the candidates came from: each asset as the regular file it was found as. */
  function AsFiles(assets: seq<Asset>): (r: seq<Entry>)
    ensures |r| == |assets|
    ensures forall k :: 0 <= k < |assets| ==> r[k] == Entry(assets[k].name, assets[k].path, true)
  {
    seq(|assets|, k requires 0 <= k < |assets| => Entry(assets[k].name, assets[k].path, true))
  }

  /** Each regular file other than `.DS_Store` becomes a candidate as many times as the walk lists it, nothing else ever. */
  lemma {:induction false} AssetCandidatesCounts(entries: seq<Entry>)
    ensures forall a :: multiset(AssetCandidates(entries))[a]
                        == if a.name != DsStore then multiset(entries)[Entry(a.name, a.path, true)] else 0
    decreases |entries|
  {
    if entries != [] {
      var init := entries[..|entries| - 1];
      var e := entries[|entries| - 1];
      AssetCandidatesCounts(init);
      assert entries == init + [e];
      assert multiset(entries) == multiset(init) + multiset{e};
    }
  }

  /** The candidates come in walk order: as files, they are a subsequence of the walk. */
  lemma {:induction false} AssetCandidatesInOrder(entries: seq<Entry>)
    ensures IsSubsequence(AsFiles(AssetCandidates(entries)), entries)
    decreases |entries|
  {
    if entries != [] {
      var init := entries[..|entries| - 1];
      var e := entries[|entries| - 1];
      var rest := AssetCandidates(init);
      AssetCandidatesInOrder(init);
      if e.isFile && e.name != DsStore {
        var r := AsFiles(rest + [Asset(e.name, e.path)]);
        assert r[..|r| - 1] == AsFiles(rest);
        assert r[|r| - 1] == e;
      }
    }
  }

  /** `dart_content`: the Dart files' texts joined with no separator, in walk order. */
  function Concat(files: seq<string>): string
  {
    if files == [] then [] else Concat(files[..|files| - 1]) + files[|files| - 1]
  }

  /** Whatever one Dart file mentions, the joined text mentions. */
  lemma {:induction false} ConcatContainsEachFile(files: seq<string>, i: int, p: string)
    requires 0 <= i < |files| && Contains(files[i], p)
    ensures Contains(Concat(files), p)
    decreases |files|
  {
    var init := files[..|files| - 1];
    if i < |init| {
      assert init[i] == files[i];
      ConcatContainsEachFile(init, i, p);
    }
    ContainsConcat(Concat(init), files[|files| - 1], p);
  }

  /** `resource_content`: the text of `lib/const/resource.dart`, or nothing when the file does not exist. */
  function ResourceText(file: Option<string>): string
  {
    match file
    case Some(text) => text
    case None => ""
  }

  /** `str(path).replace('\\', '/')`: the path with every backslash turned into a slash and nothing else changed. */
  function NormalizedPath(path: string): (r: string)
    ensures |r| == |path| && '\\' !in r
    ensures forall k :: 0 <= k < |path| ==> r[k] == (if path[k] == '\\' then '/' else path[k])
  {
    ReplaceCharPointwise(path, '\\', '/');
    Replace(path, "\\", "/")
  }

  /** Neither the base name nor the normalised path occurs in the Dart text or in the resource text. */
  predicate IsUnused(a: Asset, code: string, res: string) {
    var path := NormalizedPath(a.path);
    !Contains(code, a.name) && !Contains(code, path) && !Contains(res, a.name) && !Contains(res, path)
  }

  /** The unused candidates, kept in candidate order. */
  function FindUnused(cands: seq<Asset>, code: string, res: string): (r: seq<Asset>)
    ensures forall a :: a in r <==> a in cands && IsUnused(a, code, res)
    ensures IsSubsequence(r, cands)
    ensures cands == [] ==> r == []
  {
    if cands == [] then []
    else
      var init := cands[..|cands| - 1];
      var a := cands[|cands| - 1];
      var rest := FindUnused(init, code, res);
      assert forall x :: x in init ==> x in cands;
      assert forall x :: x in cands ==> x in init || x == a;
      if IsUnused(a, code, res) then
        assert (rest + [a])[..|rest|] == rest;
        rest + [a]
      else rest
  }

  /** Each unused candidate is reported as many times as it is listed, every other candidate never. */
  lemma {:induction false} FindUnusedCounts(cands: seq<Asset>, code: string, res: string)
    ensures forall a :: multiset(FindUnused(cands, code, res))[a]
                        == if IsUnused(a, code, res) then multiset(cands)[a] else 0
    decreases |cands|
  {
    if cands != [] {
      var init := cands[..|cands| - 1];
      var last := cands[|cands| - 1];
      FindUnusedCounts(init, code, res);
      assert cands == init + [last];
      assert multiset(cands) == multiset(init) + multiset{last};
    }
  }

  /** The first walk of `find_unused_assets`: collect the candidates in walk order. */
  method CollectAssetFiles(entries: seq<Entry>) returns (assetFiles: seq<Asset>)
    ensures assetFiles == AssetCandidates(entries)
  {
    assetFiles := [];
    for i := 0 to |entries|
      invariant assetFiles == AssetCandidates(entries[..i])
    {
      assert entries[..i + 1][..i] == entries[..i];
      if entries[i].isFile && entries[i].name != DsStore {
        assetFiles := assetFiles + [Asset(entries[i].name, entries[i].path)];
      }
    }
    assert entries[..|entries|] == entries;
  }

  /** The second walk of `find_unused_assets`: append every Dart file's text. */
  method JoinDartSources(dartFiles: seq<string>) returns (dartContent: string)
    ensures dartContent == Concat(dartFiles)
  {
    dartContent := "";
    for i := 0 to |dartFiles|
      invariant dartContent == Concat(dartFiles[..i])
    {
      assert dartFiles[..i + 1][..i] == dartFiles[..i];
      dartContent := dartContent + dartFiles[i];
    }
    assert dartFiles[..|dartFiles|] == dartFiles;
  }

  /** `find_unused_assets`: collect the candidates, join the Dart sources, read the resource file, keep the unreferenced candidates. */
  method FindUnusedAssets(entries: seq<Entry>, dartFiles: seq<string>, resourceFile: Option<string>)
    returns (unused: seq<Asset>)
    ensures unused == FindUnused(AssetCandidates(entries), Concat(dartFiles), ResourceText(resourceFile))
  {
    var assetFiles := CollectAssetFiles(entries);
    var dartContent := JoinDartSources(dartFiles);
    var resourceContent := "";
    if resourceFile.Some? {
      resourceContent := resourceFile.value;
    }

    unused := [];
    for i := 0 to |assetFiles|
      invariant unused == FindUnused(assetFiles[..i], dartContent, resourceContent)
    {
      assert assetFiles[..i + 1][..i] == assetFiles[..i];
      var assetName := assetFiles[i].name;
      var assetPath := Replace(assetFiles[i].path, "\\", "/");
      if && !Contains(dartContent, assetName)
         && !Contains(dartContent, assetPath)
         && !Contains(resourceContent, assetName)
         && !Contains(resourceContent, assetPath)
      {
        unused := unused + [assetFiles[i]];
      }
    }
    assert assetFiles[..|assetFiles|] == assetFiles;
  }

  /** Reported exactly when neither probe occurs at any offset of either text. */
  lemma UnusedIffNoOccurrence(cands: seq<Asset>, code: string, res: string, a: Asset)
    ensures a in FindUnused(cands, code, res) <==>
            a in cands &&
            forall i :: && !OccursAt(code, a.name, i) && !OccursAt(code, NormalizedPath(a.path), i)
                        && !OccursAt(res, a.name, i) && !OccursAt(res, NormalizedPath(a.path), i)
  {
    ContainsIffOccurs(code, a.name);
    ContainsIffOccurs(code, NormalizedPath(a.path));
    ContainsIffOccurs(res, a.name);
    ContainsIffOccurs(res, NormalizedPath(a.path));
  }

  /** Running the scan again on its own result changes nothing. */
  lemma {:induction false} FindUnusedIdempotent(cands: seq<Asset>, code: string, res: string)
    ensures FindUnused(FindUnused(cands, code, res), code, res) == FindUnused(cands, code, res)
    decreases |cands|
  {
    if cands != [] {
      var init := cands[..|cands| - 1];
      var a := cands[|cands| - 1];
      FindUnusedIdempotent(init, code, res);
      var rest := FindUnused(init, code, res);
      if IsUnused(a, code, res) {
        assert (rest + [a])[..|rest|] == rest;
      }
    }
  }

  /** More Dart text can only shrink the report: the result for `code + extra` is a subsequence of the result for `code`. */
  lemma {:induction false} MoreCodeFewerUnused(cands: seq<Asset>, code: string, extra: string, res: string)
    ensures IsSubsequence(FindUnused(cands, code + extra, res), FindUnused(cands, code, res))
    decreases |cands|
  {
    if cands != [] {
      var init := cands[..|cands| - 1];
      var a := cands[|cands| - 1];
      MoreCodeFewerUnused(init, code, extra, res);
      var big := FindUnused(init, code + extra, res);
      var small := FindUnused(init, code, res);
      ContainsConcat(code, extra, a.name);
      ContainsConcat(code, extra, NormalizedPath(a.path));
      if IsUnused(a, code + extra, res) {
        assert (big + [a])[..|big|] == big;
        assert (small + [a])[..|small|] == small;
      } else if IsUnused(a, code, res) {
        assert (small + [a])[..|small|] == small;
      }
    }
  }

  /** Scanning one more Dart file can only shrink the report. */
  lemma AnotherDartFileOnlyShrinks(cands: seq<Asset>, files: seq<string>, f: string, res: string)
    ensures IsSubsequence(FindUnused(cands, Concat(files + [f]), res), FindUnused(cands, Concat(files), res))
  {
    assert (files + [f])[..|files|] == files;
    MoreCodeFewerUnused(cands, Concat(files), f, res);
  }

  /** A missing resource file behaves exactly like an empty one, and an empty resource text decides nothing. */
  lemma MissingResourceIsEmpty(a: Asset, code: string)
    ensures IsUnused(a, code, ResourceText(None)) == IsUnused(a, code, "")
    ensures IsUnused(a, code, "") <==> !Contains(code, a.name) && !Contains(code, NormalizedPath(a.path))
  {
  }

  /** An empty base name or path occurs in every text, so such a candidate is never reported. */
  lemma EmptyProbeAlwaysReferenced(cands: seq<Asset>, code: string, res: string, a: Asset)
    requires a.name == [] || a.path == []
    ensures a !in FindUnused(cands, code, res)
  {
    assert StartsWith(code, []);
  }

  /** A candidate whose base name the Dart text mentions is not reported, whatever the other candidates. */
  lemma NamedAssetNotReported(cands: seq<Asset>, a: Asset, code: string, res: string)
    requires Contains(code, a.name)
    ensures a !in FindUnused(cands, code, res)
  {
  }

  /** So a lone candidate whose base name the Dart text mentions leaves the report empty. */
  lemma LoneNamedAssetNotReported(a: Asset, code: string, res: string)
    requires Contains(code, a.name)
    ensures FindUnused([a], code, res) == []
  {
    assert [a][..0] == [];
  }

  /** Every character of an occurring pattern is a character of the text. */
  lemma ContainsChars(s: string, p: string, c: char)
    ensures Contains(s, p) && c in p ==> c in s
  {
    if Contains(s, p) && c in p {
      ContainsIffOccurs(s, p);
      var i :| OccursAt(s, p, i);
      var k :| 0 <= k < |p| && p[k] == c;
      assert s[i + k] == s[i..i + |p|][k];
    }
  }

  /** Neither half of the split reference mentions the name on its own. */
  lemma SplitNameInNeitherFile(front: string, back: string, name: string)
    requires front == "final logo = 'lo" && back == "go.png';" && name == "logo.png"
    ensures !Contains(front, name) && !Contains(back, name)
  {
    ContainsChars(front, name, '.');
    ContainsChars(back, name, 'l');
  }

  /** Two Dart files join into their plain concatenation. */
  lemma ConcatPair(front: string, back: string)
    ensures Concat([front, back]) == front + back
  {
    var files := [front, back];
    assert files[..1] == [front];
    assert [front][..0] == [];
    assert Concat([front]) == front;
  }

  /** Joined together, the two halves spell the name out at offset 14. */
  lemma SplitNameInJoinedText(front: string, back: string, name: string)
    requires front == "final logo = 'lo" && back == "go.png';" && name == "logo.png"
    ensures Contains(front + back, name)
  {
    var code := front + back;
    assert code[14..22] == name;
    assert OccursAt(code, name, 14);
    ContainsAt(code, name, 14);
  }

  /**
    Because the Dart files are joined with no separator, a name split across two
    files still counts as a reference, though neither file mentions it.
  */
  lemma StraddlingReferenceCounts(front: string, back: string, a: Asset)
    requires front == "final logo = 'lo" && back == "go.png';"
    requires a.name == "logo.png"
    ensures !Contains(front, a.name) && !Contains(back, a.name)
    ensures FindUnused([a], Concat([front, back]), "") == []
  {
    SplitNameInNeitherFile(front, back, a.name);
    ConcatPair(front, back);
    SplitNameInJoinedText(front, back, a.name);
    LoneNamedAssetNotReported(a, front + back, "");
  }
}
