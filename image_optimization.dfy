/**
  The size-decision rules of `optimize_images` in `asset_optimization_script.py`.
  The file system is a map from path to size in bytes; the `cwebp` encoder is a
  map from the path it is given to the size of the file it writes, a path it has
  no entry for being one where the tool is missing or fails. A WebP image is
  re-encoded and the result kept only when strictly smaller; a PNG image gets a
  sibling `.webp` that is kept only when below 80 % of the PNG's size. The run
  adds up the sizes before and after each visited image.
*/
module ImageOptimization {
  import opened Wrappers
  import opened Strings
  import opened AssetNames


  /** File sizes in bytes, by path. */
  type Disk = map<string, nat>

  /** Size of the file `cwebp` writes for each input path it succeeds on. */
  type Encoder = map<string, nat>

  /** One image found under `assets`: base name, full path and the suffix of the name (with its dot). */
  datatype Image = Image(name: string, path: string, suffix: string)

  /** The file system after the visited images, with the two running totals. */
  datatype Report = Report(disk: Disk, before: nat, after: nat)

  /** What the encoder produced for `path`, if anything. */
  function Encoded(encoder: Encoder, path: string): Option<nat> {
    if path in encoder then Some(encoder[path]) else None
  }

  /** Where the re-encoded WebP is written before it replaces the original. */
  function TempPath(path: string): string {
    path + "_temp"
  }

  /** `str(img_file).replace('.png', '.webp')` */
  function WebpPath(path: string): string {
    Replace(path, ".png", ".webp")
  }

  /** `d` and `e` hold the same files with the same sizes, except possibly at the paths in `touched`. */
  ghost predicate AgreeOutside(d: Disk, e: Disk, touched: set<string>) {
    forall p :: p !in touched ==> (p in d <==> p in e) && (p in d ==> d[p] == e[p])
  }

  /**
    The WebP branch: the encoder writes the temporary file; a strictly smaller
    result replaces the original, anything else is deleted. Whatever happens the
    temporary path is gone afterwards and the original is never larger.
  */
  function Recompress(disk: Disk, path: string, encoded: Option<nat>): (d: Disk)
    requires path in disk
    ensures path in d && TempPath(path) !in d
    ensures d[path] <= disk[path]
    ensures d[path] < disk[path] <==> encoded.Some? && encoded.value < disk[path]
    ensures d[path] == disk[path] || encoded == Some(d[path])
    ensures AgreeOutside(d, disk, {path, TempPath(path)})
  {
    var temp := TempPath(path);
    assert temp != path by {
      assert |temp| != |path|;
    }
    match encoded
    case None =>
      if temp in disk then disk - {temp} else disk
    case Some(tempSize) =>
      var written := disk[temp := tempSize];
      if tempSize < disk[path] then written[path := written[temp]] - {temp}
      else written - {temp}
  }

  /**
    The PNG branch: the encoder writes the sibling `.webp`, overwriting any file
    already there; the result stays only when `webp < 0.8 * png`, read exactly as
    `5 * webp < 4 * png`, and is deleted otherwise. A failing encoder changes nothing.
  */
  function ConvertToWebp(disk: Disk, path: string, encoded: Option<nat>): (d: Disk)
    requires path in disk
    ensures encoded.None? ==> d == disk
    ensures encoded.Some? ==> (WebpPath(path) in d <==> 5 * encoded.value < 4 * disk[path])
    ensures encoded.Some? && WebpPath(path) in d ==> d[WebpPath(path)] == encoded.value
    ensures path in d ==> d[path] <= disk[path]
    ensures AgreeOutside(d, disk, {WebpPath(path)})
  {
    match encoded
    case None => disk
    case Some(webpSize) =>
      var webp := WebpPath(path);
      if 5 * webpSize < 4 * disk[path] then disk[webp := webpSize]
      else disk[webp := webpSize] - {webp}
  }

  /** The file-system effect of visiting one image, by its suffix. */
  function Visit(disk: Disk, img: Image, encoder: Encoder): (d: Disk)
    requires img.path in disk
    ensures img.path in d ==> d[img.path] <= disk[img.path]
  {
    if img.suffix == ".webp" then Recompress(disk, img.path, Encoded(encoder, img.path))
    else if img.suffix == ".png" then ConvertToWebp(disk, img.path, Encoded(encoder, img.path))
    else disk
  }

  /**
    One iteration of the loop. `.DS_Store` is skipped; otherwise the image's size
    is read before and after its visit, and a path that cannot be read aborts the
    run with that path.
  */
  function Step(r: Report, img: Image, encoder: Encoder): Result<Report, string>
  {
    if img.name == DsStore then Ok(r)
    else if img.path !in r.disk then Err(img.path)
    else
      var d := Visit(r.disk, img, encoder);
      if img.path !in d then Err(img.path)
      else Ok(Report(d, r.before + r.disk[img.path], r.after + d[img.path]))
  }

  /**
    A skipped `.DS_Store` changes nothing; a missing image aborts with its path;
    otherwise the before total grows by the image's size before its visit and the
    after total by its size after it, which is never more.
  */
  lemma StepSpec(r: Report, img: Image, encoder: Encoder)
    ensures var s := Step(r, img, encoder);
            && (img.name == DsStore ==> s == Ok(r))
            && (img.name != DsStore && img.path !in r.disk ==> s == Err(img.path))
            && (s.Err? ==> s.error == img.path)
            && (s.Ok? ==> r.before <= s.value.before && r.after <= s.value.after
                          && s.value.after - r.after <= s.value.before - r.before)
            && (s.Ok? && img.name != DsStore ==>
                  && img.path in r.disk && img.path in s.value.disk
                  && s.value.before == r.before + r.disk[img.path]
                  && s.value.after == r.after + s.value.disk[img.path])
  {
  }

  /** The loop over `images` in order, from `disk` with both totals at zero. */
  function Run(images: seq<Image>, disk: Disk, encoder: Encoder): Result<Report, string>
  {
    if images == [] then Ok(Report(disk, 0, 0))
    else
      match Run(images[..|images| - 1], disk, encoder)
      case Err(e) => Err(e)
      case Ok(r) => Step(r, images[|images| - 1], encoder)
  }

  /** The body of the loop for one image that exists: re-encode a WebP in place, try a WebP sibling for a PNG. */
  method VisitImage(disk0: Disk, img: Image, encoder: Encoder) returns (disk: Disk)
    requires img.path in disk0
    ensures disk == Visit(disk0, img, encoder)
  {
    disk := disk0;
    var beforeSize := disk[img.path];
    if img.suffix == ".webp" {
      var tempFile := img.path + "_temp";
      if img.path in encoder {
        var tempSize := encoder[img.path];
        disk := disk[tempFile := tempSize];
        if tempSize < beforeSize {
          disk := disk[img.path := disk[tempFile]] - {tempFile};
        } else {
          disk := disk - {tempFile};
        }
      } else if tempFile in disk {
        disk := disk - {tempFile};
      }
    } else if img.suffix == ".png" {
      var webpFile := Replace(img.path, ".png", ".webp");
      if img.path in encoder {
        var webpSize := encoder[img.path];
        disk := disk[webpFile := webpSize];
        if !(5 * webpSize < 4 * beforeSize) {
          disk := disk - {webpFile};
        }
      }
    }
  }

  /** After a prefix that has not aborted, one more image is one more step. */
  lemma RunStep(images: seq<Image>, i: int, disk: Disk, encoder: Encoder, r: Report)
    requires 0 <= i < |images| && Run(images[..i], disk, encoder) == Ok(r)
    ensures Run(images[..i + 1], disk, encoder) == Step(r, images[i], encoder)
  {
    assert images[..i + 1][..i] == images[..i];
  }

  /** `optimize_images`: the loop with its two accumulators, over a mutable file system. */
  method OptimizeImages(images: seq<Image>, disk0: Disk, encoder: Encoder) returns (result: Result<Report, string>)
    ensures result == Run(images, disk0, encoder)
  {
    var disk := disk0;
    var totalBefore := 0;
    var totalAfter := 0;
    for i := 0 to |images|
      invariant Run(images[..i], disk0, encoder) == Ok(Report(disk, totalBefore, totalAfter))
    {
      var report := Report(disk, totalBefore, totalAfter);
      RunStep(images, i, disk0, encoder, report);
      var img := images[i];
      if img.name == DsStore {
        assert Step(report, img, encoder) == Ok(report);
        continue;
      }
      if img.path !in disk {
        assert Step(report, img, encoder) == Err(img.path);
        RunErrPersists(images, i + 1, img.path, disk0, encoder);
        return Err(img.path);
      }
      var beforeSize := disk[img.path];
      totalBefore := totalBefore + beforeSize;
      disk := VisitImage(disk, img, encoder);
      if img.path !in disk {
        assert Step(report, img, encoder) == Err(img.path);
        RunErrPersists(images, i + 1, img.path, disk0, encoder);
        return Err(img.path);
      }
      totalAfter := totalAfter + disk[img.path];
      assert Step(report, img, encoder) == Ok(Report(disk, totalBefore, totalAfter));
    }
    assert images[..|images|] == images;
    result := Ok(Report(disk, totalBefore, totalAfter));
  }

  /** Once a prefix of the images aborts, the whole run aborts with the same path. */
  lemma {:induction false} RunErrPersists(images: seq<Image>, k: nat, e: string, disk: Disk, encoder: Encoder)
    requires k <= |images| && Run(images[..k], disk, encoder) == Err(e)
    ensures Run(images, disk, encoder) == Err(e)
    decreases |images|
  {
    if k < |images| {
      var init := images[..|images| - 1];
      assert init[..k] == images[..k];
      RunErrPersists(init, k, e, disk, encoder);
    } else {
      assert images[..k] == images;
    }
  }

  /** The after total never exceeds the before total: no visit makes an image larger. */
  lemma {:induction false} TotalsNeverGrow(images: seq<Image>, disk: Disk, encoder: Encoder)
    ensures Run(images, disk, encoder).Ok? ==> Run(images, disk, encoder).value.after <= Run(images, disk, encoder).value.before
    decreases |images|
  {
    if images != [] {
      TotalsNeverGrow(images[..|images| - 1], disk, encoder);
      if Run(images[..|images| - 1], disk, encoder).Ok? {
        StepSpec(Run(images[..|images| - 1], disk, encoder).value, images[|images| - 1], encoder);
      }
    }
  }

  /** `print(f"💾 Saved: ...")`: the saving shown when the before total exceeds the after total. */
  function Saved(r: Report): (saved: Option<nat>)
    ensures saved.Some? <==> r.before > r.after
    ensures saved.Some? ==> saved.value > 0 && r.after + saved.value == r.before
  {
    if r.before > r.after then Some(r.before - r.after) else None
  }

  /** The WebP name of a `.png` path is the WebP name of the stem with `.webp` appended. */
  lemma WebpPathOfPng(x: string)
    ensures WebpPath(x + ".png") == WebpPath(x) + ".webp"
  {
    var s := x + ".png";
    forall k | 0 <= k < |x| < k + |".png"|
      ensures !StartsWith((x + ".png")[k..], ".png")
    {
      assert (x + ".png")[k..][|x| - k] == '.';
      Mismatch((x + ".png")[k..], ".png", |x| - k);
    }
    ReplaceAppend(x, ".png", ".png", ".webp");
    assert ".png"[4..] == [];
  }

  /** Converting a PNG never writes over the PNG itself. */
  lemma PngWebpPathDiffers(path: string)
    requires EndsWith(path, ".png")
    ensures WebpPath(path) != path
  {
    var x := path[..|path| - 4];
    assert path == x + ".png";
    WebpPathOfPng(x);
    assert WebpPath(path)[|WebpPath(path)| - 1] == 'p';
  }

  /** The paths a visit of `img` may read, write or delete: a WebP's temporary file, a PNG's sibling `.webp`. */
  function Touched(img: Image): set<string> {
    if img.name == DsStore then {}
    else if img.suffix == ".webp" then {img.path, TempPath(img.path)}
    else if img.suffix == ".png" then {img.path, WebpPath(img.path)}
    else {img.path}
  }

  /** The paths any of `images` may touch. */
  function Footprint(images: seq<Image>): set<string> {
    if images == [] then {} else Footprint(images[..|images| - 1]) + Touched(images[|images| - 1])
  }

  /** No visit touches the path of an image listed after it. */
  ghost predicate Independent(images: seq<Image>) {
    forall i, j :: 0 <= i < j < |images| && images[j].name != DsStore ==> images[j].path !in Touched(images[i])
  }

  /** Every image the loop does not skip exists on `disk`, and a `.png` suffix means the path ends in `.png`. */
  ghost predicate Present(images: seq<Image>, disk: Disk) {
    forall img :: img in images && img.name != DsStore ==>
      img.path in disk && (img.suffix == ".png" ==> EndsWith(img.path, ".png"))
  }

  /** The sum of the sizes the images have on `disk`, `.DS_Store` left out. */
  function InitialTotal(images: seq<Image>, disk: Disk): nat {
    if images == [] then 0
    else
      var img := images[|images| - 1];
      InitialTotal(images[..|images| - 1], disk)
        + (if img.name != DsStore && img.path in disk then disk[img.path] else 0)
  }

  /** A WebP image on `disk` whose re-encoding is strictly smaller. */
  predicate Shrinks(img: Image, disk: Disk, encoder: Encoder) {
    img.name != DsStore && img.suffix == ".webp" && img.path in disk
    && img.path in encoder && encoder[img.path] < disk[img.path]
  }

  /** The size an image should have after its visit: the re-encoding where it shrinks, its own size otherwise. */
  function SizeAfter(img: Image, disk: Disk, encoder: Encoder): nat {
    if img.name == DsStore || img.path !in disk then 0
    else if Shrinks(img, disk, encoder) then encoder[img.path]
    else disk[img.path]
  }

  /** The sum of `SizeAfter` over the images. */
  function ExpectedAfter(images: seq<Image>, disk: Disk, encoder: Encoder): nat {
    if images == [] then 0
    else ExpectedAfter(images[..|images| - 1], disk, encoder) + SizeAfter(images[|images| - 1], disk, encoder)
  }

  /** A path no image of `images` touches lies outside their footprint. */
  lemma {:induction false} OutsideFootprint(images: seq<Image>, p: string)
    requires forall i :: 0 <= i < |images| ==> p !in Touched(images[i])
    ensures p !in Footprint(images)
    decreases |images|
  {
    if images != [] {
      var init := images[..|images| - 1];
      assert forall i :: 0 <= i < |init| ==> init[i] == images[i];
      OutsideFootprint(init, p);
    }
  }

  /** The size of one non-skipped image after its visit, when nothing else has touched it. */
  lemma VisitSize(disk: Disk, img: Image, encoder: Encoder)
    requires img.name != DsStore && img.path in disk
    requires img.suffix == ".png" ==> EndsWith(img.path, ".png")
    ensures var d := Visit(disk, img, encoder);
            img.path in d && d[img.path] == SizeAfter(img, disk, encoder) && AgreeOutside(d, disk, Touched(img))
  {
    if img.suffix == ".png" {
      PngWebpPathDiffers(img.path);
    }
  }

  /**
    When visits are independent and every listed image exists, the run never
    aborts, `total_before` is the sum of the initial sizes, `total_after` is that
    sum with each shrinking WebP counted at its re-encoded size, and nothing
    outside the images' footprint changes.
  */
  lemma {:induction false} IndependentRun(images: seq<Image>, disk: Disk, encoder: Encoder)
    requires Independent(images) && Present(images, disk)
    ensures Run(images, disk, encoder).Ok?
    ensures Run(images, disk, encoder).value.before == InitialTotal(images, disk)
    ensures Run(images, disk, encoder).value.after == ExpectedAfter(images, disk, encoder)
    ensures AgreeOutside(Run(images, disk, encoder).value.disk, disk, Footprint(images))
    decreases |images|
  {
    if images != [] {
      var init := images[..|images| - 1];
      var img := images[|images| - 1];
      assert forall i :: 0 <= i < |init| ==> init[i] == images[i];
      assert forall x :: x in init ==> x in images;
      IndependentRun(init, disk, encoder);
      var r := Run(init, disk, encoder).value;
      if img.name != DsStore {
        OutsideFootprint(init, img.path);
        assert img in images;
        VisitSize(r.disk, img, encoder);
        assert SizeAfter(img, r.disk, encoder) == SizeAfter(img, disk, encoder);
      }
    }
  }

  /** The after total stays below the before total exactly when some WebP image shrinks. */
  lemma {:induction false} ExpectedSavings(images: seq<Image>, disk: Disk, encoder: Encoder)
    ensures ExpectedAfter(images, disk, encoder) <= InitialTotal(images, disk)
    ensures ExpectedAfter(images, disk, encoder) < InitialTotal(images, disk)
            <==> exists i :: 0 <= i < |images| && Shrinks(images[i], disk, encoder)
    decreases |images|
  {
    if images != [] {
      var init := images[..|images| - 1];
      ExpectedSavings(init, disk, encoder);
      assert forall i :: 0 <= i < |init| ==> init[i] == images[i];
      if exists i :: 0 <= i < |images| && Shrinks(images[i], disk, encoder) {
        var i :| 0 <= i < |images| && Shrinks(images[i], disk, encoder);
        if i < |init| {
          assert Shrinks(init[i], disk, encoder);
        }
      }
    }
  }

  /** On an independent run the "Saved" line appears exactly when some WebP image re-encodes strictly smaller. */
  lemma SavedIffSomeWebpShrinks(images: seq<Image>, disk: Disk, encoder: Encoder)
    requires Independent(images) && Present(images, disk)
    ensures Run(images, disk, encoder).Ok?
    ensures Saved(Run(images, disk, encoder).value).Some?
            <==> exists i :: 0 <= i < |images| && Shrinks(images[i], disk, encoder)
  {
    IndependentRun(images, disk, encoder);
    ExpectedSavings(images, disk, encoder);
  }

  /** A path one of the four patterns `*.webp`, `*.png`, `*.jpg`, `*.jpeg` matches. */
  predicate Matched(path: string) {
    EndsWith(path, ".webp") || EndsWith(path, ".png") || EndsWith(path, ".jpg") || EndsWith(path, ".jpeg")
  }

  /**
    The list `optimize_images` builds: every path matches a pattern, a `.png`
    suffix comes with a `.png` ending, the `*.webp` matches come before all the
    others, and no path is listed twice.
  */
  ghost predicate SourceOrder(images: seq<Image>) {
    && (forall i :: 0 <= i < |images| ==> Matched(images[i].path))
    && (forall i :: 0 <= i < |images| && images[i].suffix == ".png" ==> EndsWith(images[i].path, ".png"))
    && (forall i, j :: 0 <= i < j < |images| && EndsWith(images[j].path, ".webp") ==> EndsWith(images[i].path, ".webp"))
    && (forall i, j :: 0 <= i < j < |images| ==> images[i].path != images[j].path)
  }

  /** A suffix fixes the last two characters of the string it ends. */
  lemma EndsWithLastTwo(s: string, p: string)
    requires |p| >= 2
    ensures EndsWith(s, p) ==> s[|s| - 2] == p[|p| - 2] && s[|s| - 1] == p[|p| - 1]
  {
    if EndsWith(s, p) {
      assert s[|s| - 2] == s[|s| - |p|..][|p| - 2];
      assert s[|s| - 1] == s[|s| - |p|..][|p| - 1];
    }
  }

  /** A temporary file, ending in `_temp`, is never one the patterns match. */
  lemma TempNotMatched(path: string)
    ensures !Matched(TempPath(path))
  {
    var t := TempPath(path);
    assert t[|t| - 2] == 'm';
    EndsWithLastTwo(t, ".webp");
    EndsWithLastTwo(t, ".png");
    EndsWithLastTwo(t, ".jpg");
    EndsWithLastTwo(t, ".jpeg");
  }

  /** The sibling a PNG is converted to ends in `.webp`, which the PNG itself does not. */
  lemma PngSibling(path: string)
    requires EndsWith(path, ".png")
    ensures EndsWith(WebpPath(path), ".webp") && !EndsWith(path, ".webp")
  {
    var x := path[..|path| - 4];
    assert path == x + ".png";
    WebpPathOfPng(x);
    assert (WebpPath(x) + ".webp")[|WebpPath(x)|..] == ".webp";
    EndsWithLastTwo(path, ".png");
    EndsWithLastTwo(path, ".webp");
  }

  /**
    In the order `optimize_images` lists them no visit touches a later image: a
    temporary file matches no pattern, and a PNG's sibling `.webp` could only be
    an image listed before the PNG.
  */
  lemma SourceOrderIndependent(images: seq<Image>)
    requires SourceOrder(images)
    ensures Independent(images)
  {
    forall i, j | 0 <= i < j < |images| && images[j].name != DsStore
      ensures images[j].path !in Touched(images[i])
    {
      var a := images[i];
      if a.name != DsStore && a.suffix == ".webp" {
        TempNotMatched(a.path);
      } else if a.name != DsStore && a.suffix == ".png" {
        PngSibling(a.path);
      }
    }
  }

  /**
    On the list `optimize_images` builds, with every image present, the run
    never aborts, the totals are the initial sum and the expected sum, and the
    "Saved" line appears exactly when some WebP image re-encodes strictly smaller.
  */
  lemma SourceOrderRun(images: seq<Image>, disk: Disk, encoder: Encoder)
    requires SourceOrder(images)
    requires forall i :: 0 <= i < |images| ==> images[i].path in disk
    ensures Run(images, disk, encoder).Ok?
    ensures Run(images, disk, encoder).value.before == InitialTotal(images, disk)
    ensures Run(images, disk, encoder).value.after == ExpectedAfter(images, disk, encoder)
    ensures Saved(Run(images, disk, encoder).value).Some?
            <==> exists i :: 0 <= i < |images| && Shrinks(images[i], disk, encoder)
  {
    SourceOrderIndependent(images);
    assert Present(images, disk);
    IndependentRun(images, disk, encoder);
    SavedIffSomeWebpShrinks(images, disk, encoder);
  }
}
