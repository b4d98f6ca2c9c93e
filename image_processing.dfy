/** Extraction of the dominant colours of every cover image (src/chromalist/image_processing.py,
    `ImageProcessor`).

    Decoding an image and clustering its pixels (PIL, `kmeans`, `vq`) are a parameter `analyse`
    from an image path and `k` to the clustering or the message of the exception raised;
    `colorsys.rgb_to_hsv` is a parameter `rgbToHsv`. The file system is the set `existing`
    of paths that exist, and the playlist is the content of playlist.json, given as a value. */
module ImageProcessing {
  import opened Models
  import opened Text
  import opened Files
  import opened ColourFrequency
  import PlaylistSorting

  /** The codebook returned by `kmeans` and the cluster id `vq` gives every pixel. */
  datatype Clustering = Clustering(centroids: seq<Centroid>, codes: seq<nat>)

  /** A clustering as `vq` returns it: every pixel's code is the index of a codebook entry. */
  type Quantised = c: Clustering | Indices(c.codes, |c.centroids|) witness Clustering([], [])

  /** Every centroid has at least one pixel after the final `vq`. */
  predicate AllPopulated(c: Clustering) {
    forall v: nat :: v < |c.centroids| ==> v in c.codes
  }

  /** The colours `extract_colors` returns: RGB and HSV lists, most frequent colour first. */
  datatype Colours = Colours(rgbs: seq<Rgb>, hsvs: seq<Hsv>)

  // ---------------------------------------------------------------------------------------
  // validate_files

  /** The image path of every track, in playlist order. */
  function ImagePaths(fp: FilePaths, ts: seq<Track>): (r: seq<string>)
    ensures |r| == |ts|
    ensures forall i :: 0 <= i < |ts| ==> r[i] == fp.TrackImagePath(ts[i].id)
  {
    if ts == [] then [] else ImagePaths(fp, ts[..|ts| - 1]) + [fp.TrackImagePath(ts[|ts| - 1].id)]
  }

  /** `missing_files` after the loop of `validate_files`. */
  function MissingImagePaths(fp: FilePaths, ts: seq<Track>, existing: set<string>): seq<string> {
    if ts == [] then []
    else
      var p := fp.TrackImagePath(ts[|ts| - 1].id);
      MissingImagePaths(fp, ts[..|ts| - 1], existing) + (if p !in existing then [p] else [])
  }

  /** The at most five missing paths the message lists. */
  function Preview(missing: seq<string>): (r: seq<string>)
    ensures |r| == (if |missing| < 5 then |missing| else 5) && r == missing[..|r|]
    ensures |missing| <= 5 ==> r == missing
  {
    missing[..if |missing| < 5 then |missing| else 5]
  }

  const ListingIntro := " " + "image file(s). Please run 'get-playlist' first to download images.\nMissing files: "

  /** How many missing files the message does not list, if any. */
  function MoreNote(n: nat): string {
    if n > 5 then " and " + NatToString(n - 5) + " more..." else ""
  }

  /** What follows the count in the message of `validate_files`. */
  function MissingFilesDetail(missing: seq<string>): (r: string)
    ensures |r| > 0 && r[0] == ' '
    ensures StartsWith(r, ListingIntro)
  {
    var listing := ListingIntro + Join(", ", Preview(missing));
    assert listing[0] == ListingIntro[0] == " "[0];
    StartsWithAppended(ListingIntro, Join(", ", Preview(missing)) + MoreNote(|missing|));
    listing + MoreNote(|missing|)
  }

  /** The FileNotFoundError message of `validate_files`: the count, at most five of the
      missing paths, and how many more there are. */
  function MissingFilesMessage(missing: seq<string>): (r: string)
    ensures StartsWith(r, "Missing " + NatToString(|missing|) + ListingIntro)
  {
    StartsWithBehindPrefix("Missing " + NatToString(|missing|), MissingFilesDetail(missing), ListingIntro);
    "Missing " + NatToString(|missing|) + MissingFilesDetail(missing)
  }

  /** `validate_files`: succeeds iff no image is missing, else fails with the message. */
  method ValidateFiles(fp: FilePaths, playlist: Playlist, existing: set<string>) returns (r: Result<()>)
    ensures r.Success? <==> MissingImagePaths(fp, playlist.tracks, existing) == []
    ensures r.Failure? ==> r.error == MissingFilesMessage(MissingImagePaths(fp, playlist.tracks, existing))
  {
    var ts := playlist.tracks;
    var missing: seq<string> := [];
    var i := 0;
    while i < |ts|
      invariant 0 <= i <= |ts|
      invariant missing == MissingImagePaths(fp, ts[..i], existing)
    {
      var imagePath := fp.TrackImagePath(ts[i].id);
      if imagePath !in existing {
        missing := missing + [imagePath];
      }
      assert ts[..i + 1][..i] == ts[..i];
      i := i + 1;
    }
    assert ts[..i] == ts;
    if missing != [] {
      return Failure(MissingFilesMessage(missing));
    }
    return Success(());
  }

  /** A path is reported iff it is the image path of some track and does not exist. */
  lemma {:induction false} MissingImagePathsMembers(fp: FilePaths, ts: seq<Track>, existing: set<string>, p: string)
    ensures p in MissingImagePaths(fp, ts, existing) <==>
      p !in existing && exists i :: 0 <= i < |ts| && p == fp.TrackImagePath(ts[i].id)
  {
    if ts != [] {
      var n := |ts| - 1;
      MissingImagePathsMembers(fp, ts[..n], existing, p);
      if exists i :: 0 <= i < |ts| && p == fp.TrackImagePath(ts[i].id) {
        var i :| 0 <= i < |ts| && p == fp.TrackImagePath(ts[i].id);
        if i < n {
          assert ts[..n][i] == ts[i];
        }
      }
      if exists i :: 0 <= i < n && p == fp.TrackImagePath(ts[..n][i].id) {
        var i :| 0 <= i < n && p == fp.TrackImagePath(ts[..n][i].id);
        assert ts[i] == ts[..n][i];
      }
    }
  }

  /** The missing paths are reported in playlist order. */
  lemma {:induction false} MissingImagePathsInOrder(fp: FilePaths, ts: seq<Track>, existing: set<string>)
    ensures IsSubsequence(MissingImagePaths(fp, ts, existing), ImagePaths(fp, ts))
  {
    if ts != [] {
      var n := |ts| - 1;
      var p := fp.TrackImagePath(ts[n].id);
      MissingImagePathsInOrder(fp, ts[..n], existing);
      assert ImagePaths(fp, ts) == ImagePaths(fp, ts[..n]) + [p];
      if p !in existing {
        SubsequenceSnocBoth(MissingImagePaths(fp, ts[..n], existing), ImagePaths(fp, ts[..n]), p);
      } else {
        assert MissingImagePaths(fp, ts, existing) == MissingImagePaths(fp, ts[..n], existing);
        SubsequenceSnoc(MissingImagePaths(fp, ts[..n], existing), ImagePaths(fp, ts[..n]), p);
      }
    }
  }

  /** Validation passes iff every track's image exists. */
  lemma ValidationPassesIffAllImagesExist(fp: FilePaths, ts: seq<Track>, existing: set<string>)
    ensures MissingImagePaths(fp, ts, existing) == [] <==>
      forall i :: 0 <= i < |ts| ==> fp.TrackImagePath(ts[i].id) in existing
  {
    var missing := MissingImagePaths(fp, ts, existing);
    if missing != [] {
      MissingImagePathsMembers(fp, ts, existing, missing[0]);
    }
    forall i | 0 <= i < |ts| && fp.TrackImagePath(ts[i].id) !in existing ensures missing != [] {
      MissingImagePathsMembers(fp, ts, existing, fp.TrackImagePath(ts[i].id));
    }
  }

  /** The message starts with "Missing " followed by the number of missing files. */
  lemma MissingFilesMessageCount(missing: seq<string>)
    ensures |MissingFilesMessage(missing)| > 8
    ensures MissingFilesMessage(missing)[..8] == "Missing "
    ensures ReadNat(MissingFilesMessage(missing)[8..]) == |missing|
  {
    ReadNatAfterPrefix("Missing ", |missing|, MissingFilesDetail(missing));
  }

  /** The message is the count heading, the listed paths and the note on the others. */
  lemma MissingFilesMessageShape(missing: seq<string>)
    ensures MissingFilesMessage(missing)
      == ("Missing " + NatToString(|missing|) + ListingIntro) + Join(", ", Preview(missing)) + MoreNote(|missing|)
  {
    ConcatRegroup("Missing " + NatToString(|missing|), ListingIntro, Join(", ", Preview(missing)), MoreNote(|missing|));
  }

  /** With more than five missing files the message ends with how many are not listed. */
  lemma {:induction false} ManyMissingEnding(missing: seq<string>)
    requires |missing| > 5
    ensures EndsWith(MissingFilesMessage(missing), " and " + NatToString(|missing| - 5) + " more...")
    ensures EndsWith(MissingFilesMessage(missing), " more...")
  {
    var n := |missing|;
    var msg := MissingFilesMessage(missing);
    var pre := ("Missing " + NatToString(n) + ListingIntro) + Join(", ", Preview(missing));
    var tail := " and " + NatToString(n - 5) + " more...";
    MissingFilesMessageShape(missing);
    assert msg == pre + tail;
    EndsWithAppended(pre, tail);
    EndsWithAppended(" and " + NatToString(n - 5), " more...");
    EndsWithTransitive(msg, tail, " more...");
  }

  /** With at most five missing image files the message ends with the last of them. */
  lemma {:induction false} FewMissingEnding(missing: seq<string>)
    requires 0 < |missing| <= 5
    requires EndsWith(missing[|missing| - 1], ImageSuffix)
    ensures EndsWith(MissingFilesMessage(missing), missing[|missing| - 1])
    ensures !EndsWith(MissingFilesMessage(missing), " more...")
  {
    var n := |missing|;
    var msg := MissingFilesMessage(missing);
    var head := "Missing " + NatToString(n) + ListingIntro;
    MissingFilesMessageShape(missing);
    assert msg == head + Join(", ", missing);
    JoinEndsWithLast(", ", missing, missing[n - 1]);
    EndsWithAfterPrefix(head, Join(", ", missing), missing[n - 1]);
    EndsWithTransitive(msg, missing[n - 1], ImageSuffix);
    DifferentLastChar(msg, ImageSuffix, " more...");
  }

  /** When every missing path is an image path, the message ends with " more..." exactly when
      more than five files are missing, and then with the number of those not listed; otherwise
      it ends with the last missing path. */
  lemma {:induction false} MissingFilesMessageEnding(missing: seq<string>)
    requires missing != [] && EndsWith(missing[|missing| - 1], ImageSuffix)
    ensures EndsWith(MissingFilesMessage(missing), " more...") <==> |missing| > 5
    ensures |missing| <= 5 ==> EndsWith(MissingFilesMessage(missing), missing[|missing| - 1])
    ensures |missing| > 5 ==>
      EndsWith(MissingFilesMessage(missing), " and " + NatToString(|missing| - 5) + " more...")
  {
    if |missing| > 5 {
      ManyMissingEnding(missing);
    } else {
      FewMissingEnding(missing);
    }
  }

  /** Every reported path is an image path, so the message ending follows the count. */
  lemma ValidationMessageEnding(fp: FilePaths, ts: seq<Track>, existing: set<string>)
    requires MissingImagePaths(fp, ts, existing) != []
    ensures var missing := MissingImagePaths(fp, ts, existing);
      EndsWith(MissingFilesMessage(missing), " more...") <==> |missing| > 5
    ensures var missing := MissingImagePaths(fp, ts, existing);
      |missing| <= 5 ==> EndsWith(MissingFilesMessage(missing), missing[|missing| - 1])
    ensures var missing := MissingImagePaths(fp, ts, existing);
      |missing| > 5 ==> EndsWith(MissingFilesMessage(missing), " and " + NatToString(|missing| - 5) + " more...")
  {
    var missing := MissingImagePaths(fp, ts, existing);
    forall i | 0 <= i < |missing| ensures EndsWith(missing[i], ImageSuffix) {
      MissingImagePathsMembers(fp, ts, existing, missing[i]);
    }
    MissingFilesMessageEnding(missing);
  }

  // ---------------------------------------------------------------------------------------
  // extract_colors

  predicate InUnitRange(x: real) {
    0.0 <= x <= 1.0
  }

  /** `colorsys.rgb_to_hsv(r / 255.0, g / 255.0, b / 255.0)`, scaled to degrees and percent;
      components colorsys returns in [0, 1] become a hue in [0, 360] and a saturation and
      value in [0, 100]. */
  function HsvOf(rgbToHsv: (real, real, real) -> Hsv, c: Rgb): (r: Hsv)
    ensures var x := rgbToHsv(c.r as real / 255.0, c.g as real / 255.0, c.b as real / 255.0);
      InUnitRange(x.h) && InUnitRange(x.s) && InUnitRange(x.v) ==>
        0.0 <= r.h <= 360.0 && 0.0 <= r.s <= 100.0 && 0.0 <= r.v <= 100.0
  {
    var x := rgbToHsv(c.r as real / 255.0, c.g as real / 255.0, c.b as real / 255.0);
    Hsv(x.h * 360.0, x.s * 100.0, x.v * 100.0)
  }

  /** The HSV loop of `extract_colors`. */
  method ToHsvColours(rgbs: seq<Rgb>, rgbToHsv: (real, real, real) -> Hsv) returns (hsvs: seq<Hsv>)
    ensures |hsvs| == |rgbs|
    ensures forall i :: 0 <= i < |rgbs| ==> hsvs[i] == HsvOf(rgbToHsv, rgbs[i])
  {
    hsvs := [];
    for i := 0 to |rgbs|
      invariant |hsvs| == i
      invariant forall j :: 0 <= j < i ==> hsvs[j] == HsvOf(rgbToHsv, rgbs[j])
    {
      hsvs := hsvs + [HsvOf(rgbToHsv, rgbs[i])];
    }
  }

  /** The colours of a clustering, selected as written: one colour per cluster id that occurs,
      each the colour of some centroid, with its HSV form at the same position. */
  function ColoursOf(c: Quantised, rgbToHsv: (real, real, real) -> Hsv): (r: Colours)
    ensures |r.rgbs| == |Unique(c.codes)| <= |c.centroids|
    ensures |r.hsvs| == |r.rgbs|
    ensures forall m :: 0 <= m < |r.rgbs| ==> exists j :: 0 <= j < |c.centroids| && r.rgbs[m] == ToRgb(c.centroids[j])
  {
    var rgbs := FrequencyOrderAsWritten(ToRgbs(c.centroids), c.codes);
    Colours(rgbs, seq(|rgbs|, i requires 0 <= i < |rgbs| => HsvOf(rgbToHsv, rgbs[i])))
  }

  /** `extract_colors(image_path, k)`: the exception of the analysis, or its colours. */
  function Extract(path: string, k: int, analyse: (string, int) -> Result<Quantised>,
                   rgbToHsv: (real, real, real) -> Hsv): Result<Colours>
  {
    match analyse(path, k)
    case Failure(e) => Failure(e)
    case Success(c) => Success(ColoursOf(c, rgbToHsv))
  }

  method ExtractColors(path: string, k: int, analyse: (string, int) -> Result<Quantised>,
                       rgbToHsv: (real, real, real) -> Hsv) returns (r: Result<Colours>)
    ensures r == Extract(path, k, analyse, rgbToHsv)
  {
    var clustering := analyse(path, k);
    if clustering.Failure? {
      return Failure(clustering.error);
    }
    var c := clustering.value;
    var rgbs := FrequencyOrderAsWritten(ToRgbs(c.centroids), c.codes);
    var hsvs := ToHsvColours(rgbs, rgbToHsv);
    assert hsvs == seq(|rgbs|, i requires 0 <= i < |rgbs| => HsvOf(rgbToHsv, rgbs[i]));
    return Success(Colours(rgbs, hsvs));
  }

  /** With at least one pixel there is at least one colour. */
  lemma ColoursOfNonEmpty(c: Quantised, rgbToHsv: (real, real, real) -> Hsv)
    requires c.codes != []
    ensures |ColoursOf(c, rgbToHsv).rgbs| >= 1
  {
    UniqueProperties(c.codes);
    assert c.codes[0] in c.codes;
  }

  /** When every centroid has a pixel, the order as written is the corrected one. */
  lemma ColoursOfAllPopulated(c: Quantised, rgbToHsv: (real, real, real) -> Hsv)
    requires AllPopulated(c)
    ensures ColoursOf(c, rgbToHsv).rgbs == FrequencyOrder(ToRgbs(c.centroids), c.codes)
    ensures |ColoursOf(c, rgbToHsv).rgbs| == |c.centroids|
  {
    assert Bound(c.codes) <= |c.centroids|;
    var rgbs := ToRgbs(c.centroids);
    FrequencyOrderWhenAllPopulated(rgbs, c.codes);
    assert |FrequencyOrder(rgbs, c.codes)| == |multiset(FrequencyOrder(rgbs, c.codes))| == |multiset(rgbs)| == |rgbs|;
  }

  /** When every centroid has a pixel, the colours are the centroid colours, each once, most
      populated cluster first: the first colour is the colour of a cluster at least as populated
      as any other, and each HSV colour is the conversion of the RGB colour at its position. */
  lemma ColoursOfDominance(c: Quantised, rgbToHsv: (real, real, real) -> Hsv)
    requires c.codes != [] && AllPopulated(c)
    ensures 1 <= |ColoursOf(c, rgbToHsv).rgbs| == |c.centroids|
    ensures multiset(ColoursOf(c, rgbToHsv).rgbs) == multiset(ToRgbs(c.centroids))
    ensures var r := ColoursOf(c, rgbToHsv);
      forall i :: 0 <= i < |r.rgbs| ==> r.hsvs[i] == HsvOf(rgbToHsv, r.rgbs[i])
    ensures ColoursOf(c, rgbToHsv).rgbs[0] == ToRgb(c.centroids[DominanceOrder(c.codes)[0]])
    ensures forall v: nat :: v in c.codes ==> Count(c.codes, DominanceOrder(c.codes)[0]) >= Count(c.codes, v)
  {
    ColoursOfNonEmpty(c, rgbToHsv);
    ColoursOfAllPopulated(c, rgbToHsv);
    FrequencyOrderWhenAllPopulated(ToRgbs(c.centroids), c.codes);
    FrequencyOrderDominance(ToRgbs(c.centroids), c.codes);
    MostPopulatedFirst(c.codes);
  }

  /** Centroids with channels in 0..255 give RGB colours with channels in 0..255. */
  lemma ColoursOfByteRange(c: Quantised, rgbToHsv: (real, real, real) -> Hsv)
    requires forall j :: 0 <= j < |c.centroids| ==>
      InByteRange(c.centroids[j].r) && InByteRange(c.centroids[j].g) && InByteRange(c.centroids[j].b)
    ensures forall i :: 0 <= i < |ColoursOf(c, rgbToHsv).rgbs| ==>
      var x := ColoursOf(c, rgbToHsv).rgbs[i]; IsByte(x.r) && IsByte(x.g) && IsByte(x.b)
  {
    var r := ColoursOf(c, rgbToHsv);
    forall i | 0 <= i < |r.rgbs| ensures IsByte(r.rgbs[i].r) && IsByte(r.rgbs[i].g) && IsByte(r.rgbs[i].b) {
      var j :| 0 <= j < |c.centroids| && r.rgbs[i] == ToRgb(c.centroids[j]);
      ToRgbInByteRange(c.centroids[j]);
    }
  }

  /** colorsys maps components in [0, 1] to components in [0, 1]. */
  ghost predicate UnitToUnit(rgbToHsv: (real, real, real) -> Hsv) {
    forall x, y, z :: InUnitRange(x) && InUnitRange(y) && InUnitRange(z) ==>
      InUnitRange(rgbToHsv(x, y, z).h) && InUnitRange(rgbToHsv(x, y, z).s) && InUnitRange(rgbToHsv(x, y, z).v)
  }

  /** For centroids inside the RGB cube, every HSV colour extracted has its hue in [0, 360] and
      its saturation and value in [0, 100], as `extract_colors` documents. */
  lemma ColoursOfHsvRanges(c: Quantised, rgbToHsv: (real, real, real) -> Hsv)
    requires UnitToUnit(rgbToHsv)
    requires forall j :: 0 <= j < |c.centroids| ==>
      InByteRange(c.centroids[j].r) && InByteRange(c.centroids[j].g) && InByteRange(c.centroids[j].b)
    ensures forall i :: 0 <= i < |ColoursOf(c, rgbToHsv).hsvs| ==>
      var x := ColoursOf(c, rgbToHsv).hsvs[i];
      0.0 <= x.h <= 360.0 && 0.0 <= x.s <= 100.0 && 0.0 <= x.v <= 100.0
  {
    var r := ColoursOf(c, rgbToHsv);
    ColoursOfByteRange(c, rgbToHsv);
    forall i | 0 <= i < |r.hsvs|
      ensures 0.0 <= r.hsvs[i].h <= 360.0 && 0.0 <= r.hsvs[i].s <= 100.0 && 0.0 <= r.hsvs[i].v <= 100.0
    {
      var q := r.rgbs[i];
      assert IsByte(q.r) && IsByte(q.g) && IsByte(q.b);
      UnitScale(q.r);
      UnitScale(q.g);
      UnitScale(q.b);
      assert r.hsvs[i] == HsvOf(rgbToHsv, q);
    }
  }

  lemma UnitScale(n: int)
    requires IsByte(n)
    ensures InUnitRange(n as real / 255.0)
  {
  }

  // ---------------------------------------------------------------------------------------
  // proces_track and process_playlist

  /** A record either holds equally many RGB and HSV colours, or an error and no colours. */
  predicate WellFormedRecord(r: ImageColorData) {
    |r.rgbs| == |r.hsvs| && (r.error.Some? ==> r.rgbs == [] && r.hsvs == [])
  }

  /** `proces_track`: the record for one track; an exception becomes the record's error. */
  function ProcessTrack(fp: FilePaths, k: int, t: Track, analyse: (string, int) -> Result<Quantised>,
                        rgbToHsv: (real, real, real) -> Hsv): (r: ImageColorData)
    ensures r.track_id == t.id
    ensures r.error.None? <==> Extract(fp.TrackImagePath(t.id), k, analyse, rgbToHsv).Success?
    ensures var x := Extract(fp.TrackImagePath(t.id), k, analyse, rgbToHsv);
      x.Success? ==> r.rgbs == x.value.rgbs && r.hsvs == x.value.hsvs
    ensures var x := Extract(fp.TrackImagePath(t.id), k, analyse, rgbToHsv);
      x.Failure? ==> r.error == Some(x.error)
    ensures WellFormedRecord(r)
  {
    match Extract(fp.TrackImagePath(t.id), k, analyse, rgbToHsv)
    case Success(c) => ImageColorData(t.id, c.rgbs, c.hsvs, None)
    case Failure(e) => ImageColorData(t.id, [], [], Some(e))
  }

  /** `process_playlist`: fails when playlist.json or any image is missing; otherwise one record
      per track, in playlist order, each computed from that track's image alone. */
  method ProcessPlaylist(fp: FilePaths, existing: set<string>, playlist: Playlist, k: int,
                         analyse: (string, int) -> Result<Quantised>,
                         rgbToHsv: (real, real, real) -> Hsv) returns (r: Result<seq<ImageColorData>>)
    ensures fp.PlaylistPath() !in existing ==> r == Failure(PlaylistNotFoundMessage(fp.PlaylistPath()))
    ensures fp.PlaylistPath() in existing && MissingImagePaths(fp, playlist.tracks, existing) != [] ==>
      r == Failure(MissingFilesMessage(MissingImagePaths(fp, playlist.tracks, existing)))
    ensures fp.PlaylistPath() in existing && MissingImagePaths(fp, playlist.tracks, existing) == [] ==>
      && r.Success? && |r.value| == |playlist.tracks|
      && forall i :: 0 <= i < |playlist.tracks| ==> r.value[i] == ProcessTrack(fp, k, playlist.tracks[i], analyse, rgbToHsv)
  {
    if fp.PlaylistPath() !in existing {
      return Failure(PlaylistNotFoundMessage(fp.PlaylistPath()));
    }
    var validation := ValidateFiles(fp, playlist, existing);
    if validation.Failure? {
      return Failure(validation.error);
    }
    var results: seq<ImageColorData> := [];
    for i := 0 to |playlist.tracks|
      invariant |results| == i
      invariant forall j :: 0 <= j < i ==> results[j] == ProcessTrack(fp, k, playlist.tracks[j], analyse, rgbToHsv)
    {
      results := results + [ProcessTrack(fp, k, playlist.tracks[i], analyse, rgbToHsv)];
    }
    return Success(results);
  }

  /** A track whose image analyses into a clustering with at least one pixel yields a record the
      hue sorter uses, whose dominant hue is the hue of the first colour extracted; when every
      centroid has a pixel that is the colour of the most populated cluster. */
  lemma AnalysedTrackIsUsable(fp: FilePaths, k: int, t: Track, analyse: (string, int) -> Result<Quantised>,
                              rgbToHsv: (real, real, real) -> Hsv)
    requires analyse(fp.TrackImagePath(t.id), k).Success?
    requires analyse(fp.TrackImagePath(t.id), k).value.codes != []
    ensures PlaylistSorting.Usable(ProcessTrack(fp, k, t, analyse, rgbToHsv))
    ensures var c := analyse(fp.TrackImagePath(t.id), k).value;
      |ColoursOf(c, rgbToHsv).rgbs| >= 1
    ensures var c := analyse(fp.TrackImagePath(t.id), k).value;
      PlaylistSorting.DominantHue(ProcessTrack(fp, k, t, analyse, rgbToHsv)) == HsvOf(rgbToHsv, ColoursOf(c, rgbToHsv).rgbs[0]).h
    ensures var c := analyse(fp.TrackImagePath(t.id), k).value;
      AllPopulated(c) ==>
        PlaylistSorting.DominantHue(ProcessTrack(fp, k, t, analyse, rgbToHsv))
          == HsvOf(rgbToHsv, ToRgb(c.centroids[DominanceOrder(c.codes)[0]])).h
  {
    var c := analyse(fp.TrackImagePath(t.id), k).value;
    ColoursOfNonEmpty(c, rgbToHsv);
    if AllPopulated(c) {
      ColoursOfDominance(c, rgbToHsv);
    }
  }

  /** When every image analyses into a clustering with at least one pixel, the hue sorter
      excludes no track and keeps them all. */
  lemma AllAnalysedNoneExcluded(fp: FilePaths, k: int, ts: seq<Track>, records: seq<ImageColorData>,
                                analyse: (string, int) -> Result<Quantised>, rgbToHsv: (real, real, real) -> Hsv)
    requires |records| == |ts|
    requires forall i :: 0 <= i < |ts| ==> records[i] == ProcessTrack(fp, k, ts[i], analyse, rgbToHsv)
    requires forall i :: 0 <= i < |ts| ==> analyse(fp.TrackImagePath(ts[i].id), k).Success?
    requires forall i :: 0 <= i < |ts| ==> analyse(fp.TrackImagePath(ts[i].id), k).value.codes != []
    ensures PlaylistSorting.Excluded(ts, PlaylistSorting.HueMap(records)) == []
    ensures |PlaylistSorting.SortedTracks(ts, records)| == |ts|
  {
    var hues := PlaylistSorting.HueMap(records);
    var ex := PlaylistSorting.Excluded(ts, hues);
    if ex != [] {
      PlaylistSorting.ExcludedMembers(ts, hues, ex[0]);
      var i :| 0 <= i < |ts| && ts[i] == ex[0];
      AnalysedTrackIsUsable(fp, k, ts[i], analyse, rgbToHsv);
      PlaylistSorting.HueMapKeys(records, ts[i].id);
      assert false;
    }
    PlaylistSorting.SortedTracksCount(ts, records);
  }
}
