/** Sorting a playlist by the hue of each cover's dominant colour
    (src/chromalist/playlist_sorting.py, `sort_playlist_by_hue`).

    The two input files are given as values: `playlist` is the content of playlist.json and
    `records` that of image-colours.json; their existence is checked against `existing`. */
module PlaylistSorting {
  import opened Models
  import opened Files
  import opened Text

  // ---------------------------------------------------------------------------------------
  // The track_id -> hue map

  /** A record contributes a hue only when extraction succeeded and found at least one colour. */
  predicate Usable(r: ImageColorData) {
    r.error.None? && r.hsvs != []
  }

  /** The hue of the record's first (most frequent) colour. */
  function DominantHue(r: ImageColorData): real
    requires r.hsvs != []
  {
    r.hsvs[0].h
  }

  /** The `track_hues` dictionary after scanning `records` in order; a later entry overwrites. */
  function HueMap(records: seq<ImageColorData>): (m: map<string, real>)
    ensures |m| <= |records|
  {
    if records == [] then map[]
    else
      var m := HueMap(records[..|records| - 1]);
      var r := records[|records| - 1];
      if Usable(r) then m[r.track_id := DominantHue(r)] else m
  }

  predicate HasUsableRecord(records: seq<ImageColorData>, id: string) {
    exists i :: 0 <= i < |records| && records[i].track_id == id && Usable(records[i])
  }

  /** `i` is the last position holding a usable record for `id`. */
  predicate LastUsable(records: seq<ImageColorData>, id: string, i: int) {
    && 0 <= i < |records| && records[i].track_id == id && Usable(records[i])
    && forall j :: i < j < |records| && records[j].track_id == id ==> !Usable(records[j])
  }

  method BuildHueMap(records: seq<ImageColorData>) returns (hues: map<string, real>)
    ensures hues == HueMap(records)
  {
    hues := map[];
    var i := 0;
    while i < |records|
      invariant 0 <= i <= |records|
      invariant hues == HueMap(records[..i])
    {
      var r := records[i];
      assert records[..i + 1][..i] == records[..i];
      if r.error.None? && r.hsvs != [] {
        hues := hues[r.track_id := r.hsvs[0].h];
      }
      i := i + 1;
    }
    assert records[..i] == records;
  }

  /** A track id gets a hue iff some record for it is usable. */
  lemma {:induction false} HueMapKeys(records: seq<ImageColorData>, id: string)
    ensures id in HueMap(records) <==> HasUsableRecord(records, id)
  {
    if records != [] {
      var n := |records| - 1;
      var init := records[..n];
      HueMapKeys(init, id);
      if HasUsableRecord(init, id) {
        var i :| 0 <= i < |init| && init[i].track_id == id && Usable(init[i]);
        assert records[i] == init[i];
      }
      if HasUsableRecord(records, id) && !(records[n].track_id == id && Usable(records[n])) {
        var i :| 0 <= i < |records| && records[i].track_id == id && Usable(records[i]);
        assert i < n && init[i] == records[i];
      }
    }
  }

  /** The hue of a track is that of its last usable record: later error or empty records erase nothing. */
  lemma {:induction false} HueMapLastWins(records: seq<ImageColorData>, id: string, i: int)
    requires LastUsable(records, id, i)
    ensures id in HueMap(records) && HueMap(records)[id] == DominantHue(records[i])
  {
    var n := |records| - 1;
    if i < n {
      var init := records[..n];
      assert LastUsable(init, id, i) by {
        forall j | i < j < |init| && init[j].track_id == id ensures !Usable(init[j]) {
          assert init[j] == records[j];
        }
      }
      HueMapLastWins(init, id, i);
    }
  }

  /** The position of the last usable record for `id`. */
  function LastUsableIndex(records: seq<ImageColorData>, id: string): (i: nat)
    requires HasUsableRecord(records, id)
    ensures LastUsable(records, id, i)
  {
    var n := |records| - 1;
    if records[n].track_id == id && Usable(records[n]) then n
    else
      assert HasUsableRecord(records[..n], id) by {
        var i :| 0 <= i < |records| && records[i].track_id == id && Usable(records[i]);
        assert i < n && records[..n][i] == records[i];
      }
      LastUsableIndex(records[..n], id)
  }

  // ---------------------------------------------------------------------------------------
  // Partition into sortable and excluded tracks

  /** The hue write-back `track.hue = track_hues[track.id]`. */
  function WithHue(t: Track, h: real): Track {
    t.(hue := Some(h))
  }

  /** `sortable_tracks` after the partition loop: tracks with a hue, the hue written back. */
  function Sortable(ts: seq<Track>, hues: map<string, real>): seq<Track> {
    if ts == [] then []
    else
      var t := ts[|ts| - 1];
      Sortable(ts[..|ts| - 1], hues) + (if t.id in hues then [WithHue(t, hues[t.id])] else [])
  }

  /** `excluded_tracks` after the partition loop. */
  function Excluded(ts: seq<Track>, hues: map<string, real>): seq<Track> {
    if ts == [] then []
    else
      var t := ts[|ts| - 1];
      Excluded(ts[..|ts| - 1], hues) + (if t.id in hues then [] else [t])
  }

  method PartitionTracks(ts: seq<Track>, hues: map<string, real>) returns (sortable: seq<Track>, excluded: seq<Track>)
    ensures sortable == Sortable(ts, hues)
    ensures excluded == Excluded(ts, hues)
  {
    sortable, excluded := [], [];
    var i := 0;
    while i < |ts|
      invariant 0 <= i <= |ts|
      invariant sortable == Sortable(ts[..i], hues)
      invariant excluded == Excluded(ts[..i], hues)
    {
      var track := ts[i];
      assert ts[..i + 1][..i] == ts[..i];
      if track.id in hues {
        track := track.(hue := Some(hues[track.id]));
        sortable := sortable + [track];
      } else {
        excluded := excluded + [track];
      }
      i := i + 1;
    }
    assert ts[..i] == ts;
  }

  /** Every track lands in exactly one of the two lists, so none is lost or duplicated. */
  lemma PartitionCounts(ts: seq<Track>, hues: map<string, real>)
    ensures |Sortable(ts, hues)| + |Excluded(ts, hues)| == |ts|
    ensures multiset(Ids(Sortable(ts, hues))) + multiset(Ids(Excluded(ts, hues))) == multiset(Ids(ts))
  {
    PartitionSizes(ts, hues);
    PartitionIds(ts, hues);
  }

  lemma {:induction false} PartitionSizes(ts: seq<Track>, hues: map<string, real>)
    ensures |Sortable(ts, hues)| + |Excluded(ts, hues)| == |ts|
  {
    if ts != [] {
      PartitionSizes(ts[..|ts| - 1], hues);
    }
  }

  lemma {:induction false} PartitionIds(ts: seq<Track>, hues: map<string, real>)
    ensures multiset(Ids(Sortable(ts, hues))) + multiset(Ids(Excluded(ts, hues))) == multiset(Ids(ts))
  {
    if ts != [] {
      var n := |ts| - 1;
      PartitionIds(ts[..n], hues);
      IdsLast(ts);
      var ms, me := multiset(Ids(Sortable(ts[..n], hues))), multiset(Ids(Excluded(ts[..n], hues)));
      var x := multiset{ts[n].id};
      if ts[n].id in hues {
        PartitionIdsStepSortable(ts, hues);
        assert multiset(Ids(Sortable(ts, hues))) == ms + x;
        assert multiset(Ids(Excluded(ts, hues))) == me;
      } else {
        PartitionIdsStepExcluded(ts, hues);
        assert multiset(Ids(Sortable(ts, hues))) == ms;
        assert multiset(Ids(Excluded(ts, hues))) == me + x;
      }
    }
  }

  lemma PartitionIdsStepSortable(ts: seq<Track>, hues: map<string, real>)
    requires ts != [] && ts[|ts| - 1].id in hues
    ensures var n := |ts| - 1;
      && multiset(Ids(Sortable(ts, hues))) == multiset(Ids(Sortable(ts[..n], hues))) + multiset{ts[n].id}
      && Excluded(ts, hues) == Excluded(ts[..n], hues)
  {
    var n := |ts| - 1;
    PartitionStep(ts, hues);
    IdsSnoc(Sortable(ts[..n], hues), WithHue(ts[n], hues[ts[n].id]));
    assert Excluded(ts, hues) == Excluded(ts[..n], hues) + [];
  }

  lemma PartitionIdsStepExcluded(ts: seq<Track>, hues: map<string, real>)
    requires ts != [] && ts[|ts| - 1].id !in hues
    ensures var n := |ts| - 1;
      && multiset(Ids(Excluded(ts, hues))) == multiset(Ids(Excluded(ts[..n], hues))) + multiset{ts[n].id}
      && Sortable(ts, hues) == Sortable(ts[..n], hues)
  {
    var n := |ts| - 1;
    PartitionStep(ts, hues);
    IdsSnoc(Excluded(ts[..n], hues), ts[n]);
    assert Sortable(ts, hues) == Sortable(ts[..n], hues) + [];
  }

  /** One step of the partition loop. */
  lemma PartitionStep(ts: seq<Track>, hues: map<string, real>)
    requires ts != []
    ensures var t := ts[|ts| - 1];
      && Sortable(ts, hues) == Sortable(ts[..|ts| - 1], hues) + (if t.id in hues then [WithHue(t, hues[t.id])] else [])
      && Excluded(ts, hues) == Excluded(ts[..|ts| - 1], hues) + (if t.id in hues then [] else [t])
  {
  }

  lemma IdsLast(ts: seq<Track>)
    requires ts != []
    ensures multiset(Ids(ts)) == multiset(Ids(ts[..|ts| - 1])) + multiset{ts[|ts| - 1].id}
  {
  }

  lemma IdsSnoc(ts: seq<Track>, t: Track)
    ensures Ids(ts + [t]) == Ids(ts) + [t.id]
    ensures multiset(Ids(ts + [t])) == multiset(Ids(ts)) + multiset{t.id}
  {
    assert (ts + [t])[..|ts|] == ts;
  }

  /** The sortable list holds exactly the tracks with a hue, each with that hue written back. */
  lemma {:induction false} SortableMembers(ts: seq<Track>, hues: map<string, real>, u: Track)
    ensures u in Sortable(ts, hues) <==>
      exists i :: 0 <= i < |ts| && ts[i].id in hues && u == WithHue(ts[i], hues[ts[i].id])
  {
    if ts != [] {
      var n := |ts| - 1;
      SortableMembers(ts[..n], hues, u);
      if exists i :: 0 <= i < |ts| && ts[i].id in hues && u == WithHue(ts[i], hues[ts[i].id]) {
        var i :| 0 <= i < |ts| && ts[i].id in hues && u == WithHue(ts[i], hues[ts[i].id]);
        if i < n {
          assert ts[..n][i] == ts[i];
        }
      }
      if exists i :: 0 <= i < n && ts[..n][i].id in hues && u == WithHue(ts[..n][i], hues[ts[..n][i].id]) {
        var i :| 0 <= i < n && ts[..n][i].id in hues && u == WithHue(ts[..n][i], hues[ts[..n][i].id]);
        assert ts[i] == ts[..n][i];
      }
    }
  }

  /** The excluded list holds exactly the tracks without a hue. */
  lemma {:induction false} ExcludedMembers(ts: seq<Track>, hues: map<string, real>, u: Track)
    ensures u in Excluded(ts, hues) <==> u in ts && u.id !in hues
  {
    if ts != [] {
      var n := |ts| - 1;
      ExcludedMembers(ts[..n], hues, u);
      assert ts == ts[..n] + [ts[n]];
    }
  }

  /** Every sortable track has its hue set, to the map's value for its id. */
  lemma {:induction false} SortableHaveHues(ts: seq<Track>, hues: map<string, real>)
    ensures forall u :: u in Sortable(ts, hues) ==> u.id in hues && u.hue == Some(hues[u.id])
  {
    if ts != [] {
      SortableHaveHues(ts[..|ts| - 1], hues);
    }
  }

  // ---------------------------------------------------------------------------------------
  // The stable sort `sortable_tracks.sort(key=lambda t: t.hue if t.hue is not None else float('inf'))`

  /** The sort key: the hue, or +infinity for a track without one. */
  datatype SortKey = Finite(h: real) | Infinite

  function KeyOf(t: Track): (k: SortKey)
    ensures k.Finite? <==> t.hue.Some?
    ensures k.Finite? ==> k.h == t.hue.value
  {
    if t.hue.Some? then Finite(t.hue.value) else Infinite
  }

  /** The order Python's `<` gives on floats including infinity. */
  predicate KeyLe(a: SortKey, b: SortKey) {
    b.Infinite? || (a.Finite? && a.h <= b.h)
  }

  predicate SortedByKey(s: seq<Track>) {
    forall i, j :: 0 <= i < j < |s| ==> KeyLe(KeyOf(s[i]), KeyOf(s[j]))
  }

  /** The tracks of `s` whose key is `k`, in their order in `s`. */
  function WithKey(s: seq<Track>, k: SortKey): seq<Track> {
    if s == [] then [] else (if KeyOf(s[0]) == k then [s[0]] else []) + WithKey(s[1..], k)
  }

  /** Inserts `t` before the first element whose key is not below its own. */
  function Insert(t: Track, s: seq<Track>): (r: seq<Track>)
    ensures |r| == |s| + 1
  {
    if s == [] || KeyLe(KeyOf(t), KeyOf(s[0])) then [t] + s else [s[0]] + Insert(t, s[1..])
  }

  /** Python's stable `list.sort` by `KeyOf`, as an insertion sort. */
  function StableSortByHue(s: seq<Track>): (r: seq<Track>)
    ensures |r| == |s|
  {
    if s == [] then [] else Insert(s[0], StableSortByHue(s[1..]))
  }

  lemma {:induction false} InsertPermutes(t: Track, s: seq<Track>)
    ensures multiset(Insert(t, s)) == multiset(s) + multiset{t}
  {
    if s != [] && !KeyLe(KeyOf(t), KeyOf(s[0])) {
      InsertPermutes(t, s[1..]);
      assert s == [s[0]] + s[1..];
    }
  }

  lemma {:induction false} InsertSorted(t: Track, s: seq<Track>)
    requires SortedByKey(s)
    ensures SortedByKey(Insert(t, s))
  {
    if s != [] && !KeyLe(KeyOf(t), KeyOf(s[0])) {
      InsertSorted(t, s[1..]);
      InsertPermutes(t, s[1..]);
      var rest := Insert(t, s[1..]);
      forall j | 0 <= j < |rest| ensures KeyLe(KeyOf(s[0]), KeyOf(rest[j])) {
        assert rest[j] in multiset(s[1..]) + multiset{t};
        if rest[j] != t {
          var m :| 0 <= m < |s[1..]| && s[1..][m] == rest[j];
          assert s[m + 1] == rest[j];
        }
      }
    }
  }

  /** The sort returns a permutation of its input. */
  lemma {:induction false} SortPermutes(s: seq<Track>)
    ensures multiset(StableSortByHue(s)) == multiset(s)
  {
    if s != [] {
      SortPermutes(s[1..]);
      InsertPermutes(s[0], StableSortByHue(s[1..]));
      assert s == [s[0]] + s[1..];
    }
  }

  /** The sort returns its input in non-decreasing key order. */
  lemma {:induction false} SortSorts(s: seq<Track>)
    ensures SortedByKey(StableSortByHue(s))
  {
    if s != [] {
      SortSorts(s[1..]);
      InsertSorted(s[0], StableSortByHue(s[1..]));
    }
  }

  lemma {:induction false} InsertWithKey(t: Track, s: seq<Track>, k: SortKey)
    ensures WithKey(Insert(t, s), k) == (if KeyOf(t) == k then [t] else []) + WithKey(s, k)
  {
    if s == [] || KeyLe(KeyOf(t), KeyOf(s[0])) {
      assert ([t] + s)[1..] == s;
    } else {
      InsertWithKey(t, s[1..], k);
      assert ([s[0]] + Insert(t, s[1..]))[1..] == Insert(t, s[1..]);
    }
  }

  /** Stability: the tracks sharing a key keep their relative input order. */
  lemma {:induction false} SortStable(s: seq<Track>, k: SortKey)
    ensures WithKey(StableSortByHue(s), k) == WithKey(s, k)
  {
    if s != [] {
      SortStable(s[1..], k);
      InsertWithKey(s[0], StableSortByHue(s[1..]), k);
    }
  }

  lemma {:induction false} WithKeyMembers(s: seq<Track>, k: SortKey, u: Track)
    ensures u in WithKey(s, k) <==> u in s && KeyOf(u) == k
  {
    if s != [] {
      WithKeyMembers(s[1..], k, u);
      assert s == [s[0]] + s[1..];
    }
  }

  /** A sorted sequence whose equal-key groups are those of `s` is unique, so any stable sort agrees with this one. */
  lemma {:induction false} StableSortUnique(a: seq<Track>, b: seq<Track>)
    requires SortedByKey(a) && SortedByKey(b)
    requires forall k :: WithKey(a, k) == WithKey(b, k)
    ensures a == b
    decreases |a|
  {
    if a != [] {
      WithKeyMembers(a, KeyOf(a[0]), a[0]);
      WithKeyMembers(b, KeyOf(a[0]), a[0]);
    }
    if b != [] {
      WithKeyMembers(b, KeyOf(b[0]), b[0]);
      WithKeyMembers(a, KeyOf(b[0]), b[0]);
    }
    if a != [] {
      var ka, kb := KeyOf(a[0]), KeyOf(b[0]);
      assert WithKey(a, ka)[0] == a[0];
      assert WithKey(b, kb)[0] == b[0];
      WithKeyMembers(b, ka, a[0]);
      WithKeyMembers(a, kb, b[0]);
      var ib :| 0 <= ib < |b| && b[ib] == a[0];
      var ia :| 0 <= ia < |a| && a[ia] == b[0];
      assert KeyLe(kb, ka) by { if ib > 0 { assert KeyLe(KeyOf(b[0]), KeyOf(b[ib])); } }
      assert KeyLe(ka, kb) by { if ia > 0 { assert KeyLe(KeyOf(a[0]), KeyOf(a[ia])); } }
      assert ka == kb;
      assert a[0] == b[0];
      forall k ensures WithKey(a[1..], k) == WithKey(b[1..], k) {
        var p: seq<Track> := if ka == k then [a[0]] else [];
        assert WithKey(a, k) == p + WithKey(a[1..], k);
        assert WithKey(b, k) == p + WithKey(b[1..], k);
        assert WithKey(a[1..], k) == (p + WithKey(a[1..], k))[|p|..];
        assert WithKey(b[1..], k) == (p + WithKey(b[1..], k))[|p|..];
      }
      StableSortUnique(a[1..], b[1..]);
      assert a == [a[0]] + a[1..] && b == [b[0]] + b[1..];
    }
  }

  /** Sorting an already sorted sequence changes nothing. */
  lemma SortIdempotent(s: seq<Track>)
    requires SortedByKey(s)
    ensures StableSortByHue(s) == s
  {
    SortSorts(s);
    forall k ensures WithKey(StableSortByHue(s), k) == WithKey(s, k) {
      SortStable(s, k);
    }
    StableSortUnique(StableSortByHue(s), s);
  }

  // ---------------------------------------------------------------------------------------
  // The markdown listing

  /** The line written for one track (the f-string at src/chromalist/playlist_sorting.py:100). */
  function ImageLine(t: Track): string {
    "<img src=\"" + t.album_art_url + "\" alt=\"" + t.name + " (" + t.artist + ")\" width=\"64\" height=\"64\">\n"
  }

  /** The file's content: the lines, one after the other. */
  function Concat(lines: seq<string>): string {
    if lines == [] then "" else Concat(lines[..|lines| - 1]) + lines[|lines| - 1]
  }

  method RenderImageLines(ts: seq<Track>) returns (lines: seq<string>)
    ensures |lines| == |ts|
    ensures forall i :: 0 <= i < |ts| ==> lines[i] == ImageLine(ts[i])
  {
    lines := [];
    for i := 0 to |ts|
      invariant |lines| == i
      invariant forall j :: 0 <= j < i ==> lines[j] == ImageLine(ts[j])
    {
      lines := lines + [ImageLine(ts[i])];
    }
  }

  predicate NoNewline(s: string) {
    forall i :: 0 <= i < |s| ==> s[i] != '\n'
  }

  /** A track whose url, name and artist hold no newline gives exactly one line, ended by a newline. */
  lemma ImageLineIsOneLine(t: Track)
    requires NoNewline(t.album_art_url) && NoNewline(t.name) && NoNewline(t.artist)
    ensures CountChar(ImageLine(t), '\n') == 1
    ensures ImageLine(t)[|ImageLine(t)| - 1] == '\n'
  {
    var body := ImageLine(t)[..|ImageLine(t)| - 1];
    assert ImageLine(t) == body + "\n";
    assert NoNewline(body);
    CountCharAbsent(body, '\n');
    CountCharAppend(body, "\n", '\n');
    assert CountChar("\n", '\n') == CountChar("", '\n') + 1 by {
      assert "\n"[..0] == "";
    }
  }

  /** The listing has as many lines as there are sorted tracks. */
  lemma {:induction false} ListingLineCount(ts: seq<Track>, lines: seq<string>)
    requires |lines| == |ts|
    requires forall i :: 0 <= i < |ts| ==> lines[i] == ImageLine(ts[i])
    requires forall i :: 0 <= i < |ts| ==>
      NoNewline(ts[i].album_art_url) && NoNewline(ts[i].name) && NoNewline(ts[i].artist)
    ensures CountChar(Concat(lines), '\n') == |ts|
  {
    if lines != [] {
      var n := |lines| - 1;
      ListingLineCount(ts[..n], lines[..n]);
      CountCharAppend(Concat(lines[..n]), lines[n], '\n');
      ImageLineIsOneLine(ts[n]);
    }
  }

  // ---------------------------------------------------------------------------------------
  // sort_playlist_by_hue

  /** What `sort_playlist_by_hue` returns and writes: the sorted playlist (to sorted-playlist.json),
      the number of excluded tracks, and the lines of sorted-playlist-images.md. */
  datatype SortOutcome = SortOutcome(playlist: Playlist, excludedCount: nat, markdownLines: seq<string>)

  function ColoursNotFoundMessage(path: string): string {
    "Image colors file not found: " + path + "\n" + "Please run 'process-images' first to extract color data."
  }

  /** The tracks of the sorted playlist. */
  function SortedTracks(ts: seq<Track>, records: seq<ImageColorData>): seq<Track> {
    StableSortByHue(Sortable(ts, HueMap(records)))
  }

  method SortPlaylistByHue(fp: FilePaths, existing: set<string>, playlist: Playlist, records: seq<ImageColorData>)
    returns (r: Result<SortOutcome>)
    ensures fp.PlaylistPath() !in existing ==> r == Failure(PlaylistNotFoundMessage(fp.PlaylistPath()))
    ensures fp.PlaylistPath() in existing && fp.ImageColoursPath() !in existing ==>
      r == Failure(ColoursNotFoundMessage(fp.ImageColoursPath()))
    ensures fp.PlaylistPath() in existing && fp.ImageColoursPath() in existing ==>
      && r.Success?
      && r.value.playlist == Playlist(playlist.id, playlist.name, playlist.description, SortedTracks(playlist.tracks, records))
      && r.value.excludedCount == |Excluded(playlist.tracks, HueMap(records))|
      && |r.value.markdownLines| == |r.value.playlist.tracks|
      && forall i :: 0 <= i < |r.value.markdownLines| ==> r.value.markdownLines[i] == ImageLine(r.value.playlist.tracks[i])
  {
    if fp.PlaylistPath() !in existing {
      return Failure(PlaylistNotFoundMessage(fp.PlaylistPath()));
    }
    if fp.ImageColoursPath() !in existing {
      return Failure(ColoursNotFoundMessage(fp.ImageColoursPath()));
    }
    var hues := BuildHueMap(records);
    var sortable, excluded := PartitionTracks(playlist.tracks, hues);
    sortable := StableSortByHue(sortable);
    var sorted := Playlist(playlist.id, playlist.name, playlist.description, sortable);
    var lines := RenderImageLines(sortable);
    return Success(SortOutcome(sorted, |excluded|, lines));
  }

  // ---------------------------------------------------------------------------------------
  // What the sorted playlist is

  /** The output holds exactly the input tracks that have a usable record, each carrying the
      dominant hue of the last usable record for its id. */
  lemma SortedTracksMembers(ts: seq<Track>, records: seq<ImageColorData>, u: Track)
    ensures u in SortedTracks(ts, records) <==>
      exists i :: 0 <= i < |ts| && HasUsableRecord(records, ts[i].id) &&
        u == WithHue(ts[i], DominantHue(records[LastUsableIndex(records, ts[i].id)]))
  {
    var hues := HueMap(records);
    SortPermutes(Sortable(ts, hues));
    assert u in SortedTracks(ts, records) <==> u in Sortable(ts, hues) by {
      assert u in SortedTracks(ts, records) <==> u in multiset(SortedTracks(ts, records));
    }
    SortableMembers(ts, hues, u);
    forall i | 0 <= i < |ts|
      ensures ts[i].id in hues <==> HasUsableRecord(records, ts[i].id)
      ensures ts[i].id in hues ==> hues[ts[i].id] == DominantHue(records[LastUsableIndex(records, ts[i].id)])
    {
      HueMapKeys(records, ts[i].id);
      if ts[i].id in hues {
        HueMapLastWins(records, ts[i].id, LastUsableIndex(records, ts[i].id));
      }
    }
  }

  /** A track is excluded iff no usable record exists for its id. */
  lemma ExcludedTracksMembers(ts: seq<Track>, records: seq<ImageColorData>, u: Track)
    ensures u in Excluded(ts, HueMap(records)) <==> u in ts && !HasUsableRecord(records, u.id)
  {
    ExcludedMembers(ts, HueMap(records), u);
    HueMapKeys(records, u.id);
  }

  /** Output size plus excluded count is the input size; output ids are a sub-multiset of input ids. */
  lemma SortedTracksCount(ts: seq<Track>, records: seq<ImageColorData>)
    ensures |SortedTracks(ts, records)| + |Excluded(ts, HueMap(records))| == |ts|
    ensures multiset(Ids(SortedTracks(ts, records))) <= multiset(Ids(ts))
  {
    var hues := HueMap(records);
    var s := Sortable(ts, hues);
    SortPermutes(s);
    PartitionCounts(ts, hues);
    assert |SortedTracks(ts, records)| == |s| by {
      assert |multiset(SortedTracks(ts, records))| == |multiset(s)|;
    }
    IdsOfPermutation(SortedTracks(ts, records), s);
  }

  lemma {:induction false} IdsOfPermutation(a: seq<Track>, b: seq<Track>)
    requires multiset(a) == multiset(b)
    ensures multiset(Ids(a)) == multiset(Ids(b))
    decreases |a|
  {
    if a != [] {
      var x := a[|a| - 1];
      assert x in multiset(b);
      var j :| 0 <= j < |b| && b[j] == x;
      var a', b' := a[..|a| - 1], b[..j] + b[j + 1..];
      assert a == a' + [x];
      assert b == b[..j] + [x] + b[j + 1..];
      assert multiset(a) == multiset(a') + multiset{x};
      assert multiset(b) == multiset(b[..j]) + multiset{x} + multiset(b[j + 1..]);
      assert multiset(b') == multiset(b[..j]) + multiset(b[j + 1..]);
      assert multiset(a') == multiset(a) - multiset{x};
      assert multiset(b') == multiset(b) - multiset{x};
      IdsOfPermutation(a', b');
      IdsSplit(b[..j], x, b[j + 1..]);
      IdsConcat(b[..j], b[j + 1..]);
    } else {
      assert |multiset(b)| == 0;
    }
  }

  lemma {:induction false} IdsConcat(a: seq<Track>, b: seq<Track>)
    ensures Ids(a + b) == Ids(a) + Ids(b)
  {
    assert |Ids(a + b)| == |Ids(a) + Ids(b)|;
    forall i | 0 <= i < |a + b| ensures Ids(a + b)[i] == (Ids(a) + Ids(b))[i] {
      if i < |a| { assert (a + b)[i] == a[i]; } else { assert (a + b)[i] == b[i - |a|]; }
    }
  }

  lemma IdsSplit(a: seq<Track>, x: Track, b: seq<Track>)
    ensures multiset(Ids(a + [x] + b)) == multiset(Ids(a + b)) + multiset{x.id}
  {
    IdsConcat(a + [x], b);
    IdsConcat(a, [x]);
    IdsConcat(a, b);
  }

  /** The output is in non-decreasing hue order, and tracks of equal hue keep their input order. */
  lemma SortedTracksOrdered(ts: seq<Track>, records: seq<ImageColorData>)
    ensures SortedByKey(SortedTracks(ts, records))
    ensures forall k :: WithKey(SortedTracks(ts, records), k) == WithKey(Sortable(ts, HueMap(records)), k)
  {
    SortSorts(Sortable(ts, HueMap(records)));
    forall k ensures WithKey(SortedTracks(ts, records), k) == WithKey(Sortable(ts, HueMap(records)), k) {
      SortStable(Sortable(ts, HueMap(records)), k);
    }
  }

  /** Each output track's hue is the dominant hue of the last usable record for its id, so the
      `float('inf')` fallback of the key is never used. */
  lemma SortedTracksHue(ts: seq<Track>, records: seq<ImageColorData>, u: Track)
    requires u in SortedTracks(ts, records)
    ensures HasUsableRecord(records, u.id)
    ensures u.hue == Some(DominantHue(records[LastUsableIndex(records, u.id)]))
    ensures KeyOf(u).Finite?
  {
    var hues := HueMap(records);
    SortPermutes(Sortable(ts, hues));
    assert u in multiset(SortedTracks(ts, records));
    SortableHaveHues(ts, hues);
    HueMapKeys(records, u.id);
    HueMapLastWins(records, u.id, LastUsableIndex(records, u.id));
  }

  /** The playlist's id, name and description pass through; an empty playlist gives an empty one. */
  lemma EmptyPlaylist(records: seq<ImageColorData>)
    ensures SortedTracks([], records) == [] && |Excluded([], HueMap(records))| == 0
  {
  }

  /** Sorting the sorted output again, with the same records, changes nothing. */
  lemma SortedTracksIdempotent(ts: seq<Track>, records: seq<ImageColorData>)
    ensures SortedTracks(SortedTracks(ts, records), records) == SortedTracks(ts, records)
  {
    var hues := HueMap(records);
    var out := SortedTracks(ts, records);
    SortPermutes(Sortable(ts, hues));
    SortableHaveHues(ts, hues);
    forall i | 0 <= i < |out| ensures out[i].id in hues && out[i].hue == Some(hues[out[i].id]) {
      assert out[i] in multiset(out);
    }
    SortableKeepsTagged(out, hues);
    SortedTracksOrdered(ts, records);
    SortIdempotent(out);
  }

  /** Tracks that already carry their map hue pass through the partition unchanged. */
  lemma {:induction false} SortableKeepsTagged(ts: seq<Track>, hues: map<string, real>)
    requires forall i :: 0 <= i < |ts| ==> ts[i].id in hues && ts[i].hue == Some(hues[ts[i].id])
    ensures Sortable(ts, hues) == ts
  {
    if ts != [] {
      var n := |ts| - 1;
      var init := ts[..n];
      assert forall i :: 0 <= i < n ==> init[i] == ts[i];
      SortableKeepsTagged(init, hues);
      assert WithHue(ts[n], hues[ts[n].id]) == ts[n];
      assert ts == init + [ts[n]];
    }
  }
}
