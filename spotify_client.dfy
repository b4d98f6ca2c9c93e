/** Assembling a playlist from the pages the streaming API returns, and the guard of the
    album-art download (src/chromalist/spotify_client.py, `SpotifyClient`).

    The network is replaced by its answers: `data` is the response to the playlist request,
    whose `tracks` is the first page of items, and `following` lists the pages that successive
    `next` requests return. A `next` request once `following` is used up ends the loop, as a
    page without a `next` link does. */
module SpotifyClient {
  import opened Models
  import opened Files

  newtype byte = x: int | 0 <= x < 256

  datatype Image = Image(url: string)
  datatype Artist = Artist(name: string)
  datatype Album = Album(name: string, images: seq<Image>)
  datatype TrackData = TrackData(id: string, name: string, artists: seq<Artist>, album: Album)

  /** A playlist item; `track` is null for local files and unavailable tracks. */
  datatype Item = Item(track: Option<TrackData>)

  /** A page of items and the link to the next page, if any. */
  datatype Page = Page(items: seq<Item>, next: Option<string>)

  /** The playlist response; `description` is absent when the response has no such key. */
  datatype PlaylistData = PlaylistData(id: string, name: string, description: Option<string>, tracks: Page)

  /** `if results["next"]:` — a link that is present and non-empty. */
  predicate HasNext(p: Page) {
    p.next.Some? && p.next.value != ""
  }

  /** The pages the `while results:` loop visits, starting at `first`. */
  function Visited(first: Page, following: seq<Page>): (pages: seq<Page>)
    ensures 1 <= |pages| <= |following| + 1
    decreases |following|
  {
    if HasNext(first) && following != [] then [first] + Visited(following[0], following[1..]) else [first]
  }

  /** The track objects of the non-null items, in item order. */
  function ItemTracks(items: seq<Item>): seq<TrackData> {
    if items == [] then []
    else
      var last := items[|items| - 1];
      ItemTracks(items[..|items| - 1]) + (if last.track.Some? then [last.track.value] else [])
  }

  /** The track objects of the non-null items of all pages, page after page. */
  function PagesTracks(pages: seq<Page>): seq<TrackData> {
    if pages == [] then [] else PagesTracks(pages[..|pages| - 1]) + ItemTracks(pages[|pages| - 1].items)
  }

  /** The Track built from one track object: the first image's URL (or ""), the first artist's
      name (or "Unknown"), and no hue yet. */
  function ToTrack(td: TrackData): (t: Track)
    ensures t.id == td.id && t.name == td.name && t.album_name == td.album.name && t.hue.None?
    ensures td.artists != [] ==> t.artist == td.artists[0].name
    ensures td.artists == [] ==> t.artist == "Unknown"
    ensures td.album.images != [] ==> t.album_art_url == td.album.images[0].url
    ensures td.album.images == [] ==> t.album_art_url == ""
  {
    Track(
      td.id,
      td.name,
      if td.artists != [] then td.artists[0].name else "Unknown",
      td.album.name,
      if td.album.images != [] then td.album.images[0].url else "",
      None)
  }

  /** `ToTrack` applied to each track object. */
  function ToTracks(tds: seq<TrackData>): (ts: seq<Track>)
    ensures |ts| == |tds|
  {
    if tds == [] then [] else ToTracks(tds[..|tds| - 1]) + [ToTrack(tds[|tds| - 1])]
  }

  lemma {:induction false} ToTracksAt(tds: seq<TrackData>, i: int)
    requires 0 <= i < |tds|
    ensures ToTracks(tds)[i] == ToTrack(tds[i])
  {
    if i < |tds| - 1 {
      ToTracksAt(tds[..|tds| - 1], i);
    }
  }

  /** `playlist_data.get("description", "")`. */
  function DescriptionOf(data: PlaylistData): string {
    if data.description.Some? then data.description.value else ""
  }

  /** The playlist `get_playlist` returns for these responses. */
  function AssembledPlaylist(data: PlaylistData, following: seq<Page>): Playlist {
    Playlist(data.id, data.name, DescriptionOf(data), ToTracks(PagesTracks(Visited(data.tracks, following))))
  }

  /** The Tracks one item contributes: one for a non-null track, none for a null one. */
  function ItemContribution(item: Item): seq<Track> {
    if item.track.Some? then [ToTrack(item.track.value)] else []
  }

  lemma ItemStep(items: seq<Item>, j: int)
    requires 0 <= j < |items|
    ensures ToTracks(ItemTracks(items[..j + 1])) == ToTracks(ItemTracks(items[..j])) + ItemContribution(items[j])
  {
    assert items[..j + 1][..j] == items[..j];
    var prev := ItemTracks(items[..j]);
    if items[j].track.Some? {
      ToTracksSnoc(prev, items[j].track.value);
    } else {
      assert ItemTracks(items[..j + 1]) == prev;
    }
  }

  /** The inner `for item in results["items"]` loop, appending to `tracks`. */
  method AppendPageTracks(tracks: seq<Track>, page: Page) returns (out: seq<Track>)
    ensures out == tracks + ToTracks(ItemTracks(page.items))
  {
    out := tracks;
    for j := 0 to |page.items|
      invariant out == tracks + ToTracks(ItemTracks(page.items[..j]))
    {
      var item := page.items[j];
      ItemStep(page.items, j);
      if item.track.Some? {
        out := out + [ToTrack(item.track.value)];
      }
      assert out == tracks + (ToTracks(ItemTracks(page.items[..j])) + ItemContribution(item));
    }
    assert page.items[..|page.items|] == page.items;
  }

  /** The tracks the loop still has to append, from `results` on. */
  function Remaining(results: Option<Page>, rest: seq<Page>): seq<Track> {
    if results.Some? then ToTracks(PagesTracks(Visited(results.value, rest))) else []
  }

  /** A page with a link to an unread response: its tracks, then those from the next page on. */
  lemma RemainingFollow(page: Page, rest: seq<Page>)
    requires HasNext(page) && rest != []
    ensures Remaining(Some(page), rest) == ToTracks(ItemTracks(page.items)) + Remaining(Some(rest[0]), rest[1..])
  {
    VisitedStep(page, rest);
    ToTracksConcat(ItemTracks(page.items), PagesTracks(Visited(rest[0], rest[1..])));
  }

  /** The last page visited: only its own tracks remain. */
  lemma RemainingLast(page: Page, rest: seq<Page>)
    requires !(HasNext(page) && rest != [])
    ensures Remaining(Some(page), rest) == ToTracks(ItemTracks(page.items))
  {
    assert Visited(page, rest) == [page];
    PagesTracksCons(page, []);
    assert [page] + [] == [page];
    assert PagesTracks([]) == [];
    assert PagesTracks([page]) == ItemTracks(page.items);
    assert Remaining(Some(page), rest) == ToTracks(PagesTracks([page]));
  }

  /** One turn of the `while results:` loop: append the page's tracks, then follow its link. */
  method VisitPage(tracks: seq<Track>, page: Page, rest: seq<Page>)
    returns (tracks': seq<Track>, results': Option<Page>, rest': seq<Page>)
    ensures tracks' == tracks + ToTracks(ItemTracks(page.items))
    ensures HasNext(page) && rest != [] ==> results' == Some(rest[0]) && rest' == rest[1..]
    ensures !(HasNext(page) && rest != []) ==> results'.None? && rest' == rest
    ensures tracks' + Remaining(results', rest') == tracks + Remaining(Some(page), rest)
    ensures |rest'| + (if results'.Some? then 1 else 0) < |rest| + 1
  {
    tracks' := AppendPageTracks(tracks, page);
    ghost var own := ToTracks(ItemTracks(page.items));
    if HasNext(page) && rest != [] {
      RemainingFollow(page, rest);
      results', rest' := Some(rest[0]), rest[1..];
    } else {
      RemainingLast(page, rest);
      results', rest' := None, rest;
    }
    ghost var later := Remaining(results', rest');
    assert Remaining(Some(page), rest) == own + later;
    ConcatAssociative(tracks, own, later);
  }

  lemma ConcatAssociative(a: seq<Track>, b: seq<Track>, c: seq<Track>)
    ensures (a + b) + c == a + (b + c)
  {
  }

  /** `get_playlist`: the page loop and the resulting playlist. */
  method GetPlaylist(data: PlaylistData, following: seq<Page>) returns (p: Playlist)
    ensures p == AssembledPlaylist(data, following)
  {
    var tracks: seq<Track> := [];
    var results: Option<Page> := Some(data.tracks);
    var rest := following;
    while results.Some?
      invariant tracks + Remaining(results, rest) == Remaining(Some(data.tracks), following)
      decreases |rest| + (if results.Some? then 1 else 0)
    {
      tracks, results, rest := VisitPage(tracks, results.value, rest);
    }
    assert tracks + Remaining(results, rest) == tracks;
    p := Playlist(data.id, data.name, DescriptionOf(data), tracks);
  }

  lemma ToTracksSnoc(tds: seq<TrackData>, td: TrackData)
    ensures ToTracks(tds + [td]) == ToTracks(tds) + [ToTrack(td)]
  {
    assert (tds + [td])[..|tds|] == tds;
  }

  lemma {:induction false} ToTracksConcat(a: seq<TrackData>, b: seq<TrackData>)
    ensures ToTracks(a + b) == ToTracks(a) + ToTracks(b)
  {
    if b == [] {
      assert a + b == a;
    } else {
      var n := |b| - 1;
      ToTracksConcat(a, b[..n]);
      assert (a + b)[..|a + b| - 1] == a + b[..n];
      assert (a + b)[|a + b| - 1] == b[n];
      calc {
        ToTracks(a + b);
        ToTracks(a + b[..n]) + [ToTrack(b[n])];
        (ToTracks(a) + ToTracks(b[..n])) + [ToTrack(b[n])];
        ToTracks(a) + (ToTracks(b[..n]) + [ToTrack(b[n])]);
        ToTracks(a) + ToTracks(b);
      }
    }
  }

  lemma VisitedStep(page: Page, rest: seq<Page>)
    requires HasNext(page) && rest != []
    ensures PagesTracks(Visited(page, rest)) == ItemTracks(page.items) + PagesTracks(Visited(rest[0], rest[1..]))
  {
    PagesTracksCons(page, Visited(rest[0], rest[1..]));
  }

  /** `PagesTracks` is a concatenation: the tracks of a first page come before the others. */
  lemma {:induction false} PagesTracksCons(page: Page, pages: seq<Page>)
    ensures PagesTracks([page] + pages) == ItemTracks(page.items) + PagesTracks(pages)
  {
    if pages == [] {
      assert PagesTracks([page]) == PagesTracks([]) + ItemTracks(page.items);
    } else {
      var n := |pages| - 1;
      PagesTracksCons(page, pages[..n]);
      assert ([page] + pages)[..|[page] + pages| - 1] == [page] + pages[..n];
    }
  }

  /** The tracks of two runs of pages are the tracks of the first run followed by those of the second. */
  lemma {:induction false} PagesTracksConcat(ps: seq<Page>, qs: seq<Page>)
    ensures PagesTracks(ps + qs) == PagesTracks(ps) + PagesTracks(qs)
  {
    if qs == [] {
      assert ps + qs == ps;
    } else {
      var n := |qs| - 1;
      PagesTracksConcat(ps, qs[..n]);
      assert (ps + qs)[..|ps + qs| - 1] == ps + qs[..n];
      assert (ps + qs)[|ps + qs| - 1] == qs[n];
      calc {
        PagesTracks(ps + qs);
        PagesTracks(ps + qs[..n]) + ItemTracks(qs[n].items);
        (PagesTracks(ps) + PagesTracks(qs[..n])) + ItemTracks(qs[n].items);
        PagesTracks(ps) + (PagesTracks(qs[..n]) + ItemTracks(qs[n].items));
        PagesTracks(ps) + PagesTracks(qs);
      }
    }
  }

  /** Items are processed in order: the non-null tracks of two runs of items are concatenated. */
  lemma {:induction false} ItemTracksConcat(a: seq<Item>, b: seq<Item>)
    ensures ItemTracks(a + b) == ItemTracks(a) + ItemTracks(b)
  {
    if b == [] {
      assert a + b == a;
    } else {
      var n := |b| - 1;
      ItemTracksConcat(a, b[..n]);
      assert (a + b)[..|a + b| - 1] == a + b[..n];
      assert (a + b)[|a + b| - 1] == b[n];
      var last := if b[n].track.Some? then [b[n].track.value] else [];
      calc {
        ItemTracks(a + b);
        ItemTracks(a + b[..n]) + last;
        (ItemTracks(a) + ItemTracks(b[..n])) + last;
        ItemTracks(a) + (ItemTracks(b[..n]) + last);
        ItemTracks(a) + ItemTracks(b);
      }
    }
  }

  /** Number of items with a non-null track. */
  function PresentCount(items: seq<Item>): nat {
    if items == [] then 0 else PresentCount(items[..|items| - 1]) + (if items[|items| - 1].track.Some? then 1 else 0)
  }

  lemma {:induction false} ItemTracksCount(items: seq<Item>)
    ensures |ItemTracks(items)| == PresentCount(items)
  {
    if items != [] {
      ItemTracksCount(items[..|items| - 1]);
    }
  }

  lemma {:induction false} ItemTracksMember(items: seq<Item>, td: TrackData)
    ensures td in ItemTracks(items) <==> Item(Some(td)) in items
  {
    if items != [] {
      var n := |items| - 1;
      ItemTracksMember(items[..n], td);
      assert items == items[..n] + [items[n]];
    }
  }

  /** Every non-null item yields exactly one track, null items yield none, and a track object is
      kept iff some item holds it. */
  lemma {:induction false} ItemTracksSkipsNull(items: seq<Item>)
    ensures |ItemTracks(items)| == PresentCount(items)
    ensures forall td :: td in ItemTracks(items) <==> Item(Some(td)) in items
  {
    ItemTracksCount(items);
    forall td ensures td in ItemTracks(items) <==> Item(Some(td)) in items {
      ItemTracksMember(items, td);
    }
  }

  /** Number of non-null items over all pages. */
  function PagesPresent(pages: seq<Page>): nat {
    if pages == [] then 0 else PagesPresent(pages[..|pages| - 1]) + PresentCount(pages[|pages| - 1].items)
  }

  /** One track per non-null item, over all pages. */
  lemma {:induction false} PagesTracksCount(pages: seq<Page>)
    ensures |PagesTracks(pages)| == PagesPresent(pages)
  {
    if pages != [] {
      PagesTracksCount(pages[..|pages| - 1]);
      ItemTracksCount(pages[|pages| - 1].items);
    }
  }

  /** A track object is kept iff a non-null item of one of the pages holds it. */
  lemma {:induction false} PagesTracksMembers(pages: seq<Page>, td: TrackData)
    ensures td in PagesTracks(pages) <==> exists k :: 0 <= k < |pages| && Item(Some(td)) in pages[k].items
  {
    if pages != [] {
      var n := |pages| - 1;
      var init := pages[..n];
      PagesTracksMembers(init, td);
      ItemTracksMember(pages[n].items, td);
      assert PagesTracks(pages) == PagesTracks(init) + ItemTracks(pages[n].items);
      assert forall k :: 0 <= k < n ==> init[k] == pages[k];
    }
  }

  /** The pages visited: the first response, then `following` in order, each reached by a
      `next` link of the page before it; the last page has no link, or `following` is used up. */
  lemma {:induction false} VisitedPages(first: Page, following: seq<Page>)
    ensures Visited(first, following)[0] == first
    ensures forall i :: 1 <= i < |Visited(first, following)| ==> Visited(first, following)[i] == following[i - 1]
    ensures forall i :: 0 <= i < |Visited(first, following)| - 1 ==> HasNext(Visited(first, following)[i])
    ensures var v := Visited(first, following);
      !HasNext(v[|v| - 1]) || |v| == |following| + 1
    decreases |following|
  {
    if HasNext(first) && following != [] {
      VisitedPages(following[0], following[1..]);
    }
  }

  /** Each track of the playlist comes from one non-null item of a visited page, in order, with
      the image and artist defaults. */
  lemma AssembledTracks(data: PlaylistData, following: seq<Page>)
    ensures var p := AssembledPlaylist(data, following);
      var tds := PagesTracks(Visited(data.tracks, following));
      && p.id == data.id && p.name == data.name
      && (data.description.None? ==> p.description == "")
      && (data.description.Some? ==> p.description == data.description.value)
      && |p.tracks| == |tds| == PagesPresent(Visited(data.tracks, following))
      && forall i :: 0 <= i < |tds| ==>
        && p.tracks[i].id == tds[i].id && p.tracks[i].name == tds[i].name
        && p.tracks[i].album_name == tds[i].album.name && p.tracks[i].hue.None?
        && (tds[i].album.images == [] ==> p.tracks[i].album_art_url == "")
        && (tds[i].album.images != [] ==> p.tracks[i].album_art_url == tds[i].album.images[0].url)
        && (tds[i].artists == [] ==> p.tracks[i].artist == "Unknown")
        && (tds[i].artists != [] ==> p.tracks[i].artist == tds[i].artists[0].name)
  {
    var p := AssembledPlaylist(data, following);
    var tds := PagesTracks(Visited(data.tracks, following));
    PagesTracksCount(Visited(data.tracks, following));
    forall i | 0 <= i < |tds|
      ensures p.tracks[i] == ToTrack(tds[i])
    {
      ToTracksAt(tds, i);
    }
  }

  /** A first page linking to a second: the tracks are those of the first page, then those of the second. */
  lemma TwoPages(data: PlaylistData, second: Page)
    requires HasNext(data.tracks) && !HasNext(second)
    ensures AssembledPlaylist(data, [second]).tracks ==
      ToTracks(ItemTracks(data.tracks.items)) + ToTracks(ItemTracks(second.items))
  {
    RemainingFollow(data.tracks, [second]);
    RemainingLast(second, []);
  }

  // ---------------------------------------------------------------------------------------
  // download_album_art

  /** `download_album_art`: with an empty URL nothing is fetched or written; otherwise the
      fetched content is written to the track's image path, or the request's error is raised.
      `fetch` stands for the HTTP request and its status check; `files` maps each written path
      to its content. */
  function DownloadAlbumArt(trackId: string, imageUrl: string, fp: FilePaths,
                            fetch: string -> Result<seq<byte>>, files: map<string, seq<byte>>): (r: Result<map<string, seq<byte>>>)
    ensures imageUrl == "" ==> r == Success(files)
    ensures imageUrl != "" && fetch(imageUrl).Failure? ==> r == Failure(fetch(imageUrl).error)
    ensures imageUrl != "" && fetch(imageUrl).Success? ==>
      && r.Success?
      && fp.TrackImagePath(trackId) in r.value && r.value[fp.TrackImagePath(trackId)] == fetch(imageUrl).value
      && (forall q :: q in files && q != fp.TrackImagePath(trackId) ==> q in r.value && r.value[q] == files[q])
      && (forall q :: q in r.value ==> q in files || q == fp.TrackImagePath(trackId))
  {
    if imageUrl == "" then Success(files)
    else
      match fetch(imageUrl)
      case Failure(e) => Failure(e)
      case Success(content) => Success(files[fp.TrackImagePath(trackId) := content])
  }

  /** A download never writes any of the directory's fixed files, nor another track's image. */
  lemma DownloadTouchesOnlyItsImage(trackId: string, imageUrl: string, fp: FilePaths,
                                    fetch: string -> Result<seq<byte>>, files: map<string, seq<byte>>, other: string)
    requires other != trackId
    requires DownloadAlbumArt(trackId, imageUrl, fp, fetch, files).Success?
    ensures var after := DownloadAlbumArt(trackId, imageUrl, fp, fetch, files).value;
      && (fp.PlaylistPath() in after <==> fp.PlaylistPath() in files)
      && (fp.ImageColoursPath() in after <==> fp.ImageColoursPath() in files)
      && (fp.TrackImagePath(other) in after <==> fp.TrackImagePath(other) in files)
  {
    TrackImageIsNotAFixedFile(fp, trackId);
    TrackImagePathInjective(fp, trackId, other);
  }
}
