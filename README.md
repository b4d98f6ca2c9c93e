# chromalist in Dafny

A Dafny model of the core of chromalist, a command-line tool. It takes a streaming-service
playlist and orders its tracks by the colour of their album covers. It works in four stages, each
writing files into one output directory:

1. Fetch the playlist and its cover images.
2. Extract the dominant colours of each cover.
3. Sort the tracks by the hue of each cover's most frequent colour.
4. Write the sorted playlist and a markdown listing of the covers.

The model covers these parts:

- the start-up check of the streaming-service credentials;
- the layout of the output directory;
- the page loop that assembles a playlist from the service's responses, and the cover download guard;
- the validation of the image files before processing;
- the ordering of the k-means clusters by population and the RGB to HSV scaling;
- the per-track error records;
- the hue map, the partition into sortable and excluded tracks, the stable sort by hue, and the markdown listing.

Modules. `Text` holds shared string helpers, and `ColourFrequency` the numeric part of src/chromalist/image_processing.py; each other module models one source file:

- `Models`: the records passed between the stages (`Track`, `Playlist`, `ImageColorData`, `Rgb`, `Hsv`) and the `Option`/`Result` wrappers.
- `Text`: decimal rendering and reading of numbers, `str.join`, prefixes, suffixes and subsequences.
- `Files`: `FilePaths`.
- `Environment`: `validate_environment`.
- `SpotifyClient`: `get_playlist` and `download_album_art`.
- `ColourFrequency`: truncation of centroids, `np.unique`, the descending argsort, and the reorder by population.
- `ImageProcessing`: `ImageProcessor`.
- `PlaylistSorting`: `sort_playlist_by_hue`.

The outside world becomes values and parameters:

- The file system is the set `existing` of paths that exist.
- JSON files are given as their decoded content.
- The network is the sequence of pages the service returns.
- Image decoding, k-means and vector quantisation together are a function parameter `analyse` from an image path and `k` to a clustering or an error message. The clustering's type, `Quantised`, carries what `vq` guarantees: every pixel's code indexes a centroid.
- `colorsys.rgb_to_hsv` is a function parameter `rgbToHsv`.
- An HTTP download is a function parameter `fetch`.

Where the source loops and updates variables, the model does so too. `ValidateFiles`,
`ToHsvColours`, `ProcessPlaylist`, `GetPlaylist`, `AppendPageTracks`, `BuildHueMap`,
`PartitionTracks` and `RenderImageLines` are methods with loops. Each is proved equal to a
specification function, and the properties are proved about that function.

## Model

| member | source | states |
|---|---|---|
| Environment.ValidateEnvironment | src/chromalist/__main__.py:7-35 | the program exits, and then always with status 1, exactly when the missing list is non-empty |
| Environment.ExitIffAnyMissing | src/chromalist/__main__.py:19-35 | it exits iff some required variable is unset or empty, and returns normally iff all three are set to non-empty values |
| Environment.MissingVars | src/chromalist/__main__.py:19 | no more variables are reported than are checked, and each reported one is unset or empty |
| Environment.MissingVarsMembership | src/chromalist/__main__.py:19 | a variable is reported iff it is one of those checked and is unset or set to "" |
| Environment.MissingVarsIsSubsequence | src/chromalist/__main__.py:19 | the reported variables keep the order in which they are checked |
| Environment.MissingVarsEmptyWhenAllSet | src/chromalist/__main__.py:19-21 | with every variable set to a non-empty value nothing is reported |
| Environment.MissingVarsAllWhenNoneSet | src/chromalist/__main__.py:19 | with no variable set every variable is reported, in order |
| Environment.NoneSetReportsAll | src/chromalist/__main__.py:13-35 | an empty environment reports all three credentials in their declared order and exits with 1 |
| Files.NewFilePaths | src/chromalist/files.py:9-12 | construction succeeds iff the directory exists and keeps the path; otherwise it fails with the text of the two-argument FileNotFoundError, `[Errno Output directory does not exist] <path>`, which ends with the path |
| Files.FilePaths.PlaylistPath | src/chromalist/files.py:14-15 | the path is playlist.json directly inside the directory |
| Files.FilePaths.TrackImagePath | src/chromalist/files.py:17-18 | the path is `<track id>.jpg` directly inside the directory and ends with ".jpg" |
| Files.FilePaths.ImageColoursPath | src/chromalist/files.py:20-21 | the path is image-colours.json directly inside the directory |
| Files.FilePaths.SortedPlaylistPath | src/chromalist/files.py:23-24 | the path is sorted-playlist.json directly inside the directory |
| Files.FilePaths.SortedPlaylistImagesMarkdownPath | src/chromalist/files.py:26-27 | the path is sorted-playlist-images.md directly inside the directory |
| Files.TrackImagePathInjective | src/chromalist/files.py:17-18 | different track ids have different image paths |
| Files.TrackImageIsNotAFixedFile | src/chromalist/files.py:14-27 | no track's image path coincides with one of the four fixed files |
| Files.FixedPathsDistinct | src/chromalist/files.py:14-27 | the four fixed files have pairwise distinct paths |
| Text.NatToStringRoundTrip | src/chromalist/image_processing.py:34 | the decimal rendering of a count reads back as the count |
| Text.JoinEndsWithLast | src/chromalist/image_processing.py:36 | a non-empty join ends with whatever its last part ends with |
| SpotifyClient.ToTrack | src/chromalist/spotify_client.py:50-66 | a track object becomes a Track with its id, name and album name; the first artist's name, or "Unknown" with no artists; the first image's URL, or "" with no images; and no hue |
| SpotifyClient.GetPlaylist | src/chromalist/spotify_client.py:25-81 | the page loop returns the playlist assembled from the visited pages: id and name of the response, its description or "", and the tracks of all non-null items page after page |
| SpotifyClient.VisitPage | src/chromalist/spotify_client.py:44-72 | one pass of the page loop appends exactly this page's tracks; with a `next` link and a further response it moves on to that response, otherwise it ends the loop; the tracks still to come are preserved and the loop measure decreases |
| SpotifyClient.AppendPageTracks | src/chromalist/spotify_client.py:45-66 | the inner loop appends one Track per non-null item, in item order |
| SpotifyClient.VisitedPages | src/chromalist/spotify_client.py:42-72 | the pages visited are the first response followed by the fetched pages in order; each visited page that is not last has a non-empty `next` link; the last has none or no further response exists |
| SpotifyClient.ItemTracksSkipsNull | src/chromalist/spotify_client.py:45-48 | one track per non-null item and none per null item; a track object is kept iff an item holds it |
| SpotifyClient.ItemTracksConcat | src/chromalist/spotify_client.py:45-66 | the tracks of two runs of items are those of the first run followed by those of the second |
| SpotifyClient.PagesTracksConcat | src/chromalist/spotify_client.py:44-72 | the tracks of two runs of pages are concatenated in page order |
| SpotifyClient.PagesTracksCount | src/chromalist/spotify_client.py:44-66 | the number of tracks is the number of non-null items over all pages |
| SpotifyClient.PagesTracksMembers | src/chromalist/spotify_client.py:44-66 | a track object is in the playlist iff a non-null item of some visited page holds it |
| SpotifyClient.AssembledTracks | src/chromalist/spotify_client.py:52-79 | each track keeps id, name and album name. The art URL is the first image's URL, or "" with no images. The artist is the first artist's name, or "Unknown" with no artists. No hue. A present description is kept and an absent one becomes "" |
| SpotifyClient.TwoPages | src/chromalist/spotify_client.py:44-72 | a first page linking to a last page yields the first page's tracks followed by the second's |
| SpotifyClient.DownloadAlbumArt | src/chromalist/spotify_client.py:83-103 | an empty URL returns with no request and no write; a failed request raises its error and writes nothing; otherwise the content is stored at the track's image path and every other file is unchanged |
| SpotifyClient.DownloadTouchesOnlyItsImage | src/chromalist/spotify_client.py:101-103 | a download never creates or removes the playlist file, the colours file, or another track's image |
| ImageProcessing.ImagePaths | src/chromalist/image_processing.py:27-28 | one image path per track, the i-th being the i-th track's `<id>.jpg` |
| ImageProcessing.ValidateFiles | src/chromalist/image_processing.py:16-38 | validation succeeds iff no track's image is missing; otherwise it raises the message built from the missing paths |
| ImageProcessing.MissingImagePathsMembers | src/chromalist/image_processing.py:26-30 | a path is listed as missing iff it is the image path of some track and does not exist |
| ImageProcessing.MissingImagePathsInOrder | src/chromalist/image_processing.py:26-30 | missing paths are listed in track order |
| ImageProcessing.ValidationPassesIffAllImagesExist | src/chromalist/image_processing.py:26-33 | validation passes iff every track's image exists |
| ImageProcessing.Preview | src/chromalist/image_processing.py:36 | the preview is the first min(5, n) of the n missing paths: all of them when there are at most five, otherwise exactly the first five |
| ImageProcessing.MissingFilesMessage | src/chromalist/image_processing.py:34-37 | the message starts with "Missing ", the count and the fixed request to run 'get-playlist' first, before the listed paths |
| ImageProcessing.MissingFilesMessageCount | src/chromalist/image_processing.py:34 | the message starts with "Missing " followed by the number of missing files |
| ImageProcessing.ManyMissingEnding | src/chromalist/image_processing.py:37 | with n > 5 missing files the message ends with " and <n - 5> more..." |
| ImageProcessing.FewMissingEnding | src/chromalist/image_processing.py:34-36 | with 1 to 5 missing files, the last an image path, the message ends with that path and not with " more..." |
| ImageProcessing.MissingFilesMessageEnding | src/chromalist/image_processing.py:34-37 | when the last missing path is an image path: the message ends with " more..." iff more than five files are missing, and then with " and <n - 5> more..."; with at most five it ends with the last missing path |
| ImageProcessing.ValidationMessageEnding | src/chromalist/image_processing.py:26-38 | for the message raised by the validation of a playlist: it ends with " more..." iff more than five images are missing, and then with " and <n - 5> more..."; otherwise it ends with the last missing path |
| ImageProcessing.HsvOf | src/chromalist/image_processing.py:79-84 | when colorsys returns components in [0, 1], the hue is in [0, 360] and saturation and value are in [0, 100] |
| ImageProcessing.ToHsvColours | src/chromalist/image_processing.py:79-84 | the HSV loop yields one colour per RGB colour, normalised by 255 and scaled by 360, 100 and 100 |
| ImageProcessing.ColoursOf | src/chromalist/image_processing.py:67-86 | with the order as written: one colour per distinct cluster code, so at most as many as centroids; each is the truncated colour of some centroid; RGB and HSV lists have equal length |
| ImageProcessing.ExtractColors | src/chromalist/image_processing.py:40-86 | the method computes the failure of the analysis, or the colours of its clustering |
| ImageProcessing.ColoursOfNonEmpty | src/chromalist/image_processing.py:71-76 | a clustering of at least one pixel yields at least one colour |
| ImageProcessing.ColoursOfAllPopulated | src/chromalist/image_processing.py:67-76 | when every centroid has a pixel, the colours as written are those of the corrected order, one per centroid |
| ImageProcessing.ColoursOfDominance | src/chromalist/image_processing.py:67-86 | when every centroid has a pixel: the colours are the centroid colours, each once; HSV follows RGB entry by entry; the first colour is the truncated centroid of a cluster at least as populated as any other |
| ImageProcessing.ColoursOfByteRange | src/chromalist/image_processing.py:67 | centroids with components in [0, 255] give RGB components in 0..255 |
| ImageProcessing.ColoursOfHsvRanges | src/chromalist/image_processing.py:67-84 | centroids with components in [0, 255], and a colorsys that maps [0, 1] into [0, 1], give every extracted hue in [0, 360] and saturation and value in [0, 100] |
| ImageProcessing.ProcessTrack | src/chromalist/image_processing.py:121-141 | the record carries the track's id; on success it holds exactly the extracted RGB and HSV colours and no error; on failure it holds the exception's message as its error and empty colour lists |
| ImageProcessing.ProcessPlaylist | src/chromalist/image_processing.py:88-119 | a missing playlist file, then missing images, raise their messages; otherwise one record per track in track order |
| ImageProcessing.AnalysedTrackIsUsable | src/chromalist/image_processing.py:121-131 | a successful clustering of at least one pixel yields a record the hue sorter uses, whose hue is that of the first colour extracted; when every centroid has a pixel that is the colour of the most populated cluster |
| ImageProcessing.AllAnalysedNoneExcluded | src/chromalist/image_processing.py:115-117 | when every track's analysis succeeds on at least one pixel, no track is excluded by the hue sort |
| ColourFrequency.Trunc | src/chromalist/image_processing.py:67 | `int(x)` truncates toward zero: the result is the integer nearest to x on the side of zero |
| ColourFrequency.ToRgbInByteRange | src/chromalist/image_processing.py:67 | a centroid with components in [0, 255] truncates to byte components |
| ColourFrequency.UniqueProperties | src/chromalist/image_processing.py:72 | `np.unique` lists exactly the code values that occur, strictly ascending |
| ColourFrequency.CountsProperties | src/chromalist/image_processing.py:72 | the j-th count is the number of occurrences of the j-th unique value, and is at least one |
| ColourFrequency.ArgsortDescOrders | src/chromalist/image_processing.py:75 | the argsort of the negated counts is a permutation of the indices, ordered by non-increasing count |
| ColourFrequency.DominanceOrderMembers | src/chromalist/image_processing.py:71-76 | the corrected cluster order lists exactly the clusters with at least one pixel |
| ColourFrequency.DominanceOrderDistinct | src/chromalist/image_processing.py:71-76 | no cluster is listed twice |
| ColourFrequency.DominanceOrderByPopulation | src/chromalist/image_processing.py:71-76 | clusters are listed by non-increasing pixel count |
| ColourFrequency.FrequencyOrderDominance | src/chromalist/image_processing.py:71-76 | the m-th colour is the colour of the m-th listed cluster, and that cluster has pixels |
| ColourFrequency.FrequencyOrderAsWritten | src/chromalist/image_processing.py:72-76 | the order as written: one colour per distinct code, at most as many as colours, each one of the centroid colours |
| ColourFrequency.MostPopulatedFirst | src/chromalist/image_processing.py:72-75 | the first cluster of the corrected order is at least as populated as any cluster with a pixel |
| ColourFrequency.FrequencyOrderWhenAllPopulated | src/chromalist/image_processing.py:67-76 | when every centroid has a pixel, the code as written equals the corrected order and is a permutation of the centroid colours |
| ColourFrequency.AsWrittenPicksEmptyCluster | src/chromalist/image_processing.py:72-76 | centroids [a, b] with codes [1, 1]: as written the result is [a], whose cluster has no pixel; the corrected result is [b] |
| PlaylistSorting.HueMap | src/chromalist/playlist_sorting.py:56-65 | the map has no more entries than there are records |
| PlaylistSorting.BuildHueMap | src/chromalist/playlist_sorting.py:55-65 | the loop builds the track-to-hue map of the records |
| PlaylistSorting.HueMapKeys | src/chromalist/playlist_sorting.py:56-65 | an id has a hue iff some record for it has no error and at least one colour |
| PlaylistSorting.HueMapLastWins | src/chromalist/playlist_sorting.py:64-65 | an id's hue is the first colour's hue of its last usable record |
| PlaylistSorting.LastUsableIndex | src/chromalist/playlist_sorting.py:56-65 | every id with a usable record has a last usable record |
| PlaylistSorting.PartitionTracks | src/chromalist/playlist_sorting.py:67-77 | the loop splits the tracks into those with a hue, which get it written back, and the others, both in playlist order |
| PlaylistSorting.PartitionCounts | src/chromalist/playlist_sorting.py:71-77 | sortable plus excluded is the whole playlist, as a count and as a multiset of ids |
| PlaylistSorting.SortableMembers | src/chromalist/playlist_sorting.py:71-75 | a sortable track is a playlist track with a hue, carrying that hue |
| PlaylistSorting.ExcludedMembers | src/chromalist/playlist_sorting.py:76-77 | a track is excluded iff it is in the playlist and its id has no hue |
| PlaylistSorting.SortableHaveHues | src/chromalist/playlist_sorting.py:72-74 | every sortable track carries the hue the map gives its id |
| PlaylistSorting.SortableKeepsTagged | src/chromalist/playlist_sorting.py:71-75 | a playlist whose tracks all carry their mapped hue is kept unchanged |
| PlaylistSorting.KeyOf | src/chromalist/playlist_sorting.py:81 | the key is finite, and equal to the hue, exactly when the track has a hue; otherwise it is infinity |
| PlaylistSorting.StableSortByHue | src/chromalist/playlist_sorting.py:80-81 | the sort keeps the number of tracks; its other properties are the lemmas below |
| PlaylistSorting.SortPermutes | src/chromalist/playlist_sorting.py:80-81 | the sort is a permutation |
| PlaylistSorting.SortSorts | src/chromalist/playlist_sorting.py:80-81 | the sorted tracks are non-decreasing by hue, with a missing hue last |
| PlaylistSorting.SortStable | src/chromalist/playlist_sorting.py:80-81 | tracks with equal keys keep their relative order |
| PlaylistSorting.StableSortUnique | src/chromalist/playlist_sorting.py:80-81 | two sorted sequences with the same tracks per key in the same order are equal, so any stable sort gives this result |
| PlaylistSorting.SortIdempotent | src/chromalist/playlist_sorting.py:80-81 | sorting a sorted sequence changes nothing |
| PlaylistSorting.RenderImageLines | src/chromalist/playlist_sorting.py:97-100 | one `<img>` line per sorted track, in order |
| PlaylistSorting.ImageLineIsOneLine | src/chromalist/playlist_sorting.py:99-100 | a line holds exactly one newline, at its end, when the URL, name and artist hold none |
| PlaylistSorting.ListingLineCount | src/chromalist/playlist_sorting.py:97-100 | the listing has exactly as many lines as sorted tracks |
| PlaylistSorting.SortPlaylistByHue | src/chromalist/playlist_sorting.py:10-102 | a missing playlist or colours file raises its message. Otherwise the result keeps the metadata, holds the sorted tracks, counts the excluded ones, and lists one image line per sorted track |
| PlaylistSorting.SortedTracksMembers | src/chromalist/playlist_sorting.py:55-81 | the output is exactly the input tracks with a usable record, each carrying the hue of its last usable record |
| PlaylistSorting.ExcludedTracksMembers | src/chromalist/playlist_sorting.py:67-77 | a track is excluded iff no usable record exists for its id |
| PlaylistSorting.SortedTracksCount | src/chromalist/playlist_sorting.py:67-102 | sorted plus excluded tracks number the playlist's tracks, and no id is created |
| PlaylistSorting.SortedTracksOrdered | src/chromalist/playlist_sorting.py:79-81 | the output is ordered by hue and keeps playlist order among equal hues |
| PlaylistSorting.SortedTracksHue | src/chromalist/playlist_sorting.py:63-81 | every output track has a usable record and a finite key, so the infinite fallback key is never used |
| PlaylistSorting.EmptyPlaylist | src/chromalist/playlist_sorting.py:67-102 | an empty playlist sorts to nothing with nothing excluded |
| PlaylistSorting.SortedTracksIdempotent | src/chromalist/playlist_sorting.py:55-81 | sorting the sorted output again with the same records gives it back |

## Left out

- The command line and the outer loop that downloads every track's cover belong to src/chromalist/cli.py, which is not part of this model.
- The error list and setup instructions printed to stderr are left out. `ValidateEnvironment` models only which variables are missing and the exit status.
- Reading and writing JSON (`Playlist.from_json`, `to_json`, `ImageColorData.from_dict`) is left out. The model takes and returns the decoded values. Malformed JSON, and records with hue data of the wrong shape, cannot be expressed.
- spotipy and the HTTP client are left out. The responses come as values: the playlist response and the pages that `sp.next` returns in turn. A `next` request once these run out ends the page loop, as `sp.next` returning nothing does. Authentication, the 10-second timeout and the HTTP status check happen inside `fetch`.
- A `description` key that is present with a null value is not distinguished from an existing string. The model only distinguishes a missing key from a present string.
- Image decoding (PIL), `scipy.cluster.vq.kmeans` and `vq` are the parameter `analyse`. The number and values of the centroids, and which pixel goes to which centroid, are therefore not modelled. Nor is the fact that `kmeans` may return fewer than `k` centroids.
- `colorsys.rgb_to_hsv` is the parameter `rgbToHsv`. The floating-point arithmetic of the scaling is modelled with exact reals.
- ImageProcessing.ColoursOfHsvRanges: its range bounds rest on the requirement that colorsys maps components in [0, 1] to components in [0, 1]. The model does not derive this from colorsys.
- ColourFrequency.ArgsortDescOrders: numpy's default `argsort` is not stable. The model breaks ties between equally populated clusters by lower index, so the order among ties is one possible outcome, not numpy's exact one.
- The extraction pipeline (`ImageProcessing.ColoursOf`, `ExtractColors`, `ProcessTrack`) uses the order as written, `ColourFrequency.FrequencyOrderAsWritten`. The properties about the most populated cluster (`ImageProcessing.ColoursOfDominance` and the last clause of `ImageProcessing.AnalysedTrackIsUsable`) are therefore stated only when every centroid has at least one pixel. Only then does the order as written agree with the corrected order `ColourFrequency.FrequencyOrder`.
- `vq` assigns every pixel the index of a codebook entry. The model takes this as the type `ImageProcessing.Quantised` and does not model an out-of-range code.
- Objects are updated in place in the source. `track.hue = …` in the partition loop changes the Track objects of the loaded playlist. The model returns new Track values instead, so aliasing between the loaded and the sorted playlist is not modelled.
- Paths are strings `directory + "/" + name`. pathlib normalisation, and what `str(path)` prints on a given platform, are left out.
- `ImageProcessor.__init__` and `SpotifyClient.__init__` only store (or do not store) collaborators, and have no model.

Where the source and its tests or documentation disagree, the model follows the source:

- tests/test_playlist_sorting.py expects a sort key pair `(0, hue)`. The code sorts by the float `t.hue` with `float('inf')` as fallback, and that is what is modelled.
- src/chromalist/models.py declares `Track` without `artist` and `album_name`. The call sites construct and read both, so the model's `Track` has them.

## Findings

| source | as written | input that shows it | evidently intended | confidence | as-written member | corrected member |
|---|---|---|---|---|---|---|
| src/chromalist/image_processing.py:76 | `rgb_colors[i] for i in sorted_indices` indexes the centroid colours by position in `np.unique(codes)`, not by cluster id | two centroids a, b with every pixel assigned to b (codes [1, 1]): `unique = [1]`, `counts = [2]`, argsort gives [0], so the result is [a], and cluster 0 has no pixel | `rgb_colors[unique[i]]`: the colour of the i-th most populated cluster, as `ColourFrequency.FrequencyOrderDominance` and `ColourFrequency.DominanceOrderByPopulation` prove for the corrected order | not executed; only shows when some centroid gets no pixel from `vq`, which `kmeans` usually prevents by dropping empty clusters | ColourFrequency.AsWrittenPicksEmptyCluster | ColourFrequency.FrequencyOrder |

The extraction pipeline models the source as written, through `ColourFrequency.FrequencyOrderAsWritten`. The corrected order `ColourFrequency.FrequencyOrder` carries the intended properties. `ColourFrequency.FrequencyOrderWhenAllPopulated` proves that the two agree whenever every centroid has a pixel.
