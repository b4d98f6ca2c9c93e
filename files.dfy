/** The data directory and the names of the files kept in it (src/chromalist/files.py).

    A path is a string; joining a directory with a name puts one `/` between them.
    The file system is represented by the set of paths that exist. */
module Files {
  import opened Models
  import opened Text

  const PlaylistFile := "playlist.json"
  const ImageColoursFile := "image-colours.json"
  const SortedPlaylistFile := "sorted-playlist.json"
  const SortedImagesMarkdownFile := "sorted-playlist-images.md"
  const ImageSuffix := ".jpg"

  /** `dir / name`. */
  function JoinPath(dir: string, name: string): string {
    dir + "/" + name
  }

  /** `p` names an entry directly inside `dir`, and `name` is that entry. */
  predicate ChildOf(p: string, dir: string, name: string) {
    p == dir + "/" + name
  }

  /** The directory is set once, at construction, and never changed. */
  datatype FilePaths = FilePaths(path: string) {

    function PlaylistPath(): (p: string)
      ensures ChildOf(p, path, PlaylistFile)
    {
      JoinPath(path, PlaylistFile)
    }

    function TrackImagePath(trackId: string): (p: string)
      ensures ChildOf(p, path, trackId + ImageSuffix)
      ensures EndsWith(p, ImageSuffix)
    {
      EndsWithAppended(path + "/" + trackId, ImageSuffix);
      JoinPath(path, trackId + ImageSuffix)
    }

    function ImageColoursPath(): (p: string)
      ensures ChildOf(p, path, ImageColoursFile)
    {
      JoinPath(path, ImageColoursFile)
    }

    function SortedPlaylistPath(): (p: string)
      ensures ChildOf(p, path, SortedPlaylistFile)
    {
      JoinPath(path, SortedPlaylistFile)
    }

    function SortedPlaylistImagesMarkdownPath(): (p: string)
      ensures ChildOf(p, path, SortedImagesMarkdownFile)
    {
      JoinPath(path, SortedImagesMarkdownFile)
    }
  }

  /** The FileNotFoundError message raised by both stages when playlist.json is absent. */
  function PlaylistNotFoundMessage(path: string): string {
    "Playlist file not found: " + path + "\n" + "Please run 'get-playlist' first to download playlist data."
  }

  /** The text of an OSError raised with two arguments: they become its errno and strerror. */
  function OSErrorText(errno: string, strerror: string): string {
    "[Errno " + errno + "] " + strerror
  }

  const DirectoryMissing := "Output directory does not exist"

  /** `FilePaths(path)`: refused with FileNotFoundError when the directory does not exist; the
      error's text carries the message and ends with the path. */
  function NewFilePaths(path: string, existing: set<string>): (r: Result<FilePaths>)
    ensures r.Success? <==> path in existing
    ensures r.Success? ==> r.value.path == path
    ensures r.Failure? ==> r.error == OSErrorText(DirectoryMissing, path) && EndsWith(r.error, path)
  {
    if path in existing then Success(FilePaths(path))
    else
      EndsWithAppended("[Errno " + DirectoryMissing + "] ", path);
      Failure(OSErrorText(DirectoryMissing, path))
  }

  /** Distinct track ids give distinct image paths. */
  lemma {:induction false} TrackImagePathInjective(fp: FilePaths, a: string, b: string)
    requires a != b
    ensures fp.TrackImagePath(a) != fp.TrackImagePath(b)
  {
    var pa, pb := fp.TrackImagePath(a), fp.TrackImagePath(b);
    var n := |fp.path| + 1;
    assert a == pa[n..|pa| - 4];
    assert b == pb[n..|pb| - 4];
  }

  /** The last four characters of a name are enough to tell it from an image name. */
  lemma DifferentEnding(fp: FilePaths, trackId: string, name: string)
    requires |name| >= 4 && name[|name| - 4..] != ImageSuffix
    ensures fp.TrackImagePath(trackId) != JoinPath(fp.path, name)
  {
    var p := fp.TrackImagePath(trackId);
    var q := JoinPath(fp.path, name);
    assert p[|p| - 4..] == ImageSuffix;
    assert q[|q| - 4..] == name[|name| - 4..];
  }

  /** No track image path is one of the four fixed files of the directory. */
  lemma TrackImageIsNotAFixedFile(fp: FilePaths, trackId: string)
    ensures fp.TrackImagePath(trackId) != fp.PlaylistPath()
    ensures fp.TrackImagePath(trackId) != fp.ImageColoursPath()
    ensures fp.TrackImagePath(trackId) != fp.SortedPlaylistPath()
    ensures fp.TrackImagePath(trackId) != fp.SortedPlaylistImagesMarkdownPath()
  {
    DifferentEnding(fp, trackId, PlaylistFile);
    DifferentEnding(fp, trackId, ImageColoursFile);
    DifferentEnding(fp, trackId, SortedPlaylistFile);
    DifferentEnding(fp, trackId, SortedImagesMarkdownFile);
  }

  /** Joining onto one directory is injective in the name. */
  lemma JoinPathInjective(dir: string, a: string, b: string)
    requires a != b
    ensures JoinPath(dir, a) != JoinPath(dir, b)
  {
    var n := |dir| + 1;
    assert a == JoinPath(dir, a)[n..];
    assert b == JoinPath(dir, b)[n..];
  }

  /** The four fixed paths are pairwise distinct. */
  lemma FixedPathsDistinct(fp: FilePaths)
    ensures fp.PlaylistPath() != fp.ImageColoursPath()
    ensures fp.PlaylistPath() != fp.SortedPlaylistPath()
    ensures fp.PlaylistPath() != fp.SortedPlaylistImagesMarkdownPath()
    ensures fp.ImageColoursPath() != fp.SortedPlaylistPath()
    ensures fp.ImageColoursPath() != fp.SortedPlaylistImagesMarkdownPath()
    ensures fp.SortedPlaylistPath() != fp.SortedPlaylistImagesMarkdownPath()
  {
    JoinPathInjective(fp.path, PlaylistFile, ImageColoursFile);
    JoinPathInjective(fp.path, PlaylistFile, SortedPlaylistFile);
    JoinPathInjective(fp.path, PlaylistFile, SortedImagesMarkdownFile);
    JoinPathInjective(fp.path, ImageColoursFile, SortedPlaylistFile);
    JoinPathInjective(fp.path, ImageColoursFile, SortedImagesMarkdownFile);
    JoinPathInjective(fp.path, SortedPlaylistFile, SortedImagesMarkdownFile);
  }
}
