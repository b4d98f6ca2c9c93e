/** The records exchanged between the stages of the pipeline (src/chromalist/models.py and
    the call sites that construct them), and the Option/Result wrappers used for the
    source's `None` values and raised exceptions. */
module Models {

  datatype Option<+T> = None | Some(value: T)

  /** A value, or the message of the exception the source raises instead. */
  datatype Result<+T> = Success(value: T) | Failure(error: string)

  /** A playlist entry. `hue` is absent until the hue sorter writes the dominant hue back. */
  datatype Track = Track(
    id: string,
    name: string,
    artist: string,
    album_name: string,
    album_art_url: string,
    hue: Option<real>)

  datatype Playlist = Playlist(id: string, name: string, description: string, tracks: seq<Track>)

  /** An RGB colour with integer components (0..255 for colours truncated from centroids). */
  datatype Rgb = Rgb(r: int, g: int, b: int)

  /** An HSV colour: hue in degrees, saturation and value in percent. */
  datatype Hsv = Hsv(h: real, s: real, v: real)

  /** The colour record produced for one track: colours in dominance order, or an error. */
  datatype ImageColorData = ImageColorData(
    track_id: string,
    rgbs: seq<Rgb>,
    hsvs: seq<Hsv>,
    error: Option<string>)

  /** The ids of a sequence of tracks, in order. */
  function Ids(ts: seq<Track>): (r: seq<string>)
    ensures |r| == |ts|
    ensures forall i :: 0 <= i < |ts| ==> r[i] == ts[i].id
  {
    if ts == [] then [] else Ids(ts[..|ts| - 1]) + [ts[|ts| - 1].id]
  }
}
