/**
 * Values shared by the whole image-pairing pipeline of histo.go: pixels and
 * images as the decoder hands them over, histograms, comparison results and
 * ranked pairs.
 */
module Types {

  /** A Go `uint8`: a luma level. */
  type Byte = x: int | 0 <= x < 256

  /**
   * One pixel as `image.Image.At` returns it: either a `color.YCbCr`, of which
   * only the luma `Y` matters here, or a colour in any other colour model.
   */
  datatype Pixel = YCbCr(y: Byte) | OtherColor

  /** A decoded image: its rows from top to bottom, each `width` pixels wide. */
  datatype Grid = Grid(width: nat, rows: seq<seq<Pixel>>)

  /** Images are rectangles, as every `image.Image` is. */
  type Image = g: Grid | forall r :: 0 <= r < |g.rows| ==> |g.rows[r]| == g.width
    witness Grid(0, [])

  /** Luma level to number of pixels at that level (Go `map[uint8]int`). */
  type Histogram = map<Byte, nat>

  datatype Option<T> = None | Some(value: T)

  /** `compRes`: the file a reference image was compared with, and the score. */
  datatype CompRes = CompRes(file: string, score: real)

  /** `matches`: reference image path to its comparison results. */
  type Matches = map<string, seq<CompRes>>

  /** `rankedPair`: a best-match pair and its score. */
  datatype RankedPair = RankedPair(pic1: string, pic2: string, rank: real)

  /** `math.Abs` on scores. */
  function Abs(r: real): (a: real)
    ensures a >= 0.0
    ensures a == r || a == -r
  {
    if r < 0.0 then -r else r
  }
}
