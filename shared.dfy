/** Values and JavaScript built-ins shared by the chunker, the upload route and the ask route. */
module Shared {

  datatype Option<+T> = None | Some(value: T)

  /** What one call to the embedding service gave back: the call threw (with its
      error message), it answered without an `embedding.values` array, or it
      answered with one. The element type is opaque: only positions matter. */
  datatype EmbedOutcome<+T> = Fail(message: string) | NoValues | Values(values: seq<T>)

  /** Dimension of the vector index; raw embeddings are cut to this length. */
  const EmbeddingDimension: nat := 768

  function Min(a: int, b: int): int
  {
    if a <= b then a else b
  }

  /** JavaScript's `s.slice(from, to)` (and `s.substring(from, to)` when
      `from <= to`) for non-negative bounds: both bounds are clamped to the
      length, and the result is empty when `from` is not below `to`. */
  function Slice<T>(s: seq<T>, from: nat, to: nat): (r: seq<T>)
    ensures |r| == if from < to && from < |s| then Min(to, |s|) - from else 0
    ensures forall i :: 0 <= i < |r| ==> r[i] == s[from + i]
  {
    if from < to && from < |s| then s[from..Min(to, |s|)] else []
  }

  /** `Array.from(values).map(n => Number(n)).slice(0, 768)`: the conversion is
      the identity on the opaque element type, so only the cut remains. */
  function Truncate<T>(values: seq<T>): (r: seq<T>)
    ensures |r| == Min(|values|, EmbeddingDimension) <= EmbeddingDimension
    ensures r == values[..|r|]
  {
    Slice(values, 0, EmbeddingDimension)
  }

  /** JavaScript truthiness of an optional string: a missing value and "" are falsy. */
  predicate Truthy(s: Option<string>)
  {
    s.Some? && s.value != ""
  }

  /** The concatenation, in order, of a sequence of sequences. */
  function Flatten<T>(xs: seq<seq<T>>): seq<T>
  {
    if xs == [] then [] else Flatten(xs[..|xs| - 1]) + xs[|xs| - 1]
  }
}
