/** The `Embedder` protocol and the `Chunker` contract. An embedder is a pair of
    injected functions; `embedBatch` is optional because the handler falls back to
    `embed` when the attribute is missing. Arrays are numpy arrays of rank 1 or 2. */
module Interfaces {
  import opened Wrappers

  type Vector = seq<real>

  /** A numpy array of rank one (`Flat`) or two (`Grid`, row-major, `cols` columns). */
  datatype Array = Flat(v: Vector) | Grid(rows: seq<Vector>, cols: nat) {
    /** Every row of a two-dimensional array has `cols` entries. */
    predicate Shaped() {
      Grid? ==> forall i :: 0 <= i < |rows| ==> |rows[i]| == cols
    }

    /** `shape[0]` */
    function Length(): nat {
      if Flat? then |v| else |rows|
    }

    /** `shape[1] if len(shape) > 1 else shape[0]`: the embedding dimension. */
    function Dimension(): nat {
      if Grid? then cols else |v|
    }

    /** `reshape(1, -1)` for a vector; a two-dimensional array is kept. */
    function AsRows(): (a: Array)
      requires Shaped()
      ensures a.Grid? && a.Shaped()
      ensures Flat? ==> a.rows == [v] && a.cols == |v|
      ensures Grid? ==> a == this
    {
      if Flat? then Grid([v], |v|) else this
    }

    /** `flatten()` */
    function Flattened(): (q: Vector)
      ensures Flat? ==> q == v
    {
      if Flat? then v else Concat(rows)
    }
  }

  function Concat(rows: seq<Vector>): Vector {
    if rows == [] then [] else rows[0] + Concat(rows[1..])
  }

  /** `np.array(vectors)` for equal-length vectors; ragged input raises. */
  function Stack(vs: seq<Vector>): (r: Result<Array>)
    ensures r.Ok? ==> r.value.Grid? && r.value.Shaped() && r.value.rows == vs
    ensures (forall i :: 0 <= i < |vs| ==> |vs[i]| == |vs[0]|) ==> r.Ok?
  {
    var cols := if vs == [] then 0 else |vs[0]|;
    if forall i :: 0 <= i < |vs| ==> |vs[i]| == cols then Ok(Grid(vs, cols))
    else Err(ValueError("setting an array element with a sequence"))
  }

  datatype Embedder = Embedder(
    embed: string -> Result<Vector>,
    embedBatch: Option<seq<string> -> Result<Array>>)

  /** The documented contract of an `Embedder`: `embed` rejects empty text,
      `embed_batch` rejects an empty list and otherwise returns one row per text. */
  ghost predicate HonoursContract(e: Embedder) {
    (e.embed("").Err? && e.embed("").error.ValueError?) &&
    (e.embedBatch.Some? ==>
      var batch := e.embedBatch.value;
      (batch([]).Err? && batch([]).error.ValueError?) &&
      forall texts: seq<string> {:trigger batch(texts)} :: texts != [] && batch(texts).Ok? ==>
        batch(texts).value.Grid? && batch(texts).value.Shaped() &&
        |batch(texts).value.rows| == |texts|)
  }

  /** `Chunker.chunk` postcondition: every chunk is a non-empty string. */
  predicate ChunksNonEmpty(chunks: seq<string>) {
    forall i :: 0 <= i < |chunks| ==> chunks[i] != ""
  }

  /** `Chunker.get_chunk_count_estimate` postcondition for `text_length >= 0`. */
  predicate EstimateValid(textLength: int, estimate: int) {
    textLength >= 0 ==> estimate >= 1
  }
}
