/** The upload route of routes/upload.js with its external services taken as
    inputs: the text the PDF parser extracted, the generated document id, and
    the outcome of each embedding call. What remains is the chunk-to-vector
    loop, the abort when nothing was embedded, and the batching of the upsert. */
module Upload {
  import opened Shared
  import Chunker

  const BatchSize: nat := 50
  const NoFileError := "No file uploaded"
  const NoEmbeddingsError := "No embeddings generated. Check your API Key."
  const SuccessMessage := "File processed successfully!"

  datatype UploadedFile = UploadedFile(originalName: string)
  datatype Metadata = Metadata(text: string, filename: string, docId: string)
  datatype VectorRecord<T> = VectorRecord(id: string, values: seq<T>, metadata: Metadata)
  datatype UploadResponse = Processed(message: string, documentId: string) | Failed(status: nat, error: string)

  // Decimal rendering of a chunk index, as a template literal `${i}` writes it.

  predicate IsDigit(c: char)
  {
    '0' <= c <= '9'
  }

  function DigitChar(d: nat): (c: char)
    requires d < 10
    ensures IsDigit(c)
  {
    (('0' as int) + d) as char
  }

  function DigitValue(c: char): nat
    requires IsDigit(c)
  {
    (c as int) - ('0' as int)
  }

  /** Decimal digits of `n`, most significant first, with no leading zero. */
  function Decimal(n: nat): (s: string)
    ensures |s| > 0
    ensures forall i :: 0 <= i < |s| ==> IsDigit(s[i])
  {
    if n < 10 then [DigitChar(n)] else Decimal(n / 10) + [DigitChar(n % 10)]
  }

  /** The number a string of decimal digits denotes. */
  function ParseDecimal(s: string): nat
    requires forall i :: 0 <= i < |s| ==> IsDigit(s[i])
  {
    if s == [] then 0 else ParseDecimal(s[..|s| - 1]) * 10 + DigitValue(s[|s| - 1])
  }

  lemma {:induction false} ParseDecimalInvertsDecimal(n: nat)
    ensures ParseDecimal(Decimal(n)) == n
  {
    var s := Decimal(n);
    if n < 10 {
      assert s[..|s| - 1] == [];
    } else {
      assert s[..|s| - 1] == Decimal(n / 10);
      ParseDecimalInvertsDecimal(n / 10);
    }
  }

  /** `${documentId}_${i}`: the id of the vector built from chunk `i`. */
  function RecordId(documentId: string, i: nat): string
  {
    documentId + "_" + Decimal(i)
  }

  /** Reads back the chunk index from a record id of the given document. */
  function ChunkIndexOf(documentId: string, id: string): Option<nat>
  {
    var head := |documentId| + 1;
    if head < |id| && id[..head] == documentId + "_" && forall i :: head <= i < |id| ==> IsDigit(id[i])
    then Some(ParseDecimal(id[head..]))
    else None
  }

  /** A record id names the chunk it was built from. */
  lemma RecordIdRoundTrip(documentId: string, i: nat)
    ensures ChunkIndexOf(documentId, RecordId(documentId, i)) == Some(i)
  {
    var id := RecordId(documentId, i);
    var head := |documentId| + 1;
    assert id[..head] == documentId + "_";
    assert id[head..] == Decimal(i);
    ParseDecimalInvertsDecimal(i);
  }

  /** Distinct chunk indices give distinct ids, whatever the document id. */
  lemma RecordIdsDistinct(documentId: string, i: nat, j: nat)
    requires i != j
    ensures RecordId(documentId, i) != RecordId(documentId, j)
  {
    RecordIdRoundTrip(documentId, i);
    RecordIdRoundTrip(documentId, j);
  }

  /** The record pushed for chunk `i` whose embedding returned `raw`. */
  function MakeRecord<T>(documentId: string, filename: string, text: string, i: nat, raw: seq<T>): VectorRecord<T>
  {
    VectorRecord(RecordId(documentId, i), Truncate(raw), Metadata(text, filename, documentId))
  }

  /** Indices below `n` whose embedding call returned values, in increasing order. */
  function KeptIndices<T>(embed: nat -> EmbedOutcome<T>, n: nat): (ks: seq<nat>)
    ensures forall j :: 0 <= j < |ks| ==> ks[j] < n && embed(ks[j]).Values?
    ensures forall j, l :: 0 <= j < l < |ks| ==> ks[j] < ks[l]
    ensures forall i :: 0 <= i < n && embed(i).Values? ==> i in ks
  {
    if n == 0 then []
    else if embed(n - 1).Values? then KeptIndices(embed, n - 1) + [n - 1]
    else KeptIndices(embed, n - 1)
  }

  /** The record built from chunk `i`, whose embedding returned values. */
  function RecordOf<T>(chunks: seq<string>, embed: nat -> EmbedOutcome<T>, documentId: string, filename: string, i: nat): VectorRecord<T>
    requires i < |chunks| && embed(i).Values?
  {
    MakeRecord(documentId, filename, chunks[i], i, embed(i).values)
  }

  /** The vectors the upload builds: one per chunk whose embedding returned
      values, in chunk order. */
  function Vectors<T>(chunks: seq<string>, embed: nat -> EmbedOutcome<T>, documentId: string, filename: string): seq<VectorRecord<T>>
  {
    var ks := KeptIndices(embed, |chunks|);
    seq(|ks|, j requires 0 <= j < |ks| => RecordOf(chunks, embed, documentId, filename, ks[j]))
  }

  /** The loop over the chunks: one embedding call per chunk, in order; a call
      that throws or returns no values is skipped. */
  method BuildVectors<T>(chunks: seq<string>, embed: nat -> EmbedOutcome<T>, documentId: string, filename: string)
    returns (vectors: seq<VectorRecord<T>>, requested: seq<string>)
    ensures requested == chunks
    ensures vectors == Vectors(chunks, embed, documentId, filename)
  {
    vectors, requested := [], [];
    for i := 0 to |chunks|
      invariant requested == chunks[..i]
      invariant |vectors| == |KeptIndices(embed, i)|
      invariant forall j :: 0 <= j < |vectors| ==>
                  vectors[j] == RecordOf(chunks, embed, documentId, filename, KeptIndices(embed, i)[j])
    {
      ghost var before := KeptIndices(embed, i);
      requested := requested + [chunks[i]];
      match embed(i)
      case Fail(_) =>
        assert KeptIndices(embed, i + 1) == before;
      case NoValues =>
        assert KeptIndices(embed, i + 1) == before;
      case Values(raw) =>
        assert KeptIndices(embed, i + 1) == before + [i];
        vectors := vectors + [MakeRecord(documentId, filename, chunks[i], i, raw)];
    }
  }

  /** A chunk is represented in the vectors exactly when its embedding call
      returned values. */
  lemma KeptExactlyWhenEmbedded<T>(chunks: seq<string>, embed: nat -> EmbedOutcome<T>, documentId: string, filename: string, i: nat)
    requires i < |chunks|
    ensures (exists j :: 0 <= j < |Vectors(chunks, embed, documentId, filename)| &&
                         Vectors(chunks, embed, documentId, filename)[j].id == RecordId(documentId, i))
            <==> embed(i).Values?
  {
    var vs := Vectors(chunks, embed, documentId, filename);
    var ks := KeptIndices(embed, |chunks|);
    if embed(i).Values? {
      var j :| 0 <= j < |ks| && ks[j] == i;
      assert vs[j].id == RecordId(documentId, i);
    } else {
      forall j | 0 <= j < |vs| ensures vs[j].id != RecordId(documentId, i) {
        RecordIdsDistinct(documentId, ks[j], i);
      }
    }
  }

  /** Each vector's id names a chunk whose embedding returned values; the
      vector carries that chunk's text, the file name, the document id, and
      the first min(768, n) values of the raw embedding. */
  lemma VectorNamesItsChunk<T>(chunks: seq<string>, embed: nat -> EmbedOutcome<T>, documentId: string, filename: string, j: nat)
    requires j < |Vectors(chunks, embed, documentId, filename)|
    ensures var v := Vectors(chunks, embed, documentId, filename)[j];
            var index := ChunkIndexOf(documentId, v.id);
            index.Some? && index.value < |chunks| && embed(index.value).Values? &&
            v.metadata == Metadata(chunks[index.value], filename, documentId) &&
            |v.values| == Min(|embed(index.value).values|, EmbeddingDimension) &&
            v.values == embed(index.value).values[..|v.values|]
  {
    var ks := KeptIndices(embed, |chunks|);
    RecordIdRoundTrip(documentId, ks[j]);
  }

  /** Vector ids are pairwise distinct, even where skipped chunks leave gaps,
      and the chunks they name appear in increasing order. */
  lemma VectorIdsIncrease<T>(chunks: seq<string>, embed: nat -> EmbedOutcome<T>, documentId: string, filename: string, j: nat, l: nat)
    requires j < l < |Vectors(chunks, embed, documentId, filename)|
    ensures var vs := Vectors(chunks, embed, documentId, filename);
            vs[j].id != vs[l].id &&
            ChunkIndexOf(documentId, vs[j].id).value < ChunkIndexOf(documentId, vs[l].id).value
  {
    var ks := KeptIndices(embed, |chunks|);
    RecordIdsDistinct(documentId, ks[j], ks[l]);
    RecordIdRoundTrip(documentId, ks[j]);
    RecordIdRoundTrip(documentId, ks[l]);
  }

  /** No vector is built exactly when no embedding call returned values. */
  lemma NoVectorsWhenNothingEmbedded<T>(chunks: seq<string>, embed: nat -> EmbedOutcome<T>, documentId: string, filename: string)
    ensures Vectors(chunks, embed, documentId, filename) == [] <==>
            forall i :: 0 <= i < |chunks| ==> !embed(i).Values?
  {
    var ks := KeptIndices(embed, |chunks|);
    if ks != [] {
      assert embed(ks[0]).Values?;
    }
  }

  /** Concatenating the first `m` batches gives the first `m * 50` vectors
      (or all of them). */
  lemma {:induction false} BatchPrefixes<R>(vectors: seq<R>, m: nat)
    requires m <= Chunker.ChunkCount(|vectors|, BatchSize, 0)
    ensures Flatten(Chunker.Chunks(vectors, BatchSize, 0)[..m]) == vectors[..Min(m * BatchSize, |vectors|)]
  {
    var bs := Chunker.Chunks(vectors, BatchSize, 0);
    if m == 0 {
      assert bs[..0] == [];
    } else {
      BatchPrefixes(vectors, m - 1);
      Chunker.ChunkIsWindow(vectors, BatchSize, 0, m - 1);
      assert bs[..m][..m - 1] == bs[..m - 1];
      assert Chunker.Start(BatchSize, 0, m - 1) == (m - 1) * BatchSize;
    }
  }

  /** The batches, concatenated in order, are the vectors. */
  lemma BatchesTileVectors<R>(vectors: seq<R>)
    ensures Flatten(Chunker.Chunks(vectors, BatchSize, 0)) == vectors
  {
    var bs := Chunker.Chunks(vectors, BatchSize, 0);
    var n := |bs|;
    BatchPrefixes(vectors, n);
    Chunker.ChunkCountIsCeiling(|vectors|, BatchSize, 0, n);
    assert bs[..n] == bs;
  }

  /** Every batch holds between 1 and 50 vectors, and all but the last exactly 50. */
  lemma BatchSizes<R>(vectors: seq<R>, k: nat)
    requires k < Chunker.ChunkCount(|vectors|, BatchSize, 0)
    ensures var bs := Chunker.Chunks(vectors, BatchSize, 0);
            0 < |bs[k]| <= BatchSize &&
            (k + 1 < |bs| ==> |bs[k]| == BatchSize)
  {
    Chunker.ChunkIsWindow(vectors, BatchSize, 0, k);
    if k + 1 < Chunker.ChunkCount(|vectors|, BatchSize, 0) {
      Chunker.ChunkIsWindow(vectors, BatchSize, 0, k + 1);
    }
  }

  /** The upsert loop: slices of 50 starting at 0, 50, 100, ...; a slice is
      sent only when it is non-empty, which it always is. */
  method Batches<R>(vectors: seq<R>) returns (batches: seq<seq<R>>)
    ensures batches == Chunker.Chunks(vectors, BatchSize, 0)
    ensures |batches| == (|vectors| + BatchSize - 1) / BatchSize
    ensures Flatten(batches) == vectors
    ensures forall k :: 0 <= k < |batches| ==> 0 < |batches[k]| <= BatchSize
    ensures forall k :: 0 <= k < |batches| - 1 ==> |batches[k]| == BatchSize
  {
    batches := [];
    var i := 0;
    while i < |vectors|
      invariant i == |batches| * BatchSize
      invariant batches != [] ==> i - BatchSize < |vectors|
      invariant forall k :: 0 <= k < |batches| ==> batches[k] == Chunker.Chunk(vectors, BatchSize, 0, k)
      decreases |vectors| - i
    {
      var batch := Slice(vectors, i, i + BatchSize);
      if |batch| > 0 {
        batches := batches + [batch];
      }
      i := i + BatchSize;
    }
    Chunker.ChunkCountIsCeiling(|vectors|, BatchSize, 0, |batches|);
    BatchesTileVectors(vectors);
    forall k | 0 <= k < |batches| ensures 0 < |batches[k]| <= BatchSize && (k < |batches| - 1 ==> |batches[k]| == BatchSize) {
      BatchSizes(vectors, k);
    }
  }

  /** The upload handler, from the uploaded file (if any) to the response.
      `pdfText` is what the PDF parser extracted, `documentId` the generated
      id, `embed(i)` the outcome of the embedding call for chunk `i`.
      `requested` lists the texts sent to the embedding service and
      `upserts` the batches sent to the vector index, in order. */
  method HandleUpload<T>(file: Option<UploadedFile>, pdfText: string, documentId: string, embed: nat -> EmbedOutcome<T>)
    returns (response: UploadResponse, requested: seq<string>, upserts: seq<seq<VectorRecord<T>>>)
    ensures file.None? ==> response == Failed(400, NoFileError) && requested == [] && upserts == []
    ensures file.Some? ==> requested == Chunker.Chunks(pdfText, Chunker.DefaultChunkSize, Chunker.DefaultOverlap)
    ensures file.Some? ==>
              var vectors := Vectors(requested, embed, documentId, file.value.originalName);
              (vectors == [] ==> response == Failed(500, NoEmbeddingsError) && upserts == []) &&
              (vectors != [] ==> response == Processed(SuccessMessage, documentId) &&
                                 upserts == Chunker.Chunks(vectors, BatchSize, 0) &&
                                 Flatten(upserts) == vectors)
  {
    if file.None? {
      return Failed(400, NoFileError), [], [];
    }
    var chunks := Chunker.ChunkText(pdfText, Chunker.DefaultChunkSize, Chunker.DefaultOverlap);
    var vectors;
    vectors, requested := BuildVectors(chunks, embed, documentId, file.value.originalName);
    if |vectors| == 0 {
      return Failed(500, NoEmbeddingsError), requested, [];
    }
    upserts := Batches(vectors);
    response := Processed(SuccessMessage, documentId);
  }
}
