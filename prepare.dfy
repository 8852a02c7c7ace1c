/** The data-preparation pipeline without its file I/O: build the vocabulary,
    encode the corpus, classify word boundaries, and cut both streams into
    aligned train/validation/test splits. */
module Prepare {
  import opened Bytes
  import opened Vocabulary
  import opened Encoding
  import opened Boundaries
  import opened Splits

  /** What the script writes: the metadata record and the six split streams. */
  datatype Prepared = Prepared(meta: Meta, codes: Split<Code>, boundaries: Split<Byte>)

  function Prepare(data: seq<Byte>): (r: Result<Prepared>)
    ensures r.Success? ==> |Join(r.value.codes)| == |Join(r.value.boundaries)| == |data|
  {
    var meta := BuildVocab(data);
    match Encode(data, meta)
    case Failure(e) => Failure(e)
    case Success(codes) =>
      var flags :- WordBoundaries(codes, meta);
      var n := |data|;
      Success(Prepared(meta, SplitAt(codes, n), SplitAt(flags, n)))
  }

  /** The pipeline succeeds exactly when the corpus contains a space; any other
      corpus, the empty one included, stops at the lookup of the space code. */
  lemma PrepareSucceedsIffSpace(data: seq<Byte>)
    ensures Prepare(data).Success? <==> Space in data
    ensures Space !in data ==> Prepare(data) == Failure(KeyError(0x20))
  {
    var meta := BuildVocab(data);
    EncodeWithOwnVocabulary(data);
    var codes := Encode(data, meta).value;
    assert Space in meta.byteToIdx <==> Space in data;
    if Space in data {
      assert |codes| == |data| > 0;
      assert WordBoundaries(codes, meta).Success?;
    } else {
      assert WordBoundaries(codes, meta) == Failure(KeyError(0x20));
    }
  }

  /** On success the metadata is the vocabulary of the corpus, the code splits
      decode back to the corpus, the boundary splits put together are the
      byte-level classification, and each boundary split is as long as its
      code split. */
  lemma PrepareCorrect(data: seq<Byte>, p: Prepared)
    requires Prepare(data) == Success(p)
    ensures p.meta == BuildVocab(data)
    ensures forall i :: 0 <= i < |Join(p.codes)| ==> Join(p.codes)[i] as nat < p.meta.vocabSize
    ensures Decode(Join(p.codes), p.meta) == data
    ensures Join(p.boundaries) == ByteBoundaries(data)
    ensures |p.codes.train| == |p.boundaries.train| == TrainEnd(|data|)
    ensures |p.codes.val| == |p.boundaries.val| == ValEnd(|data|) - TrainEnd(|data|)
    ensures |p.codes.test| == |p.boundaries.test| == |data| - ValEnd(|data|)
  {
    var meta := BuildVocab(data);
    EncodeWithOwnVocabulary(data);
    var codes := Encode(data, meta).value;
    DecodeEncode(data, meta);
    PrepareSucceedsIffSpace(data);
    WordBoundariesMatchBytes(data, meta);
  }
}
