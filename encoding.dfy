/** Encoding the corpus byte by byte into vocabulary codes, and decoding
    codes back to bytes through the stored code-to-byte map. */
module Encoding {
  import opened Bytes
  import opened Vocabulary

  /** `[byte_to_idx[b] for b in data]` stored as unsigned 16-bit codes: the
      comprehension looks the bytes up left to right and stops with a
      KeyError at the first byte the vocabulary lacks. */
  function Encode(data: seq<Byte>, m: Meta): (r: Result<seq<Code>>)
    requires IsVocabulary(m)
    ensures r.Success? <==> forall i :: 0 <= i < |data| ==> data[i] in m.byteToIdx
    ensures r.Success? ==>
              && |r.value| == |data|
              && forall i :: 0 <= i < |data| ==>
                   r.value[i] as nat < m.vocabSize && m.idxToByte[r.value[i] as nat] == data[i]
    ensures r.Failure? ==>
              exists k :: && 0 <= k < |data| && data[k] !in m.byteToIdx
                          && r.error == KeyError(data[k] as int)
                          && forall j :: 0 <= j < k ==> data[j] in m.byteToIdx
  {
    if data == [] then Success([])
    else if data[0] !in m.byteToIdx then Failure(KeyError(data[0] as int))
    else
      var rest :- Encode(data[1..], m);
      Success([m.byteToIdx[data[0]] as Code] + rest)
  }

  /** Decoding through the stored `idx_to_byte` map, one code at a time. */
  function Decode(codes: seq<Code>, m: Meta): (r: seq<Byte>)
    requires IsVocabulary(m)
    requires forall i :: 0 <= i < |codes| ==> codes[i] as nat < m.vocabSize
    ensures |r| == |codes|
    ensures forall i :: 0 <= i < |codes| ==> r[i] in m.byteToIdx && m.byteToIdx[r[i]] == codes[i] as nat
  {
    seq(|codes|, i requires 0 <= i < |codes| => m.idxToByte[codes[i] as nat])
  }

  /** Decoding an encoded corpus gives the corpus back. */
  lemma DecodeEncode(data: seq<Byte>, m: Meta)
    requires IsVocabulary(m)
    requires Encode(data, m).Success?
    ensures Decode(Encode(data, m).value, m) == data
  {
  }

  /** Encoding decoded codes gives the codes back: no two codes share a byte. */
  lemma EncodeDecode(codes: seq<Code>, m: Meta)
    requires IsVocabulary(m)
    requires forall i :: 0 <= i < |codes| ==> codes[i] as nat < m.vocabSize
    ensures Encode(Decode(codes, m), m) == Success(codes)
  {
    var data := Decode(codes, m);
    var r := Encode(data, m);
    assert r.Success?;
    assert r.value == codes by {
      forall i | 0 <= i < |codes|
        ensures r.value[i] == codes[i]
      {
        assert m.idxToByte[r.value[i] as nat] == data[i];
      }
    }
  }

  /** Encoding with the vocabulary built from the same corpus never fails,
      and every code lies in [0, vocab_size). */
  lemma EncodeWithOwnVocabulary(data: seq<Byte>)
    ensures Encode(data, BuildVocab(data)).Success?
    ensures forall i :: 0 <= i < |data| ==>
              Encode(data, BuildVocab(data)).value[i] as nat < BuildVocab(data).vocabSize
  {
  }
}
