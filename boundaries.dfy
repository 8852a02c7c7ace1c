/** The word-boundary classifier: one 0/1 flag per position of the encoded
    stream, computed from the byte at that position and the byte before it. */
module Boundaries {
  import opened Bytes
  import opened Vocabulary
  import opened Encoding

  /** The fixed space and punctuation set: space, tab, newline and
      . , ! ? ; : ( ) [ ] { } " ' */
  const SpaceOrPunctBytes: seq<Byte> :=
    [0x20, 0x09, 0x0A, 0x2E, 0x2C, 0x21, 0x3F, 0x3B, 0x3A,
     0x28, 0x29, 0x5B, 0x5D, 0x7B, 0x7D, 0x22, 0x27]

  /** The byte does not have the UTF-8 continuation pattern 10xxxxxx. */
  predicate IsStartOfChar(b: Byte)
  {
    (b as bv8) & 0xC0 != 0x80
  }

  predicate IsSpaceOrPunct(b: Byte)
  {
    b in SpaceOrPunctBytes
  }

  /** The boundary rule for a byte and the byte before it. */
  predicate IsBoundary(prev: Byte, curr: Byte)
  {
    IsStartOfChar(curr) && (IsSpaceOrPunct(curr) || IsSpaceOrPunct(prev) || prev < 0x80)
  }

  /** A boolean stored as an unsigned byte. */
  function Flag(p: bool): Byte
  {
    if p then 1 else 0
  }

  /** The mask test accepts exactly the bytes outside the continuation range
      0x80 .. 0xBF, so the bytes 0xF8 .. 0xFF also count as starts. */
  lemma StartOfCharRange(b: Byte)
    ensures IsStartOfChar(b) <==> b < 0x80 || 0xC0 <= b
  {
  }

  /** Every space or punctuation byte is ASCII. */
  lemma SpaceOrPunctIsAscii(b: Byte)
    requires IsSpaceOrPunct(b)
    ensures b < 0x80
  {
  }

  /** The rule without its redundant middle disjunct: a punctuation byte
      before the current one is already an ASCII byte. */
  lemma BoundaryRuleReduced()
    ensures forall prev, curr :: IsBoundary(prev, curr) <==>
              IsStartOfChar(curr) && (IsSpaceOrPunct(curr) || prev < 0x80)
  {
  }

  /** `x[:-1]`: all but the last element, and nothing for an empty sequence. */
  function DropLast(s: seq<Code>): (r: seq<Code>)
    ensures |r| == if |s| == 0 then 0 else |s| - 1
    ensures forall i :: 0 <= i < |r| ==> r[i] == s[i]
  {
    if |s| == 0 then [] else s[..|s| - 1]
  }

  /** The previous-code stream: the space code padded in front of all but
      the last code, so position i holds the code of position i - 1. */
  function PrevCodes(codes: seq<Code>, spaceIdx: Code): (r: seq<Code>)
    ensures |codes| > 0 ==> |r| == |codes|
    ensures |codes| == 0 ==> |r| == 1
    ensures |r| > 0 && r[0] == spaceIdx
    ensures forall i :: 0 < i < |codes| ==> r[i] == codes[i - 1]
  {
    [spaceIdx] + DropLast(codes)
  }

  /** The index of the first code the code-to-byte map lacks, or the length
      when there is none: where an element-wise lookup stops with a KeyError. */
  function FirstUnknown(codes: seq<Code>, m: Meta): (k: nat)
    ensures k <= |codes|
    ensures forall j :: 0 <= j < k ==> codes[j] as nat in m.idxToByte
    ensures k < |codes| ==> codes[k] as nat !in m.idxToByte
  {
    if codes == [] || codes[0] as nat !in m.idxToByte then 0
    else 1 + FirstUnknown(codes[1..], m)
  }

  /** The classifier over codes, reading each byte through the code-to-byte
      map. It fails with a KeyError when the space byte is not in the
      vocabulary, on an empty stream (a vectorised call on a size-0 array)
      and at the first code that has no byte. */
  function WordBoundaries(codes: seq<Code>, m: Meta): (r: Result<seq<Byte>>)
    requires IsVocabulary(m)
    ensures r.Success? <==>
              && Space in m.byteToIdx && |codes| > 0
              && forall i :: 0 <= i < |codes| ==> codes[i] as nat < m.vocabSize
    ensures Space !in m.byteToIdx ==> r == Failure(KeyError(Space as int))
    ensures Space in m.byteToIdx && |codes| == 0 ==> r == Failure(EmptyArray)
    ensures Space in m.byteToIdx && |codes| > 0 && r.Failure? ==>
              exists k :: && 0 <= k < |codes| && codes[k] as nat >= m.vocabSize
                          && r.error == KeyError(codes[k] as int)
                          && forall j :: 0 <= j < k ==> codes[j] as nat < m.vocabSize
    ensures r.Success? ==>
              && |r.value| == |codes|
              && forall i :: 0 <= i < |codes| ==>
                   && (r.value[i] == 0 || r.value[i] == 1)
                   && (r.value[i] == 1 <==>
                         var curr := m.idxToByte[codes[i] as nat];
                         var prev := if i == 0 then Space else m.idxToByte[codes[i - 1] as nat];
                         IsStartOfChar(curr) && (IsSpaceOrPunct(curr) || prev < 0x80))
  {
    if Space !in m.byteToIdx then Failure(KeyError(Space as int))
    else
      var spaceIdx := m.byteToIdx[Space] as Code;
      var prev := PrevCodes(codes, spaceIdx);
      if |codes| == 0 then Failure(EmptyArray)
      else
        var k := FirstUnknown(codes, m);
        if k < |codes| then Failure(KeyError(codes[k] as int))
        else
          var flags := seq(|codes|, i requires 0 <= i < |codes| =>
            Flag(IsBoundary(m.idxToByte[prev[i] as nat], m.idxToByte[codes[i] as nat])));
          BoundaryRuleReduced();
          Success(flags)
  }

  /** The previous byte of position i, with the space byte before position 0. */
  function PrevByte(data: seq<Byte>, i: nat): Byte
    requires i < |data|
  {
    if i == 0 then Space else data[i - 1]
  }

  /** The same rule applied directly to the bytes of the corpus. */
  function ByteBoundaries(data: seq<Byte>): (r: seq<Byte>)
    ensures |r| == |data|
    ensures forall i :: 0 <= i < |data| ==>
              && (r[i] == 0 || r[i] == 1)
              && (r[i] == 1 <==> IsStartOfChar(data[i]) && (IsSpaceOrPunct(data[i]) || PrevByte(data, i) < 0x80))
  {
    var r := seq(|data|, i requires 0 <= i < |data| => Flag(IsBoundary(PrevByte(data, i), data[i])));
    BoundaryRuleReduced();
    r
  }

  /** Classifying the codes through the code-to-byte map is the same as
      classifying the corpus bytes directly. */
  lemma WordBoundariesMatchBytes(data: seq<Byte>, m: Meta)
    requires IsVocabulary(m)
    requires Encode(data, m).Success?
    requires Space in m.byteToIdx && |data| > 0
    ensures WordBoundaries(Encode(data, m).value, m) == Success(ByteBoundaries(data))
  {
    var codes := Encode(data, m).value;
    var r := WordBoundaries(codes, m);
    var expected := ByteBoundaries(data);
    assert r.Success?;
    forall i | 0 <= i < |data|
      ensures r.value[i] == expected[i]
    {
      assert m.idxToByte[codes[i] as nat] == data[i];
      if i > 0 {
        assert m.idxToByte[codes[i - 1] as nat] == data[i - 1];
      }
    }
    assert r.value == expected;
  }

  /** A continuation byte 0x80 .. 0xBF is never flagged, whatever precedes it. */
  lemma ContinuationNeverFlagged(data: seq<Byte>, i: nat)
    requires i < |data| && 0x80 <= data[i] < 0xC0
    ensures ByteBoundaries(data)[i] == 0
  {
    StartOfCharRange(data[i]);
  }

  /** The flag at position 0 is the start-of-char test of the first byte,
      because the padded previous byte is the space; it is 1 whenever the
      data begins with an ASCII byte or a lead byte. */
  lemma FirstFlag(data: seq<Byte>)
    requires |data| > 0
    ensures ByteBoundaries(data)[0] == 1 <==> data[0] < 0x80 || 0xC0 <= data[0]
  {
  }

  /** Every start byte that follows an ASCII byte is flagged. */
  lemma StartAfterAsciiFlagged(data: seq<Byte>, i: nat)
    requires 0 < i < |data| && data[i - 1] < 0x80
    requires data[i] < 0x80 || 0xC0 <= data[i]
    ensures ByteBoundaries(data)[i] == 1
  {
    StartOfCharRange(data[i]);
  }

  /** For all-ASCII data every flag is 1. */
  lemma AllAsciiAllFlagged(data: seq<Byte>)
    requires forall i :: 0 <= i < |data| ==> data[i] < 0x80
    ensures forall i :: 0 <= i < |data| ==> ByteBoundaries(data)[i] == 1
  {
    forall i | 0 <= i < |data|
      ensures ByteBoundaries(data)[i] == 1
    {
      StartOfCharRange(data[i]);
    }
  }

  /** "Hi, world." is ASCII, so all ten positions are flagged, the 'i' and
      the letters of "orld" included. */
  lemma HiWorldExample()
    ensures ByteBoundaries([0x48, 0x69, 0x2C, 0x20, 0x77, 0x6F, 0x72, 0x6C, 0x64, 0x2E])
         == [1, 1, 1, 1, 1, 1, 1, 1, 1, 1]
  {
    AllAsciiAllFlagged([0x48, 0x69, 0x2C, 0x20, 0x77, 0x6F, 0x72, 0x6C, 0x64, 0x2E]);
  }

  /** In "éa" (C3 A9 61) the letter follows a continuation byte, which is
      neither punctuation nor ASCII, so it is not flagged. */
  lemma LetterAfterMultiByteExample()
    ensures ByteBoundaries([0xC3, 0xA9, 0x61]) == [1, 0, 0]
  {
  }

  /** In "éé" (C3 A9 C3 A9) only the first lead byte is flagged: the second
      follows a continuation byte and neither is punctuation. */
  lemma TwoByteWordExample()
    ensures ByteBoundaries([0xC3, 0xA9, 0xC3, 0xA9]) == [1, 0, 0, 0]
  {
  }
}
