/** The byte vocabulary: the distinct bytes of the corpus in ascending order,
    code i for the i-th smallest byte, and both directions of that mapping. */
module Vocabulary {
  import opened Bytes

  /** The bytes of `data` whose value is at least `lo`, in ascending order. */
  function BytesFrom(data: seq<Byte>, lo: nat): (r: seq<Byte>)
    requires lo <= 0x100
    ensures StrictlyIncreasing(r)
    ensures forall b :: b in r <==> lo <= b as int && b in data
    ensures |r| <= 0x100 - lo
    decreases 0x100 - lo
  {
    if lo == 0x100 then []
    else
      var rest := BytesFrom(data, lo + 1);
      if lo as Byte in data then
        assert forall j :: 0 <= j < |rest| ==> rest[j] in rest;
        [lo as Byte] + rest
      else rest
  }

  /** The head of a strictly ascending sequence is its least value, and the
      head does not occur again in the tail. */
  lemma HeadIsLeast(s: seq<Byte>)
    requires s != [] && StrictlyIncreasing(s)
    ensures forall x :: x in Elements(s) ==> s[0] <= x
    ensures Elements(s[1..]) == Elements(s) - {s[0]}
  {
  }

  /** A strictly ascending sequence holds as many distinct values as it is long. */
  lemma {:induction false} StrictlyIncreasingCardinality(s: seq<Byte>)
    requires StrictlyIncreasing(s)
    ensures |Elements(s)| == |s|
  {
    if s != [] {
      StrictlyIncreasingCardinality(s[1..]);
      HeadIsLeast(s);
    }
  }

  /** `sorted(set(data))`: the distinct bytes of the data in ascending order.
      Its length, the vocabulary size, is the number of distinct bytes. */
  function SortedDistinct(data: seq<Byte>): (r: seq<Byte>)
    ensures StrictlyIncreasing(r)
    ensures Elements(r) == Elements(data)
    ensures |r| == |Elements(data)| <= 0x100
  {
    var r := BytesFrom(data, 0);
    StrictlyIncreasingCardinality(r);
    r
  }

  /** Sorting a set has only one possible outcome: two strictly ascending
      sequences with the same values are the same sequence. */
  lemma {:induction false} SortedSetIsUnique(a: seq<Byte>, b: seq<Byte>)
    requires StrictlyIncreasing(a) && StrictlyIncreasing(b)
    requires Elements(a) == Elements(b)
    ensures a == b
  {
    StrictlyIncreasingCardinality(a);
    StrictlyIncreasingCardinality(b);
    if a != [] {
      HeadIsLeast(a);
      HeadIsLeast(b);
      assert a[0] in Elements(a) && b[0] in Elements(b);
      assert a[0] == b[0];
      SortedSetIsUnique(a[1..], b[1..]);
      assert a == [a[0]] + a[1..];
      assert b == [b[0]] + b[1..];
    }
  }

  /** The stored metadata record: the vocabulary size and both directions of
      the mapping between bytes and codes. */
  datatype Meta = Meta(vocabSize: nat, idxToByte: map<nat, Byte>, byteToIdx: map<Byte, nat>)

  /** The two maps form a bijection between the codes 0 .. vocabSize - 1 and
      a set of at most 256 bytes. */
  ghost predicate IsVocabulary(m: Meta)
  {
    && m.vocabSize <= 0x100
    && (forall i: nat :: i in m.idxToByte <==> i < m.vocabSize)
    && (forall i :: i in m.idxToByte ==>
          m.idxToByte[i] in m.byteToIdx && m.byteToIdx[m.idxToByte[i]] == i)
    && (forall b :: b in m.byteToIdx ==>
          m.byteToIdx[b] in m.idxToByte && m.idxToByte[m.byteToIdx[b]] == b)
  }

  /** `{ch: i for i, ch in enumerate(bytes)}` */
  function ByteToIdx(bytes: seq<Byte>): (m: map<Byte, nat>)
    requires StrictlyIncreasing(bytes)
    ensures forall b :: b in m <==> b in bytes
    ensures forall i :: 0 <= i < |bytes| ==> m[bytes[i]] == i
    ensures forall b :: b in m ==> m[b] < |bytes| && bytes[m[b]] == b
  {
    map i | 0 <= i < |bytes| :: bytes[i] := i
  }

  /** Enumerating an ascending list hands out codes in ascending order of byte value. */
  lemma ByteToIdxAscends(bytes: seq<Byte>)
    requires StrictlyIncreasing(bytes)
    ensures forall b, c :: b in ByteToIdx(bytes) && c in ByteToIdx(bytes) && b < c ==>
              ByteToIdx(bytes)[b] < ByteToIdx(bytes)[c]
  {
  }

  /** `{i: ch for i, ch in enumerate(bytes)}` */
  function IdxToByte(bytes: seq<Byte>): (m: map<nat, Byte>)
    ensures forall i: nat :: i in m <==> i < |bytes|
    ensures forall i :: 0 <= i < |bytes| ==> m[i] == bytes[i]
  {
    map i: nat | i < |bytes| :: bytes[i]
  }

  /** The vocabulary built from the corpus: a bijection whose bytes are
      exactly the distinct bytes of the data, with codes ascending with the
      byte values. */
  function BuildVocab(data: seq<Byte>): (m: Meta)
    ensures IsVocabulary(m)
    ensures m.vocabSize == |Elements(data)|
    ensures forall b :: b in m.byteToIdx <==> b in data
    ensures forall b, c :: b in m.byteToIdx && c in m.byteToIdx && b < c ==>
              m.byteToIdx[b] < m.byteToIdx[c]
  {
    var bytes := SortedDistinct(data);
    var i2b, b2i := IdxToByte(bytes), ByteToIdx(bytes);
    ByteToIdxAscends(bytes);
    Meta(|bytes|, i2b, b2i)
  }
}
