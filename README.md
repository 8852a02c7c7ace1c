# Byte-level data preparation with word-boundary markers

This project models the data-preparation script of a byte-level language
model, `data/shakespeare_char/prepare.py`. The script reads a UTF-8 corpus
and does four things:

- It builds a byte vocabulary: the distinct bytes of the corpus in ascending
  order, with code `i` for the `i`-th smallest byte. It keeps both directions
  of that mapping (`byte_to_idx`, `idx_to_byte`) and the vocabulary size.
- It encodes every byte of the corpus as its code. The codes are stored as
  unsigned 16-bit integers.
- It computes one word-boundary flag (0 or 1) per position with
  `create_word_boundaries`. Each flag comes from the byte at that position
  and the byte before it. Position 0 uses the space byte as its previous byte.
- It cuts the code stream and the flag stream into train, validation and
  test slices at the same two indices, `int(n * 0.9)` and `int(n * 0.95)`.

The model is pure: datatypes, functions and lemmas, in one module per
component.

- `Bytes` holds the byte and 16-bit code types, the `Result` type and the
  two errors the modelled path can raise. `KeyError` is a dictionary lookup
  of a missing key. `EmptyArray` is a vectorised call on a size-0 array.
- `Vocabulary` models `sorted(set(data))` and the two dictionaries built by
  `enumerate`. The `Meta` record holds the vocabulary size and both maps.
  `IsVocabulary` states that the two maps are mutually inverse over the
  codes `0 .. vocab_size - 1`.
- `Encoding` models the list comprehension of line 69. It stops with a
  `KeyError` at the first byte the vocabulary lacks. `Decode` reads codes
  back through `idx_to_byte`; it is the partner that the round trips are
  stated against.
- `Boundaries` models `create_word_boundaries` on codes, looking bytes up
  through `idx_to_byte` as the script does. `ByteBoundaries` applies the same
  rule directly to the corpus bytes, and `WordBoundariesMatchBytes` proves
  that the two agree.
- `Splits` models the slicing, with Python's clamping of slice bounds.
- `Prepare` chains the steps the way `main` does and proves the end-to-end
  properties.

The boundary rule in the code is
`start(curr) && (punct(curr) || punct(prev) || prev < 0x80)`:

- `start(b)` is the mask test `(b & 0xC0) != 0x80`.
- `punct(b)` is membership in the 17 bytes space, tab, newline and
  `. , ! ? ; : ( ) [ ] { } " '`.

Every punctuation byte is ASCII, so the middle disjunct adds nothing. The
rule is therefore "a byte that is not a continuation byte, and is itself
punctuation or follows an ASCII byte".

Consequences of the code as written:

- The start test is a mask, so the bytes `0xF8 .. 0xFF` count as starts
  just as lead bytes do (`StartOfCharRange`).
- Because of the `prev < 0x80` disjunct, every start byte that follows an
  ASCII byte is flagged, and so is every punctuation byte
  (`StartAfterAsciiFlagged`). All-ASCII text is therefore flagged everywhere:
  `"Hi, world."` gets ten ones (`AllAsciiAllFlagged`, `HiWorldExample`).
  An ASCII letter right after a multi-byte character is not flagged:
  `C3 A9 61` ("éa") gets `1 0 0` (`LetterAfterMultiByteExample`).
- An empty corpus, or one without a space, stops at the space-code lookup on
  line 18 with `KeyError(0x20)` (`PrepareSucceedsIffSpace`).

## Model

| member | source | states |
|---|---|---|
| Vocabulary.SortedDistinct | data/shakespeare_char/prepare.py:60-61 | the vocabulary list is strictly ascending and holds exactly the distinct bytes of the data; its length, the vocabulary size, equals the number of distinct bytes and is at most 256 |
| Vocabulary.BytesFrom | data/shakespeare_char/prepare.py:60 | the bytes of the data from a given value upward, strictly ascending, each present in the data, and no byte of the data in that range missing |
| Vocabulary.SortedSetIsUnique | data/shakespeare_char/prepare.py:60 | sorting a set is deterministic: two strictly ascending lists with the same values are equal |
| Vocabulary.StrictlyIncreasingCardinality | data/shakespeare_char/prepare.py:61 | a strictly ascending list is exactly as long as its set of values, so `len(utf_bytes)` counts distinct bytes |
| Vocabulary.ByteToIdx | data/shakespeare_char/prepare.py:66 | the keys are exactly the listed bytes, each maps to its position, and every value is a position holding that key |
| Vocabulary.ByteToIdxAscends | data/shakespeare_char/prepare.py:60-66 | a smaller byte always gets a smaller code |
| Vocabulary.IdxToByte | data/shakespeare_char/prepare.py:67 | the keys are exactly the codes `0 .. len - 1`, each mapping to the byte at that position |
| Vocabulary.BuildVocab | data/shakespeare_char/prepare.py:60-67 | the two maps are mutual inverses over the codes `[0, vocab_size)`; the byte keys are exactly the bytes of the data; `vocab_size` is the number of distinct bytes and at most 256; codes ascend with byte values |
| Encoding.Encode | data/shakespeare_char/prepare.py:69 | encoding succeeds iff every byte is in the vocabulary; then the output is as long as the input, every code lies in `[0, vocab_size)` and `idx_to_byte[code[i]] == data[i]`; otherwise it fails with a KeyError for the first missing byte, every earlier byte being present |
| Encoding.Decode | data/shakespeare_char/prepare.py:67 | decoding through `idx_to_byte` gives one byte per code, each a vocabulary byte whose code is the one decoded |
| Encoding.DecodeEncode | data/shakespeare_char/prepare.py:66-69 | decode(encode(x)) == x whenever encoding succeeds |
| Encoding.EncodeDecode | data/shakespeare_char/prepare.py:66-69 | encode(decode(c)) == c for every code sequence within `[0, vocab_size)` |
| Encoding.EncodeWithOwnVocabulary | data/shakespeare_char/prepare.py:60-69 | encoding with the vocabulary built from the same data never fails and every code lies in `[0, vocab_size)` |
| Boundaries.StartOfCharRange | data/shakespeare_char/prepare.py:22-23 | the mask test holds exactly for bytes outside the continuation range `0x80 .. 0xBF`, so `0xF8 .. 0xFF` count as starts |
| Boundaries.SpaceOrPunctIsAscii | data/shakespeare_char/prepare.py:26-27 | every byte of the space/punctuation set is below 0x80 |
| Boundaries.BoundaryRuleReduced | data/shakespeare_char/prepare.py:40-44 | the three-way rule equals "start(curr) and (punct(curr) or prev < 0x80)" for all byte pairs |
| Boundaries.DropLast | data/shakespeare_char/prepare.py:19 | `x[:-1]` keeps every element but the last, and is empty for an empty input |
| Boundaries.PrevCodes | data/shakespeare_char/prepare.py:18-19 | the padded stream starts with the space code, holds the code of position `i - 1` at position `i`, is as long as a non-empty input, and has length 1 for an empty one |
| Boundaries.FirstUnknown | data/shakespeare_char/prepare.py:22-23 | the element-wise lookup stops at the first code without a byte: every earlier code has one |
| Boundaries.WordBoundaries | data/shakespeare_char/prepare.py:12-46 | succeeds iff the space byte is in the vocabulary, the stream is non-empty and every code is in `[0, vocab_size)`; then one flag per code, each 0 or 1, and 1 exactly when the decoded byte is a start byte and is punctuation or follows an ASCII byte (the space before position 0); a missing space gives KeyError(0x20), an empty stream the vectorise error, and otherwise the first unknown code its KeyError |
| Boundaries.ByteBoundaries | data/shakespeare_char/prepare.py:40-46 | on the raw bytes: one flag per byte, each 0 or 1, and 1 exactly when the byte is a start byte and is punctuation or follows an ASCII byte (the space before position 0) |
| Boundaries.WordBoundariesMatchBytes | data/shakespeare_char/prepare.py:12-46 | classifying the encoded stream through `idx_to_byte` gives exactly the classification of the corpus bytes |
| Boundaries.ContinuationNeverFlagged | data/shakespeare_char/prepare.py:22-44 | a continuation byte `0x80 .. 0xBF` is never flagged, whatever byte precedes it |
| Boundaries.FirstFlag | data/shakespeare_char/prepare.py:18-44 | the flag at position 0 is 1 exactly when the first byte is ASCII or a lead byte, because the padded previous byte is the space |
| Boundaries.StartAfterAsciiFlagged | data/shakespeare_char/prepare.py:40-44 | every start byte after an ASCII byte is flagged (the `prev < 0x80` disjunct) |
| Boundaries.AllAsciiAllFlagged | data/shakespeare_char/prepare.py:40-44 | for all-ASCII data every flag is 1 |
| Boundaries.HiWorldExample | data/shakespeare_char/prepare.py:40-46 | `"Hi, world."` gets ten ones |
| Boundaries.LetterAfterMultiByteExample | data/shakespeare_char/prepare.py:40-46 | `C3 A9 61` ("éa") gets `1 0 0`: an ASCII letter after a continuation byte is not flagged |
| Boundaries.TwoByteWordExample | data/shakespeare_char/prepare.py:40-46 | `C3 A9 C3 A9` gets `1 0 0 0`: a lead byte after a continuation byte is not flagged |
| Splits.CutPointsOrdered | data/shakespeare_char/prepare.py:74-77 | the cut points satisfy `0 <= int(n*0.9) <= int(n*0.95) <= n` |
| Splits.Slice | data/shakespeare_char/prepare.py:75-77 | a Python slice clamps both bounds to the length, is empty when reversed, and holds the elements from the clamped lower bound on |
| Splits.SplitAt | data/shakespeare_char/prepare.py:74-77 | train ++ val ++ test is the whole stream, and for a stream of length n the slices have lengths `a`, `b - a` and `n - b` |
| Splits.SplitsAligned | data/shakespeare_char/prepare.py:75-84 | two streams of the same length are cut into slices of equal lengths whose i-th elements come from the same position |
| Splits.OneElementSplit | data/shakespeare_char/prepare.py:74-77 | a one-element stream has empty train and validation slices and the element in the test slice |
| Prepare.Prepare | data/shakespeare_char/prepare.py:60-84 | the whole run: on success the code stream and the boundary stream, each put back together from its three splits, are as long as the corpus; `PrepareSucceedsIffSpace` and `PrepareCorrect` give the rest of its contract |
| Prepare.PrepareSucceedsIffSpace | data/shakespeare_char/prepare.py:18-71 | the pipeline succeeds exactly when the corpus contains a space; otherwise, including for the empty corpus, it stops with KeyError(0x20) |
| Prepare.PrepareCorrect | data/shakespeare_char/prepare.py:60-84 | on success the metadata is the corpus vocabulary, the code splits put together decode back to the corpus, the boundary splits put together are the byte-level classification, and each boundary split is as long as its code split |

## Left out

- Reading the corpus file and its path (lines 51-54): file I/O. The corpus is an input byte sequence.
- The truncation of the encoded corpus to its first 30 bytes (line 55): a debugging cut; the model takes any byte sequence.
- All printing (lines 56-57, 62-63, 78-80).
- Writing the six split files with `tofile` and pickling the metadata record (lines 87-101): serialisation through library calls. The `Meta` datatype holds what is written.
- Splits.TrainEnd and Splits.ValEnd: `int(n * 0.9)` and `int(n * 0.95)` are floating-point products. The model uses the exact floors `9n/10` and `19n/20`.
- Encoding.Encode and Boundaries.WordBoundaries take the maps only in the shape lines 66-67 build them (`IsVocabulary`); dictionaries with other contents are not modelled.
- The NumPy mechanics of `np.vectorize` and `np.pad` and the array dtypes are modelled only by their results. Codes are 16-bit values and flags are bytes. Codes never exceed 255, so the 16-bit storage never wraps.
- Decoding is not a function of the script; `idx_to_byte` is stored for later decoding, and `Encoding.Decode` states what that map gives back.
