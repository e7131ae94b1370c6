# pngrecon, modelled in Dafny

pngrecon hides arbitrary bytes inside a PNG image. The payload is compressed
and placed in a private chunk, and the chunks are framed as section 5.3 of the
PNG specification describes: a big-endian length, a four-byte type, the data,
and the CRC-32 of type and data (section 5.5). This project models the parts
of pngrecon that give those bytes their meaning:

- **The chunk primitive.** `Chunk` in `pngrecon/lib/chunk.py`, the older copy
  in `lib/chunk.py`, and the original in `pngrecon.py` are modelled by one
  module, `Chunks`. It covers the constructor, the accessors, `is_valid`,
  `raw_data`, `from_byte_stream` and `read_image_stream`.
- **The container's private kinds** (`Records`). These are the index chunk
  (`deQm`, four big-endian words), the data chunk (`maTt`) and the crypt-info
  chunk (`yyBo`, a 16-byte salt), with their enumerations and `from_chunk`
  codecs.
- **The decode command** (`Decode`). It keeps the container's chunks, checks
  the chunk set by an ordered rule list, puts the data chunks in index order,
  decrypts and decompresses.
- **The encode command and the single-file tool** (`Carrier`). It builds the
  carrier image around the data chunk, either the default
  IHDR/IDAT/`maTt`/IEND image or a source image with the data chunk before its
  last chunk. The decoder of `pngrecon.py` inflates every `maTt` chunk in
  file order.
- **The directory-filling script** (`Filler`). It covers the `/`-separated
  `Path` codec as a class whose `append` updates it in place, the `get_path`
  walk up the `name_map` table, and the `split_encode` loop that cuts a file
  into pieces of at most `max_file_size` bytes and encodes each one as
  `NNN.png`.

Bytes are integers in `[0, 256)` and words are integers in `[0, 2^32)`. The
CRC is the bitwise reflected CRC-32 (polynomial `0xEDB88320`, register preset
and result complemented). Compression, decompression and decryption are
function parameters. `split_encode`'s encoder is a parameter too: it is given
the output path and the piece and says whether `pngrecon encode` succeeded.

Where the repository's modules do not fit together, the model follows the
code:

- `ChunkType.from_string`, called by `keep_and_parse_our_chunks`, is not
  defined anywhere. It is modelled as the lookup over the three type codes.
- The data chunk declares no `index` property, yet the validator sorts by it.
  The decoder's records are therefore an abstract `Record` datatype carrying
  `index`, `is_valid`, `num_data_chunks`, the encryption type and the payload.
- `keep_and_parse_our_chunks` never converts a chunk to its kind. The records
  the decode command actually validates are plain chunks, so no `isinstance`
  test matches them. `Decode.DecodeMain` and `Decode.DecodeMainNeverDecodes`
  state the consequence: with that lookup in place of the missing
  `from_string`, decoding always fails with "There is no index chunk". As
  written, the call to `from_string` raises `AttributeError` for every image
  that holds a chunk, before the validator is reached.
- `encode.py` imports `CUSTOM_TYPE`, `IHDR`, `IDAT` and `IEND` from
  `pngrecon/lib/chunk.py`, which defines none of them. Their values are taken
  from `pngrecon.py`.
- The code's `CompressMethod` has `No = 1` and `Zlib = 2` and no `Lzma`
  member. `decompress_data`'s `Lzma` branch would raise `AttributeError`
  before it could be taken, and the model has just the two methods the
  enumeration defines.
- `split_encode` drops a final piece shorter than `max_file_size` once at
  least one piece has been written. The model reproduces this. The corrected
  splitting is modelled beside it (see "## Findings").

## Model

| member | source | states |
|---|---|---|
| Bytes.ReadBE32OfBE32 | pngrecon/lib/chunk.py:53-57 | unpacking `>I` from the four bytes `struct.pack('>I', x)` wrote gives `x` back, for every 32-bit word |
| Bytes.BE32OfReadBE32 | pngrecon/lib/chunk.py:34 | any four bytes are the big-endian packing of the word they unpack to |
| Bytes.BE32Injective | pngrecon/lib/chunk.py:44 | two words are equal exactly when their packings are, so comparing stored and recomputed CRC bytes compares the CRCs |
| Chunks.NewChunk | pngrecon/lib/chunk.py:23-27 | `Chunk(t, d)` with a 4-byte type and fewer than 2^32 data bytes has `length == \|d\|`, `type == t` and `data == d`; its bytes are exactly `be32(\|d\|) ++ t ++ d ++ be32(crc32(t ++ d))`; the constructor's `assert self.is_valid` holds |
| Chunks.RawDataLayout | lib/chunk.py:53-92 | for every chunk, valid or not, `raw_data` is `be32(length) ++ type ++ data ++ be32(crc)`, read back through the accessors |
| Chunks.ChunkBytes.CrcField | pngrecon/lib/chunk.py:70-76 | the `crc` property reads a value exactly when the bytes after the payload are four, and those four bytes are that value's big-endian packing |
| Chunks.CrcReadableIffFramed | lib/chunk.py:70-76 | the `assert len(r) == 4` in `crc` passes exactly when the length field accounts for every byte between the type and the last four |
| Chunks.ValidChunkIsRebuilt | pngrecon/lib/chunk.py:78-84 | a chunk whose stored CRC equals the CRC of its type and data is exactly what the constructor builds from that type and data |
| Chunks.FromByteStream | pngrecon/lib/chunk.py:29-47 | `from_byte_stream` succeeds exactly when the stream holds the 12 framing bytes and the whole payload; it reads length, type, `length` payload bytes and the CRC in that order; it returns a chunk rebuilt from type and data, which is valid whatever CRC the stream held; it consumes at least one byte |
| Chunks.ParsedChunkIsValid | pngrecon.py:17-34 | the chunk `from_byte_stream` returns is always valid, and it has the very bytes that were read exactly when no CRC mismatch is logged |
| Chunks.ParseRawData | lib/chunk.py:33-51 | parsing a chunk's `raw_data` gives the chunk rebuilt from its type and data, with its stored CRC and the following bytes untouched; the rebuilt `raw_data` equals the original exactly when the original was valid |
| Chunks.ParsedChunksValid | pngrecon/lib/chunk.py:16-18 | every chunk of a parsed stream is valid, whatever CRCs the stream held |
| Chunks.ParseSerialized | pngrecon/lib/chunk.py:16-19 | writing valid chunks one after another and parsing the bytes gives the same chunks in the same order |
| Chunks.ReadImageStream | pngrecon/lib/chunk.py:8-19 | the loop's result is the parse of everything after the first eight bytes: every chunk in file order, or the stream error of the first chunk that cannot be read |
| Chunks.ReadBackWritten | lib/chunk.py:12-23 | any eight signature bytes, unchecked, followed by valid chunks read back as exactly those chunks in file order |
| Records.ChunkTypeFromCode | pngrecon/lib/chunk.py:101-104 | the type lookup finds a kind exactly for `deQm`, `maTt` and `yyBo`, and the kind found has that code |
| Records.ChunkTypeCodeRoundTrip | pngrecon/lib/chunk.py:101-104 | looking up each kind's code gives back that kind |
| Records.EncodingTypeOf | pngrecon/lib/chunk.py:107-108 | `EncodingType(v)` succeeds exactly for `v == 1`, and then its value is `v` |
| Records.EncryptionTypeOf | pngrecon/lib/chunk.py:111-113 | `EncryptionType(v)` succeeds exactly for `v` in {1, 2}, and then its value is `v` |
| Records.CompressMethodOf | pngrecon/lib/chunk.py:116-118 | `CompressMethod(v)` succeeds exactly for `v` in {1, 2}, and then its value is `v` |
| Records.EnumValuesRoundTrip | pngrecon/lib/chunk.py:107-118 | decoding each enumeration member's value gives back that member |
| Records.IndexPayload | pngrecon/lib/chunk.py:129-131 | `struct.pack('>IIII', e, x, m, n)` is 16 bytes whose words at offsets 0, 4, 8 and 12 are `e`, `x`, `m` and `n` |
| Records.PayloadOfWords | pngrecon/lib/chunk.py:137-138 | every 16-byte payload is the packing of the four words it unpacks to |
| Records.NewIndexChunk | pngrecon/lib/chunk.py:121-132 | `IndexChunk(e, x, m, n)` has type `deQm` and payload `pack('>IIII', …)`; its accessors return `e`, `x`, `m` and `n`; it is valid |
| Records.IndexValidIff | pngrecon/lib/chunk.py:146-158 | an index chunk is valid exactly when its CRC matches, the encoding word is 1, and the encryption and compression words are in {1, 2} |
| Records.IndexFromChunk | pngrecon/lib/chunk.py:134-144 | `from_chunk` succeeds exactly when the payload is 16 bytes and the three enumeration words decode; the result has type `deQm`, the same payload, and is valid |
| Records.IndexRoundTrip | pngrecon/lib/chunk.py:134-144 | `from_chunk` of a constructed index chunk reproduces it field for field |
| Records.NewDataChunk | pngrecon/lib/chunk.py:184-187 | `DataChunk(d)` has type `maTt`, payload `d`, and is valid |
| Records.DataFromChunk | pngrecon/lib/chunk.py:189-193 | `DataChunk.from_chunk` keeps the payload and gives a valid chunk of type `maTt` |
| Records.DataFromValidData | pngrecon/lib/chunk.py:189-193 | `DataChunk.from_chunk` gives back a valid data chunk unchanged |
| Records.NewCryptInfoChunk | pngrecon/lib/chunk.py:200-206 | `CryptInfoChunk(salt)` with a 16-byte salt has type `yyBo`, `salt` returns that salt, and it is valid |
| Records.CryptInfoFromChunk | pngrecon/lib/chunk.py:208-213 | `from_chunk` succeeds exactly when the payload is 16 bytes, and the result's salt is that payload |
| Records.CryptInfoSaltIsPayload | pngrecon/lib/chunk.py:215-224 | a valid crypt-info chunk, whose length must be 16, has its whole payload as its salt |
| Decode.KeepAndParseOurChunks | pngrecon/commands/decode.py:26-36 | the loop keeps exactly the chunks whose type is one of the container's codes, in their original order |
| Decode.KeptAreOurs | pngrecon/commands/decode.py:31-35 | a chunk is kept exactly when it is in the input and its type is `deQm`, `maTt` or `yyBo` |
| Decode.FirstInvalidFrom | pngrecon/commands/decode.py:65-67 | the scan finds no position exactly when every record from there on is valid, and otherwise names the first invalid one |
| Decode.ValidateChunkSet | pngrecon/commands/decode.py:39-68 | the rules are checked in order and the first that fails decides the reason: zero index chunks give "no index chunk" and two or more "more than one"; then a data count other than the announced one gives that expected and actual count; then repeated data indexes give "not unique"; then, for encrypted data, a crypt-info count other than one gives that count; a set meeting all four rules but holding an invalid record is refused for the first invalid position; a passing set has exactly one index chunk |
| Decode.ValidateChunkSetPassIff | pngrecon/commands/decode.py:44-68 | a set passes exactly when it has one index chunk, as many data chunks as that chunk announces, pairwise different data indexes, one crypt-info chunk when the data is encrypted, and no invalid record |
| Decode.DataKeysDistinct | pngrecon/commands/decode.py:55-56 | `len(indexes) == len(set(indexes))` holds exactly when the data indexes are pairwise different |
| Decode.SameSetRules | pngrecon/commands/decode.py:44-64 | the first four rules give the same verdict for any reordering of the records |
| Decode.ValidatePermutation | pngrecon/commands/decode.py:39-68 | whether a set passes does not depend on the order of its records |
| Decode.GetIndexChunk | pngrecon/commands/decode.py:71-78 | for a passing set, the result is an index record of the set, and every index record of the set is that one |
| Decode.GetCryptInfoChunk | pngrecon/commands/decode.py:81-88 | for a passing set with one crypt-info chunk, the result is that record of the set and the only one |
| Decode.DataIsEncrypted | pngrecon/commands/decode.py:145-149 | the result is true exactly when the set's index record names an encryption other than `No` |
| Decode.SortedData | pngrecon/commands/decode.py:97-98 | the sorted data chunks are a permutation of the set's data chunks |
| Decode.SortedStrict | pngrecon/commands/decode.py:98 | in a passing set, the sorted data chunks are in strictly increasing index order |
| Decode.SortedDataIsUnique | pngrecon/commands/decode.py:97-98 | any strictly index-ordered arrangement of the data chunks is the sort's result |
| Decode.OpenAll | pngrecon/commands/decode.py:107-113 | the tokens yield output exactly when every one of them opens |
| Decode.OpenEach | pngrecon/commands/decode.py:108-112 | the loop over the tokens gives the concatenation of what each opens to, or fails at the first that does not open |
| Decode.DecryptData | pngrecon/commands/decode.py:91-115 | for a passing set, the result is the sorted payloads joined when unencrypted, or each opened with the crypt-info salt and joined, failing when any does not open |
| Decode.DecryptUnencryptedIsSortedJoin | pngrecon/commands/decode.py:97-102 | an unencrypted set decrypts to the payloads of any strictly index-ordered arrangement of its data chunks, joined |
| Decode.DecryptPermutation | pngrecon/commands/decode.py:91-115 | reordering a passing set keeps it passing and does not change what decrypting it gives |
| Decode.DecompressData | pngrecon/commands/decode.py:118-131 | with `CompressMethod.No` the bytes come back unchanged |
| Decode.DecompressUndoesCompress | pngrecon/commands/decode.py:123-127 | when the inflater undoes the deflater, decompressing what was compressed by the index's method gives the original bytes |
| Decode.CompletelyDecodeChunks | pngrecon/commands/decode.py:134-142 | for a passing set, the result is the decrypted data decompressed by the index's method, or the decryption error |
| Decode.UntypedSetHasNoIndex | pngrecon/commands/decode.py:35 | the unconverted chunks `keep_and_parse_our_chunks` returns always fail validation with "There is no index chunk" |
| Decode.DecodeMain | pngrecon/commands/decode.py:161-181 | decoding an image ends in the stream error when it cannot be parsed, and otherwise in the validator's failure on its kept chunks |
| Decode.DecodeMainNeverDecodes | pngrecon/commands/decode.py:170-173 | for every image that parses, that failure is "There is no index chunk" |
| Carrier.DefaultChunks | pngrecon.py:79-81 | IHDR has a 13-byte payload: width 1, height 1, bit depth 1, colour type 0, and compression, filter and interlace 0; IDAT holds `zlib.compress(b'\x00\x00')`; IEND is empty; all three are valid |
| Carrier.DefaultChunksNotCustom | pngrecon.py:79-81 | none of IHDR, IDAT and IEND has the type `maTt` |
| Carrier.WriteDefaultCarrier | pngrecon/commands/encode.py:45-50 | the writes produce the signature, then IHDR, IDAT, the data chunk and IEND in that order |
| Carrier.WriteChunks | pngrecon/commands/encode.py:18-19 | the loop appends the raw bytes of the given chunks, unmodified and in order |
| Carrier.EncodeWithSourceImage | pngrecon/commands/encode.py:10-21 | it fails with the stream error for an unreadable source, fails for a source without chunks, and refuses one whose last chunk is not IEND; otherwise it writes the signature, every source chunk but the last, the data chunk, then the last chunk |
| Carrier.SourceCarrierReadsBack | pngrecon/commands/encode.py:17-21 | what is written onto a source image reads back as the source's chunks with the data chunk just before the last one: one chunk more than the source |
| Carrier.DataChunk | pngrecon/commands/encode.py:42 | the inserted chunk has type `maTt`, the compressed input as payload, and is valid |
| Carrier.EncodeMain | pngrecon/commands/encode.py:37-50 | a compressed payload of 2^32 bytes or more is refused; otherwise the data chunk goes into the source image when one is given, and into the default carrier otherwise |
| Carrier.WriteDataChunk | pngrecon/commands/encode.py:43-50 | with a source the output is what `encode_with_source_image` produces, and without one it is the default carrier |
| Carrier.MainEncode | pngrecon.py:94-106 | `main_encode` writes the signature, IHDR, IDAT, one `maTt` chunk holding the compressed input, and IEND |
| Carrier.MainDecode | pngrecon.py:109-119 | `main_decode` parses every chunk after the first eight bytes and outputs the inflated payloads of the `maTt` chunks in file order, stopping at the first that does not inflate |
| Carrier.InflateCompleteIff | pngrecon.py:117-119 | the output is complete exactly when every `maTt` chunk inflates |
| Carrier.InflateOnlyCustom | pngrecon.py:117-119 | the output depends only on the `maTt` chunks: dropping every other chunk changes nothing |
| Carrier.StopsAtFailure | pngrecon.py:117-119 | once an inflate has failed, no later chunk adds to the output |
| Carrier.MainRoundTrip | pngrecon.py:94-119 | when the inflater undoes the deflater, what `main_encode` writes parses back as the four chunks it wrote, and `main_decode` outputs the original input |
| Filler.SplitOn | scripts/filler.py:62 | `str.split('/')` gives at least one piece and no piece contains `/` |
| Filler.JoinSplit | scripts/filler.py:46 | joining the pieces of a split with `/` gives the string back |
| Filler.SplitJoin | scripts/filler.py:62 | splitting what was joined from `/`-free pieces gives the pieces back |
| Filler.ParseAbsolute | scripts/filler.py:61-67 | `from_str(s).absolute` holds exactly when `s` starts with `/`, and then the empty piece before it is dropped |
| Filler.RenderParse | scripts/filler.py:45-67 | `str(Path.from_str(s)) == s` for every string `s` |
| Filler.ParseRender | scripts/filler.py:45-67 | a path with at least one component, each non-empty and free of `/`, is parsed back from its string unchanged |
| Filler.RenderAppend | scripts/filler.py:45-57 | appending a component to a non-empty path appends `/` and the component's name to its string |
| Filler.Path.constructor | scripts/filler.py:40-43 | a path holds the given items and absolute flag |
| Filler.Path.Get | scripts/filler.py:51-52 | `p[i]` finds a component exactly for `-len(items) <= i < len(items)` (an `IndexError` otherwise), and it is one of the items |
| Filler.GetFromEnd | scripts/filler.py:51-52 | a negative index names the same component as its non-negative counterpart |
| Filler.Path.AppendComponent | scripts/filler.py:54-57 | `append(PathComponent)` adds exactly that item at the end and keeps the other items and the absolute flag |
| Filler.Path.AppendPath | scripts/filler.py:54-58 | `append(Path)` extends the items with the argument's items as they were before the call, and keeps the absolute flag |
| Filler.Path.Copy | scripts/filler.py:190 | `deepcopy` gives a new path with the same items and flag |
| Filler.Path.FromStr | scripts/filler.py:60-67 | `from_str` builds a new path whose items and flag are the parse of the string |
| Filler.Lineage | scripts/filler.py:151-160 | the rowids found form a chain of parent links from a parentless row down to the requested rowid |
| Filler.LineageUnique | scripts/filler.py:151-160 | every chain of parent links that fits within the recursion limit is the one `get_path` finds |
| Filler.SelfParentTooDeep | scripts/filler.py:154-155 | a row that is its own parent exhausts the recursion limit |
| Filler.GetPath | scripts/filler.py:151-160 | `get_path` fails exactly when the lineage fails; otherwise it returns the lineage's rowids, ending with the requested rowid, fresh root and sub-path objects, the parentless row's name parsed as the root, and the names of the rows below it as the relative sub-path |
| Filler.PieceNameNumber | scripts/filler.py:212 | `f'{n:03}.png'` is at least three decimal digits followed by `.png`, and the digits spell `n` |
| Filler.PieceNamesDiffer | scripts/filler.py:212 | different piece numbers give different names |
| Filler.FirstPieceName | scripts/filler.py:212 | the first piece is named `001.png` |
| Filler.ReadPiece | scripts/filler.py:197-205 | the inner loop's reads of `min(buf_size, budget)` bytes fill the piece with the next `max_file_size` bytes, or with all that is left when fewer are left; it reaches end of file, and its last read is empty, exactly in that case |
| Filler.PiecesBounded | scripts/filler.py:198-205 | no piece is longer than `max_file_size`, and every piece but the last is exactly that long |
| Filler.PieceCount | scripts/filler.py:194-217 | the file is cut into one piece per whole `max_file_size` block, except that a file shorter than one block, even an empty one, gives exactly one piece |
| Filler.LaterPiecesDropTail | scripts/filler.py:206-209 | after the first piece, the pieces hold every whole block of the rest and none of a shorter tail |
| Filler.RunPiecesPrefix | scripts/filler.py:196-217 | the encodes started are the first ones of the piece list, numbered from 1, in order |
| Filler.RunPiecesOk | scripts/filler.py:215-218 | the run returns true exactly when every piece's encode succeeds, and then every piece was encoded |
| Filler.RunPiecesStops | scripts/filler.py:214-216 | a failed run stops at its last encode, which is the first that failed |
| Filler.EncodePieces | scripts/filler.py:193-218 | the outer loop encodes the pieces as `out_dname/001.png`, `out_dname/002.png`, …, skipping a piece whose last read was empty once `n > 1`, and returns false at the first failing encode |
| Filler.SplitEncode | scripts/filler.py:189-218 | `split_encode` opens `root.in_p` joined with `in_name`, fails when that file is missing, and otherwise runs the encodes of its pieces as `EncodePieces` does |
| Filler.AsWrittenRebuildsIff | scripts/filler.py:196-217 | the pieces put back together give the whole file exactly when it is shorter than `max_file_size` or a whole number of blocks long |
| Filler.AsWrittenKeepsWholeBlocks | scripts/filler.py:196-217 | a file at least one block long is cut to its whole blocks: its last `len % max_file_size` bytes are never encoded |
| Filler.AsWrittenDropsLastByte | scripts/filler.py:206-209 | a three-byte file with `max_file_size` 2 is encoded as the single piece `[1, 2]` |
| Filler.IntendedRebuilds | scripts/filler.py:206-209 | with the trailing piece kept, the pieces always give the file back, none is longer than `max_file_size`, and only an empty file yields an empty piece |

## Left out

- Cryptography: the key derivation, Fernet tokens and base64 of `pngrecon/util/crypto.py`. Decryption is a parameter that opens a token with the password and salt, or fails.
- zlib and lzma: compression and decompression are parameters. Two exceptions are concrete: `CompressMethod.No`'s pass-through, and the default IDAT payload, which is `zlib.compress(b'\x00\x00')` written out as the literal bytes zlib produces (`78 9C 63 60 00 00 00 02 00 01`).
- Files, stdin/stdout, `seek`, `peek`, argument parsing, `get_password`, logging and `fail_hard`. An image or input file is a byte sequence, and `fail_hard` is an error result.
- Reads of a file are full reads, as from a regular file. `read(k)` returns `min(k, remaining)` bytes.
- UTF-8 decoding of chunk type names: a type is four raw bytes. A type that is not UTF-8, which raises in `from_byte_stream`, is not modelled.
- `from_byte_stream` and `read_image_stream` raise `struct.error` on a truncated chunk. This is the single `MalformedStream` error.
- The subclass `is_valid` overrides are reached through the abstract `Record`s of the decoder, not through the byte-level kinds. No converted record is ever built as written.
- Decode.DecryptData: the encrypted branch calls `gen_key` and `decrypt` with arguments that do not match `pngrecon/util/crypto.py`, which would raise `TypeError`. The model gives the branch the behaviour its loop describes, one token at a time.
- Decode.DecodeMain: choosing the password from `--key-file`, decoding and writing the output follow a validation that always fails, so they are left out.
- The `IndexChunk.num_data_chunks < 0` check: a u32 is never negative.
- Carrier.EncodeMain: `encode.py`'s import of its constants from a module that lacks them, which would raise `ImportError`, is not modelled. Neither is `fail_hard` on a missing source file, since file existence is not modelled.
- `split_encode` with `max_file_size <= 0` raises `NameError`, because `b` is never assigned. SplitEncode, EncodePieces and ReadPiece require `max_file_size > 0`.
- Filler.SplitEncode returns the run (its verdict and every encode started, in order) rather than the bare boolean. The subprocesses, `tar` and the temporary files are left out.
- Filler.GetPath: Python's recursion limit is the `fuel` parameter. A chain deeper than it ends in `TooDeep`, where Python raises `RecursionError`.
- The rest of `scripts/filler.py`: sqlite tables and queries, `walk_roots`, `get_roots`, `time.sleep` retries and `encode`'s `tar | pngrecon` pipeline.
- The `info` and `testing` commands, `pngrecon/__main__.py` and `setup.py`: display, debug and packaging code.
- `MAX_DATA_CHUNK_BYTES`: it is declared but never used.
- Chunks.NewChunk: `struct.pack('>I', len(data))` refuses 2^32 bytes or more. This is a precondition here, and an error result in `Carrier.EncodeMain`.
- The CRC is the bitwise reference form of section 5.5 of the PNG specification, not zlib's table-driven code.

## Findings

| source | as written | input that shows it | evidently intended | confidence | as-written member | corrected member |
|---|---|---|---|---|---|---|
| scripts/filler.py:199-209 | after a short final piece's data is read, the next read is empty; `b` then holds that empty read, and for `n > 1` the piece is skipped along with its data | a 3-byte file with `max_file_size` 2: piece `001.png` holds bytes 1-2 and byte 3 is never encoded | only a piece that read nothing is skipped, so every byte of the file is encoded | not executed | Filler.AsWrittenDropsLastByte | Filler.IntendedRebuilds |
