/** The three private chunk kinds of the container and the enumerations
    carried in the index chunk. Each kind is a chunk with a fixed type code
    and a payload codec; `from_chunk` re-packs a chunk's payload through
    the kind's constructor, and `is_valid` adds the kind's own checks to
    the CRC check. */
module Records {
  import opened Wrappers
  import opened Bytes
  import opened Chunks

  /** The type codes owned by the container: 'deQm', 'maTt' and 'yyBo'. */
  datatype ChunkType = Index | Data | CryptInfo
  {
    function Code(): (t: seq<byte>)
      ensures |t| == 4
    {
      match this
      case Index => [0x64, 0x65, 0x51, 0x6D]
      case Data => [0x6D, 0x61, 0x54, 0x74]
      case CryptInfo => [0x79, 0x79, 0x42, 0x6F]
    }
  }

  /** ChunkType.from_string as a total lookup over the three codes. */
  function ChunkTypeFromCode(t: seq<byte>): (r: Option<ChunkType>)
    ensures r.Some? ==> r.value.Code() == t
    ensures r.None? ==> forall k: ChunkType :: k.Code() != t
  {
    if t == ChunkType.Index.Code() then Some(ChunkType.Index)
    else if t == ChunkType.Data.Code() then Some(ChunkType.Data)
    else if t == ChunkType.CryptInfo.Code() then Some(ChunkType.CryptInfo)
    else None
  }

  /** Every code maps back to its own kind. */
  lemma ChunkTypeCodeRoundTrip(k: ChunkType)
    ensures ChunkTypeFromCode(k.Code()) == Some(k)
  {
  }

  datatype EncodingType = SingleFile
  {
    function Value(): u32 { 1 }
  }

  datatype EncryptionType = No | SaltedPass01
  {
    function Value(): u32
    {
      match this
      case No => 1
      case SaltedPass01 => 2
    }
  }

  /** Only the two methods the code declares: 'No' and 'Zlib'. */
  datatype CompressMethod = No | Zlib
  {
    function Value(): u32
    {
      match this
      case No => 1
      case Zlib => 2
    }
  }

  /** EncodingType(v): the variant with that value, or the ValueError. */
  function EncodingTypeOf(v: u32): (r: Option<EncodingType>)
    ensures r.Some? <==> v == 1
    ensures r.Some? ==> r.value.Value() == v
  {
    if v == 1 then Some(SingleFile) else None
  }

  function EncryptionTypeOf(v: u32): (r: Option<EncryptionType>)
    ensures r.Some? <==> v == 1 || v == 2
    ensures r.Some? ==> r.value.Value() == v
  {
    if v == 1 then Some(EncryptionType.No)
    else if v == 2 then Some(EncryptionType.SaltedPass01)
    else None
  }

  function CompressMethodOf(v: u32): (r: Option<CompressMethod>)
    ensures r.Some? <==> v == 1 || v == 2
    ensures r.Some? ==> r.value.Value() == v
  {
    if v == 1 then Some(CompressMethod.No)
    else if v == 2 then Some(CompressMethod.Zlib)
    else None
  }

  /** Each variant's value decodes to that variant. */
  lemma EnumValuesRoundTrip(e: EncodingType, x: EncryptionType, m: CompressMethod)
    ensures EncodingTypeOf(e.Value()) == Some(e)
    ensures EncryptionTypeOf(x.Value()) == Some(x)
    ensures CompressMethodOf(m.Value()) == Some(m)
  {
  }

  // ---------------------------------------------------------------- IndexChunk

  /** The word at byte offset `at` of a payload (struct.unpack_from('>I', data, at)). */
  function WordAt(d: seq<byte>, at: nat): u32
    requires at + 4 <= |d|
  {
    ReadBE32(d[at..at + 4])
  }

  /** The sixteen payload bytes of an index chunk: four big-endian words. */
  function IndexPayload(e: nat, x: nat, m: nat, n: u32): (d: seq<byte>)
    requires e < TWO_32 && x < TWO_32 && m < TWO_32
    ensures |d| == 16
    ensures WordAt(d, 0) == e && WordAt(d, 4) == x && WordAt(d, 8) == m && WordAt(d, 12) == n
  {
    var d := BE32(e) + BE32(x) + BE32(m) + BE32(n);
    assert d[0..4] == BE32(e) && d[4..8] == BE32(x);
    assert d[8..12] == BE32(m) && d[12..16] == BE32(n);
    ReadBE32OfBE32(e);
    ReadBE32OfBE32(x);
    ReadBE32OfBE32(m);
    ReadBE32OfBE32(n);
    d
  }

  /** Any sixteen bytes are the packing of the four words read from them. */
  lemma PayloadOfWords(d: seq<byte>)
    requires |d| == 16
    ensures d == IndexPayload(WordAt(d, 0), WordAt(d, 4), WordAt(d, 8), WordAt(d, 12))
  {
    BE32OfReadBE32(d[0..4]);
    BE32OfReadBE32(d[4..8]);
    BE32OfReadBE32(d[8..12]);
    BE32OfReadBE32(d[12..16]);
    assert d == d[0..4] + d[4..8] + d[8..12] + d[12..16];
  }

  /** IndexChunk(e, x, m, n): four big-endian words in that order. */
  function NewIndexChunk(e: EncodingType, x: EncryptionType, m: CompressMethod, n: u32): (c: Chunk)
    ensures c.Type() == ChunkType.Index.Code()
    ensures c.Data() == IndexPayload(e.Value(), x.Value(), m.Value(), n)
    ensures IndexEncodingType(c) == Some(e)
    ensures IndexEncryptionType(c) == Some(x)
    ensures IndexCompressMethod(c) == Some(m)
    ensures IndexNumDataChunks(c) == n
    ensures IndexIsValid(c)
  {
    var d := IndexPayload(e.Value(), x.Value(), m.Value(), n);
    EnumValuesRoundTrip(e, x, m);
    NewChunk(ChunkType.Index.Code(), d)
  }

  /** `encoding_type`: word 0 as an EncodingType; None is the ValueError. */
  function IndexEncodingType(c: Chunk): Option<EncodingType>
    requires |c.Data()| >= 4
  {
    EncodingTypeOf(WordAt(c.Data(), 0))
  }

  function IndexEncryptionType(c: Chunk): Option<EncryptionType>
    requires |c.Data()| >= 8
  {
    EncryptionTypeOf(WordAt(c.Data(), 4))
  }

  function IndexCompressMethod(c: Chunk): Option<CompressMethod>
    requires |c.Data()| >= 12
  {
    CompressMethodOf(WordAt(c.Data(), 8))
  }

  function IndexNumDataChunks(c: Chunk): u32
    requires |c.Data()| >= 16
  {
    WordAt(c.Data(), 12)
  }

  /** IndexChunk.is_valid: the CRC matches and every enum field decodes.
      (Reading `num_data_chunks` needs the full 16 bytes; a u32 is never
      negative, so that check always passes.) */
  predicate IndexIsValid(c: Chunk)
    requires |c.Data()| >= 16
  {
    && c.IsValid()
    && IndexEncodingType(c).Some?
    && IndexEncryptionType(c).Some?
    && IndexCompressMethod(c).Some?
  }

  /** An index chunk is invalid exactly when its CRC mismatches or a field
      holds a value outside its enumeration: encoding {1}, encryption {1, 2},
      compression {1, 2}. */
  lemma IndexValidIff(c: Chunk)
    requires |c.Data()| >= 16
    ensures IndexIsValid(c) <==>
      && c.Crc() == Crc32(c.Type() + c.Data())
      && WordAt(c.Data(), 0) == 1
      && WordAt(c.Data(), 4) in {1, 2}
      && WordAt(c.Data(), 8) in {1, 2}
  {
  }

  /** IndexChunk.from_chunk: unpack exactly sixteen bytes as four words
      (struct.error otherwise), decode the enums (ValueError otherwise) and
      rebuild through the constructor. The chunk's own type code is not
      looked at. */
  function IndexFromChunk(c: Chunk): (r: Option<Chunk>)
    ensures r.Some? <==>
      && |c.Data()| == 16
      && IndexEncodingType(c).Some?
      && IndexEncryptionType(c).Some?
      && IndexCompressMethod(c).Some?
    ensures r.Some? ==>
      && r.value.Type() == ChunkType.Index.Code()
      && r.value.Data() == c.Data()
      && IndexIsValid(r.value)
  {
    if |c.Data()| != 16 then None
    else
      match (IndexEncodingType(c), IndexEncryptionType(c), IndexCompressMethod(c))
      case (Some(e), Some(x), Some(m)) =>
        IndexRepacks(c, e, x, m);
        Some(NewIndexChunk(e, x, m, IndexNumDataChunks(c)))
      case _ => None
  }

  /** Packing the decoded fields again gives back the sixteen payload bytes. */
  lemma IndexRepacks(c: Chunk, e: EncodingType, x: EncryptionType, m: CompressMethod)
    requires |c.Data()| == 16
    requires IndexEncodingType(c) == Some(e)
    requires IndexEncryptionType(c) == Some(x)
    requires IndexCompressMethod(c) == Some(m)
    ensures NewIndexChunk(e, x, m, IndexNumDataChunks(c)).Data() == c.Data()
  {
    PayloadOfWords(c.Data());
  }

  /** from_chunk of a constructed index chunk reproduces it, field for field. */
  lemma IndexRoundTrip(e: EncodingType, x: EncryptionType, m: CompressMethod, n: u32)
    ensures IndexFromChunk(NewIndexChunk(e, x, m, n)) == Some(NewIndexChunk(e, x, m, n))
  {
    var c := NewIndexChunk(e, x, m, n);
    var r := IndexFromChunk(c).value;
    assert r.Type() == c.Type() && r.Data() == c.Data();
    ValidChunkIsRebuilt(c);
    ValidChunkIsRebuilt(r);
  }

  // ----------------------------------------------------------------- DataChunk

  /** DataChunk(d): the payload goes in unchanged under type 'maTt'. */
  function NewDataChunk(d: seq<byte>): (c: Chunk)
    requires |d| < TWO_32
    ensures c.Type() == ChunkType.Data.Code() && c.Data() == d && c.IsValid()
  {
    NewChunk(ChunkType.Data.Code(), d)
  }

  /** DataChunk.from_chunk: re-wrap the payload as a data chunk. */
  function DataFromChunk(c: Chunk): (r: Chunk)
    ensures r.Data() == c.Data() && r.Type() == ChunkType.Data.Code() && r.IsValid()
  {
    NewDataChunk(c.Data())
  }

  /** from_chunk gives back a valid data chunk unchanged. */
  lemma DataFromValidData(c: Chunk)
    requires c.Type() == ChunkType.Data.Code() && c.IsValid()
    ensures DataFromChunk(c) == c
  {
    ValidChunkIsRebuilt(c);
  }

  // ------------------------------------------------------------ CryptInfoChunk

  /** CryptInfoChunk(salt): the constructor asserts a 16-byte salt. */
  function NewCryptInfoChunk(salt: seq<byte>): (c: Chunk)
    requires |salt| == 16
    ensures c.Type() == ChunkType.CryptInfo.Code()
    ensures |c.Data()| == 16 && CryptInfoSalt(c) == salt
    ensures CryptInfoIsValid(c)
  {
    NewChunk(ChunkType.CryptInfo.Code(), salt)
  }

  /** `salt`: the first sixteen payload bytes. */
  function CryptInfoSalt(c: Chunk): seq<byte>
    requires |c.Data()| >= 16
  {
    c.Data()[..16]
  }

  /** CryptInfoChunk.is_valid: the CRC matches and the payload is sixteen bytes. */
  predicate CryptInfoIsValid(c: Chunk)
  {
    c.IsValid() && c.Length() == 16
  }

  /** CryptInfoChunk.from_chunk: only a sixteen-byte payload unpacks. */
  function CryptInfoFromChunk(c: Chunk): (r: Option<Chunk>)
    ensures r.Some? <==> |c.Data()| == 16
    ensures r.Some? ==>
      && r.value.Type() == ChunkType.CryptInfo.Code()
      && |r.value.Data()| == 16
      && CryptInfoSalt(r.value) == c.Data()
      && CryptInfoIsValid(r.value)
  {
    if |c.Data()| == 16 then Some(NewCryptInfoChunk(c.Data())) else None
  }

  /** A valid crypt-info chunk's salt is its whole payload. */
  lemma CryptInfoSaltIsPayload(c: Chunk)
    requires CryptInfoIsValid(c)
    ensures CryptInfoSalt(c) == c.Data()
  {
    assert c.Length() == |c.Data()|;
  }
}
