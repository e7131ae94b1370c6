/** The decode command (pngrecon/commands/decode.py): keep the container's
    own chunks, check that they form a complete set, put the data chunks in
    index order, decrypt and decompress.

    The validator and the reassembly look at chunks through `isinstance`
    tests and the properties `index`, `is_valid`, `num_data_chunks`,
    `encryption_type`, `compress_method` and `salt`. The data chunk kind
    declares no `index` property, so a record here carries those values
    directly instead of a byte layout. Chunks that `keep_and_parse_our_chunks`
    hands on are plain chunk objects, which no `isinstance` test matches:
    they are the `Untyped` records. */
module Decode {
  import opened Wrappers
  import opened Bytes
  import opened Seqs
  import opened Chunks
  import opened Records

  datatype Record =
    | Untyped(chunk: Chunk)
    | IndexRecord(valid: bool, encryption: EncryptionType, compress: CompressMethod, numDataChunks: u32)
    | DataRecord(valid: bool, index: int, payload: seq<byte>)
    | CryptInfoRecord(valid: bool, salt: seq<byte>)
  {
    /** `chunk.is_valid` */
    predicate IsValid()
    {
      match this
      case Untyped(c) => c.IsValid()
      case IndexRecord(v, _, _, _) => v
      case DataRecord(v, _, _) => v
      case CryptInfoRecord(v, _) => v
    }
  }

  predicate IsIndex(r: Record) { r.IndexRecord? }
  predicate IsData(r: Record) { r.DataRecord? }
  predicate IsCryptInfo(r: Record) { r.CryptInfoRecord? }

  /** The sort key `c.index` of a data record. */
  function DataKey(r: Record): int
  {
    if r.DataRecord? then r.index else 0
  }

  /** `c.data` of a data record. */
  function Payload(r: Record): seq<byte>
  {
    if r.DataRecord? then r.payload else []
  }

  function IndexRecords(rs: seq<Record>): seq<Record> { Filter(IsIndex, rs) }
  function DataRecords(rs: seq<Record>): seq<Record> { Filter(IsData, rs) }
  function CryptInfoRecords(rs: seq<Record>): seq<Record> { Filter(IsCryptInfo, rs) }

  // ------------------------------------------------- keep_and_parse_our_chunks

  /** `ChunkType.from_string(chunk.type)` is not None. */
  predicate IsOurs(c: Chunk)
  {
    ChunkTypeFromCode(c.Type()).Some?
  }

  /** keep_and_parse_our_chunks: walk the chunks and append each one whose
      type is one of the container's codes; the chunk itself is appended,
      never converted to its kind. */
  method KeepAndParseOurChunks(chunks: seq<Chunk>) returns (kept: seq<Chunk>)
    ensures kept == Filter(IsOurs, chunks)
  {
    kept := [];
    var i := 0;
    while i < |chunks|
      invariant 0 <= i <= |chunks|
      invariant kept == Filter(IsOurs, chunks[..i])
    {
      FilterStep(IsOurs, chunks, i);
      if IsOurs(chunks[i]) {
        kept := kept + [chunks[i]];
      }
      i := i + 1;
    }
    assert chunks[..|chunks|] == chunks;
  }

  /** A chunk is kept exactly when it occurs in the input and its type is
      'deQm', 'maTt' or 'yyBo'. */
  lemma KeptAreOurs(chunks: seq<Chunk>, c: Chunk)
    ensures c in Filter(IsOurs, chunks) <==>
      c in chunks && (c.Type() == ChunkType.Index.Code() || c.Type() == ChunkType.Data.Code()
                      || c.Type() == ChunkType.CryptInfo.Code())
  {
    var kept := Filter(IsOurs, chunks);
    if c in kept {
      var i :| 0 <= i < |kept| && kept[i] == c;
      assert IsOurs(kept[i]);
    }
    if c in chunks && IsOurs(c) {
      var i :| 0 <= i < |chunks| && chunks[i] == c;
      assert chunks[i] in kept;
    }
  }

  // -------------------------------------------------------- validate_chunk_set

  /** The reasons validate_chunk_set gives for refusing a set. */
  datatype Invalid =
    | NoIndexChunk
    | MoreThanOneIndexChunk
    | DataChunkCount(expected: int, actual: int)
    | DataIndexesNotUnique
    | CryptInfoCount(count: int)
    | InvalidChunkAt(position: int)

  /** The first four rules, in order: one index chunk, as many data chunks as
      it announces, pairwise different data indexes, and one crypt-info chunk
      when the data is encrypted. None when all four hold. */
  function SetRuleFailure(rs: seq<Record>): Option<Invalid>
  {
    var idx := IndexRecords(rs);
    if |idx| < 1 then Some(NoIndexChunk)
    else if |idx| > 1 then Some(MoreThanOneIndexChunk)
    else if |DataRecords(rs)| != idx[0].numDataChunks then
      Some(DataChunkCount(idx[0].numDataChunks, |DataRecords(rs)|))
    else if !Distinct(MapSeq(DataKey, DataRecords(rs))) then Some(DataIndexesNotUnique)
    else if idx[0].encryption != EncryptionType.No && |CryptInfoRecords(rs)| != 1 then
      Some(CryptInfoCount(|CryptInfoRecords(rs)|))
    else None
  }

  /** The `for i, chunk in enumerate(chunks)` scan from position `from`: the
      first record that is not valid. */
  function FirstInvalidFrom(rs: seq<Record>, from: nat): (r: Option<nat>)
    requires from <= |rs|
    ensures r.None? <==> forall i :: from <= i < |rs| ==> rs[i].IsValid()
    ensures r.Some? ==>
      && from <= r.value < |rs|
      && !rs[r.value].IsValid()
      && forall i :: from <= i < r.value ==> rs[i].IsValid()
    decreases |rs| - from
  {
    if from == |rs| then None
    else if !rs[from].IsValid() then Some(from)
    else FirstInvalidFrom(rs, from + 1)
  }

  /** validate_chunk_set: the rules are checked in order and the first that
      fails decides the answer; (True, '') is Pass. */
  function ValidateChunkSet(rs: seq<Record>): (r: Outcome<Invalid>)
    // the index-chunk rules come before everything else
    ensures |IndexRecords(rs)| == 0 ==> r == Fail(NoIndexChunk)
    ensures |IndexRecords(rs)| > 1 ==> r == Fail(MoreThanOneIndexChunk)
    // then the data count, then the uniqueness of the data indexes, then
    // the crypt-info count, each only once the ones before it have held
    ensures |IndexRecords(rs)| == 1 && |DataRecords(rs)| != IndexRecords(rs)[0].numDataChunks ==>
      r == Fail(DataChunkCount(IndexRecords(rs)[0].numDataChunks, |DataRecords(rs)|))
    ensures (&& |IndexRecords(rs)| == 1
             && |DataRecords(rs)| == IndexRecords(rs)[0].numDataChunks
             && !Distinct(MapSeq(DataKey, DataRecords(rs))))
      ==> r == Fail(DataIndexesNotUnique)
    ensures (&& |IndexRecords(rs)| == 1
             && |DataRecords(rs)| == IndexRecords(rs)[0].numDataChunks
             && Distinct(MapSeq(DataKey, DataRecords(rs)))
             && IndexRecords(rs)[0].encryption != EncryptionType.No
             && |CryptInfoRecords(rs)| != 1)
      ==> r == Fail(CryptInfoCount(|CryptInfoRecords(rs)|))
    // a set that meets those rules but holds an invalid record is refused
    // for that record
    ensures SetRuleFailure(rs).None? && (exists i :: 0 <= i < |rs| && !rs[i].IsValid()) ==>
      r.Fail? && r.error.InvalidChunkAt?
    // the position named is that of the first invalid record, and it is
    // only named once every set-level rule has held
    ensures r.Fail? && r.error.InvalidChunkAt? ==>
      && SetRuleFailure(rs).None?
      && 0 <= r.error.position < |rs|
      && !rs[r.error.position].IsValid()
      && forall i :: 0 <= i < r.error.position ==> rs[i].IsValid()
    ensures r.Pass? ==> |IndexRecords(rs)| == 1
  {
    match SetRuleFailure(rs)
    case Some(e) => Fail(e)
    case None =>
      match FirstInvalidFrom(rs, 0)
      case Some(i) => Fail(InvalidChunkAt(i))
      case None => Pass
  }

  /** A set passes exactly when it has one index chunk, the announced number
      of data chunks with pairwise different indexes, one crypt-info chunk if
      the data is encrypted, and only valid chunks. */
  lemma ValidateChunkSetPassIff(rs: seq<Record>)
    ensures ValidateChunkSet(rs).Pass? <==>
      && |IndexRecords(rs)| == 1
      && |DataRecords(rs)| == IndexRecords(rs)[0].numDataChunks
      && (forall i, j :: 0 <= i < j < |DataRecords(rs)| ==> DataRecords(rs)[i].index != DataRecords(rs)[j].index)
      && (IndexRecords(rs)[0].encryption != EncryptionType.No ==> |CryptInfoRecords(rs)| == 1)
      && (forall i :: 0 <= i < |rs| ==> rs[i].IsValid())
  {
    DataKeysDistinct(rs);
    assert ValidateChunkSet(rs).Pass? <==> SetRuleFailure(rs).None? && FirstInvalidFrom(rs, 0).None?;
  }

  /** The data indexes are pairwise different exactly when `len(set(...))`
      equals the number of data records. */
  lemma DataKeysDistinct(rs: seq<Record>)
    ensures Distinct(MapSeq(DataKey, DataRecords(rs))) <==>
      forall i, j :: 0 <= i < j < |DataRecords(rs)| ==> DataRecords(rs)[i].index != DataRecords(rs)[j].index
  {
    var data := DataRecords(rs);
    var keys := MapSeq(DataKey, data);
    DistinctIff(keys);
    assert forall i :: 0 <= i < |data| ==> keys[i] == data[i].index;
  }

  /** On a valid set the data indexes are pairwise different and, when the
      data is encrypted, there is one crypt-info record. */
  lemma PassedSet(rs: seq<Record>)
    requires ValidateChunkSet(rs).Pass?
    ensures Distinct(MapSeq(DataKey, DataRecords(rs)))
    ensures IndexRecords(rs)[0].encryption != EncryptionType.No ==> |CryptInfoRecords(rs)| == 1
  {
  }

  /** Reordering the records changes neither the verdict of the set-level
      rules nor whether the set passes. */
  lemma ValidatePermutation(rs: seq<Record>, ss: seq<Record>)
    requires multiset(rs) == multiset(ss)
    ensures SetRuleFailure(rs) == SetRuleFailure(ss)
    ensures ValidateChunkSet(rs).Pass? <==> ValidateChunkSet(ss).Pass?
  {
    SameSetRules(rs, ss);
    AllValidPermutation(rs, ss);
    assert FirstInvalidFrom(rs, 0).None? <==> FirstInvalidFrom(ss, 0).None?;
  }

  lemma SameSetRules(rs: seq<Record>, ss: seq<Record>)
    requires multiset(rs) == multiset(ss)
    ensures SetRuleFailure(rs) == SetRuleFailure(ss)
  {
    IndexPermutation(rs, ss);
    DataPermutation(rs, ss);
    CryptInfoPermutation(rs, ss);
  }

  lemma IndexPermutation(rs: seq<Record>, ss: seq<Record>)
    requires multiset(rs) == multiset(ss)
    ensures |IndexRecords(rs)| == |IndexRecords(ss)|
    ensures |IndexRecords(rs)| == 1 ==> IndexRecords(rs) == IndexRecords(ss)
  {
    FilterPermutation(IsIndex, rs, ss);
    SamePermutationSizes(IndexRecords(rs), IndexRecords(ss));
    if |IndexRecords(rs)| == 1 {
      SingletonPermutation(IndexRecords(rs), IndexRecords(ss));
    }
  }

  lemma DataPermutation(rs: seq<Record>, ss: seq<Record>)
    requires multiset(rs) == multiset(ss)
    ensures multiset(DataRecords(rs)) == multiset(DataRecords(ss))
    ensures |DataRecords(rs)| == |DataRecords(ss)|
    ensures Distinct(MapSeq(DataKey, DataRecords(rs))) <==> Distinct(MapSeq(DataKey, DataRecords(ss)))
  {
    FilterPermutation(IsData, rs, ss);
    SamePermutationSizes(DataRecords(rs), DataRecords(ss));
    MapPermutation(DataKey, DataRecords(rs), DataRecords(ss));
    DistinctPermutation(MapSeq(DataKey, DataRecords(rs)), MapSeq(DataKey, DataRecords(ss)));
  }

  lemma CryptInfoPermutation(rs: seq<Record>, ss: seq<Record>)
    requires multiset(rs) == multiset(ss)
    ensures |CryptInfoRecords(rs)| == |CryptInfoRecords(ss)|
    ensures |CryptInfoRecords(rs)| == 1 ==> CryptInfoRecords(rs) == CryptInfoRecords(ss)
  {
    FilterPermutation(IsCryptInfo, rs, ss);
    SamePermutationSizes(CryptInfoRecords(rs), CryptInfoRecords(ss));
    if |CryptInfoRecords(rs)| == 1 {
      SingletonPermutation(CryptInfoRecords(rs), CryptInfoRecords(ss));
    }
  }

  lemma SamePermutationSizes<T>(s: seq<T>, t: seq<T>)
    requires multiset(s) == multiset(t)
    ensures |s| == |t|
  {
    assert |s| == |multiset(s)|;
  }

  /** Two one-element arrangements of the same elements are the same. */
  lemma SingletonPermutation<T>(s: seq<T>, t: seq<T>)
    requires multiset(s) == multiset(t) && |s| == 1
    ensures t == s
  {
    assert |t| == |multiset(t)| == 1;
    assert s[0] in multiset(t);
  }

  lemma AllValidPermutation(rs: seq<Record>, ss: seq<Record>)
    requires multiset(rs) == multiset(ss)
    ensures (forall i :: 0 <= i < |rs| ==> rs[i].IsValid()) <==> (forall i :: 0 <= i < |ss| ==> ss[i].IsValid())
  {
    if forall i :: 0 <= i < |rs| ==> rs[i].IsValid() {
      AllValidTransfer(rs, ss);
    }
    if forall i :: 0 <= i < |ss| ==> ss[i].IsValid() {
      AllValidTransfer(ss, rs);
    }
  }

  lemma AllValidTransfer(rs: seq<Record>, ss: seq<Record>)
    requires multiset(rs) == multiset(ss)
    requires forall i :: 0 <= i < |rs| ==> rs[i].IsValid()
    ensures forall i :: 0 <= i < |ss| ==> ss[i].IsValid()
  {
    forall i | 0 <= i < |ss| ensures ss[i].IsValid() {
      assert ss[i] in multiset(rs);
      var j :| 0 <= j < |rs| && rs[j] == ss[i];
    }
  }

  /** get_index_chunk_from_chunks: the one index record of a valid set. */
  function GetIndexChunk(rs: seq<Record>): (r: Record)
    requires ValidateChunkSet(rs).Pass?
    ensures r.IndexRecord? && r in rs
    ensures forall i :: 0 <= i < |rs| && rs[i].IndexRecord? ==> rs[i] == r
  {
    FilterSingle(IsIndex, rs);
    IndexRecords(rs)[0]
  }

  /** get_crypt_info_chunk_from_chunks: asserts a valid set with exactly one
      crypt-info record. */
  function GetCryptInfoChunk(rs: seq<Record>): (r: Record)
    requires ValidateChunkSet(rs).Pass? && |CryptInfoRecords(rs)| == 1
    ensures r.CryptInfoRecord? && r in rs
    ensures forall i :: 0 <= i < |rs| && rs[i].CryptInfoRecord? ==> rs[i] == r
  {
    FilterSingle(IsCryptInfo, rs);
    CryptInfoRecords(rs)[0]
  }

  /** data_is_encrypted: the index record of a valid set names an encryption. */
  function DataIsEncrypted(rs: seq<Record>): (r: bool)
    requires ValidateChunkSet(rs).Pass?
    ensures r <==> exists i :: 0 <= i < |rs| && rs[i].IndexRecord? && rs[i].encryption != EncryptionType.No
  {
    var idx := GetIndexChunk(rs);
    var k :| 0 <= k < |rs| && rs[k] == idx;
    idx.encryption != EncryptionType.No
  }

  // -------------------------------------------------------------- decrypt_data

  /** `sorted(data_chunks, key=lambda c: c.index)` */
  function SortedData(rs: seq<Record>): (r: seq<Record>)
    ensures multiset(r) == multiset(DataRecords(rs))
  {
    SortBy(DataKey, DataRecords(rs))
  }

  /** A password-derived key and the salt open one token, or fail. */
  type Opener = (Option<seq<byte>>, seq<byte>, seq<byte>) -> Option<seq<byte>>

  /** `data += d` over the tokens in order, stopping at the first token that
      does not open. */
  function OpenAll(open: Opener, pw: Option<seq<byte>>, salt: seq<byte>, tokens: seq<seq<byte>>): (r: Option<seq<byte>>)
    ensures r.Some? <==> forall i :: 0 <= i < |tokens| ==> open(pw, salt, tokens[i]).Some?
  {
    if tokens == [] then Some([])
    else
      var front := tokens[..|tokens| - 1];
      match OpenAll(open, pw, salt, front)
      case None => None
      case Some(d) =>
        match open(pw, salt, tokens[|tokens| - 1])
        case None => None
        case Some(x) => Some(d + x)
  }

  /** The errors of the decode pipeline. */
  datatype DecodeError =
    | BadStream(stream: StreamError)
    | BadSet(invalid: Invalid)
    | UnableToDecrypt
    | UnableToDecompress

  /** What decrypt_data returns for a valid set: the sorted payloads joined,
      or each one opened with the crypt-info salt and joined. */
  function DecryptSpec(rs: seq<Record>, pw: Option<seq<byte>>, open: Opener): Result<seq<byte>, DecodeError>
    requires ValidateChunkSet(rs).Pass?
  {
    var tokens := MapSeq(Payload, SortedData(rs));
    if GetIndexChunk(rs).encryption == EncryptionType.No then Ok(Flatten(tokens))
    else
      PassedSet(rs);
      match OpenAll(open, pw, GetCryptInfoChunk(rs).salt, tokens)
      case None => Err(UnableToDecrypt)
      case Some(d) => Ok(d)
  }

  /** decrypt_data. The encrypted branch opens the sorted payloads one by one
      and fails at the first that does not open, before returning anything. */
  method DecryptData(rs: seq<Record>, pw: Option<seq<byte>>, open: Opener) returns (r: Result<seq<byte>, DecodeError>)
    requires ValidateChunkSet(rs).Pass?
    ensures r == DecryptSpec(rs, pw, open)
  {
    var index := GetIndexChunk(rs);
    var dataChunks := SortedData(rs);
    if index.encryption == EncryptionType.No {
      return Ok(Flatten(MapSeq(Payload, dataChunks)));
    }
    PassedSet(rs);
    var salt := GetCryptInfoChunk(rs).salt;
    var data := OpenEach(open, pw, salt, MapSeq(Payload, dataChunks));
    if data.None? {
      return Err(UnableToDecrypt);
    }
    return Ok(data.value);
  }

  /** The `for chunk in data_chunks` loop of decrypt_data: open each token
      with the same key and append what comes out; stop at the first failure. */
  method OpenEach(open: Opener, pw: Option<seq<byte>>, salt: seq<byte>, tokens: seq<seq<byte>>)
    returns (r: Option<seq<byte>>)
    ensures r == OpenAll(open, pw, salt, tokens)
  {
    var data := [];
    var i := 0;
    while i < |tokens|
      invariant 0 <= i <= |tokens|
      invariant OpenAll(open, pw, salt, tokens[..i]) == Some(data)
    {
      assert tokens[..i + 1][..i] == tokens[..i];
      match open(pw, salt, tokens[i])
      case None =>
        assert !open(pw, salt, tokens[i]).Some?;
        return None;
      case Some(d) =>
        data := data + d;
      i := i + 1;
    }
    assert tokens[..i] == tokens;
    return Some(data);
  }

  /** On a valid set the data records, in any order strictly increasing in
      index, are the ones decrypt_data joins: for an unencrypted set its
      output is their payloads laid end to end. */
  lemma DecryptUnencryptedIsSortedJoin(rs: seq<Record>, pw: Option<seq<byte>>, open: Opener, s: seq<Record>)
    requires ValidateChunkSet(rs).Pass?
    requires GetIndexChunk(rs).encryption == EncryptionType.No
    requires StrictlySortedBy(DataKey, s) && multiset(s) == multiset(DataRecords(rs))
    ensures DecryptSpec(rs, pw, open) == Ok(Flatten(MapSeq(Payload, s)))
  {
    SortedDataIsUnique(rs, s);
  }

  /** The index-sorted data records of a valid set are the only arrangement
      of them that is strictly increasing in index. */
  lemma SortedDataIsUnique(rs: seq<Record>, s: seq<Record>)
    requires ValidateChunkSet(rs).Pass?
    requires StrictlySortedBy(DataKey, s) && multiset(s) == multiset(DataRecords(rs))
    ensures SortedData(rs) == s
  {
    var data := DataRecords(rs);
    var sorted := SortedData(rs);
    PassedSet(rs);
    MapPermutation(DataKey, data, sorted);
    DistinctPermutation(MapSeq(DataKey, data), MapSeq(DataKey, sorted));
    SortedDistinctIsStrict(DataKey, sorted);
    StrictlySortedUnique(DataKey, sorted, s);
  }

  /** decrypt_data does not depend on the order of the records in the file. */
  lemma DecryptPermutation(rs: seq<Record>, ss: seq<Record>, pw: Option<seq<byte>>, open: Opener)
    requires ValidateChunkSet(rs).Pass? && multiset(rs) == multiset(ss)
    ensures ValidateChunkSet(ss).Pass?
    ensures DecryptSpec(rs, pw, open) == DecryptSpec(ss, pw, open)
  {
    ValidatePermutation(rs, ss);
    SameSortedData(rs, ss);
    SamePicks(rs, ss);
    PassedSet(rs);
    SameDecrypt(rs, ss, pw, open);
  }

  /** Two valid sets with the same sorted data records, the same index
      record and, when encrypted, the same crypt-info record decrypt alike. */
  lemma SameDecrypt(rs: seq<Record>, ss: seq<Record>, pw: Option<seq<byte>>, open: Opener)
    requires ValidateChunkSet(rs).Pass? && ValidateChunkSet(ss).Pass?
    requires SortedData(rs) == SortedData(ss) && GetIndexChunk(rs) == GetIndexChunk(ss)
    requires GetIndexChunk(rs).encryption != EncryptionType.No ==>
      |CryptInfoRecords(rs)| == 1 && |CryptInfoRecords(ss)| == 1 && GetCryptInfoChunk(rs) == GetCryptInfoChunk(ss)
    ensures DecryptSpec(rs, pw, open) == DecryptSpec(ss, pw, open)
  {
  }

  /** Two valid arrangements of the same records sort to the same data records. */
  lemma SameSortedData(rs: seq<Record>, ss: seq<Record>)
    requires ValidateChunkSet(rs).Pass? && ValidateChunkSet(ss).Pass?
    requires multiset(rs) == multiset(ss)
    ensures SortedData(rs) == SortedData(ss)
  {
    DataPermutation(rs, ss);
    SortedStrict(rs);
    SortedDataIsUnique(ss, SortedData(rs));
  }

  /** The index-sorted data records of a valid set are strictly sorted. */
  lemma SortedStrict(rs: seq<Record>)
    requires ValidateChunkSet(rs).Pass?
    ensures StrictlySortedBy(DataKey, SortedData(rs))
  {
    var data := DataRecords(rs);
    var sorted := SortedData(rs);
    PassedSet(rs);
    MapPermutation(DataKey, data, sorted);
    DistinctPermutation(MapSeq(DataKey, data), MapSeq(DataKey, sorted));
    SortedDistinctIsStrict(DataKey, sorted);
  }

  /** Two valid arrangements of the same records have the same index record
      and, when there is one, the same crypt-info record. */
  lemma SamePicks(rs: seq<Record>, ss: seq<Record>)
    requires ValidateChunkSet(rs).Pass? && ValidateChunkSet(ss).Pass?
    requires multiset(rs) == multiset(ss)
    ensures GetIndexChunk(rs) == GetIndexChunk(ss)
    ensures |CryptInfoRecords(rs)| == 1 ==>
      |CryptInfoRecords(ss)| == 1 && GetCryptInfoChunk(rs) == GetCryptInfoChunk(ss)
  {
    IndexPermutation(rs, ss);
    CryptInfoPermutation(rs, ss);
  }

  // ----------------------------------------------------------- decompress_data

  /** zlib.decompress: the original bytes, or the zlib.error. */
  type Inflater = seq<byte> -> Option<seq<byte>>

  /** decompress_data: the index record must be valid; 'No' hands the bytes
      back, 'Zlib' inflates them. */
  function DecompressData(index: Record, data: seq<byte>, inflate: Inflater): (r: Result<seq<byte>, DecodeError>)
    requires index.IndexRecord? && index.valid
    ensures index.compress == CompressMethod.No ==> r == Ok(data)
  {
    match index.compress
    case No => Ok(data)
    case Zlib =>
      match inflate(data)
      case None => Err(UnableToDecompress)
      case Some(d) => Ok(d)
  }

  /** With an inflater that undoes a deflater, zlib-compressed bytes come
      back unchanged. */
  lemma DecompressUndoesCompress(index: Record, x: seq<byte>, deflate: seq<byte> -> seq<byte>, inflate: Inflater)
    requires index.IndexRecord? && index.valid
    requires inflate(deflate(x)) == Some(x)
    ensures index.compress == CompressMethod.Zlib ==> DecompressData(index, deflate(x), inflate) == Ok(x)
    ensures DecompressData(index, if index.compress == CompressMethod.Zlib then deflate(x) else x, inflate) == Ok(x)
  {
  }

  /** completely_decode_chunks: decrypt, then decompress as the index says. */
  method CompletelyDecodeChunks(rs: seq<Record>, pw: Option<seq<byte>>, open: Opener, inflate: Inflater)
    returns (r: Result<seq<byte>, DecodeError>)
    requires ValidateChunkSet(rs).Pass?
    ensures r == match DecryptSpec(rs, pw, open)
      case Err(e) => Err(e)
      case Ok(d) => DecompressData(GetIndexChunk(rs), d, inflate)
  {
    var index := GetIndexChunk(rs);
    assert index.IsValid();
    var data := DecryptData(rs, pw, open);
    if data.Err? {
      return Err(data.error);
    }
    r := DecompressData(index, data.value, inflate);
  }

  /** The record a chunk object is seen as: nothing converts it. */
  function AsRecord(c: Chunk): Record
  {
    Untyped(c)
  }

  /** The records the validator is given for the chunks of an image. */
  function OurRecords(chunks: seq<Chunk>): seq<Record>
  {
    MapSeq(AsRecord, Filter(IsOurs, chunks))
  }

  /** A set of unconverted chunks has no index record, so validation as
      written refuses every image. */
  lemma UntypedSetHasNoIndex(chunks: seq<Chunk>)
    ensures ValidateChunkSet(OurRecords(chunks)) == Fail(NoIndexChunk)
  {
    var rs := OurRecords(chunks);
    assert forall i :: 0 <= i < |rs| ==> !IsIndex(rs[i]);
    FilterNone(IsIndex, rs);
  }

  /** decode.py main: read the image, keep the container's chunks and
      validate them. The kept chunks are plain chunk objects, so validation
      always refuses them and the rest of the command (choosing the password
      from `--key-file`, completely_decode_chunks, writing the output) is
      never reached. */
  method DecodeMain(image: seq<byte>) returns (r: Result<seq<byte>, DecodeError>)
    ensures ParseChunks(AfterSignature(image)).Err? ==> r == Err(BadStream(ParseChunks(AfterSignature(image)).error))
    ensures ParseChunks(AfterSignature(image)).Ok? ==>
      r.Err? && r.error.BadSet? &&
      ValidateChunkSet(OurRecords(ParseChunks(AfterSignature(image)).value)) == Fail(r.error.invalid)
  {
    var read := ReadImageStream(image);
    if read.Err? {
      return Err(BadStream(read.error));
    }
    var kept := KeepAndParseOurChunks(read.value);
    var records := MapSeq(AsRecord, kept);
    var verdict := ValidateChunkSet(records);
    if verdict.Fail? {
      return Err(BadSet(verdict.error));
    }
    assert false;
  }

  /** Whatever the image holds, decode as written ends in "There is no index
      chunk" or in the stream error. */
  lemma DecodeMainNeverDecodes(image: seq<byte>)
    ensures ParseChunks(AfterSignature(image)).Ok? ==>
      ValidateChunkSet(OurRecords(ParseChunks(AfterSignature(image)).value)) == Fail(NoIndexChunk)
  {
    if ParseChunks(AfterSignature(image)).Ok? {
      UntypedSetHasNoIndex(ParseChunks(AfterSignature(image)).value);
    }
  }
}
