/** Writing data into a PNG carrier and reading it back: the encode command
    (pngrecon/commands/encode.py) and the original single-file tool
    (pngrecon.py). The payload is deflated into one 'maTt' chunk, which goes
    either into the tiny default image or just before the last chunk of a
    source image. */
module Carrier {
  import opened Wrappers
  import opened Bytes
  import opened Seqs
  import opened Chunks

  /** CUSTOM_TYPE, 'maTt'. */
  const CUSTOM_TYPE: seq<byte> := [0x6D, 0x61, 0x54, 0x74]
  const IHDR_TYPE: seq<byte> := [0x49, 0x48, 0x44, 0x52]
  const IDAT_TYPE: seq<byte> := [0x49, 0x44, 0x41, 0x54]
  const IEND_TYPE: seq<byte> := [0x49, 0x45, 0x4E, 0x44]

  /** struct.pack('>IIBBBBB', 1, 1, 1, 0, 0, 0, 0): a 1x1 image of bit depth
      1, colour type 0, compression, filter and interlace method 0
      (section 11.2.2 of the PNG specification). */
  const IHDR_DATA: seq<byte> := BE32(1) + BE32(1) + [1, 0, 0, 0, 0]

  /** zlib.compress(b'\x00\x00') at zlib's default level: the one scanline
      of the 1x1 image, filter byte 0 and one zero pixel byte. */
  const IDAT_DATA: seq<byte> := [0x78, 0x9C, 0x63, 0x60, 0x00, 0x00, 0x00, 0x02, 0x00, 0x01]

  const IHDR: Chunk := NewChunk(IHDR_TYPE, IHDR_DATA)
  const IDAT: Chunk := NewChunk(IDAT_TYPE, IDAT_DATA)
  const IEND: Chunk := NewChunk(IEND_TYPE, [])

  /** The image header describes a 1x1 image in thirteen bytes, and the
      image trailer is empty; all three default chunks are valid. */
  lemma DefaultChunks()
    ensures IHDR.Type() == IHDR_TYPE && IHDR.Length() == 13
    ensures ReadBE32(IHDR.Data()[0..4]) == 1 && ReadBE32(IHDR.Data()[4..8]) == 1
    ensures IHDR.Data()[8..] == [1, 0, 0, 0, 0]
    ensures IDAT.Type() == IDAT_TYPE && IDAT.Data() == IDAT_DATA
    ensures IEND.Type() == IEND_TYPE && IEND.Data() == [] && IEND.Length() == 0
    ensures IHDR.IsValid() && IDAT.IsValid() && IEND.IsValid()
  {
    assert IHDR.Data()[0..4] == BE32(1);
    assert IHDR.Data()[4..8] == BE32(1);
    ReadBE32OfBE32(1);
  }

  /** The chunks of the default carrier around the data chunk d. */
  function DefaultCarrier(d: Chunk): seq<Chunk>
  {
    [IHDR, IDAT, d, IEND]
  }

  /** The bytes written for the default carrier: signature, IHDR, IDAT, the
      data chunk and IEND, each chunk's raw bytes in turn. */
  method WriteDefaultCarrier(d: Chunk) returns (out: seq<byte>)
    ensures out == PNG_SIG + Serialize(DefaultCarrier(d))
  {
    out := PNG_SIG;
    out := out + IHDR.RawData();
    out := out + IDAT.RawData();
    out := out + d.RawData();
    out := out + IEND.RawData();
    SerializeFourAfter(PNG_SIG, IHDR, IDAT, d, IEND);
  }

  lemma SerializeFour(a: Chunk, b: Chunk, c: Chunk, e: Chunk)
    ensures Serialize([a, b, c, e]) == a.RawData() + (b.RawData() + (c.RawData() + e.RawData()))
  {
    SerializeCons(e, []);
    assert Serialize([e]) == e.RawData();
    SerializeCons(c, [e]);
    assert Serialize([c, e]) == c.RawData() + e.RawData();
    SerializeCons(b, [c, e]);
    assert Serialize([b, c, e]) == b.RawData() + (c.RawData() + e.RawData());
    SerializeCons(a, [b, c, e]);
  }

  lemma SerializeFourAfter(prefix: seq<byte>, a: Chunk, b: Chunk, c: Chunk, e: Chunk)
    ensures prefix + a.RawData() + b.RawData() + c.RawData() + e.RawData() == prefix + Serialize([a, b, c, e])
  {
    SerializeFour(a, b, c, e);
    ConcatNest5(prefix, a.RawData(), b.RawData(), c.RawData(), e.RawData());
  }

  datatype EncodeError =
    | SourceStream(stream: StreamError)
    | EmptySource
    | LastChunkNotIend(lastType: seq<byte>)
    | PayloadTooLarge

  /** What encode_with_source_image produces from a source image and the
      data chunk d: the source's stream error, EmptySource when it holds no
      chunk, LastChunkNotIend when its last chunk is not IEND, and otherwise
      the signature, every source chunk but the last, d, and the last one. */
  predicate EncodedOnto(source: seq<byte>, d: Chunk, r: Result<seq<byte>, EncodeError>)
  {
    var parsed := ParseChunks(AfterSignature(source));
    && (parsed.Err? ==> r == Err(SourceStream(parsed.error)))
    && (parsed == Ok([]) ==> r == Err(EmptySource))
    && (parsed.Ok? && parsed.value != [] ==>
          var cs := parsed.value;
          var front, last := cs[..|cs| - 1], cs[|cs| - 1];
          var tail: seq<Chunk> := [d, last];
          && (last.Type() != IEND_TYPE ==> r == Err(LastChunkNotIend(last.Type())))
          && (last.Type() == IEND_TYPE ==> r == Ok(PNG_SIG + Serialize(front + tail))))
  }

  /** encode_with_source_image: read the source's chunks, refuse a source
      whose last chunk is not IEND (an empty source fails on
      `source_chunks[-1]`), then write the signature, every chunk but the
      last, the data chunk and the last chunk. */
  method EncodeWithSourceImage(source: seq<byte>, d: Chunk) returns (r: Result<seq<byte>, EncodeError>)
    ensures EncodedOnto(source, d, r)
  {
    var read := ReadImageStream(source);
    if read.Err? {
      return Err(SourceStream(read.error));
    }
    var sourceChunks := read.value;
    if sourceChunks == [] {
      return Err(EmptySource);
    }
    var last := sourceChunks[|sourceChunks| - 1];
    if last.Type() != IEND_TYPE {
      return Err(LastChunkNotIend(last.Type()));
    }
    var front := sourceChunks[..|sourceChunks| - 1];
    var out := WriteChunks(PNG_SIG, front);
    out := out + d.RawData();
    out := out + last.RawData();
    SerializeTwoMore(PNG_SIG, front, d, last);
    return Ok(out);
  }

  /** The loop writing the source's chunks one after another. */
  method WriteChunks(prefix: seq<byte>, cs: seq<Chunk>) returns (out: seq<byte>)
    ensures out == prefix + Serialize(cs)
  {
    out := prefix;
    var i := 0;
    while i < |cs|
      invariant 0 <= i <= |cs|
      invariant out == prefix + Serialize(cs[..i])
    {
      WriteOneMore(prefix, cs, i);
      out := out + cs[i].RawData();
      i := i + 1;
    }
    assert cs[..i] == cs;
  }

  lemma WriteOneMore(prefix: seq<byte>, cs: seq<Chunk>, i: nat)
    requires i < |cs|
    ensures prefix + Serialize(cs[..i]) + cs[i].RawData() == prefix + Serialize(cs[..i + 1])
  {
    SerializeAppend(cs[..i], cs[i]);
    assert cs[..i + 1] == cs[..i] + [cs[i]];
    assert prefix + Serialize(cs[..i]) + cs[i].RawData() == prefix + (Serialize(cs[..i]) + cs[i].RawData());
  }

  lemma SerializeAppend(cs: seq<Chunk>, c: Chunk)
    ensures Serialize(cs + [c]) == Serialize(cs) + c.RawData()
  {
    SerializeConcat(cs, [c]);
    SerializeCons(c, []);
    assert [c] + [] == [c];
  }

  lemma SerializeTwoMore(prefix: seq<byte>, cs: seq<Chunk>, d: Chunk, last: Chunk)
    ensures prefix + Serialize(cs) + d.RawData() + last.RawData() == prefix + Serialize(cs + [d, last])
  {
    SerializeTwo(cs, d, last);
    ConcatAssoc4(prefix, Serialize(cs), d.RawData(), last.RawData());
  }

  lemma SerializeTwo(cs: seq<Chunk>, d: Chunk, last: Chunk)
    ensures Serialize(cs + [d, last]) == Serialize(cs) + d.RawData() + last.RawData()
  {
    SerializeAppend(cs, d);
    SerializeAppend(cs + [d], last);
    assert cs + [d] + [last] == cs + [d, last];
  }

  /** Reading back a carrier built on a source image gives the source's
      chunks but the last, unchanged and in order, then the data chunk, then
      the source's last chunk: one chunk more than the source. */
  lemma {:induction false} SourceCarrierReadsBack(source: seq<byte>, d: Chunk)
    requires ParseChunks(AfterSignature(source)).Ok? && ParseChunks(AfterSignature(source)).value != []
    requires d.IsValid()
    ensures var cs := ParseChunks(AfterSignature(source)).value;
      var written := cs[..|cs| - 1] + [d, cs[|cs| - 1]];
      && ParseChunks(AfterSignature(PNG_SIG + Serialize(written))) == Ok(written)
      && |written| == |cs| + 1
      && written[|cs| - 1] == d
  {
    var cs := ParseChunks(AfterSignature(source)).value;
    var written := cs[..|cs| - 1] + [d, cs[|cs| - 1]];
    ParsedChunksValid(AfterSignature(source));
    forall i | 0 <= i < |written| ensures written[i].IsValid() {
      if i < |cs| - 1 {
        assert written[i] == cs[i];
      } else if i == |cs| {
        assert written[i] == cs[|cs| - 1];
      }
    }
    ReadBackWritten(PNG_SIG, written);
  }

  /** The 'maTt' chunk carrying a deflated payload. */
  function DataChunk(payload: seq<byte>): (c: Chunk)
    requires |payload| < TWO_32
    ensures IsCustom(c) && c.Data() == payload && c.IsValid()
  {
    NewChunk(CUSTOM_TYPE, payload)
  }

  /** encode.py main: deflate the input into a 'maTt' chunk (struct.pack
      refuses a payload of 2^32 bytes or more), then write it into the source
      image when one is given and into the default carrier otherwise. */
  method EncodeMain(input: seq<byte>, source: Option<seq<byte>>, deflate: seq<byte> -> seq<byte>)
    returns (r: Result<seq<byte>, EncodeError>)
    ensures |deflate(input)| >= TWO_32 ==> r == Err(PayloadTooLarge)
    ensures |deflate(input)| < TWO_32 ==> WroteDataChunk(DataChunk(deflate(input)), source, r)
  {
    var inData := deflate(input);
    if |inData| >= TWO_32 {
      return Err(PayloadTooLarge);
    }
    r := WriteDataChunk(DataChunk(inData), source);
  }

  /** What encode.py main writes around the data chunk d: the source image
      with d before its last chunk when one is given, the default carrier
      otherwise. */
  predicate WroteDataChunk(d: Chunk, source: Option<seq<byte>>, r: Result<seq<byte>, EncodeError>)
  {
    && (source.None? ==> r == Ok(PNG_SIG + Serialize(DefaultCarrier(d))))
    && (source.Some? ==> EncodedOnto(source.value, d, r))
  }

  /** The last step of encode.py main: the data chunk d goes into the
      source image when one is given, into the default carrier otherwise. */
  method WriteDataChunk(d: Chunk, source: Option<seq<byte>>) returns (r: Result<seq<byte>, EncodeError>)
    ensures WroteDataChunk(d, source, r)
  {
    if source.Some? {
      r := EncodeWithSourceImage(source.value, d);
    } else {
      var out := WriteDefaultCarrier(d);
      r := Ok(out);
    }
  }

  /** pngrecon.py main_encode: deflate the input into a 'maTt' chunk and
      write the default carrier around it. */
  method MainEncode(input: seq<byte>, deflate: seq<byte> -> seq<byte>) returns (r: Result<seq<byte>, EncodeError>)
    ensures |deflate(input)| >= TWO_32 ==> r == Err(PayloadTooLarge)
    ensures |deflate(input)| < TWO_32 ==>
      r == Ok(PNG_SIG + Serialize(DefaultCarrier(DataChunk(deflate(input)))))
  {
    var inData := deflate(input);
    if |inData| >= TWO_32 {
      return Err(PayloadTooLarge);
    }
    var d := DataChunk(inData);
    var out := WriteDefaultCarrier(d);
    return Ok(out);
  }

  /** What main_decode leaves in its output: the bytes written so far, and
      whether every 'maTt' chunk inflated (zlib.error stops the loop). */
  datatype DecodeOutput = DecodeOutput(written: seq<byte>, complete: bool)

  predicate IsCustom(c: Chunk)
  {
    c.Type() == CUSTOM_TYPE
  }

  /** One turn of main_decode's write loop: nothing more happens once an
      inflate has failed; a 'maTt' chunk appends its inflated payload or
      stops the loop. */
  function InflateStep(done: DecodeOutput, c: Chunk, inflate: seq<byte> -> Option<seq<byte>>): DecodeOutput
  {
    if !done.complete || !IsCustom(c) then done
    else
      match inflate(c.Data())
      case None => DecodeOutput(done.written, false)
      case Some(x) => DecodeOutput(done.written + x, true)
  }

  /** The output of main_decode's write loop after the chunks cs. */
  function InflateCustom(cs: seq<Chunk>, inflate: seq<byte> -> Option<seq<byte>>): DecodeOutput
  {
    if cs == [] then DecodeOutput([], true)
    else InflateStep(InflateCustom(cs[..|cs| - 1], inflate), cs[|cs| - 1], inflate)
  }

  lemma InflatePrefix(cs: seq<Chunk>, k: nat, inflate: seq<byte> -> Option<seq<byte>>)
    requires k < |cs|
    ensures InflateCustom(cs[..k + 1], inflate) == InflateStep(InflateCustom(cs[..k], inflate), cs[k], inflate)
  {
    assert cs[..k + 1][..k] == cs[..k];
  }

  /** The loop runs to the end exactly when every 'maTt' chunk inflates. */
  lemma {:induction false} InflateCompleteIff(cs: seq<Chunk>, inflate: seq<byte> -> Option<seq<byte>>)
    ensures InflateCustom(cs, inflate).complete <==>
      forall i :: 0 <= i < |cs| && IsCustom(cs[i]) ==> inflate(cs[i].Data()).Some?
  {
    if cs != [] {
      var front := cs[..|cs| - 1];
      InflateCompleteIff(front, inflate);
      assert forall i :: 0 <= i < |front| ==> front[i] == cs[i];
    }
  }

  /** Only the 'maTt' chunks contribute to the output. */
  lemma {:induction false} InflateOnlyCustom(cs: seq<Chunk>, inflate: seq<byte> -> Option<seq<byte>>)
    ensures InflateCustom(cs, inflate) == InflateCustom(Filter(IsCustom, cs), inflate)
  {
    if cs != [] {
      var front := cs[..|cs| - 1];
      var c := cs[|cs| - 1];
      assert cs == front + [c];
      FilterConcat(IsCustom, front, [c]);
      InflateOnlyCustom(front, inflate);
      if IsCustom(c) {
        assert Filter(IsCustom, cs) == Filter(IsCustom, front) + [c];
        assert Filter(IsCustom, cs)[..|Filter(IsCustom, cs)| - 1] == Filter(IsCustom, front);
      } else {
        assert Filter(IsCustom, cs) == Filter(IsCustom, front);
      }
    }
  }

  /** pngrecon.py main_decode: skip the signature, parse every chunk, then
      write the inflated payload of each 'maTt' chunk in file order. */
  method MainDecode(image: seq<byte>, inflate: seq<byte> -> Option<seq<byte>>) returns (r: Result<DecodeOutput, StreamError>)
    ensures ParseChunks(AfterSignature(image)).Err? ==> r == Err(ParseChunks(AfterSignature(image)).error)
    ensures ParseChunks(AfterSignature(image)).Ok? ==>
      r == Ok(InflateCustom(ParseChunks(AfterSignature(image)).value, inflate))
  {
    var read := ReadImageStream(image);
    if read.Err? {
      return Err(read.error);
    }
    var chunks := read.value;
    var out := [];
    var i := 0;
    while i < |chunks|
      invariant 0 <= i <= |chunks|
      invariant InflateCustom(chunks[..i], inflate) == DecodeOutput(out, true)
    {
      InflatePrefix(chunks, i, inflate);
      if chunks[i].Type() == CUSTOM_TYPE {
        var x := inflate(chunks[i].Data());
        if x.None? {
          StopsAtFailure(chunks, i + 1, inflate);
          return Ok(DecodeOutput(out, false));
        }
        out := out + x.value;
      }
      i := i + 1;
    }
    assert chunks[..i] == chunks;
    return Ok(DecodeOutput(out, true));
  }

  /** Once an inflate has failed, later chunks change nothing. */
  lemma {:induction false} StopsAtFailure(cs: seq<Chunk>, k: nat, inflate: seq<byte> -> Option<seq<byte>>)
    requires k <= |cs| && !InflateCustom(cs[..k], inflate).complete
    ensures InflateCustom(cs, inflate) == InflateCustom(cs[..k], inflate)
    decreases |cs| - k
  {
    if k < |cs| {
      StaysFailed(cs, k, inflate);
      StopsAtFailure(cs, k + 1, inflate);
    } else {
      assert cs[..k] == cs;
    }
  }

  lemma StaysFailed(cs: seq<Chunk>, k: nat, inflate: seq<byte> -> Option<seq<byte>>)
    requires k < |cs| && !InflateCustom(cs[..k], inflate).complete
    ensures InflateCustom(cs[..k + 1], inflate) == InflateCustom(cs[..k], inflate)
  {
    InflatePrefix(cs, k, inflate);
  }

  /** Decoding what main_encode writes gives the input back, whenever the
      inflater undoes the deflater on it. */
  lemma {:induction false} MainRoundTrip(input: seq<byte>, deflate: seq<byte> -> seq<byte>, inflate: seq<byte> -> Option<seq<byte>>)
    requires |deflate(input)| < TWO_32
    requires inflate(deflate(input)) == Some(input)
    ensures var written := [IHDR, IDAT, DataChunk(deflate(input)), IEND];
      && ParseChunks(AfterSignature(PNG_SIG + Serialize(written))) == Ok(written)
      && InflateCustom(written, inflate) == DecodeOutput(input, true)
  {
    var d := DataChunk(deflate(input));
    DefaultChunks();
    FourChunksReadBack(IHDR, IDAT, d, IEND);
    DefaultChunksNotCustom();
    OnlyThirdInflates(IHDR, IDAT, d, IEND, inflate);
  }

  /** Parsing a carrier of four valid chunks gives the four chunks back. */
  lemma FourChunksReadBack(a: Chunk, b: Chunk, c: Chunk, e: Chunk)
    requires a.IsValid() && b.IsValid() && c.IsValid() && e.IsValid()
    ensures ParseChunks(AfterSignature(PNG_SIG + Serialize([a, b, c, e]))) == Ok([a, b, c, e])
  {
    var cs: seq<Chunk> := [a, b, c, e];
    assert forall i :: 0 <= i < |cs| ==> cs[i].IsValid();
    ReadBackWritten(PNG_SIG, [a, b, c, e]);
  }

  /** Of four chunks where only the third is a 'maTt' chunk, only the third
      is inflated. */
  lemma OnlyThirdInflates(a: Chunk, b: Chunk, c: Chunk, e: Chunk, inflate: seq<byte> -> Option<seq<byte>>)
    requires !IsCustom(a) && !IsCustom(b) && IsCustom(c) && !IsCustom(e)
    ensures InflateCustom([a, b, c, e], inflate) ==
      match inflate(c.Data())
      case None => DecodeOutput([], false)
      case Some(x) => DecodeOutput(x, true)
  {
    var written := [a, b, c, e];
    InflatePrefix(written, 0, inflate);
    InflatePrefix(written, 1, inflate);
    InflatePrefix(written, 2, inflate);
    InflatePrefix(written, 3, inflate);
    assert written[..4] == written;
  }

  lemma DefaultChunksNotCustom()
    ensures !IsCustom(IHDR) && !IsCustom(IDAT) && !IsCustom(IEND)
  {
    assert IHDR_TYPE[0] != CUSTOM_TYPE[0];
    assert IDAT_TYPE[0] != CUSTOM_TYPE[0];
    assert IEND_TYPE[0] != CUSTOM_TYPE[0];
  }
}
