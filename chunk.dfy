/** The PNG chunk framing primitive (section 5.3 of the PNG specification):
    be32(length) ++ type ++ data ++ be32(CRC-32(type ++ data)).
    A Python Chunk object keeps exactly these bytes in `_data` and never
    changes them; every property reads a slice of them. */
module Chunks {
  import opened Wrappers
  import opened Bytes
  import opened Seqs

  /** The 8-byte PNG signature, 0x89 'P' 'N' 'G' CR LF 0x1A LF. */
  const PNG_SIG: seq<byte> := [0x89, 0x50, 0x4E, 0x47, 0x0D, 0x0A, 0x1A, 0x0A]

  /** The bytes `_data` of a chunk object, before any framing is known. */
  datatype ChunkBytes = ChunkBytes(raw: seq<byte>)
  {
    /** `length`: the big-endian word at offset 0. */
    function Length(): u32
      requires |raw| >= 8
    {
      ReadBE32(raw[..4])
    }

    /** `type`: the four bytes at offset 4. */
    function Type(): (t: seq<byte>)
      requires |raw| >= 8
      ensures |t| == 4
    {
      raw[4..8]
    }

    /** `data`: the slice [8:8+length], which Python clips at the end of the buffer. */
    function Data(): seq<byte>
      requires |raw| >= 8
    {
      if 8 + Length() <= |raw| then raw[8..8 + Length()] else raw[8..]
    }

    /** `crc`: the bytes after the payload, which the property asserts are
        exactly four; None stands for that assertion failing. */
    function CrcField(): (r: Option<u32>)
      requires |raw| >= 8
      ensures r.Some? <==> |raw| == 12 + Length()
      ensures r.Some? ==> BE32(r.value) == raw[8 + Length()..]
    {
      if 8 + Length() <= |raw| && |raw[8 + Length()..]| == 4 then
        var crc := ReadBE32(raw[8 + Length()..]);
        BE32OfReadBE32(raw[8 + Length()..]);
        Some(crc)
      else None
    }

    /** The framing every chunk object has: a length field that accounts
        for all bytes between the type and the four CRC bytes. */
    predicate Framed()
    {
      |raw| >= 12 && |raw| == 12 + ReadBE32(raw[..4])
    }

    function Crc(): u32
      requires Framed()
    {
      CrcField().value
    }

    /** `is_valid`: the stored CRC equals the CRC recomputed over type ++ data. */
    predicate IsValid()
      requires Framed()
    {
      Crc() == Crc32(Type() + Data())
    }

    /** `raw_data`: the stored bytes, returned unchanged whether or not the
        chunk is valid (an invalid chunk only draws a log line). */
    function RawData(): (r: seq<byte>)
      requires Framed()
      ensures |r| == 12 + Length()
    {
      raw
    }

    /** Whether `raw_data` logs the "not valid" line. */
    predicate RawDataLogs()
      requires Framed()
    {
      !IsValid()
    }
  }

  /** A chunk object: its bytes are always framed, because every chunk is
      built by the constructor. */
  type Chunk = c: ChunkBytes | c.Framed() witness ChunkBytes([0, 0, 0, 0, 0, 0, 0, 0, 0, 0, 0, 0])

  /** Chunk(t, d): lay out length, type, data and the CRC of type ++ data. */
  function NewChunk(t: seq<byte>, d: seq<byte>): (c: Chunk)
    requires |t| == 4 && |d| < TWO_32
    ensures c.Length() == |d| && c.Type() == t && c.Data() == d
    ensures c.IsValid()
    ensures c.raw == BE32(|d|) + t + d + BE32(Crc32(t + d))
  {
    var raw := BE32(|d|) + t + d + BE32(Crc32(t + d));
    ReadBE32OfBE32(|d|);
    assert raw[..4] == BE32(|d|);
    assert raw[4..8] == t;
    assert raw[8..8 + |d|] == d;
    assert raw[8 + |d|..] == BE32(Crc32(t + d));
    ReadBE32OfBE32(Crc32(t + d));
    ChunkBytes(raw)
  }

  /** The raw bytes of every chunk are its four fields laid end to end. */
  lemma RawDataLayout(c: Chunk)
    ensures c.RawData() == BE32(c.Length()) + c.Type() + c.Data() + BE32(c.Crc())
  {
    BE32OfReadBE32(c.raw[..4]);
    Split4(c.raw, 4, 8, 8 + c.Length());
  }

  /** A valid chunk is what the constructor builds from its own type and data. */
  lemma {:induction false} ValidChunkIsRebuilt(c: Chunk)
    requires c.IsValid()
    ensures c == NewChunk(c.Type(), c.Data())
  {
    RawDataLayout(c);
    assert c.Length() == |c.Data()|;
  }

  /** A chunk is framed exactly when its CRC property can be read. */
  lemma CrcReadableIffFramed(c: ChunkBytes)
    requires |c.raw| >= 8
    ensures c.CrcField().Some? <==> c.Framed()
  {
  }

  datatype StreamError = MalformedStream

  /** What `from_byte_stream` consumed: the chunk it returns, the CRC it
      found in the stream and the bytes left after it. */
  datatype Parsed = Parsed(chunk: Chunk, storedCrc: u32, rest: seq<byte>)
  {
    /** The stored CRC differed from the recomputed one: logged, not an error. */
    predicate MismatchLogged()
    {
      storedCrc != chunk.Crc()
    }
  }

  /** Chunk.from_byte_stream: read the length, the type, `length` payload
      bytes and the CRC, in that order, then rebuild the chunk from type
      and data. A short read of the length, the type or the CRC fails in
      struct.unpack; a short payload read leaves fewer than four bytes for
      the CRC, so that fails too: the read succeeds exactly when the stream
      holds the twelve framing bytes and the whole payload. */
  function FromByteStream(s: seq<byte>): (r: Result<Parsed, StreamError>)
    ensures r.Ok? <==> |s| >= 12 && |s| >= 12 + ReadBE32(s[..4])
    ensures r.Ok? ==>
      var n := ReadBE32(s[..4]);
      && r.value.chunk.Type() == s[4..8]
      && r.value.chunk.Data() == s[8..8 + n]
      && r.value.storedCrc == ReadBE32(s[8 + n..12 + n])
      && r.value.rest == s[12 + n..]
    ensures r.Ok? ==> r.value.chunk.IsValid() && |r.value.rest| < |s|
  {
    if |s| < 12 || |s| < 12 + ReadBE32(s[..4]) then Err(MalformedStream)
    else
      var n := ReadBE32(s[..4]);
      Ok(Parsed(NewChunk(s[4..8], s[8..8 + n]), ReadBE32(s[8 + n..12 + n]), s[12 + n..]))
  }

  /** The chunk from_byte_stream returns is always valid, and it is the very
      chunk whose bytes were read exactly when the stored CRC matched. */
  lemma ParsedChunkIsValid(s: seq<byte>)
    requires FromByteStream(s).Ok?
    ensures var p := FromByteStream(s).value;
      && p.chunk.IsValid()
      && (p.chunk.raw == s[..|s| - |p.rest|] <==> !p.MismatchLogged())
  {
    var p := FromByteStream(s).value;
    var head := s[..8 + ReadBE32(s[..4])];
    ParsedRaw(s);
    ParsedRead(s);
    assert |head + BE32(p.chunk.Crc())| == |head| + 4;
    if p.chunk.raw == s[..|s| - |p.rest|] {
      assert BE32(p.chunk.Crc()) == (head + BE32(p.chunk.Crc()))[|head|..];
      assert BE32(p.storedCrc) == (head + BE32(p.storedCrc))[|head|..];
      BE32Injective(p.chunk.Crc(), p.storedCrc);
    }
  }

  /** The parsed chunk's bytes: what was read up to the payload's end, then its own CRC. */
  lemma ParsedRaw(s: seq<byte>)
    requires FromByteStream(s).Ok?
    ensures FromByteStream(s).value.chunk.raw == s[..8 + ReadBE32(s[..4])] + BE32(FromByteStream(s).value.chunk.Crc())
  {
    var n := ReadBE32(s[..4]);
    BE32OfReadBE32(s[..4]);
    assert s[..8 + n] == s[..4] + s[4..8] + s[8..8 + n];
  }

  /** The bytes consumed: what was read up to the payload's end, then the stored CRC. */
  lemma ParsedRead(s: seq<byte>)
    requires FromByteStream(s).Ok?
    ensures var p := FromByteStream(s).value;
      s[..|s| - |p.rest|] == s[..8 + ReadBE32(s[..4])] + BE32(p.storedCrc)
  {
    var n := ReadBE32(s[..4]);
    BE32OfReadBE32(s[8 + n..12 + n]);
    assert s[..12 + n] == s[..8 + n] + s[8 + n..12 + n];
  }

  /** Reading back the raw bytes of any chunk gives a chunk with the same
      type and data, and the same bytes exactly when the chunk was valid. */
  lemma {:induction false} ParseRawData(c: Chunk, rest: seq<byte>)
    ensures var r := FromByteStream(c.RawData() + rest);
      && r.Ok?
      && r.value.chunk == NewChunk(c.Type(), c.Data())
      && r.value.storedCrc == c.Crc()
      && r.value.rest == rest
      && (r.value.chunk.RawData() == c.RawData() <==> c.IsValid())
  {
    var s := c.raw + rest;
    var n := c.Length();
    assert s[..4] == c.raw[..4];
    assert s[4..8] == c.Type();
    assert s[8..8 + n] == c.Data();
    assert s[8 + n..12 + n] == c.raw[8 + n..];
    assert s[12 + n..] == rest;
    ReadBE32OfBE32(c.Crc());
    if c.IsValid() {
      ValidChunkIsRebuilt(c);
    } else {
      assert NewChunk(c.Type(), c.Data()).Crc() != c.Crc();
    }
  }

  /** The chunks from here to the end of the stream, parsed one after the
      other (the `while len(stream.peek(1)) > 0` loop). */
  function ParseChunks(s: seq<byte>): Result<seq<Chunk>, StreamError>
    decreases |s|
  {
    if s == [] then Ok([])
    else match FromByteStream(s)
      case Err(e) => Err(e)
      case Ok(p) =>
        match ParseChunks(p.rest)
        case Err(e) => Err(e)
        case Ok(cs) => Ok([p.chunk] + cs)
  }

  /** One step of the parse: the first chunk, then the parse of what follows it. */
  lemma ParseChunksCons(s: seq<byte>)
    requires s != [] && FromByteStream(s).Ok?
    ensures ParseChunks(s) == Prepend([FromByteStream(s).value.chunk], ParseChunks(FromByteStream(s).value.rest))
  {
  }

  /** Every chunk a stream parses into is valid, whatever CRCs the stream held. */
  lemma {:induction false} ParsedChunksValid(s: seq<byte>)
    requires ParseChunks(s).Ok?
    ensures forall i :: 0 <= i < |ParseChunks(s).value| ==> ParseChunks(s).value[i].IsValid()
    decreases |s|
  {
    if s != [] {
      var p := FromByteStream(s).value;
      ParseChunksCons(s);
      ParsedChunksValid(p.rest);
      var cs := ParseChunks(p.rest).value;
      assert ParseChunks(s).value == [p.chunk] + cs;
      forall i | 0 <= i < |[p.chunk] + cs| ensures ([p.chunk] + cs)[i].IsValid() {
        if i > 0 {
          assert ([p.chunk] + cs)[i] == cs[i - 1];
        }
      }
    }
  }

  /** The bytes a sequence of chunks is written as. */
  function Serialize(cs: seq<Chunk>): seq<byte>
  {
    if cs == [] then [] else cs[0].RawData() + Serialize(cs[1..])
  }

  lemma SerializeCons(c: Chunk, cs: seq<Chunk>)
    ensures Serialize([c] + cs) == c.RawData() + Serialize(cs)
  {
    assert ([c] + cs)[1..] == cs;
  }

  lemma {:induction false} SerializeConcat(a: seq<Chunk>, b: seq<Chunk>)
    ensures Serialize(a + b) == Serialize(a) + Serialize(b)
  {
    if a == [] {
      assert a + b == b;
    } else {
      assert (a + b)[1..] == a[1..] + b;
      SerializeConcat(a[1..], b);
    }
  }

  /** Writing valid chunks out and parsing the bytes back gives the same chunks. */
  lemma {:induction false} ParseSerialized(cs: seq<Chunk>)
    requires forall c | c in cs :: c.IsValid()
    ensures ParseChunks(Serialize(cs)) == Ok(cs)
  {
    if cs != [] {
      ParseValidThen(cs[0], Serialize(cs[1..]));
      ParseSerialized(cs[1..]);
      assert cs == [cs[0]] + cs[1..];
    }
  }

  /** A valid chunk's bytes parse back to it, and parsing goes on after them. */
  lemma ParseValidThen(c: Chunk, rest: seq<byte>)
    requires c.IsValid()
    ensures ParseChunks(c.RawData() + rest) == Prepend([c], ParseChunks(rest))
  {
    var s := c.RawData() + rest;
    ParseRawData(c, rest);
    ValidChunkIsRebuilt(c);
    assert |s| >= 12;
    ParseChunksCons(s);
  }

  /** The bytes after the signature: `stream.read(len(PNG_SIG))` returns at
      most eight bytes and is never compared against PNG_SIG. */
  function AfterSignature(stream: seq<byte>): seq<byte>
  {
    if |stream| <= |PNG_SIG| then [] else stream[|PNG_SIG|..]
  }

  /** read_image_stream: skip the signature bytes unchecked, then parse
      chunks until the stream is exhausted, appending each to the list. */
  method ReadImageStream(stream: seq<byte>) returns (r: Result<seq<Chunk>, StreamError>)
    ensures r == ParseChunks(AfterSignature(stream))
  {
    var s := AfterSignature(stream);
    var rest := s;
    var chunks: seq<Chunk> := [];
    PrependNothing(ParseChunks(s));
    while rest != []
      invariant ParseChunks(s) == Prepend(chunks, ParseChunks(rest))
      decreases |rest|
    {
      var p := FromByteStream(rest);
      if p.Err? {
        ParseFails(rest, chunks);
        return Err(p.error);
      }
      ParseStep(rest, chunks);
      chunks := chunks + [p.value.chunk];
      rest := p.value.rest;
    }
    ParseEnd(chunks);
    return Ok(chunks);
  }

  lemma ParseEnd(done: seq<Chunk>)
    ensures Prepend(done, ParseChunks([])) == Ok(done)
  {
    assert done + [] == done;
  }

  lemma ParseFails(s: seq<byte>, done: seq<Chunk>)
    requires s != [] && FromByteStream(s).Err?
    ensures Prepend(done, ParseChunks(s)) == Err(FromByteStream(s).error)
  {
  }

  /** One turn of the loop: the next chunk joins the ones already read. */
  lemma ParseStep(s: seq<byte>, done: seq<Chunk>)
    requires s != [] && FromByteStream(s).Ok?
    ensures var p := FromByteStream(s).value;
      Prepend(done, ParseChunks(s)) == Prepend(done + [p.chunk], ParseChunks(p.rest))
  {
    var p := FromByteStream(s).value;
    ParseChunksCons(s);
    PrependTwice(done, p.chunk, ParseChunks(p.rest));
  }

  lemma PrependTwice(done: seq<Chunk>, c: Chunk, r: Result<seq<Chunk>, StreamError>)
    ensures Prepend(done, Prepend([c], r)) == Prepend(done + [c], r)
  {
    if r.Ok? {
      assert done + ([c] + r.value) == done + [c] + r.value;
    }
  }

  /** Put already-read chunks in front of the rest of a parse. */
  function Prepend(done: seq<Chunk>, r: Result<seq<Chunk>, StreamError>): Result<seq<Chunk>, StreamError>
  {
    match r
    case Err(e) => Err(e)
    case Ok(cs) => Ok(done + cs)
  }

  lemma PrependNothing(r: Result<seq<Chunk>, StreamError>)
    ensures Prepend([], r) == r
  {
    if r.Ok? {
      assert [] + r.value == r.value;
    }
  }

  /** A file written as the signature followed by valid chunks reads back
      as exactly those chunks, in file order. */
  lemma ReadBackWritten(sig: seq<byte>, cs: seq<Chunk>)
    requires |sig| == |PNG_SIG|
    requires forall i :: 0 <= i < |cs| ==> cs[i].IsValid()
    ensures ParseChunks(AfterSignature(sig + Serialize(cs))) == Ok(cs)
  {
    ParseSerialized(cs);
    var s := Serialize(cs);
    assert (sig + s)[|sig|..] == s;
  }
}
