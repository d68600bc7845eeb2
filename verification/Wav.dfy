/** The WAV reader and writer of the realtime example (examples/realtime-openai-go/wav.go), on the bytes
    of a file. */
module Wav {
  import opened Wrappers
  import opened ByteText

  const MAX_INPUT_PCM: nat := 0xF0_0000    // 15 << 20
  const MAX_OUTPUT_PCM: nat := 0x400_0000  // 64 << 20
  const MAX_FILE: nat := MAX_INPUT_PCM + 0x10_0000
  const SAMPLE_RATE: nat := 24000
  const BYTES_PER_SAMPLE: nat := 2

  const RIFF: Bytes := Ascii("RIFF")
  const WAVE: Bytes := Ascii("WAVE")
  const FMT: Bytes := Ascii("fmt ")
  const DATA: Bytes := Ascii("data")

  datatype Rejection =
    | TooLarge | NotRiff | BadChunkSize | FmtTooShort | TooMuchData
    | NoFmt | NotPcm | NotMono | WrongRate | WrongWidth | NoData | HalfSample

  datatype Result<+T> = Ok(value: T) | Rejected(reason: Rejection)

  // ---- little-endian numbers ---------------------------------------------------------------------

  function U16(n: nat): Bytes {
    [(n % 256) as byte, (n / 256 % 256) as byte]
  }

  function U32(n: nat): Bytes {
    U16(n % 0x1_0000) + U16(n / 0x1_0000 % 0x1_0000)
  }

  function ReadU16(s: Bytes): (n: nat)
    requires |s| >= 2
    ensures n < 0x1_0000
  {
    s[0] as nat + 256 * s[1] as nat
  }

  function ReadU32(s: Bytes): (n: nat)
    requires |s| >= 4
    ensures n < 0x1_0000_0000
  {
    ReadU16(s) + 0x1_0000 * ReadU16(s[2..])
  }

  lemma U16Reads(n: nat, rest: Bytes)
    requires n < 0x1_0000
    ensures ReadU16(U16(n) + rest) == n
  {
  }

  lemma U32Reads(n: nat, rest: Bytes)
    requires n < 0x1_0000_0000
    ensures ReadU32(U32(n) + rest) == n
  {
    var low, high := n % 0x1_0000, n / 0x1_0000;
    U16Reads(low, U16(high) + rest);
    U16Reads(high, rest);
    assert U32(n) + rest == U16(low) + (U16(high) + rest);
    assert (U32(n) + rest)[2..] == U16(high) + rest;
  }

  // ---- the reader --------------------------------------------------------------------------------

  datatype Format = Format(audioFormat: nat, channels: nat, sampleRate: nat, bitsPerSample: nat)

  /** What the chunk loop has gathered. */
  datatype Gathered = Gathered(format: Option<Format>, pcm: Bytes)

  const NOTHING: Gathered := Gathered(None, [])

  function FormatOf(chunk: Bytes): Format
    requires |chunk| >= 16
  {
    Format(ReadU16(chunk), ReadU16(chunk[2..]), ReadU32(chunk[4..]), ReadU16(chunk[14..]))
  }

  function TakeChunk(g: Gathered, id: Bytes, chunk: Bytes): Result<Gathered> {
    if id == FMT then
      if |chunk| < 16 then Rejected(FmtTooShort) else Ok(g.(format := Some(FormatOf(chunk))))
    else if id == DATA then
      if |g.pcm| + |chunk| > MAX_INPUT_PCM then Rejected(TooMuchData) else Ok(g.(pcm := g.pcm + chunk))
    else Ok(g)
  }

  /** The chunk loop from `offset` on; fewer than eight bytes at the end are ignored. */
  function Scan(payload: Bytes, offset: nat, g: Gathered): Result<Gathered>
    decreases |payload| - offset
  {
    if offset + 8 > |payload| then Ok(g)
    else
      var size := ReadU32(payload[offset + 4..]);
      var start := offset + 8;
      if start + size > |payload| then Rejected(BadChunkSize)
      else
        match TakeChunk(g, payload[offset..offset + 4], payload[start..start + size])
        case Rejected(reason) => Rejected(reason)
        case Ok(g') => Scan(payload, start + size + size % 2, g')
  }

  function Judge(g: Gathered): Result<Bytes> {
    match g.format
    case None => Rejected(NoFmt)
    case Some(f) =>
      if f.audioFormat != 1 then Rejected(NotPcm)
      else if f.channels != 1 then Rejected(NotMono)
      else if f.sampleRate != SAMPLE_RATE then Rejected(WrongRate)
      else if f.bitsPerSample != 16 then Rejected(WrongWidth)
      else if g.pcm == [] then Rejected(NoData)
      else if |g.pcm| % BYTES_PER_SAMPLE != 0 then Rejected(HalfSample)
      else Ok(g.pcm)
  }

  predicate IsRiff(payload: Bytes) {
    |payload| >= 12 && payload[..4] == RIFF && payload[8..12] == WAVE
  }

  function Read(payload: Bytes): Result<Bytes> {
    if |payload| > MAX_FILE then Rejected(TooLarge)
    else if !IsRiff(payload) then Rejected(NotRiff)
    else
      match Scan(payload, 12, NOTHING)
      case Rejected(reason) => Rejected(reason)
      case Ok(g) => Judge(g)
  }

  /** The two cases of the chunk loop. */
  method GatherChunk(g: Gathered, id: Bytes, chunk: Bytes) returns (r: Result<Gathered>)
    ensures r == TakeChunk(g, id, chunk)
  {
    hide FormatOf;
    if id == FMT {
      if |chunk| < 16 {
        return Rejected(FmtTooShort);
      }
      return Ok(g.(format := Some(FormatOf(chunk))));
    }
    if id == DATA {
      if |g.pcm| + |chunk| > MAX_INPUT_PCM {
        return Rejected(TooMuchData);
      }
      return Ok(g.(pcm := g.pcm + chunk));
    }
    return Ok(g);
  }

  /** `readPCM16WAV`, from the file's bytes on. */
  method ReadPCM16WAV(payload: Bytes) returns (r: Result<Bytes>)
    ensures r == Read(payload)
  {
    ReadCases(payload);
    hide *;
    if |payload| > MAX_FILE {
      return Rejected(TooLarge);
    }
    if |payload| < 12 || payload[..4] != RIFF || payload[8..12] != WAVE {
      return Rejected(NotRiff);
    }
    var g := NOTHING;
    var offset := 12;
    while offset + 8 <= |payload|
      invariant Scan(payload, offset, g) == Scan(payload, 12, NOTHING)
      decreases |payload| - offset
    {
      ScanStep(payload, offset, g);
      var size := ReadU32(payload[offset + 4..]);
      var start := offset + 8;
      var end := start + size;
      if end > |payload| {
        return Rejected(BadChunkSize);
      }
      var taken := GatherChunk(g, payload[offset..offset + 4], payload[start..end]);
      if taken.Rejected? {
        return Rejected(taken.reason);
      }
      g := taken.value;
      offset := end;
      if size % 2 != 0 {
        offset := offset + 1;
      }
    }
    ScanEnd(payload, offset, g);
    r := Judge(g);
  }

  lemma ReadCases(payload: Bytes)
    ensures Read(payload) ==
      if |payload| > MAX_FILE then Rejected(TooLarge)
      else if |payload| < 12 || payload[..4] != RIFF || payload[8..12] != WAVE then Rejected(NotRiff)
      else if Scan(payload, 12, NOTHING).Rejected? then Rejected(Scan(payload, 12, NOTHING).reason)
      else Judge(Scan(payload, 12, NOTHING).value)
  {
    hide Scan, Judge;
  }

  lemma ScanStep(payload: Bytes, offset: nat, g: Gathered)
    requires offset + 8 <= |payload|
    ensures var size := ReadU32(payload[offset + 4..]);
      var end := offset + 8 + size;
      if end > |payload| then Scan(payload, offset, g) == Rejected(BadChunkSize)
      else
        var taken := TakeChunk(g, payload[offset..offset + 4], payload[offset + 8..end]);
        Scan(payload, offset, g) ==
          if taken.Rejected? then Rejected(taken.reason) else Scan(payload, end + size % 2, taken.value)
  {
    hide ReadU32, TakeChunk;
  }

  lemma ScanEnd(payload: Bytes, offset: nat, g: Gathered)
    requires offset + 8 > |payload|
    ensures Scan(payload, offset, g) == Ok(g)
  {
  }

  // ---- files made of chunks ----------------------------------------------------------------------

  /** A RIFF chunk; `pad` is the byte after data of odd length. */
  datatype Chunk = Chunk(id: Bytes, data: Bytes, pad: byte) {
    predicate Valid() {
      |id| == 4 && |data| < 0x1_0000_0000
    }
  }

  function ChunkBytes(c: Chunk): Bytes {
    c.id + U32(|c.data|) + (c.data + if |c.data| % 2 == 1 then [c.pad] else [])
  }

  function ChunksBytes(chunks: seq<Chunk>): Bytes {
    if chunks == [] then [] else ChunkBytes(chunks[0]) + ChunksBytes(chunks[1..])
  }

  function FileOf(sizeField: nat, chunks: seq<Chunk>): Bytes {
    RIFF + U32(sizeField) + WAVE + ChunksBytes(chunks)
  }

  /** All data payloads, in order. */
  function DataOf(chunks: seq<Chunk>): Bytes {
    if chunks == [] then [] else (if chunks[0].id == DATA then chunks[0].data else []) + DataOf(chunks[1..])
  }

  predicate FmtsLongEnough(chunks: seq<Chunk>) {
    forall i | 0 <= i < |chunks| :: chunks[i].id == FMT ==> |chunks[i].data| >= 16
  }

  /** The last format chunk decides. */
  function FormatIn(chunks: seq<Chunk>, before: Option<Format>): Option<Format>
    requires FmtsLongEnough(chunks)
  {
    if chunks == [] then before
    else
      assert chunks[0].id == FMT ==> |chunks[0].data| >= 16;
      FormatIn(chunks[1..], if chunks[0].id == FMT then Some(FormatOf(chunks[0].data)) else before)
  }

  /** Taking chunks one after another. */
  function TakeChunks(g: Gathered, chunks: seq<Chunk>): Result<Gathered>
    decreases |chunks|
  {
    if chunks == [] then Ok(g)
    else
      match TakeChunk(g, chunks[0].id, chunks[0].data)
      case Rejected(reason) => Rejected(reason)
      case Ok(g') => TakeChunks(g', chunks[1..])
  }

  lemma ScanOne(before: Bytes, c: Chunk, rest: Bytes, g: Gathered)
    requires c.Valid()
    ensures var payload := before + ChunkBytes(c) + rest;
            Scan(payload, |before|, g) ==
            match TakeChunk(g, c.id, c.data)
            case Rejected(reason) => Rejected(reason)
            case Ok(g') => Scan(payload, |before + ChunkBytes(c)|, g')
  {
    hide TakeChunk, U32, ReadU32;
    var payload, n, size := before + ChunkBytes(c) + rest, |before|, |c.data|;
    U32Length(size);
    var tail := if size % 2 == 1 then [c.pad] else [];
    assert ChunkBytes(c) == c.id + U32(size) + (c.data + tail);
    U32Reads(size, c.data + (tail + rest));
    FiveParts(before, c.id, U32(size), c.data, tail, rest);
  }

  lemma FiveParts(before: Bytes, id: Bytes, size: Bytes, data: Bytes, tail: Bytes, rest: Bytes)
    requires |id| == 4 && |size| == 4
    ensures var payload, n := before + (id + size + (data + tail)) + rest, |before|;
      && |payload| == n + 8 + |data| + |tail| + |rest|
      && payload[n..n + 4] == id && payload[n + 4..] == size + (data + (tail + rest))
      && payload[n + 8..n + 8 + |data|] == data
  {
    var payload, n := before + (id + size + (data + tail)) + rest, |before|;
    var after := size + (data + (tail + rest));
    assert payload == (before + id) + after;
    assert payload[n + 8..] == after[4..] == data + (tail + rest);
  }

  lemma U32Length(n: nat)
    ensures |U32(n)| == 4
  {
  }

  lemma {:induction false} ScanChunks(before: Bytes, chunks: seq<Chunk>, g: Gathered)
    requires forall i | 0 <= i < |chunks| :: chunks[i].Valid()
    ensures Scan(before + ChunksBytes(chunks), |before|, g) == TakeChunks(g, chunks)
    decreases |chunks|
  {
    hide TakeChunk, ChunkBytes;
    if chunks != [] {
      var c, rest := chunks[0], ChunksBytes(chunks[1..]);
      assert before + ChunksBytes(chunks) == before + ChunkBytes(c) + rest;
      ScanOne(before, c, rest, g);
      var taken := TakeChunk(g, c.id, c.data);
      if taken.Ok? {
        ScanChunks(before + ChunkBytes(c), chunks[1..], taken.value);
      }
    } else {
      assert before + [] == before;
    }
  }

  /** One chunk. */
  lemma TakeChunkGathers(g: Gathered, c: Chunk)
    ensures TakeChunk(g, c.id, c.data).Ok? <==>
              (c.id == FMT ==> |c.data| >= 16) && (c.id == DATA ==> |g.pcm| + |c.data| <= MAX_INPUT_PCM)
    ensures TakeChunk(g, c.id, c.data).Ok? ==>
              TakeChunk(g, c.id, c.data).value ==
              Gathered(if c.id == FMT then Some(FormatOf(c.data)) else g.format,
                       if c.id == DATA then g.pcm + c.data else g.pcm)
  {
    hide FormatOf;
    assert FMT != DATA by { assert FMT[0] == 102 && DATA[0] == 100; }
  }

  /** The chunk loop goes through exactly when every format chunk is long enough and the data payloads are
      within the bound together; then it has gathered the last format and the payloads in order. */
  lemma {:induction false} TakeChunksGathers(g: Gathered, chunks: seq<Chunk>)
    requires |g.pcm| <= MAX_INPUT_PCM
    ensures TakeChunks(g, chunks).Ok? <==> FmtsLongEnough(chunks) && |g.pcm| + |DataOf(chunks)| <= MAX_INPUT_PCM
    ensures TakeChunks(g, chunks).Ok? ==>
              TakeChunks(g, chunks).value == Gathered(FormatIn(chunks, g.format), g.pcm + DataOf(chunks))
    decreases |chunks|
  {
    if chunks == [] {
      assert g.pcm + [] == g.pcm;
    } else {
      var c, rest := chunks[0], chunks[1..];
      FmtsFront(chunks);
      TakeChunkGathers(g, c);
      FrontOfLists(chunks, g.format);
      assert TakeChunks(g, chunks) == match TakeChunk(g, c.id, c.data)
                                      case Rejected(reason) => Rejected(reason)
                                      case Ok(g') => TakeChunks(g', rest);
      var taken := TakeChunk(g, c.id, c.data);
      hide *;
      if taken.Ok? {
        TakeChunksGathers(taken.value, rest);
        assert g.pcm + DataOf(chunks) == taken.value.pcm + DataOf(rest);
      }
    }
  }

  lemma FrontOfLists(chunks: seq<Chunk>, before: Option<Format>)
    requires chunks != []
    ensures DataOf(chunks) == (if chunks[0].id == DATA then chunks[0].data else []) + DataOf(chunks[1..])
    ensures FmtsLongEnough(chunks) ==>
              FmtsLongEnough(chunks[1..]) && (chunks[0].id == FMT ==> |chunks[0].data| >= 16)
              && FormatIn(chunks, before)
              == FormatIn(chunks[1..], if chunks[0].id == FMT then Some(FormatOf(chunks[0].data)) else before)
  {
    hide FormatOf;
  }

  lemma FmtsFront(chunks: seq<Chunk>)
    requires chunks != []
    ensures FmtsLongEnough(chunks) <==>
              (chunks[0].id == FMT ==> |chunks[0].data| >= 16) && FmtsLongEnough(chunks[1..])
  {
    if FmtsLongEnough(chunks[1..]) && (chunks[0].id == FMT ==> |chunks[0].data| >= 16) {
      forall i | 0 <= i < |chunks| && chunks[i].id == FMT
        ensures |chunks[i].data| >= 16
      {
        if i > 0 { assert chunks[i] == chunks[1..][i - 1]; }
      }
    }
  }

  const ACCEPTED_FORMAT: Format := Format(1, 1, SAMPLE_RATE, 16)

  /** The reader accepts an even-padded chunk list exactly when the file is small enough, its format chunks
      are long enough, the last of them says 16-bit mono PCM at the sample rate, and the data payloads are
      together non-empty, whole samples and within the bound. The result is then the data payloads in
      order, whatever the other chunks hold. */
  lemma ReaderOnChunks(sizeField: nat, chunks: seq<Chunk>)
    requires forall i | 0 <= i < |chunks| :: chunks[i].Valid()
    ensures Read(FileOf(sizeField, chunks)).Ok? <==>
              && |FileOf(sizeField, chunks)| <= MAX_FILE
              && FmtsLongEnough(chunks) && FormatIn(chunks, None) == Some(ACCEPTED_FORMAT)
              && 0 < |DataOf(chunks)| <= MAX_INPUT_PCM && |DataOf(chunks)| % BYTES_PER_SAMPLE == 0
    ensures Read(FileOf(sizeField, chunks)).Ok? ==> Read(FileOf(sizeField, chunks)).value == DataOf(chunks)
  {
    hide U32, ChunksBytes, TakeChunks, FormatIn, DataOf, Scan;
    var front := RIFF + U32(sizeField) + WAVE;
    U32Length(sizeField);
    var file := FileOf(sizeField, chunks);
    assert file == front + ChunksBytes(chunks) && |front| == 12;
    assert file[..4] == RIFF && file[8..12] == WAVE;
    ScanChunks(front, chunks, NOTHING);
    TakeChunksGathers(NOTHING, chunks);
    assert [] + DataOf(chunks) == DataOf(chunks);
  }

  // ---- the writer --------------------------------------------------------------------------------

  datatype WriteResult = Written(file: Bytes) | Refused

  function FmtData(): Bytes {
    U16(1) + U16(1) + U32(SAMPLE_RATE) + U32(SAMPLE_RATE * BYTES_PER_SAMPLE) + U16(BYTES_PER_SAMPLE) + U16(16)
  }

  /** `writePCM16WAV`, up to the bytes it writes. */
  method WritePCM16WAV(pcm: Bytes) returns (r: WriteResult)
    ensures r.Written? <==> 0 < |pcm| <= MAX_OUTPUT_PCM && |pcm| % BYTES_PER_SAMPLE == 0
    ensures r.Written? ==> r.file == FileOf(36 + |pcm|, [Chunk(FMT, FmtData(), 0), Chunk(DATA, pcm, 0)])
  {
    if |pcm| == 0 || |pcm| > MAX_OUTPUT_PCM || |pcm| % BYTES_PER_SAMPLE != 0 {
      return Refused;
    }
    var payload := RIFF;
    payload := payload + U32(36 + |pcm|);
    payload := payload + (WAVE + FMT);
    payload := payload + U32(16) + U16(1) + U16(1) + U32(SAMPLE_RATE) + U32(SAMPLE_RATE * BYTES_PER_SAMPLE)
                       + U16(BYTES_PER_SAMPLE) + U16(16);
    payload := payload + DATA;
    payload := payload + U32(|pcm|);
    payload := payload + pcm;
    WrittenIsFile(pcm);
    r := Written(payload);
  }

  lemma WrittenIsFile(pcm: Bytes)
    requires |pcm| % 2 == 0
    ensures RIFF + U32(36 + |pcm|) + (WAVE + FMT) + U32(16) + U16(1) + U16(1) + U32(SAMPLE_RATE)
            + U32(SAMPLE_RATE * BYTES_PER_SAMPLE) + U16(BYTES_PER_SAMPLE) + U16(16) + DATA + U32(|pcm|) + pcm
         == FileOf(36 + |pcm|, [Chunk(FMT, FmtData(), 0), Chunk(DATA, pcm, 0)])
  {
    FmtDataLength();
    hide U32, U16;
    var front := RIFF + U32(36 + |pcm|);
    SixParts(front + (WAVE + FMT) + U32(16), U16(1), U16(1), U32(SAMPLE_RATE), U32(SAMPLE_RATE * BYTES_PER_SAMPLE),
             U16(BYTES_PER_SAMPLE), U16(16));
    TwoChunks(Chunk(FMT, FmtData(), 0), Chunk(DATA, pcm, 0));
    hide *;
    EightParts(front, WAVE, FMT, U32(16), FmtData(), DATA, U32(|pcm|), pcm);
  }

  lemma EightParts(x: Bytes, w: Bytes, a: Bytes, b: Bytes, c: Bytes, d: Bytes, e: Bytes, f: Bytes)
    ensures x + (w + a) + b + c + d + e + f == x + w + ((a + b + c) + (d + e + f))
  {
    assert x + (w + a) + b + c == x + w + (a + b + c);
    SixParts(x + w, a + b + c, d, e, f, [], []);
    assert (a + b + c) + d + e + f == (a + b + c) + (d + e + f);
    assert d + e + f + [] + [] == d + e + f;
  }

  lemma SixParts(x: Bytes, a: Bytes, b: Bytes, c: Bytes, d: Bytes, e: Bytes, f: Bytes)
    ensures x + a + b + c + d + e + f == x + (a + b + c + d + e + f)
  {
  }

  lemma TwoChunks(a: Chunk, b: Chunk)
    requires |a.data| % 2 == 0 && |b.data| % 2 == 0
    ensures ChunksBytes([a, b]) == (a.id + U32(|a.data|) + a.data) + (b.id + U32(|b.data|) + b.data)
  {
    hide U32;
    assert [a, b][1..] == [b] && [b][1..] == [];
    assert ChunksBytes([]) == [];
    assert a.data + [] == a.data && b.data + [] == b.data;
    assert ChunksBytes([b]) == ChunkBytes(b);
    assert ChunksBytes([a, b]) == ChunkBytes(a) + ChunksBytes([b]);
  }

  lemma FmtDataLength()
    ensures |FmtData()| == 16 && FormatOf(FmtData()) == ACCEPTED_FORMAT
  {
    var d := FmtData();
    var rate, byteRate := U32(SAMPLE_RATE), U32(SAMPLE_RATE * BYTES_PER_SAMPLE);
    assert d == U16(1) + (U16(1) + (rate + (byteRate + (U16(BYTES_PER_SAMPLE) + (U16(16) + [])))));
    U16Reads(1, d[2..]);
    U16Reads(1, d[4..]);
    U32Reads(SAMPLE_RATE, d[8..]);
    U16Reads(16, []);
    assert d == U16(1) + d[2..] && d[2..] == U16(1) + d[4..] && d[4..] == rate + d[8..] && d[14..] == U16(16) + [];
  }

  /** Reading what the writer produced gives the same PCM back, exactly when it is within the reader's
      15 MiB; the writer itself allows 64 MiB. */
  lemma WavRoundTrip(pcm: Bytes)
    requires 0 < |pcm| <= MAX_OUTPUT_PCM && |pcm| % BYTES_PER_SAMPLE == 0
    ensures var r := Read(FileOf(36 + |pcm|, [Chunk(FMT, FmtData(), 0), Chunk(DATA, pcm, 0)]));
            && (r.Ok? <==> |pcm| <= MAX_INPUT_PCM)
            && (r.Ok? ==> r.value == pcm)
  {
    var fmt, data := Chunk(FMT, FmtData(), 0), Chunk(DATA, pcm, 0);
    var chunks := [fmt, data];
    FmtDataLength();
    assert FMT != DATA by { assert FMT[0] == 102 && DATA[0] == 100; }
    assert chunks[1..] == [data] && [data][1..] == [];
    assert DataOf([data]) == pcm + DataOf([]) == pcm;
    assert DataOf(chunks) == [] + DataOf([data]) == pcm;
    FmtsFront(chunks);
    FmtsFront([data]);
    assert FormatIn([data], Some(ACCEPTED_FORMAT)) == Some(ACCEPTED_FORMAT);
    assert FormatIn(chunks, None) == Some(ACCEPTED_FORMAT);
    WrittenLength(pcm);
    ReaderOnChunks(36 + |pcm|, chunks);
  }

  lemma WrittenLength(pcm: Bytes)
    requires |pcm| % 2 == 0
    ensures |FileOf(36 + |pcm|, [Chunk(FMT, FmtData(), 0), Chunk(DATA, pcm, 0)])| == 44 + |pcm|
  {
    WrittenIsFile(pcm);
  }
}
