/** The bytes of a WAV file, one by one, and the reason for which the reader turns a file down
    (examples/realtime-openai-go/wav.go). */
module WavExact {
  import opened Wrappers
  import opened ByteText
  import opened Wav

  // ---- bytes -----------------------------------------------------------------------------------------

  /** The number whose least byte comes first. */
  function LeastFirst(s: Bytes): nat {
    if s == [] then 0 else s[0] as nat + 256 * LeastFirst(s[1..])
  }

  lemma NumbersAreLeastFirst(s: Bytes)
    ensures |s| == 2 ==> ReadU16(s) == LeastFirst(s)
    ensures |s| == 4 ==> ReadU32(s) == LeastFirst(s)
  {
    if |s| == 2 {
      TwoBytes(s);
    } else if |s| == 4 {
      TwoBytes(s[2..]);
      assert s[1..][1..] == s[2..];
    }
  }

  lemma TwoBytes(s: Bytes)
    requires |s| == 2
    ensures LeastFirst(s) == s[0] as nat + 256 * s[1] as nat
  {
    assert s[1..][1..] == [];
    assert LeastFirst(s[1..]) == s[1] as nat + 256 * LeastFirst([]);
  }

  lemma WrittenLeastFirst(n: nat)
    ensures n < 0x1_0000 ==> |U16(n)| == 2 && LeastFirst(U16(n)) == n
    ensures n < 0x1_0000_0000 ==> |U32(n)| == 4 && LeastFirst(U32(n)) == n
  {
    if n < 0x1_0000 {
      U16Reads(n, []);
      assert U16(n) + [] == U16(n);
      NumbersAreLeastFirst(U16(n));
    }
    if n < 0x1_0000_0000 {
      U32Reads(n, []);
      U32Length(n);
      assert U32(n) + [] == U32(n);
      NumbersAreLeastFirst(U32(n));
    }
  }

  lemma {:induction false} OneText(s: Bytes, t: Bytes)
    requires |s| == |t| && LeastFirst(s) == LeastFirst(t)
    ensures s == t
  {
    if s != [] {
      assert s[0] as nat == LeastFirst(s) % 256 && t[0] as nat == LeastFirst(t) % 256;
      OneText(s[1..], t[1..]);
      assert s == [s[0]] + s[1..] && t == [t[0]] + t[1..];
    }
  }

  /** What the writer puts between the size of the file and the size of the data: the format is PCM, mono, 24000
      samples and 48000 bytes a second, 2 bytes a sample, 16 bits. */
  const MIDDLE: Bytes := [
    87, 65, 86, 69, 102, 109, 116, 32, 16, 0, 0, 0, 1, 0, 1, 0, 192, 93, 0, 0, 128, 187, 0, 0, 2, 0, 16, 0,
    100, 97, 116, 97
  ]

  lemma NamesAre()
    ensures RIFF == [82, 73, 70, 70] && WAVE == [87, 65, 86, 69]
    ensures FMT == [102, 109, 116, 32] && DATA == [100, 97, 116, 97]
  {
  }

  lemma FormatIs()
    ensures FmtData() == [1, 0, 1, 0, 192, 93, 0, 0, 128, 187, 0, 0, 2, 0, 16, 0] && U32(16) == [16, 0, 0, 0]
  {
  }

  /** A written file byte by byte: 44 bytes of header, with the two sizes as four bytes each, and the samples. */
  lemma WrittenBytes(pcm: Bytes)
    requires 0 < |pcm| <= 64 * 1024 * 1024 && |pcm| % 2 == 0
    ensures var file := FileOf(36 + |pcm|, [Chunk(FMT, FmtData(), 0), Chunk(DATA, pcm, 0)]);
            && |file| == 44 + |pcm|
            && file[..4] == [82, 73, 70, 70] && LeastFirst(file[4..8]) == 36 + |pcm|
            && file[8..40] == MIDDLE
            && LeastFirst(file[40..44]) == |pcm| && file[44..] == pcm
  {
    NamesAre();
    FormatIs();
    WrittenLeastFirst(36 + |pcm|);
    WrittenLeastFirst(|pcm|);
    TwoChunks(Chunk(FMT, FmtData(), 0), Chunk(DATA, pcm, 0));
    hide *;
    FileParts(U32(36 + |pcm|), U32(|pcm|), FmtData(), pcm);
  }

  lemma MiddleIs()
    ensures [87, 65, 86, 69] + ([102, 109, 116, 32] + [16, 0, 0, 0]
              + [1, 0, 1, 0, 192, 93, 0, 0, 128, 187, 0, 0, 2, 0, 16, 0]) + [100, 97, 116, 97] == MIDDLE
  {
  }

  lemma FileParts(size: Bytes, dataSize: Bytes, format: Bytes, pcm: Bytes)
    requires |size| == 4 && |dataSize| == 4
    requires format == [1, 0, 1, 0, 192, 93, 0, 0, 128, 187, 0, 0, 2, 0, 16, 0]
    ensures var file := [82, 73, 70, 70] + size + [87, 65, 86, 69]
                        + (([102, 109, 116, 32] + [16, 0, 0, 0] + format) + ([100, 97, 116, 97] + dataSize + pcm));
            && |file| == 44 + |pcm| && file[..4] == [82, 73, 70, 70] && file[4..8] == size
            && file[8..40] == MIDDLE && file[40..44] == dataSize && file[44..] == pcm
  {
    MiddleIs();
    var wave, head, data: Bytes := [87, 65, 86, 69], [102, 109, 116, 32] + [16, 0, 0, 0] + format, [100, 97, 116, 97];
    ThreeParts([82, 73, 70, 70], size, wave, head, data, dataSize, pcm);
  }

  lemma ThreeParts(a: Bytes, size: Bytes, wave: Bytes, head: Bytes, data: Bytes, dataSize: Bytes, pcm: Bytes)
    requires |a| == 4 && |size| == 4 && |wave| == 4 && |head| == 24 && |data| == 4 && |dataSize| == 4
    ensures var file := a + size + wave + (head + (data + dataSize + pcm));
            && |file| == 44 + |pcm| && file[..4] == a && file[4..8] == size
            && file[8..40] == wave + head + data && file[40..44] == dataSize && file[44..] == pcm
  {
  }

  // ---- why a file is turned down ---------------------------------------------------------------------

  /** What is no RIFF/WAVE file, or is too large, is turned down for that. */
  lemma OthersAreTurnedDown(payload: Bytes)
    ensures |payload| > 16 * 1024 * 1024 ==> Read(payload) == Rejected(TooLarge)
    ensures |payload| <= 16 * 1024 * 1024
            && !(|payload| >= 12 && payload[..4] == [82, 73, 70, 70] && payload[8..12] == [87, 65, 86, 69]) ==>
              Read(payload) == Rejected(NotRiff)
  {
    NamesAre();
  }

  /** The chunk loop over some chunks with something behind them. */
  lemma {:induction false} ScanThen(before: Bytes, chunks: seq<Chunk>, tail: Bytes, g: Gathered)
    requires forall i | 0 <= i < |chunks| :: chunks[i].Valid()
    ensures Scan(before + ChunksBytes(chunks) + tail, |before|, g) ==
            match TakeChunks(g, chunks)
            case Rejected(reason) => Rejected(reason)
            case Ok(g') => Scan(before + ChunksBytes(chunks) + tail, |before + ChunksBytes(chunks)|, g')
    decreases |chunks|
  {
    hide TakeChunk, ChunkBytes;
    if chunks == [] {
      assert before + ChunksBytes(chunks) == before;
    } else {
      var c, rest := chunks[0], ChunksBytes(chunks[1..]);
      Associated(before, ChunkBytes(c), rest);
      Associated(before + ChunkBytes(c), rest, tail);
      ScanOne(before, c, rest + tail, g);
      var taken := TakeChunk(g, c.id, c.data);
      if taken.Ok? {
        ScanThen(before + ChunkBytes(c), chunks[1..], tail, taken.value);
      }
    }
  }

  /** What the reader makes of chunks with something behind them. */
  lemma ReadThen(sizeField: nat, chunks: seq<Chunk>, tail: Bytes)
    requires forall i | 0 <= i < |chunks| :: chunks[i].Valid()
    requires |FileOf(sizeField, chunks) + tail| <= MAX_FILE
    ensures var file := FileOf(sizeField, chunks) + tail;
            Read(file) ==
            match TakeChunks(NOTHING, chunks)
            case Rejected(reason) => Rejected(reason)
            case Ok(g) =>
              match Scan(file, |FileOf(sizeField, chunks)|, g)
              case Rejected(reason) => Rejected(reason)
              case Ok(g') => Judge(g')
  {
    hide U32, ChunksBytes, TakeChunks, Scan, Judge;
    var front := RIFF + U32(sizeField) + WAVE;
    U32Length(sizeField);
    var file := FileOf(sizeField, chunks) + tail;
    assert FileOf(sizeField, chunks) == front + ChunksBytes(chunks) && |front| == 12;
    assert file[..4] == RIFF && file[8..12] == WAVE;
    ScanThen(front, chunks, tail, NOTHING);
  }

  /** A chunk of which less is there than it says: the file is turned down for it. */
  lemma CutShort(sizeField: nat, chunks: seq<Chunk>, id: Bytes, size: nat, part: Bytes)
    requires forall i | 0 <= i < |chunks| :: chunks[i].Valid()
    requires |id| == 4 && |part| < size < 0x1_0000_0000
    requires TakeChunks(NOTHING, chunks).Ok?
    requires |FileOf(sizeField, chunks) + (id + U32(size) + part)| <= 16 * 1024 * 1024
    ensures Read(FileOf(sizeField, chunks) + (id + U32(size) + part)) == Rejected(BadChunkSize)
  {
    hide FileOf, TakeChunks, U32, ReadU32;
    var front, tail := FileOf(sizeField, chunks), id + U32(size) + part;
    ReadThen(sizeField, chunks, tail);
    U32Length(size);
    U32Reads(size, part);
    assert (front + tail)[|front| + 4..] == U32(size) + part;
  }

  /** Fewer than eight bytes behind the chunks do not matter. */
  lemma LittleBehindIsIgnored(sizeField: nat, chunks: seq<Chunk>, tail: Bytes)
    requires forall i | 0 <= i < |chunks| :: chunks[i].Valid()
    requires |tail| < 8 && |FileOf(sizeField, chunks) + tail| <= 16 * 1024 * 1024
    ensures Read(FileOf(sizeField, chunks) + tail) == Read(FileOf(sizeField, chunks))
  {
    hide FileOf, TakeChunks, Judge;
    ReadThen(sizeField, chunks, tail);
    ReadThen(sizeField, chunks, []);
    assert FileOf(sizeField, chunks) + [] == FileOf(sizeField, chunks);
  }

  lemma LastParts(front: Bytes, id: Bytes, size: Bytes, data: Bytes, pad: Bytes)
    requires |id| == 4 && |size| == 4
    ensures var file, n := front + (id + size + data + pad), |front|;
      && |file| == n + 8 + |data| + |pad|
      && file[n..n + 4] == id && file[n + 4..] == size + (data + pad) && file[n + 8..n + 8 + |data|] == data
  {
    var file := front + (id + size + data + pad);
    assert file == (front + id) + (size + (data + pad));
  }

  lemma ScanLast(front: Bytes, id: Bytes, data: Bytes, pad: Bytes, g: Gathered)
    requires |id| == 4 && |data| % 2 == 1 && |data| < 0x1_0000_0000 && |pad| <= 1
    ensures Scan(front + (id + U32(|data|) + data + pad), |front|, g) == TakeChunk(g, id, data)
  {
    hide *;
    var file := front + (id + U32(|data|) + data + pad);
    U32Length(|data|);
    U32Reads(|data|, data + pad);
    LastParts(front, id, U32(|data|), data, pad);
    ScanStep(file, |front|, g);
    var taken := TakeChunk(g, id, data);
    if taken.Ok? {
      ScanEnd(file, |front| + 8 + |data| + 1, taken.value);
    }
  }

  /** What the reader makes of a last chunk of odd length, padded or not. */
  lemma ReadLast(sizeField: nat, chunks: seq<Chunk>, id: Bytes, data: Bytes, pad: Bytes)
    requires forall i | 0 <= i < |chunks| :: chunks[i].Valid()
    requires |id| == 4 && |data| % 2 == 1 && |data| < 0x1_0000_0000 && |pad| <= 1
    requires |FileOf(sizeField, chunks) + (id + U32(|data|) + data + pad)| <= MAX_FILE
    ensures Read(FileOf(sizeField, chunks) + (id + U32(|data|) + data + pad)) ==
            match TakeChunks(NOTHING, chunks)
            case Rejected(reason) => Rejected(reason)
            case Ok(g) =>
              match TakeChunk(g, id, data)
              case Rejected(reason) => Rejected(reason)
              case Ok(g') => Judge(g')
  {
    hide *;
    ReadThen(sizeField, chunks, id + U32(|data|) + data + pad);
    var gathered := TakeChunks(NOTHING, chunks);
    if gathered.Ok? {
      ScanLast(FileOf(sizeField, chunks), id, data, pad, gathered.value);
    }
  }

  /** The last chunk need not be padded. */
  lemma LastNeedNotBePadded(sizeField: nat, chunks: seq<Chunk>, id: Bytes, data: Bytes, pad: byte)
    requires forall i | 0 <= i < |chunks| :: chunks[i].Valid()
    requires |id| == 4 && |data| % 2 == 1 && |data| < 0x1_0000_0000
    requires |FileOf(sizeField, chunks + [Chunk(id, data, pad)])| <= 16 * 1024 * 1024
    ensures Read(FileOf(sizeField, chunks) + (id + U32(|data|) + data)) ==
            Read(FileOf(sizeField, chunks + [Chunk(id, data, pad)]))
  {
    PaddedFile(sizeField, chunks, id, data, pad);
    hide *;
    var short := id + U32(|data|) + data;
    assert short + [] == short;
    ReadLast(sizeField, chunks, id, data, []);
    ReadLast(sizeField, chunks, id, data, [pad]);
  }

  lemma PaddedFile(sizeField: nat, chunks: seq<Chunk>, id: Bytes, data: Bytes, pad: byte)
    requires |data| % 2 == 1
    ensures FileOf(sizeField, chunks + [Chunk(id, data, pad)]) ==
            FileOf(sizeField, chunks) + (id + U32(|data|) + data + [pad])
  {
    var last := Chunk(id, data, pad);
    ChunksOfSum(chunks, [last]);
    OneChunk(last);
    assert id + U32(|data|) + data + [pad] == ChunkBytes(last);
    hide U32, ChunkBytes, ChunksBytes;
    Associated(RIFF + U32(sizeField) + WAVE, ChunksBytes(chunks), ChunkBytes(last));
  }

  lemma OneChunk(c: Chunk)
    ensures ChunksBytes([c]) == ChunkBytes(c)
  {
    assert [c][1..] == [] && ChunksBytes([]) == [];
    assert ChunkBytes(c) + [] == ChunkBytes(c);
  }

  lemma {:induction false} ChunksOfSum(a: seq<Chunk>, b: seq<Chunk>)
    ensures ChunksBytes(a + b) == ChunksBytes(a) + ChunksBytes(b)
  {
    if a == [] {
      assert a + b == b;
    } else {
      hide ChunkBytes;
      assert (a + b)[1..] == a[1..] + b;
      ChunksOfSum(a[1..], b);
      Associated(ChunkBytes(a[0]), ChunksBytes(a[1..]), ChunksBytes(b));
    }
  }

  // ---- among whole chunks ----------------------------------------------------------------------------

  /** Chunk `k` is the first that the loop cannot take. */
  ghost predicate FirstRefused(chunks: seq<Chunk>, k: nat, reason: Rejection) {
    && k < |chunks|
    && FmtsLongEnough(chunks[..k]) && |DataOf(chunks[..k])| <= 15 * 1024 * 1024
    && (|| (chunks[k].id == [102, 109, 116, 32] && |chunks[k].data| < 16 && reason == FmtTooShort)
        || (chunks[k].id == [100, 97, 116, 97] && |DataOf(chunks[..k])| + |chunks[k].data| > 15 * 1024 * 1024
            && reason == TooMuchData))
  }

  lemma {:induction false} TakeInTurn(g: Gathered, a: seq<Chunk>, b: seq<Chunk>)
    ensures TakeChunks(g, a + b) ==
            match TakeChunks(g, a) case Rejected(reason) => Rejected(reason) case Ok(g') => TakeChunks(g', b)
    decreases |a|
  {
    hide TakeChunk;
    if a == [] {
      assert a + b == b;
    } else {
      assert (a + b)[0] == a[0] && (a + b)[1..] == a[1..] + b;
      var taken := TakeChunk(g, a[0].id, a[0].data);
      if taken.Ok? {
        TakeInTurn(taken.value, a[1..], b);
      }
    }
  }

  /** The first chunk that cannot be taken decides, before anything is said of the format. */
  lemma FirstRefusedDecides(sizeField: nat, chunks: seq<Chunk>, k: nat, reason: Rejection)
    requires forall i | 0 <= i < |chunks| :: chunks[i].Valid()
    requires |FileOf(sizeField, chunks)| <= 16 * 1024 * 1024 && FirstRefused(chunks, k, reason)
    ensures Read(FileOf(sizeField, chunks)) == Rejected(reason)
  {
    NamesAre();
    TakeChunksGathers(NOTHING, chunks[..k]);
    var c := chunks[k];
    var gathered := TakeChunks(NOTHING, chunks[..k]);
    assert [] + DataOf(chunks[..k]) == DataOf(chunks[..k]);
    assert gathered.Ok? && |gathered.value.pcm| == |DataOf(chunks[..k])|;
    assert chunks == chunks[..k] + chunks[k..];
    TakeInTurn(NOTHING, chunks[..k], chunks[k..]);
    assert TakeChunk(gathered.value, c.id, c.data) == Rejected(reason) by { hide FormatOf; }
    hide FileOf, TakeChunk, Scan, Judge, DataOf, FmtsLongEnough;
    assert TakeChunks(gathered.value, chunks[k..]) == Rejected(reason);
    ReadThen(sizeField, chunks, []);
    assert FileOf(sizeField, chunks) + [] == FileOf(sizeField, chunks);
  }

  /** Chunk `i` is the last that says a format. */
  ghost predicate LastFormat(chunks: seq<Chunk>, i: nat) {
    && i < |chunks| && chunks[i].id == [102, 109, 116, 32]
    && forall j | i < j < |chunks| :: chunks[j].id != [102, 109, 116, 32]
  }

  lemma {:induction false} FormatOfNone(chunks: seq<Chunk>, before: Option<Format>)
    requires FmtsLongEnough(chunks) && forall j | 0 <= j < |chunks| :: chunks[j].id != FMT
    ensures FormatIn(chunks, before) == before
    decreases |chunks|
  {
    if chunks != [] {
      FormatOfNone(chunks[1..], before);
    }
  }

  lemma {:induction false} FormatOfLast(chunks: seq<Chunk>, before: Option<Format>, i: nat)
    requires FmtsLongEnough(chunks) && LastFormat(chunks, i)
    ensures |chunks[i].data| >= 16 && FormatIn(chunks, before) == Some(FormatOf(chunks[i].data))
    decreases |chunks|
  {
    NamesAre();
    hide FormatOf;
    if i == 0 {
      assert forall j | 0 <= j < |chunks| - 1 :: chunks[1..][j] == chunks[j + 1];
      FormatOfNone(chunks[1..], Some(FormatOf(chunks[0].data)));
    } else {
      FormatOfLast(chunks[1..], if chunks[0].id == FMT then Some(FormatOf(chunks[0].data)) else before, i - 1);
    }
  }

  /** Where all chunks can be taken, the last format and the data decide, in this order. */
  lemma FormatDecides(sizeField: nat, chunks: seq<Chunk>, i: nat)
    requires forall j | 0 <= j < |chunks| :: chunks[j].Valid()
    requires |FileOf(sizeField, chunks)| <= 16 * 1024 * 1024
    requires FmtsLongEnough(chunks) && |DataOf(chunks)| <= 15 * 1024 * 1024 && LastFormat(chunks, i)
    ensures |chunks[i].data| >= 16
    ensures var d, pcm := chunks[i].data, DataOf(chunks);
            Read(FileOf(sizeField, chunks)) ==
            if LeastFirst(d[..2]) != 1 then Rejected(NotPcm)
            else if LeastFirst(d[2..4]) != 1 then Rejected(NotMono)
            else if LeastFirst(d[4..8]) != 24000 then Rejected(WrongRate)
            else if LeastFirst(d[14..16]) != 16 then Rejected(WrongWidth)
            else if pcm == [] then Rejected(NoData)
            else if |pcm| % 2 != 0 then Rejected(HalfSample)
            else Ok(pcm)
  {
    FormatOfLast(chunks, None, i);
    FieldsOf(chunks[i].data);
    AllTaken(sizeField, chunks);
    hide FormatOf, FileOf, Read, FormatIn, DataOf, LeastFirst;
  }

  lemma FieldsOf(d: Bytes)
    requires |d| >= 16
    ensures FormatOf(d) ==
            Format(LeastFirst(d[..2]), LeastFirst(d[2..4]), LeastFirst(d[4..8]), LeastFirst(d[14..16]))
  {
    NumbersAreLeastFirst(d[..2]);
    NumbersAreLeastFirst(d[2..4]);
    NumbersAreLeastFirst(d[4..8]);
    NumbersAreLeastFirst(d[14..16]);
    hide LeastFirst;
    assert d[4..8][2..][0] == d[6] && d[4..8][2..][1] == d[7];
  }

  lemma AllTaken(sizeField: nat, chunks: seq<Chunk>)
    requires forall j | 0 <= j < |chunks| :: chunks[j].Valid()
    requires |FileOf(sizeField, chunks)| <= MAX_FILE && FmtsLongEnough(chunks) && |DataOf(chunks)| <= MAX_INPUT_PCM
    ensures Read(FileOf(sizeField, chunks)) == Judge(Gathered(FormatIn(chunks, None), DataOf(chunks)))
  {
    TakeChunksGathers(NOTHING, chunks);
    assert [] + DataOf(chunks) == DataOf(chunks);
    hide FileOf, TakeChunks, FormatIn, DataOf, Judge;
    ReadThen(sizeField, chunks, []);
    assert FileOf(sizeField, chunks) + [] == FileOf(sizeField, chunks);
  }

  /** Without any format the file is turned down for that. */
  lemma NoFormatDecides(sizeField: nat, chunks: seq<Chunk>)
    requires forall j | 0 <= j < |chunks| :: chunks[j].Valid()
    requires |FileOf(sizeField, chunks)| <= 16 * 1024 * 1024 && |DataOf(chunks)| <= 15 * 1024 * 1024
    requires forall j | 0 <= j < |chunks| :: chunks[j].id != [102, 109, 116, 32]
    ensures Read(FileOf(sizeField, chunks)) == Rejected(NoFmt)
  {
    NamesAre();
    FormatOfNone(chunks, None);
    AllTaken(sizeField, chunks);
  }
}
