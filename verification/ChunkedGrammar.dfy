/** The chunked transfer coding of section 7.1 of RFC 9112, written out, and the proof that the
    incremental parser stops exactly at the end of every body the grammar allows. */
module ChunkedGrammar {
  import opened Wrappers
  import opened ByteText
  import opened ChunkedBody
  import opened HeaderOrder
  import opened HeaderLaws

  predicate NoLineFeed(s: Bytes) {
    forall i | 0 <= i < |s| :: s[i] != 10
  }

  predicate NoLineBytes(s: Bytes) {
    forall i | 0 <= i < |s| :: s[i] != 10 && s[i] != 13
  }

  predicate AllSpaces(s: Bytes) {
    forall i | 0 <= i < |s| :: IsSpace(s[i])
  }

  /** The first line of a chunk: `chunk-size [chunk-ext]`, the extension given as the optional white
      space before its semicolon and the text after it. */
  datatype SizeLine = SizeLine(digits: Bytes, extension: Option<(Bytes, Bytes)>)

  datatype Chunk = Chunk(size: SizeLine, data: Bytes)

  datatype Body = Body(chunks: seq<Chunk>, last: SizeLine, trailers: seq<Bytes>)

  function SizeText(s: SizeLine): Bytes {
    match s.extension
    case None => s.digits
    case Some((space, text)) => s.digits + space + [SEMICOLON] + text
  }

  ghost predicate ValidSizeLine(s: SizeLine, size: nat) {
    && s.digits != [] && AllDigits(s.digits, 16) && NumberOf(s.digits, 16) == size
    && (s.extension.Some? ==> AllSpaces(s.extension.value.0))
    && NoLineFeed(SizeText(s))
    && |SizeText(s)| + 2 <= MAX_BUFFERED
  }

  ghost predicate ValidChunk(c: Chunk) {
    0 < |c.data| <= MAX_INT64 && ValidSizeLine(c.size, |c.data|)
  }

  ghost predicate ValidBody(b: Body) {
    && (forall i | 0 <= i < |b.chunks| :: ValidChunk(b.chunks[i]))
    && ValidSizeLine(b.last, 0)
    && (forall i | 0 <= i < |b.trailers| :: b.trailers[i] != [] && NoLineBytes(b.trailers[i]))
    && |Emit(b.trailers)| + 2 <= MAX_BUFFERED
  }

  function ChunkBytes(c: Chunk): Bytes {
    SizeText(c.size) + CRLF + (c.data + CRLF)
  }

  function ChunksBytes(chunks: seq<Chunk>): Bytes {
    if chunks == [] then [] else ChunkBytes(chunks[0]) + ChunksBytes(chunks[1..])
  }

  function BodyBytes(b: Body): Bytes {
    ChunksBytes(b.chunks) + (SizeText(b.last) + CRLF + (Emit(b.trailers) + CRLF))
  }

  // ---- reading the number on a size line ---------------------------------------------------------

  lemma {:induction false} TrimRightStrips(s: Bytes, spaces: Bytes)
    requires s != [] && !IsSpace(s[|s| - 1]) && AllSpaces(spaces)
    ensures TrimRight(s + spaces) == s
    decreases |spaces|
  {
    var text := s + spaces;
    if spaces == [] {
      assert text == s;
    } else {
      assert text[..|text| - 1] == s + spaces[..|spaces| - 1];
      TrimRightStrips(s, spaces[..|spaces| - 1]);
    }
  }

  lemma {:induction false} TrimRightStopsAt(s: Bytes, more: Bytes)
    requires s != [] && !IsSpace(s[|s| - 1])
    ensures s <= TrimRight(s + more)
    decreases |more|
  {
    var text := s + more;
    if more != [] && IsSpace(text[|text| - 1]) {
      assert text[..|text| - 1] == s + more[..|more| - 1];
      TrimRightStopsAt(s, more[..|more| - 1]);
    }
  }

  lemma DigitsParse(digits: Bytes, size: nat)
    requires digits != [] && AllDigits(digits, 16) && NumberOf(digits, 16) == size <= MAX_INT64
    ensures ParseInt(digits, 16) == Some(size)
    ensures !IsSpace(digits[0]) && !IsSpace(digits[|digits| - 1])
  {
    assert DigitValue(digits[0]) < 16 && DigitValue(digits[|digits| - 1]) < 16;
  }

  /** No white space and no semicolon: the text that can stand for a number. */
  predicate IsNumber(s: Bytes) {
    s != [] && forall i | 0 <= i < |s| :: !IsSpace(s[i]) && s[i] != SEMICOLON
  }

  /** A chunk extension, with the white space before it, does not change the number before it. */
  lemma ExtensionIgnored(number: Bytes, space: Bytes, more: Bytes)
    requires IsNumber(number) && AllSpaces(space)
    ensures var trimmed := TrimSpace(number + space + [SEMICOLON] + more);
            var n := Index(trimmed, [SEMICOLON]);
            n >= 0 && TrimSpace(trimmed[..n]) == number
  {
    var front := number + space + [SEMICOLON];
    var text := front + more;
    assert text[0] == number[0] && TrimLeft(text) == text;
    TrimRightStopsAt(front, more);
    var trimmed := TrimSpace(text);
    var n := |number + space|;
    assert trimmed[n..n + 1] == front[n..n + 1] == [SEMICOLON];
    forall j: nat | j < n
      ensures !OccursAt(trimmed, [SEMICOLON], j)
    {
      assert trimmed[j..j + 1][0] == front[j] != SEMICOLON;
    }
    IndexIs(trimmed, [SEMICOLON], n);
    assert trimmed[..n] == front[..n] == number + space;
    assert TrimLeft(number + space) == number + space;
    TrimRightStrips(number, space);
  }

  lemma DigitsAreNumber(digits: Bytes)
    requires digits != [] && AllDigits(digits, 16)
    ensures IsNumber(digits)
  {
    forall i | 0 <= i < |digits|
      ensures !IsSpace(digits[i]) && digits[i] != SEMICOLON
    {
      assert DigitValue(digits[i]) < 16;
    }
  }

  lemma SizeTextParses(s: SizeLine, size: nat)
    requires ValidSizeLine(s, size) && size <= MAX_INT64
    ensures ChunkSize(SizeText(s)) == Some(size)
  {
    hide ParseInt, NumberOf, TrimRight;
    var digits := s.digits;
    DigitsParse(digits, size);
    DigitsAreNumber(digits);
    match s.extension
    case None =>
      TrimRightStrips(digits, []);
      assert digits + [] == digits;
      NoSemicolon(digits);
    case Some((space, more)) =>
      ExtensionIgnored(digits, space, more);
  }

  lemma NoSemicolon(number: Bytes)
    requires IsNumber(number)
    ensures Index(number, [SEMICOLON]) == -1
  {
    forall j: nat | j + 1 <= |number|
      ensures !OccursAt(number, [SEMICOLON], j)
    {
      assert number[j..j + 1][0] == number[j] != SEMICOLON;
    }
  }

  // ---- one line, one chunk, the trailers ---------------------------------------------------------

  function AfterSize(t: Tracker, size: nat): Tracker {
    if size == 0 then t.(line := [], phase := ReadingTrailers)
    else t.(line := [], phase := ReadingData, dataRemaining := size)
  }

  lemma FeedFront(t: Tracker, b: byte, rest: Bytes)
    requires t.Valid()
    ensures Feed(t, [b] + rest) == FeedRest(FeedByte(t, b), rest)
  {
    var data := [b] + rest;
    assert data[0] == b && data[1..] == rest;
  }

  /** Two bytes that keep the body open. */
  lemma FeedPair(t: Tracker, mid: Tracker, end: Tracker, a: byte, b: byte, rest: Bytes)
    requires t.Valid() && FeedByte(t, a) == Continue(mid)
    requires mid.Valid() && FeedByte(mid, b) == Continue(end)
    ensures end.Valid() && Feed(t, [a, b] + rest) == After(2, Feed(end, rest))
  {
    assert [a, b] + rest == [a] + ([b] + rest);
    FeedFront(t, a, [b] + rest);
    FeedFront(mid, b, rest);
  }

  lemma FeedSizeLineEnd(t: Tracker, rest: Bytes, size: nat)
    requires t.Valid() && t.phase == ReadingSize
    requires |t.line| + 2 <= MAX_BUFFERED && ChunkSize(t.line) == Some(size)
    ensures Feed(t, CRLF + rest) == After(2, Feed(AfterSize(t, size), rest))
  {
    var mid := t.(line := t.line + [13]);
    SizeLineCr(t);
    SizeLineLf(t, size);
    hide FeedByte, AfterSize;
    FeedPair(t, mid, AfterSize(t, size), 13, 10, rest);
  }

  lemma SizeLineCr(t: Tracker)
    requires t.Valid() && t.phase == ReadingSize && |t.line| + 2 <= MAX_BUFFERED
    ensures var mid := t.(line := t.line + [13]); mid.Valid() && FeedByte(t, 13) == Continue(mid)
  {
    var withCr := t.line + [13];
    assert !EndsWithCrlf(withCr) by {
      if |withCr| >= 2 { assert withCr[|withCr| - 2..][1] == 13; }
    }
  }

  lemma SizeLineLf(t: Tracker, size: nat)
    requires t.Valid() && t.phase == ReadingSize && |t.line| + 2 <= MAX_BUFFERED && ChunkSize(t.line) == Some(size)
    ensures FeedByte(t.(line := t.line + [13]), 10) == Continue(AfterSize(t, size))
  {
    hide ChunkSize;
    var whole := t.line + [13] + [10];
    assert whole[|whole| - 2..] == CRLF && whole[..|whole| - 2] == t.line;
  }

  lemma NotYetEnded(s: Bytes, n: nat)
    requires NoCrlf(s) && n <= |s|
    ensures !EndsWithCrlf(s[..n])
  {
    if n >= 2 {
      assert !CrlfAt(s, n - 2);
      assert s[..n][n - 2..] == [s[n - 2], s[n - 1]];
    }
  }

  lemma {:induction false} FeedSizeLine(t: Tracker, text: Bytes, rest: Bytes, size: nat)
    requires t.Valid() && t.phase == ReadingSize && NoCrlf(t.line + text)
    requires |t.line| + |text| + 2 <= MAX_BUFFERED && ChunkSize(t.line + text) == Some(size)
    ensures Feed(t, text + CRLF + rest) == After(|text| + 2, Feed(AfterSize(t, size), rest))
    decreases |text|
  {
    hide ChunkSize, Feed;
    if text == [] {
      assert t.line + text == t.line && text + CRLF + rest == CRLF + rest;
      FeedSizeLineEnd(t, rest, size);
    } else {
      var line, more := t.line + [text[0]], text[1..] + CRLF + rest;
      assert text + CRLF + rest == [text[0]] + more;
      assert line + text[1..] == t.line + text;
      NotYetEnded(t.line + text, |line|);
      FeedFront(t, text[0], more);
      FeedSizeLine(t.(line := line), text[1..], rest, size);
    }
  }

  lemma FeedDataLineEnd(t: Tracker, rest: Bytes)
    requires t.Valid() && t.phase == ReadingDataCRLF && t.crlfPosition == 0
    ensures Feed(t, CRLF + rest) == After(2, Feed(t.(crlfPosition := 2, phase := ReadingSize), rest))
  {
    FeedPair(t, t.(crlfPosition := 1), t.(crlfPosition := 2, phase := ReadingSize), 13, 10, rest);
  }

  lemma FeedChunkData(t: Tracker, data: Bytes, rest: Bytes)
    requires t.phase == ReadingData && t.dataRemaining == |data| > 0
    ensures Feed(t, data + (CRLF + rest))
         == After(|data| + 2, Feed(t.(dataRemaining := 0, crlfPosition := 2, phase := ReadingSize), rest))
  {
    var tail := data + (CRLF + rest);
    assert tail[|data|..] == CRLF + rest;
    FeedData(t, tail, |data|);
    FeedDataLineEnd(AfterData(t, |data|), rest);
  }

  lemma NoLineFeedNoCrlf(s: Bytes)
    requires NoLineFeed(s)
    ensures NoCrlf(s)
  {
  }

  lemma ChunkText(c: Chunk, rest: Bytes)
    ensures ChunkBytes(c) + rest == SizeText(c.size) + CRLF + (c.data + (CRLF + rest))
    ensures |ChunkBytes(c)| == |SizeText(c.size)| + 2 + (|c.data| + 2)
  {
    hide SizeText;
  }

  lemma FeedChunk(t: Tracker, c: Chunk, rest: Bytes)
    requires t.phase == ReadingSize && t.line == [] && ValidChunk(c)
    ensures Feed(t, ChunkBytes(c) + rest)
         == After(|ChunkBytes(c)|, Feed(t.(dataRemaining := 0, crlfPosition := 2), rest))
  {
    hide ChunkSize, Feed, SizeText, NoLineFeed, NoCrlf, NumberOf, AllDigits, AllSpaces, ChunkBytes, After;
    var text := SizeText(c.size);
    SizeTextParses(c.size, |c.data|);
    NoLineFeedNoCrlf(text);
    FeedChunkAt(t, text, c.data, rest);
    AfterTwice(|text| + 2, |c.data| + 2, Feed(t.(dataRemaining := 0, crlfPosition := 2), rest));
    ChunkText(c, rest);
  }

  lemma FeedChunkAt(t: Tracker, text: Bytes, data: Bytes, rest: Bytes)
    requires t.phase == ReadingSize && t.line == [] && NoCrlf(text) && |text| + 2 <= MAX_BUFFERED
    requires data != [] && ChunkSize(text) == Some(|data|)
    ensures Feed(t, text + CRLF + (data + (CRLF + rest)))
         == After(|text| + 2, After(|data| + 2, Feed(t.(dataRemaining := 0, crlfPosition := 2), rest)))
  {
    hide ChunkSize, Feed, NoCrlf, After;
    FeedPositiveSize(t, text, data + (CRLF + rest), |data|);
    FeedChunkData(t.(phase := ReadingData, dataRemaining := |data|), data, rest);
  }

  lemma FeedPositiveSize(t: Tracker, text: Bytes, rest: Bytes, size: nat)
    requires t.phase == ReadingSize && t.line == [] && NoCrlf(text) && |text| + 2 <= MAX_BUFFERED
    requires size > 0 && ChunkSize(text) == Some(size)
    ensures var t' := t.(phase := ReadingData, dataRemaining := size);
            t'.Valid() && Feed(t, text + CRLF + rest) == After(|text| + 2, Feed(t', rest))
  {
    hide ChunkSize, Feed;
    assert t.line + text == text;
    FeedSizeLine(t, text, rest, size);
    assert AfterSize(t, size) == t.(phase := ReadingData, dataRemaining := size);
  }

  lemma AfterTwice(m: nat, n: nat, f: Fed)
    ensures After(m, After(n, f)) == After(m + n, f)
  {
  }

  lemma {:induction false} FeedChunks(t: Tracker, chunks: seq<Chunk>, rest: Bytes) returns (t': Tracker)
    requires t.Valid() && t.phase == ReadingSize && t.line == [] && t.trailers == []
    requires forall i | 0 <= i < |chunks| :: ValidChunk(chunks[i])
    ensures t'.phase == ReadingSize && t'.line == [] && t'.trailers == []
    ensures Feed(t, ChunksBytes(chunks) + rest) == After(|ChunksBytes(chunks)|, Feed(t', rest))
    decreases |chunks|
  {
    if chunks == [] {
      assert [] + rest == rest;
      t' := t;
    } else {
      var first, more := ChunkBytes(chunks[0]), ChunksBytes(chunks[1..]);
      assert ChunksBytes(chunks) + rest == first + (more + rest);
      FeedChunk(t, chunks[0], more + rest);
      t' := FeedChunks(t.(dataRemaining := 0, crlfPosition := 2), chunks[1..], rest);
    }
  }

  /** No proper prefix of a trailer section looks finished, and the whole section does. */
  lemma TrailersEndOnce(fields: seq<Bytes>)
    requires forall i | 0 <= i < |fields| :: fields[i] != [] && NoLineBytes(fields[i])
    ensures var section := Emit(fields) + CRLF;
            TrailersDone(section) && forall k | 0 < k < |section| :: !TrailersDone(section[..k])
  {
    var section := Emit(fields) + CRLF;
    if fields == [] {
      assert section == CRLF;
    } else {
      forall i | 0 <= i < |fields|
        ensures NoCrlf(fields[i])
      {
      }
      NoEarlyBlankLine(fields);
      EmitEndsWithCrlf(fields);
      assert section[|section| - 4..] == BLANK_LINE;
      EmitFront(fields);
      assert section[0] == fields[0][0] != 13;
      hide Emit, NoCrlf;
      forall k | 0 < k < |section|
        ensures !TrailersDone(section[..k])
      {
        NotDoneEarly(section, k);
      }
    }
  }

  lemma NotDoneEarly(section: Bytes, k: nat)
    requires 0 < k < |section| && section[0] != 13 && (k >= 4 ==> !BlankLineAt(section, k - 4))
    ensures !TrailersDone(section[..k])
  {
    assert section[..k][0] != CRLF[0];
    if k >= 4 {
      OccursBytewise(section, k - 4);
      assert section[..k][k - 4..] == section[k - 4..k];
    }
  }

  lemma FeedTrailerByte(t: Tracker, data: Bytes, trailers: Bytes)
    requires t.phase == ReadingTrailers && data != [] && trailers == t.trailers + [data[0]]
             && |trailers| <= MAX_BUFFERED
    ensures Feed(t, data) == if TrailersDone(trailers) then Complete(1)
                             else After(1, Feed(t.(trailers := trailers), data[1..]))
  {
    hide TrailersDone;
  }

  lemma {:induction false} FeedTrailers(t: Tracker, section: Bytes, rest: Bytes)
    requires t.phase == ReadingTrailers && t.trailers < section && |section| <= MAX_BUFFERED
    requires TrailersDone(section) && forall k | 0 < k < |section| :: !TrailersDone(section[..k])
    ensures Feed(t, section[|t.trailers|..] + rest) == Complete(|section| - |t.trailers|)
    decreases |section| - |t.trailers|
  {
    hide TrailersDone, Feed;
    var i := |t.trailers|;
    var data := section[i..] + rest;
    var trailers := section[..i + 1];
    assert data[0] == section[i] && trailers == t.trailers + [data[0]];
    assert data[1..] == section[i + 1..] + rest;
    FeedTrailerByte(t, data, trailers);
    if i + 1 == |section| {
      assert trailers == section;
    } else {
      assert !TrailersDone(trailers);
      FeedTrailers(t.(trailers := trailers), section, rest);
    }
  }

  lemma FeedBodyEnd(t: Tracker, text: Bytes, section: Bytes, rest: Bytes)
    requires t.phase == ReadingSize && t.line == [] && t.trailers == []
    requires NoCrlf(text) && |text| + 2 <= MAX_BUFFERED && ChunkSize(text) == Some(0)
    requires section != [] && |section| <= MAX_BUFFERED
    requires TrailersDone(section) && forall k | 0 < k < |section| :: !TrailersDone(section[..k])
    ensures Feed(t, text + CRLF + (section + rest)) == Complete(|text| + 2 + |section|)
  {
    hide ChunkSize;
    assert t.line + text == text;
    FeedSizeLine(t, text, section + rest, 0);
    assert section[0..] == section;
    FeedTrailers(AfterSize(t, 0), section, rest);
  }

  lemma FeedParts(front: nat, t: Tracker, tail: Bytes, whole: Bytes, n: nat)
    requires t.Valid() && Feed(START, whole) == After(front, Feed(t, tail)) && Feed(t, tail) == Complete(n)
    ensures Feed(START, whole) == Complete(front + n)
  {
  }

  /** Whatever follows a well-formed chunked body, the parser completes and takes exactly the body. */
  lemma ChunkedBodyEnds(b: Body, rest: Bytes)
    requires ValidBody(b)
    ensures Feed(START, BodyBytes(b) + rest) == Complete(|BodyBytes(b)|)
  {
    hide ChunkSize, Feed, TrailersDone, Emit, ChunksBytes;
    var front, text, section := ChunksBytes(b.chunks), SizeText(b.last), Emit(b.trailers) + CRLF;
    var tail := text + CRLF + (section + rest);
    SizeTextParses(b.last, 0);
    TrailersEndOnce(b.trailers);
    var t := FeedChunks(START, b.chunks, tail);
    FeedBodyEnd(t, text, section, rest);
    FeedParts(|front|, t, tail, front + tail, |text| + 2 + |section|);
    assert BodyBytes(b) + rest == front + tail;
  }
}
