/** What the incremental parser accepts, exactly: the bodies of a slightly wider grammar than that of
    section 7.1 of RFC 9112, stated over the text alone. Nothing else is ever taken for a complete body. */
module ChunkedExact {
  import opened Wrappers
  import opened ByteText
  import opened ChunkedBody
  import opened ChunkedGrammar
  import opened PaddedText

  /** The size line of a chunk without its line end, and the data. */
  datatype Piece = Piece(line: Bytes, data: Bytes)

  /** The chunks, the size line of the last chunk, and the trailer section with its blank line. */
  datatype Pieces = Pieces(chunks: seq<Piece>, last: Bytes, trailers: Bytes)

  function PieceText(p: Piece): Bytes {
    p.line + CRLF + (p.data + CRLF)
  }

  function PiecesText(chunks: seq<Piece>): Bytes {
    if chunks == [] then [] else PieceText(chunks[0]) + PiecesText(chunks[1..])
  }

  function WholeText(b: Pieces): Bytes {
    PiecesText(b.chunks) + (b.last + CRLF + (b.trailers + CRLF))
  }

  ghost predicate SaysSize(line: Bytes, size: nat) {
    NoCrlf(line) && |line| + 2 <= 0x10_0000 && ChunkSize(line) == Some(size)
  }

  ghost predicate IsPiece(p: Piece) {
    p.data != [] && SaysSize(p.line, |p.data|)
  }

  /** Field lines, each with its line end, none of them empty. */
  ghost predicate AreTrailers(trailers: Bytes) {
    && |trailers| + 2 <= 0x10_0000
    && (trailers == [] || (|trailers| >= 2 && CrlfAt(trailers, |trailers| - 2) && !CrlfAt(trailers, 0)))
    && forall i | 0 <= i :: !BlankLineAt(trailers, i)
  }

  ghost predicate IsWhole(b: Pieces) {
    (forall i | 0 <= i < |b.chunks| :: IsPiece(b.chunks[i])) && SaysSize(b.last, 0) && AreTrailers(b.trailers)
  }

  // ---- every such text is accepted ---------------------------------------------------------------

  lemma CrlfEnds(trailers: Bytes, k: nat)
    requires 2 <= k <= |trailers|
    ensures trailers[..k][k - 2..] == CRLF <==> CrlfAt(trailers, k - 2)
  {
    assert trailers[..k][k - 2..] == [trailers[k - 2], trailers[k - 1]];
  }

  lemma BlankEnds(trailers: Bytes, k: nat)
    requires 4 <= k <= |trailers|
    ensures trailers[..k][k - 4..] == BLANK_LINE <==> BlankLineAt(trailers, k - 4)
  {
    assert trailers[..k][k - 4..] == [trailers[k - 4], trailers[k - 3], trailers[k - 2], trailers[k - 1]];
  }

  /** A prefix of the trailer section looks finished when it is the blank line alone, or ends with the
      blank line. */
  lemma DoneWhen(section: Bytes, k: nat)
    requires k <= |section|
    ensures TrailersDone(section[..k])
        <==> (k == 2 && CrlfAt(section, 0)) || (k >= 4 && BlankLineAt(section, k - 4))
  {
    if k == 2 { CrlfEnds(section, 2); }
    if k >= 4 { BlankEnds(section, k); }
  }

  lemma SectionEnds(trailers: Bytes)
    requires AreTrailers(trailers)
    ensures var section := trailers + CRLF;
            TrailersDone(section) && forall k | 0 < k < |section| :: !TrailersDone(section[..k])
  {
    var section := trailers + CRLF;
    assert section[..|section|] == section;
    DoneWhen(section, |section|);
    forall k | 0 < k < |section|
      ensures !TrailersDone(section[..k])
    {
      DoneWhen(section, k);
      if k >= 4 && k < |section| - 1 { assert !BlankLineAt(trailers, k - 4); }
    }
  }

  lemma FeedPiece(t: Tracker, p: Piece, rest: Bytes)
    requires t.phase == ReadingSize && t.line == [] && IsPiece(p)
    ensures Feed(t, PieceText(p) + rest)
         == After(|PieceText(p)|, Feed(t.(dataRemaining := 0, crlfPosition := 2), rest))
  {
    hide ChunkSize, Feed, NoCrlf;
    FeedChunkAt(t, p.line, p.data, rest);
    AfterTwice(|p.line| + 2, |p.data| + 2, Feed(t.(dataRemaining := 0, crlfPosition := 2), rest));
    assert PieceText(p) + rest == p.line + CRLF + (p.data + (CRLF + rest));
  }

  lemma FrontPiece(chunks: seq<Piece>, rest: Bytes)
    requires chunks != []
    ensures PiecesText(chunks) + rest == PieceText(chunks[0]) + (PiecesText(chunks[1..]) + rest)
  {
    var first, more := PieceText(chunks[0]), PiecesText(chunks[1..]);
    assert first + more + rest == first + (more + rest);
  }

  lemma {:induction false} FeedPieces(t: Tracker, chunks: seq<Piece>, rest: Bytes) returns (t': Tracker)
    requires t.Valid() && t.phase == ReadingSize && t.line == [] && t.trailers == []
    requires forall i | 0 <= i < |chunks| :: IsPiece(chunks[i])
    ensures t'.phase == ReadingSize && t'.line == [] && t'.trailers == []
    ensures Feed(t, PiecesText(chunks) + rest) == After(|PiecesText(chunks)|, Feed(t', rest))
    decreases |chunks|
  {
    if chunks == [] {
      assert PiecesText(chunks) + rest == rest;
      t' := t;
    } else {
      hide IsPiece, Feed, PieceText;
      FrontPiece(chunks, rest);
      FeedPiece(t, chunks[0], PiecesText(chunks[1..]) + rest);
      t' := FeedPieces(t.(dataRemaining := 0, crlfPosition := 2), chunks[1..], rest);
    }
  }

  lemma WholeIsAccepted(b: Pieces, rest: Bytes)
    requires IsWhole(b)
    ensures Feed(START, WholeText(b) + rest) == Complete(|WholeText(b)|)
  {
    hide ChunkSize, Feed, TrailersDone, PiecesText, NoCrlf;
    var front, section := PiecesText(b.chunks), b.trailers + CRLF;
    var tail := b.last + CRLF + (section + rest);
    SectionEnds(b.trailers);
    var t := FeedPieces(START, b.chunks, tail);
    FeedBodyEnd(t, b.last, section, rest);
    FeedParts(|front|, t, tail, front + tail, |b.last| + 2 + |section|);
    assert WholeText(b) + rest == front + tail;
  }

  // ---- nothing else is accepted ------------------------------------------------------------------

  lemma LineHasNoEnd(seen: Bytes, line: Bytes)
    requires forall i | 0 < i <= |seen| :: !EndsWithCrlf(seen[..i])
    requires line <= seen
    ensures NoCrlf(line)
  {
    forall i | 0 <= i < |line| && i + 2 <= |line|
      ensures !CrlfAt(line, i)
    {
      assert !EndsWithCrlf(seen[..i + 2]);
      assert seen[..i + 2][i..] == [line[i], line[i + 1]];
    }
  }

  /** The byte that ends a size line. */
  lemma SizeLineDone(t: Tracker, b: byte, rest: Bytes, n: nat) returns (line: Bytes, size: nat)
    requires t.Valid() && t.phase == ReadingSize && FeedRest(FeedByte(t, b), rest) == Complete(n)
    requires EndsWithCrlf(t.line + [b])
    requires forall i | 0 < i <= |t.line| :: !EndsWithCrlf(t.line[..i])
    ensures SaysSize(line, size) && t.line + [b] == line + CRLF
    ensures AfterSize(t, size).Valid() && Feed(AfterSize(t, size), rest) == Complete(n - 1)
  {
    hide ChunkSize, Feed, NoCrlf;
    var whole := t.line + [b];
    line := whole[..|whole| - 2];
    assert whole == line + whole[|whole| - 2..];
    var read := ChunkSize(line);
    assert read.Some? && read.value >= 0;
    size := read.value;
    assert line == t.line[..|line|];
    LineHasNoEnd(t.line, line);
  }

  lemma SizeLineOn(t: Tracker, b: byte, rest: Bytes, n: nat)
    requires t.Valid() && t.phase == ReadingSize && FeedRest(FeedByte(t, b), rest) == Complete(n)
    requires !EndsWithCrlf(t.line + [b])
    requires forall i | 0 < i <= |t.line| :: !EndsWithCrlf(t.line[..i])
    ensures n > 0 && Feed(t.(line := t.line + [b]), rest) == Complete(n - 1)
    ensures forall i | 0 < i <= |t.line| + 1 :: !EndsWithCrlf((t.line + [b])[..i])
  {
    hide ChunkSize, Feed, EndsWithCrlf;
    var whole := t.line + [b];
    forall i | 0 < i <= |whole|
      ensures !EndsWithCrlf(whole[..i])
    {
      if i <= |t.line| { assert whole[..i] == t.line[..i]; } else { assert whole[..i] == whole; }
    }
  }

  /** Up to the end of a size line that the parser got past. */
  lemma {:induction false} SizeLineRead(t: Tracker, data: Bytes, n: nat) returns (line: Bytes, size: nat, k: nat)
    requires t.Valid() && t.phase == ReadingSize && Feed(t, data) == Complete(n)
    requires forall i | 0 < i <= |t.line| :: !EndsWithCrlf(t.line[..i])
    ensures 0 < k < n && k <= |data| && SaysSize(line, size) && t.line + data[..k] == line + CRLF
    ensures Feed(AfterSize(t, size), data[k..]) == Complete(n - k)
    decreases |data|
  {
    hide Feed, FeedRest, FeedByte, EndsWithCrlf, SaysSize;
    FeedNothing(t);
    FeedFirst(t, data);
    if EndsWithCrlf(t.line + [data[0]]) {
      line, size := SizeLineDone(t, data[0], data[1..], n);
      k := 1;
      assert data[..1] == [data[0]];
    } else {
      SizeLineOn(t, data[0], data[1..], n);
      line, size, k := SizeLineRead(t.(line := t.line + [data[0]]), data[1..], n - 1);
      assert t.line + [data[0]] + data[1..][..k] == t.line + data[..k + 1];
      assert data[1..][k..] == data[k + 1..];
      k := k + 1;
    }
  }

  lemma ByteRead(t: Tracker, data: Bytes, n: nat) returns (t': Tracker)
    requires t.Valid() && t.phase == ReadingDataCRLF && Feed(t, data) == Complete(n)
    ensures data != [] && data[0] == CRLF[t.crlfPosition] && t'.Valid() && Feed(t', data[1..]) == Complete(n - 1)
    ensures t' == if t.crlfPosition == 1 then t.(crlfPosition := 2, phase := ReadingSize) else t.(crlfPosition := 1)
  {
    FeedNothing(t);
    FeedFirst(t, data);
    t' := if t.crlfPosition == 1 then t.(crlfPosition := 2, phase := ReadingSize) else t.(crlfPosition := 1);
  }

  lemma LineEndRead(t: Tracker, data: Bytes, n: nat)
    requires t.phase == ReadingDataCRLF && t.crlfPosition == 0 && Feed(t, data) == Complete(n)
    ensures 2 < n && 2 <= |data| && data[..2] == CRLF
    ensures Feed(t.(crlfPosition := 2, phase := ReadingSize), data[2..]) == Complete(n - 2)
  {
    hide Feed;
    var t1 := ByteRead(t, data, n);
    var t2 := ByteRead(t1, data[1..], n - 1);
    assert data[1..][1..] == data[2..];
    assert data[..2] == [data[0], data[1..][0]];
  }

  /** Chunk data that the parser got past is all there, and its line end follows it. */
  lemma DataRead(t: Tracker, data: Bytes, n: nat)
    requires t.phase == ReadingData && t.dataRemaining > 0 && Feed(t, data) == Complete(n)
    ensures var k := t.dataRemaining;
            && k + 2 < n && k + 2 <= |data| && data[k..k + 2] == CRLF
            && Feed(t.(dataRemaining := 0, crlfPosition := 2, phase := ReadingSize), data[k + 2..])
               == Complete(n - k - 2)
  {
    var k := t.dataRemaining;
    hide Feed;
    if |data| < k {
      FeedData(t, data, |data|);
      assert data[|data|..] == [];
      FeedNothing(AfterData(t, |data|));
    } else {
      FeedData(t, data, k);
      LineEndRead(AfterData(t, k), data[k..], n - k);
      assert data[k..][2..] == data[k + 2..] && data[k..][..2] == data[k..k + 2];
    }
  }

  lemma UndonePrefixes(trailers: Bytes, b: byte)
    requires forall k | 0 < k <= |trailers| :: !TrailersDone(trailers[..k])
    ensures forall k | 0 < k <= |trailers| :: !TrailersDone((trailers + [b])[..k])
    ensures (trailers + [b])[..|trailers| + 1] == trailers + [b]
  {
    hide TrailersDone;
    forall k | 0 < k <= |trailers|
      ensures !TrailersDone((trailers + [b])[..k])
    {
      assert (trailers + [b])[..k] == trailers[..k];
    }
  }

  lemma TrailerByteRead(t: Tracker, data: Bytes, n: nat)
    requires t.phase == ReadingTrailers && Feed(t, data) == Complete(n)
    ensures data != [] && |t.trailers| + 1 <= 0x10_0000
    ensures var trailers := t.trailers + [data[0]];
            if TrailersDone(trailers) then n == 1
            else n > 0 && Feed(t.(trailers := trailers), data[1..]) == Complete(n - 1)
  {
    hide TrailersDone, Feed;
    FeedNothing(t);
    FeedFirst(t, data);
    assert |t.trailers + [data[0]]| <= MAX_BUFFERED;
  }

  /** The trailer section that the parser got past: it ends at the first prefix that looks finished. */
  lemma {:induction false} TrailersRead(t: Tracker, data: Bytes, n: nat)
    requires t.phase == ReadingTrailers && Feed(t, data) == Complete(n)
    requires forall k | 0 < k <= |t.trailers| :: !TrailersDone(t.trailers[..k])
    ensures n <= |data|
    ensures var section := t.trailers + data[..n];
            && |section| <= 0x10_0000 && TrailersDone(section)
            && forall k | 0 < k < |section| :: !TrailersDone(section[..k])
    decreases |data|
  {
    hide TrailersDone, Feed;
    TrailerByteRead(t, data, n);
    UndonePrefixes(t.trailers, data[0]);
    var trailers := t.trailers + [data[0]];
    if TrailersDone(trailers) {
      assert data[..n] == [data[0]];
    } else {
      TrailersRead(t.(trailers := trailers), data[1..], n - 1);
      assert trailers + data[1..][..n - 1] == t.trailers + data[..n];
    }
  }

  lemma SectionIsTrailers(section: Bytes) returns (trailers: Bytes)
    requires |section| <= 0x10_0000 && TrailersDone(section)
    requires forall k | 0 < k < |section| :: !TrailersDone(section[..k])
    ensures AreTrailers(trailers) && section == trailers + CRLF
  {
    trailers := section[..|section| - 2];
    assert section[..|section|] == section;
    DoneWhen(section, |section|);
    assert section == trailers + CRLF;
    if |section| > 2 {
      DoneWhen(section, 2);
      forall i | 0 <= i
        ensures !BlankLineAt(trailers, i)
      {
        if i + 4 <= |trailers| { DoneWhen(section, i + 4); }
      }
    }
  }

  lemma {:induction false} AcceptedFrom(t: Tracker, data: Bytes, n: nat) returns (b: Pieces)
    requires t.Valid() && t.phase == ReadingSize && t.line == [] && t.trailers == []
    requires Feed(t, data) == Complete(n)
    ensures IsWhole(b) && n <= |data| && WholeText(b) == data[..n]
    decreases |data|
  {
    hide ChunkSize, Feed, TrailersDone, NoCrlf, AreTrailers, EndsWithCrlf;
    var line, size, k := SizeLineRead(t, data, n);
    assert t.line + data[..k] == data[..k];
    var rest := data[k..];
    if size == 0 {
      var t1 := AfterSize(t, 0);
      TrailersRead(t1, rest, n - k);
      assert t1.trailers + rest[..n - k] == rest[..n - k];
      var trailers := SectionIsTrailers(rest[..n - k]);
      b := Pieces([], line, trailers);
      LastText(b, data, k, n);
    } else {
      var t1 := AfterSize(t, size);
      DataRead(t1, rest, n - k);
      var more := rest[size + 2..];
      var b1 := AcceptedFrom(t1.(dataRemaining := 0, crlfPosition := 2, phase := ReadingSize), more, n - k - size - 2);
      var p := Piece(line, rest[..size]);
      b := b1.(chunks := [p] + b1.chunks);
      assert rest[..size + 2] == p.data + CRLF;
      FrontText(p, b1, data, k, n);
    }
  }

  lemma LastText(b: Pieces, data: Bytes, k: nat, n: nat)
    requires b.chunks == [] && k <= n <= |data| && data[..k] == b.last + CRLF && data[k..][..n - k] == b.trailers + CRLF
    ensures WholeText(b) == data[..n]
  {
    assert PiecesText(b.chunks) == [];
    assert data[..n] == data[..k] + data[k..][..n - k];
  }

  lemma FrontText(p: Piece, b: Pieces, data: Bytes, k: nat, n: nat)
    requires var j := k + |p.data| + 2;
             && j <= n <= |data| && data[..k] == p.line + CRLF && data[k..][..|p.data| + 2] == p.data + CRLF
             && data[k..][|p.data| + 2..][..n - j] == WholeText(b)
    ensures WholeText(b.(chunks := [p] + b.chunks)) == data[..n]
  {
    var j := k + |p.data| + 2;
    var chunks := [p] + b.chunks;
    assert chunks[1..] == b.chunks && PiecesText(chunks) == PieceText(p) + PiecesText(b.chunks);
    assert WholeText(b.(chunks := chunks)) == PieceText(p) + WholeText(b);
    assert data[..n] == data[..k] + data[k..][..|p.data| + 2] + data[k..][|p.data| + 2..][..n - j];
  }

  /** The parser completes with the first n bytes of a block exactly when they are a body of the
      grammar. */
  lemma AcceptsExactly(data: Bytes, n: nat)
    requires n <= |data|
    ensures Feed(START, data) == Complete(n) <==> exists b: Pieces :: IsWhole(b) && WholeText(b) == data[..n]
  {
    hide Feed, IsWhole, WholeText;
    if Feed(START, data) == Complete(n) {
      var b := AcceptedFrom(START, data, n);
    }
    if exists b: Pieces :: IsWhole(b) && WholeText(b) == data[..n] {
      var b: Pieces :| IsWhole(b) && WholeText(b) == data[..n];
      WholeIsAccepted(b, data[n..]);
      assert data == WholeText(b) + data[n..];
    }
  }

  // ---- the number on a size line -----------------------------------------------------------------

  const LOWER_HEX: Bytes := Ascii("0123456789abcdef")
  const UPPER_HEX: Bytes := Ascii("0123456789ABCDEF")

  /** A size line in pieces: white space, sign, digits with the places they stand for in the two
      alphabets, white space, and an extension with its semicolon. */
  datatype Layout = Layout(lead: Bytes, sign: Bytes, digits: Bytes, places: seq<nat>, space: Bytes, tail: Bytes)

  function LayoutText(l: Layout): Bytes {
    l.lead + (l.sign + l.digits + l.space + l.tail)
  }

  ghost predicate Hexes(digits: Bytes, places: seq<nat>) {
    && |digits| == |places|
    && forall i | 0 <= i < |digits| :: places[i] < 16 && digits[i] in {LOWER_HEX[places[i]], UPPER_HEX[places[i]]}
  }

  function Base16(places: seq<nat>): nat {
    if places == [] then 0 else 16 * Base16(places[..|places| - 1]) + places[|places| - 1]
  }

  ghost predicate Says(l: Layout, n: int) {
    && Blank(l.lead) && Blank(l.space)
    && l.sign in {[], [43], [45]}
    && l.digits != [] && Hexes(l.digits, l.places)
    && (l.tail == [] || l.tail[0] == 59)
    && n == (if l.sign == [45] then -(Base16(l.places) as int) else Base16(l.places))
    && -0x8000_0000_0000_0000 <= n <= 0x7fff_ffff_ffff_ffff
  }

  lemma HexPlaces(b: byte, d: nat)
    requires d < 16
    ensures DigitValue(b) == d <==> b in {LOWER_HEX[d], UPPER_HEX[d]}
  {
    assert LOWER_HEX[d] == (if d < 10 then (48 + d) as byte else (87 + d) as byte);
    assert UPPER_HEX[d] == (if d < 10 then (48 + d) as byte else (55 + d) as byte);
  }

  lemma {:induction false} HexNumber(digits: Bytes, places: seq<nat>)
    requires Hexes(digits, places)
    ensures AllDigits(digits, 16) && NumberOf(digits, 16) == Base16(places)
  {
    forall i | 0 <= i < |digits|
      ensures DigitValue(digits[i]) == places[i]
    {
      HexPlaces(digits[i], places[i]);
    }
    if digits != [] {
      HexNumber(digits[..|digits| - 1], places[..|places| - 1]);
    }
  }

  lemma PlacesOf(digits: Bytes) returns (places: seq<nat>)
    requires AllDigits(digits, 16)
    ensures Hexes(digits, places)
  {
    places := seq(|digits|, i requires 0 <= i < |digits| => DigitValue(digits[i]));
    forall i | 0 <= i < |digits|
      ensures digits[i] in {LOWER_HEX[places[i]], UPPER_HEX[places[i]]}
    {
      HexPlaces(digits[i], places[i]);
    }
  }

  lemma BlankIsSpace(s: Bytes)
    ensures Blank(s) <==> AllSpaces(s)
  {
  }

  /** What the white space, the number and the extension of a size line are cut to. */
  lemma NumberIsCut(lead: Bytes, number: Bytes, space: Bytes, tail: Bytes)
    requires Blank(lead) && Blank(space) && IsNumber(number) && (tail == [] || tail[0] == 59)
    ensures ChunkSize(lead + (number + space + tail)) == ParseInt(number, 16)
  {
    hide ParseInt, TrimRight, TrimLeft, Index;
    BlankIsSpace(space);
    var text := number + space + tail;
    assert text[..1][0] == number[0];
    TrimLeftOf(lead, text);
    if tail == [] {
      assert text == number + space;
      TrimRightStrips(number, space);
      NoSemicolon(number);
    } else {
      TrimLeftOf([], text);
      assert [] + text == text;
      assert text == number + space + [SEMICOLON] + tail[1..];
      ExtensionIgnored(number, space, tail[1..]);
    }
  }

  /** The number on a size line that holds one. */
  lemma LayoutParses(l: Layout, n: int)
    requires Says(l, n)
    ensures ChunkSize(LayoutText(l)) == Some(n)
  {
    hide ParseInt, NumberOf, ChunkSize, IsNumber, Blank, AllDigits;
    HexNumber(l.digits, l.places);
    SignedParses(l.sign, l.digits, n);
    NumberIsCut(l.lead, l.sign + l.digits, l.space, l.tail);
  }

  lemma SignedIsNumber(sign: Bytes, digits: Bytes)
    requires sign in {[], [43], [45]} && IsNumber(digits)
    ensures IsNumber(sign + digits)
  {
    var number := sign + digits;
    forall i | 0 <= i < |number|
      ensures !IsSpace(number[i]) && number[i] != SEMICOLON
    {
      if i >= |sign| { assert number[i] == digits[i - |sign|]; }
    }
  }

  lemma FirstIsDigit(digits: Bytes)
    requires digits != [] && AllDigits(digits, 16)
    ensures digits[0] != 43 && digits[0] != 45
  {
    assert DigitValue(digits[0]) < 16;
  }

  lemma SignedParses(sign: Bytes, digits: Bytes, n: int)
    requires sign in {[], [43], [45]} && digits != [] && AllDigits(digits, 16)
    requires n == (if sign == [45] then -(NumberOf(digits, 16) as int) else NumberOf(digits, 16))
    requires -0x8000_0000_0000_0000 <= n <= 0x7fff_ffff_ffff_ffff
    ensures ParseInt(sign + digits, 16) == Some(n) && IsNumber(sign + digits)
  {
    DigitsAreNumber(digits);
    SignedIsNumber(sign, digits);
    FirstIsDigit(digits);
    hide IsNumber, AllDigits, NumberOf;
    var number := sign + digits;
    if sign == [] {
      assert number == digits;
    } else {
      assert number[0] == sign[0] && number[1..] == digits;
    }
  }

  lemma ParsedNumber(number: Bytes, n: int) returns (sign: Bytes, digits: Bytes)
    requires ParseInt(number, 16) == Some(n)
    ensures number == sign + digits && sign in {[], [43], [45]} && digits != [] && AllDigits(digits, 16)
    ensures n == (if sign == [45] then -(NumberOf(digits, 16) as int) else NumberOf(digits, 16))
    ensures -0x8000_0000_0000_0000 <= n <= 0x7fff_ffff_ffff_ffff
  {
    if number[0] == 43 || number[0] == 45 {
      sign, digits := [number[0]], number[1..];
    } else {
      sign, digits := [], number;
    }
  }

  lemma NumberLayout(lead: Bytes, number: Bytes, space: Bytes, tail: Bytes, n: int) returns (l: Layout)
    requires Blank(lead) && Blank(space) && (tail == [] || tail[0] == 59) && ParseInt(number, 16) == Some(n)
    ensures Says(l, n) && LayoutText(l) == lead + (number + space + tail)
  {
    hide ParseInt, NumberOf, AllDigits, Blank, Hexes, Base16;
    var sign, digits := ParsedNumber(number, n);
    var places := PlacesOf(digits);
    HexNumber(digits, places);
    l := Layout(lead, sign, digits, places, space, tail);
  }

  /** The layout of a size line with an extension: `front` is what stands before the semicolon. */
  lemma ExtendedLayout(left: Bytes, front: Bytes, tail: Bytes, n: int) returns (l: Layout)
    requires Blank(left) && tail != [] && tail[0] == 59 && ParseInt(TrimSpace(front), 16) == Some(n)
    ensures Says(l, n) && LayoutText(l) == left + (front + tail)
  {
    hide ParseInt, TrimSpace, Blank, Says, LayoutText;
    var q := Trimmed(front);
    BlankSum(left, q.left);
    l := NumberLayout(left + q.left, q.core, q.right, tail, n);
    assert left + q.left + (q.core + q.right + tail) == left + (q.left + q.core + q.right + tail);
  }

  lemma ReadLayout(line: Bytes, n: int) returns (l: Layout)
    requires ChunkSize(line) == Some(n)
    ensures Says(l, n) && LayoutText(l) == line
  {
    hide ParseInt, TrimSpace, Blank, Says, LayoutText;
    var p := Trimmed(line);
    var at := Index(p.core, [SEMICOLON]);
    if at < 0 {
      l := NumberLayout(p.left, p.core, p.right, [], n);
      assert p.left + (p.core + p.right + []) == p.left + p.core + p.right;
    } else {
      assert p.core[at..at + 1] == [SEMICOLON];
      l := ExtendedLayout(p.left, p.core[..at], p.core[at..] + p.right, n);
      assert p.core == p.core[..at] + p.core[at..];
      Associated(p.core[..at], p.core[at..], p.right);
      Associated(p.left, p.core, p.right);
    }
  }

  /** What a size line says: the signed hexadecimal number of 64 bits between its white space and its
      extension, and nothing when there is none. */
  lemma SizeLineSays(line: Bytes, n: int)
    ensures ChunkSize(line) == Some(n) <==> exists l: Layout :: Says(l, n) && LayoutText(l) == line
  {
    hide ChunkSize, Says, LayoutText;
    if ChunkSize(line) == Some(n) {
      var l := ReadLayout(line, n);
    }
    if exists l: Layout :: Says(l, n) && LayoutText(l) == line {
      var l: Layout :| Says(l, n) && LayoutText(l) == line;
      LayoutParses(l, n);
    }
  }
}
