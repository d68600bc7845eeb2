/** What a request head says, told from its text (internal/httpwire/ordered_conn.go, `orderRequestHeader` and its
    helpers): header lines as names and values, and what they make of the order of the lines and of the body. */
module HeaderText {
  import opened Wrappers
  import opened ByteText
  import opened DecimalText
  import opened PaddedText
  import opened StableSort
  import opened HeaderOrder
  import opened HeaderLaws

  // ---- lines as they are written -------------------------------------------------------------------------

  /** A header line: a name, a colon, and values between commas. A line without a name has no colon, or begins
      with one. */
  datatype HeaderLine = Field(name: Bytes, values: seq<Padded>) | Nameless(text: Bytes) {
    function Text(): Bytes {
      match this
      case Field(name, values) => name + [58] + Join(Texts(values), [44])
      case Nameless(text) => text
    }

    ghost predicate Valid() {
      match this
      case Field(name, values) =>
        && name != [] && 58 !in name && values != []
        && forall i | 0 <= i < |values| :: values[i].Valid() && 44 !in values[i].Text()
      case Nameless(text) => 58 !in text || text[0] == 58
    }
  }

  function Texts(values: seq<Padded>): (texts: seq<Bytes>)
    ensures |texts| == |values| && forall i | 0 <= i < |values| :: texts[i] == values[i].Text()
  {
    if values == [] then [] else [values[0].Text()] + Texts(values[1..])
  }

  function LineTexts(lines: seq<HeaderLine>): (texts: seq<Bytes>)
    ensures |texts| == |lines| && forall i | 0 <= i < |lines| :: texts[i] == lines[i].Text()
  {
    if lines == [] then [] else [lines[0].Text()] + LineTexts(lines[1..])
  }

  // ---- one byte between others ---------------------------------------------------------------------------

  lemma OccursByte(s: Bytes, b: byte, i: nat)
    ensures OccursAt(s, [b], i) <==> i < |s| && s[i] == b
  {
    if i < |s| {
      assert s[i..i + 1] == [s[i]];
    }
  }

  /** `Index` of a byte is the first place it stands. */
  lemma FirstByte(before: Bytes, b: byte, after: Bytes)
    requires b !in before
    ensures Index(before + [b] + after, [b]) == |before|
  {
    var s := before + [b] + after;
    forall j: nat | j <= |before| ensures OccursAt(s, [b], j) <==> j == |before| {
      OccursByte(s, b, j);
      assert j < |before| ==> s[j] == before[j];
    }
    IndexIs(s, [b], |before|);
  }

  lemma NoByte(s: Bytes, b: byte)
    requires b !in s
    ensures Index(s, [b]) < 0
  {
    if Index(s, [b]) >= 0 {
      OccursByte(s, b, Index(s, [b]));
    }
  }

  lemma ByteIsThere(s: Bytes, b: byte)
    requires Index(s, [b]) < 0
    ensures b !in s
  {
    forall i: nat | i < |s| ensures s[i] != b {
      OccursByte(s, b, i);
    }
  }

  /** Splitting texts joined by a byte that none of them has gives the texts back. */
  lemma {:induction false} SplitOfJoined(pieces: seq<Bytes>, b: byte)
    requires pieces != [] && forall i | 0 <= i < |pieces| :: b !in pieces[i]
    ensures Split(Join(pieces, [b]), [b]) == pieces
  {
    if |pieces| == 1 {
      NoByte(pieces[0], b);
      assert pieces == [pieces[0]];
    } else {
      var rest := Join(pieces[1..], [b]);
      var s := pieces[0] + [b] + rest;
      FirstByte(pieces[0], b, rest);
      assert s[..|pieces[0]|] == pieces[0] && s[|pieces[0]| + 1..] == rest;
      SplitOfJoined(pieces[1..], b);
      assert pieces == [pieces[0]] + pieces[1..];
    }
  }

  // ---- every line is written so ------------------------------------------------------------------------------

  lemma {:induction false} UnpadAll(pieces: seq<Bytes>) returns (values: seq<Padded>)
    ensures Texts(values) == pieces && forall i | 0 <= i < |values| :: values[i].Valid()
  {
    if pieces == [] {
      values := [];
    } else {
      var first := Unpad(pieces[0]);
      var rest := UnpadAll(pieces[1..]);
      values := [first] + rest;
      assert Texts(values) == pieces;
    }
  }

  /** Every line is a header line of one of the two kinds. */
  lemma EveryLine(line: Bytes) returns (h: HeaderLine)
    ensures h.Valid() && h.Text() == line
  {
    var colon := Index(line, [58]);
    if colon < 0 {
      ByteIsThere(line, 58);
      h := Nameless(line);
    } else {
      OccursByte(line, 58, colon);
      if colon == 0 {
        h := Nameless(line);
      } else {
        var name, value := line[..colon], line[colon + 1..];
        forall i: nat | i < colon ensures name[i] != 58 {
          OccursByte(line, 58, i);
        }
        var pieces := Split(value, [44]);
        var values := UnpadAll(pieces);
        forall i | 0 <= i < |values| ensures 44 !in values[i].Text() {
          assert pieces[i] in pieces;
          forall j: nat | j < |pieces[i]| ensures pieces[i][j] != 44 {
            OccursByte(pieces[i], 44, j);
          }
        }
        h := Field(name, values);
        assert line == name + [58] + value;
      }
    }
  }

  // ---- names -----------------------------------------------------------------------------------------------

  lemma LineIsNamed(r: Rewriter, h: HeaderLine, name: Bytes)
    requires h.Valid()
    ensures Named(r, h.Text(), name) <==> h.Field? && r.fold(h.name) == r.fold(name)
    ensures h.Field? ==> FieldValue(h.Text()) == Join(Texts(h.values), [44])
  {
    var line := h.Text();
    match h
    case Field(n, values) =>
      var value := Join(Texts(values), [44]);
      FirstByte(n, 58, value);
      assert line[..|n|] == n && line[|n| + 1..] == value;
    case Nameless(text) =>
      if 58 in text {
        assert text == [] + [58] + text[1..];
        FirstByte([], 58, text[1..]);
      } else {
        NoByte(text, 58);
      }
  }

  /** The line has the name "Transfer-Encoding" and among its values "chunked", in any case that folds alike. */
  ghost predicate SaysChunked(r: Rewriter, h: HeaderLine) {
    && h.Field? && r.fold(h.name) == r.fold(Ascii("Transfer-Encoding"))
    && exists i :: 0 <= i < |h.values| && r.fold(h.values[i].core) == r.fold(Ascii("chunked"))
  }

  lemma ChunkedLine(r: Rewriter, h: HeaderLine)
    requires h.Valid()
    ensures NamesChunked(r, h.Text()) <==> SaysChunked(r, h)
  {
    LineIsNamed(r, h, TRANSFER_ENCODING);
    if h.Field? {
      var pieces := Texts(h.values);
      SplitOfJoined(pieces, 44);
      forall i | 0 <= i < |pieces| ensures TrimSpace(pieces[i]) == h.values[i].core {
        TrimmedCore(h.values[i]);
      }
      hide TrimSpace, Split, Join;
      if SaysChunked(r, h) {
        var i :| 0 <= i < |h.values| && r.fold(h.values[i].core) == r.fold(CHUNKED);
        assert pieces[i] in pieces;
      }
    }
  }

  // ---- numbers -----------------------------------------------------------------------------------------------

  /** A number as it may be written: a plus sign or none, zeros, and the number. */
  function NumberText(plus: bool, zeros: nat, n: nat): Bytes {
    (if plus then [43] else []) + Zeros(zeros) + Itoa(n)
  }

  lemma SignedParses(plus: bool, digits: Bytes)
    requires digits != [] && AllDigits(digits, 10)
    ensures ParseInt((if plus then [43] else []) + digits, 10) == ParseInt(digits, 10)
  {
    hide NumberOf;
    if plus {
      assert ([43] + digits)[1..] == digits;
      assert DigitValue(digits[0]) < 10;
    } else {
      assert [] + digits == digits;
    }
  }

  lemma NumberTextParses(plus: bool, zeros: nat, n: nat)
    ensures ParseInt(NumberText(plus, zeros, n), 10) == if n <= MAX_INT64 then Some(n) else None
  {
    DigitsParse(n);
    LeadingZeros(zeros, Itoa(n));
    hide Digits, NumberOf, ParseInt;
    var front, digits: Bytes := (if plus then [43] else []), Zeros(zeros) + Itoa(n);
    assert digits != [] && AllDigits(digits, 10);
    assert front + Zeros(zeros) + Itoa(n) == front + digits;
    SignedParses(plus, digits);
    DigitsParsed(digits);
  }

  lemma ParsedDigits(s: Bytes, n: nat)
    requires ParseInt(s, 10) == Some(n) && n > 0
    ensures s != [] && var digits := if s[0] == 43 then s[1..] else s;
      digits != [] && AllDigits(digits, 10) && NumberOf(digits, 10) == n
  {
    hide NumberOf;
  }

  lemma ParsedIsNumberText(s: Bytes, n: nat) returns (plus: bool, zeros: nat)
    requires ParseInt(s, 10) == Some(n) && n > 0
    ensures s == NumberText(plus, zeros, n)
  {
    ParsedDigits(s, n);
    hide NumberOf, ParseInt, AllDigits, Digits;
    plus := s[0] == 43;
    var digits := if plus then s[1..] else s;
    zeros := DigitsAre(digits);
    NumberTextIs(plus, zeros, n);
    hide NumberText;
    assert plus ==> s == [43] + digits;
    assert !plus ==> s == [] + digits;
  }

  lemma NumberTextIs(plus: bool, zeros: nat, n: nat)
    ensures NumberText(plus, zeros, n) == (if plus then [43] else []) + (Zeros(zeros) + Digits(n))
  {
    hide Digits;
    var front, middle: Bytes := (if plus then [43] else []), Zeros(zeros);
    assert front + middle + Digits(n) == front + (middle + Digits(n));
  }

  /** The value of the line is the number `n` alone, with white space around it; and `n` is 0 for everything that is no
      positive number of 64 bits. */
  ghost predicate SaysLength(h: HeaderLine, n: nat)
    requires h.Field?
  {
    if n > 0 then
      n <= MAX_INT64 && |h.values| == 1 && exists plus, zeros: nat :: h.values[0].core == NumberText(plus, zeros, n)
    else
      forall k: nat, plus, zeros: nat | 0 < k <= MAX_INT64 ::
        !(|h.values| == 1 && h.values[0].core == NumberText(plus, zeros, k))
  }

  lemma {:induction false} TrimmedIsPart(s: Bytes)
    ensures forall b | b in s && !IsSpace(b) :: b in TrimSpace(s)
  {
    var p := Unpad(s);
    TrimmedCore(p);
    forall b | b in s && !IsSpace(b) ensures b in TrimSpace(s) {
      assert b in p.left || b in p.core || b in p.right;
    }
  }

  lemma CommaIsNoNumber(h: HeaderLine)
    requires h.Valid() && h.Field? && |h.values| > 1
    ensures ParseInt(TrimSpace(Join(Texts(h.values), [44])), 10) == None
  {
    var value := Join(Texts(h.values), [44]);
    var first := Texts(h.values)[0];
    assert value[|first|] == 44;
    TrimmedIsPart(value);
    var core := TrimSpace(value);
    assert 44 in core;
    var i :| 0 <= i < |core| && core[i] == 44;
    hide TrimSpace, Join;
    assert DigitValue(44) == 99;
    var digits := if core[0] == 43 || core[0] == 45 then core[1..] else core;
    if core[0] == 43 || core[0] == 45 {
      assert digits[i - 1] == 44;
    }
    assert !AllDigits(digits, 10);
  }

  lemma LengthLine(h: HeaderLine)
    requires h.Valid() && h.Field?
    ensures SaysLength(h, match ParseInt(TrimSpace(Join(Texts(h.values), [44])), 10)
                          case Some(n) => if n > 0 then n else 0
                          case None => 0)
  {
    if |h.values| > 1 {
      CommaIsNoNumber(h);
    } else {
      TrimmedCore(h.values[0]);
      var core := h.values[0].core;
      hide TrimSpace;
      forall k: nat, plus, zeros: nat | 0 < k <= MAX_INT64 && core == NumberText(plus, zeros, k)
        ensures ParseInt(core, 10) == Some(k)
      {
        NumberTextParses(plus, zeros, k);
      }
      var parsed := ParseInt(core, 10);
      if parsed.Some? && parsed.value > 0 {
        var plus, zeros := ParsedIsNumberText(core, parsed.value);
      }
    }
  }

  // ---- heads as they are written -------------------------------------------------------------------------------

  function HeadText(request: Bytes, lines: seq<HeaderLine>): (head: Bytes)
    ensures |head| >= 4
  {
    EmitEndsWithCrlf([request] + LineTexts(lines));
    Emit([request] + LineTexts(lines)) + CRLF
  }

  /** What the lines of a head are: no line end inside, and none of the header lines empty. */
  ghost predicate ValidHead(request: Bytes, lines: seq<HeaderLine>) {
    && NoCrlf(request)
    && forall i | 0 <= i < |lines| :: lines[i].Valid() && lines[i].Text() != [] && NoCrlf(lines[i].Text())
  }

  /** Every complete head is written so. */
  lemma EveryHead(head: Bytes) returns (request: Bytes, lines: seq<HeaderLine>)
    requires IsHead(head)
    ensures ValidHead(request, lines) && HeadText(request, lines) == head
  {
    LinesAreHeadLike(head);
    var texts := HeadLines(head);
    assert NoCrlf(texts[0]);
    request := texts[0];
    lines := EveryLineOf(texts[1..]);
    assert LineTexts(lines) == texts[1..] && [request] + LineTexts(lines) == texts;
    forall i | 0 <= i < |lines| ensures lines[i].Text() != [] && NoCrlf(lines[i].Text()) {
      assert LineTexts(lines)[i] == texts[i + 1];
    }
  }

  lemma {:induction false} EveryLineOf(texts: seq<Bytes>) returns (lines: seq<HeaderLine>)
    ensures LineTexts(lines) == texts && forall i | 0 <= i < |lines| :: lines[i].Valid()
  {
    if texts == [] {
      lines := [];
    } else {
      var first := EveryLine(texts[0]);
      var rest := EveryLineOf(texts[1..]);
      lines := [first] + rest;
      assert LineTexts(lines) == texts;
    }
  }

  lemma HeadReads(request: Bytes, lines: seq<HeaderLine>)
    requires ValidHead(request, lines)
    ensures IsHead(HeadText(request, lines))
    ensures HeadLines(HeadText(request, lines)) == [request] + LineTexts(lines)
  {
    var texts := [request] + LineTexts(lines);
    forall i | 1 <= i < |texts| ensures texts[i] != [] && NoCrlf(texts[i]) {
      assert texts[i] == lines[i - 1].Text();
    }
    assert HeadLike(texts);
    EmittedIsHead(texts);
    LinesOfEmitted(texts);
  }

  lemma {:induction false} ChunkedLines(r: Rewriter, lines: seq<HeaderLine>)
    requires forall i | 0 <= i < |lines| :: lines[i].Valid()
    ensures UsesChunked(r, LineTexts(lines)) <==> exists i :: 0 <= i < |lines| && SaysChunked(r, lines[i])
  {
    hide NamesChunked, SaysChunked;
    var texts := LineTexts(lines);
    forall i | 0 <= i < |lines| ensures NamesChunked(r, texts[i]) <==> SaysChunked(r, lines[i]) {
      ChunkedLine(r, lines[i]);
    }
    if i :| 0 <= i < |lines| && SaysChunked(r, lines[i]) {
      assert texts[i] in texts;
    }
  }

  lemma LengthLines(r: Rewriter, lines: seq<HeaderLine>, i: nat)
    requires i <= |lines| && forall j | 0 <= j < |lines| :: lines[j].Valid()
    requires forall j | 0 <= j < i :: !IsField(r, lines[j], Ascii("Content-Length"))
    requires i < |lines| ==> IsField(r, lines[i], Ascii("Content-Length"))
    ensures if i < |lines| then SaysLength(lines[i], ContentLength(r, LineTexts(lines)))
            else ContentLength(r, LineTexts(lines)) == 0
  {
    var texts := LineTexts(lines);
    forall j | 0 <= j < |lines|
      ensures Named(r, texts[j], CONTENT_LENGTH) <==> IsField(r, lines[j], Ascii("Content-Length"))
    {
      LineIsNamed(r, lines[j], CONTENT_LENGTH);
    }
    hide Named, SaysLength, ContentLength;
    ContentLengthIs(r, texts, i);
    if i < |lines| {
      LineIsNamed(r, lines[i], CONTENT_LENGTH);
      LengthLine(lines[i]);
    }
  }

  ghost predicate IsField(r: Rewriter, h: HeaderLine, name: Bytes) {
    h.Field? && r.fold(h.name) == r.fold(name)
  }

  lemma FramingOfLines(r: Rewriter, request: Bytes, lines: seq<HeaderLine>)
    requires ValidHead(request, lines)
    ensures OrderHead(r, HeadText(request, lines)).contentLength == ContentLength(r, LineTexts(lines))
    ensures OrderHead(r, HeadText(request, lines)).chunked == UsesChunked(r, LineTexts(lines))
  {
    HeadReads(request, lines);
    var texts := LineTexts(lines);
    assert ([request] + texts)[1..] == texts;
    hide ContentLength, UsesChunked, HeadText, HeadLines, Desired, Emit, Sorted;
  }

  /** The first of the lines that has this name. */
  ghost predicate FirstField(r: Rewriter, lines: seq<HeaderLine>, name: Bytes, i: nat) {
    i < |lines| && IsField(r, lines[i], name) && forall k | 0 <= k < i :: !IsField(r, lines[k], name)
  }

  /** A head has a chunked body if and only if some Transfer-Encoding of its text names chunked among its values. */
  lemma ChunkedOfText(r: Rewriter, request: Bytes, lines: seq<HeaderLine>)
    requires ValidHead(request, lines)
    ensures OrderHead(r, HeadText(request, lines)).chunked <==> exists i :: 0 <= i < |lines| && SaysChunked(r, lines[i])
  {
    FramingOfLines(r, request, lines);
    ChunkedLines(r, lines);
    hide *;
  }

  /** The length of the body is the number that the first Content-Length of the text is, and 0 if there is none. */
  lemma LengthOfText(r: Rewriter, request: Bytes, lines: seq<HeaderLine>, i: nat)
    requires ValidHead(request, lines)
    requires if i < |lines| then FirstField(r, lines, Ascii("Content-Length"), i)
             else forall k | 0 <= k < |lines| :: !IsField(r, lines[k], Ascii("Content-Length"))
    ensures if i < |lines| then SaysLength(lines[i], OrderHead(r, HeadText(request, lines)).contentLength)
            else OrderHead(r, HeadText(request, lines)).contentLength == 0
  {
    FramingOfLines(r, request, lines);
    hide OrderHead, ContentLength, SaysLength, HeadText, IsField, Ascii;
    LengthLines(r, lines, if i < |lines| then i else |lines|);
  }

  lemma OneLength(h: HeaderLine, n: nat, n': nat)
    requires h.Field? && SaysLength(h, n) && SaysLength(h, n')
    ensures n == n'
  {
    hide NumberText;
    if n > 0 && n' > 0 {
      var plus, zeros: nat :| h.values[0].core == NumberText(plus, zeros, n);
      var plus', zeros': nat :| h.values[0].core == NumberText(plus', zeros', n');
      NumberTextParses(plus, zeros, n);
      NumberTextParses(plus', zeros', n');
    }
  }

  /** How long the body is that a head without chunked asks for. */
  ghost predicate SaysBody(r: Rewriter, lines: seq<HeaderLine>, n: nat) {
    if exists i: nat :: FirstField(r, lines, Ascii("Content-Length"), i)
    then exists i: nat :: FirstField(r, lines, Ascii("Content-Length"), i) && SaysLength(lines[i], n)
    else n == 0
  }

  lemma {:induction false} FindFirst(r: Rewriter, lines: seq<HeaderLine>, name: Bytes, from: nat) returns (i: nat)
    requires from <= |lines| && forall k | 0 <= k < from :: !IsField(r, lines[k], name)
    ensures from <= i <= |lines| && forall k | 0 <= k < i :: !IsField(r, lines[k], name)
    ensures i < |lines| ==> FirstField(r, lines, name, i)
    decreases |lines| - from
  {
    if from < |lines| && !IsField(r, lines[from], name) {
      i := FindFirst(r, lines, name, from + 1);
    } else {
      i := from;
    }
  }

  lemma NoFirstField(r: Rewriter, lines: seq<HeaderLine>, name: Bytes)
    requires forall i: nat :: !FirstField(r, lines, name, i)
    ensures forall k | 0 <= k < |lines| :: !IsField(r, lines[k], name)
  {
    hide IsField;
    var i := FindFirst(r, lines, name, 0);
  }

  /** A body of that length is the body the rewriter waits for. */
  lemma BodyOfText(r: Rewriter, request: Bytes, lines: seq<HeaderLine>, n: nat)
    requires ValidHead(request, lines) && SaysBody(r, lines, n)
    ensures OrderHead(r, HeadText(request, lines)).contentLength == n
  {
    hide OrderHead, HeadText, SaysLength, Ascii, ValidHead;
    if i: nat :| FirstField(r, lines, Ascii("Content-Length"), i) && SaysLength(lines[i], n) {
      LengthOfText(r, request, lines, i);
      hide FirstField;
      OneLength(lines[i], n, OrderHead(r, HeadText(request, lines)).contentLength);
    } else {
      hide FirstField, IsField;
      NoFirstField(r, lines, Ascii("Content-Length"));
      LengthOfText(r, request, lines, |lines|);
    }
  }

  // ---- the order, from the text ----------------------------------------------------------------------------------

  /** The place of the first desired name that is the name of the line, past the end if there is none. */
  ghost predicate IsPlace(r: Rewriter, desired: seq<Bytes>, h: HeaderLine, k: nat) {
    if h.Nameless? then k == |desired|
    else
      && k <= |desired| && (k < |desired| ==> r.fold(desired[k]) == r.fold(h.name))
      && forall i | 0 <= i < k :: r.fold(desired[i]) != r.fold(h.name)
  }

  lemma OnePlace(r: Rewriter, desired: seq<Bytes>, h: HeaderLine, k: nat, n: nat)
    requires IsPlace(r, desired, h, k) && IsPlace(r, desired, h, n)
    ensures k == n
  {
  }

  lemma RankIsPlace(r: Rewriter, desired: seq<Bytes>, h: HeaderLine, k: nat)
    requires h.Valid() && IsPlace(r, desired, h, k)
    ensures Rank(r, desired, h.Text()) == k
  {
    forall i | 0 <= i < |desired|
      ensures Named(r, h.Text(), desired[i]) <==> IsField(r, h, desired[i])
    {
      LineIsNamed(r, h, desired[i]);
    }
    hide Rank, Named;
    assert IsPlace(r, desired, h, Rank(r, desired, h.Text()));
    OnePlace(r, desired, h, k, Rank(r, desired, h.Text()));
  }

  lemma {:induction false} SameRanks<T(!new)>(a: T -> nat, b: T -> nat, items: seq<T>, k: nat)
    requires forall x | x in items :: a(x) == b(x)
    ensures OfRank(a, items, k) == OfRank(b, items, k)
  {
    if items != [] {
      SameRanks(a, b, items[..|items| - 1], k);
    }
  }

  lemma {:induction false} SameOrder<T(!new)>(a: T -> nat, b: T -> nat, items: seq<T>, d: nat)
    requires forall x | x in items :: a(x) == b(x)
    ensures ByRank(a, items, d) == ByRank(b, items, d)
  {
    if d > 0 {
      SameOrder(a, b, items, d - 1);
      SameRanks(a, b, items, d - 1);
    }
  }

  /** Where the next byte of a kind stands. */
  lemma NextByte(s: Bytes, b: byte, from: nat, n: nat)
    requires from <= n < |s| && s[n] == b && forall j | from <= j < n :: s[j] != b
    ensures IndexFrom(s, [b], from) == n
  {
    forall j: nat ensures OccursAt(s, [b], j) <==> j < |s| && s[j] == b {
      OccursByte(s, b, j);
    }
    hide OccursAt;
  }

  lemma SpaceAfter(s: Bytes, from: nat, t: Bytes)
    requires from + |t| < |s| && s[from..from + |t|] == t && s[from + |t|] == 32 && 32 !in t
    ensures IndexFrom(s, [SPACE], from) == from + |t|
  {
    forall j | from <= j < from + |t| ensures s[j] != 32 {
      assert s[j] == t[j - from];
    }
    NextByte(s, 32, from, from + |t|);
  }

  lemma InFront(a: Bytes, b: Bytes, i: nat, n: nat)
    requires i <= n <= |a|
    ensures (a + b)[i..n] == a[i..n] && (n < |a| ==> (a + b)[n] == a[n])
  {
  }

  lemma RequestParts(m: Bytes, t: Bytes, v: Bytes)
    ensures var request := m + [32] + t + [32] + v;
      && |m| + 1 + |t| < |request| && request[0..|m|] == m && request[|m|] == 32
      && request[|m| + 1..|m| + 1 + |t|] == t && request[|m| + 1 + |t|] == 32
  {
    var a, b := m + [32], m + [32] + t;
    InFront(m, [32], 0, |m|);
    InFront(a, t, 0, |m|);
    InFront(b, [32], 0, |m|);
    InFront(b + [32], v, 0, |m|);
    InFront(b, [32], |m| + 1, |b|);
    InFront(b + [32], v, |m| + 1, |b|);
    assert b[|m| + 1..|b|] == t;
  }

  lemma SpacesOf(m: Bytes, t: Bytes, v: Bytes)
    requires 32 !in m && 32 !in t
    ensures var request := m + [32] + t + [32] + v;
      && IndexFrom(request, [SPACE], 0) == |m| && IndexFrom(request, [SPACE], |m| + 1) == |m| + 1 + |t|
      && request[..|m|] == m && request[|m| + 1..|m| + 1 + |t|] == t
  {
    hide *;
    RequestParts(m, t, v);
    SpaceAfter(m + [32] + t + [32] + v, 0, m);
    SpaceAfter(m + [32] + t + [32] + v, |m| + 1, t);
  }

  lemma DesiredBy(r: Rewriter, m: Bytes, t: Bytes, v: Bytes)
    requires 32 !in m && 32 !in t
    ensures Desired(r, m + [32] + t + [32] + v) == r.order(m, t)
  {
    SpacesOf(m, t, v);
    hide IndexFrom;
  }

  lemma OrderedText(r: Rewriter, request: Bytes, lines: seq<HeaderLine>)
    requires ValidHead(request, lines)
    ensures OrderHead(r, HeadText(request, lines)).bytes ==
            Emit([request] + Sorted(r, Desired(r, request), LineTexts(lines))) + CRLF
  {
    HeadReads(request, lines);
    OrderedLines(r, HeadText(request, lines));
    hide *;
    assert ([request] + LineTexts(lines))[0] == request && ([request] + LineTexts(lines))[1..] == LineTexts(lines);
  }

  lemma SortedByPlace(r: Rewriter, desired: seq<Bytes>, lines: seq<HeaderLine>, place: Bytes -> nat)
    requires forall i | 0 <= i < |lines| :: lines[i].Valid() && IsPlace(r, desired, lines[i], place(lines[i].Text()))
    ensures Sorted(r, desired, LineTexts(lines)) == ByRank(place, LineTexts(lines), |desired| + 1)
  {
    hide Rank, ByRank, IsPlace;
    var texts := LineTexts(lines);
    forall x | x in texts ensures RankIn(r, desired)(x) == place(x) {
      var i :| 0 <= i < |texts| && texts[i] == x;
      RankIsPlace(r, desired, lines[i], place(lines[i].Text()));
    }
    SameOrder(RankIn(r, desired), place, texts, |desired| + 1);
  }

  /** The header lines of every head with a method and a request target come out in the order of the names that the
      caller wants for that method and target, lines of one name and lines without a wanted name as they stood; `place`
      is any function that says for each line where its name stands among the wanted ones. */
  lemma OrderOfText(r: Rewriter, m: Bytes, t: Bytes, v: Bytes, lines: seq<HeaderLine>, place: Bytes -> nat)
    requires 32 !in m && 32 !in t && ValidHead(m + [32] + t + [32] + v, lines)
    requires forall i | 0 <= i < |lines| :: IsPlace(r, r.order(m, t), lines[i], place(lines[i].Text()))
    ensures var request := m + [32] + t + [32] + v;
      OrderHead(r, HeadText(request, lines)).bytes ==
      Emit([request] + ByRank(place, LineTexts(lines), |r.order(m, t)| + 1)) + CRLF
  {
    var request := m + [32] + t + [32] + v;
    assert forall i | 0 <= i < |lines| :: lines[i].Valid();
    hide *;
    OrderedText(r, request, lines);
    DesiredBy(r, m, t, v);
    SortedByPlace(r, r.order(m, t), lines, place);
  }

  /** A head whose first line has fewer than two spaces goes out as it came. */
  lemma OddRequestStays(r: Rewriter, m: Bytes, t: Bytes, lines: seq<HeaderLine>)
    requires 32 !in m && 32 !in t
    ensures ValidHead(m, lines) ==> OrderHead(r, HeadText(m, lines)).bytes == HeadText(m, lines)
    ensures ValidHead(m + [32] + t, lines) ==>
              OrderHead(r, HeadText(m + [32] + t, lines)).bytes == HeadText(m + [32] + t, lines)
  {
    var request := m + [32] + t;
    forall j: nat ensures OccursAt(m, [SPACE], j) == false && (OccursAt(request, [SPACE], j) <==> j == |m|) {
      OccursByte(m, 32, j);
      OccursByte(request, 32, j);
      if |m| < j < |request| {
        assert request[j] == t[j - |m| - 1];
      }
    }
    if ValidHead(m, lines) {
      HeadReads(m, lines);
    }
    if ValidHead(request, lines) {
      HeadReads(request, lines);
    }
  }
}
