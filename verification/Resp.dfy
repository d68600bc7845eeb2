/** The RESP reader of the queue endpoint (internal/api/redis_queue_protocol.go), what the writers beside it write
    (their source's form is in `RespWriter`), and the encoder and bulk reader of the other end
    (internal/home/certificate.go).

    The readers are functions from the bytes not yet read to a value and the bytes left; the methods are
    the source's form over a buffered stream. */
module Resp {
  import opened Wrappers
  import opened ByteText

  datatype Parsed<+T> = Ok(value: T, rest: Bytes) | Eof | ProtocolError

  const STAR: byte := 42
  const DOLLAR: byte := 36
  const PLUS: byte := 43

  // ---- numbers -----------------------------------------------------------------------------------

  function Atoi(s: Bytes): Option<int> {
    ParseInt(s, 10)
  }

  lemma AtoiOfItoa(n: int)
    requires -MAX_INT64 <= n <= MAX_INT64
    ensures Atoi(Itoa(n)) == Some(n)
    ensures forall i | 0 <= i < |Itoa(n)| :: Itoa(n)[i] != 10 && Itoa(n)[i] != 13 && Itoa(n)[i] != 32
    ensures Itoa(n) != []
  {
    var size := if n < 0 then -n else n;
    DigitsParse(size);
    hide Digits, NumberOf, AllDigits;
    if n < 0 {
      assert Itoa(n)[1..] == Digits(size) && Itoa(n)[0] == MINUS;
    } else {
      assert Itoa(n) == Digits(size) && Digits(size)[0] != MINUS;
    }
  }

  // ---- the readers -------------------------------------------------------------------------------

  function TrimSuffix(s: Bytes, b: byte): Bytes {
    if s != [] && s[|s| - 1] == b then s[..|s| - 1] else s
  }

  /** `readRESPLine`: up to the next LF, without it and without one CR before it. */
  function ReadLine(s: Bytes): Parsed<Bytes> {
    var i := Index(s, [LF]);
    if i < 0 then Eof else Ok(TrimSuffix(s[..i], CR), s[i + 1..])
  }

  /** `readRESPBulkString`: a negative length reads as the empty string. */
  function ReadBulkString(s: Bytes): Parsed<Bytes> {
    match ReadLine(s)
    case Eof => Eof
    case ProtocolError => ProtocolError
    case Ok(line, rest) =>
      match Atoi(line)
      case None => ProtocolError
      case Some(length) =>
        if length < 0 then Ok([], rest)
        else if |rest| < length + 2 then Eof
        else if rest[length] != CR || rest[length + 1] != LF then ProtocolError
        else Ok(rest[..length], rest[length + 2..])
  }

  function ReadString(s: Bytes): Parsed<Bytes> {
    if s == [] then Eof
    else if s[0] == DOLLAR then ReadBulkString(s[1..])
    else if s[0] == PLUS || s[0] == COLON then ReadLine(s[1..])
    else ProtocolError
  }

  function ReadStrings(s: Bytes, count: nat): Parsed<seq<Bytes>>
    decreases count
  {
    if count == 0 then Ok([], s)
    else
      match ReadString(s)
      case Eof => Eof
      case ProtocolError => ProtocolError
      case Ok(first, rest) =>
        match ReadStrings(rest, count - 1)
        case Eof => Eof
        case ProtocolError => ProtocolError
        case Ok(more, rest') => Ok([first] + more, rest')
  }

  function ReadArray(s: Bytes): Parsed<seq<Bytes>> {
    if s == [] then Eof
    else if s[0] != STAR then ProtocolError
    else
      match ReadLine(s[1..])
      case Eof => Eof
      case ProtocolError => ProtocolError
      case Ok(line, rest) =>
        match Atoi(line)
        case None => ProtocolError
        case Some(count) => if count < 0 then ProtocolError else ReadStrings(rest, count)
  }

  /** `readRESPBulk` of the certificate client, which does not look at the two bytes after the payload. */
  function ReadBulkReply(s: Bytes): Parsed<Bytes> {
    if s == [] then Eof
    else if s[0] != DOLLAR then ProtocolError
    else
      var i := Index(s[1..], [LF]);
      if i < 0 then Eof
      else
        match Atoi(TrimSpace(s[1..][..i + 1]))
        case None => ProtocolError
        case Some(size) =>
          var rest := s[1..][i + 1..];
          if size < 0 then ProtocolError
          else if |rest| < size + 2 then Eof
          else Ok(rest[..size], rest[size + 2..])
  }

  // ---- the writers -------------------------------------------------------------------------------

  function Line(prefix: byte, text: Bytes): Bytes {
    [prefix] + text + CRLF
  }

  function Bulk(payload: Bytes): Bytes {
    Line(DOLLAR, Itoa(|payload|)) + payload + CRLF
  }

  /** `writeRedisBulkString`: no payload is the nil bulk string. */
  function BulkOrNil(payload: Option<Bytes>): Bytes {
    match payload
    case None => Line(DOLLAR, Itoa(-1))
    case Some(p) => Bulk(p)
  }

  function Bulks(items: seq<Bytes>): Bytes {
    if items == [] then [] else Bulks(items[..|items| - 1]) + Bulk(items[|items| - 1])
  }

  function EncodeArray(items: seq<Bytes>): Bytes {
    Line(STAR, Itoa(|items|)) + Bulks(items)
  }

  // ---- the source's form -------------------------------------------------------------------------

  /** A buffered stream: the bytes still to be read. */
  class Reader {
    var rest: Bytes

    constructor (input: Bytes)
      ensures rest == input
    {
      rest := input;
    }

    method Line() returns (r: Parsed<Bytes>)
      modifies this
      ensures r == ReadLine(old(rest)) && (r.Ok? ==> rest == r.rest)
    {
      var i := Index(rest, [LF]);
      if i < 0 {
        rest := [];
        return Eof;
      }
      var line := rest[..i];
      rest := rest[i + 1..];
      r := Ok(TrimSuffix(line, CR), rest);
    }

    method BulkString() returns (r: Parsed<Bytes>)
      modifies this
      ensures r == ReadBulkString(old(rest)) && (r.Ok? ==> rest == r.rest)
    {
      var line := Line();
      if !line.Ok? {
        return Eof;
      }
      var length := Atoi(line.value);
      if length == None {
        return ProtocolError;
      }
      if length.value < 0 {
        return Ok([], rest);
      }
      var n := length.value;
      if |rest| < n + 2 {
        rest := [];
        return Eof;
      }
      var buf := rest[..n + 2];
      rest := rest[n + 2..];
      if buf[n] != CR || buf[n + 1] != LF {
        return ProtocolError;
      }
      assert buf[..n] == old(rest)[|old(rest)| - |line.rest|..][..n];
      r := Ok(buf[..n], rest);
    }

    method String() returns (r: Parsed<Bytes>)
      modifies this
      ensures r == ReadString(old(rest)) && (r.Ok? ==> rest == r.rest)
    {
      if rest == [] {
        return Eof;
      }
      var prefix := rest[0];
      rest := rest[1..];
      if prefix == DOLLAR {
        r := BulkString();
      } else if prefix == PLUS || prefix == COLON {
        r := Line();
      } else {
        r := ProtocolError;
      }
    }

    /** `readRESPArray`. */
    method Array() returns (r: Parsed<seq<Bytes>>)
      modifies this
      ensures r == ReadArray(old(rest)) && (r.Ok? ==> rest == r.rest)
    {
      if rest == [] {
        return Eof;
      }
      var prefix := rest[0];
      rest := rest[1..];
      if prefix != STAR {
        return ProtocolError;
      }
      var line := Line();
      if !line.Ok? {
        return Eof;
      }
      var count := Atoi(line.value);
      if count == None || count.value < 0 {
        return ProtocolError;
      }
      r := Strings(count.value);
    }

    /** The loop of `readRESPArray`. */
    method Strings(count: nat) returns (r: Parsed<seq<Bytes>>)
      modifies this
      ensures r == ReadStrings(old(rest), count) && (r.Ok? ==> rest == r.rest)
    {
      var args := [];
      BehindNothing(ReadStrings(rest, count));
      hide ReadString;
      for i := 0 to count
        invariant ReadStrings(old(rest), count) == Behind(args, ReadStrings(rest, count - i))
      {
        ghost var s := rest;
        var value := String();
        if !value.Ok? {
          return if value.Eof? then Eof else ProtocolError;
        }
        BehindNext(args, s, value.value, rest, count - i);
        args := args + [value.value];
      }
      r := Ok(args, rest);
      assert args + [] == args;
    }
  }

  lemma BehindNext(done: seq<Bytes>, s: Bytes, x: Bytes, rest: Bytes, n: nat)
    requires n > 0 && ReadString(s) == Ok(x, rest)
    ensures Behind(done, ReadStrings(s, n)) == Behind(done + [x], ReadStrings(rest, n - 1))
  {
    hide ReadString;
    BehindSnoc(done, x, ReadStrings(rest, n - 1));
  }

  /** The outcome of reading with some values already read. */
  function Behind(done: seq<Bytes>, r: Parsed<seq<Bytes>>): Parsed<seq<Bytes>> {
    if r.Ok? then Ok(done + r.value, r.rest) else r
  }

  lemma BehindNothing(r: Parsed<seq<Bytes>>)
    ensures Behind([], r) == r
  {
    if r.Ok? { assert [] + r.value == r.value; }
  }

  lemma BehindSnoc(done: seq<Bytes>, x: Bytes, r: Parsed<seq<Bytes>>)
    ensures Behind(done, Behind([x], r)) == Behind(done + [x], r)
  {
    if r.Ok? { assert done + ([x] + r.value) == (done + [x]) + r.value; }
  }

  /** `encodeRESPArray`. */
  method EncodeRESPArray(args: seq<Bytes>) returns (buf: Bytes)
    ensures buf == EncodeArray(args)
  {
    hide Itoa, Bulks;
    buf := [STAR] + Itoa(|args|) + CRLF;
    ghost var head := buf;
    BulksNone(args, head);
    for i := 0 to |args|
      invariant buf == head + Bulks(args[..i])
    {
      BulksNext(args, i, head);
      buf := buf + ([DOLLAR] + Itoa(|args[i]|) + CRLF + args[i] + CRLF);
    }
    assert args[..|args|] == args;
  }

  lemma BulksNone(items: seq<Bytes>, head: Bytes)
    ensures head == head + Bulks(items[..0])
  {
  }

  /** One item more. */
  lemma BulksNext(items: seq<Bytes>, i: nat, head: Bytes)
    requires i < |items|
    ensures head + Bulks(items[..i + 1])
         == head + Bulks(items[..i]) + ([DOLLAR] + Itoa(|items[i]|) + CRLF + items[i] + CRLF)
  {
    assert items[..i + 1][..i] == items[..i];
    assert Bulks(items[..i + 1]) == Bulks(items[..i]) + Bulk(items[i]);
    hide Bulks, Itoa;
    assert head + (Bulks(items[..i]) + Bulk(items[i])) == head + Bulks(items[..i]) + Bulk(items[i]);
  }

  // ---- round trips -------------------------------------------------------------------------------

  lemma LineReads(text: Bytes, rest: Bytes)
    requires forall i | 0 <= i < |text| :: text[i] != 10 && text[i] != 13
    ensures ReadLine(text + CRLF + rest) == Ok(text, rest)
  {
    var s, n := text + CRLF + rest, |text|;
    assert s[n + 1..n + 2] == [LF];
    forall j: nat | j < n + 1
      ensures !OccursAt(s, [LF], j)
    {
      assert s[j..j + 1][0] == s[j] != LF;
    }
    IndexIs(s, [LF], n + 1);
    assert s[..n + 1] == text + [CR];
  }

  lemma BulkReads(payload: Bytes, rest: Bytes)
    requires |payload| <= MAX_INT64
    ensures ReadString(Bulk(payload) + rest) == Ok(payload, rest)
  {
    hide ReadLine, ParseInt, Itoa;
    var text, tail := Itoa(|payload|), payload + CRLF + rest;
    AtoiOfItoa(|payload|);
    LineReads(text, tail);
    assert (Bulk(payload) + rest)[1..] == text + CRLF + tail;
    assert tail[..|payload|] == payload && tail[|payload| + 2..] == rest;
  }

  lemma {:induction false} BulksFront(items: seq<Bytes>)
    requires items != []
    ensures Bulks(items) == Bulk(items[0]) + Bulks(items[1..])
    decreases |items|
  {
    hide Bulk;
    if |items| == 1 {
      assert items[1..] == [] && items[..0] == [];
    } else {
      var front, last := items[..|items| - 1], items[|items| - 1];
      BulksFront(front);
      assert front[1..] == items[1..][..|items| - 2] && front[0] == items[0];
      assert Bulks(items) == Bulks(front) + Bulk(last);
      assert Bulks(items[1..]) == Bulks(front[1..]) + Bulk(last);
      Associated(Bulk(items[0]), Bulks(front[1..]), Bulk(last));
    }
  }

  lemma {:induction false} BulksRead(items: seq<Bytes>, rest: Bytes)
    requires forall i | 0 <= i < |items| :: |items[i]| <= MAX_INT64
    ensures ReadStrings(Bulks(items) + rest, |items|) == Ok(items, rest)
    decreases |items|
  {
    hide ReadString, Bulk;
    if items == [] {
      assert [] + rest == rest;
    } else {
      BulksFront(items);
      BulkReads(items[0], Bulks(items[1..]) + rest);
      assert Bulks(items) + rest == Bulk(items[0]) + (Bulks(items[1..]) + rest);
      BulksRead(items[1..], rest);
      assert [items[0]] + items[1..] == items;
    }
  }

  /** A slice length always fits an int64. */
  ghost predicate Encodable(items: seq<Bytes>) {
    |items| <= MAX_INT64 && forall i | 0 <= i < |items| :: |items[i]| <= MAX_INT64
  }

  lemma HeaderReads(count: nat, tail: Bytes)
    requires count <= MAX_INT64
    ensures ReadArray(Line(STAR, Itoa(count)) + tail) == ReadStrings(tail, count)
  {
    hide ReadStrings, Itoa, ReadLine, ParseInt;
    AtoiOfItoa(count);
    LineReads(Itoa(count), tail);
    assert (Line(STAR, Itoa(count)) + tail)[1..] == Itoa(count) + CRLF + tail;
  }

  /** Reading what the encoder wrote gives back the arguments, whatever bytes they hold, and leaves exactly
      what followed. */
  lemma ArrayRoundTrip(items: seq<Bytes>, rest: Bytes)
    requires Encodable(items)
    ensures ReadArray(EncodeArray(items) + rest) == Ok(items, rest)
  {
    HeaderReads(|items|, Bulks(items) + rest);
    assert EncodeArray(items) + rest == Line(STAR, Itoa(|items|)) + (Bulks(items) + rest);
    BulksRead(items, rest);
  }

  function EncodeAll(commands: seq<seq<Bytes>>): Bytes {
    if commands == [] then [] else EncodeArray(commands[0]) + EncodeAll(commands[1..])
  }

  function ReadArrays(s: Bytes, n: nat): Parsed<seq<seq<Bytes>>>
    decreases n
  {
    if n == 0 then Ok([], s)
    else
      match ReadArray(s)
      case Eof => Eof
      case ProtocolError => ProtocolError
      case Ok(first, rest) =>
        match ReadArrays(rest, n - 1)
        case Eof => Eof
        case ProtocolError => ProtocolError
        case Ok(more, rest') => Ok([first] + more, rest')
  }

  /** Commands written one after another are read back one after another. */
  lemma {:induction false} CommandsRoundTrip(commands: seq<seq<Bytes>>, rest: Bytes)
    requires forall i | 0 <= i < |commands| :: Encodable(commands[i])
    ensures ReadArrays(EncodeAll(commands) + rest, |commands|) == Ok(commands, rest)
    decreases |commands|
  {
    hide ReadArray, EncodeArray;
    if commands == [] {
      assert [] + rest == rest;
    } else {
      ArrayRoundTrip(commands[0], EncodeAll(commands[1..]) + rest);
      assert EncodeAll(commands) + rest == EncodeArray(commands[0]) + (EncodeAll(commands[1..]) + rest);
      CommandsRoundTrip(commands[1..], rest);
      assert [commands[0]] + commands[1..] == commands;
    }
  }

  // ---- pub/sub frames ----------------------------------------------------------------------------

  /** `writeRedisPubSubSubscribe` and `writeRedisPubSubUnsubscribe`: the kind, the channel, an integer. */
  function SubscribeFrame(kind: Bytes, channel: Bytes, count: int): Bytes {
    Line(STAR, Itoa(3)) + Bulk(kind) + Bulk(channel) + Line(COLON, Itoa(count))
  }

  function MessageFrame(kind: Bytes, channel: Bytes, payload: Option<Bytes>): Bytes {
    Line(STAR, Itoa(3)) + Bulk(kind) + Bulk(channel) + BulkOrNil(payload)
  }

  lemma ReadsOneMore(s: Bytes, first: Bytes, tail: Bytes, n: nat, more: seq<Bytes>, rest: Bytes)
    requires ReadString(s) == Ok(first, tail) && ReadStrings(tail, n) == Ok(more, rest)
    ensures ReadStrings(s, n + 1) == Ok([first] + more, rest)
  {
    hide ReadString;
  }

  lemma ThreeStrings(s0: Bytes, s1: Bytes, s2: Bytes, a: Bytes, b: Bytes, c: Bytes, rest: Bytes)
    requires ReadString(s0) == Ok(a, s1) && ReadString(s1) == Ok(b, s2) && ReadString(s2) == Ok(c, rest)
    ensures ReadStrings(s0, 3) == Ok([a, b, c], rest)
  {
    assert ReadStrings(rest, 0) == Ok([], rest);
    hide ReadString, ReadStrings;
    ReadsOneMore(s2, c, rest, 0, [], rest);
    ReadsOneMore(s1, b, s2, 1, [c] + [], rest);
    ReadsOneMore(s0, a, s1, 2, [b] + ([c] + []), rest);
    assert [a] + ([b] + ([c] + [])) == [a, b, c];
  }

  lemma ThreeRead(a: Bytes, b: Bytes, last: Bytes, value: Bytes, rest: Bytes)
    requires |a| <= MAX_INT64 && |b| <= MAX_INT64 && ReadString(last + rest) == Ok(value, rest)
    ensures ReadArray(Line(STAR, Itoa(3)) + Bulk(a) + Bulk(b) + last + rest) == Ok([a, b, value], rest)
  {
    hide ReadString, ReadStrings, ReadArray, Bulk, Line, Itoa;
    var tail2 := last + rest;
    var tail1 := Bulk(b) + tail2;
    var tail0 := Bulk(a) + tail1;
    BulkReads(a, tail1);
    BulkReads(b, tail2);
    ThreeStrings(tail0, tail1, tail2, a, b, value, rest);
    HeaderReads(3, tail0);
    FiveParts(Line(STAR, Itoa(3)), Bulk(a), Bulk(b), last, rest);
  }

  lemma FiveParts(a: Bytes, b: Bytes, c: Bytes, d: Bytes, e: Bytes)
    ensures a + b + c + d + e == a + (b + (c + (d + e)))
  {
  }

  lemma SubscribeParses(kind: Bytes, channel: Bytes, count: int, rest: Bytes)
    requires |kind| <= MAX_INT64 && |channel| <= MAX_INT64 && -MAX_INT64 <= count <= MAX_INT64
    ensures ReadArray(SubscribeFrame(kind, channel, count) + rest) == Ok([kind, channel, Itoa(count)], rest)
  {
    hide ReadArray, Itoa, ReadLine, Bulk, ParseInt;
    var last := Line(COLON, Itoa(count));
    AtoiOfItoa(count);
    LineReads(Itoa(count), rest);
    assert (last + rest)[1..] == Itoa(count) + CRLF + rest;
    ThreeRead(kind, channel, last, Itoa(count), rest);
  }

  /** A message frame parses to exactly its three fields when the payload is not nil; a nil payload comes
      back as the empty string, so the field is faithful exactly when there is a payload. */
  lemma MessageParses(kind: Bytes, channel: Bytes, payload: Option<Bytes>, rest: Bytes)
    requires |kind| <= MAX_INT64 && |channel| <= MAX_INT64 && (payload.Some? ==> |payload.value| <= MAX_INT64)
    ensures ReadArray(MessageFrame(kind, channel, payload) + rest)
         == Ok([kind, channel, if payload.Some? then payload.value else []], rest)
  {
    match payload
    case Some(p) =>
      BulkReads(p, rest);
      ThreeRead(kind, channel, Bulk(p), p, rest);
    case None =>
      var last := Line(DOLLAR, Itoa(-1));
      AtoiOfItoa(-1);
      LineReads(Itoa(-1), rest);
      assert (last + rest)[1..] == Itoa(-1) + CRLF + rest;
      ThreeRead(kind, channel, last, [], rest);
  }

  /** The certificate client reads back the payload of a bulk reply. */
  lemma BulkReplyRoundTrip(payload: Bytes, rest: Bytes)
    requires |payload| <= MAX_INT64
    ensures ReadBulkReply(Bulk(payload) + rest) == Ok(payload, rest)
  {
    var text, tail := Itoa(|payload|), payload + CRLF + rest;
    var s := (Bulk(payload) + rest)[1..];
    assert s == text + CRLF + tail;
    AtoiOfItoa(|payload|);
    LineEndsAt(text, tail);
    var n := |text|;
    assert s[..n + 2] == text + CRLF;
    TrimsLineEnd(text);
    assert s[n + 2..] == tail && tail[..|payload|] == payload && tail[|payload| + 2..] == rest;
  }

  lemma LineEndsAt(text: Bytes, tail: Bytes)
    requires forall i | 0 <= i < |text| :: text[i] != 10
    ensures Index(text + CRLF + tail, [LF]) == |text| + 1
  {
    var s, n := text + CRLF + tail, |text|;
    assert s[n + 1..n + 2] == [LF];
    forall j: nat | j < n + 1
      ensures !OccursAt(s, [LF], j)
    {
      assert s[j..j + 1][0] == s[j] != LF;
    }
    IndexIs(s, [LF], n + 1);
  }

  lemma TrimsLineEnd(text: Bytes)
    requires text != [] && !IsSpace(text[0]) && !IsSpace(text[|text| - 1])
    ensures TrimSpace(text + CRLF) == text
  {
    var s := text + CRLF;
    assert TrimLeft(s) == s;
    assert s[..|s| - 1] == text + [CR];
    assert (text + [CR])[..|text|] == text;
    assert TrimRight(text) == text;
    assert TrimRight(text + [CR]) == TrimRight(text);
  }

  // ---- more input never changes a decision -------------------------------------------------------

  /** `b` decides at least what `a` decides, with `more` bytes further on. */
  ghost predicate Extends<T>(a: Parsed<T>, b: Parsed<T>, more: Bytes) {
    match a
    case Eof => true
    case ProtocolError => b == ProtocolError
    case Ok(value, rest) => b == Ok(value, rest + more)
  }

  lemma LineExtends(s: Bytes, more: Bytes)
    ensures Extends(ReadLine(s), ReadLine(s + more), more)
  {
    hide Index;
    var i := Index(s, [LF]);
    if i >= 0 {
      forall j: nat | j <= i
        ensures OccursAt(s + more, [LF], j) <==> OccursAt(s, [LF], j)
      {
        assert (s + more)[j..j + 1] == s[j..j + 1];
      }
      IndexIs(s + more, [LF], i);
      assert (s + more)[..i] == s[..i] && (s + more)[i + 1..] == s[i + 1..] + more;
    }
  }

  lemma BulkStringExtends(s: Bytes, more: Bytes)
    ensures Extends(ReadBulkString(s), ReadBulkString(s + more), more)
  {
    hide ReadLine, ParseInt;
    LineExtends(s, more);
    var line := ReadLine(s);
    if line.Ok? && Atoi(line.value).Some? {
      var n, rest := Atoi(line.value).value, line.rest;
      if 0 <= n && n + 2 <= |rest| {
        assert (rest + more)[..n] == rest[..n] && (rest + more)[n + 2..] == rest[n + 2..] + more;
      }
    }
  }

  lemma StringExtends(s: Bytes, more: Bytes)
    ensures Extends(ReadString(s), ReadString(s + more), more)
  {
    if s != [] {
      assert (s + more)[0] == s[0] && (s + more)[1..] == s[1..] + more;
      BulkStringExtends(s[1..], more);
      LineExtends(s[1..], more);
    }
  }

  lemma {:induction false} StringsExtend(s: Bytes, more: Bytes, count: nat)
    ensures Extends(ReadStrings(s, count), ReadStrings(s + more, count), more)
    decreases count
  {
    hide ReadString;
    if count > 0 {
      StringExtends(s, more);
      var first := ReadString(s);
      if first.Ok? {
        StringsExtend(first.rest, more, count - 1);
      }
    }
  }

  lemma ArrayExtends(s: Bytes, more: Bytes)
    ensures Extends(ReadArray(s), ReadArray(s + more), more)
  {
    hide ReadLine, ReadStrings, ParseInt;
    if s != [] {
      assert (s + more)[0] == s[0] && (s + more)[1..] == s[1..] + more;
      LineExtends(s[1..], more);
      var line := ReadLine(s[1..]);
      if line.Ok? && Atoi(line.value).Some? && Atoi(line.value).value >= 0 {
        StringsExtend(line.rest, more, Atoi(line.value).value);
      }
    }
  }

  lemma CutOff(all: Bytes, n: nat, items: seq<Bytes>)
    requires ReadArray(all) == Ok(items, []) && n < |all|
    ensures ReadArray(all[..n]) == Eof
  {
    hide ReadArray;
    ArrayExtends(all[..n], all[n..]);
    assert all == all[..n] + all[n..];
    assert forall rest: Bytes :: |rest + all[n..]| > 0;
  }

  /** Every cut-off front of an encoded command reads as an early end: never as a shorter command, and
      never as a protocol error. */
  lemma TruncationIsEof(items: seq<Bytes>, n: nat)
    requires Encodable(items) && n < |EncodeArray(items)|
    ensures ReadArray(EncodeArray(items)[..n]) == Eof
  {
    ArrayRoundTrip(items, []);
    hide *;
    assert EncodeArray(items) + [] == EncodeArray(items);
    CutOff(EncodeArray(items), n, items);
  }
}
