/** The RESP writers of the queue endpoint (internal/api/redis_queue_protocol.go, the `writeRedis` functions) on a
    buffered stream that may fail at any write. */
module RespWriter {
  import opened Wrappers
  import opened ByteText
  import opened Resp

  /** Nothing failed and `text` went out, or something failed and a front part of it did. */
  predicate Wrote(before: Bytes, after: Bytes, text: Bytes, failed: bool) {
    if failed then before <= after <= before + text else after == before + text
  }

  lemma WroteThen(before: Bytes, between: Bytes, after: Bytes, first: Bytes, second: Bytes, failed: bool)
    requires Wrote(before, between, first, false) && Wrote(between, after, second, failed)
    ensures Wrote(before, after, first + second, failed)
  {
    assert before + first + second == before + (first + second);
  }

  lemma WroteFront(before: Bytes, after: Bytes, first: Bytes, second: Bytes)
    requires Wrote(before, after, first, true)
    ensures Wrote(before, after, first + second, true)
  {
    assert before + first + second == before + (first + second);
  }

  /** `out` is what reached the stream; `script` says of each coming write how much of it goes through before it
      fails, if it fails. */
  class Writer {
    var out: Bytes
    var script: seq<Option<nat>>

    constructor (script: seq<Option<nat>>)
      ensures out == [] && this.script == script
    {
      out, this.script := [], script;
    }

    method WriteString(text: Bytes) returns (failed: bool)
      modifies this
      ensures Wrote(old(out), out, text, failed)
      ensures failed == (old(script) != [] && old(script)[0].Some?)
      ensures failed ==>
                var taken := old(script)[0].value;
                out == old(out) + text[..if taken < |text| then taken else |text|]
      ensures script == if old(script) == [] then [] else old(script)[1..]
    {
      if script == [] || script[0].None? {
        out, failed := out + text, false;
      } else {
        var taken := if script[0].value < |text| then script[0].value else |text|;
        out, failed := out + text[..taken], true;
      }
      script := if script == [] then [] else script[1..];
    }

    method Integer(value: int) returns (failed: bool)
      modifies this
      ensures Wrote(old(out), out, Line(COLON, Itoa(value)), failed)
      ensures old(script) == [] ==> !failed && script == []
    {
      failed := WriteString([COLON] + Itoa(value) + CRLF);
    }

    method ArrayHeader(count: int) returns (failed: bool)
      modifies this
      ensures Wrote(old(out), out, Line(STAR, Itoa(count)), failed)
      ensures old(script) == [] ==> !failed && script == []
    {
      failed := WriteString([STAR] + Itoa(count) + CRLF);
    }

    method NilBulkString() returns (failed: bool)
      modifies this
      ensures Wrote(old(out), out, BulkOrNil(None), failed)
      ensures old(script) == [] ==> !failed && script == []
    {
      failed := WriteString([DOLLAR] + Itoa(-1) + CRLF);
    }

    /** Three writes: the length line, the payload, the line end. */
    method BulkString(payload: Option<Bytes>) returns (failed: bool)
      modifies this
      ensures Wrote(old(out), out, BulkOrNil(payload), failed)
      ensures old(script) == [] ==> !failed && script == []
    {
      hide Itoa;
      if payload.None? {
        failed := NilBulkString();
        return;
      }
      ghost var start, header := out, Line(DOLLAR, Itoa(|payload.value|));
      failed := WriteString([DOLLAR] + Itoa(|payload.value|) + CRLF);
      if failed {
        WroteFront(start, out, header, payload.value);
        WroteFront(start, out, header + payload.value, CRLF);
        return;
      }
      ghost var between := out;
      failed := WriteString(payload.value);
      WroteThen(start, between, out, header, payload.value, failed);
      if failed {
        WroteFront(start, out, header + payload.value, CRLF);
        return;
      }
      ghost var last := out;
      failed := WriteString(CRLF);
      WroteThen(start, last, out, header + payload.value, CRLF, failed);
    }

    method ArrayOfBulkStrings(items: seq<Option<Bytes>>) returns (failed: bool)
      modifies this
      ensures Wrote(old(out), out, ArrayOfBulks(items), failed)
      ensures old(script) == [] ==> !failed && script == []
    {
      hide Itoa, Wrote, BulkOrNil;
      ghost var start, text := out, Line(STAR, Itoa(|items|));
      failed := ArrayHeader(|items|);
      assert failed ==> Wrote(start, out, text, true);
      BulksOrNilFrom(items);
      assert text + [] == text;
      if failed {
        WroteFront(start, out, text, BulksOrNil(items));
        return;
      }
      for i := 0 to |items|
        invariant Wrote(start, out, text + BulksOrNil(items[..i]), false)
        invariant old(script) == [] ==> script == []
      {
        ghost var between, before := out, text + BulksOrNil(items[..i]);
        failed := BulkString(items[i]);
        WroteThen(start, between, out, before, BulkOrNil(items[i]), failed);
        BulksOrNilNext(items, i);
        assert before + BulkOrNil(items[i]) == text + BulksOrNil(items[..i + 1]);
        if failed {
          ghost var more := BulksOrNilRest(items, i + 1);
          WroteFront(start, out, text + BulksOrNil(items[..i + 1]), more);
          assert text + BulksOrNil(items[..i + 1]) + more == text + BulksOrNil(items);
          return;
        }
      }
    }

    /** The three fields of a subscription frame; `kind` is what the two writers of the source differ in. */
    method PubSubSubscribe(kind: Bytes, channel: Bytes, count: int) returns (failed: bool)
      modifies this
      ensures Wrote(old(out), out, SubscribeFrame(kind, channel, count), failed)
      ensures old(script) == [] ==> !failed && script == []
    {
      hide Wrote, Itoa, BulkOrNil, Bulk;
      BulkOfSome(kind);
      BulkOfSome(channel);
      ghost var start, frame := out, Line(STAR, Itoa(3)) + Bulk(kind) + Bulk(channel);
      failed := Head(kind, channel);
      if failed {
        WroteFront(start, out, frame, Line(COLON, Itoa(count)));
        return;
      }
      ghost var between := out;
      failed := Integer(count);
      WroteThen(start, between, out, frame, Line(COLON, Itoa(count)), failed);
    }

    /** What the frames of three fields begin with. */
    method Head(kind: Bytes, channel: Bytes) returns (failed: bool)
      modifies this
      ensures Wrote(old(out), out, Line(STAR, Itoa(3)) + Bulk(kind) + Bulk(channel), failed)
      ensures old(script) == [] ==> !failed && script == []
    {
      hide Wrote, Itoa, BulkOrNil, Bulk;
      BulkOfSome(kind);
      BulkOfSome(channel);
      ghost var start, header := out, Line(STAR, Itoa(3));
      failed := ArrayHeader(3);
      if failed {
        WroteFront(start, out, header, Bulk(kind));
        WroteFront(start, out, header + Bulk(kind), Bulk(channel));
        return;
      }
      ghost var between := out;
      failed := BulkString(Some(kind));
      WroteThen(start, between, out, header, Bulk(kind), failed);
      if failed {
        WroteFront(start, out, header + Bulk(kind), Bulk(channel));
        return;
      }
      ghost var last := out;
      failed := BulkString(Some(channel));
      WroteThen(start, last, out, header + Bulk(kind), Bulk(channel), failed);
    }

    method PubSubMessage(channel: Bytes, payload: Option<Bytes>) returns (failed: bool)
      modifies this
      ensures Wrote(old(out), out, MessageFrame(MESSAGE, channel, payload), failed)
      ensures old(script) == [] ==> !failed && script == []
    {
      hide Wrote, Itoa, BulkOrNil, Bulk;
      ghost var start, frame := out, Line(STAR, Itoa(3)) + Bulk(MESSAGE) + Bulk(channel);
      failed := Head(MESSAGE, channel);
      if failed {
        WroteFront(start, out, frame, BulkOrNil(payload));
        return;
      }
      ghost var between := out;
      failed := BulkString(payload);
      WroteThen(start, between, out, frame, BulkOrNil(payload), failed);
    }

    /** A reply to a ping inside a subscription: an array of two. */
    method PubSubPong(payload: Option<Bytes>) returns (failed: bool)
      modifies this
      ensures Wrote(old(out), out, ArrayOfBulks([Some(PONG), payload]), failed)
      ensures old(script) == [] ==> !failed && script == []
    {
      PairOfBulks(Some(PONG), payload);
      hide Wrote, Itoa, BulkOrNil, Bulk, ArrayOfBulks;
      ghost var start, header, first := out, Line(STAR, Itoa(2)), BulkOrNil(Some(PONG));
      failed := ArrayHeader(2);
      if failed {
        WroteFront(start, out, header, first);
        WroteFront(start, out, header + first, BulkOrNil(payload));
        return;
      }
      ghost var between := out;
      failed := BulkString(Some(PONG));
      WroteThen(start, between, out, header, first, failed);
      if failed {
        WroteFront(start, out, header + first, BulkOrNil(payload));
        return;
      }
      ghost var last := out;
      failed := BulkString(payload);
      WroteThen(start, last, out, header + first, BulkOrNil(payload), failed);
    }
  }

  const PONG: Bytes := Ascii("pong")

  lemma PairOfBulks(a: Option<Bytes>, b: Option<Bytes>)
    ensures ArrayOfBulks([a, b]) == Line(STAR, Itoa(2)) + BulkOrNil(a) + BulkOrNil(b)
  {
    hide Itoa, BulkOrNil;
    assert [a, b][1..] == [b] && [b][1..] == [];
    assert BulksOrNil([a, b]) == BulkOrNil(a) + BulksOrNil([b]);
    assert BulksOrNil([b]) == BulkOrNil(b) + [];
  }

  const MESSAGE: Bytes := Ascii("message")

  lemma BulkOfSome(payload: Bytes)
    ensures BulkOrNil(Some(payload)) == Bulk(payload)
  {
  }

  // ---- arrays of bulk strings ------------------------------------------------------------------------

  function BulksOrNil(items: seq<Option<Bytes>>): Bytes {
    if items == [] then [] else BulkOrNil(items[0]) + BulksOrNil(items[1..])
  }

  function ArrayOfBulks(items: seq<Option<Bytes>>): Bytes {
    Line(STAR, Itoa(|items|)) + BulksOrNil(items)
  }

  lemma BulksOrNilFrom(items: seq<Option<Bytes>>)
    ensures BulksOrNil(items[..0]) == [] && items[..|items|] == items
  {
  }

  lemma {:induction false} BulksOrNilNext(items: seq<Option<Bytes>>, i: nat)
    requires i < |items|
    ensures BulksOrNil(items[..i + 1]) == BulksOrNil(items[..i]) + BulkOrNil(items[i])
    decreases i
  {
    hide BulkOrNil;
    if i == 0 {
      assert items[..1] == [items[0]] && items[..1][1..] == [];
    } else {
      BulksOrNilNext(items[1..], i - 1);
      assert items[..i + 1][1..] == items[1..][..i] && items[..i][1..] == items[1..][..i - 1];
    }
  }

  ghost function BulksOrNilRest(items: seq<Option<Bytes>>, i: nat): (rest: Bytes)
    requires i <= |items|
    ensures BulksOrNil(items) == BulksOrNil(items[..i]) + rest
    decreases |items| - i
  {
    if i == |items| then
      assert items[..i] == items;
      []
    else
      BulksOrNilNext(items, i);
      BulkOrNil(items[i]) + BulksOrNilRest(items, i + 1)
  }

  /** What a reader makes of a payload: nil reads as the empty string. */
  function Plain(items: seq<Option<Bytes>>): (r: seq<Bytes>)
    ensures |r| == |items|
  {
    if items == [] then [] else [if items[0].Some? then items[0].value else []] + Plain(items[1..])
  }

  lemma BulkOrNilReads(payload: Option<Bytes>, rest: Bytes)
    requires payload.Some? ==> |payload.value| <= MAX_INT64
    ensures ReadString(BulkOrNil(payload) + rest) == Ok(if payload.Some? then payload.value else [], rest)
  {
    match payload
    case Some(p) => BulkReads(p, rest);
    case None =>
      AtoiOfItoa(-1);
      LineReads(Itoa(-1), rest);
      assert (BulkOrNil(None) + rest)[1..] == Itoa(-1) + CRLF + rest;
  }

  lemma {:induction false} BulksOrNilRead(items: seq<Option<Bytes>>, rest: Bytes)
    requires forall i | 0 <= i < |items| && items[i].Some? :: |items[i].value| <= MAX_INT64
    ensures ReadStrings(BulksOrNil(items) + rest, |items|) == Ok(Plain(items), rest)
    decreases |items|
  {
    hide ReadString, BulkOrNil;
    if items == [] {
      assert [] + rest == rest;
    } else {
      BulkOrNilReads(items[0], BulksOrNil(items[1..]) + rest);
      assert BulksOrNil(items) + rest == BulkOrNil(items[0]) + (BulksOrNil(items[1..]) + rest);
      BulksOrNilRead(items[1..], rest);
    }
  }

  /** An array of bulk strings parses to exactly its items, nil items as empty strings. */
  lemma ArrayOfBulksParses(items: seq<Option<Bytes>>, rest: Bytes)
    requires |items| <= MAX_INT64
    requires forall i | 0 <= i < |items| && items[i].Some? :: |items[i].value| <= MAX_INT64
    ensures ReadArray(ArrayOfBulks(items) + rest) == Ok(Plain(items), rest)
  {
    hide ReadStrings, Itoa;
    HeaderReads(|items|, BulksOrNil(items) + rest);
    assert ArrayOfBulks(items) + rest == Line(STAR, Itoa(|items|)) + (BulksOrNil(items) + rest);
    BulksOrNilRead(items, rest);
  }

  lemma WordsAre()
    ensures PONG == [112, 111, 110, 103] && MESSAGE == [109, 101, 115, 115, 97, 103, 101]
    ensures |PONG| <= MAX_INT64 && |MESSAGE| <= MAX_INT64
  {
  }

  lemma PlainPair(a: Bytes, payload: Option<Bytes>)
    ensures Plain([Some(a), payload]) == [a, if payload.Some? then payload.value else []]
  {
    assert [Some(a), payload][1..] == [payload] && [payload][1..] == [];
    assert Plain([payload]) == [if payload.Some? then payload.value else []] + Plain([]);
  }

  /** The reply to a ping parses to the word pong and the payload, a message frame to the word message, channel and
      payload. */
  lemma WordsParse(channel: Bytes, payload: Option<Bytes>, rest: Bytes)
    requires |channel| <= MAX_INT64 && (payload.Some? ==> |payload.value| <= MAX_INT64)
    ensures ReadArray(ArrayOfBulks([Some(PONG), payload]) + rest) ==
            Ok([[112, 111, 110, 103], if payload.Some? then payload.value else []], rest)
    ensures ReadArray(MessageFrame(MESSAGE, channel, payload) + rest) ==
            Ok([[109, 101, 115, 115, 97, 103, 101], channel, if payload.Some? then payload.value else []], rest)
  {
    hide *;
    WordsAre();
    PlainPair(PONG, payload);
    MessageParses(MESSAGE, channel, payload, rest);
    ArrayOfBulksParses([Some(PONG), payload], rest);
  }
}
