/** The source's form of the streaming rewriter (internal/httpwire/ordered_conn.go,
    `orderedRequestConn` and `writeAll`): fields updated in place, whatever blocks the callers cut, and
    a wrapped connection that may take part of the data and fail. Each case of the loop of `Write` is a
    method, proved against `Push`. */
module RequestConn {
  import opened Wrappers
  import opened ByteText
  import opened HeaderOrder
  import opened ChunkedBody
  import opened OrderedConn

  /** What one call of the wrapped connection's Write does: how much of the data it takes at most, and
      whether it then reports an error. */
  datatype Outcome = Outcome(limit: nat, fails: bool)

  /** The wrapped connection: it appends what it takes to the wire and follows an arbitrary script of
      outcomes; past the script it takes everything. */
  class InnerConn {
    var sent: Bytes
    var script: seq<Outcome>

    constructor (script: seq<Outcome>)
      ensures sent == [] && this.script == script
    {
      sent := [];
      this.script := script;
    }

    method Write(data: Bytes) returns (written: nat, failed: bool)
      modifies this
      ensures written <= |data| && sent == old(sent) + data[..written]
      ensures old(script) == [] ==> written == |data| && !failed && script == []
      ensures old(script) != [] ==>
                && failed == old(script)[0].fails && script == old(script)[1..]
                && written == if old(script)[0].limit < |data| then old(script)[0].limit else |data|
    {
      if script == [] {
        written, failed := |data|, false;
      } else {
        written := if script[0].limit < |data| then script[0].limit else |data|;
        failed := script[0].fails;
        script := script[1..];
      }
      sent := sent + data[..written];
    }
  }

  /** `writeAll`: stops at an error or at a write that takes nothing. */
  method WriteAll(inner: InnerConn, data: Bytes) returns (total: nat, failed: bool)
    modifies inner
    ensures total <= |data| && inner.sent == old(inner.sent) + data[..total]
    ensures !failed ==> total == |data|
    ensures old(inner.script) == [] ==> !failed && inner.script == []
  {
    total, failed := 0, false;
    while total < |data|
      invariant total <= |data| && inner.sent == old(inner.sent) + data[..total] && !failed
      invariant old(inner.script) == [] ==> inner.script == []
    {
      var written;
      written, failed := inner.Write(data[total..]);
      assert data[..total] + data[total..][..written] == data[..total + written];
      total := total + written;
      if failed {
        return;
      }
      if written == 0 {
        failed := true;
        return;
      }
    }
  }

  datatype WriteError = BodyWriteFailed | HeadWriteFailed | ChunkMalformed | HeadTooLong

  /** Pushing one more block. */
  lemma PushMore(r: Rewriter, start: Conn, p: Bytes, k: nat, n: nat, c: Conn, c': Conn, out: Bytes, more: Bytes)
    requires start.Valid() && c.Valid() && k + n <= |p|
    requires Push(r, start, p[..k]) == Next(c, out) && Push(r, c, p[k..][..n]) == Next(c', more)
    ensures Push(r, start, p[..k + n]) == Next(c', out + more)
  {
    hide Push;
    assert p[..k + n] == p[..k] + p[k..][..n];
    PushSplit(r, start, p[..k], p[k..][..n]);
  }

  lemma PushFault(r: Rewriter, start: Conn, p: Bytes, k: nat, c: Conn, out: Bytes)
    requires start.Valid() && c.Valid() && k <= |p|
    requires Push(r, start, p[..k]) == Next(c, out) && Push(r, c, p[k..]) == Fault
    ensures Push(r, start, p) == Fault
  {
    hide Push;
    assert p == p[..k] + p[k..];
    PushSplit(r, start, p[..k], p[k..]);
  }

  class OrderedRequestConn {
    const inner: InnerConn
    const rewriter: Rewriter
    var header: Bytes
    var bodyRemaining: nat
    var chunked: ChunkedTracker?

    ghost function View(): Conn
      reads this, chunked
    {
      Conn(header, bodyRemaining, if chunked == null then None else Some(chunked.View()))
    }

    constructor (inner: InnerConn, rewriter: Rewriter)
      ensures View() == FRESH && View().Valid() && this.inner == inner && this.rewriter == rewriter
    {
      this.inner, this.rewriter := inner, rewriter;
      header, bodyRemaining, chunked := [], 0, null;
    }

    /** The body case: what was written is what the state moves on by, even when the write fails. */
    method WriteBody(remaining: Bytes) returns (taken: nat, failed: bool)
      requires View().Valid() && bodyRemaining > 0 && remaining != []
      modifies this`bodyRemaining, inner
      ensures View().Valid() && taken <= |remaining| && (!failed ==> taken > 0)
      ensures inner.sent == old(inner.sent) + remaining[..taken]
      ensures Push(rewriter, old(View()), remaining[..taken]) == Next(View(), remaining[..taken])
      ensures old(inner.script) == [] ==> !failed && inner.script == []
    {
      var bodyBytes := if |remaining| < bodyRemaining then |remaining| else bodyRemaining;
      taken, failed := WriteAll(inner, remaining[..bodyBytes]);
      assert remaining[..bodyBytes][..taken] == remaining[..taken];
      PushBody(rewriter, View(), remaining[..taken]);
      bodyRemaining := bodyRemaining - taken;
    }

    /** The chunked case: a preview on a clone finds how far the body goes, and the real tracker then
        moves on by what was written. */
    method WriteChunked(remaining: Bytes) returns (taken: nat, err: Option<WriteError>)
      requires View().Valid() && bodyRemaining == 0 && chunked != null && remaining != []
      modifies this`chunked, chunked, inner
      ensures View().Valid() && taken <= |remaining| && (err == None ==> taken > 0)
      ensures chunked == old(chunked) || chunked == null
      ensures inner.sent == old(inner.sent) + remaining[..taken]
      ensures Push(rewriter, old(View()), remaining[..taken]) == Next(View(), remaining[..taken])
      ensures err == Some(ChunkMalformed) ==> Push(rewriter, old(View()), remaining) == Fault
      ensures err == None || err == Some(ChunkMalformed) || err == Some(BodyWriteFailed)
      ensures old(inner.script) == [] ==> err != Some(BodyWriteFailed) && inner.script == []
    {
      hide Push, Feed;
      ghost var c, tracker := View(), chunked.View();
      var preview := chunked.Clone();
      var chunkBytes, _, malformed := preview.Consume(remaining);
      PushChunked(rewriter, c, remaining);
      if malformed {
        PushNothing(rewriter, c, remaining);
        return 0, Some(ChunkMalformed);
      }
      var failed;
      taken, failed := WriteAll(inner, remaining[..chunkBytes]);
      assert remaining[..chunkBytes][..taken] == remaining[..taken];
      FeedPrefix(tracker, remaining, taken);
      PushChunked(rewriter, c, remaining[..taken]);
      var _, completed, _ := chunked.Consume(remaining[..taken]);
      assert remaining[..taken][..taken] == remaining[..taken];
      if completed {
        chunked := null;
      }
      FeedTakesSome(tracker, remaining);
      err := if failed then Some(BodyWriteFailed) else None;
    }

    /** The head case: buffer, or cut at the first blank line and send the head reordered. */
    method WriteHead(remaining: Bytes) returns (taken: nat, buffered: bool, err: Option<WriteError>)
      requires View().Valid() && bodyRemaining == 0 && chunked == null && remaining != []
      modifies this, inner
      ensures View().Valid() && taken <= |remaining|
      ensures chunked != null ==> fresh(chunked)
      ensures buffered || err == None || err == Some(HeadWriteFailed)
      ensures buffered ==>
                && taken == 0 && inner.sent == old(inner.sent)
                && View() == Conn(old(header) + remaining, 0, None)
                && Push(rewriter, old(View()), remaining) == Next(View(), [])
                && err == if |old(header) + remaining| > MAX_BUFFERED then Some(HeadTooLong) else None
      ensures !buffered && err == None ==>
                && taken > 0 && header == [] && old(inner.sent) <= inner.sent
                && Push(rewriter, old(View()), remaining[..taken]) == Next(View(), inner.sent[|old(inner.sent)|..])
      ensures err == Some(HeadWriteFailed) ==>
                && View() == FRESH && old(inner.sent) <= inner.sent
                && var p := Push(rewriter, old(View()), remaining[..taken]);
                   p.Next? && inner.sent[|old(inner.sent)|..] <= p.out
      ensures old(inner.script) == [] ==> err != Some(HeadWriteFailed) && inner.script == []
    {
      hide Push, OrderHead;
      ghost var c, sent := View(), inner.sent;
      var previousHeaderLength := |header|;
      header := header + remaining;
      var headerEnd := Index(header, BLANK_LINE);
      if headerEnd < 0 {
        PushHeadOpen(rewriter, c, remaining);
        err := if |header| > MAX_BUFFERED then Some(HeadTooLong) else None;
        return 0, true, err;
      }
      PushHeadClosed(rewriter, c, remaining);
      var head := header[..headerEnd + 4];
      taken := headerEnd + 4 - previousHeaderLength;
      header := [];
      var ordered := OrderRequestHeader(rewriter, head);
      var written, failed := WriteAll(inner, ordered.bytes);
      assert inner.sent[|sent|..] == ordered.bytes[..written];
      if failed {
        return taken, false, Some(HeadWriteFailed);
      }
      assert ordered.bytes[..written] == ordered.bytes;
      if ordered.chunked {
        chunked := new ChunkedTracker();
      } else {
        bodyRemaining := ordered.contentLength;
      }
      return taken, false, None;
    }

    /** One turn of the loop of `Write`. */
    method Advance(remaining: Bytes) returns (taken: nat, buffered: bool, err: Option<WriteError>)
      requires View().Valid() && remaining != []
      modifies this, chunked, inner
      ensures View().Valid() && taken <= |remaining| && old(inner.sent) <= inner.sent
      ensures chunked != null && chunked != old(chunked) ==> fresh(chunked)
      ensures buffered ==>
                && old(View()) == Conn(old(header), 0, None) && View() == Conn(old(header) + remaining, 0, None)
                && taken == 0 && inner.sent == old(inner.sent)
                && Push(rewriter, old(View()), remaining) == Next(View(), [])
                && err == if |header| > MAX_BUFFERED then Some(HeadTooLong) else None
      ensures !buffered && err != Some(HeadWriteFailed) ==>
                && Push(rewriter, old(View()), remaining[..taken]) == Next(View(), inner.sent[|old(inner.sent)|..])
                && (err == None ==> taken > 0)
                && (err == None || err == Some(ChunkMalformed) || err == Some(BodyWriteFailed))
      ensures err == Some(ChunkMalformed) ==> Push(rewriter, old(View()), remaining) == Fault
      ensures err == None && !buffered ==> header == []
      ensures err == Some(HeadWriteFailed) ==>
                && View() == FRESH
                && var q := Push(rewriter, old(View()), remaining[..taken]);
                   q.Next? && inner.sent[|old(inner.sent)|..] <= q.out
      ensures old(inner.script) == [] ==>
                err != Some(HeadWriteFailed) && err != Some(BodyWriteFailed) && inner.script == []
    {
      hide Push, Feed, OrderHead;
      ghost var sent := inner.sent;
      buffered, err := false, None;
      if bodyRemaining > 0 {
        var failed;
        taken, failed := WriteBody(remaining);
        if failed {
          err := Some(BodyWriteFailed);
        }
      } else if chunked != null {
        taken, err := WriteChunked(remaining);
      } else {
        taken, buffered, err := WriteHead(remaining);
      }
    }

    /** `Write`. Without an error the whole block went through and the wire and the state are those of
        the byte-at-a-time rewriter. A body write that fails, or a malformed chunk, leaves wire and state
        as if only the first `n` bytes had been given, so the caller may go on from there. A head that
        fails to go out is terminal: all bytes count as accepted. A head that grows too long stays
        buffered, although its bytes are not counted. */
    method Write(p: Bytes) returns (n: nat, err: Option<WriteError>)
      requires View().Valid()
      modifies this, chunked, inner
      ensures View().Valid() && n <= |p| && old(inner.sent) <= inner.sent
      ensures chunked != null && chunked != old(chunked) ==> fresh(chunked)
      ensures err == None ==>
                n == |p| && Push(rewriter, old(View()), p) == Next(View(), inner.sent[|old(inner.sent)|..])
      ensures err == Some(BodyWriteFailed) || err == Some(ChunkMalformed) ==>
                Push(rewriter, old(View()), p[..n]) == Next(View(), inner.sent[|old(inner.sent)|..])
      ensures err == Some(ChunkMalformed) ==> Push(rewriter, old(View()), p) == Fault
      ensures err == Some(HeadTooLong) ==>
                && |header| > MAX_BUFFERED && n < |p|
                && Push(rewriter, old(View()), p) == Next(View(), inner.sent[|old(inner.sent)|..])
                && exists h: Bytes :: header == h + p[n..] &&
                     Push(rewriter, old(View()), p[..n]) == Next(Conn(h, 0, None), inner.sent[|old(inner.sent)|..])
      ensures err == Some(HeadWriteFailed) ==>
                && n == |p| && View() == FRESH
                && exists k | 0 <= k <= |p| ::
                     var q := Push(rewriter, old(View()), p[..k]);
                     q.Next? && inner.sent[|old(inner.sent)|..] <= q.out
      ensures old(inner.script) == [] ==>
                var q := Push(rewriter, old(View()), p);
                && err == (if q.Fault? then Some(ChunkMalformed)
                           else if p != [] && |q.conn.header| > MAX_BUFFERED then Some(HeadTooLong)
                           else None)
                && inner.script == []
    {
      hide Push, Feed, OrderHead;
      ghost var start, sent := View(), inner.sent;
      var consumed := 0;
      assert p[..0] == [] && inner.sent[|sent|..] == [];
      PushNothing(rewriter, start, p);
      while consumed < |p|
        invariant consumed <= |p| && View().Valid() && sent <= inner.sent
        invariant chunked != null && chunked != old(chunked) ==> fresh(chunked)
        invariant Push(rewriter, start, p[..consumed]) == Next(View(), inner.sent[|sent|..])
        invariant consumed > 0 ==> header == []
        invariant old(inner.script) == [] ==> inner.script == []
        decreases |p| - consumed
      {
        ghost var c, out, sentNow := View(), inner.sent[|sent|..], inner.sent;
        var remaining := p[consumed..];
        var taken, buffered;
        taken, buffered, err := Advance(remaining);
        assert inner.sent[|sent|..] == out + inner.sent[|sentNow|..];
        if buffered {
          PushAll(rewriter, start, p, consumed, c, View(), out, []);
          n := if err == None then |p| else consumed;
          return;
        }
        ghost var q := Push(rewriter, c, remaining[..taken]);
        PushMore(rewriter, start, p, consumed, taken, c, q.conn, out, q.out);
        if err == Some(ChunkMalformed) {
          PushFault(rewriter, start, p, consumed, c, out);
        }
        consumed := consumed + taken;
        if err == Some(HeadWriteFailed) {
          return |p|, err;
        }
        if err != None {
          return consumed, err;
        }
      }
      assert p[..|p|] == p;
      return |p|, None;
    }
  }

  lemma PushAll(r: Rewriter, start: Conn, p: Bytes, k: nat, c: Conn, c': Conn, out: Bytes, more: Bytes)
    requires start.Valid() && c.Valid() && k <= |p|
    requires Push(r, start, p[..k]) == Next(c, out) && Push(r, c, p[k..]) == Next(c', more)
    ensures Push(r, start, p) == Next(c', out + more)
  {
    hide Push;
    assert p == p[..k] + p[k..];
    PushSplit(r, start, p[..k], p[k..]);
  }

  lemma PushNothing(r: Rewriter, c: Conn, data: Bytes)
    requires c.Valid()
    ensures Push(r, c, data[..0]) == Next(c, data[..0])
  {
  }

  lemma FeedTakesSome(t: Tracker, data: Bytes)
    requires t.Valid() && data != [] && !Feed(t, data).Malformed?
    ensures Feed(t, data).consumed > 0
  {
  }
}
