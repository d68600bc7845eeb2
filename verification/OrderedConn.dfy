/** The streaming request rewriter (internal/httpwire/ordered_conn.go, `orderedRequestConn.Write`).

    `Push` is the rewriter one byte at a time: the simple form. `OneShot` rewrites a whole stream
    message by message. The source's `Write`, which works on whatever blocks its callers cut, is in
    `RequestConn`; it refines `Push`. */
module OrderedConn {
  import opened Wrappers
  import opened ByteText
  import opened HeaderOrder
  import opened HeaderLaws
  import opened HeaderText
  import opened ChunkedBody
  import opened ChunkedGrammar

  datatype Conn = Conn(header: Bytes, bodyRemaining: nat, chunked: Option<Tracker>) {
    /** At most one of the three is in use, a chunk parser is in a proper state, and a buffered head is
        still incomplete. */
    ghost predicate Valid() {
      && (bodyRemaining > 0 ==> header == [] && chunked == None)
      && (chunked.Some? ==> header == [] && chunked.value.Valid())
      && !Contains(header, BLANK_LINE)
    }
  }

  const FRESH: Conn := Conn([], 0, None)

  datatype Pushed = Fault | Next(conn: Conn, out: Bytes)

  /** The state after a complete head. */
  function AfterHead(ordered: Ordered): Conn {
    if ordered.chunked then Conn([], 0, Some(START)) else Conn([], ordered.contentLength, None)
  }

  function PushByte(r: Rewriter, c: Conn, b: byte): (p: Pushed)
    requires c.chunked.Some? ==> c.chunked.value.Valid()
    ensures p.Next? && p.conn.chunked.Some? ==> p.conn.chunked.value.Valid()
  {
    if c.bodyRemaining > 0 then Next(c.(bodyRemaining := c.bodyRemaining - 1), [b])
    else if c.chunked.Some? then
      match FeedByte(c.chunked.value, b)
      case Invalid(_) => Fault
      case Finished => Next(c.(chunked := None), [b])
      case Continue(t) => Next(c.(chunked := Some(t)), [b])
    else
      var header := c.header + [b];
      if |header| >= 4 && header[|header| - 4..] == BLANK_LINE
      then Next(AfterHead(OrderHead(r, header)), OrderHead(r, header).bytes)
      else Next(c.(header := header), [])
  }

  function Push(r: Rewriter, c: Conn, data: Bytes): (p: Pushed)
    requires c.chunked.Some? ==> c.chunked.value.Valid()
    ensures p.Next? && p.conn.chunked.Some? ==> p.conn.chunked.value.Valid()
    decreases |data|
  {
    if data == [] then Next(c, [])
    else
      var step := PushByte(r, c, data[0]);
      if step.Fault? then Fault else Prepend(step.out, Push(r, step.conn, data[1..]))
  }

  function Prepend(out: Bytes, p: Pushed): Pushed {
    if p.Fault? then Fault else Next(p.conn, out + p.out)
  }

  /** The whole stream at once, message by message: a reordered head, then its body untouched. */
  function OneShot(r: Rewriter, data: Bytes): Pushed
    decreases |data|
  {
    var end := Index(data, BLANK_LINE);
    if end < 0 then Next(Conn(data, 0, None), [])
    else
      var ordered, rest := OrderHead(r, data[..end + 4]), data[end + 4..];
      if ordered.chunked then
        match Feed(START, rest)
        case Malformed(_) => Fault
        case Open(_, t) => Next(Conn([], 0, Some(t)), ordered.bytes + rest)
        case Complete(n) => Prepend(ordered.bytes + rest[..n], OneShot(r, rest[n..]))
      else if |rest| < ordered.contentLength then
        Next(Conn([], ordered.contentLength - |rest|, None), ordered.bytes + rest)
      else
        Prepend(ordered.bytes + rest[..ordered.contentLength], OneShot(r, rest[ordered.contentLength..]))
  }

  // ---- splitting the stream anywhere -------------------------------------------------------------

  /** Pushing a then b is pushing a + b. */
  lemma {:induction false} PushSplit(r: Rewriter, c: Conn, a: Bytes, b: Bytes)
    requires c.chunked.Some? ==> c.chunked.value.Valid()
    ensures var pa := Push(r, c, a);
            Push(r, c, a + b) == if pa.Fault? then Fault else Prepend(pa.out, Push(r, pa.conn, b))
    decreases |a|
  {
    hide PushByte;
    if a == [] {
      assert a + b == b;
    } else {
      var data := a + b;
      assert data[0] == a[0] && data[1..] == a[1..] + b;
      var step := PushByte(r, c, a[0]);
      if step.Next? {
        PushSplit(r, step.conn, a[1..], b);
      }
    }
  }

  // ---- blocks ------------------------------------------------------------------------------------

  lemma {:induction false} PushBody(r: Rewriter, c: Conn, data: Bytes)
    requires |data| <= c.bodyRemaining && c.chunked == None
    ensures Push(r, c, data) == Next(c.(bodyRemaining := c.bodyRemaining - |data|), data)
    decreases |data|
  {
    if data != [] {
      PushBody(r, c.(bodyRemaining := c.bodyRemaining - 1), data[1..]);
      assert [data[0]] + data[1..] == data;
    }
  }

  lemma {:induction false} PushChunked(r: Rewriter, c: Conn, data: Bytes)
    requires c.bodyRemaining == 0 && c.chunked.Some? && c.chunked.value.Valid()
    ensures var f := Feed(c.chunked.value, data);
            && (f.Malformed? ==> Push(r, c, data) == Fault)
            && (f.Open? ==> Push(r, c, data) == Next(c.(chunked := Some(f.tracker)), data))
            && (f.Complete? ==> Push(r, c, data[..f.consumed]) == Next(c.(chunked := None), data[..f.consumed]))
    decreases |data|
  {
    hide FeedByte;
    if data != [] {
      var step := FeedByte(c.chunked.value, data[0]);
      var f := Feed(c.chunked.value, data);
      if step.Continue? {
        PushChunked(r, c.(chunked := Some(step.tracker)), data[1..]);
        assert [data[0]] + data[1..] == data;
        if f.Complete? {
          var head := data[..f.consumed];
          assert head[0] == data[0] && head[1..] == data[1..][..f.consumed - 1];
          assert [head[0]] + head[1..] == head;
        }
      } else if step.Finished? {
        var head := data[..1];
        assert head[1..] == [] && [head[0]] == head;
      }
    }
  }

  /** Head bytes that complete no head are buffered. */
  lemma {:induction false} PushHeadOpen(r: Rewriter, c: Conn, data: Bytes)
    requires c.bodyRemaining == 0 && c.chunked == None
    requires !Contains(c.header + data, BLANK_LINE)
    ensures Push(r, c, data) == Next(c.(header := c.header + data), [])
    decreases |data|
  {
    hide OrderHead;
    var all := c.header + data;
    if data == [] {
      assert all == c.header;
    } else {
      var header := c.header + [data[0]];
      assert header + data[1..] == all;
      NoBlankTail(all, |header|);
      assert all[..|header|] == header;
      PushHeadOpen(r, c.(header := header), data[1..]);
    }
  }

  /** Without a blank line inside, no front part ends in one. */
  lemma NoBlankTail(s: Bytes, n: nat)
    requires n <= |s| && (n >= 4 ==> !OccursAt(s, BLANK_LINE, n - 4))
    ensures !(n >= 4 && s[..n][n - 4..] == BLANK_LINE)
  {
    if n >= 4 {
      assert s[..n][n - 4..] == s[n - 4..n];
    }
  }

  lemma NoBlankInBuffer(header: Bytes, data: Bytes)
    requires !Contains(header, BLANK_LINE) && Index(header + data, BLANK_LINE) >= 0
    ensures |header| < Index(header + data, BLANK_LINE) + 4 <= |header + data|
  {
    var all := header + data;
    forall j: nat | j + 4 <= |header|
      ensures !OccursAt(all, BLANK_LINE, j)
    {
      assert !OccursAt(header, BLANK_LINE, j);
      assert all[j..j + 4] == header[j..j + 4];
    }
  }

  /** The byte that completes a head. */
  lemma PushLast(r: Rewriter, c: Conn, header: Bytes)
    requires c.bodyRemaining == 0 && c.chunked == None
    requires |header| >= 4 && header[|header| - 4..] == BLANK_LINE && c.header == header[..|header| - 1]
    ensures Push(r, c, [header[|header| - 1]]) == Next(AfterHead(OrderHead(r, header)), OrderHead(r, header).bytes)
  {
    hide OrderHead;
    PushOne(r, c, header[|header| - 1]);
    assert c.header + [header[|header| - 1]] == header;
  }

  /** The bytes up to the first blank line complete the head: it goes out reordered. */
  lemma PushHeadClosed(r: Rewriter, c: Conn, data: Bytes)
    requires c.bodyRemaining == 0 && c.chunked == None && !Contains(c.header, BLANK_LINE)
    requires Index(c.header + data, BLANK_LINE) >= 0
    ensures var n := Index(c.header + data, BLANK_LINE) + 4;
            var ordered := OrderHead(r, (c.header + data)[..n]);
            && |c.header| < n
            && Push(r, c, data[..n - |c.header|]) == Next(AfterHead(ordered), ordered.bytes)
  {
    hide OrderHead, Push, Contains;
    var all := c.header + data;
    var n := Index(all, BLANK_LINE) + 4;
    NoBlankInBuffer(c.header, data);
    var k := n - |c.header|;
    var header, front, last := all[..n], data[..k - 1], data[k - 1];
    assert data[..k] == front + [last] && header[n - 1] == last;
    assert c.header + front == all[..n - 1] == header[..n - 1];
    assert header[n - 4..] == all[n - 4..n];
    SliceOfFirst(all, n - 1);
    hide Index;
    PushHeadOpen(r, c, front);
    PushSplit(r, c, front, [last]);
    PushLast(r, c.(header := c.header + front), header);
  }

  lemma PushOne(r: Rewriter, c: Conn, b: byte)
    requires c.chunked.Some? ==> c.chunked.value.Valid()
    ensures Push(r, c, [b]) == PushByte(r, c, b)
  {
    hide PushByte;
    assert [b][1..] == [];
    var step := PushByte(r, c, b);
    if step.Next? {
      assert step.out + [] == step.out;
    }
  }

  lemma SliceOfFirst(s: Bytes, n: nat)
    requires Index(s, BLANK_LINE) >= 0 && n < Index(s, BLANK_LINE) + 4 && n <= |s|
    ensures !Contains(s[..n], BLANK_LINE)
  {
    forall j: nat | j <= n
      ensures !OccursAt(s[..n], BLANK_LINE, j)
    {
      if j + 4 <= n {
        assert s[..n][j..j + 4] == s[j..j + 4];
        assert !OccursAt(s, BLANK_LINE, j);
      }
    }
  }

  // ---- the one-shot rewriter ---------------------------------------------------------------------

  /** For every byte stream, the byte-at-a-time rewriter from a fresh connection produces what the
      one-shot rewriter does, output and final state. */
  lemma {:induction false} OneShotIsPush(r: Rewriter, data: Bytes)
    ensures Push(r, FRESH, data) == OneShot(r, data)
    decreases |data|, 0
  {
    hide OrderHead, Push, Feed, FeedByte;
    var end := Index(data, BLANK_LINE);
    assert [] + data == data;
    if end < 0 {
      PushHeadOpen(r, FRESH, data);
    } else {
      var head, rest := data[..end + 4], data[end + 4..];
      PushHeadClosed(r, FRESH, data);
      var ordered := OrderHead(r, head);
      PushSplit(r, FRESH, head, rest);
      assert data == head + rest;
      if ordered.chunked {
        PushChunked(r, AfterHead(ordered), rest);
        var f := Feed(START, rest);
        if f.Complete? {
          OneShotContinues(r, AfterHead(ordered), rest, f.consumed, ordered.bytes);
        }
      } else if |rest| < ordered.contentLength {
        PushBody(r, AfterHead(ordered), rest);
      } else {
        PushBody(r, AfterHead(ordered), rest[..ordered.contentLength]);
        OneShotContinues(r, AfterHead(ordered), rest, ordered.contentLength, ordered.bytes);
      }
    }
  }

  lemma OneShotContinues(r: Rewriter, c: Conn, rest: Bytes, n: nat, out: Bytes)
    requires n <= |rest| && (c.chunked.Some? ==> c.chunked.value.Valid())
    requires Push(r, c, rest[..n]) == Next(FRESH, rest[..n])
    ensures Prepend(out, Push(r, c, rest)) == Prepend(out + rest[..n], OneShot(r, rest[n..]))
    decreases |rest| - n, 1
  {
    hide Push, OneShot;
    PushSplit(r, c, rest[..n], rest[n..]);
    assert rest == rest[..n] + rest[n..];
    OneShotIsPush(r, rest[n..]);
  }

  // ---- every way of cutting the stream -----------------------------------------------------------

  function Concat(blocks: seq<Bytes>): Bytes {
    if blocks == [] then [] else blocks[0] + Concat(blocks[1..])
  }

  /** One call of Write after another, each on the state the last one left. */
  function PushBlocks(r: Rewriter, c: Conn, blocks: seq<Bytes>): Pushed
    requires c.chunked.Some? ==> c.chunked.value.Valid()
    decreases |blocks|
  {
    if blocks == [] then Next(c, [])
    else
      var step := Push(r, c, blocks[0]);
      if step.Fault? then Fault else Prepend(step.out, PushBlocks(r, step.conn, blocks[1..]))
  }

  lemma {:induction false} PushBlocksIsPush(r: Rewriter, c: Conn, blocks: seq<Bytes>)
    requires c.chunked.Some? ==> c.chunked.value.Valid()
    ensures PushBlocks(r, c, blocks) == Push(r, c, Concat(blocks))
    decreases |blocks|
  {
    hide Push;
    if blocks == [] {
      PushOfNothing(r, c);
    } else {
      PushSplit(r, c, blocks[0], Concat(blocks[1..]));
      var step := Push(r, c, blocks[0]);
      if step.Next? {
        PushBlocksIsPush(r, step.conn, blocks[1..]);
      }
    }
  }

  lemma PushOfNothing(r: Rewriter, c: Conn)
    requires c.chunked.Some? ==> c.chunked.value.Valid()
    ensures Push(r, c, []) == Next(c, [])
  {
  }

  /** However a stream is cut into blocks, the wire bytes and the final state on a fresh connection are
      those of the one-shot rewriter on the whole stream. */
  lemma CutsDoNotMatter(r: Rewriter, blocks: seq<Bytes>)
    ensures PushBlocks(r, FRESH, blocks) == OneShot(r, Concat(blocks))
  {
    hide Push, OneShot, PushBlocks;
    PushBlocksIsPush(r, FRESH, blocks);
    OneShotIsPush(r, Concat(blocks));
  }

  // ---- what every byte keeps ---------------------------------------------------------------------

  /** Bytes out plus bytes buffered are the bytes in, and the state stays valid. */
  lemma PushByteKeeps(r: Rewriter, c: Conn, b: byte)
    requires c.Valid()
    ensures var p := PushByte(r, c, b);
            p.Next? ==> p.conn.Valid() && |p.out| + |p.conn.header| == |c.header| + 1
  {
    hide OrderHead, FeedByte;
    if c.bodyRemaining == 0 && c.chunked == None {
      var header := c.header + [b];
      assert header[..|c.header|] == c.header;
      forall j: nat | j + 4 < |header|
        ensures !OccursAt(header, BLANK_LINE, j)
      {
        assert !OccursAt(c.header, BLANK_LINE, j);
        assert header[j..j + 4] == c.header[j..j + 4];
      }
      if |header| >= 4 && header[|header| - 4..] == BLANK_LINE {
        IndexIs(header, BLANK_LINE, |header| - 4);
        ReorderingLaws(r, header);
      } else if |header| >= 4 {
        assert header[|header| - 4..] == header[|header| - 4..|header|];
        assert !OccursAt(header, BLANK_LINE, |header| - 4);
      }
    }
  }

  lemma {:induction false} PushKeeps(r: Rewriter, c: Conn, data: Bytes)
    requires c.Valid()
    ensures var p := Push(r, c, data);
            p.Next? ==> p.conn.Valid() && |p.out| + |p.conn.header| == |c.header| + |data|
    decreases |data|
  {
    hide PushByte;
    if data != [] {
      PushByteKeeps(r, c, data[0]);
      var step := PushByte(r, c, data[0]);
      if step.Next? {
        PushKeeps(r, step.conn, data[1..]);
      }
    }
  }

  // ---- streams of well-formed messages -----------------------------------------------------------

  datatype Message = Message(request: Bytes, lines: seq<HeaderLine>, body: Bytes) {
    function Head(): (head: Bytes)
      ensures |head| >= 4
    {
      HeadText(request, lines)
    }
  }

  /** A complete head, and the body that the text of the head asks for: a chunked body by the grammar of section 7.1 of
      RFC 9112, or as many bytes as Content-Length says. */
  ghost predicate ValidMessage(r: Rewriter, m: Message) {
    && ValidHead(m.request, m.lines)
    && (if exists i :: 0 <= i < |m.lines| && SaysChunked(r, m.lines[i])
        then exists b: Body :: ValidBody(b) && BodyBytes(b) == m.body
        else SaysBody(r, m.lines, |m.body|))
  }

  lemma MessageIsFramed(r: Rewriter, m: Message)
    requires ValidMessage(r, m)
    ensures IsHead(m.Head())
    ensures var ordered := OrderHead(r, m.Head());
      if ordered.chunked then exists b: Body :: ValidBody(b) && BodyBytes(b) == m.body
      else |m.body| == ordered.contentLength
  {
    HeadReads(m.request, m.lines);
    ChunkedOfText(r, m.request, m.lines);
    hide OrderHead, HeadText, SaysChunked, SaysBody, ValidBody, BodyBytes, ValidHead;
    if SaysBody(r, m.lines, |m.body|) {
      BodyOfText(r, m.request, m.lines, |m.body|);
    }
  }

  function StreamOf(messages: seq<Message>): Bytes {
    if messages == [] then [] else messages[0].Head() + (messages[0].body + StreamOf(messages[1..]))
  }

  ghost function RewrittenOf(r: Rewriter, messages: seq<Message>): Bytes
    requires forall i | 0 <= i < |messages| :: ValidMessage(r, messages[i])
  {
    if messages == [] then []
    else
      OrderHead(r, messages[0].Head()).bytes + messages[0].body + RewrittenOf(r, messages[1..])
  }

  lemma OneShotOfMessage(r: Rewriter, m: Message, more: Bytes)
    requires ValidMessage(r, m)
    ensures OneShot(r, m.Head() + (m.body + more))
         == Prepend(OrderHead(r, m.Head()).bytes + m.body, OneShot(r, more))
  {
    MessageIsFramed(r, m);
    hide OrderHead, HeadText, ValidMessage, ValidBody, BodyBytes, Feed;
    var head := m.Head();
    var data, tail := head + (m.body + more), m.body + more;
    FirstBlankLineInFront(head, tail);
    assert data[..|head|] == head && data[|head|..] == tail;
    assert tail[..|m.body|] == m.body && tail[|m.body|..] == more;
    if OrderHead(r, head).chunked {
      var b: Body :| ValidBody(b) && BodyBytes(b) == m.body;
      ChunkedBodyEnds(b, more);
    }
  }

  lemma PrependTwice(a: Bytes, b: Bytes, p: Pushed)
    ensures Prepend(a, Prepend(b, p)) == Prepend(a + b, p) && Prepend([], p) == p
  {
    if p.Next? {
      assert a + (b + p.out) == a + b + p.out && [] + p.out == p.out;
    }
  }

  /** On any list of well-formed messages, whatever follows, the one-shot rewriter reorders each head,
      copies each body, and goes on with what follows. */
  lemma {:induction false} OneShotOfMessages(r: Rewriter, messages: seq<Message>, rest: Bytes)
    requires forall i | 0 <= i < |messages| :: ValidMessage(r, messages[i])
    ensures OneShot(r, StreamOf(messages) + rest) == Prepend(RewrittenOf(r, messages), OneShot(r, rest))
    decreases |messages|
  {
    hide OrderHead, HeadText, ValidMessage, OneShot, Prepend;
    if messages == [] {
      assert [] + rest == rest;
      PrependTwice([], [], OneShot(r, rest));
    } else {
      var m, more := messages[0], StreamOf(messages[1..]) + rest;
      var first := OrderHead(r, m.Head()).bytes + m.body;
      assert StreamOf(messages) + rest == m.Head() + (m.body + more);
      OneShotOfMessage(r, m, more);
      OneShotOfMessages(r, messages[1..], rest);
      PrependTwice(first, RewrittenOf(r, messages[1..]), OneShot(r, rest));
    }
  }

  lemma FirstBlankLineInFront(head: Bytes, tail: Bytes)
    requires IsHead(head)
    ensures Index(head + tail, BLANK_LINE) == |head| - 4
  {
    var data := head + tail;
    forall j: nat | j <= |head| - 4
      ensures OccursAt(data, BLANK_LINE, j) <==> OccursAt(head, BLANK_LINE, j)
    {
      assert data[j..j + 4] == head[j..j + 4];
    }
    IndexIs(data, BLANK_LINE, |head| - 4);
  }
}
