/** The incremental parser that finds the end of a chunked request body
    (internal/httpwire/ordered_conn.go, `chunkedRequestTracker`).

    `FeedByte` is the parser one byte at a time and `Feed` its run over a block. The class is the
    source's form, which takes chunk data in blocks; it refines `Feed`. */
module ChunkedBody {
  import opened Wrappers
  import opened ByteText

  const MAX_BUFFERED: nat := 0x10_0000  // maxBufferedRequestHeader, 1 << 20
  const SEMICOLON: byte := 59

  datatype Phase = ReadingSize | ReadingData | ReadingDataCRLF | ReadingTrailers

  datatype Tracker = Tracker(phase: Phase, line: Bytes, dataRemaining: nat, crlfPosition: nat, trailers: Bytes) {
    predicate Valid() {
      && (phase == ReadingData ==> dataRemaining > 0)
      && (phase == ReadingDataCRLF ==> crlfPosition < 2)
    }
  }

  const START: Tracker := Tracker(ReadingSize, [], 0, 0, [])

  datatype ByteResult = Continue(tracker: Tracker) | Finished | Invalid(taken: nat)

  predicate EndsWithCrlf(s: Bytes) {
    |s| >= 2 && s[|s| - 2..] == CRLF
  }

  /** The number on a chunk size line, without its line end and chunk extension. */
  function ChunkSize(line: Bytes): Option<int> {
    var text := TrimSpace(line);
    var extension := Index(text, [SEMICOLON]);
    ParseInt(if extension >= 0 then TrimSpace(text[..extension]) else text, 16)
  }

  predicate TrailersDone(trailers: Bytes) {
    trailers == CRLF || (|trailers| >= 4 && trailers[|trailers| - 4..] == BLANK_LINE)
  }

  function SizeLineByte(t: Tracker, b: byte): (r: ByteResult)
    requires t.phase == ReadingSize
    ensures r.Continue? ==> r.tracker.Valid()
    ensures r.Invalid? ==> r.taken <= 1
  {
    var line := t.line + [b];
    if |line| > MAX_BUFFERED then Invalid(1)
    else if !EndsWithCrlf(line) then Continue(t.(line := line))
    else
      match ChunkSize(line[..|line| - 2])
      case None => Invalid(1)
      case Some(size) =>
        if size < 0 then Invalid(1)
        else if size == 0 then Continue(t.(line := [], phase := ReadingTrailers))
        else Continue(t.(line := [], phase := ReadingData, dataRemaining := size))
  }

  function FeedByte(t: Tracker, b: byte): (r: ByteResult)
    requires t.Valid()
    ensures r.Continue? ==> r.tracker.Valid()
    ensures r.Invalid? ==> r.taken <= 1
  {
    match t.phase
    case ReadingSize => SizeLineByte(t, b)
    case ReadingData =>
      if t.dataRemaining == 1 then Continue(t.(dataRemaining := 0, crlfPosition := 0, phase := ReadingDataCRLF))
      else Continue(t.(dataRemaining := t.dataRemaining - 1))
    case ReadingDataCRLF =>
      if b != CRLF[t.crlfPosition] then Invalid(0)
      else if t.crlfPosition == 1 then Continue(t.(crlfPosition := 2, phase := ReadingSize))
      else Continue(t.(crlfPosition := 1))
    case ReadingTrailers =>
      var trailers := t.trailers + [b];
      if |trailers| > MAX_BUFFERED then Invalid(1)
      else if TrailersDone(trailers) then Finished
      else Continue(t.(trailers := trailers))
  }

  /** The parser is still inside the body, has reached its end, or has met a malformed byte; `consumed`
      counts the bytes of the block it took. */
  datatype Fed = Open(consumed: nat, tracker: Tracker) | Complete(consumed: nat) | Malformed(consumed: nat)

  function Feed(t: Tracker, data: Bytes): (f: Fed)
    requires t.Valid()
    ensures f.consumed <= |data|
    ensures f.Open? ==> f.consumed == |data| && f.tracker.Valid()
    ensures f.Complete? ==> f.consumed > 0
    decreases |data|, 0
  {
    if data == [] then Open(0, t)
    else
      FeedRest(FeedByte(t, data[0]), data[1..])
  }

  function FeedRest(r: ByteResult, rest: Bytes): (f: Fed)
    requires r.Continue? ==> r.tracker.Valid()
    requires r.Invalid? ==> r.taken <= 1
    ensures f.consumed <= |rest| + 1
    ensures f.Open? ==> f.consumed == |rest| + 1 && f.tracker.Valid()
    ensures f.Complete? ==> f.consumed > 0
    decreases |rest|, 1
  {
    match r
    case Invalid(taken) => Malformed(taken)
    case Finished => Complete(1)
    case Continue(t') => After(1, Feed(t', rest))
  }

  /** The outcome of a block with `n` more bytes in front that the parser took. */
  function After(n: nat, f: Fed): Fed {
    match f
    case Open(k, t) => Open(n + k, t)
    case Complete(k) => Complete(n + k)
    case Malformed(k) => Malformed(n + k)
  }

  // ---- the source's form -------------------------------------------------------------------------

  class ChunkedTracker {
    var phase: Phase
    var line: Bytes
    var dataRemaining: nat
    var crlfPosition: nat
    var trailers: Bytes

    ghost function View(): Tracker
      reads this
    {
      Tracker(phase, line, dataRemaining, crlfPosition, trailers)
    }

    constructor ()
      ensures View() == START
    {
      phase, line, dataRemaining, crlfPosition, trailers := ReadingSize, [], 0, 0, [];
    }

    method Clone() returns (cloned: ChunkedTracker)
      ensures fresh(cloned) && cloned.View() == View()
    {
      cloned := new ChunkedTracker();
      cloned.phase, cloned.line, cloned.dataRemaining := phase, line, dataRemaining;
      cloned.crlfPosition, cloned.trailers := crlfPosition, trailers;
    }

    /** The size line case of `consume`. */
    method TakeSizeByte(b: byte) returns (malformed: bool)
      requires phase == ReadingSize
      modifies this
      ensures var r := FeedByte(old(View()), b);
              if malformed then r == Invalid(1) else r == Continue(View())
    {
      line := line + [b];
      if |line| > MAX_BUFFERED {
        return true;
      }
      if !EndsWithCrlf(line) {
        return false;
      }
      var size := ChunkSize(line[..|line| - 2]);
      if size.None? || size.value < 0 {
        return true;
      }
      line := [];
      if size.value == 0 {
        phase := ReadingTrailers;
        return false;
      }
      dataRemaining := size.value;
      phase := ReadingData;
      return false;
    }

    /** The data case: as much of the chunk as `available` bytes allow. */
    method TakeData(available: nat) returns (chunkBytes: nat)
      requires View().Valid() && phase == ReadingData && available > 0
      modifies this
      ensures 0 < chunkBytes <= available && chunkBytes <= old(dataRemaining)
      ensures View() == AfterData(old(View()), chunkBytes)
    {
      chunkBytes := if available < dataRemaining then available else dataRemaining;
      dataRemaining := dataRemaining - chunkBytes;
      if dataRemaining == 0 {
        crlfPosition := 0;
        phase := ReadingDataCRLF;
      }
    }

    /** The case of the line end after the data. */
    method TakeCrlfByte(b: byte) returns (malformed: bool)
      requires View().Valid() && phase == ReadingDataCRLF
      modifies this
      ensures var r := FeedByte(old(View()), b);
              if malformed then r == Invalid(0) else r == Continue(View())
    {
      if b != CRLF[crlfPosition] {
        return true;
      }
      crlfPosition := crlfPosition + 1;
      if crlfPosition == 2 {
        phase := ReadingSize;
      }
      return false;
    }

    /** The trailer case. */
    method TakeTrailerByte(b: byte) returns (completed: bool, malformed: bool)
      requires phase == ReadingTrailers
      modifies this
      ensures var r := FeedByte(old(View()), b);
              if malformed then !completed && r == Invalid(1)
              else if completed then r == Finished
              else r == Continue(View())
    {
      trailers := trailers + [b];
      if |trailers| > MAX_BUFFERED {
        return false, true;
      }
      return TrailersDone(trailers), false;
    }

    /** `consume`: the count of bytes taken, whether the body is complete, whether it is malformed. */
    method Consume(data: Bytes) returns (consumed: nat, completed: bool, malformed: bool)
      requires View().Valid()
      modifies this
      ensures var f := Feed(old(View()), data);
              consumed == f.consumed && completed == f.Complete? && malformed == f.Malformed?
              && (f.Open? ==> View() == f.tracker)
    {
      hide FeedByte, Feed;
      consumed, completed, malformed := 0, false, false;
      ghost var start := View();
      assert data[0..] == data;
      while consumed < |data|
        invariant consumed <= |data| && View().Valid() && !completed && !malformed
        invariant Feed(start, data) == After(consumed, Feed(View(), data[consumed..]))
      {
        ghost var before, rest := View(), data[consumed..];
        assert rest[1..] == data[consumed + 1..];
        FeedFirst(before, rest);
        match phase
        case ReadingSize =>
          malformed := TakeSizeByte(data[consumed]);
          consumed := consumed + 1;
          if malformed {
            return;
          }
        case ReadingData =>
          var chunkBytes := TakeData(|data| - consumed);
          FeedData(before, rest, chunkBytes);
          assert rest[chunkBytes..] == data[consumed + chunkBytes..];
          consumed := consumed + chunkBytes;
        case ReadingDataCRLF =>
          malformed := TakeCrlfByte(data[consumed]);
          if malformed {
            return;
          }
          consumed := consumed + 1;
        case ReadingTrailers =>
          completed, malformed := TakeTrailerByte(data[consumed]);
          consumed := consumed + 1;
          if malformed || completed {
            return;
          }
      }
      FeedNothing(View());
    }
  }

  function AfterData(t: Tracker, k: nat): (t': Tracker)
    requires t.phase == ReadingData && k <= t.dataRemaining
    ensures t.Valid() ==> t'.Valid()
  {
    if k == t.dataRemaining then t.(dataRemaining := 0, crlfPosition := 0, phase := ReadingDataCRLF)
    else t.(dataRemaining := t.dataRemaining - k)
  }

  lemma FeedFirst(t: Tracker, data: Bytes)
    requires t.Valid() && data != []
    ensures Feed(t, data) == FeedRest(FeedByte(t, data[0]), data[1..])
  {
  }

  lemma FeedNothing(t: Tracker)
    requires t.Valid()
    ensures Feed(t, []) == Open(0, t)
  {
  }

  /** Chunk data may be taken in a block. */
  lemma {:induction false} FeedData(t: Tracker, data: Bytes, k: nat)
    requires t.Valid() && t.phase == ReadingData && k <= t.dataRemaining && k <= |data|
    ensures Feed(t, data) == After(k, Feed(AfterData(t, k), data[k..]))
    decreases k
  {
    if k == 0 {
      assert data[0..] == data;
    } else if k > 1 {
      FeedData(AfterData(t, 1), data[1..], k - 1);
      assert data[1..][k - 1..] == data[k..];
    }
  }

  // ---- splitting the body anywhere ---------------------------------------------------------------

  /** Feeding a then b is feeding a + b, as long as a leaves the body open; once a completes the body
      or breaks it, what follows does not matter. */
  lemma {:induction false} FeedSplit(t: Tracker, a: Bytes, b: Bytes)
    requires t.Valid()
    ensures var fa := Feed(t, a);
            Feed(t, a + b) == if fa.Open? then After(|a|, Feed(fa.tracker, b)) else fa
    decreases |a|
  {
    if a == [] {
      assert a + b == b;
    } else {
      assert (a + b)[0] == a[0] && (a + b)[1..] == a[1..] + b;
      var step := FeedByte(t, a[0]);
      if step.Continue? {
        FeedSplit(step.tracker, a[1..], b);
      }
    }
  }

  /** The preview on a clone and the later real pass over the bytes that were written agree: the real
      pass never fails, and completes exactly when all of a completing preview was written. */
  lemma FeedPrefix(t: Tracker, data: Bytes, written: nat)
    requires t.Valid() && !Feed(t, data).Malformed? && written <= Feed(t, data).consumed
    ensures !Feed(t, data[..written]).Malformed?
    ensures Feed(t, data[..written]).consumed == written
    ensures Feed(t, data[..written]).Complete? <==> Feed(t, data).Complete? && written == Feed(t, data).consumed
  {
    FeedSplit(t, data[..written], data[written..]);
    assert data == data[..written] + data[written..];
    var f := Feed(t, data[..written]);
    if f.Open? && Feed(t, data).Complete? {
      assert Feed(f.tracker, data[written..]).consumed > 0;
    }
  }
}
