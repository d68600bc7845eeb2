/** Reordering the header lines of one buffered HTTP/1.1 request head
    (internal/httpwire/ordered_conn.go, `orderRequestHeader` and its helpers).

    The loops of the source are the method `OrderRequestHeader`; what they compute is the function
    `OrderHead`, a stable sort of the header lines by the first desired name each line matches. */
module HeaderOrder {
  import opened Wrappers
  import opened ByteText
  import opened StableSort

  /** The two parts of the environment the rewriter depends on: the caller's desired name order for a
      method and request target, and the case folding behind `strings.EqualFold`. */
  datatype Rewriter = Rewriter(order: (Bytes, Bytes) -> seq<Bytes>, fold: Bytes -> Bytes)

  datatype Ordered = Ordered(bytes: Bytes, contentLength: nat, chunked: bool)

  predicate EqualFold(r: Rewriter, a: Bytes, b: Bytes) {
    r.fold(a) == r.fold(b)
  }

  predicate Named(r: Rewriter, line: Bytes, name: Bytes) {
    var colon := Index(line, [COLON]);
    colon > 0 && EqualFold(r, line[..colon], name)
  }

  // ---- what the header lines say about the body --------------------------------------------------

  const CONTENT_LENGTH: Bytes := Ascii("Content-Length")
  const TRANSFER_ENCODING: Bytes := Ascii("Transfer-Encoding")
  const CHUNKED: Bytes := Ascii("chunked")

  function FieldValue(line: Bytes): Bytes {
    var colon := Index(line, [COLON]);
    if colon < 0 then [] else line[colon + 1..]
  }

  /** Only the first Content-Length line counts, and anything but a positive number means 0. */
  function ContentLength(r: Rewriter, lines: seq<Bytes>): nat {
    if lines == [] then 0
    else if Named(r, lines[0], CONTENT_LENGTH) then
      match ParseInt(TrimSpace(FieldValue(lines[0])), 10)
      case Some(n) => if n > 0 then n else 0
      case None => 0
    else ContentLength(r, lines[1..])
  }

  predicate NamesChunked(r: Rewriter, line: Bytes) {
    Named(r, line, TRANSFER_ENCODING) &&
    exists coding | coding in Split(FieldValue(line), [44]) :: EqualFold(r, TrimSpace(coding), CHUNKED)
  }

  predicate UsesChunked(r: Rewriter, lines: seq<Bytes>) {
    exists line | line in lines :: NamesChunked(r, line)
  }

  // ---- request heads -----------------------------------------------------------------------------

  /** A complete head: the blank line closes it and does not occur earlier. */
  predicate IsHead(head: Bytes) {
    |head| >= 4 && Index(head, BLANK_LINE) == |head| - 4
  }

  /** Request line and header lines of a head. */
  function HeadLines(head: Bytes): (lines: seq<Bytes>)
    requires |head| >= 4
    ensures |lines| >= 1
  {
    Split(head[..|head| - 4], CRLF)
  }

  function Emit(lines: seq<Bytes>): Bytes {
    if lines == [] then [] else Emit(lines[..|lines| - 1]) + lines[|lines| - 1] + CRLF
  }

  /** The desired names for a request line; none when the line does not have three parts. */
  function Desired(r: Rewriter, requestLine: Bytes): seq<Bytes> {
    var first := IndexFrom(requestLine, [SPACE], 0);
    if first < 0 then []
    else
      var second := IndexFrom(requestLine, [SPACE], first + 1);
      if second < 0 then [] else r.order(requestLine[..first], requestLine[first + 1..second])
  }

  // ---- the stable sort ---------------------------------------------------------------------------

  /** Position of the first desired name that `line` matches; past the end when there is none. */
  function Rank(r: Rewriter, desired: seq<Bytes>, line: Bytes): (k: nat)
    ensures k <= |desired|
    ensures k < |desired| ==> Named(r, line, desired[k])
    ensures forall i | 0 <= i < k :: !Named(r, line, desired[i])
  {
    if desired == [] then 0
    else if Named(r, line, desired[0]) then 0
    else
      var k := Rank(r, desired[1..], line);
      assert forall i | 1 <= i <= k :: desired[i] == desired[1..][i - 1];
      k + 1
  }

  /** `Rank` as the sort key of a line. */
  function RankIn(r: Rewriter, desired: seq<Bytes>): Bytes -> nat {
    (line: Bytes) => Rank(r, desired, line)
  }

  function Sorted(r: Rewriter, desired: seq<Bytes>, lines: seq<Bytes>): seq<Bytes> {
    ByRank(RankIn(r, desired), lines, |desired| + 1)
  }

  function OrderHead(r: Rewriter, head: Bytes): Ordered
    requires |head| >= 4
  {
    var lines := HeadLines(head);
    var desired := Desired(r, lines[0]);
    Ordered(if desired == [] then head else Emit([lines[0]] + Sorted(r, desired, lines[1..])) + CRLF,
            ContentLength(r, lines[1..]), UsesChunked(r, lines[1..]))
  }

  /** The two passes of `orderRequestHeader` over its `used` marks. */
  method Arrange(r: Rewriter, desired: seq<Bytes>, headerLines: seq<Bytes>) returns (orderedLines: seq<Bytes>)
    ensures orderedLines == Sorted(r, desired, headerLines)
  {
    ghost var rank := RankIn(r, desired);
    RankDecides(r, desired);
    hide Rank, RankIn, Named, OfRank;
    var used := new bool[|headerLines|](_ => false);
    orderedLines := [];
    for d := 0 to |desired|
      invariant orderedLines == ByRank(rank, headerLines, d)
      invariant forall i | 0 <= i < |headerLines| :: used[i] <==> rank(headerLines[i]) < d
    {
      orderedLines := CollectNamed(r, desired, headerLines, used, d, orderedLines, rank);
    }
    orderedLines := CollectRest(headerLines, used, orderedLines, |desired|, rank);
  }

  /** Whether a line is named by the desired name `d` settles its rank once the earlier names missed. */
  lemma RankDecides(r: Rewriter, desired: seq<Bytes>)
    ensures forall line {:trigger RankIn(r, desired)(line)} :: RankIn(r, desired)(line) <= |desired|
    ensures forall line, d: nat {:trigger Named(r, line, desired[d])} ::
              d < |desired| && d <= RankIn(r, desired)(line)
              ==> (Named(r, line, desired[d]) <==> RankIn(r, desired)(line) == d)
  {
  }

  /** The lines no desired name matched. */
  method CollectRest(headerLines: seq<Bytes>, used: array<bool>, before: seq<Bytes>, d: nat, ghost rank: Bytes -> nat)
    returns (orderedLines: seq<Bytes>)
    requires used.Length == |headerLines|
    requires forall i | 0 <= i < |headerLines| :: rank(headerLines[i]) <= d
    requires forall i | 0 <= i < |headerLines| :: used[i] <==> rank(headerLines[i]) < d
    ensures orderedLines == before + OfRank(rank, headerLines, d)
  {
    orderedLines := before;
    for i := 0 to |headerLines|
      invariant orderedLines == before + OfRank(rank, headerLines[..i], d)
    {
      OfRankSnoc(rank, headerLines[..i], headerLines[i], d);
      assert headerLines[..i + 1] == headerLines[..i] + [headerLines[i]];
      if !used[i] {
        orderedLines := orderedLines + [headerLines[i]];
      }
    }
    assert headerLines[..|headerLines|] == headerLines;
  }

  /** One pass for one desired name. */
  method CollectNamed(r: Rewriter, desired: seq<Bytes>, headerLines: seq<Bytes>, used: array<bool>, d: nat,
                      before: seq<Bytes>, ghost rank: Bytes -> nat)
    returns (orderedLines: seq<Bytes>)
    requires d < |desired| && used.Length == |headerLines|
    requires forall line | d <= rank(line) :: Named(r, line, desired[d]) <==> rank(line) == d
    requires forall i | 0 <= i < |headerLines| :: used[i] <==> rank(headerLines[i]) < d
    modifies used
    ensures orderedLines == before + OfRank(rank, headerLines, d)
    ensures forall i | 0 <= i < |headerLines| :: used[i] <==> rank(headerLines[i]) < d + 1
  {
    hide Named;
    orderedLines := before;
    for i := 0 to |headerLines|
      invariant orderedLines == before + OfRank(rank, headerLines[..i], d)
      invariant forall j | 0 <= j < i :: used[j] <==> rank(headerLines[j]) < d + 1
      invariant forall j | i <= j < |headerLines| :: used[j] <==> rank(headerLines[j]) < d
    {
      OfRankSnoc(rank, headerLines[..i], headerLines[i], d);
      assert headerLines[..i + 1] == headerLines[..i] + [headerLines[i]];
      if !used[i] && Named(r, headerLines[i], desired[d]) {
        orderedLines := orderedLines + [headerLines[i]];
        used[i] := true;
      }
    }
    assert headerLines[..|headerLines|] == headerLines;
  }

  /** `orderRequestHeader`. */
  method OrderRequestHeader(r: Rewriter, header: Bytes) returns (ordered: Ordered)
    requires |header| >= 4
    ensures ordered == OrderHead(r, header)
  {
    var lines := Split(header[..|header| - 4], CRLF);
    var desired := Desired(r, lines[0]);
    if desired == [] {
      return Ordered(header, ContentLength(r, lines[1..]), UsesChunked(r, lines[1..]));
    }
    var headerLines := lines[1..];
    var rest := Arrange(r, desired, headerLines);
    var orderedLines := [lines[0]] + rest;
    var output := [];
    for i := 0 to |orderedLines|
      invariant output == Emit(orderedLines[..i])
    {
      assert orderedLines[..i + 1][..i] == orderedLines[..i];
      output := output + orderedLines[i] + CRLF;
    }
    assert orderedLines[..|orderedLines|] == orderedLines;
    ordered := Ordered(output + CRLF, ContentLength(r, headerLines), UsesChunked(r, headerLines));
  }

}
