/** What reordering a request head keeps: the lines, the length, the order of same-named lines
    (section 5.3 of RFC 9110), the closing blank line, and the body framing (section 6.3 of RFC 9112). */
module HeaderLaws {
  import opened Wrappers
  import opened ByteText
  import opened StableSort
  import opened HeaderOrder

  // ---- heads are lines, each closed by CRLF, and one more CRLF ------------------------------------

  ghost predicate CrlfFree(lines: seq<Bytes>) {
    |lines| >= 1 && forall i | 0 <= i < |lines| :: NoCrlf(lines[i])
  }

  ghost predicate HeadLike(lines: seq<Bytes>) {
    CrlfFree(lines) && forall i | 1 <= i < |lines| :: lines[i] != []
  }

  lemma EmitOne(x: Bytes)
    ensures Emit([x]) == x + CRLF
  {
    assert [x][..0] == [];
    assert Emit([x]) == Emit([]) + x + CRLF;
  }

  lemma {:induction false} EmitAppend(a: seq<Bytes>, b: seq<Bytes>)
    ensures Emit(a + b) == Emit(a) + Emit(b)
    decreases |b|
  {
    if b == [] {
      assert a + b == a;
    } else {
      assert (a + b)[..|a + b| - 1] == a + b[..|b| - 1];
      EmitAppend(a, b[..|b| - 1]);
    }
  }

  lemma EmitFront(lines: seq<Bytes>)
    requires |lines| >= 1
    ensures Emit(lines) == lines[0] + CRLF + Emit(lines[1..])
  {
    EmitOne(lines[0]);
    EmitAppend([lines[0]], lines[1..]);
    assert lines == [lines[0]] + lines[1..];
  }

  lemma {:induction false} EmitIsJoin(lines: seq<Bytes>)
    requires |lines| >= 1
    ensures Emit(lines) == Join(lines, CRLF) + CRLF
    decreases |lines|
  {
    EmitFront(lines);
    if |lines| > 1 {
      EmitIsJoin(lines[1..]);
      assert Emit(lines) == lines[0] + CRLF + (Join(lines[1..], CRLF) + CRLF);
      assert Emit(lines) == (lines[0] + CRLF + Join(lines[1..], CRLF)) + CRLF;
    } else {
      assert lines[1..] == [];
    }
  }

  lemma HeadIsEmitted(head: Bytes)
    requires |head| >= 4 && head[|head| - 4..] == BLANK_LINE
    ensures head == Emit(HeadLines(head)) + CRLF
  {
    var body := head[..|head| - 4];
    EmitIsJoin(HeadLines(head));
    assert BLANK_LINE == CRLF + CRLF;
    assert head == body + BLANK_LINE == (body + CRLF) + CRLF;
  }

  /** The first line end after a CRLF-free line is its own. */
  lemma FirstLineEnd(line: Bytes, tail: Bytes)
    requires NoCrlf(line)
    ensures CrlfAt(line + CRLF + tail, |line|)
    ensures forall j: nat | j < |line| :: !CrlfAt(line + CRLF + tail, j)
  {
    var text := line + CRLF + tail;
    assert text[|line|] == 13 && text[|line| + 1] == 10;
    forall j: nat | j < |line|
      ensures !CrlfAt(text, j)
    {
      assert text[j] == line[j];
      assert !CrlfAt(line, j);
    }
  }

  lemma {:induction false} SplitOfJoin(lines: seq<Bytes>)
    requires CrlfFree(lines)
    ensures Split(Join(lines, CRLF), CRLF) == lines
    decreases |lines|
  {
    var joined := Join(lines, CRLF);
    if |lines| > 1 {
      var n := |lines[0]|;
      var tail := Join(lines[1..], CRLF);
      FirstLineEnd(lines[0], tail);
      forall j: nat | j <= n
        ensures OccursAt(joined, CRLF, j) <==> CrlfAt(joined, j)
      {
        OccursBytewise(joined, j);
      }
      IndexIs(joined, CRLF, n);
      assert joined[..n] == lines[0] && joined[n + 2..] == tail;
      SplitOfJoin(lines[1..]);
      assert lines == [lines[0]] + lines[1..];
    } else {
      NoCrlfBytewise(joined);
      assert lines == [lines[0]];
    }
  }

  lemma EmitEndsWithCrlf(lines: seq<Bytes>)
    requires lines != []
    ensures |Emit(lines)| >= 2 && CrlfAt(Emit(lines), |Emit(lines)| - 2)
  {
  }

  /** Head-like lines have no blank line before the very end. */
  lemma {:induction false} NoEarlyBlankLine(lines: seq<Bytes>)
    requires HeadLike(lines)
    ensures var head := Emit(lines) + CRLF;
            forall j: nat | j < |head| - 4 :: !BlankLineAt(head, j)
    decreases |lines|
  {
    var head := Emit(lines) + CRLF;
    var line, tail := lines[0], Emit(lines[1..]) + CRLF;
    EmitFront(lines);
    assert head == line + CRLF + tail;
    FirstLineEnd(line, tail);
    if |lines| > 1 {
      NoEarlyBlankLine(lines[1..]);
      EmitFront(lines[1..]);
      FirstLineEnd(lines[1], Emit(lines[1..][1..]) + CRLF);
      assert tail == lines[1] + CRLF + (Emit(lines[1..][1..]) + CRLF);
      assert !CrlfAt(tail, 0);
      forall j: nat | j < |head| - 4
        ensures !BlankLineAt(head, j)
      {
        var k := j - |line| - 2;
        if k >= 0 {
          assert !BlankLineAt(tail, k);
          assert head[j..] == tail[k..];
          assert head[j] == head[j..][0] && head[j + 1] == head[j..][1]
              && head[j + 2] == head[j..][2] && head[j + 3] == head[j..][3];
        } else if k == -1 {
          assert head[j] == 10;
        } else if k == -2 {
          assert head[j + 2] == tail[0] && head[j + 3] == tail[1];
        } else {
          assert !CrlfAt(head, j);
        }
      }
    } else {
      assert lines[1..] == [] && tail == CRLF;
      forall j: nat | j < |head| - 4
        ensures !BlankLineAt(head, j)
      {
        assert !CrlfAt(head, j);
      }
    }
  }

  /** The text of head-like lines has its first blank line at the very end. */
  lemma EmittedIsHead(lines: seq<Bytes>)
    requires HeadLike(lines)
    ensures IsHead(Emit(lines) + CRLF)
  {
    var head := Emit(lines) + CRLF;
    var n := |head| - 4;
    NoEarlyBlankLine(lines);
    EmitEndsWithCrlf(lines);
    assert BlankLineAt(head, n);
    forall j: nat | j <= n
      ensures OccursAt(head, BLANK_LINE, j) <==> BlankLineAt(head, j)
    {
      OccursBytewise(head, j);
    }
    IndexIs(head, BLANK_LINE, n);
  }

  /** Splitting the text of CRLF-free lines gives the lines back. */
  lemma LinesOfEmitted(lines: seq<Bytes>)
    requires CrlfFree(lines)
    ensures |Emit(lines) + CRLF| >= 4 && HeadLines(Emit(lines) + CRLF) == lines
  {
    hide Emit, Join;
    EmitIsJoin(lines);
    var head := Emit(lines) + CRLF;
    assert head[..|head| - 4] == Join(lines, CRLF);
    SplitOfJoin(lines);
  }

  lemma HeadLinesAreCrlfFree(head: Bytes)
    requires |head| >= 4
    ensures CrlfFree(HeadLines(head))
  {
    var lines := HeadLines(head);
    forall i | 0 <= i < |lines|
      ensures NoCrlf(lines[i])
    {
      assert lines[i] in lines;
      NoCrlfBytewise(lines[i]);
    }
  }

  /** An empty line after the first makes a blank line before the end. */
  lemma EmptyLineShows(lines: seq<Bytes>, i: nat)
    requires 1 <= i < |lines| && lines[i] == []
    ensures var head := Emit(lines) + CRLF;
            exists j: nat :: j < |head| - 4 && BlankLineAt(head, j)
  {
    var before, after := Emit(lines[..i]), Emit(lines[i..][1..]);
    EmitEndsWithCrlf(lines[..i]);
    assert lines == lines[..i] + lines[i..];
    EmitAppend(lines[..i], lines[i..]);
    EmitFront(lines[i..]);
    assert [] + CRLF + after == CRLF + after;
    var head := Emit(lines) + CRLF;
    assert head == before + (CRLF + after) + CRLF;
    assert BlankLineAt(head, |before| - 2);
  }

  lemma LinesAreHeadLike(head: Bytes)
    requires IsHead(head)
    ensures HeadLike(HeadLines(head))
    ensures head == Emit(HeadLines(head)) + CRLF
  {
    assert head[|head| - 4..] == BLANK_LINE;
    HeadIsEmitted(head);
    HeadLinesAreCrlfFree(head);
    var lines := HeadLines(head);
    forall j: nat | j < |head| - 4
      ensures !BlankLineAt(head, j)
    {
      OccursBytewise(head, j);
    }
    forall i | 1 <= i < |lines|
      ensures lines[i] != []
    {
      if lines[i] == [] {
        EmptyLineShows(lines, i);
      }
    }
  }

  // ---- length ------------------------------------------------------------------------------------

  lemma {:induction false} EmitLengthOfPermutation(a: seq<Bytes>, b: seq<Bytes>)
    requires multiset(a) == multiset(b)
    ensures |Emit(a)| == |Emit(b)|
    decreases |a|
  {
    if a == [] {
      assert |multiset(a)| == |a| && |multiset(b)| == |b|;
    } else {
      var front, x := a[..|a| - 1], a[|a| - 1];
      assert a == front + [x];
      assert x in multiset(b);
      var i :| 0 <= i < |b| && b[i] == x;
      var before, after := b[..i], b[i + 1..];
      assert b == before + [x] + after;
      assert multiset(before + after) == multiset(b) - multiset{x};
      EmitLengthOfPermutation(front, before + after);
      EmitAppend(before, after);
      EmitAppend(before + [x], after);
      assert (before + [x])[..i] == before;
    }
  }

  // ---- same-named lines --------------------------------------------------------------------------

  function NamedAs(r: Rewriter, name: Bytes): Bytes -> bool {
    (line: Bytes) => Named(r, line, name)
  }

  /** Lines with one name match the same desired names. */
  lemma {:induction false} SameNameSameRank(r: Rewriter, desired: seq<Bytes>, x: Bytes, y: Bytes, name: Bytes)
    requires Named(r, x, name) && Named(r, y, name)
    ensures Rank(r, desired, x) == Rank(r, desired, y)
    decreases |desired|
  {
    if desired != [] {
      assert Named(r, x, desired[0]) <==> Named(r, y, desired[0]);
      SameNameSameRank(r, desired[1..], x, y, name);
    }
  }

  lemma SortedKeepsNamed(r: Rewriter, desired: seq<Bytes>, lines: seq<Bytes>, name: Bytes)
    ensures Filter(NamedAs(r, name), Sorted(r, desired, lines)) == Filter(NamedAs(r, name), lines)
  {
    var p, rank := NamedAs(r, name), RankIn(r, desired);
    if x :| p(x) {
      var m := rank(x);
      forall y | p(y)
        ensures rank(y) == m
      {
        SameNameSameRank(r, desired, x, y, name);
      }
      FilterByRank(rank, p, m, lines, |desired| + 1);
    } else {
      FilterNone(p, lines);
      FilterNone(p, Sorted(r, desired, lines));
    }
  }

  lemma {:induction false} FilterNone<T(!new)>(p: T -> bool, items: seq<T>)
    requires forall x :: !p(x)
    ensures Filter(p, items) == []
  {
    if items != [] {
      FilterNone(p, items[..|items| - 1]);
    }
  }

  /** The first Content-Length line decides: its number when that is positive, and 0 in every other case. */
  lemma {:induction false} ContentLengthIs(r: Rewriter, lines: seq<Bytes>, i: nat)
    requires i <= |lines| && forall j | 0 <= j < i :: !Named(r, lines[j], CONTENT_LENGTH)
    requires i < |lines| ==> Named(r, lines[i], CONTENT_LENGTH)
    ensures var n := ContentLength(r, lines);
      if i == |lines| then n == 0
      else match ParseInt(TrimSpace(FieldValue(lines[i])), 10)
        case Some(v) => if v > 0 then n == v else n == 0
        case None => n == 0
  {
    hide ParseInt, TrimSpace, FieldValue, Named;
    if i > 0 {
      assert forall j | 0 <= j < i - 1 :: lines[1..][j] == lines[j + 1];
      ContentLengthIs(r, lines[1..], i - 1);
    }
  }

  /** Content-Length is decided by the Content-Length lines alone, in order. */
  lemma {:induction false} ContentLengthByName(r: Rewriter, lines: seq<Bytes>)
    ensures ContentLength(r, lines) == ContentLength(r, Filter(NamedAs(r, CONTENT_LENGTH), lines))
    decreases |lines|
  {
    var p := NamedAs(r, CONTENT_LENGTH);
    if lines != [] {
      var x, rest := lines[0], lines[1..];
      ContentLengthByName(r, rest);
      assert lines == [x] + rest;
      FilterAppend(p, [x], rest);
      assert [x][..0] == [];
      if p(x) {
        var kept := Filter(p, lines);
        assert kept == [x] + Filter(p, rest);
      } else {
        assert Filter(p, lines) == Filter(p, rest);
      }
    }
  }

  lemma UsesChunkedOfPermutation(r: Rewriter, a: seq<Bytes>, b: seq<Bytes>)
    requires multiset(a) == multiset(b)
    ensures UsesChunked(r, a) == UsesChunked(r, b)
  {
    assert forall line :: line in a <==> line in multiset(a);
    assert forall line :: line in b <==> line in multiset(b);
  }

  // ---- the main results --------------------------------------------------------------------------

  lemma SortedFacts(r: Rewriter, desired: seq<Bytes>, lines: seq<Bytes>)
    ensures multiset(Sorted(r, desired, lines)) == multiset(lines)
    ensures Sorted(r, desired, Sorted(r, desired, lines)) == Sorted(r, desired, lines)
    ensures ContentLength(r, Sorted(r, desired, lines)) == ContentLength(r, lines)
    ensures UsesChunked(r, Sorted(r, desired, lines)) == UsesChunked(r, lines)
  {
    var rank, d := RankIn(r, desired), |desired| + 1;
    assert Below(rank, lines, d);
    ByRankPermutes(rank, lines, d);
    ByRankInOrder(rank, lines, d);
    ByRankIsFixed(rank, ByRank(rank, lines, d), d);
    SortedKeepsNamed(r, desired, lines, CONTENT_LENGTH);
    ContentLengthByName(r, lines);
    ContentLengthByName(r, Sorted(r, desired, lines));
    UsesChunkedOfPermutation(r, lines, Sorted(r, desired, lines));
  }

  lemma PermutedHeadLike(first: Bytes, a: seq<Bytes>, b: seq<Bytes>)
    requires HeadLike([first] + a) && multiset(a) == multiset(b)
    ensures HeadLike([first] + b)
  {
    assert NoCrlf(([first] + a)[0]);
    forall i | 0 <= i < |b|
      ensures b[i] != [] && NoCrlf(b[i])
    {
      assert b[i] in multiset(a);
      var j :| 0 <= j < |a| && a[j] == b[i];
      assert ([first] + a)[j + 1] == b[i];
    }
  }

  /** The lines of the reordered head: the request line stays first, the header lines are the stable
      sort by first desired name. */
  lemma OrderedLines(r: Rewriter, head: Bytes)
    requires IsHead(head)
    ensures var lines := HeadLines(head);
            var now := [lines[0]] + Sorted(r, Desired(r, lines[0]), lines[1..]);
            HeadLike(now) && OrderHead(r, head).bytes == Emit(now) + CRLF
  {
    var lines := HeadLines(head);
    var desired := Desired(r, lines[0]);
    LinesAreHeadLike(head);
    assert lines == [lines[0]] + lines[1..];
    SortedFacts(r, desired, lines[1..]);
    PermutedHeadLike(lines[0], lines[1..], Sorted(r, desired, lines[1..]));
    if desired == [] {
      ByRankIsFixed(RankIn(r, desired), lines[1..], 1);
    }
  }

  /** Reordering keeps the set of lines with their multiplicity, the request line, the total length and
      the position of the first blank line; same-named lines keep their order; the body framing read
      from the new head is the one read from the old head; and reordering again changes nothing. */
  lemma ReorderingLaws(r: Rewriter, head: Bytes)
    requires IsHead(head)
    ensures var now := OrderHead(r, head).bytes;
            && IsHead(now)
            && |now| == |head|
            && HeadLines(now)[0] == HeadLines(head)[0]
            && multiset(HeadLines(now)) == multiset(HeadLines(head))
            && (forall name: Bytes ::
                  Filter(NamedAs(r, name), HeadLines(now)[1..]) == Filter(NamedAs(r, name), HeadLines(head)[1..]))
            && OrderHead(r, now) == OrderHead(r, head)
  {
    var lines := HeadLines(head);
    var desired := Desired(r, lines[0]);
    var rest := Sorted(r, desired, lines[1..]);
    var sorted := [lines[0]] + rest;
    var now := OrderHead(r, head).bytes;
    OrderedLines(r, head);
    LinesAreHeadLike(head);
    EmittedIsHead(sorted);
    LinesOfEmitted(sorted);
    SortedFacts(r, desired, lines[1..]);
    assert sorted[1..] == rest;
    assert lines == [lines[0]] + lines[1..];
    assert multiset(sorted) == multiset(lines);
    EmitLengthOfPermutation(sorted, lines);
    forall name: Bytes
      ensures Filter(NamedAs(r, name), rest) == Filter(NamedAs(r, name), lines[1..])
    {
      SortedKeepsNamed(r, desired, lines[1..], name);
    }
    OrderedLines(r, now);
  }
}
