/** Cumulative replay items of the Codex cache (internal/cache/codex_reasoning_replay_cache.go): how one
    turn is appended and how the list is trimmed to its limits. */
module CodexReplay {
  import opened Wrappers
  import opened ByteText

  /** A stored item, as `type` and `id` read it: a turn-boundary marker, or an output item. */
  datatype Item = Turn(id: string, raw: Bytes) | Output(raw: Bytes)

  type Items = seq<Item>

  datatype Limits = Limits(maxTurns: nat, maxBytes: nat)

  function TotalBytes(items: Items): nat {
    if items == [] then 0 else TotalBytes(items[..|items| - 1]) + |items[|items| - 1].raw|
  }

  /** How many markers stand after the first item. */
  function LaterTurns(items: Items): nat {
    if |items| <= 1 then 0
    else LaterTurns(items[..|items| - 1]) + if items[|items| - 1].Turn? then 1 else 0
  }

  predicate Fits(l: Limits, items: Items) {
    1 + LaterTurns(items) <= l.maxTurns && TotalBytes(items) <= l.maxBytes
  }

  /** A list may start anew at its first item or at a marker. */
  predicate Boundary(items: Items, j: nat) {
    j == 0 || (j < |items| && items[j].Turn?)
  }

  /** The part of `items` from `j` on starts at a boundary and fits, and no longer part does. */
  ghost predicate FirstFit(l: Limits, items: Items, j: nat) {
    Boundary(items, j) && Fits(l, items[j..]) && NoFitBefore(l, items, j)
  }

  ghost predicate NoFitBefore(l: Limits, items: Items, j: nat) {
    forall i: nat | i < j && Boundary(items, i) :: !Fits(l, items[i..])
  }

  /** `r` is the longest part of `items` that starts at a boundary, runs to the end and fits; nothing when
      no such part fits. */
  ghost predicate LongestFit(l: Limits, items: Items, r: Items) {
    || (exists j: nat :: FirstFit(l, items, j) && r == items[j..])
    || (r == [] && NoFitBefore(l, items, |items| + 1))
  }

  /** The first marker after the first item. */
  function NextTurn(items: Items, from: nat): (n: Option<nat>)
    requires from >= 1
    ensures n.Some? ==> from <= n.value < |items| && items[n.value].Turn?
    ensures n.Some? ==> forall i | from <= i < n.value :: !items[i].Turn?
    ensures n.None? ==> forall i | from <= i < |items| :: !items[i].Turn?
    decreases |items| - from
  {
    if from >= |items| then None
    else if items[from].Turn? then Some(from)
    else NextTurn(items, from + 1)
  }

  function Trim(l: Limits, items: Items): Items
    decreases |items|
  {
    if Fits(l, items) then items
    else if NextTurn(items, 1).None? then []
    else Trim(l, items[NextTurn(items, 1).value..])
  }

  /** The loop that measures a list: where its turns start, and its bytes. */
  method Measure(items: Items) returns (turnStarts: seq<nat>, totalBytes: nat)
    ensures totalBytes == TotalBytes(items) && |turnStarts| == 1 + LaterTurns(items)
    ensures if |turnStarts| > 1 then NextTurn(items, 1) == Some(turnStarts[1]) else NextTurn(items, 1).None?
  {
    turnStarts := [0];
    totalBytes := 0;
    for index := 0 to |items|
      invariant totalBytes == TotalBytes(items[..index])
      invariant |turnStarts| == 1 + LaterTurns(items[..index])
      invariant if |turnStarts| > 1
                then NextTurn(items, 1) == Some(turnStarts[1])
                else forall i | 1 <= i < index :: !items[i].Turn?
    {
      assert items[..index + 1][..index] == items[..index];
      totalBytes := totalBytes + |items[index].raw|;
      if index > 0 && items[index].Turn? {
        if |turnStarts| == 1 {
          NextTurnIs(items, index);
        }
        turnStarts := turnStarts + [index];
      }
    }
    assert items[..|items|] == items;
  }

  /** `trimCodexReasoningReplayItems`: measure, and drop the first turn until what is left fits. */
  method TrimItems(l: Limits, given: Items) returns (items: Items)
    ensures items == Trim(l, given)
  {
    items := given;
    while true
      invariant Trim(l, items) == Trim(l, given)
      decreases |items|
    {
      var turnStarts, totalBytes := Measure(items);
      if |turnStarts| <= l.maxTurns && totalBytes <= l.maxBytes {
        return;
      }
      if |turnStarts| <= 1 {
        return [];
      }
      items := items[turnStarts[1]..];
    }
  }

  lemma NextTurnIs(items: Items, index: nat)
    requires 1 <= index < |items| && items[index].Turn? && forall i | 1 <= i < index :: !items[i].Turn?
    ensures NextTurn(items, 1) == Some(index)
  {
  }

  // ---- measuring parts of a list -----------------------------------------------------------------

  lemma {:induction false} TotalBytesSplit(a: Items, b: Items)
    ensures TotalBytes(a + b) == TotalBytes(a) + TotalBytes(b)
    decreases |b|
  {
    if b == [] {
      assert a + b == a;
    } else {
      assert (a + b)[..|a + b| - 1] == a + b[..|b| - 1];
      TotalBytesSplit(a, b[..|b| - 1]);
    }
  }

  lemma {:induction false} LaterTurnsSplit(a: Items, b: Items)
    requires a != []
    ensures LaterTurns(a + b) == LaterTurns(a) + (if b != [] && b[0].Turn? then 1 else 0) + LaterTurns(b)
    decreases |b|
  {
    if b == [] {
      assert a + b == a;
    } else {
      assert (a + b)[..|a + b| - 1] == a + b[..|b| - 1];
      LaterTurnsSplit(a, b[..|b| - 1]);
    }
  }

  // ---- trimming keeps the longest part that fits --------------------------------------------------

  /** When the whole list does not fit, its parts are those from the next marker on. */
  lemma FitAfterFirst(l: Limits, items: Items, n: nat, j: nat)
    requires !Fits(l, items) && NextTurn(items, 1) == Some(n)
    requires NoFitBefore(l, items[n..], j)
    ensures NoFitBefore(l, items, n + j)
    ensures FirstFit(l, items[n..], j) ==> FirstFit(l, items, n + j) && items[n + j..] == items[n..][j..]
  {
    hide Fits;
    var rest := items[n..];
    forall i: nat | i < n + j && Boundary(items, i)
      ensures !Fits(l, items[i..])
    {
      if i == 0 {
        assert items[0..] == items;
      } else {
        assert Boundary(rest, i - n) && items[i..] == rest[i - n..];
      }
    }
    if Boundary(rest, j) {
      assert items[n + j..] == rest[j..];
    }
  }

  lemma {:induction false} TrimIsLongestFit(l: Limits, items: Items)
    ensures LongestFit(l, items, Trim(l, items))
    decreases |items|
  {
    hide Fits;
    assert items[0..] == items;
    if Fits(l, items) {
      assert FirstFit(l, items, 0);
    } else if NextTurn(items, 1).Some? {
      var n := NextTurn(items, 1).value;
      var rest := items[n..];
      TrimIsLongestFit(l, rest);
      var r := Trim(l, rest);
      if j: nat :| FirstFit(l, rest, j) && r == rest[j..] {
        FitAfterFirst(l, items, n, j);
      } else {
        FitAfterFirst(l, items, n, |rest| + 1);
      }
    }
  }

  lemma LongestFitIsUnique(l: Limits, items: Items, r: Items, r': Items)
    requires LongestFit(l, items, r) && LongestFit(l, items, r')
    ensures r == r'
  {
    hide Fits;
  }

  lemma OverStaysOver(l: Limits, a: Items, b: Items)
    requires !Fits(l, a) && b != [] && b[0].Turn?
    ensures a == [] || !Fits(l, a + b)
  {
    TotalBytesSplit(a, b);
    if a != [] {
      LaterTurnsSplit(a, b);
    }
  }

  lemma FirstTurnOfSum(a: Items, b: Items)
    requires a != [] && b != [] && b[0].Turn?
    ensures NextTurn(a + b, 1) == if NextTurn(a, 1).Some? then NextTurn(a, 1) else Some(|a|)
  {
    var n := if NextTurn(a, 1).Some? then NextTurn(a, 1).value else |a|;
    forall i | 1 <= i < n ensures !(a + b)[i].Turn? {
      assert (a + b)[i] == a[i];
    }
    NextTurnIs(a + b, n);
  }

  // ---- what the limits count -----------------------------------------------------------------------

  /** The items written one after another. */
  function Text(items: Items): Bytes {
    if items == [] then [] else items[0].raw + Text(items[1..])
  }

  lemma TextOfOne(item: Item)
    ensures Text([item]) == item.raw
  {
    assert [item][1..] == [];
  }

  lemma {:induction false} TextOfSum(a: Items, b: Items)
    ensures Text(a + b) == Text(a) + Text(b)
  {
    if a == [] {
      assert a + b == b;
    } else {
      assert (a + b)[1..] == a[1..] + b;
      TextOfSum(a[1..], b);
    }
  }

  lemma {:induction false} BytesAreText(items: Items)
    ensures TotalBytes(items) == |Text(items)|
  {
    if items != [] {
      var front, last := items[..|items| - 1], items[|items| - 1];
      BytesAreText(front);
      assert items == front + [last];
      TextOfSum(front, [last]);
      TextOfOne(last);
    }
  }

  lemma {:induction false} TurnsAreMarkers(items: Items)
    ensures LaterTurns(items) == |set i | 0 < i < |items| && items[i].Turn?|
  {
    var markers := set i | 0 < i < |items| && items[i].Turn?;
    if |items| <= 1 {
      assert markers == {};
    } else {
      var n := |items| - 1;
      var front := items[..n];
      TurnsAreMarkers(front);
      var before := set i | 0 < i < |front| && front[i].Turn?;
      assert markers == before + if items[n].Turn? then {n} else {};
    }
  }

  lemma FitsMeans(l: Limits, items: Items)
    ensures Fits(l, items) <==>
              |Text(items)| <= l.maxBytes && |set i | 0 < i < |items| && items[i].Turn?| < l.maxTurns
  {
    BytesAreText(items);
    TurnsAreMarkers(items);
  }

  lemma TrimmedCut(l: Limits, items: Items)
    ensures var r := Trim(l, items);
      && (Fits(l, items) ==> r == items) && (r != [] ==> Fits(l, r))
      && |r| <= |items| && r == items[|items| - |r|..] && (0 < |r| < |items| ==> r[0].Turn?)
      && forall i | 0 <= i < |items| - |r| && (i == 0 || items[i].Turn?) :: !Fits(l, items[i..])
  {
    TrimIsLongestFit(l, items);
    hide Fits;
    assert items[|items|..] == [];
    forall i: nat | i < |items| - |Trim(l, items)| && (i == 0 || items[i].Turn?) ensures !Fits(l, items[i..]) {
      assert Boundary(items, i);
    }
  }

  /** A list within the limits is left alone; another is cut in front, no further than to the first marker from which
      on it is within them, or to nothing. */
  lemma TrimmedIsWithin(l: Limits, items: Items)
    ensures var r := Trim(l, items);
      && (|Text(items)| <= l.maxBytes && |set i | 0 < i < |items| && items[i].Turn?| < l.maxTurns ==> r == items)
      && (r != [] ==> |Text(r)| <= l.maxBytes && |set i | 0 < i < |r| && r[i].Turn?| < l.maxTurns)
      && |r| <= |items| && r == items[|items| - |r|..]
      && (0 < |r| < |items| ==> r[0].Turn?)
      && forall i | 0 <= i < |items| - |r| && (i == 0 || items[i].Turn?) ::
           |Text(items[i..])| > l.maxBytes ||
           |set k | 0 < k < |items[i..]| && items[i..][k].Turn?| >= l.maxTurns
  {
    hide Fits, Text, Trim;
    var r := Trim(l, items);
    TrimmedCut(l, items);
    FitsMeans(l, items);
    FitsMeans(l, r);
    forall i | 0 <= i < |items| - |r| && (i == 0 || items[i].Turn?)
      ensures |Text(items[i..])| > l.maxBytes ||
              |set k | 0 < k < |items[i..]| && items[i..][k].Turn?| >= l.maxTurns
    {
      FitsMeans(l, items[i..]);
    }
  }

  /** Trimming the older part before a marked turn is added changes nothing in the end. */
  lemma {:induction false} TrimAhead(l: Limits, a: Items, b: Items)
    requires b != [] && b[0].Turn?
    ensures Trim(l, Trim(l, a) + b) == Trim(l, a + b)
    decreases |a|
  {
    hide Fits;
    if !Fits(l, a) {
      OverStaysOver(l, a, b);
      if a == [] {
        assert a + b == b && Trim(l, a) == [];
      } else {
        FirstTurnOfSum(a, b);
        var next := NextTurn(a, 1);
        if next.None? {
          assert (a + b)[|a|..] == b && [] + b == b;
        } else {
          assert (a + b)[next.value..] == a[next.value..] + b;
          TrimAhead(l, a[next.value..], b);
        }
      }
    }
  }

  // ---- appending one turn ------------------------------------------------------------------------

  predicate HasTurn(items: Items, id: string) {
    exists item | item in items :: item.Turn? && item.id == id
  }

  /** The existing list as far as it counts: a list that does not begin with a marker is dropped. */
  function Continued(existing: Items): Items {
    if existing != [] && !existing[0].Turn? then [] else existing
  }

  function TurnId(turn: Items): string {
    if turn != [] && turn[0].Turn? then turn[0].id else ""
  }

  function Append(l: Limits, existing: Items, turn: Items): Items {
    var kept := Continued(existing);
    if TurnId(turn) != "" && HasTurn(kept, TurnId(turn)) then Trim(l, kept) else Trim(l, kept + turn)
  }

  /** What an append makes of the two lists: one that does not begin with a marker does not count, a turn whose id is
      there already is not added, and any other turn is added at the end; then the list is trimmed. */
  lemma AppendedBy(l: Limits, existing: Items, turn: Items)
    ensures existing != [] && existing[0].Output? ==> Append(l, existing, turn) == Append(l, [], turn)
    ensures existing == [] || existing[0].Turn? ==>
              Append(l, existing, turn) ==
              if && turn != [] && turn[0].Turn? && turn[0].id != ""
                 && exists i :: 0 <= i < |existing| && existing[i].Turn? && existing[i].id == turn[0].id
              then Trim(l, existing)
              else Trim(l, existing + turn)
  {
    hide Trim;
  }

  /** `appendCodexReasoningReplayTurn`. */
  method AppendTurn(l: Limits, existing: Items, turn: Items) returns (items: Items)
    ensures items == Append(l, existing, turn)
  {
    var kept := existing;
    if |existing| > 0 && !existing[0].Turn? {
      kept := [];
    }
    var turnId := "";
    if |turn| > 0 && turn[0].Turn? {
      turnId := turn[0].id;
    }
    if turnId != "" {
      for i := 0 to |kept|
        invariant forall k | 0 <= k < i :: !(kept[k].Turn? && kept[k].id == turnId)
      {
        if kept[i].Turn? && kept[i].id == turnId {
          items := TrimItems(l, kept);
          return;
        }
      }
    }
    items := TrimItems(l, kept + turn);
  }

  /** A turn as normalization leaves it when it came with a marker: within the limits, the marker first
      and its id not blank. */
  ghost predicate MarkedTurn(l: Limits, turn: Items) {
    turn != [] && turn[0].Turn? && turn[0].id != "" && Fits(l, turn)
  }

  /** Appending a marked turn with a new id keeps that whole turn at the end. */
  lemma AppendKeepsTheTurn(l: Limits, existing: Items, turn: Items)
    requires MarkedTurn(l, turn) && !HasTurn(Continued(existing), turn[0].id)
    ensures var r := Append(l, existing, turn);
            && |r| >= |turn| && r[|r| - |turn|..] == turn
            && r[0].Turn? && Fits(l, r) && HasTurn(r, turn[0].id)
  {
    var kept := Continued(existing);
    var all := kept + turn;
    var j := LastTurnStays(l, kept, turn);
    hide Fits, Trim;
    var r := Append(l, existing, turn);
    assert r == all[j..] && r[|r| - |turn|..] == turn && r[|kept| - j] == turn[0];
    assert all[0].Turn?;
  }

  lemma LastTurnStays(l: Limits, kept: Items, turn: Items) returns (j: nat)
    requires turn != [] && turn[0].Turn? && Fits(l, turn)
    ensures j <= |kept| && FirstFit(l, kept + turn, j) && Trim(l, kept + turn) == (kept + turn)[j..]
  {
    hide Fits, Trim;
    var all := kept + turn;
    assert all[|kept|..] == turn && Boundary(all, |kept|);
    TrimIsLongestFit(l, all);
    j :| FirstFit(l, all, j) && Trim(l, all) == all[j..];
  }

  lemma TrimOfFitting(l: Limits, items: Items)
    requires Fits(l, items)
    ensures Trim(l, items) == items
  {
  }

  /** A trimmed list begins with a marker if the list did, and trimming it again changes nothing. */
  lemma TrimAgain(l: Limits, items: Items)
    requires items == [] || items[0].Turn?
    ensures var r := Trim(l, items); (r == [] || r[0].Turn?) && Trim(l, r) == r
  {
    hide Fits;
    TrimIsLongestFit(l, items);
    if Trim(l, items) != [] {
      TrimOfFitting(l, Trim(l, items));
    }
  }

  /** Once a marked turn has been appended, appending a turn with its id changes nothing: always when the id was new,
      and exactly when the trimming keeps the id if the list had it before. */
  lemma AppendTwice(l: Limits, existing: Items, turn: Items, again: Items)
    requires MarkedTurn(l, turn) && TurnId(again) == turn[0].id
    ensures var kept, id, r := Continued(existing), turn[0].id, Append(l, existing, turn);
      && (!HasTurn(kept, id) || HasTurn(Trim(l, kept), id) ==> Append(l, r, again) == r)
      && (MarkedTurn(l, again) && Append(l, r, again) == r ==> !HasTurn(kept, id) || HasTurn(Trim(l, kept), id))
  {
    hide Fits, Trim;
    var kept, r := Continued(existing), Append(l, existing, turn);
    if !HasTurn(kept, turn[0].id) {
      AppendKeepsTheTurn(l, existing, turn);
      TrimOfFitting(l, r);
    } else {
      TrimAgain(l, kept);
      if MarkedTurn(l, again) && !HasTurn(r, again[0].id) {
        AppendKeepsTheTurn(l, r, again);
      }
    }
  }

  lemma {:induction false} RepeatedTurns(item: Item, n: nat)
    requires item.Turn?
    ensures var items := seq(n, _ => item);
      TotalBytes(items) == n * |item.raw| && LaterTurns(items) == if n > 0 then n - 1 else 0
  {
    if n > 0 {
      var items := seq(n, _ => item);
      assert items[..n - 1] == seq(n - 1, _ => item);
      RepeatedTurns(item, n - 1);
      assert n * |item.raw| == (n - 1) * |item.raw| + |item.raw|;
    }
  }

  /** Beyond the limits it may: with one turn more than the list may have, the oldest of which is appended again, the
      first append trims that turn away and the second brings it back. */
  lemma AppendTwiceBeyondLimits(l: Limits, first: Item, other: Item)
    requires first.Turn? && other.Turn? && first.id != "" && other.id != first.id
    requires l.maxTurns > 0 && |first.raw| + l.maxTurns * |other.raw| <= l.maxBytes
    ensures var later := seq(l.maxTurns, _ => other);
      && MarkedTurn(l, [first])
      && Append(l, [first] + later, [first]) == later
      && Append(l, later, [first]) != later
  {
    var later := seq(l.maxTurns, _ => other);
    var all := [first] + later;
    RepeatedTurns(first, 1);
    RepeatedTurns(other, l.maxTurns);
    assert seq(1, _ => first) == [first];
    LaterTurnsSplit([first], later);
    assert l.maxTurns * |other.raw| >= 0;
    assert Fits(l, [first]) && Fits(l, later) && !Fits(l, all);
    hide Fits;
    NextTurnIs(all, 1);
    assert all[1..] == later;
    TrimOfFitting(l, later);
    assert all[0] == first && HasTurn(all, first.id);
    AppendKeepsTheTurn(l, later, [first]);
  }

  /** A list within the limits keeps all its ids. */
  lemma AppendTwiceWithinLimits(l: Limits, existing: Items, turn: Items, again: Items)
    requires MarkedTurn(l, turn) && TurnId(again) == turn[0].id && Fits(l, Continued(existing))
    ensures Append(l, Append(l, existing, turn), again) == Append(l, existing, turn)
  {
    AppendTwice(l, existing, turn, again);
  }
}
