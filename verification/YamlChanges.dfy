/** Which nodes of a document the merge changes (internal/config/config_yaml.go, `mergeMappingPreserve`,
    `mergeNodePreserve`), told from the two documents before it. */
module YamlChanges {
  import opened YamlCopy
  import opened YamlShape
  import opened YamlRead
  import opened YamlReorder
  import opened YamlEdit
  import opened YamlFootprint
  import opened YamlPicture
  import T = YamlTree
  import L = YamlMergeLaws
  import opened YamlMatch

  // ---- which nodes -----------------------------------------------------------------------------------

  /** The nodes the merge is sure to change: a mapping that grows by a key, a sequence that gets another length, a
      scalar or alias that gets another tag or text, a node that gets another kind. */
  ghost function Changed(d: Shape, s: Shape, path: seq<string>): set<Node>
    decreases d, 0
  {
    if d.kind == MAPPING && s.kind == MAPPING then
      (if Grows(Entries(d.kids), Entries(s.kids), path) then {d.node} else {})
      + set m, n | 0 <= m < |s.kids| && n in PairChanged(d.kids, s.kids, path, m) :: n
    else if s.kind == SCALAR || s.kind == ALIAS then
      if d.kind == s.kind && d.tag == s.tag && d.text == s.text then {} else {d.node}
    else if d.kind == SEQUENCE && s.kind == SEQUENCE then
      if !NoAliases(Value(s)) then {}
      else
        (if |d.kids| != |s.kids| then {d.node} else {})
        + set i, n | 0 <= i < |s.kids| && n in SlotChanged(d.kids, s.kids, path, i) :: n
    else if StaysNull(d, s) then {}
    else {d.node}
  }

  ghost function PairChanged(kids: seq<Shape>, newKids: seq<Shape>, path: seq<string>, m: nat): set<Node>
    decreases kids
  {
    if 2 * m + 1 >= |newKids| then {}
    else
      var key := newKids[2 * m].text;
      var j := T.FindKey(Entries(kids), key);
      if j < 0 || 2 * j + 1 >= |kids| then {} else Changed(kids[2 * j + 1], newKids[2 * m + 1], path + [key])
  }

  ghost function SlotChanged(kids: seq<Shape>, newKids: seq<Shape>, path: seq<string>, i: nat): set<Node>
    decreases kids
  {
    if i >= |newKids| || SlotAt(kids, newKids, i) < 0 then {}
    else ElementChanged(kids[SlotAt(kids, newKids, i)], newKids[i], path)
  }

  ghost function ElementChanged(w: Shape, s: Shape, path: seq<string>): set<Node>
    decreases w, 1
  {
    if w.kind == MAPPING && s.kind == MAPPING then Changed(w, s, path) - {w.node} else Changed(w, s, path)
  }

  /** The nodes the merge may change, but so that they read as before: a sequence of the same length whose old
      elements do not stay where they are, and an element that grows or loses a key. (And what the two documents do
      not settle: the values under blank keys of an element, which it loses; all of a sequence, where aliases leave
      open which old elements are taken over.) */
  ghost function Moved(d: Shape, s: Shape, path: seq<string>): set<Node>
    decreases d, 0
  {
    if d.kind == MAPPING && s.kind == MAPPING then
      set m, n | 0 <= m < |s.kids| && n in PairMoved(d.kids, s.kids, path, m) :: n
    else if d.kind == SEQUENCE && s.kind == SEQUENCE then
      if !NoAliases(Value(s)) then Foot(d)
      else
        (if |d.kids| == |s.kids| && !InPlace(d.kids, s.kids) then {d.node} else {})
        + set i, n | 0 <= i < |s.kids| && n in SlotMoved(d.kids, s.kids, path, i) :: n
    else {}
  }

  ghost function PairMoved(kids: seq<Shape>, newKids: seq<Shape>, path: seq<string>, m: nat): set<Node>
    decreases kids
  {
    if 2 * m + 1 >= |newKids| then {}
    else
      var key := newKids[2 * m].text;
      var j := T.FindKey(Entries(kids), key);
      if j < 0 || 2 * j + 1 >= |kids| then {} else Moved(kids[2 * j + 1], newKids[2 * m + 1], path + [key])
  }

  ghost function SlotMoved(kids: seq<Shape>, newKids: seq<Shape>, path: seq<string>, i: nat): set<Node>
    decreases kids
  {
    if i >= |newKids| || SlotAt(kids, newKids, i) < 0 then {}
    else ElementMoved(kids[SlotAt(kids, newKids, i)], newKids[i], path)
  }

  ghost function ElementMoved(w: Shape, s: Shape, path: seq<string>): set<Node>
    decreases w, 1
  {
    if w.kind == MAPPING && s.kind == MAPPING then
      (if Grows(Entries(w.kids), Entries(s.kids), path) || Loses(w.kids, Entries(s.kids)) then {w.node} else {})
      + Moved(w, s, path)
      + set m, n | 0 <= m < |s.kids| && n in BlankValue(w.kids, s.kids, m) :: n
    else Moved(w, s, path)
  }

  /** Every generated element takes over the old one at its own place. */
  ghost predicate InPlace(kids: seq<Shape>, newKids: seq<Shape>) {
    forall i | 0 <= i < |newKids| :: SlotAt(kids, newKids, i) == i
  }

  /** What stands under the `m`-th generated key, if that is blank. */
  ghost function BlankValue(kids: seq<Shape>, newKids: seq<Shape>, m: nat): set<Node> {
    if 2 * m + 1 >= |newKids| || T.Trim(newKids[2 * m].text) != "" then {}
    else
      var j := T.FindKey(Entries(kids), newKids[2 * m].text);
      if j < 0 || 2 * j + 1 >= |kids| then {} else Foot(kids[2 * j + 1])
  }

  // ---- where they are --------------------------------------------------------------------------------

  lemma {:induction false} ChangedIn(d: Shape, s: Shape, path: seq<string>)
    ensures Changed(d, s, path) <= Foot(d) && Moved(d, s, path) <= Foot(d)
    decreases d, 1
  {
    if d.kind == MAPPING && s.kind == MAPPING {
      forall m: nat
        ensures PairChanged(d.kids, s.kids, path, m) <= Feet(d.kids)
        ensures PairMoved(d.kids, s.kids, path, m) <= Feet(d.kids)
      {
        PairIn(d, s, path, m);
      }
    } else if d.kind == SEQUENCE && s.kind == SEQUENCE {
      forall i: nat
        ensures SlotChanged(d.kids, s.kids, path, i) <= Feet(d.kids)
        ensures SlotMoved(d.kids, s.kids, path, i) <= Feet(d.kids)
      {
        SlotIn(d, s, path, i);
      }
    }
  }

  lemma {:induction false} PairIn(d: Shape, s: Shape, path: seq<string>, m: nat)
    ensures PairChanged(d.kids, s.kids, path, m) <= Feet(d.kids) && PairMoved(d.kids, s.kids, path, m) <= Feet(d.kids)
    decreases d, 0
  {
    if 2 * m + 1 < |s.kids| {
      var key := s.kids[2 * m].text;
      var j := T.FindKey(Entries(d.kids), key);
      if 0 <= j && 2 * j + 1 < |d.kids| {
        ChangedIn(d.kids[2 * j + 1], s.kids[2 * m + 1], path + [key]);
        FeetHold(d.kids, 2 * j + 1);
      }
    }
  }

  lemma {:induction false} SlotIn(d: Shape, s: Shape, path: seq<string>, i: nat)
    ensures SlotChanged(d.kids, s.kids, path, i) <= Feet(d.kids) && SlotMoved(d.kids, s.kids, path, i) <= Feet(d.kids)
    decreases d, 0
  {
    if i < |s.kids| && SlotAt(d.kids, s.kids, i) >= 0 {
      var k := SlotAt(d.kids, s.kids, i);
      ElementIn(d.kids[k], s.kids[i], path);
      FeetHold(d.kids, k);
    }
  }

  lemma {:induction false} ElementIn(w: Shape, s: Shape, path: seq<string>)
    ensures ElementChanged(w, s, path) <= Foot(w) && ElementMoved(w, s, path) <= Foot(w)
    decreases w, 2
  {
    ChangedIn(w, s, path);
    forall m: nat ensures BlankValue(w.kids, s.kids, m) <= Feet(w.kids) {
      if 2 * m + 1 < |s.kids| {
        var j := T.FindKey(Entries(w.kids), s.kids[2 * m].text);
        if 0 <= j && 2 * j + 1 < |w.kids| {
          FeetHold(w.kids, 2 * j + 1);
        }
      }
    }
  }

  lemma {:induction false} RootNotBelow(d: Shape, s: Shape, path: seq<string>)
    requires Tidy(d)
    ensures d.kind == MAPPING && s.kind == MAPPING ==>
      && d.node !in Moved(d, s, path)
      && (d.node in Changed(d, s, path) <==> Grows(Entries(d.kids), Entries(s.kids), path))
    ensures d.kind == SEQUENCE && s.kind == SEQUENCE && NoAliases(Value(s)) ==>
      && (d.node in Moved(d, s, path) <==> |d.kids| == |s.kids| && !InPlace(d.kids, s.kids))
      && (d.node in Changed(d, s, path) <==> |d.kids| != |s.kids|)
  {
    forall m: nat
      ensures d.node !in PairChanged(d.kids, s.kids, path, m) && d.node !in PairMoved(d.kids, s.kids, path, m)
    {
      PairIn(d, s, path, m);
    }
    forall i: nat
      ensures d.node !in SlotChanged(d.kids, s.kids, path, i) && d.node !in SlotMoved(d.kids, s.kids, path, i)
    {
      SlotIn(d, s, path, i);
    }
  }

  /** The place, among the children, of the value that has the `m`-th generated key. */
  ghost predicate Under(kids: seq<Shape>, newKids: seq<Shape>, m: nat, j: nat) {
    2 * m + 1 < |newKids| && 2 * j + 1 < |kids| && T.FindKey(Entries(kids), newKids[2 * m].text) == j
  }

  /** Different generated keys change different trees. */
  lemma {:induction false} OthersElsewhere(d: Shape, s: Shape, path: seq<string>, m: nat, j: nat, n: Node)
    requires Tidy(d) && d.kind == MAPPING && s.kind == MAPPING && Paired(s.kids) && T.UniqueKeys(Entries(s.kids))
    requires Under(d.kids, s.kids, m, j) && n in Foot(d.kids[2 * j + 1])
    ensures n != d.node
    ensures forall m': nat | m' != m ::
              n !in PairChanged(d.kids, s.kids, path, m') && n !in PairMoved(d.kids, s.kids, path, m')
  {
    FeetHold(d.kids, 2 * j + 1);
    forall m': nat | m' != m
      ensures n !in PairChanged(d.kids, s.kids, path, m') && n !in PairMoved(d.kids, s.kids, path, m')
    {
      if 2 * m' + 1 < |s.kids| {
        EntryIs(s.kids, m);
        EntryIs(s.kids, m');
        var key := s.kids[2 * m'].text;
        var j' := T.FindKey(Entries(d.kids), key);
        assert j' != j;
        if 0 <= j' && 2 * j' + 1 < |d.kids| {
          ChangedIn(d.kids[2 * j' + 1], s.kids[2 * m' + 1], path + [key]);
        }
      }
    }
  }

  lemma {:induction false} ChangedHere(d: Shape, s: Shape, path: seq<string>, m: nat, j: nat, n: Node)
    requires Tidy(d) && d.kind == MAPPING && s.kind == MAPPING && Paired(s.kids) && T.UniqueKeys(Entries(s.kids))
    requires Under(d.kids, s.kids, m, j) && n in Foot(d.kids[2 * j + 1])
    ensures n != d.node && (n in Changed(d, s, path) <==> n in PairChanged(d.kids, s.kids, path, m))
    ensures n in Moved(d, s, path) <==> n in PairMoved(d.kids, s.kids, path, m)
  {
    OthersElsewhere(d, s, path, m, j, n);
  }

  lemma SlotsDiffer(kids: seq<Shape>, newKids: seq<Shape>, i: nat, i': nat)
    requires i < |newKids| && i' < |newKids| && i != i' && SlotAt(kids, newKids, i) >= 0
    ensures SlotAt(kids, newKids, i) != SlotAt(kids, newKids, i')
  {
    ValuesAre(kids);
    ValuesAre(newKids);
    SlotsAreTakenOnce(Values(kids), Unused(|kids|), Values(newKids), {}, 0);
  }

  /** Different generated elements change different trees. */
  lemma {:induction false} SlotChangedHere(d: Shape, s: Shape, path: seq<string>, i: nat, n: Node)
    requires Tidy(d) && d.kind == SEQUENCE && s.kind == SEQUENCE && NoAliases(Value(s))
    requires i < |s.kids| && SlotAt(d.kids, s.kids, i) >= 0 && n in Foot(d.kids[SlotAt(d.kids, s.kids, i)])
    ensures n in Changed(d, s, path) <==> n in SlotChanged(d.kids, s.kids, path, i)
  {
    FeetHold(d.kids, SlotAt(d.kids, s.kids, i));
    forall i': nat | i' != i ensures n !in SlotChanged(d.kids, s.kids, path, i') {
      if i' < |s.kids| && SlotAt(d.kids, s.kids, i') >= 0 {
        SlotsDiffer(d.kids, s.kids, i, i');
        ElementIn(d.kids[SlotAt(d.kids, s.kids, i')], s.kids[i'], path);
      }
    }
  }

  // ---- what has become of them -------------------------------------------------------------------------

  /** What is written on the node itself. */
  ghost predicate Differs(was: Cell, now: Cell) {
    was.kind != now.kind || was.tag != now.tag || was.text != now.text || |was.content| != |now.content|
  }

  /** What has become of a node the merge may write. */
  ghost predicate Accounted(was: Picture, now: Picture, n: Node, changed: set<Node>, moved: set<Node>) {
    n in moved || (n in was && n in now && if n in changed then Differs(was[n], now[n]) else now[n] == was[n])
  }

  lemma {:induction false} RootAccounted(d: Shape, s: Shape, path: seq<string>, d': Shape, was: Picture, now: Picture)
    requires Shows(was, d) && Shows(now, d') && Merged(d, s, path, d') && Tidy(d)
    ensures Accounted(was, now, d.node, Changed(d, s, path), Moved(d, s, path))
  {
    RootNotBelow(d, s, path);
    if d.kind == MAPPING && s.kind == MAPPING {
      if !Grows(Entries(d.kids), Entries(s.kids), path) {
        assert now[d.node].content == was[d.node].content;
      }
    } else if d.kind == SEQUENCE && s.kind == SEQUENCE {
      if !NoAliases(Value(s)) {
        assert d.node in Foot(d);
      } else if |d.kids| == |s.kids| && InPlace(d.kids, s.kids) {
        StaysInPlace(d, s, path, d');
        assert now[d.node].content == was[d.node].content;
      }
    } else if s.kind == SCALAR || s.kind == ALIAS || StaysNull(d, s) {
      assert d'.kids == d.kids;
      assert now[d.node].content == was[d.node].content;
    }
  }

  lemma {:induction false} StaysInPlace(d: Shape, s: Shape, path: seq<string>, d': Shape)
    requires d.kind == SEQUENCE && s.kind == SEQUENCE && NoAliases(Value(s)) && MergedElements(d.kids, d'.kids, s, path)
    requires |d.kids| == |s.kids| && InPlace(d.kids, s.kids)
    ensures |d'.kids| == |d.kids| && forall i | 0 <= i < |d.kids| :: d'.kids[i].node == d.kids[i].node
  {
    forall i | 0 <= i < |d.kids| ensures d'.kids[i].node == d.kids[i].node {
      assert SlotAt(d.kids, s.kids, i) == i;
      assert TakenMerged(d.kids[i], s.kids[i], path, d'.kids[i]);
    }
  }

  /** Every node the merge may write is of one of three sorts: moved, sure to differ, or just as it was. */
  lemma {:induction false} WrittenAccounted(d: Shape, s: Shape, path: seq<string>, d': Shape, was: Picture,
                                            now: Picture, n: Node)
    requires Shows(was, d) && Shows(now, d') && Merged(d, s, path, d') && Tidy(d) && T.Unique(Value(s))
    requires Tidy(s) && n in Touchable(d, s)
    ensures Accounted(was, now, n, Changed(d, s, path), Moved(d, s, path))
    decreases d, 2
  {
    if n == d.node {
      RootAccounted(d, s, path, d', was, now);
    } else if d.kind == MAPPING && s.kind == MAPPING {
      var m: nat :| m < |s.kids| && n in PairTouches(d.kids, s.kids, m);
      BelowAccounted(d, s, path, d', was, now, n, m);
    } else if d.kind == SEQUENCE && s.kind == SEQUENCE && NoAliases(Value(s)) {
      var i := TouchedSlot(d, s, n);
      SlotAccounted(d, s, path, d', was, now, n, i);
    } else {
      TouchableIn(d, s);
    }
  }

  lemma UniqueBelow(s: Shape, m: nat)
    requires T.Unique(Value(s)) && Tidy(s)
    ensures s.kind == MAPPING && 2 * m + 1 < |s.kids| ==>
            T.Unique(Value(s.kids[2 * m + 1])) && T.UniqueKeys(Entries(s.kids))
    ensures s.kind == SEQUENCE && m < |s.kids| ==> T.Unique(Value(s.kids[m]))
  {
    if s.kind == MAPPING && 2 * m + 1 < |s.kids| {
      EntryIs(s.kids, m);
      assert T.Unique(Entries(s.kids)[m].value);
    } else if s.kind == SEQUENCE {
      ValuesAre(s.kids);
      assert Value(s).items == Values(s.kids);
    }
  }

  /** The old value under the `m`-th generated key has been merged. */
  lemma {:induction false} PairMerged(d: Shape, s: Shape, path: seq<string>, d': Shape, n: Node, m: nat)
    returns (j: nat)
    requires Merged(d, s, path, d') && d.kind == MAPPING && s.kind == MAPPING && n in PairTouches(d.kids, s.kids, m)
    ensures Under(d.kids, s.kids, m, j) && n in Touchable(d.kids[2 * j + 1], s.kids[2 * m + 1]) && 2 * j + 1 < |d'.kids|
    ensures Merged(d.kids[2 * j + 1], s.kids[2 * m + 1], path + [s.kids[2 * m].text], d'.kids[2 * j + 1])
  {
    j := T.FindKey(Entries(d.kids), s.kids[2 * m].text);
    assert MergedAt(d.kids, d'.kids, s.kids, path, m);
  }

  lemma MovedBelow(d: Shape, s: Shape, path: seq<string>, n: Node, m: nat)
    requires d.kind == MAPPING && s.kind == MAPPING && n in PairMoved(d.kids, s.kids, path, m)
    ensures n in Moved(d, s, path)
  {
  }

  lemma KidShows(p: Picture, s: Shape, i: nat)
    requires Shows(p, s) && i < |s.kids|
    ensures Shows(p, s.kids[i])
  {
  }

  lemma {:induction false} BelowAccounted(d: Shape, s: Shape, path: seq<string>, d': Shape, was: Picture, now: Picture,
                                          n: Node, m: nat)
    requires Shows(was, d) && Shows(now, d') && Merged(d, s, path, d') && Tidy(d) && T.Unique(Value(s))
    requires Tidy(s) && d.kind == MAPPING && s.kind == MAPPING && n in PairTouches(d.kids, s.kids, m)
    ensures Accounted(was, now, n, Changed(d, s, path), Moved(d, s, path))
    decreases d, 1
  {
    var j := PairMerged(d, s, path, d', n, m);
    KidShows(now, d', 2 * j + 1);
    hide Merged, Touchable, Shows, Tidy, Under, T.Unique, Value;
    ValueAccounted(d, s, path, d'.kids[2 * j + 1], was, now, n, m, j);
    if n in PairMoved(d.kids, s.kids, path, m) {
      MovedBelow(d, s, path, n, m);
    }
  }

  /** What stands under the `m`-th generated key. */
  lemma {:induction false} ValueAccounted(d: Shape, s: Shape, path: seq<string>, k: Shape, was: Picture, now: Picture,
                                          n: Node, m: nat, j: nat)
    requires d.kind == MAPPING && s.kind == MAPPING && Tidy(d) && Tidy(s) && T.Unique(Value(s))
    requires Under(d.kids, s.kids, m, j) && n in Touchable(d.kids[2 * j + 1], s.kids[2 * m + 1])
    requires Shows(was, d) && Shows(now, k)
    requires Merged(d.kids[2 * j + 1], s.kids[2 * m + 1], path + [s.kids[2 * m].text], k)
    ensures n != d.node && Accounted(was, now, n, Changed(d, s, path), PairMoved(d.kids, s.kids, path, m))
    decreases d, 0
  {
    var w, v := d.kids[2 * j + 1], s.kids[2 * m + 1];
    UniqueBelow(s, m);
    WrittenAccounted(w, v, path + [s.kids[2 * m].text], k, was, now, n);
    TouchableIn(w, v);
    hide Accounted, Touchable, Merged, Shows;
    ChangedHere(d, s, path, m, j, n);
    SameAccount(was, now, n, PairChanged(d.kids, s.kids, path, m), Changed(d, s, path),
                PairMoved(d.kids, s.kids, path, m));
  }

  lemma SameAccount(was: Picture, now: Picture, n: Node, some: set<Node>, changed: set<Node>, moved: set<Node>)
    requires Accounted(was, now, n, some, moved) && (n in changed <==> n in some)
    ensures Accounted(was, now, n, changed, moved)
  {
  }

  lemma {:induction false} SlotAccounted(d: Shape, s: Shape, path: seq<string>, d': Shape, was: Picture, now: Picture,
                                         n: Node, i: nat)
    requires Shows(was, d) && Shows(now, d') && Merged(d, s, path, d') && Tidy(d) && T.Unique(Value(s)) && Tidy(s)
    requires d.kind == SEQUENCE && s.kind == SEQUENCE && NoAliases(Value(s)) && n in SlotTouches(d.kids, s.kids, i)
    ensures Accounted(was, now, n, Changed(d, s, path), Moved(d, s, path))
    decreases d, 1
  {
    var k := SlotAt(d.kids, s.kids, i);
    var w := d.kids[k];
    UniqueBelow(s, i);
    ElementAccounted(w, s.kids[i], path, d'.kids[i], was, now, n);
    TouchableIn(w, s.kids[i]);
    SlotChangedHere(d, s, path, i, n);
    assert n in SlotMoved(d.kids, s.kids, path, i) ==> n in Moved(d, s, path);
  }

  lemma {:induction false} ElementAccounted(w: Shape, s: Shape, path: seq<string>, k: Shape, was: Picture, now: Picture,
                                            n: Node)
    requires Shows(was, w) && Shows(now, k) && TakenMerged(w, s, path, k) && Tidy(w) && T.Unique(Value(s)) && Tidy(s)
    requires n in Touchable(w, s)
    ensures Accounted(was, now, n, ElementChanged(w, s, path), ElementMoved(w, s, path))
    decreases w, 3
  {
    if w.kind != MAPPING || s.kind != MAPPING {
      WrittenAccounted(w, s, path, k, was, now, n);
    } else if n == w.node {
      ElementItself(w, s, path, k, was, now);
    } else {
      var m: nat :| m < |s.kids| && n in PairTouches(w.kids, s.kids, m);
      var j := T.FindKey(Entries(w.kids), s.kids[2 * m].text);
      assert Under(w.kids, s.kids, m, j);
      if T.Trim(s.kids[2 * m].text) == "" {
        BlankMoves(w, s, path, n, m, j);
      } else {
        var x := ValueKept(w, s, path, k, m, j);
        UniqueBelow(s, m);
        KidShows(now, k, x);
        hide Touchable, Merged, TakenMerged, Shows, Tidy;
        ValueAccounted(w, s, path, k.kids[x], was, now, n, m, j);
        ElementBelow(w, s, path, was, now, n, m);
      }
    }
  }

  lemma {:induction false} ElementItself(w: Shape, s: Shape, path: seq<string>, k: Shape, was: Picture, now: Picture)
    requires Shows(was, w) && Shows(now, k) && TakenMerged(w, s, path, k) && w.kind == MAPPING && s.kind == MAPPING
    ensures Accounted(was, now, w.node, ElementChanged(w, s, path), ElementMoved(w, s, path))
  {
    if !Grows(Entries(w.kids), Entries(s.kids), path) && !Loses(w.kids, Entries(s.kids)) {
      assert now[w.node].content == was[w.node].content;
    }
  }

  lemma {:induction false} BlankMoves(w: Shape, s: Shape, path: seq<string>, n: Node, m: nat, j: nat)
    requires w.kind == MAPPING && s.kind == MAPPING && Under(w.kids, s.kids, m, j) && T.Trim(s.kids[2 * m].text) == ""
    requires n in Touchable(w.kids[2 * j + 1], s.kids[2 * m + 1])
    ensures n in ElementMoved(w, s, path)
  {
    TouchableIn(w.kids[2 * j + 1], s.kids[2 * m + 1]);
    assert n in BlankValue(w.kids, s.kids, m);
  }

  /** The value of a key that is not blank stands among the children of the merged element. */
  lemma {:induction false} ValueKept(w: Shape, s: Shape, path: seq<string>, k: Shape, m: nat, j: nat) returns (x: nat)
    requires TakenMerged(w, s, path, k) && w.kind == MAPPING && s.kind == MAPPING
    requires Under(w.kids, s.kids, m, j) && T.Trim(s.kids[2 * m].text) != ""
    ensures x < |k.kids|
    ensures Merged(w.kids[2 * j + 1], s.kids[2 * m + 1], path + [s.kids[2 * m].text], k.kids[x])
  {
    assert ValueStands(w.kids, k.kids, s.kids, path, m);
    x :| 0 <= x < |k.kids| && Merged(w.kids[2 * j + 1], s.kids[2 * m + 1], path + [s.kids[2 * m].text], k.kids[x]);
  }

  lemma ElementBelow(w: Shape, s: Shape, path: seq<string>, was: Picture, now: Picture, n: Node, m: nat)
    requires w.kind == MAPPING && s.kind == MAPPING && n != w.node
    requires Accounted(was, now, n, Changed(w, s, path), PairMoved(w.kids, s.kids, path, m))
    ensures Accounted(was, now, n, ElementChanged(w, s, path), ElementMoved(w, s, path))
  {
    if n in PairMoved(w.kids, s.kids, path, m) {
      MovedBelow(w, s, path, n, m);
    }
  }

  // ---- and all else stays --------------------------------------------------------------------------------

  lemma {:induction false} ChangedIsTouched(d: Shape, s: Shape, path: seq<string>, n: Node)
    requires T.Unique(Value(s)) && Tidy(s) && n in Changed(d, s, path)
    ensures n in Touchable(d, s)
    decreases d
  {
    TouchableIn(d, s);
    if n != d.node && d.kind == MAPPING && s.kind == MAPPING {
      var m: nat :| m < |s.kids| && n in PairChanged(d.kids, s.kids, path, m);
      var key := s.kids[2 * m].text;
      UniqueBelow(s, m);
      ChangedIsTouched(d.kids[2 * T.FindKey(Entries(d.kids), key) + 1], s.kids[2 * m + 1], path + [key], n);
      assert n in PairTouches(d.kids, s.kids, m);
    } else if n != d.node {
      var i: nat :| i < |s.kids| && n in SlotChanged(d.kids, s.kids, path, i);
      UniqueBelow(s, i);
      assert n in ElementChanged(d.kids[SlotAt(d.kids, s.kids, i)], s.kids[i], path);
      ChangedIsTouched(d.kids[SlotAt(d.kids, s.kids, i)], s.kids[i], path, n);
      assert n in SlotTouches(d.kids, s.kids, i);
    }
  }

  /** The value of a key that the generated mapping does not have is not written, nor is anything below it. */
  lemma {:induction false} UnmentionedIsUntouched(d: Shape, s: Shape, j: nat)
    requires Tidy(d) && d.kind == MAPPING && s.kind == MAPPING && T.UniqueKeys(Entries(s.kids))
    requires 2 * j + 1 < |d.kids| && forall m | 0 <= m && 2 * m + 1 < |s.kids| ::
             s.kids[2 * m].text != d.kids[2 * j].text
    ensures Foot(d.kids[2 * j + 1]) !! Touchable(d, s)
  {
    FeetHold(d.kids, 2 * j + 1);
    EntryIs(d.kids, j);
    forall m: nat ensures PairTouches(d.kids, s.kids, m) !! Foot(d.kids[2 * j + 1]) {
      if 2 * m + 1 < |s.kids| {
        var i := T.FindKey(Entries(d.kids), s.kids[2 * m].text);
        if 0 <= i && 2 * i + 1 < |d.kids| {
          EntryIs(d.kids, i);
          TouchableIn(d.kids[2 * i + 1], s.kids[2 * m + 1]);
          assert i != j;
        }
      }
    }
  }

  // ---- a document that says the same -------------------------------------------------------------------

  /** Neither does a key come nor one go. */
  lemma {:induction false} NoKeyChanges(d: Shape, s: Shape, path: seq<string>)
    requires L.Twins(Value(d), Value(s)) && T.NonBlank(Value(s)) && Tidy(d) && Tidy(s) && d.kind == MAPPING
    ensures s.kind == MAPPING && |s.kids| == |d.kids|
    ensures !Grows(Entries(d.kids), Entries(s.kids), path) && !Loses(d.kids, Entries(s.kids))
  {
    var es, fs := Entries(d.kids), Entries(s.kids);
    EntriesCount(d.kids, |d.kids| / 2);
    EntriesCount(s.kids, |s.kids| / 2);
    forall i | 0 <= i < |fs| ensures !L.IsAdded(es, fs[i], path) {
      assert es[i].key == fs[i].key;
    }
    forall j: nat | 2 * j + 1 < |d.kids| ensures KeyKept(d.kids[2 * j].text, fs) {
      EntryIs(d.kids, j);
      assert T.Trim(fs[j].key) == T.Trim(d.kids[2 * j].text);
    }
  }

  lemma {:induction false} TwinBelow(d: Shape, s: Shape, m: nat)
    requires L.Twins(Value(d), Value(s)) && NoAliases(Value(s)) && T.Unique(Value(s)) && T.NonBlank(Value(s))
    requires Tidy(d) && Tidy(s) && d.kind == MAPPING && s.kind == MAPPING && 2 * m + 1 < |s.kids|
    ensures 2 * m + 1 < |d.kids| && T.FindKey(Entries(d.kids), s.kids[2 * m].text) == m
    ensures var w, v := Value(d.kids[2 * m + 1]), Value(s.kids[2 * m + 1]);
      L.Twins(w, v) && NoAliases(v) && T.Unique(v) && T.NonBlank(v)
  {
    var es, fs := Entries(d.kids), Entries(s.kids);
    EntriesCount(d.kids, |d.kids| / 2);
    EntriesCount(s.kids, |s.kids| / 2);
    EntryIs(d.kids, m);
    EntryIs(s.kids, m);
    assert es[m].key == fs[m].key && L.Twins(es[m].value, fs[m].value);
    assert NoAliases(fs[m].value) && T.Unique(fs[m].value) && T.NonBlank(fs[m].value);
    forall j | 0 <= j < m ensures es[j].key != es[m].key {
      assert es[j].key == fs[j].key;
    }
    FindKeyFrom(es, fs[m].key, m);
  }

  lemma {:induction false} ElementsStayInPlace(d: Shape, s: Shape)
    requires L.Twins(Value(d), Value(s)) && NoAliases(Value(s)) && T.Unique(Value(s)) && T.NonBlank(Value(s))
    requires Tidy(d) && Tidy(s) && d.kind == SEQUENCE
    ensures s.kind == SEQUENCE && |s.kids| == |d.kids| && InPlace(d.kids, s.kids)
    ensures forall i | 0 <= i < |s.kids| :: var v := Value(s.kids[i]);
      L.Twins(Value(d.kids[i]), v) && NoAliases(v) && T.Unique(v) && T.NonBlank(v)
  {
    var xs, ys := Values(d.kids), Values(s.kids);
    ValuesAre(d.kids);
    ValuesAre(s.kids);
    assert Value(d).items == xs && Value(s).items == ys && L.TwinItems(xs, ys);
    L.AllMatchTwins(xs, ys, {});
    forall i | 0 <= i < |s.kids| ensures SlotAt(d.kids, s.kids, i) == i {
      L.TwinsStayInPlace(xs, ys, {}, i);
    }
  }

  /** A document saved without a change has no node that changes, sequences included. */
  lemma {:induction false} NothingChanges(d: Shape, s: Shape, path: seq<string>)
    requires L.Twins(Value(d), Value(s)) && NoAliases(Value(s)) && T.Unique(Value(s)) && T.NonBlank(Value(s))
    requires Tidy(d) && Tidy(s)
    ensures Changed(d, s, path) == {} && Moved(d, s, path) == {}
    decreases d, 0
  {
    if d.kind == MAPPING {
      NoKeyChanges(d, s, path);
      forall m: nat
        ensures PairChanged(d.kids, s.kids, path, m) == {} && PairMoved(d.kids, s.kids, path, m) == {}
      {
        if 2 * m + 1 < |s.kids| {
          TwinBelow(d, s, m);
          NothingChanges(d.kids[2 * m + 1], s.kids[2 * m + 1], path + [s.kids[2 * m].text]);
        }
      }
    } else if d.kind == SEQUENCE {
      ElementsStayInPlace(d, s);
      forall i: nat
        ensures SlotChanged(d.kids, s.kids, path, i) == {} && SlotMoved(d.kids, s.kids, path, i) == {}
      {
        if i < |s.kids| {
          NoElementChanges(d.kids[i], s.kids[i], path);
        }
      }
    }
  }

  lemma {:induction false} NoElementChanges(w: Shape, s: Shape, path: seq<string>)
    requires L.Twins(Value(w), Value(s)) && NoAliases(Value(s)) && T.Unique(Value(s)) && T.NonBlank(Value(s))
    requires Tidy(w) && Tidy(s)
    ensures ElementChanged(w, s, path) == {} && ElementMoved(w, s, path) == {}
    decreases w, 1
  {
    NothingChanges(w, s, path);
    if w.kind == MAPPING {
      NoKeyChanges(w, s, path);
      forall m: nat ensures BlankValue(w.kids, s.kids, m) == {} {
        if 2 * m + 1 < |s.kids| {
          EntryIs(s.kids, m);
        }
      }
    }
  }

  /** What one value says the same about is as it was, whatever becomes of the rest of the document. */
  lemma {:induction false} SameValueStays(d: Shape, s: Shape, path: seq<string>, m: nat, j: nat)
    requires Tidy(d) && Tidy(s) && d.kind == MAPPING && s.kind == MAPPING && T.UniqueKeys(Entries(s.kids))
    requires Under(d.kids, s.kids, m, j)
    requires var w, v := Value(d.kids[2 * j + 1]), Value(s.kids[2 * m + 1]);
      L.Twins(w, v) && NoAliases(v) && T.Unique(v) && T.NonBlank(v)
    ensures Foot(d.kids[2 * j + 1]) !! Changed(d, s, path) + Moved(d, s, path)
  {
    NothingChanges(d.kids[2 * j + 1], s.kids[2 * m + 1], path + [s.kids[2 * m].text]);
    forall n | n in Foot(d.kids[2 * j + 1]) ensures n !in Changed(d, s, path) && n !in Moved(d, s, path) {
      ChangedHere(d, s, path, m, j, n);
    }
  }
}
