/** What the merge writes and what it leaves of each tree (internal/config/config_yaml.go, `mergeMappingPreserve`,
    `mergeNodePreserve`), in terms of the shapes of the two documents before it. */
module YamlFootprint {
  import opened YamlCopy
  import opened YamlShape
  import opened YamlRead
  import opened YamlReorder
  import opened YamlEdit
  import T = YamlTree
  import M = YamlMerge
  import L = YamlMergeLaws
  import opened YamlMatch

  // ---- which nodes the merge writes ------------------------------------------------------------------

  /** The nodes the merge may write: along the keys the two sides share, and along the old elements that generated
      ones take over, the existing nodes. Where a generated mapping has a key twice, or aliases leave open which
      elements are taken over, all nodes there. */
  ghost function Touchable(d: Shape, s: Shape): set<Node>
    decreases d
  {
    if d.kind == MAPPING && s.kind == MAPPING && T.UniqueKeys(Entries(s.kids)) then
      {d.node} + set i, n | 0 <= i < |s.kids| && n in PairTouches(d.kids, s.kids, i) :: n
    else if d.kind == SEQUENCE && s.kind == SEQUENCE && NoAliases(Value(s)) then
      {d.node} + set i, n | 0 <= i < |s.kids| && n in SlotTouches(d.kids, s.kids, i) :: n
    else if d.kind == s.kind && (d.kind == MAPPING || d.kind == SEQUENCE) then Foot(d)
    else {d.node}
  }

  /** Those of them below the `i`-th generated key. */
  ghost function PairTouches(kids: seq<Shape>, newKids: seq<Shape>, i: nat): set<Node>
    decreases kids
  {
    if 2 * i + 1 >= |newKids| then {}
    else
      var j := T.FindKey(Entries(kids), newKids[2 * i].text);
      if j < 0 || 2 * j + 1 >= |kids| then {} else Touchable(kids[2 * j + 1], newKids[2 * i + 1])
  }

  /** Which old element the `i`-th generated one takes over, or -1, when no alias leaves it open. */
  ghost function SlotAt(kids: seq<Shape>, newKids: seq<Shape>, i: nat): (k: int)
    requires i < |newKids|
    ensures -1 <= k < |kids|
  {
    ValuesAre(kids);
    ValuesAre(newKids);
    SlotsOf(kids, newKids, {})[i]
  }

  /** Those of them below the `i`-th generated element. */
  ghost function SlotTouches(kids: seq<Shape>, newKids: seq<Shape>, i: nat): set<Node>
    decreases kids
  {
    if i >= |newKids| || SlotAt(kids, newKids, i) < 0 then {}
    else Touchable(kids[SlotAt(kids, newKids, i)], newKids[i])
  }

  /** Those of them among the elements of a sequence. */
  ghost function ElementsTouched(kids: seq<Shape>, s: Shape): set<Node> {
    if NoAliases(Value(s)) then set i, n | 0 <= i < |s.kids| && n in SlotTouches(kids, s.kids, i) :: n
    else Feet(kids)
  }

  lemma {:induction false} TouchableSequence(d: Shape, s: Shape)
    requires d.kind == SEQUENCE && s.kind == SEQUENCE
    ensures Touchable(d, s) == {d.node} + ElementsTouched(d.kids, s)
  {
  }

  lemma {:induction false} TouchableIn(d: Shape, s: Shape)
    ensures Touchable(d, s) <= Foot(d) && d.node in Touchable(d, s)
    decreases d
  {
    if d.kind == MAPPING && s.kind == MAPPING {
      forall i: nat ensures PairTouches(d.kids, s.kids, i) <= Feet(d.kids) {
        PairTouchesIn(d, s, i);
      }
    } else if d.kind == SEQUENCE && s.kind == SEQUENCE {
      ElementsTouchedIn(d.kids, s);
      TouchableSequence(d, s);
    }
  }

  lemma {:induction false} ElementsTouchedIn(kids: seq<Shape>, s: Shape)
    ensures ElementsTouched(kids, s) <= Feet(kids)
    decreases kids
  {
    forall i: nat ensures SlotTouches(kids, s.kids, i) <= Feet(kids) {
      if i < |s.kids| && SlotAt(kids, s.kids, i) >= 0 {
        TouchableIn(kids[SlotAt(kids, s.kids, i)], s.kids[i]);
        FeetHold(kids, SlotAt(kids, s.kids, i));
      }
    }
  }

  lemma {:induction false} PairTouchesIn(d: Shape, s: Shape, i: nat)
    ensures PairTouches(d.kids, s.kids, i) <= Feet(d.kids)
    decreases d, 0
  {
    if 2 * i + 1 < |s.kids| {
      var j := T.FindKey(Entries(d.kids), s.kids[2 * i].text);
      if 0 <= j && 2 * j + 1 < |d.kids| {
        TouchableIn(d.kids[2 * j + 1], s.kids[2 * i + 1]);
        FeetHold(d.kids, 2 * j + 1);
      }
    }
  }

  /** Without aliases among the generated elements the verdicts do not matter. */
  lemma SlotsWithoutAliases(kids: seq<Shape>, s: Shape, same: set<(nat, nat)>)
    requires s.kind == SEQUENCE && NoAliases(Value(s))
    ensures SlotsOf(kids, s.kids, same) == SlotsOf(kids, s.kids, {})
  {
    ValuesAre(kids);
    ValuesAre(s.kids);
    assert Value(s).items == Values(s.kids);
    VerdictsDoNotMatter(Values(kids), Unused(|kids|), Values(s.kids), same, {}, 0);
  }

  /** What the merge of one element may write, the merge of the sequence may. */
  lemma SlotIsTouched(kids: seq<Shape>, s: Shape, same: set<(nat, nat)>, i: nat)
    requires s.kind == SEQUENCE && i < |s.kids|
    ensures |SlotsOf(kids, s.kids, same)| == |s.kids|
    ensures var k := SlotsOf(kids, s.kids, same)[i];
      0 <= k < |kids| ==>
        Touchable(kids[k], s.kids[i]) <= ElementsTouched(kids, s) && Touchable(kids[k], s.kids[i]) <= Foot(kids[k])
  {
    ValuesAre(kids);
    ValuesAre(s.kids);
    var k := SlotsOf(kids, s.kids, same)[i];
    if 0 <= k < |kids| {
      TouchableIn(kids[k], s.kids[i]);
      FeetHold(kids, k);
      if NoAliases(Value(s)) {
        SlotsWithoutAliases(kids, s, same);
        assert Touchable(kids[k], s.kids[i]) == SlotTouches(kids, s.kids, i);
      }
    }
  }

  lemma {:induction false} TouchedSlot(d: Shape, s: Shape, n: Node) returns (i: nat)
    requires d.kind == SEQUENCE && s.kind == SEQUENCE && NoAliases(Value(s)) && n in Touchable(d, s) && n != d.node
    ensures i < |s.kids| && n in SlotTouches(d.kids, s.kids, i)
  {
    i :| 0 <= i < |s.kids| && n in SlotTouches(d.kids, s.kids, i);
  }

  // ---- which tree becomes which ----------------------------------------------------------------------

  /** How the tree at a node has changed: the node stays, and so do its notes; a mapping keeps its own fields and its
      children and grows by the keys that are added; a sequence keeps its own fields. */
  ghost predicate Merged(d: Shape, s: Shape, path: seq<string>, d': Shape)
    decreases d, 0
  {
    && d'.node == d.node && d'.notes == d.notes
    && if d.kind == MAPPING && s.kind == MAPPING then
        && d' == d.(kids := d'.kids) && MergedKids(d.kids, d'.kids, s.kids, path, |s.kids|)
        && (|d'.kids| > |d.kids| <==> Grows(Entries(d.kids), Entries(s.kids), path))
      else if s.kind == SCALAR || s.kind == ALIAS then d' == d.(kind := s.kind, tag := s.tag, text := s.text)
      else if StaysNull(d, s) then d' == d
      else if d.kind == SEQUENCE && s.kind == SEQUENCE then
        d' == d.(kids := d'.kids) && MergedElements(d.kids, d'.kids, s, path)
      else d'.kind == s.kind
  }

  ghost predicate StaysNull(d: Shape, s: Shape) {
    s.kind == SEQUENCE && s.kids == [] && d.kind == SCALAR && d.tag == "!!null"
  }

  /** Some generated key is added to these entries. */
  ghost predicate Grows(entries: seq<T.Entry>, src: seq<T.Entry>, path: seq<string>) {
    exists i :: 0 <= i < |src| && L.IsAdded(entries, src[i], path)
  }

  /** Some key is dropped, because the generated element does not have it. */
  ghost predicate Loses(kids: seq<Shape>, src: seq<T.Entry>) {
    exists j :: 0 <= j && 2 * j + 1 < |kids| && !KeyKept(kids[2 * j].text, src)
  }

  /** The children, after the first `count` generated keys. */
  ghost predicate MergedKids(kids: seq<Shape>, kids': seq<Shape>, newKids: seq<Shape>, path: seq<string>, count: nat)
    decreases kids
  {
    && |kids| <= |kids'| && (forall j | 0 <= j < |kids| :: kids'[j].node == kids[j].node)
    && (forall j | 0 <= j && 2 * j < |kids| :: kids'[2 * j] == kids[2 * j])
    && forall m | 0 <= m < count && 2 * m + 1 < |newKids| :: MergedAt(kids, kids', newKids, path, m)
  }

  /** The value that had the `m`-th generated key. */
  ghost predicate MergedAt(kids: seq<Shape>, kids': seq<Shape>, newKids: seq<Shape>, path: seq<string>, m: nat)
    requires |kids| <= |kids'| && 2 * m + 1 < |newKids|
    decreases kids, 0
  {
    var key := newKids[2 * m].text;
    var j := T.FindKey(Entries(kids), key);
    j < 0 || 2 * j + 1 >= |kids| || Merged(kids[2 * j + 1], newKids[2 * m + 1], path + [key], kids'[2 * j + 1])
  }

  /** The elements, when no alias leaves open which old ones are taken over. */
  ghost predicate MergedElements(kids: seq<Shape>, kids': seq<Shape>, s: Shape, path: seq<string>)
    decreases kids
  {
    && |kids'| == |s.kids|
    && (NoAliases(Value(s)) ==>
          forall i | 0 <= i < |s.kids| && SlotAt(kids, s.kids, i) >= 0 ::
            TakenMerged(kids[SlotAt(kids, s.kids, i)], s.kids[i], path, kids'[i]))
  }

  /** An element that was taken over. If it is a mapping it has lost the keys the generated one does not have; the
      values of the others are merged. */
  ghost predicate TakenMerged(w: Shape, s: Shape, path: seq<string>, k: Shape)
    decreases w, 1
  {
    if w.kind == MAPPING && s.kind == MAPPING then
      && k == w.(kids := k.kids)
      && (forall m | 0 <= m && 2 * m + 1 < |s.kids| && T.Trim(s.kids[2 * m].text) != "" ::
            ValueStands(w.kids, k.kids, s.kids, path, m))
      && (!Grows(Entries(w.kids), Entries(s.kids), path) && !Loses(w.kids, Entries(s.kids)) ==>
            |k.kids| == |w.kids| && forall j | 0 <= j < |w.kids| :: k.kids[j].node == w.kids[j].node)
    else Merged(w, s, path, k)
  }

  /** The value that had the `m`-th generated key stands among the children, merged. */
  ghost predicate ValueStands(kids: seq<Shape>, kids': seq<Shape>, newKids: seq<Shape>, path: seq<string>, m: nat)
    requires 2 * m + 1 < |newKids|
    decreases kids
  {
    var key := newKids[2 * m].text;
    var j := T.FindKey(Entries(kids), key);
    j < 0 || 2 * j + 1 >= |kids| ||
    exists x :: 0 <= x < |kids'| && Merged(kids[2 * j + 1], newKids[2 * m + 1], path + [key], kids'[x])
  }

  // ---- dropping the keys of an element ---------------------------------------------------------------

  lemma {:induction false} KeptPairsHold(kids: seq<Shape>, src: seq<T.Entry>, n: nat, j: nat)
    requires 2 * n <= |kids| && j < n && KeyKept(kids[2 * j].text, src)
    ensures exists x :: 0 <= x < |KeptPairs(kids, src, n)| && KeptPairs(kids, src, n)[x] == kids[2 * j + 1]
    decreases n
  {
    var before, all := KeptPairs(kids, src, n - 1), KeptPairs(kids, src, n);
    if j == n - 1 {
      assert all[|before| + 1] == kids[2 * j + 1];
    } else {
      KeptPairsHold(kids, src, n - 1, j);
      var x :| 0 <= x < |before| && before[x] == kids[2 * j + 1];
      assert all[x] == before[x];
    }
  }

  lemma {:induction false} KeptPairsAll(kids: seq<Shape>, src: seq<T.Entry>, n: nat)
    requires 2 * n <= |kids| && forall j | 0 <= j < n :: KeyKept(kids[2 * j].text, src)
    ensures KeptPairs(kids, src, n) == kids[..2 * n]
    decreases n
  {
    if n > 0 {
      KeptPairsAll(kids, src, n - 1);
    }
  }

  lemma {:induction false} TakenStands(w: Shape, s: Shape, path: seq<string>, m: Shape, g: nat)
    requires m.kind == MAPPING && s.kind == MAPPING && MergedKids(w.kids, m.kids, s.kids, path, |s.kids|)
    requires 2 * g + 1 < |s.kids| && T.Trim(s.kids[2 * g].text) != "" && Paired(w.kids) && Paired(s.kids)
    ensures ValueStands(w.kids, PrunedBy(m, s).kids, s.kids, path, g)
  {
    hide Merged, KeptPairs;
    var key, src := s.kids[2 * g].text, Entries(s.kids);
    var j := T.FindKey(Entries(w.kids), key);
    if 0 <= j && 2 * j + 1 < |w.kids| {
      EntryIs(w.kids, j);
      EntryIs(s.kids, g);
      assert m.kids[2 * j].text == key && T.Trim(src[g].key) == T.Trim(key);
      KeptPairsHold(m.kids, src, |m.kids| / 2, j);
      assert MergedAt(w.kids, m.kids, s.kids, path, g);
    }
  }

  lemma {:induction false} TakenWhole(w: Shape, s: Shape, path: seq<string>, m: Shape)
    requires m.kind == MAPPING && s.kind == MAPPING && MergedKids(w.kids, m.kids, s.kids, path, |s.kids|)
    requires |m.kids| == |w.kids| && |w.kids| % 2 == 0 && !Loses(w.kids, Entries(s.kids))
    ensures PrunedBy(m, s).kids == m.kids
  {
    hide Merged, KeptPairs;
    var n := |m.kids| / 2;
    forall j | 0 <= j < n ensures KeyKept(m.kids[2 * j].text, Entries(s.kids)) {
      assert m.kids[2 * j] == w.kids[2 * j];
    }
    KeptPairsAll(m.kids, Entries(s.kids), n);
  }

  /** A merged element, cleared of missing keys. */
  lemma {:induction false} TakenIs(w: Shape, s: Shape, path: seq<string>, m: Shape)
    requires Merged(w, s, path, m) && Tidy(w) && Tidy(s)
    ensures TakenMerged(w, s, path, PrunedBy(m, s))
  {
    if w.kind == MAPPING && s.kind == MAPPING {
      var k := PrunedBy(m, s);
      forall g | 0 <= g && 2 * g + 1 < |s.kids| && T.Trim(s.kids[2 * g].text) != ""
        ensures ValueStands(w.kids, k.kids, s.kids, path, g)
      {
        TakenStands(w, s, path, m, g);
      }
      if !Grows(Entries(w.kids), Entries(s.kids), path) && !Loses(w.kids, Entries(s.kids)) {
        TakenWhole(w, s, path, m);
      }
      hide Merged, ValueStands, KeptPairs;
      assert k == w.(kids := k.kids);
    }
  }

  // ---- mappings that grow ----------------------------------------------------------------------------

  lemma {:induction false} AddedIffGrown(entries: seq<T.Entry>, src: seq<T.Entry>, path: seq<string>)
    ensures L.AddedKeys(entries, src, path) != [] <==> Grows(entries, src, path)
    decreases |src|
  {
    if src != [] {
      hide L.IsAdded;
      var n := |src| - 1;
      AddedIffGrown(entries, src[..n], path);
      if Grows(entries, src, path) && !L.IsAdded(entries, src[n], path) {
        var i :| 0 <= i < |src| && L.IsAdded(entries, src[i], path);
        assert src[..n][i] == src[i];
      }
    }
  }

  /** The merged mapping has more children exactly when it grows. */
  lemma GrownIff(kids: seq<Shape>, kids': seq<Shape>, src: seq<T.Entry>, path: seq<string>, v: Verdicts)
    requires Paired(kids) && Paired(kids') && T.UniqueKeys(src)
    requires Entries(kids') == M.MergeEntries(Entries(kids), src, path, v)
    ensures |kids'| > |kids| <==> Grows(Entries(kids), src, path)
  {
    EntriesCount(kids, |kids| / 2);
    EntriesCount(kids', |kids'| / 2);
    L.KeysKeepTheirOrder(Entries(kids), src, path, v);
    L.KeysAt(Entries(kids));
    L.KeysAt(Entries(kids'));
    AddedIffGrown(Entries(kids), src, path);
  }

  // ---- the other cases ---------------------------------------------------------------------------------

  /** A node that takes another kind, or stays a sequence. */
  lemma KindTaken(d: Shape, s: Shape, path: seq<string>, d': Shape)
    requires d'.node == d.node && d'.notes == d.notes && d'.kind == s.kind && (s.kind == MAPPING || s.kind == SEQUENCE)
    requires d.kind != s.kind
             || (s.kind == SEQUENCE && d' == d.(kids := d'.kids) && MergedElements(d.kids, d'.kids, s, path))
    requires s.kind == MAPPING || !StaysNull(d, s)
    ensures Merged(d, s, path, d')
  {
  }

  lemma LeafMerged(d: Shape, s: Shape, path: seq<string>, d': Shape)
    requires if s.kind == SCALAR || s.kind == ALIAS then d' == d.(kind := s.kind, tag := s.tag, text := s.text)
             else StaysNull(d, s) && d' == d
    ensures Merged(d, s, path, d')
  {
  }
}
