/** The merge in place (internal/config/config_yaml.go, `mergeMappingPreserve`, `mergeNodePreserve`): existing
    nodes are reused and changed, what is new is copied in. Proved against the merge of values. */
module YamlInPlace {
  import opened YamlCopy
  import opened YamlShape
  import opened YamlRead
  import opened YamlReading
  import opened YamlReorder
  import opened YamlEdit
  import opened YamlFootprint
  import T = YamlTree
  import M = YamlMerge
  import opened YamlMatch

  // ---- replacing and appending trees in a row --------------------------------------------------------

  /** The trees around place `i` share no node with it or with each other. */
  lemma RowAround(nodes: seq<Node?>, kids: seq<Shape>, i: nat)
    requires Row(nodes, kids) && i < |kids|
    ensures |nodes| == |kids| && nodes[i] == kids[i].node && Valid(kids[i])
    ensures Row(nodes[..i], kids[..i]) && Row(nodes[i + 1..], kids[i + 1..])
    ensures Feet(kids) == Feet(kids[..i]) + Foot(kids[i]) + Feet(kids[i + 1..])
    ensures Feet(kids[..i]) !! Feet(kids[i + 1..])
    ensures Foot(kids[i]) !! Feet(kids[..i]) && Foot(kids[i]) !! Feet(kids[i + 1..])
  {
    RowSplits(nodes, kids, i);
    RowFirst(nodes[i..], kids[i..]);
    assert nodes[i..][1..] == nodes[i + 1..] && kids[i..][1..] == kids[i + 1..];
  }

  lemma RowReplaced(nodes: seq<Node?>, kids: seq<Shape>, i: nat, k: Shape)
    requires i < |kids| == |nodes| && Row(nodes[..i], kids[..i]) && Row(nodes[i + 1..], kids[i + 1..])
    requires Valid(k) && k.node == nodes[i]
    requires Feet(kids[..i]) !! Feet(kids[i + 1..])
    requires Foot(k) !! Feet(kids[..i]) && Foot(k) !! Feet(kids[i + 1..])
    ensures Row(nodes, kids[i := k])
    ensures Feet(kids[i := k]) == Feet(kids[..i]) + Foot(k) + Feet(kids[i + 1..])
  {
    RowOfOne(nodes[i], k);
    RowSum(nodes[..i], kids[..i], [nodes[i]], [k]);
    RowSum(nodes[..i] + [nodes[i]], kids[..i] + [k], nodes[i + 1..], kids[i + 1..]);
    assert nodes[..i] + [nodes[i]] + nodes[i + 1..] == nodes;
    assert kids[..i] + [k] + kids[i + 1..] == kids[i := k];
  }

  lemma {:induction false} EntriesReplaced(kids: seq<Shape>, i: nat, k: Shape)
    requires 2 * i + 1 < |kids|
    ensures i < |Entries(kids)|
    ensures Entries(kids[2 * i + 1 := k]) == Entries(kids)[i := Entries(kids)[i].(value := Value(k))]
    decreases i
  {
    EntryIs(kids, i);
    var now := kids[2 * i + 1 := k];
    if i == 0 {
      assert now[2..] == kids[2..];
    } else {
      EntriesReplaced(kids[2..], i - 1, k);
      assert now[2..] == kids[2..][2 * (i - 1) + 1 := k] && now[0] == kids[0] && now[1] == kids[1];
    }
  }

  // ---- mappings --------------------------------------------------------------------------------------

  lemma PairedKept(kids: seq<Shape>, i: nat, k: Shape)
    requires Paired(kids) && 2 * i + 1 < |kids|
    ensures Paired(kids[2 * i + 1 := k])
  {
  }

  /** Merges `sv` into the `i`-th value of `dst`. */
  method MergeKid(dst: Node, j: nat, sv: Node, path: seq<string>, ghost d: Shape, ghost s: Shape,
                  ghost gen: set<Node>, ghost depth: nat, ghost i: nat)
    returns (ghost k: Shape, ghost v: Verdicts)
    requires Valid(d) && d.node == dst && d.kind == MAPPING && j == 2 * i + 1 < |d.kids|
    requires Readable(s, gen, depth) && s.node == sv && Foot(d) !! gen
    modifies Touchable(d.kids[j], s)
    ensures Valid(d.(kids := d.kids[j := k])) && Value(k) == M.MergeNode(Value(d.kids[j]), Value(s), path, v)
    ensures k.node == d.kids[j].node && Readable(s, gen, depth)
    ensures forall n | n in Foot(d.(kids := d.kids[j := k])) :: n in Foot(d) || fresh(n)
    ensures T.Unique(Value(s)) ==> Merged(d.kids[j], s, path, k)
    decreases s, 5
  {
    FieldsAre(d);
    KidsAreRow(d);
    RowAround(dst.content, d.kids, j);
    ghost var kids := d.kids;
    TouchableIn(kids[j], s);
    hide *;
    var nodes := dst.content;
    k, v := MergeNodePreserve(nodes[j], sv, path, kids[j], s, gen, depth);
    RowReplaced(nodes, kids, j, k);
    PairedKept(kids, i, k);
    ValidFrom(d.(kids := kids[j := k]));
  }

  lemma AppendedPair(nodes: seq<Node?>, kids: seq<Shape>, k: Shape, v: Shape)
    requires Row(nodes, kids) && Paired(kids) && Valid(k) && Valid(v) && IsKey(k)
    requires Foot(k) !! Foot(v) && Feet(kids) !! Foot(k) && Feet(kids) !! Foot(v)
    ensures Row(nodes + [k.node, v.node], kids + [k, v]) && Paired(kids + [k, v])
    ensures Feet(kids + [k, v]) == Feet(kids) + Foot(k) + Foot(v)
    ensures Entries(kids + [k, v]) == Entries(kids) + [T.Entry(Value(k), Value(v))]
  {
    EntriesMore(kids, k, v, |kids| / 2);
    PairedMore(kids, k, v);
    hide *;
    RowOfOne(k.node, k);
    RowOfOne(v.node, v);
    RowSum([k.node], [k], [v.node], [v]);
    assert [k.node] + [v.node] == [k.node, v.node] && [k] + [v] == [k, v];
    RowSum(nodes, kids, [k.node, v.node], [k, v]);
  }

  /** Appends a key and a value to the children of a mapping. */
  method AppendPair(dst: Node, keyNode: Node, valueNode: Node, ghost d: Shape, ghost k: Shape, ghost v: Shape)
    returns (ghost kids: seq<Shape>)
    requires Valid(d) && d.node == dst && d.kind == MAPPING
    requires Valid(k) && k.node == keyNode && IsKey(k) && Valid(v) && v.node == valueNode
    requires Foot(k) !! Foot(v) && Foot(d) !! Foot(k) && Foot(d) !! Foot(v)
    modifies dst`content
    ensures Valid(d.(kids := kids)) && Foot(d.(kids := kids)) == Foot(d) + Foot(k) + Foot(v)
    ensures Entries(kids) == Entries(d.kids) + [T.Entry(Value(k), Value(v))] && d.kids <= kids
  {
    FieldsAre(d);
    KidsAreRow(d);
    hide *;
    AppendedPair(dst.content, d.kids, k, v);
    kids := d.kids + [k, v];
    dst.content := dst.content + [keyNode, valueNode];
    ValidFrom(d.(kids := kids));
  }

  /** A new value: a copy, pruned, and whether it is a default then. */
  method CopyPruned(sv: Node, here: seq<string>, ghost v: Shape)
    returns (candidate: Node, known: bool, ghost c: Shape)
    requires Valid(v) && v.node == sv
    ensures Valid(c) && c.node == candidate && fresh(Foot(c)) && Value(c) == T.Prune(here, Value(v))
    ensures known == T.IsKnownDefault(here, Value(c))
  {
    hide *;
    candidate, c := CopyTree(sv, v);
    AlikeValue(c, v);
    c := PruneKnownDefaultsInNewNode(here, candidate, c);
    FootIsAllocated(c);
    known := IsKnownDefaultValue(here, candidate, c);
  }

  /** A key the mapping does not have: its value is copied and pruned, and added unless it is a default. */
  method AddNewKey(dst: Node, sk: Node, sv: Node, here: seq<string>, ghost d: Shape, ghost k: Shape, ghost v: Shape)
    returns (ghost kids: seq<Shape>)
    requires Valid(d) && d.node == dst && d.kind == MAPPING
    requires Valid(k) && k.node == sk && IsKey(k) && Valid(v) && v.node == sv
    modifies dst`content
    ensures Valid(d.(kids := kids)) && forall n | n in Foot(d.(kids := kids)) :: n in Foot(d) || fresh(n)
    ensures var candidate := T.Prune(here, Value(v));
      Entries(kids) == Entries(d.kids) +
        if T.IsKnownDefault(here, candidate) then [] else [T.Entry(Value(k), candidate)]
    ensures d.kids <= kids
  {
    FootIsAllocated(d);
    FootIsAllocated(k);
    assert d.(kids := d.kids) == d;
    hide *;
    var candidate, known;
    ghost var c;
    candidate, known, c := CopyPruned(sv, here, v);
    if known {
      kids := d.kids;
    } else {
      FootIsAllocated(c);
      var key;
      ghost var copy;
      key, copy := CopyTree(sk, k);
      AlikeValue(copy, k);
      kids := AppendPair(dst, key, candidate, d, copy, c);
    }
  }

  lemma AlikeValue(s: Shape, t: Shape)
    requires Alike(s, t)
    ensures Value(s) == Value(t) && s.notes == t.notes && s.text == t.text && s.kind == t.kind
  {
  }

  /** A key the mapping has: the generated value is merged into the existing one. */
  method MergeExisting(dst: Node, idx: nat, sv: Node, here: seq<string>, ghost d: Shape, ghost s: Shape, ghost j: nat,
                       ghost gen: set<Node>, ghost depth: nat)
    returns (ghost kids: seq<Shape>, ghost v: Verdicts)
    requires Valid(d) && d.node == dst && d.kind == MAPPING && idx == 2 * j && idx + 1 < |d.kids|
    requires Readable(s, gen, depth) && s.node == sv && Foot(d) !! gen
    modifies Touchable(d.kids[idx + 1], s)
    ensures Valid(d.(kids := kids)) && Readable(s, gen, depth)
    ensures forall n | n in Foot(d.(kids := kids)) :: n in Foot(d) || fresh(n)
    ensures j < |Entries(d.kids)|
    ensures var e := Entries(d.kids)[j];
      Entries(kids) == Entries(d.kids)[j := e.(value := M.MergeNode(e.value, Value(s), here, v))]
    ensures |kids| == |d.kids| && kids == d.kids[idx + 1 := kids[idx + 1]] && kids[idx + 1].node == d.kids[idx + 1].node
    ensures T.Unique(Value(s)) ==> Merged(d.kids[idx + 1], s, here, kids[idx + 1])
    decreases s, 6
  {
    hide *;
    EntryIs(d.kids, j);
    ghost var k;
    k, v := MergeKid(dst, idx + 1, sv, here, d, s, gen, depth, j);
    EntriesReplaced(d.kids, j, k);
    kids := d.kids[idx + 1 := k];
  }

  lemma KidReadable(s: Shape, gen: set<Node>, depth: nat, i: nat)
    requires Readable(s, gen, depth) && i < |s.kids|
    ensures |s.node.content| == |s.kids| && s.node.content[i] == s.kids[i].node
    ensures Valid(s.kids[i]) && Readable(s.kids[i], gen, depth)
  {
    StandsIn(s, gen);
    KidStands(s, gen, depth, i);
    FiniteMore(gen, s.kids[i].node, depth - 1, depth);
  }

  /** What one turn of the loop needs to know of the `i`-th key `k` and value `v` of `s`. */
  lemma {:induction false} PairOf(d: Shape, s: Shape, gen: set<Node>, depth: nat, i: nat, k: Shape, v: Shape)
    requires Valid(d) && Readable(s, gen, depth)
    requires s.kind == MAPPING && 2 * i + 1 < |s.kids| && k == s.kids[2 * i] && v == s.kids[2 * i + 1]
    ensures d.node in Foot(d) && d.node.kind == d.kind && |s.node.content| == |s.kids|
    ensures s.node.content[2 * i] == k.node && Valid(k) && k.node.value == k.text && IsKey(k)
    ensures s.node.content[2 * i + 1] == v.node && Valid(v) && Readable(v, gen, depth)
    ensures i < |Entries(s.kids)| && Entries(s.kids)[i] == T.Entry(Value(k), Value(v))
    ensures Entries(s.kids)[i].key == k.text
    ensures T.Unique(Value(s)) ==> T.Unique(Value(v))
    ensures (forall n | n in Foot(d) :: allocated(n))
    ensures (forall n | n in Foot(k) :: allocated(n)) && (forall n | n in Foot(v) :: allocated(n))
  {
    FieldsAre(d);
    StandsIn(s, gen);
    EntryAt(s, i);
    KidReadable(s, gen, depth, 2 * i + 1);
    FieldsAre(k);
    FieldsAre(v);
    KeyIsOne(s.kids, i);
    EntryIs(s.kids, i);
  }

  /** What one turn leaves of the children: only the value under the `i`-th generated key is another tree, at the
      same node; or that key and a value are added. */
  ghost predicate Turned(kids: seq<Shape>, kids': seq<Shape>, newKids: seq<Shape>, path: seq<string>, i: nat) {
    && 2 * i + 1 < |newKids|
    && var j := T.FindKey(Entries(kids), newKids[2 * i].text);
      if j < 0 then kids <= kids'
      else
        && 2 * j + 1 < |kids| == |kids'| && kids' == kids[2 * j + 1 := kids'[2 * j + 1]]
        && kids'[2 * j + 1].node == kids[2 * j + 1].node
        && (T.Unique(Value(newKids[2 * i + 1])) ==>
              Merged(kids[2 * j + 1], newKids[2 * i + 1], path + [newKids[2 * i].text], kids'[2 * j + 1]))
  }

  lemma PairTouched(d: Shape, s: Shape, i: nat)
    requires d.kind == MAPPING && Valid(d) && 2 * i + 1 < |s.kids|
    ensures var j := T.FindKey(Entries(d.kids), s.kids[2 * i].text);
      j >= 0 ==>
        && 2 * j + 1 < |d.kids| && j < |Entries(d.kids)|
        && PairTouches(d.kids, s.kids, i) == Touchable(d.kids[2 * j + 1], s.kids[2 * i + 1])
  {
    FieldsAre(d);
  }

  /** One turn of the loop of `mergeMappingPreserve`. */
  method MergePair(dst: Node, src: Node, i: nat, path: seq<string>, ghost d: Shape, ghost s: Shape,
                   ghost gen: set<Node>, ghost depth: nat)
    returns (ghost kids: seq<Shape>, ghost v: Verdicts)
    requires Valid(d) && d.node == dst && Readable(s, gen, depth) && s.node == src && Foot(d) !! gen
    requires d.kind == MAPPING && s.kind == MAPPING && 2 * i + 1 < |s.kids|
    modifies {dst} + PairTouches(d.kids, s.kids, i)
    ensures Valid(d.(kids := kids)) && Readable(s, gen, depth)
    ensures forall n | n in Foot(d.(kids := kids)) :: n in Foot(d) || fresh(n)
    ensures i < |Entries(s.kids)| && Entries(kids) == M.MergeEntry(Entries(d.kids), Entries(s.kids)[i], path, v)
    ensures Turned(d.kids, kids, s.kids, path, i)
    decreases s, 0
  {
    hide *;
    ghost var sk', sv' := s.kids[2 * i], s.kids[2 * i + 1];
    PairOf(d, s, gen, depth, i, sk', sv');
    PairTouched(d, s, i);
    TouchedIn(d, s, i);
    var sk, sv := src.content[2 * i], src.content[2 * i + 1];
    var childPath := path + [sk.value];
    var idx := FindMapKeyIndex(dst, sk.value, d);
    if idx >= 0 {
      ghost var j := T.FindKey(Entries(d.kids), sk.value);
      kids, v := MergeExisting(dst, idx, sv, childPath, d, sv', j, gen, depth);
      TurnedTo(d.kids, kids, s.kids, path, i);
    } else {
      kids := AddNewKey(dst, sk, sv, childPath, d, sk', sv');
      v := NO_VERDICTS;
      TurnedTo(d.kids, kids, s.kids, path, i);
    }
    MergeEntryCases(Entries(d.kids), Entries(s.kids)[i], path, v);
  }

  lemma TouchedIn(d: Shape, s: Shape, i: nat)
    ensures PairTouches(d.kids, s.kids, i) <= Foot(d)
  {
    if 2 * i + 1 < |s.kids| {
      var j := T.FindKey(Entries(d.kids), s.kids[2 * i].text);
      if 0 <= j && 2 * j + 1 < |d.kids| {
        TouchableIn(d.kids[2 * j + 1], s.kids[2 * i + 1]);
        FeetHold(d.kids, 2 * j + 1);
      }
    }
  }

  lemma {:induction false} TurnedTo(kids: seq<Shape>, kids': seq<Shape>, newKids: seq<Shape>, path: seq<string>, i: nat)
    requires 2 * i + 1 < |newKids|
    requires var j := T.FindKey(Entries(kids), newKids[2 * i].text);
      if j < 0 then kids <= kids'
      else
        && 2 * j + 1 < |kids| == |kids'| && kids' == kids[2 * j + 1 := kids'[2 * j + 1]]
        && kids'[2 * j + 1].node == kids[2 * j + 1].node
        && (T.Unique(Value(newKids[2 * i + 1])) ==>
              Merged(kids[2 * j + 1], newKids[2 * i + 1], path + [newKids[2 * i].text], kids'[2 * j + 1]))
    ensures Turned(kids, kids', newKids, path, i)
  {
  }

  lemma MergeEntryCases(entries: seq<T.Entry>, e: T.Entry, path: seq<string>, v: Verdicts)
    ensures var i, here := T.FindKey(entries, e.key), path + [e.key];
      M.MergeEntry(entries, e, path, v) ==
        if i >= 0 then entries[i := entries[i].(value := M.MergeNode(entries[i].value, e.value, here, v))]
        else entries + if T.IsKnownDefault(here, T.Prune(here, e.value)) then []
                       else [T.Entry(e.name, T.Prune(here, e.value))]
  {
  }

  // ---- the loop over the generated keys ----------------------------------------------------------------

  /** As long as no key comes twice, the values under the keys still to come are as they were, and those under the
      keys before are merged. */
  ghost predicate Pending(d: Shape, kids: seq<Shape>, s: Shape, path: seq<string>, i: nat) {
    && (T.UniqueKeys(Entries(s.kids)) ==>
          forall m | i <= m && 2 * m + 1 < |s.kids| :: PendingAt(d.kids, kids, s.kids[2 * m].text))
    && (T.Unique(Value(s)) ==> MergedKids(d.kids, kids, s.kids, path, i))
  }

  ghost predicate PendingAt(was: seq<Shape>, kids: seq<Shape>, key: string) {
    var j := T.FindKey(Entries(kids), key);
    && j == T.FindKey(Entries(was), key)
    && (j >= 0 ==> 2 * j + 1 < |kids| && 2 * j + 1 < |was| && kids[2 * j + 1] == was[2 * j + 1])
  }

  lemma PendingStart(d: Shape, s: Shape, path: seq<string>)
    requires Valid(d) && d.kind == MAPPING
    ensures Pending(d, d.kids, s, path, 0)
  {
    FieldsAre(d);
  }

  lemma OtherKeysStay(entries: seq<T.Entry>, e: T.Entry, path: seq<string>, v: Verdicts, key: string)
    requires key != e.key
    ensures T.FindKey(M.MergeEntry(entries, e, path, v), key) == T.FindKey(entries, key)
  {
    var r, j := M.MergeEntry(entries, e, path, v), T.FindKey(entries, key);
    assert forall k | 0 <= k < |entries| :: r[k].key == entries[k].key;
    if j >= 0 {
      FindKeyFrom(r, key, j);
    } else {
      NoKey(r, key);
    }
  }

  lemma PendingOther(was: seq<Shape>, kids: seq<Shape>, kids': seq<Shape>, newKids: seq<Shape>, i: nat, e: T.Entry,
                     path: seq<string>, v: Verdicts, key: string)
    requires PendingAt(was, kids, key) && Turned(kids, kids', newKids, path, i) && key != e.key
    requires e.key == newKids[2 * i].text && Entries(kids') == M.MergeEntry(Entries(kids), e, path, v)
    ensures PendingAt(was, kids', key)
  {
    OtherKeysStay(Entries(kids), e, path, v, key);
  }

  lemma {:induction false} PendingNext(d: Shape, kids: seq<Shape>, kids': seq<Shape>, s: Shape, i: nat,
                                       path: seq<string>, v: Verdicts)
    requires Pending(d, kids, s, path, i) && Turned(kids, kids', s.kids, path, i) && s.kind == MAPPING && Paired(s.kids)
    requires i < |Entries(s.kids)| && Entries(kids') == M.MergeEntry(Entries(kids), Entries(s.kids)[i], path, v)
    ensures Pending(d, kids', s, path, i + 1)
  {
    var e := Entries(s.kids)[i];
    EntryIs(s.kids, i);
    if T.UniqueKeys(Entries(s.kids)) {
      forall m | i + 1 <= m && 2 * m + 1 < |s.kids| ensures PendingAt(d.kids, kids', s.kids[2 * m].text) {
        EntryIs(s.kids, m);
        PendingOther(d.kids, kids, kids', s.kids, i, e, path, v, s.kids[2 * m].text);
      }
    }
    if T.Unique(Value(s)) {
      MergedNext(d, kids, kids', s, path, i);
    }
  }

  lemma {:induction false} MergedNext(d: Shape, kids: seq<Shape>, kids': seq<Shape>, s: Shape, path: seq<string>,
                                      i: nat)
    requires MergedKids(d.kids, kids, s.kids, path, i) && Turned(kids, kids', s.kids, path, i)
    requires s.kind == MAPPING && Paired(s.kids)
    requires T.Unique(Value(s)) && PendingAt(d.kids, kids, s.kids[2 * i].text)
    ensures MergedKids(d.kids, kids', s.kids, path, i + 1)
  {
    hide Merged;
    EntryIs(s.kids, i);
    assert T.Unique(Entries(s.kids)[i].value);
    forall m | 0 <= m < i && 2 * m + 1 < |s.kids|
      ensures MergedAt(d.kids, kids', s.kids, path, m)
    {
      EntryIs(s.kids, m);
      assert s.kids[2 * m].text != s.kids[2 * i].text;
      assert MergedAt(d.kids, kids, s.kids, path, m);
      MergedStays(d.kids, kids, kids', s.kids, path, m, i);
    }
  }

  /** A turn leaves the values under other keys. */
  lemma MergedStays(was: seq<Shape>, kids: seq<Shape>, kids': seq<Shape>, newKids: seq<Shape>, path: seq<string>,
                    m: nat, i: nat)
    requires |was| <= |kids| && 2 * m + 1 < |newKids| && MergedAt(was, kids, newKids, path, m)
    requires Turned(kids, kids', newKids, path, i) && PendingAt(was, kids, newKids[2 * i].text)
    requires newKids[2 * m].text != newKids[2 * i].text
    ensures |was| <= |kids'| && MergedAt(was, kids', newKids, path, m)
  {
    hide Merged;
    var j, turned := T.FindKey(Entries(was), newKids[2 * m].text), T.FindKey(Entries(kids), newKids[2 * i].text);
    assert j < 0 || j != turned;
  }

  /** What one turn may write, the merge may write. */
  lemma TurnTouches(d: Shape, kids: seq<Shape>, s: Shape, path: seq<string>, i: nat)
    requires Pending(d, kids, s, path, i) && 2 * i + 1 < |s.kids| && d.kind == MAPPING && s.kind == MAPPING
    ensures forall n | n in PairTouches(kids, s.kids, i) ::
              n in Touchable(d, s) || (Touchable(d, s) == Foot(d) && n in Foot(d.(kids := kids)))
    ensures d.node in Touchable(d, s)
  {
    TouchableIn(d, s);
    TouchedIn(d.(kids := kids), s, i);
    if T.UniqueKeys(Entries(s.kids)) {
      assert PendingAt(d.kids, kids, s.kids[2 * i].text);
      assert PairTouches(kids, s.kids, i) == PairTouches(d.kids, s.kids, i);
    }
  }

  ghost function Judged(inner: seq<Verdicts>): Verdicts {
    Verdicts({}, inner)
  }

  /** The entries after one turn more. */
  lemma EntriesTurned(entries: seq<T.Entry>, src: seq<T.Entry>, path: seq<string>, inner: seq<Verdicts>, v: Verdicts)
    requires |inner| < |src|
    ensures var i := |inner|;
      M.MergeEntries(entries, src[..i + 1], path, Judged(inner + [v])) ==
      M.MergeEntry(M.MergeEntries(entries, src[..i], path, Judged(inner)), src[i], path, v)
  {
    var i := |inner|;
    assert src[..i + 1][..i] == src[..i];
    M.MergeEntriesAgree(entries, src[..i], path, Judged(inner), Judged(inner + [v]));
  }

  lemma LoopStart(d: Shape, s: Shape, gen: set<Node>, depth: nat, path: seq<string>)
    requires Valid(d) && Readable(s, gen, depth) && d.kind == MAPPING && s.kind == MAPPING
    ensures d.(kids := d.kids) == d && |s.node.content| == |s.kids| && Paired(s.kids) && Paired(d.kids)
    ensures |Entries(s.kids)| == |s.kids| / 2 && Entries(s.kids)[..|s.kids| / 2] == Entries(s.kids)
    ensures Entries(d.kids) == M.MergeEntries(Entries(d.kids), Entries(s.kids)[..0], path, Judged([]))
    ensures (forall n | n in Foot(d) :: allocated(n)) && Foot(d.(kids := d.kids)) == Foot(d)
    ensures Pending(d, d.kids, s, path, 0)
  {
    StandsIn(s, gen);
    FieldsAre(d);
    FieldsAre(s);
    PendingStart(d, s, path);
  }

  /** `mergeMappingPreserve` of two mappings: the loop over the generated keys. */
  method MergeEntriesInPlace(dst: Node, src: Node, path: seq<string>, ghost d: Shape, ghost s: Shape,
                             ghost gen: set<Node>, ghost depth: nat)
    returns (ghost kids: seq<Shape>, ghost v: Verdicts)
    requires Valid(d) && d.node == dst && Readable(s, gen, depth) && s.node == src && Foot(d) !! gen
    requires d.kind == MAPPING && s.kind == MAPPING
    modifies Touchable(d, s)
    ensures Valid(d.(kids := kids)) && Readable(s, gen, depth)
    ensures forall n | n in Foot(d.(kids := kids)) :: n in Foot(d) || fresh(n)
    ensures Entries(kids) == M.MergeEntries(Entries(d.kids), Entries(s.kids), path, v)
    ensures T.Unique(Value(s)) ==> Merged(d, s, path, d.(kids := kids))
    decreases s, 1
  {
    hide *;
    LoopStart(d, s, gen, depth, path);
    ghost var entries := Entries(s.kids);
    ghost var inner := [];
    kids := d.kids;
    for i := 0 to |src.content| / 2
      invariant Valid(d.(kids := kids)) && Readable(s, gen, depth)
      invariant forall n | n in Foot(d.(kids := kids)) :: n in Foot(d) || fresh(n)
      invariant |inner| == i && Entries(kids) == M.MergeEntries(Entries(d.kids), entries[..i], path, Judged(inner))
      invariant Pending(d, kids, s, path, i)
    {
      ghost var before := kids;
      ghost var v';
      TurnTouches(d, kids, s, path, i);
      kids, v' := MergePair(dst, src, i, path, d.(kids := kids), s, gen, depth);
      PendingNext(d, before, kids, s, i, path, v');
      EntriesTurned(Entries(d.kids), entries, path, inner, v');
      inner := inner + [v'];
    }
    v := Judged(inner);
    LoopEnd(d, kids, s, path, v);
  }

  lemma {:induction false} LoopEnd(d: Shape, kids: seq<Shape>, s: Shape, path: seq<string>, v: Verdicts)
    requires Pending(d, kids, s, path, |s.kids| / 2) && d.kind == MAPPING && s.kind == MAPPING
    requires Valid(d.(kids := kids)) && Paired(d.kids)
    requires Entries(kids) == M.MergeEntries(Entries(d.kids), Entries(s.kids), path, v)
    ensures T.Unique(Value(s)) ==> Merged(d, s, path, d.(kids := kids))
  {
    FieldsAre(d.(kids := kids));
    if T.Unique(Value(s)) {
      GrownIff(d.kids, kids, Entries(s.kids), path, v);
    }
  }

  // ---- sequences -----------------------------------------------------------------------------------

  lemma ReadableStands(s: Shape, gen: set<Node>, depth: nat)
    requires Readable(s, gen, depth)
    ensures Valid(s) && Foot(s) <= gen && s.node in gen
  {
    StandsIn(s, gen);
  }

  /** One element: a copy of the new one, or the old one it took over, merged and cleared of missing keys. */
  method MergeElement(was: Node?, src: Node, path: seq<string>, ghost w: Shape, ghost s: Shape,
                      ghost gen: set<Node>, ghost depth: nat)
    returns (now: Node, ghost k: Shape, ghost v: Verdicts)
    requires Readable(s, gen, depth) && s.node == src
    requires was != null ==> Valid(w) && w.node == was && Foot(w) !! gen
    modifies if was == null then {} else Touchable(w, s)
    ensures Valid(k) && k.node == now && Readable(s, gen, depth) && (was != null ==> now == was)
    ensures forall n | n in Foot(k) :: (was != null && n in Foot(w)) || fresh(n)
    ensures Value(k) == if was == null then Value(s)
                        else M.PruneMissing(M.MergeNode(Value(w), Value(s), path, v), Value(s))
    ensures was != null && T.Unique(Value(s)) ==> TakenMerged(w, s, path, k)
    decreases s, 5
  {
    hide *;
    if was == null {
      ReadableStands(s, gen, depth);
      now, k := CopyTree(src, s);
      AlikeValue(k, s);
      v := NO_VERDICTS;
    } else {
      now := was;
      TouchableIn(w, s);
      ValidIsTidy(w);
      k, v := MergeNodePreserve(was, src, path, w, s, gen, depth);
      ReadableStands(s, gen, depth);
      RootIsIn(k);
      if T.Unique(Value(s)) {
        TakenIs(w, s, path, k);
      }
      k := PruneMissingMapKeys(was, src, k, s);
    }
  }

  lemma ValidIsTidy(s: Shape)
    requires Valid(s)
    ensures Tidy(s)
  {
  }

  /** The elements so far that took over old ones. */
  ghost predicate TakenSoFar(done: seq<Shape>, kids: seq<Shape>, s: Shape, path: seq<string>, slots: seq<int>) {
    T.Unique(Value(s)) ==>
      forall j | 0 <= j < |done| && j < |slots| && j < |s.kids| && 0 <= slots[j] < |kids| ::
        TakenMerged(kids[slots[j]], s.kids[j], path, done[j])
  }

  lemma TakenNext(done: seq<Shape>, kids: seq<Shape>, s: Shape, path: seq<string>, slots: seq<int>, k: Shape)
    requires TakenSoFar(done, kids, s, path, slots) && |done| < |slots| && |done| < |s.kids| && s.kind == SEQUENCE
    requires var i := |done|;
      0 <= slots[i] < |kids| && T.Unique(Value(s.kids[i])) ==> TakenMerged(kids[slots[i]], s.kids[i], path, k)
    ensures TakenSoFar(done + [k], kids, s, path, slots)
  {
    hide TakenMerged;
    ValuesAre(s.kids);
    assert Value(s).items == Values(s.kids);
  }

  lemma TakenEnd(done: seq<Shape>, kids: seq<Shape>, s: Shape, path: seq<string>, same: set<(nat, nat)>)
    requires TakenSoFar(done, kids, s, path, SlotsOf(kids, s.kids, same)) && |done| == |s.kids| && s.kind == SEQUENCE
    ensures T.Unique(Value(s)) ==> MergedElements(kids, done, s, path)
  {
    hide TakenMerged;
    ValuesAre(kids);
    ValuesAre(s.kids);
    if NoAliases(Value(s)) {
      SlotsWithoutAliases(kids, s, same);
    }
  }

  lemma NothingTaken(done: seq<Shape>, kids: seq<Shape>, s: Shape, path: seq<string>)
    requires |done| == |s.kids| && (kids == [] || s.kids == [])
    ensures MergedElements(kids, done, s, path)
  {
  }

  lemma TakenNone(kids: seq<Shape>, s: Shape, path: seq<string>, slots: seq<int>)
    ensures TakenSoFar([], kids, s, path, slots)
  {
  }

  lemma RootIsIn(s: Shape)
    ensures s.node in Foot(s)
  {
  }

  /** The old trees that the slots take over. */
  ghost function Picked(kids: seq<Shape>, slots: seq<int>): seq<Shape> {
    if slots == [] then []
    else (if 0 <= slots[0] < |kids| then [kids[slots[0]]] else []) + Picked(kids, slots[1..])
  }

  /** Separate trees, wherever they hang. */
  ghost predicate Standing(trees: seq<Shape>)
    reads Feet(trees)
  {
    (AllAre(trees) && Apart(trees) && forall i | 0 <= i < |trees| :: Tidy(trees[i])) == true // proved as one fact
  }

  lemma {:induction false} PickedFrom(kids: seq<Shape>, slots: seq<int>, i: nat)
    requires i < |Picked(kids, slots)|
    ensures exists j :: 0 <= j < |slots| && 0 <= slots[j] < |kids| && Picked(kids, slots)[i] == kids[slots[j]]
    decreases |slots|
  {
    var here := 0 <= slots[0] < |kids|;
    if !here || i > 0 {
      var i' := if here then i - 1 else i;
      PickedFrom(kids, slots[1..], i');
      var j :| 0 <= j < |slots[1..]| && 0 <= slots[1..][j] < |kids|
        && Picked(kids, slots[1..])[i'] == kids[slots[1..][j]];
      assert slots[j + 1] == slots[1..][j];
    }
  }

  lemma PickedApart(kids: seq<Shape>, slots: seq<int>, k: nat)
    requires k < |kids| && Apart(kids) && forall j | 0 <= j < |slots| :: slots[j] != k
    ensures Foot(kids[k]) !! Feet(Picked(kids, slots))
  {
    var rest := Picked(kids, slots);
    forall i | 0 <= i < |rest| ensures Foot(rest[i]) !! Foot(kids[k]) {
      PickedFrom(kids, slots, i);
      var j :| 0 <= j < |slots| && 0 <= slots[j] < |kids| && rest[i] == kids[slots[j]];
      assert slots[j] != k;
    }
    forall n | n in Foot(kids[k]) ensures n !in Feet(rest) {
      FeetOf(rest, n);
    }
  }

  lemma StandingMore(k: Shape, rest: seq<Shape>)
    requires Valid(k) && Standing(rest) && Foot(k) !! Feet(rest)
    ensures Standing([k] + rest) && Feet([k] + rest) == Foot(k) + Feet(rest)
  {
    FeetOfOne(k);
    ApartSum([k], rest);
    AllAreSum([k], rest);
    FeetOfSum([k], rest);
    assert AllAre([k]) by {
      assert [k][1..] == [];
    }
  }

  lemma {:induction false} PickedStand(nodes: seq<Node?>, kids: seq<Shape>, slots: seq<int>)
    requires Row(nodes, kids)
    requires forall i, j | 0 <= i < j < |slots| && slots[i] >= 0 :: slots[i] != slots[j]
    ensures Standing(Picked(kids, slots)) && Feet(Picked(kids, slots)) <= Feet(kids)
    decreases |slots|
  {
    if slots != [] {
      PickedStand(nodes, kids, slots[1..]);
      var rest := Picked(kids, slots[1..]);
      if 0 <= slots[0] < |kids| {
        RowAt(nodes, kids, slots[0]);
        PickedApart(kids, slots[1..], slots[0]);
        StandingMore(kids[slots[0]], rest);
        assert Picked(kids, slots) == [kids[slots[0]]] + rest;
      } else {
        assert Picked(kids, slots) == rest;
      }
    }
  }

  // The loop state: `done` holds the merged elements, the nodes from `i` on are those the reordering placed.
  ghost predicate Merging(content: seq<Node?>, placed: seq<Node?>, kids: seq<Shape>, slots: seq<int>, i: nat,
                          done: seq<Shape>)
    reads Feet(done), Feet(Picked(kids, slots[if i <= |slots| then i else 0..]))
  {
    (&& i <= |slots| == |placed| == |content|
     && Row(content[..i], done) && content[i..] == placed[i..]
     && Standing(Picked(kids, slots[i..]))
     && Feet(done) !! Feet(Picked(kids, slots[i..]))) == true // proved as one fact
  }

  lemma MergingStart(nodes: seq<Node?>, kids: seq<Shape>, slots: seq<int>, placed: seq<Node?>)
    requires Row(nodes, kids) && |placed| == |slots|
    requires forall i, j | 0 <= i < j < |slots| && slots[i] >= 0 :: slots[i] != slots[j]
    ensures Merging(placed, placed, kids, slots, 0, [])
    ensures Feet(Picked(kids, slots[0..])) <= Feet(kids)
  {
    PickedStand(nodes, kids, slots);
    assert slots[0..] == slots;
  }

  /** What is at place `i`, and what stays for later. */
  lemma MergingNext(content: seq<Node?>, placed: seq<Node?>, kids: seq<Shape>, slots: seq<int>, i: nat,
                    done: seq<Shape>, rest: seq<Shape>)
    requires Merging(content, placed, kids, slots, i, done) && i < |slots| && Placed(placed, kids, slots)
    requires -1 <= slots[i] < |kids| && rest == Picked(kids, slots[i + 1..])
    ensures |slots| == |placed| == |content| && content[i] == placed[i] && Row(content[..i], done)
    ensures content[i + 1..] == placed[i + 1..]
    ensures Standing(rest) && Feet(done) !! Feet(rest)
    ensures slots[i] < 0 ==> content[i] == null && Feet(Picked(kids, slots[i..])) == Feet(rest)
    ensures slots[i] >= 0 ==> var k := kids[slots[i]];
      && content[i] == k.node && Valid(k) && Foot(k) !! Feet(done) && Foot(k) !! Feet(rest)
      && Feet(Picked(kids, slots[i..])) == Foot(k) + Feet(rest)
    ensures (forall n | n in Feet(done) :: allocated(n)) && (forall n | n in Feet(rest) :: allocated(n))
  {
    var all := Picked(kids, slots[i..]);
    FeetAreAllocated(done);
    FeetAreAllocated(rest);
    assert slots[i..][0] == slots[i] && slots[i..][1..] == slots[i + 1..];
    assert content[i] == content[i..][0] == placed[i..][0] && content[i + 1..] == content[i..][1..];
    if slots[i] >= 0 {
      assert all == [kids[slots[i]]] + rest && all[0] == kids[slots[i]] && all[1..] == rest;
      FeetFrom(all, 0);
      assert all[0..] == all;
    } else {
      assert all == rest;
    }
  }

  lemma MergingTaken(content: seq<Node?>, placed: seq<Node?>, kids: seq<Shape>, slots: seq<int>, i: nat,
                     done: seq<Shape>, rest: seq<Shape>, now: Node, k: Shape)
    requires i < |slots| == |placed| == |content| && content[i + 1..] == placed[i + 1..] && Row(content[..i], done)
    requires rest == Picked(kids, slots[i + 1..]) && Standing(rest) && Feet(done) !! Feet(rest)
    requires Valid(k) && k.node == now && Foot(k) !! Feet(done) && Foot(k) !! Feet(rest)
    ensures Merging(content[i := now], placed, kids, slots, i + 1, done + [k])
    ensures Feet(done + [k]) == Feet(done) + Foot(k)
  {
    RowOfOne(now, k);
    RowSum(content[..i], done, [now], [k]);
    assert content[i := now][..i + 1] == content[..i] + [now];
    assert content[i := now][i + 1..] == content[i + 1..];
  }

  lemma MergingEnd(content: seq<Node?>, placed: seq<Node?>, kids: seq<Shape>, slots: seq<int>, done: seq<Shape>)
    requires Merging(content, placed, kids, slots, |slots|, done)
    ensures Row(content, done)
  {
    assert content[..|slots|] == content;
  }

  /** What the `i`-th element of the merged sequence is. */
  ghost function ElementNow(kids: seq<Shape>, newKids: seq<Shape>, path: seq<string>, slot: int, i: nat,
                            v: Verdicts): T.Node
    requires i < |newKids| && slot < |kids|
  {
    if slot < 0 then Value(newKids[i])
    else M.PruneMissing(M.MergeNode(Value(kids[slot]), Value(newKids[i]), path, v), Value(newKids[i]))
  }

  ghost function MergedItems(kids: seq<Shape>, newKids: seq<Shape>, path: seq<string>, v: Verdicts): seq<T.Node> {
    M.MergeItems(Reorder(Values(kids), Values(newKids), v.same), Values(newKids), path, v)
  }

  lemma ElementIs(kids: seq<Shape>, newKids: seq<Shape>, path: seq<string>, i: nat, v: Verdicts)
    requires i < |newKids|
    ensures var slots, items := SlotsOf(kids, newKids, v.same), MergedItems(kids, newKids, path, v);
      && |slots| == |items| == |newKids| && -1 <= slots[i] < |kids|
      && items[i] == ElementNow(kids, newKids, path, slots[i], i, Inner(v, i))
  {
    ValuesAre(kids);
    ValuesAre(newKids);
    M.MergeItemsAt(Reorder(Values(kids), Values(newKids), v.same), Values(newKids), path, v, i);
  }

  /** The first `i` trees are the merged elements. */
  ghost predicate Done(done: seq<Shape>, kids: seq<Shape>, newKids: seq<Shape>, path: seq<string>, slots: seq<int>,
                       inner: seq<Verdicts>)
  {
    && |done| == |inner| <= |slots| == |newKids|
    && forall j | 0 <= j < |done| :: DoneAt(done[j], kids, newKids, path, slots[j], j, inner[j])
  }

  ghost predicate DoneAt(k: Shape, kids: seq<Shape>, newKids: seq<Shape>, path: seq<string>, slot: int, j: nat,
                         v: Verdicts)
  {
    j < |newKids| && slot < |kids| && Value(k) == ElementNow(kids, newKids, path, slot, j, v)
  }

  lemma {:induction false} DoneNext(done: seq<Shape>, kids: seq<Shape>, newKids: seq<Shape>, path: seq<string>,
                                    slots: seq<int>, inner: seq<Verdicts>, k: Shape, v: Verdicts)
    requires Done(done, kids, newKids, path, slots, inner) && |done| < |slots| && slots[|done|] < |kids|
    requires Value(k) == ElementNow(kids, newKids, path, slots[|done|], |done|, v)
    ensures Done(done + [k], kids, newKids, path, slots, inner + [v])
  {
  }

  lemma DoneEnd(done: seq<Shape>, kids: seq<Shape>, newKids: seq<Shape>, path: seq<string>, same: set<(nat, nat)>,
                inner: seq<Verdicts>)
    requires Done(done, kids, newKids, path, SlotsOf(kids, newKids, same), inner) && |done| == |newKids|
    ensures Values(done) == MergedItems(kids, newKids, path, Verdicts(same, inner))
  {
    hide ElementNow, MergedItems, SlotsOf, Value, Values;
    var v := Verdicts(same, inner);
    ValuesAre(done);
    MergedCount(kids, newKids, path, v);
    forall j | 0 <= j < |done| ensures Values(done)[j] == MergedItems(kids, newKids, path, v)[j] {
      ElementIs(kids, newKids, path, j, v);
      assert DoneAt(done[j], kids, newKids, path, SlotsOf(kids, newKids, same)[j], j, inner[j]);
    }
  }

  lemma MergedCount(kids: seq<Shape>, newKids: seq<Shape>, path: seq<string>, v: Verdicts)
    ensures |MergedItems(kids, newKids, path, v)| == |newKids|
  {
    ValuesAre(newKids);
  }

  lemma ElementCases(kids: seq<Shape>, newKids: seq<Shape>, path: seq<string>, slot: int, i: nat, v: Verdicts)
    requires i < |newKids| && slot < |kids|
    ensures ElementNow(kids, newKids, path, slot, i, v) ==
      if slot < 0 then Value(newKids[i])
      else M.PruneMissing(M.MergeNode(Value(kids[slot]), Value(newKids[i]), path, v), Value(newKids[i]))
  {
  }

  lemma NextElement(kids: seq<Shape>, s: Shape, gen: set<Node>, depth: nat, same: set<(nat, nat)>, i: nat)
    requires Readable(s, gen, depth) && i < |s.kids|
    ensures var slots := SlotsOf(kids, s.kids, same); |slots| == |s.kids| && -1 <= slots[i] < |kids|
    ensures |s.node.content| == |s.kids| && s.node.content[i] == s.kids[i].node && Readable(s.kids[i], gen, depth)
  {
    ValuesAre(kids);
    ValuesAre(s.kids);
    KidReadable(s, gen, depth, i);
  }

  /** The loop over the elements of a sequence that has been reordered. */
  method MergeElements(dst: Node, src: Node, path: seq<string>, ghost nodes: seq<Node?>, ghost kids: seq<Shape>,
                       ghost s: Shape, ghost gen: set<Node>, ghost depth: nat, ghost same: set<(nat, nat)>)
    returns (ghost done: seq<Shape>, ghost inner: seq<Verdicts>)
    requires Row(nodes, kids) && Readable(s, gen, depth) && s.node == src && dst !in Feet(kids) && dst !in gen
    requires Feet(kids) !! gen && s.kind == SEQUENCE
    requires |dst.content| == |s.kids| == |SlotsOf(kids, s.kids, same)|
    requires Placed(dst.content, kids, SlotsOf(kids, s.kids, same))
    modifies dst`content, ElementsTouched(kids, s)
    ensures Row(dst.content, done) && Readable(s, gen, depth)
    ensures forall n | n in Feet(done) :: n in Feet(kids) || fresh(n)
    ensures Values(done) == MergedItems(kids, s.kids, path, Verdicts(same, inner))
    ensures T.Unique(Value(s)) ==> MergedElements(kids, done, s, path)
    decreases s, 1
  {
    hide *;
    ghost var slots, placed := SlotsOf(kids, s.kids, same), dst.content;
    MergeElementsStart(nodes, kids, placed, s, gen, depth, path, same);
    done, inner := [], [];
    TakenNone(kids, s, path, slots);
    for i := 0 to |src.content|
      invariant Merging(dst.content, placed, kids, slots, i, done) && |done| == i
      invariant Readable(s, gen, depth) && Feet(Picked(kids, slots[i..])) <= Feet(kids)
      invariant forall n | n in Feet(done) :: n in Feet(kids) || fresh(n)
      invariant Done(done, kids, s.kids, path, slots, inner) && TakenSoFar(done, kids, s, path, slots)
    {
      ghost var rest := Picked(kids, slots[i + 1..]);
      NextElement(kids, s, gen, depth, same, i);
      MergingNext(dst.content, placed, kids, slots, i, done, rest);
      var now;
      ghost var k, v;
      ghost var w := if slots[i] >= 0 then kids[slots[i]] else s;
      SlotIsTouched(kids, s, same, i);
      now, k, v := MergeElement(dst.content[i], src.content[i], path, w, s.kids[i], gen, depth);
      ElementCases(kids, s.kids, path, slots[i], i, v);
      DoneNext(done, kids, s.kids, path, slots, inner, k, v);
      TakenNext(done, kids, s, path, slots, k);
      MergingTaken(dst.content, placed, kids, slots, i, done, rest, now, k);
      dst.content := dst.content[i := now];
      done, inner := done + [k], inner + [v];
    }
    MergingEnd(dst.content, placed, kids, slots, done);
    DoneEnd(done, kids, s.kids, path, same, inner);
    TakenEnd(done, kids, s, path, same);
  }

  lemma MergeElementsStart(nodes: seq<Node?>, kids: seq<Shape>, placed: seq<Node?>, s: Shape, gen: set<Node>,
                           depth: nat, path: seq<string>, same: set<(nat, nat)>)
    requires Row(nodes, kids) && Readable(s, gen, depth) && |placed| == |SlotsOf(kids, s.kids, same)|
    ensures |s.node.content| == |s.kids| == |SlotsOf(kids, s.kids, same)|
    ensures Merging(placed, placed, kids, SlotsOf(kids, s.kids, same), 0, []) && Feet([]) == {}
    ensures Feet(Picked(kids, SlotsOf(kids, s.kids, same)[0..])) <= Feet(kids)
    ensures Done([], kids, s.kids, path, SlotsOf(kids, s.kids, same), [])
    ensures forall n | n in Feet(kids) :: allocated(n)
  {
    SlotsAreTaken(kids, s.kids, same);
    MergingStart(nodes, kids, SlotsOf(kids, s.kids, same), placed);
    ValuesAre(s.kids);
    StandsIn(s, gen);
    FieldsAre(s);
    FeetAreAllocated(kids);
  }

  lemma SlotsAreTaken(kids: seq<Shape>, newKids: seq<Shape>, same: set<(nat, nat)>)
    ensures var slots := SlotsOf(kids, newKids, same);
      && |slots| == |newKids|
      && (forall i, j | 0 <= i < j < |slots| && slots[i] >= 0 :: slots[i] != slots[j])
  {
    ValuesAre(kids);
    ValuesAre(newKids);
    SlotsAreTakenOnce(Values(kids), Unused(|kids|), Values(newKids), same, 0);
  }

  lemma SequenceIs(d: Shape, s: Shape, path: seq<string>, v: Verdicts)
    requires d.kind == SEQUENCE && s.kind == SEQUENCE
    ensures M.MergeNode(Value(d), Value(s), path, v) == T.Sequence(d.notes, d.tag, MergedItems(d.kids, s.kids, path, v))
  {
  }

  /** Without old elements the new ones are copied; without new ones nothing is left. */
  lemma NothingToMatch(kids: seq<Shape>, newKids: seq<Shape>, path: seq<string>, v: Verdicts)
    requires kids == [] || newKids == []
    ensures MergedItems(kids, newKids, path, v) == Values(newKids)
  {
    ValuesAre(newKids);
    ValuesAre(kids);
    var items := MergedItems(kids, newKids, path, v);
    forall i | 0 <= i < |newKids| ensures items[i] == Values(newKids)[i] {
      ElementIs(kids, newKids, path, i, v);
    }
  }

  lemma RowOfNothing()
    ensures Row([], []) && Feet([]) == {} && Values([]) == []
  {
  }

  lemma {:induction false} MergeContentStart(d: Shape, s: Shape, gen: set<Node>, depth: nat) returns (world: set<Node>)
    requires Valid(d) && Readable(s, gen, depth) && Foot(d) !! gen && d.kind == SEQUENCE
    ensures |d.node.content| == |d.kids| && |s.node.content| == |s.kids| && s.node in gen && d.node in Foot(d)
    ensures Row(d.node.content, d.kids) && Valid(s) && Row(s.node.content, s.kids)
    ensures d.node !in Feet(d.kids) && Foot(d) == {d.node} + Feet(d.kids)
    ensures depth > 0 && d.node in world && s.node in world && Comparable(d, s, world, depth - 1)
    ensures (forall n | n in Feet(d.kids) :: allocated(n)) && (forall n | n in Feet(s.kids) :: allocated(n))
    ensures Feet(s.kids) <= gen
  {
    StandsIn(s, gen);
    FieldsAre(d);
    FieldsAre(s);
    KidsAreRow(d);
    KidsAreRow(s);
    world := Everything(d, gen);
    AreComparable(d, s, gen, depth, world);
  }

  /** The content of a sequence: reordered, merged, lengthened or cut. After the reordering the two contents
      differ in length only when one of them was empty. */
  method MergeContent(dst: Node, src: Node, path: seq<string>, ghost d: Shape, ghost s: Shape,
                      ghost gen: set<Node>, ghost depth: nat)
    returns (ghost done: seq<Shape>, ghost v: Verdicts)
    requires Valid(d) && d.node == dst && Readable(s, gen, depth) && s.node == src && Foot(d) !! gen
    requires d.kind == SEQUENCE && s.kind == SEQUENCE
    modifies dst`content, ElementsTouched(d.kids, s)
    ensures Row(dst.content, done) && Readable(s, gen, depth) && Values(done) == MergedItems(d.kids, s.kids, path, v)
    ensures forall n | n in Feet(done) :: n in Feet(d.kids) || fresh(n)
    ensures T.Unique(Value(s)) ==> MergedElements(d.kids, done, s, path)
    decreases s, 2
  {
    hide *;
    ghost var world := MergeContentStart(d, s, gen, depth);
    ghost var nodes, kids := dst.content, d.kids;
    ghost var same := ReorderSequenceForMerge(dst, src, d, s, world, depth - 1);
    ghost var inner := [];
    if |dst.content| == 0 {
      var copied;
      copied, done := CopyAll(src.content, s.kids);
      dst.content := dst.content + copied;
      assert dst.content == copied;
      NothingTaken(done, kids, s, path);
      NothingToMatch(kids, s.kids, path, Verdicts(same, inner));
    } else if |src.content| == 0 {
      dst.content, done := [], [];
      RowOfNothing();
      NothingTaken(done, kids, s, path);
      NothingToMatch(kids, s.kids, path, Verdicts(same, inner));
    } else {
      done, inner := MergeElements(dst, src, path, nodes, kids, s, gen, depth, same);
    }
    v := Verdicts(same, inner);
  }

  /** The sequence case of `mergeNodePreserve`, on a destination that is a sequence. */
  method MergeSequence(dst: Node, src: Node, path: seq<string>, ghost d: Shape, ghost s: Shape,
                       ghost gen: set<Node>, ghost depth: nat)
    returns (ghost d': Shape, ghost v: Verdicts)
    requires Valid(d) && d.node == dst && Readable(s, gen, depth) && s.node == src && Foot(d) !! gen
    requires d.kind == SEQUENCE && s.kind == SEQUENCE
    modifies Touchable(d, s)
    ensures Valid(d') && d' == d.(kids := d'.kids) && Readable(s, gen, depth)
    ensures Value(d') == M.MergeNode(Value(d), Value(s), path, v)
    ensures forall n | n in Foot(d') :: n in Foot(d) || fresh(n)
    ensures T.Unique(Value(s)) ==> MergedElements(d.kids, d'.kids, s, path)
    decreases s, 3
  {
    FieldsAre(d);
    KidsAreRow(d);
    assert d.kind != MAPPING;
    TouchableSequence(d, s);
    ElementsTouchedIn(d.kids, s);
    hide *;
    ghost var done;
    done, v := MergeContent(dst, src, path, d, s, gen, depth);
    SequenceIs(d, s, path, v);
    d' := d.(kids := done);
    ValidFrom(d');
    ValueOfSequence(d');
  }

  // ---- the whole --------------------------------------------------------------------------------------

  lemma MappingIs(d: Shape, s: Shape, path: seq<string>, v: Verdicts)
    ensures d.kind == MAPPING && s.kind == MAPPING ==>
      && Value(d) == T.Mapping(d.notes, d.tag, Entries(d.kids))
      && M.MergeNode(Value(d), Value(s), path, v) ==
         T.Mapping(d.notes, d.tag, M.MergeEntries(Entries(d.kids), Entries(s.kids), path, v))
    ensures M.MergeRoot(Value(d), Value(s), v) ==
      if d.kind == MAPPING && s.kind == MAPPING then M.MergeNode(Value(d), Value(s), [], v)
      else T.WithNotes(Value(s), d.notes)
  {
  }

  /** `mergeMappingPreserve` */
  method MergeMappingPreserve(dst: Node, src: Node, path: seq<string>, ghost d: Shape, ghost s: Shape,
                              ghost gen: set<Node>, ghost depth: nat)
    returns (ghost d': Shape, ghost v: Verdicts)
    requires Valid(d) && d.node == dst && Readable(s, gen, depth) && s.node == src && Foot(d) !! gen
    modifies Touchable(d, s)
    ensures Valid(d') && d'.node == dst && Readable(s, gen, depth)
    ensures d.kind == MAPPING && s.kind == MAPPING ==> Value(d') == M.MergeNode(Value(d), Value(s), path, v)
    ensures path == [] ==> Value(d') == M.MergeRoot(Value(d), Value(s), v)
    ensures forall n | n in Foot(d') :: n in Foot(d) || fresh(n)
    ensures d.kind == MAPPING && s.kind == MAPPING && T.Unique(Value(s)) ==> Merged(d, s, path, d')
    ensures d.kind == MAPPING && s.kind == MAPPING ==> d' == d.(kids := d'.kids)
    decreases s, 2
  {
    FieldsAre(d);
    StandsIn(s, gen);
    FieldsAre(s);
    RootIsIn(d);
    TouchableIn(d, s);
    hide *;
    if dst.kind != MAPPING || src.kind != MAPPING {
      d' := CopyNodeShallow(dst, src, d, s);
      v := NO_VERDICTS;
      MappingIs(d, s, path, v);
      return;
    }
    ghost var kids;
    kids, v := MergeEntriesInPlace(dst, src, path, d, s, gen, depth);
    d' := d.(kids := kids);
    MappingIs(d, s, path, v);
    ValueOfSequence(d');
  }

  lemma NodeCases(d: Shape, s: Shape, path: seq<string>, v: Verdicts)
    requires Tidy(d) && Tidy(s)
    ensures s.kind == SCALAR ==> M.MergeNode(Value(d), Value(s), path, v) == T.Scalar(d.notes, s.tag, s.text)
    ensures s.kind == ALIAS ==> M.MergeNode(Value(d), Value(s), path, v) == T.Alias(d.notes, s.text)
    ensures s.kind == MAPPING && d.kind != MAPPING ==>
      M.MergeNode(Value(d), Value(s), path, v) == M.MergeNode(T.WithNotes(Value(s), d.notes), Value(s), path, v)
    ensures s.kind == SEQUENCE && d.kind == SCALAR && d.tag == "!!null" && |s.kids| == 0 ==>
      M.MergeNode(Value(d), Value(s), path, v) == Value(d)
    ensures s.kind == SEQUENCE && d.kind != SEQUENCE && !(d.kind == SCALAR && d.tag == "!!null" && |s.kids| == 0) ==>
      M.MergeNode(Value(d), Value(s), path, v) == M.MergeNode(T.Sequence(d.notes, "!!seq", []), Value(s), path, v)
  {
    ValuesAre(s.kids);
  }

  /** Makes any node an empty sequence. */
  method MakeSequence(dst: Node, ghost d: Shape) returns (ghost d': Shape)
    requires Valid(d) && d.node == dst
    modifies dst
    ensures Valid(d') && d'.node == dst && d'.kind == SEQUENCE && d'.notes == d.notes && Foot(d') == {dst}
    ensures Value(d') == T.Sequence(d.notes, "!!seq", [])
  {
    FieldsAre(d);
    RowOfNothing();
    dst.kind, dst.tag, dst.content := SEQUENCE, "!!seq", [];
    d' := Shape(dst, d.notes, SEQUENCE, "!!seq", d.text, d.alias, []);
    ValidFrom(d');
  }

  /** Takes kind, tag and text of a scalar or an alias; the children, which neither shows, stay, and so does where
      the node points to, which no scalar shows and which an alias, written by its name, does not show either. */
  method MakeScalar(dst: Node, src: Node, ghost d: Shape, ghost s: Shape) returns (ghost d': Shape)
    requires Valid(d) && d.node == dst && Valid(s) && s.node == src && (s.kind == SCALAR || s.kind == ALIAS)
    requires dst !in Foot(s)
    modifies dst
    ensures Valid(d') && d' == d.(kind := s.kind, tag := s.tag, text := s.text) && Foot(d') == Foot(d) && Valid(s)
    ensures Value(d') == if s.kind == SCALAR then T.Scalar(d.notes, s.tag, s.text) else T.Alias(d.notes, s.text)
  {
    FieldsAre(d);
    FieldsAre(s);
    KidsAreRow(d);
    FootIsAllocated(s);
    dst.kind, dst.tag, dst.value := src.kind, src.tag, src.value;
    d' := d.(kind := s.kind, tag := s.tag, text := s.text);
    ValidFrom(d');
  }

  lemma NodeStart(d: Shape, s: Shape, gen: set<Node>, depth: nat)
    requires Valid(d) && Readable(s, gen, depth) && Foot(d) !! gen
    ensures d.node.kind == d.kind && d.node.tag == d.tag && Valid(s) && s.node.kind == s.kind
    ensures Tidy(d) && Tidy(s) && SCALAR != SEQUENCE && SEQUENCE != ALIAS
    ensures StaysNull(d, s) <==>
      s.node.kind == SEQUENCE && |s.node.content| == 0 && d.node.kind == SCALAR && d.node.tag == "!!null"
    ensures |s.node.content| == |s.kids| && Touchable(d, s) <= Foot(d) && d.node in Touchable(d, s)
    ensures s.kind == SEQUENCE || s.kind == MAPPING || s.kind == SCALAR || s.kind == ALIAS
    ensures d.node in Foot(d) && Foot(s) <= gen && s.node in gen
    ensures forall n | n in Foot(d) :: allocated(n)
  {
    StandsIn(s, gen);
    FieldsAre(d);
    FieldsAre(s);
    TouchableIn(d, s);
  }

  /** `mergeNodePreserve` */
  method MergeNodePreserve(dst: Node, src: Node, path: seq<string>, ghost d: Shape, ghost s: Shape,
                           ghost gen: set<Node>, ghost depth: nat)
    returns (ghost d': Shape, ghost v: Verdicts)
    requires Valid(d) && d.node == dst && Readable(s, gen, depth) && s.node == src && Foot(d) !! gen
    modifies Touchable(d, s)
    ensures Valid(d') && d'.node == dst && Readable(s, gen, depth)
    ensures Value(d') == M.MergeNode(Value(d), Value(s), path, v)
    ensures forall n | n in Foot(d') :: n in Foot(d) || fresh(n)
    ensures T.Unique(Value(s)) ==> Merged(d, s, path, d')
    decreases s, 4
  {
    hide *;
    NodeStart(d, s, gen, depth);
    d', v := d, NO_VERDICTS;
    if src.kind == MAPPING {
      if dst.kind != MAPPING {
        d' := CopyNodeShallow(dst, src, d, s);
        TouchableIn(d', s);
      }
      d', v := MergeMappingPreserve(dst, src, path, d', s, gen, depth);
      if d.kind != MAPPING {
        KindTaken(d, s, path, d');
      }
      NodeCases(d, s, path, v);
    } else if src.kind == SEQUENCE {
      if dst.kind == SCALAR && dst.tag == "!!null" && |src.content| == 0 {
        NodeCases(d, s, path, v);
        LeafMerged(d, s, path, d);
        return;
      }
      if dst.kind != SEQUENCE {
        d' := MakeSequence(dst, d);
        TouchableIn(d', s);
      }
      d', v := MergeSequence(dst, src, path, d', s, gen, depth);
      NodeCases(d, s, path, v);
      if T.Unique(Value(s)) {
        KindTaken(d, s, path, d');
      }
    } else {
      d' := MakeScalar(dst, src, d, s);
      NodeCases(d, s, path, v);
      LeafMerged(d, s, path, d');
    }
  }
}
