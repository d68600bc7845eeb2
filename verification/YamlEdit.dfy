/** The in-place edits of internal/config/config_yaml.go below the merge itself: shallow copies, pruning of
    defaults and of missing keys. */
module YamlEdit {
  import opened YamlCopy
  import opened YamlShape
  import opened YamlRead
  import opened YamlReorder
  import T = YamlTree
  import M = YamlMerge

  // ---- rows of trees -------------------------------------------------------------------------------

  lemma FeetHold(kids: seq<Shape>, i: nat)
    requires i < |kids|
    ensures Foot(kids[i]) <= Feet(kids)
  {
    forall n | n in Foot(kids[i]) ensures n in Feet(kids) {
      FeetOf(kids, n);
    }
  }

  lemma {:induction false} FeetOfSum(a: seq<Shape>, b: seq<Shape>)
    ensures Feet(a + b) == Feet(a) + Feet(b)
  {
    if a == [] {
      assert a + b == b;
    } else {
      FeetOfSum(a[1..], b);
      assert (a + b)[0] == a[0] && (a + b)[1..] == a[1..] + b;
    }
  }

  lemma FeetOfOne(k: Shape)
    ensures Feet([k]) == Foot(k)
  {
    assert [k][1..] == [];
    assert Feet([k][1..]) == {};
  }

  lemma {:induction false} AllAreSum(a: seq<Shape>, b: seq<Shape>)
    ensures AllAre(a + b) <==> AllAre(a) && AllAre(b)
  {
    if a == [] {
      assert a + b == b;
    } else {
      AllAreSum(a[1..], b);
      assert (a + b)[0] == a[0] && (a + b)[1..] == a[1..] + b;
    }
  }

  /** Two rows side by side. */
  lemma ApartSum(a: seq<Shape>, b: seq<Shape>)
    requires Apart(a) && Apart(b) && Feet(a) !! Feet(b)
    ensures Apart(a + b)
  {
    forall i, j, n | 0 <= i < j < |a + b| && n in Foot((a + b)[i])
      ensures n !in Foot((a + b)[j])
    {
      if i < |a| {
        FeetHold(a, i);
      } else {
        FeetHold(b, i - |a|);
      }
      if j < |a| {
        FeetHold(a, j);
      } else {
        FeetHold(b, j - |a|);
      }
    }
  }

  /** A row of separate trees at these nodes. */
  ghost predicate Row(nodes: seq<Node?>, kids: seq<Shape>)
    reads Feet(kids)
  {
    (Hold(nodes, kids) && Apart(kids)) == true // proved as one fact
  }

  lemma RowSum(nodes: seq<Node?>, a: seq<Shape>, nodes': seq<Node?>, b: seq<Shape>)
    requires Row(nodes, a) && Row(nodes', b) && Feet(a) !! Feet(b)
    ensures Row(nodes + nodes', a + b) && Feet(a + b) == Feet(a) + Feet(b)
  {
    AllAreSum(a, b);
    ApartSum(a, b);
    FeetOfSum(a, b);
  }

  lemma RowOfOne(n: Node, k: Shape)
    requires Valid(k) && k.node == n
    ensures Row([n], [k]) && Feet([k]) == Foot(k)
  {
    FeetOfOne(k);
    assert [k][1..] == [] && AllAre([k][1..]);
  }

  lemma ApartParts(kids: seq<Shape>, i: nat)
    requires Apart(kids) && i <= |kids|
    ensures Apart(kids[..i]) && Apart(kids[i..]) && Feet(kids[..i]) !! Feet(kids[i..])
  {
    forall j, m, n | 0 <= j < m < |kids| - i && n in Foot(kids[i..][j])
      ensures n !in Foot(kids[i..][m])
    {
      assert kids[i..][j] == kids[i + j] && kids[i..][m] == kids[i + m];
    }
    forall n | n in Feet(kids[..i]) ensures n !in Feet(kids[i..]) {
      FeetOf(kids[..i], n);
      FeetOf(kids[i..], n);
    }
  }

  lemma RowSplits(nodes: seq<Node?>, kids: seq<Shape>, i: nat)
    requires Row(nodes, kids) && i <= |kids|
    ensures |nodes| == |kids| && Row(nodes[..i], kids[..i]) && Row(nodes[i..], kids[i..])
    ensures Feet(kids[..i]) !! Feet(kids[i..]) && Feet(kids) == Feet(kids[..i]) + Feet(kids[i..])
  {
    hide Feet, Foot, AllAre, Apart, Tidy;
    assert kids == kids[..i] + kids[i..];
    AllAreSum(kids[..i], kids[i..]);
    FeetOfSum(kids[..i], kids[i..]);
    ApartParts(kids, i);
  }

  lemma RowFirst(nodes: seq<Node?>, kids: seq<Shape>)
    requires Row(nodes, kids) && kids != []
    ensures |nodes| == |kids| && nodes[0] == kids[0].node && Valid(kids[0]) && Row(nodes[1..], kids[1..])
    ensures Feet(kids) == Foot(kids[0]) + Feet(kids[1..]) && Foot(kids[0]) !! Feet(kids[1..])
  {
    RowSplits(nodes, kids, 1);
    assert kids[..1] == [kids[0]];
    FeetOfOne(kids[0]);
  }

  /** A node over a row of trees. */
  lemma ValidFrom(s: Shape)
    requires Row(s.node.content, s.kids) && s.node !in Feet(s.kids)
    requires s.kind == SEQUENCE || s.kind == MAPPING || s.kind == SCALAR || s.kind == ALIAS
    requires s.kind == MAPPING ==> Paired(s.kids)
    requires s.node.notes == s.notes && s.node.kind == s.kind && s.node.tag == s.tag && s.node.value == s.text
    requires s.node.alias == s.alias
    ensures Valid(s) && Foot(s) == {s.node} + Feet(s.kids)
  {
  }

  lemma KidsAreRow(s: Shape)
    requires Valid(s)
    ensures Row(s.node.content, s.kids) && s.node !in Feet(s.kids) && Foot(s) == {s.node} + Feet(s.kids)
  {
  }

  // ---- copyNodeShallow -----------------------------------------------------------------------------

  /** `deepCopyNode` of every child. */
  method CopyAll(nodes: seq<Node?>, ghost kids: seq<Shape>) returns (copied: seq<Node?>, ghost copies: seq<Shape>)
    requires Row(nodes, kids)
    ensures Row(copied, copies) && |copied| == |copies| == |kids| && fresh(Feet(copies))
    ensures Values(copies) == Values(kids) && Entries(copies) == Entries(kids) && (Paired(kids) ==> Paired(copies))
  {
    copied, copies := [], [];
    FeetAreAllocated(kids);
    assert |nodes| == |kids| && AllAlike(copies, kids, 0);
    hide *;
    for i := 0 to |nodes|
      invariant |copied| == |copies| == i && Row(nodes, kids)
      invariant Row(copied, copies) && fresh(Feet(copies))
      invariant AllAlike(copies, kids, i)
    {
      RowAt(nodes, kids, i);
      FeetAreAllocated(copies);
      var c;
      ghost var copy;
      c, copy := CopyTree(nodes[i], kids[i]);
      RowOfOne(c, copy);
      RowSum(copied, copies, [c], [copy]);
      AllAlikeMore(copies, copy, kids, i);
      copied, copies := copied + [c], copies + [copy];
    }
    AllAlikeIs(copies, kids);
  }

  ghost predicate AllAlike(copies: seq<Shape>, kids: seq<Shape>, n: nat) {
    n == |copies| <= |kids| && forall j | 0 <= j < n :: Alike(copies[j], kids[j])
  }

  lemma AllAlikeMore(copies: seq<Shape>, copy: Shape, kids: seq<Shape>, n: nat)
    requires AllAlike(copies, kids, n) && n < |kids| && Alike(copy, kids[n])
    ensures AllAlike(copies + [copy], kids, n + 1)
  {
  }

  lemma AllAlikeIs(copies: seq<Shape>, kids: seq<Shape>)
    requires AllAlike(copies, kids, |kids|)
    ensures Values(copies) == Values(kids) && Entries(copies) == Entries(kids) && (Paired(kids) ==> Paired(copies))
  {
    AlikeKids(copies, kids);
    AlikePaired(copies, kids);
  }

  lemma AlikePaired(copies: seq<Shape>, kids: seq<Shape>)
    requires |copies| == |kids| && forall j | 0 <= j < |kids| :: Alike(copies[j], kids[j])
    ensures Paired(kids) ==> Paired(copies)
  {
  }

  lemma RowAt(nodes: seq<Node?>, kids: seq<Shape>, i: nat)
    requires Row(nodes, kids) && i < |kids|
    ensures |nodes| == |kids| && nodes[i] == kids[i].node && Valid(kids[i]) && Foot(kids[i]) <= Feet(kids)
  {
    HeldAt(nodes, kids, i);
    FeetHold(kids, i);
  }

  /** `copyNodeShallow`: everything but the notes comes from `src`, the children as copies. */
  method CopyNodeShallow(dst: Node, src: Node, ghost d: Shape, ghost s: Shape) returns (ghost d': Shape)
    requires Valid(d) && d.node == dst && Valid(s) && s.node == src && dst !in Foot(s)
    modifies dst
    ensures Valid(d') && d'.node == dst && Value(d') == T.WithNotes(Value(s), d.notes)
    ensures d'.kind == s.kind && d'.notes == d.notes
    ensures forall n | n in Foot(d') :: n == dst || fresh(n)
  {
    FieldsAre(d);
    FieldsAre(s);
    KidsAreRow(s);
    ghost var content;
    var copied;
    copied, content := CopyAll(src.content, s.kids);
    dst.kind, dst.tag, dst.value := src.kind, src.tag, src.value;
    dst.content := copied;
    d' := Shape(dst, d.notes, s.kind, s.tag, s.text, d.alias, content);
    assert Value(d') == T.WithNotes(Value(s), d.notes);
    hide *;
    ValidFrom(d');
  }

  // ---- pruneKnownDefaultsInNewNode -----------------------------------------------------------------

  lemma {:induction false} PrunedSoFar(path: seq<string>, entries: seq<T.Entry>, i: nat)
    requires i < |entries|
    ensures var e := entries[i];
      T.PruneEntries(path, entries[..i + 1]) == T.PruneEntries(path, entries[..i]) +
        if T.Survives(path, e) then [e.(value := T.Prune(path + [e.key], e.value))] else []
    decreases i
  {
    if i == 0 {
      assert entries[..1] == [entries[0]] && entries[..0] == [];
    } else {
      PrunedSoFar(path, entries[1..], i - 1);
      assert entries[..i + 1][1..] == entries[1..][..i] && entries[..i][1..] == entries[1..][..i - 1];
      assert entries[..i + 1][0] == entries[..i][0] == entries[0];
    }
  }

  /** Adding a key and a value. */
  lemma {:induction false} EntriesMore(kids: seq<Shape>, key: Shape, value: Shape, n: nat)
    requires |kids| == 2 * n
    ensures Entries(kids + [key, value]) == Entries(kids) + [T.Entry(Value(key), Value(value))]
    decreases n
  {
    var all := kids + [key, value];
    if n == 0 {
      assert all[2..] == [];
    } else {
      EntriesMore(kids[2..], key, value, n - 1);
      assert all[2..] == kids[2..] + [key, value] && all[0] == kids[0] && all[1] == kids[1];
    }
  }

  lemma PrunedItemsSoFar(path: seq<string>, items: seq<T.Node>, i: nat)
    requires i < |items|
    ensures T.PruneItems(path, items[..i + 1]) == T.PruneItems(path, items[..i]) + [T.Prune(path, items[i])]
  {
  }

  /** `pruneKnownDefaultsInNewNode` */
  method PruneKnownDefaultsInNewNode(path: seq<string>, n: Node, ghost s: Shape) returns (ghost pruned: Shape)
    requires Valid(s) && s.node == n
    modifies Foot(s)
    ensures Valid(pruned) && pruned.node == n && Value(pruned) == T.Prune(path, Value(s))
    ensures Foot(pruned) <= Foot(s) && pruned.kind == s.kind
    decreases s, 1
  {
    FieldsAre(s);
    if n.kind == MAPPING {
      pruned := PruneEntriesInPlace(path, n, s);
    } else if n.kind == SEQUENCE {
      pruned := PruneItemsInPlace(path, n, s);
    } else {
      pruned := s;
    }
  }

  /** The first `i` nodes of a row have been dealt with and left the row `done`; the others still stand. */
  ghost predicate Underway(nodes: seq<Node?>, kids: seq<Shape>, i: nat, done: seq<Node?>, shapes: seq<Shape>)
    reads Feet(kids), Feet(shapes)
  {
    (&& i <= |kids| == |nodes| && Apart(kids)
     && Feet(kids[i..]) <= Feet(kids) && Row(nodes[i..], kids[i..])
     && Row(done, shapes) && Feet(shapes) <= Feet(kids) - Feet(kids[i..])) == true // proved as one fact
  }

  lemma FeetFrom(kids: seq<Shape>, i: nat)
    requires Apart(kids) && i < |kids|
    ensures Feet(kids[i..]) == Foot(kids[i]) + Feet(kids[i + 1..]) && Foot(kids[i]) !! Feet(kids[i + 1..])
    ensures Feet(kids[i..]) <= Feet(kids)
  {
    FeetRest(kids, i);
    ApartFromLater(kids, i);
    hide *;
    assert kids == kids[..i] + kids[i..];
    FeetOfSum(kids[..i], kids[i..]);
  }

  lemma FeetRest(kids: seq<Shape>, i: nat)
    requires i < |kids|
    ensures Feet(kids[i..]) == Foot(kids[i]) + Feet(kids[i + 1..])
  {
    assert kids[i..][0] == kids[i] && kids[i..][1..] == kids[i + 1..];
  }

  lemma ApartFromLater(kids: seq<Shape>, i: nat)
    requires Apart(kids) && i < |kids|
    ensures Foot(kids[i]) !! Feet(kids[i + 1..])
  {
    hide Foot, Feet;
    forall n | n in Foot(kids[i]) ensures n !in Feet(kids[i + 1..]) {
      FeetOf(kids[i + 1..], n);
    }
  }

  lemma UnderwayStart(nodes: seq<Node?>, kids: seq<Shape>)
    requires Row(nodes, kids)
    ensures Underway(nodes, kids, 0, [], [])
  {
    assert nodes[0..] == nodes && kids[0..] == kids;
  }

  lemma UnderwayNext(nodes: seq<Node?>, kids: seq<Shape>, i: nat, done: seq<Node?>, shapes: seq<Shape>)
    requires Underway(nodes, kids, i, done, shapes) && i < |kids|
    ensures |nodes| == |kids| && nodes[i] == kids[i].node && Valid(kids[i]) && Row(nodes[i + 1..], kids[i + 1..])
    ensures Row(done, shapes) && Apart(kids) && Foot(kids[i]) <= Feet(kids)
    ensures Foot(kids[i]) !! Feet(kids[i + 1..]) && Foot(kids[i]) !! Feet(shapes)
    ensures Feet(kids[i + 1..]) <= Feet(kids) && Feet(shapes) <= Feet(kids) - Feet(kids[i..])
  {
    FeetFrom(kids, i);
    RowFirst(nodes[i..], kids[i..]);
    assert nodes[i..][1..] == nodes[i + 1..] && kids[i..][1..] == kids[i + 1..];
  }

  lemma UnderwayTaken(nodes: seq<Node?>, kids: seq<Shape>, i: nat, done: seq<Node?>, shapes: seq<Shape>, k: Shape)
    requires i < |kids| == |nodes| && Apart(kids) && Row(nodes[i + 1..], kids[i + 1..]) && Row(done, shapes)
    requires Feet(shapes) <= Feet(kids) - Feet(kids[i..])
    requires Valid(k) && k.node == nodes[i] && Foot(k) <= Foot(kids[i])
    ensures Underway(nodes, kids, i + 1, done + [nodes[i]], shapes + [k])
  {
    FeetFrom(kids, i);
    assert kids[i + 1..] == kids[i..][1..];
    RowOfOne(nodes[i], k);
    RowSum(done, shapes, [nodes[i]], [k]);
  }

  lemma UnderwayEnd(nodes: seq<Node?>, kids: seq<Shape>, done: seq<Node?>, shapes: seq<Shape>)
    requires Underway(nodes, kids, |kids|, done, shapes)
    ensures Row(done, shapes) && Feet(shapes) <= Feet(kids)
  {
  }

  lemma PruneRowStart(path: seq<string>, nodes: seq<Node?>, kids: seq<Shape>)
    requires Row(nodes, kids)
    ensures |nodes| == |kids| == |Values(kids)| && forall i | 0 <= i < |kids| :: Values(kids)[i] == Value(kids[i])
    ensures Underway(nodes, kids, 0, nodes[..0], []) && nodes[..|nodes|] == nodes
    ensures forall n | n in Feet(kids) :: allocated(n)
    ensures Values([]) == T.PruneItems(path, Values(kids)[..0]) && Values(kids)[..|kids|] == Values(kids)
  {
    FeetAreAllocated(kids);
    ValuesAre(kids);
    UnderwayStart(nodes, kids);
  }

  /** The loop over the children of a sequence. */
  method PruneRow(path: seq<string>, nodes: seq<Node?>, ghost kids: seq<Shape>) returns (ghost shapes: seq<Shape>)
    requires Row(nodes, kids)
    modifies Feet(kids)
    ensures Row(nodes, shapes) && Feet(shapes) <= Feet(kids)
    ensures Values(shapes) == T.PruneItems(path, Values(kids))
    decreases kids, 0
  {
    hide *;
    PruneRowStart(path, nodes, kids);
    ghost var values := Values(kids);
    shapes := [];
    for i := 0 to |nodes|
      invariant Underway(nodes, kids, i, nodes[..i], shapes)
      invariant Values(shapes) == T.PruneItems(path, values[..i])
    {
      UnderwayNext(nodes, kids, i, nodes[..i], shapes);
      ghost var k := PruneKnownDefaultsInNewNode(path, nodes[i], kids[i]);
      UnderwayTaken(nodes, kids, i, nodes[..i], shapes, k);
      ValuesMore(shapes, k);
      PrunedItemsSoFar(path, values, i);
      assert nodes[..i + 1] == nodes[..i] + [nodes[i]];
      shapes := shapes + [k];
    }
    UnderwayEnd(nodes, kids, nodes, shapes);
  }

  /** The sequence case: the children are pruned in place. */
  method PruneItemsInPlace(path: seq<string>, n: Node, ghost s: Shape) returns (ghost pruned: Shape)
    requires Valid(s) && s.node == n && s.kind == SEQUENCE
    modifies Foot(s)
    ensures Valid(pruned) && pruned.node == n && Value(pruned) == T.Prune(path, Value(s))
    ensures Foot(pruned) <= Foot(s) && pruned.kind == s.kind
    decreases s, 0
  {
    FieldsAre(s);
    KidsAreRow(s);
    assert T.Prune(path, Value(s)) == T.Sequence(s.notes, s.tag, T.PruneItems(path, Values(s.kids)));
    assert s.kind != MAPPING;
    hide *;
    ghost var shapes := PruneRow(path, n.content, s.kids);
    pruned := s.(kids := shapes);
    ValidFrom(pruned);
    ValueOfSequence(pruned);
  }

  lemma EmptyCollection(s: Shape)
    requires Valid(s)
    ensures ((s.node.kind == MAPPING || s.node.kind == SEQUENCE) && |s.node.content| == 0)
            <==> T.IsEmptyCollection(Value(s))
  {
    FieldsAre(s);
    ValuesAre(s.kids);
  }

  /** What becomes of the value of an entry: it is kept, pruned, or the entry goes. */
  method PruneEntryValue(path: seq<string>, v: Node, ghost e: T.Entry, ghost s: Shape)
    returns (keep: bool, ghost pruned: Shape)
    requires Valid(s) && s.node == v && e.value == Value(s) && path != [] && path[|path| - 1] == e.key
    modifies Foot(s)
    ensures keep == T.Survives(path[..|path| - 1], e)
    ensures keep ==>
      && Valid(pruned) && pruned.node == v && Foot(pruned) <= Foot(s)
      && Value(pruned) == T.Prune(path, e.value)
    decreases s, 2
  {
    FootIsAllocated(s);
    assert path[..|path| - 1] + [e.key] == path;
    hide Valid, Foot, Value, T.IsKnownDefault, T.Prune, T.IsEmptyCollection;
    var known := IsKnownDefaultValue(path, v, s);
    pruned := s;
    if known {
      return false, pruned;
    }
    pruned := PruneKnownDefaultsInNewNode(path, v, s);
    EmptyCollection(pruned);
    keep := !((v.kind == MAPPING || v.kind == SEQUENCE) && |v.content| == 0);
  }

  lemma PruneEntriesStart(path: seq<string>, nodes: seq<Node?>, kids: seq<Shape>, n: nat)
    requires Row(nodes, kids) && Paired(kids) && n == |kids| / 2
    ensures |nodes| == |kids| == 2 * n && Paired([]) && |Entries(kids)| == n && Underway(nodes, kids, 0, [], [])
    ensures forall x | x in Feet(kids) :: allocated(x)
    ensures Entries([]) == T.PruneEntries(path, Entries(kids)[..0]) && Entries(kids)[..n] == Entries(kids)
  {
    FeetAreAllocated(kids);
    EntriesCount(kids, n);
    UnderwayStart(nodes, kids);
  }

  lemma PairedMore(kids: seq<Shape>, k: Shape, v: Shape)
    requires Paired(kids) && IsKey(k)
    ensures Paired(kids + [k, v])
  {
  }

  lemma KeyIsOne(kids: seq<Shape>, i: nat)
    requires Paired(kids) && 2 * i < |kids|
    ensures IsKey(kids[2 * i])
  {
  }

  lemma PairNext(nodes: seq<Node?>, kids: seq<Shape>, i: nat, done: seq<Node?>, shapes: seq<Shape>)
    requires Underway(nodes, kids, 2 * i, done, shapes) && 2 * i + 1 < |kids| && Paired(kids)
    ensures |nodes| == |kids| && Apart(kids) && Row(done, shapes) && Row(nodes[2 * i + 2..], kids[2 * i + 2..])
    ensures nodes[2 * i] == kids[2 * i].node && Valid(kids[2 * i])
    ensures nodes[2 * i + 1] == kids[2 * i + 1].node && Valid(kids[2 * i + 1])
    ensures i < |Entries(kids)|
    ensures var e := Entries(kids)[i];
      && e == T.Entry(Value(kids[2 * i]), Value(kids[2 * i + 1]))
      && kids[2 * i].node.value == e.key
    ensures PairApart(kids, i, shapes)
  {
    var j := 2 * i;
    EntryIs(kids, i);
    UnderwayNext(nodes, kids, j, done, shapes);
    RowFirst(nodes[j + 1..], kids[j + 1..]);
    assert nodes[j + 1..][1..] == nodes[j + 2..] && kids[j + 1..][1..] == kids[j + 2..];
    FieldsAre(kids[j]);
    FeetFrom(kids, j);
  }

  /** A key, its value, what comes after them and what came before share no node. */
  ghost predicate PairApart(kids: seq<Shape>, i: nat, shapes: seq<Shape>) {
    && 2 * i + 1 < |kids|
    && Feet(kids[2 * i + 2..]) <= Feet(kids) && Foot(kids[2 * i]) <= Feet(kids) && Foot(kids[2 * i + 1]) <= Feet(kids)
    && Feet(shapes) <= Feet(kids)
    && Foot(kids[2 * i + 1]) !! Foot(kids[2 * i])
    && Foot(kids[2 * i + 1]) !! Feet(kids[2 * i + 2..])
    && Foot(kids[2 * i + 1]) !! Feet(shapes)
    && Feet(shapes) !! Foot(kids[2 * i]) && Feet(shapes) !! Feet(kids[2 * i + 2..])
    && Foot(kids[2 * i]) !! Feet(kids[2 * i + 2..])
  }

  lemma PairLeft(nodes: seq<Node?>, kids: seq<Shape>, i: nat, done: seq<Node?>, shapes: seq<Shape>)
    requires 2 * i + 1 < |kids| == |nodes| && Apart(kids) && Row(nodes[2 * i + 2..], kids[2 * i + 2..])
    requires Row(done, shapes) && PairApart(kids, i, shapes)
    ensures Underway(nodes, kids, 2 * (i + 1), done, shapes)
  {
  }

  lemma PairTaken(nodes: seq<Node?>, kids: seq<Shape>, i: nat, done: seq<Node?>, shapes: seq<Shape>, v: Shape)
    requires 2 * i + 1 < |kids| == |nodes| && Apart(kids) && Row(nodes[2 * i + 2..], kids[2 * i + 2..])
    requires Row(done, shapes) && PairApart(kids, i, shapes)
    requires nodes[2 * i] == kids[2 * i].node && Valid(kids[2 * i])
    requires Valid(v) && v.node == nodes[2 * i + 1] && Foot(v) <= Foot(kids[2 * i + 1])
    ensures Underway(nodes, kids, 2 * (i + 1), done + [nodes[2 * i], nodes[2 * i + 1]], shapes + [kids[2 * i], v])
  {
    RowOfOne(nodes[2 * i], kids[2 * i]);
    RowOfOne(nodes[2 * i + 1], v);
    RowSum([nodes[2 * i]], [kids[2 * i]], [nodes[2 * i + 1]], [v]);
    assert [kids[2 * i]] + [v] == [kids[2 * i], v];
    assert [nodes[2 * i]] + [nodes[2 * i + 1]] == [nodes[2 * i], nodes[2 * i + 1]];
    RowSum(done, shapes, [nodes[2 * i], nodes[2 * i + 1]], [kids[2 * i], v]);
  }

  /** The loop over the entries of a mapping. */
  method PruneEntriesRow(path: seq<string>, nodes: seq<Node?>, ghost kids: seq<Shape>)
    returns (filtered: seq<Node?>, ghost shapes: seq<Shape>)
    requires Row(nodes, kids) && Paired(kids)
    modifies Feet(kids)
    ensures Row(filtered, shapes) && Paired(shapes) && Feet(shapes) <= Feet(kids)
    ensures Entries(shapes) == T.PruneEntries(path, Entries(kids))
    decreases kids, 0
  {
    hide *;
    ghost var n := |kids| / 2;
    PruneEntriesStart(path, nodes, kids, n);
    ghost var entries := Entries(kids);
    ghost var count := 0;
    filtered, shapes := [], [];
    for i := 0 to |nodes| / 2
      invariant Underway(nodes, kids, 2 * i, filtered, shapes) && |shapes| == 2 * count && Paired(shapes)
      invariant Entries(shapes) == T.PruneEntries(path, entries[..i])
    {
      PairNext(nodes, kids, i, filtered, shapes);
      PrunedSoFar(path, entries, i);
      var keyNode, valueNode := nodes[2 * i], nodes[2 * i + 1];
      var childPath := path + [keyNode.value];
      assert childPath[..|path|] == path;
      var keep;
      ghost var v;
      keep, v := PruneEntryValue(childPath, valueNode, entries[i], kids[2 * i + 1]);
      if keep {
        PairTaken(nodes, kids, i, filtered, shapes, v);
        EntriesMore(shapes, kids[2 * i], v, count);
        KeyIsOne(kids, i);
        PairedMore(shapes, kids[2 * i], v);
        filtered, shapes := filtered + [keyNode, valueNode], shapes + [kids[2 * i], v];
        count := count + 1;
      } else {
        PairLeft(nodes, kids, i, filtered, shapes);
      }
    }
    UnderwayEnd(nodes, kids, filtered, shapes);
  }

  /** The mapping case: what does not survive goes, with its key. */
  method PruneEntriesInPlace(path: seq<string>, n: Node, ghost s: Shape) returns (ghost pruned: Shape)
    requires Valid(s) && s.node == n && s.kind == MAPPING
    modifies Foot(s)
    ensures Valid(pruned) && pruned.node == n && Value(pruned) == T.Prune(path, Value(s))
    ensures Foot(pruned) <= Foot(s) && pruned.kind == s.kind
    decreases s, 0
  {
    FieldsAre(s);
    KidsAreRow(s);
    assert T.Prune(path, Value(s)) == T.Mapping(s.notes, s.tag, T.PruneEntries(path, Entries(s.kids)));
    hide *;
    ghost var shapes;
    var filtered;
    filtered, shapes := PruneEntriesRow(path, n.content, s.kids);
    n.content := filtered;
    pruned := s.(kids := shapes);
    ValidFrom(pruned);
    ValueOfSequence(pruned);
  }

  lemma {:induction false} ValuesMore(kids: seq<Shape>, k: Shape)
    ensures Values(kids + [k]) == Values(kids) + [Value(k)]
  {
    var all := kids + [k];
    if kids == [] {
      assert all[1..] == [];
    } else {
      ValuesMore(kids[1..], k);
      assert all[1..] == kids[1..] + [k] && all[0] == kids[0];
    }
  }

  lemma ValueOfSequence(s: Shape)
    ensures s.kind == SEQUENCE ==> Value(s) == T.Sequence(s.notes, s.tag, Values(s.kids))
    ensures s.kind == MAPPING ==> Value(s) == T.Mapping(s.notes, s.tag, Entries(s.kids))
  {
  }

  // ---- pruneMissingMapKeys -------------------------------------------------------------------------

  lemma {:induction false} KeptSoFar(entries: seq<T.Entry>, src: seq<T.Entry>, i: nat)
    requires i < |entries|
    ensures M.KeepKeys(entries[..i + 1], src) ==
            M.KeepKeys(entries[..i], src) + if M.IsKept(entries[i], src) then [entries[i]] else []
    decreases i
  {
    if i == 0 {
      assert entries[..1] == [entries[0]] && entries[..0] == [];
    } else {
      KeptSoFar(entries[1..], src, i - 1);
      assert entries[..i + 1][1..] == entries[1..][..i] && entries[..i][1..] == entries[1..][..i - 1];
    }
  }

  ghost predicate KeepHolds(keep: set<string>, entries: seq<T.Entry>) {
    forall k :: k in keep <==> k != "" && M.HasKey(entries, k)
  }

  lemma KeepHoldsNext(keep: set<string>, entries: seq<T.Entry>, i: nat)
    requires i < |entries| && KeepHolds(keep, entries[..i])
    ensures var key := T.Trim(entries[i].key);
      KeepHolds(if key == "" then keep else keep + {key}, entries[..i + 1])
  {
    var key := T.Trim(entries[i].key);
    var now := if key == "" then keep else keep + {key};
    forall k
      ensures k in now <==> k != "" && M.HasKey(entries[..i + 1], k)
    {
      if k != "" && M.HasKey(entries[..i + 1], k) {
        var j :| 0 <= j < i + 1 && T.Trim(entries[..i + 1][j].key) == k;
        assert j < i ==> T.Trim(entries[..i][j].key) == k;
      }
      if k in now {
        if k == key {
          assert T.Trim(entries[..i + 1][i].key) == k;
        } else {
          var j :| 0 <= j < i && T.Trim(entries[..i][j].key) == k;
          assert T.Trim(entries[..i + 1][j].key) == k;
        }
      }
    }
  }

  /** The keys of the generated mapping, blank ones left out. */
  method KeysToKeep(src: Node, ghost s: Shape) returns (keep: set<string>)
    requires Valid(s) && s.node == src && s.kind == MAPPING
    ensures KeepHolds(keep, Entries(s.kids))
  {
    FieldsAre(s);
    ghost var entries := Entries(s.kids);
    keep := {};
    assert KeepHolds(keep, entries[..0]) && entries[..|entries|] == entries;
    hide *;
    for i := 0 to |src.content| / 2
      invariant KeepHolds(keep, entries[..i])
    {
      EntryAt(s, i);
      KeepHoldsNext(keep, entries, i);
      var key := T.Trim(src.content[2 * i].value);
      if key == "" {
        continue;
      }
      keep := keep + {key};
    }
  }

  lemma KeepsEntry(keep: set<string>, entries: seq<T.Entry>, e: T.Entry)
    requires KeepHolds(keep, entries)
    ensures T.Trim(e.key) in keep <==> M.IsKept(e, entries)
  {
  }

  ghost predicate KeyKept(key: string, src: seq<T.Entry>) {
    T.Trim(key) != "" && M.HasKey(src, T.Trim(key))
  }

  /** Of the first `n` keys with their values, those whose key the other mapping has. */
  ghost function KeptPairs(kids: seq<Shape>, src: seq<T.Entry>, n: nat): seq<Shape>
    requires 2 * n <= |kids|
  {
    if n == 0 then []
    else
      var k, v := kids[2 * (n - 1)], kids[2 * (n - 1) + 1];
      KeptPairs(kids, src, n - 1) + if KeyKept(k.text, src) then [k, v] else []
  }

  lemma KeptPairsNext(kids: seq<Shape>, src: seq<T.Entry>, n: nat)
    requires 2 * n + 1 < |kids| && n < |Entries(kids)| && Paired(kids)
    ensures KeptPairs(kids, src, n + 1) ==
            KeptPairs(kids, src, n) + if M.IsKept(Entries(kids)[n], src) then [kids[2 * n], kids[2 * n + 1]] else []
  {
    EntryIs(kids, n);
  }

  /** The loop state: of the content, `done` has been looked at and stays, the pairs from `next` on follow. */
  ghost predicate Dropping(content: seq<Node?>, nodes: seq<Node?>, kids: seq<Shape>, src: seq<T.Entry>, next: nat,
                           done: seq<Node?>, shapes: seq<Shape>, count: nat)
    reads Feet(kids), Feet(shapes)
  {
    (&& 2 * next <= |nodes| && next <= |Entries(kids)|
     && content == done + nodes[2 * next..] && |done| == |shapes| == 2 * count
     && Paired(kids) && Paired(shapes)
     && Underway(nodes, kids, 2 * next, done, shapes)
     && 2 * next <= |kids| && shapes == KeptPairs(kids, src, next)
     && Entries(shapes) == M.KeepKeys(Entries(kids)[..next], src)) == true // proved as one fact
  }

  lemma DroppingStart(nodes: seq<Node?>, kids: seq<Shape>, src: seq<T.Entry>)
    requires Row(nodes, kids) && Paired(kids)
    ensures Dropping(nodes, nodes, kids, src, 0, [], [], 0) && |nodes| % 2 == 0 && Feet([]) == {}
    ensures forall x | x in Feet(kids) :: allocated(x)
  {
    PruneEntriesStart([], nodes, kids, |kids| / 2);
    assert nodes[0..] == nodes && [] + nodes == nodes;
  }

  lemma ContentAt(content: seq<Node?>, nodes: seq<Node?>, done: seq<Node?>, i: nat, j: nat)
    requires |done| == i && j <= |nodes| && content == done + nodes[j..] && i + 1 < |content|
    ensures j + 1 < |nodes| && content[i] == nodes[j]
    ensures content[..i] == done && content[i + 2..] == nodes[j + 2..]
    ensures content == done + [nodes[j], nodes[j + 1]] + nodes[j + 2..]
  {
  }

  lemma DroppingSays(content: seq<Node?>, nodes: seq<Node?>, kids: seq<Shape>, src: seq<T.Entry>, next: nat,
                     done: seq<Node?>, shapes: seq<Shape>, count: nat)
    requires Dropping(content, nodes, kids, src, next, done, shapes, count)
    ensures Underway(nodes, kids, 2 * next, done, shapes) && 2 * next <= |nodes| == |kids|
    ensures |done| == |shapes| == 2 * count && Paired(kids) && Paired(shapes) && shapes == KeptPairs(kids, src, next)
    ensures content == done + nodes[2 * next..]
    ensures next <= |Entries(kids)| && Entries(shapes) == M.KeepKeys(Entries(kids)[..next], src)
  {
    UnderwayLengths(nodes, kids, 2 * next, done, shapes);
    hide Underway, Row, Entries, Feet, M.KeepKeys, KeptPairs, Paired;
  }

  lemma DroppingHere(content: seq<Node?>, nodes: seq<Node?>, kids: seq<Shape>, src: seq<T.Entry>, next: nat,
                     done: seq<Node?>, shapes: seq<Shape>, count: nat)
    requires Dropping(content, nodes, kids, src, next, done, shapes, count) && 2 * count + 1 < |content|
    ensures 2 * next + 1 < |nodes| == |kids| && content[2 * count] == nodes[2 * next] == kids[2 * next].node
    ensures next < |Entries(kids)| && kids[2 * next].node.value == Entries(kids)[next].key
    ensures content[..2 * count] == done && content[2 * count + 2..] == nodes[2 * (next + 1)..]
    ensures content == done + [nodes[2 * next], nodes[2 * next + 1]] + nodes[2 * (next + 1)..]
  {
    DroppingSays(content, nodes, kids, src, next, done, shapes, count);
    hide *;
    ContentAt(content, nodes, done, 2 * count, 2 * next);
    PairNext(nodes, kids, next, done, shapes);
  }

  lemma UnderwayLengths(nodes: seq<Node?>, kids: seq<Shape>, i: nat, done: seq<Node?>, shapes: seq<Shape>)
    requires Underway(nodes, kids, i, done, shapes)
    ensures i <= |kids| == |nodes|
  {
  }

  lemma DroppingKept(content: seq<Node?>, nodes: seq<Node?>, kids: seq<Shape>, src: seq<T.Entry>, next: nat,
                     done: seq<Node?>, shapes: seq<Shape>, count: nat)
    requires Dropping(content, nodes, kids, src, next, done, shapes, count) && 2 * count + 1 < |content|
    requires next < |Entries(kids)| && M.IsKept(Entries(kids)[next], src)
    ensures 2 * next + 1 < |nodes| == |kids|
    ensures Dropping(content, nodes, kids, src, next + 1, done + [nodes[2 * next], nodes[2 * next + 1]],
                     shapes + [kids[2 * next], kids[2 * next + 1]], count + 1)
  {
    hide Underway, Row, Entries, Feet, M.KeepKeys, M.IsKept, PairApart, KeptPairs;
    DroppingSays(content, nodes, kids, src, next, done, shapes, count);
    DroppingHere(content, nodes, kids, src, next, done, shapes, count);
    PairNext(nodes, kids, next, done, shapes);
    KeptSoFar(Entries(kids), src, next);
    KeptPairsNext(kids, src, next);
    PairTaken(nodes, kids, next, done, shapes, kids[2 * next + 1]);
    EntriesMore(shapes, kids[2 * next], kids[2 * next + 1], count);
    KeyIsOne(kids, next);
    PairedMore(shapes, kids[2 * next], kids[2 * next + 1]);
  }

  lemma DroppingGone(content: seq<Node?>, nodes: seq<Node?>, kids: seq<Shape>, src: seq<T.Entry>, next: nat,
                     done: seq<Node?>, shapes: seq<Shape>, count: nat)
    requires Dropping(content, nodes, kids, src, next, done, shapes, count) && 2 * count + 1 < |content|
    requires next < |Entries(kids)| && !M.IsKept(Entries(kids)[next], src)
    ensures Dropping(content[..2 * count] + content[2 * count + 2..], nodes, kids, src, next + 1, done, shapes, count)
  {
    hide Underway, Row, Entries, Feet, M.KeepKeys, M.IsKept, PairApart, KeptPairs;
    DroppingSays(content, nodes, kids, src, next, done, shapes, count);
    DroppingHere(content, nodes, kids, src, next, done, shapes, count);
    PairNext(nodes, kids, next, done, shapes);
    KeptSoFar(Entries(kids), src, next);
    KeptPairsNext(kids, src, next);
    PairLeft(nodes, kids, next, done, shapes);
  }

  lemma DroppingEnd(content: seq<Node?>, nodes: seq<Node?>, kids: seq<Shape>, src: seq<T.Entry>, next: nat,
                    done: seq<Node?>, shapes: seq<Shape>, count: nat)
    requires Dropping(content, nodes, kids, src, next, done, shapes, count) && 2 * count + 1 >= |content|
    ensures Row(content, shapes) && Paired(shapes) && Feet(shapes) <= Feet(kids) && |kids| % 2 == 0
    ensures Entries(shapes) == M.KeepKeys(Entries(kids), src) && shapes == KeptPairs(kids, src, |kids| / 2)
  {
    EntriesCount(kids, |kids| / 2);
    assert next == |Entries(kids)| && content == done;
    assert Entries(kids)[..next] == Entries(kids);
    UnderwayEnd(nodes, kids, done, shapes);
  }

  /** The loop that takes the other keys, with their values, out of the content of `dst`. */
  method DropMissing(dst: Node, keep: set<string>, ghost kids: seq<Shape>, ghost src: seq<T.Entry>)
    returns (ghost shapes: seq<Shape>)
    requires Row(dst.content, kids) && Paired(kids) && dst !in Feet(kids) && KeepHolds(keep, src)
    modifies dst`content
    ensures Row(dst.content, shapes) && Paired(shapes) && Feet(shapes) <= Feet(kids)
    ensures Entries(shapes) == M.KeepKeys(Entries(kids), src) && shapes == KeptPairs(kids, src, |kids| / 2)
  {
    hide *;
    ghost var nodes, done, count, next := dst.content, [], 0, 0;
    DroppingStart(nodes, kids, src);
    shapes := [];
    var i := 0;
    while i + 1 < |dst.content|
      invariant i == 2 * count && Dropping(dst.content, nodes, kids, src, next, done, shapes, count)
      invariant dst !in Feet(shapes)
      decreases |dst.content| - i
    {
      DroppingHere(dst.content, nodes, kids, src, next, done, shapes, count);
      KeepsEntry(keep, src, Entries(kids)[next]);
      var key := T.Trim(dst.content[i].value);
      if key !in keep {
        DroppingGone(dst.content, nodes, kids, src, next, done, shapes, count);
        dst.content := dst.content[..i] + dst.content[i + 2..];
      } else {
        DroppingKept(dst.content, nodes, kids, src, next, done, shapes, count);
        DroppingFeet(dst.content, nodes, kids, src, next, done, shapes, count);
        done := done + [nodes[2 * next], nodes[2 * next + 1]];
        shapes := shapes + [kids[2 * next], kids[2 * next + 1]];
        i, count := i + 2, count + 1;
      }
      next := next + 1;
    }
    DroppingEnd(dst.content, nodes, kids, src, next, done, shapes, count);
  }

  lemma DroppingFeet(content: seq<Node?>, nodes: seq<Node?>, kids: seq<Shape>, src: seq<T.Entry>, next: nat,
                     done: seq<Node?>, shapes: seq<Shape>, count: nat)
    requires Dropping(content, nodes, kids, src, next, done, shapes, count) && 2 * next + 1 < |kids|
    ensures Feet(shapes + [kids[2 * next], kids[2 * next + 1]]) <= Feet(kids)
  {
    FeetHold(kids, 2 * next);
    FeetHold(kids, 2 * next + 1);
    FeetOfSum(shapes, [kids[2 * next], kids[2 * next + 1]]);
    FeetOfOne(kids[2 * next]);
    FeetOfOne(kids[2 * next + 1]);
    FeetOfSum([kids[2 * next]], [kids[2 * next + 1]]);
    assert [kids[2 * next]] + [kids[2 * next + 1]] == [kids[2 * next], kids[2 * next + 1]];
  }

  /** The tree without the keys that the other mapping does not have. */
  ghost function PrunedBy(d: Shape, s: Shape): Shape {
    if d.kind != MAPPING || s.kind != MAPPING then d
    else d.(kids := KeptPairs(d.kids, Entries(s.kids), |d.kids| / 2))
  }

  /** `pruneMissingMapKeys` */
  method PruneMissingMapKeys(dst: Node, src: Node, ghost d: Shape, ghost s: Shape) returns (ghost pruned: Shape)
    requires Valid(d) && d.node == dst && Valid(s) && s.node == src
    modifies dst`content
    ensures Valid(pruned) && pruned.node == dst && Foot(pruned) <= Foot(d) && pruned.kind == d.kind
    ensures Value(pruned) == M.PruneMissing(Value(d), Value(s)) && pruned == PrunedBy(d, s)
  {
    FieldsAre(d);
    FieldsAre(s);
    ValueOfSequence(d);
    ValueOfSequence(s);
    if dst.kind != MAPPING || src.kind != MAPPING {
      return d;
    }
    KidsAreRow(d);
    assert M.PruneMissing(Value(d), Value(s)) ==
      T.Mapping(d.notes, d.tag, M.KeepKeys(Entries(d.kids), Entries(s.kids)));
    hide *;
    var keep := KeysToKeep(src, s);
    ghost var shapes := DropMissing(dst, keep, d.kids, Entries(s.kids));
    pruned := d.(kids := shapes);
    ValidFrom(pruned);
    ValueOfSequence(pruned);
    PrunedByIs(d, s);
  }

  lemma PrunedByIs(d: Shape, s: Shape)
    requires d.kind == MAPPING && s.kind == MAPPING
    ensures PrunedBy(d, s) == d.(kids := KeptPairs(d.kids, Entries(s.kids), |d.kids| / 2))
  {
  }
}
