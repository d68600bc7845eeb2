/** What becomes of the aliases of a document. An alias reads as the node it points to, and the merge changes nodes
    in place, so a value that the generated document does not mention may read differently afterwards; but not if its
    aliases lead to no node that changes or moves. */
module YamlAlias {
  import opened YamlCopy
  import opened YamlShape
  import opened YamlRead
  import opened YamlReading
  import opened YamlReorder
  import opened YamlEdit
  import opened YamlFootprint
  import opened YamlInPlace
  import opened YamlPicture
  import opened YamlChanges
  import T = YamlTree
  import M = YamlMerge
  import opened YamlMatch

  // ---- the law -----------------------------------------------------------------------------------------

  /** All that has changed between the pictures is in these two sets, and what is in the first alone differs. */
  ghost predicate Changes(was: Picture, now: Picture, changed: set<Node>, moved: set<Node>) {
    && Step(was, now, changed + moved)
    && forall n | n in was && n in changed && n !in moved :: Differs(was[n], now[n])
  }

  lemma {:induction false} DifferenceShows(was: Picture, now: Picture, n: Node)
    requires Whole(was) && Whole(now) && n in was && n in now && Differs(was[n], now[n])
    ensures !ReadsSame(was, now, n)
  {
    LookedAt(was, was[n].content, 0);
    LookedAt(now, now[n].content, 0);
    assert Look(now, n, 1) != Look(was, n, 1);
  }

  lemma {:induction false} MetStands(p: Picture, some: set<Node>, n: Node)
    requires Whole(p) && n in p
    ensures Met(p, some, n) <= p.Keys
  {
    forall k | k in Met(p, some, n) ensures k in p {
      var steps: nat :| k in Through(p, some, n, steps);
    }
  }

  /** A value reads as before if its pointers lead to no node of the two sets, and not if they lead to one that is
      sure to differ. Between the two, where they lead only to moved nodes, it reads as before exactly when all
      that they lead to first does. */
  lemma {:induction false} ReadsAsBeforeIff(was: Picture, now: Picture, changed: set<Node>, moved: set<Node>, n: Node)
    requires Changes(was, now, changed, moved) && n in was
    ensures var met := Met(was, changed + moved, n);
      && met <= was.Keys
      && (met == {} ==> ReadsSame(was, now, n))
      && (ReadsSame(was, now, n) ==> met <= moved)
      && (ReadsSame(was, now, n) <==> forall t | t in met :: ReadsSame(was, now, t))
  {
    var met := Met(was, changed + moved, n);
    MetStands(was, changed + moved, n);
    ReadsSameIff(was, now, changed + moved, n);
    forall t | t in met && t !in moved ensures !ReadsSame(was, now, t) {
      DifferenceShows(was, now, t);
    }
  }

  /** `mergeMappingPreserve` on the roots of the two documents (both are mappings, or the program stops before). `was`
      is any set that holds the existing document and all it points to. */
  method MergeDocuments(dst: Node, src: Node, ghost d: Shape, ghost s: Shape, ghost gen: set<Node>, ghost depth: nat,
                        ghost was: set<Node>)
    returns (ghost d': Shape, ghost v: Verdicts, ghost now: set<Node>)
    requires Valid(d) && d.node == dst && Readable(s, gen, depth) && s.node == src && Foot(d) !! gen
    requires d.kind == MAPPING && s.kind == MAPPING && T.Unique(Value(s)) && Closed(was) && Foot(d) <= was
    modifies Touchable(d, s)
    ensures Valid(d') && d'.node == dst && Value(d') == M.MergeRoot(Value(d), Value(s), v)
    ensures Merged(d, s, [], d')
    ensures was <= now && Closed(now)
    ensures Changes(old(Taken(was)), Taken(now), Changed(d, s, []), Moved(d, s, []))
    ensures forall n, deep: nat | n in was && Met(old(Taken(was)), Changed(d, s, []) + Moved(d, s, []), n) == {} ::
      Unfold(now, n, deep) == old(Unfold(was, n, deep))
  {
    ghost var before := Taken(was);
    AllLookAlike(was);
    MergeStart(d, s, gen, depth, was);
    hide Valid, Foot, Merged, Value, M.MergeRoot, M.MergeNode, Changed, Moved, Touchable, Readable, Tidy, T.Unique,
      Shows, Closed;
    d', v := MergeMappingPreserve(dst, src, [], d, s, gen, depth);
    now := Everything(d', was);
    MergeEnd(d', now);
    assert forall n | n in was && n !in Touchable(d, s) :: Taken(now)[n] == before[n];
    PictureAfter(d, s, d', before, Taken(now));
    AllLookAlike(now);
    ReadAsBefore(before, Taken(now), Changed(d, s, []), Moved(d, s, []));
  }

  lemma {:induction false} AllLookAlike(world: set<Node>)
    requires Closed(world)
    ensures Whole(Taken(world))
    ensures forall n, deep: nat | n in world :: Look(Taken(world), n, deep) == Unfold(world, n, deep)
  {
    TakenIsWhole(world);
    forall n, deep: nat | n in world ensures Look(Taken(world), n, deep) == Unfold(world, n, deep) {
      TakenLooksAlike(world, n, deep);
    }
  }

  lemma {:induction false} ReadAsBefore(was: Picture, now: Picture, changed: set<Node>, moved: set<Node>)
    requires Changes(was, now, changed, moved)
    ensures forall n, deep: nat | n in was && Met(was, changed + moved, n) == {} ::
            Look(now, n, deep) == Look(was, n, deep)
  {
    forall n | n in was && Met(was, changed + moved, n) == {} ensures ReadsSame(was, now, n) {
      ReadsAsBeforeIff(was, now, changed, moved, n);
    }
  }

  lemma {:induction false} MergeStart(d: Shape, s: Shape, gen: set<Node>, depth: nat, was: set<Node>)
    requires Valid(d) && Readable(s, gen, depth) && Closed(was) && Foot(d) <= was
    ensures Whole(Taken(was)) && Shows(Taken(was), d) && Tidy(d) && Tidy(s)
  {
    TakenIsWhole(was);
    StandsIn(s, gen);
    TakenShows(d, was);
  }

  lemma {:induction false} MergeEnd(d': Shape, now: set<Node>)
    requires Valid(d') && Closed(now) && Foot(d') <= now
    ensures Whole(Taken(now)) && Shows(Taken(now), d')
  {
    TakenIsWhole(now);
    TakenShows(d', now);
  }

  lemma {:induction false} PictureAfter(d: Shape, s: Shape, d': Shape, was: Picture, now: Picture)
    requires Whole(was) && Whole(now) && was.Keys <= now.Keys
    requires Shows(was, d) && Shows(now, d') && Merged(d, s, [], d') && Tidy(d) && Tidy(s) && T.Unique(Value(s))
    requires forall n | n in was && n !in Touchable(d, s) :: now[n] == was[n]
    ensures Changes(was, now, Changed(d, s, []), Moved(d, s, []))
  {
    forall n | n in was && n in Touchable(d, s)
      ensures Accounted(was, now, n, Changed(d, s, []), Moved(d, s, []))
    {
      WrittenAccounted(d, s, [], d', was, now, n);
    }
    forall n | n in was && n in Changed(d, s, []) ensures n in Touchable(d, s) {
      ChangedIsTouched(d, s, [], n);
    }
  }

  // ---- an alias that does not read as before -------------------------------------------------------------

  ghost function Leaf(n: Node): Shape
    reads n
  {
    Shape(n, n.notes, n.kind, n.tag, n.value, n.alias, [])
  }

  ghost function Branch(n: Node, kids: seq<Shape>): Shape
    reads n
  {
    Shape(n, n.notes, n.kind, n.tag, n.value, n.alias, kids)
  }

  lemma LeafIs(n: Node)
    requires (n.kind == SCALAR || n.kind == ALIAS) && n.content == []
    ensures Valid(Leaf(n)) && Foot(Leaf(n)) == {n}
  {
  }

  lemma TwoApart(k: Shape, v: Shape)
    requires Valid(k) && Valid(v) && Foot(k) !! Foot(v)
    ensures Row([k.node, v.node], [k, v]) && Feet([k, v]) == Foot(k) + Foot(v)
  {
    RowOfOne(k.node, k);
    RowOfOne(v.node, v);
    RowSum([k.node], [k], [v.node], [v]);
    assert [k] + [v] == [k, v] && [k.node] + [v.node] == [k.node, v.node];
  }

  lemma {:induction false} BranchIs(n: Node, kids: seq<Shape>)
    requires n.kind == MAPPING && Row(n.content, kids) && n !in Feet(kids) && Paired(kids)
    ensures Valid(Branch(n, kids)) && Foot(Branch(n, kids)) == {n} + Feet(kids)
  {
    ValidFrom(Branch(n, kids));
  }

  /** `a: &x 1`, `b: *x` */
  ghost predicate Existing(dst: Node, ka: Node, x: Node, kb: Node, b: Node)
    reads dst, ka, x, kb, b
  {
    && dst !in {ka, x, kb, b} && ka !in {x, kb, b} && x !in {kb, b} && kb != b
    && dst.kind == MAPPING && dst.content == [ka, x, kb, b]
    && ka.kind == kb.kind == x.kind == SCALAR && b.kind == ALIAS && b.alias == x
    && ka.alias == kb.alias == x.alias == dst.alias == null
    && ka.content == kb.content == x.content == b.content == []
    && ka.value == "a" && x.value == "1" && kb.value == "b"
  }

  /** `a: 2` */
  ghost predicate Rendered(src: Node, key: Node, two: Node)
    reads src, key, two
  {
    && src !in {key, two} && key != two && src.kind == MAPPING && src.content == [key, two]
    && key.kind == two.kind == SCALAR && key.alias == two.alias == src.alias == null
    && key.content == two.content == [] && key.value == "a" && two.value == "2"
  }

  lemma {:induction false} ExistingIs(dst: Node, ka: Node, x: Node, kb: Node, b: Node) returns (d: Shape)
    requires Existing(dst, ka, x, kb, b)
    ensures Valid(d) && d.node == dst && d.kind == MAPPING && Foot(d) == {dst, ka, x, kb, b}
    ensures |d.kids| == 4 && d.kids[0].text == "a" && d.kids[1].node == x
    ensures Closed({dst, ka, x, kb, b}) && b.alias == x && x.value == "1"
  {
    LeafIs(ka);
    LeafIs(x);
    LeafIs(kb);
    LeafIs(b);
    hide Valid, Row, Foot, Feet;
    TwoApart(Leaf(ka), Leaf(x));
    TwoApart(Leaf(kb), Leaf(b));
    RowSum([ka, x], [Leaf(ka), Leaf(x)], [kb, b], [Leaf(kb), Leaf(b)]);
    var kids := [Leaf(ka), Leaf(x), Leaf(kb), Leaf(b)];
    assert [ka, x] + [kb, b] == dst.content && [Leaf(ka), Leaf(x)] + [Leaf(kb), Leaf(b)] == kids;
    d := Branch(dst, kids);
    BranchIs(dst, kids);
  }

  lemma {:induction false} RenderedIs(src: Node, key: Node, two: Node) returns (s: Shape)
    requires Rendered(src, key, two)
    ensures s.node == src && s.kind == MAPPING && Readable(s, {src, key, two}, 2)
    ensures |s.kids| == 2 && s.kids[0].text == "a" && s.kids[1].kind == SCALAR && s.kids[1].text == "2"
  {
    LeafIs(key);
    LeafIs(two);
    TwoApart(Leaf(key), Leaf(two));
    s := Branch(src, [Leaf(key), Leaf(two)]);
    BranchIs(src, [Leaf(key), Leaf(two)]);
    var gen := {src, key, two};
    assert Closed(gen);
    assert Finite(gen, key, 1) && Finite(gen, two, 1);
  }

  /** Of the old document only the root and the value of the shared key are written. */
  lemma {:induction false} SharedKeyTouched(d: Shape, s: Shape)
    requires d.kind == MAPPING && s.kind == MAPPING && |s.kids| == 2 && s.kids[1].kind == SCALAR
    requires |d.kids| == 4 && d.kids[0].text == s.kids[0].text && Tidy(d) && Tidy(s)
    ensures Touchable(d, s) <= {d.node, d.kids[1].node} && T.Unique(Value(s))
  {
    EntriesCount(s.kids, 1);
    EntryIs(s.kids, 0);
    EntryIs(d.kids, 0);
    assert T.FindKey(Entries(d.kids), s.kids[0].text) == 0;
    assert Touchable(d.kids[1], s.kids[1]) == {d.kids[1].node};
    assert PairTouches(d.kids, s.kids, 0) == {d.kids[1].node} && PairTouches(d.kids, s.kids, 1) == {};
    assert Value(s).entries == Entries(s.kids) && T.Unique(Value(s.kids[1]));
  }

  lemma {:induction false} SharedKeyMerged(d: Shape, s: Shape, d': Shape)
    requires d.kind == MAPPING && s.kind == MAPPING && |s.kids| == 2 && s.kids[1].kind == SCALAR
    requires |d.kids| == 4 && d.kids[0].text == s.kids[0].text && Tidy(d) && Tidy(s)
    requires Merged(d, s, [], d') && Valid(d')
    ensures d.kids[1].node.value == s.kids[1].text
  {
    EntryIs(d.kids, 0);
    assert T.FindKey(Entries(d.kids), s.kids[0].text) == 0;
    assert MergedAt(d.kids, d'.kids, s.kids, [], 0);
    assert Merged(d.kids[1], s.kids[1], [] + [s.kids[0].text], d'.kids[1]);
    KidIs(d', 1);
    FieldsAre(d'.kids[1]);
  }

  /** The merge of these two documents does not touch `b`, but what `b` reads as was 1 and is 2. */
  method FollowAnchor(dst: Node, src: Node, b: Node, ghost ka: Node, ghost x: Node, ghost kb: Node, ghost key: Node,
                      ghost two: Node)
    returns (before: string, after: string)
    requires Existing(dst, ka, x, kb, b) && Rendered(src, key, two) && {dst, ka, x, kb, b} !! {src, key, two}
    modifies dst, x
    ensures before == "1" && after == "2"
  {
    ghost var d := ExistingIs(dst, ka, x, kb, b);
    ghost var s := RenderedIs(src, key, two);
    SharedKeyTouched(d, s);
    assert b !in {dst, x};
    hide *;
    before := b.alias.value;
    ghost var d', v, now := MergeDocuments(dst, src, d, s, {src, key, two}, 2, {dst, ka, x, kb, b});
    SharedKeyMerged(d, s, d');
    after := b.alias.value;
  }

  method AliasFollowsItsAnchor() returns (before: string, after: string)
    ensures before == "1" && after == "2"
  {
    hide Valid, Foot;
    var ka := new Node.New("", SCALAR, "!!str", "a", null, []);
    var x := new Node.New("&x", SCALAR, "!!int", "1", null, []);
    var kb := new Node.New("", SCALAR, "!!str", "b", null, []);
    var b := new Node.New("", ALIAS, "", "x", x, []);
    var dst := new Node.New("", MAPPING, "!!map", "", null, [ka, x, kb, b]);
    var key := new Node.New("", SCALAR, "!!str", "a", null, []);
    var two := new Node.New("", SCALAR, "!!int", "2", null, []);
    var src := new Node.New("", MAPPING, "!!map", "", null, [key, two]);
    before, after := FollowAnchor(dst, src, b, ka, x, kb, key, two);
  }
}
