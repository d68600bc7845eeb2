/** A document as it lies on the heap, the way the YAML parser builds it: the content pointers make a tree of
    yaml.Node objects, and what is shared is shared through the pointers of alias nodes. A shape records every node
    of the tree with the fields it has; what a tree means as a value is then a function of its shape. */
module YamlShape {
  import opened YamlCopy
  import T = YamlTree

  // the Kind constants of yaml.v3
  const SEQUENCE := 2
  const MAPPING := 4
  const SCALAR := 8
  const ALIAS := 16

  datatype Shape = Shape(node: Node, notes: string, kind: int, tag: string, text: string, alias: Node?,
                         kids: seq<Shape>)

  ghost function Foot(s: Shape): set<Node> {
    {s.node} + Feet(s.kids)
  }

  ghost function Feet(kids: seq<Shape>): set<Node> {
    if kids == [] then {} else Foot(kids[0]) + Feet(kids[1..])
  }

  lemma {:induction false} FeetOf(kids: seq<Shape>, n: Node)
    ensures n in Feet(kids) <==> exists i :: 0 <= i < |kids| && n in Foot(kids[i])
    decreases |kids|
  {
    if kids != [] {
      FeetOf(kids[1..], n);
      if n in Feet(kids[1..]) {
        var i :| 0 <= i < |kids[1..]| && n in Foot(kids[1..][i]);
        assert n in Foot(kids[i + 1]);
      }
      if i :| 0 < i < |kids| && n in Foot(kids[i]) {
        assert n in Foot(kids[1..][i - 1]);
      }
    }
  }

  /** No node occurs twice among these trees. */
  ghost predicate Apart(kids: seq<Shape>) {
    forall i, j, n | 0 <= i < j < |kids| && n in Foot(kids[i]) :: n !in Foot(kids[j])
  }

  /** A node as the parser makes keys of every kind: a collection has no text. */
  ghost predicate IsKey(s: Shape) {
    s.kind != SCALAR && s.kind != ALIAS ==> s.text == ""
  }

  /** Keys and values by turns. */
  ghost predicate Paired(kids: seq<Shape>) {
    && |kids| % 2 == 0
    && forall i | 0 <= i < |kids| && i % 2 == 0 :: IsKey(kids[i])
  }

  /** A proper tree: no node occurs twice, and every kind is one that stands inside a document. */
  ghost predicate Tidy(s: Shape) {
    && (s.kind == SEQUENCE || s.kind == MAPPING || s.kind == SCALAR || s.kind == ALIAS)
    && (s.kind == MAPPING ==> Paired(s.kids))
    && s.node !in Feet(s.kids)
    && Apart(s.kids)
    && forall i | 0 <= i < |s.kids| :: Tidy(s.kids[i])
  }

  /** The nodes have the fields the shape records. */
  ghost predicate Is(s: Shape)
    reads Foot(s)
  {
    && s.node.notes == s.notes && s.node.kind == s.kind && s.node.tag == s.tag && s.node.value == s.text
    && s.node.alias == s.alias
    && |s.node.content| == |s.kids|
    && (forall i | 0 <= i < |s.kids| :: s.node.content[i] == s.kids[i].node)
    && AllAre(s.kids)
  }

  ghost predicate AllAre(kids: seq<Shape>)
    reads Feet(kids)
  {
    kids == [] || (Is(kids[0]) && AllAre(kids[1..]))
  }

  lemma {:induction false} AllAreEach(kids: seq<Shape>)
    ensures AllAre(kids) <==> forall i | 0 <= i < |kids| :: Is(kids[i])
  {
    if kids != [] {
      AllAreEach(kids[1..]);
      if AllAre(kids) {
        forall i | 0 < i < |kids| ensures Is(kids[i]) {
          assert Is(kids[1..][i - 1]);
        }
      }
    }
  }

  ghost predicate Valid(s: Shape)
    reads Foot(s)
  {
    (Tidy(s) && Is(s)) == true // proved as one fact
  }

  lemma {:induction false} FootIsAllocated(s: Shape)
    ensures forall n | n in Foot(s) :: allocated(n)
    decreases s, 0
  {
    FeetAreAllocated(s.kids);
  }

  lemma {:induction false} FeetAreAllocated(kids: seq<Shape>)
    ensures forall n | n in Feet(kids) :: allocated(n)
    decreases kids, 0
  {
    if kids != [] {
      FootIsAllocated(kids[0]);
      FeetAreAllocated(kids[1..]);
    }
  }

  // ---- what a shape means --------------------------------------------------------------------------

  ghost function Value(s: Shape): T.Node {
    if s.kind == SCALAR then T.Scalar(s.notes, s.tag, s.text)
    else if s.kind == MAPPING then T.Mapping(s.notes, s.tag, Entries(s.kids))
    else if s.kind == ALIAS then T.Alias(s.notes, s.text)
    else T.Sequence(s.notes, s.tag, Values(s.kids))
  }

  ghost function Values(kids: seq<Shape>): seq<T.Node> {
    if kids == [] then [] else [Value(kids[0])] + Values(kids[1..])
  }

  /** The kids of a mapping are its keys and values by turns. */
  ghost function Entries(kids: seq<Shape>): seq<T.Entry>
    decreases kids
  {
    if |kids| < 2 then []
    else
      [T.Entry(Value(kids[0]), Value(kids[1]))] + Entries(kids[2..])
  }

  lemma {:induction false} ValuesAre(kids: seq<Shape>)
    ensures |Values(kids)| == |kids| && forall i | 0 <= i < |kids| :: Values(kids)[i] == Value(kids[i])
  {
    if kids != [] {
      ValuesAre(kids[1..]);
    }
  }

  lemma {:induction false} EntriesCount(kids: seq<Shape>, n: nat)
    requires |kids| == 2 * n
    ensures |Entries(kids)| == n
  {
    if n > 0 {
      EntriesCount(kids[2..], n - 1);
    }
  }

  lemma {:induction false} EntryIs(kids: seq<Shape>, i: nat)
    requires 2 * i + 1 < |kids|
    ensures i < |Entries(kids)|
    ensures Entries(kids)[i] == T.Entry(Value(kids[2 * i]), Value(kids[2 * i + 1]))
    ensures Paired(kids) || IsKey(kids[2 * i]) ==> Entries(kids)[i].key == kids[2 * i].text
  {
    if i > 0 {
      EntryIs(kids[2..], i - 1);
      assert kids[2..][2 * (i - 1)] == kids[2 * i] && kids[2..][2 * (i - 1) + 1] == kids[2 * i + 1];
    }
    assert 2 * i % 2 == 0;
    assert IsKey(kids[2 * i]) ==> T.TextOf(Value(kids[2 * i])) == kids[2 * i].text;
  }

  /** Two trees that read alike, as a key and as a value. */
  ghost predicate Alike(s: Shape, t: Shape) {
    s.notes == t.notes && s.kind == t.kind && s.tag == t.tag && s.text == t.text && Value(s) == Value(t)
  }

  lemma {:induction false} AlikeKids(kids: seq<Shape>, kids': seq<Shape>)
    requires |kids| == |kids'| && forall i | 0 <= i < |kids| :: Alike(kids[i], kids'[i])
    ensures Values(kids) == Values(kids') && Entries(kids) == Entries(kids')
    decreases |kids|
  {
    if kids != [] {
      AlikeKids(kids[1..], kids'[1..]);
    }
    if |kids| >= 2 {
      AlikeKids(kids[2..], kids'[2..]);
      assert Alike(kids[0], kids'[0]) && Alike(kids[1], kids'[1]);
    }
  }

  // ---- copying a tree ------------------------------------------------------------------------------

  ghost function Renamed(s: Shape, copies: map<Node, Node>): Shape
    requires Foot(s) <= copies.Keys
    decreases s, 0
  {
    s.(node := copies[s.node], kids := AllRenamed(s.kids, copies),
       alias := if s.alias != null && s.alias in copies then copies[s.alias] else null)
  }

  ghost function AllRenamed(kids: seq<Shape>, copies: map<Node, Node>): (r: seq<Shape>)
    requires Feet(kids) <= copies.Keys
    ensures |r| == |kids|
    ensures forall i | 0 <= i < |kids| :: r[i].kind == kids[i].kind && r[i].text == kids[i].text
    ensures forall i | 0 <= i < |kids| :: Foot(kids[i]) <= copies.Keys && r[i] == Renamed(kids[i], copies)
    decreases kids, 0
  {
    if kids == [] then [] else [Renamed(kids[0], copies)] + AllRenamed(kids[1..], copies)
  }

  lemma {:induction false} RenamedFoot(s: Shape, copies: map<Node, Node>, c: Node)
    requires Foot(s) <= copies.Keys && c in Foot(Renamed(s, copies))
    ensures exists k :: k in Foot(s) && copies[k] == c
    decreases s, 0
  {
    if c == copies[s.node] {
      assert s.node in Foot(s);
    } else {
      RenamedFeet(s.kids, copies, c);
    }
  }

  lemma {:induction false} RenamedFeet(kids: seq<Shape>, copies: map<Node, Node>, c: Node)
    requires Feet(kids) <= copies.Keys && c in Feet(AllRenamed(kids, copies))
    ensures exists k :: k in Feet(kids) && copies[k] == c
    decreases kids, 0
  {
    if c in Foot(Renamed(kids[0], copies)) {
      RenamedFoot(kids[0], copies, c);
    } else {
      RenamedFeet(kids[1..], copies, c);
    }
  }

  lemma {:induction false} RenamedIsTidy(s: Shape, copies: map<Node, Node>)
    requires Tidy(s) && Foot(s) <= copies.Keys && Injective(copies)
    ensures Tidy(Renamed(s, copies)) && Value(Renamed(s, copies)) == Value(s)
    decreases s
  {
    var r := Renamed(s, copies);
    forall i | 0 <= i < |s.kids|
      ensures Tidy(r.kids[i]) && Value(r.kids[i]) == Value(s.kids[i])
    {
      RenamedIsTidy(s.kids[i], copies);
    }
    if r.node in Feet(r.kids) {
      RenamedFeet(s.kids, copies, r.node);
      assert false;
    }
    forall i, j, c | 0 <= i < j < |s.kids| && c in Foot(r.kids[i])
      ensures c !in Foot(r.kids[j])
    {
      RenamedFoot(s.kids[i], copies, c);
      if c in Foot(r.kids[j]) {
        RenamedFoot(s.kids[j], copies, c);
        assert false;
      }
    }
    RenamedValues(s.kids, copies);
    RenamedEntries(s.kids, copies);
  }

  lemma {:induction false} RenamedValues(kids: seq<Shape>, copies: map<Node, Node>)
    requires Feet(kids) <= copies.Keys
    requires forall i | 0 <= i < |kids| :: Value(AllRenamed(kids, copies)[i]) == Value(kids[i])
    ensures Values(AllRenamed(kids, copies)) == Values(kids)
  {
    if kids != [] {
      assert AllRenamed(kids, copies)[1..] == AllRenamed(kids[1..], copies);
      assert forall i | 0 <= i < |kids| - 1 :: kids[1..][i] == kids[i + 1];
      RenamedValues(kids[1..], copies);
    }
  }

  lemma {:induction false} RenamedEntries(kids: seq<Shape>, copies: map<Node, Node>)
    requires Feet(kids) <= copies.Keys
    requires forall i | 0 <= i < |kids| :: Value(AllRenamed(kids, copies)[i]) == Value(kids[i])
    ensures Entries(AllRenamed(kids, copies)) == Entries(kids)
    decreases |kids|
  {
    if |kids| >= 2 {
      var r := AllRenamed(kids, copies);
      assert r[0] == Renamed(kids[0], copies);
      assert r[1..] == AllRenamed(kids[1..], copies) && kids[1..][1..] == kids[2..];
      assert r[2..] == r[1..][1..] == AllRenamed(kids[2..], copies);
      assert forall i | 0 <= i < |kids| - 2 :: kids[2..][i] == kids[i + 2];
      RenamedEntries(kids[2..], copies);
    }
  }

  lemma {:induction false} RenamedIs(s: Shape, copies: map<Node, Node>)
    requires Is(s) && Foot(s) <= copies.Keys
    requires forall k | k in Foot(s) :: CopyOf(k, copies[k], copies)
    ensures Is(Renamed(s, copies))
    decreases s, 0
  {
    var r := Renamed(s, copies);
    assert CopyOf(s.node, r.node, copies);
    forall i | 0 <= i < |s.kids|
      ensures r.node.content[i] == r.kids[i].node
    {
      assert Mirrors(s.node.content[i], r.node.content[i], copies);
    }
    AllRenamedAre(s.kids, copies);
  }

  lemma {:induction false} AllRenamedAre(kids: seq<Shape>, copies: map<Node, Node>)
    requires AllAre(kids) && Feet(kids) <= copies.Keys
    requires forall k | k in Feet(kids) :: CopyOf(k, copies[k], copies)
    ensures AllAre(AllRenamed(kids, copies))
    decreases kids, 0
  {
    if kids != [] {
      RenamedIs(kids[0], copies);
      AllRenamedAre(kids[1..], copies);
      assert AllRenamed(kids, copies)[1..] == AllRenamed(kids[1..], copies);
    }
  }

  lemma {:induction false} ClosedHoldsFoot(s: Shape, nodes: set<Node>)
    requires Is(s) && Closed(nodes) && s.node in nodes
    ensures Foot(s) <= nodes
    decreases s, 0
  {
    forall i | 0 <= i < |s.kids| ensures s.kids[i].node in nodes {
      assert s.node.content[i] != null;
    }
    ClosedHoldsFeet(s.kids, nodes);
  }

  lemma {:induction false} ClosedHoldsFeet(kids: seq<Shape>, nodes: set<Node>)
    requires AllAre(kids) && Closed(nodes) && forall i | 0 <= i < |kids| :: kids[i].node in nodes
    ensures Feet(kids) <= nodes
    decreases kids, 0
  {
    if kids != [] {
      ClosedHoldsFoot(kids[0], nodes);
      ClosedHoldsFeet(kids[1..], nodes);
    }
  }

  /** The renamed copy of a tree. */
  lemma RenamedTree(s: Shape, copies: map<Node, Node>)
    requires Valid(s) && s.node in copies && Isomorphic(copies) && Closed(copies.Keys)
    ensures Foot(s) <= copies.Keys
    ensures var r := Renamed(s, copies); Valid(r) && r.node == copies[s.node] && Alike(r, s)
    ensures forall c | c in Foot(Renamed(s, copies)) :: exists k :: k in Foot(s) && copies[k] == c
  {
    hide Value, Foot, Feet, Closed, CopyOf, Tidy, Is;
    ClosedHoldsFoot(s, copies.Keys);
    RenamedIsTidy(s, copies);
    RenamedIs(s, copies);
    forall c | c in Foot(Renamed(s, copies)) ensures exists k :: k in Foot(s) && copies[k] == c {
      RenamedFoot(s, copies, c);
    }
  }

  /** All nodes there are, those of a tree among them. */
  lemma Everything(s: Shape, some: set<Node>) returns (world: set<Node>)
    requires Valid(s)
    ensures Closed(world) && some <= world && Foot(s) <= world
  {
    FootIsAllocated(s);
    world := set x: Node {:trigger x.kind} | allocated(x);
  }

  /** Copying a tree gives a tree of new nodes with the same value. */
  method CopyTree(n: Node, ghost s: Shape) returns (c: Node, ghost copy: Shape)
    requires Valid(s) && s.node == n
    ensures Valid(copy) && copy.node == c && Alike(copy, s)
    ensures fresh(Foot(copy))
  {
    ghost var world := Everything(s, {});
    assert n in world;
    hide *;
    var cp;
    ghost var copies;
    cp, copies := DeepCopy(n, world);
    assert n in copies && cp == copies[n] by {
      MirroredIs(n, cp, copies);
    }
    c := cp;
    RenamedTree(s, copies);
    copy := Renamed(s, copies);
  }

  lemma MirroredIs(n: Node, cp: Node?, copies: map<Node, Node>)
    requires Mirrors(n, cp, copies)
    ensures n in copies && cp == copies[n]
  {
  }
}
