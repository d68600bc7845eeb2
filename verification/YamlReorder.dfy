/** Reordering the elements of a sequence in place (internal/config/config_yaml.go, `matchSequenceElement`,
    `reorderSequenceForMerge`). */
module YamlReorder {
  import opened YamlCopy
  import opened YamlShape
  import opened YamlRead
  import opened YamlReading
  import opened YamlMatch
  import T = YamlTree

  /** These nodes hold these trees. */
  ghost predicate Hold(nodes: seq<Node?>, shapes: seq<Shape>)
    reads Feet(shapes)
  {
    (&& |nodes| == |shapes|
     && (forall i | 0 <= i < |shapes| :: nodes[i] == shapes[i].node && Tidy(shapes[i]))
     && AllAre(shapes)) == true // proved as one fact
  }

  lemma HeldAt(nodes: seq<Node?>, shapes: seq<Shape>, i: nat)
    requires Hold(nodes, shapes) && i < |shapes|
    ensures |nodes| == |shapes| && nodes[i] == shapes[i].node && Valid(shapes[i])
    ensures |Values(shapes)| == |shapes| && Values(shapes)[i] == Value(shapes[i])
  {
    AllAreEach(shapes);
    ValuesAre(shapes);
  }

  method IdentityOf(n: Node, ghost s: Shape) returns (id: Id)
    requires Valid(s) && s.node == n
    ensures id == IdOf(Value(s))
  {
    FieldsAre(s);
    if n.kind == MAPPING {
      var identity := SequenceElementIdentity(n, s);
      return if identity != "" then MappingId(identity) else NoId;
    }
    if n.kind == SCALAR {
      var text := T.Trim(n.value);
      return if text != "" then TextId(text) else NoId;
    }
    return NoId;
  }

  /** Whether two elements are read equal now. */
  ghost predicate EqualNow(n: Node?, target: Node?, world: set<Node>, depth: nat)
    requires Closed(world) && (n != null ==> n in world) && (target != null ==> target in world)
    reads world
  {
    ReadEqual(Unfold(world, n, depth), Unfold(world, target, depth))
  }

  method MatchesTarget(manner: Manner, n: Node, target: Node, ghost world: set<Node>, ghost depth: nat,
                       ghost s: Shape, ghost t: Shape)
    returns (b: bool)
    requires Stands(s, world) && s.node == n && Readable(t, world, depth) && t.node == target
    ensures n in world && target in world && Closed(world)
    ensures b == Matches(manner, Value(s), Value(t), EqualNow(n, target, world, depth))
  {
    StandsIn(s, world);
    StandsIn(t, world);
    TreesBound(s, t, world, depth);
    hide Stands, Valid, Value, IdOf, M.StructEqual;
    match manner
    case ById =>
      var wanted := IdentityOf(target, t);
      var id := IdentityOf(n, s);
      b := wanted != NoId && id == wanted;
    case ByStructure =>
      b := NodesStructurallyEqual(n, target, world, depth);
  }

  lemma StandsIn(s: Shape, world: set<Node>)
    requires Stands(s, world)
    ensures Closed(world) && Valid(s) && s.node in world && Foot(s) <= world
    ensures forall n | n in Foot(s) :: allocated(n)
  {
    FootIsAllocated(s);
  }

  /** The elements of a sequence stand in this world, or stand there and read to the end. */
  ghost predicate AllStand(nodes: seq<Node?>, kids: seq<Shape>, world: set<Node>)
    reads world
  {
    (&& |nodes| == |kids| && Closed(world)
     && forall i | 0 <= i < |kids| :: nodes[i] == kids[i].node && Stands(kids[i], world)) == true // proved as one fact
  }

  ghost predicate AllReadable(nodes: seq<Node?>, kids: seq<Shape>, world: set<Node>, depth: nat)
    reads world
  {
    (&& |nodes| == |kids| && Closed(world)
     && forall i | 0 <= i < |kids| :: nodes[i] == kids[i].node && Readable(kids[i], world, depth)) ==
       true // proved as one fact
  }

  lemma StandsAt(nodes: seq<Node?>, kids: seq<Shape>, world: set<Node>, k: nat)
    requires AllStand(nodes, kids, world) && k < |kids|
    ensures |nodes| == |kids| && nodes[k] == kids[k].node && Stands(kids[k], world) && kids[k].node in world
    ensures Closed(world) && |Values(kids)| == |kids| && Values(kids)[k] == Value(kids[k])
  {
    ValuesAre(kids);
    StandsIn(kids[k], world);
  }

  lemma ReadableAt(nodes: seq<Node?>, kids: seq<Shape>, world: set<Node>, depth: nat, i: nat)
    requires AllReadable(nodes, kids, world, depth) && i < |kids|
    ensures |nodes| == |kids| && nodes[i] == kids[i].node && Readable(kids[i], world, depth) && kids[i].node in world
    ensures Closed(world) && |Values(kids)| == |kids| && Values(kids)[i] == Value(kids[i])
  {
    ValuesAre(kids);
    StandsIn(kids[i], world);
  }

  /** The pairs of elements that are read equal now. */
  ghost function VerdictsNow(nodes: seq<Node?>, kids: seq<Shape>, elements: seq<Node?>, newKids: seq<Shape>,
                             world: set<Node>, depth: nat): set<(nat, nat)>
    requires AllStand(nodes, kids, world) && AllReadable(elements, newKids, world, depth)
    reads world
  {
    set k: nat, i: nat | k < |kids| && i < |newKids| && PairEqual(nodes, kids, elements, newKids, world, depth, k, i) ::
      (k, i)
  }

  ghost predicate PairEqual(nodes: seq<Node?>, kids: seq<Shape>, elements: seq<Node?>, newKids: seq<Shape>,
                            world: set<Node>, depth: nat, k: nat, i: nat)
    requires AllStand(nodes, kids, world) && AllReadable(elements, newKids, world, depth)
    requires k < |kids| && i < |newKids|
    reads world
  {
    StandsAt(nodes, kids, world, k);
    ReadableAt(elements, newKids, world, depth, i);
    EqualNow(kids[k].node, newKids[i].node, world, depth)
  }

  lemma FirstFreeStep(manner: Manner, original: seq<T.Node>, used: seq<bool>, src: seq<T.Node>, same: set<(nat, nat)>,
                      i: nat, k: nat)
    requires |used| == |original| && i < |src| && k <= |original|
    ensures FirstFree(manner, original, used, src, same, i, k) ==
            if k == |original| then -1
            else if !used[k] && Matches(manner, original[k], src[i], (k, i) in same) then k
            else FirstFree(manner, original, used, src, same, i, k + 1)
  {
  }

  method FindFree(manner: Manner, original: seq<Node?>, used: array<bool>, target: Node, ghost world: set<Node>,
                  ghost depth: nat, ghost kids: seq<Shape>, ghost elements: seq<Node?>, ghost newKids: seq<Shape>,
                  ghost i: nat)
    returns (idx: int)
    requires AllStand(original, kids, world) && AllReadable(elements, newKids, world, depth)
    requires used.Length == |original| && i < |newKids| && target == newKids[i].node
    ensures |Values(kids)| == used.Length && |Values(newKids)| == |newKids|
    ensures idx == FirstFree(manner, Values(kids), used[..], Values(newKids),
                             VerdictsNow(original, kids, elements, newKids, world, depth), i, 0)
  {
    ReadableAt(elements, newKids, world, depth, i);
    ValuesAre(kids);
    ghost var same := VerdictsNow(original, kids, elements, newKids, world, depth);
    ghost var values, wanted := Values(kids), Values(newKids);
    assert |values| == |original| == |kids|;
    hide *;
    for k := 0 to |original|
      invariant AllStand(original, kids, world) && AllReadable(elements, newKids, world, depth)
      invariant same == VerdictsNow(original, kids, elements, newKids, world, depth)
      invariant FirstFree(manner, values, used[..], wanted, same, i, 0) ==
                FirstFree(manner, values, used[..], wanted, same, i, k)
    {
      StandsAt(original, kids, world, k);
      ReadableAt(elements, newKids, world, depth, i);
      VerdictIs(original, kids, elements, newKids, world, depth, k, i);
      FirstFreeStep(manner, values, used[..], wanted, same, i, k);
      if !used[k] {
        var matching := MatchesTarget(manner, original[k], target, world, depth, kids[k], newKids[i]);
        if matching {
          return k;
        }
      }
    }
    FirstFreeStep(manner, values, used[..], wanted, same, i, |original|);
    return -1;
  }

  lemma VerdictIs(nodes: seq<Node?>, kids: seq<Shape>, elements: seq<Node?>, newKids: seq<Shape>,
                  world: set<Node>, depth: nat, k: nat, i: nat)
    requires AllStand(nodes, kids, world) && AllReadable(elements, newKids, world, depth)
    requires k < |kids| && i < |newKids|
    ensures Closed(world) && kids[k].node in world && newKids[i].node in world
    ensures (k, i) in VerdictsNow(nodes, kids, elements, newKids, world, depth)
            <==> EqualNow(kids[k].node, newKids[i].node, world, depth)
  {
    StandsAt(nodes, kids, world, k);
    ReadableAt(elements, newKids, world, depth, i);
  }

  /** `matchSequenceElement` */
  method MatchSequenceElement(original: seq<Node?>, used: array<bool>, target: Node, ghost world: set<Node>,
                              ghost depth: nat, ghost kids: seq<Shape>, ghost elements: seq<Node?>,
                              ghost newKids: seq<Shape>, ghost i: nat)
    returns (idx: int)
    requires AllStand(original, kids, world) && AllReadable(elements, newKids, world, depth)
    requires used.Length == |original| && i < |newKids| && target == newKids[i].node
    ensures |Values(kids)| == used.Length && |Values(newKids)| == |newKids|
    ensures idx == Match(Values(kids), used[..], Values(newKids),
                         VerdictsNow(original, kids, elements, newKids, world, depth), i)
  {
    hide AllStand, AllReadable, FirstFree, Values, VerdictsNow;
    idx := FindFree(ById, original, used, target, world, depth, kids, elements, newKids, i);
    if idx < 0 {
      idx := FindFree(ByStructure, original, used, target, world, depth, kids, elements, newKids, i);
    }
  }

  // ---- the slots -----------------------------------------------------------------------------------

  /** What the reordered content is, slot by slot. */
  ghost predicate Placed(content: seq<Node?>, kids: seq<Shape>, slots: seq<int>) {
    && |content| <= |slots|
    && forall i | 0 <= i < |content| && slots[i] < |kids| ::
        content[i] == if slots[i] >= 0 then kids[slots[i]].node else null
  }

  lemma PlacedNext(content: seq<Node?>, kids: seq<Shape>, slots: seq<int>, k: int)
    requires Placed(content, kids, slots) && |content| < |slots|
    requires -1 <= k < |kids| && slots[|content|] == k
    ensures Placed(content + [if k >= 0 then kids[k].node else null], kids, slots)
  {
  }

  lemma SlotsNext(original: seq<T.Node>, used: seq<bool>, src: seq<T.Node>, same: set<(nat, nat)>, i: nat,
                  slots: seq<int>)
    requires |used| == |original| && i < |src| == |slots|
    requires Slots(original, used, src, same, i) == slots[i..]
    ensures var k := Match(original, used, src, same, i);
      && slots[i] == k
      && Slots(original, Using(used, k), src, same, i + 1) == slots[i + 1..]
  {
    assert slots[i..][0] == slots[i] && slots[i..][1..] == slots[i + 1..];
  }

  ghost function SlotsOf(kids: seq<Shape>, newKids: seq<Shape>, same: set<(nat, nat)>): seq<int> {
    ValuesAre(kids);
    Slots(Values(kids), Unused(|kids|), Values(newKids), same, 0)
  }

  lemma SlotsStart(original: seq<Node?>, elements: seq<Node?>, kids: seq<Shape>, newKids: seq<Shape>,
                   same: set<(nat, nat)>, world: set<Node>, depth: nat)
    requires AllStand(original, kids, world) && AllReadable(elements, newKids, world, depth)
    ensures |original| == |Values(kids)| == |kids| && |elements| == |Values(newKids)| == |newKids|
    ensures var slots := SlotsOf(kids, newKids, same);
      && |slots| == |newKids| && slots[0..] == slots
      && slots == Slots(Values(kids), Unused(|kids|), Values(newKids), same, 0)
      && Placed([], kids, slots)
  {
    ValuesAre(kids);
    ValuesAre(newKids);
  }

  /** The loop of `reorderSequenceForMerge` over its `used` marks. */
  method OrderElements(original: seq<Node?>, elements: seq<Node?>, ghost kids: seq<Shape>, ghost newKids: seq<Shape>,
                       ghost world: set<Node>, ghost depth: nat)
    returns (ordered: seq<Node?>)
    requires AllStand(original, kids, world) && AllReadable(elements, newKids, world, depth)
    ensures var slots := SlotsOf(kids, newKids, VerdictsNow(original, kids, elements, newKids, world, depth));
      |ordered| == |elements| == |slots| && Placed(ordered, kids, slots)
  {
    hide AllStand, AllReadable, VerdictsNow, Values, Slots, SlotsOf, Placed;
    ghost var same := VerdictsNow(original, kids, elements, newKids, world, depth);
    SlotsStart(original, elements, kids, newKids, same, world, depth);
    ghost var slots, values, wanted := SlotsOf(kids, newKids, same), Values(kids), Values(newKids);
    var used := new bool[|original|](_ => false);
    assert used[..] == Unused(|kids|);
    ordered := [];
    hide *;
    for i := 0 to |elements|
      invariant |ordered| == i && used.Length == |original| && Placed(ordered, kids, slots)
      invariant AllStand(original, kids, world) && AllReadable(elements, newKids, world, depth)
      invariant same == VerdictsNow(original, kids, elements, newKids, world, depth)
      invariant Slots(values, used[..], wanted, same, i) == slots[i..]
    {
      ghost var before := used[..];
      SlotsNext(values, before, wanted, same, i, slots);
      ReadableAt(elements, newKids, world, depth, i);
      var idx := MatchSequenceElement(original, used, elements[i], world, depth, kids, elements, newKids, i);
      PlacedNext(ordered, kids, slots, idx);
      UsingIs(before, idx);
      if idx >= 0 {
        StandsAt(original, kids, world, idx);
        ordered := ordered + [original[idx]];
        used[idx] := true;
        assert used[..] == before[idx := true];
      } else {
        ordered := ordered + [null];
      }
    }
  }

  lemma UsingIs(used: seq<bool>, k: int)
    requires k < |used|
    ensures Using(used, k) == if k >= 0 then used[k := true] else used
  {
  }

  lemma KidsStand(d: Shape, world: set<Node>)
    requires Stands(d, world)
    ensures AllStand(d.node.content, d.kids, world) && |d.node.content| == |d.kids|
  {
    StandsIn(d, world);
    forall i | 0 <= i < |d.kids| ensures d.node.content[i] == d.kids[i].node && Stands(d.kids[i], world) {
      KidStands(d, world, 0, i);
    }
    AllAreEach(d.kids);
  }

  lemma KidsReadable(s: Shape, world: set<Node>, depth: nat)
    requires Readable(s, world, depth)
    ensures depth > 0 && AllReadable(s.node.content, s.kids, world, depth - 1) && |s.node.content| == |s.kids|
  {
    KidsStand(s, world);
    forall i | 0 <= i < |s.kids|
      ensures s.node.content[i] == s.kids[i].node && Readable(s.kids[i], world, depth - 1)
    {
      KidStands(s, world, depth, i);
    }
  }

  /** A tree reads to the end in any larger world. */
  lemma ReadableIn(s: Shape, world: set<Node>, depth: nat, world': set<Node>)
    requires Readable(s, world, depth) && Closed(world') && world <= world'
    ensures Readable(s, world', depth)
  {
    FiniteIn(world, world', s.node, depth);
  }

  /** Two sequences in one world, whose elements can be compared. */
  ghost predicate Comparable(d: Shape, s: Shape, world: set<Node>, depth: nat)
    reads d.node, s.node, world
  {
    (&& AllStand(d.node.content, d.kids, world)
     && AllReadable(s.node.content, s.kids, world, depth)) == true // proved as one fact
  }

  lemma AreComparable(d: Shape, s: Shape, gen: set<Node>, depth: nat, world: set<Node>)
    requires Valid(d) && Readable(s, gen, depth)
    requires Closed(world) && Foot(d) <= world && gen <= world
    ensures depth > 0 && Comparable(d, s, world, depth - 1)
    ensures |d.node.content| == |d.kids| && |s.node.content| == |s.kids|
  {
    ReadableIn(s, gen, depth, world);
    assert Stands(d, world);
    KidsStand(d, world);
    KidsReadable(s, world, depth);
  }

  /** The pairs of elements of two sequences that are read equal now. */
  ghost function ReadEqualNow(d: Shape, s: Shape, world: set<Node>, depth: nat): set<(nat, nat)>
    requires Comparable(d, s, world, depth)
    reads d.node, s.node, world
  {
    VerdictsNow(d.node.content, d.kids, s.node.content, s.kids, world, depth)
  }

  /** `reorderSequenceForMerge`: the old elements in the order of the new ones, null where there is none. `world`
      is any set that holds both documents and all they point to. */
  method ReorderSequenceForMerge(dst: Node, src: Node, ghost d: Shape, ghost s: Shape, ghost world: set<Node>,
                                 ghost depth: nat)
    returns (ghost same: set<(nat, nat)>)
    requires Valid(d) && d.node == dst && Valid(s) && s.node == src && dst in world && src in world
    requires Comparable(d, s, world, depth)
    modifies dst`content
    ensures same == old(ReadEqualNow(d, s, world, depth))
    ensures |d.kids| == 0 || |s.kids| == 0 ==> dst.content == old(dst.content)
    ensures |d.kids| > 0 && |s.kids| > 0 ==>
      && |dst.content| == |s.kids| == |SlotsOf(d.kids, s.kids, same)|
      && Placed(dst.content, d.kids, SlotsOf(d.kids, s.kids, same))
  {
    FieldsAre(d);
    FieldsAre(s);
    same := ReadEqualNow(d, s, world, depth);
    hide Valid, AllStand, AllReadable, Foot, Feet, Placed, SlotsOf, Values, VerdictsNow;
    if |dst.content| == 0 || |src.content| == 0 {
      return;
    }
    dst.content := OrderElements(dst.content, src.content, d.kids, s.kids, world, depth);
  }
}
