/** Structural equality over node graphs (internal/config/config_yaml.go, `nodesStructurallyEqual`): it follows the
    pointers of aliases, so it compares what two nodes read as in the whole document. */
module YamlReading {
  import opened YamlCopy
  import opened YamlShape
  import T = YamlTree
  import M = YamlMatch

  // ---- reading to the end --------------------------------------------------------------------------

  /** No chain of pointers from `n` is longer than `depth`: no alias leads back to where it stands. */
  ghost predicate Finite(world: set<Node>, n: Node?, depth: nat)
    requires Closed(world) && (n != null ==> n in world)
    reads world
    decreases depth
  {
    n == null ||
    (depth > 0 && Finite(world, n.alias, depth - 1)
     && forall i | 0 <= i < |n.content| :: Finite(world, n.content[i], depth - 1))
  }

  lemma {:induction false} FiniteMore(world: set<Node>, n: Node?, depth: nat, more: nat)
    requires Closed(world) && (n != null ==> n in world) && Finite(world, n, depth) && depth <= more
    ensures Finite(world, n, more)
    decreases depth
  {
    if n != null {
      FiniteMore(world, n.alias, depth - 1, more - 1);
      forall i | 0 <= i < |n.content| ensures Finite(world, n.content[i], more - 1) {
        FiniteMore(world, n.content[i], depth - 1, more - 1);
      }
    }
  }

  /** How far a node reads to the end does not depend on what else there is. */
  lemma {:induction false} FiniteIn(world: set<Node>, world': set<Node>, n: Node?, depth: nat)
    requires Closed(world) && Closed(world') && world <= world' && (n != null ==> n in world)
    requires Finite(world, n, depth)
    ensures Finite(world', n, depth)
    decreases depth
  {
    if n != null {
      FiniteIn(world, world', n.alias, depth - 1);
      forall i | 0 <= i < |n.content| ensures Finite(world', n.content[i], depth - 1) {
        FiniteIn(world, world', n.content[i], depth - 1);
      }
    }
  }

  // ---- structural equality -------------------------------------------------------------------------

  /** `nodesStructurallyEqual` on what two nodes read as. A key or value without its partner at the end of a
      mapping is not looked at. */
  predicate ReadEqual(a: Tree, b: Tree) {
    match (a, b)
    case (Absent, Absent) => true
    case (Seen(_, kind, _, text, alias, content), Seen(_, kind', _, text', alias', content')) =>
      if kind != kind' then false
      else if kind == MAPPING then
        |content| == |content'| && forall i | 0 <= i < |content| - |content| % 2 :: ReadEqual(content[i], content'[i])
      else if kind == SEQUENCE then
        |content| == |content'| && forall i | 0 <= i < |content| :: ReadEqual(content[i], content'[i])
      else if kind == ALIAS then ReadEqual(alias, alias')
      else T.Trim(text) == T.Trim(text')
    case _ => false
  }

  lemma {:induction false} UnfoldedAt(world: set<Node>, content: seq<Node?>, depth: nat)
    requires Closed(world) && forall i | 0 <= i < |content| && content[i] != null :: content[i] in world
    ensures |UnfoldAll(world, content, depth)| == |content|
    ensures forall i | 0 <= i < |content| :: UnfoldAll(world, content, depth)[i] == Unfold(world, content[i], depth)
    decreases |content|
  {
    if content != [] {
      UnfoldedAt(world, content[1..], depth);
    }
  }

  /** What reads to the end reads equal to itself, aliases included. */
  lemma {:induction false} ReadsEqualToItself(world: set<Node>, n: Node?, depth: nat)
    requires Closed(world) && (n != null ==> n in world) && Finite(world, n, depth)
    ensures ReadEqual(Unfold(world, n, depth), Unfold(world, n, depth))
    decreases depth
  {
    if n != null {
      UnfoldedAt(world, n.content, depth - 1);
      ReadsEqualToItself(world, n.alias, depth - 1);
      forall i | 0 <= i < |n.content|
        ensures ReadEqual(Unfold(world, n.content[i], depth - 1), Unfold(world, n.content[i], depth - 1))
      {
        ReadsEqualToItself(world, n.content[i], depth - 1);
      }
    }
  }

  /** `nodesStructurallyEqual`. What `b` reads as is finite, so the recursion ends. */
  method NodesStructurallyEqual(a: Node?, b: Node?, ghost world: set<Node>, ghost depth: nat) returns (equal: bool)
    requires Closed(world) && (a != null ==> a in world) && (b != null ==> b in world) && Finite(world, b, depth)
    ensures equal == ReadEqual(Unfold(world, a, depth), Unfold(world, b, depth))
    decreases depth, 1
  {
    if a == null || b == null {
      return a == b;
    }
    if a.kind != b.kind {
      return false;
    }
    if a.kind == MAPPING {
      if |a.content| != |b.content| {
        UnfoldedAt(world, a.content, depth - 1);
        UnfoldedAt(world, b.content, depth - 1);
        return false;
      }
      equal := ContentsEqual(a, b, world, depth);
    } else if a.kind == SEQUENCE {
      if |a.content| != |b.content| {
        UnfoldedAt(world, a.content, depth - 1);
        UnfoldedAt(world, b.content, depth - 1);
        return false;
      }
      equal := ContentsEqual(a, b, world, depth);
    } else if a.kind == ALIAS {
      equal := NodesStructurallyEqual(a.alias, b.alias, world, depth - 1);
    } else {
      equal := T.Trim(a.value) == T.Trim(b.value);
    }
  }

  lemma ChildReads(world: set<Node>, n: Node, depth: nat, i: nat)
    requires Closed(world) && n in world && depth > 0 && i < |n.content|
    ensures n.content[i] != null ==> n.content[i] in world
    ensures var x := Unfold(world, n, depth);
      && x.Seen? && x.kind == n.kind && |x.content| == |n.content|
      && x.content[i] == Unfold(world, n.content[i], depth - 1)
    ensures Finite(world, n, depth) ==> Finite(world, n.content[i], depth - 1)
  {
    UnfoldedAt(world, n.content, depth - 1);
  }

  function Compared(kind: int, count: nat): nat {
    if kind == MAPPING then count - count % 2 else count
  }

  predicate EqualUpTo(xs: seq<Tree>, ys: seq<Tree>, n: nat) {
    n <= |xs| && n <= |ys| && forall j | 0 <= j < n :: ReadEqual(xs[j], ys[j])
  }

  lemma EqualNext(xs: seq<Tree>, ys: seq<Tree>, n: nat)
    requires EqualUpTo(xs, ys, n) && n < |xs| && n < |ys| && ReadEqual(xs[n], ys[n])
    ensures EqualUpTo(xs, ys, n + 1)
  {
  }

  lemma ContentsDecide(x: Tree, y: Tree)
    requires x.Seen? && y.Seen? && x.kind == y.kind && (x.kind == MAPPING || x.kind == SEQUENCE)
    requires |x.content| == |y.content|
    ensures EqualUpTo(x.content, y.content, Compared(x.kind, |x.content|)) ==> ReadEqual(x, y)
    ensures forall i | 0 <= i < Compared(x.kind, |x.content|) && !ReadEqual(x.content[i], y.content[i]) ::
            !ReadEqual(x, y)
  {
  }

  lemma ContentsStart(a: Node, b: Node, world: set<Node>, depth: nat)
    requires Closed(world) && a in world && b in world && Finite(world, b, depth)
    requires |a.content| == |b.content| && a.kind == b.kind
    ensures depth > 0
    ensures var x, y := Unfold(world, a, depth), Unfold(world, b, depth);
      && x.Seen? && y.Seen? && x.kind == a.kind && y.kind == b.kind && |x.content| == |y.content| == |a.content|
      && EqualUpTo(x.content, y.content, 0)
    ensures Compared(a.kind, |a.content|) <= |a.content|
  {
    UnfoldedAt(world, a.content, depth - 1);
    UnfoldedAt(world, b.content, depth - 1);
  }

  /** The loops over the children, pair by pair. */
  method ContentsEqual(a: Node, b: Node, ghost world: set<Node>, ghost depth: nat) returns (equal: bool)
    requires Closed(world) && a in world && b in world && Finite(world, b, depth)
    requires a.kind == b.kind && (a.kind == MAPPING || a.kind == SEQUENCE) && |a.content| == |b.content|
    ensures equal == ReadEqual(Unfold(world, a, depth), Unfold(world, b, depth))
    decreases depth, 0
  {
    ContentsStart(a, b, world, depth);
    ghost var x, y := Unfold(world, a, depth), Unfold(world, b, depth);
    ContentsDecide(x, y);
    var count := Compared(a.kind, |a.content|);
    hide *;
    for i := 0 to count
      invariant Closed(world) && Finite(world, b, depth)
      invariant x == Unfold(world, a, depth) && y == Unfold(world, b, depth)
      invariant EqualUpTo(x.content, y.content, i)
    {
      ChildReads(world, a, depth, i);
      ChildReads(world, b, depth, i);
      equal := NodesStructurallyEqual(a.content[i], b.content[i], world, depth - 1);
      if !equal {
        return;
      }
      EqualNext(x.content, y.content, i);
    }
    return true;
  }

  // ---- what the trees alone decide -----------------------------------------------------------------

  /** The tree stands in this world. */
  ghost predicate Stands(s: Shape, world: set<Node>)
    reads world
  {
    (Closed(world) && Foot(s) <= world && Valid(s)) == true // proved as one fact
  }

  /** The tree stands in this world and reads to the end there. */
  ghost predicate Readable(s: Shape, world: set<Node>, depth: nat)
    reads world
  {
    (Stands(s, world) && Finite(world, s.node, depth)) == true // proved as one fact
  }

  /** Trees that are equal even if no two aliases are, read equal; and trees that read equal are equal if all
      aliases are. */
  ghost predicate Bounded(s: Shape, t: Shape, world: set<Node>, depth: nat)
    requires Stands(s, world) && Stands(t, world)
    reads world
  {
    var equal := ReadEqual(Unfold(world, s.node, depth), Unfold(world, t.node, depth));
    && (M.StructEqual(Value(s), Value(t), false) ==> equal)
    && (equal ==> M.StructEqual(Value(s), Value(t), true))
  }

  lemma KidStands(s: Shape, world: set<Node>, depth: nat, i: nat)
    requires Stands(s, world) && i < |s.kids|
    ensures Stands(s.kids[i], world)
    ensures s.node in world && s.node.kind == s.kind && s.node.value == s.text
    ensures |s.node.content| == |s.kids| && s.node.content[i] == s.kids[i].node
    ensures depth > 0 ==>
              && |Unfold(world, s.node, depth).content| == |s.kids|
              && Unfold(world, s.node, depth).content[i] == Unfold(world, s.kids[i].node, depth - 1)
    ensures depth > 0 && Finite(world, s.node, depth) ==> Finite(world, s.kids[i].node, depth - 1)
  {
    AllAreEach(s.kids);
    FeetOf(s.kids, s.kids[i].node);
    forall n | n in Foot(s.kids[i]) ensures n in Feet(s.kids) {
      FeetOf(s.kids, n);
    }
    if depth > 0 {
      ChildReads(world, s.node, depth, i);
    }
  }

  lemma {:induction false} TreesBound(s: Shape, t: Shape, world: set<Node>, depth: nat)
    requires Stands(s, world) && Readable(t, world, depth)
    ensures Bounded(s, t, world, depth)
    decreases s, 1
  {
    if s.kind == t.kind == SEQUENCE {
      ItemsBound(s, t, world, depth);
    } else if s.kind == t.kind == MAPPING {
      EntriesBound(s, t, world, depth);
    }
  }

  lemma Unfolds(s: Shape, world: set<Node>, depth: nat)
    requires Stands(s, world) && depth > 0
    ensures var x := Unfold(world, s.node, depth);
      x.Seen? && x.kind == s.kind && x.value == s.text && |x.content| == |s.kids|
  {
    UnfoldedAt(world, s.node.content, depth - 1);
  }

  lemma {:induction false} ItemsBound(s: Shape, t: Shape, world: set<Node>, depth: nat)
    requires Stands(s, world) && Readable(t, world, depth) && s.kind == t.kind == SEQUENCE
    ensures Bounded(s, t, world, depth)
    decreases s, 0
  {
    var x, y := Unfold(world, s.node, depth), Unfold(world, t.node, depth);
    Unfolds(s, world, depth);
    Unfolds(t, world, depth);
    ValuesAre(s.kids);
    ValuesAre(t.kids);
    if |s.kids| == |t.kids| {
      forall i | 0 <= i < |s.kids|
        ensures M.StructEqual(Value(s.kids[i]), Value(t.kids[i]), false) ==> ReadEqual(x.content[i], y.content[i])
        ensures ReadEqual(x.content[i], y.content[i]) ==> M.StructEqual(Value(s.kids[i]), Value(t.kids[i]), true)
      {
        KidStands(s, world, depth, i);
        KidStands(t, world, depth, i);
        TreesBound(s.kids[i], t.kids[i], world, depth - 1);
      }
    }
  }

  lemma {:induction false} EntriesBound(s: Shape, t: Shape, world: set<Node>, depth: nat)
    requires Stands(s, world) && Readable(t, world, depth) && s.kind == t.kind == MAPPING
    ensures Bounded(s, t, world, depth)
    decreases s, 0
  {
    var x, y := Unfold(world, s.node, depth), Unfold(world, t.node, depth);
    var es, fs := Entries(s.kids), Entries(t.kids);
    Unfolds(s, world, depth);
    Unfolds(t, world, depth);
    EntriesCount(s.kids, |s.kids| / 2);
    EntriesCount(t.kids, |t.kids| / 2);
    if |s.kids| == |t.kids| {
      forall i | 0 <= i < |es|
        ensures M.StructEqual(es[i].name, fs[i].name, false) ==> ReadEqual(x.content[2 * i], y.content[2 * i])
        ensures ReadEqual(x.content[2 * i], y.content[2 * i]) ==> M.StructEqual(es[i].name, fs[i].name, true)
        ensures M.StructEqual(es[i].value, fs[i].value, false) ==> ReadEqual(x.content[2 * i + 1], y.content[2 * i + 1])
        ensures ReadEqual(x.content[2 * i + 1], y.content[2 * i + 1]) ==> M.StructEqual(es[i].value, fs[i].value, true)
      {
        EntryIs(s.kids, i);
        EntryIs(t.kids, i);
        KidStands(s, world, depth, 2 * i);
        KidStands(t, world, depth, 2 * i);
        TreesBound(s.kids[2 * i], t.kids[2 * i], world, depth - 1);
        KidStands(s, world, depth, 2 * i + 1);
        KidStands(t, world, depth, 2 * i + 1);
        TreesBound(s.kids[2 * i + 1], t.kids[2 * i + 1], world, depth - 1);
      }
      PairsDecide(x, y, es, fs);
    }
  }

  lemma {:induction false} AllByPairs(xs: seq<Tree>, ys: seq<Tree>, n: nat)
    requires 2 * n <= |xs| && |xs| == |ys|
    requires forall i | 0 <= i < n :: ReadEqual(xs[2 * i], ys[2 * i]) && ReadEqual(xs[2 * i + 1], ys[2 * i + 1])
    ensures EqualUpTo(xs, ys, 2 * n)
    decreases n
  {
    if n > 0 {
      hide ReadEqual;
      AllByPairs(xs, ys, n - 1);
      assert ReadEqual(xs[2 * (n - 1)], ys[2 * (n - 1)]) && ReadEqual(xs[2 * (n - 1) + 1], ys[2 * (n - 1) + 1]);
    }
  }

  lemma MappingReads(x: Tree, y: Tree, n: nat)
    requires x.Seen? && y.Seen? && x.kind == y.kind == MAPPING && |x.content| == |y.content| == 2 * n
    ensures ReadEqual(x, y) == EqualUpTo(x.content, y.content, 2 * n)
  {
    assert |x.content| - |x.content| % 2 == 2 * n;
  }

  /** A mapping reads equal exactly when its keys and values do, one by one. */
  lemma PairsDecide(x: Tree, y: Tree, es: seq<T.Entry>, fs: seq<T.Entry>)
    requires x.Seen? && y.Seen? && x.kind == y.kind == MAPPING
    requires |x.content| == |y.content| == 2 * |es| && |es| == |fs|
    requires forall i | 0 <= i < |es| ::
      && (M.StructEqual(es[i].name, fs[i].name, false) ==> ReadEqual(x.content[2 * i], y.content[2 * i]))
      && (ReadEqual(x.content[2 * i], y.content[2 * i]) ==> M.StructEqual(es[i].name, fs[i].name, true))
      && (M.StructEqual(es[i].value, fs[i].value, false) ==> ReadEqual(x.content[2 * i + 1], y.content[2 * i + 1]))
      && (ReadEqual(x.content[2 * i + 1], y.content[2 * i + 1]) ==> M.StructEqual(es[i].value, fs[i].value, true))
    ensures (forall i | 0 <= i < |es| :: M.StructEqual(es[i].name, fs[i].name, false)
                                         && M.StructEqual(es[i].value, fs[i].value, false)) ==> ReadEqual(x, y)
    ensures ReadEqual(x, y) ==> forall i | 0 <= i < |es| :: M.StructEqual(es[i].name, fs[i].name, true)
                                                            && M.StructEqual(es[i].value, fs[i].value, true)
  {
    MappingReads(x, y, |es|);
    hide ReadEqual, M.StructEqual;
    if forall i | 0 <= i < |es| ::
      M.StructEqual(es[i].name, fs[i].name, false) && M.StructEqual(es[i].value, fs[i].value, false)
    {
      AllByPairs(x.content, y.content, |es|);
    }
  }
}
