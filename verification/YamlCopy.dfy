/** Deep-copying a graph of YAML nodes (internal/config/config_yaml.go, `deepCopyNodeSeen`). Nodes may be
    shared (an anchor and its aliases) and the graph may be cyclic; the `seen` map keeps the copy finite. */
module YamlCopy {

  /** A yaml.Node; `notes` stands for its style, anchor and comments. */
  class Node {
    var notes: string
    var kind: int
    var tag: string
    var value: string
    var alias: Node?
    var content: seq<Node?>

    constructor New(notes: string, kind: int, tag: string, value: string, alias: Node?, content: seq<Node?>)
      ensures this.notes == notes && this.kind == kind && this.tag == tag && this.value == value
      ensures this.alias == alias && this.content == content
    {
      this.notes, this.kind, this.tag, this.value, this.alias, this.content := notes, kind, tag, value, alias, content;
    }

    /** `cp := *n`: a new node with the same fields. */
    constructor Like(n: Node)
      ensures notes == n.notes && kind == n.kind && tag == n.tag && value == n.value
      ensures alias == n.alias && content == n.content
    {
      notes, kind, tag, value, alias, content := n.notes, n.kind, n.tag, n.value, n.alias, n.content;
    }
  }

  /** A set of nodes that contains everything its nodes point to. */
  ghost predicate Closed(nodes: set<Node>)
    reads nodes
  {
    forall n | n in nodes ::
      (n.alias != null ==> n.alias in nodes) &&
      forall i | 0 <= i < |n.content| && n.content[i] != null :: n.content[i] in nodes
  }

  ghost predicate Injective(copies: map<Node, Node>) {
    forall a, b | a in copies && b in copies && a != b :: copies[a] != copies[b]
  }

  /** Where a pointer of the copy must lead. */
  ghost predicate Mirrors(p: Node?, p': Node?, copies: map<Node, Node>) {
    if p == null then p' == null else p in copies && p' == copies[p]
  }

  /** The copy has the node's own fields, and its pointers lead to the copies of the node's pointers. */
  ghost predicate CopyOf(n: Node, c: Node, copies: map<Node, Node>)
    reads n, c
  {
    && c.notes == n.notes && c.kind == n.kind && c.tag == n.tag && c.value == n.value
    && Mirrors(n.alias, c.alias, copies)
    && |c.content| == |n.content|
    && forall i | 0 <= i < |n.content| :: Mirrors(n.content[i], c.content[i], copies)
  }

  ghost predicate Grown(seen: map<Node, Node>, seen': map<Node, Node>) {
    forall k | k in seen :: k in seen' && seen'[k] == seen[k]
  }

  /** The map takes nodes of the graph to distinct nodes outside it. */
  ghost predicate Tracks(seen: map<Node, Node>, nodes: set<Node>) {
    && Injective(seen)
    && forall k | k in seen :: k in nodes && seen[k] !in nodes
  }

  /** A copy stays a copy when the map grows. */
  lemma CopiesStay(k: Node, c: Node, before: map<Node, Node>, after: map<Node, Node>)
    requires Grown(before, after) && CopyOf(k, c, before)
    ensures CopyOf(k, c, after)
  {
  }

  /** Adding a node and its new copy. */
  lemma TracksOneMore(seen: map<Node, Node>, nodes: set<Node>, n: Node, c: Node)
    requires Tracks(seen, nodes) && n in nodes && n !in seen && c !in nodes
    requires forall k | k in seen :: seen[k] != c
    ensures Tracks(seen[n := c], nodes) && Grown(seen, seen[n := c])
    ensures nodes - seen[n := c].Keys < nodes - seen.Keys
  {
    assert n in nodes - seen.Keys;
  }

  lemma FewerLeft(seen: map<Node, Node>, after: map<Node, Node>, nodes: set<Node>)
    requires Grown(seen, after)
    ensures nodes - after.Keys <= nodes - seen.Keys
  {
  }

  /** `deepCopyNodeSeen`, with the map passed on. `nodes` is any closed set that holds the graph: it bounds
      the recursion, and the keys of the map never leave it. */
  method DeepCopySeen(n: Node?, seen: map<Node, Node>, ghost nodes: set<Node>)
    returns (cp: Node?, seen': map<Node, Node>)
    requires Closed(nodes) && (n != null ==> n in nodes) && Tracks(seen, nodes)
    ensures Mirrors(n, cp, seen') && Grown(seen, seen') && Tracks(seen', nodes)
    ensures forall k | k in seen' && k !in seen :: fresh(seen'[k]) && CopyOf(k, seen'[k], seen')
    decreases nodes - seen.Keys, 0
  {
    if n == null {
      return null, seen;
    }
    if n in seen {
      return seen[n], seen;
    }
    var c := new Node.Like(n);
    TracksOneMore(seen, nodes, n, c);
    var first := seen[n := c];
    assert Mirrors(n, c, first);
    hide *;
    var aliased := CopyAlias(n, c, first, nodes);
    FewerLeft(first, aliased, nodes);
    MirrorsStays(n, c, first, aliased);
    KeysInside(aliased, nodes);
    seen' := CopyContent(n, c, aliased, nodes);
    MirrorsStays(n, c, aliased, seen');
    MirrorsStays(n.alias, c.alias, aliased, seen');
    IsCopy(n, c, seen');
    AllCopied(seen, aliased, seen', n);
    AllGrown(seen, first, aliased, seen');
    AllStay(aliased, seen');
    cp := c;
  }

  lemma KeysInside(seen: map<Node, Node>, nodes: set<Node>)
    requires Tracks(seen, nodes)
    ensures forall k | k in seen :: k in nodes && Mirrors(k, seen[k], seen)
  {
  }

  lemma MirrorsStays(p: Node?, p': Node?, before: map<Node, Node>, after: map<Node, Node>)
    requires Mirrors(p, p', before) && Grown(before, after)
    ensures Mirrors(p, p', after) && (p != null ==> p in after && after[p] == p')
  {
  }

  lemma AllStay(before: map<Node, Node>, after: map<Node, Node>)
    requires Grown(before, after)
    ensures forall k | k in before :: k in after && after[k] == before[k]
  {
  }

  lemma AllGrown(a: map<Node, Node>, b: map<Node, Node>, c: map<Node, Node>, d: map<Node, Node>)
    requires Grown(a, b) && Grown(b, c) && Grown(c, d)
    ensures Grown(a, d)
  {
  }

  /** The copy of the node an alias stands for. */
  method CopyAlias(n: Node, c: Node, seen: map<Node, Node>, ghost nodes: set<Node>) returns (seen': map<Node, Node>)
    requires Closed(nodes) && n in nodes && c !in nodes && Tracks(seen, nodes) && c.alias == n.alias
    modifies c`alias
    ensures Mirrors(n.alias, c.alias, seen') && Grown(seen, seen') && Tracks(seen', nodes)
    ensures forall k | k in seen' && k !in seen :: fresh(seen'[k]) && CopyOf(k, seen'[k], seen')
    decreases nodes - seen.Keys, 1
  {
    seen' := seen;
    if n.alias != null {
      hide CopyOf, Injective;
      var alias;
      alias, seen' := DeepCopySeen(n.alias, seen', nodes);
      c.alias := alias;
    }
  }

  lemma AllCopied(seen: map<Node, Node>, before: map<Node, Node>, after: map<Node, Node>, n: Node)
    requires Grown(before, after) && n in after && CopyOf(n, after[n], after)
    requires forall k | k in before && k !in seen && k != n :: CopyOf(k, before[k], before)
    requires forall k | k in after && k !in before :: CopyOf(k, after[k], after)
    ensures forall k | k in after && k !in seen :: CopyOf(k, after[k], after)
  {
    hide CopyOf;
    forall k | k in before && k !in seen && k != n
      ensures CopyOf(k, after[k], after)
    {
      CopiesStay(k, before[k], before, after);
    }
  }

  lemma IsCopy(n: Node, c: Node, copies: map<Node, Node>)
    requires c.notes == n.notes && c.kind == n.kind && c.tag == n.tag && c.value == n.value
    requires Mirrors(n.alias, c.alias, copies)
    requires ContentMirrors(n, c, |n.content|, copies)
    ensures CopyOf(n, c, copies)
  {
  }

  /** The first `count` children of `c` are the copies of those of `n`. */
  ghost predicate ContentMirrors(n: Node, c: Node, count: nat, copies: map<Node, Node>)
    reads n, c
  {
    && |c.content| == |n.content| && count <= |n.content|
    && forall j | 0 <= j < count :: Mirrors(n.content[j], c.content[j], copies)
  }

  lemma ContentStays(n: Node, c: Node, count: nat, before: map<Node, Node>, after: map<Node, Node>)
    requires ContentMirrors(n, c, count, before) && Grown(before, after)
    ensures ContentMirrors(n, c, count, after)
  {
  }

  /** The loop over the children of `n`, which fills the children of its copy `c`. */
  method CopyContent(n: Node, c: Node, seen: map<Node, Node>, ghost nodes: set<Node>)
    returns (seen': map<Node, Node>)
    requires Closed(nodes) && n in nodes && n in seen && seen[n] == c && Tracks(seen, nodes)
    requires c.content == n.content
    modifies c`content
    ensures Grown(seen, seen') && Tracks(seen', nodes)
    ensures ContentMirrors(n, c, |n.content|, seen')
    ensures forall k | k in seen' && k !in seen :: fresh(seen'[k]) && CopyOf(k, seen'[k], seen')
    decreases nodes - seen.Keys, 1
  {
    seen' := seen;
    if |n.content| > 0 {
      c.content := seq(|n.content|, _ => null);
      assert ContentMirrors(n, c, 0, seen');
      assert c !in nodes;
      for i := 0 to |n.content|
        invariant n.content == old(n.content) && Closed(nodes)
        invariant Grown(seen, seen') && Tracks(seen', nodes) && ContentMirrors(n, c, i, seen')
        invariant forall k | k in seen' && k !in seen :: fresh(seen'[k]) && CopyOf(k, seen'[k], seen')
      {
        hide CopyOf, Injective;
        ghost var before := seen';
        FewerLeft(seen, before, nodes);
        var child;
        child, seen' := DeepCopySeen(n.content[i], seen', nodes);
        forall k | k in seen' && k !in seen
          ensures fresh(seen'[k]) && CopyOf(k, seen'[k], seen')
        {
          if k in before {
            CopiesStay(k, before[k], before, seen');
          }
        }
        ContentStays(n, c, i, before, seen');
        c.content := c.content[i := child];
      }
    }
  }

  // ---- the copy as a whole -----------------------------------------------------------------------

  /** `copies` is an isomorphism from the nodes reachable from `n` (a closed set that contains it) to their
      copies. */
  ghost predicate Isomorphic(copies: map<Node, Node>)
    reads copies.Keys, copies.Values
  {
    Injective(copies) && forall k | k in copies :: CopyOf(k, copies[k], copies)
  }

  ghost predicate Points(m: Node, k: Node)
    reads m
  {
    m.alias == k || exists i :: 0 <= i < |m.content| && m.content[i] == k
  }

  /** The nodes that some chain of `steps` pointers leads to. */
  ghost function ReachedIn(nodes: set<Node>, n: Node?, steps: nat): set<Node>
    reads nodes
  {
    if n == null then {}
    else if steps == 0 then {n}
    else set m, k | m in nodes && m in ReachedIn(nodes, n, steps - 1) && k in nodes && Points(m, k) :: k
  }

  ghost function Reached(nodes: set<Node>, n: Node?): set<Node>
    reads nodes
  {
    set k | k in nodes && exists steps: nat :: k in ReachedIn(nodes, n, steps)
  }

  lemma ReachedIsClosed(nodes: set<Node>, n: Node?)
    requires Closed(nodes) && (n != null ==> n in nodes)
    ensures Closed(Reached(nodes, n)) && (n != null ==> n in Reached(nodes, n))
  {
    if n != null {
      assert n in ReachedIn(nodes, n, 0);
    }
    forall m, k | m in Reached(nodes, n) && k in nodes && Points(m, k)
      ensures k in Reached(nodes, n)
    {
      var steps: nat :| m in ReachedIn(nodes, n, steps);
      assert k in ReachedIn(nodes, n, steps + 1);
    }
    forall m | m in Reached(nodes, n)
      ensures m.alias != null ==> m.alias in Reached(nodes, n)
      ensures forall i | 0 <= i < |m.content| && m.content[i] != null :: m.content[i] in Reached(nodes, n)
    {
      assert m.alias != null ==> Points(m, m.alias);
      assert forall i | 0 <= i < |m.content| && m.content[i] != null :: Points(m, m.content[i]);
    }
  }

  lemma {:induction false} ClosedHoldsReached(nodes: set<Node>, some: set<Node>, n: Node?, steps: nat)
    requires Closed(some) && (n != null ==> n in some)
    ensures ReachedIn(nodes, n, steps) <= some
  {
    if n != null && steps > 0 {
      ClosedHoldsReached(nodes, some, n, steps - 1);
    }
  }

  /** `deepCopyNode`. The nodes reachable from `n`, and no others, are copied, each exactly once; the copies
      are new nodes, and they form a closed graph of their own that is isomorphic to the original. */
  method DeepCopy(n: Node?, ghost nodes: set<Node>) returns (cp: Node?, ghost copies: map<Node, Node>)
    requires Closed(nodes) && (n != null ==> n in nodes)
    ensures Mirrors(n, cp, copies) && Isomorphic(copies)
    ensures copies.Keys == Reached(nodes, n)
    ensures Closed(copies.Keys) && Closed(copies.Values)
    ensures forall k | k in copies :: fresh(copies[k])
  {
    var seen;
    ReachedIsClosed(nodes, n);
    cp, seen := DeepCopySeen(n, map[], Reached(nodes, n));
    copies := seen;
    KeysAreClosed(copies);
    ValuesAreClosed(copies);
    forall k | k in Reached(nodes, n)
      ensures k in copies
    {
      var steps: nat :| k in ReachedIn(nodes, n, steps);
      ClosedHoldsReached(nodes, copies.Keys, n, steps);
    }
  }

  lemma KeysAreClosed(copies: map<Node, Node>)
    requires forall k | k in copies :: CopyOf(k, copies[k], copies)
    ensures Closed(copies.Keys)
  {
  }

  lemma ValuesAreClosed(copies: map<Node, Node>)
    requires forall k | k in copies :: CopyOf(k, copies[k], copies)
    ensures Closed(copies.Values)
  {
    forall c | c in copies.Values
      ensures c.alias != null ==> c.alias in copies.Values
      ensures forall i | 0 <= i < |c.content| && c.content[i] != null :: c.content[i] in copies.Values
    {
      var k :| k in copies && copies[k] == c;
      assert CopyOf(k, c, copies);
      forall i | 0 <= i < |c.content| && c.content[i] != null
        ensures c.content[i] in copies.Values
      {
        assert Mirrors(k.content[i], c.content[i], copies);
      }
    }
  }

  /** What a reader of the document sees from a node, down to some depth. */
  datatype Tree = Cut | Absent | 
    Seen(notes: string, kind: int, tag: string, value: string, alias: Tree, content: seq<Tree>)

  ghost function Unfold(nodes: set<Node>, n: Node?, depth: nat): Tree
    requires Closed(nodes) && (n != null ==> n in nodes)
    reads nodes
    decreases depth, 0
  {
    if n == null then Absent
    else if depth == 0 then Cut
    else
      Seen(n.notes, n.kind, n.tag, n.value, Unfold(nodes, n.alias, depth - 1),
           UnfoldAll(nodes, n.content, depth - 1))
  }

  ghost function UnfoldAll(nodes: set<Node>, content: seq<Node?>, depth: nat): (r: seq<Tree>)
    requires Closed(nodes) && forall i | 0 <= i < |content| && content[i] != null :: content[i] in nodes
    reads nodes
    decreases depth, |content| + 1
  {
    if content == [] then []
    else [Unfold(nodes, content[0], depth)] + UnfoldAll(nodes, content[1..], depth)
  }

  /** The copy reads like the original to every depth, cycles and sharing included. */
  lemma {:induction false} CopyReadsAlike(copies: map<Node, Node>, n: Node?, cp: Node?, depth: nat)
    requires Isomorphic(copies) && Closed(copies.Keys) && Closed(copies.Values) && Mirrors(n, cp, copies)
    ensures Unfold(copies.Keys, n, depth) == Unfold(copies.Values, cp, depth)
    decreases depth, 0
  {
    if n != null && depth > 0 {
      assert CopyOf(n, cp, copies);
      CopyReadsAlike(copies, n.alias, cp.alias, depth - 1);
      ContentReadsAlike(copies, n.content, cp.content, depth - 1);
    }
  }

  lemma {:induction false} ContentReadsAlike(copies: map<Node, Node>, content: seq<Node?>, content': seq<Node?>,
                                             depth: nat)
    requires Isomorphic(copies) && Closed(copies.Keys) && Closed(copies.Values)
    requires |content'| == |content|
    requires forall i | 0 <= i < |content| :: Mirrors(content[i], content'[i], copies)
    requires forall i | 0 <= i < |content| && content[i] != null :: content[i] in copies.Keys
    requires forall i | 0 <= i < |content'| && content'[i] != null :: content'[i] in copies.Values
    ensures UnfoldAll(copies.Keys, content, depth) == UnfoldAll(copies.Values, content', depth)
    decreases depth, |content| + 1
  {
    if content != [] {
      CopyReadsAlike(copies, content[0], content'[0], depth);
      forall i | 0 <= i < |content| - 1
        ensures Mirrors(content[1..][i], content'[1..][i], copies)
      {
        assert Mirrors(content[i + 1], content'[i + 1], copies);
      }
      ContentReadsAlike(copies, content[1..], content'[1..], depth);
    }
  }
}
