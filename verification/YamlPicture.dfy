/** Pictures of a document: what its nodes hold at some moment, and what a reader sees from a node when some of them
    change and others do not. */
module YamlPicture {
  import opened YamlCopy
  import opened YamlShape
  import opened YamlEdit

  // ---- pictures ------------------------------------------------------------------------------------------

  /** The fields of a node at some moment. */
  datatype Cell = Cell(notes: string, kind: int, tag: string, text: string, alias: Node?, content: seq<Node?>)

  type Picture = map<Node, Cell>

  ghost function Taken(world: set<Node>): Picture
    reads world
  {
    map n | n in world :: Cell(n.notes, n.kind, n.tag, n.value, n.alias, n.content)
  }

  ghost predicate Leads(c: Cell, k: Node) {
    c.alias == k || exists i :: 0 <= i < |c.content| && c.content[i] == k
  }

  /** Every pointer leads to a node of the picture. */
  ghost predicate Whole(p: Picture) {
    forall n | n in p ::
      (p[n].alias != null ==> p[n].alias in p) &&
      forall i | 0 <= i < |p[n].content| && p[n].content[i] != null :: p[n].content[i] in p
  }

  /** `Unfold`, in a picture. */
  ghost function Look(p: Picture, n: Node?, depth: nat): Tree
    requires Whole(p) && (n != null ==> n in p)
    decreases depth, 0
  {
    if n == null then Absent
    else if depth == 0 then Cut
    else
      var c := p[n];
      Seen(c.notes, c.kind, c.tag, c.text, Look(p, c.alias, depth - 1), LookAll(p, c.content, depth - 1))
  }

  ghost function LookAll(p: Picture, content: seq<Node?>, depth: nat): (r: seq<Tree>)
    requires Whole(p) && forall i | 0 <= i < |content| && content[i] != null :: content[i] in p
    decreases depth, |content| + 1
  {
    if content == [] then [] else [Look(p, content[0], depth)] + LookAll(p, content[1..], depth)
  }

  lemma {:induction false} LookedAt(p: Picture, content: seq<Node?>, depth: nat)
    requires Whole(p) && forall i | 0 <= i < |content| && content[i] != null :: content[i] in p
    ensures |LookAll(p, content, depth)| == |content|
    ensures forall i | 0 <= i < |content| :: LookAll(p, content, depth)[i] == Look(p, content[i], depth)
    decreases |content|
  {
    if content != [] {
      LookedAt(p, content[1..], depth);
    }
  }

  lemma TakenIsWhole(world: set<Node>)
    requires Closed(world)
    ensures Whole(Taken(world))
  {
  }

  lemma {:induction false} TakenLooksAlike(world: set<Node>, n: Node?, depth: nat)
    requires Closed(world) && (n != null ==> n in world)
    ensures Whole(Taken(world)) && Look(Taken(world), n, depth) == Unfold(world, n, depth)
    decreases depth, 0
  {
    TakenIsWhole(world);
    if n != null && depth > 0 {
      TakenLooksAlike(world, n.alias, depth - 1);
      ContentLooksAlike(world, n.content, depth - 1);
    }
  }

  lemma {:induction false} ContentLooksAlike(world: set<Node>, content: seq<Node?>, depth: nat)
    requires Closed(world) && forall i | 0 <= i < |content| && content[i] != null :: content[i] in world
    ensures Whole(Taken(world)) && LookAll(Taken(world), content, depth) == UnfoldAll(world, content, depth)
    decreases depth, |content| + 1
  {
    TakenIsWhole(world);
    if content != [] {
      TakenLooksAlike(world, content[0], depth);
      ContentLooksAlike(world, content[1..], depth);
    }
  }

  // ---- reading before and after ----------------------------------------------------------------------

  /** What a chain of `steps` pointers leads to from `n`, if it goes through none of `some`. */
  ghost function Through(p: Picture, some: set<Node>, n: Node, steps: nat): set<Node> {
    if steps == 0 then {n}
    else
      set m, k | m in p && m in Through(p, some, n, steps - 1) && m !in some && k in p && Leads(p[m], k) :: k
  }

  /** The first of `some` that the pointers lead to from `n`. */
  ghost function Met(p: Picture, some: set<Node>, n: Node): set<Node> {
    set k | k in some && exists steps: nat :: k in Through(p, some, n, steps)
  }

  /** A reader sees the same from `n` in both pictures, to every depth. */
  ghost predicate ReadsSame(was: Picture, now: Picture, n: Node)
    requires Whole(was) && Whole(now) && n in was && n in now
  {
    forall depth: nat :: Look(now, n, depth) == Look(was, n, depth)
  }

  /** Only nodes of `some` have changed, and new ones may have come. */
  ghost predicate Step(was: Picture, now: Picture, some: set<Node>) {
    && Whole(was) && Whole(now) && was.Keys <= now.Keys
    && forall m | m in was && m !in some :: now[m] == was[m]
  }

  /** From a node that has not changed one sees the same exactly when one does from all it points to. */
  lemma {:induction false} PointersDecide(was: Picture, now: Picture, some: set<Node>, n: Node, depth: nat)
    requires Step(was, now, some) && n in was && n !in some
    ensures forall k: Node | Leads(was[n], k) :: k in was && k in now
    ensures Look(now, n, depth + 1) == Look(was, n, depth + 1) <==>
            forall k: Node | Leads(was[n], k) :: Look(now, k, depth) == Look(was, k, depth)
  {
    var c := was[n];
    LookedAt(was, c.content, depth);
    LookedAt(now, c.content, depth);
    if Look(now, n, depth + 1) == Look(was, n, depth + 1) {
      forall k: Node | Leads(was[n], k) ensures Look(now, k, depth) == Look(was, k, depth) {
        if c.alias != k {
          var i :| 0 <= i < |c.content| && c.content[i] == k;
          assert LookAll(now, c.content, depth)[i] == LookAll(was, c.content, depth)[i];
        }
      }
    }
    if forall k: Node | Leads(was[n], k) :: Look(now, k, depth) == Look(was, k, depth) {
      assert c.alias != null ==> Leads(c, c.alias);
      forall i | 0 <= i < |c.content| ensures Look(now, c.content[i], depth) == Look(was, c.content[i], depth) {
        assert c.content[i] != null ==> Leads(c, c.content[i]);
      }
      assert LookAll(now, c.content, depth) == LookAll(was, c.content, depth);
    }
  }

  lemma {:induction false} ReadersGoThrough(was: Picture, now: Picture, some: set<Node>, n: Node, k: Node, steps: nat)
    requires Step(was, now, some) && n in was && k in Through(was, some, n, steps) && ReadsSame(was, now, n)
    ensures k in was && ReadsSame(was, now, k)
    decreases steps
  {
    if steps > 0 {
      var m :| m in was && m in Through(was, some, n, steps - 1) && m !in some && k in was && Leads(was[m], k);
      ReadersGoThrough(was, now, some, n, m, steps - 1);
      forall depth: nat ensures Look(now, k, depth) == Look(was, k, depth) {
        PointersDecide(was, now, some, m, depth);
      }
    }
  }

  lemma {:induction false} ReadsByWhatIsMet(was: Picture, now: Picture, some: set<Node>, n: Node, k: Node, steps: nat,
                                            depth: nat)
    requires Step(was, now, some) && n in was && k in was && k in Through(was, some, n, steps)
    requires forall t | t in was && t in Met(was, some, n) :: ReadsSame(was, now, t)
    ensures Look(now, k, depth) == Look(was, k, depth)
    decreases depth
  {
    hide Look, Through, Leads, Whole;
    if k in some {
      assert k in Met(was, some, n);
    } else if depth > 0 {
      PointersDecide(was, now, some, k, depth - 1);
      forall m: Node | Leads(was[k], m) ensures Look(now, m, depth - 1) == Look(was, m, depth - 1) {
        ThroughNext(was, some, n, k, m, steps);
        ReadsByWhatIsMet(was, now, some, n, m, steps + 1, depth - 1);
      }
    } else {
      NothingSeen(was, now, k);
    }
  }

  lemma ThroughNext(p: Picture, some: set<Node>, n: Node, k: Node, m: Node, steps: nat)
    requires k in p && k in Through(p, some, n, steps) && k !in some && m in p && Leads(p[k], m)
    ensures m in Through(p, some, n, steps + 1)
  {
  }

  lemma NothingSeen(was: Picture, now: Picture, k: Node)
    requires Whole(was) && Whole(now) && k in was && k in now
    ensures Look(now, k, 0) == Look(was, k, 0)
  {
  }

  /** A node reads as before exactly when the changed nodes do that its pointers lead to first. */
  lemma {:induction false} ReadsSameIff(was: Picture, now: Picture, some: set<Node>, n: Node)
    requires Step(was, now, some) && n in was
    ensures ReadsSame(was, now, n) <==> forall t | t in was && t in Met(was, some, n) :: ReadsSame(was, now, t)
  {
    if ReadsSame(was, now, n) {
      forall t | t in was && t in Met(was, some, n) ensures ReadsSame(was, now, t) {
        var steps: nat :| t in Through(was, some, n, steps);
        ReadersGoThrough(was, now, some, n, t, steps);
      }
    }
    if forall t | t in was && t in Met(was, some, n) :: ReadsSame(was, now, t) {
      forall depth: nat ensures Look(now, n, depth) == Look(was, n, depth) {
        assert n in Through(was, some, n, 0);
        ReadsByWhatIsMet(was, now, some, n, n, 0, depth);
      }
    }
  }

  /** The picture shows this tree. */
  ghost predicate Shows(p: Picture, s: Shape)
    decreases s
  {
    && s.node in p && |p[s.node].content| == |s.kids|
    && p[s.node] == Cell(s.notes, s.kind, s.tag, s.text, s.alias, p[s.node].content)
    && forall i | 0 <= i < |s.kids| :: p[s.node].content[i] == s.kids[i].node && Shows(p, s.kids[i])
  }

  lemma {:induction false} TakenShows(s: Shape, world: set<Node>)
    requires Is(s) && Foot(s) <= world
    ensures Shows(Taken(world), s)
    decreases s
  {
    AllAreEach(s.kids);
    forall i | 0 <= i < |s.kids| ensures Shows(Taken(world), s.kids[i]) {
      FeetHold(s.kids, i);
      TakenShows(s.kids[i], world);
    }
  }
}
