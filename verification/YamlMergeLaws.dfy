/** What the merge keeps of the existing document, and what it adds. */
module YamlMergeLaws {
  import opened Wrappers
  import opened YamlTree
  import opened YamlMatch
  import opened YamlMerge

  // ---- the order of the keys -----------------------------------------------------------------------

  /** The key nodes, with what is noted beside them. */
  function Keys(entries: seq<Entry>): seq<Node> {
    if entries == [] then [] else [entries[0].name] + Keys(entries[1..])
  }

  lemma {:induction false} KeysAt(entries: seq<Entry>)
    ensures |Keys(entries)| == |entries|
    ensures forall i | 0 <= i < |entries| :: Keys(entries)[i] == entries[i].name
  {
    if entries != [] {
      KeysAt(entries[1..]);
    }
  }

  lemma Regroup<T>(a: seq<T>, b: seq<T>, c: seq<T>)
    ensures a + b + c == a + (b + c)
  {
  }

  lemma {:induction false} KeysOfSum(a: seq<Entry>, b: seq<Entry>)
    ensures Keys(a + b) == Keys(a) + Keys(b)
  {
    if a == [] {
      assert a + b == b;
    } else {
      KeysOfSum(a[1..], b);
      assert (a + b)[0] == a[0] && (a + b)[1..] == a[1..] + b;
      Regroup([a[0].name], Keys(a[1..]), Keys(b));
    }
  }

  /** Is this entry of the generated mapping appended to `entries`? */
  predicate IsAdded(entries: seq<Entry>, e: Entry, path: seq<string>) {
    At(entries, e.key) == None && !IsKnownDefault(path + [e.key], Prune(path + [e.key], e.value))
  }

  /** The generated keys the merge appends, in their own order. */
  function AddedKeys(entries: seq<Entry>, src: seq<Entry>, path: seq<string>): seq<Node> {
    if src == [] then []
    else
      var n := |src| - 1;
      AddedKeys(entries, src[..n], path) + if IsAdded(entries, src[n], path) then [src[n].name] else []
  }

  lemma MergeEntryKeys(entries: seq<Entry>, e: Entry, path: seq<string>, v: Verdicts)
    ensures Keys(MergeEntry(entries, e, path, v)) ==
            Keys(entries) + if IsAdded(entries, e, path) then [e.name] else []
  {
    var r := MergeEntry(entries, e, path, v);
    KeysAt(entries);
    KeysAt(r);
    if IsAdded(entries, e, path) {
      KeysOfSum(entries, [r[|entries|]]);
    }
  }

  /** The existing keys keep their order; the new ones follow in the generated order. */
  lemma {:induction false} KeysKeepTheirOrder(entries: seq<Entry>, src: seq<Entry>, path: seq<string>, v: Verdicts)
    requires UniqueKeys(src)
    ensures Keys(MergeEntries(entries, src, path, v)) == Keys(entries) + AddedKeys(entries, src, path)
    decreases src
  {
    if src != [] {
      var n := |src| - 1;
      var e, so := src[n], MergeEntries(entries, src[..n], path, v);
      MergeEntriesAt(entries, src[..n], path, v, e.key);
      AtAbsent(src[..n], e.key);
      assert IsAdded(so, e, path) == IsAdded(entries, e, path);
      var added := if IsAdded(entries, e, path) then [e.name] else [];
      assert AddedKeys(entries, src, path) == AddedKeys(entries, src[..n], path) + added;
      hide MergeEntry, Keys, IsAdded, At, AddedKeys;
      KeysKeepTheirOrder(entries, src[..n], path, v);
      MergeEntryKeys(so, e, path, Inner(v, n));
      Regroup(Keys(entries), AddedKeys(entries, src[..n], path), added);
    }
  }

  /** As far as the path leads in the generated tree, that tree has mappings and sequences where the path goes on
      by keys and by places. */
  predicate OpenAlong(src: Node, steps: seq<Step>)
    decreases |steps|
  {
    steps == [] ||
    match steps[0]
    case Key(k) => src.Mapping? && (At(src.entries, k).Some? ==> OpenAlong(At(src.entries, k).value, steps[1..]))
    case Index(i) => src.Sequence? && i < |src.items| && OpenAlong(src.items[i], steps[1..])
  }

  /** The elements of `was` in the order of the generated ones. */
  function TakenOver(was: Node, items: seq<Node>, v: Verdicts): (r: seq<Option<Node>>)
    ensures |r| == |items|
  {
    Reorder(if was.Sequence? then was.items else [], items, v.same)
  }

  /** The existing node that the node at a path of the result is, if it is an existing one: in sequences, the one
      the element there took over. */
  function OldAt(dst: Node, src: Node, v: Verdicts, steps: seq<Step>): Option<Node>
    decreases |steps|
  {
    if steps == [] then Some(dst)
    else match steps[0]
      case Key(k) =>
        if !dst.Mapping? || At(dst.entries, k).None? then None
        else if !src.Mapping? || At(src.entries, k).None? then Lookup(At(dst.entries, k).value, steps[1..])
        else OldAt(At(dst.entries, k).value, At(src.entries, k).value, InnerFor(src.entries, k, v), steps[1..])
      case Index(i) =>
        if !src.Sequence? || i >= |src.items| then None
        else
          match TakenOver(dst, src.items, v)[i]
          case None => None
          case Some(was) => OldAt(was, src.items[i], Inner(v, i), steps[1..])
  }

  /** Is a key kept that the path takes right below a sequence element? */
  predicate KeptBelow(src: Node, steps: seq<Step>) {
    steps != [] && steps[0].Key? && src.Mapping? ==>
      Trim(steps[0].key) != "" && HasKey(src.entries, Trim(steps[0].key))
  }

  /** No key of the path is one that a sequence element loses because the generated element lacks it. */
  predicate KeptAlong(src: Node, steps: seq<Step>)
    requires OpenAlong(src, steps)
    decreases |steps|
  {
    steps == [] ||
    match steps[0]
    case Key(k) => At(src.entries, k).Some? ==> KeptAlong(At(src.entries, k).value, steps[1..])
    case Index(i) => KeptBelow(src.items[i], steps[1..]) && KeptAlong(src.items[i], steps[1..])
  }

  lemma {:induction false} KeepKeysGone(entries: seq<Entry>, src: seq<Entry>, key: string)
    requires !(Trim(key) != "" && HasKey(src, Trim(key)))
    ensures At(KeepKeys(entries, src), key) == None
  {
    KeepKeysOnly(entries, src);
    AtAbsent(KeepKeys(entries, src), key);
  }

  lemma PrunedLookup(n: Node, src: Node, steps: seq<Step>)
    requires OpenAlong(src, steps) && steps != []
    ensures Lookup(PruneMissing(n, src), steps) == if KeptBelow(src, steps) then Lookup(n, steps) else None
  {
    if n.Mapping? && src.Mapping? {
      var k := steps[0].key;
      if KeptBelow(src, steps) {
        KeepKeysAt(n.entries, src.entries, k);
      } else {
        KeepKeysGone(n.entries, src.entries, k);
      }
    }
  }

  lemma {:induction false} KeepKeysOfSum(a: seq<Entry>, b: seq<Entry>, src: seq<Entry>)
    ensures KeepKeys(a + b, src) == KeepKeys(a, src) + KeepKeys(b, src)
  {
    if a == [] {
      assert a + b == b;
    } else {
      KeepKeysOfSum(a[1..], b, src);
      assert (a + b)[0] == a[0] && (a + b)[1..] == a[1..] + b;
      var first := if IsKept(a[0], src) then [a[0]] else [];
      assert KeepKeys(a + b, src) == first + KeepKeys((a + b)[1..], src);
      hide IsKept;
      Regroup(first, KeepKeys(a[1..], src), KeepKeys(b, src));
    }
  }

  lemma {:induction false} KeepKeysByKeys(a: seq<Entry>, b: seq<Entry>, src: seq<Entry>)
    requires Keys(a) == Keys(b)
    ensures Keys(KeepKeys(a, src)) == Keys(KeepKeys(b, src))
    decreases |a|
  {
    KeysAt(a);
    KeysAt(b);
    if a != [] {
      assert Keys(a)[0] == Keys(b)[0] && Keys(a)[1..] == Keys(a[1..]) && Keys(b)[1..] == Keys(b[1..]);
      KeepKeysByKeys(a[1..], b[1..], src);
      KeysOfSum(if IsKept(a[0], src) then [a[0]] else [], KeepKeys(a[1..], src));
      KeysOfSum(if IsKept(b[0], src) then [b[0]] else [], KeepKeys(b[1..], src));
    }
  }

  lemma KeepKeysKeepsFronts(a: seq<Entry>, b: seq<Entry>, src: seq<Entry>)
    requires Keys(a) <= Keys(b)
    ensures Keys(KeepKeys(a, src)) <= Keys(KeepKeys(b, src))
  {
    KeysAt(a);
    KeysAt(b);
    var front := b[..|a|];
    assert b == front + b[|a|..];
    KeysOfSum(front, b[|a|..]);
    KeysAt(front);
    KeepKeysByKeys(a, front, src);
    KeepKeysOfSum(front, b[|a|..], src);
    KeysOfSum(KeepKeys(front, src), KeepKeys(b[|a|..], src));
  }

  /** The old entries that count for the order: below a sequence, those whose keys stay. */
  function Counting(was: Node, given: Option<Node>, element: bool): seq<Entry>
    requires was.Mapping? && (given.None? || given.value.Mapping?)
  {
    if element && given.Some? then KeepKeys(was.entries, given.value.entries) else was.entries
  }

  /** What becomes of an existing node. It is still there unless it, or a node above it, stood under a key that a
      sequence element loses (`kept`); it keeps its comments; and a mapping that stays one keeps its tag and, first
      and in the same order, its keys with their comments (for a sequence element, the keys it does not lose). */
  predicate StaysAs(was: Node, given: Option<Node>, now: Option<Node>, kept: bool, element: bool) {
    && (now.Some? <==> kept)
    && (now.Some? ==> now.value.notes == was.notes)
    && (now.Some? && was.Mapping? && (given.None? || given.value.Mapping?) ==>
          && now.value.Mapping? && now.value.tag == was.tag
          && Keys(Counting(was, given, element)) <= Keys(now.value.entries))
  }

  predicate EndsAtPlace(steps: seq<Step>) {
    steps != [] && steps[|steps| - 1].Index?
  }

  /** Wherever the node at a path of the result is an existing one, it stays. */
  lemma {:induction false} ExistingNodesStay(dst: Node, src: Node, path: seq<string>, v: Verdicts, steps: seq<Step>)
    requires Unique(src) && OpenAlong(src, steps) && OldAt(dst, src, v, steps).Some?
    ensures StaysAs(OldAt(dst, src, v, steps).value, Lookup(src, steps), Lookup(MergeNode(dst, src, path, v), steps),
                    KeptAlong(src, steps), EndsAtPlace(steps))
    decreases |steps|, 1
  {
    if steps == [] {
      if dst.Mapping? && src.Mapping? {
        KeysKeepTheirOrder(dst.entries, src.entries, path, v);
      }
    } else {
      match steps[0]
      case Key(k) =>
        MergeEntriesAt(dst.entries, src.entries, path, v, k);
        if At(src.entries, k).Some? {
          ExistingNodesStay(At(dst.entries, k).value, At(src.entries, k).value, path + [k],
                            InnerFor(src.entries, k, v), steps[1..]);
          assert steps[1..] != [] ==> steps[|steps| - 1] == steps[1..][|steps| - 2];
        }
      case Index(i) =>
        ExistingElementsStay(dst, src, path, v, steps);
    }
  }

  /** What the law says at an element is what it says below the element, as far as the old side goes, */
  lemma OldAtElement(dst: Node, src: Node, v: Verdicts, steps: seq<Step>)
    requires steps != [] && steps[0].Index? && Unique(src) && OpenAlong(src, steps) && OldAt(dst, src, v, steps).Some?
    ensures var i, rest := steps[0].at, steps[1..];
      && i < |src.items| && TakenOver(dst, src.items, v)[i].Some?
      && var s, w := src.items[i], TakenOver(dst, src.items, v)[i].value;
      && Unique(s) && OpenAlong(s, rest) && OldAt(w, s, Inner(v, i), rest) == OldAt(dst, src, v, steps)
      && (rest == [] ==> OldAt(w, s, Inner(v, i), rest).value == w)
      && (rest != [] ==> steps[|steps| - 1] == rest[|rest| - 1])
  {
    hide StructEqual, IdOf;
  }

  /** and the new side. */
  lemma NewAtElement(dst: Node, src: Node, path: seq<string>, v: Verdicts, steps: seq<Step>)
    requires steps != [] && steps[0].Index? && OpenAlong(src, steps)
    requires TakenOver(dst, src.items, v)[steps[0].at].Some?
    ensures var i, rest := steps[0].at, steps[1..];
      var s, w := src.items[i], TakenOver(dst, src.items, v)[i].value;
      && Lookup(src, steps) == Lookup(s, rest)
      && Lookup(MergeNode(dst, src, path, v), steps) ==
         Lookup(PruneMissing(MergeNode(w, s, path, Inner(v, i)), s), rest)
      && KeptAlong(src, steps) == (KeptBelow(s, rest) && KeptAlong(s, rest))
  {
    MergeItemsAt(TakenOver(dst, src.items, v), src.items, path, v, steps[0].at);
  }

  lemma {:induction false} ExistingElementsStay(dst: Node, src: Node, path: seq<string>, v: Verdicts, steps: seq<Step>)
    requires steps != [] && steps[0].Index?
    requires Unique(src) && OpenAlong(src, steps) && OldAt(dst, src, v, steps).Some?
    ensures StaysAs(OldAt(dst, src, v, steps).value, Lookup(src, steps), Lookup(MergeNode(dst, src, path, v), steps),
                    KeptAlong(src, steps), EndsAtPlace(steps))
    decreases |steps|, 0
  {
    OldAtElement(dst, src, v, steps);
    NewAtElement(dst, src, path, v, steps);
    hide MergeNode, PruneMissing, OldAt, OpenAlong, StaysAs, Unique, Lookup, KeptAlong, TakenOver, KeptBelow;
    var i, rest := steps[0].at, steps[1..];
    var s, w := src.items[i], TakenOver(dst, src.items, v)[i].value;
    ExistingNodesStay(w, s, path, Inner(v, i), rest);
    ElementStays(MergeNode(w, s, path, Inner(v, i)), w, s, OldAt(w, s, Inner(v, i), rest).value, rest);
  }

  /** Dropping the keys an element loses: `m` is the old element `w` merged with the new one `s`. */
  lemma ElementStays(m: Node, w: Node, s: Node, was: Node, rest: seq<Step>)
    requires OpenAlong(s, rest) && (rest == [] ==> was == w)
    requires StaysAs(was, Lookup(s, rest), Lookup(m, rest), KeptAlong(s, rest), EndsAtPlace(rest))
    ensures StaysAs(was, Lookup(s, rest), Lookup(PruneMissing(m, s), rest), KeptBelow(s, rest) && KeptAlong(s, rest),
                    rest == [] || EndsAtPlace(rest))
  {
    if rest == [] {
      if w.Mapping? && s.Mapping? {
        KeepKeysKeepsFronts(w.entries, m.entries, s.entries);
      }
    } else {
      hide PruneMissing, KeptBelow;
      PrunedLookup(m, s, rest);
    }
  }

  // ---- the old values ------------------------------------------------------------------------------

  /** What the generated tree says nothing about stays as it was, node by node; an alias in it still is the same
      alias, and reads as whatever its anchor reads as now. */
  lemma {:induction false} UnmentionedStays(dst: Node, src: Node, path: seq<string>, v: Verdicts, steps: seq<Step>)
    requires Unique(src) && AllKeys(steps) && steps != []
    requires OpenAlong(src, steps) && Lookup(src, steps) == None && Lookup(dst, steps).Some?
    ensures Lookup(MergeNode(dst, src, path, v), steps) == Lookup(dst, steps)
    decreases |steps|
  {
    var k := steps[0].key;
    MergeEntriesAt(dst.entries, src.entries, path, v, k);
    if At(src.entries, k).Some? {
      assert steps[1..] != [];
      UnmentionedStays(At(dst.entries, k).value, At(src.entries, k).value, path + [k],
                       InnerFor(src.entries, k, v), steps[1..]);
    }
  }

  /** A value that already stands in the document is always updated, to a zero value or a default as well. */
  lemma {:induction false} ExistingIsUpdated(dst: Node, src: Node, path: seq<string>, v: Verdicts, steps: seq<Step>)
    requires Unique(src) && AllKeys(steps)
    requires Lookup(dst, steps).Some?
    requires Lookup(src, steps).Some? && Lookup(src, steps).value.Scalar?
    ensures SameScalar(Lookup(MergeNode(dst, src, path, v), steps), Lookup(src, steps))
    decreases |steps|
  {
    if steps != [] {
      var k := steps[0].key;
      MergeEntriesAt(dst.entries, src.entries, path, v, k);
      ExistingIsUpdated(At(dst.entries, k).value, At(src.entries, k).value, path + [k],
                        InnerFor(src.entries, k, v), steps[1..]);
    }
  }

  lemma {:induction false} PruneInventsNothing(path: seq<string>, n: Node, steps: seq<Step>)
    requires Unique(n)
    requires Lookup(Prune(path, n), steps).Some? && Lookup(Prune(path, n), steps).value.Scalar?
    ensures Lookup(n, steps) == Lookup(Prune(path, n), steps)
    decreases |steps|
  {
    if steps != [] {
      match steps[0]
      case Key(k) =>
        var i := FindKey(n.entries, k);
        if i < 0 {
          PrunedKeys(path, n.entries, k);
          AtAbsent(PruneEntries(path, n.entries), k);
          assert false;
        } else {
          PrunedAt(path, n.entries, i);
          PruneInventsNothing(path + [k], n.entries[i].value, steps[1..]);
        }
      case Index(i) =>
        PruneInventsNothing(path, n.items[i], steps[1..]);
    }
  }

  /** A tree taken for the old one and the new one alike has its own nodes as old ones. Elements that hold
      aliases may be found equal to each other, so along places of sequences this needs a tree without aliases. */
  lemma {:induction false} OldAtItself(n: Node, v: Verdicts, steps: seq<Step>)
    requires NoAliases(n) || AllKeys(steps)
    ensures OldAt(n, n, v, steps) == Lookup(n, steps)
    decreases |steps|
  {
    if steps != [] {
      match steps[0]
      case Key(k) =>
        if n.Mapping? && At(n.entries, k).Some? {
          OldAtItself(At(n.entries, k).value, InnerFor(n.entries, k, v), steps[1..]);
        }
      case Index(i) =>
        if n.Sequence? && i < |n.items| {
          TwinOfItself(n);
          AllMatchTwins(n.items, n.items, v.same);
          ReorderedByTwins(n.items, n.items, v.same, i);
          OldAtItself(n.items[i], Inner(v, i), steps[1..]);
        }
    }
  }

  /** Every scalar of the result stands at the same path in the generated tree, or is the existing one at its
      place and the generated tree has nothing there (an empty sequence, at most, where the document said null). */
  lemma {:induction false} NothingIsInvented(dst: Node, src: Node, path: seq<string>, v: Verdicts, steps: seq<Step>)
    requires Unique(src) && (NoAliases(src) || AllKeys(steps))
    requires var now := Lookup(MergeNode(dst, src, path, v), steps); now.Some? && now.value.Scalar?
    ensures var was, given := OldAt(dst, src, v, steps), Lookup(src, steps);
      var now := Lookup(MergeNode(dst, src, path, v), steps);
      || SameScalar(now, given)
      || (now == was && (given == None || (IsNull(was.value) && given.value.Sequence? && given.value.items == [])))
    decreases |steps|
  {
    if steps != [] {
      match steps[0]
      case Key(k) =>
        var base := if dst.Mapping? then dst.entries else src.entries;
        MergeEntriesAt(base, src.entries, path, v, k);
        var d, s, inner := At(base, k), At(src.entries, k), InnerFor(src.entries, k, v);
        if s.Some? && d.Some? {
          NothingIsInvented(d.value, s.value, path + [k], inner, steps[1..]);
          if !dst.Mapping? {
            OldAtItself(s.value, inner, steps[1..]);
          }
        } else if s.Some? {
          PruneInventsNothing(path + [k], s.value, steps[1..]);
        }
      case Index(i) =>
        NoElementIsInvented(dst, src, path, v, steps);
    }
  }

  lemma {:induction false} NoElementIsInvented(dst: Node, src: Node, path: seq<string>, v: Verdicts, steps: seq<Step>)
    requires steps != [] && steps[0].Index? && Unique(src) && NoAliases(src)
    requires var now := Lookup(MergeNode(dst, src, path, v), steps); now.Some? && now.value.Scalar?
    ensures var was, given := OldAt(dst, src, v, steps), Lookup(src, steps);
      var now := Lookup(MergeNode(dst, src, path, v), steps);
      || SameScalar(now, given)
      || (now == was && (given == None || (IsNull(was.value) && given.value.Sequence? && given.value.items == [])))
    decreases |steps|, 0
  {
    var i := steps[0].at;
    var ordered := TakenOver(dst, src.items, v);
    MergeItemsAt(ordered, src.items, path, v, i);
    if ordered[i].Some? {
      var m := MergeNode(ordered[i].value, src.items[i], path, Inner(v, i));
      FoundIsKept(m, src.items[i], steps[1..]);
      NothingIsInvented(ordered[i].value, src.items[i], path, Inner(v, i), steps[1..]);
    }
  }

  lemma FoundIsKept(n: Node, src: Node, steps: seq<Step>)
    requires var now := Lookup(PruneMissing(n, src), steps); now.Some? && now.value.Scalar?
    ensures Lookup(PruneMissing(n, src), steps) == Lookup(n, steps)
  {
    if n.Mapping? && src.Mapping? {
      var k := steps[0].key;
      if Trim(k) != "" && HasKey(src.entries, Trim(k)) {
        KeepKeysAt(n.entries, src.entries, k);
      } else {
        KeepKeysGone(n.entries, src.entries, k);
        assert false;
      }
    }
  }

  // ---- sequences -----------------------------------------------------------------------------------

  /** The merged sequence is as long as the generated one, and its mappings have no key that the generated
      element has not (but for surrounding blanks). */
  lemma ElementsHaveOnlyNewKeys(dst: Node, src: Node, path: seq<string>, v: Verdicts, i: nat)
    requires src.Sequence? && i < |src.items| && src.items[i].Mapping?
    ensures var now := MergeNode(dst, src, path, v);
      && now.Sequence? && |now.items| == |src.items| && now.items[i].Mapping?
      && forall j | 0 <= j < |now.items[i].entries| ::
            HasKey(src.items[i].entries, Trim(now.items[i].entries[j].key))
  {
    var ordered := TakenOver(dst, src.items, v);
    MergeItemsAt(ordered, src.items, path, v, i);
    if ordered[i].Some? {
      KeepKeysOnly(MergeNode(ordered[i].value, src.items[i], path, Inner(v, i)).entries, src.items[i].entries);
    }
  }

  /** An element with an identity of its own is merged into the old element of that identity, wherever it stood. */
  lemma ElementsMeetTheirTwins(dst: Node, src: Node, path: seq<string>, v: Verdicts, i: nat, k: nat)
    requires dst.Sequence? && src.Sequence? && i < |src.items| && k < |dst.items|
    requires forall j | 0 <= j < i :: PlainKeys(src.items[j])
    requires IdOf(src.items[i]) != NoId && IdOf(dst.items[k]) == IdOf(src.items[i])
    requires forall j | 0 <= j < |src.items| && j != i :: IdOf(src.items[j]) != IdOf(src.items[i])
    requires forall m | 0 <= m < |dst.items| && m != k :: IdOf(dst.items[m]) != IdOf(src.items[i])
    ensures MergeNode(dst, src, path, v).items[i] ==
            PruneMissing(MergeNode(dst.items[k], src.items[i], path, Inner(v, i)), src.items[i])
    ensures MergeNode(dst, src, path, v).items[i].notes == dst.items[k].notes
  {
    ReorderKeepsIdentity(dst.items, src.items, v.same, i, k);
    MergeItemsAt(TakenOver(dst, src.items, v), src.items, path, v, i);
  }

  // ---- merging a document that says the same -------------------------------------------------------

  /** Two trees that say the same, whatever is noted in them: scalars with the same tag and text, mappings with the
      same keys in the same order, sequences of the same length. */
  predicate Twins(a: Node, b: Node): (twins: bool)
    ensures twins ==> TextOf(a) == TextOf(b)
    decreases a
  {
    match (a, b)
    case (Scalar(_, tag, text), Scalar(_, tag', text')) => tag == tag' && text == text'
    case (Alias(_, name), Alias(_, name')) => name == name'
    case (Mapping(_, _, es), Mapping(_, _, fs)) =>
      |es| == |fs| && forall i | 0 <= i < |es| :: Twins(es[i].name, fs[i].name) && Twins(es[i].value, fs[i].value)
    case (Sequence(_, _, xs), Sequence(_, _, ys)) =>
      |xs| == |ys| && forall i | 0 <= i < |xs| :: Twins(xs[i], ys[i])
    case _ => false
  }

  predicate TwinEntries(es: seq<Entry>, fs: seq<Entry>) {
    |es| == |fs| && forall i | 0 <= i < |es| :: Twins(es[i].name, fs[i].name) && Twins(es[i].value, fs[i].value)
  }

  predicate TwinItems(xs: seq<Node>, ys: seq<Node>) {
    |xs| == |ys| && forall i | 0 <= i < |xs| :: Twins(xs[i], ys[i])
  }

  lemma {:induction false} TwinOfItself(n: Node)
    ensures Twins(n, n)
    decreases n
  {
    match n
    case Mapping(_, _, entries) =>
      forall i | 0 <= i < |entries|
        ensures Twins(entries[i].name, entries[i].name) && Twins(entries[i].value, entries[i].value)
      {
        TwinOfItself(entries[i].name);
        TwinOfItself(entries[i].value);
      }
    case Sequence(_, _, items) =>
      forall i | 0 <= i < |items| ensures Twins(items[i], items[i]) {
        TwinOfItself(items[i]);
      }
    case _ =>
  }

  lemma {:induction false} TwinScalars(es: seq<Entry>, fs: seq<Entry>, key: string)
    requires TwinEntries(es, fs)
    ensures MappingScalar(es, key) == MappingScalar(fs, key) && ByFirstScalar(es) == ByFirstScalar(fs)
  {
    if es != [] {
      TwinScalars(es[1..], fs[1..], key);
    }
  }

  lemma {:induction false} TwinIdentity(es: seq<Entry>, fs: seq<Entry>, keys: seq<string>)
    requires TwinEntries(es, fs)
    ensures ByIdentityKey(es, keys) == ByIdentityKey(fs, keys)
  {
    if keys != [] {
      TwinScalars(es, fs, keys[0]);
      TwinIdentity(es, fs, keys[1..]);
    }
  }

  lemma TwinsSameId(a: Node, b: Node)
    requires Twins(a, b)
    ensures IdOf(a) == IdOf(b)
  {
    if a.Mapping? {
      TwinIdentity(a.entries, b.entries, IDENTITY_KEYS);
      TwinScalars(a.entries, b.entries, "");
    }
  }

  lemma {:induction false} TwinsEqual(a: Node, b: Node)
    requires Twins(a, b) && NoAliases(b)
    ensures StructEqual(a, b, false)
    decreases a
  {
    match (a, b)
    case (Mapping(_, _, es), Mapping(_, _, fs)) =>
      forall i | 0 <= i < |es|
        ensures StructEqual(es[i].name, fs[i].name, false) && StructEqual(es[i].value, fs[i].value, false)
      {
        TwinsEqual(es[i].name, fs[i].name);
        TwinsEqual(es[i].value, fs[i].value);
      }
    case (Sequence(_, _, xs), Sequence(_, _, ys)) =>
      forall i | 0 <= i < |xs| ensures StructEqual(xs[i], ys[i], false) {
        TwinsEqual(xs[i], ys[i]);
      }
    case _ =>
  }

  /** Every element is found equal to its twin, by its tree or, where it holds aliases, by the verdict. */
  predicate MatchTwins(items: seq<Node>, src: seq<Node>, same: set<(nat, nat)>) {
    TwinItems(items, src) && forall i: nat | i < |items| :: Matches(ByStructure, items[i], src[i], (i, i) in same)
  }

  /** So it is all the way down. */
  predicate KnowTwins(a: Node, b: Node, v: Verdicts)
    requires Twins(a, b)
    decreases b
  {
    match b
    case Mapping(_, _, entries) =>
      forall i | 0 <= i < |entries| :: KnowTwins(a.entries[i].value, entries[i].value, Inner(v, i))
    case Sequence(_, _, items) =>
      MatchTwins(a.items, items, v.same) && forall i | 0 <= i < |items| :: KnowTwins(a.items[i], items[i], Inner(v, i))
    case _ => true
  }

  lemma AllMatchTwins(items: seq<Node>, src: seq<Node>, same: set<(nat, nat)>)
    requires TwinItems(items, src) && forall i | 0 <= i < |src| :: NoAliases(src[i])
    ensures MatchTwins(items, src, same)
  {
    forall i: nat | i < |items| ensures Matches(ByStructure, items[i], src[i], (i, i) in same) {
      TwinsEqual(items[i], src[i]);
    }
  }

  /** Trees without aliases need no verdicts to know their twins. */
  lemma {:induction false} TreesKnowTheirTwins(a: Node, b: Node, v: Verdicts)
    requires Twins(a, b) && NoAliases(b)
    ensures KnowTwins(a, b, v)
    decreases b
  {
    match b
    case Mapping(_, _, entries) =>
      forall i | 0 <= i < |entries| ensures KnowTwins(a.entries[i].value, entries[i].value, Inner(v, i)) {
        TreesKnowTheirTwins(a.entries[i].value, entries[i].value, Inner(v, i));
      }
    case Sequence(_, _, items) =>
      AllMatchTwins(a.items, items, v.same);
      forall i | 0 <= i < |items| ensures KnowTwins(a.items[i], items[i], Inner(v, i)) {
        TreesKnowTheirTwins(a.items[i], items[i], Inner(v, i));
      }
    case _ =>
  }

  function UsedUpTo(count: nat, total: nat): seq<bool> {
    seq(total, i => i < count)
  }

  lemma MatchTwin(items: seq<Node>, src: seq<Node>, same: set<(nat, nat)>, i: nat)
    requires i < |items| && MatchTwins(items, src, same)
    ensures Match(items, UsedUpTo(i, |items|), src, same, i) == i
  {
    var used := UsedUpTo(i, |items|);
    assert Matches(ByStructure, items[i], src[i], (i, i) in same);
    TwinsSameId(items[i], src[i]);
    hide IdOf, StructEqual, MatchTwins, Twins;
    assert Free(ByStructure, items, used, src, same, i, i);
    assert IdOf(src[i]) != NoId ==> Free(ById, items, used, src, same, i, i);
  }

  /** A sequence matched with its twin stays in place. */
  lemma {:induction false} SlotsOfTwins(items: seq<Node>, src: seq<Node>, same: set<(nat, nat)>, from: nat, i: nat)
    requires from <= i < |items| == |src| && MatchTwins(items, src, same)
    ensures Slots(items, UsedUpTo(from, |items|), src, same, from)[i - from] == i
    decreases i - from
  {
    var used := UsedUpTo(from, |items|);
    MatchTwin(items, src, same, from);
    hide Match, MatchTwins;
    if from < i {
      assert Using(used, from) == UsedUpTo(from + 1, |items|);
      SlotsOfTwins(items, src, same, from + 1, i);
    }
  }

  lemma TwinsStayInPlace(items: seq<Node>, src: seq<Node>, same: set<(nat, nat)>, i: nat)
    requires i < |items| == |src| && MatchTwins(items, src, same)
    ensures Slots(items, Unused(|items|), src, same, 0)[i] == i
  {
    SlotsOfTwins(items, src, same, 0, i);
    assert UsedUpTo(0, |items|) == Unused(|items|);
  }

  lemma ReorderedByTwins(items: seq<Node>, src: seq<Node>, same: set<(nat, nat)>, i: nat)
    requires i < |items| == |src| && MatchTwins(items, src, same)
    ensures Reorder(items, src, same)[i] == Some(items[i])
  {
    TwinsStayInPlace(items, src, same, i);
  }

  lemma {:induction false} KeepAllKeys(entries: seq<Entry>, src: seq<Entry>)
    requires forall i | 0 <= i < |entries| :: IsKept(entries[i], src)
    ensures KeepKeys(entries, src) == entries
  {
    if entries != [] {
      KeepAllKeys(entries[1..], src);
    }
  }

  /** Merging a document that says the same changes nothing, its comments included. */
  lemma {:induction false} MergingWithTwin(n: Node, s: Node, path: seq<string>, v: Verdicts)
    requires Twins(n, s) && Unique(s) && NonBlank(s) && KnowTwins(n, s, v)
    ensures MergeNode(n, s, path, v) == n
    decreases s, 1
  {
    match s
    case Mapping(_, _, entries) =>
      MergingEntriesWithTwins(n, s, |entries|, path, v);
      assert entries[..|entries|] == entries;
    case Sequence(_, _, items) =>
      var r := MergeItems(Reorder(n.items, items, v.same), items, path, v);
      forall i | 0 <= i < |items|
        ensures r[i] == n.items[i]
      {
        ReorderedByTwins(n.items, items, v.same, i);
        MergeItemsAt(Reorder(n.items, items, v.same), items, path, v, i);
        MergingWithTwin(n.items[i], items[i], path, Inner(v, i));
        PruningByTwin(n.items[i], items[i]);
      }
      assert r == n.items;
    case _ =>
  }

  lemma PruningByTwin(n: Node, s: Node)
    requires Twins(n, s) && NonBlank(s)
    ensures PruneMissing(n, s) == n
  {
    if n.Mapping? {
      forall j | 0 <= j < |n.entries| ensures IsKept(n.entries[j], s.entries) {
        assert Trim(s.entries[j].key) == Trim(n.entries[j].key);
      }
      KeepAllKeys(n.entries, s.entries);
    }
  }

  lemma TwinKeysDiffer(es: seq<Entry>, fs: seq<Entry>, i: nat)
    requires TwinEntries(es, fs) && UniqueKeys(fs) && i < |es|
    ensures es[i].key == fs[i].key && FindKey(es, fs[i].key) == i
  {
    hide Twins;
    forall j | 0 <= j <= i ensures es[j].key == fs[j].key {
    }
    AtFirst(es, i);
  }

  /** What the law needs to know of the `i`-th entries of two mappings. */
  lemma TwinEntry(n: Node, s: Node, v: Verdicts, i: nat)
    requires Twins(n, s) && s.Mapping? && Unique(s) && NonBlank(s) && KnowTwins(n, s, v) && i < |s.entries|
    ensures n.Mapping? && |n.entries| == |s.entries| && FindKey(n.entries, s.entries[i].key) == i
    ensures var e, f := n.entries[i], s.entries[i];
      Twins(e.value, f.value) && Unique(f.value) && NonBlank(f.value) && KnowTwins(e.value, f.value, Inner(v, i))
  {
    TwinKeysDiffer(n.entries, s.entries, i);
  }

  lemma MergingStays(entries: seq<Entry>, f: Entry, path: seq<string>, v: Verdicts, i: nat)
    requires i < |entries| && FindKey(entries, f.key) == i
    requires MergeNode(entries[i].value, f.value, path + [f.key], v) == entries[i].value
    ensures MergeEntry(entries, f, path, v) == entries
  {
    hide FindKey, MergeNode;
    assert entries[i].(value := entries[i].value) == entries[i];
  }

  lemma EntriesStep(entries: seq<Entry>, src: seq<Entry>, count: nat, path: seq<string>, v: Verdicts)
    requires 0 < count <= |src|
    ensures MergeEntries(entries, src[..count], path, v) ==
            MergeEntry(MergeEntries(entries, src[..count - 1], path, v), src[count - 1], path, Inner(v, count - 1))
  {
    hide MergeEntry;
    assert src[..count][..count - 1] == src[..count - 1];
  }

  lemma {:induction false} MergingEntriesWithTwins(n: Node, s: Node, count: nat, path: seq<string>, v: Verdicts)
    requires Twins(n, s) && s.Mapping? && Unique(s) && NonBlank(s) && KnowTwins(n, s, v) && count <= |s.entries|
    ensures n.Mapping? && MergeEntries(n.entries, s.entries[..count], path, v) == n.entries
    decreases s, 0, count
  {
    if count > 0 {
      hide *;
      TwinEntry(n, s, v, count - 1);
      var e, f := n.entries[count - 1], s.entries[count - 1];
      MergingWithTwin(e.value, f.value, path + [f.key], Inner(v, count - 1));
      MergingEntriesWithTwins(n, s, count - 1, path, v);
      EntriesStep(n.entries, s.entries, count, path, v);
      MergingStays(n.entries, f, path, Inner(v, count - 1), count - 1);
    }
  }

  // ---- where the promises end ------------------------------------------------------------------------

  function Text(s: string): Node {
    Scalar("", "!!str", s)
  }

  const TWICE := Mapping("", "!!map", [Entry(Text("a"), Text("x")), Entry(Text("a"), Text("y"))])

  /** Of several values under one generated key the last decides, as soon as the mapping has the key when it comes. */
  lemma {:induction false} LastDuplicateWins(entries: seq<Entry>, src: seq<Entry>, path: seq<string>, v: Verdicts,
                                             n: nat)
    requires n < |src| && src[n].value.Scalar? && forall j | n < j < |src| :: src[j].key != src[n].key
    requires At(MergeEntries(entries, src[..n], path, v), src[n].key).Some?
    ensures SameScalar(At(MergeEntries(entries, src, path, v), src[n].key), Some(src[n].value))
    decreases |src|
  {
    var last := |src| - 1;
    MergeEntryAt(MergeEntries(entries, src[..last], path, v), src[last], path, Inner(v, last), src[n].key);
    if n < last {
      assert src[..last][..n] == src[..n];
      LastDuplicateWins(entries, src[..last], path, v, n);
    }
  }

  /** With a key twice in the generated mapping, the first value is lost. */
  lemma DuplicateKeysLoseTheFirst()
    ensures NonBlank(TWICE) && Lookup(TWICE, [Key("a")]) == Some(Text("x")) && Telling(["a"], Text("x"))
    ensures forall v :: Lookup(MergeNode(Mapping("", "!!map", []), TWICE, [], v), [Key("a")]) == Some(Text("y"))
  {
    var a, b := Entry(Text("a"), Text("x")), Entry(Text("a"), Text("y"));
    assert TrimLeft("a") == "a" == Trim("a");
    AtFirst(TWICE.entries, 0);
    var steps := [Key("a")];
    assert steps[1..] == [];
    forall v ensures Lookup(MergeNode(Mapping("", "!!map", []), TWICE, [], v), [Key("a")]) == Some(Text("y")) {
      assert TWICE.entries[..1] == [a] && TWICE.entries[1] == b && [a][..0] == [];
      var one := MergeEntry([], a, [], Inner(v, 0));
      assert one == [a] by {
        assert [] + ["a"] == ["a"];
        assert !IsKnownDefault(["a"], Text("x"));
      }
      assert MergeEntries([], [a], [], v) == one;
      assert MergeEntry(one, b, [], Inner(v, 1)) == [b];
      assert MergeEntries([], TWICE.entries, [], v) == [b];
    }
  }

  /** A blank key in a sequence element is dropped when the element is merged into an old one. */
  lemma BlankKeysAreDropped(n: Node, src: Node, i: nat)
    requires n.Mapping? && src.Mapping? && i < |src.entries| && Trim(src.entries[i].key) == ""
    ensures At(PruneMissing(n, src).entries, src.entries[i].key) == None
  {
    KeepKeysOnly(n.entries, src.entries);
    AtAbsent(KeepKeys(n.entries, src.entries), src.entries[i].key);
  }

  // ---- a sequence that moves and reads the same --------------------------------------------------------

  const NO_A := Mapping("", "!!map", [Entry(Text("a"), Text("")), Entry(Text("b"), Text("2"))])
  const A_ONE := Mapping("", "!!map", [Entry(Text("a"), Text("1")), Entry(Text("b"), Text("2"))])
  const ONE_LAST := Mapping("", "!!map", [Entry(Text("b"), Text("2")), Entry(Text("a"), Text("1"))])
  const OLD_LIST := Sequence("", "!!seq", [A_ONE, NO_A])
  const NEW_LIST := Sequence("", "!!seq", [ONE_LAST, NO_A])

  lemma {:induction false} TrimIsShorter(s: string)
    ensures |TrimLeft(s)| <= |s| && |TrimRight(s)| <= |s|
  {
    if s != "" {
      TrimIsShorter(s[1..]);
      TrimIsShorter(s[..|s| - 1]);
    }
  }

  lemma {:induction false} NoLongKey(entries: seq<Entry>, key: string)
    requires |key| > 1 && forall i | 0 <= i < |entries| :: |entries[i].key| == 1
    ensures MappingScalar(entries, key) == ""
  {
    if entries != [] {
      TrimIsShorter(entries[0].key);
      TrimIsShorter(TrimLeft(entries[0].key));
      NoLongKey(entries[1..], key);
    }
  }

  lemma {:induction false} NoIdentityKey(entries: seq<Entry>, keys: seq<string>)
    requires forall i | 0 <= i < |entries| :: |entries[i].key| == 1
    requires forall i | 0 <= i < |keys| :: |keys[i]| > 1
    ensures ByIdentityKey(entries, keys) == ""
  {
    if keys != [] {
      NoLongKey(entries, keys[0]);
      NoIdentityKey(entries, keys[1..]);
    }
  }

  lemma FirstScalarIdentifies(entries: seq<Entry>)
    requires forall i | 0 <= i < |entries| :: |entries[i].key| == 1
    ensures Identity(entries) == ByFirstScalar(entries)
  {
    NoIdentityKey(entries, IDENTITY_KEYS);
  }

  lemma TrimmedChar(c: char)
    requires !IsSpace(c)
    ensures Trim([c]) == [c] && Trim("") == ""
  {
  }

  lemma PairIdentity(n: Node)
    requires n.Mapping? && |n.entries| == 2 && forall i | 0 <= i < 2 ::
             |n.entries[i].key| == 1 && n.entries[i].value.Scalar?
    ensures var a, b := n.entries[0], n.entries[1];
      && (Trim(a.value.text) != "" ==> Identity(n.entries) == Lower(Trim(a.key)) + "=" + Trim(a.value.text))
      && (Trim(a.value.text) == "" && Trim(b.value.text) != "" ==>
            Identity(n.entries) == Lower(Trim(b.key)) + "=" + Trim(b.value.text))
  {
    hide Trim, Lower;
    FirstScalarIdentifies(n.entries);
    assert n.entries[1..] == [n.entries[1]];
  }

  lemma PairIdentified(n: Node, k: char, c: char)
    requires n.Mapping? && |n.entries| == 2 && forall i | 0 <= i < 2 ::
             |n.entries[i].key| == 1 && n.entries[i].value.Scalar?
    requires 'a' <= k <= 'z' && !IsSpace(c)
    requires
      || (n.entries[0].key == [k] && n.entries[0].value.text == [c])
      || (n.entries[0].value.text == "" && n.entries[1].key == [k] && n.entries[1].value.text == [c])
    ensures IdOf(n) == MappingId([k, '=', c])
  {
    PairIdentity(n);
    TrimmedChar(k);
    TrimmedChar(c);
    assert Lower([k]) == [k];
    hide Trim, Lower, Identity;
    assert [k] + "=" + [c] == [k, '=', c];
  }

  lemma IdentitiesAre()
    ensures IdOf(A_ONE) == MappingId(['a', '=', '1'])
    ensures IdOf(NO_A) == IdOf(ONE_LAST) == MappingId(['b', '=', '2'])
  {
    hide IdOf, Identity, Trim, Lower;
    PairIdentified(A_ONE, 'a', '1');
    PairIdentified(NO_A, 'b', '2');
    PairIdentified(ONE_LAST, 'b', '2');
  }

  lemma IdentitiesDiffer()
    ensures IdOf(A_ONE) != IdOf(ONE_LAST) && IdOf(NO_A) == IdOf(ONE_LAST) != NoId
  {
    IdentitiesAre();
    hide *;
    assert ['a', '=', '1'][0] != ['b', '=', '2'][0];
  }

  const BY_X := Mapping("", "!!map", [Entry(Alias("", "x"), Text("1")), Entry(Text("b"), Text("2"))])
  const BY_Y := Mapping("", "!!map", [Entry(Alias("", "y"), Text("1")), Entry(Text("b"), Text("2"))])

  /** With aliases as keys, structurally equal elements need not be recognised by the same thing. */
  lemma AliasKeysMisidentify()
    ensures StructEqual(BY_X, BY_Y, true) && IdOf(BY_X) != IdOf(BY_Y)
  {
    hide IdOf, Identity, Trim, Lower;
    PairIdentified(BY_X, 'x', '1');
    PairIdentified(BY_Y, 'y', '1');
    assert ['x', '=', '1'][0] != ['y', '=', '1'][0];
  }

  lemma OneIsNotBlank()
    ensures !StructEqual(A_ONE, NO_A, true) && !StructEqual(A_ONE, NO_A, false)
  {
    TrimmedChar('1');
    hide Trim;
    assert !StructEqual(A_ONE.entries[0].value, NO_A.entries[0].value, true);
    assert !StructEqual(A_ONE.entries[0].value, NO_A.entries[0].value, false);
  }

  lemma ListsMerged(path: seq<string>, v: Verdicts)
    ensures MergeNode(OLD_LIST, NEW_LIST, path, v).Sequence?
    ensures MergeNode(OLD_LIST, NEW_LIST, path, v) ==
            OLD_LIST.(items := MergeItems(Reorder(OLD_LIST.items, NEW_LIST.items, v.same), NEW_LIST.items, path, v))
  {
    hide MergeItems, Reorder;
  }

  lemma ListsReordered(same: set<(nat, nat)>)
    ensures Reorder(OLD_LIST.items, NEW_LIST.items, same) == [Some(NO_A), None]
  {
    TheSlotsAre(same);
    hide Slots;
  }

  lemma NoAliasThere()
    ensures NoAliases(NEW_LIST)
  {
    assert NoAliases(ONE_LAST) && NoAliases(NO_A);
  }

  /** The first generated element takes over the second old one, because both are recognised by `b`; merged, it reads
      as the first old one did. The second is a new copy, and the whole list reads as before. */
  lemma MovedYetTheSame(path: seq<string>, v: Verdicts)
    ensures NoAliases(NEW_LIST)
    ensures Slots(OLD_LIST.items, Unused(2), NEW_LIST.items, v.same, 0) == [1, -1]
    ensures MergeNode(OLD_LIST, NEW_LIST, path, v) == OLD_LIST
  {
    NoAliasThere();
    TheSlotsAre(v.same);
    MergedFirst(path, Inner(v, 0));
    ListsReordered(v.same);
    ListsMerged(path, v);
    hide *;
    var ordered := Reorder(OLD_LIST.items, NEW_LIST.items, v.same);
    MergeItemsAt(ordered, NEW_LIST.items, path, v, 0);
    MergeItemsAt(ordered, NEW_LIST.items, path, v, 1);
    assert MergeItems(ordered, NEW_LIST.items, path, v) == OLD_LIST.items;
  }

  /** The element recognised by `b` takes over the old one recognised by it, the second. */
  lemma FirstSlotIs(same: set<(nat, nat)>)
    ensures Match(OLD_LIST.items, Unused(2), NEW_LIST.items, same, 0) == 1
  {
    IdentitiesDiffer();
    hide IdOf, StructEqual;
    assert !Free(ById, OLD_LIST.items, Unused(2), NEW_LIST.items, same, 0, 0);
    assert Free(ById, OLD_LIST.items, Unused(2), NEW_LIST.items, same, 0, 1);
  }

  /** What is left over is recognised by `a`, so the second generated element has none to take over. */
  lemma SecondSlotIs(same: set<(nat, nat)>)
    ensures Match(OLD_LIST.items, Using(Unused(2), 1), NEW_LIST.items, same, 1) == -1
  {
    IdentitiesDiffer();
    OneIsNotBlank();
    hide IdOf, StructEqual;
    forall manner, k | 0 <= k < 2
      ensures !Free(manner, OLD_LIST.items, Using(Unused(2), 1), NEW_LIST.items, same, 1, k)
    {
    }
  }

  lemma TheSlotsAre(same: set<(nat, nat)>)
    ensures Slots(OLD_LIST.items, Unused(2), NEW_LIST.items, same, 0) == [1, -1]
  {
    FirstSlotIs(same);
    SecondSlotIs(same);
    hide Match;
    var used := Using(Unused(2), 1);
    assert Slots(OLD_LIST.items, Using(used, -1), NEW_LIST.items, same, 2) == [];
    assert Slots(OLD_LIST.items, used, NEW_LIST.items, same, 1) == [-1];
  }

  lemma MergedFirst(path: seq<string>, v: Verdicts)
    ensures PruneMissing(MergeNode(NO_A, ONE_LAST, path, v), ONE_LAST) == A_ONE
  {
    var b, a := ONE_LAST.entries[0], ONE_LAST.entries[1];
    assert ONE_LAST.entries[..1] == [b] && [b][..0] == [] && ONE_LAST.entries[..2] == ONE_LAST.entries;
    AtFirst(NO_A.entries, 0);
    AtFirst(NO_A.entries, 1);
    assert MergeEntries(NO_A.entries, [], path, v) == NO_A.entries;
    assert MergeEntries(NO_A.entries, [b], path, v) == NO_A.entries;
    assert MergeEntries(NO_A.entries, ONE_LAST.entries, path, v) == A_ONE.entries;
    assert Trim("a") == "a" && Trim("b") == "b";
    assert Trim(b.key) == "b" && Trim(a.key) == "a";
    KeepAllKeys(A_ONE.entries, ONE_LAST.entries);
  }

  // ---- the verdicts ----------------------------------------------------------------------------------

  /** Without aliases in the generated tree, which is how the program renders it, the merge is a function of the two
      trees alone. */
  lemma {:induction false} MergeIgnoresVerdicts(dst: Node, src: Node, path: seq<string>, v: Verdicts, v': Verdicts)
    requires NoAliases(src)
    ensures MergeNode(dst, src, path, v) == MergeNode(dst, src, path, v')
    decreases src, 1
  {
    match src
    case Mapping(_, _, entries) =>
      EntriesIgnoreVerdicts(if dst.Mapping? then dst.entries else entries, src, |entries|, path, v, v');
      assert entries[..|entries|] == entries;
    case Sequence(_, _, items) =>
      var was := if dst.Sequence? then dst.items else [];
      VerdictsDoNotMatter(was, Unused(|was|), items, v.same, v'.same, 0);
      assert Reorder(was, items, v.same) == Reorder(was, items, v'.same);
      ItemsIgnoreVerdicts(Reorder(was, items, v.same), src, path, v, v');
    case _ =>
  }

  lemma {:induction false} EntriesIgnoreVerdicts(entries: seq<Entry>, src: Node, count: nat, path: seq<string>,
                                                 v: Verdicts, v': Verdicts)
    requires src.Mapping? && NoAliases(src) && count <= |src.entries|
    ensures MergeEntries(entries, src.entries[..count], path, v) ==
            MergeEntries(entries, src.entries[..count], path, v')
    decreases src, 0, count
  {
    if count > 0 {
      var n := count - 1;
      var e, so := src.entries[n], MergeEntries(entries, src.entries[..n], path, v);
      assert src.entries[..count][..n] == src.entries[..n];
      EntriesIgnoreVerdicts(entries, src, n, path, v, v');
      var i := FindKey(so, e.key);
      if i >= 0 {
        MergeIgnoresVerdicts(so[i].value, e.value, path + [e.key], Inner(v, n), Inner(v', n));
      }
    }
  }

  lemma {:induction false} ItemsIgnoreVerdicts(ordered: seq<Option<Node>>, src: Node, path: seq<string>, v: Verdicts,
                                               v': Verdicts)
    requires src.Sequence? && NoAliases(src) && |ordered| == |src.items|
    ensures MergeItems(ordered, src.items, path, v) == MergeItems(ordered, src.items, path, v')
    decreases src, 0
  {
    forall i | 0 <= i < |src.items|
      ensures MergeItems(ordered, src.items, path, v)[i] == MergeItems(ordered, src.items, path, v')[i]
    {
      MergeItemsAt(ordered, src.items, path, v, i);
      MergeItemsAt(ordered, src.items, path, v', i);
      if ordered[i].Some? {
        MergeIgnoresVerdicts(ordered[i].value, src.items[i], path, Inner(v, i), Inner(v', i));
      }
    }
  }
}
