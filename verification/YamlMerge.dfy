/** The comment-preserving merge of a generated document into an existing one
    (internal/config/config_yaml.go, `mergeMappingPreserve`, `mergeNodePreserve`), on values. */
module YamlMerge {
  import opened Wrappers
  import opened YamlTree
  import opened YamlMatch

  // ---- the merge -----------------------------------------------------------------------------------

  // `v` holds the verdicts on pairs of elements that their trees leave undecided; see `YamlMatch.Verdicts`.

  /** One key of the generated mapping: merge into the existing value, or append the pruned new one. */
  function MergeEntry(entries: seq<Entry>, e: Entry, path: seq<string>, v: Verdicts): seq<Entry>
    decreases e, 0
  {
    var i := FindKey(entries, e.key);
    var here := path + [e.key];
    if i >= 0 then
      entries[i := entries[i].(value := MergeNode(entries[i].value, e.value, here, v))]
    else
      var candidate := Prune(here, e.value);
      if IsKnownDefault(here, candidate) then entries else entries + [e.(value := candidate)]
  }

  /** The keys of the generated mapping, first to last. */
  function MergeEntries(entries: seq<Entry>, src: seq<Entry>, path: seq<string>, v: Verdicts): seq<Entry>
    decreases src
  {
    if src == [] then entries
    else
      var n := |src| - 1;
      MergeEntry(MergeEntries(entries, src[..n], path, v), src[n], path, Inner(v, n))
  }

  predicate IsNull(n: Node) {
    n.Scalar? && n.tag == "!!null"
  }

  /** `mergeNodePreserve` */
  function MergeNode(dst: Node, src: Node, path: seq<string>, v: Verdicts): Node
    decreases src, 1
  {
    match src
    case Mapping(_, _, _) =>
      var base := if dst.Mapping? then dst else src;
      Mapping(dst.notes, base.tag, MergeEntries(base.entries, src.entries, path, v))
    case Sequence(_, _, items) =>
      if IsNull(dst) && items == [] then dst
      else
        var was := if dst.Sequence? then dst.items else [];
        Sequence(dst.notes, if dst.Sequence? then dst.tag else "!!seq",
                 MergeItems(Reorder(was, items, v.same), items, path, v))
    case Scalar(_, tag, text) => Scalar(dst.notes, tag, text)
    case Alias(_, name) => Alias(dst.notes, name)
  }

  /** The elements, each merged into the old element it took over. */
  function MergeItems(ordered: seq<Option<Node>>, src: seq<Node>, path: seq<string>, v: Verdicts): (r: seq<Node>)
    requires |ordered| == |src|
    ensures |r| == |src|
    decreases src, 0
  {
    if src == [] then []
    else
      var n := |src| - 1;
      MergeItems(ordered[..n], src[..n], path, v)
      + [match ordered[n]
         case None => src[n]
         case Some(was) => PruneMissing(MergeNode(was, src[n], path, Inner(v, n)), src[n])]
  }

  /** `mergeMappingPreserve` at the root of the documents. */
  function MergeRoot(dst: Node, src: Node, v: Verdicts): Node {
    if dst.Mapping? && src.Mapping? then
      Mapping(dst.notes, dst.tag, MergeEntries(dst.entries, src.entries, [], v))
    else
      WithNotes(src, dst.notes)
  }

  // ---- dropping the keys the new element does not have ---------------------------------------------

  predicate HasKey(src: seq<Entry>, key: string) {
    exists i :: 0 <= i < |src| && Trim(src[i].key) == key
  }

  predicate IsKept(e: Entry, src: seq<Entry>) {
    Trim(e.key) != "" && HasKey(src, Trim(e.key))
  }

  function KeepKeys(entries: seq<Entry>, src: seq<Entry>): seq<Entry> {
    if entries == [] then []
    else (if IsKept(entries[0], src) then [entries[0]] else []) + KeepKeys(entries[1..], src)
  }

  /** `pruneMissingMapKeys` */
  function PruneMissing(n: Node, src: Node): Node {
    if n.Mapping? && src.Mapping? then Mapping(n.notes, n.tag, KeepKeys(n.entries, src.entries)) else n
  }

  lemma {:induction false} KeepKeysAt(entries: seq<Entry>, src: seq<Entry>, key: string)
    requires Trim(key) != "" && HasKey(src, Trim(key))
    ensures At(KeepKeys(entries, src), key) == At(entries, key)
  {
    if entries != [] {
      KeepKeysAt(entries[1..], src, key);
      if IsKept(entries[0], src) {
        if entries[0].key != key {
          AtLater(entries[0], KeepKeys(entries[1..], src), key);
        }
      } else {
        assert KeepKeys(entries, src) == KeepKeys(entries[1..], src);
      }
    }
  }

  lemma {:induction false} KeepKeysOnly(entries: seq<Entry>, src: seq<Entry>)
    ensures forall i | 0 <= i < |KeepKeys(entries, src)| :: IsKept(KeepKeys(entries, src)[i], src)
  {
    if entries != [] {
      KeepKeysOnly(entries[1..], src);
    }
  }

  // ---- what stands under a key afterwards ------------------------------------------------------------

  /** The value under `key`, given what stood there and what the generated mapping has there. */
  function MergedValue(was: Option<Node>, now: Option<Node>, here: seq<string>, v: Verdicts): Option<Node> {
    match (was, now)
    case (_, None) => was
    case (Some(d), Some(s)) => Some(MergeNode(d, s, here, v))
    case (None, Some(s)) =>
      var candidate := Prune(here, s);
      if IsKnownDefault(here, candidate) then None else Some(candidate)
  }

  lemma MergeEntryAt(entries: seq<Entry>, e: Entry, path: seq<string>, v: Verdicts, key: string)
    ensures At(MergeEntry(entries, e, path, v), key) ==
            MergedValue(At(entries, key), if e.key == key then Some(e.value) else None, path + [key], v)
  {
    var r := MergeEntry(entries, e, path, v);
    var i, j := FindKey(entries, e.key), FindKey(entries, key);
    if j >= 0 {
      assert forall k | 0 <= k < j :: r[k].key == entries[k].key;
      AtFirst(r, j);
    } else if e.key == key {
      if |r| > |entries| {
        AtFirst(r, |entries|);
      } else {
        AtAbsent(r, key);
      }
    } else {
      AtAbsent(r, key);
    }
  }

  /** The verdicts on what a mapping has under a key. */
  function InnerFor(src: seq<Entry>, key: string, v: Verdicts): Verdicts {
    var i := FindKey(src, key);
    if i < 0 then NO_VERDICTS else Inner(v, i)
  }

  /** The order of the generated keys does not matter for what stands under each. */
  lemma {:induction false} MergeEntriesAt(entries: seq<Entry>, src: seq<Entry>, path: seq<string>, v: Verdicts,
                                          key: string)
    requires UniqueKeys(src)
    ensures At(MergeEntries(entries, src, path, v), key) ==
            MergedValue(At(entries, key), At(src, key), path + [key], InnerFor(src, key, v))
    decreases src
  {
    if src != [] {
      var n := |src| - 1;
      MergeEntriesAt(entries, src[..n], path, v, key);
      MergeEntryAt(MergeEntries(entries, src[..n], path, v), src[n], path, Inner(v, n), key);
      if src[n].key == key {
        AtAbsent(src[..n], key);
        AtFirst(src, n);
      } else if FindKey(src, key) >= 0 {
        AtFirst(src[..n], FindKey(src, key));
      } else {
        AtAbsent(src[..n], key);
      }
    }
  }

  /** Only the verdicts on the merged children count. */
  lemma {:induction false} MergeEntriesAgree(entries: seq<Entry>, src: seq<Entry>, path: seq<string>, v: Verdicts,
                                             v': Verdicts)
    requires forall i | 0 <= i < |src| :: Inner(v, i) == Inner(v', i)
    ensures MergeEntries(entries, src, path, v) == MergeEntries(entries, src, path, v')
    decreases src
  {
    if src != [] {
      MergeEntriesAgree(entries, src[..|src| - 1], path, v, v');
    }
  }

  // ---- nothing telling is lost -----------------------------------------------------------------------

  lemma {:induction false} MergeItemsAt(ordered: seq<Option<Node>>, src: seq<Node>, path: seq<string>, v: Verdicts,
                                        i: nat)
    requires |ordered| == |src| && i < |src|
    ensures MergeItems(ordered, src, path, v)[i] ==
            match ordered[i]
            case None => src[i]
            case Some(was) => PruneMissing(MergeNode(was, src[i], path, Inner(v, i)), src[i])
    decreases |src|
  {
    if i < |src| - 1 {
      MergeItemsAt(ordered[..|src| - 1], src[..|src| - 1], path, v, i);
    }
  }

  /** A scalar of the new element survives the dropping of old keys. */
  lemma PruneMissingKeeps(n: Node, src: Node, steps: seq<Step>)
    requires NonBlank(src) && SameScalar(Lookup(n, steps), Lookup(src, steps))
    ensures Lookup(PruneMissing(n, src), steps) == Lookup(n, steps)
  {
    if steps != [] && n.Mapping? && src.Mapping? {
      var i := FindKey(src.entries, steps[0].key);
      assert Trim(src.entries[i].key) != "" && HasKey(src.entries, Trim(steps[0].key));
      KeepKeysAt(n.entries, src.entries, steps[0].key);
    }
  }

  /** Every scalar of the generated tree that is neither zero nor a known default of its key path stands at the
      same path of the result, with the same tag and value, whatever the old tree was. */
  lemma {:induction false} TellingScalarsArrive(dst: Node, src: Node, path: seq<string>, v: Verdicts, steps: seq<Step>)
    requires Unique(src) && NonBlank(src)
    requires Lookup(src, steps).Some? && Telling(path + KeysOf(steps), Lookup(src, steps).value)
    ensures SameScalar(Lookup(MergeNode(dst, src, path, v), steps), Lookup(src, steps))
    decreases |steps|, 0
  {
    if steps != [] {
      KeysOfCons(path, steps);
      match steps[0]
      case Key(k) =>
        var base := if dst.Mapping? then dst.entries else src.entries;
        MergeEntriesAt(base, src.entries, path, v, k);
        TellingEntryArrives(At(base, k), At(src.entries, k).value, path + [k], InnerFor(src.entries, k, v), steps[1..]);
      case Index(i) =>
        var was := if dst.Sequence? then dst.items else [];
        var ordered := Reorder(was, src.items, v.same);
        MergeItemsAt(ordered, src.items, path, v, i);
        if ordered[i].Some? {
          TellingScalarsArrive(ordered[i].value, src.items[i], path, Inner(v, i), steps[1..]);
          PruneMissingKeeps(MergeNode(ordered[i].value, src.items[i], path, Inner(v, i)), src.items[i], steps[1..]);
        }
    }
  }

  lemma {:induction false} TellingEntryArrives(was: Option<Node>, s: Node, here: seq<string>, v: Verdicts,
                                               steps: seq<Step>)
    requires Unique(s) && NonBlank(s)
    requires Lookup(s, steps).Some? && Telling(here + KeysOf(steps), Lookup(s, steps).value)
    ensures var now := MergedValue(was, Some(s), here, v);
      now.Some? && SameScalar(Lookup(now.value, steps), Lookup(s, steps))
    decreases |steps|, 1
  {
    if was.Some? {
      TellingScalarsArrive(was.value, s, here, v, steps);
    } else {
      PruneKeepsTelling(here, s, steps);
      TellingIsNotZero(Prune(here, s), steps);
      if steps == [] {
        assert here + KeysOf(steps) == here;
      }
    }
  }
}
