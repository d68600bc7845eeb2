/** What becomes of weights in the merge: a weight is an integer that means something even when it is zero
    (internal/config/config_yaml.go, `isKnownDefaultValue`), yet the mappings around it are judged as a whole. */
module YamlWeights {
  import opened Wrappers
  import opened YamlTree
  import opened YamlMatch
  import opened YamlMerge
  import opened YamlMergeLaws

  /** A path that ends at an integer under the key `weight`, which counts even when it is zero. */
  predicate LeadsToWeight(n: Node, steps: seq<Step>) {
    && steps != [] && steps[|steps| - 1] == Key("weight")
    && Lookup(n, steps).Some? && Lookup(n, steps).value.Scalar? && Lookup(n, steps).value.tag == "!!int"
  }

  lemma WeightBelow(n: Node, steps: seq<Step>)
    requires LeadsToWeight(n, steps) && |steps| > 1
    ensures steps[0].Key? ==> n.Mapping? && At(n.entries, steps[0].key).Some?
                              && LeadsToWeight(At(n.entries, steps[0].key).value, steps[1..])
    ensures steps[0].Index? ==> n.Sequence? && steps[0].at < |n.items|
                                && LeadsToWeight(n.items[steps[0].at], steps[1..])
  {
    assert steps[1..][|steps| - 2] == steps[|steps| - 1];
  }

  /** On the way from `n` to the weight, no value under a key is zero as a whole, the weight itself aside. */
  predicate OpenTo(n: Node, steps: seq<Step>)
    requires LeadsToWeight(n, steps)
    decreases |steps|
  {
    |steps| > 1 ==>
      (WeightBelow(n, steps);
       match steps[0]
       case Key(k) => !IsZero(At(n.entries, k).value) && OpenTo(At(n.entries, k).value, steps[1..])
       case Index(i) => OpenTo(n.items[i], steps[1..]))
  }

  /** In a new value, pruned, the weight is found exactly when the way to it is open. */
  lemma {:induction false} WeightInPruned(path: seq<string>, n: Node, steps: seq<Step>)
    requires Unique(n) && LeadsToWeight(n, steps)
    ensures Lookup(Prune(path, n), steps) == if OpenTo(n, steps) then Lookup(n, steps) else None
    decreases |steps|
  {
    match steps[0]
    case Key(k) =>
      var i := FindKey(n.entries, k);
      var c, here := n.entries[i].value, path + [k];
      PrunedAt(path, n.entries, i);
      if |steps| == 1 {
        assert steps[1..] == [] && here[|path|] == "weight";
      } else {
        WeightBelow(n, steps);
        WeightInPruned(here, c, steps[1..]);
        assert !IsKnownDefault(here, c) == !IsZero(c);
        assert Lookup(Prune(here, c), steps[1..]).Some? ==> !IsEmptyCollection(Prune(here, c));
      }
    case Index(i) =>
      WeightBelow(n, steps);
      WeightInPruned(path, n.items[i], steps[1..]);
  }

  function BaseOf(dst: Node, src: Node): seq<Entry>
    requires src.Mapping?
  {
    if dst.Mapping? then dst.entries else src.entries
  }

  /** What decides whether a generated weight arrives: where its way first leaves the existing document by a new
      key, it must be open, and the new value, pruned, must not be zero as a whole. An element that takes over no
      old one is copied as it is. */
  predicate WeightPasses(dst: Node, src: Node, path: seq<string>, v: Verdicts, steps: seq<Step>)
    requires LeadsToWeight(src, steps)
    decreases |steps|
  {
    |steps| > 1 ==>
      (WeightBelow(src, steps);
       match steps[0]
       case Key(k) =>
         var s, here := At(src.entries, k).value, path + [k];
         var was := At(BaseOf(dst, src), k);
         if was.Some? then WeightPasses(was.value, s, here, InnerFor(src.entries, k, v), steps[1..])
         else OpenTo(s, steps[1..]) && !IsZero(Prune(here, s))
       case Index(i) =>
         var was := TakenOver(dst, src.items, v)[i];
         was.Some? ==> WeightPasses(was.value, src.items[i], path, Inner(v, i), steps[1..]))
  }

  /** A generated weight, zero or not, arrives at its place exactly under that condition. */
  lemma {:induction false} WeightArrives(dst: Node, src: Node, path: seq<string>, v: Verdicts, steps: seq<Step>)
    requires Unique(src) && NonBlank(src) && LeadsToWeight(src, steps)
    ensures SameScalar(Lookup(MergeNode(dst, src, path, v), steps), Lookup(src, steps))
            <==> WeightPasses(dst, src, path, v, steps)
    decreases |steps|, 1
  {
    if steps[0].Key? {
      WeightArrivesByKey(dst, src, path, v, steps);
    } else {
      WeightArrivesByPlace(dst, src, path, v, steps);
    }
  }

  /** What a key path finds in a merged mapping. */
  lemma LookupMerged(dst: Node, src: Node, path: seq<string>, v: Verdicts, steps: seq<Step>)
    requires src.Mapping? && UniqueKeys(src.entries) && steps != [] && steps[0].Key?
    ensures var k := steps[0].key;
      Lookup(MergeNode(dst, src, path, v), steps) ==
        match MergedValue(At(BaseOf(dst, src), k), At(src.entries, k), path + [k], InnerFor(src.entries, k, v))
        case None => None
        case Some(now) => Lookup(now, steps[1..])
  {
    MergeEntriesAt(BaseOf(dst, src), src.entries, path, v, steps[0].key);
  }

  lemma {:induction false} WeightArrivesByKey(dst: Node, src: Node, path: seq<string>, v: Verdicts, steps: seq<Step>)
    requires Unique(src) && NonBlank(src) && LeadsToWeight(src, steps) && steps[0].Key?
    ensures SameScalar(Lookup(MergeNode(dst, src, path, v), steps), Lookup(src, steps))
            <==> WeightPasses(dst, src, path, v, steps)
    decreases |steps|, 0
  {
    var k := steps[0].key;
    var was, s := At(BaseOf(dst, src), k), At(src.entries, k).value;
    var here, inner := path + [k], InnerFor(src.entries, k, v);
    LookupMerged(dst, src, path, v, steps);
    assert Lookup(src, steps) == Lookup(s, steps[1..]);
    if |steps| == 1 {
      assert steps[1..] == [];
      WeightItself(was, s, here, inner);
    } else {
      WeightBelow(src, steps);
      if was.Some? {
        WeightArrives(was.value, s, here, inner, steps[1..]);
      } else {
        WeightUnderNewKey(s, here, inner, steps[1..]);
      }
    }
  }

  lemma WeightItself(was: Option<Node>, s: Node, here: seq<string>, v: Verdicts)
    requires here != [] && here[|here| - 1] == "weight" && s.Scalar? && s.tag == "!!int"
    ensures SameScalar(MergedValue(was, Some(s), here, v), Some(s))
  {
  }

  lemma WeightUnderNewKey(s: Node, here: seq<string>, v: Verdicts, steps: seq<Step>)
    requires Unique(s) && LeadsToWeight(s, steps)
    ensures var now := MergedValue(None, Some(s), here, v);
      (now.Some? && SameScalar(Lookup(now.value, steps), Lookup(s, steps)))
      <==> OpenTo(s, steps) && !IsZero(Prune(here, s))
  {
    WeightInPruned(here, s, steps);
  }

  lemma {:induction false} WeightArrivesByPlace(dst: Node, src: Node, path: seq<string>, v: Verdicts, steps: seq<Step>)
    requires Unique(src) && NonBlank(src) && LeadsToWeight(src, steps) && steps[0].Index?
    ensures SameScalar(Lookup(MergeNode(dst, src, path, v), steps), Lookup(src, steps))
            <==> WeightPasses(dst, src, path, v, steps)
    decreases |steps|, 0
  {
    var i, ordered := steps[0].at, TakenOver(dst, src.items, v);
    MergeItemsAt(ordered, src.items, path, v, i);
    WeightBelow(src, steps);
    if ordered[i].Some? {
      var m := MergeNode(ordered[i].value, src.items[i], path, Inner(v, i));
      WeightArrives(ordered[i].value, src.items[i], path, Inner(v, i), steps[1..]);
      WeightIsKept(m, src.items[i], steps[1..]);
    }
  }

  lemma WeightIsKept(m: Node, s: Node, steps: seq<Step>)
    requires NonBlank(s) && LeadsToWeight(s, steps)
    ensures Lookup(PruneMissing(m, s), steps) == Lookup(m, steps)
  {
    if m.Mapping? && s.Mapping? {
      var i := FindKey(s.entries, steps[0].key);
      assert Trim(s.entries[i].key) != "" && HasKey(s.entries, Trim(steps[0].key));
      KeepKeysAt(m.entries, s.entries, steps[0].key);
    }
  }

  const ZERO_WEIGHT := Entry(Scalar("", "!!str", "weight"), Scalar("", "!!int", "0"))
  const DEFAULT_DIR := Entry(Scalar("", "!!str", "dir"), Scalar("", "!!str", "plugins"))

  lemma WeightIsNoDefault(path: seq<string>)
    ensures !IsKnownDefault(path + ["weight"], ZERO_WEIGHT.value)
    ensures PruneEntries(path, [ZERO_WEIGHT]) == [ZERO_WEIGHT]
  {
    assert (path + ["weight"])[|path|] == "weight";
    assert [ZERO_WEIGHT][1..] == [];
    assert PruneEntries(path, [ZERO_WEIGHT]) == [ZERO_WEIGHT] + PruneEntries(path, []);
  }

  /** So a zero weight alone in a new mapping is lost, */
  lemma LoneZeroWeightIsLost(path: seq<string>, key: string, v: Verdicts)
    ensures var src := Mapping("", "!!map", [Entry(Scalar("", "!!str", key), Mapping("", "!!map", [ZERO_WEIGHT]))]);
      && LeadsToWeight(src, [Key(key), Key("weight")])
      && !WeightPasses(Mapping("", "!!map", []), src, path, v, [Key(key), Key("weight")])
  {
    var added, steps := Mapping("", "!!map", [ZERO_WEIGHT]), [Key(key), Key("weight")];
    var src := Mapping("", "!!map", [Entry(Scalar("", "!!str", key), added)]);
    AtFirst(src.entries, 0);
    AtFirst(added.entries, 0);
    assert steps[1..] == [Key("weight")] && steps[1..][1..] == [];
    assert Lookup(added, steps[1..]) == Some(ZERO_WEIGHT.value) && Lookup(src, steps) == Lookup(added, steps[1..]);
    WeightIsNoDefault(path + [key]);
    assert IsZero(Prune(path + [key], added));
  }

  /** and so is one beside a known default, although that is not zero. */
  lemma ZeroWeightBesideDefaultIsLost(v: Verdicts)
    ensures var added := Mapping("", "!!map", [DEFAULT_DIR, ZERO_WEIGHT]);
      && !IsZero(added)
      && var src := Mapping("", "!!map", [Entry(Scalar("", "!!str", "plugins"), added)]);
      && var steps := [Key("plugins"), Key("weight")];
      && LeadsToWeight(src, steps) && !WeightPasses(Mapping("", "!!map", []), src, [], v, steps)
  {
    var added, steps := Mapping("", "!!map", [DEFAULT_DIR, ZERO_WEIGHT]), [Key("plugins"), Key("weight")];
    var src := Mapping("", "!!map", [Entry(Scalar("", "!!str", "plugins"), added)]);
    assert added.entries[0] == DEFAULT_DIR && !IsZero(DEFAULT_DIR.value);
    AtFirst(src.entries, 0);
    AtFirst(added.entries, 1);
    assert steps[1..] == [Key("weight")] && steps[1..][1..] == [];
    assert Lookup(added, steps[1..]) == Some(ZERO_WEIGHT.value) && Lookup(src, steps) == Lookup(added, steps[1..]);
    DefaultIsPruned();
    assert [] + ["plugins"] == ["plugins"];
  }

  lemma DefaultIsPruned()
    ensures IsZero(Prune(["plugins"], Mapping("", "!!map", [DEFAULT_DIR, ZERO_WEIGHT])))
  {
    var added := Mapping("", "!!map", [DEFAULT_DIR, ZERO_WEIGHT]);
    DirIsDefault();
    WeightIsNoDefault(["plugins"]);
    assert added.entries[1..] == [ZERO_WEIGHT];
    assert PruneEntries(["plugins"], added.entries) == [] + PruneEntries(["plugins"], [ZERO_WEIGHT]);
  }

  lemma DirIsDefault()
    ensures IsKnownDefault(["plugins"] + ["dir"], DEFAULT_DIR.value)
  {
    var path := ["plugins", "dir"];
    assert ["plugins"] + ["dir"] == path && path[1..] == ["dir"];
    assert Join(path) == "plugins" + "." + "dir" == "plugins.dir";
  }
}
