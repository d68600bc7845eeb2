/** Which settings reach the file (internal/config/config_yaml.go): told from the tag and the text of a generated
    scalar, and from whether the existing document has its key. */
module YamlSettings {
  import opened Wrappers
  import opened YamlTree
  import opened YamlMatch
  import opened YamlMerge

  // ---- key paths as text -------------------------------------------------------------------------------

  ghost predicate OneDot(text: string, dot: nat) {
    dot < |text| && text[dot] == '.' && forall i | 0 <= i < |text| && i != dot :: text[i] != '.'
  }

  lemma DotInLongPath(path: seq<string>)
    requires |path| > 1
    ensures '.' in Join(path)
  {
    assert Join(path)[|path[0]|] == '.';
  }

  lemma NoDotNoPath(path: seq<string>, text: string)
    requires Join(path) == text && text != "" && '.' !in text
    ensures path == [text]
  {
    if |path| > 1 {
      DotInLongPath(path);
    }
  }

  /** A dotted text with one dot is the text of two paths. */
  lemma DottedPath(path: seq<string>, text: string, dot: nat)
    requires OneDot(text, dot) && dot + 1 < |text|
    ensures Join(path) == text <==> path == [text] || path == [text[..dot], text[dot + 1..]]
  {
    var two := [text[..dot], text[dot + 1..]];
    assert two[1..] == [text[dot + 1..]];
    assert Join(two) == text[..dot] + "." + text[dot + 1..] == text;
    if Join(path) == text && |path| > 1 {
      var first, rest := path[0], Join(path[1..]);
      assert text[|first|] == '.';
      assert first == text[..dot] && rest == text[dot + 1..];
      NoDotNoPath(path[1..], rest);
      assert path == [first] + path[1..];
    }
  }

  /** The five settings with a default of their own: their key paths, tags and texts. */
  ghost predicate IsBuiltIn(path: seq<string>, tag: string, text: string) {
    || (path in {["pprof", "addr"], ["pprof.addr"]} && tag == "!!str" && text == "127.0.0.1:8316")
    || (path in {["remote-management", "panel-github-repository"], ["remote-management.panel-github-repository"]}
        && tag == "!!str" && text == "https://github.com/router-for-me/Cli-Proxy-API-Management-Center")
    || (path in {["plugins", "dir"], ["plugins.dir"]} && tag == "!!str" && text == "plugins")
    || (path in {["routing", "strategy"], ["routing.strategy"]} && tag == "!!str" && text == "concurrency-balanced")
    || (path == ["error-logs-max-files"] && tag == "!!int" && text == "10")
  }

  /** Nothing, by tag and text. */
  ghost predicate IsBlank(tag: string, text: string) {
    || (tag == "!!bool" && text == "false")
    || ((tag == "!!int" || tag == "!!float") && (text == "0" || text == "0.0"))
    || (tag == "!!str" && text == "")
    || tag == "!!null"
  }

  lemma PathTexts(path: seq<string>)
    ensures Join(path) == "pprof.addr" <==> path in {["pprof", "addr"], ["pprof.addr"]}
    ensures Join(path) == "plugins.dir" <==> path in {["plugins", "dir"], ["plugins.dir"]}
    ensures Join(path) == "routing.strategy" <==> path in {["routing", "strategy"], ["routing.strategy"]}
  {
    DottedPath(path, "pprof.addr", 5);
    DottedPath(path, "plugins.dir", 7);
    DottedPath(path, "routing.strategy", 7);
    assert "pprof.addr"[..5] == "pprof" && "pprof.addr"[6..] == "addr";
    assert "plugins.dir"[..7] == "plugins" && "plugins.dir"[8..] == "dir";
    assert "routing.strategy"[..7] == "routing" && "routing.strategy"[8..] == "strategy";
  }

  lemma RepositoryPath(path: seq<string>)
    ensures Join(path) == "remote-management.panel-github-repository" <==>
              path in {["remote-management", "panel-github-repository"], ["remote-management.panel-github-repository"]}
  {
    var text := "remote-management.panel-github-repository";
    SlicesAre();
    hide Join;
    DottedPath(path, text, 17);
  }

  lemma SlicesAre()
    ensures OneDot("remote-management.panel-github-repository", 17)
    ensures "remote-management.panel-github-repository"[..17] == "remote-management"
    ensures "remote-management.panel-github-repository"[18..] == "panel-github-repository"
  {
  }

  lemma LogsPath(path: seq<string>)
    ensures Join(path) == "error-logs-max-files" <==> path == ["error-logs-max-files"]
  {
    if Join(path) == "error-logs-max-files" {
      NoDotNoPath(path, "error-logs-max-files");
    }
  }

  lemma DefaultsAreBuiltIn(path: seq<string>, n: Node)
    requires n.Scalar? && path != []
    ensures IsKnownDefault(path, n) <==>
              && !(path[|path| - 1] == "weight" && n.tag == "!!int")
              && (IsBlank(n.tag, n.text) || IsBuiltIn(path, n.tag, n.text))
  {
    PathTexts(path);
    RepositoryPath(path);
    LogsPath(path);
    hide Join;
  }

  // ---- what is set arrives ---------------------------------------------------------------------------

  /** Whatever the existing document was, a generated scalar that is not blank and not built in stands at its path
      afterwards. */
  lemma SettingsArrive(dst: Node, src: Node, v: Verdicts, steps: seq<Step>)
    requires Unique(src) && NonBlank(src)
    requires Lookup(src, steps).Some? && Lookup(src, steps).value.Scalar?
    requires var n := Lookup(src, steps).value; !IsBlank(n.tag, n.text) && !IsBuiltIn(KeysOf(steps), n.tag, n.text)
    ensures var n, now := Lookup(src, steps).value, Lookup(MergeRoot(dst, src, v), steps);
      now.Some? && now.value.Scalar? && now.value.tag == n.tag && now.value.text == n.text
  {
    var n, path := Lookup(src, steps).value, KeysOf(steps);
    if path != [] {
      DefaultsAreBuiltIn(path, n);
    }
    hide IsKnownDefault, IsBuiltIn, MergeNode;
    if dst.Mapping? && src.Mapping? {
      assert [] + path == path;
      assert Telling(path, n);
      TellingScalarsArrive(dst, src, [], v, steps);
      RootIsMerged(dst, src, v);
    } else {
      LookupWithNotes(src, dst.notes, steps);
    }
  }

  lemma LookupWithNotes(n: Node, notes: string, steps: seq<Step>)
    ensures steps != [] ==> Lookup(WithNotes(n, notes), steps) == Lookup(n, steps)
    ensures steps == [] ==> Lookup(WithNotes(n, notes), steps) == Some(WithNotes(n, notes))
  {
  }

  lemma RootIsMerged(dst: Node, src: Node, v: Verdicts)
    requires dst.Mapping? && src.Mapping?
    ensures MergeRoot(dst, src, v) == MergeNode(dst, src, [], v)
  {
  }

  // ---- what is not set is not added --------------------------------------------------------------------

  /** The path leaves the existing document, from mapping to mapping, by a key it does not have. */
  ghost predicate LeavesByNewKey(dst: Node, steps: seq<Step>)
    decreases |steps|
  {
    && steps != [] && steps[0].Key? && dst.Mapping?
    && match At(dst.entries, steps[0].key)
       case None => true
       case Some(was) => LeavesByNewKey(was, steps[1..])
  }

  /** A path to a default of its key path. */
  ghost predicate EndsAtDefault(n: Node, path: seq<string>, steps: seq<Step>) {
    && steps != [] && steps[|steps| - 1].Key?
    && Lookup(n, steps).Some? && Lookup(n, steps).value.Scalar?
    && IsKnownDefault(path + KeysOf(steps), Lookup(n, steps).value)
  }

  lemma DefaultBelow(n: Node, path: seq<string>, steps: seq<Step>)
    requires EndsAtDefault(n, path, steps) && |steps| > 1
    ensures steps[0].Key? ==> n.Mapping? && At(n.entries, steps[0].key).Some? &&
                              EndsAtDefault(At(n.entries, steps[0].key).value, path + [steps[0].key], steps[1..])
    ensures steps[0].Index? ==> n.Sequence? && steps[0].at < |n.items| &&
                                EndsAtDefault(n.items[steps[0].at], path, steps[1..])
  {
    hide IsKnownDefault;
    KeysOfCons(path, steps);
    assert steps[1..][|steps| - 2] == steps[|steps| - 1];
  }

  /** A default one key below. */
  lemma DefaultHere(n: Node, path: seq<string>, steps: seq<Step>)
    requires EndsAtDefault(n, path, steps) && |steps| == 1
    ensures n.Mapping? && At(n.entries, steps[0].key).Some? && steps[1..] == []
    ensures var s, here := At(n.entries, steps[0].key).value, path + [steps[0].key];
      Lookup(n, steps) == Some(s) && s.Scalar? && IsKnownDefault(here, s) && Prune(here, s) == s
  {
    hide IsKnownDefault;
    KeysOfCons(path, steps);
    assert KeysOf(steps[1..]) == [];
    assert path + [steps[0].key] + [] == path + [steps[0].key];
  }

  lemma {:induction false} DefaultIsPruned(n: Node, path: seq<string>, steps: seq<Step>)
    requires Unique(n) && EndsAtDefault(n, path, steps)
    ensures Lookup(Prune(path, n), steps) == None
    decreases |steps|
  {
    hide IsKnownDefault;
    if |steps| > 1 {
      DefaultBelow(n, path, steps);
    }
    match steps[0]
    case Key(k) =>
      var i := FindKey(n.entries, k);
      PrunedAt(path, n.entries, i);
      if |steps| == 1 {
        DefaultHere(n, path, steps);
      } else {
        DefaultIsPruned(n.entries[i].value, path + [k], steps[1..]);
      }
    case Index(i) => DefaultIsPruned(n.items[i], path, steps[1..]);
  }

  lemma {:induction false} DefaultIsNotAdded(dst: Node, src: Node, path: seq<string>, v: Verdicts, steps: seq<Step>)
    requires Unique(src) && LeavesByNewKey(dst, steps) && EndsAtDefault(src, path, steps)
    ensures Lookup(MergeNode(dst, src, path, v), steps) == None
    decreases |steps|
  {
    hide IsKnownDefault;
    var k, rest := steps[0].key, steps[1..];
    var s, here, inner := At(src.entries, k).value, path + [k], InnerFor(src.entries, k, v);
    MergeEntriesAt(dst.entries, src.entries, path, v, k);
    if |steps| > 1 {
      DefaultBelow(src, path, steps);
    } else {
      DefaultHere(src, path, steps);
    }
    match At(dst.entries, k)
    case Some(was) =>
      DefaultIsNotAdded(was, s, here, inner, rest);
    case None =>
      if rest != [] {
        DefaultIsPruned(s, here, rest);
      }
  }

  /** Under a key the existing document does not have, wherever below it, blank scalars (integer weights aside) and
      built-in defaults are not written. */
  lemma BlanksAreNotAdded(dst: Node, src: Node, v: Verdicts, steps: seq<Step>)
    requires dst.Mapping? && src.Mapping? && Unique(src)
    requires LeavesByNewKey(dst, steps) && steps[|steps| - 1].Key?
    requires Lookup(src, steps).Some? && Lookup(src, steps).value.Scalar?
    requires var n := Lookup(src, steps).value;
      && (IsBlank(n.tag, n.text) || IsBuiltIn(KeysOf(steps), n.tag, n.text))
      && !(steps[|steps| - 1] == Key("weight") && n.tag == "!!int")
    ensures Lookup(MergeRoot(dst, src, v), steps) == None
  {
    LastKey(steps);
    DefaultsAreBuiltIn(KeysOf(steps), Lookup(src, steps).value);
    hide IsKnownDefault, IsBuiltIn, MergeNode;
    assert [] + KeysOf(steps) == KeysOf(steps);
    DefaultIsNotAdded(dst, src, [], v, steps);
    RootIsMerged(dst, src, v);
  }

  lemma {:induction false} LastKey(steps: seq<Step>)
    requires steps != [] && steps[|steps| - 1].Key?
    ensures KeysOf(steps) != [] && KeysOf(steps)[|KeysOf(steps)| - 1] == steps[|steps| - 1].key
  {
    if |steps| > 1 {
      LastKey(steps[1..]);
    }
  }

  // ---- values that hold nothing --------------------------------------------------------------------------

  /** No path leads to an alias or to a scalar that is not blank. */
  ghost predicate HoldsNothing(n: Node) {
    forall steps | Lookup(n, steps).Some? ::
      var x := Lookup(n, steps).value;
      !x.Alias? && (x.Scalar? ==> IsBlank(x.tag, x.text))
  }

  lemma LookupStep(n: Node, step: Step, steps: seq<Step>)
    ensures Lookup(n, [step] + steps) ==
            match step
            case Key(k) =>
              if !n.Mapping? || At(n.entries, k).None? then None else Lookup(At(n.entries, k).value, steps)
            case Index(i) => if !n.Sequence? || i >= |n.items| then None else Lookup(n.items[i], steps)
  {
    assert ([step] + steps)[1..] == steps;
  }

  lemma NothingBelow(n: Node, step: Step, child: Node)
    requires HoldsNothing(n) && Lookup(n, [step]) == Some(child)
    ensures HoldsNothing(child)
  {
    LookupStep(n, step, []);
    forall steps | Lookup(child, steps).Some?
      ensures var x := Lookup(child, steps).value; !x.Alias? && (x.Scalar? ==> IsBlank(x.tag, x.text))
    {
      LookupStep(n, step, steps);
    }
  }

  lemma {:induction false} NothingIsZero(n: Node)
    requires Unique(n) && HoldsNothing(n)
    ensures IsZero(n)
    decreases n
  {
    assert Lookup(n, []) == Some(n);
    match n
    case Mapping(_, _, entries) =>
      forall i | 0 <= i < |entries| ensures IsZero(entries[i].value) {
        AtFirst(entries, i);
        LookupStep(n, Key(entries[i].key), []);
        assert [Key(entries[i].key)] + [] == [Key(entries[i].key)];
        NothingBelow(n, Key(entries[i].key), entries[i].value);
        NothingIsZero(entries[i].value);
      }
    case Sequence(_, _, items) =>
      forall i: nat | i < |items| ensures IsZero(items[i]) {
        LookupStep(n, Index(i), []);
        assert [Index(i)] + [] == [Index(i)];
        NothingBelow(n, Index(i), items[i]);
        NothingIsZero(items[i]);
      }
    case _ =>
  }

  lemma {:induction false} ZeroHoldsNothing(n: Node, steps: seq<Step>)
    requires IsZero(n) && Lookup(n, steps).Some?
    ensures var x := Lookup(n, steps).value; !x.Alias? && (x.Scalar? ==> IsBlank(x.tag, x.text))
    decreases |steps|
  {
    if steps != [] {
      match steps[0]
      case Key(k) => ZeroHoldsNothing(At(n.entries, k).value, steps[1..]);
      case Index(i) => ZeroHoldsNothing(n.items[i], steps[1..]);
    }
  }

  /** What counts as zero, by the tags and texts it holds. */
  lemma ZeroIsNothing(n: Node)
    requires Unique(n)
    ensures IsZero(n) <==> HoldsNothing(n)
  {
    if IsZero(n) {
      forall steps | Lookup(n, steps).Some?
        ensures var x := Lookup(n, steps).value; !x.Alias? && (x.Scalar? ==> IsBlank(x.tag, x.text))
      {
        ZeroHoldsNothing(n, steps);
      }
    } else if HoldsNothing(n) {
      NothingIsZero(n);
    }
  }

  /** A key that the existing document does not have is not added for a value that holds nothing. */
  lemma {:induction false} NothingIsNotAdded(dst: Node, src: Node, path: seq<string>, v: Verdicts, steps: seq<Step>)
    requires Unique(src) && LeavesByNewKey(dst, steps) && Lookup(src, steps).Some? && AllKeys(steps)
    requires HoldsNothing(Lookup(src, steps).value) && !Lookup(src, steps).value.Scalar?
    ensures Lookup(MergeNode(dst, src, path, v), steps) == None
    decreases |steps|
  {
    var k, rest := steps[0].key, steps[1..];
    var s := At(src.entries, k).value;
    MergeEntriesAt(dst.entries, src.entries, path, v, k);
    match At(dst.entries, k)
    case Some(was) =>
      NothingIsNotAdded(was, s, path + [k], InnerFor(src.entries, k, v), rest);
    case None =>
      ZeroBelow(s, rest);
      NothingIsPruned(s, path + [k], rest);
  }

  lemma {:induction false} ZeroBelow(n: Node, steps: seq<Step>)
    requires Unique(n) && Lookup(n, steps).Some? && HoldsNothing(Lookup(n, steps).value)
    ensures Unique(Lookup(n, steps).value) && IsZero(Lookup(n, steps).value)
    decreases |steps|
  {
    if steps == [] {
      ZeroIsNothing(n);
    } else {
      match steps[0]
      case Key(k) => ZeroBelow(At(n.entries, k).value, steps[1..]);
      case Index(i) => ZeroBelow(n.items[i], steps[1..]);
    }
  }

  /** A pruned value is zero where it was, and a mapping loses what is. */
  lemma {:induction false} NothingIsPruned(n: Node, path: seq<string>, steps: seq<Step>)
    requires Unique(n) && AllKeys(steps) && Lookup(n, steps).Some?
    requires IsZero(Lookup(n, steps).value) && !Lookup(n, steps).value.Scalar?
    ensures steps == [] ==> IsKnownDefault(path, Prune(path, n))
    ensures steps != [] ==> Lookup(Prune(path, n), steps) == None
    decreases |steps|
  {
    if steps == [] {
      PrunedZero(path, n);
    } else {
      var i := FindKey(n.entries, steps[0].key);
      PrunedAt(path, n.entries, i);
      NothingIsPruned(n.entries[i].value, path + [steps[0].key], steps[1..]);
    }
  }

  lemma {:induction false} PrunedZero(path: seq<string>, n: Node)
    requires IsZero(n)
    ensures IsZero(Prune(path, n)) && Prune(path, n).Scalar? == n.Scalar?
    decreases n
  {
    match n
    case Mapping(_, _, entries) =>
      forall i | 0 <= i < |entries| ensures IsZero(Prune(path + [entries[i].key], entries[i].value)) {
        PrunedZero(path + [entries[i].key], entries[i].value);
      }
      PrunedZeros(path, entries);
    case Sequence(_, _, items) =>
      forall i | 0 <= i < |items| ensures IsZero(Prune(path, items[i])) {
        PrunedZero(path, items[i]);
      }
    case _ =>
  }

  lemma {:induction false} PrunedZeros(path: seq<string>, entries: seq<Entry>)
    requires forall i | 0 <= i < |entries| :: IsZero(Prune(path + [entries[i].key], entries[i].value))
    ensures forall i | 0 <= i < |PruneEntries(path, entries)| :: IsZero(PruneEntries(path, entries)[i].value)
  {
    if entries != [] {
      PrunedZeros(path, entries[1..]);
    }
  }

  // ---- what is emptied is not added ------------------------------------------------------------------------

  ghost predicate HoldsItsOwn(n: Node) {
    (n.Mapping? ==> n.entries != []) && (n.Sequence? ==> n.items != [])
  }

  lemma {:induction false} PrunedFrom(path: seq<string>, entries: seq<Entry>, k: string) returns (i: nat)
    requires At(PruneEntries(path, entries), k).Some?
    ensures i < |entries| && entries[i].key == k && Survives(path, entries[i])
    ensures At(PruneEntries(path, entries), k) == Some(Prune(path + [k], entries[i].value))
  {
    hide Survives;
    var rest := PruneEntries(path, entries[1..]);
    if Survives(path, entries[0]) {
      var first := entries[0].(value := Prune(path + [entries[0].key], entries[0].value));
      assert PruneEntries(path, entries) == [first] + rest;
      if first.key == k {
        i := 0;
      } else {
        AtLater(first, rest, k);
        i := PrunedFrom(path, entries[1..], k);
        i := i + 1;
      }
    } else {
      assert PruneEntries(path, entries) == rest;
      i := PrunedFrom(path, entries[1..], k);
      i := i + 1;
    }
  }

  lemma {:induction false} PrunedHoldsItsOwn(path: seq<string>, n: Node, steps: seq<Step>)
    requires steps != [] && steps[|steps| - 1].Key? && Lookup(Prune(path, n), steps).Some?
    ensures HoldsItsOwn(Lookup(Prune(path, n), steps).value)
    decreases |steps|
  {
    var rest := steps[1..];
    assert rest != [] ==> rest[|rest| - 1] == steps[|steps| - 1];
    match steps[0]
    case Key(k) =>
      var i := PrunedFrom(path, n.entries, k);
      if rest != [] {
        PrunedHoldsItsOwn(path + [k], n.entries[i].value, rest);
      }
    case Index(i) => PrunedHoldsItsOwn(path, n.items[i], rest);
  }

  /** Under a key that the existing document does not have, no mapping and no list under a key is empty, neither as it
      was generated nor because what it held was not written. */
  lemma {:induction false} NothingEmptyIsAdded(dst: Node, src: Node, path: seq<string>, v: Verdicts, steps: seq<Step>)
    requires Unique(src) && LeavesByNewKey(dst, steps) && steps[|steps| - 1].Key?
    requires src.Mapping? && Lookup(MergeNode(dst, src, path, v), steps).Some?
    ensures HoldsItsOwn(Lookup(MergeNode(dst, src, path, v), steps).value)
    decreases |steps|
  {
    var k, rest := steps[0].key, steps[1..];
    assert rest != [] ==> rest[|rest| - 1] == steps[|steps| - 1];
    MergeEntriesAt(dst.entries, src.entries, path, v, k);
    match (At(dst.entries, k), At(src.entries, k))
    case (Some(was), Some(now)) =>
      if now.Mapping? {
        NothingEmptyIsAdded(was, now, path + [k], InnerFor(src.entries, k, v), rest);
      } else {
        NoMappingNoKey(was, now, path + [k], InnerFor(src.entries, k, v), rest);
      }
    case (Some(was), None) => NewKeyIsNotThere(was, rest);
    case (None, _) =>
      if rest != [] {
        PrunedHoldsItsOwn(path + [k], At(src.entries, k).value, rest);
      }
  }

  lemma {:induction false} NewKeyIsNotThere(dst: Node, steps: seq<Step>)
    requires LeavesByNewKey(dst, steps)
    ensures Lookup(dst, steps) == None
    decreases |steps|
  {
    if At(dst.entries, steps[0].key).Some? {
      NewKeyIsNotThere(At(dst.entries, steps[0].key).value, steps[1..]);
    }
  }

  lemma NoMappingNoKey(dst: Node, src: Node, path: seq<string>, v: Verdicts, steps: seq<Step>)
    requires dst.Mapping? && !src.Mapping? && steps != [] && steps[0].Key?
    ensures Lookup(MergeNode(dst, src, path, v), steps) == None
  {
    hide Reorder;
  }
}
