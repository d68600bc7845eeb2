/** YAML nodes as values, and what the configuration merge counts as a default (internal/config/config_yaml.go). */
module YamlTree {
  import opened Wrappers

  /** A key node with its value node. Keys are told apart by the text of the key node. */
  datatype Entry = Entry(name: Node, value: Node) {
    const key: string := TextOf(name)
  }

  /** `notes` stands for what the merge never writes on a node: its comments, its style and its anchor. An alias
      has the name of an anchor; what it reads as is a matter of the whole document (`YamlAlias`). */
  datatype Node =
    | Scalar(notes: string, tag: string, text: string)
    | Alias(notes: string, name: string)
    | Mapping(notes: string, tag: string, entries: seq<Entry>)
    | Sequence(notes: string, tag: string, items: seq<Node>)

  /** The text of a node (`Value`): that of a scalar, the anchor name of an alias, none of a collection. */
  function TextOf(n: Node): string {
    match n
    case Scalar(_, _, text) => text
    case Alias(_, name) => name
    case _ => ""
  }

  function WithNotes(n: Node, notes: string): Node {
    n.(notes := notes)
  }

  // ---- keys ----------------------------------------------------------------------------------------

  /** `findMapKeyIndex`, counted in entries. */
  function FindKey(entries: seq<Entry>, key: string): (i: int)
    ensures -1 <= i < |entries|
    ensures i >= 0 ==> entries[i].key == key && forall j | 0 <= j < i :: entries[j].key != key
    ensures i < 0 ==> forall j | 0 <= j < |entries| :: entries[j].key != key
  {
    if entries == [] then -1
    else if entries[0].key == key then 0
    else
      var i := FindKey(entries[1..], key);
      if i < 0 then -1 else i + 1
  }

  /** The value a reader finds under a key. */
  function At(entries: seq<Entry>, key: string): Option<Node> {
    var i := FindKey(entries, key);
    if i < 0 then None else Some(entries[i].value)
  }

  /** What `At` finds, for any entry known to be the first with its key. */
  lemma AtFirst(entries: seq<Entry>, i: nat)
    requires i < |entries| && forall j | 0 <= j < i :: entries[j].key != entries[i].key
    ensures FindKey(entries, entries[i].key) == i && At(entries, entries[i].key) == Some(entries[i].value)
  {
  }

  lemma AtAbsent(entries: seq<Entry>, key: string)
    requires forall j | 0 <= j < |entries| :: entries[j].key != key
    ensures At(entries, key) == None
  {
  }

  // ---- paths ---------------------------------------------------------------------------------------

  datatype Step = Key(key: string) | Index(at: nat)

  /** Whose value, if any, stands at a path. */
  function Lookup(n: Node, steps: seq<Step>): Option<Node>
    decreases |steps|
  {
    if steps == [] then Some(n)
    else match steps[0]
      case Key(k) =>
        if !n.Mapping? then None
        else (match At(n.entries, k)
          case None => None
          case Some(v) => Lookup(v, steps[1..]))
      case Index(i) =>
        if !n.Sequence? || i >= |n.items| then None else Lookup(n.items[i], steps[1..])
  }

  /** The key path of a path: indices do not count, as in the merge itself. */
  function KeysOf(steps: seq<Step>): seq<string> {
    if steps == [] then []
    else (if steps[0].Key? then [steps[0].key] else []) + KeysOf(steps[1..])
  }

  predicate AllKeys(steps: seq<Step>) {
    forall i | 0 <= i < |steps| :: steps[i].Key?
  }

  predicate UniqueKeys(entries: seq<Entry>) {
    forall i, j | 0 <= i < j < |entries| :: entries[i].key != entries[j].key
  }

  /** No mapping of the tree has the same key twice. */
  predicate Unique(n: Node) {
    match n
    case Mapping(_, _, entries) =>
      UniqueKeys(entries) && forall i | 0 <= i < |entries| :: Unique(entries[i].value)
    case Sequence(_, _, items) => forall i | 0 <= i < |items| :: Unique(items[i])
    case _ => true
  }

  /** No mapping of the tree has a blank key. */
  predicate NonBlank(n: Node) {
    match n
    case Mapping(_, _, entries) =>
      forall i | 0 <= i < |entries| :: Trim(entries[i].key) != "" && NonBlank(entries[i].value)
    case Sequence(_, _, items) => forall i | 0 <= i < |items| :: NonBlank(items[i])
    case _ => true
  }

  // ---- text ----------------------------------------------------------------------------------------

  predicate IsSpace(c: char) {
    c == ' ' || '\t' <= c <= '\r'
  }

  function TrimLeft(s: string): string {
    if s != "" && IsSpace(s[0]) then TrimLeft(s[1..]) else s
  }

  function TrimRight(s: string): string {
    if s != "" && IsSpace(s[|s| - 1]) then TrimRight(s[..|s| - 1]) else s
  }

  function Trim(s: string): string {
    TrimRight(TrimLeft(s))
  }

  function Lower(s: string): string {
    seq(|s|, i requires 0 <= i < |s| => if 'A' <= s[i] <= 'Z' then s[i] - 'A' + 'a' else s[i])
  }

  // ---- defaults ------------------------------------------------------------------------------------

  /** `isZeroValueNode` */
  predicate IsZero(n: Node) {
    match n
    case Scalar(_, tag, text) =>
      if tag == "!!bool" then text == "false"
      else if tag == "!!int" || tag == "!!float" then text == "0" || text == "0.0"
      else if tag == "!!str" then text == ""
      else tag == "!!null"
    case Alias(_, _) => false
    case Mapping(_, _, entries) => forall i | 0 <= i < |entries| :: IsZero(entries[i].value)
    case Sequence(_, _, items) => forall i | 0 <= i < |items| :: IsZero(items[i])
  }

  const DEFAULT_PPROF_ADDR := "127.0.0.1:8316"
  const DEFAULT_PANEL_REPOSITORY := "https://github.com/router-for-me/Cli-Proxy-API-Management-Center"

  function Join(path: seq<string>): string {
    if path == [] then ""
    else if |path| == 1 then path[0]
    else path[0] + "." + Join(path[1..])
  }

  /** `isKnownDefaultValue` */
  predicate IsKnownDefault(path: seq<string>, n: Node) {
    if path != [] && path[|path| - 1] == "weight" && n.Scalar? && n.tag == "!!int" then false
    else if IsZero(n) then true
    else if path == [] || !n.Scalar? then false
    else
      var dotted := Join(path);
      if n.tag == "!!str" then
        if dotted == "pprof.addr" then n.text == DEFAULT_PPROF_ADDR
        else if dotted == "remote-management.panel-github-repository" then n.text == DEFAULT_PANEL_REPOSITORY
        else if dotted == "plugins.dir" then n.text == "plugins"
        else dotted == "routing.strategy" && n.text == "concurrency-balanced"
      else
        n.tag == "!!int" && dotted == "error-logs-max-files" && n.text == "10"
  }

  /** `pruneKnownDefaultsInNewNode` */
  function Prune(path: seq<string>, n: Node): Node
    decreases n, 1
  {
    match n
    case Mapping(notes, tag, entries) => Mapping(notes, tag, PruneEntries(path, entries))
    case Sequence(notes, tag, items) => Sequence(notes, tag, PruneItems(path, items))
    case _ => n
  }

  function PruneItems(path: seq<string>, items: seq<Node>): (r: seq<Node>)
    ensures |r| == |items|
    ensures forall i | 0 <= i < |items| :: r[i] == Prune(path, items[i])
    decreases items, 0
  {
    if items == [] then [] else [Prune(path, items[0])] + PruneItems(path, items[1..])
  }

  predicate IsEmptyCollection(n: Node) {
    (n.Mapping? && n.entries == []) || (n.Sequence? && n.items == [])
  }

  /** Does an entry of a new mapping survive the pruning? */
  predicate Survives(path: seq<string>, e: Entry)
    decreases e, 2
  {
    var here := path + [e.key];
    !IsKnownDefault(here, e.value) && !IsEmptyCollection(Prune(here, e.value))
  }

  function PruneEntries(path: seq<string>, entries: seq<Entry>): seq<Entry>
    decreases entries, 0
  {
    if entries == [] then []
    else
      (if Survives(path, entries[0])
       then [entries[0].(value := Prune(path + [entries[0].key], entries[0].value))] else [])
      + PruneEntries(path, entries[1..])
  }

  /** The same scalar, whatever is noted beside it. */
  predicate SameScalar(a: Option<Node>, b: Option<Node>) {
    a.Some? && b.Some? && a.value.Scalar? && b.value.Scalar? && a.value.tag == b.value.tag
      && a.value.text == b.value.text
  }

  // ---- what the pruning keeps ----------------------------------------------------------------------

  /** A scalar that says something: it is neither a zero value nor the known default of its key path. */
  predicate Telling(path: seq<string>, n: Node) {
    n.Scalar? && !IsZero(n) && !IsKnownDefault(path, n)
  }

  lemma {:induction false} TellingIsNotZero(n: Node, steps: seq<Step>)
    requires Lookup(n, steps).Some? && Lookup(n, steps).value.Scalar? && !IsZero(Lookup(n, steps).value)
    ensures !IsZero(n)
    decreases |steps|
  {
    if steps != [] {
      match steps[0]
      case Key(k) => TellingIsNotZero(At(n.entries, k).value, steps[1..]);
      case Index(i) => TellingIsNotZero(n.items[i], steps[1..]);
    }
  }

  /** Under unique keys the pruned entries hold a key exactly when its entry survives. */
  lemma {:induction false} PrunedAt(path: seq<string>, entries: seq<Entry>, i: nat)
    requires i < |entries| && UniqueKeys(entries)
    ensures At(PruneEntries(path, entries), entries[i].key) ==
            if Survives(path, entries[i]) then Some(Prune(path + [entries[i].key], entries[i].value)) else None
  {
    var rest := entries[1..];
    if i == 0 {
      PrunedKeys(path, rest, entries[0].key);
      AtAbsent(PruneEntries(path, rest), entries[0].key);
      if Survives(path, entries[0]) {
        AtFirst(PruneEntries(path, entries), 0);
      } else {
        assert PruneEntries(path, entries) == PruneEntries(path, rest);
      }
    } else {
      assert rest[i - 1] == entries[i];
      PrunedAt(path, rest, i - 1);
      if Survives(path, entries[0]) {
        AtLater(entries[0].(value := Prune(path + [entries[0].key], entries[0].value)),
                PruneEntries(path, rest), entries[i].key);
      } else {
        assert PruneEntries(path, entries) == PruneEntries(path, rest);
      }
    }
  }

  lemma AtLater(first: Entry, rest: seq<Entry>, key: string)
    requires first.key != key
    ensures At([first] + rest, key) == At(rest, key)
  {
    assert ([first] + rest)[1..] == rest;
  }

  lemma {:induction false} PrunedKeys(path: seq<string>, entries: seq<Entry>, key: string)
    requires forall j | 0 <= j < |entries| :: entries[j].key != key
    ensures forall j | 0 <= j < |PruneEntries(path, entries)| :: PruneEntries(path, entries)[j].key != key
  {
    if entries != [] {
      PrunedKeys(path, entries[1..], key);
    }
  }

  lemma KeysOfCons(path: seq<string>, steps: seq<Step>)
    requires steps != []
    ensures path + KeysOf(steps) ==
            (if steps[0].Key? then path + [steps[0].key] else path) + KeysOf(steps[1..])
  {
  }

  /** Pruning a new value loses no telling scalar. */
  lemma {:induction false} PruneKeepsTelling(path: seq<string>, n: Node, steps: seq<Step>)
    requires Unique(n)
    requires Lookup(n, steps).Some? && Telling(path + KeysOf(steps), Lookup(n, steps).value)
    ensures Lookup(Prune(path, n), steps) == Lookup(n, steps)
    decreases |steps|
  {
    if steps != [] {
      KeysOfCons(path, steps);
      match steps[0]
      case Key(k) =>
        var i := FindKey(n.entries, k);
        var v := n.entries[i].value;
        PruneKeepsTelling(path + [k], v, steps[1..]);
        TellingIsNotZero(v, steps[1..]);
        PrunedAt(path, n.entries, i);
        SurvivesTelling(path, n.entries[i], steps[1..]);
      case Index(i) =>
        PruneKeepsTelling(path, n.items[i], steps[1..]);
    }
  }

  lemma SurvivesTelling(path: seq<string>, e: Entry, steps: seq<Step>)
    requires !IsZero(e.value)
    requires Lookup(e.value, steps).Some? && Telling(path + [e.key] + KeysOf(steps), Lookup(e.value, steps).value)
    requires Lookup(Prune(path + [e.key], e.value), steps) == Lookup(e.value, steps)
    ensures Survives(path, e)
  {
    var here := path + [e.key];
    if steps == [] {
      assert here + KeysOf(steps) == here;
    }
  }
}
