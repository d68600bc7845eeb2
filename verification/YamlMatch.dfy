/** Matching the elements of a generated sequence with those of the existing one, as functions on values
    (internal/config/config_yaml.go, `reorderSequenceForMerge`, `matchSequenceElement`). */
module YamlMatch {
  import opened Wrappers
  import opened YamlTree

  const IDENTITY_KEYS := ["id", "name", "alias", "api-key", "api_key", "apikey", "key", "provider", "model"]

  /** `mappingScalarValue` */
  function MappingScalar(entries: seq<Entry>, key: string): string {
    if entries == [] then ""
    else if entries[0].value.Scalar? && Lower(Trim(entries[0].key)) == Lower(key) then Trim(entries[0].value.text)
    else MappingScalar(entries[1..], key)
  }

  function ByIdentityKey(entries: seq<Entry>, keys: seq<string>): string {
    if keys == [] then ""
    else
      var v := MappingScalar(entries, keys[0]);
      if v != "" then keys[0] + "=" + v else ByIdentityKey(entries, keys[1..])
  }

  function ByFirstScalar(entries: seq<Entry>): string {
    if entries == [] then ""
    else if entries[0].value.Scalar? && Trim(entries[0].value.text) != "" then
      Lower(Trim(entries[0].key)) + "=" + Trim(entries[0].value.text)
    else ByFirstScalar(entries[1..])
  }

  /** `sequenceElementIdentity` of a mapping */
  function Identity(entries: seq<Entry>): string {
    var id := ByIdentityKey(entries, IDENTITY_KEYS);
    if id != "" then id else ByFirstScalar(entries)
  }

  /** What an element is recognised by, if by anything. */
  datatype Id = NoId | MappingId(id: string) | TextId(text: string)

  function IdOf(n: Node): Id {
    match n
    case Mapping(_, _, entries) => if Identity(entries) != "" then MappingId(Identity(entries)) else NoId
    case Scalar(_, _, text) => if Trim(text) != "" then TextId(Trim(text)) else NoId
    case _ => NoId
  }

  /** `nodesStructurallyEqual`, but for aliases: whether two of them are equal is a matter of what they stand
      for, which the trees do not tell, and `aliases` says what to take it for. */
  predicate StructEqual(a: Node, b: Node, aliases: bool)
    decreases a
  {
    match (a, b)
    case (Mapping(_, _, es), Mapping(_, _, fs)) =>
      && |es| == |fs|
      && forall i | 0 <= i < |es| ::
          StructEqual(es[i].name, fs[i].name, aliases) && StructEqual(es[i].value, fs[i].value, aliases)
    case (Sequence(_, _, xs), Sequence(_, _, ys)) =>
      |xs| == |ys| && forall i | 0 <= i < |xs| :: StructEqual(xs[i], ys[i], aliases)
    case (Scalar(_, _, s), Scalar(_, _, t)) => Trim(s) == Trim(t)
    case (Alias(_, _), Alias(_, _)) => aliases
    case _ => false
  }

  /** Equal even if no two aliases are, so equal whatever the aliases are. */
  lemma {:induction false} EqualAnyway(a: Node, b: Node)
    requires StructEqual(a, b, false)
    ensures StructEqual(a, b, true)
    decreases a
  {
    match (a, b)
    case (Mapping(_, _, es), Mapping(_, _, fs)) =>
      forall i | 0 <= i < |es|
        ensures StructEqual(es[i].name, fs[i].name, true) && StructEqual(es[i].value, fs[i].value, true)
      {
        EqualAnyway(es[i].name, fs[i].name);
        EqualAnyway(es[i].value, fs[i].value);
      }
    case (Sequence(_, _, xs), Sequence(_, _, ys)) =>
      forall i | 0 <= i < |xs| ensures StructEqual(xs[i], ys[i], true) {
        EqualAnyway(xs[i], ys[i]);
      }
    case _ =>
  }

  predicate NoAliases(n: Node) {
    match n
    case Alias(_, _) => false
    case Mapping(_, _, entries) =>
      forall i | 0 <= i < |entries| :: NoAliases(entries[i].name) && NoAliases(entries[i].value)
    case Sequence(_, _, items) => forall i | 0 <= i < |items| :: NoAliases(items[i])
    case Scalar(_, _, _) => true
  }

  /** Where one side has no alias, the trees decide. */
  lemma {:induction false} TreesDecide(a: Node, b: Node)
    requires NoAliases(b)
    ensures StructEqual(a, b, true) == StructEqual(a, b, false)
    decreases a
  {
    match (a, b)
    case (Mapping(_, _, es), Mapping(_, _, fs)) =>
      if |es| == |fs| {
        forall i | 0 <= i < |es|
          ensures StructEqual(es[i].name, fs[i].name, true) == StructEqual(es[i].name, fs[i].name, false)
          ensures StructEqual(es[i].value, fs[i].value, true) == StructEqual(es[i].value, fs[i].value, false)
        {
          TreesDecide(es[i].name, fs[i].name);
          TreesDecide(es[i].value, fs[i].value);
        }
      }
    case (Sequence(_, _, xs), Sequence(_, _, ys)) =>
      if |xs| == |ys| {
        forall i | 0 <= i < |xs| ensures StructEqual(xs[i], ys[i], true) == StructEqual(xs[i], ys[i], false) {
          TreesDecide(xs[i], ys[i]);
        }
      }
    case _ =>
  }

  /** No key is an alias. What an alias stands for is compared, but what it is called tells keys apart. */
  predicate PlainKeys(n: Node) {
    n.Mapping? ==> forall i | 0 <= i < |n.entries| :: !n.entries[i].name.Alias?
  }

  /** The same keys with structurally equal values. */
  predicate EntriesEqual(es: seq<Entry>, fs: seq<Entry>) {
    && |es| == |fs|
    && forall i | 0 <= i < |es| :: Trim(es[i].key) == Trim(fs[i].key) && StructEqual(es[i].value, fs[i].value, true)
  }

  lemma {:induction false} EqualSameScalars(es: seq<Entry>, fs: seq<Entry>, key: string)
    requires EntriesEqual(es, fs)
    ensures MappingScalar(es, key) == MappingScalar(fs, key)
    ensures ByFirstScalar(es) == ByFirstScalar(fs)
  {
    if es != [] {
      EqualSameScalars(es[1..], fs[1..], key);
    }
  }

  lemma {:induction false} EqualSameKeyed(es: seq<Entry>, fs: seq<Entry>, keys: seq<string>)
    requires EntriesEqual(es, fs)
    ensures ByIdentityKey(es, keys) == ByIdentityKey(fs, keys)
  {
    if keys != [] {
      EqualSameScalars(es, fs, keys[0]);
      EqualSameKeyed(es, fs, keys[1..]);
    }
  }

  lemma EqualNames(a: Node, b: Node)
    requires StructEqual(a, b, true) && !b.Alias?
    ensures Trim(TextOf(a)) == Trim(TextOf(b))
  {
  }

  /** Structurally equal nodes are recognised by the same thing. */
  lemma StructEqualSameId(a: Node, b: Node)
    requires StructEqual(a, b, true) && PlainKeys(b)
    ensures IdOf(a) == IdOf(b)
  {
    if a.Mapping? {
      forall i | 0 <= i < |a.entries| ensures Trim(a.entries[i].key) == Trim(b.entries[i].key) {
        EqualNames(a.entries[i].name, b.entries[i].name);
      }
      hide Trim;
      EqualSameKeyed(a.entries, b.entries, IDENTITY_KEYS);
      EqualSameScalars(a.entries, b.entries, "");
    }
  }

  // ---- matching ------------------------------------------------------------------------------------

  /** Which pairs of an old and a new element (by their places) were found equal when their sequences were
      matched, and the same for the sequences inside the generated children, by their places. Consulted only
      where two aliases leave the trees undecided. */
  datatype Verdicts = Verdicts(same: set<(nat, nat)>, inner: seq<Verdicts>)

  const NO_VERDICTS := Verdicts({}, [])

  function Inner(v: Verdicts, i: nat): Verdicts {
    if i < |v.inner| then v.inner[i] else NO_VERDICTS
  }

  /** The two ways an old element matches a new one: by its identity, and by its structure. */
  datatype Manner = ById | ByStructure

  predicate Matches(manner: Manner, was: Node, target: Node, same: bool) {
    match manner
    case ById => IdOf(target) != NoId && IdOf(was) == IdOf(target)
    case ByStructure => StructEqual(was, target, false) || (StructEqual(was, target, true) && same)
  }

  predicate Free(manner: Manner, original: seq<Node>, used: seq<bool>, src: seq<Node>, same: set<(nat, nat)>,
                 i: nat, k: nat)
    requires |used| == |original| && i < |src| && k < |original|
  {
    !used[k] && Matches(manner, original[k], src[i], (k, i) in same)
  }

  /** The first unused old element from `from` on that matches the `i`-th new one. */
  function FirstFree(manner: Manner, original: seq<Node>, used: seq<bool>, src: seq<Node>, same: set<(nat, nat)>,
                     i: nat, from: nat): (k: int)
    requires |used| == |original| && i < |src| && from <= |original|
    ensures k == -1 || (from <= k < |original| && Free(manner, original, used, src, same, i, k))
    ensures forall j | from <= j < |original| && (k < 0 || j < k) :: !Free(manner, original, used, src, same, i, j)
    decreases |original| - from
  {
    if from == |original| then -1
    else if Free(manner, original, used, src, same, i, from) then from
    else FirstFree(manner, original, used, src, same, i, from + 1)
  }

  /** `matchSequenceElement` as a function. */
  function Match(original: seq<Node>, used: seq<bool>, src: seq<Node>, same: set<(nat, nat)>, i: nat): (k: int)
    requires |used| == |original| && i < |src|
    ensures k == -1 || (0 <= k < |original| && !used[k])
  {
    var k := FirstFree(ById, original, used, src, same, i, 0);
    if k >= 0 then k else FirstFree(ByStructure, original, used, src, same, i, 0)
  }

  function Using(used: seq<bool>, k: int): (r: seq<bool>)
    requires k < |used|
    ensures |r| == |used|
  {
    if k >= 0 then used[k := true] else used
  }

  /** Which old element each new one from the `i`-th on takes over (-1 for none). */
  function Slots(original: seq<Node>, used: seq<bool>, src: seq<Node>, same: set<(nat, nat)>, i: nat): (slots: seq<int>)
    requires |used| == |original| && i <= |src|
    ensures |slots| == |src| - i && forall j | 0 <= j < |slots| :: -1 <= slots[j] < |original|
    decreases |src| - i
  {
    if i == |src| then []
    else
      var k := Match(original, used, src, same, i);
      [k] + Slots(original, Using(used, k), src, same, i + 1)
  }

  function Unused(count: nat): seq<bool> {
    seq(count, _ => false)
  }

  /** `reorderSequenceForMerge` as a function: the old elements in the order of the new ones. */
  function Reorder(original: seq<Node>, src: seq<Node>, same: set<(nat, nat)>): (ordered: seq<Option<Node>>)
    ensures |ordered| == |src|
  {
    var slots := Slots(original, Unused(|original|), src, same, 0);
    seq(|src|, i requires 0 <= i < |src| => if slots[i] >= 0 then Some(original[slots[i]]) else None)
  }

  /** Without aliases among the new elements the verdicts do not matter. */
  lemma {:induction false} VerdictsDoNotMatter(original: seq<Node>, used: seq<bool>, src: seq<Node>,
                                               same: set<(nat, nat)>, same': set<(nat, nat)>, i: nat)
    requires |used| == |original| && i <= |src| && forall j | 0 <= j < |src| :: NoAliases(src[j])
    ensures Slots(original, used, src, same, i) == Slots(original, used, src, same', i)
    decreases |src| - i
  {
    if i < |src| {
      forall k, manner | 0 <= k < |original|
        ensures Free(manner, original, used, src, same, i, k) == Free(manner, original, used, src, same', i, k)
      {
        hide IdOf, StructEqual, NoAliases;
        TreesDecide(original[k], src[i]);
      }
      hide Free, FirstFree, NoAliases;
      assert Match(original, used, src, same, i) == Match(original, used, src, same', i);
      VerdictsDoNotMatter(original, Using(used, Match(original, used, src, same, i)), src, same, same', i + 1);
    }
  }

  // ---- what the matching promises --------------------------------------------------------------------

  predicate TakenOnce(used: seq<bool>, slots: seq<int>) {
    && (forall i | 0 <= i < |slots| && slots[i] >= 0 :: slots[i] < |used| && !used[slots[i]])
    && (forall i, j | 0 <= i < j < |slots| && slots[i] >= 0 :: slots[i] != slots[j])
  }

  /** No old element is taken over twice, and none that was already used. */
  lemma {:induction false} SlotsAreTakenOnce(original: seq<Node>, used: seq<bool>, src: seq<Node>,
                                             same: set<(nat, nat)>, i: nat)
    requires |used| == |original| && i <= |src|
    ensures TakenOnce(used, Slots(original, used, src, same, i))
    decreases |src| - i
  {
    if i < |src| {
      var k := Match(original, used, src, same, i);
      SlotsAreTakenOnce(original, Using(used, k), src, same, i + 1);
      TakenOnceMore(used, k, Slots(original, Using(used, k), src, same, i + 1));
    }
  }

  lemma TakenOnceMore(used: seq<bool>, k: int, rest: seq<int>)
    requires -1 <= k < |used| && (k >= 0 ==> !used[k])
    requires TakenOnce(Using(used, k), rest)
    ensures TakenOnce(used, [k] + rest)
  {
    forall i, j | 0 <= i < j < |[k] + rest| && ([k] + rest)[i] >= 0
      ensures ([k] + rest)[i] != ([k] + rest)[j]
    {
      assert i > 0 ==> ([k] + rest)[i] == rest[i - 1];
      assert ([k] + rest)[j] == rest[j - 1];
    }
  }

  /** A matching old element of a new one has its identity, when it has one at all. */
  lemma MatchHasIdentity(original: seq<Node>, used: seq<bool>, src: seq<Node>, same: set<(nat, nat)>, i: nat)
    requires |used| == |original| && i < |src| && PlainKeys(src[i])
    ensures var k := Match(original, used, src, same, i); k >= 0 ==> IdOf(original[k]) == IdOf(src[i])
  {
    hide IdOf, StructEqual;
    var k := Match(original, used, src, same, i);
    if k >= 0 && !Matches(ById, original[k], src[i], false) {
      if StructEqual(original[k], src[i], false) {
        EqualAnyway(original[k], src[i]);
      }
      StructEqualSameId(original[k], src[i]);
    }
  }

  /** An element that alone has its identity, among the new ones as among the old ones, takes over exactly the
      old element with that identity, wherever the two stand. */
  lemma {:induction false} IdentityFollows(original: seq<Node>, used: seq<bool>, src: seq<Node>, same: set<(nat, nat)>,
                                           from: nat, i: nat, k: nat)
    requires |used| == |original| && from <= i < |src| && k < |original| && !used[k]
    requires forall j | from <= j < i :: PlainKeys(src[j])
    requires IdOf(src[i]) != NoId && IdOf(original[k]) == IdOf(src[i])
    requires forall j | 0 <= j < |src| && j != i :: IdOf(src[j]) != IdOf(src[i])
    requires forall m | 0 <= m < |original| && m != k :: IdOf(original[m]) != IdOf(src[i])
    ensures Slots(original, used, src, same, from)[i - from] == k
    decreases i - from
  {
    hide IdOf, StructEqual;
    if from == i {
      assert Free(ById, original, used, src, same, i, k);
    } else {
      var first := Match(original, used, src, same, from);
      MatchHasIdentity(original, used, src, same, from);
      IdentityFollows(original, Using(used, first), src, same, from + 1, i, k);
    }
  }

  lemma ReorderKeepsIdentity(original: seq<Node>, src: seq<Node>, same: set<(nat, nat)>, i: nat, k: nat)
    requires i < |src| && k < |original| && forall j | 0 <= j < i :: PlainKeys(src[j])
    requires IdOf(src[i]) != NoId && IdOf(original[k]) == IdOf(src[i])
    requires forall j | 0 <= j < |src| && j != i :: IdOf(src[j]) != IdOf(src[i])
    requires forall m | 0 <= m < |original| && m != k :: IdOf(original[m]) != IdOf(src[i])
    ensures Reorder(original, src, same)[i] == Some(original[k])
  {
    IdentityFollows(original, Unused(|original|), src, same, 0, i, k);
  }
}
