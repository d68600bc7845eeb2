/** What elements of a sequence are recognised by and which old element each new one takes over, told from their texts
    (internal/config/config_yaml.go, `sequenceElementIdentity`, `nodesStructurallyEqual`, `matchSequenceElement`); and
    of which kind a merged value is. */
module YamlIdentity {
  import opened Wrappers
  import opened YamlTree
  import opened YamlMatch
  import opened YamlMerge

  // ---- texts -----------------------------------------------------------------------------------------

  ghost predicate Blank(s: string) {
    forall i | 0 <= i < |s| :: s[i] == ' ' || 9 <= s[i] as int <= 13
  }

  /** `core` is what stands between white space in `s`. */
  ghost predicate TrimsTo(s: string, core: string) {
    exists i, j :: CutAt(s, core, i, j)
  }

  ghost predicate CutAt(s: string, core: string, i: int, j: int) {
    && 0 <= i <= j <= |s| && core == s[i..j] && Blank(s[..i]) && Blank(s[j..])
    && (core != "" ==> !Blank(s[i..i + 1]) && !Blank(s[j - 1..j]))
  }

  lemma {:induction false} TrimLeftOf(left: string, rest: string)
    requires Blank(left) && (rest != "" ==> !Blank(rest[..1]))
    ensures TrimLeft(left + rest) == rest
  {
    if left == "" {
      assert left + rest == rest;
    } else {
      assert (left + rest)[1..] == left[1..] + rest;
      TrimLeftOf(left[1..], rest);
    }
  }

  lemma {:induction false} TrimRightOf(rest: string, right: string)
    requires Blank(right) && (rest != "" ==> !Blank(rest[|rest| - 1..]))
    ensures TrimRight(rest + right) == rest
    decreases |right|
  {
    if right == "" {
      assert rest + right == rest;
    } else {
      assert (rest + right)[..|rest + right| - 1] == rest + right[..|right| - 1];
      TrimRightOf(rest, right[..|right| - 1]);
    }
  }

  lemma CutIsTrimmed(s: string, core: string, i: int, j: int)
    requires CutAt(s, core, i, j)
    ensures Trim(s) == core
  {
    hide Blank;
    assert s == s[..i] + s[i..];
    if core == "" {
      assert s == s[..i] + s[j..];
      BlankSum(s[..i], s[j..]);
      assert s == s + "";
      TrimLeftOf(s, "");
    } else {
      var rest := s[i..];
      assert rest[..1] == s[i..i + 1];
      TrimLeftOf(s[..i], rest);
      assert rest == core + s[j..] && core[|core| - 1..] == s[j - 1..j];
      TrimRightOf(core, s[j..]);
    }
  }

  lemma BlankSum(a: string, b: string)
    requires Blank(a) && Blank(b)
    ensures Blank(a + b)
  {
  }

  lemma {:induction false} LeftCut(s: string) returns (i: nat)
    ensures i <= |s| && Blank(s[..i]) && (i < |s| ==> !Blank(s[i..i + 1]))
  {
    if s != "" && Blank(s[..1]) {
      i := LeftCut(s[1..]);
      BlankSum(s[..1], s[1..][..i]);
      assert s[..i + 1] == s[..1] + s[1..][..i];
      assert i < |s| - 1 ==> s[1..][i..i + 1] == s[i + 1..i + 2];
      i := i + 1;
    } else {
      i := 0;
      assert s[..0] == "";
    }
  }

  lemma {:induction false} RightCut(s: string) returns (j: nat)
    ensures j <= |s| && Blank(s[j..]) && (j > 0 ==> !Blank(s[j - 1..j]))
    decreases |s|
  {
    var n := |s| - 1;
    if s != "" && Blank(s[n..]) {
      j := RightCut(s[..n]);
      BlankSum(s[..n][j..], s[n..]);
      assert s[j..] == s[..n][j..] + s[n..];
      assert j > 0 ==> s[..n][j - 1..j] == s[j - 1..j];
    } else {
      j := |s|;
      assert s[j..] == "";
      assert s != "" ==> s[j - 1..j] == s[n..];
    }
  }

  lemma Cut(s: string) returns (i: nat, j: nat)
    ensures CutAt(s, Trim(s), i, j)
  {
    hide Blank, TrimLeft, TrimRight;
    i := LeftCut(s);
    var rest := s[i..];
    var k := RightCut(rest);
    j := i + k;
    assert s[i..j] == rest[..k] && s[j..] == rest[k..];
    assert k > 0 ==> rest[k - 1..k] == s[j - 1..j];
    if k == 0 {
      assert CutAt(s, "", i, j);
    } else {
      assert CutAt(s, rest[..k], i, j);
    }
    CutIsTrimmed(s, s[i..j], i, j);
  }

  /** Trimming cuts the white space at both ends, and nothing else. */
  lemma TrimExactly(s: string, core: string)
    ensures Trim(s) == core <==> TrimsTo(s, core)
  {
    hide Trim, CutAt;
    if TrimsTo(s, core) {
      var i, j :| CutAt(s, core, i, j);
      CutIsTrimmed(s, core, i, j);
    }
    var i, j := Cut(s);
  }

  const UPPER := "ABCDEFGHIJKLMNOPQRSTUVWXYZ"
  const LOWER := "abcdefghijklmnopqrstuvwxyz"

  lemma Letter(k: nat)
    requires k < 26
    ensures UPPER[k] as int == 65 + k && LOWER[k] as int == 97 + k
  {
  }

  lemma IsLetter(c: char)
    ensures c in UPPER <==> 'A' <= c <= 'Z'
  {
    if 'A' <= c <= 'Z' {
      Letter(c as int - 65);
      assert c == UPPER[c as int - 65];
    }
    if c in UPPER {
      var k :| 0 <= k < |UPPER| && UPPER[k] == c;
      Letter(k);
    }
  }

  /** Lower case exchanges the capital letters, place by place, and leaves everything else. */
  lemma LowerExactly(s: string, i: nat)
    requires i < |s|
    ensures |Lower(s)| == |s|
    ensures forall k | 0 <= k < 26 :: s[i] == UPPER[k] ==> Lower(s)[i] == LOWER[k]
    ensures s[i] !in UPPER ==> Lower(s)[i] == s[i]
  {
    IsLetter(s[i]);
    forall k | 0 <= k < 26 && s[i] == UPPER[k]
      ensures Lower(s)[i] == LOWER[k]
    {
      Letter(k);
    }
  }

  // ---- identity --------------------------------------------------------------------------------------

  /** Is entry `i` the first one with a scalar under this key, whatever the case of the key? */
  ghost predicate ScalarUnder(entries: seq<Entry>, key: string, i: nat) {
    && i < |entries| && entries[i].value.Scalar? && Lower(Trim(entries[i].key)) == Lower(key)
    && forall j | 0 <= j < i && entries[j].value.Scalar? :: Lower(Trim(entries[j].key)) != Lower(key)
  }

  /** The text under a key, blank when there is none. */
  ghost predicate Under(entries: seq<Entry>, key: string, text: string) {
    if exists i: nat :: ScalarUnder(entries, key, i)
    then exists i: nat :: ScalarUnder(entries, key, i) && text == Trim(entries[i].value.text)
    else text == ""
  }

  lemma {:induction false} ScalarIsUnder(entries: seq<Entry>, key: string)
    ensures Under(entries, key, MappingScalar(entries, key))
  {
    hide Trim, Lower;
    if entries != [] {
      var rest := entries[1..];
      if entries[0].value.Scalar? && Lower(Trim(entries[0].key)) == Lower(key) {
        assert ScalarUnder(entries, key, 0);
      } else {
        ScalarIsUnder(rest, key);
        forall i: nat
          ensures ScalarUnder(rest, key, i) <==> ScalarUnder(entries, key, i + 1)
        {
          UnderLater(entries, key, i);
        }
        assert !ScalarUnder(entries, key, 0);
        if exists i: nat :: ScalarUnder(rest, key, i) {
          var i: nat :| ScalarUnder(rest, key, i) && MappingScalar(rest, key) == Trim(rest[i].value.text);
          assert ScalarUnder(entries, key, i + 1) && entries[i + 1] == rest[i];
        } else {
          forall i: nat
            ensures !ScalarUnder(entries, key, i)
          {
            if i > 0 { assert !ScalarUnder(rest, key, i - 1); }
          }
        }
      }
    }
  }

  lemma UnderLater(entries: seq<Entry>, key: string, i: nat)
    requires entries != [] && !(entries[0].value.Scalar? && Lower(Trim(entries[0].key)) == Lower(key))
    ensures ScalarUnder(entries[1..], key, i) <==> ScalarUnder(entries, key, i + 1)
  {
    hide Trim, Lower;
    var rest := entries[1..];
    assert forall j | 0 <= j < |rest| :: rest[j] == entries[j + 1];
    if ScalarUnder(rest, key, i) {
      forall j | 0 <= j < i + 1 && entries[j].value.Scalar?
        ensures Lower(Trim(entries[j].key)) != Lower(key)
      {
        if j > 0 { assert entries[j] == rest[j - 1]; }
      }
    }
  }

  lemma OneUnder(entries: seq<Entry>, key: string, a: string, b: string)
    requires Under(entries, key, a) && Under(entries, key, b)
    ensures a == b
  {
    hide Trim, Lower;
    if exists i: nat :: ScalarUnder(entries, key, i) {
      var i: nat :| ScalarUnder(entries, key, i) && a == Trim(entries[i].value.text);
      var j: nat :| ScalarUnder(entries, key, j) && b == Trim(entries[j].value.text);
      assert i == j;
    }
  }

  /** The keys that name an element, the telling ones first. */
  const NAMING_KEYS := ["id", "name", "alias", "api-key", "api_key", "apikey", "key", "provider", "model"]

  /** The `k`-th of the naming keys is the first with a text, and this is the text. */
  ghost predicate NamedBy(entries: seq<Entry>, keys: seq<string>, k: nat, text: string) {
    && k < |keys| && text != "" && Under(entries, keys[k], text)
    && forall j | 0 <= j < k :: Under(entries, keys[j], "")
  }

  lemma {:induction false} NamedByKey(entries: seq<Entry>, keys: seq<string>) returns (k: nat, text: string)
    ensures if k < |keys|
            then NamedBy(entries, keys, k, text) && ByIdentityKey(entries, keys) == keys[k] + "=" + text
            else ByIdentityKey(entries, keys) == "" && forall j | 0 <= j < |keys| :: Under(entries, keys[j], "")
  {
    hide MappingScalar, Under;
    k, text := 0, "";
    if keys != [] {
      ScalarIsUnder(entries, keys[0]);
      text := MappingScalar(entries, keys[0]);
      if text == "" {
        k, text := NamedByKey(entries, keys[1..]);
        k := k + 1;
        if k < |keys| {
          forall j | 0 <= j < k ensures Under(entries, keys[j], "") {
            if j > 0 { assert keys[j] == keys[1..][j - 1]; }
          }
        } else {
          forall j | 0 <= j < |keys| ensures Under(entries, keys[j], "") {
            if j > 0 { assert keys[j] == keys[1..][j - 1]; }
          }
        }
      }
    }
  }

  /** Entry `i` is the first with a scalar that is not blank. */
  ghost predicate FirstText(entries: seq<Entry>, i: nat) {
    && i < |entries| && entries[i].value.Scalar? && Trim(entries[i].value.text) != ""
    && forall j | 0 <= j < i :: entries[j].value.Scalar? ==> Trim(entries[j].value.text) == ""
  }

  lemma {:induction false} FirstTextOf(entries: seq<Entry>) returns (i: nat)
    ensures if i < |entries|
            then FirstText(entries, i)
                 && ByFirstScalar(entries) == Lower(Trim(entries[i].key)) + "=" + Trim(entries[i].value.text)
            else ByFirstScalar(entries) == ""
                 && forall j | 0 <= j < |entries| :: entries[j].value.Scalar? ==> Trim(entries[j].value.text) == ""
  {
    hide Trim, Lower;
    i := 0;
    if entries != [] && !(entries[0].value.Scalar? && Trim(entries[0].value.text) != "") {
      i := FirstTextOf(entries[1..]);
      assert forall j | 1 <= j < |entries| :: entries[j] == entries[1..][j - 1];
      i := i + 1;
    }
  }

  ghost predicate Names(entries: seq<Entry>, k: nat, text: string, id: string) {
    NamedBy(entries, NAMING_KEYS, k, text) && id == NAMING_KEYS[k] + "=" + text
  }

  ghost predicate NamesByText(entries: seq<Entry>, i: nat, id: string) {
    FirstText(entries, i) && id == Lower(Trim(entries[i].key)) + "=" + Trim(entries[i].value.text)
  }

  ghost predicate NoNames(entries: seq<Entry>, keys: seq<string>) {
    forall j | 0 <= j < |keys| :: Under(entries, keys[j], "")
  }

  ghost predicate NoTexts(entries: seq<Entry>) {
    forall j | 0 <= j < |entries| :: entries[j].value.Scalar? ==> Trim(entries[j].value.text) == ""
  }

  /** What a mapping is recognised by: the first of the naming keys that has a text; without any, its first text, under
      whatever key; without that, nothing. */
  ghost predicate RecognisedBy(entries: seq<Entry>, id: string) {
    || (exists k: nat, text :: Names(entries, k, text, id))
    || (NoNames(entries, NAMING_KEYS) && exists i: nat :: NamesByText(entries, i, id))
    || (NoNames(entries, NAMING_KEYS) && NoTexts(entries) && id == "")
  }

  lemma OneName(entries: seq<Entry>, keys: seq<string>, k: nat, text: string, k': nat, text': string)
    requires NamedBy(entries, keys, k, text) && NamedBy(entries, keys, k', text')
    ensures k == k' && text == text'
  {
    hide Under;
    if k < k' {
      OneUnder(entries, keys[k], text, "");
    } else if k' < k {
      OneUnder(entries, keys[k'], text', "");
    } else {
      OneUnder(entries, keys[k], text, text');
    }
  }

  lemma NoName(entries: seq<Entry>, keys: seq<string>, k: nat, text: string)
    requires NamedBy(entries, keys, k, text)
    ensures !NoNames(entries, keys)
  {
    hide Under;
    if NoNames(entries, keys) {
      OneUnder(entries, keys[k], text, "");
    }
  }

  lemma IdentityIs(entries: seq<Entry>)
    ensures RecognisedBy(entries, Identity(entries))
  {
    hide Under, NamedBy, FirstText, Trim, Lower;
    var k, text := NamedByKey(entries, NAMING_KEYS);
    assert NAMING_KEYS == IDENTITY_KEYS;
    if k < |NAMING_KEYS| {
      assert Names(entries, k, text, Identity(entries));
    } else {
      var i := FirstTextOf(entries);
      if i < |entries| {
        assert NamesByText(entries, i, Identity(entries));
      }
    }
  }

  lemma OneRecognition(entries: seq<Entry>, a: string, b: string)
    requires RecognisedBy(entries, a) && RecognisedBy(entries, b)
    ensures a == b
  {
    hide Under, NamedBy, NoNames, Trim, Lower;
    if k: nat, text :| Names(entries, k, text, a) {
      NoName(entries, NAMING_KEYS, k, text);
      var k': nat, text' :| Names(entries, k', text', b);
      OneName(entries, NAMING_KEYS, k, text, k', text');
    } else if k: nat, text :| Names(entries, k, text, b) {
      NoName(entries, NAMING_KEYS, k, text);
    } else if i: nat :| NamesByText(entries, i, a) {
      if j: nat :| NamesByText(entries, j, b) {
        assert i == j;
      }
    }
  }

  /** A mapping is recognised by exactly this. */
  lemma IdentityExactly(entries: seq<Entry>, id: string)
    ensures Identity(entries) == id <==> RecognisedBy(entries, id)
  {
    hide *;
    IdentityIs(entries);
    if RecognisedBy(entries, id) {
      OneRecognition(entries, id, Identity(entries));
    }
  }

  /** Two elements have the same identity when both are mappings recognised by the same thing, or both are scalars with
      the same text. */
  lemma SameIdExactly(a: Node, b: Node)
    ensures (IdOf(b) != NoId && IdOf(a) == IdOf(b)) <==>
              || (a.Mapping? && b.Mapping? && Identity(b.entries) != "" && Identity(a.entries) == Identity(b.entries))
              || (a.Scalar? && b.Scalar? && Trim(b.text) != "" && Trim(a.text) == Trim(b.text))
  {
    hide Identity, Trim;
  }

  // ---- structure -------------------------------------------------------------------------------------

  /** A tree without comments, styles and tags, its texts trimmed. */
  function Bare(n: Node): Node
    decreases n
  {
    match n
    case Scalar(_, _, text) => Scalar("", "", Trim(text))
    case Alias(_, _) => Alias("", "")
    case Mapping(_, _, entries) => Mapping("", "", BareEntries(entries))
    case Sequence(_, _, items) => Sequence("", "", BareItems(items))
  }

  function BareEntry(e: Entry): Entry
    decreases e
  {
    Entry(Bare(e.name), Bare(e.value))
  }

  function BareEntries(entries: seq<Entry>): (r: seq<Entry>)
    ensures |r| == |entries| && forall i | 0 <= i < |r| :: r[i] == BareEntry(entries[i])
    decreases entries
  {
    if entries == [] then [] else [BareEntry(entries[0])] + BareEntries(entries[1..])
  }

  function BareItems(items: seq<Node>): (r: seq<Node>)
    ensures |r| == |items| && forall i | 0 <= i < |r| :: r[i] == Bare(items[i])
    decreases items
  {
    if items == [] then [] else [Bare(items[0])] + BareItems(items[1..])
  }

  /** Structural equality, given what is taken of two aliases, against the bare trees. */
  ghost predicate EqualAre(a: Node, b: Node) {
    && (StructEqual(a, b, true) <==> Bare(a) == Bare(b))
    && (NoAliases(a) ==> (StructEqual(a, b, false) <==> Bare(a) == Bare(b)))
    && (!NoAliases(a) ==> !StructEqual(a, b, false))
  }

  lemma EntriesEqualExactly(es: seq<Entry>, fs: seq<Entry>)
    requires |es| == |fs|
    requires forall i | 0 <= i < |es| :: EqualAre(es[i].name, fs[i].name) && EqualAre(es[i].value, fs[i].value)
    ensures BareEntries(es) == BareEntries(fs) <==>
              forall i | 0 <= i < |es| :: StructEqual(es[i].name, fs[i].name, true)
                                          && StructEqual(es[i].value, fs[i].value, true)
  {
    hide StructEqual, NoAliases, Bare;
    var a, b := BareEntries(es), BareEntries(fs);
    if a == b {
      forall i | 0 <= i < |es|
        ensures StructEqual(es[i].name, fs[i].name, true) && StructEqual(es[i].value, fs[i].value, true)
      {
        assert a[i] == b[i];
      }
    }
  }

  lemma MappingsEqual(a: Node, b: Node)
    requires a.Mapping? && b.Mapping? && |a.entries| == |b.entries|
    requires forall i | 0 <= i < |a.entries| ::
               EqualAre(a.entries[i].name, b.entries[i].name) && EqualAre(a.entries[i].value, b.entries[i].value)
    ensures EqualAre(a, b)
  {
    EntriesEqualExactly(a.entries, b.entries);
    hide BareEntries, Trim;
  }

  lemma ItemsEqualExactly(xs: seq<Node>, ys: seq<Node>)
    requires |xs| == |ys| && forall i | 0 <= i < |xs| :: EqualAre(xs[i], ys[i])
    ensures BareItems(xs) == BareItems(ys) <==> forall i | 0 <= i < |xs| :: StructEqual(xs[i], ys[i], true)
  {
    hide StructEqual, NoAliases, Bare;
    var a, b := BareItems(xs), BareItems(ys);
    if a == b {
      forall i | 0 <= i < |xs| ensures StructEqual(xs[i], ys[i], true) {
        assert a[i] == b[i];
      }
    }
  }

  lemma SequencesEqual(a: Node, b: Node)
    requires a.Sequence? && b.Sequence? && |a.items| == |b.items|
    requires forall i | 0 <= i < |a.items| :: EqualAre(a.items[i], b.items[i])
    ensures EqualAre(a, b)
  {
    ItemsEqualExactly(a.items, b.items);
    hide BareItems;
  }

  lemma {:induction false} EqualFor(a: Node, b: Node)
    ensures EqualAre(a, b)
    decreases a
  {
    match (a, b)
    case (Mapping(_, _, es), Mapping(_, _, fs)) =>
      if |es| == |fs| {
        forall i | 0 <= i < |es|
          ensures EqualAre(es[i].name, fs[i].name) && EqualAre(es[i].value, fs[i].value)
        {
          EqualFor(es[i].name, fs[i].name);
          EqualFor(es[i].value, fs[i].value);
        }
        hide EqualAre;
        MappingsEqual(a, b);
      }
    case (Sequence(_, _, xs), Sequence(_, _, ys)) =>
      if |xs| == |ys| {
        forall i | 0 <= i < |xs|
          ensures EqualAre(xs[i], ys[i])
        {
          EqualFor(xs[i], ys[i]);
        }
        hide EqualAre;
        SequencesEqual(a, b);
      }
    case _ =>
  }

  /** Two trees are structurally equal when they are the same but for comments, styles, tags and white space around
      texts; and, if they hold aliases, when all aliases are taken to be equal, or none is and there are none. */
  lemma EqualExactly(a: Node, b: Node)
    ensures StructEqual(a, b, true) <==> Bare(a) == Bare(b)
    ensures NoAliases(a) ==> (StructEqual(a, b, false) <==> Bare(a) == Bare(b))
    ensures !NoAliases(a) ==> !StructEqual(a, b, false)
  {
    EqualFor(a, b);
  }

  // ---- who takes over whom ---------------------------------------------------------------------------

  ghost predicate NotTaken(slots: seq<int>, i: nat, k: nat)
    requires i <= |slots|
  {
    forall j | 0 <= j < i :: slots[j] != k
  }

  ghost predicate FreeById(original: seq<Node>, now: Node, slots: seq<int>, i: nat, k: nat)
    requires i <= |slots|
  {
    k < |original| && NotTaken(slots, i, k) && IdOf(now) != NoId && IdOf(original[k]) == IdOf(now)
  }

  ghost predicate FreeByStructure(original: seq<Node>, now: Node, same: set<(nat, nat)>, slots: seq<int>, i: nat,
                                  k: nat)
    requires i <= |slots|
  {
    && k < |original| && NotTaken(slots, i, k)
    && (StructEqual(original[k], now, false) || (StructEqual(original[k], now, true) && (k, i) in same))
  }

  /** Element `i` takes over the first old element of its identity that no earlier one has taken over; if there is none,
      the first such that is structurally equal; if there is none, no old one. */
  ghost predicate TakesTheFirst(original: seq<Node>, now: Node, same: set<(nat, nat)>, slots: seq<int>, i: nat)
    requires i < |slots|
  {
    var k := slots[i];
    if exists m: nat :: FreeById(original, now, slots, i, m) then
      k >= 0 && FreeById(original, now, slots, i, k) && forall m: nat | m < k :: !FreeById(original, now, slots, i, m)
    else if exists m: nat :: FreeByStructure(original, now, same, slots, i, m) then
      && k >= 0 && FreeByStructure(original, now, same, slots, i, k)
      && forall m: nat | m < k :: !FreeByStructure(original, now, same, slots, i, m)
    else k == -1
  }

  lemma MatchTakesTheFirst(original: seq<Node>, used: seq<bool>, src: seq<Node>, same: set<(nat, nat)>,
                           slots: seq<int>, i: nat)
    requires |used| == |original| && i < |src| == |slots| && slots[i] == Match(original, used, src, same, i)
    requires forall m | 0 <= m < |original| :: used[m] <==> !NotTaken(slots, i, m)
    ensures TakesTheFirst(original, src[i], same, slots, i)
  {
    hide IdOf, StructEqual, NotTaken;
    forall m: nat | m < |original|
      ensures Free(ById, original, used, src, same, i, m) <==> FreeById(original, src[i], slots, i, m)
      ensures Free(ByStructure, original, used, src, same, i, m) <==>
                FreeByStructure(original, src[i], same, slots, i, m)
    {
    }
    hide Free, FirstFree;
    var byId := FirstFree(ById, original, used, src, same, i, 0);
    var byStructure := FirstFree(ByStructure, original, used, src, same, i, 0);
    if byId >= 0 {
      assert FreeById(original, src[i], slots, i, byId);
    } else if byStructure >= 0 {
      assert FreeByStructure(original, src[i], same, slots, i, byStructure);
    }
  }

  lemma {:induction false} SlotsFrom(original: seq<Node>, used: seq<bool>, src: seq<Node>, same: set<(nat, nat)>,
                                     slots: seq<int>, from: nat, i: nat)
    requires |used| == |original| && from <= i < |src| == |slots|
    requires slots[from..] == Slots(original, used, src, same, from)
    requires forall m | 0 <= m < |original| :: used[m] <==> !NotTaken(slots, from, m)
    ensures TakesTheFirst(original, src[i], same, slots, i)
    decreases i - from
  {
    hide IdOf, StructEqual, TakesTheFirst, Match;
    var k := Match(original, used, src, same, from);
    assert slots[from] == k && slots[from + 1..] == slots[from..][1..];
    if from == i {
      MatchTakesTheFirst(original, used, src, same, slots, i);
    } else {
      SlotsFrom(original, Using(used, k), src, same, slots, from + 1, i);
    }
  }

  /** So every new element takes over its old one. */
  lemma EachTakesTheFirst(original: seq<Node>, src: seq<Node>, same: set<(nat, nat)>, i: nat)
    requires i < |src|
    ensures var slots := Slots(original, Unused(|original|), src, same, 0);
            && TakesTheFirst(original, src[i], same, slots, i)
            && Reorder(original, src, same)[i] == if slots[i] >= 0 then Some(original[slots[i]]) else None
  {
    hide IdOf, StructEqual, TakesTheFirst, Match;
    SlotsFrom(original, Unused(|original|), src, same, Slots(original, Unused(|original|), src, same, 0), 0, i);
  }

  // ---- what becomes of the kinds ---------------------------------------------------------------------

  /** What stands afterwards where an old value meets a new one: a value of the new kind with the old comments. A
      mapping or a list keeps its old tag if it was one already; a null stays where the new list is empty. */
  ghost predicate KindFollows(was: Node, now: Node, merged: Node) {
    if now.Sequence? && now.items == [] && was.Scalar? && was.tag == "!!null" then merged == was
    else
      && merged.notes == was.notes
      && (now.Scalar? ==> merged.Scalar? && merged.tag == now.tag && merged.text == now.text)
      && (now.Alias? ==> merged.Alias? && merged.name == now.name)
      && (now.Mapping? ==> merged.Mapping? && merged.tag == if was.Mapping? then was.tag else now.tag)
      && (now.Sequence? ==> merged.Sequence? && |merged.items| == |now.items|
                            && merged.tag == if was.Sequence? then was.tag else "!!seq")
  }

  lemma {:induction false} KindsFollow(dst: Node, src: Node, path: seq<string>, v: Verdicts, steps: seq<Step>)
    requires Unique(src) && AllKeys(steps) && Lookup(dst, steps).Some? && Lookup(src, steps).Some?
    ensures Lookup(MergeNode(dst, src, path, v), steps).Some?
    ensures KindFollows(Lookup(dst, steps).value, Lookup(src, steps).value,
                        Lookup(MergeNode(dst, src, path, v), steps).value)
    decreases |steps|
  {
    if steps != [] {
      var k := steps[0].key;
      MergeEntriesAt(dst.entries, src.entries, path, v, k);
      KindsFollow(At(dst.entries, k).value, At(src.entries, k).value, path + [k], InnerFor(src.entries, k, v),
                  steps[1..]);
    }
  }

  /** The documents themselves: two mappings are merged; otherwise the new value replaces the old one, under its
      comments. */
  lemma RootFollows(dst: Node, src: Node, v: Verdicts)
    ensures MergeRoot(dst, src, v).notes == dst.notes
    ensures !(dst.Mapping? && src.Mapping?) ==> MergeRoot(dst, src, v).(notes := src.notes) == src
    ensures dst.Mapping? && src.Mapping? ==> KindFollows(dst, src, MergeRoot(dst, src, v))
  {
    assert src.(notes := src.notes) == src;
  }

  /** A new element that takes over no old one is written as it is, whatever counts as a default. */
  lemma OthersAreWritten(dst: Node, src: Node, path: seq<string>, v: Verdicts, i: nat)
    requires src.Sequence? && i < |src.items|
    requires dst.Sequence? ==> Slots(dst.items, Unused(|dst.items|), src.items, v.same, 0)[i] == -1
    ensures var merged := MergeNode(dst, src, path, v);
            merged.Sequence? && i < |merged.items| && merged.items[i] == src.items[i]
  {
    hide StructEqual, IdOf;
    var was := if dst.Sequence? then dst.items else [];
    MergeItemsAt(Reorder(was, src.items, v.same), src.items, path, v, i);
  }
}
