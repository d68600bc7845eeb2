/** The readers of internal/config/config_yaml.go on a document in the heap: zero values, known defaults, keys and
    identities. Each is proved against its function on values. */
module YamlRead {
  import opened YamlCopy
  import opened YamlShape
  import opened YamlMatch
  import T = YamlTree

  lemma KidIs(s: Shape, i: nat)
    requires Valid(s) && i < |s.kids|
    ensures |s.node.content| == |s.kids| && s.node.content[i] == s.kids[i].node && Valid(s.kids[i])
  {
    AllAreEach(s.kids);
  }

  lemma FieldsAre(s: Shape)
    requires Valid(s)
    ensures s.node.notes == s.notes && s.node.kind == s.kind && s.node.tag == s.tag && s.node.value == s.text
    ensures |s.node.content| == |s.kids| && s.node.alias == s.alias
    ensures s.kind == SEQUENCE || s.kind == MAPPING || s.kind == SCALAR || s.kind == ALIAS
    ensures s.kind == MAPPING ==> Paired(s.kids) && |s.kids| % 2 == 0 && |Entries(s.kids)| == |s.kids| / 2
    ensures forall n | n in Foot(s) :: allocated(n)
  {
    FootIsAllocated(s);
    if s.kind == MAPPING {
      EntriesCount(s.kids, |s.kids| / 2);
    }
  }

  lemma ZeroEntry(s: Shape, i: nat)
    requires Valid(s) && s.kind == MAPPING && 2 * i + 1 < |s.kids|
    ensures i < |Entries(s.kids)| && Entries(s.kids)[i].value == Value(s.kids[2 * i + 1])
    ensures !T.IsZero(Value(s.kids[2 * i + 1])) ==> !T.IsZero(Value(s))
  {
    EntryIs(s.kids, i);
    assert Value(s).entries[i].value == Value(s.kids[2 * i + 1]);
  }

  lemma AllZero(s: Shape)
    requires Valid(s)
    requires s.kind == MAPPING ==> forall j | 0 <= j < |Entries(s.kids)| :: T.IsZero(Entries(s.kids)[j].value)
    requires s.kind == SEQUENCE ==> forall j | 0 <= j < |s.kids| :: T.IsZero(Value(s.kids[j]))
    requires s.kind == MAPPING || s.kind == SEQUENCE
    ensures T.IsZero(Value(s))
  {
    ValuesAre(s.kids);
  }

  lemma ZeroItem(s: Shape, i: nat)
    requires Valid(s) && s.kind == SEQUENCE && i < |s.kids|
    ensures !T.IsZero(Value(s.kids[i])) ==> !T.IsZero(Value(s))
  {
    ValuesAre(s.kids);
    assert Value(s).items[i] == Value(s.kids[i]);
  }

  /** `isZeroValueNode` */
  method IsZeroValueNode(n: Node, ghost s: Shape) returns (zero: bool)
    requires Valid(s) && s.node == n
    ensures zero == T.IsZero(Value(s))
    decreases s
  {
    FootIsAllocated(s);
    if n.kind == SCALAR {
      if n.tag == "!!bool" {
        return n.value == "false";
      }
      if n.tag == "!!int" || n.tag == "!!float" {
        return n.value == "0" || n.value == "0.0";
      }
      if n.tag == "!!str" {
        return n.value == "";
      }
      return n.tag == "!!null";
    }
    if n.kind == SEQUENCE {
      zero := AreZeroItems(n, s);
    } else if n.kind == MAPPING {
      zero := AreZeroValues(n, s);
    } else {
      zero := false;
    }
  }

  method AreZeroItems(n: Node, ghost s: Shape) returns (zero: bool)
    requires Valid(s) && s.node == n && n.kind == SEQUENCE
    ensures zero == T.IsZero(Value(s))
    decreases s, 0
  {
    FieldsAre(s);
    hide *;
    for i := 0 to |n.content|
      invariant Valid(s)
      invariant forall j | 0 <= j < i :: T.IsZero(Value(s.kids[j]))
    {
      KidIs(s, i);
      ZeroItem(s, i);
      zero := IsZeroValueNode(n.content[i], s.kids[i]);
      if !zero {
        return;
      }
    }
    AllZero(s);
    zero := true;
  }

  method AreZeroValues(n: Node, ghost s: Shape) returns (zero: bool)
    requires Valid(s) && s.node == n && n.kind == MAPPING
    ensures zero == T.IsZero(Value(s))
    decreases s, 0
  {
    FieldsAre(s);
    hide *;
    for i := 0 to |n.content| / 2
      invariant Valid(s)
      invariant forall j | 0 <= j < i :: T.IsZero(Entries(s.kids)[j].value)
    {
      KidIs(s, 2 * i + 1);
      ZeroEntry(s, i);
      zero := IsZeroValueNode(n.content[2 * i + 1], s.kids[2 * i + 1]);
      if !zero {
        return;
      }
    }
    AllZero(s);
    zero := true;
  }

  /** `isKnownDefaultValue` */
  method IsKnownDefaultValue(path: seq<string>, n: Node, ghost s: Shape) returns (known: bool)
    requires Valid(s) && s.node == n
    ensures known == T.IsKnownDefault(path, Value(s))
  {
    FootIsAllocated(s);
    if |path| > 0 && path[|path| - 1] == "weight" && n.kind == SCALAR && n.tag == "!!int" {
      return false;
    }
    var zero := IsZeroValueNode(n, s);
    if zero {
      return true;
    }
    if |path| == 0 {
      return false;
    }
    var fullPath := T.Join(path);
    if n.kind == SCALAR && n.tag == "!!str" {
      if fullPath == "pprof.addr" {
        return n.value == T.DEFAULT_PPROF_ADDR;
      }
      if fullPath == "remote-management.panel-github-repository" {
        return n.value == T.DEFAULT_PANEL_REPOSITORY;
      }
      if fullPath == "plugins.dir" {
        return n.value == "plugins";
      }
      if fullPath == "routing.strategy" {
        return n.value == "concurrency-balanced";
      }
    }
    if n.kind == SCALAR && n.tag == "!!int" {
      if fullPath == "error-logs-max-files" {
        return n.value == "10";
      }
    }
    return false;
  }

  lemma FindKeyFrom(entries: seq<T.Entry>, key: string, i: nat)
    requires i < |entries| && entries[i].key == key && forall j | 0 <= j < i :: entries[j].key != key
    ensures T.FindKey(entries, key) == i
  {
  }

  lemma NoKey(entries: seq<T.Entry>, key: string)
    requires forall j | 0 <= j < |entries| :: entries[j].key != key
    ensures T.FindKey(entries, key) == -1
  {
  }

  /** `findMapKeyIndex`: the place of the key node, or -1; in anything but a mapping, -1. */
  method FindMapKeyIndex(n: Node, key: string, ghost s: Shape) returns (idx: int)
    requires Valid(s) && s.node == n
    ensures var i := if s.kind == MAPPING then T.FindKey(Entries(s.kids), key) else -1;
            idx == if i < 0 then -1 else 2 * i
    ensures idx + 1 < |s.kids| || idx < 0
  {
    if n.kind != MAPPING {
      return -1;
    }
    ghost var entries := Entries(s.kids);
    FieldsAre(s);
    hide *;
    for i := 0 to |n.content| / 2
      invariant forall j | 0 <= j < i :: entries[j].key != key
    {
      EntryAt(s, i);
      if n.content[2 * i].value == key {
        FindKeyFrom(entries, key, i);
        return 2 * i;
      }
    }
    NoKey(entries, key);
    return -1;
  }

  lemma EntryAt(s: Shape, i: nat)
    requires Valid(s) && s.kind == MAPPING && 2 * i + 1 < |s.kids|
    ensures |s.node.content| == |s.kids| && |Entries(s.kids)| == |s.kids| / 2
    ensures s.node.content[2 * i] == s.kids[2 * i].node && Valid(s.kids[2 * i])
    ensures s.node.content[2 * i + 1] == s.kids[2 * i + 1].node && Valid(s.kids[2 * i + 1])
    ensures var e := Entries(s.kids)[i];
      && e.name == Value(s.kids[2 * i]) && s.kids[2 * i].node.value == s.kids[2 * i].text == e.key
      && e.value == Value(s.kids[2 * i + 1])
      && (s.kids[2 * i + 1].node.kind == SCALAR <==> e.value.Scalar?)
      && (e.value.Scalar? ==> s.kids[2 * i + 1].node.value == e.value.text)
  {
    KidIs(s, 2 * i);
    KidIs(s, 2 * i + 1);
    EntryIs(s.kids, i);
    EntriesCount(s.kids, |s.kids| / 2);
  }

  lemma ScalarStep(entries: seq<T.Entry>, i: nat, key: string)
    requires i < |entries|
    ensures var e := entries[i];
      && MappingScalar(entries[i..], key) ==
         (if e.value.Scalar? && T.Lower(T.Trim(e.key)) == T.Lower(key) then T.Trim(e.value.text)
          else MappingScalar(entries[i + 1..], key))
      && ByFirstScalar(entries[i..]) ==
         (if e.value.Scalar? && T.Trim(e.value.text) != "" then T.Lower(T.Trim(e.key)) + "=" + T.Trim(e.value.text)
          else ByFirstScalar(entries[i + 1..]))
  {
    assert entries[i..][0] == entries[i] && entries[i..][1..] == entries[i + 1..];
  }

  lemma ScalarEnds(entries: seq<T.Entry>, key: string)
    ensures MappingScalar(entries[|entries|..], key) == "" && ByFirstScalar(entries[|entries|..]) == ""
    ensures entries[0..] == entries
  {
  }

  /** `mappingScalarValue`; in anything but a mapping, nothing. */
  method MappingScalarValue(n: Node, key: string, ghost s: Shape) returns (v: string)
    requires Valid(s) && s.node == n
    ensures v == if s.kind == MAPPING then MappingScalar(Entries(s.kids), key) else ""
  {
    if n.kind != MAPPING {
      return "";
    }
    var lowerKey := T.Lower(key);
    ghost var entries := Entries(s.kids);
    FieldsAre(s);
    ScalarEnds(entries, key);
    hide *;
    for i := 0 to |n.content| / 2
      invariant MappingScalar(entries, key) == MappingScalar(entries[i..], key)
    {
      EntryAt(s, i);
      ScalarStep(entries, i, key);
      var keyNode, valNode := n.content[2 * i], n.content[2 * i + 1];
      if valNode.kind == SCALAR && T.Lower(T.Trim(keyNode.value)) == lowerKey {
        return T.Trim(valNode.value);
      }
    }
    return "";
  }

  method FirstScalarIdentity(n: Node, ghost s: Shape) returns (v: string)
    requires Valid(s) && s.node == n && n.kind == MAPPING
    ensures v == ByFirstScalar(Entries(s.kids))
  {
    ghost var entries := Entries(s.kids);
    FieldsAre(s);
    ScalarEnds(entries, "");
    hide *;
    for i := 0 to |n.content| / 2
      invariant ByFirstScalar(entries) == ByFirstScalar(entries[i..])
    {
      EntryAt(s, i);
      ScalarStep(entries, i, "");
      var keyNode, valNode := n.content[2 * i], n.content[2 * i + 1];
      if valNode.kind == SCALAR && T.Trim(valNode.value) != "" {
        return T.Lower(T.Trim(keyNode.value)) + "=" + T.Trim(valNode.value);
      }
    }
    return "";
  }

  /** `sequenceElementIdentity` */
  method SequenceElementIdentity(n: Node, ghost s: Shape) returns (id: string)
    requires Valid(s) && s.node == n
    ensures id == if s.kind == MAPPING then Identity(Entries(s.kids)) else ""
  {
    FootIsAllocated(s);
    if n.kind != MAPPING {
      return "";
    }
    ghost var entries := Entries(s.kids);
    for i := 0 to |IDENTITY_KEYS|
      invariant ByIdentityKey(entries, IDENTITY_KEYS) == ByIdentityKey(entries, IDENTITY_KEYS[i..])
    {
      assert IDENTITY_KEYS[i..][1..] == IDENTITY_KEYS[i + 1..];
      var v := MappingScalarValue(n, IDENTITY_KEYS[i], s);
      if v != "" {
        return IDENTITY_KEYS[i] + "=" + v;
      }
    }
    id := FirstScalarIdentity(n, s);
  }
}
