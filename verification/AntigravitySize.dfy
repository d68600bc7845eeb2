/** The bounds on what the Antigravity cache stores (internal/cache/antigravity_reasoning_replay_cache.go):
    normalization of an item list, and the size of the Home value it becomes. */
module AntigravitySize {
  import opened Wrappers
  import opened ByteText

  const MAX_ITEMS: nat := 4096
  const MAX_BYTES: nat := 0x100_0000             // 16 << 20
  const MAX_SERIALIZED: nat := 0x180_0000        // 24 << 20

  /** Normalization of one item: its stored form, or nothing when the item is not one the cache keeps. */
  type Normalizer = Bytes -> Option<Bytes>

  /** Items in stored form are their own stored form. */
  ghost predicate Idempotent(normalize: Normalizer) {
    forall item: Bytes | normalize(item).Some? :: normalize(normalize(item).value) == normalize(item)
  }

  function TotalBytes(items: seq<Bytes>): nat {
    if items == [] then 0 else TotalBytes(items[..|items| - 1]) + |items[|items| - 1]|
  }

  /** The stored forms of the items that have one, in order. */
  function Kept(normalize: Normalizer, items: seq<Bytes>): seq<Bytes> {
    if items == [] then []
    else
      var rest := Kept(normalize, items[..|items| - 1]);
      match normalize(items[|items| - 1])
      case None => rest
      case Some(item) => rest + [item]
  }

  function NormalizeItems(normalize: Normalizer, items: seq<Bytes>): Option<seq<Bytes>> {
    var kept := Kept(normalize, items);
    if |items| > MAX_ITEMS || TotalBytes(kept) > MAX_BYTES || kept == [] then None else Some(kept)
  }

  lemma {:induction false} KeptGrows(normalize: Normalizer, items: seq<Bytes>, n: nat)
    requires n <= |items|
    ensures TotalBytes(Kept(normalize, items[..n])) <= TotalBytes(Kept(normalize, items))
    ensures |Kept(normalize, items)| <= |items|
  {
    if n < |items| {
      KeptGrows(normalize, items[..|items| - 1], n);
      assert items[..|items| - 1][..n] == items[..n];
    } else {
      assert items[..n] == items;
      if items != [] {
        KeptGrows(normalize, items[..|items| - 1], |items| - 1);
      }
    }
  }

  /** `normalizeAntigravityReasoningReplayItems`: nothing at all as soon as a bound is crossed. */
  method NormalizeReplayItems(normalize: Normalizer, items: seq<Bytes>) returns (normalized: Option<seq<Bytes>>)
    ensures normalized == NormalizeItems(normalize, items)
  {
    if |items| > MAX_ITEMS {
      return None;
    }
    var kept := [];
    var totalBytes := 0;
    for i := 0 to |items|
      invariant kept == Kept(normalize, items[..i]) && totalBytes == TotalBytes(kept) <= MAX_BYTES
    {
      assert items[..i + 1][..i] == items[..i];
      match normalize(items[i])
      case None =>
      case Some(item) =>
        totalBytes := totalBytes + |item|;
        assert (kept + [item])[..|kept|] == kept;
        if totalBytes > MAX_BYTES {
          KeptGrows(normalize, items, i + 1);
          return None;
        }
        kept := kept + [item];
    }
    assert items[..|items|] == items;
    normalized := if kept == [] then None else Some(kept);
  }

  /** What was stored reads back unchanged: every item of a normalized list is kept as it is. */
  lemma {:induction false} KeptTwice(normalize: Normalizer, items: seq<Bytes>)
    requires Idempotent(normalize)
    ensures Kept(normalize, Kept(normalize, items)) == Kept(normalize, items)
  {
    if items != [] {
      var last := items[|items| - 1];
      var rest := Kept(normalize, items[..|items| - 1]);
      KeptTwice(normalize, items[..|items| - 1]);
      match normalize(last)
      case None =>
      case Some(item) =>
        assert (rest + [item])[..|rest|] == rest;
        assert normalize(item) == Some(item);
    }
  }

  // ---- what is kept, in texts --------------------------------------------------------------------

  /** All items, one after another. */
  function Text(items: seq<Bytes>): Bytes {
    if items == [] then [] else Text(items[..|items| - 1]) + items[|items| - 1]
  }

  lemma {:induction false} BytesAreText(items: seq<Bytes>)
    ensures TotalBytes(items) == |Text(items)|
  {
    if items != [] {
      BytesAreText(items[..|items| - 1]);
    }
  }

  lemma KeptOfOne(normalize: Normalizer, item: Bytes)
    ensures Kept(normalize, []) == []
    ensures Kept(normalize, [item]) == match normalize(item) case None => [] case Some(stored) => [stored]
  {
    assert [item][..0] == [];
    assert Kept(normalize, [item][..0]) == [];
  }

  lemma {:induction false} KeptOfSum(normalize: Normalizer, a: seq<Bytes>, b: seq<Bytes>)
    ensures Kept(normalize, a + b) == Kept(normalize, a) + Kept(normalize, b)
    decreases |b|
  {
    if b == [] {
      assert a + b == a;
    } else {
      assert (a + b)[..|a + b| - 1] == a + b[..|b| - 1];
      KeptOfSum(normalize, a, b[..|b| - 1]);
    }
  }

  /** A list is stored exactly when it has at most 4096 items, some of them have a stored form, and these forms have
      at most 16 MiB; and then what is stored are all of these forms, in their order. */
  lemma NormalizesWithin(normalize: Normalizer, items: seq<Bytes>)
    ensures NormalizeItems(normalize, items)
         == if Kept(normalize, items) != [] && |items| <= 4096 && |Text(Kept(normalize, items))| <= 16 * 1024 * 1024
            then Some(Kept(normalize, items)) else None
  {
    BytesAreText(Kept(normalize, items));
  }

  // ---- the Home value ----------------------------------------------------------------------------

  /** The length of the base64 text of n bytes (section 4 of RFC 4648). */
  function Base64Length(n: nat): (r: nat)
    ensures r % 4 == 0 && 4 * n <= 3 * r < 4 * n + 12
  {
    4 * ((n + 2) / 3)
  }

  /** The length of the JSON array of the base64 strings of `items`: quotes, commas and brackets. */
  function SerializedLength(items: seq<Bytes>): nat {
    2 + QuotedLength(items) + if items == [] then 0 else |items| - 1
  }

  function QuotedLength(items: seq<Bytes>): nat {
    if items == [] then 0 else QuotedLength(items[..|items| - 1]) + Base64Length(|items[|items| - 1]|) + 2
  }

  lemma SerializedOneMore(items: seq<Bytes>, item: Bytes)
    ensures SerializedLength([]) == 2
    ensures SerializedLength(items + [item])
         == SerializedLength(items) + (if items == [] then 0 else 1) + 1 + Base64Length(|item|) + 1
  {
    assert (items + [item])[..|items|] == items;
  }

  const MARKER_TYPE: Bytes := Ascii("cpa_antigravity_replay_generation")

  /** The marker that stands first in every stored list. */
  function Marker(generation: Bytes, branch: Bytes, deleted: bool): Bytes {
    Ascii("{\"type\":\"") + MARKER_TYPE + Ascii("\",\"generation\":\"") + generation + Ascii("\",\"branch\":\"")
    + branch + (if deleted then Ascii("\",\"deleted\":true}") else Ascii("\"}"))
  }

  const ID_LENGTH: nat := 32  // sixteen random bytes in hexadecimal

  lemma {:induction false} QuotedLengthBound(items: seq<Bytes>)
    ensures 3 * QuotedLength(items) <= 4 * TotalBytes(items) + 14 * |items|
  {
    if items != [] {
      QuotedLengthBound(items[..|items| - 1]);
    }
  }

  lemma {:induction false} QuotedLengthFront(first: Bytes, items: seq<Bytes>)
    ensures QuotedLength([first] + items) == Base64Length(|first|) + 2 + QuotedLength(items)
    decreases |items|
  {
    var all := [first] + items;
    if items == [] {
      assert all[..0] == [];
    } else {
      assert all[..|all| - 1] == [first] + items[..|items| - 1];
      QuotedLengthFront(first, items[..|items| - 1]);
    }
  }

  /** The JSON of the Home mode: lists of byte strings (`json.Marshal`, `json.Unmarshal`), and what `gjson` finds in an
      item under "type", "generation", "branch" and "deleted". */
  datatype Json = Json(marshal: seq<Bytes> -> Bytes, unmarshal: Bytes -> Option<seq<Bytes>>,
                       typeOf: Bytes -> Bytes, generationOf: Bytes -> Bytes, branchOf: Bytes -> Bytes,
                       deletedOf: Bytes -> bool)

  /** The ids of this code: letters, digits and dashes, which JSON writes as they are. */
  predicate IsId(id: Bytes) {
    0 < |id| <= ID_LENGTH && forall i | 0 <= i < |id| :: id[i] == 45 || 48 <= id[i] <= 57 || 97 <= id[i] <= 122
  }

  /** A list that was marshalled is unmarshalled to itself, with its base64 length, and a marker has the fields it was
      made with. */
  ghost predicate Lossless(j: Json) {
    && (forall items: seq<Bytes> ::
          && j.unmarshal(j.marshal(items)) == Some(items)
          && |j.marshal(items)| == SerializedLength(items))
    && forall generation, branch, deleted | IsId(generation) && IsId(branch) ::
         var marker := Marker(generation, branch, deleted);
         && j.typeOf(marker) == MARKER_TYPE && j.generationOf(marker) == generation
         && j.branchOf(marker) == branch && j.deletedOf(marker) == deleted
  }

  /** `marshalAntigravityReasoningReplayHomeValue`; `nonce` is the id it makes up when there is no branch. */
  function MarshalHomeValue(j: Json, items: seq<Bytes>, branch: Bytes, nonce: Bytes, generation: Bytes): Bytes {
    j.marshal([Marker(generation, if branch == [] then nonce else branch, false)] + items)
  }

  /** `newAntigravityReasoningReplayTombstone` */
  function Tombstone(j: Json, generation: Bytes, branch: Bytes): Bytes {
    j.marshal([Marker(generation, branch, true)])
  }

  datatype HomeValue = HomeValue(items: seq<Bytes>, deleted: bool, generation: Bytes, branch: Bytes)

  /** `decodeAntigravityReasoningReplayHomeValue` */
  function DecodeHomeValue(j: Json, raw: Bytes): Option<HomeValue> {
    match j.unmarshal(raw)
    case None => None
    case Some(items) =>
      if items == [] || TrimSpace(j.typeOf(items[0])) != MARKER_TYPE then Some(HomeValue(items, false, [], []))
      else
        Some(HomeValue(items[1..], j.deletedOf(items[0]), TrimSpace(j.generationOf(items[0])),
                       TrimSpace(j.branchOf(items[0]))))
  }

  /** What a Get makes of the raw value it read: the branch of its snapshot, and the items if there are any. */
  datatype Read = Read(branch: Bytes, items: Option<seq<Bytes>>)

  function ReadHomeValue(j: Json, normalize: Normalizer, raw: Bytes): Read {
    if |raw| > MAX_SERIALIZED then Read([], None)
    else match DecodeHomeValue(j, raw)
      case None => Read([], None)
      case Some(v) =>
        if v.deleted || v.items == [] || |v.items| > MAX_ITEMS then Read(v.branch, None)
        else match NormalizeItems(normalize, v.items)
          case None => Read(v.branch, None)
          case Some(normalized) => Read(v.branch, if |normalized| == |v.items| then Some(normalized) else None)
  }

  lemma IdIsTrimmed(id: Bytes)
    requires IsId(id)
    ensures TrimSpace(id) == id
  {
    assert !IsSpace(id[0]) && !IsSpace(id[|id| - 1]);
  }

  lemma TypeIsTrimmed()
    ensures TrimSpace(MARKER_TYPE) == MARKER_TYPE
  {
    var t := MARKER_TYPE;
    assert t[0] == 99 && t[|t| - 1] == 110;
    assert !IsSpace(t[0]) && !IsSpace(t[|t| - 1]);
  }

  lemma MarkedListDecodes(j: Json, items: seq<Bytes>, generation: Bytes, branch: Bytes, deleted: bool)
    requires Lossless(j) && IsId(generation) && IsId(branch)
    ensures DecodeHomeValue(j, j.marshal([Marker(generation, branch, deleted)] + items)) ==
            Some(HomeValue(items, deleted, generation, branch))
  {
    hide Marker, IsId, TrimSpace, SerializedLength;
    IdIsTrimmed(generation);
    IdIsTrimmed(branch);
    TypeIsTrimmed();
    var marker := Marker(generation, branch, deleted);
    assert ([marker] + items)[1..] == items;
    assert j.unmarshal(j.marshal([marker] + items)) == Some([marker] + items);
  }

  lemma HomeValueIsBelowTheCap(j: Json, normalize: Normalizer, items: seq<Bytes>, generation: Bytes, branch: Bytes)
    requires Lossless(j) && IsId(generation) && IsId(branch) && NormalizeItems(normalize, items).Some?
    ensures var stored := NormalizeItems(normalize, items).value;
            |j.marshal([Marker(generation, branch, false)] + stored)| < MAX_SERIALIZED && |stored| <= MAX_ITEMS
  {
    var stored := NormalizeItems(normalize, items).value;
    KeptGrows(normalize, items, |items|);
    QuotedLengthBound(stored);
    QuotedLengthFront(Marker(generation, branch, false), stored);
    assert |Marker(generation, branch, false)| <= 200;
  }

  lemma StoredIsNormal(normalize: Normalizer, items: seq<Bytes>)
    requires Idempotent(normalize) && NormalizeItems(normalize, items).Some?
    ensures var stored := NormalizeItems(normalize, items).value;
            stored != [] && NormalizeItems(normalize, stored) == Some(stored)
  {
    hide Idempotent;
    KeptGrows(normalize, items, |items|);
    KeptTwice(normalize, items);
  }

  /** Every value the cache writes decodes to the generation, branch and items it was made of, and a Get of it passes
      all of the reader's checks and returns just these items. */
  lemma HomeValueReadsBack(j: Json, normalize: Normalizer, items: seq<Bytes>, branch: Bytes, nonce: Bytes,
                           generation: Bytes)
    requires Lossless(j) && Idempotent(normalize) && NormalizeItems(normalize, items).Some?
    requires IsId(generation) && IsId(nonce) && (branch == [] || IsId(branch))
    ensures var stored, at := NormalizeItems(normalize, items).value, if branch == [] then nonce else branch;
            var raw := MarshalHomeValue(j, stored, branch, nonce, generation);
            && DecodeHomeValue(j, raw) == Some(HomeValue(stored, false, generation, at))
            && ReadHomeValue(j, normalize, raw) == Read(at, Some(stored))
  {
    var stored, at := NormalizeItems(normalize, items).value, if branch == [] then nonce else branch;
    hide Lossless, IsId, Marker, Idempotent;
    StoredIsNormal(normalize, items);
    HomeValueIsBelowTheCap(j, normalize, items, generation, at);
    MarkedListDecodes(j, stored, generation, at, false);
    hide NormalizeItems, DecodeHomeValue;
  }

  /** A tombstone decodes to what it was made of, and a Get of it finds its branch and no items. */
  lemma TombstoneReadsBack(j: Json, normalize: Normalizer, generation: Bytes, branch: Bytes)
    requires Lossless(j) && IsId(generation) && IsId(branch)
    ensures var raw := Tombstone(j, generation, branch);
            && DecodeHomeValue(j, raw) == Some(HomeValue([], true, generation, branch))
            && ReadHomeValue(j, normalize, raw) == Read(branch, None)
  {
    var marker := Marker(generation, branch, true);
    assert [marker] + [] == [marker];
    MarkedListDecodes(j, [], generation, branch, true);
    assert |marker| <= 200;
    QuotedLengthFront(marker, []);
    assert QuotedLength([]) == 0;
    assert |j.marshal([marker])| == SerializedLength([marker]);
  }

  lemma {:induction false} KeptAll(normalize: Normalizer, items: seq<Bytes>)
    ensures |Kept(normalize, items)| <= |items|
    ensures |Kept(normalize, items)| == |items| <==> forall i | 0 <= i < |items| :: normalize(items[i]).Some?
    ensures |Kept(normalize, items)| == |items| ==>
              forall i | 0 <= i < |items| :: normalize(items[i]) == Some(Kept(normalize, items)[i])
    decreases |items|
  {
    if items != [] {
      KeptAll(normalize, items[..|items| - 1]);
    }
  }

  /** The list begins with a marker of this code. */
  ghost predicate Marked(j: Json, list: seq<Bytes>) {
    list != [] && TrimSpace(j.typeOf(list[0])) == Ascii("cpa_antigravity_replay_generation")
  }

  ghost predicate StoredForms(normalize: Normalizer, items: seq<Bytes>, stored: seq<Bytes>) {
    && 1 <= |items| <= 4096 && |stored| == |items| && |Text(stored)| <= 16 * 1024 * 1024
    && forall i | 0 <= i < |items| :: normalize(items[i]) == Some(stored[i])
  }

  lemma NormalizedIff(normalize: Normalizer, items: seq<Bytes>, stored: seq<Bytes>)
    ensures StoredForms(normalize, items, stored) <==>
              NormalizeItems(normalize, items) == Some(stored) && |stored| == |items|
  {
    KeptAll(normalize, items);
    NormalizesWithin(normalize, items);
    if StoredForms(normalize, items, stored) {
      assert forall i | 0 <= i < |items| :: normalize(items[i]).Some?;
      assert Kept(normalize, items) == stored;
    }
  }

  /** A Get makes items of a raw value exactly when it is a list of at most 24 MiB, its marker if it has one does not
      say deleted, and after the marker come 1 to 4096 items, each with a stored form, of at most 16 MiB together; what
      the Get returns are these stored forms. */
  lemma ReadsExactly(j: Json, normalize: Normalizer, raw: Bytes, list: seq<Bytes>, stored: seq<Bytes>)
    requires j.unmarshal(raw) == Some(list)
    ensures ReadHomeValue(j, normalize, raw).items == Some(stored) <==>
            && |raw| <= 24 * 1024 * 1024
            && (if Marked(j, list) then !j.deletedOf(list[0]) && StoredForms(normalize, list[1..], stored)
                else StoredForms(normalize, list, stored))
  {
    var items := if Marked(j, list) then list[1..] else list;
    NormalizedIff(normalize, items, stored);
    assert StoredForms(normalize, items, stored) ==> 1 <= |items| <= 4096;
    hide NormalizeItems, StoredForms, TrimSpace;
  }

  /** What is no list, or too long, is no value: without branch and without items. */
  lemma OthersReadAsNothing(j: Json, normalize: Normalizer, raw: Bytes)
    requires |raw| > 24 * 1024 * 1024 || j.unmarshal(raw).None?
    ensures ReadHomeValue(j, normalize, raw) == Read([], None)
  {
    hide TrimSpace, NormalizeItems;
  }
}
