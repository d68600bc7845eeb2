/** The bounded LRU cache (internal/cache/bounded_lru.go): an index and a recency list over the same
    elements, and what it holds after any history. */
module BoundedLru {
  import opened Wrappers
  import opened ByteText

  /** A list element, shared by the index and the list. */
  class Element<K, V> {
    const key: K
    const value: V

    constructor (key: K, value: V)
      ensures this.key == key && this.value == value
    {
      this.key, this.value := key, value;
    }
  }

  function KeysOf<K, V>(order: seq<Element<K, V>>): seq<K> {
    seq(|order|, i requires 0 <= i < |order| => order[i].key)
  }

  ghost predicate Distinct<T>(s: seq<T>) {
    forall i, j | 0 <= i < j < |s| :: s[i] != s[j]
  }

  function Without<T(==)>(s: seq<T>, x: T): seq<T> {
    if s == [] then []
    else
      var rest := Without(s[..|s| - 1], x);
      if s[|s| - 1] == x then rest else rest + [s[|s| - 1]]
  }

  function Take<T>(s: seq<T>, n: nat): seq<T> {
    if |s| <= n then s else s[..n]
  }

  /** Index and list hold the same elements, each once and under its own key. */
  ghost predicate Indexed<K, V>(entries: map<K, Element<K, V>>, order: seq<Element<K, V>>) {
    && Distinct(KeysOf(order))
    && (forall i | 0 <= i < |order| :: order[i].key in entries && entries[order[i].key] == order[i])
    && (forall k | k in entries :: entries[k] in order && entries[k].key == k)
  }

  lemma IndexedKeys<K, V>(entries: map<K, Element<K, V>>, order: seq<Element<K, V>>, key: K)
    requires Indexed(entries, order)
    ensures key in entries <==> key in KeysOf(order)
    ensures key in entries ==> entries[key] in order && entries[key].key == key
  {
    if key in entries {
      var i :| 0 <= i < |order| && order[i] == entries[key];
      assert KeysOf(order)[i] == key;
    }
  }

  lemma IndexedPush<K, V>(entries: map<K, Element<K, V>>, order: seq<Element<K, V>>, element: Element<K, V>)
    requires Indexed(entries, order) && element.key !in entries
    ensures Indexed(entries[element.key := element], [element] + order)
    ensures KeysOf([element] + order) == [element.key] + KeysOf(order)
  {
    var order' := [element] + order;
    IndexedKeys(entries, order, element.key);
    assert KeysOf(order') == [element.key] + KeysOf(order);
    forall i | 1 <= i < |order'|
      ensures order'[i].key in entries && entries[order'[i].key] == order'[i]
    {
      assert order'[i] == order[i - 1];
    }
    forall k | k in entries
      ensures entries[k] in order'
    {
    }
    assert order'[0] == element;
  }

  lemma IndexedDropLast<K, V>(entries: map<K, Element<K, V>>, order: seq<Element<K, V>>)
    requires Indexed(entries, order) && order != []
    ensures Indexed(entries - {order[|order| - 1].key}, order[..|order| - 1])
    ensures KeysOf(order[..|order| - 1]) == KeysOf(order)[..|order| - 1]
  {
    var n := |order| - 1;
    var last := order[n];
    var rest := order[..n];
    assert KeysOf(order)[n] == last.key;
    assert KeysOf(rest) == KeysOf(order)[..n];
    forall i | 0 <= i < n
      ensures rest[i].key != last.key && rest[i].key in entries && entries[rest[i].key] == rest[i]
    {
      assert KeysOf(order)[i] == order[i].key;
    }
    forall k | k in entries && k != last.key
      ensures entries[k] in order[..n]
    {
      var j :| 0 <= j < |order| && order[j] == entries[k];
      assert order[..n][j] == order[j];
    }
  }

  lemma LastIsIndexed<K, V>(entries: map<K, Element<K, V>>, order: seq<Element<K, V>>)
    requires Indexed(entries, order) && |order| >= 2
    ensures var n := |order| - 1;
            && order[n].key in entries && entries[order[n].key] == order[n]
            && order[n].key != order[0].key && KeysOf(order)[n] == order[n].key
  {
    assert KeysOf(order)[0] == order[0].key && KeysOf(order)[|order| - 1] == order[|order| - 1].key;
  }

  lemma IndexedMove<K, V>(entries: map<K, Element<K, V>>, order: seq<Element<K, V>>, i: nat)
    requires Indexed(entries, order) && i < |order|
    ensures var moved := [order[i]] + order[..i] + order[i + 1..];
            Indexed(entries, moved) && KeysOf(moved) == [order[i].key] + Without(KeysOf(order), order[i].key)
  {
    var moved := [order[i]] + order[..i] + order[i + 1..];
    MovedKeys(order, i);
    forall x | x in order
      ensures x in moved
    {
      var j :| 0 <= j < |order| && order[j] == x;
      assert x == if j < i then moved[j + 1] else if j == i then moved[0] else moved[j];
    }
    forall j | 0 <= j < |moved|
      ensures moved[j] in order
    {
    }
  }

  // ---- the source's form -------------------------------------------------------------------------

  class BoundedLru<K(==), V> {
    const capacity: nat
    var entries: map<K, Element<K, V>>
    var order: seq<Element<K, V>>

    /** Index and list hold the same elements, each under its own key. */
    ghost predicate Valid()
      reads this
    {
      1 <= capacity && |order| <= capacity && Indexed(entries, order)
    }

    /** A capacity below one becomes one. */
    constructor (capacity: int)
      ensures Valid() && order == [] && this.capacity == if capacity < 1 then 1 else capacity
    {
      this.capacity := if capacity < 1 then 1 else capacity;
      entries, order := map[], [];
    }

    method MoveToFront(element: Element<K, V>)
      requires Valid() && element in order
      modifies this`order
      ensures Valid() && KeysOf(order) == [element.key] + Without(KeysOf(old(order)), element.key)
      ensures order[0] == element
      ensures |order| == |old(order)|
    {
      var i :| 0 <= i < |order| && order[i] == element;
      IndexedMove(entries, order, i);
      order := [element] + order[..i] + order[i + 1..];
    }

    /** `GetOrAdd`: the cached value, or the created one stored in front, the oldest element going when the
        bound is crossed. The evicted pair is what the callback gets. */
    method GetOrAdd(key: K, created: V) returns (value: V, evicted: Option<(K, V)>)
      requires Valid()
      modifies this
      ensures Valid()
      ensures KeysOf(order) == Accessed(capacity, KeysOf(old(order)), GetOrAddKey(key))
      ensures order != [] && order[0].key == key
      ensures key in entries && entries[key].value == value
      ensures key in old(entries) ==> value == old(entries)[key].value && evicted == None && entries == old(entries)
      ensures key !in old(entries) ==> value == created
      ensures evicted.Some? <==> key !in old(entries) && |old(order)| == capacity
      ensures evicted.Some? ==>
                && evicted.value.0 == KeysOf(old(order))[capacity - 1] && evicted.value.0 in old(entries)
                && evicted.value.1 == old(entries)[evicted.value.0].value
      ensures forall k | k in entries && k != key :: k in old(entries) && entries[k] == old(entries)[k]
    {
      hide Indexed;
      IndexedKeys(entries, order, key);
      if key in entries {
        var element := entries[key];
        MoveToFront(element);
        return element.value, None;
      }
      var element := new Element(key, created);
      IndexedPush(entries, order, element);
      order := [element] + order;
      entries := entries[key := element];
      value, evicted := created, None;
      if |order| > capacity {
        var oldest := order[|order| - 1];
        LastIsIndexed(entries, order);
        IndexedDropLast(entries, order);
        evicted := Some((oldest.key, oldest.value));
        entries := entries - {oldest.key};
        order := order[..|order| - 1];
      }
    }

    /** `Get`: a hit is a touch. */
    method Get(key: K) returns (value: Option<V>)
      requires Valid()
      modifies this`order
      ensures Valid()
      ensures KeysOf(order) == Accessed(capacity, KeysOf(old(order)), GetKey(key))
      ensures key in entries ==> order != [] && order[0].key == key
      ensures key !in entries ==> order == old(order)
      ensures value == if key in entries then Some(entries[key].value) else None
    {
      IndexedKeys(entries, order, key);
      if key in entries {
        MoveToFront(entries[key]);
        return Some(entries[key].value);
      }
      return None;
    }

    /** `Len`, read from the index, is also the length of the list. */
    method Len() returns (n: nat)
      requires Valid()
      ensures n == |order| && n <= capacity
    {
      n := |entries|;
      forall k
        ensures k in entries <==> k in KeysOf(order)
      {
        IndexedKeys(entries, order, k);
      }
      assert entries.Keys == set k | k in KeysOf(order);
      DistinctCount(KeysOf(order));
      assert |entries.Keys| == |entries|;
    }
  }

  lemma {:induction false} WithoutSplit<T>(a: seq<T>, b: seq<T>, x: T)
    ensures Without(a + b, x) == Without(a, x) + Without(b, x)
    decreases |b|
  {
    if b == [] {
      assert a + b == a;
    } else {
      assert (a + b)[..|a + b| - 1] == a + b[..|b| - 1];
      WithoutSplit(a, b[..|b| - 1], x);
    }
  }

  lemma {:induction false} WithoutAbsent<T>(s: seq<T>, x: T)
    requires x !in s
    ensures Without(s, x) == s
  {
    if s != [] {
      WithoutAbsent(s[..|s| - 1], x);
    }
  }

  lemma WithoutAt<T>(s: seq<T>, i: nat)
    requires Distinct(s) && i < |s|
    ensures Without(s, s[i]) == s[..i] + s[i + 1..]
  {
    var a, x, b := s[..i], s[i], s[i + 1..];
    assert x !in a && x !in b;
    assert s == (a + [x]) + b;
    WithoutSplit(a + [x], b, x);
    WithoutLast(a, x);
    WithoutAbsent(b, x);
  }

  lemma WithoutLast<T>(a: seq<T>, x: T)
    requires x !in a
    ensures Without(a + [x], x) == a
  {
    assert (a + [x])[..|a|] == a;
    WithoutAbsent(a, x);
  }

  lemma MovedKeys<K, V>(order: seq<Element<K, V>>, i: nat)
    requires Distinct(KeysOf(order)) && i < |order|
    ensures var moved := [order[i]] + order[..i] + order[i + 1..];
            KeysOf(moved) == [order[i].key] + Without(KeysOf(order), order[i].key) && Distinct(KeysOf(moved))
  {
    var keys := KeysOf(order);
    WithoutAt(keys, i);
    var moved := [order[i]] + order[..i] + order[i + 1..];
    assert KeysOf(moved) == [keys[i]] + (keys[..i] + keys[i + 1..]);
  }

  lemma {:induction false} DistinctCount<T>(s: seq<T>)
    requires Distinct(s)
    ensures |set x | x in s| == |s|
  {
    if s != [] {
      var front, last := s[..|s| - 1], s[|s| - 1];
      DistinctCount(front);
      assert (set x | x in s) == (set x | x in front) + {last};
    }
  }

  // ---- what the cache holds after any history ----------------------------------------------------

  datatype Access<K> = GetOrAddKey(key: K) | GetKey(key: K)

  /** The recency list after one access. */
  function Accessed<K(==)>(capacity: nat, keys: seq<K>, a: Access<K>): seq<K> {
    if a.key in keys then [a.key] + Without(keys, a.key)
    else if a.GetOrAddKey? then Take([a.key] + keys, capacity)
    else keys
  }

  function After<K(==)>(capacity: nat, history: seq<Access<K>>): seq<K> {
    if history == [] then []
    else Accessed(capacity, After(capacity, history[..|history| - 1]), history[|history| - 1])
  }

  /** The keys touched, in order: every GetOrAdd, and every Get that hits. */
  function Touches<K(==)>(capacity: nat, history: seq<Access<K>>): seq<K> {
    if history == [] then []
    else
      var front, a := history[..|history| - 1], history[|history| - 1];
      Touches(capacity, front) + if a.GetOrAddKey? || a.key in After(capacity, front) then [a.key] else []
  }

  /** The distinct touched keys, the most recent first. */
  function Recent<K(==)>(touches: seq<K>): seq<K> {
    if touches == [] then []
    else [touches[|touches| - 1]] + Without(Recent(touches[..|touches| - 1]), touches[|touches| - 1])
  }

  /** The other keys touched since `key` was touched last. */
  function TouchedSince<K(==)>(touches: seq<K>, key: K): set<K> {
    if touches == [] || touches[|touches| - 1] == key then {}
    else TouchedSince(touches[..|touches| - 1], key) + {touches[|touches| - 1]}
  }

  lemma {:induction false} WithoutKeepsDistinct<T>(s: seq<T>, x: T)
    requires Distinct(s)
    ensures Distinct(Without(s, x)) && x !in Without(s, x)
    ensures forall y | y in Without(s, x) :: y in s
    ensures forall y | y in s && y != x :: y in Without(s, x)
  {
    if s != [] {
      var front, last := s[..|s| - 1], s[|s| - 1];
      WithoutKeepsDistinct(front, x);
      assert s == front + [last];
      assert last !in front;
      var rest := Without(front, x);
      assert last !in rest;
    }
  }

  lemma {:induction false} RecentDistinct<K>(touches: seq<K>)
    ensures Distinct(Recent(touches))
    ensures forall k :: k in Recent(touches) <==> k in touches
  {
    if touches != [] {
      var front, last := touches[..|touches| - 1], touches[|touches| - 1];
      RecentDistinct(front);
      WithoutKeepsDistinct(Recent(front), last);
      assert touches == front + [last];
    }
  }

  /** Removing `last` from a list keeps the other keys in order: those before `r[j]` stay before it. */
  lemma WithoutBefore<K>(r: seq<K>, j: nat, last: K)
    requires Distinct(r) && j < |r| && r[j] != last
    ensures var s, n := Without(r, last), |Without(r[..j], last)|;
            n < |s| && s[n] == r[j] && s[..n] == Without(r[..j], last)
  {
    assert [r[j]][..0] == [];
    assert Without([r[j]], last) == [r[j]];
    hide *;
    var x, front, back := r[j], r[..j], r[j + 1..];
    assert r == front + ([x] + back);
    WithoutSplit(front, [x] + back, last);
    WithoutSplit([x], back, last);
    AtItsPlace(Without(front, last), x, Without(back, last));
  }

  lemma AtItsPlace<K>(a: seq<K>, x: K, b: seq<K>)
    ensures var s := a + ([x] + b); |a| < |s| && s[|a|] == x && s[..|a|] == a
  {
  }

  /** In the recency order, the keys before a key are those touched since. */
  lemma {:induction false} RecentPosition<K>(touches: seq<K>, i: nat)
    requires i < |Recent(touches)|
    ensures TouchedSince(touches, Recent(touches)[i]) == set k | k in Recent(touches)[..i]
  {
    hide Without;
    var front, last := touches[..|touches| - 1], touches[|touches| - 1];
    var r := Recent(front);
    var s := Without(r, last);
    RecentDistinct(front);
    WithoutKeepsDistinct(r, last);
    if i > 0 {
      var key := s[i - 1];
      assert key in s && last !in s;
      assert key != last;
      assert key in r;
      var j :| 0 <= j < |r| && r[j] == key;
      RecentPosition(front, j);
      WithoutBefore(r, j, last);
      var n := |Without(r[..j], last)|;
      assert n == i - 1;
      WithoutKeepsDistinct(r[..j], last);
      assert Recent(touches)[..i] == [last] + s[..n];
      assert Recent(touches)[i] == key;
    } else {
      assert Recent(touches)[..0] == [] && Recent(touches)[0] == last;
    }
  }

  /** One touch of `key`, seen through the first `n`: a hit moves it, a miss pushes it. */
  lemma TouchSeen<K>(r: seq<K>, n: nat, key: K)
    requires Distinct(r) && n >= 1
    ensures key in Take(r, n) ==> [key] + Without(Take(r, n), key) == Take([key] + Without(r, key), n)
    ensures key !in Take(r, n) ==> Take([key] + Take(r, n), n) == Take([key] + Without(r, key), n)
  {
    hide Without, Take;
    if key in r {
      var i :| 0 <= i < |r| && r[i] == key;
      WithoutAt(r, i);
      if i < n {
        HitSeen(r, n, i);
      } else {
        MissSeen(r, n, i);
      }
    } else {
      WithoutAbsent(r, key);
      AbsentSeen(r, n, key);
    }
  }

  lemma AbsentSeen<K>(r: seq<K>, n: nat, key: K)
    requires key !in r && n >= 1
    ensures key !in Take(r, n) && Take([key] + Take(r, n), n) == Take([key] + r, n)
  {
  }

  lemma HitSeen<K>(r: seq<K>, n: nat, i: nat)
    requires Distinct(r) && i < n && i < |r|
    ensures r[i] in Take(r, n)
    ensures [r[i]] + Without(Take(r, n), r[i]) == Take([r[i]] + (r[..i] + r[i + 1..]), n)
  {
    var t := Take(r, n);
    assert t[i] == r[i];
    WithoutAt(t, i);
    assert t[..i] == r[..i];
  }

  lemma MissSeen<K>(r: seq<K>, n: nat, i: nat)
    requires Distinct(r) && 1 <= n <= i < |r|
    ensures r[i] !in Take(r, n)
    ensures Take([r[i]] + Take(r, n), n) == Take([r[i]] + (r[..i] + r[i + 1..]), n)
  {
  }

  lemma RecentSnoc<K>(touches: seq<K>, key: K)
    ensures Recent(touches + [key]) == [key] + Without(Recent(touches), key)
  {
    assert (touches + [key])[..|touches|] == touches;
  }

  /** After any history the recency list is the first `capacity` of the most recently touched keys. */
  lemma {:induction false} HoldsTheMostRecent<K>(capacity: nat, history: seq<Access<K>>)
    requires capacity >= 1
    ensures After(capacity, history) == Take(Recent(Touches(capacity, history)), capacity)
  {
    hide Without, Recent, Take;
    if history == [] {
      NothingRecent<K>(capacity);
    } else {
      var front, a := history[..|history| - 1], history[|history| - 1];
      HoldsTheMostRecent(capacity, front);
      var touches := Touches(capacity, front);
      RecentDistinct(touches);
      TouchSeen(Recent(touches), capacity, a.key);
      RecentSnoc(touches, a.key);
      assert touches + [] == touches;
    }
  }

  lemma NothingRecent<K>(capacity: nat)
    ensures Take(Recent<K>([]), capacity) == []
  {
  }

  /** A key is cached exactly when it was touched and fewer than `capacity` other keys were touched since
      its last touch; and no key is listed twice. */
  lemma CachedIffRecent<K>(capacity: nat, history: seq<Access<K>>, key: K)
    requires capacity >= 1
    ensures Distinct(After(capacity, history))
    ensures var touches := Touches(capacity, history);
            key in After(capacity, history) <==> key in touches && |TouchedSince(touches, key)| < capacity
  {
    var touches := Touches(capacity, history);
    var r := Recent(touches);
    HoldsTheMostRecent(capacity, history);
    RecentDistinct(touches);
    if key in touches {
      var i :| 0 <= i < |r| && r[i] == key;
      RecentPosition(touches, i);
      assert Distinct(r[..i]);
      DistinctCount(r[..i]);
      assert key in Take(r, capacity) <==> i < capacity;
    }
  }

  ghost predicate OnlyGetOrAdd<K>(history: seq<Access<K>>) {
    forall i | 0 <= i < |history| :: history[i].GetOrAddKey?
  }

  lemma {:induction false} TouchesOfGetOrAdd<K>(c: nat, d: nat, history: seq<Access<K>>)
    requires OnlyGetOrAdd(history)
    ensures Touches(c, history) == Touches(d, history)
  {
    if history != [] {
      TouchesOfGetOrAdd(c, d, history[..|history| - 1]);
    }
  }

  /** On the same GetOrAdd history a larger cache holds all that a smaller one holds, in the same order. */
  lemma LargerContainsSmaller<K>(small: nat, large: nat, history: seq<Access<K>>)
    requires 1 <= small <= large && OnlyGetOrAdd(history)
    ensures After(small, history) == Take(After(large, history), small)
  {
    HoldsTheMostRecent(small, history);
    HoldsTheMostRecent(large, history);
    TouchesOfGetOrAdd(small, large, history);
  }
}
