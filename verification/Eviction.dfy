/** Choosing the oldest entries of a cache, as every replay cache does when it evicts: the source
    collects keys with their timestamps, sorts them and takes the first ones. */
module Eviction {

  /** `victims` are the `count` oldest keys, or all of them when there are fewer. */
  ghost predicate OldestOf<K>(stamps: map<K, int>, victims: set<K>, count: nat) {
    && victims <= stamps.Keys
    && |victims| == (if count < |stamps| then count else |stamps|)
    && AllOlder(stamps, victims)
  }

  ghost predicate AllOlder<K>(stamps: map<K, int>, victims: set<K>)
    requires victims <= stamps.Keys
  {
    forall v, k | v in victims && k in stamps && k !in victims :: stamps[v] <= stamps[k]
  }

  method OldestKeys<K>(stamps: map<K, int>, count: nat) returns (victims: set<K>)
    ensures victims <= stamps.Keys && |victims| == if count < |stamps| then count else |stamps|
    ensures forall v, k | v in victims && k in stamps && k !in victims :: stamps[v] <= stamps[k]
    ensures OldestOf(stamps, victims, count)
  {
    victims := {};
    var rest := stamps;
    var n := if count < |stamps| then count else |stamps|;
    LeftAfterNone(stamps);
    for i := 0 to n
      invariant LeftAfter(stamps, rest, victims, i)
    {
      assert |rest| > 0;
      hide LeftAfter;
      var oldest := OldestKey(rest);
      LeftAfterNext(stamps, rest, victims, i, oldest);
      rest := rest - {oldest};
      victims := victims + {oldest};
    }
  }

  method OldestKey<K>(stamps: map<K, int>) returns (oldest: K)
    requires |stamps| > 0
    ensures oldest in stamps
    ensures forall k | k in stamps :: stamps[oldest] <= stamps[k]
  {
    assert stamps.Keys != {} by { assert |stamps.Keys| == |stamps|; }
    oldest :| oldest in stamps;
    var rest := stamps.Keys - {oldest};
    while rest != {}
      invariant oldest in stamps && rest <= stamps.Keys
      invariant forall k | k in stamps && k !in rest :: stamps[oldest] <= stamps[k]
      decreases |rest|
    {
      var k :| k in rest;
      if stamps[k] < stamps[oldest] {
        oldest := k;
      }
      rest := rest - {k};
    }
  }

  /** `rest` is what dropping `n` victims, all older than what stays, leaves of `before`. */
  ghost predicate LeftAfter<K>(before: map<K, int>, rest: map<K, int>, victims: set<K>, n: nat) {
    && victims <= before.Keys && |victims| == n
    && rest == before - victims && |rest| + n == |before|
    && AllOlder(before, victims)
  }

  lemma LeftAfterNone<K>(before: map<K, int>)
    ensures LeftAfter(before, before, {}, 0)
  {
    assert before - {} == before;
  }

  lemma LeftAfterNext<K>(before: map<K, int>, rest: map<K, int>, victims: set<K>, n: nat, oldest: K)
    requires LeftAfter(before, rest, victims, n) && oldest in rest
    requires forall k | k in rest :: rest[oldest] <= rest[k]
    ensures LeftAfter(before, rest - {oldest}, victims + {oldest}, n + 1)
  {
    hide AllOlder;
    RemovalCount(rest, {oldest});
    RemovedInTurn(before, victims, {oldest});
    AllOlderNext(before, victims, oldest);
    assert |victims + {oldest}| == n + 1;
  }

  lemma RemovedInTurn<K, V>(m: map<K, V>, some: set<K>, more: set<K>)
    ensures m - (some + more) == (m - some) - more
  {
  }

  lemma AllOlderNext<K>(before: map<K, int>, victims: set<K>, oldest: K)
    requires victims <= before.Keys && AllOlder(before, victims) && oldest in before - victims
    requires forall k | k in before - victims :: (before - victims)[oldest] <= (before - victims)[k]
    ensures AllOlder(before, victims + {oldest})
  {
    var more := victims + {oldest};
    forall v, k | v in more && k in before && k !in more
      ensures before[v] <= before[k]
    {
      assert k in before - victims;
    }
  }

  /** Removing keys that are present lowers the count by their number. */
  lemma RemovalCount<K, V>(m: map<K, V>, keys: set<K>)
    requires keys <= m.Keys
    ensures |m - keys| == |m| - |keys|
  {
    assert (m - keys).Keys == m.Keys - keys;
    assert |(m - keys).Keys| == |m - keys| && |m.Keys| == |m|;
    assert m.Keys == (m.Keys - keys) + keys;
  }

  // ---- removing keys one by one ----------------------------------------------------------------------

  /** The victims outside `rest` are gone. */
  ghost predicate RemovedSoFar<K, V>(before: map<K, V>, entries: map<K, V>, victims: set<K>, rest: set<K>) {
    rest <= victims <= before.Keys && entries == before - (victims - rest)
  }

  lemma RemovedNone<K, V>(before: map<K, V>, victims: set<K>)
    requires victims <= before.Keys
    ensures RemovedSoFar(before, before, victims, victims)
  {
    assert victims - victims == {} && before - {} == before;
  }

  lemma RemovedEnd<K, V>(before: map<K, V>, entries: map<K, V>, victims: set<K>)
    requires RemovedSoFar(before, entries, victims, {})
    ensures entries == before - victims && |entries| == |before| - |victims|
  {
    assert victims - {} == victims;
    RemovalCount(before, victims);
  }

  lemma RemovedNext<K, V>(before: map<K, V>, entries: map<K, V>, victims: set<K>, rest: set<K>, k: K)
    requires RemovedSoFar(before, entries, victims, rest) && k in rest
    ensures k in entries && RemovedSoFar(before, entries - {k}, victims, rest - {k})
  {
    assert victims - (rest - {k}) == (victims - rest) + {k};
    assert (before - (victims - rest)) - {k} == before - ((victims - rest) + {k});
  }
}
