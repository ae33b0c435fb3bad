/** The invocation counter (`unsafeInvocationCount`): a process-wide count
    per key, incremented on every call and never reset. */
module Invocations {

  /** The count recorded for `key`, 0 when there is none. */
  function CountFor(counts: map<string, nat>, key: string): nat
  {
    if key in counts then counts[key] else 0
  }

  /** `counts[key] = counts[key] ? counts[key] + 1 : 1`: one more call for `key`. */
  function Bump(counts: map<string, nat>, key: string): (r: map<string, nat>)
    ensures r.Keys == counts.Keys + {key}
    ensures CountFor(r, key) == CountFor(counts, key) + 1
    ensures forall k :: k != key ==> CountFor(r, k) == CountFor(counts, k)
  {
    counts[key := if key in counts && counts[key] != 0 then counts[key] + 1 else 1]
  }

  /** The calls `keys`, made one after another. */
  function BumpAll(counts: map<string, nat>, keys: seq<string>): map<string, nat>
    decreases |keys|
  {
    if keys == [] then counts else Bump(BumpAll(counts, keys[..|keys| - 1]), keys[|keys| - 1])
  }

  /** How many of the calls were for `key`. */
  function Occurrences(keys: seq<string>, key: string): nat
  {
    |set i | 0 <= i < |keys| && keys[i] == key|
  }

  /** One more call adds one occurrence for its own key and none for another. */
  lemma OccurrencesSnoc(init: seq<string>, last: string, key: string)
    ensures Occurrences(init + [last], key) == Occurrences(init, key) + (if last == key then 1 else 0)
  {
    var keys := init + [last];
    var before := set i | 0 <= i < |init| && init[i] == key;
    var after := set i | 0 <= i < |keys| && keys[i] == key;
    if last == key {
      assert after == before + {|init|};
    } else {
      assert after == before;
    }
  }

  /** The count for every key is the number of calls made for it: the n-th
      call for a key returns n, and calls for other keys do not disturb it. */
  lemma {:induction false} CountIsNumberOfCalls(keys: seq<string>, key: string)
    ensures CountFor(BumpAll(map[], keys), key) == Occurrences(keys, key)
    decreases |keys|
  {
    if keys != [] {
      var n := |keys| - 1;
      CountIsNumberOfCalls(keys[..n], key);
      assert keys == keys[..n] + [keys[n]];
      OccurrencesSnoc(keys[..n], keys[n], key);
    }
  }

  class InvocationCounter {
    var counts: map<string, nat>

    constructor ()
      ensures counts == map[]
    {
      counts := map[];
    }

    /** `unsafeInvocationCount(key)`: records one more call and returns the new count. */
    method UnsafeInvocationCount(key: string) returns (n: nat)
      modifies this
      ensures counts == Bump(old(counts), key)
      ensures n == CountFor(old(counts), key) + 1
      ensures key in counts && counts[key] == n
    {
      var previous := if key in counts then counts[key] else 0;
      n := if previous != 0 then previous + 1 else 1;
      counts := counts[key := n];
    }
  }
}
