/**
 * A habit's completion record: a sparse map from date key to boolean, on
 * both the server (a Mongoose `Map` of `Boolean`) and the client (a plain
 * object). Only a `true` entry means "done"; a `false` entry and a missing
 * key both read as not done.
 */
module Completion {

  /** `completed.get(key)` (or `completed[key]`) is truthy. */
  predicate Done(m: map<string, bool>, key: string) {
    key in m && m[key]
  }

  /** The keys marked done. */
  function TrueKeys(m: map<string, bool>): set<string> {
    set k | k in m && m[k]
  }

  /** Setting one entry moves exactly that key in or out of the done set. */
  lemma {:induction false} TrueKeysAfterSet(m: map<string, bool>, key: string, v: bool)
    ensures TrueKeys(m[key := v]) == if v then TrueKeys(m) + {key} else TrueKeys(m) - {key}
    ensures |TrueKeys(m[key := v])| == |TrueKeys(m)| + (if v == Done(m, key) then 0 else if v then 1 else -1)
  {
    var before, after := TrueKeys(m), TrueKeys(m[key := v]);
    if v {
      assert after == before + {key};
    } else {
      assert after == before - {key};
    }
  }

  /** The done keys are among the map's keys, and there are none exactly when no date is done. */
  lemma TrueKeysWithin(m: map<string, bool>)
    ensures |TrueKeys(m)| <= |m|
    ensures |TrueKeys(m)| == 0 <==> forall k :: !Done(m, k)
  {
    var done := TrueKeys(m);
    assert m.Keys == done + (m.Keys - done);
    if done != {} {
      var k :| k in done;
      assert Done(m, k);
    }
  }
}
