/** The adapter's two scans written as the loops the Go code runs: over the
    listed sets until the first one with the lookup name, then over that
    set's values, returning early when the service's value turns up. Each is
    proved to submit exactly the change the declarative decision describes. */
module Route53Scan {
  import opened Seqs
  import opened Route53

  /** Register's loops, for lookup name `current`, record value `value`, and
      the name and TTL written in the change. */
  method RegisterLoop(sets: seq<RecordSet>, current: string, value: string, name: string, ttl: int)
    returns (c: Change)
    ensures c == RegisterDecision(sets, Named(current), value, name, ttl)
  {
    var changeSet: seq<string> := [];
    var i := 0;
    while i < |sets|
      invariant 0 <= i <= |sets|
      invariant forall j :: 0 <= j < i ==> sets[j].name != current
      invariant changeSet == []
    {
      if sets[i].name == current {
        assert IsFirst(sets, Named(current), i);
        var values := sets[i].values;
        var k := 0;
        while k < |values|
          invariant 0 <= k <= |values|
          invariant changeSet == values[..k]
          invariant value !in changeSet
        {
          if values[k] == value {
            return NoChange;
          }
          changeSet := changeSet + [values[k]];
          k := k + 1;
        }
        assert changeSet == values;
        break;
      }
      i := i + 1;
    }
    changeSet := changeSet + [value];
    c := Upsert(name, changeSet, ttl);
  }

  /** Deregister's loops, with the same parameters as RegisterLoop. */
  method DeregisterLoop(sets: seq<RecordSet>, current: string, value: string, name: string, ttl: int)
    returns (c: Change)
    ensures c == DeregisterDecision(sets, Named(current), value, name, ttl)
  {
    var i := 0;
    while i < |sets|
      invariant 0 <= i <= |sets|
      invariant forall j :: 0 <= j < i ==> sets[j].name != current
    {
      if sets[i].name == current {
        assert IsFirst(sets, Named(current), i);
        var values := sets[i].values;
        var k := 0;
        while k < |values|
          invariant 0 <= k <= |values|
          invariant value !in values[..k]
        {
          if values[k] == value {
            assert IsFirstOccurrence(values, value, k);
            if |values| == 1 {
              return Delete(name, value, ttl);
            }
            return Upsert(name, values[..k] + values[k + 1..], ttl);
          }
          k := k + 1;
          assert values[..k] == values[..k - 1] + [values[k - 1]];
        }
        assert values[..k] == values;
        break;
      }
      i := i + 1;
    }
    c := NoChange;
  }
}
