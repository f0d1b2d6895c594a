/** Properties that relate several calls of the adapter: only the first
    matching set matters, registering twice changes nothing the second time,
    deregistering undoes registering, and deregistering twice changes nothing
    the second time. The cross-call properties go through the zone model of
    HostedZone. They are proved for the SRV-only selection and carried over
    to the adapter's name-only selection wherever no other record type
    shares the service's name. */
module Route53Properties {
  import opened Wrappers
  import opened Seqs
  import opened Srv
  import opened Route53
  import opened HostedZone

  /** Every set named `name` is an SRV set. */
  predicate OnlySrvNamed(sets: seq<RecordSet>, name: string)
  {
    forall rs :: rs in sets && rs.name == name ==> rs.rtype == SrvType
  }

  /** Sets after the first selected one are never consulted, whatever they
      hold: with the adapter's selection, a later set of the same name is
      ignored. */
  lemma LaterSetsIgnored(sets: seq<RecordSet>, later: seq<RecordSet>, select: RecordSet -> bool, k: nat,
                         value: string, name: string, ttl: int)
    requires IsFirst(sets, select, k)
    ensures RegisterDecision(sets + later, select, value, name, ttl) == RegisterDecision(sets, select, value, name, ttl)
    ensures DeregisterDecision(sets + later, select, value, name, ttl) == DeregisterDecision(sets, select, value, name, ttl)
  {
    assert IsFirst(sets + later, select, k);
  }

  /** The two selections pick the same set when every set with the lookup
      name is an SRV set. */
  lemma {:induction false} SelectionsAgree(sets: seq<RecordSet>, name: string)
    requires OnlySrvNamed(sets, name)
    ensures FirstIndex(sets, Named(name)) == FirstIndex(sets, SrvNamed(name))
    decreases |sets|
  {
    if |sets| > 0 && sets[0].name != name {
      SelectionsAgree(sets[1..], name);
    }
  }

  /** The adapter's name-only selection decides as the SRV-only one does
      when no other record type shares the lookup name. */
  lemma AsWrittenAgrees(a: Adapter, svc: Service, sets: seq<RecordSet>)
    requires OnlySrvNamed(sets, LookupName(a, svc))
    ensures RegisterChange(a, svc, sets) == RegisterChangeSrv(a, svc, sets)
    ensures DeregisterChange(a, svc, sets) == DeregisterChangeSrv(a, svc, sets)
  {
    SelectionsAgree(sets, LookupName(a, svc));
  }

  /** Registering a second time, on the zone the first registration left,
      submits nothing. */
  lemma RegisterSrvIdempotent(a: Adapter, svc: Service, sets: seq<RecordSet>)
    ensures RegisterChangeSrv(a, svc, Apply(sets, RegisterChangeSrv(a, svc, sets))) == NoChange
  {
    var c := RegisterChangeSrv(a, svc, sets);
    if c.Upsert? {
      var z := Apply(sets, c);
      var k :| IsFirst(z, SrvNamed(c.name + "."), k) && z[k].values == c.values;
      assert c.name + "." == LookupName(a, svc);
      assert SrvValue(svc.port, svc.ip) == c.values[|c.values| - 1];
    }
  }

  /** The same for the adapter as written, on zones where no other record
      type shares the service's name. */
  lemma RegisterIdempotent(a: Adapter, svc: Service, sets: seq<RecordSet>)
    requires OnlySrvNamed(sets, LookupName(a, svc))
    ensures RegisterChange(a, svc, Apply(sets, RegisterChange(a, svc, sets))) == NoChange
  {
    AsWrittenAgrees(a, svc, sets);
    var c := RegisterChange(a, svc, sets);
    var z := Apply(sets, c);
    assert OnlySrvNamed(z, LookupName(a, svc));
    AsWrittenAgrees(a, svc, z);
    RegisterSrvIdempotent(a, svc, sets);
  }

  /** Deregistering right after a registration that added the value takes
      it out again: the set goes back to the values it had, or is deleted
      when the registration created it. */
  lemma RegisterThenDeregister(a: Adapter, svc: Service, sets: seq<RecordSet>)
    requires RegisterChangeSrv(a, svc, sets).Upsert?
    ensures var c := RegisterChangeSrv(a, svc, sets);
            var before := c.values[..|c.values| - 1];
            DeregisterChangeSrv(a, svc, Apply(sets, c))
            == if before == [] then Delete(WriteName(a, svc), SrvValue(svc.port, svc.ip), svc.ttl)
               else Upsert(WriteName(a, svc), before, svc.ttl)
  {
    var c := RegisterChangeSrv(a, svc, sets);
    var v := SrvValue(svc.port, svc.ip);
    var before := c.values[..|c.values| - 1];
    assert c.values == before + [v];
    assert v !in before;
    var z := Apply(sets, c);
    var k :| IsFirst(z, SrvNamed(c.name + "."), k) && z[k].values == c.values;
    assert c.name + "." == LookupName(a, svc);
    assert IsFirstOccurrence(c.values, v, |before|) by {
      assert c.values[..|before|] == before;
    }
    assert RemoveAt(c.values, |before|) == before;
  }

  /** After an UPSERT that took the value out of the selected set, the
      next Deregister finds nothing to remove. */
  lemma UpsertWithoutValueSettles(a: Adapter, svc: Service, sets: seq<RecordSet>, c: Change)
    requires c.Upsert? && c.name == WriteName(a, svc) && SrvValue(svc.port, svc.ip) !in c.values
    ensures DeregisterChangeSrv(a, svc, Apply(sets, c)) == NoChange
  {
    var z := Apply(sets, c);
    var k :| IsFirst(z, SrvNamed(c.name + "."), k) && z[k].values == c.values;
    assert c.name + "." == LookupName(a, svc);
  }

  /** After a DELETE of the service's set in a well-formed zone, the next
      Deregister finds no set to remove from. */
  lemma DeleteSettles(a: Adapter, svc: Service, sets: seq<RecordSet>, c: Change)
    requires WellFormed(sets)
    requires c.Delete? && c.name == WriteName(a, svc)
    ensures DeregisterChangeSrv(a, svc, Apply(sets, c)) == NoChange
  {
    assert c.name + "." == LookupName(a, svc);
  }

  /** Deregistering a second time, on the zone the first deregistration
      left, submits nothing, as long as the value was in the set at most
      once. */
  lemma DeregisterSrvIdempotent(a: Adapter, svc: Service, sets: seq<RecordSet>)
    requires WellFormed(sets)
    requires forall k :: IsFirst(sets, SrvNamed(LookupName(a, svc)), k) ==>
               multiset(sets[k].values)[SrvValue(svc.port, svc.ip)] <= 1
    ensures DeregisterChangeSrv(a, svc, Apply(sets, DeregisterChangeSrv(a, svc, sets))) == NoChange
  {
    var c := DeregisterChangeSrv(a, svc, sets);
    var v := SrvValue(svc.port, svc.ip);
    match FirstIndex(sets, SrvNamed(LookupName(a, svc)))
    case None =>
    case Some(k) =>
      assert IsFirst(sets, SrvNamed(LookupName(a, svc)), k);
      var vs := sets[k].values;
      match IndexOf(vs, v)
      case None =>
      case Some(i) =>
        if |vs| == 1 {
          DeleteSettles(a, svc, sets, c);
        } else {
          assert c.values == RemoveAt(vs, i);
          assert multiset(c.values)[v] + 1 == multiset(vs)[v];
          UpsertWithoutValueSettles(a, svc, sets, c);
        }
  }

  /** Applying the adapter's own change keeps every set of the lookup name
      an SRV set. */
  lemma ApplyKeepsOnlySrvNamed(a: Adapter, svc: Service, sets: seq<RecordSet>, c: Change)
    requires OnlySrvNamed(sets, LookupName(a, svc))
    requires c.NoChange? || c.name == WriteName(a, svc)
    ensures OnlySrvNamed(Apply(sets, c), LookupName(a, svc))
  {
  }

  /** RegisterThenDeregister for the adapter as written, on zones where no
      other record type shares the service's name. */
  lemma RegisterThenDeregisterAsWritten(a: Adapter, svc: Service, sets: seq<RecordSet>)
    requires OnlySrvNamed(sets, LookupName(a, svc))
    requires RegisterChange(a, svc, sets).Upsert?
    ensures var c := RegisterChange(a, svc, sets);
            var before := c.values[..|c.values| - 1];
            DeregisterChange(a, svc, Apply(sets, c))
            == if before == [] then Delete(WriteName(a, svc), SrvValue(svc.port, svc.ip), svc.ttl)
               else Upsert(WriteName(a, svc), before, svc.ttl)
  {
    var c := RegisterChange(a, svc, sets);
    AsWrittenAgrees(a, svc, sets);
    ApplyKeepsOnlySrvNamed(a, svc, sets, c);
    AsWrittenAgrees(a, svc, Apply(sets, c));
    RegisterThenDeregister(a, svc, sets);
  }

  /** DeregisterSrvIdempotent for the adapter as written, on zones where no
      other record type shares the service's name. */
  lemma DeregisterIdempotent(a: Adapter, svc: Service, sets: seq<RecordSet>)
    requires WellFormed(sets)
    requires OnlySrvNamed(sets, LookupName(a, svc))
    requires forall k :: IsFirst(sets, Named(LookupName(a, svc)), k) ==>
               multiset(sets[k].values)[SrvValue(svc.port, svc.ip)] <= 1
    ensures DeregisterChange(a, svc, Apply(sets, DeregisterChange(a, svc, sets))) == NoChange
  {
    var n := LookupName(a, svc);
    forall k | IsFirst(sets, SrvNamed(n), k)
      ensures multiset(sets[k].values)[SrvValue(svc.port, svc.ip)] <= 1
    {
      assert IsFirst(sets, Named(n), k);
    }
    var c := DeregisterChange(a, svc, sets);
    AsWrittenAgrees(a, svc, sets);
    ApplyKeepsOnlySrvNamed(a, svc, sets, c);
    AsWrittenAgrees(a, svc, Apply(sets, c));
    DeregisterSrvIdempotent(a, svc, sets);
  }

  /** Removing the value leaves every other value's count as it was and
      lowers the value's own count by exactly one. */
  lemma DeregisterRemovesOne(a: Adapter, svc: Service, sets: seq<RecordSet>, k: nat)
    requires IsFirst(sets, Named(LookupName(a, svc)), k)
    requires DeregisterChange(a, svc, sets).Upsert?
    ensures var vs := sets[k].values;
            var out := DeregisterChange(a, svc, sets).values;
            multiset(out)[SrvValue(svc.port, svc.ip)] + 1 == multiset(vs)[SrvValue(svc.port, svc.ip)]
            && forall x :: x != SrvValue(svc.port, svc.ip) ==> multiset(out)[x] == multiset(vs)[x]
  {
    var vs := sets[k].values;
    var i :| IsFirstOccurrence(vs, SrvValue(svc.port, svc.ip), i);
  }

  /** A service that registers on port 80 of 10.0.0.1 under "web". */
  const Web: Service := Service("web", "10.0.0.1", 80, 60)

  /** As written, a TXT set that carries the service's name is taken for
      the service's SRV set and its text is copied into the SRV UPSERT; the
      SRV-only selection upserts the service's value alone. */
  lemma TxtSetMergedIntoSrv(a: Adapter, svc: Service, text: seq<string>)
    requires SrvValue(svc.port, svc.ip) !in text
    ensures var txt := RecordSet(LookupName(a, svc), "TXT", text);
            RegisterChange(a, svc, [txt]) == Upsert(WriteName(a, svc), text + [SrvValue(svc.port, svc.ip)], svc.ttl)
            && RegisterChangeSrv(a, svc, [txt]) == Upsert(WriteName(a, svc), [SrvValue(svc.port, svc.ip)], svc.ttl)
  {
    var txt := RecordSet(LookupName(a, svc), "TXT", text);
    assert IsFirst([txt], Named(LookupName(a, svc)), 0);
    assert NoneSelected([txt], SrvNamed(LookupName(a, svc)));
  }

  /** The value the example service registers, written out. */
  lemma WebValue()
    ensures SrvValue(Web.port, Web.ip) == "1 1 80 10.0.0.1."
  {
    assert FormatInt(1) == "1";
    assert FormatNat(8) == "8";
    assert DigitChar(0) == '0';
    assert FormatInt(80) == "80";
  }

  /** A path whose one character takes two bytes in UTF-8 passes the byte
      length guard but has no '/', so the factory hits the index panic. */
  lemma OneRunePathHasNoSecondSegment()
    ensures NewAdapter("Z1", "\U{e9}") == Failure(NoSecondSegment)
  {
    assert Utf8Length("\U{e9}") == 2;
  }

  /** A path of two slashes passes the length guard and yields an empty
      domain, so the adapter would write names such as "web."; the strict
      factory refuses it. */
  lemma EmptyDomainAccepted()
    ensures NewAdapter("Z1", "//") == Success(Adapter("Z1", ""))
    ensures NewAdapterStrict("Z1", "//") == Failure(DomainRequired)
  {
    var parts: seq<string> := ["", "", ""];
    assert Join(parts, '/') == "//";
    SplitJoin(parts, '/');
  }
}
