/** The route53 registry adapter: it keeps one DNS SRV record set per service
    in a hosted zone, merging the service's endpoint into the values already
    there on Register and taking it out again on Deregister.

    The two remote calls of each operation (list the zone's record sets, then
    submit one change) are not modelled as calls: the list call's answer is an
    input (`ListResponse`), the change the adapter would submit is the output
    (`Change`), and the error the change call would answer with, if it is
    made, is an input (`reply`). */
module Route53 {
  import opened Wrappers
  import opened Seqs
  import opened Srv

  /** The service the host bridge asks the adapter to publish. */
  datatype Service = Service(name: string, ip: string, port: int, ttl: int)

  /** The adapter's configuration: the hosted zone and the DNS domain. */
  datatype Adapter = Adapter(hostedZoneId: string, dnsName: string)

  /** One record set of the zone as the list call returns it: its fully
      qualified name (with trailing dot), its type, and its values. */
  datatype RecordSet = RecordSet(name: string, rtype: string, values: seq<string>)

  /** The single change the adapter submits, if any. UPSERT replaces the
      values of the SRV set `name`; DELETE removes that set, which must hold
      exactly `value`. */
  datatype Change =
    | NoChange
    | Upsert(name: string, values: seq<string>, ttl: int)
    | Delete(name: string, value: string, ttl: int)

  /** What the list call answered. */
  datatype ListResponse = ListFailed(reason: string) | Listed(sets: seq<RecordSet>)

  /** The change submitted and the error handed back to the host bridge. */
  datatype Exchange = Exchange(change: Change, error: Option<string>)

  /** The record type the adapter writes. */
  const SrvType: string := "SRV"

  /** The name written in UPSERT and DELETE changes: the service's label,
      a dot, then the domain, with no dot added at the end. */
  function WriteName(a: Adapter, svc: Service): (n: string)
    ensures |n| == |svc.name| + 1 + |a.dnsName|
    ensures n[..|svc.name|] == svc.name && n[|svc.name|] == '.' && n[|svc.name| + 1..] == a.dnsName
  {
    svc.name + "." + a.dnsName
  }

  /** The name compared against listed sets: the written name made absolute. */
  function LookupName(a: Adapter, svc: Service): (n: string)
    ensures n == WriteName(a, svc) + "."
    ensures |n| > 0 && n[|n| - 1] == '.'
  {
    svc.name + "." + a.dnsName + "."
  }

  /** How a set is picked out of the listing: by name alone, as the adapter
      does, or by name and SRV type. */
  function Named(name: string): RecordSet -> bool
  {
    (rs: RecordSet) => rs.name == name
  }

  function SrvNamed(name: string): RecordSet -> bool
  {
    (rs: RecordSet) => rs.name == name && rs.rtype == SrvType
  }

  /** `k` is the first set of the listing that `select` picks. */
  predicate IsFirst(sets: seq<RecordSet>, select: RecordSet -> bool, k: int)
  {
    0 <= k < |sets| && select(sets[k]) && forall j :: 0 <= j < k ==> !select(sets[j])
  }

  /** No set of the listing is picked by `select`. */
  predicate NoneSelected(sets: seq<RecordSet>, select: RecordSet -> bool)
  {
    forall j :: 0 <= j < |sets| ==> !select(sets[j])
  }

  /** Register's decision once the existing values are known. */
  function MergeValue(existing: seq<string>, value: string, name: string, ttl: int): (c: Change)
    ensures !c.Delete?
    ensures c.NoChange? <==> value in existing
    ensures c.Upsert? ==> c == Upsert(name, existing + [value], ttl)
  {
    if value in existing then NoChange else Upsert(name, existing + [value], ttl)
  }

  /** Deregister's decision once the existing values are known. */
  function WithdrawValue(existing: seq<string>, value: string, name: string, ttl: int): (c: Change)
    ensures c.NoChange? <==> value !in existing
    ensures existing == [value] ==> c == Delete(name, value, ttl)
    ensures forall i :: IsFirstOccurrence(existing, value, i) && |existing| > 1 ==>
              c == Upsert(name, RemoveAt(existing, i), ttl)
  {
    match IndexOf(existing, value)
    case None => NoChange
    case Some(i) =>
      if |existing| == 1 then Delete(name, value, ttl) else Upsert(name, RemoveAt(existing, i), ttl)
  }

  /** Register's decision: nothing when the value is already in the first
      selected set; otherwise an UPSERT of that set's values, in their order,
      followed by the value (just the value when no set is selected). */
  function RegisterDecision(sets: seq<RecordSet>, select: RecordSet -> bool,
                            value: string, name: string, ttl: int): (c: Change)
    ensures !c.Delete?
    ensures NoneSelected(sets, select) ==> c == Upsert(name, [value], ttl)
    ensures forall k :: IsFirst(sets, select, k) ==> (c.NoChange? <==> value in sets[k].values)
    ensures forall k :: IsFirst(sets, select, k) && value !in sets[k].values ==>
              c == Upsert(name, sets[k].values + [value], ttl)
  {
    match FirstIndex(sets, select)
    case None => MergeValue([], value, name, ttl)
    case Some(k) =>
      assert IsFirst(sets, select, k);
      assert forall k' :: IsFirst(sets, select, k') ==> k' == k;
      MergeValue(sets[k].values, value, name, ttl)
  }

  /** Deregister's decision: nothing when no set is selected or the value is
      not in the first selected set; a DELETE when the value is that set's
      only record; otherwise an UPSERT of the set's values with the first
      occurrence of the value removed. */
  function DeregisterDecision(sets: seq<RecordSet>, select: RecordSet -> bool,
                              value: string, name: string, ttl: int): (c: Change)
    ensures NoneSelected(sets, select) ==> c == NoChange
    ensures forall k :: IsFirst(sets, select, k) ==> (c.NoChange? <==> value !in sets[k].values)
    ensures forall k :: IsFirst(sets, select, k) && sets[k].values == [value] ==>
              c == Delete(name, value, ttl)
    ensures forall k, i ::
              IsFirst(sets, select, k) && IsFirstOccurrence(sets[k].values, value, i) && |sets[k].values| > 1
              ==> c == Upsert(name, RemoveAt(sets[k].values, i), ttl)
  {
    match FirstIndex(sets, select)
    case None => NoChange
    case Some(k) =>
      assert IsFirst(sets, select, k);
      assert forall k' :: IsFirst(sets, select, k') ==> k' == k;
      WithdrawValue(sets[k].values, value, name, ttl)
  }

  /** The change Register submits for a listing, selecting by name only. */
  function RegisterChange(a: Adapter, svc: Service, sets: seq<RecordSet>): (c: Change)
    ensures !c.Delete?
    ensures c.Upsert? ==> c.name == WriteName(a, svc) && c.ttl == svc.ttl
    ensures NoneSelected(sets, Named(LookupName(a, svc))) ==> c == Upsert(WriteName(a, svc), [SrvValue(svc.port, svc.ip)], svc.ttl)
    ensures forall k :: IsFirst(sets, Named(LookupName(a, svc)), k) ==>
              (c.NoChange? <==> SrvValue(svc.port, svc.ip) in sets[k].values)
    ensures forall k :: IsFirst(sets, Named(LookupName(a, svc)), k) && SrvValue(svc.port, svc.ip) !in sets[k].values ==>
              c.values == sets[k].values + [SrvValue(svc.port, svc.ip)]
  {
    RegisterDecision(sets, Named(LookupName(a, svc)), SrvValue(svc.port, svc.ip), WriteName(a, svc), svc.ttl)
  }

  /** The change Deregister submits for a listing, selecting by name only. */
  function DeregisterChange(a: Adapter, svc: Service, sets: seq<RecordSet>): (c: Change)
    ensures c.Delete? ==> c == Delete(WriteName(a, svc), SrvValue(svc.port, svc.ip), svc.ttl)
    ensures c.Upsert? ==> c.name == WriteName(a, svc) && c.ttl == svc.ttl
    ensures NoneSelected(sets, Named(LookupName(a, svc))) ==> c == NoChange
    ensures forall k :: IsFirst(sets, Named(LookupName(a, svc)), k) ==>
              (c.NoChange? <==> SrvValue(svc.port, svc.ip) !in sets[k].values)
    ensures forall k :: IsFirst(sets, Named(LookupName(a, svc)), k) && sets[k].values == [SrvValue(svc.port, svc.ip)] ==>
              c.Delete?
    ensures forall k, i ::
              IsFirst(sets, Named(LookupName(a, svc)), k) && IsFirstOccurrence(sets[k].values, SrvValue(svc.port, svc.ip), i)
              && |sets[k].values| > 1
              ==> c.Upsert? && c.values == RemoveAt(sets[k].values, i)
  {
    DeregisterDecision(sets, Named(LookupName(a, svc)), SrvValue(svc.port, svc.ip), WriteName(a, svc), svc.ttl)
  }

  /** Register and Deregister with the selection corrected to pick only SRV
      sets of the name. */
  function RegisterChangeSrv(a: Adapter, svc: Service, sets: seq<RecordSet>): Change
  {
    RegisterDecision(sets, SrvNamed(LookupName(a, svc)), SrvValue(svc.port, svc.ip), WriteName(a, svc), svc.ttl)
  }

  function DeregisterChangeSrv(a: Adapter, svc: Service, sets: seq<RecordSet>): Change
  {
    DeregisterDecision(sets, SrvNamed(LookupName(a, svc)), SrvValue(svc.port, svc.ip), WriteName(a, svc), svc.ttl)
  }

  /** The error an operation hands back: a failed listing is swallowed, no
      change means no call and no error, and a submitted change returns
      whatever the change call answered. */
  function Outcome(resp: ListResponse, change: Change, reply: Option<string>): (x: Exchange)
    requires resp.ListFailed? ==> change == NoChange
    ensures x.change == change
    ensures resp.ListFailed? ==> x.error == None
    ensures x.error.Some? <==> !change.NoChange? && reply.Some?
    ensures x.error.Some? ==> x.error == reply
  {
    if change.NoChange? then Exchange(NoChange, None) else Exchange(change, reply)
  }

  /** Register end to end: list, decide, submit; `reply` is what the change
      call answers if it is made. */
  function Register(a: Adapter, svc: Service, resp: ListResponse, reply: Option<string>): (x: Exchange)
    ensures resp.ListFailed? ==> x == Exchange(NoChange, None)
    ensures resp.Listed? ==> x.change == RegisterChange(a, svc, resp.sets)
    ensures x.error.Some? <==> !x.change.NoChange? && reply.Some?
    ensures x.error.Some? ==> x.error == reply
  {
    match resp
    case ListFailed(_) => Outcome(resp, NoChange, reply)
    case Listed(sets) => Outcome(resp, RegisterChange(a, svc, sets), reply)
  }

  /** Deregister end to end, with the same error handling as Register. */
  function Deregister(a: Adapter, svc: Service, resp: ListResponse, reply: Option<string>): (x: Exchange)
    ensures resp.ListFailed? ==> x == Exchange(NoChange, None)
    ensures resp.Listed? ==> x.change == DeregisterChange(a, svc, resp.sets)
    ensures x.error.Some? <==> !x.change.NoChange? && reply.Some?
    ensures x.error.Some? ==> x.error == reply
  {
    match resp
    case ListFailed(_) => Outcome(resp, NoChange, reply)
    case Listed(sets) => Outcome(resp, DeregisterChange(a, svc, sets), reply)
  }

  /** Why the factory cannot build an adapter: the path is too short (a
      fatal log in the source), or it has no '/' so the second piece of the
      split does not exist (an index-out-of-range panic in the source). */
  datatype FactoryError = DomainRequired | NoSecondSegment

  /** The number of bytes in the UTF-8 encoding of `s`, which is what Go's
      len counts for a string: one to four per character by code point. */
  function Utf8Length(s: string): (n: nat)
    ensures |s| <= n <= 4 * |s|
    ensures n == |s| <==> forall i :: 0 <= i < |s| ==> s[i] as int < 0x80
  {
    if |s| == 0 then 0
    else
      var c := s[0] as int;
      (if c < 0x80 then 1 else if c < 0x800 then 2 else if c < 0x1_0000 then 3 else 4)
      + Utf8Length(s[1..])
  }

  /** Factory.New: the hosted zone is the URI's host and the DNS domain is
      the piece of the path after its first '/', up to the next '/'. The
      guard counts the path's bytes. */
  function NewAdapter(host: string, path: string): (r: Result<Adapter, FactoryError>)
    ensures Utf8Length(path) < 2 ==> r == Failure(DomainRequired)
    ensures Utf8Length(path) >= 2 && '/' !in path ==> r == Failure(NoSecondSegment)
    ensures Utf8Length(path) >= 2 && '/' in path ==> r.Success?
    ensures r.Success? ==> r.value.hostedZoneId == host && '/' !in r.value.dnsName
    ensures r.Success? ==> forall i :: IsFirstOccurrence(path, '/', i) ==>
              r.value.dnsName == path[i + 1..] || r.value.dnsName + "/" <= path[i + 1..]
  {
    if Utf8Length(path) < 2 then Failure(DomainRequired)
    else
      var parts := Split(path, '/');
      if |parts| < 2 then Failure(NoSecondSegment) else Success(Adapter(host, parts[1]))
  }

  /** Factory.New with the guard it evidently intends: the domain piece of
      the path must be non-empty, so "//" is refused like "/". */
  function NewAdapterStrict(host: string, path: string): (r: Result<Adapter, FactoryError>)
    ensures r.Success? ==> |r.value.dnsName| > 0
    ensures r.Success? <==> NewAdapter(host, path).Success? && NewAdapter(host, path).value.dnsName != ""
    ensures r.Success? ==> r == NewAdapter(host, path)
  {
    match NewAdapter(host, path)
    case Success(adapter) => if adapter.dnsName == "" then Failure(DomainRequired) else Success(adapter)
    case Failure(e) => Failure(e)
  }
}
