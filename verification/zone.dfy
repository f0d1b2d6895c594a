/** What the hosted zone is assumed to do with a submitted change, so that
    Register and Deregister can be related to each other across calls. The
    zone holds at most one set per name and type. It treats the relative
    names the adapter writes as absolute ones. UPSERT replaces or creates the
    SRV set of that name. DELETE removes it. TTLs are not kept. */
module HostedZone {
  import opened Wrappers
  import opened Seqs
  import opened Route53

  /** No two sets share both name and type. */
  predicate WellFormed(sets: seq<RecordSet>)
  {
    forall i, j :: 0 <= i < j < |sets| ==> !(sets[i].name == sets[j].name && sets[i].rtype == sets[j].rtype)
  }

  /** The zone after an UPSERT of `values` under the absolute name `name`:
      the first SRV set of that name gets the values, or a new one is added. */
  function UpsertSrv(sets: seq<RecordSet>, name: string, values: seq<string>): (z: seq<RecordSet>)
    ensures WellFormed(sets) ==> WellFormed(z)
    ensures exists k :: IsFirst(z, SrvNamed(name), k) && z[k].values == values
    ensures forall rs :: rs in sets && !SrvNamed(name)(rs) ==> rs in z
    ensures forall rs :: rs in z && !SrvNamed(name)(rs) ==> rs in sets
  {
    var set' := RecordSet(name, SrvType, values);
    match FirstIndex(sets, SrvNamed(name))
    case Some(k) =>
      var z := sets[k := set'];
      assert IsFirst(z, SrvNamed(name), k);
      assert forall rs :: rs in sets && rs != sets[k] ==> rs in z by {
        forall rs | rs in sets && rs != sets[k] ensures rs in z {
          var j :| 0 <= j < |sets| && sets[j] == rs;
          assert z[j] == rs;
        }
      }
      z
    case None =>
      var z := sets + [set'];
      assert IsFirst(z, SrvNamed(name), |sets|);
      z
  }

  /** The zone after a DELETE of the SRV set with the absolute name `name`. */
  function DeleteSrv(sets: seq<RecordSet>, name: string): (z: seq<RecordSet>)
    ensures WellFormed(sets) ==> WellFormed(z)
    ensures WellFormed(sets) ==> NoneSelected(z, SrvNamed(name))
    ensures forall rs :: rs in sets && !SrvNamed(name)(rs) ==> rs in z
    ensures forall rs :: rs in z ==> rs in sets
  {
    match FirstIndex(sets, SrvNamed(name))
    case Some(k) =>
      var z := RemoveAt(sets, k);
      assert forall rs :: rs in sets && rs != sets[k] ==> rs in z by {
        forall rs | rs in sets && rs != sets[k] ensures rs in z {
          var j :| 0 <= j < |sets| && sets[j] == rs;
          if j < k { assert z[j] == rs; } else { assert z[j - 1] == rs; }
        }
      }
      z
    case None => sets
  }

  /** The zone after `c` is applied to it; the change's relative name is
      taken as absolute. */
  function Apply(sets: seq<RecordSet>, c: Change): (z: seq<RecordSet>)
    ensures WellFormed(sets) ==> WellFormed(z)
    ensures c.NoChange? ==> z == sets
    ensures c.Upsert? ==> exists k :: IsFirst(z, SrvNamed(c.name + "."), k) && z[k].values == c.values
    ensures c.Delete? && WellFormed(sets) ==> NoneSelected(z, SrvNamed(c.name + "."))
    ensures !c.NoChange? ==> forall rs :: rs in sets && !SrvNamed(c.name + ".")(rs) ==> rs in z
    ensures !c.NoChange? ==> forall rs :: rs in z && !SrvNamed(c.name + ".")(rs) ==> rs in sets
  {
    match c
    case NoChange => sets
    case Upsert(name, values, _) => UpsertSrv(sets, name + ".", values)
    case Delete(name, _, _) => DeleteSrv(sets, name + ".")
  }
}
