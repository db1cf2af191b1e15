/** From the policy engine to the trust stores: whoever can be inspected gets the CA. */
module Trust {
  import opened Text
  import opened Api
  import opened Engine
  import opened EngineProperties
  import opened Controller
  import opened Rotation
  import I = Issuer

  lemma SelectedIsWanted(snapshot: seq<Policy>, i: nat, id: Identity)
    requires i < |snapshot| && UsesInspection(snapshot[i]) && Chooses(snapshot[i], id)
    ensures Wants(Inspected(snapshot), id.namespaceLabels)
  {
    InspectedMembers(snapshot, snapshot[i]);
    var k :| 0 <= k < |Inspected(snapshot)| && Inspected(snapshot)[k] == snapshot[i];
  }

  lemma InspectedWorkloadIsWanted(snapshot: seq<Policy>, id: Identity, reaches: Destination -> bool,
                                  dec: ConnectDecision)
    requires Summarises(dec, snapshot, id, reaches) && dec.tlsMode == Inspect
    ensures Wants(Inspected(snapshot), id.namespaceLabels)
  {
    var i: nat, j: nat :| OffersInspection(snapshot, i, j, id, reaches);
    SelectedIsWanted(snapshot, i, id);
  }

  /** On one policy snapshot: if a connection of this workload would be inspected, and a
      reconciliation pass that published the issuer's bundle on that snapshot returned nil,
      then the workload's namespace - live, and carrying the labels the workload was identified
      by - holds a managed ConfigMap with that bundle, in which are both the CA the issuer
      signs its leaves with and the one it would sign with next. */
  lemma InspectionImpliesTrust(snapshot: seq<Policy>, id: Identity, host: Bytes, port: int,
                               before: Cluster, after: Cluster, nss: seq<Namespace>, k: nat, bundle: I.Bundle)
    requires Connect(id, snapshot, host, port).tlsMode == Inspect
    requires Reached(before, after, nss, Inspected(snapshot), PemOf(bundle))
    requires k < |nss| && !nss[k].terminating
    requires nss[k].name == id.namespace && nss[k].labels == id.namespaceLabels
    ensures id.namespace in after && Managed(after[id.namespace]) && Holds(after[id.namespace], PemOf(bundle))
    ensures bundle.current.Some? ==> Trusts(after[id.namespace], bundle.current.value.cert)
    ensures bundle.next.Some? ==> Trusts(after[id.namespace], bundle.next.value.cert)
  {
    ConnectSummary(snapshot, id, host, port);
    InspectedWorkloadIsWanted(snapshot, id, d => Reaches(d, host, port), Connect(id, snapshot, host, port));
    SyncedMeansConverged(before, after, nss, Inspected(snapshot), PemOf(bundle), k);
  }
}
