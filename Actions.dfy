/**
  `getClusters`, the server action behind the import form: parses the upload,
  asks the clustering flow for clusters, and stamps each parsed record with the
  position of the cluster that lists its id.

  The clustering flow is a call to a language model; its outcome is an input
  here: `Ok(clusters)` for the clusters it returned, `Err(thrown)` for the value
  it threw.
 */
module Actions {
  import opened Wrappers
  import opened Types
  import opened CsvParser

  const NoDataMessage := "No valid store data found in the uploaded file."
  const UnknownErrorMessage := "An unknown error occurred during clustering."

  /** One cluster as the clustering flow returns it: the ids of its stores and a centroid. */
  datatype AiCluster = AiCluster(storeIds: seq<string>, latitude: real, longitude: real)

  /** A thrown value: an `Error` object with its message, or anything else. */
  datatype Thrown = ErrorObject(message: string) | NonErrorValue

  /** The action's reply; `error` is absent on success. */
  datatype Response = Response(stores: seq<Store>, error: Option<string>)

  /** The message the `catch` block reports for a thrown value. */
  function ErrorMessage(e: Thrown): (msg: string)
    ensures e.ErrorObject? ==> msg == e.message
    ensures e.NonErrorValue? ==> msg == UnknownErrorMessage
  {
    match e
    case ErrorObject(message) => message
    case NonErrorValue => UnknownErrorMessage
  }

  /** Every key maps to a record carrying that id. */
  ghost predicate IdKeyed(m: map<string, Store>) {
    forall id :: id in m ==> m[id].storeId == id
  }

  /**
    `new Map(stores.map(s => [s.storeId, s]))`: every value carries its key as
    id. Later entries overwrite earlier ones: `StoreMapLastWins` and
    `StoreMapValueIsLast` show the keys are exactly the parsed ids, each mapped
    to the last parsed record with that id.
   */
  function StoreMap(stores: seq<Store>): (m: map<string, Store>)
    ensures IdKeyed(m)
    decreases |stores|
  {
    if |stores| == 0 then map[]
    else
      var last := stores[|stores| - 1];
      StoreMap(stores[..|stores| - 1])[last.storeId := last]
  }

  /** No later record in `stores` has the id of the record at `i`. */
  ghost predicate IsLastWithId(stores: seq<Store>, i: nat) {
    i < |stores| && forall j :: i < j < |stores| ==> stores[j].storeId != stores[i].storeId
  }

  /** The map holds, for each parsed id, the last parsed record with that id. */
  lemma {:induction false} StoreMapLastWins(stores: seq<Store>, i: nat)
    requires IsLastWithId(stores, i)
    ensures stores[i].storeId in StoreMap(stores)
    ensures StoreMap(stores)[stores[i].storeId] == stores[i]
    decreases |stores|
  {
    var n := |stores| - 1;
    if i < n {
      var front := stores[..n];
      assert IsLastWithId(front, i);
      StoreMapLastWins(front, i);
    }
  }

  /** Every value of the map is the last parsed record with its id. */
  lemma {:induction false} StoreMapValueIsLast(stores: seq<Store>, id: string)
    requires id in StoreMap(stores)
    ensures exists i: nat :: IsLastWithId(stores, i) && StoreMap(stores)[id] == stores[i]
    decreases |stores|
  {
    var n := |stores| - 1;
    var front := stores[..n];
    assert StoreMap(stores) == StoreMap(front)[stores[n].storeId := stores[n]];
    if stores[n].storeId == id {
      assert IsLastWithId(stores, n);
    } else {
      assert id in StoreMap(front) && StoreMap(stores)[id] == StoreMap(front)[id];
      StoreMapValueIsLast(front, id);
      var i: nat :| IsLastWithId(front, i) && StoreMap(front)[id] == front[i];
      assert front[i] == stores[i];
      assert stores[i].storeId == id;
      forall j | i < j < |stores|
        ensures stores[j].storeId != id
      {
        if j < n {
          assert stores[j] == front[j];
        }
      }
      assert IsLastWithId(stores, i);
    }
  }

  /** The copy of a record that the merge emits: the record with its cluster set. */
  function WithCluster(store: Store, clusterIndex: nat): Store {
    store.(clusterId := Some(clusterIndex))
  }

  /** What the inner `forEach` emits for one cluster: each known id's record, in id order. */
  function AssignCluster(m: map<string, Store>, ids: seq<string>, clusterIndex: nat): (r: seq<Store>)
    ensures |r| <= |ids|
    ensures forall k :: 0 <= k < |r| ==> r[k].clusterId == Some(clusterIndex)
    decreases |ids|
  {
    if |ids| == 0 then []
    else
      var id := ids[|ids| - 1];
      AssignCluster(m, ids[..|ids| - 1], clusterIndex)
        + (if id in m then [WithCluster(m[id], clusterIndex)] else [])
  }

  /** What both `forEach` loops emit: cluster after cluster, in cluster order. */
  function MergeClusters(m: map<string, Store>, clusters: seq<AiCluster>): (r: seq<Store>)
    ensures forall k :: 0 <= k < |r| ==> r[k].clusterId.Some? && r[k].clusterId.value < |clusters|
    decreases |clusters|
  {
    if |clusters| == 0 then []
    else
      var c := |clusters| - 1;
      MergeClusters(m, clusters[..c]) + AssignCluster(m, clusters[c].storeIds, c)
  }

  /** The record at one position of a merge result. */
  ghost predicate IsMergedRecord(m: map<string, Store>, clusters: seq<AiCluster>, store: Store) {
    store.clusterId.Some?
    && store.clusterId.value < |clusters|
    && store.storeId in clusters[store.clusterId.value].storeIds
    && store.storeId in m
    && store == WithCluster(m[store.storeId], store.clusterId.value)
  }

  lemma {:induction false} AssignClusterRecords(m: map<string, Store>, clusters: seq<AiCluster>, ids: seq<string>, c: nat)
    requires IdKeyed(m)
    requires c < |clusters| && forall id :: id in ids ==> id in clusters[c].storeIds
    ensures forall k :: 0 <= k < |AssignCluster(m, ids, c)| ==>
      AssignCluster(m, ids, c)[k].clusterId == Some(c) && IsMergedRecord(m, clusters, AssignCluster(m, ids, c)[k])
    decreases |ids|
  {
    if |ids| > 0 {
      AssignClusterRecords(m, clusters, ids[..|ids| - 1], c);
    }
  }

  /**
    Every merged record carries the position of a cluster that lists its id,
    so its `clusterId` lies in [0, |clusters|); its id is a key of the map; and
    apart from `clusterId` it is the map's record for that id.
   */
  lemma {:induction false} MergedRecords(m: map<string, Store>, clusters: seq<AiCluster>)
    requires IdKeyed(m)
    ensures forall k :: 0 <= k < |MergeClusters(m, clusters)| ==>
      IsMergedRecord(m, clusters, MergeClusters(m, clusters)[k])
    decreases |clusters|
  {
    if |clusters| > 0 {
      var c := |clusters| - 1;
      var front := clusters[..c];
      MergedRecords(m, front);
      AssignClusterRecords(m, clusters, clusters[c].storeIds, c);
      var a := MergeClusters(m, front);
      forall k | 0 <= k < |a|
        ensures IsMergedRecord(m, clusters, a[k])
      {
        assert IsMergedRecord(m, front, a[k]);
        assert clusters[a[k].clusterId.value] == front[a[k].clusterId.value];
      }
    }
  }

  /** The merge emits the clusters in order: cluster positions never decrease along the output. */
  lemma {:induction false} MergeFollowsClusterOrder(m: map<string, Store>, clusters: seq<AiCluster>)
    requires IdKeyed(m)
    ensures forall k, l :: 0 <= k < l < |MergeClusters(m, clusters)| ==>
      MergeClusters(m, clusters)[k].clusterId.Some? && MergeClusters(m, clusters)[l].clusterId.Some?
      && MergeClusters(m, clusters)[k].clusterId.value <= MergeClusters(m, clusters)[l].clusterId.value
    decreases |clusters|
  {
    MergedRecords(m, clusters);
    if |clusters| > 0 {
      var c := |clusters| - 1;
      var front := clusters[..c];
      MergeFollowsClusterOrder(m, front);
      MergedRecords(m, front);
      AssignClusterRecords(m, clusters, clusters[c].storeIds, c);
      var a := MergeClusters(m, front);
      var b := AssignCluster(m, clusters[c].storeIds, c);
      var r := MergeClusters(m, clusters);
      assert r == a + b;
      forall k, l | 0 <= k < l < |r|
        ensures r[k].clusterId.value <= r[l].clusterId.value
      {
        if l < |a| {
          assert r[k] == a[k] && r[l] == a[l];
        } else if k < |a| {
          assert r[k] == a[k] && r[l] == b[l - |a|];
          assert IsMergedRecord(m, front, a[k]);
        } else {
          assert r[k] == b[k - |a|] && r[l] == b[l - |a|];
        }
      }
    }
  }

  /** The ids of the records placed in cluster `c`, in output order. */
  function IdsInCluster(out: seq<Store>, c: nat): seq<string>
    decreases |out|
  {
    if |out| == 0 then []
    else
      IdsInCluster(out[..|out| - 1], c)
        + (if out[|out| - 1].clusterId == Some(c) then [out[|out| - 1].storeId] else [])
  }

  /** The ids of `ids` that are keys of `m`, in order and with repetitions. */
  function KnownIds(ids: seq<string>, m: map<string, Store>): seq<string>
    decreases |ids|
  {
    if |ids| == 0 then []
    else KnownIds(ids[..|ids| - 1], m) + (if ids[|ids| - 1] in m then [ids[|ids| - 1]] else [])
  }

  lemma {:induction false} IdsInClusterAppend(a: seq<Store>, b: seq<Store>, c: nat)
    ensures IdsInCluster(a + b, c) == IdsInCluster(a, c) + IdsInCluster(b, c)
    decreases |b|
  {
    if |b| == 0 {
      assert a + b == a;
    } else {
      var n := |b| - 1;
      assert (a + b)[..|a + b| - 1] == a + b[..n];
      IdsInClusterAppend(a, b[..n], c);
    }
  }

  lemma {:induction false} IdsInClusterNone(out: seq<Store>, c: nat)
    requires forall k :: 0 <= k < |out| ==> out[k].clusterId != Some(c)
    ensures IdsInCluster(out, c) == []
    decreases |out|
  {
    if |out| > 0 {
      IdsInClusterNone(out[..|out| - 1], c);
    }
  }

  lemma {:induction false} AssignClusterIds(m: map<string, Store>, ids: seq<string>, c: nat, d: nat)
    requires IdKeyed(m)
    ensures IdsInCluster(AssignCluster(m, ids, c), d) == if c == d then KnownIds(ids, m) else []
    decreases |ids|
  {
    if |ids| > 0 {
      var n := |ids| - 1;
      var front := AssignCluster(m, ids[..n], c);
      var tail := if ids[n] in m then [WithCluster(m[ids[n]], c)] else [];
      assert AssignCluster(m, ids, c) == front + tail;
      AssignClusterIds(m, ids[..n], c, d);
      IdsInClusterAppend(front, tail, d);
      if ids[n] in m {
        assert tail[..0] == [];
        assert m[ids[n]].storeId == ids[n];
        assert IdsInCluster(tail, d) == if c == d then [ids[n]] else [];
      } else {
        assert IdsInCluster(tail, d) == [];
      }
    }
  }

  /**
    Cluster `c` of the output lists exactly the known ids of `clusters[c]`, in
    that cluster's order: an id listed twice appears twice, and an id no
    cluster lists does not appear at all.
   */
  lemma {:induction false} MergeClusterMembers(m: map<string, Store>, clusters: seq<AiCluster>, c: nat)
    requires IdKeyed(m)
    requires c < |clusters|
    ensures IdsInCluster(MergeClusters(m, clusters), c) == KnownIds(clusters[c].storeIds, m)
    decreases |clusters|
  {
    var n := |clusters| - 1;
    var front := clusters[..n];
    var a := MergeClusters(m, front);
    var b := AssignCluster(m, clusters[n].storeIds, n);
    assert MergeClusters(m, clusters) == a + b;
    IdsInClusterAppend(a, b, c);
    AssignClusterIds(m, clusters[n].storeIds, n, c);
    if c < n {
      MergeClusterMembers(m, front, c);
      assert front[c] == clusters[c];
    } else {
      MergedRecords(m, front);
      forall k | 0 <= k < |a|
        ensures a[k].clusterId != Some(c)
      {
        assert IsMergedRecord(m, front, a[k]);
      }
      IdsInClusterNone(a, c);
    }
  }

  /**
    End to end over the parsed records: every clustered record is, apart from
    `clusterId`, the last parsed record with its id, and its cluster lists that id.
   */
  lemma ClusteredRecordIsLastParsed(stores: seq<Store>, clusters: seq<AiCluster>, k: nat)
    requires k < |MergeClusters(StoreMap(stores), clusters)|
    ensures var out := MergeClusters(StoreMap(stores), clusters)[k];
      out.clusterId.Some? && out.clusterId.value < |clusters|
      && out.storeId in clusters[out.clusterId.value].storeIds
      && exists i: nat :: IsLastWithId(stores, i) && out == WithCluster(stores[i], out.clusterId.value)
  {
    var m := StoreMap(stores);
    MergedRecords(m, clusters);
    var out := MergeClusters(m, clusters)[k];
    assert IsMergedRecord(m, clusters, out);
    StoreMapValueIsLast(stores, out.storeId);
  }

  /**
    The two nested `forEach` loops of `getClusters`: for each cluster in
    order, and each id it lists in order, append a copy of the known record
    with `clusterId` set to the cluster's position.
   */
  method CollectClustered(storeMap: map<string, Store>, clusters: seq<AiCluster>)
    returns (clusteredStores: seq<Store>)
    ensures clusteredStores == MergeClusters(storeMap, clusters)
  {
    clusteredStores := [];
    var clusterIndex := 0;
    while clusterIndex < |clusters|
      invariant 0 <= clusterIndex <= |clusters|
      invariant clusteredStores == MergeClusters(storeMap, clusters[..clusterIndex])
    {
      var storeIds := clusters[clusterIndex].storeIds;
      var j := 0;
      while j < |storeIds|
        invariant 0 <= j <= |storeIds|
        invariant clusteredStores
          == MergeClusters(storeMap, clusters[..clusterIndex]) + AssignCluster(storeMap, storeIds[..j], clusterIndex)
      {
        var storeId := storeIds[j];
        if storeId in storeMap {
          clusteredStores := clusteredStores + [WithCluster(storeMap[storeId], clusterIndex)];
        }
        assert storeIds[..j + 1][..j] == storeIds[..j];
        assert AssignCluster(storeMap, storeIds[..j + 1], clusterIndex)
          == AssignCluster(storeMap, storeIds[..j], clusterIndex)
             + (if storeId in storeMap then [WithCluster(storeMap[storeId], clusterIndex)] else []);
        j := j + 1;
      }
      assert storeIds[..j] == storeIds;
      assert clusters[..clusterIndex + 1][..clusterIndex] == clusters[..clusterIndex];
      assert MergeClusters(storeMap, clusters[..clusterIndex + 1])
        == MergeClusters(storeMap, clusters[..clusterIndex]) + AssignCluster(storeMap, storeIds, clusterIndex);
      clusterIndex := clusterIndex + 1;
    }
    assert clusters[..clusterIndex] == clusters;
  }

  /**
    `getClusters`. A parse error or a throw from the clustering flow gives no
    stores and the thrown message; an empty parse gives no stores and
    `NoDataMessage`; otherwise the nested loops build the stores cluster by
    cluster and there is no error.
   */
  method GetClusters(csvData: string, parseNum: string -> Option<real>,
                     clustering: Result<seq<AiCluster>, Thrown>) returns (resp: Response)
    ensures resp.error.Some? ==> resp.stores == []
    ensures ParseCsv(csvData, parseNum).Err? ==>
      resp == Response([], Some(ParseCsv(csvData, parseNum).error))
    ensures ParseCsv(csvData, parseNum) == Ok([]) ==>
      resp == Response([], Some(NoDataMessage))
    ensures ParseCsv(csvData, parseNum).Ok? && ParseCsv(csvData, parseNum).value != [] && clustering.Err? ==>
      resp == Response([], Some(ErrorMessage(clustering.error)))
    ensures ParseCsv(csvData, parseNum).Ok? && ParseCsv(csvData, parseNum).value != [] && clustering.Ok? ==>
      resp == Response(MergeClusters(StoreMap(ParseCsv(csvData, parseNum).value), clustering.value), None)
  {
    var parsed := ParseCsv(csvData, parseNum);
    if parsed.Err? {
      // parseCsv threw `new Error(SchemaMessage)`
      return Response([], Some(ErrorMessage(ErrorObject(parsed.error))));
    }
    var stores := parsed.value;
    if |stores| == 0 {
      return Response([], Some(NoDataMessage));
    }
    if clustering.Err? {
      return Response([], Some(ErrorMessage(clustering.error)));
    }
    var clusteredStores := CollectClustered(StoreMap(stores), clustering.value);
    return Response(clusteredStores, None);
  }
}
