/** Applying the server's answer to a save: temporary activity-location ids are replaced by
    permanent ones. */
module SaveResponses {
  import opened Wrappers
  import opened ActivityLocations

  /** One entry of `result.results`: the id the client sent (`matchWith`) and the ids the
      server assigned (`new`), either of which may be undefined. */
  datatype SaveResult = SaveResult(matchWith: LocationId, newId: Option<LocationId>, newLocationId: Option<string>)

  datatype SaveResponse =
    | TransportError
    | StatusError(message: string)
    | Saved(results: seq<SaveResult>)

  /** `updateNewLocationData` for one result. `None` when no location has the `matchWith`
      id: the handler then dereferences an undefined location and throws. Otherwise the
      first location with that id takes the new id, when one was assigned. */
  function UpdateNewLocationData(locs: seq<ActivityLocation>, r: SaveResult): (u: Option<seq<ActivityLocation>>)
    ensures u.None? <==> r.matchWith !in Ids(locs)
    ensures u.Some? ==> |u.value| == |locs|
    ensures u.Some? ==> forall k :: 0 <= k < |locs| && locs[k].id != r.matchWith ==> u.value[k] == locs[k]
    ensures u.Some? ==> forall k :: 0 <= k < |locs| && k != IndexOf(locs, r.matchWith).value ==> u.value[k] == locs[k]
    ensures u.Some? && r.newId.None? ==> u.value == locs
    ensures u.Some? && r.newId.Some? ==>
      forall k :: (0 <= k < |locs| && locs[k].id == r.matchWith && forall j :: 0 <= j < k ==> locs[j].id != r.matchWith)
        ==> u.value[k] == ConvertNewToExisting(locs[k], r.newId.value)
  {
    match IndexOf(locs, r.matchWith)
    case None => None
    case Some(i) =>
      Some(if r.newId.Some? then locs[i := ConvertNewToExisting(locs[i], r.newId.value)] else locs)
  }

  /** The `$.each` over the results; it stops at the first result that throws. Only ids
      and the new flag change: every location keeps its place, precise coordinate, snapshot
      and edit mode. A first result naming no location throws before anything changes. */
  function ApplyResults(locs: seq<ActivityLocation>, results: seq<SaveResult>): (r: (seq<ActivityLocation>, Outcome))
    ensures |r.0| == |locs|
    ensures forall k :: 0 <= k < |locs| ==>
      Working(r.0[k]) == Working(locs[k]) && r.0[k].stored == locs[k].stored && r.0[k].edit == locs[k].edit
    ensures results != [] && results[0].matchWith !in Ids(locs) ==> r == (locs, Aborted)
    decreases |results|
  {
    if results == [] then (locs, Completed)
    else
      match UpdateNewLocationData(locs, results[0])
      case None => (locs, Aborted)
      case Some(u) => ApplyResults(u, results[1..])
  }

  /** The `success` handler of `saveLocations`: a status "error" (or a failed request) leaves
      the collection untouched. */
  function ApplySaveResponse(locs: seq<ActivityLocation>, resp: SaveResponse): (r: (seq<ActivityLocation>, Outcome))
    ensures !resp.Saved? ==> r == (locs, Completed)
  {
    match resp
    case Saved(results) => ApplyResults(locs, results)
    case _ => (locs, Completed)
  }

  // ---- Specification of the remapping ---------------------------------------

  /** The new id the response assigns to a location id: that of the first result matching
      it. */
  function RemapOf(results: seq<SaveResult>, id: LocationId): Option<LocationId>
    decreases |results|
  {
    if results == [] then None
    else if results[0].matchWith == id then results[0].newId
    else RemapOf(results[1..], id)
  }

  /** A location after the response: renamed when the response assigns it a new id. */
  function Remapped(l: ActivityLocation, results: seq<SaveResult>): ActivityLocation
  {
    match RemapOf(results, l.id)
    case Some(n) => ConvertNewToExisting(l, n)
    case None => l
  }

  /** What a consistent server answer looks like: every result names a known location,
      at most once; every assigned id is new to the client and assigned once. */
  predicate WellFormedResults(locs: seq<ActivityLocation>, results: seq<SaveResult>)
  {
    && (forall j :: 0 <= j < |results| ==> results[j].matchWith in Ids(locs))
    && (forall i, j :: 0 <= i < j < |results| ==> results[i].matchWith != results[j].matchWith)
    && (forall j :: 0 <= j < |results| && results[j].newId.Some? ==> results[j].newId.value !in Ids(locs))
    && (forall i, j :: 0 <= i < j < |results| && results[i].newId.Some? && results[j].newId.Some? ==>
          results[i].newId.value != results[j].newId.value)
  }

  // ---- Properties -----------------------------------------------------------

  /** Locations no result names keep their place and value, whatever the response. */
  lemma {:induction false} UnmatchedUnchanged(locs: seq<ActivityLocation>, results: seq<SaveResult>)
    ensures |ApplyResults(locs, results).0| == |locs|
    ensures forall k :: 0 <= k < |locs| ==>
              (forall j :: 0 <= j < |results| ==> results[j].matchWith != locs[k].id) ==>
                ApplyResults(locs, results).0[k] == locs[k]
    decreases |results|
  {
    if results != [] {
      match UpdateNewLocationData(locs, results[0])
      case None =>
      case Some(u) =>
        UnmatchedUnchanged(u, results[1..]);
        forall k | 0 <= k < |locs| && (forall j :: 0 <= j < |results| ==> results[j].matchWith != locs[k].id)
          ensures ApplyResults(locs, results).0[k] == locs[k]
        {
          assert results[0].matchWith != locs[k].id;
          assert u[k] == locs[k];
          forall j | 0 <= j < |results[1..]| ensures results[1..][j].matchWith != u[k].id {
            assert results[1..][j] == results[j + 1];
          }
        }
    }
  }

  /** A well-formed response is applied in full: the collection keeps its length and its
      distinct ids, each location a result names with a new id takes that id and is no
      longer new, and every other location is unchanged. */
  lemma {:induction false} SaveRemapsIds(locs: seq<ActivityLocation>, results: seq<SaveResult>)
    requires DistinctIds(locs) && WellFormedResults(locs, results)
    ensures ApplyResults(locs, results).1 == Completed
    ensures |ApplyResults(locs, results).0| == |locs|
    ensures DistinctIds(ApplyResults(locs, results).0)
    ensures forall k :: 0 <= k < |locs| ==> ApplyResults(locs, results).0[k] == Remapped(locs[k], results)
    decreases |results|
  {
    if results != [] {
      var r := results[0];
      var rest := results[1..];
      var i := IndexOf(locs, r.matchWith).value;
      var u := UpdateNewLocationData(locs, r).value;
      assert ApplyResults(locs, results) == ApplyResults(u, rest);
      StepKeepsDistinct(locs, r);
      StepKeepsWellFormed(locs, results);
      SaveRemapsIds(u, rest);
      forall k | 0 <= k < |locs| ensures ApplyResults(locs, results).0[k] == Remapped(locs[k], results) {
        if k == i {
          // rest never names the location again, under either of its ids
          assert RemapOf(rest, u[i].id).None? by { RemapAbsent(locs, results, u[i].id); }
          assert RemapOf(results, locs[i].id) == r.newId;
        } else {
          assert locs[k].id != r.matchWith;
          assert RemapOf(results, locs[k].id) == RemapOf(rest, locs[k].id);
        }
      }
    }
  }

  /** One result applied to a collection with distinct ids, assigning a fresh id, keeps the
      ids distinct. */
  lemma StepKeepsDistinct(locs: seq<ActivityLocation>, r: SaveResult)
    requires DistinctIds(locs) && r.matchWith in Ids(locs)
    requires r.newId.Some? ==> r.newId.value !in Ids(locs)
    ensures UpdateNewLocationData(locs, r).Some? && DistinctIds(UpdateNewLocationData(locs, r).value)
  {
    var i := IndexOf(locs, r.matchWith).value;
    var u := UpdateNewLocationData(locs, r).value;
    forall a, b | 0 <= a < b < |u| ensures u[a].id != u[b].id {
      if (a == i || b == i) && r.newId.Some? {
        var other := if a == i then b else a;
        assert locs[other] in locs;
      }
    }
  }

  /** After the first result of a well-formed response, the remaining results are
      well-formed for the updated collection. */
  lemma StepKeepsWellFormed(locs: seq<ActivityLocation>, results: seq<SaveResult>)
    requires DistinctIds(locs) && WellFormedResults(locs, results) && results != []
    ensures UpdateNewLocationData(locs, results[0]).Some?
    ensures WellFormedResults(UpdateNewLocationData(locs, results[0]).value, results[1..])
  {
    var r := results[0];
    var rest := results[1..];
    var i := IndexOf(locs, r.matchWith).value;
    var u := UpdateNewLocationData(locs, r).value;
    forall j | 0 <= j < |rest| ensures rest[j].matchWith in Ids(u) {
      assert rest[j] == results[j + 1];
      var m := rest[j].matchWith;
      var k := IndexOf(locs, m).value;
      assert k != i && u[k].id == m;
      assert u[k] in u;
    }
    forall j | 0 <= j < |rest| && rest[j].newId.Some? ensures rest[j].newId.value !in Ids(u) {
      assert rest[j] == results[j + 1];
      var n := rest[j].newId.value;
      forall kk | 0 <= kk < |u| ensures u[kk].id != n {
        if kk != i {
          assert locs[kk] in locs;
        }
      }
    }
    forall a, b | 0 <= a < b < |rest| ensures rest[a].matchWith != rest[b].matchWith {
      assert rest[a] == results[a + 1] && rest[b] == results[b + 1];
    }
    forall a, b | 0 <= a < b < |rest| && rest[a].newId.Some? && rest[b].newId.Some?
      ensures rest[a].newId.value != rest[b].newId.value
    {
      assert rest[a] == results[a + 1] && rest[b] == results[b + 1];
    }
  }

  /** In a well-formed response, no later result names the first result's location, under
      its old or its new id. */
  lemma RemapAbsent(locs: seq<ActivityLocation>, results: seq<SaveResult>, id: LocationId)
    requires DistinctIds(locs) && WellFormedResults(locs, results) && results != []
    requires id == results[0].matchWith || results[0].newId == Some(id)
    ensures RemapOf(results[1..], id).None?
  {
    RemapNone(results[1..], id);
  }

  /** `RemapOf` is `None` when no result names the id. */
  lemma {:induction false} RemapNone(results: seq<SaveResult>, id: LocationId)
    ensures (forall j :: 0 <= j < |results| ==> results[j].matchWith != id) ==> RemapOf(results, id).None?
    decreases |results|
  {
    if results != [] {
      RemapNone(results[1..], id);
    }
  }
}
