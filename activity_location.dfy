/** The activity location record and the operations the controller calls on it
    (`store`, `restore`, `checkLast`, `changeGazetteerLocation`, `enableEdit`/`disableEdit`,
    `setNew`, `convertNewToExisting`), given the minimal behaviour the call sites rely on. */
module ActivityLocations {
  import opened Wrappers

  type LocationId = string

  /** A gazetteer resolution: the place's id, its admin names and its default coordinate
      in micro-degrees. */
  datatype Place = Place(
    gazetteerId: string,
    regionName: Option<string>,
    municipalName: Option<string>,
    placeName: string,
    lat: int,
    lng: int)

  datatype Coordinate = Coordinate(lat: int, lng: int)

  /** The `edit` attribute: unset, "place" or "precise". */
  datatype EditMode = NotEditing | EditingPlace | EditingPrecise

  /** The `preciseAction` attribute. */
  datatype PreciseAction = Adding | Editing

  /** What `store()` keeps and `restore()` puts back. */
  datatype Snapshot = Snapshot(place: Place, precise: Option<Coordinate>)

  datatype ActivityLocation = ActivityLocation(
    id: LocationId,
    place: Place,
    precise: Option<Coordinate>,
    isNew: bool,
    edit: EditMode,
    preciseAction: Option<PreciseAction>,
    stored: Option<Snapshot>)

  /** The location as it currently stands, the part a snapshot covers. */
  function Working(l: ActivityLocation): Snapshot
  {
    Snapshot(l.place, l.precise)
  }

  /** A location made from a gazetteer choice: unsaved (`setNew`), not in edit, nothing stored. */
  function NewActivityLocation(id: LocationId, p: Place): (l: ActivityLocation)
    ensures l.id == id && l.isNew && l.edit == NotEditing && l.stored.None? && l.precise.None?
    ensures Working(l) == Snapshot(p, None)
  {
    ActivityLocation(id, p, None, true, NotEditing, None, None)
  }

  function Store(l: ActivityLocation): (r: ActivityLocation)
    ensures r.stored == Some(Working(l)) && Working(r) == Working(l)
    ensures r.id == l.id && r.isNew == l.isNew && r.edit == l.edit && r.preciseAction == l.preciseAction
  {
    l.(stored := Some(Working(l)))
  }

  /** Puts the stored snapshot back; with nothing stored there is nothing to restore. */
  function Restore(l: ActivityLocation): (r: ActivityLocation)
    ensures l.stored.Some? ==> Working(r) == l.stored.value
    ensures l.stored.None? ==> r == l
    ensures r.stored == l.stored && r.id == l.id && r.isNew == l.isNew && r.edit == l.edit
    ensures r.preciseAction == l.preciseAction
  {
    match l.stored
    case Some(s) => l.(place := s.place, precise := s.precise)
    case None => l
  }

  /** `checkLast()`: the last stored snapshot, `undefined` when none was stored. */
  function CheckLast(l: ActivityLocation): Option<Snapshot>
  {
    l.stored
  }

  function ChangeGazetteerLocation(l: ActivityLocation, p: Place): (r: ActivityLocation)
    ensures r.place == p && r.precise == l.precise && r.stored == l.stored
    ensures r.id == l.id && r.isNew == l.isNew && r.edit == l.edit && r.preciseAction == l.preciseAction
  {
    l.(place := p)
  }

  function SetEdit(l: ActivityLocation, m: EditMode): (r: ActivityLocation)
    ensures r.edit == m && Working(r) == Working(l) && r.stored == l.stored && r.id == l.id && r.isNew == l.isNew
    ensures r.preciseAction == l.preciseAction
  {
    l.(edit := m)
  }

  /** The server's permanent id replaces the temporary one and the location is no longer new. */
  function ConvertNewToExisting(l: ActivityLocation, newId: LocationId): (r: ActivityLocation)
    ensures r.id == newId && !r.isNew
    ensures Working(r) == Working(l) && r.stored == l.stored && r.edit == l.edit && r.preciseAction == l.preciseAction
  {
    l.(id := newId, isNew := false)
  }

  // ---- Rollback -------------------------------------------------------------

  /** A change made to a location while it is being edited. */
  datatype Mutation =
    | ChangePlace(p: Place)
    | SetPrecise(c: Coordinate)
    | ClearPrecise
    | ChangeEdit(m: EditMode)

  function Apply(l: ActivityLocation, m: Mutation): ActivityLocation
  {
    match m
    case ChangePlace(p) => ChangeGazetteerLocation(l, p)
    case SetPrecise(c) => l.(precise := Some(c))
    case ClearPrecise => l.(precise := None)
    case ChangeEdit(e) => SetEdit(l, e)
  }

  function ApplyAll(l: ActivityLocation, ms: seq<Mutation>): ActivityLocation
    decreases |ms|
  {
    if ms == [] then l else ApplyAll(Apply(l, ms[0]), ms[1..])
  }

  /** Edits never touch the stored snapshot. */
  lemma {:induction false} MutationsKeepSnapshot(l: ActivityLocation, ms: seq<Mutation>)
    ensures ApplyAll(l, ms).stored == l.stored
    ensures ApplyAll(l, ms).id == l.id
    decreases |ms|
  {
    if ms != [] {
      MutationsKeepSnapshot(Apply(l, ms[0]), ms[1..]);
    }
  }

  /** Restoring after any sequence of edits gives back exactly what the last `store()` saw. */
  lemma RollbackRestoresLastStore(l: ActivityLocation, ms: seq<Mutation>)
    ensures Working(Restore(ApplyAll(Store(l), ms))) == Working(l)
  {
    MutationsKeepSnapshot(Store(l), ms);
  }

  /** Restoring twice is restoring once. */
  lemma RestoreIdempotent(l: ActivityLocation)
    ensures Restore(Restore(l)) == Restore(l)
  {
  }

  /** Restore followed by store (the "No" answer on a saved location) keeps the same
      snapshot and leaves the location equal to it. */
  lemma RestoreThenStoreKeepsSnapshot(l: ActivityLocation)
    requires l.stored.Some?
    ensures Store(Restore(l)).stored == l.stored
    ensures Working(Store(Restore(l))) == l.stored.value
  {
  }

  // ---- The collection -------------------------------------------------------

  function Ids(locs: seq<ActivityLocation>): set<LocationId>
  {
    set l | l in locs :: l.id
  }

  predicate DistinctIds(locs: seq<ActivityLocation>)
  {
    forall i, j :: 0 <= i < j < |locs| ==> locs[i].id != locs[j].id
  }

  /** `getLocationById`: the position of the location with that id, if any. */
  function IndexOf(locs: seq<ActivityLocation>, id: LocationId): (r: Option<nat>)
    ensures r.Some? ==> r.value < |locs| && locs[r.value].id == id
    ensures r.Some? ==> forall j :: 0 <= j < r.value ==> locs[j].id != id
    ensures r.None? <==> id !in Ids(locs)
  {
    if locs == [] then None
    else if locs[0].id == id then Some(0)
    else
      match IndexOf(locs[1..], id)
      case Some(k) => Some(k + 1)
      case None => None
  }

  /** Every location in edit mode is the selected one, and a selected id names a location. */
  predicate SessionConsistent(locs: seq<ActivityLocation>, selectedId: Option<LocationId>)
  {
    && (selectedId.Some? ==> selectedId.value in Ids(locs))
    && forall i :: 0 <= i < |locs| && locs[i].edit != NotEditing ==> selectedId == Some(locs[i].id)
  }

  /** With distinct ids, the session rule allows at most one location in edit mode. */
  lemma AtMostOneEditing(locs: seq<ActivityLocation>, selectedId: Option<LocationId>, i: nat, j: nat)
    requires DistinctIds(locs) && SessionConsistent(locs, selectedId)
    requires i < |locs| && j < |locs| && locs[i].edit != NotEditing && locs[j].edit != NotEditing
    ensures i == j
  {
  }

  /** Replacing one location by one with the same id keeps the ids. */
  lemma UpdateKeepsIds(locs: seq<ActivityLocation>, i: nat, l: ActivityLocation)
    requires i < |locs| && l.id == locs[i].id
    ensures Ids(locs[i := l]) == Ids(locs)
    ensures DistinctIds(locs) ==> DistinctIds(locs[i := l])
  {
    var r := locs[i := l];
    forall x | x in Ids(r) ensures x in Ids(locs) {
      var k :| 0 <= k < |r| && r[k].id == x;
      assert locs[k].id == x;
    }
    forall x | x in Ids(locs) ensures x in Ids(r) {
      var k :| 0 <= k < |locs| && locs[k].id == x;
      assert r[k].id == x;
    }
  }

  /** Appending a location with a fresh id keeps ids distinct. */
  lemma AppendFresh(locs: seq<ActivityLocation>, l: ActivityLocation)
    requires DistinctIds(locs) && l.id !in Ids(locs)
    ensures DistinctIds(locs + [l]) && Ids(locs + [l]) == Ids(locs) + {l.id}
  {
    var r := locs + [l];
    forall i | 0 <= i < |locs| ensures locs[i].id != l.id {
      assert locs[i] in locs;
    }
    forall x | x in Ids(r) ensures x in Ids(locs) + {l.id} {
      var k :| 0 <= k < |r| && r[k].id == x;
      if k < |locs| { assert locs[k] in locs; }
    }
    forall x | x in Ids(locs) + {l.id} ensures x in Ids(r) {
      if x == l.id { assert r[|locs|] == l; } else {
        var k :| 0 <= k < |locs| && locs[k].id == x;
        assert r[k] == locs[k];
      }
    }
  }
}
