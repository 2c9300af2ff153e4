/** The decision and state core of the location-editing controller: the edit session whose
    only lock is `selectedId`, the gazetteer cascade, the confirmation flow and the
    application of save responses. Presentation (map layers, popups, table rows) is not
    part of the model; `confirmationLayer` records only whether the layer is set. */
module MapEdit {
  import opened Wrappers
  import opened ActivityLocations
  import opened Cascade
  import opened SaveResponses

  /** The three gazetteer selects, named as `this[selectName + "Name"]` names them. */
  datatype SelectName = RegionSelect | MunicipalSelect | PlaceSelect

  /** What the place-detail request brought back: an error message or the place. */
  datatype PlaceDetail = LookupError(message: string) | Found(place: Place)

  /** Whether `getPlaceInformation` fetches the detail or reuses what the location holds. */
  datatype PlaceRequest = FetchDetail(gazetteerId: string) | AlreadyLoaded

  /** What the search field's `select2-selecting` handler receives: a search hit, or the
      synthetic entry the edit button loads for an existing location. */
  datatype Selection = SearchHit(place: Place) | EditLoad(alId: LocationId)

  /** The detail is fetched unless the chosen id is the selected location's own. */
  function PlaceRequestFor(current: Option<string>, chosen: string): (r: PlaceRequest)
    ensures r == AlreadyLoaded <==> current == Some(chosen)
    ensures r.FetchDetail? ==> r.gazetteerId == chosen
  {
    if current == Some(chosen) then AlreadyLoaded else FetchDetail(chosen)
  }

  /** "Is this correct?" is asked unless the last stored snapshot has the same gazetteer id. */
  predicate PromptNeeded(l: ActivityLocation)
  {
    CheckLast(l).None? || CheckLast(l).value.place.gazetteerId != l.place.gazetteerId
  }

  /** The prompt is skipped exactly when a snapshot with the current gazetteer id exists. */
  lemma PromptSkippedIffUnchanged(l: ActivityLocation)
    ensures !PromptNeeded(l) <==> exists s :: l.stored == Some(s) && s.place.gazetteerId == l.place.gazetteerId
  {
    if !PromptNeeded(l) {
      assert l.stored == Some(l.stored.value);
    }
  }

  /** What `activityAdded` reports: which of the four save messages applies. */
  datatype SaveKind = LocationAdded | PlaceEdited | PreciseAdded | PreciseEdited

  /** The message's case: the edit mode decides, a precise edit is split by its
      `preciseAction`, and a location out of edit is reported only while it is new. */
  function SaveKindOf(l: ActivityLocation): (k: Option<SaveKind>)
    ensures k.None? <==> !l.isNew && l.edit == NotEditing
    ensures k == Some(PreciseAdded) <==> l.edit == EditingPrecise && l.preciseAction == Some(Adding)
    ensures k == Some(PreciseEdited) <==> l.edit == EditingPrecise && l.preciseAction != Some(Adding)
    ensures k == Some(PlaceEdited) <==> l.edit == EditingPlace
  {
    match l.edit
    case EditingPrecise => Some(if l.preciseAction == Some(Adding) then PreciseAdded else PreciseEdited)
    case EditingPlace => Some(PlaceEdited)
    case NotEditing => if l.isNew then Some(LocationAdded) else None
  }

  /** The message `activityAdded` passes to the save: it opens with the place's name. */
  function SaveMessage(l: ActivityLocation): (m: Option<string>)
    ensures m.None? <==> !l.isNew && l.edit == NotEditing
    ensures m.Some? ==> |m.value| > |l.place.placeName| && m.value[..|l.place.placeName|] == l.place.placeName
  {
    var name := l.place.placeName;
    match l.edit
    case EditingPrecise =>
      if l.preciseAction == Some(Adding) then Some(name + "'s precise location added!")
      else Some(name + "'s precise location successfully edited!")
    case EditingPlace => Some(name + "'s place successfully edited!")
    case NotEditing => if l.isNew then Some(name + " added!") else None
  }

  /** For one place name the message tells the four cases apart. */
  lemma SaveMessageIdentifiesKind(l1: ActivityLocation, l2: ActivityLocation)
    requires l1.place.placeName == l2.place.placeName
    ensures SaveMessage(l1) == SaveMessage(l2) <==> SaveKindOf(l1) == SaveKindOf(l2)
  {
  }

  /** The value the region select takes when autofill sets it: the name when it is offered,
      otherwise no option is selected and the value is "". */
  function AutofillValue(opts: seq<SelectOption>, name: string): string
  {
    if Named(name) in opts then name else ""
  }

  /** After a save response, the session invariant survives when the response is well formed
      and does not rename the selected location. */
  lemma RemapKeepsSession(locs: seq<ActivityLocation>, results: seq<SaveResult>, sel: Option<LocationId>)
    requires DistinctIds(locs) && SessionConsistent(locs, sel) && WellFormedResults(locs, results)
    requires sel.Some? ==> forall j :: 0 <= j < |results| ==> results[j].matchWith != sel.value
    ensures DistinctIds(ApplyResults(locs, results).0)
    ensures SessionConsistent(ApplyResults(locs, results).0, sel)
  {
    SaveRemapsIds(locs, results);
    var f := ApplyResults(locs, results).0;
    if sel.Some? {
      RemapNone(results, sel.value);
      var j := IndexOf(locs, sel.value).value;
      assert f[j] == locs[j];
      assert f[j] in f;
    }
    forall k | 0 <= k < |f| && f[k].edit != NotEditing ensures sel == Some(f[k].id) {
      assert f[k] == Remapped(locs[k], results);
      assert locs[k].edit != NotEditing;
      RemapNone(results, sel.value);
    }
  }

  class MapEditController {
    /** The Backbone collection of activity locations. */
    var locations: seq<ActivityLocation>
    /** The session lock: the location being added or edited. */
    var selectedId: Option<LocationId>
    var regionName: Option<string>
    var municipalName: Option<string>
    var placeName: Option<string>
    var selectedGazetteer: Option<string>
    /** Whether `confirmationLayer` is set. */
    var confirmationLayer: bool
    var sameOptionAsMunicipal: bool
    var onlyMunicipalInRegion: bool
    /** The options of each select, `None` while the select is not on the page. */
    var regionOptions: Option<seq<SelectOption>>
    var municipalOptions: Option<seq<SelectOption>>
    var placeOptions: Option<seq<SelectOption>>

    /** Ids are distinct, and the lock names a location and covers every location in edit. */
    ghost predicate Valid()
      reads this
    {
      DistinctIds(locations) && SessionConsistent(locations, selectedId)
    }

    function SelectedIndex(): (i: nat)
      reads this
      requires selectedId.Some? && selectedId.value in Ids(locations)
      ensures i < |locations| && locations[i].id == selectedId.value
    {
      IndexOf(locations, selectedId.value).value
    }

    /** The gazetteer id of the selected location, undefined when nothing is selected. */
    function CurrentGazetteerId(): (g: Option<string>)
      reads this
      requires selectedId.Some? ==> selectedId.value in Ids(locations)
      ensures g.Some? <==> selectedId.Some?
    {
      if selectedId.None? then None else Some(locations[SelectedIndex()].place.gazetteerId)
    }

    /** `postRender`: the loaded locations, each stored, with no session open. */
    constructor (initial: seq<ActivityLocation>)
      requires DistinctIds(initial)
      requires forall k :: 0 <= k < |initial| ==> initial[k].edit == NotEditing
      ensures Valid() && selectedId.None? && !confirmationLayer
      ensures |locations| == |initial| && forall k :: 0 <= k < |initial| ==> locations[k] == Store(initial[k])
      ensures regionOptions.None? && municipalOptions.None? && placeOptions.None?
    {
      locations := seq(|initial|, k requires 0 <= k < |initial| => Store(initial[k]));
      selectedId := None;
      regionName := None;
      municipalName := None;
      placeName := None;
      selectedGazetteer := None;
      confirmationLayer := false;
      sameOptionAsMunicipal := false;
      onlyMunicipalInRegion := false;
      regionOptions := None;
      municipalOptions := None;
      placeOptions := None;
      new;
      assert Ids(locations) == Ids(initial) by {
        forall x | x in Ids(initial) ensures x in Ids(locations) {
          var k :| 0 <= k < |initial| && initial[k].id == x;
          assert locations[k] in locations;
        }
      }
    }

    // ---- Cascade ------------------------------------------------------------

    /** Clears the name a select drives; for the place select also the chosen gazetteer
        entry and, unless kept, the confirmation layer. */
    method ResetSelectSettings(name: SelectName, keepConfirmLayer: bool)
      modifies this`regionName, this`municipalName, this`placeName, this`selectedGazetteer, this`confirmationLayer
      ensures regionName == (if name == RegionSelect then None else old(regionName))
      ensures municipalName == (if name == MunicipalSelect then None else old(municipalName))
      ensures placeName == (if name == PlaceSelect then None else old(placeName))
      ensures selectedGazetteer == (if name == PlaceSelect then None else old(selectedGazetteer))
      ensures confirmationLayer == (if name == PlaceSelect && !keepConfirmLayer then false else old(confirmationLayer))
    {
      match name
      case RegionSelect => regionName := None;
      case MunicipalSelect => municipalName := None;
      case PlaceSelect =>
        placeName := None;
        selectedGazetteer := None;
        if !keepConfirmLayer {
          confirmationLayer := false;
        }
    }

    /** Takes a select off the page and clears its settings. */
    method RemoveSelect(name: SelectName, keepConfirmLayer: bool)
      modifies this`regionName, this`municipalName, this`placeName, this`selectedGazetteer, this`confirmationLayer
      modifies this`regionOptions, this`municipalOptions, this`placeOptions
      ensures regionOptions == (if name == RegionSelect then None else old(regionOptions))
      ensures municipalOptions == (if name == MunicipalSelect then None else old(municipalOptions))
      ensures placeOptions == (if name == PlaceSelect then None else old(placeOptions))
      ensures regionName == (if name == RegionSelect then None else old(regionName))
      ensures municipalName == (if name == MunicipalSelect then None else old(municipalName))
      ensures placeName == (if name == PlaceSelect then None else old(placeName))
      ensures selectedGazetteer == (if name == PlaceSelect then None else old(selectedGazetteer))
      ensures confirmationLayer == (if name == PlaceSelect && !keepConfirmLayer then false else old(confirmationLayer))
    {
      match name {
        case RegionSelect => regionOptions := None;
        case MunicipalSelect => municipalOptions := None;
        case PlaceSelect => placeOptions := None;
      }
      ResetSelectSettings(name, keepConfirmLayer);
    }

    /** Closes the add-location box: all three selects go and every name is cleared. */
    method CloseLocationBox(keepConfirmLayer: bool)
      modifies this`regionName, this`municipalName, this`placeName, this`selectedGazetteer, this`confirmationLayer
      modifies this`regionOptions, this`municipalOptions, this`placeOptions
      ensures regionOptions.None? && municipalOptions.None? && placeOptions.None?
      ensures regionName.None? && municipalName.None? && placeName.None? && selectedGazetteer.None?
      ensures confirmationLayer == (old(confirmationLayer) && keepConfirmLayer)
    {
      RemoveSelect(RegionSelect, keepConfirmLayer);
      RemoveSelect(MunicipalSelect, keepConfirmLayer);
      RemoveSelect(PlaceSelect, keepConfirmLayer);
    }

    /** Fills the region select from the level-1 admin list. */
    method AddRegionOptions(names: seq<string>)
      modifies this`regionOptions
      ensures regionOptions == Some(RegionOptions(names))
    {
      regionOptions := Some(RegionOptions(names));
    }

    /** A region was chosen: it becomes `regionName` and its municipals are requested. */
    method UpdateRegionSelect(value: string) returns (municipalsOf: string)
      modifies this`regionName
      ensures regionName == Some(value) && municipalsOf == value
    {
      regionName := Some(value);
      municipalsOf := value;
    }

    /** A municipal was chosen; the placeholder's "false" is ignored. Returns the municipal
        whose places are requested. */
    method UpdateMunicipalSelect(value: string) returns (placesOf: Option<string>)
      modifies this`municipalName
      ensures placesOf.Some? <==> value != Unselected
      ensures placesOf.Some? ==> placesOf.value == value && municipalName == Some(value)
      ensures placesOf.None? ==> municipalName == old(municipalName)
    {
      placesOf := None;
      if value != Unselected {
        municipalName := Some(value);
        placesOf := Some(value);
      }
    }

    /** Fills the municipal select from the level-2 admin list. A select that was already
        there loses its place select. A lone entry is selected at once. */
    method AddMunicipalOptions(names: seq<string>) returns (placesOf: Option<string>)
      modifies this`municipalOptions, this`placeOptions, this`municipalName, this`onlyMunicipalInRegion
      ensures municipalOptions == Some(MunicipalOptions(names))
      ensures placeOptions == (if old(municipalOptions).Some? then None else old(placeOptions))
      ensures onlyMunicipalInRegion <==> |names| == 1
      ensures placesOf.Some? ==> |names| == 1
      ensures |names| == 1 ==>
        var v := if names[0] != Tbd then names[0] else "";
        placesOf == (if v != Unselected then Some(v) else None)
      ensures municipalName == (if placesOf.Some? then placesOf else old(municipalName))
    {
      if municipalOptions.Some? {
        placeOptions := None;
      }
      var opts := MunicipalOptions(names);
      municipalOptions := Some(opts);
      placesOf := None;
      if |names| == 1 {
        LoneMunicipalSelected(names[0]);
        assert [names[0]] == names;
        placesOf := UpdateMunicipalSelect(SelectedValue(opts));
        onlyMunicipalInRegion := true;
      } else {
        onlyMunicipalInRegion := false;
      }
    }

    /** Handles the level-3 admin list. When the one place bears the municipal's name no
        select is built and that place is looked up directly; otherwise the place select is
        filled and a lone entry is selected at once. Returns the gazetteer id to look up. */
    method AddPlacesOptions(items: seq<PlaceItem>) returns (lookup: Option<string>)
      modifies this`sameOptionAsMunicipal, this`placeOptions
      ensures sameOptionAsMunicipal <==> municipalName.Some? && SameOptionAsMunicipal(municipalName.value, items)
      ensures sameOptionAsMunicipal ==> lookup == Some(items[0].gazetteerId) && placeOptions == old(placeOptions)
      ensures !sameOptionAsMunicipal ==> placeOptions == Some(PlaceOptions(items))
      ensures !sameOptionAsMunicipal && lookup.Some? ==> |items| == 1
      ensures !sameOptionAsMunicipal && |items| == 1 ==>
        var v := if items[0].placeName != Tbd then items[0].gazetteerId else "";
        lookup == (if v != Unselected then Some(v) else None)
    {
      var onlyOption := |items| == 1;
      sameOptionAsMunicipal := onlyOption && municipalName == Some(items[0].placeName);
      lookup := None;
      if !sameOptionAsMunicipal {
        var opts := PlaceOptions(items);
        placeOptions := Some(opts);
        if onlyOption {
          LonePlaceSelected(items[0]);
          assert [items[0]] == items;
          var v := SelectedValue(opts);
          if v != Unselected {
            lookup := Some(v);
          }
        }
      } else {
        lookup := Some(items[0].gazetteerId);
      }
    }

    /** `getPlaceInformation`: the detail request is skipped when the chosen id is the
        selected location's own. */
    function GetPlaceInformation(chosen: string): (r: PlaceRequest)
      reads this
      requires selectedId.Some? ==> selectedId.value in Ids(locations)
      ensures r == AlreadyLoaded <==> selectedId.Some? && locations[SelectedIndex()].place.gazetteerId == chosen
    {
      PlaceRequestFor(CurrentGazetteerId(), chosen)
    }

    /** `addPlaceConfirmation`. `detail` is `None` when the selected location already holds
        the place. A lookup error changes nothing. Otherwise the selected location takes the
        place, or a new location is created and selected; the confirmation layer is set and
        `prompt` says whether "Is this correct?" is asked. */
    method AddPlaceConfirmation(detail: Option<PlaceDetail>, freshId: LocationId) returns (error: Option<string>, prompt: bool)
      requires Valid()
      requires detail.None? ==> selectedId.Some?
      requires freshId !in Ids(locations)
      modifies this`locations, this`selectedId, this`confirmationLayer
      ensures Valid()
      ensures detail.Some? && detail.value.LookupError? ==>
        error == Some(detail.value.message) && !prompt &&
        locations == old(locations) && selectedId == old(selectedId) && confirmationLayer == old(confirmationLayer)
      ensures !(detail.Some? && detail.value.LookupError?) ==>
        error.None? && confirmationLayer && selectedId.Some? && selectedId.value in Ids(locations) &&
        prompt == PromptNeeded(locations[SelectedIndex()])
      ensures !(detail.Some? && detail.value.LookupError?) && old(selectedId).Some? ==>
        selectedId == old(selectedId) &&
        var i := IndexOf(old(locations), old(selectedId).value).value;
        locations == old(locations)[i := if detail.Some? then ChangeGazetteerLocation(old(locations)[i], detail.value.place) else old(locations)[i]]
      ensures !(detail.Some? && detail.value.LookupError?) && old(selectedId).None? ==>
        selectedId == Some(freshId) && locations == old(locations) + [NewActivityLocation(freshId, detail.value.place)]
    {
      error := None;
      prompt := false;
      if detail.Some? && detail.value.LookupError? {
        error := Some(detail.value.message);
        return;
      }
      if selectedId.Some? {
        var i := SelectedIndex();
        if detail.Some? {
          var l := ChangeGazetteerLocation(locations[i], detail.value.place);
          UpdateKeepsIds(locations, i, l);
          locations := locations[i := l];
        }
      } else {
        var l := NewActivityLocation(freshId, detail.value.place);
        AppendFresh(locations, l);
        locations := locations + [l];
        selectedId := Some(freshId);
        assert locations[|locations| - 1].id == freshId;
      }
      confirmationLayer := true;
      prompt := PromptNeeded(locations[SelectedIndex()]);
    }

    /** The sequential part of `autofillGazetteerOptions`: the region select is set to the
        selected location's region, which drives `regionName`. The municipal and place
        levels follow on later responses. */
    method AutofillGazetteerOptions()
      requires selectedId.Some? && selectedId.value in Ids(locations)
      modifies this`regionName
      ensures var rn := locations[SelectedIndex()].place.regionName;
        regionName == (if rn.Some? && regionOptions.Some? then Some(AutofillValue(regionOptions.value, rn.value)) else old(regionName))
    {
      var rn := locations[SelectedIndex()].place.regionName;
      if rn.Some? && regionOptions.Some? {
        var _ := UpdateRegionSelect(AutofillValue(regionOptions.value, rn.value));
      }
    }

    /** The search field's `select2-selecting` handler: an edit load puts the location in
        place-edit mode and stores it; a search hit updates the selected location, or creates
        and selects a new one. Then the selects are autofilled. */
    method SearchResultSelected(selected: Selection, freshId: LocationId)
      requires Valid()
      requires selected.EditLoad? ==> selectedId == Some(selected.alId)
      requires selected.SearchHit? && selectedId.None? ==> freshId !in Ids(locations)
      modifies this`locations, this`selectedId, this`regionName
      ensures Valid() && selectedId.Some?
      ensures selected.EditLoad? ==>
        (selectedId == old(selectedId) &&
         var i := IndexOf(old(locations), selected.alId).value;
         locations == old(locations)[i := Store(SetEdit(old(locations)[i], EditingPlace))])
      ensures selected.SearchHit? && old(selectedId).Some? ==>
        (selectedId == old(selectedId) &&
         var i := IndexOf(old(locations), old(selectedId).value).value;
         locations == old(locations)[i := ChangeGazetteerLocation(old(locations)[i], selected.place)])
      ensures selected.SearchHit? && old(selectedId).None? ==>
        selectedId == Some(freshId) && locations == old(locations) + [NewActivityLocation(freshId, selected.place)]
      ensures var rn := locations[SelectedIndex()].place.regionName;
        regionName == (if rn.Some? && regionOptions.Some? then Some(AutofillValue(regionOptions.value, rn.value)) else old(regionName))
    {
      match selected {
        case EditLoad(alId) =>
          var i := IndexOf(locations, alId).value;
          var l := Store(SetEdit(locations[i], EditingPlace));
          UpdateKeepsIds(locations, i, l);
          locations := locations[i := l];
        case SearchHit(p) =>
          if selectedId.None? {
            var l := NewActivityLocation(freshId, p);
            AppendFresh(locations, l);
            locations := locations + [l];
            selectedId := Some(freshId);
            assert locations[|locations| - 1].id == freshId;
          } else {
            var i := SelectedIndex();
            var l := ChangeGazetteerLocation(locations[i], p);
            UpdateKeepsIds(locations, i, l);
            locations := locations[i := l];
          }
      }
      AutofillGazetteerOptions();
    }

    /** `editActivityLocation` together with its start-up callback. The region list is
        requested only when the add-location box is built, which is when no region select is
        on the page; once it arrives the location is selected and loaded for a place edit.
        With the box already built no region list is requested, the callback never fires,
        and nothing changes: `started` is false. */
    method BeginPlaceEdit(alId: LocationId, regionNames: seq<string>) returns (started: bool)
      requires Valid() && selectedId.None? && alId in Ids(locations)
      modifies this`locations, this`selectedId, this`regionName, this`regionOptions
      ensures Valid()
      ensures started <==> old(regionOptions).None?
      ensures !started ==>
        locations == old(locations) && selectedId.None? &&
        regionOptions == old(regionOptions) && regionName == old(regionName)
      ensures started ==>
        selectedId == Some(alId) && regionOptions == Some(RegionOptions(regionNames)) &&
        var i := IndexOf(old(locations), alId).value;
        locations == old(locations)[i := Store(SetEdit(old(locations)[i], EditingPlace))]
      ensures started ==>
        var rn := locations[SelectedIndex()].place.regionName;
        regionName == (if rn.Some? then Some(AutofillValue(regionOptions.value, rn.value)) else old(regionName))
    {
      started := regionOptions.None?;
      if !started {
        return;
      }
      AddRegionOptions(regionNames);
      selectedId := Some(alId);
      SearchResultSelected(EditLoad(alId), alId);
    }

    /** `locationDenied`: the answer "No" to "Is this correct?". The selects are reset as the
        cascade flags dictate; a location that is not new is rolled back to its snapshot,
        stored again and autofilled, and keeps the confirmation layer. */
    method LocationDenied()
      requires Valid() && selectedId.Some? && confirmationLayer
      modifies this`locations, this`regionName, this`municipalName, this`placeName, this`selectedGazetteer
      modifies this`confirmationLayer, this`regionOptions, this`municipalOptions, this`placeOptions
      ensures Valid() && selectedId == old(selectedId) && regionOptions == old(regionOptions)
      ensures var i := IndexOf(old(locations), old(selectedId).value).value;
        locations == (if old(locations)[i].isNew then old(locations) else old(locations)[i := Store(Restore(old(locations)[i]))])
      ensures var l := old(locations)[IndexOf(old(locations), old(selectedId).value).value];
        confirmationLayer == !l.isNew
      ensures placeName.None? && selectedGazetteer.None?
      ensures placeOptions == (if old(sameOptionAsMunicipal) then None else old(placeOptions))
      ensures municipalOptions == (if old(sameOptionAsMunicipal) && old(onlyMunicipalInRegion) then None else old(municipalOptions))
      ensures municipalName == (if old(sameOptionAsMunicipal) then None else old(municipalName))
      ensures var l := old(locations)[IndexOf(old(locations), old(selectedId).value).value];
        var rn := Restore(l).place.regionName;
        regionName ==
          if !l.isNew && rn.Some? && regionOptions.Some? then Some(AutofillValue(regionOptions.value, rn.value))
          else if old(sameOptionAsMunicipal) && old(onlyMunicipalInRegion) then None
          else old(regionName)
    {
      var i := SelectedIndex();
      var l := locations[i];
      ResetSelectsAfterDenial(!l.isNew);
      if !l.isNew {
        var l' := Store(Restore(l));
        UpdateKeepsIds(locations, i, l');
        locations := locations[i := l'];
        assert locations[i] == l';
        AutofillGazetteerOptions();
      }
    }

    /** The select resets of `locationDenied`. With the place level skipped, the municipal
        select is removed (and the region reset) when it was the region's only municipal, and
        reset otherwise, and the place select is removed; without it only the place select is
        reset. */
    method ResetSelectsAfterDenial(keepConfirmLayer: bool)
      modifies this`regionName, this`municipalName, this`placeName, this`selectedGazetteer
      modifies this`confirmationLayer, this`regionOptions, this`municipalOptions, this`placeOptions
      ensures regionOptions == old(regionOptions)
      ensures placeName.None? && selectedGazetteer.None?
      ensures confirmationLayer == (old(confirmationLayer) && keepConfirmLayer)
      ensures placeOptions == (if sameOptionAsMunicipal then None else old(placeOptions))
      ensures municipalOptions == (if sameOptionAsMunicipal && onlyMunicipalInRegion then None else old(municipalOptions))
      ensures municipalName == (if sameOptionAsMunicipal then None else old(municipalName))
      ensures regionName == (if sameOptionAsMunicipal && onlyMunicipalInRegion then None else old(regionName))
    {
      if sameOptionAsMunicipal {
        if onlyMunicipalInRegion {
          RemoveSelect(MunicipalSelect, keepConfirmLayer);
          ResetSelectSettings(RegionSelect, keepConfirmLayer);
        } else {
          ResetSelectSettings(MunicipalSelect, keepConfirmLayer);
        }
        RemoveSelect(PlaceSelect, keepConfirmLayer);
      } else {
        ResetSelectSettings(PlaceSelect, keepConfirmLayer);
      }
    }

    // ---- Session release ----------------------------------------------------

    /** `editActivityPreciseLocation`. On a location in edit it ends the edit and releases
        the lock; otherwise it starts a precise edit, takes the lock and begins
        `addPreciseLocation`, which closes the box (keeping the layer) for a new location
        and sets the confirmation layer for an existing one. */
    method EditActivityPreciseLocation(alId: LocationId, addingPrecise: bool)
      requires Valid() && alId in Ids(locations)
      requires selectedId.None? || selectedId == Some(alId)
      modifies this`locations, this`selectedId
      modifies this`regionName, this`municipalName, this`placeName, this`selectedGazetteer, this`confirmationLayer
      modifies this`regionOptions, this`municipalOptions, this`placeOptions
      ensures Valid()
      ensures var i := IndexOf(old(locations), alId).value;
        var l := old(locations)[i];
        if l.edit != NotEditing then
          selectedId.None? && locations == old(locations)[i := SetEdit(l, NotEditing)] &&
          confirmationLayer == old(confirmationLayer)
        else
          selectedId == Some(alId) &&
          locations == old(locations)[i := l.(edit := EditingPrecise, preciseAction := Some(if addingPrecise then Adding else Editing))] &&
          confirmationLayer == (old(confirmationLayer) || !l.isNew)
      ensures var l := old(locations)[IndexOf(old(locations), alId).value];
        if l.edit == NotEditing && l.isNew then
          regionOptions.None? && municipalOptions.None? && placeOptions.None? &&
          regionName.None? && municipalName.None? && placeName.None? && selectedGazetteer.None?
        else
          regionOptions == old(regionOptions) && municipalOptions == old(municipalOptions) && placeOptions == old(placeOptions) &&
          regionName == old(regionName) && municipalName == old(municipalName) && placeName == old(placeName) &&
          selectedGazetteer == old(selectedGazetteer)
    {
      var i := IndexOf(locations, alId).value;
      var l := locations[i];
      if l.edit != NotEditing {
        var l' := SetEdit(l, NotEditing);
        UpdateKeepsIds(locations, i, l');
        locations := locations[i := l'];
        selectedId := None;
      } else {
        var l' := l.(edit := EditingPrecise, preciseAction := Some(if addingPrecise then Adding else Editing));
        UpdateKeepsIds(locations, i, l');
        locations := locations[i := l'];
        selectedId := Some(alId);
        if l'.isNew {
          CloseLocationBox(true);
        } else {
          confirmationLayer := true;
        }
      }
    }

    /** `cancelEditPreciseLocation` on the location in precise edit. Edit mode is cleared
        first; with no confirmation layer the handler then throws and the lock stays held,
        otherwise the lock is released. */
    method CancelEditPreciseLocation(alId: LocationId) returns (outcome: Outcome)
      requires Valid() && selectedId == Some(alId)
      modifies this`locations, this`selectedId
      ensures Valid()
      ensures var i := IndexOf(old(locations), alId).value;
        locations == old(locations)[i := SetEdit(old(locations)[i], NotEditing)]
      ensures outcome == Completed <==> confirmationLayer
      ensures selectedId == (if outcome == Completed then None else old(selectedId))
    {
      var i := SelectedIndex();
      var l := SetEdit(locations[i], NotEditing);
      UpdateKeepsIds(locations, i, l);
      locations := locations[i := l];
      if !confirmationLayer {
        return Aborted;
      }
      selectedId := None;
      outcome := Completed;
    }

    /** `cancelEditActivityLocation`. It throws, changing nothing, without a confirmation
        layer, a selection or a stored snapshot. Otherwise the location is rolled back only
        if its gazetteer id changed, the box is closed, the lock released and edit mode
        cleared. */
    method CancelEditActivityLocation() returns (outcome: Outcome)
      requires Valid()
      modifies this`locations, this`selectedId
      modifies this`regionName, this`municipalName, this`placeName, this`selectedGazetteer, this`confirmationLayer
      modifies this`regionOptions, this`municipalOptions, this`placeOptions
      ensures Valid()
      ensures outcome == Completed <==>
        old(confirmationLayer) && old(selectedId).Some? && old(locations)[IndexOf(old(locations), old(selectedId).value).value].stored.Some?
      ensures outcome == Aborted ==>
        locations == old(locations) && selectedId == old(selectedId) && confirmationLayer == old(confirmationLayer) &&
        regionOptions == old(regionOptions) && municipalOptions == old(municipalOptions) && placeOptions == old(placeOptions) &&
        regionName == old(regionName) && municipalName == old(municipalName) && placeName == old(placeName) &&
        selectedGazetteer == old(selectedGazetteer)
      ensures outcome == Completed ==>
        selectedId.None? && !confirmationLayer && regionOptions.None? && municipalOptions.None? && placeOptions.None? &&
        regionName.None? && municipalName.None? && placeName.None? && selectedGazetteer.None? &&
        var i := IndexOf(old(locations), old(selectedId).value).value;
        var l := old(locations)[i];
        locations == old(locations)[i := SetEdit(if l.stored.value.place.gazetteerId != l.place.gazetteerId then Restore(l) else l, NotEditing)]
    {
      if !confirmationLayer || selectedId.None? {
        return Aborted;
      }
      var i := SelectedIndex();
      var l := locations[i];
      var last := CheckLast(l);
      if last.None? {
        return Aborted;
      }
      if last.value.place.gazetteerId != l.place.gazetteerId {
        l := Restore(l);
      }
      CloseLocationBox(false);
      l := SetEdit(l, NotEditing);
      UpdateKeepsIds(locations, i, l);
      locations := locations[i := l];
      selectedId := None;
      outcome := Completed;
    }

    /** `activityAdded` for the selected location: a precise edit is ended, edit mode is
        cleared, the location is stored, the lock released, and the save message chosen. */
    method ActivityAdded(alId: LocationId) returns (saveMessage: Option<string>)
      requires Valid() && selectedId == Some(alId)
      modifies this`locations, this`selectedId
      modifies this`regionName, this`municipalName, this`placeName, this`selectedGazetteer, this`confirmationLayer
      modifies this`regionOptions, this`municipalOptions, this`placeOptions
      ensures Valid() && selectedId.None?
      ensures var i := IndexOf(old(locations), alId).value;
        locations == old(locations)[i := Store(SetEdit(old(locations)[i], NotEditing))]
      ensures saveMessage == SaveMessage(old(locations)[IndexOf(old(locations), alId).value])
      ensures confirmationLayer == old(confirmationLayer)
      ensures regionOptions == old(regionOptions) && municipalOptions == old(municipalOptions) && placeOptions == old(placeOptions)
      ensures regionName == old(regionName) && municipalName == old(municipalName) && placeName == old(placeName)
      ensures selectedGazetteer == old(selectedGazetteer)
    {
      var i := SelectedIndex();
      var l := locations[i];
      saveMessage := SaveMessage(l);
      if l.edit == EditingPrecise {
        EditActivityPreciseLocation(alId, false);
      }
      var l' := Store(SetEdit(l, NotEditing));
      UpdateKeepsIds(locations, i, l');
      locations := locations[i := l'];
      selectedId := None;
    }

    // ---- Save response ------------------------------------------------------

    /** The `success` handler of `saveLocations`. An error status changes nothing; otherwise
        the results are applied one by one, and a well-formed answer that leaves the
        locked location's id alone keeps the session invariant. */
    method SaveLocationsResponse(resp: SaveResponse) returns (outcome: Outcome)
      modifies this`locations
      ensures (locations, outcome) == ApplySaveResponse(old(locations), resp)
      ensures old(Valid()) && resp.Saved? && WellFormedResults(old(locations), resp.results) &&
        (selectedId.Some? ==> forall j :: 0 <= j < |resp.results| ==> resp.results[j].matchWith != selectedId.value)
        ==> Valid() && outcome == Completed
    {
      outcome := Completed;
      if !resp.Saved? {
        return;
      }
      if Valid() && WellFormedResults(locations, resp.results) &&
        (selectedId.Some? ==> forall j :: 0 <= j < |resp.results| ==> resp.results[j].matchWith != selectedId.value)
      {
        SaveRemapsIds(locations, resp.results);
        RemapKeepsSession(locations, resp.results, selectedId);
      }
      outcome := UpdateEachResult(resp.results);
    }

    /** The `$.each` over the results: each one goes through `updateNewLocationData`, and a
        result naming no location throws and ends the loop. */
    method UpdateEachResult(results: seq<SaveResult>) returns (outcome: Outcome)
      modifies this`locations
      ensures (locations, outcome) == ApplyResults(old(locations), results)
    {
      var k := 0;
      while k < |results|
        invariant 0 <= k <= |results|
        invariant ApplyResults(old(locations), results) == ApplyResults(locations, results[k..])
        decreases |results| - k
      {
        assert results[k..][1..] == results[k + 1..];
        var u := UpdateNewLocationData(locations, results[k]);
        if u.None? {
          return Aborted;
        }
        locations := u.value;
        k := k + 1;
      }
      return Completed;
    }
  }
}
