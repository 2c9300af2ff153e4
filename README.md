# Location editing and small-group finder: a Dafny model

This project models the decision and state cores of two JavaScript files.

- `js/mapEditController.js` is the map editor for an activity's locations. The model covers:
  - the edit session, whose only lock is `selectedId`;
  - snapshot and rollback of a location through `store`/`restore`/`checkLast`;
  - the region → municipal → place select cascade and its "No" reset plan;
  - the confirmation prompt and the place-detail fetch decision;
  - the routing of table buttons;
  - the precise-coordinate validator;
  - the search paging flag;
  - the id remapping after a save;
  - the GeoJSON position accessors.
- `js/groupFinder.js` is the questionnaire of the small-group finder. The model covers:
  - the question data and the dependency predicate;
  - the queue-driven sequencer and answer recording;
  - `{name}` template substitution and answer ordering;
  - the top-three selection from the scores;
  - the result and restart texts.

Conventions:
- Coordinates are integers in millionths of a degree, which is what `toFixed(6)` shows. A `parseFloat` that gives NaN is `None`.
- An `undefined` value is `Option.None`.
- A handler that throws a `TypeError` returns `Outcome.Aborted`, with the state as it stood when the throw happened.
- Controller state lives in the class `MapEdit.MapEditController`. Its invariant `Valid()` requires:
  - location ids are distinct;
  - the lock names an existing location;
  - every location in edit mode is the locked one.
- The finder's shared `finder` and `questionOrder` globals are the class `GroupFinder.Finder`.

The latitude-precision check runs before the same-as-place check. So `10.123400 / 20.567800`, checked against the identical default, reports the latitude message (`PreciseValidation.TrailingZerosReportedBeforeSameAsPlace`).

## Model

| member | source | states |
|---|---|---|
| PreciseValidation.ValidatePreciseLocation | js/mapEditController.js:972-1021 | the result passes exactly when it carries no message |
| PreciseValidation.FirstFailure | js/mapEditController.js:987-1017 | the check it returns is in the list, fails, and every check listed before it passes; it returns None exactly when no check in the list fails |
| PreciseValidation.FirstFailureInOrder | js/mapEditController.js:987-1017 | over the validator's order the first failure is non-numeric, else latitude "00", else longitude "00", else same-as-place, else none |
| PreciseValidation.ValidatorOutcome | js/mapEditController.js:984-1019 | `status` is true iff no check fails in the order non-numeric, latitude "00", longitude "00", same-as-default; otherwise the message is that of the first failing check, with the string tests proved equal to `|v| % 100 == 0` and to integer equality |
| PreciseValidation.AcceptsPreciseDistinctPair | js/mapEditController.js:999-1017 | a numeric pair with no multiple of 100 micro-degrees that differs from the default is accepted |
| PreciseValidation.RejectsDefaultLocation | js/mapEditController.js:1011-1017 | repeating the default location, with full precision, is rejected with the "same as the place" message |
| PreciseValidation.TrailingZerosReportedBeforeSameAsPlace | js/mapEditController.js:999-1017 | 10.123400/20.567800 against the same default reports the latitude message |
| PreciseValidation.FullPrecisionPairAccepted | js/mapEditController.js:972-1021 | 10.123401/20.567899 against 10.123400/20.567800 is accepted |
| Decimal.Fixed6Injective | js/mapEditController.js:993-1014 | two micro-degree values render to the same six-decimal string only if they are equal |
| Decimal.EndsInDoubleZero | js/mapEditController.js:997-998 | the six-decimal rendering ends in "00" iff the value's magnitude is a multiple of 100, zero included |
| Decimal.DigitsValue | js/mapEditController.js:993-994 | the decimal digits of n read back as n |
| Decimal.PadDigitsValue | js/mapEditController.js:993-994 | a number below 10^width, zero-padded to exactly that width, reads back as itself |
| SearchPaging.PreviousRecords | js/mapEditController.js:146-148 | pages at or below 1 have no earlier records; page p has (p-1)·10 |
| SearchPaging.MoreResults | js/mapEditController.js:146-152 | on the first page (or below it) `more` holds iff the payload's count is below the total; on page p iff (p-1)·10 + count is below it |
| SearchPaging.PageZeroIsFirstPage | js/mapEditController.js:146-152 | page 0 and page 1 give the same `more` |
| SearchPaging.FullPagesMore | js/mapEditController.js:146-152 | after full pages, `more` holds iff page·10 < total |
| SearchPaging.AllDeliveredStops | js/mapEditController.js:146-152 | once all records are delivered `more` is false |
| SearchPaging.MoreIffRecordsBeyondPage | js/mapEditController.js:146-152 | when every page is full but the last, which holds the remainder, `more` holds on a page iff records lie beyond it |
| SearchPaging.MoreMonotoneInTotal | js/mapEditController.js:146-152 | a larger total never turns `more` off |
| GeoJson.PointAt | js/mapEditController.js:947-948 | a written position has two coordinates |
| GeoJson.GeometryLat | js/mapEditController.js:1840-1842 | the latitude is defined iff the position has at least two coordinates |
| GeoJson.GeometryLng | js/mapEditController.js:1844-1846 | the longitude is defined iff the position has a coordinate |
| GeoJson.ReadBackPosition | js/mapEditController.js:1840-1846 | reading a written [lng, lat] position gives back lat and lng |
| GeoJson.RebuildPosition | js/mapEditController.js:1840-1846 | a two-element position is rebuilt exactly from what the accessors read |
| ButtonRouting.Route | js/mapEditController.js:1260-1320 | a gated operation is only dispatched with the session free; with it held only the cancels act; opening the menu dispatches nothing |
| ButtonRouting.GatedOperationsIffFree | js/mapEditController.js:1286-1316 | edit and remove of place or precise act iff `selectedId` is undefined |
| ButtonRouting.CancelsAlwaysAct | js/mapEditController.js:1271-1320 | cancel-default and cancel-precise act in every session state; add-precise acts iff the session is free |
| ButtonRouting.PreciseFalseMeansPlace | js/mapEditController.js:1276-1279 | a row whose precise data is false routes as action type "place" |
| ButtonRouting.NoActionTypeOpensMenu | js/mapEditController.js:1276-1282 | with no action type on a row with a precise location only the choice menu opens |
| ButtonRouting.MenuCancelDoesNothing | js/mapEditController.js:1284-1306 | "cancel" chosen through the menu matches no inner case: the menu closes and nothing else happens |
| Cascade.NameOptions | js/mapEditController.js:380-385 | each option is a named one other than "TBD" taken from the input, and every name other than "TBD" is offered |
| Cascade.RegionOptions | js/mapEditController.js:374-385 | the list opens with the placeholder, so the select's value is "false"; every other option is a named region other than "TBD" from the input |
| Cascade.MunicipalOptions | js/mapEditController.js:435-446 | an option is a placeholder iff it is the first and there are several municipals, which leaves the value "false"; every other option is a named municipal other than "TBD" from the input |
| Cascade.PlaceOptions | js/mapEditController.js:509-521 | an option is a placeholder iff it is the first and the list does not have exactly one entry, which leaves the value "false"; every other option is a place option |
| Cascade.PlaceItemOptions | js/mapEditController.js:516-521 | every place whose name is not "TBD" is offered by its gazetteer id and display name |
| Cascade.PlaceItemOptionsFromItems | js/mapEditController.js:516-521 | every place option stands for a listed place whose name is not "TBD" |
| Cascade.TbdNeverOffered | js/mapEditController.js:374-529 | "TBD" is never an option of the region, municipal or place list |
| Cascade.EveryNameOffered | js/mapEditController.js:374-453 | every region or municipal name other than "TBD" is offered |
| Cascade.MunicipalPlaceholderIffSeveral | js/mapEditController.js:435-439 | the municipal list has a placeholder iff there is more than one municipal |
| Cascade.LoneMunicipalSelected | js/mapEditController.js:435-452 | a lone municipal is what the select holds; a lone "TBD" leaves it empty |
| Cascade.SeveralMunicipalsUnselected | js/mapEditController.js:435-446 | with several municipals the select holds the placeholder value "false" |
| Cascade.LonePlaceSelected | js/mapEditController.js:509-524 | a lone place other than "TBD" is selected by its gazetteer id |
| ActivityLocations.NewActivityLocation | js/mapEditController.js:254-270 | a location made from a gazetteer choice is new, not in edit, has nothing stored and holds the chosen place |
| ActivityLocations.Store | js/mapEditController.js:734-738 | the snapshot becomes the current place and precise location, which stay unchanged, as do the id, the new flag, the edit mode and the precise action |
| ActivityLocations.Restore | js/mapEditController.js:734-738 | the current place and precise location become the stored snapshot; with none stored nothing changes; the snapshot, id, new flag, edit mode and precise action are kept |
| ActivityLocations.ChangeGazetteerLocation | js/mapEditController.js:585-599 | only the place changes: precise location, snapshot, id, new flag, edit mode and precise action are kept |
| ActivityLocations.SetEdit | js/mapEditController.js:1593-1595 | only the edit mode changes: place, precise location, snapshot, id, new flag and precise action are kept |
| ActivityLocations.ConvertNewToExisting | js/mapEditController.js:1901-1908 | the location takes the server id and is no longer new; place, precise location, snapshot, edit mode and precise action are kept |
| ActivityLocations.MutationsKeepSnapshot | js/mapEditController.js:1457-1536 | no edit touches the stored snapshot or the id |
| ActivityLocations.RollbackRestoresLastStore | js/mapEditController.js:1516-1522 | restoring after any sequence of edits gives back exactly what the last store saw |
| ActivityLocations.RestoreIdempotent | js/mapEditController.js:734-738 | restoring twice is restoring once |
| ActivityLocations.RestoreThenStoreKeepsSnapshot | js/mapEditController.js:734-738 | "No" on a saved location keeps the snapshot and leaves the location equal to it |
| ActivityLocations.IndexOf | js/mapEditController.js:975 | the first location with the id, absent iff no location has it |
| ActivityLocations.AtMostOneEditing | js/mapEditController.js:1286-1316 | with the session invariant at most one location is in edit mode |
| ActivityLocations.UpdateKeepsIds | js/mapEditController.js:1501-1536 | replacing a location by one with the same id keeps the ids and their distinctness |
| ActivityLocations.AppendFresh | js/mapEditController.js:254-270 | appending a location with a fresh id keeps the ids distinct |
| SaveResponses.UpdateNewLocationData | js/mapEditController.js:1901-1936 | fails iff no location has the matched id; otherwise the first such location takes the new id when one is given, and every other location, a later one with the same id included, is unchanged |
| SaveResponses.ApplyResults | js/mapEditController.js:1944-1950 | applying the results keeps the length and changes only ids and new flags: every location keeps its place, precise location, snapshot and edit mode; a first result naming no location aborts with nothing changed |
| SaveResponses.ApplySaveResponse | js/mapEditController.js:1938-1960 | an error response or a failed request changes nothing |
| SaveResponses.UnmatchedUnchanged | js/mapEditController.js:1941-1951 | locations that no result names keep their position and value |
| SaveResponses.SaveRemapsIds | js/mapEditController.js:1901-1951 | a well-formed response completes, keeps the length and distinct ids, and renames each location as its result says |
| SaveResponses.StepKeepsDistinct | js/mapEditController.js:1901-1908 | one result assigning a fresh id keeps ids distinct |
| SaveResponses.StepKeepsWellFormed | js/mapEditController.js:1941-1951 | after the first result the remaining results are well formed for the updated collection |
| SaveResponses.RemapAbsent | js/mapEditController.js:1941-1951 | no later result names the first result's location under either id |
| SaveResponses.RemapNone | js/mapEditController.js:1941-1951 | an id no result names is not renamed |
| MapEdit.PlaceRequestFor | js/mapEditController.js:554-567 | the detail is reused iff the chosen id is the current one, and is otherwise fetched for the chosen id |
| MapEdit.PromptSkippedIffUnchanged | js/mapEditController.js:653-659 | the prompt is skipped iff a stored snapshot has the current gazetteer id |
| MapEdit.SaveKindOf | js/mapEditController.js:1345-1364 | the message case follows the edit mode: a precise edit is "added" iff its precise action is adding, a place edit is "edited", and a location out of edit is reported iff it is new |
| MapEdit.SaveMessage | js/mapEditController.js:1345-1364 | no message iff the location is saved and not in edit; every message opens with the place's name |
| MapEdit.SaveMessageIdentifiesKind | js/mapEditController.js:1345-1364 | for one place name two messages are equal iff they report the same case, so the message tells precise-added, precise-edited, place-edited and added apart |
| MapEdit.RemapKeepsSession | js/mapEditController.js:1938-1951 | a well-formed response that does not rename the locked location keeps the session invariant |
| MapEdit.MapEditController.SelectedIndex | js/mapEditController.js:975 | the position of the locked location |
| MapEdit.MapEditController.CurrentGazetteerId | js/mapEditController.js:545-551 | defined iff a location is locked |
| MapEdit.MapEditController.constructor | js/mapEditController.js:46-70 | the loaded locations, each stored, no session, no selects |
| MapEdit.MapEditController.ResetSelectSettings | js/mapEditController.js:95-104 | clears exactly the name the select drives; the place select also clears the chosen gazetteer and, unless kept, the confirmation layer |
| MapEdit.MapEditController.RemoveSelect | js/mapEditController.js:86-90 | takes exactly that select off the page and resets its settings |
| MapEdit.MapEditController.CloseLocationBox | js/mapEditController.js:73-84 | all three selects go, every name is cleared, the layer is kept only when asked |
| MapEdit.MapEditController.AddRegionOptions | js/mapEditController.js:374-393 | the region select holds the placeholder and the non-"TBD" regions |
| MapEdit.MapEditController.UpdateRegionSelect | js/mapEditController.js:395-405 | the chosen region is recorded and its municipals are requested |
| MapEdit.MapEditController.UpdateMunicipalSelect | js/mapEditController.js:454-468 | a municipal other than the placeholder is recorded and its places requested; the placeholder changes nothing |
| MapEdit.MapEditController.AddMunicipalOptions | js/mapEditController.js:416-453 | the select holds the municipal list, the place select goes when this one is rebuilt, `only_municipal_in_region` iff one municipal, and a lone municipal is chosen |
| MapEdit.MapEditController.AddPlacesOptions | js/mapEditController.js:480-529 | the place level is skipped iff the one place bears the municipal's name, and then that place is looked up; otherwise the select holds the place list and a lone place is looked up |
| MapEdit.MapEditController.GetPlaceInformation | js/mapEditController.js:543-569 | the detail request is skipped iff the locked location already holds the chosen place |
| MapEdit.MapEditController.AddPlaceConfirmation | js/mapEditController.js:571-661 | a lookup error changes nothing; otherwise the locked location takes the place or a new location is created and locked, the layer is set, and the prompt is asked iff needed |
| MapEdit.MapEditController.AutofillGazetteerOptions | js/mapEditController.js:287-310 | the region select takes the locked location's region when it is offered |
| MapEdit.MapEditController.SearchResultSelected | js/mapEditController.js:182-250 | an edit load stores the location in place-edit mode; a hit updates the locked location or creates and locks a new one; the invariant holds |
| MapEdit.MapEditController.BeginPlaceEdit | js/mapEditController.js:1457-1493 | the edit starts iff the add-location box is not yet built (no region select); then the region list is filled, the lock is taken, the location is stored in place-edit mode and the region select is autofilled with the location's region when it has one; otherwise nothing changes |
| MapEdit.MapEditController.LocationDenied | js/mapEditController.js:695-742 | the select reset follows the cascade flags; a saved location is restored and stored again and keeps the layer; a new one is left as is and loses it |
| MapEdit.MapEditController.ResetSelectsAfterDenial | js/mapEditController.js:714-731 | with the place level skipped the place select is removed, and the municipal select is removed and the region name reset when the region has one municipal, or the municipal name reset when it has several; otherwise only the place settings are reset; the region select always stays |
| MapEdit.MapEditController.EditActivityPreciseLocation | js/mapEditController.js:1585-1660 | a location in edit leaves edit and the lock is released; otherwise a precise edit starts with its action and the lock is taken: a new location closes the box, clearing every select and name, and a saved one sets the layer and leaves the selects and names as they were |
| MapEdit.MapEditController.CancelEditPreciseLocation | js/mapEditController.js:1662-1711 | edit mode is cleared; the lock is released iff the confirmation layer is set, otherwise the handler throws |
| MapEdit.MapEditController.CancelEditActivityLocation | js/mapEditController.js:1501-1536 | completes iff layer, lock and snapshot exist, changing nothing otherwise; it restores only when the gazetteer id changed, clears edit mode, closes the box (every select, name and the layer go) and releases the lock |
| MapEdit.MapEditController.ActivityAdded | js/mapEditController.js:1340-1375 | edit mode is cleared, the location stored, the lock released and the save message chosen; the layer, the selects and their names are untouched |
| MapEdit.MapEditController.UpdateEachResult | js/mapEditController.js:1944-1950 | the loop over the results equals applying them in order, stopping at the first that names no location |
| MapEdit.MapEditController.SaveLocationsResponse | js/mapEditController.js:1938-1960 | the new collection and outcome are the response applied to the old collection; an error status changes nothing, and the handler keeps the invariant for a well-formed response that leaves the locked id alone |
| FinderQuestions.QuestionOrder | js/groupFinder.js:14-16 | nine distinct question names |
| FinderQuestions.QuestionShouldRun | js/groupFinder.js:438-472 | the nested loops compute the dependency predicate: no dependencies means run, otherwise some answered dependency must accept the answer |
| FinderQuestions.FirstRunnable | js/groupFinder.js:251-303 | the first question of the order that should run; all before it, or all of them when there is none, are skipped |
| FinderQuestions.QuestionsObjectWellFormed | js/groupFinder.js:474-606 | every dependency and template of the shipped questions names an existing question |
| FinderQuestions.QuestionOrderKnown | js/groupFinder.js:14-16 | every name of the order is a shipped question |
| FinderQuestions.QuestionsObjectUnanswered | js/groupFinder.js:474-606 | a fresh question set has no answers |
| FinderQuestions.AttendWithIffMarried | js/groupFinder.js:524-531 | `attend_with` is asked iff the relationship is "married" |
| FinderQuestions.SameGenderRule | js/groupFinder.js:548-562 | `same_gender` is asked iff the relationship is answered and not "married", or `attend_with` is "no" |
| FinderQuestions.UnansweredNeverEnables | js/groupFinder.js:443-468 | unanswered dependencies never enable a question |
| FinderText.FindFrom | js/groupFinder.js:273 | the first occurrence of the pattern at or after the start, absent iff there is none |
| FinderText.ReplaceFirst | js/groupFinder.js:273 | text without the pattern is unchanged; otherwise exactly the first occurrence is replaced and the text around it kept |
| FinderText.ApplyTemplates | js/groupFinder.js:267-274 | a text with no `{` is left as it is by any templates |
| FinderText.ReplaceAbsent | js/groupFinder.js:273 | text without the placeholder is unchanged |
| FinderText.ReplaceAtFirst | js/groupFinder.js:267-274 | exactly the first occurrence of the placeholder is replaced |
| FinderText.SameGenderTextShape | js/groupFinder.js:533-540 | the same-gender text has one `{gender}` placeholder at its end |
| FinderText.SameGenderQuestionText | js/groupFinder.js:267-274 | the question reads "men", "women" or "undefined" in place of the placeholder, as the gender answer says |
| FinderText.Visible | js/groupFinder.js:282-283 | an answer is shown iff it is declared and is not the count entry |
| FinderText.Reversed | js/groupFinder.js:291-296 | reversal keeps the length |
| FinderText.ReversedAt | js/groupFinder.js:291-296 | the element k from the end comes at position k |
| FinderText.OrderAnswers | js/groupFinder.js:281-297 | the append-or-stack loop yields the visible answers, reversed when `answers_reverse` is set |
| FinderText.PopAll | js/groupFinder.js:291-296 | popping the whole stack yields it reversed |
| FinderText.VisibleStep | js/groupFinder.js:282-290 | one more declared answer extends the visible list by itself unless it is the count entry |
| FinderText.ReversedDisplayMirrors | js/groupFinder.js:281-297 | reversal shows the same buttons, last declared first |
| FinderText.Put | js/groupFinder.js:260-262 | the key is added, its entry is present, and every entry with another key is kept |
| FinderText.Extend | js/groupFinder.js:260-262 | the merged answers have the keys of both lists |
| FinderText.ExtendKeepsUnfetched | js/groupFinder.js:260-262 | a declared entry whose key is not fetched survives the merge |
| FinderText.ExtendSetsLastFetched | js/groupFinder.js:260-262 | each fetched key ends with the value of its last fetched entry |
| FinderText.Pop | js/groupFinder.js:331-335 | undefined and nothing left on an empty list; otherwise a value that, put back at the end of the rest, gives the list again |
| FinderText.ResultsProcessed | js/groupFinder.js:326-342 | defined iff there are at least three scores, and then the last, second-to-last and third-to-last in that order |
| FinderText.ResultLines | js/groupFinder.js:359-402 | four lines, the first being the group's name |
| FinderText.DayText | js/groupFinder.js:363-371 | the day line is only " at " and the time iff the frequency is none of weekly, bi-weekly and monthly |
| FinderText.LocationText | js/groupFinder.js:374-383 | a location name is shown as it is; without one a home, business or church group's line opens with its neighborhood |
| FinderText.TopicText | js/groupFinder.js:386-401 | an activity is shown followed by exactly " Group"; otherwise the line is one of the three study titles or empty |
| FinderText.RestartText | js/groupFinder.js:418-423 | an apology after a failed request, thanks otherwise |
| FinderText.DayTextEndsWithTime | js/groupFinder.js:363-371 | the day line ends with " at " and the starting time |
| FinderText.DayTextDeterminesFrequency | js/groupFinder.js:363-371 | for the same day and time the day line tells weekly, bi-weekly and monthly apart |
| FinderText.TopicEmptyIff | js/groupFinder.js:386-401 | the topic is empty iff the group has no activity and an unknown type |
| FinderText.LocationFallbackIff | js/groupFinder.js:374-383 | without a location name the line is "Meets at " iff the type is not residence, commercial or church, or it is a church group whose neighborhood is itself "Meets at " |
| FinderText.RestartTextDistinguishes | js/groupFinder.js:418-423 | the restart text depends only on, and tells apart, the `failed` flag |
| GroupFinder.WithRetrieved | js/groupFinder.js:260-262 | only the answer list changes, and only when answers were fetched for the question |
| GroupFinder.WellFormedUpdate | js/groupFinder.js:238-262 | changing a question's answer or answer list keeps the set well formed |
| GroupFinder.Finder.constructor | js/groupFinder.js:87-117 | a fresh question set and the full question order |
| GroupFinder.Finder.Restart | js/groupFinder.js:418-434 | every answer is forgotten and the nine questions are queued again |
| GroupFinder.Finder.AnswerWasClicked | js/groupFinder.js:238-241 | exactly the clicked question's answer is set, and no other question changes |
| GroupFinder.Finder.RunQuestion | js/groupFinder.js:251-308 | the queue loses everything up to and including the first question that should run, which is shown with its templates filled and its answers ordered; an empty queue leads to the results, skipped questions record nothing |

## Left out

- The DOM, jQuery, select2, Leaflet/Mapbox, Handlebars, CSS classes, animations and popups are presentation. Only the decisions and the controller fields they drive are modelled.
- `$.getJSON`, `$.get`, `model.sync`, the `ajaxComplete` listeners and their URL filters are network plumbing. Fetched data becomes method parameters. `BeginPlaceEdit` collapses the edit start and its listener into one step. The presence of the region select stands for `locationsBoxBuilt`. With the box already built, the model ends the call with nothing changed. It does not model a later, unrelated admin/1 request firing the leftover listener. The municipal and place levels of the autofill are not modelled.
- Floating point: `parseFloat` and `toFixed` are modelled on micro-degree integers. IEEE rounding and `toFixed`'s exponent form for huge values are not modelled. Neither are the infinities: `parseFloat` of "Infinity" or "1e999" gives ±Infinity, which `toFixed` prints as "Infinity", so such a value passes both "00" checks. The validator's `Option<int>` has no value for it.
- The internals of `ActivityLocation`, `ActivityMarker` and `Location` are not shown in the code. They get the minimal behaviour their call sites rely on.
- `checkAndClearConfirmLayer` compares with `==` and so never unsets the field; it has no state effect and is not modelled.
- `getFeatureJson` is deprecated and delegates to code that is not part of this model.
- `locationConfirmed`, `completeLocationCreation`, `savePreciseMarkerLocation`, `removeActivityLocation` and `removeActivityPreciseLocation` are outside the modelled operations. Only the routing decision for the removals is modelled.
- `placeName` and `selectedGazetteer` are modelled only as they are cleared. The place select's change handler is not modelled.
- `.data("precise")` may hold the string "false" or the boolean false. The routing takes a boolean, true for the boolean false.
- Object identity and aliasing are not modelled: locations are values in a sequence.
- MapEdit.MapEditController.SaveLocationsResponse: the invariant is kept only when the locked id is not renamed. Renaming the locked location leaves `selectedId` on the temporary id, a race the model does not resolve.
- MapEdit.MapEditController.BeginPlaceEdit: with the add-location box already built, the code takes no lock until some later admin/1 request fires the leftover listener. The model returns `started == false` with nothing changed and does not capture that later lock.
- MapEdit.MapEditController.LocationDenied: requires the confirmation layer to be set. Without it the code throws at `clearLayers`, and the "Is this correct?" popup that calls this handler exists only while the layer is set.
- MapEdit.MapEditController.CancelEditPreciseLocation: requires the location to be the locked one, since only the row in edit shows that button.
- MapEdit.MapEditController.AddPlaceConfirmation: the marker update is not modelled. It reads the snapshot of a location that has a precise location, and would throw when there is no snapshot.
- SaveResponses.UpdateNewLocationData: a result without its `new` object throws in the code. The model has `new` always present, with optional fields.
- A dependency or template naming a missing question throws in the code. The model rules this out by requirement, and the shipped questions satisfy it.
- A lookup of `smallgroups[sg]` for an unknown group is not modelled. `ResultsProcessed` returns the score entries themselves.
- The answer positions, the CSS classes and `transition_length` are not modelled.
- `possible_answers` is iterated in declaration order. JavaScript's ordering of integer-like keys first is not modelled.
- The answer count entry is modelled as text.
- `$` patterns in replacement strings, and prototype keys in `replacements`, are not modelled.
- `$.extend` with `undefined` values is not modelled.
- The groupFinder timers, the fullscreen toggle, the loaders and the `/sg/api/*` calls are timing and I/O.
- `phone_number_verify` is not wired to any event and has no stable behaviour.
- `question_restart` is modelled by its text choice and by the restart it schedules (`Finder.Restart`), not by the 5000 ms delay.
