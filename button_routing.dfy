/** Routing of a click on a location table button to the controller operation it starts.
    A button carries `data-action` and, on the choice menu's buttons, `data-second-action`;
    the row carries a `precise` flag. */
module ButtonRouting {
  import opened Wrappers

  datatype Operation =
    | EditPlace      // editActivityLocation
    | EditPrecise    // editActivityPreciseLocation
    | RemovePlace    // removeActivityLocation
    | RemovePrecise  // removeActivityPreciseLocation
    | AddPrecise     // addActivityPreciseLocation
    | CancelPlace    // cancelEditActivityLocation
    | CancelPrecise  // cancelEditPreciseLocation

  /** What happens to the place/precise choice menu of the row. */
  datatype MenuEffect = MenuUntouched | MenuOpened | MenuClosed

  datatype Dispatch = Dispatch(menu: MenuEffect, op: Option<Operation>)

  /** Operations that start an edit or a removal; they wait for the session to be free. */
  predicate Gated(op: Operation)
  {
    op.EditPlace? || op.EditPrecise? || op.RemovePlace? || op.RemovePrecise? || op.AddPrecise?
  }

  /** The inner `action + "-" + actionType` switch. */
  function MenuChoice(action: string, actionType: string, sessionFree: bool): Option<Operation>
  {
    if !sessionFree then None
    else if action == "edit" && actionType == "place" then Some(EditPlace)
    else if action == "edit" && actionType == "precise" then Some(EditPrecise)
    else if action == "remove" && actionType == "place" then Some(RemovePlace)
    else if action == "remove" && actionType == "precise" then Some(RemovePrecise)
    else None
  }

  /** `activityButtonClicked`. `sessionFree` is `selectedId === undefined`; `rowPreciseFalse`
      is the row's `precise` data being the boolean false. */
  function Route(secondAction: Option<string>, dataAction: Option<string>,
                 rowPreciseFalse: bool, sessionFree: bool): (d: Dispatch)
    ensures d.op.Some? && Gated(d.op.value) ==> sessionFree
    ensures !sessionFree && d.op.Some? ==> d.op.value.CancelPlace? || d.op.value.CancelPrecise?
    ensures d.menu == MenuOpened ==> d.op.None?
  {
    var action := if secondAction.None? then dataAction else secondAction;
    var given := if secondAction.None? then None else dataAction;
    match action
    case None => Dispatch(MenuUntouched, None)
    case Some(a) =>
      if a == "edit" || a == "remove" || a == "cancel" then
        var actionType := if rowPreciseFalse then Some("place") else given;
        match actionType
        case None => Dispatch(MenuOpened, None)
        case Some(t) => Dispatch(MenuClosed, MenuChoice(a, t, sessionFree))
      else if a == "cancel-default" then Dispatch(MenuUntouched, Some(CancelPlace))
      else if a == "add-precise" then Dispatch(MenuUntouched, if sessionFree then Some(AddPrecise) else None)
      else if a == "cancel-precise" then Dispatch(MenuUntouched, Some(CancelPrecise))
      else Dispatch(MenuUntouched, None)
  }

  // ---- Properties -----------------------------------------------------------

  /** While a session holds the lock, no button starts an edit or removal; when it is free,
      each of them does. */
  lemma GatedOperationsIffFree(second: string, action: string, rowPreciseFalse: bool, sessionFree: bool)
    requires action in {"edit", "remove"} && second in {"place", "precise"} && !rowPreciseFalse
    ensures Route(Some(action), Some(second), rowPreciseFalse, sessionFree).op.Some? <==> sessionFree
  {
  }

  /** The cancel buttons act whatever the session state. */
  lemma CancelsAlwaysAct(rowPreciseFalse: bool, sessionFree: bool)
    ensures Route(None, Some("cancel-default"), rowPreciseFalse, sessionFree).op == Some(CancelPlace)
    ensures Route(None, Some("cancel-precise"), rowPreciseFalse, sessionFree).op == Some(CancelPrecise)
    ensures Route(None, Some("add-precise"), rowPreciseFalse, sessionFree).op.Some? <==> sessionFree
  {
  }

  /** A row without a precise location routes a plain button as if "place" had been chosen. */
  lemma PreciseFalseMeansPlace(action: string, sessionFree: bool)
    requires action in {"edit", "remove", "cancel"}
    ensures Route(None, Some(action), true, sessionFree) == Route(Some(action), Some("place"), false, sessionFree)
  {
  }

  /** With no action type and a row that has a precise location, only the menu opens. */
  lemma NoActionTypeOpensMenu(action: string, sessionFree: bool)
    requires action in {"edit", "remove", "cancel"}
    ensures Route(None, Some(action), false, sessionFree) == Dispatch(MenuOpened, None)
  {
  }

  /** "Cancel" chosen through the menu matches no inner case: the menu closes and nothing
      else happens. */
  lemma MenuCancelDoesNothing(actionType: string, rowPreciseFalse: bool, sessionFree: bool)
    ensures Route(Some("cancel"), Some(actionType), rowPreciseFalse, sessionFree) == Dispatch(MenuClosed, None)
  {
  }
}
