/** The option lists of the region → municipal → place selects, as the controller builds
    them from the gazetteer's admin lists. */
module Cascade {
  /** The gazetteer's name for an unresolved admin unit; it is never offered. */
  const Tbd: string := "TBD"
  /** The value of every placeholder option. */
  const Unselected: string := "false"

  datatype SelectOption =
    | Placeholder(caption: string)
    /** An option with text only: its value is its text. */
    | Named(name: string)
    /** A place option: its value is the gazetteer id, its text the display name. */
    | PlaceOption(gazetteerId: string, caption: string)

  /** An entry of the level-3 admin list. */
  datatype PlaceItem = PlaceItem(gazetteerId: string, placeName: string, pname: string)

  /** The value an `<option>` submits. */
  function OptionValue(o: SelectOption): string
  {
    match o
    case Placeholder(_) => Unselected
    case Named(n) => n
    case PlaceOption(g, _) => g
  }

  /** The value a select holds once filled: its first option's, or "" when it is empty. */
  function SelectedValue(opts: seq<SelectOption>): string
  {
    if opts == [] then "" else OptionValue(opts[0])
  }

  /** One option per name other than "TBD", in the given order. */
  function NameOptions(names: seq<string>): (opts: seq<SelectOption>)
    ensures |opts| <= |names|
    ensures forall k :: 0 <= k < |opts| ==> opts[k].Named? && opts[k].name != Tbd && opts[k].name in names
    ensures forall n :: n in names && n != Tbd ==> Named(n) in opts
  {
    if names == [] then []
    else (if names[0] != Tbd then [Named(names[0])] else []) + NameOptions(names[1..])
  }

  /** One option per place whose `placeName` is not "TBD", in the given order. */
  function PlaceItemOptions(items: seq<PlaceItem>): (opts: seq<SelectOption>)
    ensures |opts| <= |items|
    ensures forall k :: 0 <= k < |opts| ==> opts[k].PlaceOption?
    ensures forall it :: it in items && it.placeName != Tbd ==> PlaceOption(it.gazetteerId, it.pname) in opts
  {
    if items == [] then []
    else
      var head := if items[0].placeName != Tbd then [PlaceOption(items[0].gazetteerId, items[0].pname)] else [];
      head + PlaceItemOptions(items[1..])
  }

  /** Every place option stands for a listed place whose name is not "TBD". */
  lemma {:induction false} PlaceItemOptionsFromItems(items: seq<PlaceItem>)
    ensures forall k :: 0 <= k < |PlaceItemOptions(items)| ==>
      exists it :: it in items && it.placeName != Tbd && PlaceItemOptions(items)[k] == PlaceOption(it.gazetteerId, it.pname)
  {
    if items != [] {
      PlaceItemOptionsFromItems(items[1..]);
      var head := if items[0].placeName != Tbd then [PlaceOption(items[0].gazetteerId, items[0].pname)] else [];
      var rest := PlaceItemOptions(items[1..]);
      var opts := PlaceItemOptions(items);
      assert opts == head + rest;
      forall k | 0 <= k < |opts|
        ensures exists it :: it in items && it.placeName != Tbd && opts[k] == PlaceOption(it.gazetteerId, it.pname)
      {
        if k < |head| {
          assert items[0] in items && opts[k] == PlaceOption(items[0].gazetteerId, items[0].pname);
        } else {
          var j := k - |head|;
          assert opts[k] == rest[j];
          var it :| it in items[1..] && it.placeName != Tbd && rest[j] == PlaceOption(it.gazetteerId, it.pname);
          assert it in items;
        }
      }
    } else {
      assert PlaceItemOptions(items) == [];
    }
  }

  function RegionOptions(names: seq<string>): (opts: seq<SelectOption>)
    ensures |opts| >= 1 && opts[0].Placeholder? && SelectedValue(opts) == Unselected
    ensures forall k :: 1 <= k < |opts| ==> opts[k].Named? && opts[k].name != Tbd && opts[k].name in names
  {
    [Placeholder("Select a region")] + NameOptions(names)
  }

  /** The placeholder is added only when there is more than one municipal, counted before
      "TBD" is dropped. */
  function MunicipalOptions(names: seq<string>): (opts: seq<SelectOption>)
    ensures forall k :: 0 <= k < |opts| ==> (opts[k].Placeholder? <==> k == 0 && |names| > 1)
    ensures forall k :: 0 <= k < |opts| && !opts[k].Placeholder? ==>
      opts[k].Named? && opts[k].name != Tbd && opts[k].name in names
    ensures |names| > 1 ==> |opts| >= 1 && SelectedValue(opts) == Unselected
  {
    (if |names| > 1 then [Placeholder("Select a municipal")] else []) + NameOptions(names)
  }

  /** The placeholder is left out when the list has exactly one entry. */
  function PlaceOptions(items: seq<PlaceItem>): (opts: seq<SelectOption>)
    ensures forall k :: 0 <= k < |opts| ==> (opts[k].Placeholder? <==> k == 0 && |items| != 1)
    ensures forall k :: 0 <= k < |opts| && !opts[k].Placeholder? ==> opts[k].PlaceOption?
    ensures |items| != 1 ==> |opts| >= 1 && SelectedValue(opts) == Unselected
  {
    (if |items| != 1 then [Placeholder("Select a Place")] else []) + PlaceItemOptions(items)
  }

  /** The place level is skipped when the one place bears the chosen municipal's name. */
  predicate SameOptionAsMunicipal(municipalName: string, items: seq<PlaceItem>)
  {
    |items| == 1 && municipalName == items[0].placeName
  }

  // ---- Properties -----------------------------------------------------------

  /** "TBD" never becomes an option of any list. */
  lemma TbdNeverOffered(names: seq<string>, items: seq<PlaceItem>)
    ensures Named(Tbd) !in RegionOptions(names)
    ensures Named(Tbd) !in MunicipalOptions(names)
    ensures forall o :: o in PlaceOptions(items) && o.PlaceOption? ==>
      exists it :: it in items && it.placeName != Tbd && o == PlaceOption(it.gazetteerId, it.pname)
  {
    var no := NameOptions(names);
    assert RegionOptions(names)[1..] == no;
    var pl := if |items| != 1 then [Placeholder("Select a Place")] else [];
    var po := PlaceItemOptions(items);
    PlaceItemOptionsFromItems(items);
    forall o | o in PlaceOptions(items) && o.PlaceOption?
      ensures exists it :: it in items && it.placeName != Tbd && o == PlaceOption(it.gazetteerId, it.pname)
    {
      var k :| 0 <= k < |pl + po| && (pl + po)[k] == o;
      assert k >= |pl|;
      assert po[k - |pl|] == o;
    }
  }

  /** Every name other than "TBD" is offered, in region and municipal lists alike. */
  lemma EveryNameOffered(names: seq<string>, n: string)
    requires n in names && n != Tbd
    ensures Named(n) in RegionOptions(names) && Named(n) in MunicipalOptions(names)
  {
  }

  /** The municipal list starts with a placeholder exactly when there is more than one
      municipal. */
  lemma MunicipalPlaceholderIffSeveral(names: seq<string>)
    ensures (exists k :: 0 <= k < |MunicipalOptions(names)| && MunicipalOptions(names)[k].Placeholder?)
            <==> |names| > 1
  {
    var opts := MunicipalOptions(names);
    if |names| > 1 {
      assert opts[0].Placeholder?;
    } else {
      assert opts == NameOptions(names);
    }
  }

  /** A lone municipal other than "TBD" is what the select holds; a lone "TBD" leaves the
      select empty, so its value is "". */
  lemma LoneMunicipalSelected(name: string)
    ensures SelectedValue(MunicipalOptions([name])) == (if name != Tbd then name else "")
  {
    assert NameOptions([name][1..]) == [];
  }

  /** With several municipals the select holds the placeholder, so nothing is chosen. */
  lemma SeveralMunicipalsUnselected(names: seq<string>)
    requires |names| > 1
    ensures SelectedValue(MunicipalOptions(names)) == Unselected
  {
  }

  /** A lone place other than "TBD" is selected by its gazetteer id. */
  lemma LonePlaceSelected(it: PlaceItem)
    ensures SelectedValue(PlaceOptions([it])) == (if it.placeName != Tbd then it.gazetteerId else "")
  {
    assert PlaceItemOptions([it][1..]) == [];
  }
}
