/** `validatePreciseLocation`: the checks applied to a typed-in precise coordinate pair.
    Inputs are the parsed values rounded to micro-degrees, `None` where `parseFloat`
    gives NaN; the default location is the selected location's place coordinate. */
module PreciseValidation {
  import opened Wrappers
  import opened Decimal

  const NotNumericMessage := "You must enter a real latitude and longitude."
  const LatitudePrecisionMessage := "Latitude needs to have 6 real numbers after the decimal"
  const LongitudePrecisionMessage := "Longitude needs to have 6 real numbers after the decimal"
  const SameAsPlaceMessage := "You can't set the precise location to be the same as the place"

  /** The `validate` record: `status` and the message of the check that failed. */
  datatype Validation = Validation(status: bool, message: Option<string>)

  /** `toFixed(6)` of a parsed input; NaN prints as "NaN". */
  function Rendered(v: Option<int>): string
  {
    match v
    case Some(x) => Fixed6(x)
    case None => "NaN"
  }

  /** The validator as written: four guarded assignments, each applied only while
      `status` is still true, comparing rendered strings. */
  function ValidatePreciseLocation(lat: Option<int>, lng: Option<int>, defaultLat: int, defaultLng: int): (v: Validation)
    ensures v.status <==> v.message.None?
  {
    var start := Validation(true, None);
    var numeric :=
      if start.status && (lat.None? || lng.None?) then Validation(false, Some(NotNumericMessage)) else start;
    var latText, lngText := Rendered(lat), Rendered(lng);
    var latChecked :=
      if numeric.status && LastTwo(latText) == "00" then Validation(false, Some(LatitudePrecisionMessage)) else numeric;
    var lngChecked :=
      if latChecked.status && LastTwo(lngText) == "00" then Validation(false, Some(LongitudePrecisionMessage)) else latChecked;
    if lngChecked.status && latText == Fixed6(defaultLat) && lngText == Fixed6(defaultLng) then
      Validation(false, Some(SameAsPlaceMessage))
    else
      lngChecked
  }

  /** An independent statement of the rules, on numbers rather than strings. */
  datatype Check = NotNumeric | LatitudePrecision | LongitudePrecision | SameAsPlace

  /** The order in which the checks are tried. */
  const CheckOrder: seq<Check> := [NotNumeric, LatitudePrecision, LongitudePrecision, SameAsPlace]

  function MessageOf(c: Check): string
  {
    match c
    case NotNumeric => NotNumericMessage
    case LatitudePrecision => LatitudePrecisionMessage
    case LongitudePrecision => LongitudePrecisionMessage
    case SameAsPlace => SameAsPlaceMessage
  }

  /** Whether a check rejects the pair: non-numeric input; a sixth decimal pair of "00",
      that is a multiple of 100 micro-degrees (zero included); or the default location itself. */
  predicate Fails(c: Check, lat: Option<int>, lng: Option<int>, defaultLat: int, defaultLng: int)
  {
    match c
    case NotNumeric => lat.None? || lng.None?
    case LatitudePrecision => lat.Some? && Abs(lat.value) % 100 == 0
    case LongitudePrecision => lng.Some? && Abs(lng.value) % 100 == 0
    case SameAsPlace => lat == Some(defaultLat) && lng == Some(defaultLng)
  }

  /** The first check of `checks` that rejects the pair, if any. */
  function FirstFailure(checks: seq<Check>, lat: Option<int>, lng: Option<int>, defaultLat: int, defaultLng: int): (f: Option<Check>)
    ensures f.Some? ==> f.value in checks && Fails(f.value, lat, lng, defaultLat, defaultLng)
    ensures f.None? <==> forall c :: c in checks ==> !Fails(c, lat, lng, defaultLat, defaultLng)
    ensures f.Some? ==>
      exists i :: (0 <= i < |checks| && checks[i] == f.value &&
                   forall j :: 0 <= j < i ==> !Fails(checks[j], lat, lng, defaultLat, defaultLng))
  {
    if checks == [] then None
    else if Fails(checks[0], lat, lng, defaultLat, defaultLng) then Some(checks[0])
    else FirstFailure(checks[1..], lat, lng, defaultLat, defaultLng)
  }

  /** The validator passes exactly when no check fails, and otherwise reports the
      message of the first failing check in order. */
  lemma ValidatorOutcome(lat: Option<int>, lng: Option<int>, defaultLat: int, defaultLng: int)
    ensures var v := ValidatePreciseLocation(lat, lng, defaultLat, defaultLng);
            var f := FirstFailure(CheckOrder, lat, lng, defaultLat, defaultLng);
            && (v.status <==> f.None?)
            && (f.Some? ==> v.message == Some(MessageOf(f.value)))
  {
    FirstFailureInOrder(lat, lng, defaultLat, defaultLng);
    if lat.Some? {
      EndsInDoubleZero(lat.value);
      Fixed6Injective(lat.value, defaultLat);
    }
    if lng.Some? {
      EndsInDoubleZero(lng.value);
      Fixed6Injective(lng.value, defaultLng);
    }
  }

  lemma FirstFailureInOrder(lat: Option<int>, lng: Option<int>, defaultLat: int, defaultLng: int)
    ensures FirstFailure(CheckOrder, lat, lng, defaultLat, defaultLng) ==
      if Fails(NotNumeric, lat, lng, defaultLat, defaultLng) then Some(NotNumeric)
      else if Fails(LatitudePrecision, lat, lng, defaultLat, defaultLng) then Some(LatitudePrecision)
      else if Fails(LongitudePrecision, lat, lng, defaultLat, defaultLng) then Some(LongitudePrecision)
      else if Fails(SameAsPlace, lat, lng, defaultLat, defaultLng) then Some(SameAsPlace)
      else None
  {
    var rest1: seq<Check> := [LatitudePrecision, LongitudePrecision, SameAsPlace];
    var rest2: seq<Check> := [LongitudePrecision, SameAsPlace];
    var rest3: seq<Check> := [SameAsPlace];
    assert CheckOrder[1..] == rest1 && rest1[1..] == rest2 && rest2[1..] == rest3 && rest3[1..] == [];
    assert FirstFailure(rest3, lat, lng, defaultLat, defaultLng) ==
      if Fails(SameAsPlace, lat, lng, defaultLat, defaultLng) then Some(SameAsPlace) else None;
    assert FirstFailure(rest2, lat, lng, defaultLat, defaultLng) ==
      if Fails(LongitudePrecision, lat, lng, defaultLat, defaultLng) then Some(LongitudePrecision)
      else FirstFailure(rest3, lat, lng, defaultLat, defaultLng);
    assert FirstFailure(rest1, lat, lng, defaultLat, defaultLng) ==
      if Fails(LatitudePrecision, lat, lng, defaultLat, defaultLng) then Some(LatitudePrecision)
      else FirstFailure(rest2, lat, lng, defaultLat, defaultLng);
  }

  /** A numeric pair whose six-decimal renderings do not end in "00" and that differs
      from the default location is accepted. */
  lemma AcceptsPreciseDistinctPair(lat: int, lng: int, defaultLat: int, defaultLng: int)
    requires Abs(lat) % 100 != 0 && Abs(lng) % 100 != 0
    requires (lat, lng) != (defaultLat, defaultLng)
    ensures ValidatePreciseLocation(Some(lat), Some(lng), defaultLat, defaultLng) == Validation(true, None)
  {
    ValidatorOutcome(Some(lat), Some(lng), defaultLat, defaultLng);
  }

  /** Repeating the default location is rejected with the "same as the place" message
      whenever the earlier checks pass. */
  lemma RejectsDefaultLocation(lat: int, lng: int)
    requires Abs(lat) % 100 != 0 && Abs(lng) % 100 != 0
    ensures ValidatePreciseLocation(Some(lat), Some(lng), lat, lng) == Validation(false, Some(SameAsPlaceMessage))
  {
    ValidatorOutcome(Some(lat), Some(lng), lat, lng);
  }

  /** 10.123400 / 20.567800 against the same default: the latitude's trailing "00"
      is reported, not the equality with the default, because that check comes first. */
  lemma TrailingZerosReportedBeforeSameAsPlace()
    ensures ValidatePreciseLocation(Some(10123400), Some(20567800), 10123400, 20567800)
            == Validation(false, Some(LatitudePrecisionMessage))
  {
    ValidatorOutcome(Some(10123400), Some(20567800), 10123400, 20567800);
  }

  /** 10.123401 / 20.567899 against 10.123400 / 20.567800 is accepted. */
  lemma FullPrecisionPairAccepted()
    ensures ValidatePreciseLocation(Some(10123401), Some(20567899), 10123400, 20567800) == Validation(true, None)
  {
    AcceptsPreciseDistinctPair(10123401, 20567899, 10123400, 20567800);
  }
}
