/**
 The feature vector TripFare hands to its fare regressor. A request is
 the six values read from the form; the vector is the five numbers the
 regressor was trained on, in a fixed order that the regressor reads by
 position: distance, duration, fractional pickup hour, night flag as
 0 or 1, passenger count.
 */
module FareFeatures {
  import opened PickupTime

  datatype Option<T> = None | Some(value: T)

  /** The inputs of one fare estimate, as the form widgets deliver them. */
  datatype TripRequest = TripRequest(
    passengerCount: int,
    tripDistance: real,  // kilometres
    tripDuration: int,   // minutes
    pickupHour12: int,
    pickupMinute: int,
    amPm: Meridiem
  )

  /** A distance the slider can produce: 0.5 to 50.0 in steps of 0.5. */
  predicate ValidDistance(distance: real) {
    var halves := distance * 2.0;
    halves.Floor as real == halves && 1 <= halves.Floor <= 100
  }

  /** The k-th position of the distance slider, counted in half kilometres. */
  function HalfStep(k: int): real {
    k as real / 2.0
  }

  /** The slider's values are exactly the halves k / 2 for k in 1..100. */
  lemma ValidDistanceSteps(distance: real)
    ensures ValidDistance(distance) <==> exists k: int :: 1 <= k <= 100 && distance == HalfStep(k)
  {
    if ValidDistance(distance) {
      var k := (distance * 2.0).Floor;
      assert distance == HalfStep(k);
    }
  }

  /**
   The ranges the selectors and sliders of the form allow. A valid
   distance is one of the slider's half-kilometre positions.
   */
  predicate ValidRequest(req: TripRequest): (valid: bool)
    ensures valid ==> 0.5 <= req.tripDistance <= 50.0
    ensures valid ==> exists k: int :: 1 <= k <= 100 && req.tripDistance == HalfStep(k)
  {
    ValidDistanceSteps(req.tripDistance);
    && 1 <= req.passengerCount <= 6
    && ValidDistance(req.tripDistance)
    && 2 <= req.tripDuration <= 120
    && ValidHour12(req.pickupHour12)
    && ValidMinute(req.pickupMinute)
  }

  /** Number of features the regressor expects. */
  const FeatureCount := 5

  /** The 24-hour pickup hour of a request. */
  function PickupHour24(req: TripRequest): (hour24: int)
    requires ValidRequest(req)
    ensures ValidHour24(hour24)
  {
    To24Hour(req.pickupHour12, req.amPm)
  }

  /** The night flag as the regressor sees it: 1 for a night ride, 0 otherwise. */
  function NightFeature(night: bool): (x: real)
    ensures x == 0.0 || x == 1.0
    ensures x == 1.0 <==> night
  {
    if night then 1.0 else 0.0
  }

  /**
   The feature vector of a request. Every entry lies in the range its
   widget allows; the pickup-time entry keeps the 24-hour hour as its
   floor and the minute in its fraction; the night entry is 1 exactly for
   a night ride.
   */
  function Features(req: TripRequest): (v: seq<real>)
    requires ValidRequest(req)
    ensures |v| == FeatureCount
    ensures v[0] == req.tripDistance && 0.5 <= v[0] <= 50.0
    ensures v[1] == req.tripDuration as real && 2.0 <= v[1] <= 120.0
    ensures v[2] == FractionalHour(PickupHour24(req), req.pickupMinute)
    ensures 0.0 <= v[2] < 24.0 && v[2].Floor == PickupHour24(req)
    ensures v[3] == 0.0 || v[3] == 1.0
    ensures v[3] == 1.0 <==> IsNight(PickupHour24(req))
    ensures v[4] == req.passengerCount as real && 1.0 <= v[4] <= 6.0
  {
    var hour24 := PickupHour24(req);
    var pickupTime := FractionalHour(hour24, req.pickupMinute);
    [req.tripDistance, req.tripDuration as real, pickupTime,
     NightFeature(IsNight(hour24)), req.passengerCount as real]
  }

  /**
   Reads a request back out of a feature vector: the counts from their
   entries, the 12-hour reading from the floor of the pickup time and the
   minute from its fraction. Vectors of the wrong length or with a pickup
   time outside [0, 24) give None. A decoded request is a 12-hour reading
   whose 24-hour hour is the floor of the pickup time and whose minute is
   a minute of the hour (60 only for a fraction past 59.5 minutes, which
   no vector built by Features has).
   */
  function DecodeFeatures(v: seq<real>): (r: Option<TripRequest>)
    ensures r.Some? <==> |v| == FeatureCount && 0.0 <= v[2] < 24.0
    ensures r.Some? ==> ValidHour12(r.value.pickupHour12) && 0 <= r.value.pickupMinute <= 60
    ensures r.Some? ==> To24Hour(r.value.pickupHour12, r.value.amPm) == v[2].Floor
    ensures r.Some? ==> r.value.tripDistance == v[0]
  {
    if |v| != FeatureCount || !(0.0 <= v[2] < 24.0) then None
    else
      var reading := From24Hour(v[2].Floor);
      To24HourFrom24Hour(v[2].Floor);
      Some(TripRequest(v[4].Floor, v[0], v[1].Floor, reading.0, MinuteOf(v[2]), reading.1))
  }

  /**
   The feature vector loses nothing of the request: decoding it gives the
   request back.
   */
  lemma DecodeFeaturesRoundTrip(req: TripRequest)
    requires ValidRequest(req)
    ensures DecodeFeatures(Features(req)) == Some(req)
  {
    FractionalHourDecodes(PickupHour24(req), req.pickupMinute);
    From24HourTo24Hour(req.pickupHour12, req.amPm);
  }

  /**
   Distinct requests give distinct vectors, so the positional order is all
   that tells the entries apart and none of them is redundant.
   */
  lemma FeaturesInjective(r1: TripRequest, r2: TripRequest)
    requires ValidRequest(r1) && ValidRequest(r2)
    ensures Features(r1) == Features(r2) ==> r1 == r2
  {
    DecodeFeaturesRoundTrip(r1);
    DecodeFeaturesRoundTrip(r2);
  }

  /**
   The night entry agrees with the pickup-time entry: it is 1 exactly when
   the fractional hour is before 6.0 or at least 22.0.
   */
  lemma NightFeatureMatchesPickupTime(req: TripRequest)
    requires ValidRequest(req)
    ensures Features(req)[3] == 1.0 <==> Features(req)[2] < 6.0 || Features(req)[2] >= 22.0
  {
    IsNightByFractionalHour(PickupHour24(req), req.pickupMinute);
  }

  /** Three requests worked through from form to vector. */
  lemma FeaturesExamples()
    ensures Features(TripRequest(1, 5.0, 15, 11, 0, PM)) == [5.0, 15.0, 23.0, 1.0, 1.0]
    ensures Features(TripRequest(6, 0.5, 2, 12, 0, AM)) == [0.5, 2.0, 0.0, 1.0, 6.0]
    ensures Features(TripRequest(2, 10.0, 30, 6, 30, AM)) == [10.0, 30.0, 6.5, 0.0, 2.0]
  {
  }
}
