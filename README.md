# TripFare feature derivation

TripFare is a Streamlit page that estimates an urban taxi fare with a
pre-trained gradient-boosting regressor. Apart from the page itself, its only
logic is how it turns the form inputs into the regressor's input. This
project models that derivation in Dafny:

- `PickupTime` (`pickup_time.dfy`) covers the pickup time. It converts the
  12-hour reading (hour 1..12, minute 0..59, AM/PM) to a 24-hour hour. It
  encodes the time as a fractional hour `hour24 + minute/60`. It classifies
  the ride as a night ride when the integer hour is 22 or later, or 5 or
  earlier.
- `FareFeatures` (`fare_features.dfy`) covers the request and its vector. A
  request is the six form values. Its feature vector is
  `[distance, duration, pickup_time, is_night as 0/1, passenger_count]`,
  and the regressor reads it by position.

The ranges of the form widgets are the preconditions (`ValidRequest`). The
page never validates its inputs itself: the selectors and sliders cannot
produce anything outside those ranges. So the model has no validation-error
path.

Each operation is paired with an inverse or an independent characterization:

- `From24Hour` inverts `To24Hour`. Both round trips are proved, and so is
  the bijection onto 0..23.
- `MinuteOf` and the floor invert `FractionalHour`.
- `DecodeFeatures` inverts `Features`. This shows that the vector is
  injective on valid requests.

The night flag is related to the 24-hour hour, to the fractional hour and
to the 12-hour reading. Feature derivation is deterministic by construction:
every operation is a Dafny function of its inputs, and no state is read or
written.

## Model

| member | source | states |
|---|---|---|
| PickupTime.To24Hour | app.py:166-170 | the 24-hour hour lies in 0..23, is below 12 exactly for AM, and shows the same dial position as the 12-hour reading (12 counts as 0) |
| PickupTime.From24Hour | app.py:166-170 | the 12-hour reading of a 24-hour hour: hour in 1..12, AM exactly before noon, same dial position |
| PickupTime.From24HourTo24Hour | app.py:166-170 | converting a 12-hour reading to 24 hours and back gives the same reading |
| PickupTime.To24HourFrom24Hour | app.py:166-170 | every hour 0..23 is the conversion of its 12-hour reading |
| PickupTime.To24HourBijective | app.py:166-170 | every hour 0..23 has exactly one (hour12, AM/PM) preimage |
| PickupTime.To24HourHalves | app.py:167-170 | AM gives 0..11 and PM gives 12..23; hours below 12 are kept (AM) or shifted by 12 (PM) |
| PickupTime.To24HourMidnightNoon | app.py:168-170 | 12 AM is 0 and 12 PM is 12 |
| PickupTime.FractionalHour | app.py:173 | the fractional hour lies in [hour24, hour24 + 1) and in [0, 24), and its floor is hour24 |
| PickupTime.FractionalHourDecodes | app.py:173 | the minute is recovered from the fractional hour (the hour is its floor, by `FractionalHour`) |
| PickupTime.MinuteOfTolerant | app.py:173 | the minute is still recovered from a pickup time off by less than half a minute whose floor is the hour |
| PickupTime.FractionalHourOrdered | app.py:173 | the fractional hour is strictly increasing in clock order of (hour, minute) |
| PickupTime.IsNight | app.py:176-179 | night exactly when the hour's 12-hour reading is 10 PM to 11 PM or 12 AM to 5 AM (the windows of the comments at app.py:177-178); the minute is not an argument |
| PickupTime.IsNightBoundaries | app.py:176-179 | hours 0, 5, 22 and 23 are night; 6, 21 and every hour from 6 to 21 are day |
| PickupTime.IsNightByFractionalHour | app.py:173-179 | night holds iff the fractional hour is below 6.0 or at least 22.0, whatever the minute |
| PickupTime.IsNightIn12Hour | app.py:166-179 | in 12-hour terms night is exactly 10 PM to 11:59 PM or 12 AM to 5:59 AM |
| FareFeatures.ValidRequest | app.py:102-160 | the widget ranges: passengers 1..6, distance a slider step k/2 km with k in 1..100 (so 0.5..50.0), duration 2..120, hour 1..12, minute 0..59 |
| FareFeatures.ValidDistanceSteps | app.py:112-119 | the distances the slider allows are exactly k / 2 km for k in 1..100 |
| FareFeatures.PickupHour24 | app.py:166-170 | a valid request has a 24-hour pickup hour in 0..23 |
| FareFeatures.NightFeature | app.py:201 | `int(is_night)` as a float is 0 or 1, and is 1 exactly for a night ride |
| FareFeatures.Features | app.py:199-203 | the vector has 5 entries in the order distance, duration, pickup time, night flag, passengers; the pickup-time entry is exactly `FractionalHour` of the 24-hour hour and the minute; each entry lies in its widget's range; the pickup time's floor is the 24-hour hour; the night entry is 1 iff the ride is a night ride |
| FareFeatures.DecodeFeatures | app.py:199-203 | inverse of the vector assembly: a vector with 5 entries and a pickup time in [0, 24) decodes to a request whose distance is entry 0 and whose 12-hour reading converts to the floor of the pickup time |
| FareFeatures.DecodeFeaturesRoundTrip | app.py:166-203 | decoding the feature vector of a valid request gives back the request |
| FareFeatures.FeaturesInjective | app.py:199-203 | distinct valid requests give distinct feature vectors |
| FareFeatures.NightFeatureMatchesPickupTime | app.py:173-203 | the night entry is 1 iff the pickup-time entry is below 6.0 or at least 22.0 |
| FareFeatures.FeaturesExamples | app.py:166-203 | 11:00 PM gives pickup time 23.0 and night 1; 12:00 AM gives 0.0 and night 1; 6:30 AM gives 6.5 and night 0 |

## Left out

- The Streamlit page is left out because it is presentation only: page configuration, styling, the form widgets, the night caption and the fare card (app.py:9-160, 181-190, 208-228). The widget ranges appear only as `ValidRequest` (with `ValidDistanceSteps` for the distance slider).
- Model loading is left out because it is file I/O and framework caching: `joblib.load` behind `@st.cache_resource` (app.py:19-24).
- `check_is_fitted` and `model.predict` are left out because they are opaque scikit-learn calls with no visible logic (app.py:196, 206).
- IEEE double arithmetic is left out: `minute / 60` (app.py:173) and the `numpy` float array are modelled as exact reals, so the rounding of quotients such as 1/60 is not modelled. `FractionalHourDecodes` and `DecodeFeaturesRoundTrip` are proved for exact reals only; `MinuteOf` rounds to the nearest minute and `MinuteOfTolerant` shows it absorbs any error below half a minute, but the size of the double rounding error is not itself proved.
- The `:.2f` formatting of the fare is left out because it is display formatting (app.py:210).
