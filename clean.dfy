/**
 * Validation and cleaning of the stored trips (src/data_clean.py, `clean_data`).
 *
 * A chain of whole-table row filters, in the order the source applies them:
 * no missing field; at least one passenger; all four coordinates inside the
 * New York bounding box, both ends included; a duration strictly between one
 * minute and ninety minutes. Every survivor then gets its duration in minutes,
 * rounded to two decimals, kept here exactly as an integer count of
 * hundredths of a minute.
 */
module Clean {
  import opened Wrappers
  import Seqs

  /** A stored trip as read back from the table; `None` is a missing value. */
  datatype Trip = Trip(
    pickupDatetime: Option<int>,    // seconds
    dropoffDatetime: Option<int>,   // seconds
    pickupLongitude: Option<real>,
    pickupLatitude: Option<real>,
    dropoffLongitude: Option<real>,
    dropoffLatitude: Option<real>,
    passengerCount: Option<int>,
    tripDuration: Option<int>)      // seconds

  /** A surviving trip with its derived `trip_duration_minutes`, in hundredths of a minute. */
  datatype CleanedTrip = CleanedTrip(trip: Trip, tripDurationMinutes: int)

  const MinLongitude: real := -74.3
  const MaxLongitude: real := -73.7
  const MinLatitude: real := 40.5
  const MaxLatitude: real := 41.0
  const MinDurationExclusive: int := 60
  const MaxDurationExclusive: int := 5400

  /** `dropna`: every field is present. */
  predicate NoMissingField(t: Trip) {
    && t.pickupDatetime.Some? && t.dropoffDatetime.Some?
    && t.pickupLongitude.Some? && t.pickupLatitude.Some?
    && t.dropoffLongitude.Some? && t.dropoffLatitude.Some?
    && t.passengerCount.Some? && t.tripDuration.Some?
  }

  /** `passenger_count > 0`; a comparison with a missing value is false. */
  predicate HasPassengers(t: Trip) {
    t.passengerCount.Some? && t.passengerCount.value > 0
  }

  /** `Series.between(lo, hi)`: inclusive at both ends, false for a missing value. */
  predicate Between(x: Option<real>, lo: real, hi: real) {
    x.Some? && lo <= x.value <= hi
  }

  /** Both ends of the trip lie inside the bounding box. */
  predicate InBoundingBox(t: Trip) {
    && Between(t.pickupLatitude, MinLatitude, MaxLatitude)
    && Between(t.pickupLongitude, MinLongitude, MaxLongitude)
    && Between(t.dropoffLatitude, MinLatitude, MaxLatitude)
    && Between(t.dropoffLongitude, MinLongitude, MaxLongitude)
  }

  /** `trip_duration > 60 & trip_duration < 5400`. */
  predicate PlausibleDuration(t: Trip) {
    t.tripDuration.Some? && MinDurationExclusive < t.tripDuration.value < MaxDurationExclusive
  }

  /** All validity predicates at once. */
  predicate IsValid(t: Trip) {
    NoMissingField(t) && HasPassengers(t) && InBoundingBox(t) && PlausibleDuration(t)
  }

  /** The box includes its edges; the duration window excludes its ends. */
  lemma BoundaryValues()
    ensures Between(Some(40.5), MinLatitude, MaxLatitude) && Between(Some(41.0), MinLatitude, MaxLatitude)
    ensures !Between(Some(40.49999), MinLatitude, MaxLatitude)
    ensures Between(Some(-74.3), MinLongitude, MaxLongitude) && Between(Some(-73.7), MinLongitude, MaxLongitude)
    ensures !Between(None, MinLongitude, MaxLongitude)
    ensures forall t: Trip :: t.tripDuration == Some(60) || t.tripDuration == Some(5400) ==> !PlausibleDuration(t)
    ensures forall t: Trip :: t.tripDuration == Some(61) || t.tripDuration == Some(5399) ==> PlausibleDuration(t)
  {
  }

  /**
   * `round(seconds / 60, 2)` in hundredths of a minute. The exact quotient
   * 100 * seconds / 60 = 5 * seconds / 3 has a fractional part of 0, 1/3 or
   * 2/3, so the result is the unique nearest integer and no tie can arise.
   */
  function DurationHundredths(seconds: int): (m: int)
    ensures -30 < 100 * seconds - 60 * m < 30
  {
    (seconds * 100 + 30) / 60
  }

  /** The rounding above is round-to-nearest: no other count of hundredths is as close. */
  lemma DurationHundredthsIsNearest(seconds: int, k: int)
    requires k != DurationHundredths(seconds)
    ensures 100 * seconds - 60 * k <= -30 || 30 <= 100 * seconds - 60 * k
  {
  }

  lemma DurationHundredthsExamples()
    ensures DurationHundredths(61) == 102     // 1.02 minutes
    ensures DurationHundredths(5399) == 8998  // 89.98 minutes
    ensures DurationHundredths(90) == 150     // 1.50 minutes
  {
  }

  /** Adds `trip_duration_minutes` to every row. */
  function WithMinutes(trips: seq<Trip>): (r: seq<CleanedTrip>)
    requires forall i :: 0 <= i < |trips| ==> trips[i].tripDuration.Some?
  {
    seq(|trips|, i requires 0 <= i < |trips| =>
      CleanedTrip(trips[i], DurationHundredths(trips[i].tripDuration.value)))
  }

  /** The trips underlying cleaned rows. */
  function Trips(rows: seq<CleanedTrip>): (r: seq<Trip>)
    ensures |r| == |rows| && forall i :: 0 <= i < |r| ==> r[i] == rows[i].trip
  {
    seq(|rows|, i requires 0 <= i < |rows| => rows[i].trip)
  }

  /** `clean_data`: the four filters in the source's order, then the derived column. */
  function CleanData(trips: seq<Trip>): (r: seq<CleanedTrip>)
    ensures |r| <= |trips|
    ensures forall i :: 0 <= i < |r| ==>
      && IsValid(r[i].trip)
      && -30 < 100 * r[i].trip.tripDuration.value - 60 * r[i].tripDurationMinutes < 30
  {
    var noMissing := Seqs.Filter(trips, NoMissingField);
    var withPassengers := Seqs.Filter(noMissing, HasPassengers);
    var inBox := Seqs.Filter(withPassengers, InBoundingBox);
    var plausible := Seqs.Filter(inBox, PlausibleDuration);
    CleanedSurvivors(trips, plausible);
    WithMinutes(plausible)
  }

  /** The four-stage chain keeps exactly the rows a single filter on `IsValid` keeps. */
  lemma CleanedSurvivors(trips: seq<Trip>, plausible: seq<Trip>)
    requires plausible == Seqs.Filter(Seqs.Filter(Seqs.Filter(Seqs.Filter(trips,
      NoMissingField), HasPassengers), InBoundingBox), PlausibleDuration)
    ensures plausible == Seqs.Filter(trips, IsValid)
    ensures forall i :: 0 <= i < |plausible| ==> IsValid(plausible[i])
  {
    var s1 := Seqs.Filter(trips, NoMissingField);
    var s2 := Seqs.Filter(s1, HasPassengers);
    var s3 := Seqs.Filter(s2, InBoundingBox);
    var p12 := t => NoMissingField(t) && HasPassengers(t);
    var p123 := t => NoMissingField(t) && HasPassengers(t) && InBoundingBox(t);
    Seqs.FilterFuse(trips, NoMissingField, HasPassengers, p12);
    Seqs.FilterFuse(trips, p12, InBoundingBox, p123);
    Seqs.FilterFuse(trips, p123, PlausibleDuration, IsValid);
  }

  /** The trips that survive cleaning are those the filter on `IsValid` keeps. */
  lemma CleanDataKeepsValidTrips(trips: seq<Trip>)
    ensures Trips(CleanData(trips)) == Seqs.Filter(trips, IsValid)
  {
    var plausible := Seqs.Filter(Seqs.Filter(Seqs.Filter(Seqs.Filter(trips,
      NoMissingField), HasPassengers), InBoundingBox), PlausibleDuration);
    CleanedSurvivors(trips, plausible);
  }

  /** A trip survives cleaning exactly when it is an input trip satisfying every predicate. */
  lemma SurvivesIffValid(trips: seq<Trip>, t: Trip)
    ensures t in Trips(CleanData(trips)) <==> t in trips && IsValid(t)
  {
    CleanDataKeepsValidTrips(trips);
    Seqs.FilterMembership(trips, IsValid, t);
  }

  /** Cleaning keeps the relative order of the surviving trips. */
  lemma CleanDataPreservesOrder(trips: seq<Trip>)
    ensures Seqs.IsSubsequence(Trips(CleanData(trips)), trips)
  {
    CleanDataKeepsValidTrips(trips);
    Seqs.FilterIsSubsequence(trips, IsValid);
  }

  /** Applying the filters in the reverse order gives the same survivors. */
  lemma FilterOrderIrrelevant(trips: seq<Trip>)
    ensures Seqs.Filter(Seqs.Filter(Seqs.Filter(Seqs.Filter(trips,
              PlausibleDuration), InBoundingBox), HasPassengers), NoMissingField)
         == Trips(CleanData(trips))
  {
    CleanDataKeepsValidTrips(trips);
    var p43 := t => PlausibleDuration(t) && InBoundingBox(t);
    var p432 := t => PlausibleDuration(t) && InBoundingBox(t) && HasPassengers(t);
    Seqs.FilterFuse(trips, PlausibleDuration, InBoundingBox, p43);
    Seqs.FilterFuse(trips, p43, HasPassengers, p432);
    Seqs.FilterFuse(trips, p432, NoMissingField, IsValid);
  }

  /** Cleaning already-cleaned trips removes nothing and recomputes the same minutes. */
  lemma CleanDataIdempotent(trips: seq<Trip>)
    ensures CleanData(Trips(CleanData(trips))) == CleanData(trips)
  {
    var once := CleanData(trips);
    CleanDataKeepsValidTrips(trips);
    CleanDataKeepsValidTrips(Trips(once));
    Seqs.FilterIdempotent(trips, IsValid);
  }
}
