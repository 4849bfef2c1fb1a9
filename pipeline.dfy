/**
 * How the stages connect: the aggregator reads the cleaner's output and
 * counts one pickup per cleaned trip.
 */
module Pipeline {
  import Clean
  import Hourly

  /** The `pickup_datetime` column of the cleaned rows. */
  function PickupTimes(rows: seq<Clean.CleanedTrip>): (ts: seq<int>)
    requires forall i :: 0 <= i < |rows| ==> rows[i].trip.pickupDatetime.Some?
  {
    seq(|rows|, i requires 0 <= i < |rows| => rows[i].trip.pickupDatetime.value)
  }

  /** Cleaned trips all have a pickup time, and the hourly series counts each one exactly once. */
  lemma HourlyDemandCountsEveryCleanedTrip(trips: seq<Clean.Trip>)
    ensures var cleaned := Clean.CleanData(trips);
      Hourly.TotalDemand(Hourly.HourlyDemand(PickupTimes(cleaned))) == |cleaned|
  {
    var cleaned := Clean.CleanData(trips);
    Hourly.TotalDemandIsPickupCount(PickupTimes(cleaned));
  }
}
