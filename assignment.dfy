/**
 * The driver assignment engine (taxi_booking_system/assignment_algorithm.py):
 * the two-hour availability rule, the choice of the nearest available
 * driver and the ranked list of recommendations.  The great-circle distance
 * is a parameter of every operation.
 */
module Assignment {
  import opened Wrappers
  import Models
  import DateTime
  import Sorting
  import Text

  /** A driver with the coordinates the engine reads from it. */
  datatype Candidate = Candidate(driver: Models.Driver, latitude: real, longitude: real)

  /** A booking request with the coordinates of its pickup point. */
  datatype Request = Request(booking: Models.Booking, pickupLat: real, pickupLon: real)

  /** Each driver's bookings, keyed by driver id. */
  type BookingMap = map<string, seq<Models.Booking>>

  /** The distance in kilometres between two (latitude, longitude) points. */
  type Distance = (real, real, real, real) -> real

  /** Two pickups conflict when they are strictly less than this many minutes apart. */
  const WindowMinutes := 120

  /** The request's date and time in minutes; `None` where parsing raises. */
  function RequestTime(r: Request): Option<int>
  {
    DateTime.ParseDateTime(r.booking.bookingDate, r.booking.bookingTime)
  }

  /**
   * Booking `b` keeps its driver busy at minute `t`: it is not cancelled,
   * its date and time parse, and the two lie strictly less than two hours
   * apart.
   */
  predicate Blocks(b: Models.Booking, t: int)
  {
    b.status != "Cancelled"
    && match DateTime.ParseDateTime(b.bookingDate, b.bookingTime)
       case None => false
       case Some(e) => -WindowMinutes < t - e < WindowMinutes
  }

  /** No booking keeps the driver busy at minute `t` (checked from the back). */
  predicate Available(t: int, bookings: seq<Models.Booking>)
  {
    bookings == []
    || (Available(t, bookings[..|bookings| - 1]) && !Blocks(bookings[|bookings| - 1], t))
  }

  /** A driver is available exactly when none of its bookings blocks the time. */
  lemma {:induction false} AvailableMeans(t: int, bookings: seq<Models.Booking>)
    ensures Available(t, bookings) <==> forall i :: 0 <= i < |bookings| ==> !Blocks(bookings[i], t)
  {
    if bookings != [] {
      var init := bookings[..|bookings| - 1];
      AvailableMeans(t, init);
      assert forall i :: 0 <= i < |init| ==> init[i] == bookings[i];
    }
  }

  /** `is_driver_available`: a scan that stops at the first conflicting booking. */
  method IsDriverAvailable(t: int, bookings: seq<Models.Booking>) returns (free: bool)
    ensures free <==> Available(t, bookings)
  {
    for i := 0 to |bookings|
      invariant Available(t, bookings[..i])
    {
      assert bookings[..i + 1][..i] == bookings[..i];
      var b := bookings[i];
      if b.status == "Cancelled" {
        continue;
      }
      var existing := DateTime.ParseDateTime(b.bookingDate, b.bookingTime);
      if existing.Some? {
        var diff := t - existing.value;
        if -WindowMinutes < diff < WindowMinutes {
          assert Blocks(b, t);
          AvailableMeans(t, bookings);
          return false;
        }
      }
    }
    assert bookings[..|bookings|] == bookings;
    return true;
  }

  /**
   * Cancelled and unreadable bookings never make a driver busy, and a
   * booking exactly two hours away does not either.
   */
  lemma NeverBlocking(b: Models.Booking, t: int)
    ensures b.status == "Cancelled" ==> !Blocks(b, t)
    ensures DateTime.ParseDateTime(b.bookingDate, b.bookingTime).None? ==> !Blocks(b, t)
    ensures forall e :: (DateTime.ParseDateTime(b.bookingDate, b.bookingTime) == Some(e)
                         && (t - e == WindowMinutes || e - t == WindowMinutes)) ==> !Blocks(b, t)
  {
  }

  /** `driver_bookings_map.get(user_id, [])`. */
  function BookingsOf(m: BookingMap, id: string): seq<Models.Booking>
  {
    if id in m then m[id] else []
  }

  predicate Free(c: Candidate, t: int, m: BookingMap)
  {
    Available(t, BookingsOf(m, c.driver.userId))
  }

  function DistanceTo(c: Candidate, r: Request, distance: Distance): real
  {
    distance(c.latitude, c.longitude, r.pickupLat, r.pickupLon)
  }

  /** The `(driver, distance)` pairs of the available drivers, in driver order. */
  function Choices(ds: seq<Candidate>, t: int, m: BookingMap, r: Request, distance: Distance)
    : seq<(Candidate, real)>
  {
    if ds == [] then []
    else
      var last := ds[|ds| - 1];
      Choices(ds[..|ds| - 1], t, m, r, distance)
      + (if Free(last, t, m) then [(last, DistanceTo(last, r, distance))] else [])
  }

  /** The sort key of `available_drivers.sort(key=lambda x: x[1])`. */
  function ByDistance(p: (Candidate, real)): Sorting.Rank
  {
    Sorting.Rank(0, p.1)
  }

  /** What `find_best_driver` returns. */
  function BestDriver(drivers: seq<Candidate>, r: Request, m: BookingMap, distance: Distance)
    : Option<(Candidate, real)>
  {
    match RequestTime(r)
    case None => None
    case Some(t) =>
      var available := Choices(drivers, t, m, r, distance);
      if available == [] then None else Some(Sorting.SortBy(available, ByDistance)[0])
  }

  /** `find_best_driver`: collect the available drivers, sort them by distance, take the first. */
  method FindBestDriver(drivers: seq<Candidate>, r: Request, m: BookingMap, distance: Distance)
    returns (best: Option<(Candidate, real)>)
    ensures best == BestDriver(drivers, r, m, distance)
  {
    var parsed := RequestTime(r);
    if parsed.None? {
      return None;
    }
    var t := parsed.value;
    var available: seq<(Candidate, real)> := [];
    for i := 0 to |drivers|
      invariant available == Choices(drivers[..i], t, m, r, distance)
    {
      var d := drivers[i];
      var free := IsDriverAvailable(t, BookingsOf(m, d.driver.userId));
      assert drivers[..i + 1][..i] == drivers[..i];
      if free {
        available := available + [(d, DistanceTo(d, r, distance))];
      }
    }
    assert drivers[..|drivers|] == drivers;
    if available != [] {
      var sorted := Sorting.SortBy(available, ByDistance);
      return Some(sorted[0]);
    }
    return None;
  }

  /** Where driver `k`'s pair would sit in the list of available drivers. */
  function Pos(ds: seq<Candidate>, k: int, t: int, m: BookingMap, r: Request, distance: Distance): nat
    requires 0 <= k <= |ds|
  {
    |Choices(ds[..k], t, m, r, distance)|
  }

  lemma {:induction false} ChoicesPrefix(ds: seq<Candidate>, n: int, t: int, m: BookingMap, r: Request, distance: Distance)
    requires 0 <= n <= |ds|
    ensures var c := Choices(ds, t, m, r, distance);
            var p := Choices(ds[..n], t, m, r, distance);
            |p| <= |c| && c[..|p|] == p
    decreases |ds| - n
  {
    if n < |ds| {
      ChoicesPrefix(ds, n + 1, t, m, r, distance);
      assert ds[..n + 1][..n] == ds[..n];
    } else {
      assert ds[..n] == ds;
    }
  }

  /** An available driver's pair is in the list, at its position. */
  lemma ChoicesAt(ds: seq<Candidate>, k: int, t: int, m: BookingMap, r: Request, distance: Distance)
    requires 0 <= k < |ds| && Free(ds[k], t, m)
    ensures var c := Choices(ds, t, m, r, distance);
            Pos(ds, k, t, m, r, distance) < |c|
            && c[Pos(ds, k, t, m, r, distance)] == (ds[k], DistanceTo(ds[k], r, distance))
  {
    ChoicesPrefix(ds, k + 1, t, m, r, distance);
    assert ds[..k + 1][..k] == ds[..k];
  }

  /** Every pair in the list comes from an available driver, at that driver's position. */
  lemma {:induction false} ChoicesOrigin(ds: seq<Candidate>, j: int, t: int, m: BookingMap, r: Request, distance: Distance)
    returns (k: int)
    requires 0 <= j < |Choices(ds, t, m, r, distance)|
    ensures 0 <= k < |ds| && Free(ds[k], t, m) && Pos(ds, k, t, m, r, distance) == j
    ensures Choices(ds, t, m, r, distance)[j] == (ds[k], DistanceTo(ds[k], r, distance))
  {
    var init := ds[..|ds| - 1];
    if j < |Choices(init, t, m, r, distance)| {
      k := ChoicesOrigin(init, j, t, m, r, distance);
      assert init[..k] == ds[..k];
    } else {
      k := |ds| - 1;
      assert ds[..k] == init;
    }
  }

  /** An available driver earlier in the list sits strictly earlier among the pairs. */
  lemma PosBefore(ds: seq<Candidate>, j: int, k: int, t: int, m: BookingMap, r: Request, distance: Distance)
    requires 0 <= j < k <= |ds| && Free(ds[j], t, m)
    ensures Pos(ds, j, t, m, r, distance) < Pos(ds, k, t, m, r, distance)
  {
    ChoicesPrefix(ds[..k], j + 1, t, m, r, distance);
    assert ds[..k][..j + 1] == ds[..j + 1];
    assert ds[..j + 1][..j] == ds[..j];
  }

  lemma {:induction false} ChoicesEmpty(ds: seq<Candidate>, t: int, m: BookingMap, r: Request, distance: Distance)
    ensures Choices(ds, t, m, r, distance) == [] <==> forall k :: 0 <= k < |ds| ==> !Free(ds[k], t, m)
  {
    if ds != [] {
      var init := ds[..|ds| - 1];
      var last := ds[|ds| - 1];
      ChoicesEmpty(init, t, m, r, distance);
      assert ds == init + [last];
      if Free(last, t, m) {
        assert Choices(ds, t, m, r, distance) != [];
      } else {
        assert Choices(ds, t, m, r, distance) == Choices(init, t, m, r, distance);
      }
    }
  }

  /**
   * Driver `k` is a nearest available driver, and the first of them in
   * driver order.
   */
  predicate Nearest(ds: seq<Candidate>, k: int, t: int, m: BookingMap, r: Request, distance: Distance)
  {
    0 <= k < |ds| && Free(ds[k], t, m)
    && (forall j :: 0 <= j < |ds| && Free(ds[j], t, m)
          ==> DistanceTo(ds[k], r, distance) <= DistanceTo(ds[j], r, distance))
    && (forall j :: 0 <= j < k && Free(ds[j], t, m)
          ==> DistanceTo(ds[j], r, distance) > DistanceTo(ds[k], r, distance))
  }

  /**
   * No driver is found exactly when the request's date and time do not
   * parse or every driver is busy then.
   */
  lemma BestDriverNone(drivers: seq<Candidate>, r: Request, m: BookingMap, distance: Distance)
    ensures BestDriver(drivers, r, m, distance).None?
            <==> (RequestTime(r).None?
                  || forall k :: 0 <= k < |drivers| ==> !Free(drivers[k], RequestTime(r).value, m))
  {
    if RequestTime(r).Some? {
      ChoicesEmpty(drivers, RequestTime(r).value, m, r, distance);
    }
  }

  /**
   * A found driver is available, comes with its own distance to the pickup,
   * no available driver is strictly closer, and every available driver
   * before it is strictly farther.
   */
  lemma BestDriverChosen(drivers: seq<Candidate>, r: Request, m: BookingMap, distance: Distance)
    requires BestDriver(drivers, r, m, distance).Some?
    ensures RequestTime(r).Some?
    ensures exists k :: Nearest(drivers, k, RequestTime(r).value, m, r, distance)
              && BestDriver(drivers, r, m, distance).value == (drivers[k], DistanceTo(drivers[k], r, distance))
  {
    var t := RequestTime(r).value;
    var c := Choices(drivers, t, m, r, distance);
    Sorting.SortHead(c, ByDistance);
    var h :| Sorting.FirstLeast(c, ByDistance, h) && Sorting.SortBy(c, ByDistance)[0] == c[h];
    var k := ChoicesOrigin(drivers, h, t, m, r, distance);
    forall j | 0 <= j < |drivers| && Free(drivers[j], t, m)
      ensures DistanceTo(drivers[k], r, distance) <= DistanceTo(drivers[j], r, distance)
    {
      ChoicesAt(drivers, j, t, m, r, distance);
      assert Sorting.Le(ByDistance(c[h]), ByDistance(c[Pos(drivers, j, t, m, r, distance)]));
    }
    forall j | 0 <= j < k && Free(drivers[j], t, m)
      ensures DistanceTo(drivers[j], r, distance) > DistanceTo(drivers[k], r, distance)
    {
      ChoicesAt(drivers, j, t, m, r, distance);
      PosBefore(drivers, j, k, t, m, r, distance);
      assert !Sorting.Le(ByDistance(c[Pos(drivers, j, t, m, r, distance)]), ByDistance(c[h]));
    }
    assert Nearest(drivers, k, t, m, r, distance);
  }

  /** `assign_driver_to_booking`: the id of the driver `find_best_driver` picks. */
  method AssignDriverToBooking(r: Request, drivers: seq<Candidate>, m: BookingMap, distance: Distance)
    returns (id: Option<string>)
    ensures id.None? <==> (RequestTime(r).None?
                           || forall k :: 0 <= k < |drivers| ==> !Free(drivers[k], RequestTime(r).value, m))
    ensures id.Some? ==> (RequestTime(r).Some?
                          && exists k :: Nearest(drivers, k, RequestTime(r).value, m, r, distance)
                               && id.value == drivers[k].driver.userId)
  {
    var result := FindBestDriver(drivers, r, m, distance);
    BestDriverNone(drivers, r, m, distance);
    if result.Some? {
      BestDriverChosen(drivers, r, m, distance);
      return Some(result.value.0.driver.userId);
    }
    return None;
  }

  /** One entry of the recommendation list: `(driver, distance, is_available)`. */
  datatype Recommendation = Recommendation(candidate: Candidate, distance: real, available: bool)

  function Assess(c: Candidate, t: int, m: BookingMap, r: Request, distance: Distance): Recommendation
  {
    Recommendation(c, DistanceTo(c, r, distance), Free(c, t, m))
  }

  /** Every driver assessed, in driver order. */
  function Assessments(ds: seq<Candidate>, t: int, m: BookingMap, r: Request, distance: Distance)
    : (rs: seq<Recommendation>)
    ensures |rs| == |ds|
    ensures forall k :: 0 <= k < |ds| ==> rs[k] == Assess(ds[k], t, m, r, distance)
  {
    if ds == [] then []
    else Assessments(ds[..|ds| - 1], t, m, r, distance) + [Assess(ds[|ds| - 1], t, m, r, distance)]
  }

  /** The sort key `(not is_available, distance)`: available drivers first, then by distance. */
  function ByAvailability(e: Recommendation): Sorting.Rank
  {
    Sorting.Rank(if e.available then 0 else 1, e.distance)
  }

  /** Python's slice `s[:n]`, where a negative `n` counts from the end. */
  function Take<T>(s: seq<T>, n: int): (p: seq<T>)
    ensures n >= 0 ==> |p| == if n <= |s| then n else |s|
    ensures n < 0 ==> |p| == if |s| + n >= 0 then |s| + n else 0
    ensures p == s[..|p|]
  {
    if n >= 0 then (if n <= |s| then s[..n] else s)
    else if |s| + n >= 0 then s[..|s| + n] else []
  }

  /** What `get_driver_recommendations` returns. */
  function Recommendations(r: Request, drivers: seq<Candidate>, m: BookingMap, distance: Distance, topN: int)
    : seq<Recommendation>
  {
    match RequestTime(r)
    case None => []
    case Some(t) => Take(Sorting.SortBy(Assessments(drivers, t, m, r, distance), ByAvailability), topN)
  }

  /** `get_driver_recommendations`: assess every driver, sort, keep the first `topN`. */
  method GetDriverRecommendations(r: Request, drivers: seq<Candidate>, m: BookingMap, distance: Distance,
                                  topN: int := 5)
    returns (recs: seq<Recommendation>)
    ensures recs == Recommendations(r, drivers, m, distance, topN)
  {
    var parsed := RequestTime(r);
    if parsed.None? {
      return [];
    }
    var t := parsed.value;
    var all: seq<Recommendation> := [];
    for i := 0 to |drivers|
      invariant all == Assessments(drivers[..i], t, m, r, distance)
    {
      var d := drivers[i];
      var free := IsDriverAvailable(t, BookingsOf(m, d.driver.userId));
      assert drivers[..i + 1][..i] == drivers[..i];
      assert Recommendation(d, DistanceTo(d, r, distance), free) == Assess(d, t, m, r, distance);
      all := all + [Recommendation(d, DistanceTo(d, r, distance), free)];
    }
    assert drivers[..|drivers|] == drivers;
    var sorted := Sorting.SortBy(all, ByAvailability);
    recs := Take(sorted, topN);
  }

  /** An unreadable request date or time gives no recommendations. */
  lemma RecommendationsUnparseable(r: Request, drivers: seq<Candidate>, m: BookingMap, distance: Distance, topN: int)
    requires RequestTime(r).None?
    ensures Recommendations(r, drivers, m, distance, topN) == []
  {
  }

  /**
   * min(topN, |drivers|) recommendations for a non-negative topN, each the
   * true assessment of a driver, and each driver at most once.
   */
  lemma RecommendationsEntries(r: Request, drivers: seq<Candidate>, m: BookingMap, distance: Distance, topN: int)
    requires RequestTime(r).Some?
    ensures var t := RequestTime(r).value;
            var recs := Recommendations(r, drivers, m, distance, topN);
            (topN >= 0 ==> |recs| == if topN <= |drivers| then topN else |drivers|)
            && multiset(recs) <= multiset(Assessments(drivers, t, m, r, distance))
            && forall i :: 0 <= i < |recs| ==>
                 exists k :: 0 <= k < |drivers| && recs[i] == Assess(drivers[k], t, m, r, distance)
  {
    RankedEntries(drivers, RequestTime(r).value, m, r, distance, topN);
  }

  lemma RankedEntries(drivers: seq<Candidate>, t: int, m: BookingMap, r: Request, distance: Distance, topN: int)
    ensures var recs := Take(Sorting.SortBy(Assessments(drivers, t, m, r, distance), ByAvailability), topN);
            (topN >= 0 ==> |recs| == if topN <= |drivers| then topN else |drivers|)
            && multiset(recs) <= multiset(Assessments(drivers, t, m, r, distance))
            && forall i :: 0 <= i < |recs| ==>
                 exists k :: 0 <= k < |drivers| && recs[i] == Assess(drivers[k], t, m, r, distance)
  {
    var all := Assessments(drivers, t, m, r, distance);
    var sorted := Sorting.SortBy(all, ByAvailability);
    var recs := Take(sorted, topN);
    TakeWithin(sorted, topN);
    forall i | 0 <= i < |recs|
      ensures exists k :: 0 <= k < |drivers| && recs[i] == Assess(drivers[k], t, m, r, distance)
    {
      assert recs[i] in multiset(all) by {
        assert recs[i] in multiset(recs);
      }
      AssessedDriver(drivers, t, m, r, distance, recs[i]);
    }
  }

  /** A prefix holds no element more often than the whole. */
  lemma TakeWithin<T>(s: seq<T>, n: int)
    ensures multiset(Take(s, n)) <= multiset(s)
  {
    var p := Take(s, n);
    assert s == p + s[|p|..];
    assert multiset(s) == multiset(p) + multiset(s[|p|..]);
  }

  lemma AssessedDriver(ds: seq<Candidate>, t: int, m: BookingMap, r: Request, distance: Distance, e: Recommendation)
    requires e in multiset(Assessments(ds, t, m, r, distance))
    ensures exists k :: 0 <= k < |ds| && e == Assess(ds[k], t, m, r, distance)
  {
    var all := Assessments(ds, t, m, r, distance);
    var k :| 0 <= k < |all| && all[k] == e;
  }

  /**
   * Ties keep driver order: the recommended drivers that share an
   * availability and a distance appear in the order of `drivers`, as the
   * first of those drivers (Python's sort is stable).
   */
  lemma RecommendationsTies(r: Request, drivers: seq<Candidate>, m: BookingMap, distance: Distance, topN: int,
                            k: Sorting.Rank)
    requires RequestTime(r).Some?
    ensures var all := Assessments(drivers, RequestTime(r).value, m, r, distance);
            Sorting.WithKey(Recommendations(r, drivers, m, distance, topN), ByAvailability, k)
            <= Sorting.WithKey(all, ByAvailability, k)
  {
    var all := Assessments(drivers, RequestTime(r).value, m, r, distance);
    var sorted := Sorting.SortBy(all, ByAvailability);
    var recs := Take(sorted, topN);
    Sorting.SortStable(all, ByAvailability, k);
    Sorting.WithKeyPrefix(sorted, |recs|, ByAvailability, k);
  }

  /**
   * Available drivers come before busy ones, and distances do not decrease
   * within each group.
   */
  lemma RecommendationsOrder(r: Request, drivers: seq<Candidate>, m: BookingMap, distance: Distance, topN: int)
    ensures var recs := Recommendations(r, drivers, m, distance, topN);
            (forall i, j :: 0 <= i < j < |recs| && recs[j].available ==> recs[i].available)
            && (forall i, j :: 0 <= i < j < |recs| && recs[i].available == recs[j].available
                  ==> recs[i].distance <= recs[j].distance)
  {
    var recs := Recommendations(r, drivers, m, distance, topN);
    if RequestTime(r).Some? {
      var t := RequestTime(r).value;
      var sorted := Sorting.SortBy(Assessments(drivers, t, m, r, distance), ByAvailability);
      assert recs == sorted[..|recs|];
      forall i, j | 0 <= i < j < |recs|
        ensures Sorting.Le(ByAvailability(recs[i]), ByAvailability(recs[j]))
      {
        assert recs[i] == sorted[i] && recs[j] == sorted[j];
      }
    }
  }

  /**
   * A driver booked at 10:00 and 15:00 on one day is free at 13:00 (exactly
   * two hours before 15:00), busy at 10:30 and free at 10:00 the next day.
   * Here `e` is the minute of 10:00 on 2024-12-25.
   */
  lemma AvailabilityFixture(date: string, at10: string, at15: string) returns (e: int)
    requires date == "2024-12-25" && at10 == "10:00" && at15 == "15:00"
    ensures DateTime.ParseDateTime(date, at10) == Some(e)
    ensures var bs := [Models.Booking("B001", "C001", "Loc A", "Loc B", date, at10, "Assigned", "D001"),
                       Models.Booking("B002", "C002", "Loc C", "Loc D", date, at15, "Assigned", "D001")];
            Available(e + 180, bs) && !Available(e + 30, bs) && Available(e + DateTime.MinutesPerDay, bs)
  {
    e := DateTime.ChristmasTimes(date, at10, at15);
    var bs := [Models.Booking("B001", "C001", "Loc A", "Loc B", date, at10, "Assigned", "D001"),
               Models.Booking("B002", "C002", "Loc C", "Loc D", date, at15, "Assigned", "D001")];
    BlocksAt(bs[0], e);
    BlocksAt(bs[1], e + 300);
    assert Blocks(bs[0], e + 30);
    AvailableMeans(e + 180, bs);
    AvailableMeans(e + 30, bs);
    AvailableMeans(e + DateTime.MinutesPerDay, bs);
  }

  lemma BlocksAt(b: Models.Booking, e: int)
    requires DateTime.ParseDateTime(b.bookingDate, b.bookingTime) == Some(e)
    ensures forall t :: Blocks(b, t) <==> b.status != "Cancelled" && -WindowMinutes < t - e < WindowMinutes
  {
  }

  /**
   * Three drivers with the second nearest the pickup and the first
   * farthest: the second is chosen; once it has a booking at the requested
   * time the third is; once all three have one none is.  This holds for any
   * readable request date and time; `DateTime.Dec25At1000` shows that the
   * test's 10:00 on 2024-12-25 is one.
   */
  lemma AssignmentFixture(distance: Distance, date: string, time: string)
    requires DateTime.ParseDateTime(date, time).Some?
    ensures var d1 := Candidate(Models.Driver("D001", "driver1", "pass123", "John Driver", "555-0101", "DL001"), 40.7128, -74.0060);
            var d2 := Candidate(Models.Driver("D002", "driver2", "pass123", "Jane Driver", "555-0102", "DL002"), 40.7580, -73.9855);
            var d3 := Candidate(Models.Driver("D003", "driver3", "pass123", "Bob Driver", "555-0103", "DL003"), 40.7614, -73.9776);
            var r := Request(Models.Booking("B001", "C001", "Times Square", "JFK Airport", date, time, "Pending", ""),
                             40.7580, -73.9855);
            var busy := Models.Booking("B999", "C999", "Loc", "Loc", date, time, "Assigned", "D002");
            var m0: BookingMap := map["D001" := [], "D002" := [], "D003" := []];
            var m1 := m0["D002" := [busy]];
            var m2 := m1["D001" := [busy]]["D003" := [busy]];
            DistanceTo(d2, r, distance) < DistanceTo(d3, r, distance) < DistanceTo(d1, r, distance)
            ==> BestDriver([d1, d2, d3], r, m0, distance) == Some((d2, DistanceTo(d2, r, distance)))
                && BestDriver([d1, d2, d3], r, m1, distance) == Some((d3, DistanceTo(d3, r, distance)))
                && BestDriver([d1, d2, d3], r, m2, distance) == None
  {
    var d1 := Candidate(Models.Driver("D001", "driver1", "pass123", "John Driver", "555-0101", "DL001"), 40.7128, -74.0060);
    var d2 := Candidate(Models.Driver("D002", "driver2", "pass123", "Jane Driver", "555-0102", "DL002"), 40.7580, -73.9855);
    var d3 := Candidate(Models.Driver("D003", "driver3", "pass123", "Bob Driver", "555-0103", "DL003"), 40.7614, -73.9776);
    var r := Request(Models.Booking("B001", "C001", "Times Square", "JFK Airport", date, time, "Pending", ""),
                     40.7580, -73.9855);
    var busy := Models.Booking("B999", "C999", "Loc", "Loc", date, time, "Assigned", "D002");
    var m0: BookingMap := map["D001" := [], "D002" := [], "D003" := []];
    var m1 := m0["D002" := [busy]];
    var m2 := m1["D001" := [busy]]["D003" := [busy]];
    var ds := [d1, d2, d3];
    if DistanceTo(d2, r, distance) < DistanceTo(d3, r, distance) < DistanceTo(d1, r, distance) {
      var t := RequestTime(r).value;
      assert Blocks(busy, t);
      assert BestDriver(ds, r, m0, distance) == Some((d2, DistanceTo(d2, r, distance))) by {
        assert Free(d1, t, m0) && Free(d2, t, m0) && Free(d3, t, m0);
        BestDriverNone(ds, r, m0, distance);
        BestDriverChosen(ds, r, m0, distance);
        var k :| Nearest(ds, k, t, m0, r, distance)
                 && BestDriver(ds, r, m0, distance).value == (ds[k], DistanceTo(ds[k], r, distance));
        assert DistanceTo(ds[k], r, distance) <= DistanceTo(ds[1], r, distance);
        assert k == 0 || k == 1 || k == 2;
      }
      assert BestDriver(ds, r, m1, distance) == Some((d3, DistanceTo(d3, r, distance))) by {
        Busy(busy, t);
        assert Free(d1, t, m1) && !Free(d2, t, m1) && Free(d3, t, m1);
        BestDriverChosen(ds, r, m1, distance);
        var k :| Nearest(ds, k, t, m1, r, distance)
                 && BestDriver(ds, r, m1, distance).value == (ds[k], DistanceTo(ds[k], r, distance));
        assert DistanceTo(ds[k], r, distance) <= DistanceTo(ds[2], r, distance);
        assert k == 0 || k == 1 || k == 2;
      }
      assert BestDriver(ds, r, m2, distance) == None by {
        Busy(busy, t);
        assert BookingsOf(m2, "D001") == [busy] && BookingsOf(m2, "D003") == [busy];
        assert !Free(d1, t, m2) && !Free(d2, t, m2) && !Free(d3, t, m2);
        assert forall k :: 0 <= k < |ds| ==> !Free(ds[k], t, m2) by {
          forall k | 0 <= k < |ds| ensures !Free(ds[k], t, m2) {
            assert k == 0 || k == 1 || k == 2;
          }
        }
        BestDriverNone(ds, r, m2, distance);
      }
    }
  }

  lemma Busy(b: Models.Booking, t: int)
    requires Blocks(b, t)
    ensures !Available(t, [b])
  {
    AvailableMeans(t, [b]);
    assert [b][0] == b;
  }
}
