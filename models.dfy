/**
 * The records of the taxi booking system and their one-line, '|'-separated
 * file format (taxi_booking_system/models.py).  Every record type has a
 * `ToString` that joins its fields in declared order and a `FromString`
 * that strips the line, splits it on '|', ignores surplus pieces and gives
 * `None` when there are too few.
 */
module Models {
  import opened Wrappers
  import Text
  import DateTime

  /** The pieces `data.strip().split('|')` of a stored line. */
  function Parts(data: string): (parts: seq<string>)
    ensures |parts| >= 1 && Text.NoPipes(parts) && Text.CleanEdges(parts)
  {
    Text.SplitStripped(data);
    Text.Split(Text.Strip(data))
  }

  /**
   * Joining clean pieces and reading the line back, with or without the
   * newline the writer appends, gives the pieces again.
   */
  lemma {:induction false} PartsOfJoin(fields: seq<string>)
    requires |fields| >= 2 && Text.NoPipes(fields) && Text.CleanEdges(fields)
    ensures Parts(Text.Join(fields)) == fields
    ensures Parts(Text.Join(fields) + "\n") == fields
  {
    var line := Text.Join(fields);
    assert Text.Split(line) == fields by { Text.SplitJoin(fields); }
    assert Text.Strip(line) == line by {
      Text.JoinNoOuterSpace(fields);
      Text.StripNoOp(line);
    }
    assert Text.Strip(line + "\n") == line by {
      Text.JoinNoOuterSpace(fields);
      assert line == fields[0] + "|" + Text.Join(fields[1..]);
      Text.StripNewline(line);
    }
  }

  /** A record read from a line holds no '|' and its first field no leading white space. */
  predicate ReadBack(fields: seq<string>)
  {
    |fields| >= 1 && Text.NoPipes(fields) && (fields[0] == [] || !Text.IsSpace(fields[0][0]))
  }

  lemma ReadBackPieces(data: string, n: int)
    requires 1 <= n <= |Parts(data)|
    ensures ReadBack(Parts(data)[..n])
  {
    var p := Parts(data);
    assert forall i :: 0 <= i < n ==> p[..n][i] == p[i];
  }

  /** The last field carries no trailing white space. */
  predicate CleanTail(fields: seq<string>)
  {
    |fields| >= 1 && var last := fields[|fields| - 1]; last == [] || !Text.IsSpace(last[|last| - 1])
  }

  datatype Customer = Customer(userId: string, username: string, password: string, name: string,
                               address: string, phone: string, email: string)
  {
    function Fields(): seq<string>
    {
      [userId, username, password, name, address, phone, email]
    }

    function ToString(): (line: string)
      ensures Text.NoPipes(Fields()) ==> Text.Split(line) == Fields()
    {
      Text.SplitOfJoin(Fields());
      Text.Join(Fields())
    }

    static function FromString(data: string): (r: Option<Customer>)
      ensures r.Some? <==> |Parts(data)| >= 7
      ensures r.Some? ==> r.value.Fields() == Parts(data)[..7]
    {
      var p := Parts(data);
      if |p| >= 7 then Some(Customer(p[0], p[1], p[2], p[3], p[4], p[5], p[6])) else None
    }
  }

  datatype Driver = Driver(userId: string, username: string, password: string, name: string,
                           phone: string, licenseNumber: string)
  {
    function Fields(): seq<string>
    {
      [userId, username, password, name, phone, licenseNumber]
    }

    function ToString(): (line: string)
      ensures Text.NoPipes(Fields()) ==> Text.Split(line) == Fields()
    {
      Text.SplitOfJoin(Fields());
      Text.Join(Fields())
    }

    static function FromString(data: string): (r: Option<Driver>)
      ensures r.Some? <==> |Parts(data)| >= 6
      ensures r.Some? ==> r.value.Fields() == Parts(data)[..6]
    {
      var p := Parts(data);
      if |p| >= 6 then Some(Driver(p[0], p[1], p[2], p[3], p[4], p[5])) else None
    }
  }

  /** An administrator is written with the four fields every user has. */
  datatype Administrator = Administrator(userId: string, username: string, password: string, name: string)
  {
    function Fields(): seq<string>
    {
      [userId, username, password, name]
    }

    function ToString(): (line: string)
      ensures Text.NoPipes(Fields()) ==> Text.Split(line) == Fields()
    {
      Text.SplitOfJoin(Fields());
      Text.Join(Fields())
    }

    static function FromString(data: string): (r: Option<Administrator>)
      ensures r.Some? <==> |Parts(data)| >= 4
      ensures r.Some? ==> r.value.Fields() == Parts(data)[..4]
    {
      var p := Parts(data);
      if |p| >= 4 then Some(Administrator(p[0], p[1], p[2], p[3])) else None
    }
  }

  /** A booking; a new one is "Pending" and has no driver. */
  datatype Booking = Booking(bookingId: string, customerId: string, pickupLocation: string,
                             dropoffLocation: string, bookingDate: string, bookingTime: string,
                             status: string := "Pending", driverId: string := "")
  {
    function Fields(): seq<string>
    {
      [bookingId, customerId, pickupLocation, dropoffLocation, bookingDate, bookingTime, status, driverId]
    }

    function ToString(): (line: string)
      ensures Text.NoPipes(Fields()) ==> Text.Split(line) == Fields()
    {
      Text.SplitOfJoin(Fields());
      Text.Join(Fields())
    }

    static function FromString(data: string): (r: Option<Booking>)
      ensures r.Some? <==> |Parts(data)| >= 8
      ensures r.Some? ==> r.value.Fields() == Parts(data)[..8]
    {
      var p := Parts(data);
      if |p| >= 8 then Some(Booking(p[0], p[1], p[2], p[3], p[4], p[5], p[6], p[7])) else None
    }

    /** The pickup time, `None` where parsing "date time" fails: it never raises. */
    function GetDateTime(): (r: Option<DateTime.Stamp>)
      ensures r.Some? ==> DateTime.Valid(r.value) && |bookingDate + " " + bookingTime| == 16
    {
      DateTime.ParseStamp(bookingDate + " " + bookingTime)
    }
  }

  /** A booking dated and timed in the canonical spelling of a valid stamp has that stamp. */
  lemma GetDateTimeOfFormat(b: Booking, st: DateTime.Stamp)
    requires DateTime.Valid(st) && DateTime.Format(st) == b.bookingDate + " " + b.bookingTime
    ensures b.GetDateTime() == Some(st)
  {
    DateTime.ParseFormat(st);
  }

  /** The pickup time in minutes is the minute count of `GetDateTime`'s stamp. */
  lemma BookingMinutes(b: Booking)
    ensures DateTime.ParseDateTime(b.bookingDate, b.bookingTime)
            == if b.GetDateTime().Some? then Some(DateTime.Minutes(b.GetDateTime().value)) else None
  {
  }

  /** A customer with clean fields reads back from its line, newline or not. */
  lemma CustomerRoundTrip(c: Customer)
    requires Text.NoPipes(c.Fields()) && Text.CleanEdges(c.Fields())
    ensures Customer.FromString(c.ToString()) == Some(c)
    ensures Customer.FromString(c.ToString() + "\n") == Some(c)
  {
    PartsOfJoin(c.Fields());
  }

  lemma DriverRoundTrip(d: Driver)
    requires Text.NoPipes(d.Fields()) && Text.CleanEdges(d.Fields())
    ensures Driver.FromString(d.ToString()) == Some(d)
    ensures Driver.FromString(d.ToString() + "\n") == Some(d)
  {
    PartsOfJoin(d.Fields());
  }

  lemma AdministratorRoundTrip(a: Administrator)
    requires Text.NoPipes(a.Fields()) && Text.CleanEdges(a.Fields())
    ensures Administrator.FromString(a.ToString()) == Some(a)
    ensures Administrator.FromString(a.ToString() + "\n") == Some(a)
  {
    PartsOfJoin(a.Fields());
  }

  lemma BookingRoundTrip(b: Booking)
    requires Text.NoPipes(b.Fields()) && Text.CleanEdges(b.Fields())
    ensures Booking.FromString(b.ToString()) == Some(b)
    ensures Booking.FromString(b.ToString() + "\n") == Some(b)
  {
    PartsOfJoin(b.Fields());
  }

  /**
   * A booking read from a stored line is written back by `ToString` to a
   * line that reads as the same booking exactly when its driver field ends
   * in no white space.  White space can end that field only when the line
   * had surplus pieces after it; re-reading the rewritten line strips it.
   */
  lemma BookingReread(line: string, b: Booking)
    requires Booking.FromString(line) == Some(b)
    ensures Booking.FromString(b.ToString() + "\n") == Some(b) <==> CleanTail(b.Fields())
  {
    ReadBackPieces(line, 8);
    assert ReadBack(b.Fields());
    if CleanTail(b.Fields()) {
      BookingRoundTrip(b);
    } else {
      BookingDirtyTail(b);
    }
  }

  lemma BookingDirtyTail(b: Booking)
    requires Text.NoPipes(b.Fields()) && !CleanTail(b.Fields())
    ensures Booking.FromString(b.ToString() + "\n") != Some(b)
  {
    var y := b.ToString() + "\n";
    ReadPieces(b.Fields());
    var p := Parts(y);
    assert Booking.FromString(y).Some? ==> Booking.FromString(y).value.Fields() == p;
    assert CleanTail(p);
  }

  /** Reading a written line back gives no more pieces than were written. */
  lemma {:induction false} ReadPieces(fields: seq<string>)
    requires |fields| >= 1 && Text.NoPipes(fields)
    ensures |Parts(Text.Join(fields) + "\n")| <= |fields|
  {
    var y := Text.Join(fields) + "\n";
    var p := Parts(y);
    assert Text.Pipes(y) == |fields| - 1 by {
      Text.JoinPipes(fields);
      assert multiset(y) == multiset(Text.Join(fields)) + multiset("\n");
    }
    assert Text.Pipes(Text.Strip(y)) <= Text.Pipes(y) by { Text.StripPipes(y); }
    Text.JoinSplit(Text.Strip(y));
    assert Text.Pipes(Text.Join(p)) == |p| - 1 by { Text.JoinPipes(p); }
  }

  /** The booking written down in the source's model test reads back unchanged. */
  lemma BookingFixture()
    ensures var b := Booking("B001", "C001", "Downtown", "Airport", "2024-12-20", "14:30");
            b.status == "Pending" && b.driverId == ""
            && Booking.FromString(b.ToString()) == Some(b)
  {
    var b := Booking("B001", "C001", "Downtown", "Airport", "2024-12-20", "14:30");
    assert b.Fields() == ["B001", "C001", "Downtown", "Airport", "2024-12-20", "14:30", "Pending", ""];
    assert Text.NoPipes(b.Fields());
    BookingRoundTrip(b);
  }
}
