/**
 * The record store of the taxi booking system
 * (taxi_booking_system/data_manager.py).  Each of the four text files is a
 * field holding its lines, each line with its line break; readers parse the
 * lines again on every call, writers append or rewrite lines.
 */
module Store {
  import opened Wrappers
  import Text
  import DateTime
  import Models
  import Assignment

  /**
   * The records a reader gets from `lines`, in file order: blank lines and
   * lines the parser rejects are skipped.
   */
  function Parsed<T>(lines: seq<string>, parse: string -> Option<T>): (rs: seq<T>)
    ensures |rs| <= |lines|
  {
    if lines == [] then []
    else
      var line := lines[|lines| - 1];
      Parsed(lines[..|lines| - 1], parse)
      + (if Text.Strip(line) != [] && parse(line).Some? then [parse(line).value] else [])
  }

  /** Reading two stretches of a file one after the other. */
  lemma {:induction false} ParsedConcat<T>(a: seq<string>, b: seq<string>, parse: string -> Option<T>)
    ensures Parsed(a + b, parse) == Parsed(a, parse) + Parsed(b, parse)
  {
    if b == [] {
      assert a + b == a;
    } else {
      var b' := b[..|b| - 1];
      assert (a + b)[..|a + b| - 1] == a + b';
      assert (a + b)[|a + b| - 1] == b[|b| - 1];
      ParsedConcat(a, b', parse);
    }
  }

  lemma ParsedOne<T>(line: string, parse: string -> Option<T>)
    ensures Parsed([line], parse) == if Text.Strip(line) != [] && parse(line).Some? then [parse(line).value] else []
  {
    assert [line][..0] == [];
  }

  /** A blank or unreadable line contributes nothing to the table. */
  lemma ParsedSkips<T>(a: seq<string>, line: string, b: seq<string>, parse: string -> Option<T>)
    requires Text.Strip(line) == [] || parse(line).None?
    ensures Parsed(a + [line] + b, parse) == Parsed(a + b, parse)
    ensures |Parsed(a + [line] + b, parse)| < |a + [line] + b|
  {
    var pa, pb := Parsed(a, parse), Parsed(b, parse);
    assert Parsed(a + [line], parse) == pa by {
      ParsedConcat(a, [line], parse);
      ParsedOne(line, parse);
      assert pa + [] == pa;
    }
    ParsedConcat(a + [line], b, parse);
    ParsedConcat(a, b, parse);
  }

  /** A readable line contributes its record, at its place. */
  lemma ParsedKeeps<T>(a: seq<string>, line: string, b: seq<string>, parse: string -> Option<T>)
    requires Text.Strip(line) != [] && parse(line).Some?
    ensures Parsed(a + [line] + b, parse) == Parsed(a, parse) + [parse(line).value] + Parsed(b, parse)
  {
    ParsedConcat(a + [line], b, parse);
    ParsedConcat(a, [line], parse);
    ParsedOne(line, parse);
  }

  /** Every record a reader gets was parsed from one of the lines. */
  lemma {:induction false} ParsedOrigin<T>(lines: seq<string>, parse: string -> Option<T>, i: int) returns (j: int)
    requires 0 <= i < |Parsed(lines, parse)|
    ensures 0 <= j < |lines| && parse(lines[j]) == Some(Parsed(lines, parse)[i])
  {
    var init := lines[..|lines| - 1];
    var last := lines[|lines| - 1];
    var tail := if Text.Strip(last) != [] && parse(last).Some? then [parse(last).value] else [];
    assert Parsed(lines, parse) == Parsed(init, parse) + tail;
    if i < |Parsed(init, parse)| {
      j := ParsedOrigin(init, parse, i);
      assert Parsed(lines, parse)[i] == Parsed(init, parse)[i];
    } else {
      j := |lines| - 1;
      assert Parsed(lines, parse)[i] == tail[0];
    }
  }

  /** The `for line in f: if line.strip(): ...` loop of every `get_all_*`. */
  method ReadTable<T>(lines: seq<string>, parse: string -> Option<T>) returns (rs: seq<T>)
    ensures rs == Parsed(lines, parse)
  {
    rs := [];
    for i := 0 to |lines|
      invariant rs == Parsed(lines[..i], parse)
    {
      var line := lines[i];
      assert lines[..i + 1][..i] == lines[..i];
      if Text.Strip(line) != [] {
        var record := parse(line);
        if record.Some? {
          rs := rs + [record.value];
        }
      }
    }
    assert lines[..|lines|] == lines;
  }

  /** The first record whose `key` is `k`, as the `get_*_by_*` loops return it. */
  function FirstWith<T>(rs: seq<T>, key: T -> string, k: string): (r: Option<T>)
    ensures r.Some? ==> key(r.value) == k
  {
    if rs == [] then None
    else if key(rs[0]) == k then Some(rs[0])
    else FirstWith(rs[1..], key, k)
  }

  /** Record `i` is the first one whose `key` is `k`. */
  predicate FirstAt<T>(rs: seq<T>, key: T -> string, k: string, i: int)
  {
    0 <= i < |rs| && key(rs[i]) == k && forall j :: 0 <= j < i ==> key(rs[j]) != k
  }

  /** The lookup fails exactly when no record matches, and otherwise gives the first match. */
  lemma {:induction false} FirstWithMeans<T>(rs: seq<T>, key: T -> string, k: string)
    ensures FirstWith(rs, key, k).None? <==> forall i :: 0 <= i < |rs| ==> key(rs[i]) != k
    ensures forall i :: FirstAt(rs, key, k, i) ==> FirstWith(rs, key, k) == Some(rs[i])
  {
    if rs != [] && key(rs[0]) != k {
      FirstWithMeans(rs[1..], key, k);
      assert forall i :: 1 <= i < |rs| ==> rs[i] == rs[1..][i - 1];
      forall i | FirstAt(rs, key, k, i)
        ensures FirstAt(rs[1..], key, k, i - 1)
      {
        assert forall j :: 0 <= j < i - 1 ==> rs[1..][j] == rs[j + 1];
      }
    }
  }

  /** The scan of a `get_*_by_*` method: returns the first match, `None` when there is none. */
  method FindFirst<T>(rs: seq<T>, key: T -> string, k: string) returns (r: Option<T>)
    ensures r == FirstWith(rs, key, k)
  {
    FirstWithMeans(rs, key, k);
    for i := 0 to |rs|
      invariant forall j :: 0 <= j < i ==> key(rs[j]) != k
    {
      if key(rs[i]) == k {
        assert FirstAt(rs, key, k, i);
        return Some(rs[i]);
      }
    }
    return None;
  }

  function CustomerUsername(c: Models.Customer): string { c.username }
  function CustomerId(c: Models.Customer): string { c.userId }
  function DriverUsername(d: Models.Driver): string { d.username }
  function DriverId(d: Models.Driver): string { d.userId }
  function AdminUsername(a: Models.Administrator): string { a.username }
  function BookingId(b: Models.Booking): string { b.bookingId }

  /** `[b for b in all_bookings if b.customer_id == customer_id]`. */
  function ForCustomer(bs: seq<Models.Booking>, id: string): (r: seq<Models.Booking>)
    ensures |r| <= |bs|
  {
    if bs == [] then []
    else
      var b := bs[|bs| - 1];
      ForCustomer(bs[..|bs| - 1], id) + (if b.customerId == id then [b] else [])
  }

  /** `[b for b in all_bookings if b.driver_id == driver_id and b.status != "Cancelled"]`. */
  function ForDriver(bs: seq<Models.Booking>, id: string): (r: seq<Models.Booking>)
    ensures |r| <= |bs|
    ensures forall i :: 0 <= i < |r| ==> r[i].driverId == id && r[i].status != "Cancelled"
  {
    if bs == [] then []
    else
      var b := bs[|bs| - 1];
      ForDriver(bs[..|bs| - 1], id) + (if b.driverId == id && b.status != "Cancelled" then [b] else [])
  }

  /**
   * The customer filter keeps exactly the bookings of that customer, in
   * table order: it distributes over concatenation, and a one-booking
   * table keeps its booking iff the customer matches.
   */
  lemma {:induction false} ForCustomerMeans(a: seq<Models.Booking>, b: seq<Models.Booking>, id: string)
    ensures ForCustomer(a + b, id) == ForCustomer(a, id) + ForCustomer(b, id)
    ensures forall x :: ForCustomer([x], id) == if x.customerId == id then [x] else []
  {
    ForCustomerConcat(a, b, id);
    forall x ensures ForCustomer([x], id) == if x.customerId == id then [x] else [] {
      assert [x][..0] == [];
    }
  }

  lemma {:induction false} ForCustomerConcat(a: seq<Models.Booking>, b: seq<Models.Booking>, id: string)
    ensures ForCustomer(a + b, id) == ForCustomer(a, id) + ForCustomer(b, id)
  {
    if b != [] {
      var b' := b[..|b| - 1];
      assert (a + b)[..|a + b| - 1] == a + b';
      assert (a + b)[|a + b| - 1] == b[|b| - 1];
      ForCustomerConcat(a, b', id);
    } else {
      assert a + b == a;
    }
  }

  /**
   * The driver filter keeps exactly the bookings of that driver that are
   * not cancelled, in table order.
   */
  lemma {:induction false} ForDriverMeans(a: seq<Models.Booking>, b: seq<Models.Booking>, id: string)
    ensures ForDriver(a + b, id) == ForDriver(a, id) + ForDriver(b, id)
    ensures forall x :: ForDriver([x], id) == if x.driverId == id && x.status != "Cancelled" then [x] else []
  {
    ForDriverConcat(a, b, id);
    forall x ensures ForDriver([x], id) == if x.driverId == id && x.status != "Cancelled" then [x] else [] {
      assert [x][..0] == [];
    }
  }

  lemma {:induction false} ForDriverConcat(a: seq<Models.Booking>, b: seq<Models.Booking>, id: string)
    ensures ForDriver(a + b, id) == ForDriver(a, id) + ForDriver(b, id)
  {
    if b != [] {
      var b' := b[..|b| - 1];
      assert (a + b)[..|a + b| - 1] == a + b';
      assert (a + b)[|a + b| - 1] == b[|b| - 1];
      ForDriverConcat(a, b', id);
    } else {
      assert a + b == a;
    }
  }

  /** The table with every booking of `nb`'s id replaced by `nb`. */
  function Replace(bs: seq<Models.Booking>, nb: Models.Booking): (r: seq<Models.Booking>)
    ensures |r| == |bs|
    ensures forall i :: 0 <= i < |bs| ==> r[i] == if bs[i].bookingId == nb.bookingId then nb else bs[i]
  {
    if bs == [] then []
    else
      var b := bs[|bs| - 1];
      Replace(bs[..|bs| - 1], nb) + [if b.bookingId == nb.bookingId then nb else b]
  }

  /** The lines `write` gives for each record in turn. */
  function Written<T>(rs: seq<T>, write: T -> string): (ls: seq<string>)
    ensures |ls| == |rs|
    ensures forall i :: 0 <= i < |rs| ==> ls[i] == write(rs[i])
  {
    if rs == [] then [] else Written(rs[..|rs| - 1], write) + [write(rs[|rs| - 1])]
  }

  /** A line that ends with its line break; only a file's last line may lack one. */
  predicate Terminated(line: string)
  {
    |line| > 0 && line[|line| - 1] == '\n'
  }

  /** The text of a file: its lines one after the other. */
  function Content(lines: seq<string>): string
  {
    if lines == [] then [] else Content(lines[..|lines| - 1]) + lines[|lines| - 1]
  }

  /**
   * The lines of a file after `f.write(text)` in append mode, `text` being
   * one record's line with its break: the text goes straight after the last
   * character, so a last line without a break runs on into it.
   */
  function Appended(lines: seq<string>, text: string): (r: seq<string>)
    ensures |lines| > 0 && !Terminated(lines[|lines| - 1])
            ==> |r| == |lines| && r[..|r| - 1] == lines[..|lines| - 1]
    ensures lines == [] || Terminated(lines[|lines| - 1]) ==> r == lines + [text]
  {
    if |lines| > 0 && !Terminated(lines[|lines| - 1])
    then lines[..|lines| - 1] + [lines[|lines| - 1] + text]
    else lines + [text]
  }

  /** Appending adds exactly `text` at the end of the file's text, whichever way it is split into lines. */
  lemma AppendedContent(lines: seq<string>, text: string)
    ensures Content(Appended(lines, text)) == Content(lines) + text
  {
    var r := Appended(lines, text);
    if |lines| > 0 && !Terminated(lines[|lines| - 1]) {
      var init, last := lines[..|lines| - 1], lines[|lines| - 1];
      assert r[..|r| - 1] == init && r[|r| - 1] == last + text;
      assert Content(r) == Content(init) + (last + text);
    } else {
      assert r[..|r| - 1] == lines;
    }
  }

  /**
   * After a last line without a break, an appended line is not read as a
   * line of its own: the reader sees the earlier lines and then one line
   * made of both, so it gets no more records than the file had lines.
   */
  lemma AppendedRunsOn<T>(lines: seq<string>, text: string, parse: string -> Option<T>)
    requires |lines| > 0 && !Terminated(lines[|lines| - 1])
    ensures Parsed(Appended(lines, text), parse)
            == Parsed(lines[..|lines| - 1], parse) + Parsed([lines[|lines| - 1] + text], parse)
    ensures |Parsed(Appended(lines, text), parse)| <= |lines|
  {
    var init, last := lines[..|lines| - 1], lines[|lines| - 1];
    assert Appended(lines, text) == init + [last + text];
    ParsedConcat(init, [last + text], parse);
  }

  /** `b.to_string() + "\n"`, the line written for a booking. */
  function BookingLine(b: Models.Booking): string
  {
    b.ToString() + "\n"
  }

  /** The lines `f.write(b.to_string() + "\n")` writes for each booking in turn. */
  function Lines(bs: seq<Models.Booking>): (ls: seq<string>)
    ensures |ls| == |bs|
    ensures forall i :: 0 <= i < |bs| ==> ls[i] == bs[i].ToString() + "\n"
  {
    Written(bs, BookingLine)
  }

  /** The lines `update_booking` writes, built as its loop builds them. */
  function Rewritten(bs: seq<Models.Booking>, nb: Models.Booking): seq<string>
  {
    if bs == [] then []
    else
      var b := bs[|bs| - 1];
      Rewritten(bs[..|bs| - 1], nb) + [(if b.bookingId == nb.bookingId then nb else b).ToString() + "\n"]
  }

  lemma {:induction false} RewrittenLines(bs: seq<Models.Booking>, nb: Models.Booking)
    ensures Rewritten(bs, nb) == Lines(Replace(bs, nb))
  {
    if bs != [] {
      var init := bs[..|bs| - 1];
      RewrittenLines(init, nb);
      var r := Replace(bs, nb);
      assert r[..|r| - 1] == Replace(init, nb);
    }
  }

  /** A booking that its own written line reads back as. */
  predicate Rereads(b: Models.Booking)
  {
    Models.Booking.FromString(b.ToString() + "\n") == Some(b)
  }

  /** A written line that reads back as its record is never blank. */
  lemma NotBlank(line: string)
    requires |Models.Parts(line)| >= 2
    ensures Text.Strip(line) != []
  {
    assert |Text.Split([])| == 1;
  }

  /** Writing bookings that reread and reading the file back gives the same bookings. */
  lemma ReadLines(bs: seq<Models.Booking>)
    requires forall i :: 0 <= i < |bs| ==> Rereads(bs[i])
    ensures Parsed(Lines(bs), Models.Booking.FromString) == bs
  {
    forall i | 0 <= i < |bs|
      ensures Text.Strip(BookingLine(bs[i])) != [] && Models.Booking.FromString(BookingLine(bs[i])) == Some(bs[i])
    {
      RereadLine(bs[i]);
    }
    ReadWritten(bs, BookingLine, Models.Booking.FromString);
  }

  /** Records each written to a line that is not blank and parses back are read back in order. */
  lemma {:induction false} ReadWritten<T>(rs: seq<T>, write: T -> string, parse: string -> Option<T>)
    requires forall i :: 0 <= i < |rs| ==> Text.Strip(write(rs[i])) != [] && parse(write(rs[i])) == Some(rs[i])
    ensures Parsed(Written(rs, write), parse) == rs
  {
    if rs != [] {
      var init, last := rs[..|rs| - 1], rs[|rs| - 1];
      var w := Written(init, write);
      assert Written(rs, write) == w + [write(last)];
      assert forall i :: 0 <= i < |init| ==> init[i] == rs[i];
      ReadWritten(init, write, parse);
      assert Text.Strip(write(last)) != [] && parse(write(last)) == Some(last);
      ParsedSnoc(w, write(last), parse);
      LastSplit(rs);
    }
  }

  lemma LastSplit<T>(s: seq<T>)
    requires s != []
    ensures s[..|s| - 1] + [s[|s| - 1]] == s
  {
  }

  /** Reading one more line. */
  lemma ParsedSnoc<T>(lines: seq<string>, line: string, parse: string -> Option<T>)
    ensures Parsed(lines + [line], parse)
            == Parsed(lines, parse) + (if Text.Strip(line) != [] && parse(line).Some? then [parse(line).value] else [])
  {
    assert (lines + [line])[..|lines|] == lines;
  }

  /** The written line of a booking that rereads is not blank and reads as the booking. */
  lemma RereadLine(b: Models.Booking)
    requires Rereads(b)
    ensures Text.Strip(b.ToString() + "\n") != []
    ensures Models.Booking.FromString(b.ToString() + "\n") == Some(b)
  {
    NotBlank(b.ToString() + "\n");
  }

  /** Every booking read from a table whose driver fields end cleanly rereads from its written line. */
  lemma TableRereads(lines: seq<string>)
    requires forall i :: 0 <= i < |Parsed(lines, Models.Booking.FromString)|
               ==> Models.CleanTail(Parsed(lines, Models.Booking.FromString)[i].Fields())
    ensures forall i :: 0 <= i < |Parsed(lines, Models.Booking.FromString)|
              ==> Rereads(Parsed(lines, Models.Booking.FromString)[i])
  {
    var bs := Parsed(lines, Models.Booking.FromString);
    forall i | 0 <= i < |bs|
      ensures Rereads(bs[i])
    {
      var j := ParsedOrigin(lines, Models.Booking.FromString, i);
      Models.BookingReread(lines[j], bs[i]);
    }
  }

  /** The record table after an update, as a reader sees it. */
  lemma UpdateReread(bs: seq<Models.Booking>, nb: Models.Booking)
    requires forall i :: 0 <= i < |bs| ==> Rereads(bs[i])
    requires Rereads(nb)
    ensures Parsed(Lines(Replace(bs, nb)), Models.Booking.FromString) == Replace(bs, nb)
  {
    var r := Replace(bs, nb);
    forall i | 0 <= i < |r|
      ensures Rereads(r[i])
    {
      assert r[i] == bs[i] || r[i] == nb;
    }
    ReadLines(r);
  }

  /** After an update that found its id, looking the id up gives the new booking. */
  lemma UpdateVisible(bs: seq<Models.Booking>, nb: Models.Booking)
    requires exists i :: 0 <= i < |bs| && bs[i].bookingId == nb.bookingId
    ensures FirstWith(Replace(bs, nb), BookingId, nb.bookingId) == Some(nb)
  {
    var r := Replace(bs, nb);
    var i := FirstIndex(r, nb.bookingId);
    FirstWithMeans(r, BookingId, nb.bookingId);
    assert FirstAt(r, BookingId, nb.bookingId, i);
  }

  lemma {:induction false} FirstIndex(bs: seq<Models.Booking>, id: string) returns (i: int)
    requires exists k :: 0 <= k < |bs| && bs[k].bookingId == id
    ensures 0 <= i < |bs| && bs[i].bookingId == id
    ensures forall j :: 0 <= j < i ==> bs[j].bookingId != id
  {
    if bs[0].bookingId == id {
      i := 0;
    } else {
      var k :| 0 <= k < |bs| && bs[k].bookingId == id;
      assert bs[1..][k - 1].bookingId == id;
      var i' := FirstIndex(bs[1..], id);
      i := i' + 1;
      assert forall j :: 1 <= j < i ==> bs[j] == bs[1..][j - 1];
    }
  }

  /** Digits after a one-letter prefix, as `int(c.user_id[1:])` reads them. */
  predicate NumberedId(id: string)
  {
    |id| >= 2 && Text.AllDigits(id[1..])
  }

  function Suffix(id: string): nat
    requires NumberedId(id)
  {
    Text.Value(id[1..])
  }

  /** `max(int(id[1:]) for id in ids)`. */
  function MaxSuffix(ids: seq<string>): (n: nat)
    requires ids != [] && forall i :: 0 <= i < |ids| ==> NumberedId(ids[i])
    ensures forall i :: 0 <= i < |ids| ==> Suffix(ids[i]) <= n
    ensures exists i :: 0 <= i < |ids| && Suffix(ids[i]) == n
  {
    var last := Suffix(ids[|ids| - 1]);
    if |ids| == 1 then last
    else
      var m := MaxSuffix(ids[..|ids| - 1]);
      if m >= last then m else last
  }

  /** `get_next_*_id`: the prefix and one more than the largest number, at least three digits. */
  function NextId(prefix: char, ids: seq<string>): string
    requires forall i :: 0 <= i < |ids| ==> NumberedId(ids[i])
  {
    if ids == [] then [prefix] + "001"
    else [prefix] + Text.ZFill(Text.NatToString(MaxSuffix(ids) + 1), 3)
  }

  /**
   * The new id is numbered, carries the prefix, has at least three digits,
   * and its number is 1 for an empty table and one more than the largest
   * number otherwise; so it differs from every id in the table.
   */
  lemma NextIdFresh(prefix: char, ids: seq<string>)
    requires forall i :: 0 <= i < |ids| ==> NumberedId(ids[i])
    ensures var id := NextId(prefix, ids);
            NumberedId(id) && id[0] == prefix && |id| >= 4
            && Suffix(id) == (if ids == [] then 1 else MaxSuffix(ids) + 1)
            && forall i :: 0 <= i < |ids| ==> Suffix(ids[i]) < Suffix(id) && ids[i] != id
  {
    var id := NextId(prefix, ids);
    if ids == [] {
      assert id[1..] == "001";
      FirstNumber();
    } else {
      var s := Text.NatToString(MaxSuffix(ids) + 1);
      assert id[1..] == Text.ZFill(s, 3);
      ZFillValue(s);
    }
  }

  lemma FirstNumber()
    ensures Text.AllDigits("001") && Text.Value("001") == 1
  {
    assert "001"[..2] == "00";
    Text.ValueOfTwo("00");
  }

  /** Padding a number's digits to three places keeps its value. */
  lemma ZFillValue(s: string)
    requires Text.AllDigits(s)
    ensures Text.AllDigits(Text.ZFill(s, 3)) && Text.Value(Text.ZFill(s, 3)) == Text.Value(s)
  {
    if |s| < 3 {
      Text.LeadingZeros(s, 3 - |s|);
    }
  }

  /** The id after C001 is C002. */
  lemma NextIdFixture()
    ensures NextId('C', ["C001"]) == "C002"
  {
    var ids := ["C001"];
    assert ids[0][1..] == "001";
    FirstNumber();
    assert MaxSuffix(ids) == 1;
    assert Text.NatToString(2) == "2";
    assert Text.ZFill("2", 3) == "002";
  }

  function CustomerIds(cs: seq<Models.Customer>): (ids: seq<string>)
    ensures |ids| == |cs| && forall i :: 0 <= i < |cs| ==> ids[i] == cs[i].userId
  {
    if cs == [] then [] else CustomerIds(cs[..|cs| - 1]) + [cs[|cs| - 1].userId]
  }

  function BookingIds(bs: seq<Models.Booking>): (ids: seq<string>)
    ensures |ids| == |bs| && forall i :: 0 <= i < |bs| ==> ids[i] == bs[i].bookingId
  {
    if bs == [] then [] else BookingIds(bs[..|bs| - 1]) + [bs[|bs| - 1].bookingId]
  }

  /**
   * What `check_driver_availability` answers: true when the request's date
   * and time do not parse, and otherwise whether no booking of the driver
   * keeps it busy then.
   */
  predicate DriverFree(bs: seq<Models.Booking>, id: string, date: string, time: string)
  {
    match DateTime.ParseDateTime(date, time)
    case None => true
    case Some(t) => Assignment.Available(t, ForDriver(bs, id))
  }

  /** The lines written to a new drivers file. */
  const DefaultDrivers: seq<string> := [
    "D001|driver1|pass123|John Driver|555-0101|DL001\n",
    "D002|driver2|pass123|Jane Driver|555-0102|DL002\n",
    "D003|driver3|pass123|Bob Driver|555-0103|DL003\n"]

  /** The line written to a new administrators file. */
  const DefaultAdmins: seq<string> := ["A001|admin|admin123|System Administrator\n"]

  /**
   * The loop of `update_booking`: the line of `nb` for every booking of its
   * id, the booking's own line for every other; true iff there was one.
   */
  method Rewrite(all: seq<Models.Booking>, nb: Models.Booking) returns (written: seq<string>, updated: bool)
    ensures written == Lines(Replace(all, nb))
    ensures updated <==> exists i :: 0 <= i < |all| && all[i].bookingId == nb.bookingId
  {
    updated := false;
    written := [];
    for i := 0 to |all|
      invariant written == Rewritten(all[..i], nb)
      invariant updated <==> exists k :: 0 <= k < i && all[k].bookingId == nb.bookingId
    {
      assert all[..i + 1][..i] == all[..i];
      if all[i].bookingId == nb.bookingId {
        written := written + [nb.ToString() + "\n"];
        updated := true;
      } else {
        written := written + [all[i].ToString() + "\n"];
      }
    }
    assert all[..|all|] == all;
    RewrittenLines(all, nb);
  }

  /** The availability rule read through `get_datetime`. */
  lemma BlocksByStamp(b: Models.Booking, t: int)
    ensures Assignment.Blocks(b, t)
            <==> b.status != "Cancelled" && b.GetDateTime().Some?
                 && -Assignment.WindowMinutes < t - DateTime.Minutes(b.GetDateTime().value) < Assignment.WindowMinutes
  {
    Models.BookingMinutes(b);
  }

  /**
   * The loop of `check_driver_availability` over bookings that are not
   * cancelled: false at the first one whose date and time parse and lie
   * strictly less than two hours from minute `t`.
   */
  method NoConflict(t: int, bs: seq<Models.Booking>) returns (free: bool)
    requires forall i :: 0 <= i < |bs| ==> bs[i].status != "Cancelled"
    ensures free <==> Assignment.Available(t, bs)
  {
    for i := 0 to |bs|
      invariant Assignment.Available(t, bs[..i])
    {
      var existing := bs[i].GetDateTime();
      BlocksByStamp(bs[i], t);
      if existing.Some? {
        var diff := t - DateTime.Minutes(existing.value);
        if -Assignment.WindowMinutes < diff < Assignment.WindowMinutes {
          Assignment.AvailableMeans(t, bs);
          return false;
        }
      }
      assert bs[..i + 1][..i] == bs[..i];
    }
    assert bs[..|bs|] == bs;
    return true;
  }

  class DataManager {
    /** The lines of customers.txt, drivers.txt, administrators.txt and bookings.txt. */
    var customers: seq<string>
    var drivers: seq<string>
    var admins: seq<string>
    var bookings: seq<string>

    /**
     * Opens the four files; a file that does not exist (`None`) is created,
     * empty or with the default drivers or administrator.
     */
    constructor (customersFile: Option<seq<string>>, driversFile: Option<seq<string>>,
                 adminsFile: Option<seq<string>>, bookingsFile: Option<seq<string>>)
      ensures customers == if customersFile.Some? then customersFile.value else []
      ensures drivers == if driversFile.Some? then driversFile.value else DefaultDrivers
      ensures admins == if adminsFile.Some? then adminsFile.value else DefaultAdmins
      ensures bookings == if bookingsFile.Some? then bookingsFile.value else []
    {
      customers := if customersFile.Some? then customersFile.value else [];
      drivers := if driversFile.Some? then driversFile.value else DefaultDrivers;
      admins := if adminsFile.Some? then adminsFile.value else DefaultAdmins;
      bookings := if bookingsFile.Some? then bookingsFile.value else [];
    }

    function Customers(): seq<Models.Customer>
      reads this
    {
      Parsed(customers, Models.Customer.FromString)
    }

    function Drivers(): seq<Models.Driver>
      reads this
    {
      Parsed(drivers, Models.Driver.FromString)
    }

    function Admins(): seq<Models.Administrator>
      reads this
    {
      Parsed(admins, Models.Administrator.FromString)
    }

    function Bookings(): seq<Models.Booking>
      reads this
    {
      Parsed(bookings, Models.Booking.FromString)
    }

    /** `save_customer`: appends the customer's line to the file. */
    method SaveCustomer(c: Models.Customer) returns (ok: bool)
      modifies this
      ensures ok
      ensures customers == Appended(old(customers), c.ToString() + "\n")
      ensures drivers == old(drivers) && admins == old(admins) && bookings == old(bookings)
    {
      customers := Appended(customers, c.ToString() + "\n");
      ok := true;
    }

    method GetAllCustomers() returns (cs: seq<Models.Customer>)
      ensures cs == Customers()
    {
      cs := ReadTable(customers, Models.Customer.FromString);
    }

    method GetCustomerByUsername(username: string) returns (c: Option<Models.Customer>)
      ensures c == FirstWith(Customers(), CustomerUsername, username)
    {
      var all := GetAllCustomers();
      c := FindFirst(all, CustomerUsername, username);
    }

    method GetCustomerById(id: string) returns (c: Option<Models.Customer>)
      ensures c == FirstWith(Customers(), CustomerId, id)
    {
      var all := GetAllCustomers();
      c := FindFirst(all, CustomerId, id);
    }

    method GetNextCustomerId() returns (id: string)
      requires forall i :: 0 <= i < |Customers()| ==> NumberedId(Customers()[i].userId)
      ensures id == NextId('C', CustomerIds(Customers()))
    {
      var all := GetAllCustomers();
      id := NextId('C', CustomerIds(all));
    }

    method GetAllDrivers() returns (ds: seq<Models.Driver>)
      ensures ds == Drivers()
    {
      ds := ReadTable(drivers, Models.Driver.FromString);
    }

    method GetDriverByUsername(username: string) returns (d: Option<Models.Driver>)
      ensures d == FirstWith(Drivers(), DriverUsername, username)
    {
      var all := GetAllDrivers();
      d := FindFirst(all, DriverUsername, username);
    }

    method GetDriverById(id: string) returns (d: Option<Models.Driver>)
      ensures d == FirstWith(Drivers(), DriverId, id)
    {
      var all := GetAllDrivers();
      d := FindFirst(all, DriverId, id);
    }

    method GetAllAdmins() returns (as_: seq<Models.Administrator>)
      ensures as_ == Admins()
    {
      as_ := ReadTable(admins, Models.Administrator.FromString);
    }

    method GetAdminByUsername(username: string) returns (a: Option<Models.Administrator>)
      ensures a == FirstWith(Admins(), AdminUsername, username)
    {
      var all := GetAllAdmins();
      a := FindFirst(all, AdminUsername, username);
    }

    /** `save_booking`: appends the booking's line to the file. */
    method SaveBooking(b: Models.Booking) returns (ok: bool)
      modifies this
      ensures ok
      ensures bookings == Appended(old(bookings), b.ToString() + "\n")
      ensures customers == old(customers) && drivers == old(drivers) && admins == old(admins)
    {
      bookings := Appended(bookings, b.ToString() + "\n");
      ok := true;
    }

    method GetAllBookings() returns (bs: seq<Models.Booking>)
      ensures bs == Bookings()
    {
      bs := ReadTable(bookings, Models.Booking.FromString);
    }

    method GetBookingsByCustomer(id: string) returns (bs: seq<Models.Booking>)
      ensures bs == ForCustomer(Bookings(), id)
    {
      var all := GetAllBookings();
      bs := ForCustomer(all, id);
    }

    method GetBookingsByDriver(id: string) returns (bs: seq<Models.Booking>)
      ensures bs == ForDriver(Bookings(), id)
    {
      var all := GetAllBookings();
      bs := ForDriver(all, id);
    }

    method GetBookingById(id: string) returns (b: Option<Models.Booking>)
      ensures b == FirstWith(Bookings(), BookingId, id)
    {
      var all := GetAllBookings();
      b := FindFirst(all, BookingId, id);
    }

    /**
     * `update_booking`: rewrites the file from the bookings read, with
     * every booking of `booking`'s id replaced; true iff there was one.
     * Lines that did not parse are not written again.
     */
    method UpdateBooking(booking: Models.Booking) returns (updated: bool)
      modifies this
      ensures updated <==> exists i :: 0 <= i < |old(Bookings())| && old(Bookings())[i].bookingId == booking.bookingId
      ensures bookings == Lines(Replace(old(Bookings()), booking))
      ensures customers == old(customers) && drivers == old(drivers) && admins == old(admins)
    {
      var all := GetAllBookings();
      var written;
      written, updated := Rewrite(all, booking);
      bookings := written;
    }

    method GetNextBookingId() returns (id: string)
      requires forall i :: 0 <= i < |Bookings()| ==> NumberedId(Bookings()[i].bookingId)
      ensures id == NextId('B', BookingIds(Bookings()))
    {
      var all := GetAllBookings();
      id := NextId('B', BookingIds(all));
    }

    /**
     * `check_driver_availability`: scans the driver's bookings that are not
     * cancelled for one less than two hours from the request; answers true
     * when the request's date and time do not parse.
     */
    method CheckDriverAvailability(id: string, date: string, time: string) returns (free: bool)
      ensures free == DriverFree(Bookings(), id, date, time)
    {
      var driverBookings := GetBookingsByDriver(id);
      var request := DateTime.ParseDateTime(date, time);
      if request.None? {
        return true;
      }
      free := NoConflict(request.value, driverBookings);
    }
  }

  /**
   * A saved customer with clean fields is the last customer a reader gets,
   * when the file's last line ended with its break (as every line the store
   * writes does).
   */
  lemma SavedCustomerRead(lines: seq<string>, c: Models.Customer)
    requires Text.NoPipes(c.Fields()) && Text.CleanEdges(c.Fields())
    requires lines == [] || Terminated(lines[|lines| - 1])
    ensures Parsed(Appended(lines, c.ToString() + "\n"), Models.Customer.FromString)
            == Parsed(lines, Models.Customer.FromString) + [c]
  {
    var line := c.ToString() + "\n";
    Models.CustomerRoundTrip(c);
    Models.PartsOfJoin(c.Fields());
    NotBlank(line);
    ParsedKeeps(lines, line, [], Models.Customer.FromString);
    assert lines + [line] + [] == lines + [line];
  }

  /**
   * A saved booking with clean fields is the last booking a reader gets,
   * when the file's last line ended with its break.
   */
  lemma SavedBookingRead(lines: seq<string>, b: Models.Booking)
    requires Text.NoPipes(b.Fields()) && Text.CleanEdges(b.Fields())
    requires lines == [] || Terminated(lines[|lines| - 1])
    ensures Parsed(Appended(lines, b.ToString() + "\n"), Models.Booking.FromString)
            == Parsed(lines, Models.Booking.FromString) + [b]
  {
    var line := b.ToString() + "\n";
    Models.BookingRoundTrip(b);
    Models.PartsOfJoin(b.Fields());
    NotBlank(line);
    ParsedKeeps(lines, line, [], Models.Booking.FromString);
    assert lines + [line] + [] == lines + [line];
  }

  /** Once the request parses, the store's check is the engine's availability rule. */
  lemma DriverFreeAgrees(bs: seq<Models.Booking>, id: string, date: string, time: string, t: int)
    requires DateTime.ParseDateTime(date, time) == Some(t)
    ensures DriverFree(bs, id, date, time)
            <==> forall b :: b in ForDriver(bs, id) ==> !Assignment.Blocks(b, t)
  {
    Assignment.AvailableMeans(t, ForDriver(bs, id));
  }

  /**
   * A driver booked at 14:00 is busy for a request at 14:30 that day, and a
   * driver without bookings is free at 14:00.  The day is 2024-12-20.
   */
  lemma CheckAvailabilityFixture(date: string, at1400: string, at1430: string)
    requires date == "2024-12-20" && at1400 == "14:00" && at1430 == "14:30"
    ensures var bs := [Models.Booking("B001", "C001", "Location A", "Location B", date, at1400, "Assigned", "D001")];
            DriverFree(bs, "D002", date, at1400) && !DriverFree(bs, "D001", date, at1430)
  {
    var e := DateTime.StoreTestTimes(date, at1400, at1430);
    var b := Models.Booking("B001", "C001", "Location A", "Location B", date, at1400, "Assigned", "D001");
    ForDriverMeans([], [b], "D001");
    ForDriverMeans([], [b], "D002");
    assert [] + [b] == [b];
    assert ForDriver([b], "D002") == [];
    assert ForDriver([b], "D001") == [b];
    Assignment.BlocksAt(b, e);
    Assignment.Busy(b, e + 30);
  }

  /**
   * On a request whose date or time does not parse the store answers that
   * every driver is free, while the engine finds no driver and recommends
   * none.
   */
  lemma UnparseableContrast(bs: seq<Models.Booking>, id: string, r: Assignment.Request,
                            drivers: seq<Assignment.Candidate>, m: Assignment.BookingMap,
                            distance: Assignment.Distance, topN: int)
    requires Assignment.RequestTime(r).None?
    ensures DriverFree(bs, id, r.booking.bookingDate, r.booking.bookingTime)
    ensures Assignment.BestDriver(drivers, r, m, distance).None?
    ensures Assignment.Recommendations(r, drivers, m, distance, topN) == []
  {
  }
}
