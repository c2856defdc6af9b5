/** dashboard.php: the signed-in technician's tickets, latest first, each
    left-joined with its device and with its feedback, whose status it shows
    ("Pending" when there is none) in a colour looked up from a fixed map.
    The page only reads the tables. */
module DashboardPage {
  import opened Php
  import opened Query
  import opened Schema
  import opened Web
  import opened Storage

  /** One row of the listing query (lines 14-30). The device columns are
      None when the left join finds no device. */
  datatype Row = Row(ticketId: int, reportedBy: string, issue: string, date: Date,
                     serial: Option<string>, model: Option<string>, location: Option<string>,
                     os: Option<string>, status: string)

  datatype View = View(greeting: string, rows: seq<Row>)

  const NoFeedbackStatus := "Pending"

  /** One joined row: the ticket's columns, its device's (if any), and a
      status. */
  function MakeRow(t: Ticket, d: Option<Device>, status: string): Row {
    match d
    case None => Row(t.id, t.reportedBy, t.issue, t.date, None, None, None, None, status)
    case Some(dev) => Row(t.id, t.reportedBy, t.issue, t.date, Some(dev.serial), Some(dev.model),
                          Some(dev.location), Some(dev.os), status)
  }

  /** The device columns of a row hold device d's values, or are all NULL
      when the left join found no device (line 26). */
  predicate DeviceColumns(row: Row, d: Option<Device>) {
    match d
    case None => row.serial.None? && row.model.None? && row.location.None? && row.os.None?
    case Some(dev) => && row.serial == Some(dev.serial) && row.model == Some(dev.model)
                      && row.location == Some(dev.location) && row.os == Some(dev.os)
  }

  /** Lines 15-27: one row per feedback row of the ticket, with its status,
      or a single "Pending" row when there is none (`COALESCE`); every row
      carries the ticket's columns and its device's. */
  function RowsOf(db: Db, t: Ticket): (r: seq<Row>)
    ensures r != []
    ensures forall k :: 0 <= k < |r| ==>
              r[k].ticketId == t.id && r[k].reportedBy == t.reportedBy && r[k].issue == t.issue && r[k].date == t.date
    ensures forall k :: 0 <= k < |r| ==> DeviceColumns(r[k], db.DeviceById(t.deviceId))
    ensures !db.HasFeedback(t.id) ==> r == [r[0]] && r[0].status == NoFeedbackStatus
    ensures forall k :: 0 <= k < |r| && db.HasFeedback(t.id) ==>
              exists i :: 0 <= i < |db.feedback| && db.feedback[i].ticketId == t.id && db.feedback[i].status == r[k].status
  {
    var d := db.DeviceById(t.deviceId);
    var fs := Filter(db.feedback, (f: Feedback) => f.ticketId == t.id);
    if fs == [] then [MakeRow(t, d, NoFeedbackStatus)]
    else
      var r := seq(|fs|, k requires 0 <= k < |fs| => MakeRow(t, d, fs[k].status));
      assert forall k :: 0 <= k < |r| ==> fs[k] in db.feedback && r[k].status == fs[k].status;
      r
  }

  /** The joined rows of the given tickets, ticket by ticket. */
  function Joined(db: Db, ts: seq<Ticket>): (r: seq<Row>)
    ensures |r| >= |ts|
    ensures r == [] <==> ts == []
  {
    if ts == [] then [] else RowsOf(db, ts[0]) + Joined(db, ts[1..])
  }

  /** The technician's tickets: `WHERE ti.id_technician_assignment = ?`. */
  function AssignedTo(db: Db, technicianId: int): (r: seq<Ticket>)
    ensures forall k :: 0 <= k < |r| ==> r[k] in db.tickets && r[k].technicianId == technicianId
    ensures forall i :: 0 <= i < |db.tickets| && db.tickets[i].technicianId == technicianId ==> db.tickets[i] in r
  {
    Filter(db.tickets, (t: Ticket) => t.technicianId == technicianId)
  }

  /** The listing query, ordered by ticket date, latest first. */
  function Listing(db: Db, technicianId: int): (r: seq<Row>)
    ensures SortedDesc(r, (row: Row) => row.date)
    ensures multiset(r) == multiset(Joined(db, AssignedTo(db, technicianId)))
    ensures r == [] <==> AssignedTo(db, technicianId) == []
    ensures db.FeedbackAtMostOnce() ==> |r| == |AssignedTo(db, technicianId)|
  {
    var ts := AssignedTo(db, technicianId);
    var r := SortDesc(Joined(db, ts), (row: Row) => row.date);
    assert db.FeedbackAtMostOnce() ==> |r| == |ts| by {
      if db.FeedbackAtMostOnce() {
        JoinedLength(db, ts);
        assert |r| == |multiset(r)| == |multiset(Joined(db, ts))|;
      }
    }
    r
  }

  function Page(db: Db, session: Session): (r: Outcome<View>)
    ensures session.technicianId.None? <==> r == Redirect(ToIndex)
    ensures r.Render? ==> r.errors == [] && SortedDesc(r.view.rows, (row: Row) => row.date)
  {
    if session.technicianId.None? then Redirect(ToIndex)
    else Render([], View(session.technicianName.GetOr("Technician"), Listing(db, session.technicianId.value)))
  }

  /** The handler: the listing query, fetched row by row. */
  method Handle(store: Store, session: Session) returns (out: Outcome<View>)
    ensures out == Page(store.Snapshot(), session)
  {
    if session.technicianId.None? {
      return Redirect(ToIndex);
    }
    var tickets := FetchAll(Listing(store.Snapshot(), session.technicianId.value));
    out := Render([], View(session.technicianName.GetOr("Technician"), tickets));
  }

  // ---------------------------------------------------------------------
  // Display

  /** Lines 107-108: a missing device column is shown as "N/A". */
  function Shown(column: Option<string>): (s: string)
    ensures column.Some? ==> s == column.value
    ensures column.None? ==> s == "N/A"
  {
    column.GetOr("N/A")
  }

  /** Lines 107-108 on a listed row: the model and serial of a ticket whose
      device is missing are shown as "N/A", and those of an existing device
      as that device's own. */
  lemma DeviceShown(db: Db, t: Ticket, k: int)
    requires 0 <= k < |RowsOf(db, t)|
    ensures var row := RowsOf(db, t)[k];
      if db.DeviceById(t.deviceId).None? then Shown(row.model) == "N/A" && Shown(row.serial) == "N/A"
      else
        Shown(row.model) == db.DeviceById(t.deviceId).value.model
        && Shown(row.serial) == db.DeviceById(t.deviceId).value.serial
  {
  }

  /** Lines 115-122: the status badge colours, with a default for any other
      status. */
  function StatusColor(status: string): (c: string)
    ensures c in {"bg-yellow-100 text-yellow-800", "bg-blue-100 text-blue-800",
                  "bg-emerald-100 text-emerald-800", "bg-slate-100 text-slate-800"}
    ensures c == "bg-slate-100 text-slate-800" <==> status !in {"Pending", "In Progress", "Completed", "Finished"}
  {
    if status == "Pending" then "bg-yellow-100 text-yellow-800"
    else if status == "In Progress" then "bg-blue-100 text-blue-800"
    else if status == "Completed" || status == "Finished" then "bg-emerald-100 text-emerald-800"
    else "bg-slate-100 text-slate-800"
  }

  /** The four known statuses get their colours; every other one, such as
      "Resolved", gets the neutral default, and "Completed" and "Finished"
      look alike. */
  lemma StatusColors(status: string)
    ensures StatusColor("Pending") == "bg-yellow-100 text-yellow-800"
    ensures StatusColor("In Progress") == "bg-blue-100 text-blue-800"
    ensures StatusColor("Completed") == StatusColor("Finished") == "bg-emerald-100 text-emerald-800"
    ensures StatusColor("Resolved") == "bg-slate-100 text-slate-800"
    ensures status !in {"Pending", "In Progress", "Completed", "Finished"} ==>
              StatusColor(status) == "bg-slate-100 text-slate-800"
  {
    assert "Resolved" != "Pending" && "Resolved" != "In Progress";
    assert "Resolved" != "Completed" && "Resolved" != "Finished";
  }

  // ---------------------------------------------------------------------
  // Properties of the listing

  /** Every joined row comes from one of the tickets, j-th, and shows its
      date. */
  lemma {:induction false} JoinedRowFrom(db: Db, ts: seq<Ticket>, k: int) returns (j: int)
    requires 0 <= k < |Joined(db, ts)|
    ensures 0 <= j < |ts| && Joined(db, ts)[k].ticketId == ts[j].id && Joined(db, ts)[k].date == ts[j].date
  {
    var head, tail := RowsOf(db, ts[0]), Joined(db, ts[1..]);
    assert Joined(db, ts) == head + tail;
    if k < |head| {
      j := 0;
    } else {
      var j' := JoinedRowFrom(db, ts[1..], k - |head|);
      j := j' + 1;
    }
  }

  /** Every ticket has a joined row, the k-th. */
  lemma {:induction false} JoinedCovers(db: Db, ts: seq<Ticket>, j: int) returns (k: int)
    requires 0 <= j < |ts|
    ensures 0 <= k < |Joined(db, ts)| && Joined(db, ts)[k].ticketId == ts[j].id
  {
    var head, tail := RowsOf(db, ts[0]), Joined(db, ts[1..]);
    assert Joined(db, ts) == head + tail;
    if j == 0 {
      k := 0;
    } else {
      var k' := JoinedCovers(db, ts[1..], j - 1);
      k := |head| + k';
    }
  }

  /** The k-th listed row is the m-th joined row. */
  lemma ListedRowIsJoined(db: Db, technicianId: int, k: int) returns (m: int)
    requires 0 <= k < |Listing(db, technicianId)|
    ensures 0 <= m < |Joined(db, AssignedTo(db, technicianId))|
    ensures Joined(db, AssignedTo(db, technicianId))[m] == Listing(db, technicianId)[k]
  {
    m := IndexOfSame(Listing(db, technicianId), Joined(db, AssignedTo(db, technicianId)), k);
  }

  /** The k-th listed row is the technician's ticket db.tickets[i], and
      shows its date. */
  lemma ListedRowOwned(db: Db, technicianId: int, k: int) returns (i: int)
    requires 0 <= k < |Listing(db, technicianId)|
    ensures 0 <= i < |db.tickets| && db.tickets[i].id == Listing(db, technicianId)[k].ticketId
    ensures db.tickets[i].technicianId == technicianId && db.tickets[i].date == Listing(db, technicianId)[k].date
  {
    var ts := AssignedTo(db, technicianId);
    var m := ListedRowIsJoined(db, technicianId, k);
    var j := JoinedRowFrom(db, ts, m);
    assert ts[j] in db.tickets;
    i :| 0 <= i < |db.tickets| && db.tickets[i] == ts[j];
  }

  /** The technician's ticket db.tickets[i] is listed, as the k-th row. */
  lemma OwnTicketListed(db: Db, technicianId: int, i: int) returns (k: int)
    requires 0 <= i < |db.tickets| && db.tickets[i].technicianId == technicianId
    ensures 0 <= k < |Listing(db, technicianId)| && Listing(db, technicianId)[k].ticketId == db.tickets[i].id
  {
    var ts := AssignedTo(db, technicianId);
    assert db.tickets[i] in ts;
    var j :| 0 <= j < |ts| && ts[j] == db.tickets[i];
    var m := JoinedCovers(db, ts, j);
    k := IndexOfSame(Joined(db, ts), Listing(db, technicianId), m);
  }

  /** Every listed row is one of the technician's tickets, and every one of
      the technician's tickets is listed; rows are ordered by date, latest
      first, and a listed row shows its ticket's date. */
  lemma ListingIsOwnTickets(db: Db, technicianId: int)
    ensures var rows := Listing(db, technicianId);
      && SortedDesc(rows, (r: Row) => r.date)
      && (forall k :: 0 <= k < |rows| ==>
            exists i :: 0 <= i < |db.tickets| && db.tickets[i].id == rows[k].ticketId
                     && db.tickets[i].technicianId == technicianId && db.tickets[i].date == rows[k].date)
      && (forall i :: 0 <= i < |db.tickets| && db.tickets[i].technicianId == technicianId ==>
            exists k :: 0 <= k < |rows| && rows[k].ticketId == db.tickets[i].id)
  {
    var rows := Listing(db, technicianId);
    forall k | 0 <= k < |rows|
      ensures exists i :: 0 <= i < |db.tickets| && db.tickets[i].id == rows[k].ticketId
                       && db.tickets[i].technicianId == technicianId && db.tickets[i].date == rows[k].date
    {
      var i := ListedRowOwned(db, technicianId, k);
    }
    forall i | 0 <= i < |db.tickets| && db.tickets[i].technicianId == technicianId
      ensures exists k :: 0 <= k < |rows| && rows[k].ticketId == db.tickets[i].id
    {
      var k := OwnTicketListed(db, technicianId, i);
    }
  }

  /** `COALESCE(psf.status, "Pending")` for one ticket: its feedback's status,
      or "Pending" when none; with at most one feedback row per ticket this
      is the only status its rows can show. */
  function StatusOf(db: Db, ticketId: int): (s: string)
    ensures !db.HasFeedback(ticketId) ==> s == NoFeedbackStatus
    ensures db.HasFeedback(ticketId) ==>
              exists i :: 0 <= i < |db.feedback| && db.feedback[i].ticketId == ticketId && s == db.feedback[i].status
  {
    match FindFirst(db.feedback, (f: Feedback) => f.ticketId == ticketId)
    case None => NoFeedbackStatus
    case Some(k) => db.feedback[k].status
  }

  /** In a feedback table with distinct ticket ids, a ticket has at most one
      feedback row. */
  lemma {:induction false} FeedbackOfAtMostOne(s: seq<Feedback>, ticketId: int)
    requires forall a, b :: 0 <= a < b < |s| ==> s[a].ticketId != s[b].ticketId
    ensures |Filter(s, (f: Feedback) => f.ticketId == ticketId)| <= 1
  {
    if s != [] {
      FeedbackOfAtMostOne(s[1..], ticketId);
      if s[0].ticketId == ticketId {
        forall b | 0 <= b < |s[1..]| ensures s[1..][b].ticketId != ticketId {
          assert s[1..][b] == s[b + 1];
        }
        FilterNone(s[1..], (f: Feedback) => f.ticketId == ticketId);
      }
    }
  }

  /** With at most one feedback row per ticket, a ticket has one joined row,
      showing StatusOf. */
  lemma RowsOfSingle(db: Db, t: Ticket)
    requires db.FeedbackAtMostOnce()
    ensures |RowsOf(db, t)| == 1 && RowsOf(db, t)[0].status == StatusOf(db, t.id)
  {
    var fs := Filter(db.feedback, (f: Feedback) => f.ticketId == t.id);
    FeedbackOfAtMostOne(db.feedback, t.id);
    if fs != [] {
      var k := FindFirst(db.feedback, (f: Feedback) => f.ticketId == t.id);
      assert fs[0] in db.feedback;
      var i :| 0 <= i < |db.feedback| && db.feedback[i] == fs[0];
      assert k.Some?;
      assert db.feedback[k.value].ticketId == t.id;
      assert i == k.value;
    }
  }

  lemma {:induction false} JoinedLength(db: Db, ts: seq<Ticket>)
    requires db.FeedbackAtMostOnce()
    ensures |Joined(db, ts)| == |ts|
  {
    if ts != [] {
      RowsOfSingle(db, ts[0]);
      JoinedLength(db, ts[1..]);
    }
  }

  /** With one row per ticket, the m-th joined row is the m-th ticket's. */
  lemma {:induction false} JoinedAt(db: Db, ts: seq<Ticket>, m: int)
    requires db.FeedbackAtMostOnce() && 0 <= m < |ts|
    ensures |Joined(db, ts)| == |ts| && Joined(db, ts)[m] == RowsOf(db, ts[m])[0]
  {
    JoinedLength(db, ts[1..]);
    RowsOfSingle(db, ts[0]);
    var head, tail := RowsOf(db, ts[0]), Joined(db, ts[1..]);
    assert Joined(db, ts) == head + tail;
    if m == 0 {
      assert (head + tail)[0] == head[0];
    } else {
      JoinedAt(db, ts[1..], m - 1);
      assert ts[1..][m - 1] == ts[m];
      assert (head + tail)[m] == tail[m - 1];
    }
  }

  /** In a consistent store the k-th listed row shows its ticket's feedback
      status, or "Pending", and its device's columns. */
  lemma ListedRowUnderValid(db: Db, technicianId: int, k: int) returns (i: int)
    requires db.FeedbackAtMostOnce() && db.TicketsHaveDevices() && 0 <= k < |AssignedTo(db, technicianId)|
    ensures var row := Listing(db, technicianId)[k];
      && 0 <= i < |db.tickets| && db.tickets[i].id == row.ticketId && db.tickets[i].technicianId == technicianId
      && row.reportedBy == db.tickets[i].reportedBy && row.issue == db.tickets[i].issue
      && row.date == db.tickets[i].date && row.status == StatusOf(db, row.ticketId)
      && db.DeviceById(db.tickets[i].deviceId).Some? && DeviceColumns(row, db.DeviceById(db.tickets[i].deviceId))
  {
    var ts := AssignedTo(db, technicianId);
    var m := ListedRowIsJoined(db, technicianId, k);
    JoinedLength(db, ts);
    JoinedAt(db, ts, m);
    RowsOfSingle(db, ts[m]);
    assert ts[m] in db.tickets;
    i :| 0 <= i < |db.tickets| && db.tickets[i] == ts[m];
    assert db.HasDevice(ts[m].deviceId);
    var d :| 0 <= d < |db.devices| && db.devices[d].id == ts[m].deviceId;
    assert db.DeviceById(ts[m].deviceId).Some?;
  }

  /** A listed row shows one of the technician's tickets and, from the
      inner side of the device join, that ticket's own device. */
  predicate ShowsOwnTicket(db: Db, technicianId: int, row: Row) {
    exists i :: && 0 <= i < |db.tickets| && db.tickets[i].id == row.ticketId
                && db.tickets[i].technicianId == technicianId
                && db.DeviceById(db.tickets[i].deviceId).Some?
                && DeviceColumns(row, db.DeviceById(db.tickets[i].deviceId))
  }

  /** In a consistent store each of the technician's tickets is listed
      exactly once, with its feedback status or "Pending", and with its
      device's columns, never "N/A". */
  lemma ListingUnderValid(db: Db, technicianId: int)
    requires db.Valid()
    ensures var rows := Listing(db, technicianId);
      && |rows| == |AssignedTo(db, technicianId)|
      && (forall k :: 0 <= k < |rows| ==> rows[k].status == StatusOf(db, rows[k].ticketId))
      && (forall k :: 0 <= k < |rows| ==> ShowsOwnTicket(db, technicianId, rows[k]))
  {
    var rows := Listing(db, technicianId);
    forall k | 0 <= k < |rows|
      ensures rows[k].status == StatusOf(db, rows[k].ticketId) && ShowsOwnTicket(db, technicianId, rows[k])
    {
      var i := ListedRowUnderValid(db, technicianId, k);
    }
  }
}
