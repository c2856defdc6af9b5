/** create_ticket.php: open a ticket against a registered device. The
    device id comes from the query string and must name a device; both text
    fields must be non-empty after trimming; the ticket is assigned to the
    signed-in technician and the technician is sent to its work page. */
module CreateTicketPage {
  import opened Php
  import opened Schema
  import opened Web
  import opened Storage

  datatype Post = Post(reportedBy: Option<string>, issue: Option<string>, date: Option<Date>)

  datatype Form = Form(reportedBy: string, issue: string, date: Date)

  /** The page shows the device the ticket is for, and the form. */
  datatype View = View(device: Device, form: Form)

  function DefaultForm(today: Date): Form {
    Form("", "", today)
  }

  /** Lines 41-43: both text fields trimmed; the date is taken as sent. */
  function ReadForm(p: Post, today: Date): Form {
    Form(Trim(p.reportedBy.GetOr("")), Trim(p.issue.GetOr("")), p.date.GetOr(today))
  }

  predicate Complete(f: Form) {
    f.reportedBy != "" && f.issue != ""
  }

  function Step(db: Db, session: Session, deviceParam: Option<int>, post: Option<Post>, today: Date)
    : (r: (Outcome<View>, Db))
    ensures session.technicianId.None? ==> r == (Redirect(ToIndex), db)
    ensures session.technicianId.Some? && (!IdGiven(deviceParam) || db.DeviceById(deviceParam.value).None?) ==>
              r == (Redirect(ToDeviceCheck), db)
    ensures r.1 != db ==>
              && Extends(db, r.1) && |r.1.tickets| == |db.tickets| + 1
              && r.1 == db.(tickets := r.1.tickets, nextTicketId := r.1.nextTicketId)
              && session.technicianId == Some(r.1.tickets[|db.tickets|].technicianId)
              && db.DeviceById(r.1.tickets[|db.tickets|].deviceId).Some?
              && r.0 == Redirect(ToWorkTicket(r.1.tickets[|db.tickets|].id))
  {
    if session.technicianId.None? then (Redirect(ToIndex), db)
    else if !IdGiven(deviceParam) then (Redirect(ToDeviceCheck), db)
    else match db.DeviceById(deviceParam.value)
      case None => (Redirect(ToDeviceCheck), db)
      case Some(device) =>
        match post
        case None => (Render([], View(device, DefaultForm(today))), db)
        case Some(p) =>
          var f := ReadForm(p, today);
          if !Complete(f) then (Render([TicketRequired], View(device, f)), db)
          else
            var (db', ticketId) := db.AddTicket(deviceParam.value, session.technicianId.value,
                                                f.reportedBy, f.issue, f.date);
            (Redirect(ToWorkTicket(ticketId)), db')
  }

  method Handle(store: Store, session: Session, deviceParam: Option<int>, post: Option<Post>, today: Date)
    returns (out: Outcome<View>)
    modifies store
    ensures (out, store.Snapshot()) == Step(old(store.Snapshot()), session, deviceParam, post, today)
  {
    if session.technicianId.None? {
      return Redirect(ToIndex);
    }
    if !IdGiven(deviceParam) {
      return Redirect(ToDeviceCheck);
    }
    var deviceId := deviceParam.value;
    var device := store.Snapshot().DeviceById(deviceId);
    if device.None? {
      return Redirect(ToDeviceCheck);
    }
    var errors: seq<Message> := [];
    var form := DefaultForm(today);
    if post.Some? {
      form := ReadForm(post.value, today);
      if form.reportedBy == "" || form.issue == "" {
        errors := errors + [TicketRequired];
        assert errors == [TicketRequired];
      }
      if errors == [] {
        var ticketId := store.InsertTicket(deviceId, session.technicianId.value, form.reportedBy, form.issue, form.date);
        return Redirect(ToWorkTicket(ticketId));
      }
    }
    out := Render(errors, View(device.value, form));
  }

  // ---------------------------------------------------------------------
  // Properties of the request

  /** No ticket is ever opened without a device id, or for a device that is
      not registered: the request goes back to the device check and writes
      nothing. */
  lemma MissingDeviceRedirected(db: Db, session: Session, deviceParam: Option<int>, post: Option<Post>, today: Date)
    requires session.technicianId.Some? && (!IdGiven(deviceParam) || !db.HasDevice(deviceParam.value))
    ensures Step(db, session, deviceParam, post, today) == (Redirect(ToDeviceCheck), db)
  {
  }

  predicate Accepted(db: Db, session: Session, deviceParam: Option<int>, post: Option<Post>, today: Date) {
    && session.technicianId.Some? && IdGiven(deviceParam) && db.HasDevice(deviceParam.value)
    && post.Some? && Complete(ReadForm(post.value, today))
  }

  /** Rejected requests write nothing; an accepted one appends exactly one
      ticket, for the query-string device and the session's technician, with
      the trimmed fields, changes no other table, and redirects to that new
      ticket, which the technician then owns. */
  lemma InsertIffAccepted(db: Db, session: Session, deviceParam: Option<int>, post: Option<Post>, today: Date)
    ensures var (out, db') := Step(db, session, deviceParam, post, today);
      && (!Accepted(db, session, deviceParam, post, today) ==> db' == db)
      && (Accepted(db, session, deviceParam, post, today) ==>
            var f := ReadForm(post.value, today);
            && db'.tickets == db.tickets + [Ticket(db.nextTicketId, deviceParam.value, session.technicianId.value,
                                                   f.reportedBy, f.issue, f.date)]
            && db'.technicians == db.technicians && db'.devices == db.devices
            && db'.parts == db.parts && db'.feedback == db.feedback
            && out == Redirect(ToWorkTicket(db.nextTicketId))
            && db'.Owns(db.nextTicketId, session.technicianId.value))
  {
    if session.technicianId.Some? && IdGiven(deviceParam) {
      if db.HasDevice(deviceParam.value) {
        var i :| 0 <= i < |db.devices| && db.devices[i].id == deviceParam.value;
        assert db.DeviceById(deviceParam.value).Some?;
        if Accepted(db, session, deviceParam, post, today) {
          var db' := Step(db, session, deviceParam, post, today).1;
          assert db'.tickets[|db.tickets|].id == db.nextTicketId;
        }
      } else {
        MissingDeviceRedirected(db, session, deviceParam, post, today);
      }
    }
  }

  /** A form missing either field is shown again, trimmed, with the single
      "All fields are required." message. */
  lemma IncompleteFormRejected(db: Db, session: Session, deviceParam: Option<int>, p: Post, today: Date)
    requires session.technicianId.Some? && IdGiven(deviceParam)
    requires db.DeviceById(deviceParam.value).Some?
    requires !Complete(ReadForm(p, today))
    ensures Step(db, session, deviceParam, Some(p), today)
         == (Render([TicketRequired], View(db.DeviceById(deviceParam.value).value, ReadForm(p, today))), db)
  {
  }

  lemma StepKeepsValid(db: Db, session: Session, deviceParam: Option<int>, post: Option<Post>, today: Date)
    requires db.Valid()
    ensures Extends(db, Step(db, session, deviceParam, post, today).1)
    ensures Step(db, session, deviceParam, post, today).1.Valid()
  {
    InsertIffAccepted(db, session, deviceParam, post, today);
    if Accepted(db, session, deviceParam, post, today) {
      var f := ReadForm(post.value, today);
      var i :| 0 <= i < |db.devices| && db.devices[i].id == deviceParam.value;
      assert db.DeviceById(deviceParam.value).Some?;
      AddTicketValid(db, deviceParam.value, session.technicianId.value, f.reportedBy, f.issue, f.date);
    }
  }
}
