/** device_register.php: register a new device. The four text fields must
    all be non-empty after trimming, and the serial number must not be
    registered yet; the new device is then opened for a ticket. */
module DeviceRegisterPage {
  import opened Php
  import opened Schema
  import opened Web
  import opened Storage

  datatype Post = Post(serial: Option<string>, model: Option<string>, location: Option<string>,
                       os: Option<string>, dateIssued: Option<Date>)

  datatype Form = Form(serial: string, model: string, location: string, os: string, dateIssued: Date)

  datatype View = View(form: Form)

  /** Line 14: the serial handed over by the device check, as it came in the
      query string (not trimmed). */
  function InitialForm(serialParam: Option<string>, today: Date): Form {
    Form(serialParam.GetOr(""), "", "", "", today)
  }

  /** Lines 22-26: the four text fields trimmed; the date is taken as sent. */
  function ReadForm(p: Post, today: Date): Form {
    Form(Trim(p.serial.GetOr("")), Trim(p.model.GetOr("")), Trim(p.location.GetOr("")), Trim(p.os.GetOr("")),
         p.dateIssued.GetOr(today))
  }

  /** Line 28: none of the first four fields is the empty string. */
  predicate Complete(f: Form) {
    f.serial != "" && f.model != "" && f.location != "" && f.os != ""
  }

  /** Lines 28-45: the missing-field check, then, only if it passed, the
      duplicate-serial check. */
  function Errors(db: Db, f: Form): (errs: seq<Message>)
    ensures errs == [] <==> Complete(f) && db.DeviceBySerial(f.serial).None?
    ensures !Complete(f) ==> errs == [DeviceRequired]
    ensures Complete(f) && db.DeviceBySerial(f.serial).Some? ==> errs == [SerialTaken]
  {
    if !Complete(f) then [DeviceRequired]
    else if db.DeviceBySerial(f.serial).Some? then [SerialTaken]
    else []
  }

  function Step(db: Db, session: Session, serialParam: Option<string>, post: Option<Post>, today: Date)
    : (r: (Outcome<View>, Db))
    ensures session.technicianId.None? ==> r == (Redirect(ToIndex), db)
    ensures session.technicianId.Some? && post.None? ==>
              && r.1 == db && r.0.Render? && r.0.errors == []
              && r.0.view.form == Form(serialParam.GetOr(""), "", "", "", today)
    ensures r.1 != db ==>
              && Extends(db, r.1) && |r.1.devices| == |db.devices| + 1
              && r.1 == db.(devices := r.1.devices, nextDeviceId := r.1.nextDeviceId)
              && db.DeviceBySerial(r.1.devices[|db.devices|].serial).None?
              && r.0 == Redirect(ToCreateTicket(r.1.devices[|db.devices|].id))
  {
    if session.technicianId.None? then (Redirect(ToIndex), db)
    else match post
      case None => (Render([], View(InitialForm(serialParam, today))), db)
      case Some(p) =>
        var f := ReadForm(p, today);
        var errs := Errors(db, f);
        if errs != [] then (Render(errs, View(f)), db)
        else
          var (db', deviceId) := db.AddDevice(f.serial, f.model, f.location, f.os, f.dateIssued);
          (Redirect(ToCreateTicket(deviceId)), db')
  }

  method Handle(store: Store, session: Session, serialParam: Option<string>, post: Option<Post>, today: Date)
    returns (out: Outcome<View>)
    modifies store
    ensures (out, store.Snapshot()) == Step(old(store.Snapshot()), session, serialParam, post, today)
  {
    if session.technicianId.None? {
      return Redirect(ToIndex);
    }
    var errors: seq<Message> := [];
    var form := InitialForm(serialParam, today);
    if post.Some? {
      form := ReadForm(post.value, today);
      if form.serial == "" || form.model == "" || form.location == "" || form.os == "" {
        errors := errors + [DeviceRequired];
        assert errors == [DeviceRequired];
      }
      if errors == [] {
        if store.Snapshot().DeviceBySerial(form.serial).Some? {
          errors := errors + [SerialTaken];
          assert errors == [SerialTaken];
        }
      }
      if errors == [] {
        var deviceId := store.InsertDevice(form.serial, form.model, form.location, form.os, form.dateIssued);
        return Redirect(ToCreateTicket(deviceId));
      }
    }
    out := Render(errors, View(form));
  }

  // ---------------------------------------------------------------------
  // Properties of the request

  predicate Accepted(db: Db, session: Session, post: Option<Post>, today: Date) {
    session.technicianId.Some? && post.Some? && Errors(db, ReadForm(post.value, today)) == []
  }

  /** Rejected requests write nothing; an accepted one appends exactly one
      device with the trimmed fields, changes no other table, and sends the
      technician on to open a ticket for that device. */
  lemma InsertIffAccepted(db: Db, session: Session, serialParam: Option<string>, post: Option<Post>, today: Date)
    ensures var (out, db') := Step(db, session, serialParam, post, today);
      && (!Accepted(db, session, post, today) ==> db' == db)
      && (Accepted(db, session, post, today) ==>
            var f := ReadForm(post.value, today);
            && db'.devices == db.devices + [Device(db.nextDeviceId, f.serial, f.model, f.location, f.os, f.dateIssued)]
            && db'.technicians == db.technicians && db'.tickets == db.tickets
            && db'.parts == db.parts && db'.feedback == db.feedback
            && out == Redirect(ToCreateTicket(db.nextDeviceId))
            && db'.DeviceById(db.nextDeviceId).Some?)
  {
    if Accepted(db, session, post, today) {
      var db' := Step(db, session, serialParam, post, today).1;
      assert db'.devices[|db.devices|].id == db.nextDeviceId;
    }
  }

  /** A serial some device already carries is refused, with exactly that
      message, whatever whitespace surrounds it. */
  lemma TakenSerialRejected(db: Db, session: Session, serialParam: Option<string>, p: Post, today: Date, i: int)
    requires session.technicianId.Some? && Complete(ReadForm(p, today))
    requires 0 <= i < |db.devices| && db.devices[i].serial == ReadForm(p, today).serial
    ensures Step(db, session, serialParam, Some(p), today) == (Render([SerialTaken], View(ReadForm(p, today))), db)
  {
  }

  lemma StepKeepsValid(db: Db, session: Session, serialParam: Option<string>, post: Option<Post>, today: Date)
    requires db.Valid()
    ensures Extends(db, Step(db, session, serialParam, post, today).1)
    ensures Step(db, session, serialParam, post, today).1.Valid()
  {
    InsertIffAccepted(db, session, serialParam, post, today);
    if Accepted(db, session, post, today) {
      var f := ReadForm(post.value, today);
      AddDeviceValid(db, f.serial, f.model, f.location, f.os, f.dateIssued);
    }
  }

  /** Registering the same serial twice: the second submission, with any
      other fields, is refused and writes nothing, so serials stay unique. */
  lemma SecondRegistrationRejected(db: Db, session: Session, serialParam: Option<string>, p: Post,
                                   serialParam2: Option<string>, p2: Post, today: Date)
    requires Accepted(db, session, Some(p), today)
    requires Complete(ReadForm(p2, today)) && ReadForm(p2, today).serial == ReadForm(p, today).serial
    ensures var db1 := Step(db, session, serialParam, Some(p), today).1;
      Step(db1, session, serialParam2, Some(p2), today) == (Render([SerialTaken], View(ReadForm(p2, today))), db1)
  {
    var db1 := Step(db, session, serialParam, Some(p), today).1;
    InsertIffAccepted(db, session, serialParam, Some(p), today);
    TakenSerialRejected(db1, session, serialParam2, p2, today, |db.devices|);
  }
}
