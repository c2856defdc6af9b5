/** device_check.php: look a device up by serial number. A known serial
    leads to opening a ticket for that device, an unknown one to registering
    it; the page only reads the tables. */
module DeviceCheckPage {
  import opened Php
  import opened Schema
  import opened Web
  import opened Storage

  /** The page shows the serial entered so far. */
  datatype View = View(serial: string)

  /** `serialParam` is `$_POST['serial_number']` on a POST. */
  function Check(db: Db, session: Session, post: Option<Option<string>>): (out: Outcome<View>)
    ensures session.technicianId.None? ==> out == Redirect(ToIndex)
  {
    if session.technicianId.None? then Redirect(ToIndex)
    else match post
      case None => Render([], View(""))
      case Some(field) =>
        var serial := Trim(field.GetOr(""));
        if serial == "" then Render([SerialRequired], View(serial))
        else match db.DeviceBySerial(serial)
          case Some(device) => Redirect(ToCreateTicket(device.id))
          case None => Redirect(ToRegisterDevice(serial))
  }

  /** The handler; it changes nothing. */
  method Handle(store: Store, session: Session, post: Option<Option<string>>) returns (out: Outcome<View>)
    ensures out == Check(store.Snapshot(), session, post)
  {
    if session.technicianId.None? {
      return Redirect(ToIndex);
    }
    var errors: seq<Message> := [];
    var serial := "";
    if post.Some? {
      serial := Trim(post.value.GetOr(""));
      if serial == "" {
        errors := errors + [SerialRequired];
        assert errors == [SerialRequired];
      }
      if errors == [] {
        var device := store.Snapshot().DeviceBySerial(serial);
        if device.Some? {
          return Redirect(ToCreateTicket(device.value.id));
        } else {
          return Redirect(ToRegisterDevice(serial));
        }
      }
    }
    out := Render(errors, View(serial));
  }

  // ---------------------------------------------------------------------
  // Properties of the request

  /** A blank serial, or one made only of whitespace, is refused with the
      one message. */
  lemma BlankSerialRejected(db: Db, session: Session, field: Option<string>)
    requires session.technicianId.Some? && AllTrimSpace(field.GetOr(""))
    ensures Check(db, session, Some(field)) == Render([SerialRequired], View(""))
  {
    TrimEmptyIff(field.GetOr(""));
  }

  /** With unique serials, a serial that some device carries leads to a ticket
      for exactly that device; whitespace around the serial does not matter. */
  lemma KnownSerialFindsDevice(db: Db, session: Session, field: string, i: int)
    requires session.technicianId.Some? && db.SerialsUnique()
    requires 0 <= i < |db.devices| && db.devices[i].serial == Trim(field) && Trim(field) != ""
    ensures Check(db, session, Some(Some(field))) == Redirect(ToCreateTicket(db.devices[i].id))
  {
    DeviceBySerialUnique(db, Trim(field), i);
  }

  /** A non-blank serial that no device carries leads to the registration
      page, carrying the trimmed serial. */
  lemma UnknownSerialRegisters(db: Db, session: Session, field: string)
    requires session.technicianId.Some? && Trim(field) != ""
    requires forall i :: 0 <= i < |db.devices| ==> db.devices[i].serial != Trim(field)
    ensures Check(db, session, Some(Some(field))) == Redirect(ToRegisterDevice(Trim(field)))
  {
  }

  /** Every request of a signed-in technician ends in exactly one of: the
      blank-serial message, a ticket for a device with that serial, or the
      registration page for a serial no device carries. */
  lemma OutcomeCases(db: Db, session: Session, field: Option<string>)
    requires session.technicianId.Some?
    ensures var out := Check(db, session, Some(field));
            var serial := Trim(field.GetOr(""));
      || (serial == "" && out == Render([SerialRequired], View("")))
      || (exists i :: 0 <= i < |db.devices| && db.devices[i].serial == serial && serial != ""
                  && out == Redirect(ToCreateTicket(db.devices[i].id)))
      || (serial != "" && db.DeviceBySerial(serial).None? && out == Redirect(ToRegisterDevice(serial)))
  {
    var serial := Trim(field.GetOr(""));
    if serial != "" {
      var d := db.DeviceBySerial(serial);
      if d.Some? {
        var i :| 0 <= i < |db.devices| && db.devices[i] == d.value;
        assert db.devices[i].serial == serial;
      }
    }
  }
}
