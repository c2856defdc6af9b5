/** The five tables the handlers read and write, as one value: technicians
    (technician_assignment), devices (device_tracking), tickets
    (ticket_intake), part usage (part_usage) and feedback
    (post_service_feedback), each a sequence of rows in insertion order with
    its own auto-increment counter. The lookups are the handlers' SELECT
    statements; the additions are their INSERT statements. */
module Schema {
  import opened Php
  import opened Query

  /** A calendar day as a day number; later days are larger. */
  type Date = int

  datatype Technician = Technician(id: int, firstName: string, lastName: string, phone: string,
                                   email: string, passwordHash: string)

  datatype Device = Device(id: int, serial: string, model: string, location: string, os: string,
                           dateIssued: Date)

  datatype Ticket = Ticket(id: int, deviceId: int, technicianId: int, reportedBy: string,
                           issue: string, date: Date)

  datatype PartUsage = PartUsage(id: int, ticketId: int, partName: string, quantity: int, cost: real,
                                 date: Date)

  datatype Feedback = Feedback(id: int, technicianId: int, ticketId: int, remarks: string,
                               status: string, dateSolved: Date)

  /** Every id in a table is positive, below the table's next auto-increment
      value, and ids grow along the table. */
  predicate IdsBelow<T>(s: seq<T>, id: T -> int, next: int) {
    && next >= 1
    && (forall i :: 0 <= i < |s| ==> 1 <= id(s[i]) < next)
    && (forall i, j :: 0 <= i < j < |s| ==> id(s[i]) < id(s[j]))
  }

  datatype Db = Db(technicians: seq<Technician>, devices: seq<Device>, tickets: seq<Ticket>,
                   parts: seq<PartUsage>, feedback: seq<Feedback>,
                   nextTechnicianId: int, nextDeviceId: int, nextTicketId: int,
                   nextPartId: int, nextFeedbackId: int)
  {
    // -------------------------------------------------------------------
    // Lookups

    /** `SELECT ... FROM technician_assignment WHERE email = ?`, first row. */
    function TechnicianByEmail(email: string): (r: Option<Technician>)
      ensures r.Some? ==> r.value in technicians && r.value.email == email
      ensures r.None? <==> forall i :: 0 <= i < |technicians| ==> technicians[i].email != email
    {
      match FindFirst(technicians, (t: Technician) => t.email == email)
      case None => None
      case Some(k) => Some(technicians[k])
    }

    /** The join on `id_technician_assignment`, first row. */
    function TechnicianById(id: int): (r: Option<Technician>)
      ensures r.Some? ==> r.value in technicians && r.value.id == id
      ensures r.None? <==> forall i :: 0 <= i < |technicians| ==> technicians[i].id != id
    {
      match FindFirst(technicians, (t: Technician) => t.id == id)
      case None => None
      case Some(k) => Some(technicians[k])
    }

    /** `SELECT * FROM device_tracking WHERE id_device_tracking = ?`. */
    function DeviceById(id: int): (r: Option<Device>)
      ensures r.Some? ==> r.value in devices && r.value.id == id
      ensures r.None? <==> forall i :: 0 <= i < |devices| ==> devices[i].id != id
    {
      match FindFirst(devices, (d: Device) => d.id == id)
      case None => None
      case Some(k) => Some(devices[k])
    }

    /** `SELECT id_device_tracking FROM device_tracking WHERE serial_number = ?`,
        first row. */
    function DeviceBySerial(serial: string): (r: Option<Device>)
      ensures r.Some? ==> r.value in devices && r.value.serial == serial
      ensures r.None? <==> forall i :: 0 <= i < |devices| ==> devices[i].serial != serial
    {
      match FindFirst(devices, (d: Device) => d.serial == serial)
      case None => None
      case Some(k) => Some(devices[k])
    }

    /** The ownership filter `id_ticket_intake = ? AND
        id_technician_assignment = ?`, first row. */
    function OwnedTicket(ticketId: int, technicianId: int): (r: Option<Ticket>)
      ensures r.Some? ==> r.value in tickets && r.value.id == ticketId && r.value.technicianId == technicianId
      ensures r.None? <==> forall i :: 0 <= i < |tickets| ==>
                             tickets[i].id != ticketId || tickets[i].technicianId != technicianId
    {
      match FindFirst(tickets, (t: Ticket) => t.id == ticketId && t.technicianId == technicianId)
      case None => None
      case Some(k) => Some(tickets[k])
    }

    predicate Owns(ticketId: int, technicianId: int) {
      exists i :: 0 <= i < |tickets| && tickets[i].id == ticketId && tickets[i].technicianId == technicianId
    }

    predicate HasTicket(ticketId: int) {
      exists i :: 0 <= i < |tickets| && tickets[i].id == ticketId
    }

    predicate HasDevice(deviceId: int) {
      exists i :: 0 <= i < |devices| && devices[i].id == deviceId
    }

    /** `SELECT * FROM part_usage WHERE id_ticket_intake = ? ORDER BY date DESC`. */
    function PartsOf(ticketId: int): (r: seq<PartUsage>)
      ensures SortedDesc(r, (p: PartUsage) => p.date)
      ensures multiset(r) == multiset(Filter(parts, (p: PartUsage) => p.ticketId == ticketId))
    {
      SortDesc(Filter(parts, (p: PartUsage) => p.ticketId == ticketId), (p: PartUsage) => p.date)
    }

    /** `SELECT ... FROM post_service_feedback WHERE id_ticket_intake = ? LIMIT 1`
        returned a row. */
    predicate HasFeedback(ticketId: int) {
      exists i :: 0 <= i < |feedback| && feedback[i].ticketId == ticketId
    }

    predicate HasParts(ticketId: int) {
      exists i :: 0 <= i < |parts| && parts[i].ticketId == ticketId
    }

    // -------------------------------------------------------------------
    // Inserts: each appends one row carrying the table's next id and
    // returns that id (`insert_id`); with the ids below the counters, that
    // id is above every id already in the table, so it is fresh.

    function AddTechnician(firstName: string, lastName: string, phone: string, email: string,
                           passwordHash: string): (r: (Db, int))
      ensures r.0.technicians == technicians + [Technician(r.1, firstName, lastName, phone, email, passwordHash)]
      ensures r.0 == this.(technicians := r.0.technicians, nextTechnicianId := r.1 + 1)
      ensures IdsValid() ==> r.0.IdsValid() && forall i :: 0 <= i < |technicians| ==> technicians[i].id < r.1
    {
      (this.(technicians := technicians + [Technician(nextTechnicianId, firstName, lastName, phone, email, passwordHash)],
             nextTechnicianId := nextTechnicianId + 1),
       nextTechnicianId)
    }

    function AddDevice(serial: string, model: string, location: string, os: string,
                       dateIssued: Date): (r: (Db, int))
      ensures r.0.devices == devices + [Device(r.1, serial, model, location, os, dateIssued)]
      ensures r.0 == this.(devices := r.0.devices, nextDeviceId := r.1 + 1)
      ensures IdsValid() ==> r.0.IdsValid() && forall i :: 0 <= i < |devices| ==> devices[i].id < r.1
    {
      (this.(devices := devices + [Device(nextDeviceId, serial, model, location, os, dateIssued)],
             nextDeviceId := nextDeviceId + 1),
       nextDeviceId)
    }

    function AddTicket(deviceId: int, technicianId: int, reportedBy: string, issue: string,
                       date: Date): (r: (Db, int))
      ensures r.0.tickets == tickets + [Ticket(r.1, deviceId, technicianId, reportedBy, issue, date)]
      ensures r.0 == this.(tickets := r.0.tickets, nextTicketId := r.1 + 1)
      ensures IdsValid() ==> r.0.IdsValid() && forall i :: 0 <= i < |tickets| ==> tickets[i].id < r.1
    {
      (this.(tickets := tickets + [Ticket(nextTicketId, deviceId, technicianId, reportedBy, issue, date)],
             nextTicketId := nextTicketId + 1),
       nextTicketId)
    }

    function AddPart(ticketId: int, partName: string, quantity: int, cost: real, date: Date): (r: (Db, int))
      ensures r.0.parts == parts + [PartUsage(r.1, ticketId, partName, quantity, cost, date)]
      ensures r.0 == this.(parts := r.0.parts, nextPartId := r.1 + 1)
      ensures IdsValid() ==> r.0.IdsValid() && forall i :: 0 <= i < |parts| ==> parts[i].id < r.1
    {
      (this.(parts := parts + [PartUsage(nextPartId, ticketId, partName, quantity, cost, date)],
             nextPartId := nextPartId + 1),
       nextPartId)
    }

    function AddFeedback(technicianId: int, ticketId: int, remarks: string, status: string,
                         dateSolved: Date): (r: (Db, int))
      ensures r.0.feedback == feedback + [Feedback(r.1, technicianId, ticketId, remarks, status, dateSolved)]
      ensures r.0 == this.(feedback := r.0.feedback, nextFeedbackId := r.1 + 1)
      ensures IdsValid() ==> r.0.IdsValid() && forall i :: 0 <= i < |feedback| ==> feedback[i].id < r.1
    {
      (this.(feedback := feedback + [Feedback(nextFeedbackId, technicianId, ticketId, remarks, status, dateSolved)],
             nextFeedbackId := nextFeedbackId + 1),
       nextFeedbackId)
    }

    // -------------------------------------------------------------------
    // The invariants a well-formed store keeps

    predicate IdsValid() {
      && IdsBelow(technicians, (t: Technician) => t.id, nextTechnicianId)
      && IdsBelow(devices, (d: Device) => d.id, nextDeviceId)
      && IdsBelow(tickets, (t: Ticket) => t.id, nextTicketId)
      && IdsBelow(parts, (p: PartUsage) => p.id, nextPartId)
      && IdsBelow(feedback, (f: Feedback) => f.id, nextFeedbackId)
    }

    /** Device serial numbers are unique. */
    predicate SerialsUnique() {
      forall i, j :: 0 <= i < j < |devices| ==> devices[i].serial != devices[j].serial
    }

    /** Technician e-mail addresses are unique. */
    predicate EmailsUnique() {
      forall i, j :: 0 <= i < j < |technicians| ==> technicians[i].email != technicians[j].email
    }

    /** At most one feedback row per ticket. */
    predicate FeedbackAtMostOnce() {
      forall i, j :: 0 <= i < j < |feedback| ==> feedback[i].ticketId != feedback[j].ticketId
    }

    /** Every ticket was opened against a device that exists. */
    predicate TicketsHaveDevices() {
      forall i :: 0 <= i < |tickets| ==> HasDevice(tickets[i].deviceId)
    }

    /** Every part row belongs to an existing ticket and passed validation. */
    predicate PartsWellFormed() {
      forall i :: 0 <= i < |parts| ==>
        HasTicket(parts[i].ticketId) && parts[i].quantity >= 1 && parts[i].cost >= 0.0
    }

    /** Every feedback row was written by the technician who owns its ticket. */
    predicate FeedbackByOwner() {
      forall i :: 0 <= i < |feedback| ==> Owns(feedback[i].ticketId, feedback[i].technicianId)
    }

    predicate Valid() {
      && IdsValid() && SerialsUnique() && EmailsUnique() && FeedbackAtMostOnce()
      && TicketsHaveDevices() && PartsWellFormed() && FeedbackByOwner()
    }
  }

  /** The tables as created: empty, every counter at 1. */
  const EmptyDb := Db([], [], [], [], [], 1, 1, 1, 1, 1)

  lemma EmptyDbValid()
    ensures EmptyDb.Valid()
  {
  }

  // ---------------------------------------------------------------------
  // What the lookups return in a well-formed store

  /** With unique serials, the device found by serial is the only one. */
  lemma DeviceBySerialUnique(db: Db, serial: string, i: int)
    requires db.SerialsUnique()
    requires 0 <= i < |db.devices| && db.devices[i].serial == serial
    ensures db.DeviceBySerial(serial) == Some(db.devices[i])
  {
    var r := db.DeviceBySerial(serial).value;
    var k :| 0 <= k < |db.devices| && db.devices[k] == r;
    assert !(k < i) && !(i < k);
  }

  /** With unique e-mails, the technician found by e-mail is the only one. */
  lemma TechnicianByEmailUnique(db: Db, email: string, i: int)
    requires db.EmailsUnique()
    requires 0 <= i < |db.technicians| && db.technicians[i].email == email
    ensures db.TechnicianByEmail(email) == Some(db.technicians[i])
  {
    var r := db.TechnicianByEmail(email).value;
    var k :| 0 <= k < |db.technicians| && db.technicians[k] == r;
    assert !(k < i) && !(i < k);
  }

  lemma OwnedTicketIffOwns(db: Db, ticketId: int, technicianId: int)
    ensures db.OwnedTicket(ticketId, technicianId).Some? <==> db.Owns(ticketId, technicianId)
  {
    if db.OwnedTicket(ticketId, technicianId).Some? {
      var t := db.OwnedTicket(ticketId, technicianId).value;
      var k :| 0 <= k < |db.tickets| && db.tickets[k] == t;
    }
  }

  /** The parts of a ticket are exactly its part rows: every one carries the
      ticket's id, and there is at least one exactly when the ticket has
      parts. */
  lemma PartsOfExactly(db: Db, ticketId: int)
    ensures forall k :: 0 <= k < |db.PartsOf(ticketId)| ==> db.PartsOf(ticketId)[k].ticketId == ticketId
    ensures db.PartsOf(ticketId) != [] <==> db.HasParts(ticketId)
  {
    var r := db.PartsOf(ticketId);
    var f := Filter(db.parts, (p: PartUsage) => p.ticketId == ticketId);
    SameElements(r, f);
    if db.HasParts(ticketId) {
      var i :| 0 <= i < |db.parts| && db.parts[i].ticketId == ticketId;
      assert db.parts[i] in r;
    }
    forall k | 0 <= k < |r| ensures r[k].ticketId == ticketId {
      assert r[k] in f;
      var m :| 0 <= m < |f| && f[m] == r[k];
    }
    if r != [] {
      assert r[0] in f;
      var m :| 0 <= m < |f| && f[m] == r[0];
      assert f[m] in db.parts;
      var i :| 0 <= i < |db.parts| && db.parts[i] == r[0];
    }
  }

  // ---------------------------------------------------------------------
  // Each insert keeps the store well-formed when its handler's guard held

  /** db' holds every row of db, in place: tables only grow at their ends. */
  predicate Extends(db: Db, db': Db) {
    && db.technicians <= db'.technicians && db.devices <= db'.devices && db.tickets <= db'.tickets
    && db.parts <= db'.parts && db.feedback <= db'.feedback
  }

  /** What holds of a row id in a store still holds once the store has grown. */
  lemma ExtendsKeeps(db: Db, db': Db, id: int, technicianId: int)
    requires Extends(db, db')
    ensures db.HasDevice(id) ==> db'.HasDevice(id)
    ensures db.HasTicket(id) ==> db'.HasTicket(id)
    ensures db.Owns(id, technicianId) ==> db'.Owns(id, technicianId)
    ensures db.HasParts(id) ==> db'.HasParts(id)
    ensures db.HasFeedback(id) ==> db'.HasFeedback(id)
  {
    if db.HasDevice(id) {
      var i :| 0 <= i < |db.devices| && db.devices[i].id == id;
      assert db'.devices[i] == db.devices[i];
    }
    if db.HasTicket(id) {
      var i :| 0 <= i < |db.tickets| && db.tickets[i].id == id;
      assert db'.tickets[i] == db.tickets[i];
    }
    if db.Owns(id, technicianId) {
      var i :| 0 <= i < |db.tickets| && db.tickets[i].id == id && db.tickets[i].technicianId == technicianId;
      assert db'.tickets[i] == db.tickets[i];
    }
    if db.HasParts(id) {
      var i :| 0 <= i < |db.parts| && db.parts[i].ticketId == id;
      assert db'.parts[i] == db.parts[i];
    }
    if db.HasFeedback(id) {
      var i :| 0 <= i < |db.feedback| && db.feedback[i].ticketId == id;
      assert db'.feedback[i] == db.feedback[i];
    }
  }

  /** The references of the old rows stay resolved in a grown store. */
  lemma ExtendsKeepsReferences(db: Db, db': Db)
    requires db.Valid() && Extends(db, db')
    ensures forall i :: 0 <= i < |db.tickets| ==> db'.HasDevice(db.tickets[i].deviceId)
    ensures forall i :: 0 <= i < |db.parts| ==> db'.HasTicket(db.parts[i].ticketId)
    ensures forall i :: 0 <= i < |db.feedback| ==> db'.Owns(db.feedback[i].ticketId, db.feedback[i].technicianId)
  {
    forall i | 0 <= i < |db.tickets| ensures db'.HasDevice(db.tickets[i].deviceId) {
      ExtendsKeeps(db, db', db.tickets[i].deviceId, 0);
    }
    forall i | 0 <= i < |db.parts| ensures db'.HasTicket(db.parts[i].ticketId) {
      ExtendsKeeps(db, db', db.parts[i].ticketId, 0);
    }
    forall i | 0 <= i < |db.feedback| ensures db'.Owns(db.feedback[i].ticketId, db.feedback[i].technicianId) {
      ExtendsKeeps(db, db', db.feedback[i].ticketId, db.feedback[i].technicianId);
    }
  }

  lemma AddTechnicianValid(db: Db, firstName: string, lastName: string, phone: string, email: string,
                           passwordHash: string)
    requires db.Valid() && db.TechnicianByEmail(email).None?
    ensures Extends(db, db.AddTechnician(firstName, lastName, phone, email, passwordHash).0)
    ensures db.AddTechnician(firstName, lastName, phone, email, passwordHash).0.Valid()
  {
    var db' := db.AddTechnician(firstName, lastName, phone, email, passwordHash).0;
    ExtendsKeepsReferences(db, db');
  }

  lemma AddDeviceValid(db: Db, serial: string, model: string, location: string, os: string,
                       dateIssued: Date)
    requires db.Valid() && db.DeviceBySerial(serial).None?
    ensures Extends(db, db.AddDevice(serial, model, location, os, dateIssued).0)
    ensures db.AddDevice(serial, model, location, os, dateIssued).0.Valid()
  {
    var db' := db.AddDevice(serial, model, location, os, dateIssued).0;
    ExtendsKeepsReferences(db, db');
  }

  lemma AddTicketValid(db: Db, deviceId: int, technicianId: int, reportedBy: string, issue: string,
                       date: Date)
    requires db.Valid() && db.DeviceById(deviceId).Some?
    ensures Extends(db, db.AddTicket(deviceId, technicianId, reportedBy, issue, date).0)
    ensures db.AddTicket(deviceId, technicianId, reportedBy, issue, date).0.Valid()
  {
    var db' := db.AddTicket(deviceId, technicianId, reportedBy, issue, date).0;
    ExtendsKeepsReferences(db, db');
    var k :| 0 <= k < |db.devices| && db.devices[k] == db.DeviceById(deviceId).value;
    assert db'.tickets[|db.tickets|].deviceId == db'.devices[k].id;
  }

  lemma AddPartValid(db: Db, ticketId: int, partName: string, quantity: int, cost: real, date: Date)
    requires db.Valid() && db.HasTicket(ticketId) && quantity >= 1 && cost >= 0.0
    ensures Extends(db, db.AddPart(ticketId, partName, quantity, cost, date).0)
    ensures db.AddPart(ticketId, partName, quantity, cost, date).0.Valid()
  {
    var db' := db.AddPart(ticketId, partName, quantity, cost, date).0;
    ExtendsKeepsReferences(db, db');
  }

  lemma AddFeedbackValid(db: Db, technicianId: int, ticketId: int, remarks: string, status: string,
                         dateSolved: Date)
    requires db.Valid() && db.Owns(ticketId, technicianId) && !db.HasFeedback(ticketId)
    ensures Extends(db, db.AddFeedback(technicianId, ticketId, remarks, status, dateSolved).0)
    ensures db.AddFeedback(technicianId, ticketId, remarks, status, dateSolved).0.Valid()
  {
    var db' := db.AddFeedback(technicianId, ticketId, remarks, status, dateSolved).0;
    ExtendsKeepsReferences(db, db');
    forall i, j | 0 <= i < j < |db'.feedback| ensures db'.feedback[i].ticketId != db'.feedback[j].ticketId {
      if j == |db.feedback| {
        assert db'.feedback[i] == db.feedback[i];
      }
    }
  }
}
