/** The database connection every handler shares (`$conn` from config.php),
    as an object whose tables the INSERT statements change in place. The
    store is always reachable: prepare and execute failures are not part of
    this model. */
module Storage {
  import opened Schema

  class Store {
    var technicians: seq<Technician>
    var devices: seq<Device>
    var tickets: seq<Ticket>
    var parts: seq<PartUsage>
    var feedback: seq<Feedback>
    var nextTechnicianId: int
    var nextDeviceId: int
    var nextTicketId: int
    var nextPartId: int
    var nextFeedbackId: int

    /** The tables as a value, for stating what a handler did to them. */
    function Snapshot(): Db
      reads this
    {
      Db(technicians, devices, tickets, parts, feedback,
         nextTechnicianId, nextDeviceId, nextTicketId, nextPartId, nextFeedbackId)
    }

    /** A store holding the given tables. */
    constructor (db: Db)
      ensures Snapshot() == db
    {
      technicians, devices, tickets, parts, feedback := db.technicians, db.devices, db.tickets, db.parts, db.feedback;
      nextTechnicianId, nextDeviceId, nextTicketId := db.nextTechnicianId, db.nextDeviceId, db.nextTicketId;
      nextPartId, nextFeedbackId := db.nextPartId, db.nextFeedbackId;
    }

    method InsertTechnician(firstName: string, lastName: string, phone: string, email: string,
                            passwordHash: string) returns (id: int)
      modifies this
      ensures (Snapshot(), id) == old(Snapshot()).AddTechnician(firstName, lastName, phone, email, passwordHash)
    {
      id := nextTechnicianId;
      technicians := technicians + [Technician(id, firstName, lastName, phone, email, passwordHash)];
      nextTechnicianId := nextTechnicianId + 1;
    }

    method InsertDevice(serial: string, model: string, location: string, os: string,
                        dateIssued: Date) returns (id: int)
      modifies this
      ensures (Snapshot(), id) == old(Snapshot()).AddDevice(serial, model, location, os, dateIssued)
    {
      id := nextDeviceId;
      devices := devices + [Device(id, serial, model, location, os, dateIssued)];
      nextDeviceId := nextDeviceId + 1;
    }

    method InsertTicket(deviceId: int, technicianId: int, reportedBy: string, issue: string,
                        date: Date) returns (id: int)
      modifies this
      ensures (Snapshot(), id) == old(Snapshot()).AddTicket(deviceId, technicianId, reportedBy, issue, date)
    {
      id := nextTicketId;
      tickets := tickets + [Ticket(id, deviceId, technicianId, reportedBy, issue, date)];
      nextTicketId := nextTicketId + 1;
    }

    method InsertPart(ticketId: int, partName: string, quantity: int, cost: real, date: Date)
      returns (id: int)
      modifies this
      ensures (Snapshot(), id) == old(Snapshot()).AddPart(ticketId, partName, quantity, cost, date)
    {
      id := nextPartId;
      parts := parts + [PartUsage(id, ticketId, partName, quantity, cost, date)];
      nextPartId := nextPartId + 1;
    }

    method InsertFeedback(technicianId: int, ticketId: int, remarks: string, status: string,
                          dateSolved: Date) returns (id: int)
      modifies this
      ensures (Snapshot(), id) == old(Snapshot()).AddFeedback(technicianId, ticketId, remarks, status, dateSolved)
    {
      id := nextFeedbackId;
      feedback := feedback + [Feedback(id, technicianId, ticketId, remarks, status, dateSolved)];
      nextFeedbackId := nextFeedbackId + 1;
    }
  }
}
