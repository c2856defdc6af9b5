/** work_ticket.php: the page of one of the signed-in technician's tickets:
    the ticket joined with its device and its technician, the parts used on
    it, latest first, whether it has feedback, and the actions that follow
    from those two facts. The page only reads the tables. */
module WorkTicketPage {
  import opened Php
  import opened Query
  import opened Schema
  import opened Web
  import opened Storage

  /** Which action block the page shows (lines 168-183). */
  datatype Panel =
    | RecordOrSkip        // no parts, no feedback
    | CompleteFeedback    // parts, no feedback
    | ServiceCompleted    // feedback submitted

  /** Where an action button leads. */
  datatype Link =
    | PartUsageLink(ticketId: int)                  // part_usage.php?ticket_id=<id>
    | FeedbackLink(ticketId: int, parts: string)    // service_feedback.php?ticket_id=<id>&parts=<parts>

  datatype Action = Action(caption: string, link: Link)

  datatype View = View(ticket: Ticket, device: Device, technicianName: string, parts: seq<PartUsage>,
                       feedbackExists: bool, panel: Panel, actions: seq<Action>)

  /** Lines 168-183: the three branches, chosen from whether parts were
      recorded and whether feedback exists; feedback wins over parts. */
  function PanelFor(hasParts: bool, feedbackExists: bool): (p: Panel)
    ensures p == ServiceCompleted <==> feedbackExists
    ensures p == RecordOrSkip <==> !hasParts && !feedbackExists
    ensures p == CompleteFeedback <==> hasParts && !feedbackExists
  {
    if !hasParts && !feedbackExists then RecordOrSkip
    else if hasParts && !feedbackExists then CompleteFeedback
    else ServiceCompleted
  }

  /** The buttons of each block; the completed block has none, only its
      notice. */
  function Actions(p: Panel, ticketId: int): (r: seq<Action>)
    ensures p == ServiceCompleted <==> r == []
    ensures forall k :: 0 <= k < |r| ==> r[k].link.ticketId == ticketId
  {
    match p
    case RecordOrSkip =>
      [Action("Record Parts Usage", PartUsageLink(ticketId)),
       Action("No Parts Needed - Complete Service", FeedbackLink(ticketId, "no"))]
    case CompleteFeedback => [Action("Complete Service Feedback", FeedbackLink(ticketId, "yes"))]
    case ServiceCompleted => []
  }

  /** Lines 21-40: the ticket, only if it is this technician's, inner-joined
      with its device and its technician; either join failing drops the row. */
  function TicketJoin(db: Db, ticketId: int, technicianId: int): (r: Option<(Ticket, Device, Technician)>)
    ensures r.Some? ==> && r.value.0 in db.tickets && r.value.0.id == ticketId
                        && r.value.0.technicianId == technicianId
                        && r.value.1 in db.devices && r.value.1.id == r.value.0.deviceId
                        && r.value.2 in db.technicians && r.value.2.id == technicianId
  {
    match db.OwnedTicket(ticketId, technicianId)
    case None => None
    case Some(t) =>
      match (db.DeviceById(t.deviceId), db.TechnicianById(t.technicianId))
      case (Some(d), Some(tech)) => Some((t, d, tech))
      case _ => None
  }

  function Page(db: Db, session: Session, ticketParam: Option<int>): (r: Outcome<View>)
    ensures session.technicianId.None? <==> r == Redirect(ToIndex)
    ensures session.technicianId.Some? && !IdGiven(ticketParam) ==> r == Redirect(ToDashboard)
    ensures r.Redirect? ==> r.to == ToIndex || r.to == ToDashboard
    ensures r.Render? ==>
              && r.errors == [] && IdGiven(ticketParam) && session.technicianId.Some?
              && r.view.ticket in db.tickets && r.view.ticket.id == ticketParam.value
              && r.view.ticket.technicianId == session.technicianId.value
  {
    if session.technicianId.None? then Redirect(ToIndex)
    else if !IdGiven(ticketParam) then Redirect(ToDashboard)
    else match TicketJoin(db, ticketParam.value, session.technicianId.value)
      case None => Redirect(ToDashboard)
      case Some((t, d, tech)) =>
        var parts := db.PartsOf(ticketParam.value);
        var feedbackExists := db.HasFeedback(ticketParam.value);
        var panel := PanelFor(parts != [], feedbackExists);
        Render([], View(t, d, tech.firstName + " " + tech.lastName, parts, feedbackExists, panel,
                        Actions(panel, ticketParam.value)))
  }

  /** The handler: the ticket lookup, the fetch loop over the parts, and the
      feedback flag set when the lookup returns a row. */
  method Handle(store: Store, session: Session, ticketParam: Option<int>) returns (out: Outcome<View>)
    ensures out == Page(store.Snapshot(), session, ticketParam)
  {
    if session.technicianId.None? {
      return Redirect(ToIndex);
    }
    if !IdGiven(ticketParam) {
      return Redirect(ToDashboard);
    }
    var ticketId := ticketParam.value;
    var row := TicketJoin(store.Snapshot(), ticketId, session.technicianId.value);
    if row.None? {
      return Redirect(ToDashboard);
    }
    var (ticket, device, technician) := row.value;
    var partsUsed := FetchAll(store.Snapshot().PartsOf(ticketId));
    var feedbackExists := false;
    if store.Snapshot().HasFeedback(ticketId) {
      feedbackExists := true;
    }
    var panel := PanelFor(partsUsed != [], feedbackExists);
    out := Render([], View(ticket, device, technician.firstName + " " + technician.lastName, partsUsed,
                           feedbackExists, panel, Actions(panel, ticketId)));
  }

  // ---------------------------------------------------------------------
  // Properties of the page

  /** A ticket that is not the technician's is answered exactly like one that
      does not exist: a redirect to the dashboard. */
  lemma NotOwnedRedirected(db: Db, session: Session, ticketParam: Option<int>)
    requires session.technicianId.Some? && IdGiven(ticketParam)
    requires !db.Owns(ticketParam.value, session.technicianId.value)
    ensures Page(db, session, ticketParam) == Redirect(ToDashboard)
  {
    OwnedTicketIffOwns(db, ticketParam.value, session.technicianId.value);
  }

  /** In a consistent store the page is shown exactly when the ticket is the
      technician's and the technician's row exists (the inner join on the
      technician); the device join never fails, since tickets reference
      existing devices. */
  lemma ShownIff(db: Db, session: Session, ticketParam: Option<int>)
    requires db.Valid() && session.technicianId.Some? && IdGiven(ticketParam)
    ensures Page(db, session, ticketParam).Render?
        <==> db.Owns(ticketParam.value, session.technicianId.value)
             && db.TechnicianById(session.technicianId.value).Some?
  {
    var ticketId, technicianId := ticketParam.value, session.technicianId.value;
    OwnedTicketIffOwns(db, ticketId, technicianId);
    var t := db.OwnedTicket(ticketId, technicianId);
    if t.Some? {
      var i :| 0 <= i < |db.tickets| && db.tickets[i] == t.value;
      assert db.HasDevice(db.tickets[i].deviceId);
      var j :| 0 <= j < |db.devices| && db.devices[j].id == t.value.deviceId;
      assert db.DeviceById(t.value.deviceId).Some?;
    }
  }

  /** The parts shown are exactly the ticket's part rows, each as often as
      the table holds it, latest date first; the list is empty exactly when
      the ticket has no parts. */
  lemma PartsShown(db: Db, session: Session, ticketParam: Option<int>)
    requires Page(db, session, ticketParam).Render?
    ensures var v := Page(db, session, ticketParam).view;
      && SortedDesc(v.parts, (p: PartUsage) => p.date)
      && multiset(v.parts) == multiset(Filter(db.parts, (p: PartUsage) => p.ticketId == ticketParam.value))
      && (forall k :: 0 <= k < |v.parts| ==> v.parts[k].ticketId == ticketParam.value)
      && (v.parts != [] <==> db.HasParts(ticketParam.value))
  {
    PartsOfExactly(db, ticketParam.value);
  }

  /** The block shown follows the tables: the completed notice exactly when
      the ticket has feedback, whether or not parts were recorded; otherwise
      record-or-skip without parts and the single feedback button with
      them, each button carrying this ticket and the `parts` answer it
      stands for. */
  lemma PanelFollowsTables(db: Db, session: Session, ticketParam: Option<int>)
    requires Page(db, session, ticketParam).Render?
    ensures var v := Page(db, session, ticketParam).view;
            var id := ticketParam.value;
      && v.feedbackExists == db.HasFeedback(id)
      && (v.panel == ServiceCompleted <==> db.HasFeedback(id))
      && (v.panel == RecordOrSkip <==> !db.HasParts(id) && !db.HasFeedback(id))
      && (v.panel == CompleteFeedback <==> db.HasParts(id) && !db.HasFeedback(id))
      && (v.panel == RecordOrSkip ==>
            v.actions == [Action("Record Parts Usage", PartUsageLink(id)),
                          Action("No Parts Needed - Complete Service", FeedbackLink(id, "no"))])
      && (v.panel == CompleteFeedback ==> v.actions == [Action("Complete Service Feedback", FeedbackLink(id, "yes"))])
      && (v.panel == ServiceCompleted ==> v.actions == [])
  {
    PartsShown(db, session, ticketParam);
  }
}
