/** service_feedback.php: close one of the signed-in technician's tickets
    with its single feedback row. The ticket must belong to the technician;
    once a feedback row exists for it, a POST is not even read; otherwise
    the remarks must be non-empty after trimming, and the row is stored with
    whatever status was sent. */
module ServiceFeedbackPage {
  import opened Php
  import opened Schema
  import opened Web
  import opened Storage

  const DefaultStatus := "Completed"

  /** The POST fields; None for a field the request leaves out. */
  datatype Post = Post(remarks: Option<string>, status: Option<string>, dateSolved: Option<Date>)

  /** `$formData`. */
  datatype Form = Form(remarks: string, status: string, dateSolved: Date)

  /** The page: whether the ticket is already closed, whether the "parts
      were recorded" banner shows, and the form. */
  datatype View = View(ticketId: int, feedbackExists: bool, partsBanner: bool, form: Form)

  function DefaultForm(today: Date): Form {
    Form("", DefaultStatus, today)
  }

  /** Lines 53-55: remarks and status trimmed, status defaulting to
      "Completed"; the date is taken as sent. */
  function ReadForm(p: Post, today: Date): Form {
    Form(Trim(p.remarks.GetOr("")), Trim(p.status.GetOr(DefaultStatus)), p.dateSolved.GetOr(today))
  }

  /** Line 11 and 134: `($_GET['parts'] ?? 'no') === 'yes'`. */
  predicate PartsBanner(partsParam: Option<string>) {
    partsParam.GetOr("no") == "yes"
  }

  function Step(db: Db, session: Session, ticketParam: Option<int>, partsParam: Option<string>,
                post: Option<Post>, today: Date): (r: (Outcome<View>, Db))
    ensures session.technicianId.None? ==> r == (Redirect(ToIndex), db)
    ensures session.technicianId.Some? && !IdGiven(ticketParam) ==> r == (Redirect(ToDashboard), db)
    ensures r.1 != db ==>
              && IdGiven(ticketParam) && session.technicianId.Some?
              && db.OwnedTicket(ticketParam.value, session.technicianId.value).Some?
              && !db.HasFeedback(ticketParam.value)
              && Extends(db, r.1) && |r.1.feedback| == |db.feedback| + 1
              && r.1 == db.(feedback := r.1.feedback, nextFeedbackId := r.1.nextFeedbackId)
              && r.1.feedback[|db.feedback|].ticketId == ticketParam.value
              && r.1.feedback[|db.feedback|].technicianId == session.technicianId.value
              && r.1.feedback[|db.feedback|].remarks != ""
              && r.0 == Redirect(ToDashboardFeedbackSaved)
  {
    if session.technicianId.None? then (Redirect(ToIndex), db)
    else if !IdGiven(ticketParam) then (Redirect(ToDashboard), db)
    else
      var ticketId, technicianId := ticketParam.value, session.technicianId.value;
      if db.OwnedTicket(ticketId, technicianId).None? then (Redirect(ToDashboard), db)
      else
        var found := db.HasFeedback(ticketId);
        var banner := PartsBanner(partsParam);
        if post.Some? && !found then
          var f := ReadForm(post.value, today);
          if f.remarks == "" then (Render([RemarksRequired], View(ticketId, found, banner, f)), db)
          else (Redirect(ToDashboardFeedbackSaved),
                db.AddFeedback(technicianId, ticketId, f.remarks, f.status, f.dateSolved).0)
        else (Render([], View(ticketId, found, banner, DefaultForm(today))), db)
  }

  method Handle(store: Store, session: Session, ticketParam: Option<int>, partsParam: Option<string>,
                post: Option<Post>, today: Date) returns (out: Outcome<View>)
    modifies store
    ensures (out, store.Snapshot()) == Step(old(store.Snapshot()), session, ticketParam, partsParam, post, today)
  {
    if session.technicianId.None? {
      return Redirect(ToIndex);
    }
    if !IdGiven(ticketParam) {
      return Redirect(ToDashboard);
    }
    var ticketId := ticketParam.value;
    var technicianId := session.technicianId.value;
    if store.Snapshot().OwnedTicket(ticketId, technicianId).None? {
      return Redirect(ToDashboard);
    }
    var found := false;
    if store.Snapshot().HasFeedback(ticketId) {
      found := true;
    }
    var banner := PartsBanner(partsParam);
    var form := DefaultForm(today);
    var errors: seq<Message> := [];
    if post.Some? && !found {
      form := ReadForm(post.value, today);
      if form.remarks == "" {
        errors := errors + [RemarksRequired];
        assert errors == [RemarksRequired];
      }
      if errors == [] {
        var _ := store.InsertFeedback(technicianId, ticketId, form.remarks, form.status, form.dateSolved);
        return Redirect(ToDashboardFeedbackSaved);
      }
    }
    out := Render(errors, View(ticketId, found, banner, form));
  }

  // ---------------------------------------------------------------------
  // Properties of the request

  /** Anyone but the ticket's owner is redirected to the dashboard and
      nothing is written. */
  lemma NonOwnerRedirected(db: Db, session: Session, ticketParam: Option<int>, partsParam: Option<string>,
                           post: Option<Post>, today: Date)
    requires session.technicianId.Some? && IdGiven(ticketParam)
    requires !db.Owns(ticketParam.value, session.technicianId.value)
    ensures Step(db, session, ticketParam, partsParam, post, today) == (Redirect(ToDashboard), db)
  {
    OwnedTicketIffOwns(db, ticketParam.value, session.technicianId.value);
  }

  /** Once a ticket has feedback, any request for it, POST or not, renders
      the "already submitted" page without validating and writes nothing. */
  lemma ClosedTicketUnchanged(db: Db, session: Session, ticketParam: Option<int>, partsParam: Option<string>,
                              post: Option<Post>, today: Date)
    requires session.technicianId.Some? && IdGiven(ticketParam)
    requires db.Owns(ticketParam.value, session.technicianId.value)
    requires db.HasFeedback(ticketParam.value)
    ensures Step(db, session, ticketParam, partsParam, post, today)
         == (Render([], View(ticketParam.value, true, PartsBanner(partsParam), DefaultForm(today))), db)
  {
    OwnedTicketIffOwns(db, ticketParam.value, session.technicianId.value);
  }

  /** A row is added exactly when the owner of a ticket without feedback
      posts non-empty remarks. */
  predicate Accepted(db: Db, session: Session, ticketParam: Option<int>, post: Option<Post>, today: Date) {
    && session.technicianId.Some? && IdGiven(ticketParam)
    && db.Owns(ticketParam.value, session.technicianId.value)
    && !db.HasFeedback(ticketParam.value)
    && post.Some? && ReadForm(post.value, today).remarks != ""
  }

  /** Blank remarks give exactly the one error and no row. */
  lemma BlankRemarksRejected(db: Db, session: Session, ticketParam: Option<int>, partsParam: Option<string>,
                             p: Post, today: Date)
    requires session.technicianId.Some? && IdGiven(ticketParam)
    requires db.Owns(ticketParam.value, session.technicianId.value) && !db.HasFeedback(ticketParam.value)
    requires AllTrimSpace(p.remarks.GetOr(""))
    ensures Step(db, session, ticketParam, partsParam, Some(p), today)
         == (Render([RemarksRequired], View(ticketParam.value, false, PartsBanner(partsParam), ReadForm(p, today))), db)
  {
    OwnedTicketIffOwns(db, ticketParam.value, session.technicianId.value);
    TrimEmptyIff(p.remarks.GetOr(""));
  }

  /** Rejected requests write nothing; an accepted one appends exactly one
      feedback row carrying the session's technician, this ticket, the
      trimmed remarks and the trimmed status as sent (no check against a
      list of statuses), changes no other table and redirects to the
      dashboard with success=feedback. */
  lemma InsertIffAccepted(db: Db, session: Session, ticketParam: Option<int>, partsParam: Option<string>,
                          post: Option<Post>, today: Date)
    ensures var (out, db') := Step(db, session, ticketParam, partsParam, post, today);
      && (!Accepted(db, session, ticketParam, post, today) ==> db' == db)
      && (!Accepted(db, session, ticketParam, post, today) && session.technicianId.Some? && IdGiven(ticketParam)
          && db.Owns(ticketParam.value, session.technicianId.value)
          ==> out.Render?)
      && (Accepted(db, session, ticketParam, post, today) ==>
            var p := post.value;
            && db'.feedback == db.feedback + [Feedback(db.nextFeedbackId, session.technicianId.value, ticketParam.value,
                                                       Trim(p.remarks.GetOr("")), Trim(p.status.GetOr("Completed")),
                                                       p.dateSolved.GetOr(today))]
            && db'.technicians == db.technicians && db'.devices == db.devices
            && db'.tickets == db.tickets && db'.parts == db.parts
            && out == Redirect(ToDashboardFeedbackSaved))
  {
    if session.technicianId.Some? && IdGiven(ticketParam) {
      OwnedTicketIffOwns(db, ticketParam.value, session.technicianId.value);
    }
  }

  /** The parts parameter changes the banner only: never whether, or what,
      the request writes, nor where it redirects. */
  lemma PartsParamOnlyBanner(db: Db, session: Session, ticketParam: Option<int>, partsA: Option<string>,
                             partsB: Option<string>, post: Option<Post>, today: Date)
    ensures Step(db, session, ticketParam, partsA, post, today).1 == Step(db, session, ticketParam, partsB, post, today).1
    ensures Step(db, session, ticketParam, partsA, post, today).0.Redirect?
        <==> Step(db, session, ticketParam, partsB, post, today).0.Redirect?
    ensures Step(db, session, ticketParam, partsA, post, today).0.Redirect? ==>
            Step(db, session, ticketParam, partsA, post, today).0 == Step(db, session, ticketParam, partsB, post, today).0
    ensures var (a, b) := (Step(db, session, ticketParam, partsA, post, today).0,
                           Step(db, session, ticketParam, partsB, post, today).0);
      a.Render? ==> && a.errors == b.errors
                    && a.view.(partsBanner := false) == b.view.(partsBanner := false)
                    && a.view.partsBanner == PartsBanner(partsA) && b.view.partsBanner == PartsBanner(partsB)
  {
  }

  lemma StepKeepsValid(db: Db, session: Session, ticketParam: Option<int>, partsParam: Option<string>,
                       post: Option<Post>, today: Date)
    requires db.Valid()
    ensures Extends(db, Step(db, session, ticketParam, partsParam, post, today).1)
    ensures Step(db, session, ticketParam, partsParam, post, today).1.Valid()
  {
    InsertIffAccepted(db, session, ticketParam, partsParam, post, today);
    if Accepted(db, session, ticketParam, post, today) {
      var f := ReadForm(post.value, today);
      AddFeedbackValid(db, session.technicianId.value, ticketParam.value, f.remarks, f.status, f.dateSolved);
    }
  }

  /** Closing twice: after an accepted submission the ticket has feedback, so
      a second submission for it, with any fields, writes nothing; the ticket
      keeps exactly one feedback row. */
  lemma SecondSubmissionRejected(db: Db, session: Session, ticketParam: Option<int>, partsParam: Option<string>,
                                 p: Post, session2: Session, parts2: Option<string>, p2: Post, today: Date)
    requires db.Valid() && Accepted(db, session, ticketParam, Some(p), today)
    requires session2.technicianId.Some?
    ensures var db1 := Step(db, session, ticketParam, partsParam, Some(p), today).1;
      && db1.HasFeedback(ticketParam.value)
      && Step(db1, session2, ticketParam, parts2, Some(p2), today).1 == db1
  {
    var db1 := Step(db, session, ticketParam, partsParam, Some(p), today).1;
    InsertIffAccepted(db, session, ticketParam, partsParam, Some(p), today);
    assert db1.feedback[|db.feedback|].ticketId == ticketParam.value;
    InsertIffAccepted(db1, session2, ticketParam, parts2, Some(p2), today);
  }
}
