/** part_usage.php: record a part consumed on one of the signed-in
    technician's tickets. The ticket must belong to the technician; the
    three fields are trimmed and checked, each failed check adding its own
    message; a part row is appended only when no message was added, and the
    form then goes back to its defaults. */
module PartUsagePage {
  import opened Php
  import opened Schema
  import opened Web
  import opened Storage

  /** The POST fields; None for a field the request leaves out. */
  datatype Post = Post(partName: Option<string>, quantity: Option<string>, cost: Option<string>,
                       date: Option<Date>)

  /** `$formData`: what the form shows. */
  datatype Form = Form(partName: string, quantity: string, cost: string, date: Date)

  datatype View = View(ticketId: int, success: Option<Message>, form: Form)

  function DefaultForm(today: Date): Form {
    Form("", "1", "", today)
  }

  /** Lines 41-44: the three text fields trimmed, with their defaults; the
      date is taken as sent. */
  function ReadForm(p: Post, today: Date): Form
  {
    Form(Trim(p.partName.GetOr("")), Trim(p.quantity.GetOr("1")), Trim(p.cost.GetOr("")), p.date.GetOr(today))
  }

  /** `is_numeric($q) && $q >= 1`. */
  predicate QuantityValid(q: string) {
    ParseNumber(q).Some? && ParseNumber(q).value >= 1.0
  }

  /** `is_numeric($c) && $c >= 0`. */
  predicate CostValid(c: string) {
    ParseNumber(c).Some? && ParseNumber(c).value >= 0.0
  }

  /** A part row worth recording: a name, a quantity of at least one and a
      cost that is a number and not negative. */
  predicate Acceptable(f: Form) {
    f.partName != "" && QuantityValid(f.quantity) && CostValid(f.cost)
  }

  /** The messages lines 46-56 collect, in the order the checks run. */
  function Errors(f: Form): (errs: seq<Message>)
    ensures PartRequired in errs <==> f.partName == "" || f.cost == ""
    ensures QuantityInvalid in errs <==> !QuantityValid(f.quantity)
    ensures CostInvalid in errs <==> !CostValid(f.cost)
    ensures forall k :: 0 <= k < |errs| ==> errs[k] == PartRequired || errs[k] == QuantityInvalid || errs[k] == CostInvalid
  {
    (if f.partName == "" || f.cost == "" then [PartRequired] else [])
    + (if !QuantityValid(f.quantity) then [QuantityInvalid] else [])
    + (if !CostValid(f.cost) then [CostInvalid] else [])
  }

  /** The error list is empty exactly for an acceptable row. */
  lemma ErrorsEmptyIffAcceptable(f: Form)
    ensures Errors(f) == [] <==> Acceptable(f)
  {
    if Errors(f) == [] {
      assert PartRequired !in Errors(f) && CostInvalid !in Errors(f);
    }
  }

  /** Errors accumulate: an empty cost is both missing and not a number. */
  lemma EmptyCostGivesTwoErrors(f: Form)
    requires f.cost == ""
    ensures PartRequired in Errors(f) && CostInvalid in Errors(f)
  {
  }

  /** The row lines 59-67 insert: the quantity goes through an integer bind,
      so its fractional part is dropped; the cost is kept exactly. */
  function RowFields(f: Form): (r: (int, real))
    requires Acceptable(f)
    ensures r.0 >= 1 && r.1 >= 0.0
    ensures ParseNumber(f.cost) == Some(r.1)
    ensures r.0 as real <= ParseNumber(f.quantity).value < r.0 as real + 1.0
  {
    assert ParseNumber(f.quantity).value >= 1.0;
    (ParseNumber(f.quantity).value.Floor, ParseNumber(f.cost).value)
  }

  /** Lines 46-56: each check appends its message to the error list. */
  method Validate(form: Form) returns (errors: seq<Message>)
    ensures errors == Errors(form)
  {
    errors := [];
    if form.partName == "" || form.cost == "" {
      errors := errors + [PartRequired];
    }
    var quantity := ParseNumber(form.quantity);
    if quantity.None? || quantity.value < 1.0 {
      errors := errors + [QuantityInvalid];
    }
    assert errors == (if form.partName == "" || form.cost == "" then [PartRequired] else [])
                     + (if !QuantityValid(form.quantity) then [QuantityInvalid] else []);
    var cost := ParseNumber(form.cost);
    if cost.None? || cost.value < 0.0 {
      errors := errors + [CostInvalid];
    }
  }

  /** The whole request, as a function of the tables before it: the outcome
      and the tables after it. */
  function Step(db: Db, session: Session, ticketParam: Option<int>, post: Option<Post>, today: Date)
    : (r: (Outcome<View>, Db))
    ensures session.technicianId.None? ==> r == (Redirect(ToIndex), db)
    ensures session.technicianId.Some? && !IdGiven(ticketParam) ==> r == (Redirect(ToDashboard), db)
    ensures r.1 != db ==>
              && IdGiven(ticketParam) && session.technicianId.Some?
              && db.OwnedTicket(ticketParam.value, session.technicianId.value).Some?
              && Extends(db, r.1) && |r.1.parts| == |db.parts| + 1
              && r.1 == db.(parts := r.1.parts, nextPartId := r.1.nextPartId)
              && r.1.parts[|db.parts|].ticketId == ticketParam.value
              && r.1.parts[|db.parts|].quantity >= 1 && r.1.parts[|db.parts|].cost >= 0.0
              && r.0 == Render([], View(ticketParam.value, Some(PartRecorded), DefaultForm(today)))
  {
    if session.technicianId.None? then (Redirect(ToIndex), db)
    else if !IdGiven(ticketParam) then (Redirect(ToDashboard), db)
    else
      var ticketId, technicianId := ticketParam.value, session.technicianId.value;
      if db.OwnedTicket(ticketId, technicianId).None? then (Redirect(ToDashboard), db)
      else match post
        case None => (Render([], View(ticketId, None, DefaultForm(today))), db)
        case Some(p) =>
          var f := ReadForm(p, today);
          var errs := Errors(f);
          if errs != [] then (Render(errs, View(ticketId, None, f)), db)
          else
            ErrorsEmptyIffAcceptable(f);
            var (quantity, cost) := RowFields(f);
            (Render([], View(ticketId, Some(PartRecorded), DefaultForm(today))),
             db.AddPart(ticketId, f.partName, quantity, cost, f.date).0)
  }

  /** The handler: session gate, ticket gate, ownership check, then the
      checks one by one, appending to the error list, and the insert. */
  method Handle(store: Store, session: Session, ticketParam: Option<int>, post: Option<Post>, today: Date)
    returns (out: Outcome<View>)
    modifies store
    ensures (out, store.Snapshot()) == Step(old(store.Snapshot()), session, ticketParam, post, today)
  {
    if session.technicianId.None? {
      return Redirect(ToIndex);
    }
    if !IdGiven(ticketParam) {
      return Redirect(ToDashboard);
    }
    var ticketId := ticketParam.value;
    var technicianId := session.technicianId.value;
    if store.Snapshot().OwnedTicket(ticketId, technicianId).None? {
      return Redirect(ToDashboard);
    }
    var errors: seq<Message> := [];
    var success: Option<Message> := None;
    var form := DefaultForm(today);
    if post.Some? {
      form := ReadForm(post.value, today);
      errors := Validate(form);
      if errors == [] {
        ErrorsEmptyIffAcceptable(form);
        var (quantity, cost) := RowFields(form);
        var _ := store.InsertPart(ticketId, form.partName, quantity, cost, form.date);
        success := Some(PartRecorded);
        form := DefaultForm(today);
      }
    }
    out := Render(errors, View(ticketId, success, form));
  }

  // ---------------------------------------------------------------------
  // Properties of the request

  /** The request reaches the form only for a signed-in technician who owns
      the ticket; anyone else is redirected and nothing is written. */
  lemma NonOwnerRedirected(db: Db, session: Session, ticketParam: Option<int>, post: Option<Post>, today: Date)
    requires session.technicianId.Some? && IdGiven(ticketParam)
    requires !db.Owns(ticketParam.value, session.technicianId.value)
    ensures Step(db, session, ticketParam, post, today) == (Redirect(ToDashboard), db)
  {
    OwnedTicketIffOwns(db, ticketParam.value, session.technicianId.value);
  }

  /** A row is appended exactly when an owner submits an acceptable form. */
  predicate Accepted(db: Db, session: Session, ticketParam: Option<int>, post: Option<Post>, today: Date) {
    && session.technicianId.Some? && IdGiven(ticketParam)
    && db.Owns(ticketParam.value, session.technicianId.value)
    && post.Some? && Acceptable(ReadForm(post.value, today))
  }

  /** Rejected requests leave the tables as they were; accepted ones append
      exactly one row, for this ticket, with the trimmed fields, and change
      nothing else; the form is then reset to its defaults. */
  lemma InsertIffAccepted(db: Db, session: Session, ticketParam: Option<int>, post: Option<Post>, today: Date)
    ensures var (out, db') := Step(db, session, ticketParam, post, today);
      && (!Accepted(db, session, ticketParam, post, today) ==> db' == db)
      && (Accepted(db, session, ticketParam, post, today) ==>
            var f := ReadForm(post.value, today);
            && db'.parts == db.parts + [PartUsage(db.nextPartId, ticketParam.value, f.partName,
                                                  RowFields(f).0, RowFields(f).1, f.date)]
            && db'.technicians == db.technicians && db'.devices == db.devices
            && db'.tickets == db.tickets && db'.feedback == db.feedback
            && out == Render([], View(ticketParam.value, Some(PartRecorded), DefaultForm(today))))
  {
    if session.technicianId.Some? && IdGiven(ticketParam) {
      OwnedTicketIffOwns(db, ticketParam.value, session.technicianId.value);
      if post.Some? {
        ErrorsEmptyIffAcceptable(ReadForm(post.value, today));
      }
    }
  }

  /** A submitted form with errors is shown again as submitted (trimmed),
      with exactly the messages of its failed checks. */
  lemma RejectedFormKept(db: Db, session: Session, ticketParam: Option<int>, p: Post, today: Date)
    requires session.technicianId.Some? && IdGiven(ticketParam)
    requires db.Owns(ticketParam.value, session.technicianId.value)
    requires !Acceptable(ReadForm(p, today))
    ensures Step(db, session, ticketParam, Some(p), today)
         == (Render(Errors(ReadForm(p, today)), View(ticketParam.value, None, ReadForm(p, today))), db)
  {
    OwnedTicketIffOwns(db, ticketParam.value, session.technicianId.value);
    ErrorsEmptyIffAcceptable(ReadForm(p, today));
  }

  /** The handler keeps every store invariant, and only ever adds rows. */
  lemma StepKeepsValid(db: Db, session: Session, ticketParam: Option<int>, post: Option<Post>, today: Date)
    requires db.Valid()
    ensures Extends(db, Step(db, session, ticketParam, post, today).1)
    ensures Step(db, session, ticketParam, post, today).1.Valid()
  {
    if Accepted(db, session, ticketParam, post, today) {
      var f := ReadForm(post.value, today);
      var (quantity, cost) := RowFields(f);
      assert db.HasTicket(ticketParam.value) by {
        var t :| 0 <= t < |db.tickets| && db.tickets[t].id == ticketParam.value
                 && db.tickets[t].technicianId == session.technicianId.value;
      }
      AddPartValid(db, ticketParam.value, f.partName, quantity, cost, f.date);
      AcceptedStep(db, session, ticketParam, post, today);
    } else {
      InsertIffAccepted(db, session, ticketParam, post, today);
    }
  }

  /** An accepted request's new tables are the old ones plus its part row. */
  lemma AcceptedStep(db: Db, session: Session, ticketParam: Option<int>, post: Option<Post>, today: Date)
    requires Accepted(db, session, ticketParam, post, today)
    ensures var f := ReadForm(post.value, today);
      Step(db, session, ticketParam, post, today).1
        == db.AddPart(ticketParam.value, f.partName, RowFields(f).0, RowFields(f).1, f.date).0
  {
    OwnedTicketIffOwns(db, ticketParam.value, session.technicianId.value);
    ErrorsEmptyIffAcceptable(ReadForm(post.value, today));
  }

  /** There is no duplicate check: the same acceptable submission made twice
      records two rows. */
  lemma RepeatedSubmissionAppendsAgain(db: Db, session: Session, ticketParam: Option<int>, p: Post, today: Date)
    requires db.Valid() && Accepted(db, session, ticketParam, Some(p), today)
    ensures var db1 := Step(db, session, ticketParam, Some(p), today).1;
            var db2 := Step(db1, session, ticketParam, Some(p), today).1;
            |db2.parts| == |db.parts| + 2
  {
    var db1 := Step(db, session, ticketParam, Some(p), today).1;
    InsertIffAccepted(db, session, ticketParam, Some(p), today);
    StepKeepsValid(db, session, ticketParam, Some(p), today);
    ExtendsKeeps(db, db1, ticketParam.value, session.technicianId.value);
    InsertIffAccepted(db1, session, ticketParam, Some(p), today);
  }
}
