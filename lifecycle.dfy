/** How the pages work together: any request, to any page, keeps the
    store's invariants and only ever adds rows; a ticket moves from open, to
    parts recorded, to closed, and never back; and the hand-offs between
    pages (register then check, sign up then sign in, the work page's links
    into the feedback page) do what the pages promise each other. */
module Lifecycle {
  import opened Php
  import opened Query
  import opened Schema
  import opened Web
  import LoginPage
  import SignupPage
  import DashboardPage
  import DeviceCheckPage
  import DeviceRegisterPage
  import CreateTicketPage
  import WorkTicketPage
  import PartUsagePage
  import ServiceFeedbackPage

  /** What a request depends on besides the tables and the session: the
      current day and the password and e-mail functions PHP supplies. */
  datatype Env = Env(today: Date, hash: string -> string, verify: (string, string) -> bool,
                     validEmail: string -> bool)

  /** One request to one page, with that page's query string and POST body
      (None for a GET). */
  datatype Request =
    | Index(login: Option<LoginPage.Post>)
    | Signup(signup: Option<SignupPage.Post>)
    | Dashboard
    | DeviceCheck(serial: Option<Option<string>>)
    | DeviceRegister(serialParam: Option<string>, device: Option<DeviceRegisterPage.Post>)
    | CreateTicket(deviceParam: Option<int>, ticket: Option<CreateTicketPage.Post>)
    | WorkTicket(ticketParam: Option<int>)
    | PartUsage(partTicket: Option<int>, part: Option<PartUsagePage.Post>)
    | ServiceFeedback(feedbackTicket: Option<int>, partsParam: Option<string>,
                      feedback: Option<ServiceFeedbackPage.Post>)

  /** The tables and the session after one request. Only the sign-in page
      changes the session; only the five form pages change the tables. */
  function Apply(db: Db, session: Session, r: Request, env: Env): (out: (Db, Session))
    ensures Extends(db, out.0)
    ensures !r.Index? ==> out.1 == session
    ensures r.Index? || r.Dashboard? || r.DeviceCheck? || r.WorkTicket? ==> out.0 == db
  {
    match r
    case Index(p) => (db, LoginPage.Login(db, session, p, env.verify).1)
    case Signup(p) => (SignupPage.Step(db, session, p, env.hash, env.validEmail).1, session)
    case Dashboard => (db, session)
    case DeviceCheck(_) => (db, session)
    case DeviceRegister(s, p) => (DeviceRegisterPage.Step(db, session, s, p, env.today).1, session)
    case CreateTicket(d, p) => (CreateTicketPage.Step(db, session, d, p, env.today).1, session)
    case WorkTicket(_) => (db, session)
    case PartUsage(t, p) => (PartUsagePage.Step(db, session, t, p, env.today).1, session)
    case ServiceFeedback(t, parts, p) => (ServiceFeedbackPage.Step(db, session, t, parts, p, env.today).1, session)
  }

  /** A sequence of requests, one after the other. */
  function Run(db: Db, session: Session, rs: seq<Request>, env: Env): (out: (Db, Session))
    ensures Extends(db, out.0)
    ensures (forall k :: 0 <= k < |rs| ==> !rs[k].Index?) ==> out.1 == session
    decreases |rs|
  {
    if rs == [] then (db, session)
    else
      var (db', session') := Apply(db, session, rs[0], env);
      Run(db', session', rs[1..], env)
  }

  /** Every request keeps every invariant of the store, and only adds rows. */
  lemma ApplyKeepsValid(db: Db, session: Session, r: Request, env: Env)
    requires db.Valid()
    ensures Extends(db, Apply(db, session, r, env).0) && Apply(db, session, r, env).0.Valid()
  {
    match r
    case Index(_) =>
    case Signup(p) => SignupPage.StepKeepsValid(db, session, p, env.hash, env.validEmail);
    case Dashboard =>
    case DeviceCheck(_) =>
    case DeviceRegister(s, p) => DeviceRegisterPage.StepKeepsValid(db, session, s, p, env.today);
    case CreateTicket(d, p) => CreateTicketPage.StepKeepsValid(db, session, d, p, env.today);
    case WorkTicket(_) =>
    case PartUsage(t, p) => PartUsagePage.StepKeepsValid(db, session, t, p, env.today);
    case ServiceFeedback(t, parts, p) => ServiceFeedbackPage.StepKeepsValid(db, session, t, parts, p, env.today);
  }

  /** Any sequence of requests from a well-formed store, starting from the
      empty one in particular, leaves a well-formed store that holds every
      row the first one held. */
  lemma {:induction false} RunKeepsValid(db: Db, session: Session, rs: seq<Request>, env: Env)
    requires db.Valid()
    ensures Extends(db, Run(db, session, rs, env).0) && Run(db, session, rs, env).0.Valid()
    decreases |rs|
  {
    if rs != [] {
      var (db', session') := Apply(db, session, rs[0], env);
      ApplyKeepsValid(db, session, rs[0], env);
      RunKeepsValid(db', session', rs[1..], env);
    }
  }

  /** The tables as created are consistent, so every run of requests from
      them leaves a consistent database. */
  lemma RunFromEmpty(session: Session, rs: seq<Request>, env: Env)
    ensures Run(EmptyDb, session, rs, env).0.Valid()
  {
    EmptyDbValid();
    RunKeepsValid(EmptyDb, session, rs, env);
  }

  // ---------------------------------------------------------------------
  // A ticket's progress

  /** How far a ticket has come: the two facts the work page decides on. */
  datatype Stage = Open | PartsRecorded | Closed

  function StageOf(db: Db, ticketId: int): (s: Stage)
    ensures s == Closed <==> db.HasFeedback(ticketId)
    ensures s == Open <==> !db.HasParts(ticketId) && !db.HasFeedback(ticketId)
  {
    if db.HasFeedback(ticketId) then Closed
    else if db.HasParts(ticketId) then PartsRecorded
    else Open
  }

  function Rank(s: Stage): nat {
    match s
    case Open => 0
    case PartsRecorded => 1
    case Closed => 2
  }

  /** The work page's action block is the ticket's stage. */
  function PanelOf(s: Stage): WorkTicketPage.Panel {
    match s
    case Open => WorkTicketPage.RecordOrSkip
    case PartsRecorded => WorkTicketPage.CompleteFeedback
    case Closed => WorkTicketPage.ServiceCompleted
  }

  lemma PanelIsStage(db: Db, session: Session, ticketParam: Option<int>)
    requires WorkTicketPage.Page(db, session, ticketParam).Render?
    ensures WorkTicketPage.Page(db, session, ticketParam).view.panel == PanelOf(StageOf(db, ticketParam.value))
  {
    WorkTicketPage.PanelFollowsTables(db, session, ticketParam);
  }

  /** Rows are never removed, so no ticket ever goes back a stage, whatever
      requests come in between. */
  lemma {:induction false} StageNeverGoesBack(db: Db, session: Session, rs: seq<Request>, env: Env, ticketId: int)
    requires db.Valid()
    ensures Rank(StageOf(db, ticketId)) <= Rank(StageOf(Run(db, session, rs, env).0, ticketId))
  {
    var db' := Run(db, session, rs, env).0;
    RunKeepsValid(db, session, rs, env);
    ExtendsKeeps(db, db', ticketId, 0);
  }

  /** A ticket just opened is open: in a well-formed store no part or
      feedback row can carry the id it gets. Its work page, for the
      technician who opened it, offers to record parts or skip them. */
  lemma NewTicketIsOpen(db: Db, session: Session, deviceParam: Option<int>, p: CreateTicketPage.Post, today: Date)
    requires db.Valid() && CreateTicketPage.Accepted(db, session, deviceParam, Some(p), today)
    requires db.TechnicianById(session.technicianId.value).Some?
    ensures var db1 := CreateTicketPage.Step(db, session, deviceParam, Some(p), today).1;
      && StageOf(db1, db.nextTicketId) == Open
      && WorkTicketPage.Page(db1, session, Some(db.nextTicketId)).Render?
      && WorkTicketPage.Page(db1, session, Some(db.nextTicketId)).view.panel == WorkTicketPage.RecordOrSkip
  {
    var db1 := CreateTicketPage.Step(db, session, deviceParam, Some(p), today).1;
    var id := db.nextTicketId;
    CreateTicketPage.InsertIffAccepted(db, session, deviceParam, Some(p), today);
    CreateTicketPage.StepKeepsValid(db, session, deviceParam, Some(p), today);
    NoRowsForNextTicket(db);
    assert db1 == db.(tickets := db1.tickets, nextTicketId := db1.nextTicketId);
    assert db1.parts == db.parts && db1.feedback == db.feedback && db1.technicians == db.technicians;
    assert StageOf(db1, id) == Open by {
      assert !db1.HasParts(id) && !db1.HasFeedback(id);
    }
    assert db1.TechnicianById(session.technicianId.value) == db.TechnicianById(session.technicianId.value);
    assert id != 0 by {
      assert db.nextTicketId >= 1;
    }
    WorkTicketPage.ShownIff(db1, session, Some(id));
    PanelIsStage(db1, session, Some(id));
  }

  /** No part or feedback row refers to the id the next ticket will get. */
  lemma NoRowsForNextTicket(db: Db)
    requires db.Valid()
    ensures !db.HasParts(db.nextTicketId) && !db.HasFeedback(db.nextTicketId)
  {
  }

  /** Recording a part on an open ticket moves it to parts recorded. */
  lemma PartMovesTicketOn(db: Db, session: Session, ticketParam: Option<int>, p: PartUsagePage.Post, today: Date)
    requires PartUsagePage.Accepted(db, session, ticketParam, Some(p), today)
    requires !db.HasFeedback(ticketParam.value)
    ensures StageOf(PartUsagePage.Step(db, session, ticketParam, Some(p), today).1, ticketParam.value) == PartsRecorded
  {
    var db1 := PartUsagePage.Step(db, session, ticketParam, Some(p), today).1;
    PartUsagePage.InsertIffAccepted(db, session, ticketParam, Some(p), today);
    assert db1.parts[|db.parts|].ticketId == ticketParam.value;
  }

  /** Submitting feedback closes the ticket, with or without parts. */
  lemma FeedbackClosesTicket(db: Db, session: Session, ticketParam: Option<int>, parts: Option<string>,
                             p: ServiceFeedbackPage.Post, today: Date)
    requires ServiceFeedbackPage.Accepted(db, session, ticketParam, Some(p), today)
    ensures StageOf(ServiceFeedbackPage.Step(db, session, ticketParam, parts, Some(p), today).1, ticketParam.value) == Closed
  {
    var db1 := ServiceFeedbackPage.Step(db, session, ticketParam, parts, Some(p), today).1;
    ServiceFeedbackPage.InsertIffAccepted(db, session, ticketParam, parts, Some(p), today);
    assert db1.feedback[|db.feedback|].ticketId == ticketParam.value;
  }

  /** The feedback closes the ticket with the status it was submitted
      with: the dashboard's COALESCE now yields that status, trimmed, or
      "Completed" when the form sent none. */
  lemma FeedbackSetsStatus(db: Db, session: Session, ticketParam: Option<int>, parts: Option<string>,
                           p: ServiceFeedbackPage.Post, today: Date)
    requires ServiceFeedbackPage.Accepted(db, session, ticketParam, Some(p), today)
    ensures DashboardPage.StatusOf(ServiceFeedbackPage.Step(db, session, ticketParam, parts, Some(p), today).1,
                                   ticketParam.value)
         == Trim(p.status.GetOr(ServiceFeedbackPage.DefaultStatus))
  {
    var db1 := ServiceFeedbackPage.Step(db, session, ticketParam, parts, Some(p), today).1;
    var id := ticketParam.value;
    ServiceFeedbackPage.InsertIffAccepted(db, session, ticketParam, parts, Some(p), today);
    assert db1.feedback[|db.feedback|].ticketId == id;
    var k := FindFirst(db1.feedback, (f: Feedback) => f.ticketId == id);
    assert k.Some?;
    assert k.value == |db.feedback|;
  }

  /** The part page does not look at feedback: a closed ticket still takes
      new part rows, and stays closed. */
  lemma PartsAfterClosing(db: Db, session: Session, ticketParam: Option<int>, p: PartUsagePage.Post, today: Date)
    requires PartUsagePage.Accepted(db, session, ticketParam, Some(p), today)
    requires db.HasFeedback(ticketParam.value)
    ensures var db1 := PartUsagePage.Step(db, session, ticketParam, Some(p), today).1;
      |db1.parts| == |db.parts| + 1 && StageOf(db1, ticketParam.value) == Closed
  {
    var db1 := PartUsagePage.Step(db, session, ticketParam, Some(p), today).1;
    PartUsagePage.InsertIffAccepted(db, session, ticketParam, Some(p), today);
    var i :| 0 <= i < |db.feedback| && db.feedback[i].ticketId == ticketParam.value;
    assert db1.feedback[i] == db.feedback[i];
  }

  /** The work page's links into the feedback page: the one offered after
      parts were recorded turns the "parts recorded" banner on, the one
      offered to skip parts leaves it off. */
  lemma FeedbackLinksSetBanner(ticketId: int)
    ensures WorkTicketPage.Actions(WorkTicketPage.CompleteFeedback, ticketId)[0].link
         == WorkTicketPage.FeedbackLink(ticketId, "yes")
    ensures ServiceFeedbackPage.PartsBanner(Some("yes"))
    ensures WorkTicketPage.Actions(WorkTicketPage.RecordOrSkip, ticketId)[1].link
         == WorkTicketPage.FeedbackLink(ticketId, "no")
    ensures !ServiceFeedbackPage.PartsBanner(Some("no"))
  {
    assert "no" != "yes";
  }

  // ---------------------------------------------------------------------
  // Hand-offs between pages

  /** A device just registered is found by the device check under the serial
      it was registered with, which sends the technician on to open a ticket
      for it. */
  lemma RegisteredDeviceIsFound(db: Db, session: Session, serialParam: Option<string>,
                                p: DeviceRegisterPage.Post, today: Date)
    requires db.Valid() && DeviceRegisterPage.Accepted(db, session, Some(p), today)
    ensures var db1 := DeviceRegisterPage.Step(db, session, serialParam, Some(p), today).1;
      DeviceCheckPage.Check(db1, session, Some(p.serial)) == Redirect(ToCreateTicket(db.nextDeviceId))
  {
    var db1 := DeviceRegisterPage.Step(db, session, serialParam, Some(p), today).1;
    DeviceRegisterPage.InsertIffAccepted(db, session, serialParam, Some(p), today);
    DeviceRegisterPage.StepKeepsValid(db, session, serialParam, Some(p), today);
    var serial := DeviceRegisterPage.ReadForm(p, today).serial;
    assert db1.devices[|db.devices|].serial == serial;
    DeviceCheckPage.KnownSerialFindsDevice(db1, session, p.serial.GetOr(""), |db.devices|);
  }

  /** The other half of that hand-over: a serial the device check does not
      know sends the technician to the registration page with the trimmed
      serial in the query string, and the registration form then starts
      with that serial filled in and the other fields empty. */
  lemma UnknownSerialPrefillsRegistration(db: Db, session: Session, field: string, today: Date)
    requires session.technicianId.Some? && Trim(field) != "" && db.DeviceBySerial(Trim(field)).None?
    ensures DeviceCheckPage.Check(db, session, Some(Some(field))) == Redirect(ToRegisterDevice(Trim(field)))
    ensures DeviceRegisterPage.Step(db, session, Some(Trim(field)), None, today)
         == (Render([], DeviceRegisterPage.View(DeviceRegisterPage.Form(Trim(field), "", "", "", today))), db)
  {
    DeviceCheckPage.UnknownSerialRegisters(db, session, field);
  }

  /** An account just created can sign in with the e-mail and password it
      was created with, provided the supplied check accepts a password
      against its own hash; the session then holds the new account. */
  lemma SignedUpCanSignIn(db: Db, p: SignupPage.Post, env: Env)
    requires db.Valid() && SignupPage.Accepted(db, SignedOut, Some(p), env.validEmail)
    requires env.verify(p.password.GetOr(""), env.hash(p.password.GetOr("")))
    ensures var db1 := SignupPage.Step(db, SignedOut, Some(p), env.hash, env.validEmail).1;
            var f := SignupPage.ReadForm(p);
      LoginPage.Login(db1, SignedOut, Some(LoginPage.Post(p.email, p.password)), env.verify)
        == (Redirect(ToDashboard), Session(Some(db.nextTechnicianId), Some(f.firstName + " " + f.lastName)))
  {
    var db1 := SignupPage.Step(db, SignedOut, Some(p), env.hash, env.validEmail).1;
    SignupPage.StoresHashOnly(db, SignedOut, p, env.hash, env.validEmail);
    SignupPage.InsertIffAccepted(db, SignedOut, Some(p), env.hash, env.validEmail);
    SignupPage.StepKeepsValid(db, SignedOut, Some(p), env.hash, env.validEmail);
    SignupPage.FieldErrorsEmptyIff(SignupPage.ReadForm(p), p.password.GetOr(""), p.confirm.GetOr(""), env.validEmail);
    var i := |db.technicians|;
    assert db1.technicians[i].email == SignupPage.ReadForm(p).email;
    LoginPage.SignsInRegisteredAccount(db1, LoginPage.Post(p.email, p.password), env.verify, i);
  }
}
