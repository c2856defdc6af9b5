/** signup.php: create a technician account. Every failed field check adds
    its own message; the e-mail is looked up only when all of them passed;
    the account stores the password's hash, and the form is then cleared.
    Password hashing and the e-mail syntax check are functions the caller
    supplies. */
module SignupPage {
  import opened Php
  import opened Schema
  import opened Web
  import opened Storage

  /** The shortest password accepted (line 35). */
  const MinPasswordLength := 8

  datatype Post = Post(firstName: Option<string>, lastName: Option<string>, phone: Option<string>,
                       email: Option<string>, password: Option<string>, confirm: Option<string>)

  /** The four fields the form keeps; the passwords are never shown again. */
  datatype Form = Form(firstName: string, lastName: string, phone: string, email: string)

  datatype View = View(success: Option<Message>, form: Form)

  const EmptyForm := Form("", "", "", "")

  /** Lines 21-23: the four form fields trimmed. */
  function ReadForm(p: Post): Form {
    Form(Trim(p.firstName.GetOr("")), Trim(p.lastName.GetOr("")), Trim(p.phone.GetOr("")), Trim(p.email.GetOr("")))
  }

  predicate Complete(f: Form) {
    f.firstName != "" && f.lastName != "" && f.phone != "" && f.email != ""
  }

  /** Lines 27-41: the four field checks, each adding its message. The
      password and its confirmation are compared untrimmed. */
  function FieldErrors(f: Form, password: string, confirm: string, validEmail: string -> bool): (errs: seq<Message>)
    ensures SignupRequired in errs <==> !Complete(f)
    ensures InvalidEmail in errs <==> !validEmail(f.email)
    ensures PasswordTooShort in errs <==> |password| < MinPasswordLength
    ensures PasswordMismatch in errs <==> password != confirm
    ensures EmailTaken !in errs && AccountCreated !in errs
    ensures |errs| <= 4
  {
    (if !Complete(f) then [SignupRequired] else [])
    + (if !validEmail(f.email) then [InvalidEmail] else [])
    + (if |password| < MinPasswordLength then [PasswordTooShort] else [])
    + (if password != confirm then [PasswordMismatch] else [])
  }

  /** A submission passes the field checks exactly when all four fields are
      filled, the e-mail is valid, and the password is long enough and
      confirmed. */
  lemma FieldErrorsEmptyIff(f: Form, password: string, confirm: string, validEmail: string -> bool)
    ensures FieldErrors(f, password, confirm, validEmail) == []
        <==> Complete(f) && validEmail(f.email) && |password| >= MinPasswordLength && password == confirm
  {
    var errs := FieldErrors(f, password, confirm, validEmail);
    if errs == [] {
      assert SignupRequired !in errs && InvalidEmail !in errs;
    }
  }

  method Validate(f: Form, password: string, confirm: string, validEmail: string -> bool)
    returns (errors: seq<Message>)
    ensures errors == FieldErrors(f, password, confirm, validEmail)
  {
    errors := [];
    if f.firstName == "" || f.lastName == "" || f.phone == "" || f.email == "" {
      errors := errors + [SignupRequired];
    }
    if !validEmail(f.email) {
      errors := errors + [InvalidEmail];
    }
    if |password| < MinPasswordLength {
      errors := errors + [PasswordTooShort];
    }
    assert errors == (if !Complete(f) then [SignupRequired] else [])
                     + (if !validEmail(f.email) then [InvalidEmail] else [])
                     + (if |password| < MinPasswordLength then [PasswordTooShort] else []);
    if password != confirm {
      errors := errors + [PasswordMismatch];
    }
  }

  /** The whole request; it returns no session, since signing up does not
      sign in. */
  function Step(db: Db, session: Session, post: Option<Post>, hash: string -> string, validEmail: string -> bool)
    : (r: (Outcome<View>, Db))
    ensures session.technicianId.Some? ==> r == (Redirect(ToDashboard), db)
    ensures r.1 != db ==>
              && Extends(db, r.1) && |r.1.technicians| == |db.technicians| + 1
              && r.1 == db.(technicians := r.1.technicians, nextTechnicianId := r.1.nextTechnicianId)
              && db.TechnicianByEmail(r.1.technicians[|db.technicians|].email).None?
              && r.0 == Render([], View(Some(AccountCreated), EmptyForm))
  {
    if session.technicianId.Some? then (Redirect(ToDashboard), db)
    else match post
      case None => (Render([], View(None, EmptyForm)), db)
      case Some(p) =>
        var f := ReadForm(p);
        var password, confirm := p.password.GetOr(""), p.confirm.GetOr("");
        var errs := FieldErrors(f, password, confirm, validEmail);
        if errs != [] then (Render(errs, View(None, f)), db)
        else if db.TechnicianByEmail(f.email).Some? then (Render([EmailTaken], View(None, f)), db)
        else (Render([], View(Some(AccountCreated), EmptyForm)),
              db.AddTechnician(f.firstName, f.lastName, f.phone, f.email, hash(password)).0)
  }

  method Handle(store: Store, session: Session, post: Option<Post>, hash: string -> string,
                validEmail: string -> bool) returns (out: Outcome<View>)
    modifies store
    ensures (out, store.Snapshot()) == Step(old(store.Snapshot()), session, post, hash, validEmail)
  {
    if session.technicianId.Some? {
      return Redirect(ToDashboard);
    }
    var errors: seq<Message> := [];
    var success: Option<Message> := None;
    var form := EmptyForm;
    if post.Some? {
      form := ReadForm(post.value);
      var password := post.value.password.GetOr("");
      var confirm := post.value.confirm.GetOr("");
      errors := Validate(form, password, confirm, validEmail);
      if errors == [] {
        if store.Snapshot().TechnicianByEmail(form.email).Some? {
          errors := errors + [EmailTaken];
          assert errors == [EmailTaken];
        }
      }
      if errors == [] {
        var _ := store.InsertTechnician(form.firstName, form.lastName, form.phone, form.email, hash(password));
        success := Some(AccountCreated);
        form := EmptyForm;
      }
    }
    out := Render(errors, View(success, form));
  }

  // ---------------------------------------------------------------------
  // Properties of the request

  predicate Accepted(db: Db, session: Session, post: Option<Post>, validEmail: string -> bool) {
    && session.technicianId.None? && post.Some?
    && var f := ReadForm(post.value);
       && FieldErrors(f, post.value.password.GetOr(""), post.value.confirm.GetOr(""), validEmail) == []
       && db.TechnicianByEmail(f.email).None?
  }

  /** Rejected requests write nothing; an accepted one appends exactly one
      technician with the trimmed fields and the hash of the password as
      sent, changes no other table, and answers with the success message and
      a cleared form. */
  lemma InsertIffAccepted(db: Db, session: Session, post: Option<Post>, hash: string -> string,
                          validEmail: string -> bool)
    ensures var (out, db') := Step(db, session, post, hash, validEmail);
      && (!Accepted(db, session, post, validEmail) ==> db' == db)
      && (Accepted(db, session, post, validEmail) ==>
            var f := ReadForm(post.value);
            && db'.technicians == db.technicians + [Technician(db.nextTechnicianId, f.firstName, f.lastName, f.phone,
                                                               f.email, hash(post.value.password.GetOr("")))]
            && db'.devices == db.devices && db'.tickets == db.tickets
            && db'.parts == db.parts && db'.feedback == db.feedback
            && out == Render([], View(Some(AccountCreated), EmptyForm)))
  {
  }

  /** The duplicate-e-mail check runs only after every field check passed:
      a submission with field errors reports them alone, even for an e-mail
      already registered. */
  lemma FieldErrorsHideDuplicate(db: Db, session: Session, p: Post, hash: string -> string,
                                 validEmail: string -> bool)
    requires session.technicianId.None?
    requires FieldErrors(ReadForm(p), p.password.GetOr(""), p.confirm.GetOr(""), validEmail) != []
    ensures var out := Step(db, session, Some(p), hash, validEmail).0;
      out.Render? && EmailTaken !in out.errors
      && out.errors == FieldErrors(ReadForm(p), p.password.GetOr(""), p.confirm.GetOr(""), validEmail)
  {
  }

  /** An account is only created for a password of at least eight
      characters, and what it stores is the supplied hash of that password. */
  lemma StoresHashOnly(db: Db, session: Session, p: Post, hash: string -> string, validEmail: string -> bool)
    requires Accepted(db, session, Some(p), validEmail)
    ensures var db' := Step(db, session, Some(p), hash, validEmail).1;
      db'.technicians[|db.technicians|].passwordHash == hash(p.password.GetOr(""))
      && FieldErrors(ReadForm(p), p.password.GetOr(""), p.confirm.GetOr(""), validEmail) == []
      && |p.password.GetOr("")| >= MinPasswordLength
  {
    InsertIffAccepted(db, session, Some(p), hash, validEmail);
    FieldErrorsEmptyIff(ReadForm(p), p.password.GetOr(""), p.confirm.GetOr(""), validEmail);
  }

  lemma StepKeepsValid(db: Db, session: Session, post: Option<Post>, hash: string -> string, validEmail: string -> bool)
    requires db.Valid()
    ensures Extends(db, Step(db, session, post, hash, validEmail).1)
    ensures Step(db, session, post, hash, validEmail).1.Valid()
  {
    InsertIffAccepted(db, session, post, hash, validEmail);
    if Accepted(db, session, post, validEmail) {
      var f := ReadForm(post.value);
      AddTechnicianValid(db, f.firstName, f.lastName, f.phone, f.email, hash(post.value.password.GetOr("")));
    }
  }

  /** Signing up twice with the same e-mail: the second submission, however
      valid otherwise, is refused with the duplicate message. */
  lemma SecondSignupRejected(db: Db, p: Post, p2: Post, hash: string -> string, validEmail: string -> bool)
    requires Accepted(db, SignedOut, Some(p), validEmail)
    requires FieldErrors(ReadForm(p2), p2.password.GetOr(""), p2.confirm.GetOr(""), validEmail) == []
    requires ReadForm(p2).email == ReadForm(p).email
    ensures var db1 := Step(db, SignedOut, Some(p), hash, validEmail).1;
      Step(db1, SignedOut, Some(p2), hash, validEmail) == (Render([EmailTaken], View(None, ReadForm(p2))), db1)
  {
    var db1 := Step(db, SignedOut, Some(p), hash, validEmail).1;
    InsertIffAccepted(db, SignedOut, Some(p), hash, validEmail);
    assert db1.technicians[|db.technicians|].email == ReadForm(p2).email;
  }
}
