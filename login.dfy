/** index.php: sign a technician in. The e-mail is trimmed, the password
    is taken as sent; both must be non-empty; the account is found by
    e-mail and the password checked against its stored hash by a function
    the caller supplies. The page only reads the tables; what it changes is
    the session. */
module LoginPage {
  import opened Php
  import opened Schema
  import opened Web
  import opened Storage

  datatype Post = Post(email: Option<string>, password: Option<string>)

  /** The page shows the e-mail entered so far. */
  datatype View = View(email: string)

  /** Line 32: the name the other pages greet the technician with. */
  function DisplayName(t: Technician): string {
    t.firstName + " " + t.lastName
  }

  /** The outcome and the session after the request. */
  function Login(db: Db, session: Session, post: Option<Post>, verify: (string, string) -> bool)
    : (r: (Outcome<View>, Session))
    ensures session.technicianId.Some? ==> r == (Redirect(ToDashboard), session)
    ensures r.1 != session ==>
              && r.0 == Redirect(ToDashboard) && post.Some? && r.1.technicianId.Some?
              && db.TechnicianById(r.1.technicianId.value).Some?
  {
    if session.technicianId.Some? then (Redirect(ToDashboard), session)
    else match post
      case None => (Render([], View("")), session)
      case Some(p) =>
        var email, password := Trim(p.email.GetOr("")), p.password.GetOr("");
        if email == "" || password == "" then (Render([LoginRequired], View(email)), session)
        else match db.TechnicianByEmail(email)
          case Some(t) =>
            if verify(password, t.passwordHash) then (Redirect(ToDashboard), Session(Some(t.id), Some(DisplayName(t))))
            else (Render([InvalidCredentials], View(email)), session)
          case None => (Render([InvalidCredentials], View(email)), session)
  }

  /** The handler; it reads the store and returns the new session. */
  method Handle(store: Store, session: Session, post: Option<Post>, verify: (string, string) -> bool)
    returns (out: Outcome<View>, session': Session)
    ensures (out, session') == Login(store.Snapshot(), session, post, verify)
  {
    session' := session;
    if session.technicianId.Some? {
      return Redirect(ToDashboard), session';
    }
    var errors: seq<Message> := [];
    var email := "";
    if post.Some? {
      email := Trim(post.value.email.GetOr(""));
      var password := post.value.password.GetOr("");
      if email == "" || password == "" {
        errors := errors + [LoginRequired];
        assert errors == [LoginRequired];
      }
      if errors == [] {
        var technician := store.Snapshot().TechnicianByEmail(email);
        if technician.Some? && verify(password, technician.value.passwordHash) {
          session' := Session(Some(technician.value.id), Some(DisplayName(technician.value)));
          return Redirect(ToDashboard), session';
        }
        errors := errors + [InvalidCredentials];
        assert errors == [InvalidCredentials];
      }
    }
    out := Render(errors, View(email));
  }

  // ---------------------------------------------------------------------
  // Properties of the request

  /** A request signs a technician in exactly when it is a POST from a
      signed-out visitor whose e-mail names an account and whose password the
      supplied check accepts against that account's hash; the session then
      holds that account's id and name. Every other request leaves the
      session as it was. */
  lemma SignInIff(db: Db, session: Session, post: Option<Post>, verify: (string, string) -> bool)
    ensures var (out, session') := Login(db, session, post, verify);
      && (session' != session ==>
            && session.technicianId.None? && post.Some?
            && var email := Trim(post.value.email.GetOr(""));
               var t := db.TechnicianByEmail(email);
               && t.Some? && t.value.email == email && t.value in db.technicians
               && verify(post.value.password.GetOr(""), t.value.passwordHash)
               && session' == Session(Some(t.value.id), Some(DisplayName(t.value)))
               && out == Redirect(ToDashboard))
      && (session.technicianId.None? && post.Some? && Trim(post.value.email.GetOr("")) != ""
          && post.value.password.GetOr("") != ""
          && db.TechnicianByEmail(Trim(post.value.email.GetOr(""))).Some?
          && verify(post.value.password.GetOr(""), db.TechnicianByEmail(Trim(post.value.email.GetOr(""))).value.passwordHash)
          ==> session'.technicianId == Some(db.TechnicianByEmail(Trim(post.value.email.GetOr(""))).value.id))
  {
    if session.technicianId.None? && post.Some? {
      var email := Trim(post.value.email.GetOr(""));
      if email != "" {
        TrimIsTrimmed(post.value.email.GetOr(""));
      }
    }
  }

  /** Lines 14-19: a blank e-mail (after trimming) or an empty password is
      refused before any lookup, with the e-mail kept in the form, whatever
      the tables or the password check. */
  lemma BlankFieldsRejected(db: Db, session: Session, p: Post, verify: (string, string) -> bool)
    requires session.technicianId.None?
    requires Trim(p.email.GetOr("")) == "" || p.password.GetOr("") == ""
    ensures Login(db, session, Some(p), verify) == (Render([LoginRequired], View(Trim(p.email.GetOr("")))), session)
  {
  }

  /** An unknown e-mail and a wrong password get the same message, so the page
      does not reveal which accounts exist. */
  lemma SameMessageForUnknownAndWrong(db: Db, p: Post, verify: (string, string) -> bool)
    requires Trim(p.email.GetOr("")) != "" && p.password.GetOr("") != ""
    requires match db.TechnicianByEmail(Trim(p.email.GetOr("")))
             case None => true
             case Some(t) => !verify(p.password.GetOr(""), t.passwordHash)
    ensures Login(db, SignedOut, Some(p), verify) == (Render([InvalidCredentials], View(Trim(p.email.GetOr("")))), SignedOut)
  {
  }

  /** With unique e-mails, the account signed in is the one registered under
      that e-mail, whatever whitespace surrounds it in the form. */
  lemma SignsInRegisteredAccount(db: Db, p: Post, verify: (string, string) -> bool, i: int)
    requires db.EmailsUnique() && 0 <= i < |db.technicians|
    requires db.technicians[i].email == Trim(p.email.GetOr("")) && Trim(p.email.GetOr("")) != ""
    requires p.password.GetOr("") != "" && verify(p.password.GetOr(""), db.technicians[i].passwordHash)
    ensures Login(db, SignedOut, Some(p), verify)
         == (Redirect(ToDashboard), Session(Some(db.technicians[i].id), Some(DisplayName(db.technicians[i]))))
  {
    TechnicianByEmailUnique(db, Trim(p.email.GetOr("")), i);
  }
}
