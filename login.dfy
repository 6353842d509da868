/**
 * The login flow of login.py: a role is chosen, an RMIT address is entered
 * and checked, a one-time code is sent, and the code is verified. The
 * Streamlit session state is the class `AuthSession`; each page handler is a
 * method whose new state is given by a function on the `Auth` snapshot, and
 * the properties of the flow are lemmas about those functions. Generating,
 * storing, sending and checking a code are calls into code outside this
 * model: their results are parameters, and so is the clock.
 */
module Login {
  import opened Wrappers
  import opened Text

  /** The value of `auth_stage`; None once the user is logged in. */
  datatype Stage = RoleSelect | EmailInput | VerifyCode

  datatype Role = Student | Staff

  /** `user_info`, copied from `auth_email` and `auth_role` at login. */
  datatype UserInfo = UserInfo(email: Option<string>, role: Option<Role>)

  /**
   * A snapshot of the session fields the flow uses. `otpError` holds the
   * error text, "" standing for every falsy value of `otp_error`.
   */
  datatype Auth = Auth(stage: Option<Stage>, role: Option<Role>, email: Option<string>,
                       otpSentTime: int, otpError: string, userInfo: Option<UserInfo>)

  /** The session fields as first set (login.py:203-210). */
  const Initial := Auth(Some(RoleSelect), None, Some(""), 0, "", None)

  /** `reset_auth`: back to role selection with no role, email or send time. */
  function Reset(a: Auth): (r: Auth)
    ensures r == Initial.(otpError := a.otpError, userInfo := a.userInfo)
  {
    a.(stage := Some(RoleSelect), role := None, email := Some(""), otpSentTime := 0)
  }

  /** A role button: the role is recorded and the email page follows. */
  function ChooseRole(a: Auth, role: Role): Auth {
    a.(role := Some(role), stage := Some(EmailInput))
  }

  // ----- email validation -----

  const StudentDomain := "@student.rmit.edu.au"
  const StaffDomain := "@rmit.edu.au"

  /**
   * Whether the typed address passes the check for the chosen role,
   * compared lower-cased: students may use either RMIT domain, everyone
   * else only the staff domain.
   */
  predicate EmailAccepted(role: Option<Role>, email: string) {
    var e := Lower(email);
    if role == Some(Student) then EndsWith(e, StudentDomain) || EndsWith(e, StaffDomain)
    else EndsWith(e, StaffDomain)
  }

  /** What the email page shows after a click on "send". */
  datatype EmailNotice = NotRmitAddress | NotStaffAddress | SendFailed | CodeSent {
    /** The error shown; "" when the code went out and the page moves on. */
    function Text(): string {
      match this
      case NotRmitAddress => "Email must be a valid RMIT address"
      case NotStaffAddress => "Email must be a valid staff RMIT address"
      case SendFailed => "Failed to send verification code. Please try again later."
      case CodeSent => ""
    }
  }

  /**
   * "Send verification code" with the typed `email`: the new state, the
   * notice, and whether a code was generated, stored and sent for `email`.
   * `sent` is the mailer's result and `at` the time it returned.
   */
  function SubmitEmail(a: Auth, email: string, sent: bool, at: int): (Auth, EmailNotice, bool) {
    if !EmailAccepted(a.role, email) then
      (a, if a.role == Some(Student) then NotRmitAddress else NotStaffAddress, false)
    else if sent then
      (a.(email := Some(email), stage := Some(VerifyCode), otpSentTime := at), CodeSent, true)
    else (a, SendFailed, true)
  }

  // ----- the verification page -----

  /** Seconds before a new code may be requested. */
  const ResendWait := 180

  /** `max(0, 180 - (now - otp_sent_time))`. */
  function SecondsLeft(now: int, sentTime: int): (r: int)
    ensures r >= 0
    ensures r == 0 <==> now - sentTime >= ResendWait
    ensures r > 0 ==> r + (now - sentTime) == ResendWait
    ensures sentTime <= now ==> r <= ResendWait
  {
    if ResendWait - (now - sentTime) > 0 then ResendWait - (now - sentTime) else 0
  }

  /** The resend button is disabled while time is left. */
  predicate ResendDisabled(now: int, sentTime: int) {
    SecondsLeft(now, sentTime) > 0
  }

  /** `f"{n:02d}"` for a natural number. */
  function Pad2(n: nat): string {
    if n < 10 then "0" + NatToString(n) else NatToString(n)
  }

  /** The countdown `f"{minutes:02d}:{seconds:02d}"` for `left` seconds. */
  function TimerLabel(left: nat): string {
    Pad2(left / 60) + ":" + Pad2(left % 60)
  }

  /** Two-digit padding of a number below 100 is two digits that read back as the number. */
  lemma Pad2RoundTrip(n: nat)
    requires n < 100
    ensures |Pad2(n)| == 2 && IsDigits(Pad2(n)) && DigitsValue(Pad2(n)) == n
  {
    NatToStringRoundTrip(n);
    var s := NatToString(n);
    if n < 10 {
      assert s == [DigitChar(n)];
      assert Pad2(n)[..1] == "0";
    } else {
      assert NatToString(n / 10) == [DigitChar(n / 10)];
    }
  }

  /**
   * The countdown label of a wait of at most three minutes is "MM:SS": the
   * minutes and the seconds (below 60) it shows add up to the seconds left.
   */
  lemma TimerLabelRoundTrip(left: nat)
    requires left <= ResendWait
    ensures var t := TimerLabel(left);
      && |t| == 5 && t[2] == ':' && IsDigits(t[..2]) && IsDigits(t[3..])
      && DigitsValue(t[3..]) < 60
      && DigitsValue(t[..2]) * 60 + DigitsValue(t[3..]) == left
  {
    Pad2RoundTrip(left / 60);
    Pad2RoundTrip(left % 60);
    var t := TimerLabel(left);
    assert t[..2] == Pad2(left / 60);
    assert t[3..] == Pad2(left % 60);
  }

  const InvalidCodeMessage := "Invalid or expired verification code. Please try again."

  /** The page `st.switch_page` opens after a login. */
  datatype Portal = StudentPortal | StaffPortal

  /**
   * "Verify and login", `ok` being the code check's result: on success the
   * user is recorded and every login field cleared, and the portal of the
   * recorded role opens; otherwise the error is set.
   */
  function Verify(a: Auth, ok: bool): (Auth, Option<Portal>) {
    if ok then
      (a.(userInfo := Some(UserInfo(a.email, a.role)), stage := None, role := None, email := None,
          otpSentTime := 0, otpError := ""),
       Some(if a.role == Some(Student) then StudentPortal else StaffPortal))
    else (a.(otpError := InvalidCodeMessage), None)
  }

  /** What the verification page shows after a click on "resend". */
  datatype ResendNotice = ResendUnavailable | Resent | ResendFailed {
    function Text(): string {
      match this
      case ResendUnavailable => ""
      case Resent => "Verification code resent to your email."
      case ResendFailed => "Failed to resend verification code. Please try again later."
    }
  }

  /**
   * "Resend code" on a page drawn at time `now`: nothing while the button
   * is disabled; otherwise a code is issued for the stored address and, if
   * the mailer succeeded, the send time becomes `at`.
   */
  function Resend(a: Auth, now: int, sent: bool, at: int): (Auth, ResendNotice, bool) {
    if ResendDisabled(now, a.otpSentTime) then (a, ResendUnavailable, false)
    else if sent then (a.(otpSentTime := at), Resent, true)
    else (a, ResendFailed, true)
  }

  /** The back button of the verification page: the email page again, with the address and time kept. */
  function BackToEmail(a: Auth): Auth {
    a.(stage := Some(EmailInput))
  }

  // ----- the stage machine -----

  /** A user action on the page of the current stage, with the outcomes of the calls it makes. */
  datatype Event =
    | NoClick
    | RoleChosen(role: Role)
    | SendCode(address: string, sent: bool, at: int)
    | BackFromEmail
    | VerifyClicked(ok: bool)
    | ResendClicked(now: int, resent: bool, resentAt: int)
    | BackFromVerify

  /** The events the page of `stage` offers (`show_login_flow` draws one page per stage, none once logged in). */
  predicate Offered(stage: Option<Stage>, ev: Event) {
    match ev
    case NoClick => true
    case RoleChosen(_) => stage == Some(RoleSelect)
    case SendCode(_, _, _) => stage == Some(EmailInput)
    case BackFromEmail => stage == Some(EmailInput)
    case VerifyClicked(_) => stage == Some(VerifyCode)
    case ResendClicked(_, _, _) => stage == Some(VerifyCode)
    case BackFromVerify => stage == Some(VerifyCode)
  }

  /** The session after one event on the current page. */
  function Step(a: Auth, ev: Event): Auth
    requires Offered(a.stage, ev)
  {
    match ev
    case NoClick => a
    case RoleChosen(r) => ChooseRole(a, r)
    case SendCode(e, sent, at) => SubmitEmail(a, e, sent, at).0
    case BackFromEmail => Reset(a)
    case VerifyClicked(ok) => Verify(a, ok).0
    case ResendClicked(now, sent, at) => Resend(a, now, sent, at).0
    case BackFromVerify => BackToEmail(a)
  }

  /**
   * The invariant of the flow: past role selection a role is chosen; on the
   * code page the stored address passes the check for that role; a logged-in
   * user has an accepted address and a role; and the stage is cleared only
   * once a user is logged in.
   */
  predicate Valid(a: Auth) {
    && ((a.stage == Some(EmailInput) || a.stage == Some(VerifyCode)) ==> a.role.Some?)
    && (a.stage == Some(VerifyCode) ==> a.email.Some? && EmailAccepted(a.role, a.email.value))
    && (a.userInfo.Some? ==>
          a.userInfo.value.email.Some? && a.userInfo.value.role.Some?
          && EmailAccepted(a.userInfo.value.role, a.userInfo.value.email.value))
    && (a.stage.None? ==> a.userInfo.Some?)
  }

  // ----- properties -----

  /** Any address the staff check accepts is accepted for a student as well. */
  lemma StaffAddressServesStudents(email: string)
    requires EmailAccepted(Some(Staff), email)
    ensures EmailAccepted(Some(Student), email)
  {
  }

  /** A student-domain address is accepted for a student and refused for staff. */
  lemma StudentDomainRefusedForStaff(email: string)
    requires EndsWith(Lower(email), StudentDomain)
    ensures EmailAccepted(Some(Student), email)
    ensures !EmailAccepted(Some(Staff), email) && !EmailAccepted(None, email)
  {
    var e := Lower(email);
    assert e[|e| - 12] == StudentDomain[8] == '.';
    assert StaffDomain[0] == '@';
    assert e[|e| - |StaffDomain|..][0] == e[|e| - 12];
  }

  /** The check ignores letter case: an address and its lower-cased form are judged alike. */
  lemma EmailCheckIgnoresCase(role: Option<Role>, email: string)
    ensures EmailAccepted(role, email) <==> EmailAccepted(role, Lower(email))
  {
    assert Lower(Lower(email)) == Lower(email);
  }

  /**
   * A refused address leaves the state as it was, reports the check that
   * failed, and issues no code; an accepted one always issues a code, and
   * the page moves to the code stage, recording the address and the send
   * time, exactly when the mailer succeeded.
   */
  lemma SubmitEmailOutcomes(a: Auth, email: string, sent: bool, at: int)
    requires a.stage == Some(EmailInput)
    ensures var (a', notice, issued) := SubmitEmail(a, email, sent, at);
      && (issued <==> EmailAccepted(a.role, email))
      && (!EmailAccepted(a.role, email) ==>
            a' == a && notice == (if a.role == Some(Student) then NotRmitAddress else NotStaffAddress))
      && (a'.stage == Some(VerifyCode) <==> EmailAccepted(a.role, email) && sent)
      && (a'.stage == Some(VerifyCode) ==> a' == a.(email := Some(email), stage := Some(VerifyCode), otpSentTime := at))
      && (a'.stage != Some(VerifyCode) ==> a' == a)
  {
  }

  /**
   * The countdown and the resend button agree: the button is disabled
   * exactly while fewer than 180 seconds have passed, and a resend changes
   * nothing else than the send time.
   */
  lemma ResendOutcomes(a: Auth, now: int, sent: bool, at: int)
    ensures var (a', notice, issued) := Resend(a, now, sent, at);
      && (ResendDisabled(now, a.otpSentTime) <==> now - a.otpSentTime < ResendWait)
      && (issued <==> !ResendDisabled(now, a.otpSentTime))
      && (a' != a ==> issued && sent && a' == a.(otpSentTime := at))
      && (notice == Resent <==> issued && sent)
  {
  }

  /**
   * A verification that fails only sets the error; one that succeeds
   * records the stored address and role as the user, clears the login
   * fields and opens the portal of that role.
   */
  lemma VerifyOutcomes(a: Auth, ok: bool)
    ensures var (a', portal) := Verify(a, ok);
      && (!ok ==> a' == a.(otpError := InvalidCodeMessage) && portal.None?)
      && (ok ==> a'.userInfo == Some(UserInfo(a.email, a.role))
                 && a'.stage.None? && a'.role.None? && a'.email.None? && a'.otpSentTime == 0)
      && (ok ==> (portal == Some(StudentPortal) <==> a.role == Some(Student)))
  {
  }

  /** The initial state satisfies the invariant, and every offered event keeps it. */
  lemma StepKeepsValid(a: Auth, ev: Event)
    requires Valid(a) && Offered(a.stage, ev)
    ensures Valid(Initial)
    ensures Valid(Step(a, ev))
  {
    match ev
    case SendCode(e, sent, at) =>
      SubmitEmailOutcomes(a, e, sent, at);
    case _ =>
  }

  /**
   * A user is logged in only by a successful code check on the code page,
   * and the recorded address is the one that passed the email check.
   */
  lemma LoginOnlyByVerifiedCode(a: Auth, ev: Event)
    requires Valid(a) && Offered(a.stage, ev)
    requires a.userInfo.None? && Step(a, ev).userInfo.Some?
    ensures a.stage == Some(VerifyCode) && ev == VerifyClicked(true)
    ensures Step(a, ev).userInfo == Some(UserInfo(a.email, a.role))
    ensures a.email.Some? && EmailAccepted(a.role, a.email.value)
  {
  }

  /** The code page is reached from another stage only by a send that was accepted and delivered. */
  lemma CodeStageOnlyAfterSend(a: Auth, ev: Event)
    requires Offered(a.stage, ev)
    requires a.stage != Some(VerifyCode) && Step(a, ev).stage == Some(VerifyCode)
    ensures ev.SendCode? && ev.sent && EmailAccepted(a.role, ev.address)
    ensures Step(a, ev) == a.(email := Some(ev.address), stage := Some(VerifyCode), otpSentTime := ev.at)
  {
    match ev
    case SendCode(e, sent, at) =>
      SubmitEmailOutcomes(a, e, sent, at);
    case _ =>
  }

  /**
   * The masked address shown on the code page: the first three characters,
   * a star for each further character before the first '@', then the rest
   * from that '@' on, with Python's slicing when there is no '@'.
   */
  function MaskEmail(email: string): string {
    var at := Find(email, '@');
    Take(email, 3) + Repeat('*', at - 3) + SliceFrom(email, at)
  }

  /** With at least three characters before the '@', only the characters between them are starred. */
  lemma MaskKeepsShape(email: string)
    requires Find(email, '@') >= 3
    ensures var m := MaskEmail(email); var at := Find(email, '@');
      && |m| == |email|
      && m[..3] == email[..3]
      && (forall i :: 3 <= i < at ==> m[i] == '*')
      && m[at..] == email[at..]
  {
    var m := MaskEmail(email);
    var at := Find(email, '@');
    assert m == email[..3] + Repeat('*', at - 3) + email[at..];
    assert m[..3] == email[..3];
    assert m[at..] == email[at..];
  }

  /**
   * The masking as written when fewer than three characters precede the
   * '@': nothing is starred and the characters from the '@' to the third
   * appear twice.
   */
  lemma MaskOnShortLocalPart(email: string)
    requires 0 <= Find(email, '@') < 3 <= |email|
    ensures MaskEmail(email) == email[..3] + email[Find(email, '@')..]
  {
    var at := Find(email, '@');
    var head, stars, tail := Take(email, 3), Repeat('*', at - 3), SliceFrom(email, at);
    assert head == email[..3];
    assert tail == email[at..];
    assert head + stars == head by {
      assert stars == [] by { assert |stars| == 0; }
    }
  }

  /** The masking as written without an '@': the last character is appended to the first three. */
  lemma MaskWithoutAt(email: string)
    requires '@' !in email && email != []
    ensures MaskEmail(email) == Take(email, 3) + [email[|email| - 1]]
  {
    assert SliceFrom(email, -1) == [email[|email| - 1]];
  }

  /** The '@' of the address used below. */
  lemma ShortExampleAt()
    ensures Find("a@rmit.edu.au", '@') == 1
  {
    var e := "a@rmit.edu.au";
    assert e[0] == 'a' && e[1] == '@';
    assert Find(e[1..], '@') == 0;
  }

  /** A staff address with a one-letter local part is shown with its '@' twice. */
  lemma MaskShortExample()
    ensures MaskEmail("a@rmit.edu.au") == "a@r" + "@rmit.edu.au"
  {
    var e := "a@rmit.edu.au";
    ShortExampleAt();
    MaskOnShortLocalPart(e);
    assert e[..3] == "a@r";
    assert e[1..] == "@rmit.edu.au";
  }

  // ----- the session object -----

  /** `st.session_state` as far as the login flow uses it. */
  class AuthSession {
    var stage: Option<Stage>
    var role: Option<Role>
    var email: Option<string>
    var otpSentTime: int
    var otpError: string
    var userInfo: Option<UserInfo>

    function State(): Auth
      reads this
    {
      Auth(stage, role, email, otpSentTime, otpError, userInfo)
    }

    /** The defaults set when the page first loads. */
    constructor()
      ensures State() == Initial
    {
      stage := Some(RoleSelect);
      role := None;
      email := Some("");
      otpSentTime := 0;
      otpError := "";
      userInfo := None;
    }

    /** `reset_auth`. */
    method ResetAuth()
      modifies this
      ensures State() == Reset(old(State()))
    {
      stage := Some(RoleSelect);
      role := None;
      email := Some("");
      otpSentTime := 0;
    }

    /** A click on the student or the staff button. */
    method SelectRole(r: Role)
      modifies this
      ensures State() == ChooseRole(old(State()), r)
    {
      role := Some(r);
      stage := Some(EmailInput);
    }

    /** "Send verification code" in `show_email_input`. */
    method SendVerificationCode(address: string, sent: bool, at: int) returns (notice: EmailNotice, issued: bool)
      modifies this
      ensures (State(), notice, issued) == SubmitEmail(old(State()), address, sent, at)
    {
      var accepted := false;
      if role == Some(Student) {
        accepted := EndsWith(Lower(address), StudentDomain) || EndsWith(Lower(address), StaffDomain);
        if !accepted {
          return NotRmitAddress, false;
        }
      } else {
        accepted := EndsWith(Lower(address), StaffDomain);
        if !accepted {
          return NotStaffAddress, false;
        }
      }
      issued := true;
      if sent {
        email := Some(address);
        stage := Some(VerifyCode);
        otpSentTime := at;
        notice := CodeSent;
      } else {
        notice := SendFailed;
      }
    }

    /** "Verify and login" in `show_verify_code`. */
    method VerifyAndLogin(ok: bool) returns (portal: Option<Portal>)
      modifies this
      ensures (State(), portal) == Verify(old(State()), ok)
    {
      if ok {
        userInfo := Some(UserInfo(email, role));
        stage := None;
        role := None;
        email := None;
        otpSentTime := 0;
        otpError := "";
        portal := Some(if userInfo.value.role == Some(Student) then StudentPortal else StaffPortal);
      } else {
        otpError := InvalidCodeMessage;
        portal := None;
      }
    }

    /** "Resend code" in `show_verify_code`, on a page drawn at `now`. */
    method ResendCode(now: int, sent: bool, at: int) returns (notice: ResendNotice, issued: bool)
      modifies this
      ensures (State(), notice, issued) == Resend(old(State()), now, sent, at)
    {
      var secondsLeft := if 180 - (now - otpSentTime) > 0 then 180 - (now - otpSentTime) else 0;
      var resendDisabled := secondsLeft > 0;
      if resendDisabled {
        return ResendUnavailable, false;
      }
      issued := true;
      if sent {
        otpSentTime := at;
        notice := Resent;
      } else {
        notice := ResendFailed;
      }
    }

    /** The back button of the code page. */
    method BackToEmailInput()
      modifies this
      ensures State() == BackToEmail(old(State()))
    {
      stage := Some(EmailInput);
    }

    /** `show_login_flow`: the page of the current stage handles its event. */
    method ShowLoginFlow(ev: Event)
      requires Offered(State().stage, ev)
      modifies this
      ensures State() == Step(old(State()), ev)
      ensures Valid(old(State())) ==> Valid(State())
    {
      if Valid(State()) {
        StepKeepsValid(State(), ev);
      }
      match ev
      case NoClick =>
      case RoleChosen(r) => SelectRole(r);
      case SendCode(e, sent, at) => var _, _ := SendVerificationCode(e, sent, at);
      case BackFromEmail => ResetAuth();
      case VerifyClicked(ok) => var _ := VerifyAndLogin(ok);
      case ResendClicked(now, sent, at) => var _, _ := ResendCode(now, sent, at);
      case BackFromVerify => BackToEmailInput();
    }
  }
}
