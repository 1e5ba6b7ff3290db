/** The C ABI of `wlrootbackends::hyprdmbackend` insofar as it decides
    anything: the panel-rectangle arithmetic, the integer codes for the
    second-factor method and the theme platform, and the return codes of
    the session and user wrappers. A null argument is `None`. */
module FfiBackend {
  import opened Wrappers
  import SessionManager
  import UserManager
  import LayoutManager

  /** Rust's `u32`. */
  type U32 = x: int | 0 <= x <= 0xFFFF_FFFF

  /** `PanelRect`, four `u32` fields. */
  datatype PanelRect = PanelRect(x: U32, y: U32, width: U32, height: U32)

  /** The return code and what was written through `out`. */
  datatype RectCall = RectCall(code: int, written: Option<PanelRect>)

  /** `layout_manager_get_panel_rect`. `panel` is the manager's panel (`None`:
      a null manager); `outGiven` says whether `out` is non-null. */
  function GetPanelRect(panel: Option<LayoutManager.Panel>, outGiven: bool,
                        screenWidth: U32, screenHeight: U32): (r: RectCall)
    ensures r.code == -1 <==> panel.None? || !outGiven
    ensures r.code == -1 ==> r.written.None?
    ensures r.code != -1 ==> r.code == 0 && r.written.Some?
    ensures r.code == 0 && panel.value.layout.Tiling? ==>
              r.written.value == PanelRect(0, 0, screenWidth, screenHeight)
    ensures r.code == 0 && panel.value.layout.Floating? ==>
              r.written.value == PanelRect(screenWidth / 4, screenHeight / 4, screenWidth / 2, screenHeight / 2)
  {
    if panel.None? || !outGiven then RectCall(-1, None)
    else
      match panel.value.layout
      case Tiling => RectCall(0, Some(PanelRect(0, 0, screenWidth, screenHeight)))
      case Floating =>
        RectCall(0, Some(PanelRect(screenWidth / 4, screenHeight / 4, screenWidth / 2, screenHeight / 2)))
  }

  /** The rectangle written lies inside the screen, and a floating panel is
      centred to within two pixels along each axis (the right and bottom
      margins are the left and top margins plus at most 2). */
  lemma PanelRectInsideScreen(panel: Option<LayoutManager.Panel>, outGiven: bool,
                              screenWidth: U32, screenHeight: U32)
    ensures var r := GetPanelRect(panel, outGiven, screenWidth, screenHeight);
      r.written.Some? ==>
        var p := r.written.value;
        && p.x + p.width <= screenWidth && p.y + p.height <= screenHeight
        && (panel.value.layout.Floating? ==>
              && p.x <= screenWidth - p.x - p.width <= p.x + 2
              && p.y <= screenHeight - p.y - p.height <= p.y + 2)
  {
  }

  // ---- integer codes -----------------------------------------------------

  /** The `method` argument of `user_new`. */
  function MethodFromCode(code: int): (m: UserManager.TwoFactorMethod)
    ensures m.Totp? <==> code == 1
    ensures m.Hotp? <==> code == 2
    ensures m.Hotp? ==> m.counter == 0
    ensures m.NoMethod? <==> code != 1 && code != 2
  {
    match code
    case 0 => UserManager.NoMethod
    case 1 => UserManager.Totp
    case 2 => UserManager.Hotp(0)
    case _ => UserManager.NoMethod
  }

  /** The code a C caller passes for a method. */
  function MethodCode(m: UserManager.TwoFactorMethod): int {
    match m
    case NoMethod => 0
    case Totp => 1
    case Hotp(_) => 2
  }

  /** The code mapping is a left inverse of the method codes, up to the
      HOTP counter, which always starts at zero. */
  lemma MethodCodeRoundTrip(m: UserManager.TwoFactorMethod, code: int)
    ensures MethodFromCode(MethodCode(m)) == if m.Hotp? then UserManager.Hotp(0) else m
    ensures MethodCode(MethodFromCode(code)) == if code == 1 || code == 2 then code else 0
  {
  }

  /** `PlatformType` of `hdm_api::unidata`. */
  datatype Platform = Gtk3 | Gtk4 | Qt5 | Qt6 | HyprSensivityObjective

  /** The `platform` argument of `unidata_add_target_dir`. */
  function PlatformFromCode(code: int): (p: Platform)
    ensures (code < 0 || code > 4) ==> p == Gtk3
  {
    match code
    case 0 => Gtk3
    case 1 => Gtk4
    case 2 => Qt5
    case 3 => Qt6
    case 4 => HyprSensivityObjective
    case _ => Gtk3
  }

  function PlatformCode(p: Platform): (code: int)
    ensures 0 <= code <= 4
  {
    match p
    case Gtk3 => 0
    case Gtk4 => 1
    case Qt5 => 2
    case Qt6 => 3
    case HyprSensivityObjective => 4
  }

  /** Codes 0 to 4 name the five platforms one to one; every other code
      falls back to GTK 3. */
  lemma PlatformCodeRoundTrip(p: Platform, code: int)
    ensures PlatformFromCode(PlatformCode(p)) == p
    ensures 0 <= code <= 4 ==> PlatformCode(PlatformFromCode(code)) == code
    ensures PlatformFromCode(code) == Gtk3 <==> code < 1 || code > 4
  {
  }

  // ---- session wrappers --------------------------------------------------

  /** A wrapper's return code and the session it leaves (`None`: null). */
  datatype SessionCall = SessionCall(code: int, session: Option<SessionManager.Session>)

  /** `session_start`, `session_stop`, `session_restart`: -1 for a null
      session, else 1 when the operation returned `Ok`, 0 for `Err`. */
  function CallSession(s: Option<SessionManager.Session>, op: SessionManager.Op,
                       ops: SessionManager.ProcessOps): (r: SessionCall)
    ensures r.code == -1 <==> s.None?
    ensures s.None? ==> r.session.None?
    ensures s.Some? ==> r.session == Some(SessionManager.Apply(s.value, op, ops).session)
    ensures r.code == 1 <==> s.Some? && SessionManager.Apply(s.value, op, ops).result.Ok?
    ensures r.code in {-1, 0, 1}
  {
    if s.None? then SessionCall(-1, None)
    else
      var t := SessionManager.Apply(s.value, op, ops);
      SessionCall(if t.result.Ok? then 1 else 0, Some(t.session))
  }

  /** `session_switch(s, new_name, new_exec)`, which calls
      `switch_session(new_exec, new_name)`. */
  function SessionSwitch(s: Option<SessionManager.Session>, newName: string, newExec: string,
                         ops: SessionManager.ProcessOps): (r: SessionCall)
    ensures s.None? ==> r == SessionCall(-1, None)
    ensures s.Some? ==> r.session == Some(SessionManager.Switch(s.value, newExec, newName, ops).session)
    ensures r.code == 1 <==> s.Some? && SessionManager.Switch(s.value, newExec, newName, ops).result.Ok?
    ensures s.Some? ==> r.code in {0, 1}
  {
    CallSession(s, SessionManager.SwitchOp(newExec, newName), ops)
  }

  /** The switch wrapper passes its arguments in the order `switch_session`
      expects: once the old session stopped, the session carries the new
      name as its name and the new command as its exec. */
  lemma SessionSwitchArgumentOrder(s: SessionManager.Session, newName: string, newExec: string,
                                   ops: SessionManager.ProcessOps)
    requires SessionManager.Stop(s, ops).result.Ok?
    ensures var r := SessionSwitch(Some(s), newName, newExec, ops);
      r.session.Some? && r.session.value.name == newName && r.session.value.exec == newExec
  {
  }

  // ---- user wrappers -----------------------------------------------------

  /** `user_new`: the method code is mapped, a null secret is `None`. */
  function UserNew(username: string, pamService: string, methodCode: int, secret: Option<string>,
                   env: UserManager.Environment): (u: UserManager.User)
    ensures u.factor == MethodFromCode(methodCode) && u.secret == secret
    ensures u.username == UserManager.ResolveUsername(username, env)
    ensures u.pamService == UserManager.ResolvePamService(pamService)
  {
    UserManager.NewUser(username, pamService, MethodFromCode(methodCode), secret, env)
  }

  /** `user_authenticate`: 0 for a null user, else the PAM verdict as 0/1;
      `None` is the panic when no PAM context can be created. */
  function UserAuthenticate(u: Option<UserManager.User>, password: string,
                            pam: (string, string, string) -> Option<bool>): (r: Option<int>)
    ensures u.None? ==> r == Some(0)
    ensures r.Some? ==> r.value in {0, 1}
    ensures u.Some? ==> (r.None? <==> UserManager.Authenticate(u.value, password, pam).None?)
    ensures r == Some(1) <==> u.Some? && UserManager.Authenticate(u.value, password, pam) == Some(true)
  {
    if u.None? then Some(0)
    else
      match UserManager.Authenticate(u.value, password, pam)
      case None => None
      case Some(ok) => Some(if ok then 1 else 0)
  }

  /** The return code of `user_verify_2fa` and the user it leaves, or the
      panic of a clock before the epoch. */
  datatype VerifyCall = VerifyCall(code: int, user: Option<UserManager.User>) | VerifyPanicked

  /** `user_verify_2fa`: 0 for a null user, else the verdict as 0/1. */
  function UserVerify2fa(u: Option<UserManager.User>, code: string, gen: (string, nat) -> nat,
                         now: int): (r: VerifyCall)
    ensures u.None? ==> r == VerifyCall(0, None)
    ensures r.VerifyCall? ==> r.code in {0, 1}
    ensures u.Some? ==>
              var c := UserManager.Verify2fa(u.value, code, gen, now);
              (r.VerifyPanicked? <==> c.ClockBeforeEpoch?)
              && (c.Checked? ==> r == VerifyCall(if c.accepted then 1 else 0, Some(c.user)))
  {
    if u.None? then VerifyCall(0, None)
    else
      match UserManager.Verify2fa(u.value, code, gen, now)
      case ClockBeforeEpoch => VerifyPanicked
      case Checked(ok, u') => VerifyCall(if ok then 1 else 0, Some(u'))
  }

  /** A consequence of `MethodFromCode(2)` with no secret: a user made with
      the generic name "user", the generic service "login_service", method
      code 2 (HOTP) and a null secret authenticates through "system-login"
      and the detected account, and refuses every second-factor code. */
  lemma DefaultGreeterUserRefusesEveryCode(env: UserManager.Environment, code: string,
                                           gen: (string, nat) -> nat, now: int)
    ensures var u := UserNew("user", "login_service", 2, None, env);
      && u.pamService == UserManager.SystemLogin
      && u.username == UserManager.DetectUsername(env)
      && UserVerify2fa(Some(u), code, gen, now) == VerifyCall(0, Some(u))
  {
  }
}
