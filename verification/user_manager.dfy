/** `hdm_api::user_manager`: who the user is, which PAM service
    authenticates them, and the second-factor check. The one-time-code
    generator of the `otpauth` crate, the clock and PAM are parameters. */
module UserManager {
  import opened Wrappers
  import opened Text

  /** The second-factor scheme; an HOTP user carries its moving counter. */
  datatype TwoFactorMethod = Totp | Hotp(counter: nat) | NoMethod

  datatype User = User(username: string, pamService: string, factor: TwoFactorMethod,
                       secret: Option<string>)

  /** What identity detection can see: `$USER` and `$LOGNAME` (`None` when
      unset or not Unicode) and the passwd name of the effective uid (`None`
      when there is no entry or the name is not UTF-8). */
  datatype Environment = Environment(user: Option<string>, logname: Option<string>,
                                     passwdName: Option<string>)

  const Unknown: string := "unknown"
  const SystemLogin: string := "system-login"

  /** The seconds in one TOTP time step. */
  const Period: nat := 30

  predicate Present(v: Option<string>) {
    v.Some? && v.value != []
  }

  /** `detect_system_username`: a non-empty `$USER`, else a non-empty
      `$LOGNAME`, else the passwd name (even an empty one), else "unknown". */
  function DetectUsername(env: Environment): (r: string)
    ensures Present(env.user) ==> r == env.user.value
    ensures !Present(env.user) && Present(env.logname) ==> r == env.logname.value
    ensures !Present(env.user) && !Present(env.logname) ==> r == env.passwdName.GetOr(Unknown)
  {
    if Present(env.user) then env.user.value
    else if Present(env.logname) then env.logname.value
    else if env.passwdName.Some? then env.passwdName.value
    else Unknown
  }

  /** The detected name comes from one of the three sources or is the
      fallback, and it is empty only when the passwd name is. */
  lemma DetectUsernameSource(env: Environment)
    ensures var r := DetectUsername(env);
      && (Some(r) == env.user || Some(r) == env.logname || Some(r) == env.passwdName || r == Unknown)
      && (r == [] ==> env.passwdName == Some([]))
  {
  }

  /** The user names that mean "whoever is logged in". */
  predicate NeedsDetection(username: string) {
    username == [] || username == "user"
  }

  function ResolveUsername(username: string, env: Environment): (r: string)
    ensures !NeedsDetection(username) ==> r == username
    ensures NeedsDetection(username) ==> r == DetectUsername(env)
  {
    if NeedsDetection(username) then DetectUsername(env) else username
  }

  /** The PAM service names replaced by "system-login". */
  predicate GenericService(p: string) {
    p == [] || p == "login" || p == "login_service" || p == "default"
  }

  function ResolvePamService(p: string): (r: string)
    ensures !GenericService(r)
    ensures !GenericService(p) ==> r == p
    ensures GenericService(p) ==> r == SystemLogin
  {
    if GenericService(p) then SystemLogin else p
  }

  /** `User::new`. */
  function NewUser(username: string, pamService: string, factor: TwoFactorMethod,
                   secret: Option<string>, env: Environment): (u: User)
    ensures u.username == ResolveUsername(username, env)
    ensures u.pamService == ResolvePamService(pamService)
    ensures u.factor == factor && u.secret == secret
  {
    User(ResolveUsername(username, env), ResolvePamService(pamService), factor, secret)
  }

  /** Resolution is stable: building a user again from a built user's own
      fields, in the same environment, changes nothing. */
  lemma NewUserIdempotent(username: string, pamService: string, factor: TwoFactorMethod,
                          secret: Option<string>, env: Environment)
    ensures var u := NewUser(username, pamService, factor, secret, env);
      NewUser(u.username, u.pamService, u.factor, u.secret, env) == u
  {
  }

  /** `User::authenticate`: one PAM conversation on the resolved service
      with the resolved name. `pam(service, user, password)` is `None` when
      the PAM context cannot be created, where the source panics. */
  function Authenticate(u: User, password: string, pam: (string, string, string) -> Option<bool>): (r: Option<bool>)
    ensures r.None? <==> pam(u.pamService, u.username, password).None?
    ensures r.Some? ==> r.value == pam(u.pamService, u.username, password).value
  {
    pam(u.pamService, u.username, password)
  }

  /** A user built by `User::new` is authenticated against the resolved PAM
      service, which is never one of the generic placeholders, and under
      the resolved account name. */
  lemma AuthenticateNewUser(username: string, pamService: string, factor: TwoFactorMethod,
                            secret: Option<string>, env: Environment, password: string,
                            pam: (string, string, string) -> Option<bool>)
    ensures var u := NewUser(username, pamService, factor, secret, env);
      && Authenticate(u, password, pam) == pam(ResolvePamService(pamService), ResolveUsername(username, env), password)
      && !GenericService(u.pamService)
      && (GenericService(pamService) ==> Authenticate(u, password, pam) == pam(SystemLogin, u.username, password))
  {
  }

  /** How a second-factor check ends: a verdict with the user as it is
      afterwards, or a panic because the clock reads before the epoch. */
  datatype Check = Checked(accepted: bool, user: User) | ClockBeforeEpoch

  /** The text `to_string` gives a generated code. */
  function CodeText(gen: (string, nat) -> nat, secret: string, movingFactor: nat): string {
    NatToString(gen(secret, movingFactor))
  }

  /** `User::verify_2fa`. `gen(secret, c)` is the code for moving factor `c`
      (RFC 4226 section 5.3 for HOTP; RFC 6238 section 4, where the factor
      is the time step, for TOTP); `now` is the clock in whole seconds
      since the epoch. */
  function Verify2fa(u: User, code: string, gen: (string, nat) -> nat, now: int): (r: Check)
    ensures r.ClockBeforeEpoch? <==> u.factor.Totp? && u.secret.Some? && now < 0
    ensures r.Checked? ==> r.user.username == u.username && r.user.pamService == u.pamService
                           && r.user.secret == u.secret
    ensures r.Checked? && r.user != u ==>
              r.accepted && u.factor.Hotp? && r.user.factor == Hotp(u.factor.counter + 1)
  {
    match u.factor
    case NoMethod => Checked(true, u)
    case Totp =>
      if u.secret.None? then Checked(false, u)
      else if now < 0 then ClockBeforeEpoch
      else Checked(CodeText(gen, u.secret.value, now / Period) == code, u)
    case Hotp(counter) =>
      if u.secret.Some? && CodeText(gen, u.secret.value, counter) == code then
        Checked(true, u.(factor := Hotp(counter + 1)))
      else Checked(false, u)
  }

  /** Without a second factor every code is accepted. */
  lemma NoMethodAcceptsAll(u: User, code: string, gen: (string, nat) -> nat, now: int)
    requires u.factor.NoMethod?
    ensures Verify2fa(u, code, gen, now) == Checked(true, u)
  {
  }

  /** With a second factor but no secret every code is refused and the
      counter stays where it was. */
  lemma MissingSecretRejects(u: User, code: string, gen: (string, nat) -> nat, now: int)
    requires !u.factor.NoMethod? && u.secret.None?
    ensures Verify2fa(u, code, gen, now) == Checked(false, u)
  {
  }

  /** HOTP accepts exactly the code for the current counter and then moves
      the counter on by one; a refused code changes nothing. */
  lemma HotpAdvancesOnlyOnMatch(u: User, code: string, gen: (string, nat) -> nat, now: int)
    requires u.factor.Hotp? && u.secret.Some?
    ensures var r := Verify2fa(u, code, gen, now);
      && r.Checked?
      && (r.accepted <==> CodeText(gen, u.secret.value, u.factor.counter) == code)
      && (r.accepted ==> r.user == u.(factor := Hotp(u.factor.counter + 1)))
      && (!r.accepted ==> r.user == u)
  {
  }

  /** An HOTP code cannot be replayed: once accepted, the same code is
      accepted again only if the next counter happens to generate it too. */
  lemma HotpNoReplay(u: User, code: string, gen: (string, nat) -> nat, now: int)
    requires u.factor.Hotp? && u.secret.Some?
    requires Verify2fa(u, code, gen, now).Checked? && Verify2fa(u, code, gen, now).accepted
    ensures var again := Verify2fa(Verify2fa(u, code, gen, now).user, code, gen, now);
      again.Checked? &&
      (again.accepted <==> CodeText(gen, u.secret.value, u.factor.counter + 1) == code)
  {
  }

  /** TOTP accepts exactly the code of the current 30-second step and never
      changes the user. */
  lemma TotpMatchesCurrentStep(u: User, code: string, gen: (string, nat) -> nat, now: nat)
    requires u.factor.Totp? && u.secret.Some?
    ensures Verify2fa(u, code, gen, now) ==
      Checked(CodeText(gen, u.secret.value, now / Period) == code, u)
  {
  }

  /** Two moments in the same 30-second step get the same verdict. */
  lemma TotpSameStepSameVerdict(u: User, code: string, gen: (string, nat) -> nat, t1: nat, t2: nat)
    requires u.factor.Totp? && u.secret.Some?
    requires t1 / Period == t2 / Period
    ensures Verify2fa(u, code, gen, t1) == Verify2fa(u, code, gen, t2)
  {
  }

  /** Codes are compared with the generated number's decimal text, which
      has no padding: a code of two or more characters that starts with '0'
      is never accepted, whatever the generator produces. */
  lemma LeadingZeroNeverAccepted(u: User, code: string, gen: (string, nat) -> nat, now: int)
    requires !u.factor.NoMethod?
    requires |code| > 1 && code[0] == '0'
    ensures var r := Verify2fa(u, code, gen, now); r.Checked? ==> !r.accepted
  {
    if u.secret.Some? {
      var n := if u.factor.Totp? then (if now < 0 then 0 else now / Period) else u.factor.counter;
      NatToStringNoLeadingZero(gen(u.secret.value, n));
    }
  }
}
