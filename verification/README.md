# hyprdm authority layer in Dafny

This project models the parts of hyprdm that make decisions. hyprdm is a
Wayland display manager, and its Rust core does four things:

- It keeps the `key=value` configuration file at `/etc/hyprdm/hyprdm.conf`:
  parsing, defaults, validation, saving, and load-or-create.
- It decides whether the display manager runs through autologin or through
  a managed systemd unit. In `--reload` mode it also decides whether a
  changed configuration warrants a restart.
- It supervises one session process: start, stop, restart and switch. It
  also discovers sessions from `.desktop` files.
- It resolves the user and the PAM service, and checks a TOTP or HOTP
  second factor.

The model also covers the tiling geometry of the layout manager and the
integer conventions of the C ABI wrappers.

The model is written as pure functions over immutable datatypes. The
exceptions are four methods (`LayoutManager.Apply`, `TileAll`,
`CentreFloating` and `DesktopEntries.ScanFile`), which keep the source's
loops; each is proved equal to a functional definition. The outside world
enters as parameters:

- file state: `ConfigFile` (missing, unreadable or present with text);
  directory listings;
- environment variables;
- the outcomes of writes, `systemctl`, spawn, kill and wait (`SaveIo`,
  `ProcessOps`);
- the PAM verdict;
- the one-time-code generator `gen(secret, movingFactor)`;
- the clock.

Outward actions come back as ordered event lists: `Effect` for files and
units, and `ProcessCall` for processes. A Rust `panic!` is an explicit
outcome: `Aborted`, `Panicked`, `ClockBeforeEpoch` or `VerifyPanicked`.

Modules:

- `Wrappers`: `Option` and `Result`.
- `Text`: the ASCII behaviour of `trim`, `lines`, `split_once`,
  `split_whitespace`, `to_string` and `parse::<u64>`.
- `Effects`: the effect events and the fixed paths.
- `ConfigParser`: the config record, its codec and validation.
- `ServiceMode`: the `config` crate's `ConfigManager::run`.
- `ReloadWatcher`: the `configmanager` binary.
- `SessionManager` and `DesktopEntries`.
- `UserManager`.
- `LayoutManager`.
- `FfiBackend`.

Some behaviours of the code are easy to miss; the model keeps each of them:

- `stop` (gui-api/hdm_api/src/session_manager.rs, lines 40-47) takes the
  child handle before calling kill. A failed kill or wait therefore leaves
  the session with no handle while the process may still run
  (`SessionManager.StopFailureOrphans`).
- `validate` (gui-api/config/src/parser.rs, lines 28-31) panics when
  autologin and `systemctl_usedefine` are both on, instead of returning an
  error. On the reload path that panic ends the process. It is not reported
  as a corrupt configuration (`ReloadWatcher.Run`).
- After a successful restart, the reload path
  (gui-api/configmanager/src/config_manager.rs, lines 43-60) does not
  return. It goes on to run the service table as well.
- A `Hidden=` or `NoDisplay=` line hides an entry whenever the line ends in
  "true", so `Hidden=untrue` hides too.
- One-time codes are compared with the generated number's `to_string`,
  which has no zero padding. A code of two or more characters that starts
  with "0" is therefore never accepted (`UserManager.LeadingZeroNeverAccepted`).

## Model

| member | source | states |
|---|---|---|
| ConfigParser.Validate | gui-api/config/src/parser.rs:20-34 | Panics (`None`) exactly when autologin and systemctl_usedefine are both on. Otherwise it replaces only an empty theme or empty default session with "Adwaita-dark" / "Hyprland", keeps every other field, and yields a valid record. |
| ConfigParser.ValidateIdempotent | gui-api/config/src/parser.rs:20-34 | A valid record passes validation unchanged, so validating twice is validating once. |
| ConfigParser.LineEntryShape | gui-api/config/src/parser.rs:56-63 | A trimmed line assigns nothing iff it is empty, starts with "#" or has no "=". Otherwise it splits at the first "=": the key is the trimmed text before it, so it contains no "=", and the value is the trimmed text after it. |
| ConfigParser.MapOfLastWins | gui-api/config/src/parser.rs:55-64 | A key is in the parsed map iff some line assigns it, and its value is the one the last such line assigns. A later duplicate overwrites an earlier one. |
| ConfigParser.LoadConfig | gui-api/config/src/parser.rs:38-78 | A missing file gives the defaults. An unreadable file, and only that, is a read error. Every loaded record is valid. |
| ConfigParser.LoadedFieldsFollowLastLines | gui-api/config/src/parser.rs:56-77 | Each field follows the last line that assigns its key. Flags are on iff that value is exactly "true". Method and secret are that value. An empty theme or session becomes its default. |
| ConfigParser.LoadedFieldsDefault | gui-api/config/src/parser.rs:66-75 | Unassigned keys default to: tiling on, autologin on, two-factor off, systemctl off, method and secret absent, theme "Adwaita-dark", session "Hyprland". |
| ConfigParser.LoadAbortsOnBothModes | gui-api/config/src/parser.rs:28-31 | Loading present text aborts exactly when the decoded record has both modes on, and never reports a read error. |
| ConfigParser.SaveLines | gui-api/config/src/parser.rs:82-100 | The five fixed assignments come first, in order. Then comes `two_factor_method=<m>` when a method is set, then `two_factor_secret=<s>` when a secret is set. The last line is `systemctl_usedefine=true` or its `# ` comment. |
| ConfigParser.SaveLoadRoundTrip | gui-api/config/src/parser.rs:55-102 | A serialisable record, saved and loaded again, is the same record. In particular the commented systemctl line reads as off. |
| ConfigParser.LoadedIsSerialisable | gui-api/config/src/parser.rs:55-102 | Every record `load_config` returns is serialisable, and saving it and loading again returns the same result. |
| ConfigParser.SaveConfig | gui-api/config/src/parser.rs:81-144 | The config text is always written first. A failed write stops everything. Only with systemctl on are the unit written under multi-user.target.wants and `systemctl enable` run. A failed unit write stops after two effects with the write error. A failed enable stops after three effects with the enable error. Success requires every attempted step to succeed. |
| ConfigParser.LoadOrCreate | gui-api/config/src/parser.rs:147-163 | A missing file is created with exactly the default text and yields the defaults, or the save error. Any other file is just loaded, with no effects. |
| ConfigParser.LoadOrCreateStable | gui-api/config/src/parser.rs:147-163 | After a successful load-or-create, loading again from the resulting file writes nothing and returns the same record. |
| ServiceMode.Decide | gui-api/config/src/config_manager.rs:35-56 | The table chooses create-and-enable exactly when systemctl_usedefine is on, whatever autologin is. |
| ServiceMode.RemoveIfExists | gui-api/config/src/config_manager.rs:88-96 | Removal is attempted iff the unit file exists, and at most once. |
| ServiceMode.Run | gui-api/config/src/config_manager.rs:8-57 | The run finishes iff load-or-create loaded, and fails or panics exactly with it. An unfinished run performs only the load's effects. The load's effects always come first. |
| ServiceMode.FailedLoadTouchesNoUnit | gui-api/config/src/config_manager.rs:11-17 | A failed or aborted load returns before any unit operation. |
| ServiceMode.RunFollowsTable | gui-api/config/src/config_manager.rs:35-96 | For an existing file, systemctl on gives exactly write-unit then enable. Otherwise the only effect is removal, iff the unit exists. The both-on row is never reached. |
| ServiceMode.FreshInstallRemovesUnit | gui-api/config/src/config_manager.rs:8-57 | With no config file, the run writes the defaults and then, since they choose autologin, only removes a leftover unit. |
| ReloadWatcher.LastCheck | gui-api/configmanager/src/config_manager.rs:26-30 | The marker value is the parsed u64, or 0 when the marker is unreadable or not a number. |
| ReloadWatcher.Run | gui-api/configmanager/src/config_manager.rs:11-113 | Without reload it is the service run. With reload, an unreadable mtime gives no effects at all. An mtime before the epoch panics with no effects. An mtime at or below the marker gives no effects and skips the table. For a changed file, a failed load exits as corrupt, the validation panic exits as a panic, and a successful load takes the exit of the service table run on the loaded file. |
| ReloadWatcher.RestartIffChangedAndLoads | gui-api/configmanager/src/config_manager.rs:37-65 | At most one restart happens, and one happens iff reload is on, the mtime is above the marker, and the configuration loads. |
| ReloadWatcher.CorruptKeepsMarker | gui-api/configmanager/src/config_manager.rs:61-64 | A changed file that fails to load writes no marker and restarts nothing, so the next run sees the change again. |
| ReloadWatcher.MarkerBeforeRestart | gui-api/configmanager/src/config_manager.rs:43-60 | On a successful reload the marker is written with the new mtime, and then the restart follows immediately. |
| ReloadWatcher.ReloadIdempotent | gui-api/configmanager/src/config_manager.rs:26-46 | With the marker text a reload writes for an mtime, a second reload for the same mtime does nothing. |
| ReloadWatcher.NoRestartOutsideReload | gui-api/configmanager/src/config_manager.rs:69-112 | The load and the service table never restart anything and never write the marker. |
| SessionManager.New | gui-api/hdm_api/src/session_manager.rs:15-21 | A new session stores name and exec verbatim, with no child. |
| SessionManager.Start | gui-api/hdm_api/src/session_manager.rs:24-37 | With a child it returns "already running" and changes nothing. Otherwise it spawns exec once and succeeds iff the spawn did, keeping that child. A failed spawn leaves no child. |
| SessionManager.Stop | gui-api/hdm_api/src/session_manager.rs:40-47 | The child is always cleared. With no child it is a no-op success. Otherwise kill comes first, a failed kill skips the wait, and it succeeds iff kill and wait both did. |
| SessionManager.Restart | gui-api/hdm_api/src/session_manager.rs:50-54 | A stop error is returned as is, with no start attempt. Name and exec never change. After a successful stop it succeeds iff the spawn produces a child. The session then holds exactly the spawn's outcome, after the stop's calls and one spawn of the exec. |
| SessionManager.Switch | gui-api/hdm_api/src/session_manager.rs:57-63 | A stop error is returned with name and exec unchanged. Otherwise the session carries the new name and exec, and the switch succeeds iff the spawn of the new exec produces a child, which the session then holds. |
| SessionManager.AccountedUnlessStopFails | gui-api/hdm_api/src/session_manager.rs:24-63 | For all four operations, every process held before or spawned during the operation is still held or was reaped, iff the result is not a kill or wait failure. |
| SessionManager.StopFailureOrphans | gui-api/hdm_api/src/session_manager.rs:41-45 | A failed stop leaves the session without a handle to a process that was never reaped. |
| SessionManager.RestartAndSwitchNeverAlreadyRunning | gui-api/hdm_api/src/session_manager.rs:50-63 | `restart` and `switch_session` never report "already running". |
| SessionManager.RestartOkHasFreshChild | gui-api/hdm_api/src/session_manager.rs:50-63 | A restart or switch succeeds iff its stop succeeds and the spawn produces a child. On success it holds exactly the new child, after killing and reaping the old one, in that order. |
| SessionManager.RestartSpawnFailure | gui-api/hdm_api/src/session_manager.rs:50-54 | When stop succeeds but the spawn fails, restart reports the spawn failure and the session keeps its name and exec with no child. The old, already reaped handle is not kept. |
| SessionManager.SwitchSpawnFailure | gui-api/hdm_api/src/session_manager.rs:57-63 | When stop succeeds but the spawn fails, the session has the new name and exec and no child. |
| SessionManager.StopIdempotent | gui-api/hdm_api/src/session_manager.rs:40-47 | A second stop makes no calls, succeeds and changes nothing. |
| SessionManager.NewStartStopRoundTrip | gui-api/hdm_api/src/session_manager.rs:15-47 | New, then a clean start and stop, gives back the new session after exactly spawn, kill and wait. |
| DesktopEntries.Extension | gui-api/hdm_api/src/session_manager.rs:77 | There is no extension iff the name is "..", has no dot, or has its only dot first. Otherwise the extension is the dot-free text after the last dot, which has a non-empty stem before it. |
| DesktopEntries.IsDesktopFileIff | gui-api/hdm_api/src/session_manager.rs:77 | A file is read iff its name is longer than 8 characters and ends with ".desktop". |
| DesktopEntries.ScanLastWins | gui-api/hdm_api/src/session_manager.rs:83-94 | The last trimmed `Name=` and `Exec=` lines supply name and exec, or empty when absent. The entry is hidden iff some `Hidden=`/`NoDisplay=` line ends in "true". |
| DesktopEntries.ScanFile | gui-api/hdm_api/src/session_manager.rs:79-94 | The in-order loop over the lines computes the same fields as the last-wins scan. |
| DesktopEntries.SessionOf | gui-api/hdm_api/src/session_manager.rs:77-100 | Only a readable `.desktop` file yields a session, and iff its name and exec are non-empty and it is not hidden. The exec is cut to its first word, which is non-empty and has no whitespace. The session has no child. |
| DesktopEntries.DirSessions | gui-api/hdm_api/src/session_manager.rs:73-104 | A session is in a listing's result iff some entry of the listing yields it. An unreadable directory yields none. |
| DesktopEntries.DirSessionsSnoc | gui-api/hdm_api/src/session_manager.rs:79-104 | An empty listing yields nothing. One more entry appends its own session, if it yields one, after the sessions of the earlier entries. So each qualifying entry gives exactly one session, in listing order, with nothing deduplicated. |
| DesktopEntries.FilterMapAppend | gui-api/hdm_api/src/session_manager.rs:79-104 | Collecting over two listings joined is collecting over each and concatenating. |
| DesktopEntries.AvailableSessions | gui-api/hdm_api/src/session_manager.rs:66-108 | The first directory's sessions come first, then the second's, concatenated without merging. |
| DesktopEntries.AvailableSessionsMembers | gui-api/hdm_api/src/session_manager.rs:66-108 | A session is offered iff some entry of either directory yields it. |
| UserManager.DetectUsername | gui-api/hdm_api/src/user_manager.rs:24-55 | The name is a non-empty `$USER`, else a non-empty `$LOGNAME`, else the passwd name, else "unknown". |
| UserManager.DetectUsernameSource | gui-api/hdm_api/src/user_manager.rs:24-55 | The detected name comes from one of the three sources or is "unknown". It is empty only when the passwd name is empty. |
| UserManager.ResolveUsername | gui-api/hdm_api/src/user_manager.rs:63-67 | An empty name or "user" is detected. Any other name is kept verbatim. |
| UserManager.ResolvePamService | gui-api/hdm_api/src/user_manager.rs:70-78 | Empty, "login", "login_service" and "default" become "system-login". Other names are kept. The result is never one of those four. |
| UserManager.NewUser | gui-api/hdm_api/src/user_manager.rs:57-86 | `User::new` stores the resolved user name and PAM service, and keeps the method and the secret as given. |
| UserManager.NewUserIdempotent | gui-api/hdm_api/src/user_manager.rs:57-86 | Building a user again from a built user's fields, in the same environment, gives the same user. |
| UserManager.AuthenticateNewUser | gui-api/hdm_api/src/user_manager.rs:57-102 | A user built by `User::new` is authenticated by PAM with the resolved service and the resolved account name. That service is never a generic placeholder; a generic one given to `new` becomes "system-login". |
| UserManager.Verify2fa | gui-api/hdm_api/src/user_manager.rs:104-132 | The check panics iff the method is TOTP, a secret is set and the clock reads before the epoch. Name, service and secret never change. The user changes only on an accepted HOTP code, which advances the counter by one. |
| UserManager.NoMethodAcceptsAll | gui-api/hdm_api/src/user_manager.rs:130 | Without a method every code is accepted. |
| UserManager.MissingSecretRejects | gui-api/hdm_api/src/user_manager.rs:107-128 | TOTP or HOTP without a secret refuses every code and leaves the counter alone. |
| UserManager.HotpAdvancesOnlyOnMatch | gui-api/hdm_api/src/user_manager.rs:119-128 | HOTP accepts iff the code is the text of `gen(secret, counter)`. Then the counter becomes counter + 1. Otherwise nothing changes. |
| UserManager.HotpNoReplay | gui-api/hdm_api/src/user_manager.rs:119-128 | An accepted HOTP code is accepted again only if the next counter also generates it. |
| UserManager.TotpMatchesCurrentStep | gui-api/hdm_api/src/user_manager.rs:106-116 | TOTP accepts iff the code is the text of `gen(secret, now / 30)`, and never changes the user. |
| UserManager.TotpSameStepSameVerdict | gui-api/hdm_api/src/user_manager.rs:106-116 | Two moments in the same 30-second step get the same verdict. |
| UserManager.LeadingZeroNeverAccepted | gui-api/hdm_api/src/user_manager.rs:115-123 | A code of two or more characters starting with '0' is never accepted by TOTP or HOTP. |
| LayoutManager.WithLayoutMembers | gui-api/hdm_api/src/layout_manager.rs:20-22 | The filtered list holds exactly the panels of that layout. |
| LayoutManager.LayoutsPartition | gui-api/hdm_api/src/layout_manager.rs:20-40 | Every panel is tiling or floating, so the two filtered lists together are as long as the panel list. |
| LayoutManager.Slot | gui-api/hdm_api/src/layout_manager.rs:24-29 | Slot i of n is at x = i * (1920 / n), y = 0, with width 1920 / n and height 1080. |
| LayoutManager.SlotsDisjoint | gui-api/hdm_api/src/layout_manager.rs:24-29 | Slots lie left to right without overlap. |
| LayoutManager.SlotInScreen | gui-api/hdm_api/src/layout_manager.rs:24-29 | Every slot, even the only slot of a single tiled panel, lies inside the 1920 x 1080 screen. |
| LayoutManager.LastSlotEnd | gui-api/hdm_api/src/layout_manager.rs:24-29 | The last slot ends where the 1920 mod n leftover pixels begin. A single tiled panel gets the whole screen. |
| LayoutManager.SlotsNonEmpty | gui-api/hdm_api/src/layout_manager.rs:26 | With at most 1920 tiling panels every slot is at least one pixel wide. |
| LayoutManager.Apply | gui-api/hdm_api/src/layout_manager.rs:17-41 | One line per panel. The tiling panels come first in list order, the k-th getting slot k. Then each floating panel is centred, in list order. |
| LayoutManager.TileAll | gui-api/hdm_api/src/layout_manager.rs:24-33 | The first loop gives the k-th tiling panel slot k of their number. |
| LayoutManager.CentreFloating | gui-api/hdm_api/src/layout_manager.rs:35-40 | The second loop centres exactly the floating panels, in list order. |
| FfiBackend.GetPanelRect | gui-api/wlrootbackends/src/hyprdmbackend.rs:121-149 | A null manager or output returns -1 and writes nothing. Otherwise it returns 0 and writes the full screen for tiling, and (W/4, H/4, W/2, H/2) for floating. |
| FfiBackend.PanelRectInsideScreen | gui-api/wlrootbackends/src/hyprdmbackend.rs:132-145 | The written rectangle lies in the screen. A floating one is centred to within two pixels along each axis. |
| FfiBackend.MethodFromCode | gui-api/wlrootbackends/src/hyprdmbackend.rs:261-266 | Code 1 is TOTP, code 2 is HOTP with counter 0, and every other code is no second factor. |
| FfiBackend.MethodCodeRoundTrip | gui-api/wlrootbackends/src/hyprdmbackend.rs:261-266 | Mapping a method's code back gives the method (HOTP restarting at counter 0). Mapping a code's method back gives 1, 2 or 0. |
| FfiBackend.PlatformCodeRoundTrip | gui-api/wlrootbackends/src/hyprdmbackend.rs:232-239 | Codes 0 to 4 name the five platforms one to one. Every other code is GTK 3. |
| FfiBackend.CallSession | gui-api/wlrootbackends/src/hyprdmbackend.rs:165-184 | A null session returns -1. Otherwise the wrapper returns 1 iff the operation returned Ok, and 0 otherwise, leaving the operation's session. |
| FfiBackend.SessionSwitch | gui-api/wlrootbackends/src/hyprdmbackend.rs:186-193 | `session_switch(s, new_name, new_exec)` returns -1 for a null session. Otherwise it runs `switch_session` with the arguments reordered to (exec, name), returns 1 iff that succeeded and 0 otherwise, and leaves the switched session. |
| FfiBackend.SessionSwitchArgumentOrder | gui-api/wlrootbackends/src/hyprdmbackend.rs:186-193 | Once the old session stopped, the switched session's name is the new name and its exec the new command. |
| FfiBackend.UserNew | gui-api/wlrootbackends/src/hyprdmbackend.rs:252-268 | `user_new` maps the method code (1 TOTP, 2 HOTP from counter 0, otherwise none), passes a null secret as absent, and resolves name and PAM service as `User::new` does. |
| FfiBackend.UserAuthenticate | gui-api/wlrootbackends/src/hyprdmbackend.rs:270-276 | A null user gives 0. Otherwise the result is 1 iff PAM accepted, or the panic. |
| FfiBackend.UserVerify2fa | gui-api/wlrootbackends/src/hyprdmbackend.rs:278-285 | A null user gives 0. Otherwise the verdict is 1 or 0, with the updated user, or the clock panic. |
| FfiBackend.DefaultGreeterUserRefusesEveryCode | gui-api/wlrootbackends/src/hyprdmbackend.rs:252-268 | A user built as `user_new("user", "login_service", 2, null)` authenticates through "system-login" as the detected account, and has every second-factor code refused (HOTP without a secret). |
| Text.LinesOfJoin | gui-api/config/src/parser.rs:56 | `lines` undoes a newline join when no line holds a newline and the last line is not empty. |
| Text.ParseU64OfNatToString | gui-api/configmanager/src/config_manager.rs:27-46 | What `u64::to_string` writes, `parse::<u64>` reads back. |
| Text.NatToStringNoLeadingZero | gui-api/hdm_api/src/user_manager.rs:115 | A number's decimal text starts with '0' only for zero. |

## Left out

- File, process, `systemctl` and `sudo` calls are not performed. Each is an
  effect event whose success is an input. The unit-file template's text is
  not modelled.
- Metadata reads are abstracted. The configuration's modification time, the
  marker's text and the file state are independent inputs. The model does
  not tie `mtime` to whether the file exists.
- A failed marker write is only logged in the source, and a failed restart
  command likewise. Both appear as attempted effects with no outcome.
- PAM internals are not modelled. `Authenticate` takes the PAM verdict as
  an oracle.
- The `otpauth` crate's HMAC and truncation are left out. `gen` is an
  uninterpreted parameter; its width (a `u32`) is not modelled.
- The real clock and process identifiers are parameters.
- UserManager.Verify2fa: does not model the `u64` HOTP counter overflowing
  at 2^64 - 1, because the counter is an unbounded `nat`.
- LayoutManager.Apply: does not model `num as u32` truncating a count of
  2^32 or more tiling panels, because the panel count is unbounded.
- The `println!` and `eprintln!` text is not modelled. The layout output is
  the list of placements it prints.
- Rust `trim` and `split_whitespace` treat Unicode whitespace as space. The
  model covers ASCII whitespace only. `to_string_lossy` conversion of C
  strings is not modelled either.
- The compositor, IPC, theme manager, unidata scrubbing and the global
  singletons of `backend.rs` are out of scope. So are the ownership of heap objects in
  the C ABI (`Box::into_raw`, `CString`) and the C++/Qt front ends.
- `layout_manager_new` builds a `panel` field that `LayoutManager` does not
  have. `GetPanelRect` takes that panel directly.
