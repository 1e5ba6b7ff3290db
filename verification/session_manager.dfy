/** The session supervisor of `hdm_api::session_manager`: a `Session` record
    transformed by `start`, `stop`, `restart` and `switch_session`. The
    process primitives (spawn, kill, wait) are outcomes handed in by the
    caller, and every attempt is recorded as a call with its outcome. */
module SessionManager {
  import opened Wrappers

  /** An opaque process handle (a `std::process::Child`). */
  type Handle = nat

  datatype Session = Session(name: string, exec: string, child: Option<Handle>)

  /** The four `Err` strings the operations can return. */
  datatype SessionError = AlreadyRunning | SpawnFailed | KillFailed | WaitFailed

  /** What the operating system answers within one operation: the child a
      spawn produces (`None`: spawn failed), and whether kill and wait
      succeed. */
  datatype ProcessOps = ProcessOps(spawn: Option<Handle>, killOk: bool, waitOk: bool)

  /** One process primitive as attempted, with its outcome. */
  datatype ProcessCall =
    | Spawn(exec: string, handle: Option<Handle>)
    | Kill(target: Handle, ok: bool)
    | Wait(target: Handle, ok: bool)

  /** The session after an operation, its `Result`, and the calls made. */
  datatype Transition = Transition(session: Session, result: Result<(), SessionError>,
                                   calls: seq<ProcessCall>)

  /** `Session::new`. */
  function New(name: string, exec: string): (s: Session)
    ensures s.name == name && s.exec == exec && s.child.None?
  {
    Session(name, exec, None)
  }

  /** `Session::start`: refuse when a child exists, otherwise spawn `exec`
      and keep the child only when the spawn succeeded. */
  function Start(s: Session, ops: ProcessOps): (t: Transition)
    ensures s.child.Some? ==> t == Transition(s, Err(AlreadyRunning), [])
    ensures s.child.None? ==> t.calls == [Spawn(s.exec, ops.spawn)]
    ensures t.session.name == s.name && t.session.exec == s.exec
    ensures t.result.Ok? <==> s.child.None? && ops.spawn.Some?
    ensures t.result.Ok? ==> t.session.child == ops.spawn
    ensures s.child.None? && ops.spawn.None? ==>
              t.session.child.None? && t.result == Err(SpawnFailed)
  {
    if s.child.Some? then Transition(s, Err(AlreadyRunning), [])
    else
      match ops.spawn
      case None => Transition(s, Err(SpawnFailed), [Spawn(s.exec, None)])
      case Some(h) => Transition(s.(child := Some(h)), Ok(()), [Spawn(s.exec, Some(h))])
  }

  /** `Session::stop`: the child is taken out of the session before it is
      killed, so the session has no child afterwards whatever kill and wait
      answer; a failed kill skips the wait. */
  function Stop(s: Session, ops: ProcessOps): (t: Transition)
    ensures t.session == s.(child := None)
    ensures s.child.None? ==> t.result == Ok(()) && t.calls == []
    ensures s.child.Some? ==> |t.calls| >= 1 && t.calls[0] == Kill(s.child.value, ops.killOk)
    ensures s.child.Some? ==>
              (t.result.Ok? <==> ops.killOk && ops.waitOk)
              && (!ops.killOk ==> t.result == Err(KillFailed) && |t.calls| == 1)
              && (ops.killOk ==> t.calls == [Kill(s.child.value, true), Wait(s.child.value, ops.waitOk)])
              && (ops.killOk && !ops.waitOk ==> t.result == Err(WaitFailed))
  {
    match s.child
    case None => Transition(s, Ok(()), [])
    case Some(h) =>
      var s' := s.(child := None);
      if !ops.killOk then Transition(s', Err(KillFailed), [Kill(h, false)])
      else if !ops.waitOk then Transition(s', Err(WaitFailed), [Kill(h, true), Wait(h, false)])
      else Transition(s', Ok(()), [Kill(h, true), Wait(h, true)])
  }

  /** Run `second` on the session `first` left, unless `first` failed. */
  function Then(first: Transition, second: Session -> Transition): (t: Transition)
    ensures first.result.Err? ==> t == first
  {
    if first.result.Err? then first
    else
      var u := second(first.session);
      Transition(u.session, u.result, first.calls + u.calls)
  }

  /** `Session::restart`: `stop`, then `start`; a stop error returns at once. */
  function Restart(s: Session, ops: ProcessOps): (t: Transition)
    ensures Stop(s, ops).result.Err? ==> t == Stop(s, ops)
    ensures t.session.name == s.name && t.session.exec == s.exec
    ensures t.result.Ok? <==> Stop(s, ops).result.Ok? && ops.spawn.Some?
    ensures Stop(s, ops).result.Ok? ==>
              && t.session == s.(child := ops.spawn)
              && t.calls == Stop(s, ops).calls + [Spawn(s.exec, ops.spawn)]
              && (ops.spawn.None? ==> t.result == Err(SpawnFailed))
  {
    Then(Stop(s, ops), (s1: Session) => Start(s1, ops))
  }

  /** `Session::switch_session(new_exec, new_name)`: `stop`; only when it
      succeeded are exec and name rebound, then `start` runs on them. */
  function Switch(s: Session, newExec: string, newName: string, ops: ProcessOps): (t: Transition)
    ensures Stop(s, ops).result.Err? ==> t == Stop(s, ops)
    ensures Stop(s, ops).result.Ok? ==> t.session.name == newName && t.session.exec == newExec
    ensures t.result.Ok? <==> Stop(s, ops).result.Ok? && ops.spawn.Some?
    ensures Stop(s, ops).result.Ok? ==>
              && t.session == Session(newName, newExec, ops.spawn)
              && t.calls == Stop(s, ops).calls + [Spawn(newExec, ops.spawn)]
              && (ops.spawn.None? ==> t.result == Err(SpawnFailed))
  {
    Then(Stop(s, ops), (s1: Session) => Start(s1.(exec := newExec, name := newName), ops))
  }

  // ---- process accounting ------------------------------------------------

  /** The processes a session holds a handle to. */
  function Owned(s: Session): set<Handle> {
    if s.child.Some? then {s.child.value} else {}
  }

  /** The processes the calls created. */
  function Spawned(calls: seq<ProcessCall>): set<Handle> {
    set i | 0 <= i < |calls| && calls[i].Spawn? && calls[i].handle.Some? :: calls[i].handle.value
  }

  /** The processes the calls waited for to the end. */
  function Reaped(calls: seq<ProcessCall>): set<Handle> {
    set i | 0 <= i < |calls| && calls[i].Wait? && calls[i].ok :: calls[i].target
  }

  /** Every process the session held or started is either still held or
      reaped: the operation lost track of nothing. */
  predicate Accounted(before: Session, t: Transition) {
    Owned(before) + Spawned(t.calls) == Owned(t.session) + Reaped(t.calls)
  }

  /** A failure inside `stop`, after the handle was already taken. */
  predicate StopFailure(r: Result<(), SessionError>) {
    r == Err(KillFailed) || r == Err(WaitFailed)
  }

  lemma StopAccounting(s: Session, ops: ProcessOps)
    ensures Accounted(s, Stop(s, ops)) <==> !StopFailure(Stop(s, ops).result)
  {
    var t := Stop(s, ops);
    assert Spawned(t.calls) == {};
    if s.child.Some? {
      var h := s.child.value;
      if ops.killOk && ops.waitOk {
        assert t.calls[1] == Wait(h, true);
        assert Reaped(t.calls) == {h};
      } else {
        assert Reaped(t.calls) == {};
        assert h in Owned(s);
      }
    } else {
      assert Reaped(t.calls) == {};
    }
  }

  lemma StartAccounting(s: Session, ops: ProcessOps)
    ensures Accounted(s, Start(s, ops))
  {
    var t := Start(s, ops);
    assert Reaped(t.calls) == {};
    if s.child.None? && ops.spawn.Some? {
      assert t.calls[0] == Spawn(s.exec, ops.spawn);
      assert Spawned(t.calls) == {ops.spawn.value};
    } else {
      assert Spawned(t.calls) == {};
    }
  }

  /** Accounting composes through `Then`, since the first step's result
      session is the second step's input. */
  lemma ThenAccounting(s: Session, first: Transition, second: Session -> Transition)
    requires Accounted(s, first)
    requires first.result.Ok? ==> Accounted(first.session, second(first.session))
    ensures Accounted(s, Then(first, second))
  {
    if first.result.Ok? {
      var u := second(first.session);
      var t := Then(first, second);
      SpawnedAppend(first.calls, u.calls);
      ReapedAppend(first.calls, u.calls);
    }
  }

  lemma SpawnedAppend(a: seq<ProcessCall>, b: seq<ProcessCall>)
    ensures Spawned(a + b) == Spawned(a) + Spawned(b)
  {
    var ab := a + b;
    forall h | h in Spawned(ab) ensures h in Spawned(a) + Spawned(b) {
      var i :| 0 <= i < |ab| && ab[i].Spawn? && ab[i].handle.Some? && ab[i].handle.value == h;
      if i >= |a| {
        assert b[i - |a|] == ab[i];
      }
    }
    forall h | h in Spawned(b) ensures h in Spawned(ab) {
      var i :| 0 <= i < |b| && b[i].Spawn? && b[i].handle.Some? && b[i].handle.value == h;
      assert ab[|a| + i] == b[i];
    }
    forall h | h in Spawned(a) ensures h in Spawned(ab) {
      var i :| 0 <= i < |a| && a[i].Spawn? && a[i].handle.Some? && a[i].handle.value == h;
      assert ab[i] == a[i];
    }
  }

  lemma ReapedAppend(a: seq<ProcessCall>, b: seq<ProcessCall>)
    ensures Reaped(a + b) == Reaped(a) + Reaped(b)
  {
    var ab := a + b;
    forall h | h in Reaped(ab) ensures h in Reaped(a) + Reaped(b) {
      var i :| 0 <= i < |ab| && ab[i].Wait? && ab[i].ok && ab[i].target == h;
      if i >= |a| {
        assert b[i - |a|] == ab[i];
      }
    }
    forall h | h in Reaped(b) ensures h in Reaped(ab) {
      var i :| 0 <= i < |b| && b[i].Wait? && b[i].ok && b[i].target == h;
      assert ab[|a| + i] == b[i];
    }
    forall h | h in Reaped(a) ensures h in Reaped(ab) {
      var i :| 0 <= i < |a| && a[i].Wait? && a[i].ok && a[i].target == h;
      assert ab[i] == a[i];
    }
  }

  /** The operations, for stating one property of all four. */
  datatype Op = StartOp | StopOp | RestartOp | SwitchOp(newExec: string, newName: string)

  function Apply(s: Session, op: Op, ops: ProcessOps): Transition {
    match op
    case StartOp => Start(s, ops)
    case StopOp => Stop(s, ops)
    case RestartOp => Restart(s, ops)
    case SwitchOp(e, n) => Switch(s, e, n, ops)
  }

  /** No operation loses a process, except when `stop` fails: the handle
      was already taken, so the process that would not die (or could not
      be waited for) is held by nobody. */
  lemma AccountedUnlessStopFails(s: Session, op: Op, ops: ProcessOps)
    ensures Accounted(s, Apply(s, op, ops)) <==> !StopFailure(Apply(s, op, ops).result)
  {
    StopAccounting(s, ops);
    match op
    case StartOp =>
      StartAccounting(s, ops);
    case StopOp =>
    case RestartOp =>
      var st := Stop(s, ops);
      if st.result.Ok? {
        StartAccounting(st.session, ops);
        ThenAccounting(s, st, (s1: Session) => Start(s1, ops));
        assert !StopFailure(Restart(s, ops).result);
      }
    case SwitchOp(e, n) =>
      var st := Stop(s, ops);
      if st.result.Ok? {
        StartAccounting(st.session.(exec := e, name := n), ops);
        ThenAccounting(s, st, (s1: Session) => Start(s1.(exec := e, name := n), ops));
        assert !StopFailure(Switch(s, e, n, ops).result);
      }
  }

  /** A failed stop orphans the child: it is neither held nor reaped. */
  lemma StopFailureOrphans(s: Session, ops: ProcessOps)
    requires s.child.Some?
    requires !(ops.killOk && ops.waitOk)
    ensures var t := Stop(s, ops);
      && t.session.child.None?
      && s.child.value !in Reaped(t.calls)
  {
    var t := Stop(s, ops);
    assert forall i :: 0 <= i < |t.calls| ==> !(t.calls[i].Wait? && t.calls[i].ok);
  }

  /** `restart` and `switch_session` never report "already running": the
      stop that precedes the start has always cleared the child. */
  lemma RestartAndSwitchNeverAlreadyRunning(s: Session, newExec: string, newName: string, ops: ProcessOps)
    ensures Restart(s, ops).result != Err(AlreadyRunning)
    ensures Switch(s, newExec, newName, ops).result != Err(AlreadyRunning)
  {
  }

  /** A restart or switch succeeds exactly when its stop succeeded and the
      spawn produced a child; it then holds exactly that fresh child, after
      the old one (if any) was killed and reaped. */
  lemma RestartOkHasFreshChild(s: Session, op: Op, ops: ProcessOps)
    requires op.RestartOp? || op.SwitchOp?
    ensures Apply(s, op, ops).result.Ok? <==> Stop(s, ops).result.Ok? && ops.spawn.Some?
    ensures Apply(s, op, ops).result.Ok? ==> var t := Apply(s, op, ops);
      && t.session.child == ops.spawn
      && (s.child.Some? ==> t.calls == [Kill(s.child.value, true), Wait(s.child.value, true),
                                        Spawn(t.session.exec, ops.spawn)])
      && (s.child.None? ==> t.calls == [Spawn(t.session.exec, ops.spawn)])
  {
  }

  /** A restart whose stop succeeded but whose spawn failed reports the spawn
      failure and holds no child: the old, reaped handle is not kept. */
  lemma RestartSpawnFailure(s: Session, ops: ProcessOps)
    requires Stop(s, ops).result.Ok? && ops.spawn.None?
    ensures Restart(s, ops) ==
      Transition(s.(child := None), Err(SpawnFailed), Stop(s, ops).calls + [Spawn(s.exec, None)])
  {
  }

  /** A switch whose stop succeeded but whose spawn failed leaves the new
      name and exec with no child. */
  lemma SwitchSpawnFailure(s: Session, newExec: string, newName: string, ops: ProcessOps)
    requires Stop(s, ops).result.Ok? && ops.spawn.None?
    ensures Switch(s, newExec, newName, ops) ==
      Transition(Session(newName, newExec, None), Err(SpawnFailed),
                 Stop(s, ops).calls + [Spawn(newExec, None)])
  {
  }

  /** Stopping twice is stopping once: the second stop has nothing to do. */
  lemma StopIdempotent(s: Session, ops1: ProcessOps, ops2: ProcessOps)
    ensures var t := Stop(Stop(s, ops1).session, ops2);
      t.session == Stop(s, ops1).session && t.result == Ok(()) && t.calls == []
  {
  }

  /** A session started from `new` and stopped cleanly is the fresh session
      again, having spawned, killed and reaped exactly one process. */
  lemma NewStartStopRoundTrip(name: string, exec: string, ops: ProcessOps)
    requires ops.spawn.Some? && ops.killOk && ops.waitOk
    ensures var t1 := Start(New(name, exec), ops);
            var t2 := Stop(t1.session, ops);
      && t1.result.Ok? && t2.result.Ok?
      && t2.session == New(name, exec)
      && t1.calls + t2.calls == [Spawn(exec, ops.spawn), Kill(ops.spawn.value, true), Wait(ops.spawn.value, true)]
  {
  }
}

/** The per-file parsing loop of `Session::available_sessions`: which
    directory entries are read, how a `.desktop` file's lines are scanned,
    and which files yield a session. */
module DesktopEntries {
  import opened Wrappers
  import opened Text
  import SessionManager

  const NameKey: string := "Name="
  const ExecKey: string := "Exec="
  const HiddenKey: string := "Hidden="
  const NoDisplayKey: string := "NoDisplay="

  /** One directory entry: its file name and, if the file could be read as
      text, its contents. */
  datatype DirEntry = DirEntry(fileName: string, content: Option<string>)

  /** Position of the last `c` in `s`, if any. */
  function LastIndexOf(s: string, c: char): (r: Option<nat>)
    ensures r.Some? ==> r.value < |s| && s[r.value] == c
    ensures r.Some? ==> forall j :: r.value < j < |s| ==> s[j] != c
    ensures r.None? ==> c !in s
  {
    if s == [] then None
    else if s[|s| - 1] == c then Some(|s| - 1)
    else LastIndexOf(s[..|s| - 1], c)
  }

  /** Rust's `Path::extension` of a file name: the text after the last dot,
      provided that dot is not the name's first character; `..` has none. */
  function Extension(fileName: string): (r: Option<string>)
    ensures r.Some? ==> exists stem :: stem != [] && fileName == stem + "." + r.value
    ensures r.Some? ==> '.' !in r.value
    ensures r.None? <==> fileName == ".." || '.' !in fileName || (fileName[0] == '.' && '.' !in fileName[1..])
  {
    if fileName == ".." then None
    else
      match LastIndexOf(fileName, '.')
      case None => None
      case Some(i) =>
        if i == 0 then
          assert '.' !in fileName[1..] by {
            forall j | 0 <= j < |fileName| - 1 ensures fileName[1..][j] != '.' {
              assert fileName[1..][j] == fileName[j + 1];
            }
          }
          None
        else
          assert fileName == fileName[..i] + "." + fileName[i + 1..];
          assert fileName[1..][i - 1] == '.';
          Some(fileName[i + 1..])
  }

  predicate IsDesktopFile(fileName: string) {
    Extension(fileName) == Some("desktop")
  }

  /** A file is read exactly when its name is something followed by
      ".desktop". */
  lemma IsDesktopFileIff(fileName: string)
    ensures IsDesktopFile(fileName) <==> |fileName| > 8 && EndsWith(fileName, ".desktop")
  {
    var n := |fileName|;
    if |fileName| > 8 && EndsWith(fileName, ".desktop") {
      assert fileName[n - 8] == '.';
      assert forall j :: n - 8 < j < n ==> fileName[j] == "desktop"[j - (n - 7)];
      var r := LastIndexOf(fileName, '.');
      assert r == Some(n - 8);
      assert fileName[n - 7..] == "desktop";
    }
    if IsDesktopFile(fileName) {
      var stem :| stem != [] && fileName == stem + "." + "desktop";
      assert fileName[n - 8..] == ".desktop";
    }
  }

  /** What the scan of a file's lines has found so far. */
  datatype Fields = Fields(name: string, exec: string, hidden: bool)

  /** A trimmed line that marks the entry hidden. */
  predicate Hides(t: string) {
    (StartsWith(t, HiddenKey) || StartsWith(t, NoDisplayKey)) && EndsWith(t, "true")
  }

  /** Line `i`, trimmed, starts with `key`. */
  predicate Keyed(ls: seq<string>, i: int, key: string)
    requires 0 <= i < |ls|
  {
    StartsWith(Trim(ls[i]), key)
  }

  /** `v` is what the last line starting with `key` holds after it, or empty
      when no line starts with `key`. */
  predicate LastKeyed(ls: seq<string>, key: string, v: string) {
    && ((forall i :: 0 <= i < |ls| ==> !Keyed(ls, i, key)) ==> v == [])
    && (forall i :: 0 <= i < |ls| && Keyed(ls, i, key) && (forall j :: i < j < |ls| ==> !Keyed(ls, j, key))
          ==> v == Trim(ls[i])[|key|..])
  }

  /** One iteration of the scan: the `if / else if` chain over a trimmed
      line. The keys exclude one another, so each field changes only on its
      own kind of line. */
  function Step(f: Fields, t: string): (r: Fields)
    ensures r.name == if StartsWith(t, NameKey) then t[|NameKey|..] else f.name
    ensures r.exec == if StartsWith(t, ExecKey) then t[|ExecKey|..] else f.exec
    ensures r.hidden == (f.hidden || Hides(t))
    ensures NoEdgeSpace(t) && EndsClean(f.name) ==> EndsClean(r.name)
    ensures NoEdgeSpace(t) && EndsClean(f.exec) ==> EndsClean(r.exec)
  {
    KeysExclusive(t);
    if StartsWith(t, NameKey) then
      assert NoEdgeSpace(t) ==> EndsClean(t[|NameKey|..]) by {
        if NoEdgeSpace(t) { SuffixEndsClean(t, |NameKey|); }
      }
      f.(name := t[|NameKey|..])
    else if StartsWith(t, ExecKey) then
      assert NoEdgeSpace(t) ==> EndsClean(t[|ExecKey|..]) by {
        if NoEdgeSpace(t) { SuffixEndsClean(t, |ExecKey|); }
      }
      f.(exec := t[|ExecKey|..])
    else if Hides(t) then f.(hidden := true)
    else f
  }

  /** The text does not end in whitespace. */
  predicate EndsClean(s: string) {
    s == [] || !IsSpace(s[|s| - 1])
  }

  lemma SuffixEndsClean(t: string, k: nat)
    requires k <= |t|
    requires NoEdgeSpace(t)
    ensures EndsClean(t[k..])
  {
    if k < |t| {
      assert t[k..][|t| - k - 1] == t[|t| - 1];
    }
  }

  /** No trimmed line starts with two of the keys. */
  lemma KeysExclusive(t: string)
    ensures StartsWith(t, NameKey) ==> !StartsWith(t, ExecKey) && !Hides(t)
    ensures StartsWith(t, ExecKey) ==> !Hides(t)
  {
    if StartsWith(t, NameKey) {
      assert t[0] == 'N' && t[1] == 'a';
    }
    if StartsWith(t, ExecKey) {
      assert t[0] == 'E';
    }
  }

  /** The scan of a file's lines, as the loop performs it from the first
      line to the last: the last `Name=` and the last `Exec=` win, and any
      `Hidden=`/`NoDisplay=` line ending in "true" hides the entry. */
  function Scan(ls: seq<string>): (f: Fields)
    ensures EndsClean(f.name) && EndsClean(f.exec)
  {
    if ls == [] then Fields([], [], false)
    else Step(Scan(ls[..|ls| - 1]), Trim(ls[|ls| - 1]))
  }

  /** What the scan finds: the last `Name=` and the last `Exec=` line win,
      and any `Hidden=`/`NoDisplay=` line ending in "true" hides the entry. */
  lemma {:induction false} ScanLastWins(ls: seq<string>)
    ensures LastKeyed(ls, NameKey, Scan(ls).name)
    ensures LastKeyed(ls, ExecKey, Scan(ls).exec)
    ensures Scan(ls).hidden <==> exists i :: 0 <= i < |ls| && Hides(Trim(ls[i]))
  {
    if ls != [] {
      var init := ls[..|ls| - 1];
      var prev := Scan(init);
      var f := Scan(ls);
      ScanLastWins(init);
      LastKeyedSnoc(ls, init, NameKey, prev.name, f.name);
      LastKeyedSnoc(ls, init, ExecKey, prev.exec, f.exec);
      HiddenSnoc(ls, init, prev.hidden, f.hidden);
    }
  }

  /** The last-wins rule extends by one line: a keyed line replaces the
      value, any other line keeps it. */
  lemma LastKeyedSnoc(ls: seq<string>, init: seq<string>, key: string, prev: string, v: string)
    requires ls != [] && init == ls[..|ls| - 1]
    requires LastKeyed(init, key, prev)
    requires v == if StartsWith(Trim(ls[|ls| - 1]), key) then Trim(ls[|ls| - 1])[|key|..] else prev
    ensures LastKeyed(ls, key, v)
  {
    var n := |ls|;
    forall i | 0 <= i < n - 1 ensures init[i] == ls[i] && (Keyed(init, i, key) <==> Keyed(ls, i, key)) {
    }
    if Keyed(ls, n - 1, key) {
      forall i | 0 <= i < n && Keyed(ls, i, key) && (forall j :: i < j < n ==> !Keyed(ls, j, key))
        ensures i == n - 1
      {
      }
    } else {
      forall i | 0 <= i < n && Keyed(ls, i, key) && (forall j :: i < j < n ==> !Keyed(ls, j, key))
        ensures v == Trim(ls[i])[|key|..]
      {
        assert i < n - 1;
        assert Keyed(init, i, key);
        assert forall j :: i < j < n - 1 ==> !Keyed(init, j, key);
      }
    }
  }

  lemma HiddenSnoc(ls: seq<string>, init: seq<string>, prev: bool, h: bool)
    requires ls != [] && init == ls[..|ls| - 1]
    requires prev <==> exists i :: 0 <= i < |init| && Hides(Trim(init[i]))
    requires h == (prev || Hides(Trim(ls[|ls| - 1])))
    ensures h <==> exists i :: 0 <= i < |ls| && Hides(Trim(ls[i]))
  {
    var n := |ls|;
    assert forall i :: 0 <= i < n - 1 ==> init[i] == ls[i];
    if h && !prev {
      assert Hides(Trim(ls[n - 1]));
    }
  }

  /** The scan as the source writes it: a loop over the lines in order. */
  method ScanFile(ls: seq<string>) returns (f: Fields)
    ensures f == Scan(ls)
  {
    f := Fields([], [], false);
    var k := 0;
    while k < |ls|
      invariant 0 <= k <= |ls|
      invariant f == Scan(ls[..k])
    {
      var t := Trim(ls[k]);
      assert Scan(ls[..k + 1]) == Step(Scan(ls[..k]), t) by {
        var next := ls[..k + 1];
        assert next[..|next| - 1] == ls[..k] && next[|next| - 1] == ls[k];
      }
      f := Step(f, t);
      k := k + 1;
    }
    assert ls[..k] == ls;
  }

  /** The session a directory entry yields, if any: only a readable
      `.desktop` file with a non-empty name and exec that is not hidden;
      its exec is cut to the first whitespace-separated word, dropping
      placeholders such as `%U`. */
  function SessionOf(e: DirEntry): (r: Option<SessionManager.Session>)
    ensures r.Some? ==> IsDesktopFile(e.fileName) && e.content.Some?
    ensures r.Some? ==> r.value.child.None? && r.value.name != [] && r.value.exec != []
    ensures r.Some? ==> forall i :: 0 <= i < |r.value.exec| ==> !IsSpace(r.value.exec[i])
    ensures IsDesktopFile(e.fileName) && e.content.Some? ==>
              var f := Scan(Lines(e.content.value));
              (r.Some? <==> f.name != [] && f.exec != [] && !f.hidden)
              && (r.Some? ==> r.value.name == f.name && r.value.exec == FirstToken(f.exec))
  {
    if !IsDesktopFile(e.fileName) || e.content.None? then None
    else
      var f := Scan(Lines(e.content.value));
      if f.name != [] && f.exec != [] && !f.hidden then
        assert EndsClean(f.exec);
        Some(SessionManager.New(f.name, FirstToken(f.exec)))
      else None
  }

  /** The `Some` results of `f` over `xs`, in order. */
  function FilterMap<A, B(!new)>(xs: seq<A>, f: A -> Option<B>): (ys: seq<B>)
    ensures |ys| <= |xs|
    ensures forall y :: y in ys <==> exists i :: 0 <= i < |xs| && f(xs[i]) == Some(y)
  {
    if xs == [] then []
    else
      var rest := FilterMap(xs[1..], f);
      FilterMapCons(xs, f, rest);
      match f(xs[0])
      case None => rest
      case Some(y) => [y] + rest
  }

  lemma FilterMapCons<A, B(!new)>(xs: seq<A>, f: A -> Option<B>, rest: seq<B>)
    requires xs != []
    requires forall y :: y in rest <==> exists i :: 0 <= i < |xs| - 1 && f(xs[1..][i]) == Some(y)
    ensures forall y :: y in rest <==> exists i :: 1 <= i < |xs| && f(xs[i]) == Some(y)
  {
    forall y | y in rest ensures exists i :: 1 <= i < |xs| && f(xs[i]) == Some(y) {
      var i :| 0 <= i < |xs| - 1 && f(xs[1..][i]) == Some(y);
      assert f(xs[i + 1]) == Some(y);
    }
    forall y | (exists i :: 1 <= i < |xs| && f(xs[i]) == Some(y)) ensures y in rest {
      var i :| 1 <= i < |xs| && f(xs[i]) == Some(y);
      assert f(xs[1..][i - 1]) == Some(y);
    }
  }

  /** Filtering distributes over concatenation. */
  lemma {:induction false} FilterMapAppend<A, B(!new)>(xs: seq<A>, ys: seq<A>, f: A -> Option<B>)
    ensures FilterMap(xs + ys, f) == FilterMap(xs, f) + FilterMap(ys, f)
  {
    if xs == [] {
      assert xs + ys == ys;
    } else {
      assert (xs + ys)[0] == xs[0];
      assert (xs + ys)[1..] == xs[1..] + ys;
      FilterMapAppend(xs[1..], ys, f);
    }
  }

  /** One element contributes its `Some` value, or nothing. */
  lemma FilterMapSingle<A, B(!new)>(x: A, f: A -> Option<B>)
    ensures FilterMap([x], f) == if f(x).Some? then [f(x).value] else []
  {
    assert [x][1..] == [];
  }

  /** The sessions one directory yields; `None` is a directory that could
      not be listed. */
  function DirSessions(listing: Option<seq<DirEntry>>): (ss: seq<SessionManager.Session>)
    ensures listing.None? ==> ss == []
    ensures forall s :: s in ss <==> listing.Some? && exists i :: 0 <= i < |listing.value| && SessionOf(listing.value[i]) == Some(s)
  {
    if listing.None? then [] else FilterMap(listing.value, SessionOf)
  }

  /** The loop over a listing: each entry pushes its session, if it yields
      one, after those of the entries before it; nothing is merged or
      dropped. */
  lemma DirSessionsSnoc(listing: seq<DirEntry>, e: DirEntry)
    ensures DirSessions(Some([])) == []
    ensures DirSessions(Some(listing + [e])) ==
      DirSessions(Some(listing)) + (if SessionOf(e).Some? then [SessionOf(e).value] else [])
  {
    FilterMapAppend(listing, [e], SessionOf);
    FilterMapSingle(e, SessionOf);
  }

  /** `Session::available_sessions` over the listings of
      /usr/share/wayland-sessions and /usr/share/wayland-session: the first
      directory's sessions, then the second's, nothing merged. */
  function AvailableSessions(first: Option<seq<DirEntry>>, second: Option<seq<DirEntry>>): (ss: seq<SessionManager.Session>)
    ensures |ss| == |DirSessions(first)| + |DirSessions(second)|
    ensures ss[..|DirSessions(first)|] == DirSessions(first)
    ensures ss[|DirSessions(first)|..] == DirSessions(second)
  {
    DirSessions(first) + DirSessions(second)
  }

  /** A session is offered iff some readable, visible `.desktop` file with a
      name and an exec in one of the two directories describes it. */
  lemma AvailableSessionsMembers(first: Option<seq<DirEntry>>, second: Option<seq<DirEntry>>, s: SessionManager.Session)
    ensures s in AvailableSessions(first, second) <==>
      (first.Some? && exists i :: 0 <= i < |first.value| && SessionOf(first.value[i]) == Some(s))
      || (second.Some? && exists i :: 0 <= i < |second.value| && SessionOf(second.value[i]) == Some(s))
  {
  }
}
