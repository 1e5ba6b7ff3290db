/** The `configmanager` binary's `ConfigManager::run(reload)`: with
    `--reload` it first compares the configuration's modification time with
    the persisted last-check marker and restarts the display manager only
    for a changed file that loads; then (unless it returned) it runs the
    same service-mode table as the `config` crate. */
module ReloadWatcher {
  import opened Wrappers
  import opened Text
  import opened Effects
  import opened ConfigParser
  import ServiceMode

  /** `fs::read_to_string(marker).unwrap_or_default().parse::<u64>()
      .unwrap_or(0)`; `None` is a marker that could not be read. */
  function LastCheck(marker: Option<string>): (t: nat)
    ensures t <= U64Max
    ensures marker.None? ==> t == 0
    ensures marker.Some? && ParseU64(marker.value).None? ==> t == 0
    ensures marker.Some? && ParseU64(marker.value).Some? ==> t == ParseU64(marker.value).value
  {
    ParseU64(marker.GetOr("")).GetOr(0)
  }

  /** The run. `mtime` is the file's modification time in whole seconds
      since the epoch (`None`: metadata unreadable; negative: before the
      epoch, where `duration_since(..).unwrap()` panics). `marker` is the
      marker file's text, `file` the configuration as a read finds it. */
  function Run(reload: bool, mtime: Option<int>, marker: Option<string>, file: ConfigFile,
               io: SaveIo, unitExists: bool): (r: ServiceMode.RunReport)
    ensures !reload ==> r == ServiceMode.Run(file, io, unitExists)
    ensures reload && mtime.None? ==> r == ServiceMode.RunReport([], ServiceMode.NoConfig)
    ensures reload && mtime.Some? && 0 <= mtime.value <= LastCheck(marker) ==>
              r == ServiceMode.RunReport([], ServiceMode.Unchanged)
    ensures reload && mtime.Some? && mtime.value < 0 ==> r == ServiceMode.RunReport([], ServiceMode.Panicked)
    ensures reload && mtime.Some? && mtime.value > LastCheck(marker) ==>
              var first := LoadOrCreate(ConfigPath, file, io);
              && (first.result.Failed? ==> r.exit == ServiceMode.Corrupt)
              && (first.result.Aborted? ==> r.exit == ServiceMode.Panicked)
              && (first.result.Loaded? ==> r.exit == ServiceMode.Run(first.after, io, unitExists).exit)
  {
    if !reload then ServiceMode.Run(file, io, unitExists)
    else
      match mtime
      case None => ServiceMode.RunReport([], ServiceMode.NoConfig)
      case Some(t) =>
        var last := LastCheck(marker);
        if t < 0 then ServiceMode.RunReport([], ServiceMode.Panicked)
        else if t <= last then ServiceMode.RunReport([], ServiceMode.Unchanged)
        else
          var first := LoadOrCreate(ConfigPath, file, io);
          match first.result
          case Failed(_) => ServiceMode.RunReport(first.effects, ServiceMode.Corrupt)
          case Aborted => ServiceMode.RunReport(first.effects, ServiceMode.Panicked)
          case Loaded(_) =>
            var main := ServiceMode.Run(first.after, io, unitExists);
            ServiceMode.RunReport(first.effects + ReloadEffects(t) + main.effects, main.exit)
  }

  /** Persist the new check time, then restart the display manager. A failed
      marker write is only logged and does not stop the restart. */
  function ReloadEffects(t: nat): (es: seq<Effect>)
    ensures RestartCount(es) == 1
    ensures es[0].WriteMarker? && es[|es| - 1].Restart?
  {
    var es := [WriteMarker(NatToString(t)), Restart(RestartTarget)];
    assert RestartCount(es[1..][1..]) == 0;
    assert RestartCount(es[1..]) == 1;
    es
  }

  /** Neither loading nor the service table restarts anything. */
  lemma NoRestartOutsideReload(file: ConfigFile, io: SaveIo, unitExists: bool)
    ensures RestartCount(ServiceMode.Run(file, io, unitExists).effects) == 0
    ensures forall i :: 0 <= i < |ServiceMode.Run(file, io, unitExists).effects| ==>
              !ServiceMode.Run(file, io, unitExists).effects[i].WriteMarker?
  {
    var lc := LoadOrCreate(ConfigPath, file, io);
    var r := ServiceMode.Run(file, io, unitExists);
    LoadOrCreateQuiet(file, io);
    if lc.result.Loaded? {
      var se := ServiceMode.ServiceEffects(lc.result.config, unitExists);
      ServiceEffectsQuiet(lc.result.config, unitExists);
      assert r.effects == lc.effects + se;
    }
    assert Quiet(r.effects);
    NoRestartCounted(r.effects);
  }

  /** Neither a restart request nor a marker write. */
  predicate Quiet(es: seq<Effect>) {
    forall i :: 0 <= i < |es| ==> !es[i].Restart? && !es[i].WriteMarker?
  }

  lemma LoadOrCreateQuiet(file: ConfigFile, io: SaveIo)
    ensures Quiet(LoadOrCreate(ConfigPath, file, io).effects)
  {
  }

  lemma ServiceEffectsQuiet(c: Config, unitExists: bool)
    ensures Quiet(ServiceMode.ServiceEffects(c, unitExists))
  {
  }

  lemma {:induction false} NoRestartCounted(es: seq<Effect>)
    requires forall i :: 0 <= i < |es| ==> !es[i].Restart?
    ensures RestartCount(es) == 0
  {
    if es != [] {
      NoRestartCounted(es[1..]);
    }
  }

  lemma {:induction false} RestartCountAppend(a: seq<Effect>, b: seq<Effect>)
    ensures RestartCount(a + b) == RestartCount(a) + RestartCount(b)
  {
    if a == [] {
      assert a + b == b;
    } else {
      assert (a + b)[0] == a[0];
      assert (a + b)[1..] == a[1..] + b;
      RestartCountAppend(a[1..], b);
    }
  }

  /** Exactly one restart happens, and only for a reload whose file changed
      since the last check and then loaded; an unchanged, unreadable or
      corrupt file never restarts. */
  lemma RestartIffChangedAndLoads(reload: bool, mtime: Option<int>, marker: Option<string>,
                                  file: ConfigFile, io: SaveIo, unitExists: bool)
    ensures var r := Run(reload, mtime, marker, file, io, unitExists);
      && RestartCount(r.effects) <= 1
      && (RestartCount(r.effects) == 1 <==>
            reload && mtime.Some? && mtime.value > LastCheck(marker)
            && LoadOrCreate(ConfigPath, file, io).result.Loaded?)
  {
    var r := Run(reload, mtime, marker, file, io, unitExists);
    if !reload {
      NoRestartOutsideReload(file, io, unitExists);
    } else if mtime.Some? && mtime.value > LastCheck(marker) {
      var first := LoadOrCreate(ConfigPath, file, io);
      NoRestartOutsideReload(file, io, unitExists);
      NoRestartCounted(first.effects);
      if first.result.Loaded? {
        var main := ServiceMode.Run(first.after, io, unitExists);
        NoRestartOutsideReload(first.after, io, unitExists);
        RestartCountAppend(first.effects, ReloadEffects(mtime.value));
        RestartCountAppend(first.effects + ReloadEffects(mtime.value), main.effects);
      }
    }
  }

  /** A changed file that fails to load is left for the next check: the
      marker is not written, so the next run sees the change again. */
  lemma CorruptKeepsMarker(mtime: int, marker: Option<string>, file: ConfigFile, io: SaveIo, unitExists: bool)
    requires mtime > LastCheck(marker)
    requires !LoadOrCreate(ConfigPath, file, io).result.Loaded?
    ensures var r := Run(true, Some(mtime), marker, file, io, unitExists);
      && r.effects == LoadOrCreate(ConfigPath, file, io).effects
      && forall i :: 0 <= i < |r.effects| ==> !r.effects[i].WriteMarker? && !r.effects[i].Restart?
  {
  }

  /** On a successful reload the marker holds the new modification time
      before the restart is requested. */
  lemma MarkerBeforeRestart(mtime: int, marker: Option<string>, file: ConfigFile, io: SaveIo, unitExists: bool)
    requires mtime > LastCheck(marker)
    requires LoadOrCreate(ConfigPath, file, io).result.Loaded?
    ensures var r := Run(true, Some(mtime), marker, file, io, unitExists);
            var k := |LoadOrCreate(ConfigPath, file, io).effects|;
      && k + 2 <= |r.effects|
      && r.effects[k] == WriteMarker(NatToString(mtime))
      && r.effects[k + 1] == Restart(RestartTarget)
  {
    var first := LoadOrCreate(ConfigPath, file, io);
    ReloadedEffects(mtime, marker, file, io, unitExists);
    MiddleOfThree(first.effects, ReloadEffects(mtime), ServiceMode.Run(first.after, io, unitExists).effects);
  }

  lemma MiddleOfThree(a: seq<Effect>, b: seq<Effect>, c: seq<Effect>)
    ensures forall i :: 0 <= i < |b| ==> (a + b + c)[|a| + i] == b[i]
  {
  }

  /** The effects of a reload whose file changed and loaded. */
  lemma ReloadedEffects(mtime: int, marker: Option<string>, file: ConfigFile, io: SaveIo, unitExists: bool)
    requires mtime > LastCheck(marker)
    requires LoadOrCreate(ConfigPath, file, io).result.Loaded?
    ensures var first := LoadOrCreate(ConfigPath, file, io);
      Run(true, Some(mtime), marker, file, io, unitExists).effects
        == first.effects + ReloadEffects(mtime) + ServiceMode.Run(first.after, io, unitExists).effects
  {
  }

  /** Reloading is idempotent: with the marker text a reload writes for a
      modification time, running again on that time does nothing at all. */
  lemma ReloadIdempotent(mtime: int, file: ConfigFile, io: SaveIo, unitExists: bool)
    requires 0 <= mtime <= U64Max
    ensures Run(true, Some(mtime), Some(ReloadEffects(mtime)[0].text), file, io, unitExists)
            == ServiceMode.RunReport([], ServiceMode.Unchanged)
  {
    ParseU64OfNatToString(mtime);
  }
}
