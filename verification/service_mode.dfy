/** The service-mode controller of the `config` crate (`ConfigManager::run`
    without reload): load or create the configuration, then decide from
    (autologin, systemctl_usedefine) whether the managed unit is created and
    enabled or removed. */
module ServiceMode {
  import opened Effects
  import opened ConfigParser

  /** What the decision table asks of the unit. */
  datatype Mode = EnsureAbsent | CreateAndEnable

  /** How a run of the controller ends. `Panicked` is an abort inside
      validation or a failed `unwrap`; the others are returns. `NoConfig`,
      `Unchanged` and `Corrupt` are returned only by the reload path of the
      `configmanager` binary, which shares this report type. */
  datatype Exit = Finished | LoadFailed | NoConfig | Unchanged | Corrupt | Panicked

  datatype RunReport = RunReport(effects: seq<Effect>, exit: Exit)

  /** The four rows of the `(autologin, systemctl_usedefine)` match. */
  function Decide(autologin: bool, systemctl: bool): (m: Mode)
    ensures m == CreateAndEnable <==> systemctl
  {
    match (autologin, systemctl)
    case (true, false) => EnsureAbsent
    case (false, true) => CreateAndEnable
    case (true, true) => CreateAndEnable
    case (false, false) => EnsureAbsent
  }

  /** `remove_service_if_exists`: remove only a unit file that exists. */
  function RemoveIfExists(path: string, present: bool): (es: seq<Effect>)
    ensures |es| <= 1
    ensures es != [] <==> present
    ensures forall i :: 0 <= i < |es| ==> es[i] == RemoveUnit(path)
  {
    if present then [RemoveUnit(path)] else []
  }

  /** The unit operations a mode performs. Creation writes the fixed
      template whether or not a unit exists; failures are only logged. */
  function ModeEffects(m: Mode, unitExists: bool): (es: seq<Effect>)
    ensures m == CreateAndEnable ==> es == [WriteUnit(UnitPath), EnableUnit(UnitName)]
    ensures m == EnsureAbsent ==> es == RemoveIfExists(UnitPath, unitExists)
  {
    match m
    case CreateAndEnable => [WriteUnit(UnitPath), EnableUnit(UnitName)]
    case EnsureAbsent => RemoveIfExists(UnitPath, unitExists)
  }

  function ServiceEffects(c: Config, unitExists: bool): seq<Effect> {
    ModeEffects(Decide(c.autologin, c.systemctl_usedefine), unitExists)
  }

  /** `ConfigManager::run` of the `config` crate. */
  function Run(file: ConfigFile, io: SaveIo, unitExists: bool): (r: RunReport)
    ensures var lc := LoadOrCreate(ConfigPath, file, io);
      && (r.exit == Finished <==> lc.result.Loaded?)
      && (r.exit == LoadFailed <==> lc.result.Failed?)
      && (r.exit == Panicked <==> lc.result.Aborted?)
      && (r.exit != Finished ==> r.effects == lc.effects)
      && |lc.effects| <= |r.effects| && r.effects[..|lc.effects|] == lc.effects
  {
    var lc := LoadOrCreate(ConfigPath, file, io);
    match lc.result
    case Failed(_) => RunReport(lc.effects, LoadFailed)
    case Aborted => RunReport(lc.effects, Panicked)
    case Loaded(c) => RunReport(lc.effects + ServiceEffects(c, unitExists), Finished)
  }

  /** Loading or creating the file never touches the unit: the created
      defaults have `systemctl_usedefine` off. */
  lemma LoadOrCreateLeavesUnit(file: ConfigFile, io: SaveIo)
    ensures !TouchesUnit(LoadOrCreate(ConfigPath, file, io).effects)
  {
  }

  /** A load failure or abort returns before any unit operation. */
  lemma FailedLoadTouchesNoUnit(file: ConfigFile, io: SaveIo, unitExists: bool)
    requires Run(file, io, unitExists).exit != Finished
    ensures !TouchesUnit(Run(file, io, unitExists).effects)
  {
    LoadOrCreateLeavesUnit(file, io);
  }

  /** On an existing file the run's unit operations follow the table: the
      unit is created then enabled iff `systemctl_usedefine`, and otherwise
      removed iff the unit file exists. The (true, true) row is never
      reached, because loading aborts on it first. */
  lemma RunFollowsTable(file: ConfigFile, io: SaveIo, unitExists: bool)
    requires !file.Missing?
    requires Run(file, io, unitExists).exit == Finished
    ensures var c := LoadConfig(file).config;
            var es := Run(file, io, unitExists).effects;
      && !BothModes(c)
      && (c.systemctl_usedefine ==> es == [WriteUnit(UnitPath), EnableUnit(UnitName)])
      && (!c.systemctl_usedefine ==> es == (if unitExists then [RemoveUnit(UnitPath)] else []))
  {
  }

  /** A fresh install (no configuration file) creates the defaults and,
      since they choose autologin, only removes a leftover unit. */
  lemma FreshInstallRemovesUnit(io: SaveIo, unitExists: bool)
    requires io.configWriteOk
    ensures Run(Missing, io, unitExists) ==
      RunReport([WriteConfig(ConfigPath, SaveText(Defaults))] + RemoveIfExists(UnitPath, unitExists), Finished)
  {
  }
}
