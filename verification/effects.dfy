/** The outside-world actions the configuration and service layers perform,
    recorded as events in the order they are attempted. Whether an attempt
    succeeds is an input to the operation that performs it. */
module Effects {

  /** The configuration file every caller reads and writes. */
  const ConfigPath: string := "/etc/hyprdm/hyprdm.conf"

  /** Where the service layer writes (and removes) the unit file. */
  const UnitPath: string := "/etc/systemd/system/hdm.service"

  /** Where saving a config with `systemctl_usedefine` writes the unit file. */
  const WantsUnitPath: string := "/etc/systemd/system/multi-user.target.wants/hdm.service"

  /** The unit name handed to `systemctl enable`. */
  const UnitName: string := "hdm.service"

  /** The service name handed to `sudo systemctl restart`. */
  const RestartTarget: string := "hyprdm"

  /** The file that holds the last-checked modification time. */
  const MarkerPath: string := "/var/lib/hyprdm/config_last_check"

  datatype Effect =
    | WriteConfig(path: string, text: string)  // fs::write of the config file
    | WriteUnit(path: string)                  // fs::write of the fixed unit template
    | EnableUnit(name: string)                 // systemctl enable <name>
    | RemoveUnit(path: string)                 // fs::remove_file of the unit file
    | WriteMarker(text: string)                // fs::write of the last-check marker
    | Restart(service: string)                 // sudo systemctl restart <service>

  /** Number of restart requests in an effect list. */
  function RestartCount(es: seq<Effect>): nat
  {
    if es == [] then 0
    else (if es[0].Restart? then 1 else 0) + RestartCount(es[1..])
  }

  /** Does the list request any change to the service unit? */
  predicate TouchesUnit(es: seq<Effect>) {
    exists i :: 0 <= i < |es| && (es[i].WriteUnit? || es[i].EnableUnit? || es[i].RemoveUnit?)
  }
}
