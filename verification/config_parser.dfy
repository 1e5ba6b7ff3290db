/** The configuration store: the `HDMConfig` record, its line-oriented
    `key=value` text form, validation, and the load / save / load-or-create
    operations over an abstract file state. */
module ConfigParser {
  import opened Wrappers
  import opened Text
  import opened Effects

  const DefaultTheme: string := "Adwaita-dark"
  const DefaultSession: string := "Hyprland"

  const ThemeKey: string := "theme"
  const TilingKey: string := "tiling"
  const SessionKey: string := "default_session"
  const AutologinKey: string := "autologin"
  const TwoFactorKey: string := "two_factor_enabled"
  const MethodKey: string := "two_factor_method"
  const SecretKey: string := "two_factor_secret"
  const SystemctlKey: string := "systemctl_usedefine"

  /** The active and the disabled form of the last saved line. */
  const SystemctlOn: string := "systemctl_usedefine=true"
  const SystemctlOff: string := "# systemctl_usedefine=true"

  datatype Config = Config(
    theme: string,
    tiling: bool,
    default_session: string,
    autologin: bool,
    two_factor_enabled: bool,
    two_factor_method: Option<string>,
    two_factor_secret: Option<string>,
    systemctl_usedefine: bool)

  /** The record used when no configuration file exists. */
  const Defaults: Config := Config(DefaultTheme, true, DefaultSession, true, false, None, None, false)

  /** What reading the configuration path finds. */
  datatype ConfigFile = Missing | Unreadable | Present(text: string)

  datatype ConfigError = ReadFailed | SaveFailed | ServiceWriteFailed | ServiceEnableFailed

  /** `Aborted` is the panic in validation: the process ends there. */
  datatype LoadResult = Loaded(config: Config) | Failed(error: ConfigError) | Aborted

  /** Success or failure of each write/command `save_config` may attempt. */
  datatype SaveIo = SaveIo(configWriteOk: bool, unitWriteOk: bool, enableOk: bool)

  datatype SaveReport = SaveReport(effects: seq<Effect>, result: Result<(), ConfigError>)

  /** `after` is the configuration file as a later read would find it. */
  datatype LoadReport = LoadReport(effects: seq<Effect>, result: LoadResult, after: ConfigFile)

  // ---- validation --------------------------------------------------------

  /** Autologin and the managed service at once: the forbidden combination. */
  predicate BothModes(c: Config) {
    c.autologin && c.systemctl_usedefine
  }

  predicate Valid(c: Config) {
    c.theme != [] && c.default_session != [] && !BothModes(c)
  }

  /** `HDMConfig::validate`; `None` is the panic on the forbidden combination. */
  function Validate(c: Config): (r: Option<Config>)
    ensures r.None? <==> BothModes(c)
    ensures r.Some? ==> Valid(r.value)
    ensures r.Some? ==> r.value.(theme := c.theme, default_session := c.default_session) == c
    ensures r.Some? && c.theme != [] ==> r.value.theme == c.theme
    ensures r.Some? && c.default_session != [] ==> r.value.default_session == c.default_session
    ensures r.Some? && c.theme == [] ==> r.value.theme == DefaultTheme
    ensures r.Some? && c.default_session == [] ==> r.value.default_session == DefaultSession
  {
    var theme := if c.theme == [] then DefaultTheme else c.theme;
    var session := if c.default_session == [] then DefaultSession else c.default_session;
    if BothModes(c) then None
    else Some(c.(theme := theme, default_session := session))
  }

  /** A valid record passes validation untouched, so validation is idempotent. */
  lemma ValidateIdempotent(c: Config)
    ensures Valid(c) ==> Validate(c) == Some(c)
    ensures Validate(c).Some? ==> Validate(Validate(c).value) == Validate(c)
  {
  }

  // ---- the text form -----------------------------------------------------

  /** One line of the file: trimmed; blank and '#' lines and lines without
      '=' assign nothing; otherwise key and value are the trimmed parts
      around the first '='. */
  function LineEntry(raw: string): (r: Option<(string, string)>)
    ensures r.Some? ==> NoEdgeSpace(r.value.0) && NoEdgeSpace(r.value.1)
    ensures r.Some? && '\n' !in raw ==> Clean(r.value.0) && Clean(r.value.1)
  {
    var line := Trim(raw);
    if line == [] || line[0] == '#' then None
    else
      match SplitOnce(line, '=')
      case None => None
      case Some((k, v)) =>
        assert '\n' in k ==> '\n' in line by { assert k == line[..|k|]; }
        assert '\n' in v ==> '\n' in line by { assert v == line[|k| + 1..]; }
        Some((Trim(k), Trim(v)))
  }

  /** Blank lines, '#' comments and lines without '=' assign nothing; an
      assigning line splits at its first '=': the key is the trimmed text
      before it (so it holds no '=') and the value the trimmed text after. */
  lemma LineEntryShape(raw: string)
    ensures var line := Trim(raw);
      LineEntry(raw).None? <==> line == [] || line[0] == '#' || '=' !in line
    ensures LineEntry(raw).Some? ==> '=' !in LineEntry(raw).value.0
    ensures LineEntry(raw).Some? ==> var t := Trim(raw);
      exists i :: 0 <= i < |t| && t[i] == '=' && '=' !in t[..i]
                  && LineEntry(raw).value == (Trim(t[..i]), Trim(t[i + 1..]))
  {
    var line := Trim(raw);
    if line != [] && line[0] != '#' && '=' in line {
      var (k, v) := SplitOnce(line, '=').value;
      TrimKeeps(k, '=');
      assert LineEntry(raw) == Some((Trim(k), Trim(v)));
      var i := |k|;
      assert line[..i] == k && line[i] == '=' && line[i + 1..] == v by {
        assert line == k + ['='] + v;
      }
      assert 0 <= i < |line| && line[i] == '=' && '=' !in line[..i]
             && LineEntry(raw).value == (Trim(line[..i]), Trim(line[i + 1..]));
    }
  }

  /** What one line contributes: `Some((key, value))` or nothing. */
  type Entry = Option<(string, string)>

  /** Does the entry assign `key`? */
  predicate Assigns(e: Entry, key: string) {
    e.Some? && e.value.0 == key
  }

  /** The entries of the lines, one per line, in order. */
  function Entries(lines: seq<string>): (es: seq<Entry>)
    ensures |es| == |lines|
    ensures forall i :: 0 <= i < |lines| ==> es[i] == LineEntry(lines[i])
  {
    seq(|lines|, i requires 0 <= i < |lines| => LineEntry(lines[i]))
  }

  /** Entry `i` assigns `key` and no later entry does. */
  predicate LastAssigns(es: seq<Entry>, i: int, key: string) {
    && 0 <= i < |es|
    && Assigns(es[i], key)
    && forall j :: i < j < |es| ==> !Assigns(es[j], key)
  }

  /** The `HashMap` the loading loop fills: one insert per entry, in order. */
  function MapOf(es: seq<Entry>): map<string, string>
    decreases |es|
  {
    if es == [] then map[]
    else
      var m := MapOf(es[..|es| - 1]);
      match es[|es| - 1]
      case None => m
      case Some((k, v)) => m[k := v]
  }

  function EntryMap(lines: seq<string>): map<string, string> {
    MapOf(Entries(lines))
  }

  /** A key is present iff some entry assigns it, and its value is the one
      the LAST such entry assigns: a later duplicate overwrites. */
  lemma {:induction false} MapOfLastWins(es: seq<Entry>, key: string)
    ensures key in MapOf(es) <==> exists i :: 0 <= i < |es| && Assigns(es[i], key)
    ensures key in MapOf(es) ==> exists i :: LastAssigns(es, i, key)
    ensures forall i :: LastAssigns(es, i, key) ==> key in MapOf(es) && MapOf(es)[key] == es[i].value.1
    decreases |es|
  {
    if es != [] {
      var n := |es| - 1;
      var init := es[..n];
      MapOfLastWins(init, key);
      if Assigns(es[n], key) {
        assert LastAssigns(es, n, key);
        forall i | LastAssigns(es, i, key)
          ensures i == n
        {
        }
      } else {
        forall i | LastAssigns(es, i, key)
          ensures LastAssigns(init, i, key)
        {
        }
        if key in MapOf(es) {
          var i :| LastAssigns(init, i, key);
          assert LastAssigns(es, i, key);
        }
        if exists i :: 0 <= i < |es| && Assigns(es[i], key) {
          var i :| 0 <= i < |es| && Assigns(es[i], key);
          assert Assigns(init[i], key);
        }
      }
    }
  }

  /** Every value the loading loop stores is trimmed and on one line. */
  lemma {:induction false} MapOfClean(es: seq<Entry>)
    requires forall i :: 0 <= i < |es| && es[i].Some? ==> Clean(es[i].value.1)
    ensures forall k :: k in MapOf(es) ==> Clean(MapOf(es)[k])
    decreases |es|
  {
    if es != [] {
      MapOfClean(es[..|es| - 1]);
    }
  }

  /** `map.get(key).map(|v| v == "true").unwrap_or(default)`. */
  function BoolField(m: map<string, string>, key: string, default: bool): bool {
    if key in m then m[key] == "true" else default
  }

  function TextField(m: map<string, string>, key: string, default: string): string {
    if key in m then m[key] else default
  }

  function OptField(m: map<string, string>, key: string): Option<string> {
    if key in m then Some(m[key]) else None
  }

  /** The record built from the map, before validation. */
  function Decode(m: map<string, string>): Config {
    Config(
      TextField(m, ThemeKey, DefaultTheme),
      BoolField(m, TilingKey, true),
      TextField(m, SessionKey, DefaultSession),
      BoolField(m, AutologinKey, true),
      BoolField(m, TwoFactorKey, false),
      OptField(m, MethodKey),
      OptField(m, SecretKey),
      BoolField(m, SystemctlKey, false))
  }

  /** `load_config`: defaults for a missing file (and nothing is written),
      an error for an unreadable one, else parse, decode and validate. */
  function LoadConfig(file: ConfigFile): (r: LoadResult)
    ensures file.Missing? ==> r == Loaded(Defaults)
    ensures file.Unreadable? <==> r.Failed?
    ensures r.Failed? ==> r.error == ReadFailed
    ensures r.Loaded? ==> Valid(r.config)
  {
    match file
    case Missing => Loaded(Defaults)
    case Unreadable => Failed(ReadFailed)
    case Present(text) =>
      match Validate(Decode(EntryMap(Lines(text))))
      case None => Aborted
      case Some(c) => Loaded(c)
  }

  /** Field by field, a loaded record follows the last line assigning each
      key: a flag is on iff that value is exactly "true", an empty theme or
      session is replaced by its default. */
  lemma LoadedFieldsFollowLastLines(text: string, c: Config, key: string, i: int)
    requires LoadConfig(Present(text)) == Loaded(c)
    requires LastAssigns(Entries(Lines(text)), i, key)
    ensures var v := Entries(Lines(text))[i].value.1;
      && (key == TilingKey ==> (c.tiling <==> v == "true"))
      && (key == AutologinKey ==> (c.autologin <==> v == "true"))
      && (key == TwoFactorKey ==> (c.two_factor_enabled <==> v == "true"))
      && (key == SystemctlKey ==> (c.systemctl_usedefine <==> v == "true"))
      && (key == MethodKey ==> c.two_factor_method == Some(v))
      && (key == SecretKey ==> c.two_factor_secret == Some(v))
      && (key == ThemeKey ==> c.theme == (if v == [] then DefaultTheme else v))
      && (key == SessionKey ==> c.default_session == (if v == [] then DefaultSession else v))
  {
    var es := Entries(Lines(text));
    var m := MapOf(es);
    MapOfLastWins(es, key);
    assert key in m && m[key] == es[i].value.1;
    assert Validate(Decode(m)) == Some(c);
  }

  /** Keys no line assigns take their defaults (method and secret: `None`). */
  lemma LoadedFieldsDefault(text: string, c: Config, key: string)
    requires LoadConfig(Present(text)) == Loaded(c)
    requires forall i :: 0 <= i < |Lines(text)| ==> !Assigns(Entries(Lines(text))[i], key)
    ensures key == TilingKey ==> c.tiling
    ensures key == AutologinKey ==> c.autologin
    ensures key == TwoFactorKey ==> !c.two_factor_enabled
    ensures key == SystemctlKey ==> !c.systemctl_usedefine
    ensures key == MethodKey ==> c.two_factor_method == None
    ensures key == SecretKey ==> c.two_factor_secret == None
    ensures key == ThemeKey ==> c.theme == DefaultTheme
    ensures key == SessionKey ==> c.default_session == DefaultSession
  {
    var es := Entries(Lines(text));
    var m := MapOf(es);
    MapOfLastWins(es, key);
    assert key !in m;
    assert Validate(Decode(m)) == Some(c);
  }

  /** Loading aborts exactly when the decoded record turns on both modes. */
  lemma LoadAbortsOnBothModes(text: string)
    ensures LoadConfig(Present(text)).Aborted? <==> BothModes(Decode(EntryMap(Lines(text))))
    ensures !LoadConfig(Present(text)).Failed?
  {
  }

  // ---- saving ------------------------------------------------------------

  /** Rust's `Display` for `bool`. */
  function BoolText(b: bool): (r: string)
    ensures Clean(r)
  {
    if b then "true" else "false"
  }

  function Assign(key: string, value: string): string {
    key + "=" + value
  }

  /** The assignments `save_config` writes, in order: the five fixed keys,
      then the method and the secret only when present. */
  function SavePairs(c: Config): seq<(string, string)> {
    [ (ThemeKey, c.theme),
      (TilingKey, BoolText(c.tiling)),
      (SessionKey, c.default_session),
      (AutologinKey, BoolText(c.autologin)),
      (TwoFactorKey, BoolText(c.two_factor_enabled)) ]
    + OptionalPair(MethodKey, c.two_factor_method)
    + OptionalPair(SecretKey, c.two_factor_secret)
  }

  function OptionalPair(key: string, value: Option<string>): seq<(string, string)> {
    match value
    case Some(v) => [(key, v)]
    case None => []
  }

  function AssignLines(ps: seq<(string, string)>): (ls: seq<string>)
    ensures |ls| == |ps|
    ensures forall i :: 0 <= i < |ps| ==> ls[i] == Assign(ps[i].0, ps[i].1)
  {
    seq(|ps|, i requires 0 <= i < |ps| => Assign(ps[i].0, ps[i].1))
  }

  /** The systemctl line: active when the flag is on, commented out when off. */
  function SystemctlLine(c: Config): string {
    if c.systemctl_usedefine then SystemctlOn else SystemctlOff
  }

  /** The lines `save_config` writes. */
  function SaveLines(c: Config): (ls: seq<string>)
    ensures |ls| == 6 + (if c.two_factor_method.Some? then 1 else 0) + (if c.two_factor_secret.Some? then 1 else 0)
    ensures ls[|ls| - 1] == (if c.systemctl_usedefine then SystemctlOn else SystemctlOff)
    ensures ls[0] == Assign(ThemeKey, c.theme) && ls[1] == Assign(TilingKey, BoolText(c.tiling))
    ensures ls[2] == Assign(SessionKey, c.default_session) && ls[3] == Assign(AutologinKey, BoolText(c.autologin))
    ensures ls[4] == Assign(TwoFactorKey, BoolText(c.two_factor_enabled))
    ensures c.two_factor_method.Some? ==> ls[5] == Assign(MethodKey, c.two_factor_method.value)
    ensures c.two_factor_secret.Some? ==>
              ls[if c.two_factor_method.Some? then 6 else 5] == Assign(SecretKey, c.two_factor_secret.value)
  {
    var ps := SavePairs(c);
    var m := OptionalPair(MethodKey, c.two_factor_method);
    assert c.two_factor_method.Some? ==> ps[5] == m[0];
    assert c.two_factor_secret.Some? ==> ps[5 + |m|] == (SecretKey, c.two_factor_secret.value);
    AssignLines(ps) + [SystemctlLine(c)]
  }

  /** The file contents: the lines joined by '\n', no final newline. */
  function SaveText(c: Config): string {
    Join(SaveLines(c))
  }

  /** A record whose text form reads back as itself. */
  predicate Serialisable(c: Config) {
    && Valid(c)
    && Clean(c.theme)
    && Clean(c.default_session)
    && (c.two_factor_method.Some? ==> Clean(c.two_factor_method.value))
    && (c.two_factor_secret.Some? ==> Clean(c.two_factor_secret.value))
  }

  /** A key as written by `save_config`: a plain word with no '=', space or '#'. */
  predicate PlainKey(k: string) {
    k != [] && k[0] != '#' && Clean(k) && '=' !in k
  }

  lemma SplitOnceAt(k: string, v: string)
    requires '=' !in k
    ensures SplitOnce(k + "=" + v, '=') == Some((k, v))
  {
    var s := k + "=" + v;
    assert s[|k|] == '=';
    assert forall j :: 0 <= j < |k| ==> s[j] == k[j];
    var i := IndexOf(s, '=');
    assert i == |k|;
    assert s[..i] == k;
    assert s[i + 1..] == v;
  }

  /** An assignment line reads back as its key and value. */
  lemma AssignReadsBack(k: string, v: string)
    requires PlainKey(k) && Clean(v)
    ensures LineEntry(Assign(k, v)) == Some((k, v))
    ensures '\n' !in Assign(k, v)
  {
    var line := Assign(k, v);
    assert line[0] == k[0];
    assert line[|line| - 1] == if v == [] then '=' else v[|v| - 1];
    assert NoEdgeSpace(line);
    SplitOnceAt(k, v);
  }

  /** Keys of the format: plain words, pairwise distinct. */
  lemma KeysArePlain()
    ensures PlainKey(ThemeKey) && PlainKey(TilingKey) && PlainKey(SessionKey) && PlainKey(AutologinKey)
    ensures PlainKey(TwoFactorKey) && PlainKey(MethodKey) && PlainKey(SecretKey) && PlainKey(SystemctlKey)
  {
  }

  /** The eight keys are pairwise different words. */
  lemma KeysDistinct()
    ensures |ThemeKey| == 5 && |TilingKey| == 6 && |SessionKey| == 15 && |AutologinKey| == 9
    ensures |TwoFactorKey| == 18 && |MethodKey| == 17 && |SecretKey| == 17 && |SystemctlKey| == 19
    ensures MethodKey != SecretKey
  {
    assert MethodKey[11] != SecretKey[11];
  }

  /** The disabled systemctl line assigns nothing. */
  lemma SystemctlOffIsComment()
    ensures Entries([SystemctlOff]) == [None] && '\n' !in SystemctlOff
  {
    SystemctlOnEntry();
    var s := SystemctlOff;
    assert s == "# " + SystemctlOn;
    assert s[0] == '#' && s[|s| - 1] == SystemctlOn[|SystemctlOn| - 1] == 'e';
    CommentAssignsNothing(s);
  }

  /** A comment line assigns nothing. */
  lemma CommentAssignsNothing(s: string)
    requires s != [] && s[0] == '#' && NoEdgeSpace(s)
    ensures Entries([s]) == [None]
  {
    assert LineEntry(s) == None;
  }

  /** The entries `save_config`'s lines read back as. */
  function SaveEntries(c: Config): seq<Entry> {
    FixedEntries(c) + OptionalEntry(MethodKey, c.two_factor_method)
    + OptionalEntry(SecretKey, c.two_factor_secret) + [SystemctlEntry(c)]
  }

  function FixedEntries(c: Config): seq<Entry> {
    [ Some((ThemeKey, c.theme)),
      Some((TilingKey, BoolText(c.tiling))),
      Some((SessionKey, c.default_session)),
      Some((AutologinKey, BoolText(c.autologin))),
      Some((TwoFactorKey, BoolText(c.two_factor_enabled))) ]
  }

  function OptionalEntry(key: string, value: Option<string>): seq<Entry> {
    match value
    case Some(v) => [Some((key, v))]
    case None => []
  }

  function SystemctlEntry(c: Config): Entry {
    if c.systemctl_usedefine then Some((SystemctlKey, "true")) else None
  }

  function PairEntries(ps: seq<(string, string)>): (es: seq<Entry>)
    ensures |es| == |ps|
    ensures forall i :: 0 <= i < |ps| ==> es[i] == Some(ps[i])
  {
    seq(|ps|, i requires 0 <= i < |ps| => Some(ps[i]))
  }

  lemma EntriesAppend(a: seq<string>, b: seq<string>)
    ensures Entries(a + b) == Entries(a) + Entries(b)
  {
  }

  /** Assignment lines of plain keys and clean values read back as themselves. */
  lemma EntriesOfAssignLines(ps: seq<(string, string)>)
    requires forall i :: 0 <= i < |ps| ==> PlainKey(ps[i].0) && Clean(ps[i].1)
    ensures Entries(AssignLines(ps)) == PairEntries(ps)
    ensures forall i :: 0 <= i < |ps| ==> '\n' !in AssignLines(ps)[i]
  {
    forall i | 0 <= i < |ps|
      ensures Entries(AssignLines(ps))[i] == PairEntries(ps)[i] && '\n' !in AssignLines(ps)[i]
    {
      AssignReadsBack(ps[i].0, ps[i].1);
    }
  }

  lemma SavePairsWellFormed(c: Config)
    requires Serialisable(c)
    ensures forall i :: 0 <= i < |SavePairs(c)| ==> PlainKey(SavePairs(c)[i].0) && Clean(SavePairs(c)[i].1)
    ensures PairEntries(SavePairs(c)) + [SystemctlEntry(c)] == SaveEntries(c)
  {
    KeysArePlain();
  }

  lemma EntriesOfSaveLines(c: Config)
    requires Serialisable(c)
    ensures Entries(SaveLines(c)) == SaveEntries(c)
    ensures forall i :: 0 <= i < |SaveLines(c)| ==> '\n' !in SaveLines(c)[i]
  {
    SavePairsWellFormed(c);
    EntriesOfAssignLines(SavePairs(c));
    SystemctlLineEntry(c);
    EntriesAppend(AssignLines(SavePairs(c)), [SystemctlLine(c)]);
  }

  lemma SystemctlLineEntry(c: Config)
    ensures Entries([SystemctlLine(c)]) == [SystemctlEntry(c)]
    ensures '\n' !in SystemctlLine(c)
  {
    if c.systemctl_usedefine {
      SystemctlOnEntry();
    } else {
      SystemctlOffIsComment();
    }
  }

  /** The active systemctl line assigns "true". */
  lemma SystemctlOnEntry()
    ensures Entries([SystemctlOn]) == [Some((SystemctlKey, "true"))] && '\n' !in SystemctlOn
  {
    KeysArePlain();
    assert SystemctlOn == Assign(SystemctlKey, "true");
    AssignReadsBack(SystemctlKey, "true");
  }

  lemma MapOfSnoc(es: seq<Entry>, e: Entry)
    ensures MapOf(es + [e]) == match e
                               case None => MapOf(es)
                               case Some((k, v)) => MapOf(es)[k := v]
  {
    assert (es + [e])[..|es|] == es;
  }

  /** The map holding exactly the assignments `save_config` writes. */
  function SavedMap(c: Config): map<string, string> {
    var base := FixedMap(c);
    var withMethod := match c.two_factor_method case Some(m) => base[MethodKey := m] case None => base;
    var withSecret := match c.two_factor_secret case Some(s) => withMethod[SecretKey := s] case None => withMethod;
    if c.systemctl_usedefine then withSecret[SystemctlKey := "true"] else withSecret
  }

  /** The five assignments every saved file holds. */
  function FixedMap(c: Config): map<string, string> {
    map[ThemeKey := c.theme, TilingKey := BoolText(c.tiling), SessionKey := c.default_session,
        AutologinKey := BoolText(c.autologin), TwoFactorKey := BoolText(c.two_factor_enabled)]
  }

  lemma {:induction false} MapOfSaveEntriesIsSavedMap(c: Config)
    ensures MapOf(SaveEntries(c)) == SavedMap(c)
  {
    var e0 := Some((ThemeKey, c.theme));
    var e1 := Some((TilingKey, BoolText(c.tiling)));
    var e2 := Some((SessionKey, c.default_session));
    var e3 := Some((AutologinKey, BoolText(c.autologin)));
    var e4 := Some((TwoFactorKey, BoolText(c.two_factor_enabled)));
    MapOfSnoc([], e0);
    assert [] + [e0] == [e0];
    MapOfSnoc([e0], e1);
    assert [e0] + [e1] == [e0, e1];
    MapOfSnoc([e0, e1], e2);
    assert [e0, e1] + [e2] == [e0, e1, e2];
    MapOfSnoc([e0, e1, e2], e3);
    assert [e0, e1, e2] + [e3] == [e0, e1, e2, e3];
    MapOfSnoc([e0, e1, e2, e3], e4);
    assert [e0, e1, e2, e3] + [e4] == [e0, e1, e2, e3, e4];
    var base := [e0, e1, e2, e3, e4];
    assert base == FixedEntries(c);
    var withMethod := base + OptionalEntry(MethodKey, c.two_factor_method);
    if c.two_factor_method.Some? {
      MapOfSnoc(base, Some((MethodKey, c.two_factor_method.value)));
    } else {
      assert withMethod == base;
    }
    var withSecret := withMethod + OptionalEntry(SecretKey, c.two_factor_secret);
    if c.two_factor_secret.Some? {
      MapOfSnoc(withMethod, Some((SecretKey, c.two_factor_secret.value)));
    } else {
      assert withSecret == withMethod;
    }
    var last := SystemctlEntry(c);
    MapOfSnoc(withSecret, last);
    assert SaveEntries(c) == withSecret + [last];
  }

  /** The record the saved map decodes to is the saved record. */
  lemma DecodeSavedMap(c: Config)
    ensures Decode(SavedMap(c)) == c
  {
    SavedMapFixed(c);
    SavedMapOptional(c);
  }

  /** The five fixed assignments read back as their fields. */
  lemma SavedMapFixed(c: Config)
    ensures var m := SavedMap(c);
      && TextField(m, ThemeKey, DefaultTheme) == c.theme
      && TextField(m, SessionKey, DefaultSession) == c.default_session
      && BoolField(m, TilingKey, true) == c.tiling
      && BoolField(m, AutologinKey, true) == c.autologin
      && BoolField(m, TwoFactorKey, false) == c.two_factor_enabled
  {
    KeysDistinct();
    var m := SavedMap(c);
    var b := FixedMap(c);
    forall k | k in b ensures k in m && m[k] == b[k] {
      assert |k| != 17 && |k| != 19;
    }
  }

  /** The optional assignments and the systemctl line read back as theirs. */
  lemma SavedMapOptional(c: Config)
    ensures var m := SavedMap(c);
      && OptField(m, MethodKey) == c.two_factor_method
      && OptField(m, SecretKey) == c.two_factor_secret
      && BoolField(m, SystemctlKey, false) == c.systemctl_usedefine
  {
    KeysDistinct();
  }

  /** The round trip: a serialisable record, saved and loaded again, is the
      same record; in particular the commented systemctl line reads as off. */
  lemma SaveLoadRoundTrip(c: Config)
    requires Serialisable(c)
    ensures LoadConfig(Present(SaveText(c))) == Loaded(c)
  {
    EntriesOfSaveLines(c);
    LinesOfJoin(SaveLines(c));
    MapOfSaveEntriesIsSavedMap(c);
    DecodeSavedMap(c);
  }

  /** Whatever `load_config` returns can be saved and read back unchanged. */
  lemma LoadedIsSerialisable(file: ConfigFile)
    requires LoadConfig(file).Loaded?
    ensures Serialisable(LoadConfig(file).config)
    ensures LoadConfig(Present(SaveText(LoadConfig(file).config))) == LoadConfig(file)
  {
    var c := LoadConfig(file).config;
    if file.Present? {
      PresentLoadSerialisable(file.text);
    } else {
      DefaultsSerialisable();
    }
    SaveLoadRoundTrip(c);
  }

  lemma PresentLoadSerialisable(text: string)
    requires LoadConfig(Present(text)).Loaded?
    ensures Serialisable(LoadConfig(Present(text)).config)
  {
    var c := LoadConfig(Present(text)).config;
    var ls := Lines(text);
    var es := Entries(ls);
    forall i | 0 <= i < |es| && es[i].Some?
      ensures Clean(es[i].value.1)
    {
      assert es[i] == LineEntry(ls[i]);
    }
    MapOfClean(es);
    var m := MapOf(es);
    assert Validate(Decode(m)) == Some(c);
    DefaultsSerialisable();
    assert Clean(Decode(m).theme) && Clean(Decode(m).default_session);
  }

  /** The default record can be written out and read back. */
  lemma DefaultsSerialisable()
    ensures Serialisable(Defaults) && Clean(DefaultTheme) && Clean(DefaultSession)
  {
    assert Clean(DefaultTheme) by {
      var s := DefaultTheme;
      forall i | 0 <= i < |s| ensures s[i] != '\n' {
      }
    }
    assert Clean(DefaultSession) by {
      var s := DefaultSession;
      forall i | 0 <= i < |s| ensures s[i] != '\n' {
      }
    }
  }

  /** `save_config`: write the text; only after a successful write, and only
      with `systemctl_usedefine`, write the unit file under
      multi-user.target.wants and run `systemctl enable`, stopping at the
      first failure. */
  function SaveConfig(path: string, c: Config, io: SaveIo): (r: SaveReport)
    ensures |r.effects| >= 1 && r.effects[0] == WriteConfig(path, SaveText(c))
    ensures !io.configWriteOk ==> r == SaveReport([WriteConfig(path, SaveText(c))], Err(SaveFailed))
    ensures !c.systemctl_usedefine ==> |r.effects| == 1
    ensures r.result.Ok? <==> io.configWriteOk && (c.systemctl_usedefine ==> io.unitWriteOk && io.enableOk)
    ensures r.result.Ok? && c.systemctl_usedefine ==>
              r.effects[1..] == [WriteUnit(WantsUnitPath), EnableUnit(UnitName)]
    ensures io.configWriteOk && c.systemctl_usedefine && !io.unitWriteOk ==>
              r == SaveReport([WriteConfig(path, SaveText(c)), WriteUnit(WantsUnitPath)], Err(ServiceWriteFailed))
    ensures io.configWriteOk && c.systemctl_usedefine && io.unitWriteOk && !io.enableOk ==>
              r == SaveReport([WriteConfig(path, SaveText(c)), WriteUnit(WantsUnitPath), EnableUnit(UnitName)],
                              Err(ServiceEnableFailed))
  {
    var write := [WriteConfig(path, SaveText(c))];
    if !io.configWriteOk then SaveReport(write, Err(SaveFailed))
    else if !c.systemctl_usedefine then SaveReport(write, Ok(()))
    else if !io.unitWriteOk then SaveReport(write + [WriteUnit(WantsUnitPath)], Err(ServiceWriteFailed))
    else if !io.enableOk then
      SaveReport(write + [WriteUnit(WantsUnitPath), EnableUnit(UnitName)], Err(ServiceEnableFailed))
    else SaveReport(write + [WriteUnit(WantsUnitPath), EnableUnit(UnitName)], Ok(()))
  }

  /** `load_or_create_config`: a missing file is created holding exactly the
      defaults, which are returned; any other file is just loaded. */
  function LoadOrCreate(path: string, file: ConfigFile, io: SaveIo): (r: LoadReport)
    ensures file.Missing? ==> r.effects == [WriteConfig(path, SaveText(Defaults))]
    ensures file.Missing? ==> r.result == (if io.configWriteOk then Loaded(Defaults) else Failed(SaveFailed))
    ensures !file.Missing? ==> r == LoadReport([], LoadConfig(file), file)
    ensures r.result.Loaded? ==> Valid(r.result.config)
  {
    match file
    case Missing =>
      var save := SaveConfig(path, Defaults, io);
      var after := if io.configWriteOk then Present(SaveText(Defaults)) else Missing;
      var result := if save.result.Ok? then Loaded(Defaults) else Failed(save.result.error);
      LoadReport(save.effects, result, after)
    case _ => LoadReport([], LoadConfig(file), file)
  }

  /** Creating the file is a one-time step: loading again from what was
      written yields the same record and writes nothing. */
  lemma LoadOrCreateStable(path: string, file: ConfigFile, io: SaveIo, io2: SaveIo)
    requires LoadOrCreate(path, file, io).result.Loaded?
    ensures var first := LoadOrCreate(path, file, io);
            var second := LoadOrCreate(path, first.after, io2);
            second.effects == [] && second.result == first.result
  {
    var first := LoadOrCreate(path, file, io);
    if file.Missing? {
      DefaultsSerialisable();
      SaveLoadRoundTrip(Defaults);
    }
  }
}
