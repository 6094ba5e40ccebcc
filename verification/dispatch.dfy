/** The `__main__` block: the settings command runs on its own; every
    other command first loads the settings with validation and runs only
    when what came back is truthy. */
module Dispatch {
  import opened Values
  import opened Api
  import opened Output
  import opened Settings
  import opened Commands

  /** The sub-command argparse selected, with its options. */
  datatype Command =
    | Add(url: string)
    | List(list: ListArgs)
    | Read(page: string)
    | Search(query: string)
    | Limit
    | Configure(options: Args)

  /** `command(api, args)` for a command that is handed the API client. */
  function Execute(client: Client, cmd: Command, server: Request -> Response): (o: Outcome)
    requires !cmd.Configure?
    ensures |o.requests| == 1 && o.written.None?
    ensures !cmd.Read? ==> Authenticated(o.requests[0], client.settings)
    ensures !cmd.Read? ==> client.url <= o.requests[0].target
    ensures cmd.Read? ==> o.requests[0].target == cmd.page && o.requests[0].params == map[]
  {
    match cmd
    case Add(url) => AddCommand(client, url, server)
    case List(list) => ListCommand(client, list, server)
    case Read(page) => ReadCommand(page, server)
    case Search(query) => SearchCommand(client, query, server)
    case Limit => LimitCommand(client, server)
  }

  /** `if settings:` on what `load_settings` returned: `False` is falsy
      and a dictionary is truthy when it is not empty. */
  predicate Proceeds(r: Loaded)
    ensures Proceeds(r) ==> r.Valid?
    ensures r.Valid? && (exists k :: k in r.settings) ==> Proceeds(r)
  {
    r.Valid? && r.settings != map[]
  }

  /** Any command but `settings`: load with validation, then pass the
      gate or stop. A load that raises ends the run with that error. */
  function Gated(cmd: Command, file: File, server: Request -> Response): (o: Outcome)
    requires !cmd.Configure?
    ensures o.written.None? && |o.requests| <= 1
    ensures o.requests != [] <==> Proceeds(Load(file, true))
    ensures Load(file, true).Raised? ==> o.output == [Crash(Load(file, true).fault)]
    ensures Load(file, true).Incomplete? ==> o.output == [MissingSettings(Load(file, true).missing)]
    ensures !cmd.Read? ==> forall r :: r in o.requests ==> Authenticated(r, Load(file, true).settings)
    ensures Proceeds(Load(file, true)) ==> o == Execute(Client(Load(file, true).settings, DefaultUrl), cmd, server)
  {
    var loaded := Load(file, true);
    if loaded.Raised? then Outcome([], [Crash(loaded.fault)], None)
    else if Proceeds(loaded) then Execute(Client(loaded.settings, DefaultUrl), cmd, server)
    else Outcome([], if loaded.Incomplete? then [MissingSettings(loaded.missing)] else [], None)
  }

  /** The whole program for one invocation, given the settings file and
      the network. `settings` runs without a load at this level, but as
      written it validates the file itself, so an incomplete file is
      reported and never written; elsewhere it behaves as corrected. Only
      `settings` writes, and every other command reaches the network
      exactly when the settings validate. */
  function Run(cmd: Command, file: File, server: Request -> Response): (o: Outcome)
    ensures cmd.Configure? ==> o.requests == []
    ensures cmd.Configure? && Load(file, true).Incomplete? ==>
      o.written.None? && |o.output| == 2 && o.output[0] == MissingSettings(Load(file, true).missing)
    ensures cmd.Configure? && Load(file, true).Incomplete? ==>
      o.output[1] == if !cmd.options.show && Supplied(cmd.options) == map[] then Usage else Crash(SettingsNotLoaded)
    ensures cmd.Configure? && !Load(file, true).Incomplete? ==> o == SettingsCommand(cmd.options, file)
    ensures !cmd.Configure? ==> o.written.None?
    ensures !cmd.Configure? ==> (o.requests != [] <==> Load(file, true).Valid?)
    ensures !cmd.Configure? && Load(file, true).Valid? ==>
      o == Execute(Client(Load(file, true).settings, DefaultUrl), cmd, server)
    ensures !cmd.Configure? && Load(file, true).Raised? ==> o.output == [Crash(Load(file, true).fault)]
    ensures !cmd.Configure? && Load(file, true).Incomplete? ==>
      o.output == [MissingSettings(Load(file, true).missing)]
  {
    if cmd.Configure? then
      if Load(file, true).Incomplete? then SettingsCommandAsWritten(cmd.options, file)
      else
        AsWrittenAgreesOtherwise(cmd.options, file);
        SettingsCommandAsWritten(cmd.options, file)
    else
      GateAdmitsValidated(file);
      Gated(cmd, file, server)
  }

  /** The program with `settings_command` corrected to load without
      validation. */
  function RunCorrected(cmd: Command, file: File, server: Request -> Response): (o: Outcome)
    ensures cmd.Configure? ==> o == SettingsCommand(cmd.options, file)
    ensures !cmd.Configure? ==> o == Run(cmd, file, server)
  {
    if cmd.Configure? then SettingsCommand(cmd.options, file) else Run(cmd, file, server)
  }

  /** The correction changes one case only: `settings` with a file that
      exists, parses and lacks a required key. */
  lemma CorrectionOnlyAffectsIncomplete(cmd: Command, file: File, server: Request -> Response)
    ensures RunCorrected(cmd, file, server) != Run(cmd, file, server) ==>
      cmd.Configure? && Load(file, true).Incomplete?
  {
  }

  /** The truthiness gate never turns away settings that passed
      validation: they hold every required key, so they are not empty.
      A command reaches the service exactly when the file exists, parses
      and holds every required key. */
  lemma {:induction false} GateAdmitsValidated(file: File)
    ensures Proceeds(Load(file, true)) <==> Load(file, true).Valid?
    ensures Load(file, true).Valid? <==>
      file.Stored? && forall k :: k in Required ==> k in file.contents
  {
    if file.Stored? {
      ValidationIff(file.contents);
      if Load(file, true).Valid? {
        assert Required[0] in Required;
        assert Required[0] in Load(file, true).settings;
      }
    }
  }

  /** Every request a command other than `read` sends carries the three
      credentials, taken from the file. */
  lemma CredentialsSent(cmd: Command, file: File, server: Request -> Response)
    requires !cmd.Configure? && !cmd.Read?
    ensures forall r :: r in Gated(cmd, file, server).requests ==>
      file.Stored? && forall k :: k in Required ==> k in r.params && r.params[k] == Text(file.contents[k])
  {
    GateAdmitsValidated(file);
  }
}
