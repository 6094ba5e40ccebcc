/** The settings store: loading and validating the credentials file, and
    the `settings` command that merges new values into it. */
module Settings {
  import opened Values
  import opened Seqs
  import opened Output

  /** The keys every authenticated command needs, in reporting order. */
  const Required: seq<string> := ["username", "password", "apikey"]

  /** The settings file as the program finds it on disk. */
  datatype File = Absent | Corrupt | Stored(contents: map<string, string>)

  /** What `load_settings` does: raise, return `False` after reporting the
      missing keys, or return the settings. */
  datatype Loaded = Raised(fault: Fault) | Incomplete(missing: seq<string>) | Valid(settings: map<string, string>)

  /** The required keys absent from `settings`, in the order of `Required`. */
  function Missing(settings: map<string, string>): (m: seq<string>)
    ensures forall k :: k in m <==> k in Required && k !in settings
    ensures Subseq(m, Required)
  {
    Filter(k => k !in settings, Required)
  }

  /** `load_settings(validate)`. Validation checks presence only: a key
      mapped to the empty string passes. */
  function Load(file: File, validate: bool): (r: Loaded)
    ensures file.Absent? <==> r == Raised(ConfigDoesNotExist)
    ensures file.Corrupt? <==> r == Raised(ConfigInvalid)
    ensures r.Incomplete? ==> file.Stored? && validate && r.missing == Missing(file.contents) && r.missing != []
    ensures r.Valid? ==> file.Stored? && r.settings == file.contents && (validate ==> Missing(file.contents) == [])
    ensures file.Stored? && (!validate || Missing(file.contents) == []) ==> r == Valid(file.contents)
    ensures file.Stored? && validate && Missing(file.contents) != [] ==> r == Incomplete(Missing(file.contents))
  {
    match file
    case Absent => Raised(ConfigDoesNotExist)
    case Corrupt => Raised(ConfigInvalid)
    case Stored(contents) =>
      var missing := Missing(contents);
      if validate && missing != [] then Incomplete(missing) else Valid(contents)
  }

  /** Validation passes exactly when every required key is present, and
      then hands the settings back unchanged; otherwise it reports the
      absent keys, in the order of `Required`. */
  lemma ValidationIff(contents: map<string, string>)
    ensures Load(Stored(contents), true).Valid? <==> forall k :: k in Required ==> k in contents
    ensures Load(Stored(contents), true).Valid? ==> Load(Stored(contents), true).settings == contents
    ensures Load(Stored(contents), true).Incomplete? ==>
      forall k :: k in Load(Stored(contents), true).missing <==> k in Required && k !in contents
  {
    var m := Missing(contents);
    if m != [] {
      assert m[0] in m;
    }
  }

  /** The settings the command starts from when loading fails. */
  const Scaffold: map<string, string> := map k | k in Required :: ""

  /** The options of the `settings` command. */
  datatype Args = Args(show: bool, apikey: Option<string>, username: Option<string>, password: Option<string>)

  /** `getattr(args, opt)` for a settings option; `None` when not given. */
  function Given(args: Args, opt: string): (r: Option<string>)
    ensures opt !in Required ==> r.None?
    ensures opt == "username" ==> r == args.username
    ensures opt == "password" ==> r == args.password
    ensures opt == "apikey" ==> r == args.apikey
  {
    if opt == "apikey" then args.apikey
    else if opt == "username" then args.username
    else if opt == "password" then args.password
    else None
  }

  /** The loop collecting every option in `opts` given with a non-empty value. */
  function Collect(args: Args, opts: seq<string>): (r: map<string, string>)
    ensures forall k :: k in r <==> k in opts && Given(args, k).Some? && Given(args, k).value != ""
    ensures forall k :: k in r ==> r[k] == Given(args, k).value
    decreases |opts|
  {
    if |opts| == 0 then map[]
    else
      var opt := opts[|opts| - 1];
      var r := Collect(args, opts[..|opts| - 1]);
      assert forall k :: k in opts <==> k in opts[..|opts| - 1] || k == opt;
      if Given(args, opt).Some? && Given(args, opt).value != "" then r[opt := Given(args, opt).value] else r
  }

  /** The required options supplied with a non-empty value. */
  function Supplied(args: Args): (r: map<string, string>)
    ensures forall k :: k in r <==> k in Required && Given(args, k).Some? && Given(args, k).value != ""
    ensures forall k :: k in r ==> r[k] == Given(args, k).value
  {
    Collect(args, Required)
  }

  /** The command once it holds some settings: show them, print usage when
      nothing was supplied, or write them back with the supplied values
      replacing the old ones. */
  function Apply(prior: map<string, string>, args: Args): (o: Outcome)
    ensures o.requests == []
    ensures args.show ==> o.output == [SettingsShown(prior)] && o.written.None?
    ensures !args.show && Supplied(args) == map[] ==> o.output == [Usage] && o.written.None?
    ensures !args.show && Supplied(args) != map[] ==> o.output == [] && o.written.Some?
    ensures o.written.Some? ==> o.written.value.Keys == prior.Keys + Supplied(args).Keys
    ensures o.written.Some? ==> forall k :: k in o.written.value ==>
      o.written.value[k] == if k in Supplied(args) then Supplied(args)[k] else prior[k]
  {
    if args.show then Outcome([], [SettingsShown(prior)], None)
    else
      var supplied := Supplied(args);
      if supplied == map[] then Outcome([], [Usage], None)
      else Outcome([], [], Some(prior + supplied))
  }

  /** The settings `settings_command` starts from: the file's contents
      when they load, else the scaffold of empty required keys. */
  function Prior(file: File): (r: map<string, string>)
    ensures file.Stored? ==> r == file.contents
    ensures !file.Stored? ==> forall k :: k in r <==> k in Required
    ensures !file.Stored? ==> forall k :: k in r ==> r[k] == ""
  {
    if file.Stored? then file.contents else Scaffold
  }

  /** `settings_command` loading without validation, so that an incomplete
      file is merged into rather than rejected. */
  function SettingsCommand(args: Args, file: File): (o: Outcome)
    ensures o.requests == []
    ensures args.show ==> o.output == [SettingsShown(Prior(file))] && o.written.None?
    ensures !args.show && Supplied(args) == map[] ==> o.output == [Usage] && o.written.None?
    ensures !args.show && Supplied(args) != map[] ==> o.output == [] && o.written == Some(Prior(file) + Supplied(args))
  {
    match Load(file, false)
    case Valid(settings) => Apply(settings, args)
    case _ => Apply(Scaffold, args)
  }

  /** The command as written once `load_settings()` has reported the
      missing keys and returned `False`: only the usage path avoids
      calling a method on `False`. */
  function WithoutSettings(missing: seq<string>, args: Args): (o: Outcome)
    ensures o.requests == [] && o.written.None? && |o.output| == 2
    ensures o.output[0] == MissingSettings(missing)
    ensures o.output[1] == if !args.show && Supplied(args) == map[] then Usage else Crash(SettingsNotLoaded)
  {
    var report := [MissingSettings(missing)];
    if args.show then Outcome([], report + [Crash(SettingsNotLoaded)], None)
    else if Supplied(args) == map[] then Outcome([], report + [Usage], None)
    else Outcome([], report + [Crash(SettingsNotLoaded)], None)
  }

  /** `settings_command` as written: `load_settings()` validates, so an
      incomplete file comes back as `False` after the missing keys are
      reported, and showing or updating `False` raises. */
  function SettingsCommandAsWritten(args: Args, file: File): (o: Outcome)
    ensures Load(file, true).Incomplete? ==>
      && o.requests == [] && o.written.None?
      && o.output == [MissingSettings(Missing(file.contents)),
                      if !args.show && Supplied(args) == map[] then Usage else Crash(SettingsNotLoaded)]
  {
    match Load(file, true)
    case Raised(_) => Apply(Scaffold, args)
    case Valid(settings) => Apply(settings, args)
    case Incomplete(missing) => WithoutSettings(missing, args)
  }

  /** Outside the incomplete-file case the command as written and the
      corrected one behave the same. */
  lemma AsWrittenAgreesOtherwise(args: Args, file: File)
    requires !Load(file, true).Incomplete?
    ensures SettingsCommandAsWritten(args, file) == SettingsCommand(args, file)
  {
    match file
    case Stored(contents) =>
      assert Load(file, true) == Valid(contents);
      assert Load(file, false) == Valid(contents);
    case _ =>
  }

  /** A write keeps every key it does not supply, and leaves missing only
      the keys that were missing before and were not supplied. */
  lemma SettingsWriteMerges(args: Args, file: File)
    requires SettingsCommand(args, file).written.Some?
    ensures var prior := Prior(file);
            var w := SettingsCommand(args, file).written.value;
            && (forall k :: k in prior && k !in Supplied(args) ==> k in w && w[k] == prior[k])
            && (forall k :: k in Missing(w) <==> k in Missing(prior) && k !in Supplied(args))
  {
  }

  /** Reading back what the command wrote gives the same settings, and
      they validate whenever the old file did or no usable file existed. */
  lemma SettingsWriteReloads(args: Args, file: File)
    requires SettingsCommand(args, file).written.Some?
    requires !Load(file, true).Incomplete?
    ensures var w := SettingsCommand(args, file).written.value;
            Load(Stored(w), true) == Valid(w)
  {
    var prior := Prior(file);
    var w := SettingsCommand(args, file).written.value;
    assert forall k :: k in Required ==> k in prior;
    assert forall k :: k in prior ==> k in w;
    ValidationIff(w);
  }

  /** Every required option is given with a non-empty value. */
  predicate SuppliesAll(args: Args)
  {
    forall k :: k in Required ==> Given(args, k).Some? && Given(args, k).value != ""
  }

  /** A stored file lacking some required key fails validation. */
  lemma LackingIsIncomplete(file: File)
    requires file.Stored? && exists k :: k in Required && k !in file.contents
    ensures Load(file, true) == Incomplete(Missing(file.contents))
  {
    var k :| k in Required && k !in file.contents;
    assert k in Missing(file.contents);
  }

  /** Giving every required option supplies every required key. */
  lemma SuppliesAllKeys(args: Args)
    requires SuppliesAll(args)
    ensures forall k :: k in Required ==> k in Supplied(args)
    ensures Supplied(args) != map[]
  {
    assert "apikey" in Supplied(args);
  }

  /** As written, an incomplete file makes the command crash before it
      writes, even when every missing key is supplied. */
  lemma AsWrittenCrashes(args: Args, file: File)
    requires file.Stored? && exists k :: k in Required && k !in file.contents
    requires !args.show && SuppliesAll(args)
    ensures SettingsCommandAsWritten(args, file).written.None?
    ensures Crash(SettingsNotLoaded) in SettingsCommandAsWritten(args, file).output
  {
    LackingIsIncomplete(file);
    SuppliesAllKeys(args);
    var o := SettingsCommandAsWritten(args, file);
    assert o == WithoutSettings(Missing(file.contents), args);
    assert o.output[1] == Crash(SettingsNotLoaded);
  }

  /** Corrected, the same command writes settings that validate. */
  lemma CorrectedRepairs(args: Args, file: File)
    requires file.Stored? && !args.show && SuppliesAll(args)
    ensures SettingsCommand(args, file).written.Some?
    ensures var w := SettingsCommand(args, file).written.value;
            Load(Stored(w), true) == Valid(w)
  {
    SuppliesAllKeys(args);
    var w := SettingsCommand(args, file).written.value;
    assert forall k :: k in Required ==> k in w;
    ValidationIff(w);
  }

  /** The source bug: with a settings file that lacks a required key, the
      command as written can never repair it, because it crashes before
      writing even when every missing key is supplied; the corrected
      command writes settings that then validate. */
  lemma IncompleteFileCannotBeRepaired(args: Args, file: File)
    requires file.Stored? && exists k :: k in Required && k !in file.contents
    requires !args.show && SuppliesAll(args)
    ensures SettingsCommandAsWritten(args, file).written.None?
    ensures Crash(SettingsNotLoaded) in SettingsCommandAsWritten(args, file).output
    ensures SettingsCommand(args, file).written.Some?
    ensures var w := SettingsCommand(args, file).written.value;
            Load(Stored(w), true) == Valid(w)
  {
    AsWrittenCrashes(args, file);
    CorrectedRepairs(args, file);
  }

  /** A file holding only a username lacks the password and the key, reported in that order. */
  lemma MissingExample(contents: map<string, string>)
    requires contents == map["username" := "ann"]
    ensures Missing(contents) == ["password", "apikey"]
  {
    assert Required[1..] == ["password", "apikey"];
    assert Missing(contents) == Filter(k => k !in contents, Required[1..]);
  }

  /** The options of the concrete case: a new password and key. */
  lemma SuppliedExample(args: Args)
    requires args == Args(false, Some("k"), None, Some("pw"))
    ensures Supplied(args) == map["password" := "pw", "apikey" := "k"]
  {
    assert Supplied(args).Keys == {"password", "apikey"};
  }

  /** The concrete case as written: a file holding only a username, and
      the user supplying the password and the key. The command reports
      the missing keys, crashes and writes nothing. */
  lemma IncompleteFileCrashExample(args: Args, prior: map<string, string>)
    requires args == Args(false, Some("k"), None, Some("pw"))
    requires prior == map["username" := "ann"]
    ensures var o := SettingsCommandAsWritten(args, Stored(prior));
            o.output == [MissingSettings(["password", "apikey"]), Crash(SettingsNotLoaded)] && o.written.None?
  {
    MissingExample(prior);
    SuppliedExample(args);
    var missing := ["password", "apikey"];
    assert Load(Stored(prior), true) == Incomplete(missing);
    assert SettingsCommandAsWritten(args, Stored(prior)) == WithoutSettings(missing, args);
  }

  /** The merge in the concrete case, on its own. */
  lemma MergeExample(prior: map<string, string>, supplied: map<string, string>)
    requires prior == map["username" := "ann"]
    requires supplied == map["password" := "pw", "apikey" := "k"]
    ensures prior + supplied == map["username" := "ann", "password" := "pw", "apikey" := "k"]
  {
  }

  /** The same case with the correction: the three keys are written. */
  lemma IncompleteFileRepairExample(args: Args, prior: map<string, string>)
    requires args == Args(false, Some("k"), None, Some("pw"))
    requires prior == map["username" := "ann"]
    ensures SettingsCommand(args, Stored(prior)).written
              == Some(map["username" := "ann", "password" := "pw", "apikey" := "k"])
  {
    SuppliedExample(args);
    MergeExample(prior, Supplied(args));
    assert Supplied(args) != map[] by {
      assert "apikey" in Supplied(args);
    }
  }
}
