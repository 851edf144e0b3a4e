/**
 * `find_plugins`: the scan of the plugin directory. Each directory entry is
 * given by what the filesystem and `configparser` would report about it;
 * the scan yields, in listing order, the basenames of the entries that are
 * server plugins supporting the running QGIS version.
 */
module PluginDiscovery {
  import opened Wrappers
  import opened PyStr
  import opened QgisVersion

  /** The `[general]` section of a `metadata.txt`, by the raw values of the three keys read. */
  datatype Section = Section(server: Option<string>, qgisMinimumVersion: Option<string>, qgisMaximumVersion: Option<string>)

  /** Reading `metadata.txt`: `open`/`read_file` raised, or the file parsed, with or without a `[general]` section. */
  datatype Metadata = Unreadable | Parsed(general: Option<Section>)

  /** One entry of the listing of the plugin directory, as `glob.glob` returns them. */
  datatype Entry = Entry(basename: string, hasInitFile: bool, hasMetadataFile: bool, metadata: Metadata)

  /** The ValueError `getboolean` raises on a value that is not one of its boolean words. */
  datatype BooleanError = NotABoolean(value: string)

  /** The level at which a skipped entry is logged. */
  datatype LogLevel = Debug | Critical

  datatype SkipReason = NoInitFile | NoMetadataFile | MetadataError | NotServerPlugin | UnsupportedVersion

  /** What the loop body does with one entry: yield it, `continue`, or raise out of the generator. */
  datatype Verdict = Accept | Skip(level: LogLevel, reason: SkipReason) | Raise(error: VersionError)

  /** What the generator produces: the names yielded, and the error it then raised, if any. */
  datatype Scan = Scan(names: seq<string>, raised: Option<VersionError>)

  /** configparser's `BOOLEAN_STATES`: the words `getboolean` accepts, by their lower-case form. */
  const BooleanStates: map<string, bool> :=
    map["1" := true, "yes" := true, "true" := true, "on" := true,
        "0" := false, "no" := false, "false" := false, "off" := false]

  /**
   * `SectionProxy.getboolean`: None for an absent key; otherwise the
   * value, lower-cased, must be one of the boolean words.
   */
  function GetBoolean(value: Option<string>): (r: Result<Option<bool>, BooleanError>)
    ensures value.None? ==> r == Ok(None)
    ensures r == Ok(Some(true)) <==> value.Some? && Lower(value.value) in {"1", "yes", "true", "on"}
    ensures r == Ok(Some(false)) <==> value.Some? && Lower(value.value) in {"0", "no", "false", "off"}
    ensures r.Err? <==> value.Some? && Lower(value.value) !in {"1", "yes", "true", "on", "0", "no", "false", "off"}
  {
    match value
    case None => Ok(None)
    case Some(v) =>
      if Lower(v) in BooleanStates then Ok(Some(BooleanStates[Lower(v)])) else Err(NotABoolean(v))
  }

  /**
   * The loop body for one entry. Missing files are logged at debug level;
   * a metadata error (unreadable file, no `[general]` section, a `server`
   * value that is not boolean) and a `server` flag that is absent or false
   * are caught and logged at critical level (the last on the root logger,
   * the others on `qgislogger`); the version check runs
   * outside the `try`, so its ValueError escapes.
   */
  function Classify(e: Entry, qgisVersion: string): (r: Verdict)
    ensures r.Skip? ==> (r.level == Debug <==> r.reason == NoInitFile || r.reason == NoMetadataFile)
    ensures r == Skip(Debug, NoInitFile) <==> !e.hasInitFile
    ensures r == Skip(Debug, NoMetadataFile) <==> e.hasInitFile && !e.hasMetadataFile
    ensures r.Raise? || r.Accept? ==> e.hasInitFile && e.hasMetadataFile && e.metadata.Parsed? && e.metadata.general.Some?
  {
    if !e.hasInitFile then Skip(Debug, NoInitFile)
    else if !e.hasMetadataFile then Skip(Debug, NoMetadataFile)
    else
      match e.metadata
      case Unreadable => Skip(Critical, MetadataError)
      case Parsed(None) => Skip(Critical, MetadataError)
      case Parsed(Some(general)) =>
        match GetBoolean(general.server)
        case Err(_) => Skip(Critical, MetadataError)
        case Ok(flag) =>
          if flag != Some(true) then Skip(Critical, NotServerPlugin)
          else
            match CheckQgisVersion(general.qgisMinimumVersion, general.qgisMaximumVersion, qgisVersion)
            case Err(err) => Raise(err)
            case Ok(supported) => if supported then Accept else Skip(Critical, UnsupportedVersion)
  }

  /** The generator run to exhaustion, or until it raises. */
  function Discover(entries: seq<Entry>, qgisVersion: string): (r: Scan)
    ensures |r.names| <= |entries|
    ensures forall n :: n in r.names ==> exists i :: 0 <= i < |entries| && entries[i].basename == n
    decreases |entries|
  {
    if entries == [] then Scan([], None)
    else
      var rest := Discover(entries[1..], qgisVersion);
      match Classify(entries[0], qgisVersion)
      case Accept => Scan([entries[0].basename] + rest.names, rest.raised)
      case Skip(_, _) => rest
      case Raise(err) => Scan([], Some(err))
  }

  function Prepend(names: seq<string>, scan: Scan): Scan {
    Scan(names + scan.names, scan.raised)
  }

  /**
   * `find_plugins`. The directory scanned is the module-level `plugin_path`
   * (`pluginPathGlobal`), not the `pluginpath` argument, which the body
   * never reads; `glob` stands for `glob.glob`.
   */
  method FindPlugins(pluginpath: string, pluginPathGlobal: string, glob: string -> seq<Entry>, qgisVersion: string)
    returns (names: seq<string>, raised: Option<VersionError>)
    ensures Scan(names, raised) == Discover(glob(pluginPathGlobal + "/*"), qgisVersion)
  {
    var entries := glob(pluginPathGlobal + "/*");
    names, raised := [], None;
    var i := 0;
    while i < |entries|
      invariant 0 <= i <= |entries|
      invariant raised == None
      invariant Discover(entries, qgisVersion) == Prepend(names, Discover(entries[i..], qgisVersion))
    {
      var verdict := Classify(entries[i], qgisVersion);
      if verdict.Raise? {
        ScanStops(entries, i, names, qgisVersion);
        raised := Some(verdict.error);
        return;
      }
      ScanAdvances(entries, i, names, qgisVersion);
      if verdict.Accept? {
        names := names + [entries[i].basename];
      }
      i := i + 1;
    }
    assert entries[i..] == [];
    assert names + [] == names;
  }

  /** An entry that does not raise extends the names already yielded by its own basename or by nothing. */
  lemma ScanAdvances(entries: seq<Entry>, i: nat, names: seq<string>, qgisVersion: string)
    requires i < |entries| && !Classify(entries[i], qgisVersion).Raise?
    requires Discover(entries, qgisVersion) == Prepend(names, Discover(entries[i..], qgisVersion))
    ensures Discover(entries, qgisVersion) ==
      Prepend(names + (if Classify(entries[i], qgisVersion).Accept? then [entries[i].basename] else []),
              Discover(entries[i + 1..], qgisVersion))
  {
    assert entries[i..][0] == entries[i] && entries[i..][1..] == entries[i + 1..];
  }

  /** An entry that raises ends the scan with the names already yielded and its error. */
  lemma ScanStops(entries: seq<Entry>, i: nat, names: seq<string>, qgisVersion: string)
    requires i < |entries| && Classify(entries[i], qgisVersion).Raise?
    requires Discover(entries, qgisVersion) == Prepend(names, Discover(entries[i..], qgisVersion))
    ensures Discover(entries, qgisVersion) == Scan(names, Some(Classify(entries[i], qgisVersion).error))
  {
    assert entries[i..][0] == entries[i];
    assert names + [] == names;
  }

  // ----- An independent statement of which entries are yielded -----

  /** The five conditions an entry must meet to be yielded. */
  predicate Eligible(e: Entry, qgisVersion: string) {
    && e.hasInitFile
    && e.hasMetadataFile
    && e.metadata.Parsed?
    && e.metadata.general.Some?
    && GetBoolean(e.metadata.general.value.server) == Ok(Some(true))
    && CheckQgisVersion(e.metadata.general.value.qgisMinimumVersion,
                        e.metadata.general.value.qgisMaximumVersion, qgisVersion) == Ok(true)
  }

  /** The one way an entry makes the scan raise: a server plugin whose version strings do not convert. */
  predicate Raises(e: Entry, qgisVersion: string) {
    && e.hasInitFile
    && e.hasMetadataFile
    && e.metadata.Parsed?
    && e.metadata.general.Some?
    && GetBoolean(e.metadata.general.value.server) == Ok(Some(true))
    && CheckQgisVersion(e.metadata.general.value.qgisMinimumVersion,
                        e.metadata.general.value.qgisMaximumVersion, qgisVersion).Err?
  }

  /** The basenames of the eligible entries, in order. */
  function EligibleNames(entries: seq<Entry>, qgisVersion: string): seq<string>
    decreases |entries|
  {
    if entries == [] then []
    else (if Eligible(entries[0], qgisVersion) then [entries[0].basename] else [])
         + EligibleNames(entries[1..], qgisVersion)
  }

  /** The index of the first entry that raises, or the length when none does. */
  function FirstRaise(entries: seq<Entry>, qgisVersion: string): (k: nat)
    ensures k <= |entries|
    ensures forall j :: 0 <= j < k ==> !Raises(entries[j], qgisVersion)
    ensures k < |entries| ==> Raises(entries[k], qgisVersion)
    decreases |entries|
  {
    if entries == [] then 0
    else if Raises(entries[0], qgisVersion) then 0
    else 1 + FirstRaise(entries[1..], qgisVersion)
  }

  /** The loop body yields exactly the eligible entries and raises on exactly the `Raises` ones. */
  lemma VerdictClassifies(e: Entry, qgisVersion: string)
    ensures Classify(e, qgisVersion) == Accept <==> Eligible(e, qgisVersion)
    ensures Classify(e, qgisVersion).Raise? <==> Raises(e, qgisVersion)
    ensures Classify(e, qgisVersion).Raise? ==>
      Classify(e, qgisVersion).error == CheckQgisVersion(e.metadata.general.value.qgisMinimumVersion,
                                                        e.metadata.general.value.qgisMaximumVersion, qgisVersion).error
  {
  }

  /**
   * The scan yields, in listing order, exactly the basenames of the
   * eligible entries before the first raising one; it raises iff some entry
   * raises, with that entry's error; no other entry can stop it.
   */
  lemma {:induction false} DiscoverIsFilter(entries: seq<Entry>, qgisVersion: string)
    ensures var k := FirstRaise(entries, qgisVersion);
      Discover(entries, qgisVersion) ==
        Scan(EligibleNames(entries[..k], qgisVersion),
             if k < |entries| then Some(Classify(entries[k], qgisVersion).error) else None)
    decreases |entries|
  {
    if entries != [] {
      VerdictClassifies(entries[0], qgisVersion);
      DiscoverIsFilter(entries[1..], qgisVersion);
      var k := FirstRaise(entries, qgisVersion);
      if !Raises(entries[0], qgisVersion) {
        var k' := FirstRaise(entries[1..], qgisVersion);
        assert k == k' + 1;
        assert entries[..k][1..] == entries[1..][..k'];
        assert k < |entries| ==> entries[k] == entries[1..][k'];
      }
    }
  }

  /** A name is yielded by a scan that does not raise iff some eligible entry has it. */
  lemma {:induction false} EligibleNamesMembers(entries: seq<Entry>, qgisVersion: string, name: string)
    ensures name in EligibleNames(entries, qgisVersion) <==>
      exists i :: 0 <= i < |entries| && Eligible(entries[i], qgisVersion) && entries[i].basename == name
    decreases |entries|
  {
    if entries != [] {
      EligibleNamesMembers(entries[1..], qgisVersion, name);
      if name in EligibleNames(entries[1..], qgisVersion) {
        var i :| 0 <= i < |entries[1..]| && Eligible(entries[1..][i], qgisVersion) && entries[1..][i].basename == name;
        assert entries[i + 1] == entries[1..][i];
      }
      forall i | 1 <= i < |entries| && Eligible(entries[i], qgisVersion) && entries[i].basename == name
        ensures name in EligibleNames(entries[1..], qgisVersion)
      {
        assert entries[1..][i - 1] == entries[i];
      }
    }
  }

  /** When no server-plugin entry's version check raises, the scan does not raise. */
  lemma NoRaiseWithoutMalformedVersions(entries: seq<Entry>, qgisVersion: string)
    requires forall i :: 0 <= i < |entries| ==> !Raises(entries[i], qgisVersion)
    ensures Discover(entries, qgisVersion) == Scan(EligibleNames(entries, qgisVersion), None)
  {
    DiscoverIsFilter(entries, qgisVersion);
    assert entries[..|entries|] == entries;
  }
}
