/**
 * `load_plugins`: import every discovered plugin and call its
 * `serverClassFactory`, keeping the instances by name. A plugin whose import
 * or factory raises is logged and left out; the others are still loaded.
 */
module PluginLoader {
  import opened Wrappers
  import opened QgisVersion
  import opened PluginDiscovery

  /** Where loading one plugin failed: `__import__`, or the factory lookup and call. */
  datatype LoadFailure = ImportFailed | FactoryFailed

  /** What importing a plugin and calling its factory with the server interface gives. */
  datatype LoadOutcome<P> = Instantiated(plugin: P) | Failed(failure: LoadFailure)

  /**
   * The three ways `load_plugins` ends: it returns None at once when
   * `plugin_path` is falsy, returns the mapping, or lets the scan's
   * ValueError escape.
   */
  datatype LoadResult<P> = NoPluginPath | Loaded(plugins: map<string, P>) | Raised(error: VersionError)

  /** The mapping after processing `names` in order: each success is stored under its name, each failure skipped. */
  function Registry<P>(names: seq<string>, outcome: string -> LoadOutcome<P>): (m: map<string, P>)
    ensures forall n :: n in m ==> n in names && outcome(n).Instantiated?
    ensures forall n :: n in m ==> m[n] == outcome(n).plugin
    decreases |names|
  {
    if names == [] then map[]
    else
      var m := Registry(names[..|names| - 1], outcome);
      var name := names[|names| - 1];
      match outcome(name)
      case Instantiated(p) => m[name := p]
      case Failed(_) => m
  }

  /** The result `load_plugins` produces, with `glob` and `outcome` standing for the filesystem and the imports. */
  function LoadResultOf<P>(pluginPath: Option<string>, glob: string -> seq<Entry>, qgisVersion: string,
                           outcome: string -> LoadOutcome<P>): (r: LoadResult<P>)
    ensures r.NoPluginPath? <==> !Truthy(pluginPath)
    ensures r.Raised? ==> Discover(glob(pluginPath.value + "/*"), qgisVersion).raised == Some(r.error)
    ensures r.Loaded? ==> forall n :: n in r.plugins ==>
      n in Discover(glob(pluginPath.value + "/*"), qgisVersion).names && outcome(n).Instantiated?
  {
    if !Truthy(pluginPath) then NoPluginPath
    else
      var scan := Discover(glob(pluginPath.value + "/*"), qgisVersion);
      if scan.raised.Some? then Raised(scan.raised.value) else Loaded(Registry(scan.names, outcome))
  }

  /**
   * The registry holds exactly the names whose import and factory
   * succeeded, each with its factory's result; a failing name does not
   * keep any other name out.
   */
  lemma {:induction false} RegistryContents<P>(names: seq<string>, outcome: string -> LoadOutcome<P>)
    ensures forall n :: n in Registry(names, outcome) <==> n in names && outcome(n).Instantiated?
    ensures forall n :: n in Registry(names, outcome) ==> Registry(names, outcome)[n] == outcome(n).plugin
    decreases |names|
  {
    if names != [] {
      var init := names[..|names| - 1];
      RegistryContents(init, outcome);
      assert names == init + [names[|names| - 1]];
      forall n ensures n in names <==> n in init || n == names[|names| - 1] {
      }
    }
  }

  /**
   * `load_plugins`. `pluginPath` is the module-level `plugin_path`; the scan
   * is `find_plugins` over it. When the scan raises, the plugins before the
   * offending entry have been imported, but the exception leaves the
   * function without a result.
   */
  method LoadPlugins<P>(pluginPath: Option<string>, glob: string -> seq<Entry>, qgisVersion: string,
                        outcome: string -> LoadOutcome<P>)
    returns (r: LoadResult<P>)
    ensures r == LoadResultOf(pluginPath, glob, qgisVersion, outcome)
    ensures r.Loaded? ==> forall n :: n in r.plugins <==>
      n in Discover(glob(pluginPath.value + "/*"), qgisVersion).names && outcome(n).Instantiated?
  {
    if !Truthy(pluginPath) {
      return NoPluginPath;
    }
    var serverPlugins: map<string, P> := map[];
    var names, raised := FindPlugins(pluginPath.value, pluginPath.value, glob, qgisVersion);
    var i := 0;
    while i < |names|
      invariant 0 <= i <= |names|
      invariant serverPlugins == Registry(names[..i], outcome)
    {
      assert names[..i + 1][..i] == names[..i];
      match outcome(names[i]) {
        case Instantiated(p) =>
          serverPlugins := serverPlugins[names[i] := p];
        case Failed(_) =>
          // logged at critical level with the traceback; the loop goes on
      }
      i := i + 1;
    }
    assert names[..i] == names;
    if raised.Some? {
      return Raised(raised.value);
    }
    RegistryContents(names, outcome);
    return Loaded(serverPlugins);
  }
}
