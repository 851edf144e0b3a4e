/**
 * The plugin registry of the `client` fixture's `_Client`: `load_plugins`
 * overwrites `_plugins` with what the loader returns and `getplugin`
 * looks a name up in it.
 */
module TestClient {
  import opened Wrappers
  import opened QgisVersion
  import opened PluginDiscovery
  import opened PluginLoader

  /** The AttributeError of calling `.get` on `None`. */
  datatype AttributeError = NoneHasNoGet

  class Client<P> {
    /** `_plugins`: a mapping, or None once a load without a plugin path has stored the loader's None. */
    var plugins: Option<map<string, P>>

    /** `_Client()`: the registry starts empty. */
    constructor ()
      ensures plugins == Some(map[])
    {
      plugins := Some(map[]);
    }

    /**
     * `_Client.load_plugins`: the registry becomes the loader's result
     * (None when there is no plugin path); when the loader raises, the
     * assignment never happens and the old registry stays.
     */
    method LoadPlugins(pluginPath: Option<string>, glob: string -> seq<Entry>, qgisVersion: string,
                       outcome: string -> LoadOutcome<P>)
      returns (raised: Option<VersionError>)
      modifies this
      ensures match LoadResultOf(pluginPath, glob, qgisVersion, outcome)
        case NoPluginPath => plugins == None && raised == None
        case Loaded(m) => plugins == Some(m) && raised == None
        case Raised(e) => plugins == old(plugins) && raised == Some(e)
      ensures raised.None? && plugins.Some? ==> forall n :: n in plugins.value <==>
        n in Discover(glob(pluginPath.value + "/*"), qgisVersion).names && outcome(n).Instantiated?
    {
      var r := PluginLoader.LoadPlugins(pluginPath, glob, qgisVersion, outcome);
      match r
      case NoPluginPath =>
        plugins, raised := None, None;
      case Loaded(m) =>
        plugins, raised := Some(m), None;
      case Raised(e) =>
        raised := Some(e);
    }

    /**
     * `getplugin`: the instance registered under `name`, None for a name
     * that was not loaded; it raises when the registry is None.
     */
    function GetPlugin(name: string): (r: Result<Option<P>, AttributeError>)
      reads this
      ensures r.Err? <==> plugins.None?
      ensures r.Ok? ==> (r.value.Some? <==> name in plugins.value)
      ensures r.Ok? && r.value.Some? ==> r.value.value == plugins.value[name]
    {
      match plugins
      case None => Err(NoneHasNoGet)
      case Some(m) => Ok(if name in m then Some(m[name]) else None)
    }
  }
}
