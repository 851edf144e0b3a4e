# QGIS server plugin test harness — verified model

This project models the self-contained logic of the pytest harness
`tests/conftest.py` of the QGIS logging plugin (a plugin for QGIS Server).
The harness finds the server plugins under a plugin directory, checks each
one's declared QGIS version range, loads them through their
`serverClassFactory`, routes QGIS message-log messages to a Python logger,
and wraps server responses. Each piece is modelled below and its contract
is proved:

- **Version encoding** (`QgisVersion`). `to_int` folds a dotted version
  into one integer, `major*10000 + minor*100 + rev`. A minor of 99 or more
  rolls over to the next major, and a rev above 99 is clamped to 99.
  `checkQgisVersion` checks that the running version lies between the
  bounds, and an absent or empty bound means the running version. The model
  keeps the code's route through a zero-padded decimal string (major, then
  minor and rev padded to two digits each), written out on strings (`PyStr.Decimal`,
  `PyStr.ZeroPad2`), and proves that reading it back gives the arithmetic
  encoding.
- **Plugin discovery** (`PluginDiscovery`). `find_plugins` is a loop over
  abstract directory entries. An entry records whether it has
  `__init__.py` and `metadata.txt`, and how reading the metadata turned
  out. The loop is proved to yield, in order, the eligible basenames
  before the first entry whose version check raises, and then to raise
  with that error. Only a malformed version string can raise, because the
  version check sits outside the `try`.
- **Plugin loading** (`PluginLoader`). `load_plugins` fills the registry
  step by step. A failure to import or instantiate one plugin is skipped.
  The registry is proved to hold exactly the plugins that succeeded.
- **Test client** (`TestClient.Client`). This is the `_plugins` field, the
  registry `load_plugins` writes and `getplugin` reads.
- **Response wrapper** (`ResponseWrapper.Response`). This is the lazily
  parsed, cached `xml` property.
- **Log routing** (`LoggerHook`). This is `writelogmessage`.
- **Python string built-ins** (`PyStr`). These give the meaning of the
  built-ins the core calls: `int()` is `PyStr.ParseInt`, `str.split` is
  `PyStr.Split`, the `{:d}` and `{:02d}` formats are `PyStr.Decimal` and
  `PyStr.ZeroPad2`, `str.find` is `PyStr.Find`, and `str.lower` (inside
  `getboolean`) is `PyStr.Lower`.

One behaviour differs from what the loader's role suggests, and the model
follows the code. With no plugin path, `load_plugins` returns `None`, not
an empty mapping (tests/conftest.py:225-226). `_Client.load_plugins` then
stores `None`, and a later `getplugin` raises AttributeError. The model
keeps both behaviours: `LoadResult.NoPluginPath` and the `Err` of
`GetPlugin`.

Inputs the code reads from its environment become parameters:

- the running version `Qgis.QGIS_VERSION` becomes `qgisVersion`;
- `glob.glob` becomes `glob`, a function from the pattern to the entries it
  lists;
- the module-level `plugin_path` becomes `pluginPath`;
- the per-plugin result of `__import__` plus `serverClassFactory` becomes
  `outcome`;
- the XML parser becomes `parse`.

## Model

| member | source | states |
|---|---|---|
| `QgisVersion.ToInt` | tests/conftest.py:164-174 | On success the pieces are well formed and the result is the arithmetic encoding of the first three. On failure the error names the first non-numeral among the first three pieces. Every piece before it is a numeral. |
| `PyStr.Split` | tests/conftest.py:165 | `str.split` on one separator gives at least one piece, and no piece contains the separator. |
| `PyStr.SplitThenJoin` | tests/conftest.py:165 | Joining the pieces back with the separator restores the string. |
| `PyStr.JoinThenSplit` | tests/conftest.py:165 | Splitting a join of separator-free pieces gives the pieces back. |
| `PyStr.Decimal` | tests/conftest.py:174 | `{:d}` gives a numeral whose value is the number. It has no leading zero unless the number is 0, one digit below 10 and two from 10 to 99. |
| `PyStr.ZeroPad2` | tests/conftest.py:174 | `{:02d}` gives a numeral whose value is the number, two digits long below 100. |
| `PyStr.Find` | tests/conftest.py:93 | `str.find` gives the lowest index where the substring occurs, or -1 when it occurs nowhere. |
| `PyStr.Lower` | tests/conftest.py:199 | `str.lower` on ASCII keeps the length. Each upper-case ASCII letter becomes the matching lower-case letter, every other character is unchanged, and no upper-case ASCII letter is left. |
| `PyStr.LowerBooleanWords` | tests/conftest.py:199 | "TRUE", "Yes" and "OFF" lower to "true", "yes" and "off", the words `getboolean` looks up. |
| `QgisVersion.ToIntEncodes` | tests/conftest.py:164-174 | For a well-formed dotted version, `to_int` returns the encoding of its first three pieces. Missing minor and rev count as 0. Pieces after the third are ignored, even ones that are not numbers. |
| `QgisVersion.ToIntRejects` | tests/conftest.py:165-168 | `to_int` raises exactly when one of the first three dot-separated pieces is not a numeral. A later piece never makes it raise. |
| `QgisVersion.Fold` | tests/conftest.py:169-174 | Rollover, then clamping, then reading back the zero-padded format gives the arithmetic encoding `Encoded(major, minor, rev)`. |
| `QgisVersion.FormatValue` | tests/conftest.py:174 | For minor and rev below 100, the major's decimal digits followed by minor and rev padded to two digits form a numeral, and its value is `major*10000 + minor*100 + rev`. |
| `QgisVersion.ExamplePlain` | tests/conftest.py:164-174 | "2.0.1" encodes to 20001. |
| `QgisVersion.ExampleRollover` | tests/conftest.py:169-171 | "3.99.0" encodes to 40000. |
| `QgisVersion.ExampleClamp` | tests/conftest.py:172-174 | "1.2.150" encodes to 10299, the same as "1.2.99". |
| `QgisVersion.MinorRollsOver` | tests/conftest.py:169-171 | Any minor of 99 or more gives `(major+1)*10000`, whatever the rev and whether or not a rev is present. |
| `QgisVersion.RevClamped` | tests/conftest.py:172-173 | A rev above 99 encodes like rev 99. Pieces after it are ignored. |
| `QgisVersion.EncodingOrdersVersions` | tests/conftest.py:174-179 | Take versions whose minor is at most 98 and whose rev is at most 99. The integer comparison in the range check then agrees with the lexicographic order of (major, minor, rev), in both directions. |
| `QgisVersion.CheckQgisVersion` | tests/conftest.py:162-179 | The check reaches a decision iff the running version (before its first '-') converts, and so does each bound that is given and non-empty. Otherwise it raises the error of the first string that fails, in the order running version, minimum, maximum. |
| `QgisVersion.CheckIsRange` | tests/conftest.py:176-179 | Take a well-formed running version and bounds that are each absent, empty or well formed. The check returns true iff the encoded minimum ≤ the encoded running version ≤ the encoded maximum. An absent or empty bound imposes nothing, whether or not the other bound is given. A `-name` suffix on the running version is ignored. |
| `QgisVersion.ExampleBlankMaximum` | tests/conftest.py:176-179 | Minimum "3.10" with an empty maximum accepts running version "3.22.4-Bialowieza". |
| `QgisVersion.UnboundedAccepts` | tests/conftest.py:176-179 | With both bounds absent or empty, the check returns true for any readable running version. |
| `QgisVersion.MalformedRaises` | tests/conftest.py:176-178 | A malformed running version, or a malformed non-empty bound, makes the check raise. |
| `PluginDiscovery.GetBoolean` | tests/conftest.py:199 | An absent key reads as None. A value reads as true iff its lower-case form is one of "1", "yes", "true", "on", and as false iff it is one of "0", "no", "false", "off". Any other value raises. |
| `PluginDiscovery.Classify` | tests/conftest.py:186-219 | A missing `__init__.py` is logged at debug level, and so is a missing `metadata.txt` when `__init__.py` exists. Every other skip is logged at critical level. An entry is yielded or raises only when both files exist and the metadata parses with a `[general]` section. |
| `PluginDiscovery.Discover` | tests/conftest.py:182-219 | The scan yields at most one name per entry, and every name it yields is the basename of a listed entry. |
| `PluginDiscovery.FindPlugins` | tests/conftest.py:182-219 | The loop yields what `Discover` gives for the listing of the module-level `plugin_path`. This is the names yielded before any raise, plus the raised error. The `pluginpath` argument plays no part. |
| `PluginDiscovery.VerdictClassifies` | tests/conftest.py:186-217 | An entry is yielded iff it meets all of these: it has `__init__.py`, it has `metadata.txt`, the metadata parses with a `[general]` section, `server` reads as boolean true, and the version check returns true. It raises iff it is such a server plugin whose version check raises, and the error is that check's error. |
| `PluginDiscovery.DiscoverIsFilter` | tests/conftest.py:185-219 | The scan yields, in listing order, the basenames of the eligible entries before the first raising entry. It raises iff some entry raises, with the first such entry's error. Entries that fail a check are skipped and never stop the scan. |
| `PluginDiscovery.EligibleNamesMembers` | tests/conftest.py:185-219 | A name is in `EligibleNames`, which is what a scan that does not raise yields, iff some eligible entry has that basename. |
| `PluginDiscovery.NoRaiseWithoutMalformedVersions` | tests/conftest.py:196-209 | If no server-plugin entry's version check raises (which includes the running version being readable), the scan finishes without raising and yields exactly the eligible basenames. |
| `PluginLoader.Registry` | tests/conftest.py:228-243 | Every stored name was processed and loaded, and it maps to its factory's result. |
| `PluginLoader.LoadResultOf` | tests/conftest.py:222-244 | It returns None iff `plugin_path` is falsy. When it raises, the error is the scan's error. Every plugin it returns was discovered and loaded. |
| `PluginLoader.RegistryContents` | tests/conftest.py:228-244 | The registry's keys are exactly the processed names whose import and factory succeeded, each mapped to its factory's result. A failing name keeps no other name out. |
| `PluginLoader.LoadPlugins` | tests/conftest.py:222-244 | If `plugin_path` is falsy, it returns None without scanning. If the scan raises, it raises too. Otherwise its keys are exactly the discovered names that loaded, each mapped to its instance (`LoadResultOf`). |
| `TestClient.Client.constructor` | tests/conftest.py:116-120 | A new client's registry is the empty mapping. |
| `TestClient.Client.LoadPlugins` | tests/conftest.py:122-124 | The registry becomes the loader's result, which is None with no plugin path. If the loader raises, the registry is unchanged. After a successful load its keys are exactly the discovered plugins that loaded. |
| `TestClient.Client.GetPlugin` | tests/conftest.py:130-133 | Returns the instance under the name, or None for an unknown name. It raises iff the registry is None. |
| `ResponseWrapper.Response.constructor` | tests/conftest.py:78-81 | A new wrapper keeps the response's headers, body and status, and has an empty cache. |
| `ResponseWrapper.Response.IsXml` | tests/conftest.py:93 | `Content-Type` (default "") has `text/xml` at position 0 iff it begins with `text/xml`. |
| `ResponseWrapper.Response.Xml` | tests/conftest.py:91-95 | A cached document is returned unchanged, with no new parse. With an empty cache and a non-XML content type, the result is None. With an empty cache and an XML content type, the body is parsed exactly once: success is cached and returned, failure raises and leaves the cache empty. |
| `LoggerHook.WriteLogMessage` | tests/conftest.py:257-266 | A message is dropped only when `verbose` is off. Whatever is forwarded carries the text "tag: message". |
| `LoggerHook.Routing` | tests/conftest.py:257-266 | A message is forwarded iff it is Warning or Critical or `verbose` is set. Warning goes to `warning`, Critical to `error`, every other level to `info`. The text is always "tag: message". |
| `LoggerHook.VerboseOnlyAdds` | tests/conftest.py:263-266 | Turning on `verbose` forwards every record forwarded without it, unchanged. |
| `LoggerHook.DefaultHookDropsNoise` | tests/conftest.py:251-266 | With the installed default `verbose=False`, exactly the Info, Success and NoLevel messages are dropped. |

## Left out

- QGIS application start and stop, the pytest option and session hooks, and the changes to `sys.path` and the environment (tests/conftest.py:31-72). These are process lifecycle and calls into QGIS.
- `_Client.get`, `getprojectpath`, `server_interface` and the `datapath`/`server` fields (tests/conftest.py:118-119, 126-153). These are QGIS Server request dispatch, project-file reading and `py.path` joins, all foreign I/O.
- `_Response.response`, `request`, `status_code`, `headers` and `content` (tests/conftest.py:83-107). These are plain getters of the wrapped QGIS objects. The model stores headers, body and status once, at construction. A response mutated after wrapping is not modelled.
- Filesystem probing and `configparser` parsing. `glob`, `os.path.exists`, `open` and `read_file` are given as entry fields, in the order the listing gives them. An abstract `Parsed`/`Unreadable` outcome stands for any exception while reading or looking up keys.
- `__import__`, `sys.modules` and calling `serverClassFactory` are given as a per-name `LoadOutcome`. Side effects of a factory are not modelled.
- `lxml.etree.fromstring` and UTF-8 decoding are a parameter, `parse`.
- The logging calls, their message texts and traceback formatting in `find_plugins` and `load_plugins`. Only the level of a skip is kept, in `Verdict`.
- `install_logger_hook` connecting the hook to `QgsApplication.messageLog()` (tests/conftest.py:268-269). Only the hook function is modelled.
- `PluginDiscovery.FindPlugins` when `plugin_path` is None. It is only called after `load_plugins` has checked that the path is truthy, so the TypeError of `None + "/*"` is not modelled.
- `PluginLoader.LoadPlugins`: the generator is modelled as running to its end or its exception before the imports. With per-name outcomes given as values this yields the same result. The interleaving with imports is not modelled.
- `QgisVersion.ToInt`: `int()`, as `PyStr.ParseInt`, is modelled on ASCII-digit numerals only. Python also accepts surrounding whitespace, a sign, underscores between digits and non-ASCII digits; here those forms count as malformed and raise.
- `PluginDiscovery.GetBoolean`: `str.lower`, as `PyStr.Lower`, is modelled on ASCII letters only.
