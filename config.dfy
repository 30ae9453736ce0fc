/**
 * The settings document of the vault (cloud_config.json) and the switch
 * between local-vault mode and remote mode.
 */
module Config {

  /** A JSON value as far as the settings need one. */
  datatype JsonValue = JString(str: string) | JNumber(num: int) | JOther

  type Settings = map<string, JsonValue>

  /** The module-level switch: the remote code paths are disabled. */
  const LocalOnly: bool := true

  /** Host name of the placeholder server URL shipped in the defaults. */
  const PlaceholderHost: string := "your-cloud-server.com"

  /** The settings written when no settings document exists. */
  function DefaultConfig(): Settings
  {
    map[
      "cloud_server_url" := JString("https://your-cloud-server.com/api"),
      "api_key" := JString("your-api-key-here"),
      "upload_endpoint" := JString("/upload"),
      "download_endpoint" := JString("/download"),
      "list_endpoint" := JString("/list"),
      "delete_endpoint" := JString("/delete"),
      "timeout" := JNumber(30)
    ]
  }

  /**
   * `{**defaults, **loaded}`: every key of either map is present, a loaded
   * value always wins, and a default only fills a key the document lacks.
   */
  function MergeConfig(defaults: Settings, loaded: Settings): (merged: Settings)
    ensures merged.Keys == defaults.Keys + loaded.Keys
    ensures forall k :: k in loaded ==> merged[k] == loaded[k]
    ensures forall k :: k in defaults && k !in loaded ==> merged[k] == defaults[k]
  {
    defaults + loaded
  }

  /**
   * What the settings document holds when the vault opens: nothing, a JSON
   * object, or something that cannot be read, parsed or merged (a syntax
   * error, a JSON array, an I/O error).
   */
  datatype ConfigFile = Missing | Unreadable | Loaded(settings: Settings)

  /** The settings in effect and whether the defaults are written to disk. */
  datatype ConfigLoad = ConfigLoad(settings: Settings, writesDefaults: bool)

  /**
   * Loading the settings: a readable document is merged over the defaults
   * and left alone on disk; a missing or unreadable one gives the defaults,
   * which are then written over whatever the file held.
   */
  function LoadConfig(file: ConfigFile): (r: ConfigLoad)
    ensures DefaultConfig().Keys <= r.settings.Keys
    ensures r.writesDefaults <==> !file.Loaded?
    ensures file.Loaded? ==>
      && r.settings.Keys == DefaultConfig().Keys + file.settings.Keys
      && (forall k :: k in file.settings ==> r.settings[k] == file.settings[k])
      && (forall k :: k in DefaultConfig() && k !in file.settings ==> r.settings[k] == DefaultConfig()[k])
    ensures !file.Loaded? ==> r.settings == DefaultConfig()
  {
    match file
    case Loaded(s) => ConfigLoad(MergeConfig(DefaultConfig(), s), false)
    case _ => ConfigLoad(DefaultConfig(), true)
  }

  /** `sub` occurs in `s` starting at index `i`. */
  predicate OccursAt(s: string, sub: string, i: int)
  {
    0 <= i <= |s| - |sub| && s[i..i + |sub|] == sub
  }

  /** Python's `sub in s` on strings. */
  predicate Contains(s: string, sub: string)
  {
    exists i | 0 <= i <= |s| :: OccursAt(s, sub, i)
  }

  /**
   * The test both upload_file and download_file make before touching the
   * remote store. With the switch on, every URL selects local-vault mode.
   */
  function LocalMode(serverUrl: string): (local: bool)
    ensures local
  {
    LocalOnly || Contains(serverUrl, PlaceholderHost)
  }

  /** Even with the switch off, the shipped defaults select local-vault mode. */
  lemma DefaultUrlIsPlaceholder()
    ensures "cloud_server_url" in DefaultConfig()
    ensures Contains(DefaultConfig()["cloud_server_url"].str, PlaceholderHost)
  {
    var url := DefaultConfig()["cloud_server_url"].str;
    assert url == "https://" + PlaceholderHost + "/api";
    assert url[8..8 + |PlaceholderHost|] == PlaceholderHost;
    assert OccursAt(url, PlaceholderHost, 8);
  }
}
