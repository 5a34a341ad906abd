/** The desired state: server entries as read from the servers configuration file, the
    settings taken from the environment, and the watcher's file-name filter. */
module Servers {
  import opened Wrappers
  import opened Text

  /** One object of the "servers" list. A key that is absent is None; every field is
      optional here, since validation is what decides whether the entry can be mounted. */
  datatype ServerEntry = ServerEntry(
    name: Option<string>,
    host: Option<string>,
    remotePath: Option<string>,
    user: Option<string>,
    port: Option<int>,
    password: Option<string>)

  /** Python truthiness of an optional string: present and non-empty. */
  predicate Truthy(s: Option<string>) {
    s.Some? && s.value != ""
  }

  /** Python truthiness of an optional integer: present and non-zero. */
  predicate PortTruthy(p: Option<int>) {
    p.Some? && p.value != 0
  }

  /** The test `name and host and remote_path` that guards every mount. */
  predicate Complete(e: ServerEntry) {
    Truthy(e.name) && Truthy(e.host) && Truthy(e.remotePath)
  }

  const DEVUSER := "devuser"
  const MOUNT_BASE := "/mnt/sshfs"
  const DEFAULT_SSH_KEY_PATH := "/config/id_rsa"
  const DEFAULT_SERVERS_CONFIG := "/config/servers.json"

  /** `os.environ.get(key, default)`. */
  function EnvOr(env: map<string, string>, key: string, default: string): string {
    if key in env then env[key] else default
  }

  /** What the configuration loader finds: no file, a file that cannot be read or parsed as
      a JSON object, or an object whose "servers" key holds the list (None when absent). */
  datatype ConfigFile = Missing | Unparsable | Parsed(servers: Option<seq<ServerEntry>>)

  /** get_servers: a missing, unreadable or malformed file, and a document without a
      "servers" key, all mean the empty list; otherwise the list as written. */
  function GetServers(f: ConfigFile): seq<ServerEntry> {
    match f
    case Parsed(Some(servers)) => servers
    case _ => []
  }

  /** The filter of ServersConfigHandler.on_modified: the changed path ends with the
      configuration file's base name. */
  predicate IsConfigEvent(srcPath: string, serversConfig: string) {
    EndsWith(srcPath, Basename(serversConfig))
  }

  /** The filter accepts the configuration file itself, and also every path that merely ends
      with its base name, whatever precedes it (`backup-servers.json` beside it, say). */
  lemma ConfigEventIsSuffixMatch(serversConfig: string)
    ensures IsConfigEvent(serversConfig, serversConfig)
    ensures forall dir: string :: IsConfigEvent(dir + Basename(serversConfig), serversConfig)
  {
    var b := Basename(serversConfig);
    forall dir: string ensures IsConfigEvent(dir + b, serversConfig) {
      assert (dir + b)[|dir + b| - |b|..] == b;
    }
  }
}
