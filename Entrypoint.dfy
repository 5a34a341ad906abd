/** The mutable part of entrypoint.py: the module-level table current_mounts and the
    functions that change it, each proved to do what its specification in modules Mounting
    and Reconcile says. External commands are passed in as their outcomes. */
module Entrypoint {
  import opened Wrappers
  import opened Text
  import opened Dicts
  import opened Servers
  import opened Mounting
  import opened Reconcile

  class MountManager {
    /** SSH_KEY_PATH and SERVERS_CONFIG, read once from the environment. */
    const keyPath: string
    const serversConfig: string
    /** current_mounts. */
    var currentMounts: Table

    ghost predicate Valid()
      reads this
    {
      Consistent(currentMounts)
    }

    constructor (env: map<string, string>)
      ensures Valid()
      ensures keyPath == EnvOr(env, "SSH_KEY_PATH", DEFAULT_SSH_KEY_PATH)
      ensures serversConfig == EnvOr(env, "SERVERS_CONFIG", DEFAULT_SERVERS_CONFIG)
      ensures currentMounts.items == map[]
    {
      keyPath := EnvOr(env, "SSH_KEY_PATH", DEFAULT_SSH_KEY_PATH);
      serversConfig := EnvOr(env, "SERVERS_CONFIG", DEFAULT_SERVERS_CONFIG);
      currentMounts := Empty();
    }

    /** mount_server; `exitOk` is whether sshfs exits 0. */
    method MountServer(server: ServerEntry, exitOk: bool) returns (mounted: bool, calls: seq<Call>)
      requires Valid()
      modifies this
      ensures Valid()
      ensures MountResult(currentMounts, calls, mounted) == MountStep(keyPath, old(currentMounts), server, exitOk)
    {
      var name, host, remotePath := server.name, server.host, server.remotePath;
      var user := if server.user.Some? then server.user.value else DEVUSER;
      var port := server.port;
      if !(Truthy(name) && Truthy(host) && Truthy(remotePath)) {
        return false, [];
      }
      var mountPoint := MOUNT_BASE + "/" + name.value;
      calls := [MakeDirs(mountPoint)];
      var cmd := ["sshfs", "-o", "IdentityFile=" + keyPath, "-o", "StrictHostKeyChecking=no", "-o", "allow_other"];
      if PortTruthy(port) {
        cmd := cmd + ["-p", IntToString(port.value)];
      }
      cmd := cmd + [user + "@" + host.value + ":" + remotePath.value, mountPoint];
      assert cmd == SshfsArgv(keyPath, server);
      calls := calls + [Sshfs(cmd, exitOk)];
      if exitOk {
        currentMounts := Set(currentMounts, name.value, mountPoint);
        mounted := true;
      } else {
        mounted := false;
      }
    }

    /** unmount_server; `isMount` is what os.path.ismount says of the mount point and
        `fusermountOk` whether fusermount exits 0. */
    method UnmountServer(name: string, isMount: bool, fusermountOk: bool) returns (calls: seq<Call>)
      requires Valid()
      modifies this
      ensures Valid()
      ensures UnmountResult(currentMounts, calls) == UnmountStep(old(currentMounts), name, isMount, fusermountOk)
    {
      var mountPoint := MOUNT_BASE + "/" + name;
      calls := [];
      if isMount {
        calls := [Fusermount(["fusermount", "-u", mountPoint], fusermountOk)];
      }
      currentMounts := Pop(currentMounts, name);
    }

    /** sync_mounts. `mountOk(i)` is sshfs's exit status for entry `i` of the list,
        `isMount` and `fusermountOk` answer per mount point. */
    method SyncMounts(config: ConfigFile, mountOk: nat -> bool, isMount: string -> bool,
                      fusermountOk: string -> bool) returns (calls: seq<Call>)
      requires Valid()
      modifies this
      ensures Valid()
      ensures var r := SyncPass(keyPath, old(currentMounts), config, mountOk, isMount, fusermountOk);
        currentMounts == r.table && calls == r.mountCalls + r.unmountCalls
    {
      var servers := GetServers(config);
      var newNames: set<Option<string>> := {};
      calls := [];
      for i := 0 to |servers|
        invariant Valid()
        invariant newNames == ListedNames(servers, i)
        invariant Pass(currentMounts, calls) == MountPhase(keyPath, old(currentMounts), servers, mountOk, i)
      {
        var name := servers[i].name;
        ListedNamesStep(servers, i);
        newNames := newNames + {name};
        if !InTable(name, currentMounts) {
          var mounted, c := MountServer(servers[i], mountOk(i));
          calls := calls + c;
        }
      }
      var snapshot := currentMounts.order;
      ghost var afterMounts := currentMounts;
      var unmountCalls := [];
      for j := 0 to |snapshot|
        invariant Valid()
        invariant Pass(currentMounts, unmountCalls) == UnmountPhase(afterMounts, snapshot, newNames, isMount, fusermountOk, j)
      {
        var name := snapshot[j];
        if Some(name) !in newNames {
          var c := UnmountServer(name, isMount(MountPoint(name)), fusermountOk(MountPoint(name)));
          unmountCalls := unmountCalls + c;
        }
      }
      calls := calls + unmountCalls;
    }

    /** ServersConfigHandler.on_modified: a pass runs only for a path that ends with the
        configuration file's base name. */
    method OnModified(srcPath: string, config: ConfigFile, mountOk: nat -> bool,
                      isMount: string -> bool, fusermountOk: string -> bool) returns (calls: seq<Call>)
      requires Valid()
      modifies this
      ensures Valid()
      ensures IsConfigEvent(srcPath, serversConfig) ==>
        var r := SyncPass(keyPath, old(currentMounts), config, mountOk, isMount, fusermountOk);
        currentMounts == r.table && calls == r.mountCalls + r.unmountCalls
      ensures !IsConfigEvent(srcPath, serversConfig) ==> currentMounts == old(currentMounts) && calls == []
    {
      if EndsWith(srcPath, Basename(serversConfig)) {
        calls := SyncMounts(config, mountOk, isMount, fusermountOk);
      } else {
        calls := [];
      }
    }
  }
}
