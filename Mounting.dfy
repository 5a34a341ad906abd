/** The mount driver (mount_server, unmount_server) as functions from the table before the
    call, and the outcome of each external command, to the table after it and the commands
    run. The class in module Entrypoint runs the same steps on its field. */
module Mounting {
  import opened Wrappers
  import opened Text
  import opened Dicts
  import opened Servers

  /** current_mounts: server name to local mount path, in insertion order. */
  type Table = Dict<string, string>

  /** An external effect: a directory created, or a command run with whether it exited 0. */
  datatype Call =
    | MakeDirs(path: string)
    | Sshfs(argv: seq<string>, succeeded: bool)
    | Fusermount(argv: seq<string>, succeeded: bool)

  /** `f"{MOUNT_BASE}/{name}"`. */
  function MountPoint(name: string): (p: string)
    ensures |p| == |MOUNT_BASE| + 1 + |name| && p[|MOUNT_BASE| + 1..] == name
  {
    MOUNT_BASE + "/" + name
  }

  lemma MountPointInjective(a: string, b: string)
    requires MountPoint(a) == MountPoint(b)
    ensures a == b
  {
    assert a == MountPoint(a)[|MOUNT_BASE| + 1..];
  }

  /** The invariant of current_mounts: a well-formed dict whose keys are non-empty names,
      each mapped to its own mount point. */
  ghost predicate Consistent(t: Table) {
    Valid(t) && forall k :: k in t.items ==> k != "" && t.items[k] == MountPoint(k)
  }

  function UserOf(e: ServerEntry): string {
    if e.user.Some? then e.user.value else DEVUSER
  }

  /** `f"{user}@{host}:{remote_path}"`. */
  function RemoteSpec(e: ServerEntry): string
    requires Complete(e)
  {
    UserOf(e) + "@" + e.host.value + ":" + e.remotePath.value
  }

  lemma IntToStringNotPortFlag(i: int)
    ensures IntToString(i) != "-p"
  {
    var r := IntToString(i);
    if i < 0 {
      assert r[1] == NatToString(-i)[0];
    } else {
      assert IsDigit(r[0]);
    }
  }

  /** The sshfs argument list of mount_server: the three fixed options, `-p <port>` when the
      port is truthy, then the remote `user@host:path` and the local mount point. */
  function SshfsArgv(keyPath: string, e: ServerEntry): seq<string>
    requires Complete(e)
  {
    ["sshfs", "-o", "IdentityFile=" + keyPath, "-o", "StrictHostKeyChecking=no", "-o", "allow_other"]
      + (if PortTruthy(e.port) then ["-p", IntToString(e.port.value)] else [])
      + [RemoteSpec(e), MountPoint(e.name.value)]
  }

  /** The three fixed options come first; `-p <port>` appears exactly when the port is
      truthy, and its argument parses back to the port; the remote `user@host:path` (user
      defaulting to devuser) and the local mount point come last. */
  lemma SshfsArgvShape(keyPath: string, e: ServerEntry)
    requires Complete(e)
    ensures var argv := SshfsArgv(keyPath, e);
      && |argv| == (if PortTruthy(e.port) then 11 else 9)
      && argv[..7] == ["sshfs", "-o", "IdentityFile=" + keyPath, "-o", "StrictHostKeyChecking=no", "-o", "allow_other"]
      && ("-p" in argv <==> PortTruthy(e.port))
      && (PortTruthy(e.port) ==> argv[7] == "-p" && ParseInt(argv[8]) == Some(e.port.value))
      && argv[|argv| - 2] == RemoteSpec(e) && argv[|argv| - 1] == MountPoint(e.name.value)
      && (e.user.None? ==> StartsWith(argv[|argv| - 2], DEVUSER + "@"))
  {
    var base := ["sshfs", "-o", "IdentityFile=" + keyPath, "-o", "StrictHostKeyChecking=no", "-o", "allow_other"];
    var portArgs := if PortTruthy(e.port) then ["-p", IntToString(e.port.value)] else [];
    var tail := [RemoteSpec(e), MountPoint(e.name.value)];
    assert ("IdentityFile=" + keyPath)[0] == 'I' && MountPoint(e.name.value)[0] == '/';
    assert |RemoteSpec(e)| > 2;
    assert PortTruthy(e.port) ==>
        portArgs[1] != "-p" && ParseInt(portArgs[1]) == Some(e.port.value) by {
      if PortTruthy(e.port) {
        IntToStringNotPortFlag(e.port.value);
        IntToStringRoundTrip(e.port.value);
      }
    }
    var argv := SshfsArgv(keyPath, e);
    assert argv == base + portArgs + tail;
    assert argv[..7] == base;
    assert e.user.None? ==> RemoteSpec(e)[..|DEVUSER + "@"|] == DEVUSER + "@";
  }

  /** What a complete entry's mount attempt does outside the process. */
  function AttemptCalls(keyPath: string, e: ServerEntry, ok: bool): seq<Call>
    requires Complete(e)
  {
    [MakeDirs(MountPoint(e.name.value)), Sshfs(SshfsArgv(keyPath, e), ok)]
  }

  datatype MountResult = MountResult(table: Table, calls: seq<Call>, mounted: bool)

  /** mount_server(server), given whether sshfs exits 0. An incomplete entry is refused
      with no command and no change; otherwise sshfs runs once, and only a zero exit records
      `name -> mount point`, leaving every other entry as it was. */
  function MountStep(keyPath: string, t: Table, e: ServerEntry, ok: bool): (r: MountResult)
    ensures !Complete(e) ==> r.calls == [] && !r.mounted
    ensures Complete(e) ==> r.calls == AttemptCalls(keyPath, e, ok) && r.mounted == ok
    ensures r.mounted ==> r.table.items == t.items[e.name.value := MountPoint(e.name.value)]
    ensures r.mounted ==> r.table.order == if e.name.value in t.items then t.order else t.order + [e.name.value]
    ensures !r.mounted ==> r.table == t
    ensures Consistent(t) ==> Consistent(r.table)
  {
    if !Complete(e) then MountResult(t, [], false)
    else
      var name := e.name.value;
      var calls := AttemptCalls(keyPath, e, ok);
      if ok then MountResult(Set(t, name, MountPoint(name)), calls, true)
      else MountResult(t, calls, false)
  }

  function FusermountArgv(name: string): seq<string> {
    ["fusermount", "-u", MountPoint(name)]
  }

  datatype UnmountResult = UnmountResult(table: Table, calls: seq<Call>)

  /** unmount_server(name), given whether the mount point is a mount point and whether
      fusermount exits 0. fusermount runs only on a mount point; the entry for `name` is
      dropped in every case and the other entries keep their values and order. */
  function UnmountStep(t: Table, name: string, isMount: bool, ok: bool): (r: UnmountResult)
    ensures r.table.items == t.items - {name}
    ensures r.table.order == Remove(t.order, name)
    ensures r.calls == if isMount then [Fusermount(FusermountArgv(name), ok)] else []
    ensures Consistent(t) ==> Consistent(r.table)
  {
    UnmountResult(Pop(t, name), if isMount then [Fusermount(FusermountArgv(name), ok)] else [])
  }
}
