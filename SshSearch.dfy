/** The remote_search tool of tools/mcp_ssh_search/server.py: find the server entry named
    after the folder, build the ssh command line that runs ripgrep (or grep) remotely, and
    turn the command's completion into the tool's answer. */
module SshSearch {
  import opened Wrappers
  import opened Text
  import opened Servers

  /** The exceptions remote_search raises: no entry for the folder, a KeyError on
      server["user"] or server["host"], or a failed search. */
  datatype SearchError = NoServerEntry(folder: string) | MissingKey(key: string) | SearchFailed(stderr: string)

  /** What subprocess.run returns. */
  datatype Completed = Completed(returnCode: int, stdout: string, stderr: string)

  const DEFAULT_PORT := 22

  /** The two fixed pieces of the remote command: ripgrep guarded by a check that it exists,
      and the grep fallback. */
  const RG_PROBE := "(command -v rg >/dev/null 2>&1 && rg --with-filename --line-number --color never "
  const GREP_FALLBACK := " || grep -r -n -H "

  /** The first entry whose name equals `folder`, if there is one. */
  function FirstNamed(servers: seq<ServerEntry>, folder: string): (r: Option<ServerEntry>)
    ensures r.None? <==> forall i :: 0 <= i < |servers| ==> servers[i].name != Some(folder)
    ensures r.Some? ==> exists i :: 0 <= i < |servers| && servers[i] == r.value
                          && servers[i].name == Some(folder)
                          && forall j :: 0 <= j < i ==> servers[j].name != Some(folder)
  {
    if servers == [] then None
    else if servers[0].name == Some(folder) then Some(servers[0])
    else
      var r := FirstNamed(servers[1..], folder);
      assert forall i :: 1 <= i < |servers| ==> servers[i] == servers[1..][i - 1];
      r
  }

  /** The lookup loop of remote_search (the `for`/`break` over the list). */
  method FindServer(servers: seq<ServerEntry>, folder: string) returns (server: Option<ServerEntry>)
    ensures server == FirstNamed(servers, folder)
  {
    server := None;
    var i := 0;
    while i < |servers|
      invariant 0 <= i <= |servers|
      invariant FirstNamed(servers[i..], folder) == FirstNamed(servers, folder)
    {
      if servers[i].name == Some(folder) {
        server := Some(servers[i]);
        break;
      }
      assert servers[i..][1..] == servers[i + 1..];
      i := i + 1;
    }
  }

  predicate Contains(s: string, part: string) {
    exists i :: 0 <= i <= |s| && part <= s[i..]
  }

  /** The remote shell command: change to the remote path, then run ripgrep if it exists and
      grep otherwise, both with the regex and the file pattern in single quotes. */
  function SearchCommand(remotePath: string, regex: string, filePattern: string): (r: string)
    ensures StartsWith(r, "cd " + remotePath + " && ")
    ensures Contains(r, RG_PROBE + "-e '" + regex + "' '" + filePattern + "')")
    ensures EndsWith(r, GREP_FALLBACK + "--include='" + filePattern + "' '" + regex + "' .")
  {
    var head := "cd " + remotePath + " && ";
    var rg := RG_PROBE + "-e '" + regex + "' '" + filePattern + "')";
    var grep := GREP_FALLBACK + "--include='" + filePattern + "' '" + regex + "' .";
    var r := head + rg + grep;
    assert r[..|head|] == head;
    assert rg <= r[|head|..];
    assert r[|r| - |grep|..] == grep;
    r
  }

  /** The ssh argument list: `sshpass -p <password>` in front exactly when the password is
      truthy, then ssh with the port, the host-key option and `user@host`, and the remote
      command last. */
  function SshArgv(user: string, host: string, port: int, password: Option<string>, remoteCommand: string): (r: seq<string>)
    ensures |r| == if Truthy(password) then 10 else 7
    ensures r[0] == "sshpass" <==> Truthy(password)
    ensures Truthy(password) ==> r[..3] == ["sshpass", "-p", password.value]
    ensures var off := |r| - 7;
      && r[off] == "ssh" && r[off + 1] == "-p" && ParseInt(r[off + 2]) == Some(port)
      && r[off + 3] == "-o" && r[off + 4] == "StrictHostKeyChecking=no"
    ensures r[|r| - 2] == user + "@" + host && r[|r| - 1] == remoteCommand
  {
    IntToStringRoundTrip(port);
    var ssh := ["ssh", "-p", IntToString(port), "-o", "StrictHostKeyChecking=no", user + "@" + host, remoteCommand];
    if Truthy(password) then ["sshpass", "-p", password.value] + ssh else ssh
  }

  /** The password changes nothing but the `sshpass -p <password>` prefix. */
  lemma PasswordOnlyAddsPrefix(user: string, host: string, port: int, password: Option<string>, remoteCommand: string)
    ensures Truthy(password) ==>
      SshArgv(user, host, port, password, remoteCommand)
        == ["sshpass", "-p", password.value] + SshArgv(user, host, port, None, remoteCommand)
    ensures !Truthy(password) ==>
      SshArgv(user, host, port, password, remoteCommand) == SshArgv(user, host, port, None, remoteCommand)
  {
  }

  /** The command remote_search runs for a server entry that has a user and a host: port 22
      and remote path "." unless the entry says otherwise. */
  function SearchArgv(server: ServerEntry, regex: string, filePattern: string): seq<string>
    requires server.user.Some? && server.host.Some?
  {
    var port := if server.port.Some? then server.port.value else DEFAULT_PORT;
    var remotePath := if server.remotePath.Some? then server.remotePath.value else ".";
    SshArgv(server.user.value, server.host.value, port, server.password, SearchCommand(remotePath, regex, filePattern))
  }

  /** The argument list as remote_search assembles it: the ssh part first, `sshpass -p
      <password>` in front when the password is truthy, the remote command appended last. */
  method BuildSearchArgv(s: ServerEntry, regex: string, filePattern: string) returns (sshCmd: seq<string>)
    requires s.user.Some? && s.host.Some?
    ensures sshCmd == SearchArgv(s, regex, filePattern)
  {
    var user, host := s.user.value, s.host.value;
    var port := if s.port.Some? then s.port.value else DEFAULT_PORT;
    var password := s.password;
    var remotePath := if s.remotePath.Some? then s.remotePath.value else ".";
    if Truthy(password) {
      sshCmd := ["sshpass", "-p", password.value, "ssh", "-p", IntToString(port), "-o", "StrictHostKeyChecking=no", user + "@" + host];
    } else {
      sshCmd := ["ssh", "-p", IntToString(port), "-o", "StrictHostKeyChecking=no", user + "@" + host];
    }
    var searchCmd := SearchCommand(remotePath, regex, filePattern);
    sshCmd := sshCmd + [searchCmd];
    assert sshCmd == SshArgv(user, host, port, password, searchCmd);
  }

  /** remote_search; `run` gives the completion of the command it is handed. The tool fails
      only when that command exits non-zero AND printed nothing; otherwise its output is the
      answer, even after a non-zero exit (grep finding nothing in one of the files). */
  method RemoteSearch(servers: seq<ServerEntry>, folder: string, regex: string, filePattern: string,
                      run: seq<string> -> Completed) returns (r: Result<string, SearchError>)
    ensures FirstNamed(servers, folder).None? ==> r == Err(NoServerEntry(folder))
    ensures FirstNamed(servers, folder).Some? ==>
      var s := FirstNamed(servers, folder).value;
      && (s.user.None? ==> r == Err(MissingKey("user")))
      && (s.user.Some? && s.host.None? ==> r == Err(MissingKey("host")))
      && (s.user.Some? && s.host.Some? ==>
            var done := run(SearchArgv(s, regex, filePattern));
            && (r.Err? <==> done.returnCode != 0 && done.stdout == "")
            && (r.Err? ==> r.error == SearchFailed(done.stderr))
            && (r.Ok? ==> r.value == done.stdout))
  {
    var server := FindServer(servers, folder);
    if server.None? {
      return Err(NoServerEntry(folder));
    }
    var s := server.value;
    if s.user.None? {
      return Err(MissingKey("user"));
    }
    if s.host.None? {
      return Err(MissingKey("host"));
    }
    var sshCmd := BuildSearchArgv(s, regex, filePattern);
    var result := run(sshCmd);
    if result.returnCode != 0 && result.stdout == "" {
      return Err(SearchFailed(result.stderr));
    }
    return Ok(result.stdout);
  }
}
