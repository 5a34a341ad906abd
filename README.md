# RemoteDEV mount reconciler and remote search, in Dafny

RemoteDEV is a container whose entrypoint keeps a set of sshfs mounts under `/mnt/sshfs`
in line with the server list in a JSON configuration file. It also rewrites `sshd_config`
for key-only login, and it ships an MCP tool that searches a server's files over ssh. This
project models the decision logic of those parts and proves properties about it:

- `Servers`: server entries, the settings read from the environment, the loader's result and
  the watcher's file-name filter.
- `Dicts`: an insertion-ordered dictionary, standing in for the Python dict `current_mounts`.
- `Mounting`: `mount_server` and `unmount_server` as pure steps on the table, with the
  commands they run (`MakeDirs`, `Sshfs`, `Fusermount`) recorded as a trace.
- `Reconcile`: `sync_mounts` as two folds over the table. It also gives a reference
  description entry by entry, and states the properties of one pass and of two passes in a
  row (idempotence, retry, duplicate names, an empty desired state).
- `Entrypoint`: the class `MountManager`, whose field `currentMounts` is `current_mounts`.
  Its methods update the field in place with the loops of the source. Each is proved equal
  to its specification in `Mounting`/`Reconcile`.
- `SshdConfig`: the line rewrite of `patch_sshd_config`, with its loop and idempotence on the
  line list. At file level it adds `writelines` and `readlines`, a counterexample to
  idempotence, and a corrected rewrite (see Findings).
- `SshSearch`: `remote_search`, covering the lookup loop, the ssh/sshpass argument list,
  the remote shell command and the classification of the result.
- `Text`: Python's `str.strip`, `os.path.basename`, `str(int)` and their properties.

External effects are parameters. The exit status of sshfs is `mountOk(i)`, for entry `i` of
the list. `os.path.ismount` and the exit status of fusermount are functions of the mount
path. `subprocess.run` in `remote_search` is a function from argument list to completion.
The configuration file's content is a `ConfigFile` value.

Two behaviours of the code are easy to misread:

- The watcher reacts to every path that *ends with* the configuration file's base name
  (`str.endswith`). It does not require an exact name match, so `backup-servers.json` in the
  watched directory also triggers a pass (`Servers.ConfigEventIsSuffixMatch`).
- With duplicate `name`s, the *first* entry of that name that mounts successfully is
  recorded. Every later entry with that name is skipped, because the name is then already in
  `current_mounts` (`Reconcile.FirstMountedEntryWins`). A failed mount is retried with the
  next entry of the same name in the same pass.

## Model

| member | source | states |
|---|---|---|
| Text.StripLeftSpec | entrypoint.py:162 | `line.strip()`, left side: the result is a suffix of the line, every dropped character is whitespace, and the result is empty or starts with a non-space |
| Text.StripRightSpec | entrypoint.py:162 | `line.strip()`, right side: the result is a prefix, every dropped character is whitespace, and the result is empty or ends with a non-space |
| Text.StripKeepsLeadingWord | entrypoint.py:162 | a line beginning with a word that has no space at its ends still starts with that word after `strip()` |
| Text.Basename | entrypoint.py:143 | `os.path.basename`: a suffix of the path that holds no `/`, preceded by a `/` when shorter than the path |
| Text.IntToStringRoundTrip | entrypoint.py:107 | `str(port)` yields a decimal numeral that parses back to the same integer, negative ports included |
| Dicts.Set | entrypoint.py:112 | `current_mounts[name] = mount_point`: the map is updated at that key, a new key goes to the end of the key order, an existing key keeps its place, and well-formedness is kept |
| Dicts.Remove | entrypoint.py:126 | removing a key from the key order keeps exactly the other keys and keeps them distinct; an absent key leaves the order as it was |
| Dicts.Pop | entrypoint.py:126 | `current_mounts.pop(name, None)`: the key is gone, everything else is unchanged, and an absent key leaves the dict as it was |
| Servers.ConfigEventIsSuffixMatch | entrypoint.py:141-145 | the filter accepts the configuration path itself and also every other path that ends with its base name, whatever precedes it |
| Mounting.MountPoint | entrypoint.py:98 | the mount point is `/mnt/sshfs/` followed by the name, so the name can be read back from it |
| Mounting.MountPointInjective | entrypoint.py:119 | distinct names never share a mount point |
| Mounting.SshfsArgvShape | entrypoint.py:100-108 | the sshfs command: the fixed options with the key path, `-p <port>` exactly when the port is truthy (and then it parses back to the port), then `user@host:remote_path` with `devuser` as the default user, and the mount point last |
| Mounting.MountStep | entrypoint.py:89-116 | an incomplete entry runs nothing and mounts nothing; a complete one creates the mount point and runs sshfs once, and only a zero exit records `name -> mount point`, with a new name placed last in the key order; the table invariant is kept |
| Mounting.UnmountStep | entrypoint.py:118-126 | fusermount runs only when the path is a mount point; the name is dropped whatever fusermount does; the other keys keep their values and order; the invariant is kept |
| Reconcile.ListedNamesMeaning | entrypoint.py:130-133 | `new_names` holds a name exactly when some entry carries it |
| Reconcile.MountPhaseMeaning | entrypoint.py:131-135 | after the mount loop the table holds the old names plus the names some entry mounted; old values are kept and new names map to their mount point; the commands are exactly those of the attempted entries, in list order |
| Reconcile.MountPhaseConsistent | entrypoint.py:131-135 | the mount loop keeps the table invariant |
| Reconcile.UnmountPhaseMeaning | entrypoint.py:137-139 | over the key snapshot, exactly the unlisted names are dropped and the others keep their values; the fusermount commands are exactly `ExpectedUnmountCalls` of the snapshot, one per unlisted name on a mount point, in snapshot order |
| Reconcile.ExpectedUnmountCallsMembers | entrypoint.py:137-139 | the reference unmount commands are those of the unlisted names on a mount point, and no others |
| Reconcile.ExpectedUnmountCallsDistinct | entrypoint.py:137-139 | over distinct names, no mount point's fusermount command is issued twice |
| Reconcile.ExpectedUnmountCallsListedTail | entrypoint.py:137-139 | listed names added to the end of the snapshot add no command |
| Reconcile.MountPhaseKeepsOrder | entrypoint.py:131-135 | the mount loop keeps every key the table held, and the key order before the loop is a prefix of the order after it |
| Reconcile.MountPhaseAppends | entrypoint.py:131-135 | every name the mount loop appends to the key order was not held before the loop and was mounted by an entry that carries it |
| Reconcile.SyncUnmountOrder | entrypoint.py:137 | the snapshot taken after the mount loop yields the same unmount commands as the keys held before the pass |
| Reconcile.MountedNamesAreListed | entrypoint.py:131-135 | a name that mounts during a pass is the name of a listed entry |
| Reconcile.ExpectedMountCallsMembers | entrypoint.py:131-135 | a mount-phase command is one of the commands of an attempted entry, and every such command occurs |
| Reconcile.SyncPassMeaning | entrypoint.py:128-139 | after a pass the table holds exactly the listed names that were held or mounted; the sshfs commands are those of the attempted entries; the fusermount commands are one per held, unlisted name on a mount point, in the table's key order, with no repeats; the invariant is kept |
| Reconcile.SyncDropsExactlyUnlistedNames | entrypoint.py:137-139 | a name held before a pass is dropped exactly when no entry carries it; when kept, its path is unchanged |
| Reconcile.SyncKeepsOnlyListedNames | entrypoint.py:128-139 | after a pass every key of the table is the name of some entry |
| Reconcile.SyncMountsOnlyMissingNames | entrypoint.py:134-135 | sshfs runs only for complete entries whose name was not in the table, each run with that entry's arguments |
| Reconcile.SuccessfulRunOfEntry | entrypoint.py:108-113 | a successful sshfs run in an entry's attempt is that entry's command, ending with its mount point |
| Reconcile.FirstMountedEntryRunsAlone | entrypoint.py:131-135 | entry by entry: once an entry mounts, no later entry with its name is attempted, and the only successful sshfs on that mount point is the first one's |
| Reconcile.FirstMountedEntryWins | entrypoint.py:131-135 | duplicate names: the first entry of a name that mounts is recorded and its successful sshfs run appears; later entries of that name run nothing |
| Reconcile.FailedMountIsRetried | entrypoint.py:114-116 | when every entry of a name fails, the name stays out of the table and the next pass attempts its first complete entry again |
| Reconcile.EmptyDesiredStateUnmountsEverything | entrypoint.py:77-87 | when the file is missing or unreadable, has no "servers" key or an empty list, a pass mounts nothing, empties the table and unmounts every held mount point |
| Reconcile.MountPhaseNoop | entrypoint.py:131-135 | over a converged table the mount loop runs nothing and changes nothing |
| Reconcile.UnmountPhaseNoop | entrypoint.py:137-139 | when every snapshot name is listed the unmount loop runs nothing and changes nothing |
| Reconcile.ConvergedIsFixpoint | entrypoint.py:128-139 | a pass over a converged table runs no command and leaves the table as it is, whatever the commands would answer |
| Reconcile.AllMountsSucceedConverges | entrypoint.py:128-139 | a pass in which every mount succeeds leaves a converged table |
| Reconcile.SyncIdempotent | entrypoint.py:128-139 | after a pass in which every mount succeeded, a second pass over the same list runs no command and changes nothing |
| Entrypoint.MountManager.constructor | entrypoint.py:14-21 | the key path and the configuration path come from the environment or the defaults; `current_mounts` starts empty |
| Entrypoint.MountManager.MountServer | entrypoint.py:89-116 | builds the command step by step and updates `current_mounts` exactly as `MountStep` says |
| Entrypoint.MountManager.UnmountServer | entrypoint.py:118-126 | runs fusermount and pops the entry exactly as `UnmountStep` says |
| Entrypoint.MountManager.SyncMounts | entrypoint.py:128-139 | the two loops leave `current_mounts` and the command trace equal to `SyncPass` of the old table |
| Entrypoint.MountManager.OnModified | entrypoint.py:141-145 | a pass runs exactly when the changed path ends with the configuration file's base name; otherwise nothing changes |
| SshdConfig.WithoutMembers | entrypoint.py:160-163 | the filter keeps exactly the lines it does not drop; a list with nothing to drop comes back whole |
| SshdConfig.WithoutAppend | entrypoint.py:160-163 | filtering works line by line across a split, so the kept lines keep their order |
| SshdConfig.KeyLineSetsKey | entrypoint.py:162-166 | a line `key value` for a required key is a line the rewrite removes |
| SshdConfig.RequiredLinesSetRequiredKeys | entrypoint.py:164-166 | each of the three appended lines is itself a line the rewrite removes |
| SshdConfig.FilterAgainAfterDroppedLines | entrypoint.py:160-166 | filtering again after appending only dropped lines gives the first filter's result |
| SshdConfig.PatchIdempotent | entrypoint.py:160-166 | on the line list, rewriting the rewritten lines gives the same lines (file level: see Findings) |
| SshdConfig.PatchLines | entrypoint.py:160-166 | the new line list ends with the three required lines, in dict order, and before them holds exactly the original lines that set none of the required keys, in order |
| SshdConfig.ReadLinesShape | entrypoint.py:158 | `readlines()` returns lines without inner newlines, each but the last ending with one, that join back to the text read |
| SshdConfig.ReadLinesConcat | entrypoint.py:158-168 | reading back what `writelines` wrote gives the same lines, for any list `readlines()` could return |
| SshdConfig.NotSetsRequiredKey | entrypoint.py:162 | a line that starts with neither white space nor `P` nor `A` sets none of the required keys |
| SshdConfig.UnterminatedLastLineGluesSetting | entrypoint.py:156-168 | the file `a\nb` is rewritten with `bPubkeyAuthentication yes` as one line, so no line sets that option, and a second rewrite changes the file again |
| SshdConfig.PatchFileTerminatedIdempotent | entrypoint.py:156-168 | with the last line ended first, the written file reads back with the three settings as its last lines, and rewriting it changes nothing |
| SshdConfig.PatchedTerminatedAgrees | entrypoint.py:160-166 | on lines whose last one ends with a newline, the corrected rewrite is the rewrite as written |
| SshSearch.FirstNamed | tools/mcp_ssh_search/server.py:37-43 | none when no entry has the folder's name; otherwise an entry with that name with no earlier entry of that name |
| SshSearch.FindServer | tools/mcp_ssh_search/server.py:37-41 | the loop with `break` returns the first entry named after the folder |
| SshSearch.SearchCommand | tools/mcp_ssh_search/server.py:69-73 | the remote command starts with `cd <remote_path> && `, contains the rg call (guarded by `command -v rg`) followed directly by `-e '<regex>' '<pattern>')`, and ends with the grep fallback `grep -r -n -H --include='<pattern>' '<regex>' .`, run when the rg call fails |
| SshSearch.SshArgv | tools/mcp_ssh_search/server.py:52-66 | `sshpass -p <password>` comes first exactly when the password is truthy; then ssh, `-p` with a port that parses back, `-o StrictHostKeyChecking=no` and `user@host`, with the remote command last |
| SshSearch.PasswordOnlyAddsPrefix | tools/mcp_ssh_search/server.py:52-66 | the password changes nothing but the three-word sshpass prefix |
| SshSearch.BuildSearchArgv | tools/mcp_ssh_search/server.py:46-74 | the list assembled step by step (the sshpass or plain ssh part, then the remote command appended) is the argument list `SshArgv` describes, with port 22 and remote path `.` when the entry gives none |
| SshSearch.RemoteSearch | tools/mcp_ssh_search/server.py:33-79 | no entry for the folder, a missing user and then a missing host are the three errors; otherwise the ssh command is built with port 22 and remote path `.` as defaults, and the search fails, reporting stderr, exactly when that command exits non-zero with empty stdout; otherwise the answer is its stdout |

## Findings

| source | as written | input that shows it | evidently intended | confidence | as-written member | corrected member |
|---|---|---|---|---|---|---|
| entrypoint.py:158-168 | the settings are appended right after the last line `readlines()` returned, which has no newline when the file does not end with one | `/etc/ssh/sshd_config` holding `a\nb` is written as `a\nbPubkeyAuthentication yes\n...`; read back, no line sets PubkeyAuthentication, and the next run appends the settings again | end the last line before appending, so that every setting is a line of its own and a second run leaves the file as it is | not executed; medium | SshdConfig.UnterminatedLastLineGluesSetting | SshdConfig.PatchFileTerminatedIdempotent |

`SshdConfig.PatchLines` models the code as written; `PatchedTerminated` and
`PatchFileTerminated` are the corrected rewrite, which agrees with it on every file that
ends with a newline (`SshdConfig.PatchedTerminatedAgrees`).

## Left out

- Reading and writing files, JSON parsing and the watchdog observer are left out. The file's content enters as a `ConfigFile`, and `patch_sshd_config` is modelled on the lines `readlines()` returns. The exception handler that logs a failed read or write of `/etc/ssh/sshd_config` is left out.
- A key that is present with JSON `null` is treated as an absent key. In Python, `server["user"]` with null is `None` rather than a `KeyError`, and `server.get("port", 22)` with null gives the string `None`. Non-string names and hosts, and string ports, are not modelled either.
- A `"servers"` value of JSON `null` is not modelled as the code behaves. There, `for server in servers` raises `TypeError` at entrypoint.py:131, outside `get_servers`'s handler, so the pass ends before mounting or unmounting anything. The model reads it as an absent key, which gives the empty list, and that pass unmounts everything.
- A list element that is not a JSON object is not modelled. `server.get` raises inside the first loop of `sync_mounts`, so the pass stops after the earlier entries' mounts and before any unmount.
- Exceptions other than sshfs's non-zero exit are not modelled. These are a missing `sshfs` binary or a failed `os.makedirs`, each of which would propagate out of `sync_mounts`. A failed fusermount is modelled, since it is logged and ignored.
- Logging, `ensure_ssh_key`, `ensure_ssh_dir_and_auth_keys`, `restart_sshd`, `start_sshd` and `main` are left out. These are key generation, ownership and permission changes, process supervision and the thread loop, with no decision logic that the mount table or the rewrite depends on.
- The code has no lock of its own, and none is needed. The startup pass (entrypoint.py:192) finishes before the observer starts (entrypoint.py:199-202). Every later pass runs on the observer's single thread, which handles one event at a time. Each pass is modelled as atomic.
- `list_folders` and the FastMCP wiring of `server.py` are left out; `list_folders` is a directory listing with no logic. `load_servers` there reads `/config/servers.json` and raises on a missing or malformed file; the model starts from the list that `config.get("servers", [])` returns.
- SshSearch.RemoteSearch: `file_pattern`'s default `"*"` is not modelled; the caller always passes the pattern. `run` is total, so the exception `subprocess.run` raises when `ssh` or `sshpass` is not installed is left out.
- Newline translation of text-mode files (`\r\n` read as `\n`) is not modelled; `ReadLines` cuts only at `\n`.
- SshSearch.SearchCommand: the command is built without shell quoting, so a regex or path holding quotes or shell metacharacters changes its meaning. The model states where each argument is placed and does not interpret the shell.
- Entrypoint.MountManager.OnModified: the event object is reduced to its `src_path`. The filter for directory events and for event kinds other than modification is watchdog's and is left out.
