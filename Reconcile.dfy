/** One pass of sync_mounts as a function of the table before the pass, the configuration
    file and the outcome of every external command, and what that pass guarantees. */
module Reconcile {
  import opened Wrappers
  import opened Dicts
  import opened Servers
  import opened Mounting

  /** `name in current_mounts` for a name that may be absent (None is never a key). */
  predicate InTable(name: Option<string>, t: Table) {
    name.Some? && name.value in t.items
  }

  datatype Pass = Pass(table: Table, calls: seq<Call>)

  /** The first loop of sync_mounts over the first `n` entries: an entry whose name is not
      yet in the table goes to mount_server. `ok(i)` is the exit status sshfs would give
      for entry `i`. */
  function MountPhase(keyPath: string, t: Table, s: seq<ServerEntry>, ok: nat -> bool, n: nat): Pass
    requires n <= |s|
    decreases n
  {
    if n == 0 then Pass(t, [])
    else
      var p := MountPhase(keyPath, t, s, ok, n - 1);
      if InTable(s[n - 1].name, p.table) then p
      else
        var r := MountStep(keyPath, p.table, s[n - 1], ok(n - 1));
        Pass(r.table, p.calls + r.calls)
  }

  /** new_names after the first `n` entries: every entry's name, complete or not. */
  function ListedNames(s: seq<ServerEntry>, n: nat): set<Option<string>>
    requires n <= |s|
  {
    set i | 0 <= i < n :: s[i].name
  }

  /** The second loop of sync_mounts over the first `n` names of the key snapshot: a name
      no entry carries goes to unmount_server. */
  function UnmountPhase(t: Table, snapshot: seq<string>, listed: set<Option<string>>,
                        isMount: string -> bool, umountOk: string -> bool, n: nat): Pass
    requires n <= |snapshot|
    decreases n
  {
    if n == 0 then Pass(t, [])
    else
      var p := UnmountPhase(t, snapshot, listed, isMount, umountOk, n - 1);
      var name := snapshot[n - 1];
      if Some(name) in listed then p
      else
        var u := UnmountStep(p.table, name, isMount(MountPoint(name)), umountOk(MountPoint(name)));
        Pass(u.table, p.calls + u.calls)
  }

  lemma ListedNamesStep(s: seq<ServerEntry>, i: nat)
    requires i < |s|
    ensures ListedNames(s, i + 1) == ListedNames(s, i) + {s[i].name}
  {
  }

  datatype PassResult = PassResult(table: Table, mountCalls: seq<Call>, unmountCalls: seq<Call>)

  /** sync_mounts: load the list, mount what is missing, then unmount, in the table's own
      order, every name that no entry carries. */
  function SyncPass(keyPath: string, t: Table, config: ConfigFile, ok: nat -> bool,
                    isMount: string -> bool, umountOk: string -> bool): PassResult
  {
    var s := GetServers(config);
    var m := MountPhase(keyPath, t, s, ok, |s|);
    var u := UnmountPhase(m.table, m.table.order, ListedNames(s, |s|), isMount, umountOk, |m.table.order|);
    PassResult(u.table, m.calls, u.calls)
  }

  // ---------------------------------------------------------------------------------------
  // A reference description of the pass, entry by entry, without the table's evolution.

  /** Some entry of the list carries `name`. */
  predicate Listed(s: seq<ServerEntry>, name: string) {
    exists i :: 0 <= i < |s| && s[i].name == Some(name)
  }

  /** Entry `i` is complete and its sshfs call exits 0. */
  predicate Mounts(s: seq<ServerEntry>, ok: nat -> bool, i: nat)
    requires i < |s|
  {
    Complete(s[i]) && ok(i)
  }

  /** An entry before position `j` that carries `name` mounts. */
  predicate MountedBefore(s: seq<ServerEntry>, ok: nat -> bool, name: string, j: nat)
    requires j <= |s|
  {
    exists i :: 0 <= i < j && Mounts(s, ok, i) && s[i].name == Some(name)
  }

  /** Entry `j` runs sshfs: it is complete, its name was not in the table when the pass
      began, and no earlier entry with that name has mounted. */
  predicate Attempted(t: Table, s: seq<ServerEntry>, ok: nat -> bool, j: nat)
    requires j < |s|
  {
    Complete(s[j]) && s[j].name.value !in t.items && !MountedBefore(s, ok, s[j].name.value, j)
  }

  /** The effects of the attempted entries among the first `n`, in list order. */
  function ExpectedMountCalls(keyPath: string, t: Table, s: seq<ServerEntry>, ok: nat -> bool, n: nat): seq<Call>
    requires n <= |s|
  {
    if n == 0 then []
    else
      ExpectedMountCalls(keyPath, t, s, ok, n - 1)
        + (if Attempted(t, s, ok, n - 1) then AttemptCalls(keyPath, s[n - 1], ok(n - 1)) else [])
  }

  /** The fusermount commands for `names`, in their order: one for each name that no entry
      carries and whose path is a mount point. */
  function ExpectedUnmountCalls(names: seq<string>, s: seq<ServerEntry>, isMount: string -> bool,
                                umountOk: string -> bool): seq<Call>
  {
    if names == [] then []
    else
      var k := names[|names| - 1];
      ExpectedUnmountCalls(names[..|names| - 1], s, isMount, umountOk)
        + (if !Listed(s, k) && isMount(MountPoint(k)) then [Fusermount(FusermountArgv(k), umountOk(MountPoint(k)))] else [])
  }

  /** The table is the fixed point of a pass over `s`: it holds only listed names, and every
      complete entry's name. */
  ghost predicate Converged(t: Table, s: seq<ServerEntry>) {
    && (forall k :: k in t.items ==> Listed(s, k))
    && (forall i :: 0 <= i < |s| && Complete(s[i]) ==> s[i].name.value in t.items)
  }

  // ---------------------------------------------------------------------------------------
  // The pass agrees with the reference description.

  lemma ListedNamesMeaning(s: seq<ServerEntry>, name: string)
    ensures Some(name) in ListedNames(s, |s|) <==> Listed(s, name)
  {
    if Listed(s, name) {
      var i :| 0 <= i < |s| && s[i].name == Some(name);
      assert s[i].name in ListedNames(s, |s|);
    }
  }

  lemma MountedBeforeStep(s: seq<ServerEntry>, ok: nat -> bool, n: nat)
    requires 0 < n <= |s|
    ensures forall m :: (MountedBefore(s, ok, m, n)
                         <==> MountedBefore(s, ok, m, n - 1) || (Mounts(s, ok, n - 1) && s[n - 1].name == Some(m)))
  {
    forall m | MountedBefore(s, ok, m, n)
      ensures MountedBefore(s, ok, m, n - 1) || (Mounts(s, ok, n - 1) && s[n - 1].name == Some(m))
    {
      var i :| 0 <= i < n && Mounts(s, ok, i) && s[i].name == Some(m);
      if i < n - 1 {
        assert MountedBefore(s, ok, m, n - 1);
      }
    }
    forall m | Mounts(s, ok, n - 1) && s[n - 1].name == Some(m)
      ensures MountedBefore(s, ok, m, n)
    {
      assert 0 <= n - 1 < n;
    }
  }

  /** After the first `n` entries the table holds the names it held before and the names of
      the entries that mounted; a name it held keeps its path, a new one maps to its mount
      point; and the commands run are exactly those of the attempted entries. */
  lemma {:induction false} MountPhaseMeaning(keyPath: string, t: Table, s: seq<ServerEntry>, ok: nat -> bool, n: nat)
    requires n <= |s|
    ensures var p := MountPhase(keyPath, t, s, ok, n);
      && (forall m :: m in p.table.items <==> m in t.items || MountedBefore(s, ok, m, n))
      && (forall m :: m in p.table.items ==> p.table.items[m] == if m in t.items then t.items[m] else MountPoint(m))
      && p.calls == ExpectedMountCalls(keyPath, t, s, ok, n)
    decreases n
  {
    if n > 0 {
      MountPhaseMeaning(keyPath, t, s, ok, n - 1);
      MountedBeforeStep(s, ok, n);
      var prev := MountPhase(keyPath, t, s, ok, n - 1);
      var e := s[n - 1];
      if InTable(e.name, prev.table) {
        assert !Attempted(t, s, ok, n - 1);
      } else if Complete(e) {
        assert Attempted(t, s, ok, n - 1);
      } else {
        assert !Attempted(t, s, ok, n - 1);
      }
    }
  }

  lemma {:induction false} MountPhaseConsistent(keyPath: string, t: Table, s: seq<ServerEntry>, ok: nat -> bool, n: nat)
    requires n <= |s| && Consistent(t)
    ensures Consistent(MountPhase(keyPath, t, s, ok, n).table)
    decreases n
  {
    if n > 0 {
      MountPhaseConsistent(keyPath, t, s, ok, n - 1);
    }
  }

  /** After the first `n` names of the snapshot, the names dropped are exactly the unlisted
      ones among them, the others keep their paths, and the fusermount commands are those of
      the reference, in snapshot order. */
  lemma {:induction false} UnmountPhaseMeaning(t: Table, snapshot: seq<string>, s: seq<ServerEntry>,
                                              isMount: string -> bool, umountOk: string -> bool, n: nat)
    requires n <= |snapshot|
    ensures var p := UnmountPhase(t, snapshot, ListedNames(s, |s|), isMount, umountOk, n);
      && (forall k :: k in p.table.items <==> k in t.items && (Listed(s, k) || k !in snapshot[..n]))
      && (forall k :: k in p.table.items ==> p.table.items[k] == t.items[k])
      && (Consistent(t) ==> Consistent(p.table))
      && p.calls == ExpectedUnmountCalls(snapshot[..n], s, isMount, umountOk)
    decreases n
  {
    if n > 0 {
      UnmountPhaseMeaning(t, snapshot, s, isMount, umountOk, n - 1);
      ListedNamesMeaning(s, snapshot[n - 1]);
      assert snapshot[..n] == snapshot[..n - 1] + [snapshot[n - 1]];
      assert snapshot[..n][..n - 1] == snapshot[..n - 1];
      forall k | k != snapshot[n - 1] ensures Listed(s, k) || k !in snapshot[..n] <==> Listed(s, k) || k !in snapshot[..n - 1] {
      }
    }
  }

  /** The reference's commands are those of the unlisted names on a mount point, and no
      others. */
  lemma {:induction false} ExpectedUnmountCallsMembers(names: seq<string>, s: seq<ServerEntry>,
                                                      isMount: string -> bool, umountOk: string -> bool)
    ensures forall c :: c in ExpectedUnmountCalls(names, s, isMount, umountOk) <==>
              exists k :: k in names && !Listed(s, k) && isMount(MountPoint(k))
                       && c == Fusermount(FusermountArgv(k), umountOk(MountPoint(k)))
    decreases |names|
  {
    if names != [] {
      var init := names[..|names| - 1];
      ExpectedUnmountCallsMembers(init, s, isMount, umountOk);
      assert names == init + [names[|names| - 1]];
    }
  }

  /** With distinct names, no mount point is unmounted twice. */
  lemma {:induction false} ExpectedUnmountCallsDistinct(names: seq<string>, s: seq<ServerEntry>,
                                                       isMount: string -> bool, umountOk: string -> bool)
    requires Distinct(names)
    ensures Distinct(ExpectedUnmountCalls(names, s, isMount, umountOk))
    decreases |names|
  {
    if names != [] {
      var init := names[..|names| - 1];
      var k := names[|names| - 1];
      var calls := ExpectedUnmountCalls(init, s, isMount, umountOk);
      ExpectedUnmountCallsDistinct(init, s, isMount, umountOk);
      if !Listed(s, k) && isMount(MountPoint(k)) {
        var c := Fusermount(FusermountArgv(k), umountOk(MountPoint(k)));
        ExpectedUnmountCallsMembers(init, s, isMount, umountOk);
        assert c !in calls;
      }
    }
  }

  /** Listed names appended to the snapshot add no command. */
  lemma {:induction false} ExpectedUnmountCallsListedTail(a: seq<string>, b: seq<string>, s: seq<ServerEntry>,
                                                         isMount: string -> bool, umountOk: string -> bool)
    requires forall k :: k in b ==> Listed(s, k)
    ensures ExpectedUnmountCalls(a + b, s, isMount, umountOk) == ExpectedUnmountCalls(a, s, isMount, umountOk)
    decreases |b|
  {
    if b == [] {
      assert a + b == a;
    } else {
      var init := b[..|b| - 1];
      ExpectedUnmountCallsListedTail(a, init, s, isMount, umountOk);
      assert (a + b)[..|a + b| - 1] == a + init;
      assert (a + b)[|a + b| - 1] == b[|b| - 1];
    }
  }

  /** The mount loop keeps every key the table held and only appends to its key order. */
  lemma {:induction false} MountPhaseKeepsOrder(keyPath: string, t: Table, s: seq<ServerEntry>, ok: nat -> bool, n: nat)
    requires n <= |s|
    ensures var p := MountPhase(keyPath, t, s, ok, n);
      && (forall k :: k in t.items ==> k in p.table.items)
      && |t.order| <= |p.table.order| && p.table.order[..|t.order|] == t.order
    decreases n
  {
    if n > 0 {
      var p := MountPhase(keyPath, t, s, ok, n - 1);
      MountPhaseKeepsOrder(keyPath, t, s, ok, n - 1);
      if !InTable(s[n - 1].name, p.table) {
        var r := MountStep(keyPath, p.table, s[n - 1], ok(n - 1));
        if r.mounted {
          assert r.table.order == p.table.order + [s[n - 1].name.value];
          assert r.table.order[..|t.order|] == p.table.order[..|t.order|];
        }
      }
    }
  }

  /** What the mount loop appends to the key order are names the table did not hold and
      that an entry mounted. */
  lemma {:induction false} MountPhaseAppends(keyPath: string, t: Table, s: seq<ServerEntry>, ok: nat -> bool, n: nat)
    requires n <= |s|
    ensures var p := MountPhase(keyPath, t, s, ok, n);
      forall i :: |t.order| <= i < |p.table.order| ==>
        p.table.order[i] !in t.items && MountedBefore(s, ok, p.table.order[i], n)
    decreases n
  {
    if n > 0 {
      var p := MountPhase(keyPath, t, s, ok, n - 1);
      MountPhaseAppends(keyPath, t, s, ok, n - 1);
      MountPhaseKeepsOrder(keyPath, t, s, ok, n - 1);
      forall i | |t.order| <= i < |p.table.order| ensures MountedBefore(s, ok, p.table.order[i], n) {
        MountedBeforeGrows(s, ok, p.table.order[i], n);
      }
      if !InTable(s[n - 1].name, p.table) {
        var r := MountStep(keyPath, p.table, s[n - 1], ok(n - 1));
        if r.mounted {
          var name := s[n - 1].name.value;
          assert r.table.order == p.table.order + [name];
          assert Mounts(s, ok, n - 1) && s[n - 1].name == Some(name);
          assert MountedBefore(s, ok, name, n);
        }
      }
    }
  }

  lemma MountedBeforeGrows(s: seq<ServerEntry>, ok: nat -> bool, name: string, n: nat)
    requires 0 < n <= |s| && MountedBefore(s, ok, name, n - 1)
    ensures MountedBefore(s, ok, name, n)
  {
    var i :| 0 <= i < n - 1 && Mounts(s, ok, i) && s[i].name == Some(name);
  }


  /** A name that mounts during the pass is a listed name. */
  lemma MountedNamesAreListed(s: seq<ServerEntry>, ok: nat -> bool, name: string)
    requires MountedBefore(s, ok, name, |s|)
    ensures Listed(s, name)
  {
    var i :| 0 <= i < |s| && Mounts(s, ok, i) && s[i].name == Some(name);
  }

  /** The whole pass: the table afterwards holds exactly the listed names that it held before
      or that mounted, the sshfs commands are those of the attempted entries, and the
      fusermount commands are one per formerly held, now unlisted name on a mount point, in
      the table's key order, none of them repeated. */
  lemma SyncPassMeaning(keyPath: string, t: Table, config: ConfigFile, ok: nat -> bool,
                        isMount: string -> bool, umountOk: string -> bool)
    requires Consistent(t)
    ensures var s := GetServers(config);
            var r := SyncPass(keyPath, t, config, ok, isMount, umountOk);
      && Consistent(r.table)
      && (forall k :: k in r.table.items <==> Listed(s, k) && (k in t.items || MountedBefore(s, ok, k, |s|)))
      && r.mountCalls == ExpectedMountCalls(keyPath, t, s, ok, |s|)
      && r.unmountCalls == ExpectedUnmountCalls(t.order, s, isMount, umountOk)
      && Distinct(r.unmountCalls)
      && (forall c :: c in r.unmountCalls <==>
            exists k :: k in t.items && !Listed(s, k) && isMount(MountPoint(k))
                     && c == Fusermount(FusermountArgv(k), umountOk(MountPoint(k))))
  {
    var s := GetServers(config);
    var m := MountPhase(keyPath, t, s, ok, |s|);
    MountPhaseMeaning(keyPath, t, s, ok, |s|);
    MountPhaseConsistent(keyPath, t, s, ok, |s|);
    var snap := m.table.order;
    UnmountPhaseMeaning(m.table, snap, s, isMount, umountOk, |snap|);
    assert snap[..|snap|] == snap;
    forall k | MountedBefore(s, ok, k, |s|) ensures Listed(s, k) {
      MountedNamesAreListed(s, ok, k);
    }
    SyncUnmountOrder(keyPath, t, s, ok, isMount, umountOk);
    ExpectedUnmountCallsDistinct(t.order, s, isMount, umountOk);
    ExpectedUnmountCallsMembers(t.order, s, isMount, umountOk);
  }

  /** The unmount loop walks the snapshot taken after the mount loop, but the names that loop
      appended are listed, so the commands are those of the table's keys before the pass. */
  lemma SyncUnmountOrder(keyPath: string, t: Table, s: seq<ServerEntry>, ok: nat -> bool,
                         isMount: string -> bool, umountOk: string -> bool)
    ensures var m := MountPhase(keyPath, t, s, ok, |s|);
      ExpectedUnmountCalls(m.table.order, s, isMount, umountOk) == ExpectedUnmountCalls(t.order, s, isMount, umountOk)
  {
    var snap := MountPhase(keyPath, t, s, ok, |s|).table.order;
    MountPhaseKeepsOrder(keyPath, t, s, ok, |s|);
    MountPhaseAppends(keyPath, t, s, ok, |s|);
    var added := snap[|t.order|..];
    assert snap == t.order + added;
    forall k | k in added ensures Listed(s, k) {
      var i :| 0 <= i < |added| && added[i] == k;
      assert snap[|t.order| + i] == k;
      MountedNamesAreListed(s, ok, k);
    }
    ExpectedUnmountCallsListedTail(t.order, added, s, isMount, umountOk);
  }

  lemma {:induction false} ExpectedMountCallsMembers(keyPath: string, t: Table, s: seq<ServerEntry>, ok: nat -> bool, n: nat)
    requires n <= |s|
    ensures forall c :: c in ExpectedMountCalls(keyPath, t, s, ok, n) <==>
              exists j :: 0 <= j < n && Attempted(t, s, ok, j) && c in AttemptCalls(keyPath, s[j], ok(j))
    decreases n
  {
    if n > 0 {
      ExpectedMountCallsMembers(keyPath, t, s, ok, n - 1);
    }
  }

  // ---------------------------------------------------------------------------------------
  // What one pass guarantees.

  /** A name held before the pass is dropped exactly when no entry carries it, complete or
      not; when it stays, its mount path is unchanged. */
  lemma SyncDropsExactlyUnlistedNames(keyPath: string, t: Table, config: ConfigFile, ok: nat -> bool,
                                      isMount: string -> bool, umountOk: string -> bool)
    requires Consistent(t)
    ensures var s := GetServers(config);
            var r := SyncPass(keyPath, t, config, ok, isMount, umountOk);
      forall k :: k in t.items ==>
        && (k in r.table.items <==> Listed(s, k))
        && (k in r.table.items ==> r.table.items[k] == t.items[k])
  {
    SyncPassMeaning(keyPath, t, config, ok, isMount, umountOk);
  }

  /** After the pass every key of the table is the name of some entry of the list. */
  lemma SyncKeepsOnlyListedNames(keyPath: string, t: Table, config: ConfigFile, ok: nat -> bool,
                                 isMount: string -> bool, umountOk: string -> bool)
    requires Consistent(t)
    ensures var r := SyncPass(keyPath, t, config, ok, isMount, umountOk);
      forall k :: k in r.table.items ==> Listed(GetServers(config), k)
  {
    SyncPassMeaning(keyPath, t, config, ok, isMount, umountOk);
  }

  /** sshfs runs only for complete entries whose name was not in the table, and each of its
      runs is that entry's argument list. */
  lemma SyncMountsOnlyMissingNames(keyPath: string, t: Table, config: ConfigFile, ok: nat -> bool,
                                   isMount: string -> bool, umountOk: string -> bool)
    requires Consistent(t)
    ensures var s := GetServers(config);
            var r := SyncPass(keyPath, t, config, ok, isMount, umountOk);
      forall c :: c in r.mountCalls ==>
        exists j :: 0 <= j < |s| && Complete(s[j]) && s[j].name.value !in t.items
                 && c in AttemptCalls(keyPath, s[j], ok(j))
  {
    var s := GetServers(config);
    SyncPassMeaning(keyPath, t, config, ok, isMount, umountOk);
    ExpectedMountCallsMembers(keyPath, t, s, ok, |s|);
  }

  lemma SuccessfulRunOfEntry(keyPath: string, s: seq<ServerEntry>, ok: nat -> bool, j: nat, argv: seq<string>)
    requires j < |s| && Complete(s[j])
    requires Sshfs(argv, true) in AttemptCalls(keyPath, s[j], ok(j))
    ensures Mounts(s, ok, j) && argv == SshfsArgv(keyPath, s[j])
    ensures |argv| > 0 && argv[|argv| - 1] == MountPoint(s[j].name.value)
  {
    SshfsArgvShape(keyPath, s[j]);
  }

  /** The entry-by-entry view of the duplicate rule. */
  lemma {:induction false} FirstMountedEntryRunsAlone(keyPath: string, t: Table, s: seq<ServerEntry>, ok: nat -> bool, w: nat)
    requires w < |s|
    requires Mounts(s, ok, w) && s[w].name.value !in t.items && !MountedBefore(s, ok, s[w].name.value, w)
    ensures var name := s[w].name.value;
            var calls := ExpectedMountCalls(keyPath, t, s, ok, |s|);
      && Sshfs(SshfsArgv(keyPath, s[w]), true) in calls
      && (forall j :: w < j < |s| && s[j].name == Some(name) ==> !Attempted(t, s, ok, j))
      && (forall argv :: Sshfs(argv, true) in calls && |argv| > 0 && argv[|argv| - 1] == MountPoint(name) ==>
            argv == SshfsArgv(keyPath, s[w]))
  {
    var name := s[w].name.value;
    var calls := ExpectedMountCalls(keyPath, t, s, ok, |s|);
    ExpectedMountCallsMembers(keyPath, t, s, ok, |s|);
    assert Attempted(t, s, ok, w);
    assert Sshfs(SshfsArgv(keyPath, s[w]), true) in AttemptCalls(keyPath, s[w], ok(w));
    forall j | w < j < |s| && s[j].name == Some(name) ensures !Attempted(t, s, ok, j) {
      assert MountedBefore(s, ok, name, j) by {
        assert 0 <= w < j && Mounts(s, ok, w) && s[w].name == Some(name);
      }
    }
    forall argv | Sshfs(argv, true) in calls && |argv| > 0 && argv[|argv| - 1] == MountPoint(name)
      ensures argv == SshfsArgv(keyPath, s[w])
    {
      var j :| 0 <= j < |s| && Attempted(t, s, ok, j) && Sshfs(argv, true) in AttemptCalls(keyPath, s[j], ok(j));
      SuccessfulRunOfEntry(keyPath, s, ok, j, argv);
      MountPointInjective(s[j].name.value, name);
    }
  }

  /** Duplicate names: the first entry with a given name that mounts is the one recorded;
      later entries with that name run no command, and the only successful sshfs run on
      that mount point is the winner's. */
  lemma FirstMountedEntryWins(keyPath: string, t: Table, config: ConfigFile, ok: nat -> bool,
                              isMount: string -> bool, umountOk: string -> bool, w: nat)
    requires Consistent(t)
    requires w < |GetServers(config)|
    requires var s := GetServers(config);
      Mounts(s, ok, w) && s[w].name.value !in t.items && !MountedBefore(s, ok, s[w].name.value, w)
    ensures var s := GetServers(config);
            var r := SyncPass(keyPath, t, config, ok, isMount, umountOk);
            var name := s[w].name.value;
      && name in r.table.items && r.table.items[name] == MountPoint(name)
      && Sshfs(SshfsArgv(keyPath, s[w]), true) in r.mountCalls
      && (forall j :: w < j < |s| && s[j].name == Some(name) ==> !Attempted(t, s, ok, j))
      && (forall argv :: Sshfs(argv, true) in r.mountCalls && |argv| > 0 && argv[|argv| - 1] == MountPoint(name) ==>
            argv == SshfsArgv(keyPath, s[w]))
  {
    var s := GetServers(config);
    var name := s[w].name.value;
    SyncPassMeaning(keyPath, t, config, ok, isMount, umountOk);
    FirstMountedEntryRunsAlone(keyPath, t, s, ok, w);
    assert MountedBefore(s, ok, name, |s|) by {
      assert 0 <= w < |s| && Mounts(s, ok, w) && s[w].name == Some(name);
    }
    MountedNamesAreListed(s, ok, name);
  }

  /** Retry on failure: when every entry with a name fails to mount, the name stays out of
      the table, and the next pass over the same list runs sshfs for its first complete
      entry again. */
  lemma FailedMountIsRetried(keyPath: string, t: Table, config: ConfigFile, ok: nat -> bool,
                             isMount: string -> bool, umountOk: string -> bool, ok2: nat -> bool, j: nat)
    requires Consistent(t)
    requires j < |GetServers(config)|
    requires var s := GetServers(config);
      && Complete(s[j]) && s[j].name.value !in t.items
      && (forall i :: 0 <= i < j && Complete(s[i]) ==> s[i].name != s[j].name)
      && (forall i :: 0 <= i < |s| && s[i].name == s[j].name ==> !ok(i))
    ensures var s := GetServers(config);
            var r := SyncPass(keyPath, t, config, ok, isMount, umountOk);
      && Attempted(t, s, ok, j)
      && s[j].name.value !in r.table.items
      && Attempted(r.table, s, ok2, j)
  {
    SyncPassMeaning(keyPath, t, config, ok, isMount, umountOk);
  }

  /** A pass over an empty desired state (no file, an unreadable one, or an empty list)
      mounts nothing and leaves the table empty. */
  lemma EmptyDesiredStateUnmountsEverything(keyPath: string, t: Table, config: ConfigFile, ok: nat -> bool,
                                            isMount: string -> bool, umountOk: string -> bool)
    requires Consistent(t)
    requires config.Missing? || config.Unparsable? || config == Parsed(None) || config == Parsed(Some([]))
    ensures var r := SyncPass(keyPath, t, config, ok, isMount, umountOk);
      && r.table.items == map[]
      && r.mountCalls == []
      && (forall k :: k in t.items && isMount(MountPoint(k)) ==>
            Fusermount(FusermountArgv(k), umountOk(MountPoint(k))) in r.unmountCalls)
  {
    var r := SyncPass(keyPath, t, config, ok, isMount, umountOk);
    SyncPassMeaning(keyPath, t, config, ok, isMount, umountOk);
    assert GetServers(config) == [];
    assert r.table.items.Keys == {};
  }

  // ---------------------------------------------------------------------------------------
  // Idempotence.

  lemma {:induction false} MountPhaseNoop(keyPath: string, t: Table, s: seq<ServerEntry>, ok: nat -> bool, n: nat)
    requires n <= |s| && Converged(t, s)
    ensures MountPhase(keyPath, t, s, ok, n) == Pass(t, [])
    decreases n
  {
    if n > 0 {
      MountPhaseNoop(keyPath, t, s, ok, n - 1);
    }
  }

  lemma {:induction false} UnmountPhaseNoop(t: Table, snapshot: seq<string>, listed: set<Option<string>>,
                                           isMount: string -> bool, umountOk: string -> bool, n: nat)
    requires n <= |snapshot|
    requires forall j :: 0 <= j < n ==> Some(snapshot[j]) in listed
    ensures UnmountPhase(t, snapshot, listed, isMount, umountOk, n) == Pass(t, [])
    decreases n
  {
    if n > 0 {
      UnmountPhaseNoop(t, snapshot, listed, isMount, umountOk, n - 1);
    }
  }

  /** A converged table is a fixed point: a pass over its list runs no command and changes
      nothing, whatever the commands would have answered. */
  lemma ConvergedIsFixpoint(keyPath: string, t: Table, config: ConfigFile, ok: nat -> bool,
                            isMount: string -> bool, umountOk: string -> bool)
    requires Consistent(t) && Converged(t, GetServers(config))
    ensures SyncPass(keyPath, t, config, ok, isMount, umountOk) == PassResult(t, [], [])
  {
    var s := GetServers(config);
    MountPhaseNoop(keyPath, t, s, ok, |s|);
    forall j | 0 <= j < |t.order| ensures Some(t.order[j]) in ListedNames(s, |s|) {
      assert t.order[j] in t.items;
      ListedNamesMeaning(s, t.order[j]);
    }
    UnmountPhaseNoop(t, t.order, ListedNames(s, |s|), isMount, umountOk, |t.order|);
  }

  /** When every mount of a pass succeeds, the table it leaves is converged. */
  lemma AllMountsSucceedConverges(keyPath: string, t: Table, config: ConfigFile, ok: nat -> bool,
                                  isMount: string -> bool, umountOk: string -> bool)
    requires Consistent(t)
    requires forall i :: 0 <= i < |GetServers(config)| ==> ok(i)
    ensures Converged(SyncPass(keyPath, t, config, ok, isMount, umountOk).table, GetServers(config))
  {
    var s := GetServers(config);
    SyncPassMeaning(keyPath, t, config, ok, isMount, umountOk);
    forall i | 0 <= i < |s| && Complete(s[i])
      ensures Listed(s, s[i].name.value) && MountedBefore(s, ok, s[i].name.value, |s|)
    {
      assert Mounts(s, ok, i) && s[i].name == Some(s[i].name.value);
    }
  }

  /** Idempotence: after a pass in which every mount succeeded, a second pass over the same
      list runs no sshfs and no fusermount and leaves the table as it was. */
  lemma SyncIdempotent(keyPath: string, t: Table, config: ConfigFile, ok: nat -> bool,
                       isMount: string -> bool, umountOk: string -> bool,
                       ok2: nat -> bool, isMount2: string -> bool, umountOk2: string -> bool)
    requires Consistent(t)
    requires forall i :: 0 <= i < |GetServers(config)| ==> ok(i)
    ensures var first := SyncPass(keyPath, t, config, ok, isMount, umountOk);
            SyncPass(keyPath, first.table, config, ok2, isMount2, umountOk2) == PassResult(first.table, [], [])
  {
    SyncPassMeaning(keyPath, t, config, ok, isMount, umountOk);
    AllMountsSucceedConverges(keyPath, t, config, ok, isMount, umountOk);
    ConvergedIsFixpoint(keyPath, SyncPass(keyPath, t, config, ok, isMount, umountOk).table, config, ok2, isMount2, umountOk2);
  }
}
