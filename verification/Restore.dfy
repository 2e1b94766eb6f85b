/** Restoring a backup over a server directory, one fallible rename at a time. */
module Restore {
  import opened Text
  import opened Properties

  /** A top-level entry: a file with its text, or a whole directory tree. */
  datatype Tree = File(text: string) | Folder(entries: map<string, Tree>)

  type Dir = map<string, Tree>

  const SUFFIX := ".bonghos-pre-restore"
  const PROPERTIES := "server.properties"

  datatype Scope = Full | World | Configuration

  // ----- what is selected ----------------------------------------------------

  /** The readable text of the directory's properties file. */
  function PropertiesOf(d: Dir): Option<string> {
    if PROPERTIES in d && d[PROPERTIES].File? then Some(d[PROPERTIES].text) else None
  }

  function WorldOf(d: Dir): string {
    WorldDir(PropertiesOf(d))
  }

  /** `worldNames`: the archive's name, the live one and the default, each once. */
  method WorldNames(staging: Dir, dest: Dir) returns (worlds: seq<string>)
    ensures forall w :: w in worlds <==> w in {WorldOf(staging), WorldOf(dest), "world"}
    ensures forall i, j :: 0 <= i < j < |worlds| ==> worlds[i] != worlds[j]
  {
    hide WorldDir;
    WorldDirCarries(PropertiesOf(staging));
    WorldDirCarries(PropertiesOf(dest));
    hide Carries, GoodWorld;
    worlds := [];
    var candidates := [WorldOf(staging), WorldOf(dest), "world"];
    for i := 0 to |candidates|
      invariant forall w :: w in worlds <==> w in candidates[..i]
      invariant forall a, b :: 0 <= a < b < |worlds| ==> worlds[a] != worlds[b]
    {
      assert candidates[..i + 1] == candidates[..i] + [candidates[i]];
      if candidates[i] !in worlds { worlds := worlds + [candidates[i]]; }
    }
    assert candidates[..|candidates|] == candidates;
  }

  /** `scopeWants`. */
  predicate Wanted(scope: Scope, name: string, worlds: set<string>) {
    match scope
    case World =>
      (exists w :: w in worlds && (name == w || w + "_" <= name))
      || name in {"playerdata", "stats", "advancements", "usercache.json"}
    case Configuration =>
      || name in {PROPERTIES, "eula.txt", "ops.json", "whitelist.json", "banned-players.json", "banned-ips.json",
                  "server-icon.png", "user_jvm_args.txt", "config", "defaultconfigs", "kubejs", "scripts"}
      || HasSuffix(name, ".sh") || HasSuffix(name, ".txt") || HasSuffix(name, ".cfg") || HasSuffix(name, ".toml")
    case Full => true
  }

  /** A world restore takes the world directories, their dimensions beside them, and the
      players' data; */
  lemma WantedWorldIff(name: string, worlds: set<string>)
    ensures Wanted(World, name, worlds) <==>
            || name in {"playerdata", "stats", "advancements", "usercache.json"}
            || name in worlds
            || exists w :: w in worlds && |w| < |name| && name[..|w|] == w && name[|w|] == '_'
  {
    forall w | w in worlds ensures w + "_" <= name <==> |w| < |name| && name[..|w|] == w && name[|w|] == '_' {
      Dimension(w, name);
    }
  }

  lemma Dimension(w: string, name: string)
    ensures w + "_" <= name <==> |w| < |name| && name[..|w|] == w && name[|w|] == '_'
  {
    if w + "_" <= name { assert name[..|w| + 1] == w + "_" && name[..|w|] == (w + "_")[..|w|]; }
  }

  /** a configuration restore the named files and directories and every script and settings
      file; a full one everything. */
  lemma WantedConfigurationIff(name: string, worlds: set<string>)
    ensures Wanted(Configuration, name, worlds) <==>
            || name in {"server.properties", "eula.txt", "ops.json", "whitelist.json", "banned-players.json",
                        "banned-ips.json", "server-icon.png", "user_jvm_args.txt"}
            || name in {"config", "defaultconfigs", "kubejs", "scripts"}
            || (exists stem :: name == stem + ".sh") || (exists stem :: name == stem + ".txt")
            || (exists stem :: name == stem + ".cfg") || (exists stem :: name == stem + ".toml")
    ensures Wanted(Full, name, worlds)
  {
    hide HasSuffix;
    SuffixIff(name, ".sh");
    SuffixIff(name, ".txt");
    SuffixIff(name, ".cfg");
    SuffixIff(name, ".toml");
  }

  lemma SuffixIff(name: string, suffix: string)
    ensures HasSuffix(name, suffix) <==> exists stem :: name == stem + suffix
  {
    if HasSuffix(name, suffix) {
      assert name == name[..|name| - |suffix|] + suffix;
    }
  }

  // ----- what must hold at every step ----------------------------------------

  predicate Same(a: Dir, b: Dir, name: string) {
    (name in a <==> name in b) && (name in a ==> a[name] == b[name])
  }

  /** The old content of a selected entry is at its own name or in its sidecar, or
      the archive's content has taken its place. */
  predicate EntrySafe(before: Dir, archive: Dir, now: Dir, name: string) {
    name in before && name in archive ==>
      || (name in now && now[name] in {before[name], archive[name]})
      || (name + SUFFIX in now && now[name + SUFFIX] == before[name])
  }

  predicate IsSidecar(selected: set<string>, name: string) {
    exists s :: s in selected && name == s + SUFFIX
  }

  /** Nothing has changed but the selected entries and their sidecars. */
  predicate OthersSame(before: Dir, selected: set<string>, now: Dir) {
    && (forall n :: n in before && n !in selected && !IsSidecar(selected, n) ==> Same(before, now, n))
    && (forall n :: n in now && n !in selected && !IsSidecar(selected, n) ==> Same(before, now, n))
  }

  /** Every selected entry is safe, and nothing else has changed but the sidecars. */
  ghost predicate Safe(before: Dir, archive: Dir, selected: set<string>, now: Dir) {
    (forall s :: s in selected ==> EntrySafe(before, archive, now, s)) && OthersSame(before, selected, now)
  }

  /** In full: the old content of a selected entry that the archive replaces is in place, or
      in the sidecar, or the archive's is in its place; an entry that is neither selected
      nor such a sidecar is there now exactly if it was, with the same content. */
  lemma SafeIff(before: Dir, archive: Dir, selected: set<string>, now: Dir)
    ensures Safe(before, archive, selected, now) <==>
            && (forall s :: s in selected && s in before && s in archive ==>
                  || (s in now && now[s] == before[s]) || (s in now && now[s] == archive[s])
                  || (s + SUFFIX in now && now[s + SUFFIX] == before[s]))
            && (forall n :: n !in selected && (forall s :: s in selected ==> n != s + ".bonghos-pre-restore") ==>
                  && (n in now <==> n in before) && (n in now ==> now[n] == before[n]))
  {
  }

  /** No selected name is the sidecar of another one and stands for a live entry. */
  predicate NoLiveSidecar(before: Dir, selected: set<string>) {
    forall s :: s in selected ==> !(s + SUFFIX in selected && s + SUFFIX in before)
  }

  /** The old or the archive's content is at the entry's own name. */
  predicate OwnSafe(before: Dir, archive: Dir, now: Dir, name: string) {
    name in before && name in archive ==> name in now && now[name] in {before[name], archive[name]}
  }

  /** The old content, if there was one, is still in place. */
  predicate Keeps(before: Dir, now: Dir, name: string) {
    name in before ==> name in now && now[name] == before[name]
  }

  /** Between two entries every selected entry is safe at its own name. */
  ghost predicate Ready(before: Dir, archive: Dir, selected: set<string>, now: Dir) {
    (forall s :: s in selected ==> OwnSafe(before, archive, now, s)) && OthersSame(before, selected, now)
  }

  lemma SuffixIsLonger(a: string, b: string)
    ensures a + SUFFIX == b + SUFFIX ==> a == b
    ensures a + SUFFIX != a
  {
    assert (a + SUFFIX)[..|a|] == a && (b + SUFFIX)[..|b|] == b;
    assert |a + SUFFIX| == |a| + |SUFFIX| && |b + SUFFIX| == |b| + |SUFFIX|;
  }

  /** Nothing but an entry and its sidecar has changed. */
  ghost predicate OnlyTouches(d: Dir, now: Dir, name: string) {
    forall n :: n != name && n != name + SUFFIX ==> Same(d, now, n)
  }

  lemma TouchesThrough(d: Dir, mid: Dir, now: Dir, name: string)
    requires OnlyTouches(d, mid, name) && OnlyTouches(mid, now, name)
    ensures OnlyTouches(d, now, name)
  {
    forall n | n != name && n != name + SUFFIX ensures Same(d, now, n) {
      assert Same(d, mid, n) && Same(mid, now, n);
    }
  }

  lemma Touched(d: Dir, now: Dir, name: string)
    requires forall n :: n != name && n != name + SUFFIX ==> Same(d, now, n)
    ensures OnlyTouches(d, now, name)
  {
  }

  /** The states the server directory went through since the log had `from` entries. */
  ghost predicate SafeSince(before: Dir, archive: Dir, selected: set<string>, trail: seq<Dir>, from: nat) {
    from <= |trail| && forall i :: from <= i < |trail| ==> Safe(before, archive, selected, trail[i])
  }

  /** Touching one entry and its sidecar only, and keeping that entry safe, keeps all safe. */
  lemma StaysSafe(before: Dir, archive: Dir, selected: set<string>, d: Dir, now: Dir, name: string)
    requires NoLiveSidecar(before, selected) && name in selected && Ready(before, archive, selected, d)
    requires OnlyTouches(d, now, name)
    requires EntrySafe(before, archive, now, name)
    ensures Safe(before, archive, selected, now)
  {
    forall s | s in selected ensures EntrySafe(before, archive, now, s) {
      if s != name && s != name + SUFFIX {
        assert OwnSafe(before, archive, d, s) && Same(d, now, s);
      }
    }
    hide EntrySafe, OwnSafe;
    OthersStaySame(before, selected, d, now, name);
  }

  lemma OthersStaySame(before: Dir, selected: set<string>, d: Dir, now: Dir, name: string)
    requires name in selected && OthersSame(before, selected, d) && OnlyTouches(d, now, name)
    ensures OthersSame(before, selected, now)
  {
    assert IsSidecar(selected, name + SUFFIX);
    forall n | n !in selected && !IsSidecar(selected, n) ensures Same(d, now, n) {}
    hide IsSidecar;
  }

  /** The work on one entry that found `d` and has come to `now`: it touched nothing
      else, and kept everything safe at each step if it was so at the start. */
  ghost predicate Sound(before: Dir, archive: Dir, selected: set<string>, name: string, d: Dir,
                        trail: seq<Dir>, from: nat, now: Dir) {
    && OnlyTouches(d, now, name)
    && (NoLiveSidecar(before, selected) && Keeps(before, d, name) && Ready(before, archive, selected, d) ==>
          SafeSince(before, archive, selected, trail, from) && Safe(before, archive, selected, now))
  }

  lemma SoundAtFirst(before: Dir, archive: Dir, selected: set<string>, name: string, d: Dir, trail: seq<Dir>)
    requires name in selected
    ensures Sound(before, archive, selected, name, d, trail, |trail|, d)
  {
    assert forall s :: OwnSafe(before, archive, d, s) ==> EntrySafe(before, archive, d, s);
    hide EntrySafe, OwnSafe, OthersSame;
  }

  lemma Stepped(before: Dir, archive: Dir, selected: set<string>, name: string, d: Dir,
                trail: seq<Dir>, from: nat, mid: Dir, now: Dir)
    requires name in selected && Sound(before, archive, selected, name, d, trail, from, mid)
    requires forall n :: n != name && n != name + SUFFIX ==> Same(mid, now, n)
    requires Keeps(before, d, name) ==> EntrySafe(before, archive, now, name)
    ensures Sound(before, archive, selected, name, d, trail + [now], from, now)
  {
    Touched(mid, now, name);
    TouchesThrough(d, mid, now, name);
    hide Safe, Ready, OnlyTouches, NoLiveSidecar, Same, EntrySafe, Keeps;
    if NoLiveSidecar(before, selected) && Keeps(before, d, name) && Ready(before, archive, selected, d) {
      StaysSafe(before, archive, selected, d, now, name);
    }
  }

  /** When the turn comes of a live entry whose place is empty already, because it was
      cleared as the sidecar of an earlier one, clearing its own sidecar leaves nothing
      of it. */
  lemma ArchivedSidecarIsLost(before: Dir, archive: Dir, selected: set<string>, d: Dir, name: string)
    requires name in selected && name in before && name in archive && name !in d
    ensures !Safe(before, archive, selected, d - {name + SUFFIX})
  {
    assert !EntrySafe(before, archive, d - {name + SUFFIX}, name);
  }

  function Sidecars(names: set<string>): set<string> {
    set s | s in names :: s + SUFFIX
  }

  /** The directory with some of the archive's entries put in and no sidecar of them left. */
  function Installed(before: Dir, archive: Dir, names: set<string>): Dir {
    before - Sidecars(names) + map n | n in names && n in archive :: archive[n]
  }

  lemma InstalledAt(before: Dir, archive: Dir, names: set<string>, n: string)
    ensures var d := Installed(before, archive, names);
            && (n in d <==> (n in names && n in archive) || (n in before && n !in Sidecars(names)))
            && (n in d ==> d[n] == if n in names && n in archive then archive[n] else before[n])
  {
  }

  /** The entry moved to its sidecar, if there is one. */
  function Aside(d: Dir, name: string): Dir {
    var d1 := d - {name + SUFFIX};
    if name in d1 then d1[name + SUFFIX := d1[name]] - {name} else d1
  }

  /** The operations on one entry, when none of them fails. */
  lemma InstalledOne(d: Dir, archive: Dir, name: string, now: Dir)
    requires name in archive && now == Aside(d, name)[name := archive[name]] - {name + SUFFIX}
    ensures now == Installed(d, archive, {name})
  {
    SuffixIsLonger(name, name);
    assert Sidecars({name}) == {name + SUFFIX};
    hide Installed, Sidecars;
    var i := Installed(d, archive, {name});
    forall n ensures (n in now <==> n in i) && (n in now ==> now[n] == i[n]) {
      InstalledAt(d, archive, {name}, n);
    }
  }

  /** Entries can be put in one by one, a sidecar's name after the name it belongs to. */
  lemma InstalledStep(before: Dir, archive: Dir, names: set<string>, name: string)
    requires name in archive && name + SUFFIX !in names
    ensures Installed(Installed(before, archive, names), archive, {name}) == Installed(before, archive, names + {name})
  {
    OneMoreSidecar(names, name);
    hide *;
    var mid := Installed(before, archive, names);
    var a, b := Installed(mid, archive, {name}), Installed(before, archive, names + {name});
    forall n ensures (n in a <==> n in b) && (n in a ==> a[n] == b[n]) {
      InstalledAt(before, archive, names, n);
      InstalledAt(mid, archive, {name}, n);
      InstalledAt(before, archive, names + {name}, n);
    }
  }

  lemma OneMoreSidecar(names: set<string>, name: string)
    ensures Sidecars(names + {name}) == Sidecars(names) + {name + SUFFIX} && Sidecars({name}) == {name + SUFFIX}
  {
  }

  /** A full restore of "a" and its sidecar's name over a live entry of that name passes
      through an unsafe step, unless some operation fails. */
  method RestoreLiveSidecar(disk: Disk, entries: seq<string>)
    requires "a" in disk.staging && "a" + SUFFIX in disk.staging && "a" + SUFFIX in disk.dest
    requires Lists(entries, disk.staging)
    modifies disk
    ensures disk.faults == old(disk.faults) ==>
              var selected := Selected(Full, old(disk.staging), old(disk.dest));
              !SafeSince(old(disk.dest), old(disk.staging), selected, disk.trail, |old(disk.trail)|)
  {
    ghost var selected := Selected(Full, disk.staging, disk.dest);
    assert "a" in selected && "a" + SUFFIX in selected;
    assert !NoLiveSidecar(disk.dest, selected);
    hide *;
    var _ := disk.RestoreBackup(Full, entries);
  }

  // ----- the order of a listing ----------------------------------------------

  /** The order of file names, byte by byte. */
  predicate Before(a: string, b: string) {
    b != [] && (a == [] || a[0] < b[0] || (a[0] == b[0] && Before(a[1..], b[1..])))
  }

  /** The first difference decides. */
  lemma {:induction false} FirstDifference(p: string, a: char, x: string, b: char, y: string)
    requires a != b
    ensures Before(p + [a] + x, p + [b] + y) <==> a < b
  {
    if p == [] {
      assert p + [a] + x == [a] + x && p + [b] + y == [b] + y;
    } else {
      FirstDifference(p[1..], a, x, b, y);
      assert (p + [a] + x)[1..] == p[1..] + [a] + x && (p + [b] + y)[1..] == p[1..] + [b] + y;
    }
  }

  /** A longer name never comes before what it begins with. */
  lemma {:induction false} LongerIsLater(a: string, more: string)
    ensures !Before(a + more, a)
  {
    if a != [] {
      LongerIsLater(a[1..], more);
      assert (a + more)[1..] == a[1..] + more;
    }
  }

  /** The entries of a directory listing: every name once, in order. */
  predicate Lists(entries: seq<string>, d: Dir) {
    && (forall i :: 0 <= i < |entries| ==> entries[i] in d)
    && (forall n :: n in d ==> n in entries)
    && (forall i, j :: 0 <= i < j < |entries| ==> entries[i] != entries[j] && Before(entries[i], entries[j]))
  }

  // ----- the disk ------------------------------------------------------------

  class Disk {
    var dest: Dir
    var staging: Dir
    ghost var trail: seq<Dir>  // the server directory after each operation
    ghost var faults: nat      // operations the system failed

    /** `os.RemoveAll` with its error ignored: it may remove nothing or only a part. */
    method RemoveAll(name: string)
      modifies this`dest, this`trail, this`faults
      ensures forall n :: n != name ==> Same(old(dest), dest, n)
      ensures faults == old(faults) ==> dest == old(dest) - {name}
      ensures old(faults) <= faults && trail == old(trail) + [dest]
    {
      var complete: bool := *;
      if complete {
        dest := dest - {name};
      } else {
        faults := faults + 1;
        if name in dest {
          var rest: Tree := *;
          dest := dest[name := rest];
        }
      }
      trail := trail + [dest];
    }

    /** `os.Rename` inside the server directory. */
    method Rename(from: string, to: string) returns (ok: bool)
      requires from != to
      modifies this`dest, this`trail, this`faults
      ensures ok ==> from in old(dest) && dest == old(dest)[to := old(dest)[from]] - {from}
      ensures !ok ==> dest == old(dest)
      ensures from in old(dest) ==> (ok <==> faults == old(faults))
      ensures old(faults) <= faults
      ensures forall n :: n != from && n != to ==> Same(old(dest), dest, n)
      ensures trail == old(trail) + [dest]
    {
      var works: bool := *;
      ok := works && from in dest;
      if !works { faults := faults + 1; }
      if ok { dest := dest[to := dest[from]] - {from}; }
      trail := trail + [dest];
    }

    /** `os.Rename` from staging into the server directory. */
    method MoveIn(name: string) returns (ok: bool)
      requires name in staging
      modifies this`dest, this`staging, this`trail, this`faults
      ensures ok ==> dest == old(dest)[name := old(staging)[name]] && staging == old(staging) - {name}
      ensures !ok ==> dest == old(dest) && staging == old(staging)
      ensures faults == old(faults) + if ok then 0 else 1
      ensures forall n :: n != name ==> Same(old(dest), dest, n)
      ensures trail == old(trail) + [dest]
    {
      ok := *;
      if ok {
        dest := dest[name := staging[name]];
        staging := staging - {name};
      } else {
        faults := faults + 1;
      }
      trail := trail + [dest];
    }

    /** The first half of one entry: clear the sidecar and move the old entry there. */
    method MoveAside(name: string, ghost before: Dir, ghost archive: Dir, ghost selected: set<string>)
      returns (ok: bool)
      requires name in selected
      modifies this`dest, this`trail, this`faults
      ensures old(trail) <= trail
      ensures Sound(before, archive, selected, name, old(dest), trail, |old(trail)|, dest)
      ensures ok ==> name !in dest
      ensures ok && name in old(dest) ==> name + SUFFIX in dest && dest[name + SUFFIX] == old(dest)[name]
      ensures if faults == old(faults) then ok && dest == Aside(old(dest), name) else old(faults) < faults
      ensures |old(trail)| < |trail| && (faults == old(faults) ==> trail[|old(trail)|] == old(dest) - {name + SUFFIX})
    {
      hide Sound;
      var aside := name + SUFFIX;
      SuffixIsLonger(name, name);
      ghost var d, from := dest, |trail|;
      SoundAtFirst(before, archive, selected, name, d, trail);
      RemoveAll(aside);
      assert Same(d, dest, name);
      Stepped(before, archive, selected, name, d, old(trail), from, d, dest);
      ok := true;
      if name in dest {
        ghost var d1, t1 := dest, trail;
        ok := Rename(name, aside);
        Stepped(before, archive, selected, name, d, t1, from, d1, dest);
      }
    }

    /** One entry of the restore loop: move the old one aside, the new one in, and
        clear the sidecar; on failure try to put the old one back. */
    method RestoreEntry(name: string, ghost before: Dir, ghost archive: Dir, ghost selected: set<string>)
      returns (ok: bool)
      requires name in selected && name in staging && name in archive && staging[name] == archive[name]
      modifies this
      ensures old(trail) <= trail
      ensures Sound(before, archive, selected, name, old(dest), trail, |old(trail)|, dest)
      ensures ok ==> name in dest && dest[name] == archive[name] && staging == old(staging) - {name}
      ensures !ok ==> staging == old(staging)
      ensures if faults == old(faults) then ok && dest == Installed(old(dest), archive, {name})
              else old(faults) < faults
      ensures |old(trail)| < |trail| && (faults == old(faults) ==> trail[|old(trail)|] == old(dest) - {name + SUFFIX})
    {
      hide Sound, Installed, Aside;
      var aside := name + SUFFIX;
      SuffixIsLonger(name, name);
      ghost var d, from := dest, |trail|;
      ok := MoveAside(name, before, archive, selected);
      if !ok { return; }
      ghost var d2, t2 := dest, trail;
      ok := MoveIn(name);
      Stepped(before, archive, selected, name, d, t2, from, d2, dest);
      ghost var d3, t3 := dest, trail;
      if !ok {
        var back := Rename(aside, name);
        Stepped(before, archive, selected, name, d, t3, from, d3, dest);
        return;
      }
      RemoveAll(aside);
      assert Same(d3, dest, name);
      Stepped(before, archive, selected, name, d, t3, from, d3, dest);
      if faults == old(faults) { InstalledOne(d, archive, name, dest); }
    }

    /** The loop of `Restore` over the extracted entries.  At every step on the way, and
        after a failure, the old content of each selected entry is still in place, beside
        it, or replaced, unless a selected name is a sidecar's and stands for a live
        entry: then it is not, in a run without any fault.  The loop only fails on a
        fault; on success every selected entry is the archive's, and without a fault
        exactly the selection is installed. */
    method RestoreEntries(scope: Scope, worlds: set<string>, entries: seq<string>)
      returns (ok: bool, restored: nat, ghost selected: set<string>)
      requires Lists(entries, staging)
      modifies this
      ensures selected == set n | n in old(staging) && Wanted(scope, n, worlds)
      ensures old(trail) <= trail
      ensures NoLiveSidecar(old(dest), selected) ==>
                && SafeSince(old(dest), old(staging), selected, trail, |old(trail)|)
                && Safe(old(dest), old(staging), selected, dest)
      ensures faults == old(faults) ==>
                (SafeSince(old(dest), old(staging), selected, trail, |old(trail)|)
                 <==> NoLiveSidecar(old(dest), selected))
      ensures OthersSame(old(dest), selected, dest)
      ensures ok ==> forall s :: s in selected ==> s in dest && dest[s] == old(staging)[s]
      ensures faults == old(faults) ==> dest == Installed(old(dest), old(staging), selected)
      ensures ok ==> restored == |selected| && staging == old(staging) - selected
      ensures old(faults) <= faults && (ok || old(faults) < faults)
      ensures selected == {} ==> ok && dest == old(dest)
    {
      hide Safe, NoLiveSidecar, Wanted, Lists, SafeSince, Sound, Progress, Installed, Taken, OthersSame;
      ghost var before, archive, from := dest, staging, |trail|;
      selected := set n | n in staging && Wanted(scope, n, worlds);
      NoneDone(before, archive, selected, trail);
      NoneTaken(scope, worlds);
      restored := 0;
      ghost var finished: set<string> := {};
      for i := 0 to |entries|
        invariant finished == Taken(scope, worlds, entries[..i])
        invariant finished <= selected && restored == |finished|
        invariant old(trail) <= trail && old(faults) <= faults
        invariant staging == archive - finished
        invariant finished == {} ==> dest == before
        invariant Progress(before, archive, selected, finished, faults == old(faults), trail, from, dest)
      {
        var name := entries[i];
        NextEntry(scope, worlds, entries, archive, i);
        if Wanted(scope, name, worlds) {
          restored := restored + 1;
          ghost var d, t, quiet := dest, trail, faults == old(faults);
          ok := RestoreEntry(name, before, archive, selected);
          EntryDone(before, archive, selected, finished, quiet, t, from, d, name, ok, faults == old(faults), trail,
                    dest);
          if !ok { return; }
          finished := finished + {name};
        }
      }
      AllListed(scope, worlds, entries, archive);
      AllDone(before, archive, selected, faults == old(faults), trail, from, dest);
      ok := true;
    }

    /** `Restore` after extraction: the entries, then the level name. */
    method RestoreBackup(scope: Scope, entries: seq<string>) returns (r: Outcome)
      requires Lists(entries, staging)
      modifies this
      ensures var selected := Selected(scope, old(staging), old(dest));
              && (r.Nothing? <==> selected == {})
              && (r.Nothing? ==> dest == old(dest))
              && (NoLiveSidecar(old(dest), selected) && r.RenameFailed? ==>
                    Safe(old(dest), old(staging), selected, dest))
              && (r.Restored? ==>
                    forall s :: s in selected && (scope == World ==> s != PROPERTIES) ==>
                      s in dest && dest[s] == old(staging)[s])
              && (r.Restored? && scope == World ==>
                    (WorldOf(dest) == WorldOf(old(staging)) <==> RepointWorks(old(staging), old(dest))))
              && OthersSame(old(dest), selected + if scope == World then {PROPERTIES} else {}, dest)
              && (faults == old(faults) && scope != World ==> dest == Installed(old(dest), old(staging), selected))
      ensures var selected := Selected(scope, old(staging), old(dest));
              && (NoLiveSidecar(old(dest), selected) ==>
                    SafeSince(old(dest), old(staging), selected, trail, |old(trail)|))
              && (faults == old(faults) ==>
                    (SafeSince(old(dest), old(staging), selected, trail, |old(trail)|)
                     <==> NoLiveSidecar(old(dest), selected)))
      ensures r.RenameFailed? ==> old(faults) < faults
      ensures r.NotRepointed? ==> scope == World && (PropertiesOf(dest).None? || old(faults) < faults)
    {
      hide Safe, NoLiveSidecar, WorldOf, Written, Wanted, Lists, Installed, SafeSince, IsSidecar, OthersSame;
      ghost var before, archive := dest, staging;
      var names := WorldNames(staging, dest);
      var worlds := set w | w in names;
      assert worlds == WorldSet(staging, dest);
      var ok, restored;
      ghost var selected;
      ok, restored, selected := RestoreEntries(scope, worlds, entries);
      if scope == World { OthersButProperties(before, selected, dest); }
      if !ok { return RenameFailed; }
      if restored == 0 { return Nothing; }
      if scope == World {
        var archiveWorld := WorldOf(staging);
        var current := WorldOf(dest);
        ghost var d := dest;
        AfterEntries(before, archive, dest, staging);
        if archiveWorld != current {
          var data := WriteProperty(PropertiesOf(dest), LEVEL_NAME, archiveWorld);
          var written: bool := *;
          if !written { faults := faults + 1; }
          if data.None? || !written { return NotRepointed; }
          Repointed(dest, staging, data.value);
          OthersButWritten(before, selected, dest, File(data.value));
          dest := dest[PROPERTIES := File(data.value)];
        }
      }
      r := Restored;
    }
  }

  lemma OthersButProperties(before: Dir, selected: set<string>, now: Dir)
    requires OthersSame(before, selected, now)
    ensures OthersSame(before, selected + {PROPERTIES}, now)
  {
    assert forall n :: IsSidecar(selected, n) ==> IsSidecar(selected + {PROPERTIES}, n);
  }

  lemma OthersButWritten(before: Dir, selected: set<string>, now: Dir, file: Tree)
    requires OthersSame(before, selected, now)
    ensures OthersSame(before, selected + {PROPERTIES}, now[PROPERTIES := file])
  {
    OthersButProperties(before, selected, now);
    hide IsSidecar;
  }

  datatype Outcome = Restored | Nothing | RenameFailed | NotRepointed

  /** The wanted ones among the names. */
  function Taken(scope: Scope, worlds: set<string>, names: seq<string>): set<string> {
    set n | n in names && Wanted(scope, n, worlds)
  }

  lemma NoneTaken(scope: Scope, worlds: set<string>)
    ensures Taken(scope, worlds, []) == {}
  {
  }

  lemma NextEntry(scope: Scope, worlds: set<string>, entries: seq<string>, d: Dir, i: nat)
    requires Lists(entries, d) && i < |entries|
    ensures var name, taken := entries[i], Taken(scope, worlds, entries[..i]);
            && name in d && name !in taken && name + SUFFIX !in taken
            && Taken(scope, worlds, entries[..i + 1]) == if Wanted(scope, name, worlds) then taken + {name} else taken
  {
    LongerIsLater(entries[i], SUFFIX);
    hide Wanted, Before;
  }

  lemma AllListed(scope: Scope, worlds: set<string>, entries: seq<string>, d: Dir)
    requires Lists(entries, d)
    ensures Taken(scope, worlds, entries[..|entries|]) == set n | n in d && Wanted(scope, n, worlds)
  {
    hide Before;
  }

  /** Between two entries: what is finished is the archive's, what is not is untouched,
      and with no fault so far nothing else has happened. */
  ghost predicate Progress(before: Dir, archive: Dir, selected: set<string>, finished: set<string>, quiet: bool,
                           trail: seq<Dir>, from: nat, now: Dir) {
    && OthersSame(before, selected, now)
    && (forall s :: s in finished ==> s in now && s in archive && now[s] == archive[s])
    && (quiet ==> now == Installed(before, archive, finished))
    && (NoLiveSidecar(before, selected) ==>
          && SafeSince(before, archive, selected, trail, from)
          && (forall s :: s in selected && s !in finished ==> Keeps(before, now, s)))
    && (quiet && !NoLiveSidecar(before, finished) ==> !SafeSince(before, archive, selected, trail, from))
  }

  lemma NoneDone(before: Dir, archive: Dir, selected: set<string>, trail: seq<Dir>)
    ensures Progress(before, archive, selected, {}, true, trail, |trail|, before)
  {
    hide Safe;
  }

  lemma SafeOn(before: Dir, archive: Dir, selected: set<string>, t: seq<Dir>, trail: seq<Dir>, from: nat)
    requires t <= trail && from <= |t|
    ensures SafeSince(before, archive, selected, t, from) && SafeSince(before, archive, selected, trail, |t|)
            <==> SafeSince(before, archive, selected, trail, from)
  {
    hide Safe;
    assert forall i :: from <= i < |t| ==> trail[i] == t[i];
  }

  lemma ProgressIsReady(before: Dir, archive: Dir, selected: set<string>, finished: set<string>, quiet: bool,
                        trail: seq<Dir>, from: nat, now: Dir)
    requires Progress(before, archive, selected, finished, quiet, trail, from, now) && NoLiveSidecar(before, selected)
    ensures Ready(before, archive, selected, now)
    ensures forall s :: s in selected && s !in finished ==> Keeps(before, now, s)
  {
    hide OthersSame, SafeSince, Installed, NoLiveSidecar;
  }

  /** One entry more, as far as it does not depend on what is selected. */
  lemma EntryInstalled(before: Dir, archive: Dir, finished: set<string>, d: Dir, name: string, now: Dir)
    requires name + SUFFIX !in finished && OnlyTouches(d, now, name) && name in now && name in archive
    requires now[name] == archive[name]
    requires forall s :: s in finished ==> s in d && s in archive && d[s] == archive[s]
    ensures forall s :: s in finished + {name} ==> s in now && s in archive && now[s] == archive[s]
  {
    forall s | s in finished && s != name ensures Same(d, now, s) {}
  }

  lemma UntouchedKept(before: Dir, selected: set<string>, finished: set<string>, d: Dir, name: string, now: Dir)
    requires NoLiveSidecar(before, selected) && name in selected && OnlyTouches(d, now, name)
    requires forall s :: s in selected && s !in finished ==> Keeps(before, d, s)
    ensures forall s :: s in selected && s !in finished + {name} ==> Keeps(before, now, s)
  {
    forall s | s in selected && s !in finished + {name} ensures Keeps(before, now, s) {
      assert Keeps(before, d, s) && (s != name + SUFFIX ==> Same(d, now, s));
    }
  }

  /** A live sidecar that is finished now either was so before, or is this entry, whose
      place an earlier one has emptied. */
  lemma LiveSidecarIsUnsafe(before: Dir, archive: Dir, selected: set<string>, finished: set<string>,
                            d: Dir, name: string, trail: seq<Dir>, at: nat)
    requires name in selected && name in archive && name !in finished && name + SUFFIX !in finished
    requires NoLiveSidecar(before, finished) && !NoLiveSidecar(before, finished + {name})
    requires d == Installed(before, archive, finished)
    requires at < |trail| && trail[at] == d - {name + SUFFIX}
    ensures !SafeSince(before, archive, selected, trail, at)
  {
    SuffixIsLonger(name, name);
    var s :| s in finished + {name} && s + SUFFIX in finished + {name} && s + SUFFIX in before;
    assert s in finished && s + SUFFIX == name;
    InstalledAt(before, archive, finished, name);
    assert name in Sidecars(finished);
    hide Installed, NoLiveSidecar;
    ArchivedSidecarIsLost(before, archive, selected, d, name);
    hide Safe;
  }

  lemma EntryDone(before: Dir, archive: Dir, selected: set<string>, finished: set<string>, quiet: bool,
                  t: seq<Dir>, from: nat, d: Dir, name: string, ok: bool, quiet': bool, trail: seq<Dir>, now: Dir)
    requires finished <= selected && name in selected && name !in finished && name in archive
    requires name + SUFFIX !in finished && from <= |t| < |trail| && t <= trail
    requires Progress(before, archive, selected, finished, quiet, t, from, d)
    requires Sound(before, archive, selected, name, d, trail, |t|, now)
    requires ok ==> name in now && now[name] == archive[name]
    requires quiet' ==> quiet && ok && now == Installed(d, archive, {name}) && trail[|t|] == d - {name + SUFFIX}
    ensures ok ==> Progress(before, archive, selected, finished + {name}, quiet', trail, from, now)
    ensures OthersSame(before, selected, now)
    ensures NoLiveSidecar(before, selected) ==>
              SafeSince(before, archive, selected, trail, from) && Safe(before, archive, selected, now)
  {
    OthersStaySame(before, selected, d, now, name);
    SafeOn(before, archive, selected, t, trail, from);
    if NoLiveSidecar(before, selected) {
      ProgressIsReady(before, archive, selected, finished, quiet, t, from, d);
      UntouchedKept(before, selected, finished, d, name, now);
    }
    if quiet' && NoLiveSidecar(before, finished) && !NoLiveSidecar(before, finished + {name}) {
      LiveSidecarIsUnsafe(before, archive, selected, finished, d, name, trail, |t|);
    }
    hide NoLiveSidecar, Safe, SafeSince, Installed, OthersSame, Ready, Keeps, IsSidecar;
    InstalledStep(before, archive, finished, name);
    if ok { EntryInstalled(before, archive, finished, d, name, now); }
    hide OnlyTouches;
  }

  lemma AllDone(before: Dir, archive: Dir, selected: set<string>, quiet: bool, trail: seq<Dir>, from: nat, now: Dir)
    requires Progress(before, archive, selected, selected, quiet, trail, from, now)
    ensures OthersSame(before, selected, now)
    ensures forall s :: s in selected ==> s in now && s in archive && now[s] == archive[s]
    ensures quiet ==> now == Installed(before, archive, selected)
    ensures NoLiveSidecar(before, selected) ==>
              SafeSince(before, archive, selected, trail, from) && Safe(before, archive, selected, now)
    ensures quiet ==> (SafeSince(before, archive, selected, trail, from) <==> NoLiveSidecar(before, selected))
  {
    hide OthersSame, SafeSince, Installed, NoLiveSidecar;
  }

  // ----- the level name ------------------------------------------------------

  function WorldSet(archive: Dir, before: Dir): set<string> {
    {WorldOf(archive), WorldOf(before), "world"}
  }

  function Selected(scope: Scope, archive: Dir, before: Dir): set<string> {
    set n | n in archive && Wanted(scope, n, WorldSet(archive, before))
  }

  /** Neither world is called like the properties file, unless the archive's is the
      default world. */
  predicate RepointWorks(archive: Dir, before: Dir) {
    WorldOf(archive) == "world" || PROPERTIES !in {WorldOf(archive), WorldOf(before)}
  }

  lemma PropertiesWanted(worlds: set<string>)
    ensures Wanted(World, PROPERTIES, worlds) <==> PROPERTIES in worlds
  {
    assert |PROPERTIES| == 17;
    forall w: string ensures !(w + "_" <= PROPERTIES) {
      assert |w| < 17 ==> (w + "_")[|w|] != PROPERTIES[|w|];
    }
  }

  /** What the two properties files say once the entries of a world-only restore are
      in place: a world called like the file has dragged the file along. */
  lemma AfterEntries(before: Dir, archive: Dir, dest: Dir, staging: Dir)
    requires var selected := Selected(World, archive, before);
             && OthersSame(before, selected, dest) && staging == archive - selected
             && forall s :: s in selected ==> s in dest && dest[s] == archive[s]
    ensures if PROPERTIES in {WorldOf(archive), WorldOf(before)} then WorldOf(staging) == "world"
            else WorldOf(staging) == WorldOf(archive)
  {
    var selected := Selected(World, archive, before);
    PropertiesWanted(WorldSet(archive, before));
    hide Wanted, Parse, Split;
    assert WorldDir(None) == "world";
    hide WorldDir;
  }

  /** After the rewrite the live world is the one written. */
  lemma Repointed(dest: Dir, staging: Dir, data: string)
    requires PropertiesOf(dest).Some?
    requires data == Written(PropertiesOf(dest).value, LEVEL_NAME, WorldOf(staging))
    ensures WorldOf(dest[PROPERTIES := File(data)]) == WorldOf(staging)
  {
    WorldDirAfterWrite(PropertiesOf(dest).value, PropertiesOf(staging));
    hide Written, WorldDir;
  }

  /** The condition can fail: an archive whose level name is "server.properties". */
  lemma RepointCanFail()
    ensures var archive := map[PROPERTIES := File(NewLine(LEVEL_NAME, PROPERTIES))];
            WorldOf(archive) == PROPERTIES && !RepointWorks(archive, map[])
  {
    PropertiesIsGoodWorld();
    WorldOfOneLine(PROPERTIES);
    hide NewLine, WorldDir, GoodWorld, Carries;
    assert PROPERTIES[0] != "world"[0];
  }

  lemma WorldOfOneLine(name: string)
    requires GoodWorld(name) && Carries(LEVEL_NAME, name)
    ensures WorldDir(Some(NewLine(LEVEL_NAME, name))) == name
  {
    var text := NewLine(LEVEL_NAME, name);
    NewLineParses(LEVEL_NAME, name);
    SplitOfPart(text, '\n');
    hide ParseLine, Split, GoodWorld, Carries, NewLine;
    assert [text][..0] == [] && Parse([]) == map[];
  }

  lemma PropertiesIsGoodWorld()
    ensures GoodWorld(PROPERTIES) && Carries(LEVEL_NAME, PROPERTIES)
  {
    hide GoodWorld, Carries;
    PropertiesHasOneDot();
    PropertiesIsPlain();
    LevelNameCarries(PROPERTIES);
  }

  lemma PropertiesIsPlain()
    ensures Trimmed(PROPERTIES) && '\n' !in PROPERTIES
  {
  }

  lemma PropertiesHasOneDot()
    ensures GoodWorld(PROPERTIES)
  {
    OneDot("server", "properties");
    hide Contains;
    assert PROPERTIES == "server" + "." + "properties";
  }

  lemma {:induction false} OneDot(a: string, b: string)
    requires '.' !in a && '.' !in b && b != []
    ensures !Contains(a + "." + b, "..")
  {
    var s := a + "." + b;
    if a == [] {
      assert s[1..] == b && s[1] != '.';
      assert !(".." <= s) by { assert ".."[1] == '.'; }
      NoDots(b);
    } else {
      assert s[0] != ".."[0] && s[1..] == a[1..] + "." + b;
      OneDot(a[1..], b);
    }
  }
}
