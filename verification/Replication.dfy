/**
 A replica's configuration directory while bundles are applied to it, one system call at a
 time: backup copy, write of the temporary file, replace. Any call may fail, and the
 process may die between any two of them or in the middle of a write.
 */
module Replication {
  import opened Wrappers
  import opened TextFiles

  const CONFIG_FILES: seq<string> :=
    ["system.yaml", "network.yaml", "devices.yaml", "schedules.yaml", "plugins.yaml", "nodes.yaml"]

  predicate Managed(name: string) {
    name in CONFIG_FILES
  }

  lemma ManagedExactly(name: string)
    ensures Managed(name) <==>
            || name == "system.yaml" || name == "network.yaml" || name == "devices.yaml"
            || name == "schedules.yaml" || name == "plugins.yaml" || name == "nodes.yaml"
  {
    assert Managed(name) <==> exists i :: 0 <= i < 6 && CONFIG_FILES[i] == name;
  }

  function BackupName(name: string): string {
    name + ".bak"
  }

  function TempName(name: string): string {
    name + ".tmp"
  }

  type Directory = map<string, Content>

  datatype File = File(name: string, content: string)

  /** What the replica is doing: nothing, or applying the files still to come. */
  datatype Stage = BeforeBackup | BeforeWrite | BeforeReplace
  datatype Task = Idle | Applying(todo: seq<File>, stage: Stage)

  datatype Replica = Replica(disk: Directory, task: Task)

  /** What the environment decides at each step; events that do not fit are ignored. A
      failed or interrupted write leaves arbitrary content in the file being written. */
  datatype Event =
    | Receive(files: seq<File>)
    | SkipUnmanaged
    | BackupCopied
    | BackupSkipped
    | BackupFailed(left: Option<Content>)
    | Written
    | WriteFailed(left: Option<Content>)
    | Replaced
    | ReplaceFailed
    | Finished
    | Crash(left: Option<Content>)

  function Leave(disk: Directory, name: string, left: Option<Content>): Directory {
    if left.Some? then disk[name := left.value] else disk
  }

  predicate At(r: Replica, stage: Stage) {
    r.task.Applying? && r.task.stage == stage && r.task.todo != [] && Managed(r.task.todo[0].name)
  }

  function Step(r: Replica, e: Event): Replica {
    match e
    case Receive(files) =>
      if r.task.Idle? then r.(task := Applying(files, BeforeBackup)) else r
    case SkipUnmanaged =>
      if r.task.Applying? && r.task.todo != [] && !Managed(r.task.todo[0].name)
      then r.(task := Applying(r.task.todo[1..], BeforeBackup)) else r
    case BackupCopied =>
      if At(r, BeforeBackup) && r.task.todo[0].name in r.disk then
        var name := r.task.todo[0].name;
        Replica(r.disk[BackupName(name) := r.disk[name]], r.task.(stage := BeforeWrite))
      else r
    case BackupSkipped =>
      if At(r, BeforeBackup) then r.(task := r.task.(stage := BeforeWrite)) else r
    case BackupFailed(left) =>
      if At(r, BeforeBackup)
      then Replica(Leave(r.disk, BackupName(r.task.todo[0].name), left), r.task.(stage := BeforeWrite)) else r
    case Written =>
      if At(r, BeforeWrite)
      then Replica(r.disk[TempName(r.task.todo[0].name) := Utf8(r.task.todo[0].content)],
                   r.task.(stage := BeforeReplace))
      else r
    case WriteFailed(left) =>
      if At(r, BeforeWrite) then Replica(Leave(r.disk, TempName(r.task.todo[0].name), left), Idle) else r
    case Replaced =>
      if At(r, BeforeReplace) && TempName(r.task.todo[0].name) in r.disk then
        var name := r.task.todo[0].name;
        Replica(r.disk[name := r.disk[TempName(name)]] - {TempName(name)}, Applying(r.task.todo[1..], BeforeBackup))
      else r
    case ReplaceFailed =>
      if At(r, BeforeReplace) then r.(task := Idle) else r
    case Finished =>
      if r.task.Applying? && r.task.todo == [] then r.(task := Idle) else r
    case Crash(left) =>
      if At(r, BeforeBackup) then Replica(Leave(r.disk, BackupName(r.task.todo[0].name), left), Idle)
      else if At(r, BeforeWrite) then Replica(Leave(r.disk, TempName(r.task.todo[0].name), left), Idle)
      else r.(task := Idle)
  }

  function Run(r: Replica, events: seq<Event>): Replica {
    if events == [] then r
    else Step(Run(r, events[..|events| - 1]), events[|events| - 1])
  }

  lemma RunSnoc(r: Replica, events: seq<Event>, e: Event)
    ensures Run(r, events + [e]) == Step(Run(r, events), e)
  {
    assert (events + [e])[..|events|] == events;
  }

  lemma {:induction false} RunConcat(r: Replica, a: seq<Event>, b: seq<Event>)
    ensures Run(r, a + b) == Run(Run(r, a), b)
  {
    if b == [] {
      assert a + b == a;
    } else {
      assert (a + b)[..|a + b| - 1] == a + b[..|b| - 1];
      RunConcat(r, a, b[..|b| - 1]);
    }
  }

  lemma RunOne(r: Replica, e: Event)
    ensures Run(r, [e]) == Step(r, e)
  {
    assert [e][..0] == [];
  }

  lemma RunTwo(r: Replica, e: Event, f: Event)
    ensures Run(r, [e, f]) == Step(Step(r, e), f)
  {
    RunOne(r, e);
    assert [e, f][..1] == [e];
  }

  // ---------- names ----------

  lemma ManagedNamesEndInL(name: string)
    requires Managed(name)
    ensures name != "" && name[|name| - 1] == 'l'
  {
  }

  /** Neither a backup nor a temporary file is a managed file, or each other. */
  lemma NamesApart(a: string, b: string)
    requires Managed(a)
    ensures !Managed(TempName(a)) && !Managed(BackupName(a)) && TempName(a) != BackupName(b)
  {
    assert TempName(a)[|TempName(a)| - 1] == 'p' && BackupName(a)[|BackupName(a)| - 1] == 'k';
    assert BackupName(b)[|BackupName(b)| - 1] == 'k';
    if Managed(TempName(a)) {
      ManagedNamesEndInL(TempName(a));
    }
    if Managed(BackupName(a)) {
      ManagedNamesEndInL(BackupName(a));
    }
  }

  // ---------- safety ----------

  /** The bundle has this content for the file. */
  predicate Offers(files: seq<File>, name: string, content: Content) {
    content.Utf8? && File(name, content.text) in files
  }

  ghost predicate Received(events: seq<Event>, name: string, content: Content) {
    exists e <- events :: e.Receive? && Offers(e.files, name, content)
  }

  /** Half-applied bundles were received, and a temporary file about to be moved is whole. */
  ghost predicate TaskInv(r: Replica, events: seq<Event>) {
    r.task.Applying? ==>
      && (forall f <- r.task.todo :: Received(events, f.name, Utf8(f.content)))
      && (At(r, BeforeReplace) ==>
            && TempName(r.task.todo[0].name) in r.disk
            && r.disk[TempName(r.task.todo[0].name)] == Utf8(r.task.todo[0].content))
      && (r.task.stage != BeforeBackup ==> r.task.todo != [] && Managed(r.task.todo[0].name))
  }

  /** The file is as it was at the start, or whole as some received bundle has it. */
  ghost predicate WholeFile(start: Directory, r: Replica, events: seq<Event>, name: string) {
    || (name in start && name in r.disk && r.disk[name] == start[name])
    || (name !in start && name !in r.disk)
    || (name in r.disk && Received(events, name, r.disk[name]))
  }

  predicate IsWorkFile(path: string) {
    exists name <- CONFIG_FILES :: path == name || path == TempName(name) || path == BackupName(name)
  }

  lemma ReceivedMore(events: seq<Event>, e: Event, name: string, content: Content)
    requires Received(events, name, content)
    ensures Received(events + [e], name, content)
  {
    var x :| x in events && x.Receive? && Offers(x.files, name, content);
    assert x in events + [e];
  }

  lemma StepKeepsTask(r: Replica, events: seq<Event>, e: Event)
    requires TaskInv(r, events)
    ensures TaskInv(Step(r, e), events + [e])
  {
    var r' := Step(r, e);
    if r'.task.Applying? {
      forall f <- r'.task.todo
        ensures Received(events + [e], f.name, Utf8(f.content))
      {
        if r.task.Applying? {
          ReceivedMore(events, e, f.name, Utf8(f.content));
        } else {
          assert e in events + [e] && Offers(e.files, f.name, Utf8(f.content));
        }
      }
    }
  }

  /** A step changes a managed file only by moving a whole temporary file over it. */
  lemma StepTouches(r: Replica, events: seq<Event>, e: Event, path: string)
    requires TaskInv(r, events)
    ensures var r' := Step(r, e);
            || (path in r.disk && path in r'.disk && r'.disk[path] == r.disk[path])
            || (path !in r.disk && path !in r'.disk)
            || (IsWorkFile(path) &&
                (Managed(path) ==> r.task.Applying? && path in r'.disk && Offers(r.task.todo, path, r'.disk[path])))
  {
    if r.task.Applying? && r.task.todo != [] && Managed(r.task.todo[0].name) {
      var f := r.task.todo[0];
      NamesApart(f.name, f.name);
      assert f.name in CONFIG_FILES;
    }
  }

  /** Replica safety over runs: whatever fails and wherever the process dies, every managed
      file is as it was at first or whole as in some received bundle, and no name outside
      the managed files and their backup and temporary files is ever written. */
  lemma {:induction false} RunsAreSafe(start: Directory, events: seq<Event>)
    ensures var r := Run(Replica(start, Idle), events);
            && TaskInv(r, events)
            && (forall name <- CONFIG_FILES :: WholeFile(start, r, events, name))
            && (forall path :: !IsWorkFile(path) ==>
                  (path in r.disk <==> path in start) && (path in start ==> r.disk[path] == start[path]))
  {
    if events != [] {
      var earlier, e := events[..|events| - 1], events[|events| - 1];
      RunsAreSafe(start, earlier);
      var mid := Run(Replica(start, Idle), earlier);
      var r := Step(mid, e);
      assert events == earlier + [e];
      StepKeepsTask(mid, earlier, e);
      forall name <- CONFIG_FILES
        ensures WholeFile(start, r, events, name)
      {
        StepKeepsFileWhole(start, mid, earlier, e, name);
      }
      forall path | !IsWorkFile(path)
        ensures (path in r.disk <==> path in start) && (path in start ==> r.disk[path] == start[path])
      {
        StepTouches(mid, earlier, e, path);
      }
    }
  }

  lemma StepKeepsFileWhole(start: Directory, r: Replica, events: seq<Event>, e: Event, name: string)
    requires TaskInv(r, events) && WholeFile(start, r, events, name) && Managed(name)
    ensures WholeFile(start, Step(r, e), events + [e], name)
  {
    StepTouches(r, events, e, name);
    if name in r.disk && Received(events, name, r.disk[name]) {
      ReceivedMore(events, e, name, r.disk[name]);
    }
    var r' := Step(r, e);
    if r.task.Applying? && name in r'.disk && Offers(r.task.todo, name, r'.disk[name]) {
      ReceivedMore(events, e, name, r'.disk[name]);
    }
  }
}
