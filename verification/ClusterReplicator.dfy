/**
 Hash manifests, bundles, and their application to a replica's directory.
 */
module Replicator {
  import opened Wrappers
  import opened TextFiles
  import opened Replication

  /** The hash of a file's raw bytes. */
  type Digest = Content -> string

  datatype Entry = Entry(name: string, hash: string)

  function HashOf(digest: Digest, content: Content): (h: string)
    ensures h != ""
  {
    "sha256:" + digest(content)
  }

  /** What a node's hashes are computed from: mock files shadow the directory. */
  datatype Store = Store(mock: bool, mockFiles: map<string, string>, disk: Directory)

  function RawContent(s: Store, name: string): Option<Content> {
    if s.mock && name in s.mockFiles then Some(Utf8(s.mockFiles[name]))
    else if name in s.disk then Some(s.disk[name])
    else None
  }

  /** compute_file_hash: empty for a missing file. */
  function FileHash(digest: Digest, s: Store, name: string): string {
    var c := RawContent(s, name);
    if c.Some? then HashOf(digest, c.value) else ""
  }

  /** local_hashes.get(name, ""). */
  function LocalHash(digest: Digest, s: Store, name: string): string {
    if Managed(name) then FileHash(digest, s, name) else ""
  }

  /** What a bundle holds of a file: directory files as text mode reads them. */
  function Exported(s: Store, name: string): Option<string> {
    if s.mock && name in s.mockFiles then Some(s.mockFiles[name])
    else if name in s.disk && s.disk[name].Utf8? then Some(ReadText(s.disk[name].text))
    else None
  }

  /** Exporting this file raises: it is in the directory and does not decode. */
  predicate ExportRaises(s: Store, name: string) {
    !(s.mock && name in s.mockFiles) && name in s.disk && s.disk[name].Undecodable?
  }

  predicate DistinctNames(files: seq<File>) {
    forall i, j :: 0 <= i < j < |files| ==> files[i].name != files[j].name
  }

  predicate DistinctEntries(entries: seq<Entry>) {
    forall i, j :: 0 <= i < j < |entries| ==> entries[i].name != entries[j].name
  }

  /** The environment's part in the application of one file. */
  datatype CopyOutcome = CopyDone | CopyFails(left: Option<Content>)
  datatype WriteOutcome = WriteDone | WriteFails(left: Option<Content>)
  datatype Outcome = Outcome(copy: CopyOutcome, write: WriteOutcome, replaceWorks: bool)

  predicate Works(o: Outcome) {
    o.write.WriteDone? && o.replaceWorks
  }

  function Mismatches(digest: Digest, s: Store, manifest: seq<Entry>): seq<string> {
    if manifest == [] then []
    else
      var earlier, e := Mismatches(digest, s, manifest[..|manifest| - 1]), manifest[|manifest| - 1];
      if LocalHash(digest, s, e.name) != e.hash then earlier + [e.name] else earlier
  }

  /** dict.update: the last entry of a name counts. */
  function Updated(m: map<string, string>, files: seq<File>): map<string, string> {
    if files == [] then m
    else Updated(m, files[..|files| - 1])[files[|files| - 1].name := files[|files| - 1].content]
  }

  /** Where a node takes a file from: in mock mode a mock file shadows the directory's; a file
      that is nowhere has the empty hash and is not exported. */
  lemma ContentSource(digest: Digest, s: Store, name: string)
    ensures s.mock && name in s.mockFiles ==>
              && FileHash(digest, s, name) == "sha256:" + digest(Utf8(s.mockFiles[name]))
              && Exported(s, name) == Some(s.mockFiles[name])
    ensures !(s.mock && name in s.mockFiles) && name in s.disk ==>
              && FileHash(digest, s, name) == "sha256:" + digest(s.disk[name])
              && (s.disk[name].Utf8? ==> Exported(s, name) == Some(ReadText(s.disk[name].text)))
    ensures !(s.mock && name in s.mockFiles) && name !in s.disk ==>
              FileHash(digest, s, name) == "" && Exported(s, name) == None
  {
  }

  lemma {:induction false} UpdatedAt(m: map<string, string>, files: seq<File>, i: nat)
    requires DistinctNames(files) && i < |files|
    ensures files[i].name in Updated(m, files) && Updated(m, files)[files[i].name] == files[i].content
  {
    var n := |files| - 1;
    if i < n {
      UpdatedAt(m, files[..n], i);
    }
  }

  lemma {:induction false} UpdatedElsewhere(m: map<string, string>, files: seq<File>, name: string)
    requires forall i :: 0 <= i < |files| ==> files[i].name != name
    ensures name in Updated(m, files) <==> name in m
    ensures name in m ==> Updated(m, files)[name] == m[name]
  {
    if files != [] {
      UpdatedElsewhere(m, files[..|files| - 1], name);
    }
  }

  predicate SameAt(d: Directory, d': Directory, path: string) {
    (path in d <==> path in d') && (path in d ==> d'[path] == d[path])
  }

  /** The managed ones of the first n files hold their new content, all other managed files
      hold what they held. */
  ghost predicate AppliedPrefix(d: Directory, d': Directory, files: seq<File>, n: nat) {
    && n <= |files|
    && (forall i :: 0 <= i < n && Managed(files[i].name) ==>
          files[i].name in d' && d'[files[i].name] == Utf8(files[i].content))
    && (forall name :: Managed(name) && (forall i :: 0 <= i < n ==> files[i].name != name) ==> SameAt(d, d', name))
  }

  /** mid and d' differ at most in the work files of one managed file. */
  ghost predicate OnlyWorkFiles(mid: Directory, d': Directory, name: string) {
    forall path :: path != TempName(name) && path != BackupName(name) ==> SameAt(mid, d', path)
  }

  lemma StillPrefix(d: Directory, mid: Directory, d': Directory, files: seq<File>, k: nat)
    requires k < |files| && Managed(files[k].name)
    requires AppliedPrefix(d, mid, files, k) && OnlyWorkFiles(mid, d', files[k].name)
    ensures AppliedPrefix(d, d', files, k)
  {
    NamesApart(files[k].name, files[k].name);
    assert forall name :: Managed(name) ==> SameAt(mid, d', name);
  }

  /** The file now holds its new content, and only its work files changed otherwise. */
  ghost predicate Replaces(mid: Directory, d': Directory, f: File) {
    && f.name in d' && d'[f.name] == Utf8(f.content)
    && forall path :: path != f.name && path != TempName(f.name) && path != BackupName(f.name) ==> SameAt(mid, d', path)
  }

  lemma AfterBackup(d: Directory, mid: Directory, d': Directory, f: File)
    requires OnlyWorkFiles(d, mid, f.name)
    ensures OnlyWorkFiles(mid, d', f.name) ==> OnlyWorkFiles(d, d', f.name)
    ensures Replaces(mid, d', f) ==> Replaces(d, d', f)
  {
    assert forall path :: SameAt(d, mid, path) && SameAt(mid, d', path) ==> SameAt(d, d', path);
  }

  lemma NextPrefix(d: Directory, mid: Directory, d': Directory, files: seq<File>, k: nat)
    requires k < |files| && DistinctNames(files)
    requires AppliedPrefix(d, mid, files, k)
    requires if Managed(files[k].name) then Replaces(mid, d', files[k]) else d' == mid
    ensures AppliedPrefix(d, d', files, k + 1)
  {
    if Managed(files[k].name) {
      NamesApart(files[k].name, files[k].name);
      assert forall name :: Managed(name) && name != files[k].name ==> SameAt(mid, d', name);
    }
  }

  // ---------- backups ----------

  /** The backup of one file: a copy of what it held, if one was asked for and there was
      something to copy. Otherwise the backup path is as it was. */
  predicate BackedUp(d: Directory, d': Directory, name: string, backup: bool, copy: CopyOutcome) {
    var bak := BackupName(name);
    if backup && name in d then
      match copy
      case CopyDone => bak in d' && d'[bak] == d[name]
      case CopyFails(left) => if left.Some? then bak in d' && d'[bak] == left.value else SameAt(d, d', bak)
    else SameAt(d, d', bak)
  }

  /** The first n files are backed up; the backup paths of all other managed names are as they
      were. */
  ghost predicate BackedPrefix(d: Directory, d': Directory, files: seq<File>, n: nat, backup: bool,
                               outcomes: string -> Outcome) {
    && n <= |files|
    && (forall i :: 0 <= i < n && Managed(files[i].name) ==>
          BackedUp(d, d', files[i].name, backup, outcomes(files[i].name).copy))
    && (forall name :: Managed(name) && (forall i :: 0 <= i < n ==> files[i].name != name) ==>
          SameAt(d, d', BackupName(name)))
  }

  lemma BackupsApart(a: string, b: string)
    requires Managed(a) && Managed(b) && a != b
    ensures BackupName(a) != b && BackupName(a) != TempName(b) && BackupName(a) != BackupName(b)
  {
    NamesApart(a, b);
    NamesApart(b, a);
    assert BackupName(a)[..|a|] == a && BackupName(b)[..|b|] == b;
  }

  lemma OtherBackupsStay(mid: Directory, d': Directory, name: string, other: string)
    requires Managed(name) && Managed(other) && name != other && OnlyOwnPaths(mid, d', other)
    ensures SameAt(mid, d', BackupName(name))
  {
    BackupsApart(name, other);
  }

  /** One more file is done with: its backup is made from what it held at first, and no other
      backup is touched. */
  lemma NextBackup(d: Directory, mid: Directory, d': Directory, files: seq<File>, k: nat, backup: bool,
                   outcomes: string -> Outcome)
    requires k < |files| && DistinctNames(files)
    requires AppliedPrefix(d, mid, files, k) && BackedPrefix(d, mid, files, k, backup, outcomes)
    requires if Managed(files[k].name)
             then BackedUp(mid, d', files[k].name, backup, outcomes(files[k].name).copy)
                  && OnlyOwnPaths(mid, d', files[k].name)
             else d' == mid
    ensures BackedPrefix(d, d', files, k + 1, backup, outcomes)
  {
    var f := files[k];
    if Managed(f.name) {
      assert SameAt(d, mid, f.name) && SameAt(d, mid, BackupName(f.name));
      forall name | Managed(name) && name != f.name
        ensures SameAt(mid, d', BackupName(name))
      {
        OtherBackupsStay(mid, d', name, f.name);
      }
    }
  }

  /** So after an application with backups every file it reached, replaced or failed at, has
      its first content under the name with ".bak", if there was one and the copy worked; and
      without backups, or for a name that was absent, that path is as it was. */
  lemma BackupsMade(d: Directory, d': Directory, files: seq<File>, n: nat, backup: bool, outcomes: string -> Outcome,
                    name: string)
    requires BackedPrefix(d, d', files, n, backup, outcomes) && Managed(name)
    ensures backup && name in d && outcomes(name).copy.CopyDone?
            && (exists i :: 0 <= i < n && files[i].name == name) ==>
              name + ".bak" in d' && d'[name + ".bak"] == d[name]
    ensures !backup || name !in d ==> SameAt(d, d', name + ".bak")
  {
    if i :| 0 <= i < n && files[i].name == name {
      assert BackedUp(d, d', files[i].name, backup, outcomes(files[i].name).copy);
    }
  }

  /** Only the file itself, its temporary file and its backup changed. */
  ghost predicate OnlyOwnPaths(mid: Directory, d': Directory, name: string) {
    forall path :: path != name && path != TempName(name) && path != BackupName(name) ==> SameAt(mid, d', path)
  }

  lemma ConfigNamesDistinct(k: nat)
    requires k < |CONFIG_FILES|
    ensures CONFIG_FILES[k] !in CONFIG_FILES[..k]
  {
    assert CONFIG_FILES[0][2] == 's' && CONFIG_FILES[1][2] == 't' && CONFIG_FILES[2][2] == 'v';
    assert CONFIG_FILES[3][2] == 'h' && CONFIG_FILES[4][2] == 'u' && CONFIG_FILES[5][2] == 'd';
  }

  class ClusterReplicator {
    const mock: bool
    const digest: Digest
    var mockFiles: map<string, string>
    var disk: Directory

    constructor (mock: bool, digest: Digest, disk: Directory)
      ensures this.mock == mock && this.digest == digest && this.disk == disk && mockFiles == map[]
    {
      this.mock, this.digest, this.disk, mockFiles := mock, digest, disk, map[];
    }

    function Contents(): Store
      reads this
    {
      Store(mock, mockFiles, disk)
    }

    /** The hash dictionary: one entry per managed file that is there, and no other. */
    method ComputeHashes() returns (result: seq<Entry>)
      ensures DistinctEntries(result)
      ensures forall e <- result :: Managed(e.name) && e.hash == FileHash(digest, Contents(), e.name) != ""
      ensures forall name <- CONFIG_FILES :: FileHash(digest, Contents(), name) != "" ==>
                Entry(name, FileHash(digest, Contents(), name)) in result
    {
      result := [];
      for k := 0 to |CONFIG_FILES|
        invariant forall e <- result ::
                    e.name in CONFIG_FILES[..k] && e.hash == FileHash(digest, Contents(), e.name) != ""
        invariant DistinctEntries(result)
        invariant forall j :: 0 <= j < k && FileHash(digest, Contents(), CONFIG_FILES[j]) != "" ==>
                    Entry(CONFIG_FILES[j], FileHash(digest, Contents(), CONFIG_FILES[j])) in result
      {
        var fileHash := FileHash(digest, Contents(), CONFIG_FILES[k]);
        ConfigNamesDistinct(k);
        assert CONFIG_FILES[..k + 1] == CONFIG_FILES[..k] + [CONFIG_FILES[k]];
        if fileHash != "" {
          result := result + [Entry(CONFIG_FILES[k], fileHash)];
        }
      }
    }

    /** The bundle: every managed file that is there, as text mode reads it. None stands for
        the exception if one of them does not decode. */
    method ExportBundle() returns (bundle: Option<seq<File>>)
      ensures bundle.None? <==> exists name <- CONFIG_FILES :: ExportRaises(Contents(), name)
      ensures bundle.Some? ==>
                && (forall f <- bundle.value :: Managed(f.name) && Exported(Contents(), f.name) == Some(f.content))
                && (forall name <- CONFIG_FILES :: Exported(Contents(), name).Some? ==>
                      File(name, Exported(Contents(), name).value) in bundle.value)
                && DistinctNames(bundle.value)
    {
      var files: seq<File> := [];
      for k := 0 to |CONFIG_FILES|
        invariant forall f <- files :: f.name in CONFIG_FILES[..k] && Exported(Contents(), f.name) == Some(f.content)
        invariant forall j :: 0 <= j < k && Exported(Contents(), CONFIG_FILES[j]).Some? ==>
                    File(CONFIG_FILES[j], Exported(Contents(), CONFIG_FILES[j]).value) in files
        invariant forall j :: 0 <= j < k ==> !ExportRaises(Contents(), CONFIG_FILES[j])
        invariant DistinctNames(files)
      {
        var name := CONFIG_FILES[k];
        ConfigNamesDistinct(k);
        assert CONFIG_FILES[..k + 1] == CONFIG_FILES[..k] + [name];
        if mock && name in mockFiles {
          files := files + [File(name, mockFiles[name])];
        } else if name in disk {
          if disk[name].Undecodable? {
            assert ExportRaises(Contents(), name);
            return None;
          }
          files := files + [File(name, ReadText(disk[name].text))];
        }
      }
      return Some(files);
    }

    /** The names whose local hash differs from the manifest's, in manifest order. */
    method CompareManifest(manifest: seq<Entry>) returns (mismatched: seq<string>)
      ensures mismatched == Mismatches(digest, Contents(), manifest)
    {
      var localHashes := ComputeHashes();
      mismatched := [];
      for k := 0 to |manifest|
        invariant mismatched == Mismatches(digest, Contents(), manifest[..k])
      {
        assert manifest[..k + 1][..k] == manifest[..k];
        var localHash := GetHash(localHashes, manifest[k].name);
        if localHash != manifest[k].hash {
          mismatched := mismatched + [manifest[k].name];
        }
      }
      assert manifest[..|manifest|] == manifest;
    }

    method GetHash(localHashes: seq<Entry>, name: string) returns (hash: string)
      requires forall e <- localHashes :: Managed(e.name) && e.hash == FileHash(digest, Contents(), e.name) != ""
      requires forall n <- CONFIG_FILES :: FileHash(digest, Contents(), n) != "" ==>
                Entry(n, FileHash(digest, Contents(), n)) in localHashes
      ensures hash == LocalHash(digest, Contents(), name)
    {
      for k := 0 to |localHashes|
        invariant forall j :: 0 <= j < k ==> localHashes[j].name != name
      {
        if localHashes[k].name == name {
          assert localHashes[k] in localHashes;
          return localHashes[k].hash;
        }
      }
      assert forall e <- localHashes :: e.name != name;
      return "";
    }

    /** Copies the current file aside, if asked to and there is one; a failing copy is ignored. */
    method CopyBackup(todo: seq<File>, backup: bool, copy: CopyOutcome) returns (ghost e: Event)
      requires todo != [] && Managed(todo[0].name)
      modifies this`disk
      ensures Step(Replica(old(disk), Applying(todo, BeforeBackup)), e) == Replica(disk, Applying(todo, BeforeWrite))
      ensures OnlyWorkFiles(old(disk), disk, todo[0].name)
      ensures BackedUp(old(disk), disk, todo[0].name, backup, copy)
      ensures SameAt(old(disk), disk, TempName(todo[0].name))
    {
      var name := todo[0].name;
      NamesApart(name, name);
      if backup && name in disk {
        match copy {
          case CopyDone =>
            e := BackupCopied;
            disk := disk[BackupName(name) := disk[name]];
          case CopyFails(left) =>
            e := BackupFailed(left);
            disk := Leave(disk, BackupName(name), left);
        }
      } else {
        e := BackupSkipped;
      }
    }

    /** Writes the temporary file and moves it over the target; the backup is left alone. */
    method WriteAndReplace(todo: seq<File>, o: Outcome) returns (ok: bool, ghost events: seq<Event>)
      requires todo != [] && Managed(todo[0].name)
      modifies this`disk
      ensures Run(Replica(old(disk), Applying(todo, BeforeWrite)), events) ==
              Replica(disk, if ok then Applying(todo[1..], BeforeBackup) else Idle)
      ensures ok <==> Works(o)
      ensures !ok ==> OnlyWorkFiles(old(disk), disk, todo[0].name)
      ensures ok ==> Replaces(old(disk), disk, todo[0]) && TempName(todo[0].name) !in disk
      ensures SameAt(old(disk), disk, BackupName(todo[0].name))
    {
      var f := todo[0];
      ghost var start := Replica(disk, Applying(todo, BeforeWrite));
      NamesApart(f.name, f.name);
      match o.write {
        case WriteFails(left) =>
          RunOne(start, WriteFailed(left));
          disk := Leave(disk, TempName(f.name), left);
          return false, [WriteFailed(left)];
        case WriteDone =>
          disk := disk[TempName(f.name) := Utf8(f.content)];
      }
      if !o.replaceWorks {
        RunTwo(start, Written, ReplaceFailed);
        return false, [Written, ReplaceFailed];
      }
      RunTwo(start, Written, Event.Replaced);
      disk := disk[f.name := disk[TempName(f.name)]] - {TempName(f.name)};
      return true, [Written, Event.Replaced];
    }

    method ApplyFile(todo: seq<File>, backup: bool, o: Outcome) returns (ok: bool, ghost events: seq<Event>)
      requires todo != []
      modifies this`disk
      ensures Run(Replica(old(disk), Applying(todo, BeforeBackup)), events) ==
              Replica(disk, if ok then Applying(todo[1..], BeforeBackup) else Idle)
      ensures ok <==> Managed(todo[0].name) ==> Works(o)
      ensures !Managed(todo[0].name) ==> disk == old(disk)
      ensures Managed(todo[0].name) && !ok ==> OnlyWorkFiles(old(disk), disk, todo[0].name)
      ensures Managed(todo[0].name) && ok ==> Replaces(old(disk), disk, todo[0]) && TempName(todo[0].name) !in disk
      ensures Managed(todo[0].name) ==>
                && BackedUp(old(disk), disk, todo[0].name, backup, o.copy)
                && OnlyOwnPaths(old(disk), disk, todo[0].name)
    {
      ghost var start := Replica(disk, Applying(todo, BeforeBackup));
      if todo[0].name !in CONFIG_FILES {
        RunOne(start, SkipUnmanaged);
        return true, [SkipUnmanaged];
      }
      ghost var e := CopyBackup(todo, backup, o.copy);
      RunOne(start, e);
      ghost var mid := disk;
      ok, events := WriteAndReplace(todo, o);
      AfterBackup(old(disk), mid, disk, todo[0]);
      RunConcat(start, [e], events);
      events := [e] + events;
    }

    /** Applies a bundle; outcomes says what happens to each file's system calls. The trace
        shows the application as a run of the step machine; applied is the number of files
        done with before the first failure. */
    method ApplyBundle(files: seq<File>, backup: bool, outcomes: string -> Outcome)
      returns (ok: bool, ghost trace: seq<Event>, ghost applied: nat)
      requires DistinctNames(files)
      modifies this`disk, this`mockFiles
      ensures mock ==> ok && disk == old(disk) && mockFiles == Updated(old(mockFiles), files)
      ensures !mock ==> mockFiles == old(mockFiles)
      ensures !mock ==> Run(Replica(old(disk), Applying(files, BeforeBackup)), trace) == Replica(disk, Idle)
      ensures !mock ==> (ok <==> applied == |files|) && AppliedPrefix(old(disk), disk, files, applied)
      ensures !mock && (forall f <- files :: Works(outcomes(f.name))) ==> ok
      ensures !mock ==>
                BackedPrefix(old(disk), disk, files, if ok then |files| else applied + 1, backup, outcomes)
    {
      trace, applied := [], 0;
      if mock {
        mockFiles := Updated(mockFiles, files);
        return true, [], 0;
      }
      ghost var start := Replica(disk, Applying(files, BeforeBackup));
      assert files[0..] == files;
      for k := 0 to |files|
        invariant mockFiles == old(mockFiles) && applied == k
        invariant Run(start, trace) == Replica(disk, Applying(files[k..], BeforeBackup))
        invariant AppliedPrefix(old(disk), disk, files, k)
        invariant BackedPrefix(old(disk), disk, files, k, backup, outcomes)
      {
        ghost var mid, before := disk, trace;
        assert files[k..][1..] == files[k + 1..];
        ghost var events;
        ok, events := ApplyFile(files[k..], backup, outcomes(files[k].name));
        RunConcat(start, before, events);
        trace := before + events;
        NextBackup(old(disk), mid, disk, files, k, backup, outcomes);
        if !ok {
          StillPrefix(old(disk), mid, disk, files, k);
          return false, trace, k;
        }
        NextPrefix(old(disk), mid, disk, files, k);
        applied := k + 1;
      }
      RunSnoc(start, trace, Finished);
      return true, trace + [Finished], |files|;
    }
  }
}
