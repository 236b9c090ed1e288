/**
 Whether replicas converge. A bundle carries files as text mode reads them, a manifest
 carries hashes of the raw files. The two agree exactly for files that decode and hold no
 carriage return, and that decides convergence.
 */
module AntiEntropy {
  import opened Wrappers
  import opened TextFiles
  import opened Replication
  import opened Replicator

  function OnDisk(disk: Directory): Store {
    Store(false, map[], disk)
  }

  /** The contract of ComputeHashes on the controller. */
  ghost predicate IsManifestOf(digest: Digest, controller: Directory, manifest: seq<Entry>) {
    && (forall e <- manifest :: Managed(e.name) && e.hash == FileHash(digest, OnDisk(controller), e.name) != "")
    && (forall name <- CONFIG_FILES :: name in controller ==> Entry(name, HashOf(digest, controller[name])) in manifest)
  }

  /** A manifest says of each file it lists the digest of its raw bytes, under its scheme. */
  lemma ManifestReads(digest: Digest, controller: Directory, manifest: seq<Entry>, e: Entry)
    requires IsManifestOf(digest, controller, manifest) && e in manifest
    ensures e.name in controller && e.hash == "sha256:" + digest(controller[e.name])
  {
  }

  ghost predicate IsBundleOf(controller: Directory, files: seq<File>) {
    && (forall f <- files :: Managed(f.name) && f.name in controller && controller[f.name].Utf8?
                             && f.content == ReadText(controller[f.name].text))
    && (forall name <- CONFIG_FILES :: name in controller ==>
          controller[name].Utf8? && File(name, ReadText(controller[name].text)) in files)
    && DistinctNames(files)
  }

  predicate Decodable(controller: Directory) {
    forall name <- CONFIG_FILES :: name in controller ==> controller[name].Utf8?
  }

  /** The contract of ExportBundle on the controller; None is its exception. */
  ghost predicate IsExportOf(controller: Directory, bundle: Option<seq<File>>) {
    && (bundle.None? <==> !Decodable(controller))
    && (bundle.Some? ==> IsBundleOf(controller, bundle.value))
  }

  /** The content survives being read in text mode. */
  predicate Portable(c: Content) {
    c.Utf8? && '\r' !in c.text
  }

  predicate AllPortable(controller: Directory) {
    forall name <- CONFIG_FILES :: name in controller ==> Portable(controller[name])
  }

  lemma PortableExactly(c: Content)
    ensures Portable(c) <==> c.Utf8? && Utf8(ReadText(c.text)) == c
  {
    if c.Utf8? {
      ReadTextFaithful(c.text);
    }
  }

  ghost predicate Injective(digest: Digest) {
    forall x, y :: digest(x) == digest(y) ==> x == y
  }

  /** The replica's copy of a file the controller has shows the controller's hash. */
  predicate Matches(digest: Digest, controller: Directory, disk: Directory, name: string)
    requires name in controller
  {
    name in disk && HashOf(digest, disk[name]) == HashOf(digest, controller[name])
  }

  lemma HashesEqual(digest: Digest, x: Content, y: Content)
    requires Injective(digest)
    ensures HashOf(digest, x) == HashOf(digest, y) <==> x == y
  {
    if HashOf(digest, x) == HashOf(digest, y) {
      assert HashOf(digest, x)[7..] == digest(x) && HashOf(digest, y)[7..] == digest(y);
    }
  }

  lemma {:induction false} MismatchListed(digest: Digest, s: Store, manifest: seq<Entry>, name: string)
    ensures name in Mismatches(digest, s, manifest) <==>
            exists e <- manifest :: e.name == name && LocalHash(digest, s, name) != e.hash
  {
    if manifest != [] {
      var earlier, e := manifest[..|manifest| - 1], manifest[|manifest| - 1];
      MismatchListed(digest, s, earlier, name);
      assert manifest == earlier + [e];
    }
  }

  /** Mismatches come in the order of the manifest. */
  lemma {:induction false} MismatchesInOrder(digest: Digest, s: Store, a: seq<Entry>, b: seq<Entry>)
    ensures Mismatches(digest, s, a + b) == Mismatches(digest, s, a) + Mismatches(digest, s, b)
  {
    if b == [] {
      assert a + b == a;
    } else {
      var n := |b| - 1;
      assert (a + b)[..|a + b| - 1] == a + b[..n] && (a + b)[|a + b| - 1] == b[n];
      MismatchesInOrder(digest, s, a, b[..n]);
    }
  }

  /** compare_manifest lists exactly the controller's files that do not match. */
  lemma MismatchExactly(digest: Digest, controller: Directory, manifest: seq<Entry>, disk: Directory, name: string)
    requires IsManifestOf(digest, controller, manifest)
    ensures name in Mismatches(digest, OnDisk(disk), manifest) <==>
            Managed(name) && name in controller && !Matches(digest, controller, disk, name)
  {
    MismatchListed(digest, OnDisk(disk), manifest, name);
    if Managed(name) && name in controller {
      assert Entry(name, HashOf(digest, controller[name])) in manifest;
    }
  }

  /** With an injective hash an empty mismatch list means equal contents. */
  lemma NoMismatchMeansEqual(digest: Digest, controller: Directory, manifest: seq<Entry>, disk: Directory)
    requires Injective(digest) && IsManifestOf(digest, controller, manifest)
    ensures Mismatches(digest, OnDisk(disk), manifest) == [] <==>
            forall name <- CONFIG_FILES :: name in controller ==> name in disk && disk[name] == controller[name]
  {
    var ms := Mismatches(digest, OnDisk(disk), manifest);
    forall name <- CONFIG_FILES | name in controller
      ensures name in ms <==> !(name in disk && disk[name] == controller[name])
    {
      MismatchExactly(digest, controller, manifest, disk, name);
      if name in disk {
        HashesEqual(digest, disk[name], controller[name]);
      }
    }
    if ms != [] {
      MismatchExactly(digest, controller, manifest, disk, ms[0]);
      assert ms[0] in ms;
    }
  }

  // ---------- one synchronisation ----------

  /** A synchronisation that gets through some prefix of the bundle, if there is one. */
  ghost predicate Attempt(bundle: Option<seq<File>>, d: Directory, d': Directory) {
    match bundle
    case None => d' == d
    case Some(files) => exists n: nat :: AppliedPrefix(d, d', files, n)
  }

  /** A synchronisation whose writes all work. */
  ghost predicate FullAttempt(bundle: Option<seq<File>>, d: Directory, d': Directory) {
    match bundle
    case None => d' == d
    case Some(files) => AppliedPrefix(d, d', files, |files|)
  }

  /** The replica has every file of the controller as text mode reads it. */
  predicate Synchronised(controller: Directory, d: Directory) {
    forall name <- CONFIG_FILES :: name in controller ==>
      name in d && controller[name].Utf8? && d[name] == Utf8(ReadText(controller[name].text))
  }

  lemma SyncSynchronises(controller: Directory, files: seq<File>, d: Directory, d': Directory)
    requires IsBundleOf(controller, files) && AppliedPrefix(d, d', files, |files|)
    ensures Synchronised(controller, d')
  {
    forall name <- CONFIG_FILES | name in controller
      ensures name in d' && d'[name] == Utf8(ReadText(controller[name].text))
    {
      var f := File(name, ReadText(controller[name].text));
      assert f in files;
      var i :| 0 <= i < |files| && files[i] == f;
      assert Managed(files[i].name);
    }
  }

  lemma SynchronisedMatchesExactly(digest: Digest, controller: Directory, manifest: seq<Entry>, d: Directory,
                                   name: string)
    requires Injective(digest) && IsManifestOf(digest, controller, manifest) && Synchronised(controller, d)
    ensures name in Mismatches(digest, OnDisk(d), manifest) <==>
            Managed(name) && name in controller && !Portable(controller[name])
  {
    MismatchExactly(digest, controller, manifest, d, name);
    if Managed(name) && name in controller {
      PortableExactly(controller[name]);
      HashesEqual(digest, d[name], controller[name]);
    }
  }

  /** A synchronised replica has exactly the files mismatched that are not portable. */
  lemma SynchronisedSettlesExactly(digest: Digest, controller: Directory, manifest: seq<Entry>, d: Directory)
    requires Injective(digest) && IsManifestOf(digest, controller, manifest) && Synchronised(controller, d)
    ensures forall name :: name in Mismatches(digest, OnDisk(d), manifest) <==>
              Managed(name) && name in controller && !Portable(controller[name])
    ensures Mismatches(digest, OnDisk(d), manifest) == [] <==> AllPortable(controller)
  {
    var ms := Mismatches(digest, OnDisk(d), manifest);
    forall name
      ensures name in ms <==> Managed(name) && name in controller && !Portable(controller[name])
    {
      SynchronisedMatchesExactly(digest, controller, manifest, d, name);
    }
    if ms != [] {
      assert ms[0] in ms;
    }
  }

  /** A synchronisation that was due and whose writes all work empties the mismatch list
      exactly if every managed file on the controller decodes and holds no carriage return.
      If they all decode, exactly the others stay mismatched; if one does not, there is no
      bundle and nothing changes. */
  lemma SyncConvergesExactly(digest: Digest, controller: Directory, manifest: seq<Entry>, bundle: Option<seq<File>>,
                             d: Directory, d': Directory)
    requires Injective(digest) && IsManifestOf(digest, controller, manifest) && IsExportOf(controller, bundle)
    requires Mismatches(digest, OnDisk(d), manifest) != [] && FullAttempt(bundle, d, d')
    ensures Mismatches(digest, OnDisk(d'), manifest) == [] <==> AllPortable(controller)
    ensures if Decodable(controller)
            then forall name :: name in Mismatches(digest, OnDisk(d'), manifest) <==>
                   Managed(name) && name in controller && !Portable(controller[name])
            else d' == d
  {
    if bundle.Some? {
      SyncSynchronises(controller, bundle.value, d, d');
      SynchronisedSettlesExactly(digest, controller, manifest, d');
    }
  }

  /** For any hash function, injective or not, portable files converge. */
  lemma SyncConverges(digest: Digest, controller: Directory, manifest: seq<Entry>, files: seq<File>,
                      d: Directory, d': Directory)
    requires IsManifestOf(digest, controller, manifest) && IsBundleOf(controller, files) && AllPortable(controller)
    requires AppliedPrefix(d, d', files, |files|)
    ensures Mismatches(digest, OnDisk(d'), manifest) == []
  {
    var ms := Mismatches(digest, OnDisk(d'), manifest);
    if ms != [] {
      var name := ms[0];
      MismatchExactly(digest, controller, manifest, d', name);
      SyncSynchronises(controller, files, d, d');
      PortableExactly(controller[name]);
    }
  }

  const ONE_FILE := "system.yaml"

  /** A failing input: a file with a carriage return is mismatched behind a synchronisation. */
  lemma CarriageReturnNeverMatches(digest: Digest)
    requires Injective(digest)
    ensures var controller := map[ONE_FILE := Utf8("a\r")];
            var manifest := [Entry(ONE_FILE, HashOf(digest, Utf8("a\r")))];
            && IsManifestOf(digest, controller, manifest)
            && IsExportOf(controller, Some([File(ONE_FILE, "a\n")]))
            && Mismatches(digest, OnDisk(map[ONE_FILE := Utf8("a\n")]), manifest) == [ONE_FILE]
  {
    assert ONE_FILE == CONFIG_FILES[0];
    assert "a\r"[1..] == "\r" && "\r"[1..] == "" && ReadText("\r") == "\n" && ReadText("a\r") == "a\n";
    HashesEqual(digest, Utf8("a\n"), Utf8("a\r"));
    assert "a\n"[1] != "a\r"[1];
    var manifest := [Entry(ONE_FILE, HashOf(digest, Utf8("a\r")))];
    assert manifest[..0] == [];
  }

  /** Another: for a file that does not decode there is no bundle to apply. */
  lemma UndecodableNeverMatches(digest: Digest)
    ensures var controller := map[ONE_FILE := Undecodable([255])];
            var manifest := [Entry(ONE_FILE, HashOf(digest, Undecodable([255])))];
            && IsManifestOf(digest, controller, manifest) && IsExportOf(controller, None)
            && Mismatches(digest, OnDisk(map[]), manifest) == [ONE_FILE] && FullAttempt(None, map[], map[])
  {
    assert ONE_FILE == CONFIG_FILES[0];
    var manifest := [Entry(ONE_FILE, HashOf(digest, Undecodable([255])))];
    assert manifest[..0] == [];
  }

  // ---------- partial applications ----------

  predicate NoNewMismatch(digest: Digest, controller: Directory, d: Directory, d': Directory) {
    forall name <- CONFIG_FILES :: name in controller && Matches(digest, controller, d, name) ==>
      Matches(digest, controller, d', name)
  }

  lemma PartialOutcome(controller: Directory, files: seq<File>, d: Directory, d': Directory, n: nat, name: string)
    requires IsBundleOf(controller, files) && AppliedPrefix(d, d', files, n) && Managed(name) && name in controller
    ensures controller[name].Utf8?
    ensures SameAt(d, d', name) || (name in d' && d'[name] == Utf8(ReadText(controller[name].text)))
  {
    if i :| 0 <= i < n && files[i].name == name {
      assert files[i] in files && Managed(files[i].name);
    }
  }

  function Overwritten(d: Directory, files: seq<File>): Directory {
    if files == [] then d
    else Overwritten(d, files[..|files| - 1])[files[|files| - 1].name := Utf8(files[|files| - 1].content)]
  }

  lemma {:induction false} OverwrittenIsApplied(d: Directory, files: seq<File>)
    requires DistinctNames(files)
    ensures AppliedPrefix(d, Overwritten(d, files), files, |files|)
  {
    if files != [] {
      var earlier := files[..|files| - 1];
      OverwrittenIsApplied(d, earlier);
      assert forall i :: 0 <= i < |earlier| ==> earlier[i] == files[i];
    }
  }

  lemma PartialKeepsMatches(digest: Digest, controller: Directory, bundle: Option<seq<File>>,
                            d: Directory, d': Directory)
    requires IsExportOf(controller, bundle) && AllPortable(controller) && Attempt(bundle, d, d')
    ensures NoNewMismatch(digest, controller, d, d')
  {
    if bundle.Some? {
      var n: nat :| AppliedPrefix(d, d', bundle.value, n);
      forall name <- CONFIG_FILES | name in controller && Matches(digest, controller, d, name)
        ensures Matches(digest, controller, d', name)
      {
        PartialOutcome(controller, bundle.value, d, d', n, name);
        PortableExactly(controller[name]);
      }
    }
  }

  /** A partial application never adds a mismatch, whatever the replica held, exactly if the
      controller's files are all portable, or one does not decode and nothing is applied. */
  lemma PartialAppliesNeverHurtExactly(digest: Digest, controller: Directory, bundle: Option<seq<File>>)
    requires Injective(digest) && IsExportOf(controller, bundle)
    ensures AllPortable(controller) || !Decodable(controller) <==>
            forall d, d' :: Attempt(bundle, d, d') ==> NoNewMismatch(digest, controller, d, d')
  {
    if AllPortable(controller) {
      forall d, d' | Attempt(bundle, d, d')
        ensures NoNewMismatch(digest, controller, d, d')
      {
        PartialKeepsMatches(digest, controller, bundle, d, d');
      }
    } else if Decodable(controller) {
      var files := bundle.value;
      var d' := Overwritten(controller, files);
      OverwrittenIsApplied(controller, files);
      SyncSynchronises(controller, files, controller, d');
      var name :| name in CONFIG_FILES && name in controller && !Portable(controller[name]);
      PortableExactly(controller[name]);
      HashesEqual(digest, d'[name], controller[name]);
      assert Attempt(bundle, controller, d');
      assert Matches(digest, controller, controller, name) && !Matches(digest, controller, d', name);
      assert !NoNewMismatch(digest, controller, controller, d');
    }
  }

  /** The same for the step machine, file by file: while the controller is unchanged, a
      portable file that matches keeps matching through every step, failure and crash. */
  lemma {:induction false} MatchesSurviveRuns(digest: Digest, controller: Directory, files: seq<File>,
                                              start: Directory, events: seq<Event>, name: string)
    requires IsBundleOf(controller, files) && forall e <- events :: e.Receive? ==> e.files == files
    requires Managed(name) && name in controller && Portable(controller[name])
    requires Matches(digest, controller, start, name)
    ensures Matches(digest, controller, Run(Replica(start, Idle), events).disk, name)
  {
    if events != [] {
      var earlier, e := events[..|events| - 1], events[|events| - 1];
      assert events == earlier + [e];
      MatchesSurviveRuns(digest, controller, files, start, earlier, name);
      RunsAreSafe(start, earlier);
      var mid := Run(Replica(start, Idle), earlier);
      StepTouches(mid, earlier, e, name);
      var d' := Step(mid, e).disk;
      if mid.task.Applying? && name in d' && Offers(mid.task.todo, name, d'[name]) {
        assert Received(earlier, name, d'[name]);
        assert File(name, d'[name].text) in files;
        PortableExactly(controller[name]);
      }
    }
  }

  // ---------- the loop ----------

  /** One pass of the anti-entropy part of the loop: nothing if nothing mismatches,
      otherwise a synchronisation that may stop anywhere. */
  ghost predicate Round(digest: Digest, manifest: seq<Entry>, bundle: Option<seq<File>>, d: Directory, d': Directory) {
    if Mismatches(digest, OnDisk(d), manifest) == [] then d' == d else Attempt(bundle, d, d')
  }

  ghost predicate Rounds(digest: Digest, manifest: seq<Entry>, bundle: Option<seq<File>>, ds: seq<Directory>) {
    forall i :: 0 <= i < |ds| - 1 ==> Round(digest, manifest, bundle, ds[i], ds[i + 1])
  }

  lemma RoundKeepsSynchronised(digest: Digest, controller: Directory, manifest: seq<Entry>, bundle: Option<seq<File>>,
                               d: Directory, d': Directory)
    requires IsExportOf(controller, bundle) && Synchronised(controller, d) && Round(digest, manifest, bundle, d, d')
    ensures Synchronised(controller, d')
  {
    if Mismatches(digest, OnDisk(d), manifest) != [] && bundle.Some? {
      var n: nat :| AppliedPrefix(d, d', bundle.value, n);
      forall name <- CONFIG_FILES | name in controller
        ensures name in d' && d'[name] == Utf8(ReadText(controller[name].text))
      {
        PartialOutcome(controller, bundle.value, d, d', n, name);
      }
    }
  }

  lemma {:induction false} RoundsStaySynchronised(digest: Digest, controller: Directory, manifest: seq<Entry>,
                                                  bundle: Option<seq<File>>, ds: seq<Directory>, j: nat)
    requires IsExportOf(controller, bundle) && Rounds(digest, manifest, bundle, ds) && j < |ds|
    requires Synchronised(controller, ds[0])
    ensures Synchronised(controller, ds[j])
  {
    if j > 0 {
      RoundsStaySynchronised(digest, controller, manifest, bundle, ds, j - 1);
      assert Round(digest, manifest, bundle, ds[j - 1], ds[j - 1 + 1]);
      RoundKeepsSynchronised(digest, controller, manifest, bundle, ds[j - 1], ds[j]);
    }
  }

  lemma {:induction false} RoundsWithoutBundle(digest: Digest, manifest: seq<Entry>, ds: seq<Directory>, j: nat)
    requires Rounds(digest, manifest, None, ds) && j < |ds|
    ensures ds[j] == ds[0]
  {
    if j > 0 {
      RoundsWithoutBundle(digest, manifest, ds, j - 1);
      assert Round(digest, manifest, None, ds[j - 1], ds[j - 1 + 1]);
    }
  }

  /** Behind one synchronisation that was due and whose writes all work, and with an unchanged
      controller, no later pass synchronises again exactly if the controller's managed files
      all decode and hold no carriage return; otherwise every later pass does, forever. */
  lemma LoopSettlesExactly(digest: Digest, controller: Directory, manifest: seq<Entry>, bundle: Option<seq<File>>,
                           d: Directory, ds: seq<Directory>, j: nat)
    requires Injective(digest) && IsManifestOf(digest, controller, manifest) && IsExportOf(controller, bundle)
    requires Mismatches(digest, OnDisk(d), manifest) != []
    requires ds != [] && FullAttempt(bundle, d, ds[0])
    requires Rounds(digest, manifest, bundle, ds) && j < |ds|
    ensures Mismatches(digest, OnDisk(ds[j]), manifest) == [] <==> AllPortable(controller)
    ensures if Decodable(controller) then Synchronised(controller, ds[j]) else ds[j] == d
  {
    if bundle.None? {
      RoundsWithoutBundle(digest, manifest, ds, j);
    } else {
      SyncSynchronises(controller, bundle.value, d, ds[0]);
      RoundsStaySynchronised(digest, controller, manifest, bundle, ds, j);
      SynchronisedSettlesExactly(digest, controller, manifest, ds[j]);
    }
  }

  // ---------- one pass between two nodes ----------

  /** Outside mock mode the mock files do not matter. */
  lemma {:induction false} MismatchesOnDisk(digest: Digest, s: Store, manifest: seq<Entry>)
    requires !s.mock
    ensures Mismatches(digest, s, manifest) == Mismatches(digest, OnDisk(s.disk), manifest)
  {
    if manifest != [] {
      MismatchesOnDisk(digest, s, manifest[..|manifest| - 1]);
    }
  }

  method FetchManifest(controller: ClusterReplicator) returns (manifest: seq<Entry>)
    requires !controller.mock
    ensures IsManifestOf(controller.digest, controller.disk, manifest)
  {
    manifest := controller.ComputeHashes();
  }

  method FetchBundle(controller: ClusterReplicator) returns (bundle: Option<seq<File>>)
    requires !controller.mock
    ensures IsExportOf(controller.disk, bundle)
  {
    bundle := controller.ExportBundle();
  }

  /** A replaced file's first content is kept as its backup, unless the copy failed. */
  predicate ReplacedAreBackedUp(d: Directory, d': Directory, outcomes: string -> Outcome) {
    forall name <- CONFIG_FILES :: name in d && !SameAt(d, d', name) && outcomes(name).copy.CopyDone? ==>
      name + ".bak" in d' && d'[name + ".bak"] == d[name]
  }

  lemma AppliedIsBackedUp(d: Directory, d': Directory, files: seq<File>, applied: nat, n: nat,
                          outcomes: string -> Outcome)
    requires AppliedPrefix(d, d', files, applied) && applied <= n && BackedPrefix(d, d', files, n, true, outcomes)
    ensures ReplacedAreBackedUp(d, d', outcomes)
  {
    forall name <- CONFIG_FILES | name in d && !SameAt(d, d', name) && outcomes(name).copy.CopyDone?
      ensures name + ".bak" in d' && d'[name + ".bak"] == d[name]
    {
      assert exists i :: 0 <= i < applied && files[i].name == name;
      BackupsMade(d, d', files, n, true, outcomes, name);
    }
  }

  /** The application of a fetched bundle, as an attempt of the loop above. */
  method ApplyFetched(replica: ClusterReplicator, files: seq<File>, outcomes: string -> Outcome)
    requires !replica.mock && DistinctNames(files)
    modifies replica
    ensures Attempt(Some(files), old(replica.disk), replica.disk)
    ensures (forall f <- files :: Works(outcomes(f.name))) ==>
              FullAttempt(Some(files), old(replica.disk), replica.disk)
    ensures ReplacedAreBackedUp(old(replica.disk), replica.disk, outcomes)
  {
    var ok, trace, applied := replica.ApplyBundle(files, true, outcomes);
    AppliedIsBackedUp(old(replica.disk), replica.disk, files, applied, if ok then |files| else applied + 1, outcomes);
  }

  /** The anti-entropy part of a pass, with everything fetched from an unchanged controller:
      a Round of the loop above, with backups. A pass whose writes all work leaves no mismatch
      exactly if there was none or the controller's files are portable. */
  method SyncPass(controller: ClusterReplicator, replica: ClusterReplicator, outcomes: string -> Outcome)
    returns (ghost manifest: seq<Entry>, ghost bundle: Option<seq<File>>)
    requires controller != replica && !controller.mock && !replica.mock && controller.digest == replica.digest
    modifies replica
    ensures IsManifestOf(replica.digest, controller.disk, manifest) && IsExportOf(controller.disk, bundle)
    ensures Round(replica.digest, manifest, bundle, old(replica.disk), replica.disk)
    ensures Injective(replica.digest) && (forall name <- CONFIG_FILES :: Works(outcomes(name))) ==>
              (Mismatches(replica.digest, OnDisk(replica.disk), manifest) == [] <==>
                 || Mismatches(replica.digest, OnDisk(old(replica.disk)), manifest) == []
                 || AllPortable(controller.disk))
    ensures ReplacedAreBackedUp(old(replica.disk), replica.disk, outcomes)
  {
    var hashes := FetchManifest(controller);
    var mismatched := replica.CompareManifest(hashes);
    var fetched := FetchBundle(controller);
    MismatchesOnDisk(replica.digest, replica.Contents(), hashes);
    manifest, bundle := hashes, fetched;
    if mismatched != [] && fetched.Some? {
      ApplyFetched(replica, fetched.value, outcomes);
    }
    if Injective(replica.digest) && mismatched != [] && FullAttempt(bundle, old(replica.disk), replica.disk) {
      SyncConvergesExactly(replica.digest, controller.disk, manifest, bundle, old(replica.disk), replica.disk);
    }
  }
}
