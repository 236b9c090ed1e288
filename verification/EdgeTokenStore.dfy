/**
 Bootstrap tokens live in a process-wide dictionary, in edge_tokens.json, and in whatever
 edge_tokens.json and edge_bootstrap.json lie in three more directories. Expiry times and
 token ids are the "exp" and "jti" of RFC 7519, sections 4.1.4 and 4.1.7.
 */
module EdgeTokens {
  import opened Wrappers

  type Tokens = map<string, real>

  const VAR_DIR := "/var/lib/roostos"
  const TMP_DIR := "/tmp/roostos"
  const TOKENS_FILE := "edge_tokens.json"

  datatype Bootstrap = Bootstrap(jti: string, exp: real)

  /** The two files of a directory; an absent or unreadable token file names no token. */
  datatype DirFiles = DirFiles(tokens: Tokens, bootstrap: Option<Bootstrap>)

  /** The directories that exist. */
  type Disk = map<string, DirFiles>

  datatype Paths = Paths(stateDir: string, stateName: string, configDir: string)

  datatype Store = Store(globals: Tokens, disk: Disk)

  function CandidateDirs(p: Paths): seq<string> {
    [p.stateDir, VAR_DIR, p.configDir, TMP_DIR]
  }

  /** The directories consume_token clears of the token's bootstrap file. */
  function ClearedDirs(p: Paths): seq<string> {
    [p.stateDir, VAR_DIR, TMP_DIR]
  }

  /** The state file is one that load_tokens reads. */
  predicate StateIsRead(p: Paths) {
    p.stateName == TOKENS_FILE && p.stateDir != ""
  }

  function Unexpired(m: Tokens, now: real): Tokens {
    map k | k in m && m[k] > now :: m[k]
  }

  function BootstrapTokens(b: Option<Bootstrap>, now: real): Tokens {
    if b.Some? && b.value.jti != "" && b.value.exp > now then map[b.value.jti := b.value.exp] else map[]
  }

  function DirTokens(f: DirFiles, now: real): Tokens {
    Unexpired(f.tokens, now) + BootstrapTokens(f.bootstrap, now)
  }

  /** Directory after directory, each once, later ones overriding. */
  function LoadDirs(disk: Disk, dirs: seq<string>, now: real): Tokens {
    if dirs == [] then map[]
    else
      var earlier, d := dirs[..|dirs| - 1], dirs[|dirs| - 1];
      if d == "" || d in earlier || d !in disk then LoadDirs(disk, earlier, now)
      else LoadDirs(disk, earlier, now) + DirTokens(disk[d], now)
  }

  function Load(p: Paths, s: Store, now: real): Tokens {
    LoadDirs(s.disk, CandidateDirs(p), now) + Unexpired(s.globals, now)
  }

  function FilesOf(disk: Disk, d: string): DirFiles {
    if d in disk then disk[d] else DirFiles(map[], None)
  }

  /** The atomic replace; a failing one leaves everything as it was. */
  function Save(p: Paths, disk: Disk, tokens: Tokens, works: bool): Disk {
    if works && StateIsRead(p) then disk[p.stateDir := FilesOf(disk, p.stateDir).(tokens := tokens)] else disk
  }

  function Record(p: Paths, s: Store, jti: string, exp: real, now: real, works: bool): Store {
    var s1 := s.(globals := s.globals[jti := exp]);
    s1.(disk := Save(p, s1.disk, Load(p, s1, now)[jti := exp], works))
  }

  function ClearBootstrap(disk: Disk, d: string, jti: string, works: bool): Disk {
    if works && d in disk && disk[d].bootstrap.Some? && disk[d].bootstrap.value.jti == jti
    then disk[d := disk[d].(bootstrap := None)]
    else disk
  }

  /** Whether the removal in each of the cleared directories works. */
  type Removals = r: seq<bool> | |r| == 3 witness [true, true, true]

  function ClearBootstraps(disk: Disk, dirs: seq<string>, jti: string, removes: seq<bool>): Disk
    requires |removes| == |dirs|
  {
    if dirs == [] then disk
    else
      var n := |dirs| - 1;
      ClearBootstrap(ClearBootstraps(disk, dirs[..n], jti, removes[..n]), dirs[n], jti, removes[n])
  }

  function Consume(p: Paths, s: Store, jti: string, now: real, works: bool, removes: Removals): Store {
    var s1 := s.(globals := s.globals - {jti});
    s1.(disk := ClearBootstraps(Save(p, s1.disk, Load(p, s1, now) - {jti}, works), ClearedDirs(p), jti, removes))
  }

  // ---------- what is loaded ----------

  predicate NamedIn(f: DirFiles, k: string, now: real) {
    || (k in f.tokens && f.tokens[k] > now)
    || (f.bootstrap.Some? && f.bootstrap.value.jti == k && k != "" && f.bootstrap.value.exp > now)
  }

  lemma {:induction false} LoadDirsExactly(disk: Disk, dirs: seq<string>, now: real, k: string)
    ensures k in LoadDirs(disk, dirs, now) <==>
            exists d <- dirs :: d != "" && d in disk && NamedIn(disk[d], k, now)
  {
    if dirs != [] {
      var earlier, d := dirs[..|dirs| - 1], dirs[|dirs| - 1];
      LoadDirsExactly(disk, earlier, now, k);
      assert dirs == earlier + [d];
    }
  }

  /** A token is loaded exactly if it is unexpired in memory or in some candidate file. */
  lemma LoadExactly(p: Paths, s: Store, now: real, k: string)
    ensures k in Load(p, s, now) <==>
            || (k in s.globals && s.globals[k] > now)
            || exists d <- CandidateDirs(p) :: d != "" && d in s.disk && NamedIn(s.disk[d], k, now)
  {
    LoadDirsExactly(s.disk, CandidateDirs(p), now, k);
  }

  /** The same with the directories spelled out. */
  lemma LoadedFromExactly(p: Paths, s: Store, now: real, k: string)
    ensures k in Load(p, s, now) <==>
            || (k in s.globals && s.globals[k] > now)
            || exists d <- s.disk ::
                 && d != "" && NamedIn(s.disk[d], k, now)
                 && (d == p.stateDir || d == p.configDir || d == "/var/lib/roostos" || d == "/tmp/roostos")
  {
    LoadExactly(p, s, now, k);
    var dirs := CandidateDirs(p);
    assert forall d :: d in dirs <==> d == dirs[0] || d == dirs[1] || d == dirs[2] || d == dirs[3];
  }

  // ---------- what consuming leaves behind ----------

  /** Some removal in that directory works. */
  predicate Removed(dirs: seq<string>, removes: seq<bool>, d: string)
    requires |removes| == |dirs|
  {
    exists i :: 0 <= i < |dirs| && dirs[i] == d && removes[i]
  }

  lemma {:induction false} ClearedExactly(disk: Disk, dirs: seq<string>, jti: string, removes: seq<bool>, d: string)
    requires |removes| == |dirs|
    ensures var disk' := ClearBootstraps(disk, dirs, jti, removes);
            && (d in disk' <==> d in disk)
            && (d in disk ==>
                  var b := disk[d].bootstrap;
                  disk'[d] == if Removed(dirs, removes, d) && b.Some? && b.value.jti == jti
                              then disk[d].(bootstrap := None) else disk[d])
  {
    if dirs != [] {
      var n := |dirs| - 1;
      ClearedExactly(disk, dirs[..n], jti, removes[..n], d);
      assert Removed(dirs, removes, d) <==> Removed(dirs[..n], removes[..n], d) || (dirs[n] == d && removes[n]);
    }
  }

  /** With the directories spelled out: removals that work clear the token's bootstrap file
      from the state file's directory, /var/lib/roostos and /tmp/roostos, and from no other. */
  lemma ClearedFromExactly(p: Paths, s: Store, jti: string, now: real, works: bool, d: string)
    requires d in s.disk && s.disk[d].bootstrap.Some? && s.disk[d].bootstrap.value.jti == jti
    ensures var disk' := Consume(p, s, jti, now, works, [true, true, true]).disk;
            d in disk' &&
            (disk'[d].bootstrap == None <==> d == p.stateDir || d == "/var/lib/roostos" || d == "/tmp/roostos")
  {
    var s1 := s.(globals := s.globals - {jti});
    var saved := Save(p, s1.disk, Load(p, s1, now) - {jti}, works);
    var dirs := ClearedDirs(p);
    ClearedExactly(saved, dirs, jti, [true, true, true], d);
    assert Removed(dirs, [true, true, true], d) <==> d == dirs[0] || d == dirs[1] || d == dirs[2];
  }

  /** The directory still names the token after it was consumed. */
  predicate StillNames(p: Paths, disk: Disk, d: string, jti: string, works: bool, removes: Removals, later: real) {
    && d != "" && d in disk
    && (|| (&& jti in disk[d].tokens && disk[d].tokens[jti] > later
            && !(works && StateIsRead(p) && d == p.stateDir))
        || (&& disk[d].bootstrap.Some? && disk[d].bootstrap.value.jti == jti && jti != ""
            && disk[d].bootstrap.value.exp > later && !Removed(ClearedDirs(p), removes, d)))
  }

  /** When a consumed token can be loaded again: exactly if some candidate file survives
      that names it, namely any file after a failed save or removal, a token file outside
      the state directory, or a bootstrap file in the configuration directory, which is read
      but not cleared. */
  lemma ConsumedComesBackExactly(p: Paths, s: Store, jti: string, now: real, works: bool, removes: Removals,
                                 later: real)
    ensures jti in Load(p, Consume(p, s, jti, now, works, removes), later) <==>
            exists d <- CandidateDirs(p) :: StillNames(p, s.disk, d, jti, works, removes, later)
  {
    var s1 := s.(globals := s.globals - {jti});
    var saved := Save(p, s1.disk, Load(p, s1, now) - {jti}, works);
    var s' := Consume(p, s, jti, now, works, removes);
    LoadExactly(p, s', later, jti);
    forall d <- CandidateDirs(p)
      ensures d != "" && d in s'.disk && NamedIn(s'.disk[d], jti, later) <==>
              StillNames(p, s.disk, d, jti, works, removes, later)
    {
      ClearedExactly(saved, ClearedDirs(p), jti, removes, d);
    }
  }

  // ---------- refinement of one map ----------

  /** No candidate file but the state file names the token with an expiry behind t. */
  predicate OnlyInStateFile(p: Paths, disk: Disk, k: string, t: real) {
    forall d <- CandidateDirs(p) :: d in disk ==>
      && ((d == p.stateDir && StateIsRead(p)) || Lookup(disk[d].tokens, k, t) == None)
      && (disk[d].bootstrap.Some? && disk[d].bootstrap.value.jti == k ==> disk[d].bootstrap.value.exp <= t)
  }

  /** The tokens of the state file, if it is read at all. */
  function StateTokens(p: Paths, s: Store): Tokens {
    if StateIsRead(p) then FilesOf(s.disk, p.stateDir).tokens else map[]
  }

  function Lookup(m: Tokens, k: string, now: real): Option<real> {
    if k in m && m[k] > now then Some(m[k]) else None
  }

  function View(p: Paths, s: Store, k: string, now: real): Option<real> {
    if Lookup(s.globals, k, now).Some? then Lookup(s.globals, k, now) else Lookup(StateTokens(p, s), k, now)
  }

  lemma {:induction false} LoadDirsView(p: Paths, disk: Disk, dirs: seq<string>, k: string, now: real)
    requires OnlyInStateFile(p, disk, k, now)
    requires forall d <- dirs :: d in CandidateDirs(p)
    ensures var f := if StateIsRead(p) && p.stateDir in dirs then FilesOf(disk, p.stateDir).tokens else map[];
            Lookup(LoadDirs(disk, dirs, now), k, now) == Lookup(f, k, now)
            && (k in LoadDirs(disk, dirs, now) <==> Lookup(f, k, now).Some?)
  {
    if dirs != [] {
      var earlier, d := dirs[..|dirs| - 1], dirs[|dirs| - 1];
      assert dirs == earlier + [d];
      LoadDirsView(p, disk, earlier, k, now);
    }
  }

  lemma LoadIsView(p: Paths, s: Store, k: string, now: real)
    requires OnlyInStateFile(p, s.disk, k, now)
    ensures k in Load(p, s, now) <==> View(p, s, k, now).Some?
    ensures k in Load(p, s, now) ==> Some(Load(p, s, now)[k]) == View(p, s, k, now)
  {
    LoadDirsView(p, s.disk, CandidateDirs(p), k, now);
    assert p.stateDir in CandidateDirs(p);
  }

  /** The two copies of a token agree, or the state file's has expired; and from time t on the
      store shows for k what the single map m holds, restricted to unexpired entries. */
  ghost predicate Agrees(p: Paths, s: Store, m: Tokens, t: real, k: string) {
    && OnlyInStateFile(p, s.disk, k, t)
    && (k in s.globals && k in StateTokens(p, s) ==>
          s.globals[k] == StateTokens(p, s)[k] || StateTokens(p, s)[k] <= t)
    && forall now :: now >= t ==> View(p, s, k, now) == Lookup(m, k, now)
  }

  predicate SameAt(m: Tokens, m': Tokens, k: string) {
    (k in m <==> k in m') && (k in m ==> m[k] == m'[k])
  }

  /** Only m at k matters, and only from t on. */
  lemma AgreesAtOne(p: Paths, s: Store, m: Tokens, m': Tokens, t: real, t': real, k: string)
    requires Agrees(p, s, m, t, k) && SameAt(m, m', k) && t <= t'
    ensures Agrees(p, s, m', t', k)
  {
    forall now | now >= t'
      ensures View(p, s, k, now) == Lookup(m', k, now)
    {
      assert View(p, s, k, now) == Lookup(m, k, now);
    }
  }

  lemma SaveKeepsOthersAway(p: Paths, disk: Disk, tokens: Tokens, works: bool, k: string, t: real)
    requires OnlyInStateFile(p, disk, k, t)
    ensures OnlyInStateFile(p, Save(p, disk, tokens, works), k, t)
  {
    assert p.stateDir in CandidateDirs(p);
  }

  /** A save that fails does no harm to k while it is about another token or k is not live. */
  predicate SaveSuffices(m: Tokens, k: string, jti: string, now: real, works: bool) {
    works || jti != k || Lookup(m, k, now) == None
  }

  lemma RecordAgrees(p: Paths, s: Store, m: Tokens, t: real, k: string, jti: string, exp: real, now: real, works: bool)
    requires Agrees(p, s, m, t, k) && now >= t && SaveSuffices(m, k, jti, now, works)
    ensures Agrees(p, Record(p, s, jti, exp, now, works), m[jti := exp], now, k)
  {
    var s1 := s.(globals := s.globals[jti := exp]);
    var s' := Record(p, s, jti, exp, now, works);
    SaveKeepsOthersAway(p, s1.disk, Load(p, s1, now)[jti := exp], works, k, now);
    LoadIsView(p, s1, k, now);
    assert View(p, s, k, now) == Lookup(m, k, now);
    forall at | at >= now
      ensures View(p, s', k, at) == Lookup(m[jti := exp], k, at)
    {
      assert View(p, s, k, at) == Lookup(m, k, at);
    }
  }

  /** disk' differs from disk at most in bootstrap files that are gone. */
  predicate FewerBootstraps(disk: Disk, disk': Disk) {
    && disk'.Keys == disk.Keys
    && forall d <- disk :: disk'[d].tokens == disk[d].tokens
                           && (disk'[d].bootstrap.Some? ==> disk'[d].bootstrap == disk[d].bootstrap)
  }

  lemma ClearingLeavesTokens(disk: Disk, dirs: seq<string>, jti: string, removes: seq<bool>)
    requires |removes| == |dirs|
    ensures FewerBootstraps(disk, ClearBootstraps(disk, dirs, jti, removes))
  {
    var disk' := ClearBootstraps(disk, dirs, jti, removes);
    forall d
      ensures d in disk' <==> d in disk
      ensures d in disk ==> disk'[d].tokens == disk[d].tokens
                            && (disk'[d].bootstrap.Some? ==> disk'[d].bootstrap == disk[d].bootstrap)
    {
      ClearedExactly(disk, dirs, jti, removes, d);
    }
  }

  lemma FewerBootstrapsKeep(p: Paths, globals: Tokens, disk: Disk, disk': Disk, k: string, t: real)
    requires FewerBootstraps(disk, disk') && OnlyInStateFile(p, disk, k, t)
    ensures OnlyInStateFile(p, disk', k, t)
    ensures StateTokens(p, Store(globals, disk')) == StateTokens(p, Store(globals, disk))
  {
  }

  lemma ConsumeAgrees(p: Paths, s: Store, m: Tokens, t: real, k: string, jti: string, now: real, works: bool,
                      removes: Removals)
    requires Agrees(p, s, m, t, k) && now >= t && SaveSuffices(m, k, jti, now, works)
    ensures Agrees(p, Consume(p, s, jti, now, works, removes), m - {jti}, now, k)
  {
    var s1 := s.(globals := s.globals - {jti});
    var saved := Save(p, s1.disk, Load(p, s1, now) - {jti}, works);
    var s' := Consume(p, s, jti, now, works, removes);
    SaveKeepsOthersAway(p, s1.disk, Load(p, s1, now) - {jti}, works, k, now);
    ClearingLeavesTokens(saved, ClearedDirs(p), jti, removes);
    FewerBootstrapsKeep(p, s1.globals, saved, s'.disk, k, now);
    LoadIsView(p, s1, k, now);
    assert View(p, s, k, now) == Lookup(m, k, now);
    forall at | at >= now
      ensures View(p, s', k, at) == Lookup(m - {jti}, k, at)
    {
      assert View(p, s, k, at) == Lookup(m, k, at);
    }
  }

  // ---------- bootstrap tokens over whole runs ----------

  /** A validation carries what the signed token says: its jti ("" if missing) and exp.
      works says whether the save works. */
  datatype Op =
    | Create(jti: string, exp: real, now: real, works: bool)
    | Validate(jti: string, exp: real, now: real, works: bool, removes: Removals)

  /** validate_and_consume_token after the signature check: does it succeed? */
  predicate Succeeds(p: Paths, s: Store, op: Op)
    requires op.Validate?
  {
    op.jti != "" && op.exp >= op.now && op.jti in Load(p, s, op.now)
  }

  function Step(p: Paths, s: Store, op: Op): Store {
    match op
    case Create(jti, exp, now, works) => Record(p, s, jti, exp, now, works)
    case Validate(jti, exp, now, works, removes) =>
      if jti != "" && (exp < now || Succeeds(p, s, op)) then Consume(p, s, jti, now, works, removes) else s
  }

  /** The same on one map of unexpired tokens. */
  predicate MapSucceeds(m: Tokens, op: Op)
    requires op.Validate?
  {
    op.jti != "" && op.exp >= op.now && Lookup(m, op.jti, op.now).Some?
  }

  function MapStep(m: Tokens, op: Op): Tokens {
    match op
    case Create(jti, exp, now, _) => m[jti := exp]
    case Validate(jti, exp, now, _, _) => if jti != "" && (exp < now || MapSucceeds(m, op)) then m - {jti} else m
  }

  function Run(p: Paths, s: Store, ops: seq<Op>): Store {
    if ops == [] then s else Step(p, Run(p, s, ops[..|ops| - 1]), ops[|ops| - 1])
  }

  function MapRun(m: Tokens, ops: seq<Op>): Tokens {
    if ops == [] then m else MapStep(MapRun(m, ops[..|ops| - 1]), ops[|ops| - 1])
  }

  predicate ClockAdvances(start: real, ops: seq<Op>) {
    && (forall i :: 0 <= i < |ops| ==> start <= ops[i].now)
    && forall i, j :: 0 <= i < j < |ops| ==> ops[i].now <= ops[j].now
  }

  function LastTime(start: real, ops: seq<Op>): real {
    if ops == [] then start else ops[|ops| - 1].now
  }

  /** No operation on k itself fails to save while k is live. Whatever happens to the saves
      for other tokens, and whichever files name those, does not matter. */
  predicate OwnSavesWork(m: Tokens, ops: seq<Op>, k: string) {
    forall i :: 0 <= i < |ops| ==> SaveSuffices(MapRun(m, ops[..i]), k, ops[i].jti, ops[i].now, ops[i].works)
  }

  lemma EarlierSavesWork(m: Tokens, ops: seq<Op>, k: string)
    requires OwnSavesWork(m, ops, k) && ops != []
    ensures var n := |ops| - 1;
            OwnSavesWork(m, ops[..n], k) && SaveSuffices(MapRun(m, ops[..n]), k, ops[n].jti, ops[n].now, ops[n].works)
  {
    var n := |ops| - 1;
    forall i | 0 <= i < n
      ensures SaveSuffices(MapRun(m, ops[..n][..i]), k, ops[..n][i].jti, ops[..n][i].now, ops[..n][i].works)
    {
      assert ops[..n][..i] == ops[..i];
    }
  }

  lemma StepAgrees(p: Paths, s: Store, m: Tokens, t: real, k: string, op: Op)
    requires Agrees(p, s, m, t, k) && op.now >= t && SaveSuffices(m, k, op.jti, op.now, op.works)
    ensures Agrees(p, Step(p, s, op), MapStep(m, op), op.now, k)
  {
    match op
    case Create(jti, exp, now, works) =>
      RecordAgrees(p, s, m, t, k, jti, exp, now, works);
    case Validate(jti, exp, now, works, removes) =>
      var m' := MapStep(m, op);
      AgreesAtOne(p, s, m, m, t, now, k);
      ConsumeAgrees(p, s, m, t, k, jti, now, works, removes);
      if jti == k {
        LoadIsView(p, s, k, now);
        assert View(p, s, k, now) == Lookup(m, k, now);
        assert Succeeds(p, s, op) <==> MapSucceeds(m, op);
      } else {
        AgreesAtOne(p, Consume(p, s, jti, now, works, removes), m - {jti}, m', now, now, k);
        AgreesAtOne(p, s, m, m', now, now, k);
      }
  }

  /** Over every run, and for each token no other file names: the files and the dictionary
      together show of it exactly what one map would, so it is conserved while others come
      and go. */
  lemma {:induction false} RefinesOneMap(p: Paths, s: Store, m: Tokens, start: real, ops: seq<Op>, k: string)
    requires Agrees(p, s, m, start, k) && ClockAdvances(start, ops) && OwnSavesWork(m, ops, k)
    ensures Agrees(p, Run(p, s, ops), MapRun(m, ops), LastTime(start, ops), k)
  {
    if ops != [] {
      var earlier, op := ops[..|ops| - 1], ops[|ops| - 1];
      EarlierSavesWork(m, ops, k);
      RefinesOneMap(p, s, m, start, earlier, k);
      assert LastTime(start, earlier) <= op.now;
      StepAgrees(p, Run(p, s, earlier), MapRun(m, earlier), LastTime(start, earlier), k, op);
    }
  }

  function Created(ops: seq<Op>, k: string): nat {
    if ops == [] then 0
    else Created(ops[..|ops| - 1], k) + (if ops[|ops| - 1].Create? && ops[|ops| - 1].jti == k then 1 else 0)
  }

  function Successes(p: Paths, s: Store, ops: seq<Op>, k: string): nat {
    if ops == [] then 0
    else
      var earlier, op := ops[..|ops| - 1], ops[|ops| - 1];
      Successes(p, s, earlier, k) +
      (if op.Validate? && op.jti == k && Succeeds(p, Run(p, s, earlier), op) then 1 else 0)
  }

  function Held(m: Tokens, k: string): nat {
    if k in m then 1 else 0
  }

  /** Single use over any interleaving: a token is accepted at most as often as it was
      created, so once for a fresh jti; and every validation answers as the map would. */
  lemma {:induction false} TokensAreSingleUse(p: Paths, s: Store, m: Tokens, start: real, ops: seq<Op>, k: string)
    requires Agrees(p, s, m, start, k) && ClockAdvances(start, ops) && OwnSavesWork(m, ops, k)
    ensures Successes(p, s, ops, k) + Held(MapRun(m, ops), k) <= Created(ops, k) + Held(m, k)
  {
    if ops != [] {
      var earlier, op := ops[..|ops| - 1], ops[|ops| - 1];
      EarlierSavesWork(m, ops, k);
      TokensAreSingleUse(p, s, m, start, earlier, k);
      if op.Validate? && op.jti == k {
        RefinesOneMap(p, s, m, start, earlier, k);
        LoadIsView(p, Run(p, s, earlier), k, op.now);
        assert LastTime(start, earlier) <= op.now;
        assert Succeeds(p, Run(p, s, earlier), op) <==> MapSucceeds(MapRun(m, earlier), op);
      }
    }
  }

  /** A fresh process on an empty disk agrees with the empty map about every token. */
  lemma FreshStoreAgrees(p: Paths, start: real, k: string)
    ensures Agrees(p, Store(map[], map[]), map[], start, k)
  {
  }

  /** So on a fresh system, over every run: a token is accepted at most as often as it was
      created, unless one of its own saves fails while it is live. */
  lemma FreshTokensAreSingleUse(p: Paths, start: real, ops: seq<Op>, k: string)
    requires ClockAdvances(start, ops) && OwnSavesWork(map[], ops, k)
    ensures Successes(p, Store(map[], map[]), ops, k) <= Created(ops, k)
  {
    FreshStoreAgrees(p, start, k);
    TokensAreSingleUse(p, Store(map[], map[]), map[], start, ops, k);
  }

  lemma {:induction false} MapKeepsCreated(m: Tokens, ops: seq<Op>, i: nat, k: string)
    requires i < |ops| && ops[i].Create? && ops[i].jti == k
    requires forall j :: i < j < |ops| ==> ops[j].jti != k
    ensures k in MapRun(m, ops) && MapRun(m, ops)[k] == ops[i].exp
  {
    if i < |ops| - 1 {
      MapKeepsCreated(m, ops[..|ops| - 1], i, k);
    }
  }

  /** A created token that nobody has operated on since is accepted exactly while neither its
      record nor its own claim has expired. */
  lemma CreatedTokenAcceptedExactly(p: Paths, s: Store, m: Tokens, start: real, ops: seq<Op>, i: nat, op: Op)
    requires Agrees(p, s, m, start, op.jti) && ClockAdvances(start, ops) && OwnSavesWork(m, ops, op.jti)
    requires op.Validate? && op.now >= LastTime(start, ops)
    requires i < |ops| && ops[i].Create? && ops[i].jti == op.jti
    requires forall j :: i < j < |ops| ==> ops[j].jti != op.jti
    ensures Succeeds(p, Run(p, s, ops), op) <==> op.jti != "" && op.exp >= op.now && ops[i].exp > op.now
  {
    RefinesOneMap(p, s, m, start, ops, op.jti);
    MapKeepsCreated(m, ops, i, op.jti);
    AgreesAtOne(p, Run(p, s, ops), MapRun(m, ops), MapRun(m, ops), LastTime(start, ops), op.now, op.jti);
    LoadIsView(p, Run(p, s, ops), op.jti, op.now);
    assert View(p, Run(p, s, ops), op.jti, op.now) == Lookup(MapRun(m, ops), op.jti, op.now);
  }

  /** What a restarted process, whose dictionary is empty, still loads after a recorded token
      was saved: that token, and every token that was live, until they expire. */
  lemma RestartKeepsTokens(p: Paths, s: Store, jti: string, exp: real, now: real, later: real, k: string)
    requires p.stateName == "edge_tokens.json" && p.stateDir != "" && later >= now
    ensures var restarted := Store(map[], Record(p, s, jti, exp, now, true).disk);
            && (exp > later ==> jti in Load(p, restarted, later))
            && (k != jti && k in Load(p, s, now) && Load(p, s, now)[k] > later ==> k in Load(p, restarted, later))
  {
    var s1 := s.(globals := s.globals[jti := exp]);
    var restarted := Store(map[], Record(p, s, jti, exp, now, true).disk);
    assert restarted.disk[p.stateDir].tokens == Load(p, s1, now)[jti := exp];
    assert p.stateDir in CandidateDirs(p);
    LoadExactly(p, restarted, later, jti);
    LoadExactly(p, restarted, later, k);
    assert k != jti && k in Load(p, s, now) ==> k in Load(p, s1, now) && Load(p, s1, now)[k] == Load(p, s, now)[k];
  }

  /** When an accepted token is accepted again, at any later time: exactly if it has not
      expired and some candidate file that names it survives. */
  lemma AcceptedAgainExactly(p: Paths, s: Store, op: Op, again: Op)
    requires op.Validate? && Succeeds(p, s, op)
    requires again.Validate? && again.jti == op.jti && again.exp == op.exp
    ensures Succeeds(p, Step(p, s, op), again) <==>
            && op.exp >= again.now
            && exists d <- CandidateDirs(p) :: StillNames(p, s.disk, d, op.jti, op.works, op.removes, again.now)
  {
    ConsumedComesBackExactly(p, s, op.jti, op.now, op.works, op.removes, again.now);
  }

  /** The configuration directory is read but not cleared: a token announced in its bootstrap
      file is accepted again after it was consumed, even if every save and removal works. */
  lemma ConfigBootstrapIsReplayed(p: Paths, s: Store, op: Op, again: Op, exp: real)
    requires p.configDir != "" && p.configDir !in ClearedDirs(p) && p.configDir in s.disk
    requires op.Validate? && op.jti != "" && s.disk[p.configDir].bootstrap == Some(Bootstrap(op.jti, exp))
    requires again.Validate? && again.jti == op.jti && again.exp == op.exp
    requires op.now <= op.exp && op.now < exp && again.now <= op.exp && again.now < exp
    ensures Succeeds(p, s, op) && Succeeds(p, Step(p, s, op), again)
  {
    var d := p.configDir;
    assert d in CandidateDirs(p) && NamedIn(s.disk[d], op.jti, op.now);
    LoadExactly(p, s, op.now, op.jti);
    assert !Removed(ClearedDirs(p), op.removes, d);
    assert StillNames(p, s.disk, d, op.jti, op.works, op.removes, again.now);
    AcceptedAgainExactly(p, s, op, again);
  }

  const CONFIG_DIR := "/etc/roostos"

  /** A failing input of that kind, with the default directories. */
  lemma BootstrapInConfigDirIsReplayed()
    ensures var p := Paths(VAR_DIR, TOKENS_FILE, CONFIG_DIR);
            var s := Store(map[], map[CONFIG_DIR := DirFiles(map[], Some(Bootstrap("j", 100.0)))]);
            var op := Validate("j", 100.0, 1.0, true, [true, true, true]);
            Succeeds(p, s, op) && Succeeds(p, Step(p, s, op), op)
  {
    var p := Paths(VAR_DIR, TOKENS_FILE, CONFIG_DIR);
    var s := Store(map[], map[CONFIG_DIR := DirFiles(map[], Some(Bootstrap("j", 100.0)))]);
    var op := Validate("j", 100.0, 1.0, true, [true, true, true]);
    assert CONFIG_DIR !in ClearedDirs(p) by {
      assert VAR_DIR[1] == 'v' && TMP_DIR[1] == 't' && CONFIG_DIR[1] == 'e';
    }
    ConfigBootstrapIsReplayed(p, s, op, op, 100.0);
  }
}
