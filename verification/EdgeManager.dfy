/**
 The token store and the edge manager as objects. All stores of a process share its
 dictionary and its disk.
 */
module EdgeManagement {
  import opened Wrappers
  import opened EdgeTokens

  class Process {
    var globals: Tokens
    var disk: Disk

    constructor (disk: Disk)
      ensures globals == map[] && this.disk == disk
    {
      this.globals, this.disk := map[], disk;
    }

    function Value(): Store
      reads this
    {
      Store(globals, disk)
    }
  }

  class EdgeTokenStore {
    const paths: Paths
    const process: Process

    constructor (paths: Paths, process: Process)
      ensures this.paths == paths && this.process == process
    {
      this.paths, this.process := paths, process;
    }

    method LoadTokens(now: real) returns (tokens: Tokens)
      ensures tokens == Load(paths, process.Value(), now)
    {
      tokens := map[];
      var seen: set<string> := {};
      var dirs := CandidateDirs(paths);
      for k := 0 to |dirs|
        invariant tokens == LoadDirs(process.disk, dirs[..k], now)
        invariant forall d :: d in seen <==> d in dirs[..k] && d != "" && d in process.disk
      {
        var d := dirs[k];
        assert dirs[..k + 1][..k] == dirs[..k] && dirs[..k + 1] == dirs[..k] + [d];
        if d == "" || d in seen || d !in process.disk {
          continue;
        }
        seen := seen + {d};
        tokens := tokens + DirTokens(process.disk[d], now);
      }
      assert dirs[..|dirs|] == dirs;
      tokens := tokens + Unexpired(process.globals, now);
    }

    method SaveTokens(tokens: Tokens, works: bool)
      modifies process`disk
      ensures process.disk == Save(paths, old(process.disk), tokens, works)
    {
      if works && StateIsRead(paths) {
        process.disk := process.disk[paths.stateDir := FilesOf(process.disk, paths.stateDir).(tokens := tokens)];
      }
    }

    method RecordToken(jti: string, expiresAt: real, now: real, works: bool)
      modifies process
      ensures process.Value() == Record(paths, old(process.Value()), jti, expiresAt, now, works)
    {
      process.globals := process.globals[jti := expiresAt];
      var active := LoadTokens(now);
      active := active[jti := expiresAt];
      SaveTokens(active, works);
    }

    /** removes says which of the three removals of bootstrap files work. */
    method ConsumeToken(jti: string, now: real, works: bool, removes: Removals)
      modifies process
      ensures process.Value() == Consume(paths, old(process.Value()), jti, now, works, removes)
    {
      process.globals := process.globals - {jti};
      var active := LoadTokens(now);
      active := active - {jti};
      SaveTokens(active, works);
      ghost var saved := process.disk;
      var dirs := ClearedDirs(paths);
      for k := 0 to |dirs|
        invariant process.disk == ClearBootstraps(saved, dirs[..k], jti, removes[..k])
        invariant process.globals == old(process.globals) - {jti}
      {
        var d := dirs[k];
        assert dirs[..k + 1][..k] == dirs[..k] && removes[..k + 1][..k] == removes[..k];
        if d in process.disk && process.disk[d].bootstrap.Some? {
          if process.disk[d].bootstrap.value.jti == jti && removes[k] {
            process.disk := process.disk[d := process.disk[d].(bootstrap := None)];
          }
        }
      }
      assert dirs[..|dirs|] == dirs && removes[..|dirs|] == removes;
    }
  }

  /** What the signature check makes of a token text; jti is "" if the claim is missing. */
  datatype Payload = Payload(jti: string, exp: real)

  datatype Answer = Accepted(payload: Payload) | InvalidToken | MissingJti | HasExpired | AlreadyConsumed

  class EdgeManager {
    const mock: bool
    const tokenStore: EdgeTokenStore

    constructor (mock: bool, tokenStore: EdgeTokenStore)
      ensures this.mock == mock && this.tokenStore == tokenStore
    {
      this.mock, this.tokenStore := mock, tokenStore;
    }

    /** The jti is drawn at random; the signed text is left to the signer. */
    method CreateBootstrapToken(jti: string, ttlMinutes: int, now: real, works: bool) returns (payload: Payload)
      modifies tokenStore.process
      ensures payload == Payload(jti, (now.Floor + ttlMinutes * 60) as real)
      ensures tokenStore.process.Value() ==
              Step(tokenStore.paths, old(tokenStore.process.Value()), Create(jti, payload.exp, now, works))
    {
      payload := Payload(jti, (now.Floor + ttlMinutes * 60) as real);
      tokenStore.RecordToken(jti, payload.exp, now, works);
    }

    /** decoded is what the signature check makes of the token, None if it raises. Mock mode
        accepts a token that is not on record. */
    method ValidateAndConsumeToken(decoded: Option<Payload>, now: real, works: bool, removes: Removals)
      returns (answer: Answer)
      modifies tokenStore.process
      ensures answer.InvalidToken? <==> decoded == None
      ensures answer.MissingJti? <==> decoded.Some? && decoded.value.jti == ""
      ensures answer.HasExpired? <==> decoded.Some? && decoded.value.jti != "" && decoded.value.exp < now
      ensures answer.Accepted? <==>
                && decoded.Some? && decoded.value.jti != "" && decoded.value.exp >= now
                && (mock || decoded.value.jti in Load(tokenStore.paths, old(tokenStore.process.Value()), now))
      ensures answer.Accepted? ==> answer.payload == decoded.value
      ensures tokenStore.process.Value() ==
              if answer.Accepted? || answer.HasExpired?
              then Consume(tokenStore.paths, old(tokenStore.process.Value()), decoded.value.jti, now, works, removes)
              else old(tokenStore.process.Value())
      ensures decoded.Some? && !mock ==>
                var op := Validate(decoded.value.jti, decoded.value.exp, now, works, removes);
                && (answer.Accepted? <==> Succeeds(tokenStore.paths, old(tokenStore.process.Value()), op))
                && tokenStore.process.Value() == Step(tokenStore.paths, old(tokenStore.process.Value()), op)
    {
      if decoded == None {
        return InvalidToken;
      }
      var payload := decoded.value;
      if payload.jti == "" {
        return MissingJti;
      }
      if payload.exp < now {
        tokenStore.ConsumeToken(payload.jti, now, works, removes);
        return HasExpired;
      }
      var active := tokenStore.LoadTokens(now);
      if !mock && payload.jti !in active {
        return AlreadyConsumed;
      }
      tokenStore.ConsumeToken(payload.jti, now, works, removes);
      return Accepted(payload);
    }
  }
}
