/**
The providers that own a store: how each loads, and how each writes. Every mutating
method is proved against the value-level step of `WriteThrough`.
*/
module StoreProviders {
  import opened Base
  import opened Text
  import opened WriteThrough
  import opened Providers
  import opened Migration
  import opened Registry

  function AsSet(names: seq<string>): set<string> {
    set n | n in names
  }

  // ---- Database and Infisical providers: cache in front of a table or a folder ----

  class CachedProvider {
    const codec: Codec
    const frozen: set<string>  // bootstrap-tier names; empty for the secret providers
    var rows: map<string, Row>
    var values: map<string, string>

    ghost function Now(): State
      reads this
    {
      State(rows, values)
    }

    constructor (codec: Codec, frozen: set<string>, rows: map<string, Row>, values: map<string, string>)
      ensures this.codec == codec && this.frozen == frozen && Now() == State(rows, values)
    {
      this.codec, this.frozen, this.rows, this.values := codec, frozen, rows, values;
    }

    method Set(name: string, value: string, reply: Reply) returns (ok: bool)
      modifies this`rows, this`values
      ensures Now() == Step(codec, old(Now()), Guard(frozen, Put(name, value, reply)))
      ensures ok <==> Guard(frozen, Put(name, value, reply)).reply.Done?
      ensures !ok ==> values == old(values)
    {
      if name in frozen {
        return false;
      }
      if reply.Rejected? {
        return false;
      }
      rows := rows[name := Encode(codec, value)];
      if reply.Lost? {
        return false;
      }
      values := values[name := value];
      ok := true;
    }

    method Delete(name: string, reply: Reply) returns (ok: bool)
      modifies this`rows, this`values
      ensures Now() == Step(codec, old(Now()), Guard(frozen, Drop(name, reply)))
      ensures ok <==> Guard(frozen, Drop(name, reply)).reply.Done?
      ensures !ok ==> values == old(values)
    {
      if name in frozen {
        return false;
      }
      if reply.Rejected? {
        return false;
      }
      rows := rows - {name};
      if reply.Lost? {
        return false;
      }
      values := values - {name};
      ok := true;
    }
  }

  /** `fetched` lists every row of `rows` under one of `names`, once, and possibly others. */
  ghost predicate Fetches(fetched: seq<(string, Row)>, rows: map<string, Row>, names: seq<string>) {
    && (forall i, j :: 0 <= i < j < |fetched| ==> fetched[i].0 != fetched[j].0)
    && (forall i :: 0 <= i < |fetched| ==> Lookup(rows, fetched[i].0) == Some(fetched[i].1))
    && (forall n :: n in names && n in rows ==> exists i :: 0 <= i < |fetched| && fetched[i].0 == n)
  }

  /** The `app_secrets` preload: undecryptable and blank rows are unheld, unknown names are skipped. */
  method LoadAppSecrets(key: nat, names: seq<string>, fetched: seq<(string, Row)>, ghost rows: map<string, Row>)
    returns (values: map<string, string>)
    requires Fetches(fetched, rows, names)
    ensures values == Fresh(AppSecretsTable(key), rows, AsSet(names))
  {
    values := map[];
    ghost var seen: set<string> := {};
    for i := 0 to |fetched|
      invariant forall n :: n in seen <==> exists j :: 0 <= j < i && fetched[j].0 == n
      invariant forall n :: Lookup(values, n)
                         == if n in names && n in seen then FreshAt(AppSecretsTable(key), rows, n) else None
    {
      var (name, row) := fetched[i];
      assert Lookup(rows, name) == Some(row);
      seen := seen + {name};
      if name !in names {
        continue;
      }
      if row.Sealed? && row.key == key {
        if row.plain != "" {
          values := values[name := row.plain];
        }
      }
    }
    forall n ensures Lookup(values, n) == Lookup(Fresh(AppSecretsTable(key), rows, AsSet(names)), n) {
      assert n in AsSet(names) <==> n in names;
    }
    SameLookupsSameMap(values, Fresh(AppSecretsTable(key), rows, AsSet(names)));
  }

  /** The Infisical preload: one fetch per secret; a missing or blank one is unheld, a failing one is fatal. */
  method LoadInfisical(names: seq<string>, remote: map<string, Row>, outages: set<string>)
    returns (values: Option<map<string, string>>)
    ensures values.None? <==> exists n :: n in names && n in outages
    ensures values.Some? ==> values.value == Fresh(InfisicalFolder, remote, AsSet(names))
  {
    var loaded: map<string, string> := map[];
    for i := 0 to |names|
      invariant forall j :: 0 <= j < i ==> names[j] !in outages
      invariant forall n :: Lookup(loaded, n) == if n in names[..i] then FreshAt(InfisicalFolder, remote, n) else None
    {
      var name := names[i];
      if name in outages {
        return None;
      }
      assert names[..i + 1] == names[..i] + [name];
      if name in remote && remote[name].Clear? && remote[name].text != "" {
        loaded := loaded[name := remote[name].text];
      }
    }
    assert names[..|names|] == names;
    forall n ensures Lookup(loaded, n) == Lookup(Fresh(InfisicalFolder, remote, AsSet(names)), n) {
      assert n in AsSet(names) <==> n in names;
    }
    SameLookupsSameMap(loaded, Fresh(InfisicalFolder, remote, AsSet(names)));
    values := Some(loaded);
  }

  /**
  The `app_config` preload: a bootstrap-tier key in the list is refused before any row is
  read; otherwise exactly the listed keys are cached, blank values included.
  */
  method BuildAppConfig(keys: seq<ConfigKey>, fetched: seq<(string, Row)>, ghost rows: map<string, Row>)
    returns (values: Option<map<string, string>>)
    requires Fetches(fetched, rows, KeyNames(keys))
    ensures values.None? <==> exists k :: k in keys && k.tier == Bootstrap
    ensures values.Some? ==>
              values.value == Fresh(AppConfigTable, rows, AsSet(KeyNames(keys)))
  {
    var denied := OfTier(keys, Bootstrap);
    if denied != [] {
      assert denied[0] in denied;
      return None;
    }
    assert forall k :: k in keys ==> k !in denied;
    var names := KeyNames(keys);
    var loaded: map<string, string> := map[];
    ghost var seen: set<string> := {};
    for i := 0 to |fetched|
      invariant forall n :: n in seen <==> exists j :: 0 <= j < i && fetched[j].0 == n
      invariant forall n :: Lookup(loaded, n)
                         == if n in names && n in seen then FreshAt(AppConfigTable, rows, n) else None
    {
      var (name, row) := fetched[i];
      assert Lookup(rows, name) == Some(row);
      seen := seen + {name};
      if name in names && row.Clear? {
        loaded := loaded[name := row.text];
      }
    }
    forall n ensures Lookup(loaded, n) == Lookup(Fresh(AppConfigTable, rows, AsSet(names)), n) {
      assert n in AsSet(names) <==> n in names;
    }
    SameLookupsSameMap(loaded, Fresh(AppConfigTable, rows, AsSet(names)));
    values := Some(loaded);
  }

  // ---- The configuration directory ----

  datatype Directory = NotADirectory | Unreadable | Absent | Files(files: map<string, Row>)

  /** What the provider knows: whether it has a root at all, the files under it, and its cache. */
  datatype FileState = FileState(root: bool, store: State)

  function FilesIn(dir: Directory): map<string, Row> {
    if dir.Files? then dir.files else map[]
  }

  function Loaded(dir: Directory, names: set<string>): FileState {
    var root := dir.Absent? || dir.Files?;
    FileState(root, State(FilesIn(dir), if root then Fresh(ConfigDirectory, FilesIn(dir), names) else map[]))
  }

  function FileStep(frozen: set<string>, s: FileState, op: Op): FileState {
    if op.name in frozen then s
    else if s.root then s.(store := Step(ConfigDirectory, s.store, op))
    else if op.Put? then s
    else s.(store := s.store.(cache := s.store.cache - {op.name}))
  }

  function FileRun(frozen: set<string>, s: FileState, ops: seq<Op>): FileState {
    if ops == [] then s else FileStep(frozen, FileRun(frozen, s, ops[..|ops| - 1]), ops[|ops| - 1])
  }

  class ConfigFileProvider {
    const frozen: set<string>
    const root: bool
    var files: map<string, Row>
    var values: map<string, string>

    ghost function Now(): FileState
      reads this
    {
      FileState(root, State(files, values))
    }

    /** Load the directory: the cache is filled key by key from the declared names. */
    constructor (dir: Directory, names: seq<string>, frozen: set<string>)
      ensures this.frozen == frozen
      ensures Now() == Loaded(dir, AsSet(names))
      ensures root <==> dir != NotADirectory && dir != Unreadable
    {
      var values: map<string, string> := map[];
      if dir.Files? {
        for i := 0 to |names|
          invariant forall n :: Lookup(values, n)
                             == if n in names[..i] then FreshAt(ConfigDirectory, dir.files, n) else None
        {
          assert names[..i + 1] == names[..i] + [names[i]];
          if names[i] in dir.files && dir.files[names[i]].Clear? {
            values := values[names[i] := StripTrailingNewline(dir.files[names[i]].text)];
          }
        }
        assert names[..|names|] == names;
      }
      this.frozen := frozen;
      this.root := dir.Absent? || dir.Files?;
      this.files := FilesIn(dir);
      this.values := values;
      new;
      if root {
        forall n ensures Lookup(values, n) == Lookup(Fresh(ConfigDirectory, FilesIn(dir), AsSet(names)), n) {
          assert n in AsSet(names) <==> n in names;
        }
        SameLookupsSameMap(values, Fresh(ConfigDirectory, FilesIn(dir), AsSet(names)));
      }
    }

    method Set(name: string, value: string, reply: Reply) returns (ok: bool)
      modifies this`files, this`values
      ensures Now() == FileStep(frozen, old(Now()), Put(name, value, reply))
      ensures ok <==> name !in frozen && root && reply.Done?
    {
      if name in frozen || !root {
        return false;
      }
      if reply.Rejected? {
        return false;
      }
      files := files[name := Clear(value)];
      if reply.Lost? {
        return false;
      }
      values := values[name := value];
      ok := true;
    }

    method Delete(name: string, reply: Reply) returns (ok: bool)
      modifies this`files, this`values
      ensures Now() == FileStep(frozen, old(Now()), Drop(name, reply))
      ensures ok <==> name !in frozen && (root ==> reply.Done?)
    {
      if name in frozen {
        return false;
      }
      if root {
        if reply.Rejected? {
          return false;
        }
        files := files - {name};
        if reply.Lost? {
          return false;
        }
      }
      values := values - {name};
      ok := true;
    }
  }

  /**
  A directory that is a file or cannot be read leaves the provider without a root for good;
  a missing one does not. With a root, a run is the guarded write-through run over the
  files there were; without one nothing is ever written or cached.
  */
  lemma {:induction false} FileRuns(frozen: set<string>, dir: Directory, names: set<string>, ops: seq<Op>)
    ensures var s := Loaded(dir, names);
            var now := FileRun(frozen, s, ops);
            && (now.root <==> dir == Absent || dir.Files?)
            && (dir.Files? ==> s.store == State(dir.files, Fresh(ConfigDirectory, dir.files, names)))
            && (dir.Absent? ==> s.store == State(map[], map[]))
            && (now.root ==> now.store == Run(ConfigDirectory, s.store, GuardAll(frozen, ops)))
            && (!now.root ==> now.store == State(map[], map[]))
  {
    if ops != [] {
      var n := |ops| - 1;
      FileRuns(frozen, dir, names, ops[..n]);
      assert GuardAll(frozen, ops)[..n] == GuardAll(frozen, ops[..n]);
    }
  }

  /**
  Reloading the directory after any run: the last call on a key that took effect decides
  what comes back, a written value without one trailing newline; the last one that
  reported success decides what was cached. With no call lost the two differ exactly by
  that newline.
  */
  lemma ReloadAfterRun(frozen: set<string>, dir: Directory, names: set<string>, ops: seq<Op>, name: string)
    requires (dir.Absent? || dir.Files?) && name in names
    ensures var before := Loaded(dir, names).store;
            var now := FileRun(frozen, Loaded(dir, names), ops).store;
            var calls := GuardAll(frozen, ops);
            && FreshAt(ConfigDirectory, now.rows, name)
            == (match LastEffect(calls, name)
                case None => Lookup(before.cache, name)
                case Some(Put(_, value, _)) => Some(StripTrailingNewline(value))
                case Some(Drop(_, _)) => None)
            && Lookup(now.cache, name)
            == (match LastDone(calls, name) case None => Lookup(before.cache, name) case Some(op) => CachedAfter(op))
    ensures var now := FileRun(frozen, Loaded(dir, names), ops).store;
            var last := LastEffect(GuardAll(frozen, ops), name);
            NoneLost(ops) ==>
              (FreshAt(ConfigDirectory, now.rows, name) == Lookup(now.cache, name)
               <==> (last.Some? && last.value.Put? ==> !EndsWith(last.value.value, "\n")))
  {
    var s := Loaded(dir, names).store;
    var guarded := GuardAll(frozen, ops);
    FileRuns(frozen, dir, names, ops);
    LastCallsDecide(ConfigDirectory, s, guarded, name);
    FreshOfRow(ConfigDirectory, s.rows, name);
    FreshOfRow(ConfigDirectory, Run(ConfigDirectory, s, guarded).rows, name);
    CoherentIff(ConfigDirectory, s, names, guarded, name);
  }

  // ---- The secrets directory: no cache, trimmed on read ----

  class SecretFileProvider {
    var files: map<string, Row>

    /** Every read goes to the file. */
    function Get(name: string): Option<string>
      reads this
    {
      FreshAt(SecretsDirectory, files, name)
    }

    method Set(name: string, value: string, reply: Reply) returns (ok: bool)
      modifies this
      ensures ok <==> reply.Done?
      ensures reply.Rejected? ==> files == old(files)
      ensures !reply.Rejected? ==> Get(name) == NonBlank(Trim(value))
      ensures forall n :: n != name ==> Get(n) == old(Get(n))
    {
      if !reply.Rejected? {
        files := files[name := Clear(value)];
      }
      ok := reply.Done?;
    }

    method Delete(name: string, reply: Reply) returns (ok: bool)
      modifies this
      ensures ok <==> reply.Done?
      ensures reply.Rejected? ==> files == old(files)
      ensures !reply.Rejected? ==> Get(name).None?
      ensures forall n :: n != name ==> Get(n) == old(Get(n))
    {
      if !reply.Rejected? {
        files := files - {name};
      }
      ok := reply.Done?;
    }
  }

  // ---- provider-set's value ----

  datatype FromEnv = NotSet | Blank | Plain(text: string)

  /** What `provider-set` takes from a variable: unset and blank are two refusals, the rest is trimmed. */
  function ReadSecretFromEnv(variable: Option<string>): FromEnv {
    if variable.None? then NotSet
    else if Trim(variable.value) == "" then Blank
    else Plain(Trim(variable.value))
  }

  /** Refused exactly when unset or all white space; else the text between the white space at either end. */
  lemma ReadSecretExactly(variable: Option<string>)
    ensures ReadSecretFromEnv(variable).NotSet? <==> variable.None?
    ensures ReadSecretFromEnv(variable).Blank? <==> variable.Some? && AllSpace(variable.value)
    ensures forall plain :: ReadSecretFromEnv(variable) == Plain(plain) <==>
              variable.Some? && Padded(variable.value, plain)
  {
    if variable.Some? {
      TrimIsEmptyIff(variable.value);
      forall plain ensures Padded(variable.value, plain) <==> plain != "" && Trim(variable.value) == plain {
        PaddedIff(variable.value, plain);
      }
    }
  }

  /**
  Whatever text sits in the variable, every store a secret can live in gives back: after a
  done write, a fresh build reads that text, and the cache agrees with it.
  */
  lemma SetValuesSurviveRebuilds(raw: string, plain: string, c: Codec, s: State, name: string)
    requires Padded(raw, plain) && !c.AppConfigTable? && !c.ConfigDirectory?
    ensures ReadSecretFromEnv(Some(raw)).Plain?
    ensures var now := Step(c, s, Put(name, ReadSecretFromEnv(Some(raw)).text, Done));
            && FreshAt(c, now.rows, name) == Some(plain)
            && Lookup(now.cache, name) == Some(plain)
  {
    ReadSecretExactly(Some(raw));
    FreshReadIff(c, plain);
  }

  // ---- What a migration into one of these stores reports, and what the next start reads ----

  /**
  What the operator commands see of a store: a cached provider answers from its cache,
  the secrets directory from its files.
  */
  function ObservedAt(c: Codec, s: State, name: string): Option<Held> {
    var value := if c.SecretsDirectory? then FreshAt(c, s.rows, name) else Lookup(s.cache, name);
    if value.Some? then Some(Readable(value.value)) else None
  }

  function Observed(c: Codec, s: State): (held: Contents)
    ensures forall n :: Lookup(held, n) == ObservedAt(c, s, n)
  {
    map n | n in s.rows.Keys + s.cache.Keys && ObservedAt(c, s, n).Some? :: ObservedAt(c, s, n).value
  }

  /** How a write to the store looks through the provider interface. */
  function AsWriteReply(c: Codec, value: string, reply: Reply): WriteReply {
    var read := if c.SecretsDirectory? then Decode(c, Encode(c, value)) else Some(value);
    var now := if read.Some? then Some(Readable(read.value)) else None;
    match reply
    case Done => if now == Some(Readable(value)) then Stored else StoredAs(now)
    case Rejected => WriteReply.Rejected
    case Lost => if c.SecretsDirectory? then WriteReply.Lost(now) else WriteReply.Rejected
  }

  function AsDeleteReply(c: Codec, reply: Reply): DeleteReply {
    match reply
    case Done => Removed
    case Rejected => FailedKept
    case Lost => if c.SecretsDirectory? then FailedGone else FailedKept
  }

  /**
  Every store step is a step of the provider interface, so whatever holds of the operator
  commands for all replies holds of these providers.
  */
  lemma StoreStepIsInterfaceStep(c: Codec, s: State, op: Op, name: string)
    ensures ObservedAt(c, Step(c, s, op), name)
         == if name != op.name then ObservedAt(c, s, name)
            else match op
                 case Put(_, value, reply) => AsWriteReply(c, value, reply).After(ObservedAt(c, s, name), value)
                 case Drop(_, reply) => if AsDeleteReply(c, reply).Gone() then None else ObservedAt(c, s, name)
    ensures match op
            case Put(_, value, reply) => AsWriteReply(c, value, reply).Ok() <==> reply.Done?
            case Drop(_, reply) => AsDeleteReply(c, reply).Ok() <==> reply.Done?
  {
    assert FreshAt(c, Step(c, s, op).rows, name)
        == if name != op.name || op.reply.Rejected? then FreshAt(c, s.rows, name)
           else if op.Put? then Decode(c, Encode(c, op.value)) else None;
  }

  /**
  A move into a cached provider is reported as moved whenever the write is accepted,
  because the read-back sees the cache. The next start reads the same value exactly when
  it round-trips: for a configuration file, when it does not end in a newline.
  */
  lemma MovedSurvivesRestartIff(c: Codec, src: Contents, tgt: Contents, key: string, s: State)
    requires !c.SecretsDirectory? && Attempted(src, tgt, key)
    ensures OutcomeOf(src, tgt, key, AsWriteReply(c, Providers.Get(src, key).value, Done)) == Moved
    ensures var value := Providers.Get(src, key).value;
            FreshAt(c, Step(c, s, Put(key, value, Done)).rows, key) == Some(value) <==> RoundTrips(c, value)
  {
    FreshReadIff(c, Providers.Get(src, key).value);
  }

  /**
  A move into the secrets directory is reported as moved exactly when the value is
  trimmed and not blank; otherwise it is reported as failed although the file now holds
  the trimmed value.
  */
  lemma MoveIntoDirectoryIff(src: Contents, tgt: Contents, key: string)
    requires Attempted(src, tgt, key)
    ensures var value := Providers.Get(src, key).value;
            var reply := AsWriteReply(SecretsDirectory, value, Done);
            && (OutcomeOf(src, tgt, key, reply) == Moved <==> RoundTrips(SecretsDirectory, value))
            && (OutcomeOf(src, tgt, key, reply) == Failed <==> !RoundTrips(SecretsDirectory, value))
            && HeldAfter(src, tgt, key, reply)
            == if Trim(value) == "" then None else Some(Readable(Trim(value)))
  {
    FreshReadIff(SecretsDirectory, Providers.Get(src, key).value);
  }

  /** The value that shows it: written to a configuration file, reported as moved, read back shorter. */
  lemma NewlineIsLostOnRestart(key: string, s: State)
    ensures var src := map[key := Readable("x\n")];
            && OutcomeOf(src, map[], key, AsWriteReply(ConfigDirectory, "x\n", Done)) == Moved
            && FreshAt(ConfigDirectory, Step(ConfigDirectory, s, Put(key, "x\n", Done)).rows, key) == Some("x")
  {
    var value := "x\n";
    assert EndsWith(value, "\n") && !EndsWith(value, "\r\n") && value[..1] == "x";
  }
}
