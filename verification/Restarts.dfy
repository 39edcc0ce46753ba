/**
The operator commands carried out on stores that own rows, and the processes in between:
every command and every boot builds its providers from the rows alone.
*/
module Restarts {
  import opened Base
  import opened Providers
  import opened Migration
  import opened WriteThrough
  import opened StoreProviders
  import opened Boot
  import opened Purging
  import opened SecretOperator
  import opened Text

  predicate Wanted(src: Contents, tgt: Contents, frozen: set<string>, key: string) {
    key !in frozen && Attempted(src, tgt, key)
  }

  function PutOf(src: Contents, key: string, reply: Reply): Op
    requires Get(src, key).Some?
  {
    Put(key, Get(src, key).value, reply)
  }

  /** The writes a migration makes, in key order. */
  function MigrationOps(src: Contents, tgt: Contents, keys: seq<string>, frozen: set<string>,
                        reply: string -> Reply): seq<Op>
  {
    if keys == [] then []
    else
      var n := |keys| - 1;
      MigrationOps(src, tgt, keys[..n], frozen, reply)
      + if Wanted(src, tgt, frozen, keys[n]) then [PutOf(src, keys[n], reply(keys[n]))] else []
  }

  /** The replies of the store as the migration sees them. */
  function RepliesOf(c: Codec, src: Contents, reply: string -> Reply): string -> WriteReply {
    (key: string) => if Get(src, key).Some? then AsWriteReply(c, Get(src, key).value, reply(key))
                     else WriteReply.Rejected
  }

  function Lines(src: Contents, tgt: Contents, keys: seq<string>, frozen: set<string>,
                 reply: string -> WriteReply): seq<MoveLine>
  {
    seq(|keys|, i requires 0 <= i < |keys| =>
          MoveLine(keys[i], if keys[i] in frozen then BootstrapTier
                            else OutcomeOf(src, tgt, keys[i], reply(keys[i]))))
  }

  lemma RunOneMore(c: Codec, s: State, ops: seq<Op>, op: Op)
    ensures Run(c, s, ops + [op]) == Step(c, Run(c, s, ops), op)
  {
    assert (ops + [op])[..|ops|] == ops;
  }

  lemma {:induction false} ObservedAfterMigration(c: Codec, s: State, src: Contents, keys: seq<string>,
                                                  frozen: set<string>, reply: string -> Reply, k: string)
    requires Distinct(keys)
    ensures ObservedAt(c, Run(c, s, MigrationOps(src, Observed(c, s), keys, frozen, reply)), k)
         == if k in keys && k !in frozen then HeldAfter(src, Observed(c, s), k, RepliesOf(c, src, reply)(k))
            else ObservedAt(c, s, k)
  {
    if keys != [] {
      var n := |keys| - 1;
      var tgt := Observed(c, s);
      ObservedAfterMigration(c, s, src, keys[..n], frozen, reply, k);
      DistinctPrefix(keys, n);
      assert k in keys <==> k in keys[..n] || k == keys[n];
      var ops := MigrationOps(src, tgt, keys[..n], frozen, reply);
      if Wanted(src, tgt, frozen, keys[n]) {
        var op := PutOf(src, keys[n], reply(keys[n]));
        RunOneMore(c, s, ops, op);
        StoreStepIsInterfaceStep(c, Run(c, s, ops), op, k);
        assert Lookup(tgt, keys[n]) == None;
      } else {
        assert ops + [] == ops;
      }
    }
  }

  /** Carrying the writes out on the store is a migration, seen through the interface. */
  lemma StoreMigrates(c: Codec, s: State, src: Contents, keys: seq<string>, frozen: set<string>,
                      reply: string -> Reply)
    requires Distinct(keys)
    ensures var tgt := Observed(c, s);
            var now := Run(c, s, MigrationOps(src, tgt, keys, frozen, reply));
            Migrated(src, tgt, keys, frozen, RepliesOf(c, src, reply), Observed(c, now),
                     Lines(src, tgt, keys, frozen, RepliesOf(c, src, reply)))
  {
    var tgt := Observed(c, s);
    var now := Run(c, s, MigrationOps(src, tgt, keys, frozen, reply));
    forall k ensures Lookup(Observed(c, now), k)
                  == if k in keys && k !in frozen then HeldAfter(src, tgt, k, RepliesOf(c, src, reply)(k))
                     else Lookup(tgt, k)
    {
      ObservedAfterMigration(c, s, src, keys, frozen, reply, k);
    }
  }

  /** The last calls of a migration on a key: its one write, if there was one. */
  lemma {:induction false} LastWriteOf(src: Contents, tgt: Contents, keys: seq<string>, frozen: set<string>,
                                       reply: string -> Reply, k: string)
    ensures var ops := MigrationOps(src, tgt, keys, frozen, reply);
            var wrote := k in keys && Wanted(src, tgt, frozen, k);
            && LastEffect(ops, k) == (if wrote && !reply(k).Rejected? then Some(PutOf(src, k, reply(k))) else None)
            && LastDone(ops, k) == (if wrote && reply(k).Done? then Some(PutOf(src, k, reply(k))) else None)
  {
    if keys != [] {
      var n := |keys| - 1;
      LastWriteOf(src, tgt, keys[..n], frozen, reply, k);
      assert k in keys <==> k in keys[..n] || k == keys[n];
      var ops := MigrationOps(src, tgt, keys[..n], frozen, reply);
      if Wanted(src, tgt, frozen, keys[n]) {
        var op := PutOf(src, keys[n], reply(keys[n]));
        assert (ops + [op])[..|ops|] == ops;
      } else {
        assert ops + [] == ops;
      }
    }
  }

  /** The values a store takes and does not give back at all. */
  predicate Vanishes(c: Codec, value: string) {
    match c
    case AppSecretsTable(_) => value == ""
    case InfisicalFolder => value == ""
    case SecretsDirectory => Trim(value) == ""
    case AppConfigTable => false
    case ConfigDirectory => false
  }

  /**
  After a migration into a store behind a cache, lost writes included, the next process
  reads a key as this one does exactly when the key was not written, or its write reported
  success and the value round-trips, or its write was lost and the value vanishes.
  */
  lemma RestartKeepsReadsIff(c: Codec, s: State, names: set<string>, src: Contents, keys: seq<string>,
                             frozen: set<string>, reply: string -> Reply, k: string)
    requires !c.SecretsDirectory? && s.cache == Fresh(c, s.rows, names) && k in names
    ensures var tgt := Observed(c, s);
            var now := Run(c, s, MigrationOps(src, tgt, keys, frozen, reply));
            FreshAt(c, now.rows, k) == Get(Observed(c, now), k) <==>
            (k in keys && Wanted(src, tgt, frozen, k) ==>
               match reply(k)
               case Done => RoundTrips(c, Get(src, k).value)
               case Rejected => true
               case Lost => Vanishes(c, Get(src, k).value))
  {
    var tgt := Observed(c, s);
    var ops := MigrationOps(src, tgt, keys, frozen, reply);
    var now := Run(c, s, ops);
    CoherentIff(c, s, names, ops, k);
    LastWriteOf(src, tgt, keys, frozen, reply, k);
    assert Lookup(Observed(c, now), k) == ObservedAt(c, now, k);
    if Wanted(src, tgt, frozen, k) {
      assert Lookup(tgt, k) == ObservedAt(c, s, k);
      FreshReadIff(c, Get(src, k).value);
    }
  }

  /**
  A lost write is the case an operator cannot see: the line says "failed", the running
  process does not hold the key, and the next one serves it.
  */
  lemma FailedMoveIsServedAfterRestart(c: Codec, s: State, src: Contents, keys: seq<string>, frozen: set<string>,
                                       reply: string -> Reply, i: nat)
    requires !c.SecretsDirectory? && Distinct(keys) && i < |keys|
    requires Wanted(src, Observed(c, s), frozen, keys[i]) && reply(keys[i]).Lost?
    requires RoundTrips(c, Get(src, keys[i]).value)
    ensures var now := Run(c, s, MigrationOps(src, Observed(c, s), keys, frozen, reply));
            && Lines(src, Observed(c, s), keys, frozen, RepliesOf(c, src, reply))[i].outcome == Failed
            && Get(Observed(c, now), keys[i]) == None
            && FreshAt(c, now.rows, keys[i]) == Get(src, keys[i])
  {
    var k, tgt := keys[i], Observed(c, s);
    var ops := MigrationOps(src, tgt, keys, frozen, reply);
    var now := Run(c, s, ops);
    LastWriteOf(src, tgt, keys, frozen, reply, k);
    LastCallsDecide(c, s, ops, k);
    FreshOfRow(c, now.rows, k);
    FreshReadIff(c, Get(src, k).value);
    assert Lookup(tgt, k) == ObservedAt(c, s, k) && Lookup(Observed(c, now), k) == ObservedAt(c, now, k);
  }

  // ---- The next process ----

  predicate SecretCodec(c: Codec) {
    c.AppSecretsTable? || c.InfisicalFolder? || c.SecretsDirectory?
  }

  /** The process built its provider from the rows; the secrets directory has no cache to build. */
  ghost predicate BuiltFromRows(c: Codec, s: State, names: set<string>) {
    c.SecretsDirectory? || s.cache == Fresh(c, s.rows, names)
  }

  /** What a process that builds the provider from `rows` holds of `names`. */
  function FreshContents(c: Codec, rows: map<string, Row>, names: set<string>): (held: Contents)
    ensures forall n :: Lookup(held, n) == if n in names && FreshAt(c, rows, n).Some?
                                           then Some(Readable(FreshAt(c, rows, n).value)) else None
  {
    map n | n in names && FreshAt(c, rows, n).Some? :: Readable(FreshAt(c, rows, n).value)
  }

  /** The slots of a process in which provider `kind` holds `held`. */
  function Rebuilt(slots: Slots, kind: nat, held: Contents): Slots
    requires Built(slots, kind)
  {
    slots[kind := Some(slots[kind].value.(held := held))]
  }

  /** A provider built from its rows holds what it observes of the governed secrets. */
  lemma BuildIsObserved(c: Codec, s: State, secrets: seq<string>, name: string)
    requires BuiltFromRows(c, s, AsSet(secrets)) && name in secrets
    ensures Lookup(Observed(c, s), name) == Lookup(FreshContents(c, s.rows, AsSet(secrets)), name)
  {
    assert name in AsSet(secrets);
    assert Lookup(Observed(c, s), name) == ObservedAt(c, s, name);
  }

  ghost predicate NoBlank(held: Contents, secrets: seq<string>) {
    forall s :: s in secrets ==> Get(held, s) != Some("")
  }

  /** Built from its rows, no secret store holds a blank value. */
  lemma BuildIsNotBlank(c: Codec, s: State, secrets: seq<string>)
    requires SecretCodec(c) && BuiltFromRows(c, s, AsSet(secrets))
    ensures NoBlank(Observed(c, s), secrets)
  {
    forall name | name in secrets ensures Get(Observed(c, s), name) != Some("") {
      BuildIsObserved(c, s, secrets, name);
      FreshOfRow(c, s.rows, name);
    }
  }

  // ---- Migrating into a store ----

  /** The store after a migration of all secrets from `src`. */
  function Filled(c: Codec, store: State, src: Contents, secrets: seq<string>, reply: string -> Reply): State {
    Run(c, store, MigrationOps(src, Observed(c, store), secrets, {}, reply))
  }

  function SecretLines(c: Codec, store: State, src: Contents, secrets: seq<string>,
                       reply: string -> Reply): seq<MoveLine>
  {
    Lines(src, Observed(c, store), secrets, {}, RepliesOf(c, src, reply))
  }

  /** A line that is not "failed" on a key that was written means the write reported success. */
  lemma CleanWriteIsDone(c: Codec, store: State, src: Contents, secrets: seq<string>, reply: string -> Reply, s: string)
    requires NoFailure(SecretLines(c, store, src, secrets, reply))
    requires s in secrets && Wanted(src, Observed(c, store), {}, s)
    ensures reply(s).Done?
  {
    var i :| 0 <= i < |secrets| && secrets[i] == s;
    assert SecretLines(c, store, src, secrets, reply)[i].outcome != Failed;
  }

  /** After a clean migration the rows rebuild what the migrating process observes of every secret. */
  lemma FilledRebuilds(c: Codec, store: State, src: Contents, secrets: seq<string>, reply: string -> Reply, s: string)
    requires SecretCodec(c) && BuiltFromRows(c, store, AsSet(secrets)) && s in secrets
    requires Get(src, s) != Some("")
    requires NoFailure(SecretLines(c, store, src, secrets, reply))
    ensures var now := Filled(c, store, src, secrets, reply);
            Lookup(FreshContents(c, now.rows, AsSet(secrets)), s) == Lookup(Observed(c, now), s)
  {
    var now := Filled(c, store, src, secrets, reply);
    assert s in AsSet(secrets);
    assert Lookup(Observed(c, now), s) == ObservedAt(c, now, s);
    if !c.SecretsDirectory? {
      RestartKeepsReadsIff(c, store, AsSet(secrets), src, secrets, {}, reply, s);
      if Wanted(src, Observed(c, store), {}, s) {
        CleanWriteIsDone(c, store, src, secrets, reply, s);
      }
    }
  }

  lemma FilledIsMigrated(before: Slots, a: nat, b: nat, secrets: seq<string>, c: Codec, store: State,
                         reply: string -> Reply)
    requires a != b && Distinct(secrets) && Built(before, a) && Built(before, b)
    requires before[b].value.held == Observed(c, store)
    ensures var src := before[a].value.held;
            SecretsMigrated(before, a, b, secrets, RepliesOf(c, src, reply),
                            Rebuilt(before, b, Observed(c, Filled(c, store, src, secrets, reply))),
                            MigrateReport.Visited(SecretLines(c, store, src, secrets, reply)))
  {
    StoreMigrates(c, store, before[a].value.held, secrets, {}, reply);
  }

  lemma RebuiltIsSame(slots: Slots, kind: nat, x: Contents, y: Contents, secrets: seq<string>)
    requires Built(slots, kind)
    requires forall s :: s in secrets ==> Lookup(x, s) == Lookup(y, s)
    ensures SameSecrets(Rebuilt(slots, kind, x), Rebuilt(slots, kind, y), secrets)
  {
  }

  // ---- Purging a store ----

  function DropsOf(names: seq<string>, reply: string -> Reply): seq<Op> {
    if names == [] then []
    else DropsOf(names[..|names| - 1], reply) + [Drop(names[|names| - 1], reply(names[|names| - 1]))]
  }

  lemma {:induction false} LastDropOf(names: seq<string>, reply: string -> Reply, k: string)
    ensures var ops := DropsOf(names, reply);
            && LastEffect(ops, k) == (if k in names && !reply(k).Rejected? then Some(Drop(k, reply(k))) else None)
            && LastDone(ops, k) == (if k in names && reply(k).Done? then Some(Drop(k, reply(k))) else None)
  {
    if names != [] {
      var n := |names| - 1;
      LastDropOf(names[..n], reply, k);
      assert k in names <==> k in names[..n] || k == names[n];
      assert DropsOf(names, reply)[..|DropsOf(names, reply)| - 1] == DropsOf(names[..n], reply);
    }
  }

  /** The store of a purged provider, after the deletes the purge calls. */
  function Emptied(c: Codec, store: State, slots: Slots, kind: nat, selection: nat, secrets: seq<string>,
                   reply: string -> Reply): State
  {
    Run(c, store, DropsOf(DeleteCalls(secrets, SecretFates(slots, kind, selection, secrets), true), reply))
  }

  lemma {:induction false} DeleteCallsAre(keys: seq<string>, fates: seq<Fate>)
    requires |keys| == |fates|
    ensures forall k :: k in DeleteCalls(keys, fates, true) <==>
              exists i :: 0 <= i < |keys| && keys[i] == k && fates[i].Deletable?
  {
    if keys != [] {
      var n := |keys| - 1;
      DeleteCallsAre(keys[..n], fates[..n]);
      var before := DeleteCalls(keys[..n], fates[..n], true);
      forall k ensures k in DeleteCalls(keys, fates, true) <==>
                       exists i :: 0 <= i < |keys| && keys[i] == k && fates[i].Deletable?
      {
        if k in before {
          var i :| 0 <= i < n && keys[..n][i] == k && fates[..n][i].Deletable?;
          assert keys[i] == k && fates[i].Deletable?;
        }
        if i :| 0 <= i < n && keys[i] == k && fates[i].Deletable? {
          assert keys[..n][i] == k && fates[..n][i].Deletable?;
        }
      }
    }
  }

  lemma SecretDeleted(slots: Slots, kind: nat, selection: nat, secrets: seq<string>, s: string)
    requires s in secrets
    ensures s in DeleteCalls(secrets, SecretFates(slots, kind, selection, secrets), true) <==>
            SecretFate(slots, kind, selection, s).Deletable?
  {
    DeleteCallsAre(secrets, SecretFates(slots, kind, selection, secrets));
    var i :| 0 <= i < |secrets| && secrets[i] == s;
  }

  /**
  A purge carried out on the rows: what the purging process then observes of a secret is
  what the interface promises, and the next process holds that or, after a lost delete, nothing.
  */
  lemma EmptiedStore(slots: Slots, kind: nat, selection: nat, secrets: seq<string>, c: Codec, store: State,
                     reply: string -> Reply, s: string)
    requires Built(slots, kind) && slots[kind].value.held == Observed(c, store)
    requires BuiltFromRows(c, store, AsSet(secrets)) && s in secrets
    ensures var now := Emptied(c, store, slots, kind, selection, secrets, reply);
            var gone := SecretFate(slots, kind, selection, s).Deletable? && AsDeleteReply(c, reply(s)).Gone();
            var next := Lookup(FreshContents(c, now.rows, AsSet(secrets)), s);
            && ObservedAt(c, now, s) == (if gone then None else Lookup(slots[kind].value.held, s))
            && (next == None || next == ObservedAt(c, now, s))
  {
    var calls := DeleteCalls(secrets, SecretFates(slots, kind, selection, secrets), true);
    var ops := DropsOf(calls, reply);
    var now := Run(c, store, ops);
    SecretDeleted(slots, kind, selection, secrets, s);
    LastDropOf(calls, reply, s);
    LastCallsDecide(c, store, ops, s);
    FreshOfRow(c, now.rows, s);
    FreshOfRow(c, store.rows, s);
    assert Lookup(Observed(c, store), s) == ObservedAt(c, store, s);
    BuildIsObserved(c, store, secrets, s);
  }

  // ---- The workflow across processes ----

  /**
  The whole workflow on the stores. Accepted under `a`; migrate `a` into the store of `b`
  without a failed line; the next process builds `b` from its rows and boots; a purge of
  `a` follows, on the rows of `a`; the last process builds `a` from what is left and boots.
  Both boots are accepted under `b`, every secret reads what was promised, and `a` holds
  nothing when every delete reports success.
  */
  lemma WorkflowOnStores(s0: Slots, a: nat, b: nat, table: seq<(string, nat)>, secrets: seq<string>,
                         ca: Codec, storeA: State, cb: Codec, storeB: State,
                         writes: string -> Reply, deletes: string -> Reply, s2: Slots, purged: PurgeReport)
    requires a != b && NoRowNames(table, a) && Distinct(secrets)
    requires Built(s0, a) && Built(s0, b) && s0[a].value.writable
    requires Accepted(s0, Declarations(a, table), secrets) && AllReadable(s0)
    requires SecretCodec(ca) && s0[a].value.held == Observed(ca, storeA) && BuiltFromRows(ca, storeA, AsSet(secrets))
    requires SecretCodec(cb) && s0[b].value.held == Observed(cb, storeB) && BuiltFromRows(cb, storeB, AsSet(secrets))
    requires NoFailure(SecretLines(cb, storeB, s0[a].value.held, secrets, writes))
    requires SecretsPurged(Booted(s0, a, b, secrets, cb, storeB, writes), a, b, secrets, true,
                           s => AsDeleteReply(ca, deletes(s)), s2, purged)
    ensures var d := Declarations(b, table);
            var s1 := Booted(s0, a, b, secrets, cb, storeB, writes);
            var s3 := Rebuilt(s2, a, FreshContents(ca, Emptied(ca, storeA, s1, a, b, secrets, deletes).rows,
                                                   AsSet(secrets)));
            && Accepted(s1, d, secrets) && Accepted(s3, d, secrets)
            && (forall s :: s in secrets ==>
                  && SecretGet(s1, d, s) == PromisedRead(s0, a, b, table, s)
                  && SecretGet(s3, d, s) == PromisedRead(s0, a, b, table, s))
            && ((forall s :: s in secrets ==> deletes(s).Done?) ==> forall s :: s in secrets ==> !Has(s3, a, s))
  {
    var src := s0[a].value.held;
    var after := Rebuilt(s0, b, Observed(cb, Filled(cb, storeB, src, secrets, writes)));
    var s1 := Booted(s0, a, b, secrets, cb, storeB, writes);
    var left := FreshContents(ca, Emptied(ca, storeA, s1, a, b, secrets, deletes).rows, AsSet(secrets));
    var s3 := Rebuilt(s2, a, left);
    FilledIsMigrated(s0, a, b, secrets, cb, storeB, writes);
    BuildIsNotBlank(ca, storeA, secrets);
    BootedIsSame(s0, a, b, secrets, cb, storeB, writes);
    PurgedIsRebuilt(s1, a, b, secrets, ca, storeA, deletes, s2, purged);
    OperatorWorkflow(s0, a, b, table, secrets, RepliesOf(cb, src, writes), after,
                     MigrateReport.Visited(SecretLines(cb, storeB, src, secrets, writes)), s1,
                     s => AsDeleteReply(ca, deletes(s)), s2, purged, s3);
  }

  /** The process that boots after the migration: `b` built from its rows, the rest as before. */
  function Booted(s0: Slots, a: nat, b: nat, secrets: seq<string>, c: Codec, store: State,
                  reply: string -> Reply): Slots
    requires Built(s0, a) && Built(s0, b)
  {
    Rebuilt(s0, b, FreshContents(c, Filled(c, store, s0[a].value.held, secrets, reply).rows, AsSet(secrets)))
  }

  lemma BootedIsSame(s0: Slots, a: nat, b: nat, secrets: seq<string>, c: Codec, store: State, reply: string -> Reply)
    requires Built(s0, a) && Built(s0, b) && SecretCodec(c) && BuiltFromRows(c, store, AsSet(secrets))
    requires NoBlank(s0[a].value.held, secrets)
    requires NoFailure(SecretLines(c, store, s0[a].value.held, secrets, reply))
    ensures SameSecrets(Rebuilt(s0, b, Observed(c, Filled(c, store, s0[a].value.held, secrets, reply))),
                        Booted(s0, a, b, secrets, c, store, reply), secrets)
  {
    var src := s0[a].value.held;
    var now := Filled(c, store, src, secrets, reply);
    var anew := FreshContents(c, now.rows, AsSet(secrets));
    forall s | s in secrets ensures Lookup(Observed(c, now), s) == Lookup(anew, s) {
      FilledRebuilds(c, store, src, secrets, reply, s);
    }
    RebuiltIsSame(s0, b, Observed(c, now), anew, secrets);
  }

  /** The process after the purge holds no more of the purged provider than the purging one saw. */
  lemma PurgedIsRebuilt(s1: Slots, a: nat, b: nat, secrets: seq<string>, c: Codec, store: State,
                        reply: string -> Reply, s2: Slots, purged: PurgeReport)
    requires a != b && Built(s1, a) && s1[a].value.held == Observed(c, store)
    requires BuiltFromRows(c, store, AsSet(secrets))
    requires SecretsPurged(s1, a, b, secrets, true, s => AsDeleteReply(c, reply(s)), s2, purged)
    ensures Built(s2, a)
    ensures NoMoreIn(s2, a, Rebuilt(s2, a, FreshContents(c, Emptied(c, store, s1, a, b, secrets, reply).rows,
                                                         AsSet(secrets))), secrets)
  {
    var now := Emptied(c, store, s1, a, b, secrets, reply);
    var left := FreshContents(c, now.rows, AsSet(secrets));
    forall s | s in secrets ensures Lookup(left, s).None? || Lookup(left, s) == Lookup(s2[a].value.held, s) {
      EmptiedStore(s1, a, b, secrets, c, store, reply, s);
    }
  }
}
