/**
Whole operator sessions on one configuration store, and what they leave alone.
*/
module BootstrapRows {
  import opened Base
  import opened Providers
  import opened WriteThrough
  import opened StoreProviders
  import opened Migration
  import opened Purging
  import opened Registry
  import opened ConfigChain
  import opened Restarts
  import ConfigOperator

  /** What an operator does to one configuration store. */
  datatype Command =
    | Direct(op: Op)
    | MigrateInto(src: Contents, writes: string -> Reply)
    | PurgeFrom(chain: seq<Layer>, position: nat, kind: Kind, deletes: string -> Reply)

  /** The calls a command makes on the store, before the provider's own guard. */
  function CallsOf(c: Codec, registry: seq<ConfigKey>, s: State, cmd: Command): seq<Op> {
    match cmd
    case Direct(op) => [op]
    case MigrateInto(src, writes) =>
      MigrationOps(src, Observed(c, s), KeyNames(registry), BootstrapNames(registry), writes)
    case PurgeFrom(chain, position, kind, deletes) =>
      if position >= |chain| then []
      else
        var fates := ConfigOperator.ConfigFates(chain, position, kind, registry);
        DropsOf(DeleteCalls(KeyNames(registry), fates, true), deletes)
  }

  function Session(c: Codec, registry: seq<ConfigKey>, s: State, cmds: seq<Command>): State {
    if cmds == [] then s
    else
      var before := Session(c, registry, s, cmds[..|cmds| - 1]);
      Run(c, before, GuardAll(BootstrapNames(registry), CallsOf(c, registry, before, cmds[|cmds| - 1])))
  }

  /**
  Over every session of writes, deletes, migrations and purges on a configuration store, no
  row, file or cached value under a bootstrap-tier key changes.
  */
  lemma {:induction false} SessionsKeepBootstrapRows(c: Codec, registry: seq<ConfigKey>, s: State,
                                                     cmds: seq<Command>, key: string)
    requires key in BootstrapNames(registry)
    ensures var now := Session(c, registry, s, cmds);
            Lookup(now.rows, key) == Lookup(s.rows, key) && Lookup(now.cache, key) == Lookup(s.cache, key)
  {
    if cmds != [] {
      var n := |cmds| - 1;
      SessionsKeepBootstrapRows(c, registry, s, cmds[..n], key);
      var before := Session(c, registry, s, cmds[..n]);
      RunsKeepFrozenNames(c, before, BootstrapNames(registry), CallsOf(c, registry, before, cmds[n]), key);
    }
  }

  /** Migrations and purges do not even ask: no call of theirs names a bootstrap-tier key. */
  lemma CommandsNeverNameBootstrapKeys(c: Codec, registry: seq<ConfigKey>, s: State, cmd: Command, key: string)
    requires Distinct(KeyNames(registry)) && key in BootstrapNames(registry) && !cmd.Direct?
    ensures NamesNone(CallsOf(c, registry, s, cmd), {key})
  {
    match cmd {
      case MigrateInto(src, writes) =>
        MigrationNames(src, Observed(c, s), KeyNames(registry), BootstrapNames(registry), writes);
        assert CallsOf(c, registry, s, cmd)
            == MigrationOps(src, Observed(c, s), KeyNames(registry), BootstrapNames(registry), writes);
      case PurgeFrom(chain, position, kind, deletes) =>
        if position < |chain| {
          var fates := ConfigOperator.ConfigFates(chain, position, kind, registry);
          DeleteCallsAre(KeyNames(registry), fates);
          DropNames(DeleteCalls(KeyNames(registry), fates, true), deletes);
          BootstrapIsNotDeletable(chain, position, kind, registry, key);
        }
    }
  }

  lemma BootstrapIsNotDeletable(chain: seq<Layer>, t: nat, kind: Kind, registry: seq<ConfigKey>, key: string)
    requires t < |chain| && Distinct(KeyNames(registry)) && key in BootstrapNames(registry)
    ensures forall i :: 0 <= i < |registry| && KeyNames(registry)[i] == key ==>
              !ConfigOperator.ConfigFates(chain, t, kind, registry)[i].Deletable?
  {
    var n :| 0 <= n < |registry| && registry[n].tier == Tier.Bootstrap && registry[n].name == key;
    assert KeyNames(registry)[n] == key;
  }

  // ---- A step of a session is the command ----

  lemma {:induction false} GuardIsIdle(frozen: set<string>, ops: seq<Op>)
    requires NamesNone(ops, frozen)
    ensures GuardAll(frozen, ops) == ops
  {
    if ops != [] {
      GuardIsIdle(frozen, ops[..|ops| - 1]);
    }
  }

  /** Deletes carried out on a store, seen through the provider interface. */
  lemma {:induction false} ObservedAfterDrops(c: Codec, s: State, calls: seq<string>, reply: string -> Reply, k: string)
    ensures ObservedAt(c, Run(c, s, DropsOf(calls, reply)), k)
         == if k in calls && AsDeleteReply(c, reply(k)).Gone() then None else ObservedAt(c, s, k)
  {
    if calls != [] {
      var n := |calls| - 1;
      var before := DropsOf(calls[..n], reply);
      var op := Drop(calls[n], reply(calls[n]));
      ObservedAfterDrops(c, s, calls[..n], reply, k);
      RunOneMore(c, s, before, op);
      StoreStepIsInterfaceStep(c, Run(c, s, before), op, k);
      assert k in calls <==> k in calls[..n] || k == calls[n];
    }
  }

  /** What the last command of a session did to the store, seen through the provider interface. */
  lemma SessionStepIs(c: Codec, registry: seq<ConfigKey>, s: State, cmds: seq<Command>)
    requires Distinct(KeyNames(registry)) && cmds != []
    ensures var n := |cmds| - 1;
            var before := Session(c, registry, s, cmds[..n]);
            var now := Session(c, registry, s, cmds);
            match cmds[n]
            case Direct(op) => now == if op.name in BootstrapNames(registry) then before else Step(c, before, op)
            case MigrateInto(src, writes) =>
              var tgt := Observed(c, before);
              Migrated(src, tgt, KeyNames(registry), BootstrapNames(registry), RepliesOf(c, src, writes),
                       Observed(c, now),
                       Lines(src, tgt, KeyNames(registry), BootstrapNames(registry), RepliesOf(c, src, writes)))
            case PurgeFrom(chain, t, kind, deletes) =>
              t < |chain| && chain[t].held == Observed(c, before) ==>
                LeftBehind(chain[t].held, KeyNames(registry),
                           ConfigOperator.ConfigFates(chain, t, kind, registry), true,
                           k => AsDeleteReply(c, deletes(k)), Observed(c, now))
  {
    var n := |cmds| - 1;
    var frozen := BootstrapNames(registry);
    var before := Session(c, registry, s, cmds[..n]);
    match cmds[n] {
      case Direct(op) => DirectStep(c, frozen, before, op);
      case MigrateInto(src, writes) =>
        MigrationNames(src, Observed(c, before), KeyNames(registry), frozen, writes);
        GuardIsIdle(frozen, MigrationOps(src, Observed(c, before), KeyNames(registry), frozen, writes));
        StoreMigrates(c, before, src, KeyNames(registry), frozen, writes);
      case PurgeFrom(chain, t, kind, deletes) =>
        if t < |chain| && chain[t].held == Observed(c, before) {
          PurgeStep(c, registry, before, chain, t, kind, deletes);
        }
    }
  }

  lemma DirectStep(c: Codec, frozen: set<string>, before: State, op: Op)
    ensures Run(c, before, GuardAll(frozen, [op])) == if op.name in frozen then before else Step(c, before, op)
  {
    assert [op][..0] == [];
    RunOneMore(c, before, [], op);
  }

  lemma PurgeStep(c: Codec, registry: seq<ConfigKey>, before: State, chain: seq<Layer>, t: nat, kind: Kind,
                  deletes: string -> Reply)
    requires Distinct(KeyNames(registry)) && t < |chain| && chain[t].held == Observed(c, before)
    ensures var now := Run(c, before, GuardAll(BootstrapNames(registry),
                                               CallsOf(c, registry, before, PurgeFrom(chain, t, kind, deletes))));
            LeftBehind(chain[t].held, KeyNames(registry), ConfigOperator.ConfigFates(chain, t, kind, registry), true,
                       k => AsDeleteReply(c, deletes(k)), Observed(c, now))
  {
    var keys, fates := KeyNames(registry), ConfigOperator.ConfigFates(chain, t, kind, registry);
    var calls := DeleteCalls(keys, fates, true);
    var ops := DropsOf(calls, deletes);
    forall i | 0 <= i < |ops| ensures ops[i].name !in BootstrapNames(registry) {
      if ops[i].name in BootstrapNames(registry) {
        CommandsNeverNameBootstrapKeys(c, registry, before, PurgeFrom(chain, t, kind, deletes), ops[i].name);
        assert false;
      }
    }
    GuardIsIdle(BootstrapNames(registry), ops);
    DropsLeave(c, before, chain[t].held, keys, fates, deletes);
  }

  lemma DropsLeave(c: Codec, before: State, held: Contents, keys: seq<string>, fates: seq<Fate>,
                   deletes: string -> Reply)
    requires Distinct(keys) && |keys| == |fates| && held == Observed(c, before)
    ensures LeftBehind(held, keys, fates, true, k => AsDeleteReply(c, deletes(k)),
                       Observed(c, Run(c, before, DropsOf(DeleteCalls(keys, fates, true), deletes))))
  {
    var calls := DeleteCalls(keys, fates, true);
    var now := Run(c, before, DropsOf(calls, deletes));
    DeleteCallsAre(keys, fates);
    forall k ensures Lookup(Observed(c, now), k)
                  == if k in calls && AsDeleteReply(c, deletes(k)).Gone() then None else Lookup(held, k)
    {
      ObservedAfterDrops(c, before, calls, deletes, k);
    }
    assert forall i :: 0 <= i < |keys| ==> (keys[i] in calls <==> fates[i].Deletable?);
  }

  ghost predicate NamesNone(ops: seq<Op>, frozen: set<string>) {
    forall i :: 0 <= i < |ops| ==> ops[i].name !in frozen
  }

  lemma {:induction false} MigrationNames(src: Contents, tgt: Contents, keys: seq<string>, frozen: set<string>,
                                          reply: string -> Reply)
    ensures NamesNone(MigrationOps(src, tgt, keys, frozen, reply), frozen)
  {
    if keys != [] {
      var n := |keys| - 1;
      MigrationNames(src, tgt, keys[..n], frozen, reply);
      var before := MigrationOps(src, tgt, keys[..n], frozen, reply);
      if Wanted(src, tgt, frozen, keys[n]) {
        assert MigrationOps(src, tgt, keys, frozen, reply) == before + [PutOf(src, keys[n], reply(keys[n]))];
      } else {
        assert before + [] == before;
        assert MigrationOps(src, tgt, keys, frozen, reply) == before;
      }
    }
  }

  lemma {:induction false} DropNames(names: seq<string>, reply: string -> Reply)
    ensures forall i :: 0 <= i < |DropsOf(names, reply)| ==> DropsOf(names, reply)[i].name in names
  {
    if names != [] {
      DropNames(names[..|names| - 1], reply);
    }
  }
}
