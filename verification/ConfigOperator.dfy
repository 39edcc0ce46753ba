/**
The operator commands on configuration: `provider-migrate` and `provider-purge`
over a provider chain, and what whole runs of them leave alone.
*/
module ConfigOperator {
  import opened Base
  import opened Providers
  import opened Migration
  import opened Purging
  import opened ConfigChain
  import opened Registry

  // ---- The chain as the commands see it ----

  datatype Link = Link(kind: Kind, provider: Provider)

  function Objects(chain: seq<Link>): set<Provider> {
    set i | 0 <= i < |chain| :: chain[i].provider
  }

  function Layers(chain: seq<Link>): (layers: seq<Layer>)
    reads Objects(chain)
    ensures |layers| == |chain|
    ensures forall i :: 0 <= i < |layers| ==> layers[i] == Layer(chain[i].kind, chain[i].provider.held)
  {
    seq(|chain|, i requires 0 <= i < |chain| reads Objects(chain) => Layer(chain[i].kind, chain[i].provider.held))
  }

  /** Every link has its own provider object. */
  ghost predicate Separate(chain: seq<Link>) {
    forall i, j :: 0 <= i < j < |chain| ==> chain[i].provider != chain[j].provider
  }

  /** `provider_for`: the first provider of a kind. */
  function PositionOf(kinds: seq<Kind>, kind: Kind): (r: Option<nat>)
    ensures r.Some? ==> r.value < |kinds| && kinds[r.value] == kind && kind !in kinds[..r.value]
    ensures r.None? ==> kind !in kinds
  {
    if kinds == [] then None
    else if kinds[0] == kind then Some(0)
    else
      var rest := PositionOf(kinds[1..], kind);
      if rest.None? then None else Some(rest.value + 1)
  }

  /** Only the contents of layer `t` differ. */
  ghost predicate OnlyLayer(before: seq<Layer>, t: nat, after: seq<Layer>) {
    && |after| == |before| && t < |before|
    && after[t].kind == before[t].kind
    && forall i :: 0 <= i < |before| && i != t ==> after[i] == before[i]
  }

  // ---- provider-migrate ----

  datatype MigrateReport = MigrationSkipped | Visited(lines: seq<MoveLine>)

  ghost predicate ConfigMigrated(before: seq<Layer>, source: Kind, target: Kind, registry: seq<ConfigKey>,
                                 reply: string -> WriteReply, after: seq<Layer>, report: MigrateReport)
  {
    var s, t := PositionOf(Kinds(before), source), PositionOf(Kinds(before), target);
    if s.None? || t.None? then report == MigrationSkipped && after == before
    else
      && OnlyLayer(before, t.value, after)
      && report.Visited?
      && Migrated(before[s.value].held, before[t.value].held, KeyNames(registry), BootstrapNames(registry),
                  reply, after[t.value].held, report.lines)
  }

  method MigrateConfig(source: Kind, target: Kind, chain: seq<Link>, registry: seq<ConfigKey>,
                       reply: string -> WriteReply)
    returns (report: MigrateReport)
    requires source != target && Separate(chain) && Distinct(KeyNames(registry))
    modifies Objects(chain)`held
    ensures ConfigMigrated(old(Layers(chain)), source, target, registry, reply, Layers(chain), report)
  {
    var kinds := Kinds(Layers(chain));
    var s, t := PositionOf(kinds, source), PositionOf(kinds, target);
    if s.None? || t.None? {
      return MigrationSkipped;
    }
    var lines := MigrateKeys(KeyNames(registry), BootstrapNames(registry),
                             chain[s.value].provider, chain[t.value].provider, reply);
    report := Visited(lines);
  }

  /**
  A configuration migration from layer `s` to layer `t`, key by key: it is carried out when
  both kinds are in the chain, a bootstrap-tier key gets a line and nothing else, and every
  other line says what source and target held before it and what the target reads after.
  */
  lemma ConfigMigrationExactly(before: seq<Layer>, s: nat, t: nat, registry: seq<ConfigKey>,
                               reply: string -> WriteReply, after: seq<Layer>, report: MigrateReport, n: nat)
    requires s < |before| && t < |before| && Distinct(Kinds(before)) && Distinct(KeyNames(registry)) && n < |registry|
    requires ConfigMigrated(before, before[s].kind, before[t].kind, registry, reply, after, report)
    ensures report.Visited? && |report.lines| == |registry| && OnlyLayer(before, t, after)
    ensures var key, outcome := registry[n].name, report.lines[n].outcome;
            var src, tgt, app := before[s].held, before[t].held, registry[n].tier == Application;
            && report.lines[n].key == key
            && (outcome == BootstrapTier <==> !app)
            && (outcome == SourceLacks <==> app && Get(src, key).None?)
            && (outcome == TargetHolds <==> app && Get(src, key).Some? && key in tgt)
            && (outcome == Moved <==> app && Get(src, key).Some? && key !in tgt && !reply(key).Rejected?
                                      && !reply(key).Lost? && Get(after[t].held, key) == Get(src, key))
            && (!app || key in tgt || Get(src, key).None? ==> Lookup(after[t].held, key) == Lookup(tgt, key))
  {
    KindAt(before, s);
    KindAt(before, t);
    assert KeyNames(registry)[n] == registry[n].name;
    BootstrapNamesAre(registry, registry[n].name);
    MigrationLinesSay(before[s].held, before[t].held, KeyNames(registry), BootstrapNames(registry), reply,
                      after[t].held, report.lines, n);
  }

  lemma KindAt(chain: seq<Layer>, t: nat)
    requires t < |chain| && Distinct(Kinds(chain))
    ensures PositionOf(Kinds(chain), chain[t].kind) == Some(t)
  {
    var found := PositionOf(Kinds(chain), chain[t].kind);
    assert Kinds(chain)[t] == chain[t].kind;
    assert found.Some?;
    assert Kinds(chain)[found.value] == Kinds(chain)[t];
  }

  /** A kind the chain lacks skips the migration. */
  lemma MigrationSkippedIff(before: seq<Layer>, source: Kind, target: Kind, registry: seq<ConfigKey>,
                            reply: string -> WriteReply, after: seq<Layer>, report: MigrateReport)
    requires ConfigMigrated(before, source, target, registry, reply, after, report)
    ensures report.MigrationSkipped? <==>
            !(exists s, t :: 0 <= s < |before| && 0 <= t < |before|
                             && before[s].kind == source && before[t].kind == target)
    ensures report.MigrationSkipped? ==> after == before
  {
    assert forall i :: 0 <= i < |before| ==> before[i].kind == Kinds(before)[i];
    var s, t := PositionOf(Kinds(before), source), PositionOf(Kinds(before), target);
    if s.Some? && t.Some? {
      assert before[s.value].kind == source && before[t.value].kind == target;
    }
  }

  // ---- provider-purge ----

  datatype PurgeReport = PurgeSkipped | Purged(lines: seq<PurgeLine>)

  /** What the interlocks decide for one key when layer `t` of kind `kind` is purged. */
  function ConfigFate(chain: seq<Layer>, t: nat, kind: Kind, key: ConfigKey): Fate
    requires t < |chain|
  {
    if key.tier == Tier.Bootstrap then Kept(BootstrapKey)
    else if key.name !in chain[t].held then Silent
    else
      var served := ServingKind(chain, key.name);
      if served == Some(kind) then Kept(Serving)
      else if served.None? then Kept(NobodyServes)
      else
        var serving := PositionOf(Kinds(chain), served.value);
        if serving.None? then Kept(ServingUnreachable)
        else if key.name !in chain[serving.value].held then Kept(ServingNotLive)
        else Deletable
  }

  function ConfigFates(chain: seq<Layer>, t: nat, kind: Kind, registry: seq<ConfigKey>): (fates: seq<Fate>)
    requires t < |chain|
    ensures |fates| == |registry|
    ensures forall i :: 0 <= i < |fates| ==> fates[i] == ConfigFate(chain, t, kind, registry[i])
  {
    seq(|registry|, i requires 0 <= i < |registry| => ConfigFate(chain, t, kind, registry[i]))
  }

  /** Fates, lines and deletions, all decided from the chain before the command. */
  ghost predicate ConfigPurged(before: seq<Layer>, kind: Kind, registry: seq<ConfigKey>, confirm: bool,
                               reply: string -> DeleteReply, after: seq<Layer>, report: PurgeReport)
  {
    var t := PositionOf(Kinds(before), kind);
    if t.None? then report == PurgeSkipped && after == before
    else
      var fates := ConfigFates(before, t.value, kind, registry);
      && OnlyLayer(before, t.value, after)
      && report == Purged(Report(KeyNames(registry), fates, confirm, reply))
      && LeftBehind(before[t.value].held, KeyNames(registry), fates, confirm, reply, after[t.value].held)
  }

  method PurgeConfig(kind: Kind, chain: seq<Link>, registry: seq<ConfigKey>, confirm: bool,
                     reply: string -> DeleteReply)
    returns (report: PurgeReport)
    requires Separate(chain) && Distinct(KeyNames(registry))
    modifies Objects(chain)
    ensures ConfigPurged(old(Layers(chain)), kind, registry, confirm, reply, Layers(chain), report)
    ensures var t := PositionOf(Kinds(old(Layers(chain))), kind);
            t.Some? ==>
              chain[t.value].provider.deletes == old(chain[t.value].provider.deletes)
                + DeleteCalls(KeyNames(registry), ConfigFates(old(Layers(chain)), t.value, kind, registry), confirm)
  {
    var found := PositionOf(Kinds(Layers(chain)), kind);
    if found.None? {
      return PurgeSkipped;
    }
    var lines := PurgeWalk(found.value, kind, chain, registry, confirm, reply);
    report := Purged(lines);
  }

  method PurgeWalk(t: nat, kind: Kind, chain: seq<Link>, registry: seq<ConfigKey>, confirm: bool,
                   reply: string -> DeleteReply)
    returns (lines: seq<PurgeLine>)
    requires t < |chain| && Separate(chain) && Distinct(KeyNames(registry))
    modifies chain[t].provider`held, chain[t].provider`deletes
    ensures var fates := ConfigFates(old(Layers(chain)), t, kind, registry);
            && lines == Report(KeyNames(registry), fates, confirm, reply)
            && chain[t].provider.deletes
            == old(chain[t].provider.deletes) + DeleteCalls(KeyNames(registry), fates, confirm)
            && LeftBehind(old(chain[t].provider.held), KeyNames(registry), fates, confirm, reply,
                          chain[t].provider.held)
  {
    ghost var before := Layers(chain);
    ghost var names, fates := KeyNames(registry), ConfigFates(before, t, kind, registry);
    lines := [];
    ghost var calls: seq<string> := [];
    var target := chain[t].provider;
    for n := 0 to |registry|
      invariant Progress(before[t].held, names, fates, n, confirm, reply, lines, calls, target.held)
      invariant target.deletes == old(target.deletes) + calls
    {
      ProgressOneMore(before[t].held, names, fates, n, confirm, reply, lines, calls, target.held);
      var now := Layers(chain);
      FateDependsOnTheKey(before, now, t, kind, registry[n]);
      var fate := Decide(registry[n], now, t, kind);
      assert fate == fates[n];
      var line := Act(target, registry[n].name, fate, confirm, reply(registry[n].name));
      lines := lines + line;
      calls := calls + if confirm && fates[n].Deletable? then [names[n]] else [];
    }
    ProgressDone(before[t].held, names, fates, confirm, reply, lines, calls, target.held);
  }

  /** The interlocks for one key, against what the chain holds at that moment. */
  method Decide(key: ConfigKey, chain: seq<Layer>, t: nat, kind: Kind) returns (fate: Fate)
    requires t < |chain|
    ensures fate == ConfigFate(chain, t, kind, key)
  {
    if key.tier == Tier.Bootstrap {
      return Kept(BootstrapKey);
    }
    if key.name !in chain[t].held {
      return Silent;
    }
    var resolution := Resolve(chain, key.name);
    ResolvesServes(chain, key.name, resolution);
    if resolution.servedBy == Some(kind) {
      return Kept(Serving);
    }
    if resolution.servedBy.None? {
      return Kept(NobodyServes);
    }
    var serving := PositionOf(Kinds(chain), resolution.servedBy.value);
    if serving.None? {
      return Kept(ServingUnreachable);
    }
    fate := if key.name !in chain[serving.value].held then Kept(ServingNotLive) else Deletable;
  }

  // ---- What decides a fate, and what a purge leaves alone ----

  /** Two chains that agree on one key, layer by layer. */
  ghost predicate AgreeOn(a: seq<Layer>, b: seq<Layer>, key: string) {
    && |a| == |b|
    && forall i :: 0 <= i < |a| ==> a[i].kind == b[i].kind && Lookup(a[i].held, key) == Lookup(b[i].held, key)
  }

  lemma {:induction false} ServiceDependsOnTheKey(a: seq<Layer>, b: seq<Layer>, key: string)
    requires AgreeOn(a, b, key)
    ensures FirstDecodable(a, key) == FirstDecodable(b, key)
    ensures ServingKind(a, key) == ServingKind(b, key) && ServedValue(a, key) == ServedValue(b, key)
  {
    if a != [] {
      var n := |a| - 1;
      ServiceDependsOnTheKey(a[..n], b[..n], key);
      assert Lookup(a[n].held, key) == Lookup(b[n].held, key);
      FirstDecodableExact(a[..n], key);
    }
    FirstDecodableExact(a, key);
    assert forall i :: 0 <= i < |a| ==> (Lookup(a[i].held, key) == Lookup(b[i].held, key));
  }

  lemma FateDependsOnTheKey(a: seq<Layer>, b: seq<Layer>, t: nat, kind: Kind, key: ConfigKey)
    requires OnlyLayer(a, t, b) && Lookup(a[t].held, key.name) == Lookup(b[t].held, key.name)
    ensures ConfigFate(a, t, kind, key) == ConfigFate(b, t, kind, key)
  {
    assert AgreeOn(a, b, key.name);
    ServiceDependsOnTheKey(a, b, key.name);
    assert Kinds(a) == Kinds(b);
    assert forall i :: 0 <= i < |a| ==> (key.name in a[i].held <==> key.name in b[i].held) by {
      assert forall i :: 0 <= i < |a| ==> (Lookup(a[i].held, key.name) == Lookup(b[i].held, key.name));
    }
  }

  /**
  A purge of any provider, confirmed or not, whatever its deletes reply, changes
  neither the value nor the serving provider of any key.
  */
  lemma PurgePreservesService(before: seq<Layer>, kind: Kind, registry: seq<ConfigKey>, confirm: bool,
                              reply: string -> DeleteReply, after: seq<Layer>, report: PurgeReport, key: string)
    requires ConfigPurged(before, kind, registry, confirm, reply, after, report)
    ensures ServedValue(after, key) == ServedValue(before, key)
    ensures ServingKind(after, key) == ServingKind(before, key)
  {
    var found := PositionOf(Kinds(before), kind);
    if found.Some? {
      var t := found.value;
      var names, fates := KeyNames(registry), ConfigFates(before, t, kind, registry);
      if Lookup(after[t].held, key) == Lookup(before[t].held, key) {
        assert AgreeOn(after, before, key);
        ServiceDependsOnTheKey(after, before, key);
      } else {
        assert key in names;
        var n :| 0 <= n < |names| && names[n] == key;
        assert fates[n].Deletable? && Lookup(after[t].held, key) == None;
        FirstDecodableExact(before, key);
        FirstDecodableExact(after, key);
        var i := FirstDecodable(before, key).value;
        assert before[i].kind != kind && i != t;
        assert forall j :: 0 <= j < |before| && j != t ==> after[j] == before[j];
        assert Serves(after, key, i);
      }
    }
  }

  /** Some provider other than layer `t` serves the key. */
  ghost predicate ServedElsewhere(chain: seq<Layer>, t: nat, key: string) {
    exists i: nat :: i != t && Serves(chain, key, i)
  }

  /**
  A configuration purge of layer `t`, key by key, from who holds and who serves before it:
  every line a key can get and when it gets it, and when the key is gone. A key may be
  deleted when it is application-tier, the layer holds it and another provider serves it.
  */
  lemma ConfigPurgeExactly(before: seq<Layer>, t: nat, registry: seq<ConfigKey>, confirm: bool,
                           reply: string -> DeleteReply, after: seq<Layer>, report: PurgeReport, n: nat)
    requires t < |before| && ConfigPurged(before, before[t].kind, registry, confirm, reply, after, report)
    requires Distinct(Kinds(before)) && Distinct(KeyNames(registry)) && n < |registry|
    ensures report.Purged? && OnlyLayer(before, t, after)
    ensures var key, app := registry[n].name, registry[n].tier == Application;
            var held, lines := key in before[t].held, report.lines;
            var free := app && held && ServedElsewhere(before, t, key);
            && (PurgeLine(key, Refused(BootstrapKey)) in lines <==> !app)
            && (PurgeLine(key, Refused(Serving)) in lines <==> app && held && Serves(before, key, t))
            && (PurgeLine(key, Refused(NobodyServes)) in lines <==> app && held && NobodyDecodes(before, key))
            && PurgeLine(key, Refused(ServingUnreachable)) !in lines
            && PurgeLine(key, Refused(ServingNotLive)) !in lines
            && (PurgeLine(key, WouldDelete) in lines <==> free && !confirm)
            && (PurgeLine(key, Deleted) in lines <==> free && confirm && reply(key).Removed?)
            && (PurgeLine(key, DeleteFailed) in lines <==> free && confirm && !reply(key).Removed?)
    ensures var key := registry[n].name;
            var free := registry[n].tier == Application && key in before[t].held && ServedElsewhere(before, t, key);
            && Lookup(after[t].held, key)
            == (if free && confirm && !reply(key).FailedKept? then None else Lookup(before[t].held, key))
            && (PurgeLine(key, Deleted) in report.lines ==> key !in after[t].held)
  {
    var kind, key := before[t].kind, registry[n].name;
    KindAt(before, t);
    var names, fates := KeyNames(registry), ConfigFates(before, t, kind, registry);
    FateExactly(before, t, registry[n]);
    assert fates[n] == ConfigFate(before, t, kind, registry[n]);
    forall o ensures PurgeLine(key, o) in report.lines <==>
                     match fates[n]
                     case Silent => false
                     case Kept(why) => o == Refused(why)
                     case Deletable =>
                       o == if !confirm then WouldDelete else if reply(key).Removed? then Deleted else DeleteFailed
    {
      LinesOfKey(names, fates, confirm, reply, n, o);
    }
    assert names[n] == key;
  }

  lemma FateExactly(chain: seq<Layer>, t: nat, key: ConfigKey)
    requires t < |chain| && Distinct(Kinds(chain))
    ensures var app, held := key.tier == Application, key.name in chain[t].held;
            var fate := ConfigFate(chain, t, chain[t].kind, key);
            && (fate == Silent <==> app && !held)
            && (fate == Kept(BootstrapKey) <==> !app)
            && (fate == Kept(Serving) <==> app && held && Serves(chain, key.name, t))
            && (fate == Kept(NobodyServes) <==> app && held && NobodyDecodes(chain, key.name))
            && (fate == Deletable <==> app && held && ServedElsewhere(chain, t, key.name))
            && fate != Kept(ServingUnreachable) && fate != Kept(ServingNotLive)
  {
    FirstDecodableExact(chain, key.name);
    LateRefusalsAreUnreachable(chain, t, chain[t].kind, key);
    var served := FirstDecodable(chain, key.name);
    if served.Some? {
      var i := served.value;
      assert Serves(chain, key.name, i);
      assert forall j: nat :: Serves(chain, key.name, j) ==> j == i;
      assert i != t ==> Kinds(chain)[i] != Kinds(chain)[t];
    }
  }

  /** A kind the chain lacks skips the purge. */
  lemma PurgeSkippedIff(before: seq<Layer>, kind: Kind, registry: seq<ConfigKey>, confirm: bool,
                        reply: string -> DeleteReply, after: seq<Layer>, report: PurgeReport)
    requires ConfigPurged(before, kind, registry, confirm, reply, after, report)
    ensures report.PurgeSkipped? <==> forall i :: 0 <= i < |before| ==> before[i].kind != kind
    ensures report.PurgeSkipped? ==> after == before
  {
    assert forall i :: 0 <= i < |before| ==> before[i].kind == Kinds(before)[i];
  }

  /** The "deleted" keys are, in order, the delete calls that reported success; "failed" the others. */
  lemma ConfigPurgeReportsItsCalls(before: seq<Layer>, kind: Kind, registry: seq<ConfigKey>, confirm: bool,
                                   reply: string -> DeleteReply, after: seq<Layer>, report: PurgeReport)
    requires ConfigPurged(before, kind, registry, confirm, reply, after, report) && report.Purged?
    ensures var t := PositionOf(Kinds(before), kind);
            && t.Some?
            && var calls := DeleteCalls(KeyNames(registry), ConfigFates(before, t.value, kind, registry), confirm);
               && KeysWith(report.lines, {Deleted}) == Replied(calls, reply, true)
               && KeysWith(report.lines, {DeleteFailed}) == Replied(calls, reply, false)
  {
    var t := PositionOf(Kinds(before), kind).value;
    ReportedDeletes(KeyNames(registry), ConfigFates(before, t, kind, registry), confirm, reply);
  }

  /** A dry run changes nothing and predicts the confirmed run from the same chain. */
  lemma DryRunPredictsConfigPurge(before: seq<Layer>, kind: Kind, registry: seq<ConfigKey>,
                                  reply: string -> DeleteReply, dry: seq<Layer>, dryReport: PurgeReport,
                                  reply': string -> DeleteReply, after: seq<Layer>, report: PurgeReport)
    requires ConfigPurged(before, kind, registry, false, reply, dry, dryReport)
    requires ConfigPurged(before, kind, registry, true, reply', after, report)
    ensures dry == before
    ensures dryReport.PurgeSkipped? <==> report.PurgeSkipped?
    ensures dryReport.Purged? ==>
              var t := PositionOf(Kinds(before), kind);
              && t.Some?
              && Predicts(dryReport.lines, report.lines)
              && KeysWith(dryReport.lines, {WouldDelete})
              == DeleteCalls(KeyNames(registry), ConfigFates(before, t.value, kind, registry), true)
  {
    var t := PositionOf(Kinds(before), kind);
    if t.Some? {
      var names, fates := KeyNames(registry), ConfigFates(before, t.value, kind, registry);
      DryRunPredicts(names, fates, reply, reply');
      forall k ensures Lookup(dry[t.value].held, k) == Lookup(before[t.value].held, k) {
        if k in names {
          var i :| 0 <= i < |names| && names[i] == k;
        }
      }
      SameLookupsSameMap(dry[t.value].held, before[t.value].held);
      assert dry[t.value] == before[t.value];
    }
  }

  /** The last two refusals cannot be reached from a chain without repeated kinds. */
  lemma LateRefusalsAreUnreachable(chain: seq<Layer>, t: nat, kind: Kind, key: ConfigKey)
    requires t < |chain| && Distinct(Kinds(chain))
    ensures ConfigFate(chain, t, kind, key) !in {Kept(ServingUnreachable), Kept(ServingNotLive)}
  {
    FirstDecodableExact(chain, key.name);
    var served := FirstDecodable(chain, key.name);
    if served.Some? {
      assert Kinds(chain)[served.value] == chain[served.value].kind;
    }
  }

  // ---- Whole runs ----

  /**
  One step of an operator session: a write or delete of one key (a bootstrap-tier key is
  refused by every provider that can be written), a migration, or a purge.
  */
  datatype Op =
    | Write(kind: Kind, key: string, value: string, wrote: WriteReply)
    | Remove(kind: Kind, key: string, removed: DeleteReply)
    | Migrate(source: Kind, target: Kind, writes: string -> WriteReply)
    | Purge(purged: Kind, confirm: bool, deletes: string -> DeleteReply)

  ghost predicate Step(before: seq<Layer>, op: Op, registry: seq<ConfigKey>, after: seq<Layer>) {
    match op
    case Write(kind, key, value, wrote) =>
      KeyChanged(before, kind, key, registry, after, h => wrote.After(h, value))
    case Remove(kind, key, removed) =>
      KeyChanged(before, kind, key, registry, after, h => if removed.Gone() then None else h)
    case Migrate(source, target, writes) =>
      exists report :: ConfigMigrated(before, source, target, registry, writes, after, report)
    case Purge(kind, confirm, deletes) =>
      exists report :: ConfigPurged(before, kind, registry, confirm, deletes, after, report)
  }

  ghost predicate KeyChanged(before: seq<Layer>, kind: Kind, key: string, registry: seq<ConfigKey>,
                             after: seq<Layer>, change: Option<Held> -> Option<Held>)
  {
    var t := PositionOf(Kinds(before), kind);
    if t.None? || key in BootstrapNames(registry) then after == before
    else
      && OnlyLayer(before, t.value, after)
      && after[t.value].held == Updated(before[t.value].held, key, change(Lookup(before[t.value].held, key)))
  }

  ghost predicate Run(states: seq<seq<Layer>>, ops: seq<Op>, registry: seq<ConfigKey>) {
    && |states| == |ops| + 1
    && forall i :: 0 <= i < |ops| ==> Step(states[i], ops[i], registry, states[i + 1])
  }

  lemma StepKeepsBootstrap(before: seq<Layer>, op: Op, registry: seq<ConfigKey>, after: seq<Layer>, key: string)
    requires Step(before, op, registry, after) && key in BootstrapNames(registry)
    ensures AgreeOn(before, after, key)
  {
    match op {
      case Write(_, _, _, _) =>
      case Remove(_, _, _) =>
      case Migrate(source, target, writes) =>
        var report :| ConfigMigrated(before, source, target, registry, writes, after, report);
      case Purge(kind, confirm, deletes) =>
        var report :| ConfigPurged(before, kind, registry, confirm, deletes, after, report);
        var t := PositionOf(Kinds(before), kind);
        if t.Some? {
          PurgedKeyIsApplication(before, t.value, kind, registry, confirm, deletes, after[t.value].held, key);
        }
    }
  }

  lemma PurgedKeyIsApplication(before: seq<Layer>, t: nat, kind: Kind, registry: seq<ConfigKey>, confirm: bool,
                               reply: string -> DeleteReply, held: Contents, key: string)
    requires t < |before|
    requires LeftBehind(before[t].held, KeyNames(registry), ConfigFates(before, t, kind, registry),
                        confirm, reply, held)
    requires key in BootstrapNames(registry)
    ensures Lookup(held, key) == Lookup(before[t].held, key)
  {
    var names := KeyNames(registry);
    var n :| 0 <= n < |registry| && registry[n].tier == Tier.Bootstrap && registry[n].name == key;
    assert names[n] == key;
  }

  /** Over every run, what every provider holds under a bootstrap-tier key never changes. */
  lemma {:induction false} RunsKeepBootstrapKeys(states: seq<seq<Layer>>, ops: seq<Op>, registry: seq<ConfigKey>,
                                                 key: string, n: nat)
    requires Run(states, ops, registry) && key in BootstrapNames(registry) && n < |states|
    ensures AgreeOn(states[0], states[n], key)
    ensures ServingKind(states[n], key) == ServingKind(states[0], key)
    ensures ServedValue(states[n], key) == ServedValue(states[0], key)
  {
    if n > 0 {
      RunsKeepBootstrapKeys(states, ops, registry, key, n - 1);
      StepKeepsBootstrap(states[n - 1], ops[n - 1], registry, states[n], key);
    }
    assert AgreeOn(states[0], states[n], key);
    ServiceDependsOnTheKey(states[0], states[n], key);
  }
}
