/**
The operator commands on application-tier secrets: `provider-migrate` and
`provider-purge`, and what they do to the boots that follow.
*/
module SecretOperator {
  import opened Base
  import opened Providers
  import opened Migration
  import opened Purging
  import opened Boot

  // ---- The providers as the commands see them ----

  function View(p: Provider?): (slot: Option<Slot>)
    reads p
    ensures slot.Some? <==> p != null
    ensures slot.Some? ==> slot.value.held == p.held && slot.value.writable == p.writable
  {
    if p == null then None else Some(Slot(p.held, p.writable))
  }

  function Views(providers: seq<Provider?>): (slots: Slots)
    reads providers
    ensures |slots| == |providers|
    ensures forall i :: 0 <= i < |slots| ==> slots[i] == View(providers[i])
  {
    seq(|providers|, i requires 0 <= i < |providers| reads providers => View(providers[i]))
  }

  ghost function Object(p: Provider?): set<Provider> {
    if p == null then {} else {p}
  }

  /** Every slot has its own provider object. */
  ghost predicate Separate(providers: seq<Provider?>) {
    forall i, j :: 0 <= i < j < |providers| && providers[i] != null ==> providers[i] != providers[j]
  }

  /** Only `kind` differs, and only in what it holds. */
  ghost predicate OnlyHeldOf(before: Slots, kind: nat, after: Slots) {
    && |after| == |before|
    && Built(before, kind) && Built(after, kind)
    && after[kind].value.writable == before[kind].value.writable
    && forall i :: 0 <= i < |before| && i != kind ==> after[i] == before[i]
  }

  // ---- provider-migrate ----

  datatype MigrateReport = SourceNotEnabled | TargetNotEnabled | Visited(lines: seq<MoveLine>)

  ghost predicate SecretsMigrated(before: Slots, source: nat, target: nat, secrets: seq<string>,
                                  reply: string -> WriteReply, after: Slots, report: MigrateReport)
  {
    if !Built(before, source) then report == SourceNotEnabled && after == before
    else if !Built(before, target) then report == TargetNotEnabled && after == before
    else
      && OnlyHeldOf(before, target, after)
      && report.Visited?
      && Migrated(before[source].value.held, before[target].value.held, secrets, {}, reply,
                  after[target].value.held, report.lines)
  }

  method MigrateSecrets(source: nat, target: nat, providers: seq<Provider?>, secrets: seq<string>,
                        reply: string -> WriteReply)
    returns (report: MigrateReport)
    requires source < |providers| && target < |providers| && source != target
    requires Separate(providers) && Distinct(secrets)
    modifies Object(providers[target])`held
    ensures SecretsMigrated(old(Views(providers)), source, target, secrets, reply, Views(providers), report)
    ensures report.Visited? <==> providers[source] != null && providers[target] != null
    ensures report.SourceNotEnabled? <==> providers[source] == null
  {
    if providers[source] == null {
      return SourceNotEnabled;
    }
    if providers[target] == null {
      return TargetNotEnabled;
    }
    var lines := MigrateKeys(secrets, {}, providers[source], providers[target], reply);
    report := Visited(lines);
  }

  // ---- provider-purge ----

  datatype PurgeReport = NotEnabled | Purged(lines: seq<PurgeLine>)

  /** The interlocks for one secret: is it there, is it live in the selected provider, can it be deleted. */
  function WalkFate(own: Contents, writable: bool, live: Contents, secret: string): Fate {
    if secret !in own then Silent
    else if secret !in live then Kept(NotLive)
    else if !writable then Kept(ReadOnly)
    else Deletable
  }

  function HeldBy(slots: Slots, kind: nat): Contents {
    if Built(slots, kind) then slots[kind].value.held else map[]
  }

  /** What happens to one secret when `kind` is purged under `selection`. */
  function SecretFate(slots: Slots, kind: nat, selection: nat, secret: string): Fate {
    if !Has(slots, kind, secret) then Silent
    else if kind == selection then Kept(TargetSelected)
    else WalkFate(slots[kind].value.held, slots[kind].value.writable, HeldBy(slots, selection), secret)
  }

  function SecretFates(slots: Slots, kind: nat, selection: nat, secrets: seq<string>): (fates: seq<Fate>)
    ensures |fates| == |secrets|
    ensures forall i :: 0 <= i < |fates| ==> fates[i] == SecretFate(slots, kind, selection, secrets[i])
  {
    seq(|secrets|, i requires 0 <= i < |secrets| => SecretFate(slots, kind, selection, secrets[i]))
  }

  /** Fates, lines and deletions, all decided from the slots before the command. */
  ghost predicate SecretsPurged(before: Slots, kind: nat, selection: nat, secrets: seq<string>, confirm: bool,
                                reply: string -> DeleteReply, after: Slots, report: PurgeReport)
  {
    if !Built(before, kind) then report == NotEnabled && after == before
    else
      && OnlyHeldOf(before, kind, after)
      && report.Purged?
      && report.lines == Report(secrets, SecretFates(before, kind, selection, secrets), confirm, reply)
      && forall s :: Lookup(after[kind].value.held, s)
                  == if s in secrets && Doomed(before, kind, selection, confirm, reply, s) then None
                     else Lookup(before[kind].value.held, s)
  }

  predicate Doomed(before: Slots, kind: nat, selection: nat, confirm: bool,
                   reply: string -> DeleteReply, s: string)
  {
    confirm && SecretFate(before, kind, selection, s).Deletable? && reply(s).Gone()
  }

  method PurgeSecrets(kind: nat, providers: seq<Provider?>, selection: nat, secrets: seq<string>,
                      confirm: bool, reply: string -> DeleteReply)
    returns (report: PurgeReport)
    requires kind < |providers| && selection < |providers|
    requires Separate(providers) && Distinct(secrets)
    modifies Object(providers[kind])`held, Object(providers[kind])`deletes
    ensures SecretsPurged(old(Views(providers)), kind, selection, secrets, confirm, reply, Views(providers), report)
    ensures report.Purged? <==> providers[kind] != null
    ensures providers[kind] != null ==>
              providers[kind].deletes == old(providers[kind].deletes)
                + DeleteCalls(secrets, SecretFates(old(Views(providers)), kind, selection, secrets), confirm)
  {
    if providers[kind] == null {
      return NotEnabled;
    }
    var lines;
    ghost var before := Views(providers);
    ghost var fates := SecretFates(before, kind, selection, secrets);
    if kind == selection {
      lines := RefuseSelected(providers[kind], secrets, confirm, reply, fates);
    } else {
      assert fates == WalkFates(before[kind].value.held, before[kind].value.writable,
                                HeldBy(before, selection), secrets);
      lines := PurgeWalk(providers[kind], HeldNow(providers[selection]), secrets, confirm, reply);
    }
    report := Purged(lines);
  }

  /** The selected provider is never purged; every secret it holds is named. */
  method RefuseSelected(target: Provider, secrets: seq<string>, confirm: bool, reply: string -> DeleteReply,
                        ghost fates: seq<Fate>)
    returns (lines: seq<PurgeLine>)
    requires |fates| == |secrets|
    requires forall i :: 0 <= i < |fates| ==>
               fates[i] == if secrets[i] in target.held then Kept(TargetSelected) else Silent
    ensures lines == Report(secrets, fates, confirm, reply)
    ensures DeleteCalls(secrets, fates, confirm) == []
  {
    lines := [];
    for n := 0 to |secrets|
      invariant lines == Report(secrets[..n], fates[..n], confirm, reply)
      invariant DeleteCalls(secrets[..n], fates[..n], confirm) == []
    {
      WalkOneMore(secrets, fates, n, confirm, reply);
      if secrets[n] in target.held {
        lines := lines + [PurgeLine(secrets[n], Refused(TargetSelected))];
      }
    }
    assert secrets[..|secrets|] == secrets && fates[..|secrets|] == fates;
  }

  /** The interlocks, secret by secret, against what the providers hold at that moment. */
  method PurgeWalk(target: Provider, live: Contents, secrets: seq<string>, confirm: bool,
                   reply: string -> DeleteReply)
    returns (lines: seq<PurgeLine>)
    requires Distinct(secrets)
    modifies target`held, target`deletes
    ensures var fates := WalkFates(old(target.held), target.writable, live, secrets);
            && lines == Report(secrets, fates, confirm, reply)
            && target.deletes == old(target.deletes) + DeleteCalls(secrets, fates, confirm)
            && LeftBehind(old(target.held), secrets, fates, confirm, reply, target.held)
  {
    ghost var own := target.held;
    ghost var fates := WalkFates(own, target.writable, live, secrets);
    ghost var calls: seq<string> := [];
    lines := [];
    for n := 0 to |secrets|
      invariant Progress(own, secrets, fates, n, confirm, reply, lines, calls, target.held)
      invariant target.deletes == old(target.deletes) + calls
    {
      ProgressOneMore(own, secrets, fates, n, confirm, reply, lines, calls, target.held);
      var fate := Decide(secrets[n], target.held, target.writable, live);
      assert fate == fates[n] by { assert (secrets[n] in target.held) == (secrets[n] in own); }
      var line := Act(target, secrets[n], fate, confirm, reply(secrets[n]));
      lines := lines + line;
      calls := calls + if confirm && fates[n].Deletable? then [secrets[n]] else [];
    }
    ProgressDone(own, secrets, fates, confirm, reply, lines, calls, target.held);
  }

  function WalkFates(own: Contents, writable: bool, live: Contents, secrets: seq<string>): (fates: seq<Fate>)
    ensures |fates| == |secrets|
    ensures forall i :: 0 <= i < |fates| ==> fates[i] == WalkFate(own, writable, live, secrets[i])
  {
    seq(|secrets|, i requires 0 <= i < |secrets| => WalkFate(own, writable, live, secrets[i]))
  }

  function HeldNow(p: Provider?): Contents
    reads p
  {
    if p == null then map[] else p.held
  }

  /** The interlocks for one secret; an unbuilt serving provider holds nothing live. */
  method Decide(secret: string, own: Contents, writable: bool, live: Contents) returns (fate: Fate)
    ensures fate == WalkFate(own, writable, live, secret)
  {
    if secret !in own {
      return Silent;
    }
    if secret !in live {
      return Kept(NotLive);
    }
    fate := if !writable then Kept(ReadOnly) else Deletable;
  }

  /**
  A purge of `kind`, secret by secret, from who holds what before it. Every line a secret
  can get and when it gets it, and when the secret is gone: a secret may be deleted when
  `kind` holds it, is not the selection and can be written, and the selection holds it too.
  */
  lemma SecretPurgeExactly(before: Slots, kind: nat, selection: nat, secrets: seq<string>, confirm: bool,
                           reply: string -> DeleteReply, after: Slots, report: PurgeReport, s: string)
    requires SecretsPurged(before, kind, selection, secrets, confirm, reply, after, report)
    requires Built(before, kind) && Distinct(secrets) && s in secrets
    ensures report.Purged?
    ensures var held, live, lines := Has(before, kind, s), Has(before, selection, s), report.lines;
            var free := held && kind != selection && live && before[kind].value.writable;
            && (PurgeLine(s, Refused(TargetSelected)) in lines <==> held && kind == selection)
            && (PurgeLine(s, Refused(NotLive)) in lines <==> held && kind != selection && !live)
            && (PurgeLine(s, Refused(ReadOnly)) in lines <==>
                held && kind != selection && live && !before[kind].value.writable)
            && (PurgeLine(s, WouldDelete) in lines <==> free && !confirm)
            && (PurgeLine(s, Deleted) in lines <==> free && confirm && reply(s).Removed?)
            && (PurgeLine(s, DeleteFailed) in lines <==> free && confirm && !reply(s).Removed?)
    ensures var free := Has(before, kind, s) && kind != selection && Has(before, selection, s)
                        && before[kind].value.writable;
            Lookup(after[kind].value.held, s)
            == if free && confirm && !reply(s).FailedKept? then None else Lookup(before[kind].value.held, s)
    ensures PurgeLine(s, Deleted) in report.lines ==> !Has(after, kind, s)
  {
    var i :| 0 <= i < |secrets| && secrets[i] == s;
    var fates := SecretFates(before, kind, selection, secrets);
    forall o ensures PurgeLine(s, o) in report.lines <==>
                     match fates[i]
                     case Silent => false
                     case Kept(why) => o == Refused(why)
                     case Deletable =>
                       o == if !confirm then WouldDelete else if reply(s).Removed? then Deleted else DeleteFailed
    {
      LinesOfKey(secrets, fates, confirm, reply, i, o);
    }
    assert Lookup(after[kind].value.held, s)
        == if Doomed(before, kind, selection, confirm, reply, s) then None else Lookup(before[kind].value.held, s);
  }

  /** The "deleted" secrets are, in order, the delete calls that reported success; "failed" the others. */
  lemma SecretPurgeReportsItsCalls(before: Slots, kind: nat, selection: nat, secrets: seq<string>, confirm: bool,
                                   reply: string -> DeleteReply, after: Slots, report: PurgeReport)
    requires SecretsPurged(before, kind, selection, secrets, confirm, reply, after, report) && Built(before, kind)
    ensures var calls := DeleteCalls(secrets, SecretFates(before, kind, selection, secrets), confirm);
            && KeysWith(report.lines, {Deleted}) == Replied(calls, reply, true)
            && KeysWith(report.lines, {DeleteFailed}) == Replied(calls, reply, false)
  {
    ReportedDeletes(secrets, SecretFates(before, kind, selection, secrets), confirm, reply);
  }

  // ---- What a purge does to reads and to the next boot ----

  /** The purge would delete the copy this secret is read from. */
  predicate AtRisk(slots: Slots, kind: nat, selection: nat, d: Declarations, secrets: seq<string>, s: string) {
    s in secrets && DeclaredFor(d, s) == kind && SecretFate(slots, kind, selection, s).Deletable?
  }

  /** A purge makes a secret unreadable exactly when it is at risk and its delete goes through. */
  lemma PurgeChangesReadsExactly(before: Slots, kind: nat, selection: nat, secrets: seq<string>, confirm: bool,
                                 reply: string -> DeleteReply, after: Slots, report: PurgeReport,
                                 d: Declarations, s: string)
    requires SecretsPurged(before, kind, selection, secrets, confirm, reply, after, report)
    ensures SecretGet(after, d, s)
         == if confirm && AtRisk(before, kind, selection, d, secrets, s) && reply(s).Gone() then None
            else SecretGet(before, d, s)
  {
    if Built(before, kind) {
      assert Lookup(after[kind].value.held, s)
          == if s in secrets && Doomed(before, kind, selection, confirm, reply, s) then None
             else Lookup(before[kind].value.held, s);
    }
  }

  /** With every secret declared to the selection or to a read-only provider, a purge changes no read. */
  lemma PurgePreservesReads(before: Slots, kind: nat, selection: nat, secrets: seq<string>, confirm: bool,
                            reply: string -> DeleteReply, after: Slots, report: PurgeReport,
                            d: Declarations, s: string)
    requires SecretsPurged(before, kind, selection, secrets, confirm, reply, after, report)
    requires forall t :: t in secrets ==>
               var own := DeclaredFor(d, t);
               own == selection || (Built(before, own) ==> !before[own].value.writable)
    ensures SecretGet(after, d, s) == SecretGet(before, d, s)
  {
    PurgeChangesReadsExactly(before, kind, selection, secrets, confirm, reply, after, report, d, s);
  }

  /** An accepted boot stays accepted exactly when no secret at risk was deleted. */
  lemma PurgeKeepsBootIff(before: Slots, kind: nat, selection: nat, secrets: seq<string>, confirm: bool,
                          reply: string -> DeleteReply, after: Slots, report: PurgeReport, d: Declarations)
    requires SecretsPurged(before, kind, selection, secrets, confirm, reply, after, report)
    requires Accepted(before, d, secrets)
    ensures Accepted(after, d, secrets) <==>
            forall s :: s in secrets && AtRisk(before, kind, selection, d, secrets, s) ==>
              !(confirm && reply(s).Gone())
  {
    if Built(before, kind) {
      forall s | s in secrets
        ensures && Built(after, DeclaredFor(d, s))
                && (HeldSomewhere(after, s) ==> Has(after, DeclaredFor(d, s), s))
           <==> !(confirm && AtRisk(before, kind, selection, d, secrets, s) && reply(s).Gone())
      {
        PurgedHas(before, kind, selection, secrets, confirm, reply, after, report, s);
        var own := DeclaredFor(d, s);
        if confirm && AtRisk(before, kind, selection, d, secrets, s) && reply(s).Gone() {
          assert Has(after, selection, s);
        } else if HeldSomewhere(after, s) {
          var k: nat :| Has(after, k, s);
          assert Has(before, k, s);
        }
      }
    }
  }

  lemma PurgedHas(before: Slots, kind: nat, selection: nat, secrets: seq<string>, confirm: bool,
                  reply: string -> DeleteReply, after: Slots, report: PurgeReport, s: string)
    requires SecretsPurged(before, kind, selection, secrets, confirm, reply, after, report)
    requires Built(before, kind)
    ensures forall k: nat :: Has(after, k, s) <==>
              Has(before, k, s) && !(k == kind && s in secrets && Doomed(before, kind, selection, confirm, reply, s))
  {
    assert Lookup(after[kind].value.held, s)
        == if s in secrets && Doomed(before, kind, selection, confirm, reply, s) then None
           else Lookup(before[kind].value.held, s);
  }

  /**
  A dry run changes nothing and predicts the confirmed run from the same state: the same
  lines in the same order, a delete for each "would delete", and no delete elsewhere.
  */
  lemma DryRunPredictsSecretPurge(before: Slots, kind: nat, selection: nat, secrets: seq<string>,
                                  reply: string -> DeleteReply, dry: Slots, dryReport: PurgeReport,
                                  reply': string -> DeleteReply, after: Slots, report: PurgeReport)
    requires SecretsPurged(before, kind, selection, secrets, false, reply, dry, dryReport)
    requires SecretsPurged(before, kind, selection, secrets, true, reply', after, report)
    ensures dry == before
    ensures dryReport.NotEnabled? <==> report.NotEnabled?
    ensures dryReport.Purged? ==>
              && Predicts(dryReport.lines, report.lines)
              && KeysWith(dryReport.lines, {WouldDelete})
              == DeleteCalls(secrets, SecretFates(before, kind, selection, secrets), true)
  {
    if Built(before, kind) {
      DryRunPredicts(secrets, SecretFates(before, kind, selection, secrets), reply, reply');
      SameLookupsSameMap(dry[kind].value.held, before[kind].value.held);
      assert dry[kind] == before[kind];
    }
  }

  /**
  The deployment a purge breaks: a secret with a declaration of its own, held there and in
  the selected provider. The boot was accepted, every interlock passes, and afterwards the
  secret cannot be read.
  */
  lemma PurgeCanUnserve(secret: string, value: string, after: Slots, report: PurgeReport)
    requires var slot := Some(Slot(map[secret := Readable(value)], true));
             SecretsPurged([slot, slot], 1, 0, [secret], true, _ => Removed, after, report)
    ensures var slot := Some(Slot(map[secret := Readable(value)], true));
            var d := Declarations(0, [(secret, 1)]);
            && Accepted([slot, slot], d, [secret]) && SecretGet([slot, slot], d, secret) == Some(value)
            && SecretGet(after, d, secret) == None && !Accepted(after, d, [secret])
  {
    var slot := Some(Slot(map[secret := Readable(value)], true));
    var slots, d := [slot, slot], Declarations(0, [(secret, 1)]);
    assert DeclaredFor(d, secret) == 1;
    assert Has(slots, 1, secret);
    assert AtRisk(slots, 1, 0, d, [secret], secret);
    PurgeChangesReadsExactly(slots, 1, 0, [secret], true, _ => Removed, after, report, d, secret);
    PurgeKeepsBootIff(slots, 1, 0, [secret], true, _ => Removed, after, report, d);
  }

  /**
  The CLI's status names the process-wide selection as the serving provider. That is what
  reads see exactly when the secret is declared to the selection, or neither the selection
  nor its own provider holds it.
  */
  function CliServing(slots: Slots, selection: nat, secret: string): Option<nat> {
    if Has(slots, selection, secret) then Some(selection) else None
  }

  lemma CliServingIsRightIff(slots: Slots, d: Declarations, secret: string)
    ensures CliServing(slots, d.process, secret) == ServedBy(Row(slots, d, secret)) <==>
            var own := DeclaredFor(d, secret);
            own == d.process || (!Has(slots, own, secret) && !Has(slots, d.process, secret))
  {
    HoldersExact(slots, secret, |slots|);
  }

  /** The deployment that shows it: both hold the secret, which is declared to the other provider. */
  lemma CliNamesTheWrongProvider(secret: string, value: string, stale: string)
    ensures var slots := [Some(Slot(map[secret := Readable(stale)], true)),
                          Some(Slot(map[secret := Readable(value)], true))];
            var d := Declarations(0, [(secret, 1)]);
            && CliServing(slots, d.process, secret) == Some(0)
            && ServedBy(Row(slots, d, secret)) == Some(1)
            && SecretGet(slots, d, secret) == Some(value)
  {
    var slots := [Some(Slot(map[secret := Readable(stale)], true)),
                  Some(Slot(map[secret := Readable(value)], true))];
    HoldersExact(slots, secret, |slots|);
    assert Has(slots, 1, secret);
  }

  // ---- The whole workflow ----

  ghost predicate CleanMigration(report: MigrateReport) {
    report.Visited? ==> NoFailure(report.lines)
  }

  ghost predicate NoRowNames(table: seq<(string, nat)>, kind: nat) {
    forall i :: 0 <= i < |table| ==> table[i].1 != kind
  }

  /** Who holds what after a migration without a failed line. */
  lemma MigratedHas(before: Slots, a: nat, b: nat, secrets: seq<string>, reply: string -> WriteReply,
                    after: Slots, report: MigrateReport, s: string)
    requires SecretsMigrated(before, a, b, secrets, reply, after, report) && CleanMigration(report)
    requires Built(before, a) && Built(before, b) && AllReadable(before) && s in secrets
    ensures forall k: nat :: Has(after, k, s) <==> Has(before, k, s) || (k == b && Has(before, a, s))
    ensures Lookup(after[b].value.held, s)
         == if Has(before, b, s) || !Has(before, a, s) then Lookup(before[b].value.held, s)
            else Lookup(before[a].value.held, s)
  {
    var src, tgt, now := before[a].value.held, before[b].value.held, after[b].value.held;
    if Has(before, a, s) {
      MigrationIsComplete(src, tgt, secrets, {}, reply, now, report.lines, s);
    } else {
      MigrationIsConservative(src, tgt, secrets, {}, reply, now, report.lines);
    }
    assert Lookup(now, s) == if Has(before, b, s) || !Has(before, a, s) then Lookup(tgt, s) else Lookup(src, s);
  }

  /**
  Re-declaring from `a` to `b` after a clean migration: the next boot is accepted
  exactly when `b` was built, or no secret depends on the process-wide declaration.
  A target that is not built makes the migration report "skipped", not "failed".
  */
  lemma MigratedBootIff(before: Slots, a: nat, b: nat, table: seq<(string, nat)>, secrets: seq<string>,
                        reply: string -> WriteReply, after: Slots, report: MigrateReport)
    requires Accepted(before, Declarations(a, table), secrets) && AllReadable(before)
    requires SecretsMigrated(before, a, b, secrets, reply, after, report) && CleanMigration(report)
    requires NoRowNames(table, a)
    ensures Accepted(after, Declarations(b, table), secrets) <==>
            Built(before, b) || forall s :: s in secrets ==> Overridden(table, s)
  {
    var da, db := Declarations(a, table), Declarations(b, table);
    forall s | s in secrets
      ensures && Built(after, DeclaredFor(db, s))
              && (HeldSomewhere(after, s) ==> Has(after, DeclaredFor(db, s), s))
         <==> Built(before, b) || Overridden(table, s)
    {
      FirstMatchIsInTable(table, s, a);
      FirstMatchIsInTable(table, s, b);
      FirstMatchDefault(table, s, a, b);
      assert DeclaredFor(da, s) != a || !Overridden(table, s);
      if Built(before, a) && Built(before, b) {
        MigratedHas(before, a, b, secrets, reply, after, report, s);
        if HeldSomewhere(after, s) {
          var k: nat :| Has(after, k, s);
          assert Has(before, k, s) || Has(before, a, s);
          assert HeldSomewhere(before, s);
          assert Has(before, DeclaredFor(da, s), s);
        }
      } else {
        assert after == before;
      }
    }
  }

  /** The deployment that shows it: the target is not built, nothing is reported as failed, the boot ends. */
  lemma UnbuiltTargetEndsTheBoot(secret: string, value: string, reply: string -> WriteReply)
    ensures var slots := [Some(Slot(map[secret := Readable(value)], true)), None];
            && Accepted(slots, Declarations(0, []), [secret])
            && SecretsMigrated(slots, 0, 1, [secret], reply, slots, TargetNotEnabled)
            && CleanMigration(TargetNotEnabled)
            && !Accepted(slots, Declarations(1, []), [secret])
  {
    var slots := [Some(Slot(map[secret := Readable(value)], true)), None];
    assert Has(slots, 0, secret);
    assert secret in [secret] && !Overridden([], secret);
    MigratedBootIff(slots, 0, 1, [], [secret], reply, slots, TargetNotEnabled);
  }

  /** Two processes that see the same governed secrets in every provider. */
  ghost predicate SameSecrets(x: Slots, y: Slots, secrets: seq<string>) {
    && |x| == |y|
    && forall k :: 0 <= k < |x| ==> SameSlot(x[k], y[k], secrets)
  }

  ghost predicate SameSlot(x: Option<Slot>, y: Option<Slot>, secrets: seq<string>) {
    && (x.Some? <==> y.Some?)
    && (x.Some? ==>
          && x.value.writable == y.value.writable
          && forall s :: s in secrets ==> Lookup(x.value.held, s) == Lookup(y.value.held, s))
  }

  /** ... except that `kind` may hold less in the second: a lost delete is only seen by the next process. */
  ghost predicate NoMoreIn(x: Slots, kind: nat, y: Slots, secrets: seq<string>) {
    && |x| == |y|
    && (forall k :: 0 <= k < |x| && k != kind ==> SameSlot(x[k], y[k], secrets))
    && (kind < |x| ==>
          && (x[kind].Some? <==> y[kind].Some?)
          && (x[kind].Some? ==>
                forall s :: s in secrets ==>
                  Lookup(y[kind].value.held, s).None?
                  || Lookup(y[kind].value.held, s) == Lookup(x[kind].value.held, s)))
  }

  lemma HasInSameSlot(x: Slots, y: Slots, k: nat, secrets: seq<string>, s: string)
    requires |x| == |y| && s in secrets && (k < |x| ==> SameSlot(x[k], y[k], secrets))
    ensures Has(x, k, s) <==> Has(y, k, s)
    ensures Built(x, k) <==> Built(y, k)
    ensures Built(x, k) ==> Get(x[k].value.held, s) == Get(y[k].value.held, s)
  {
    if k < |x| && x[k].Some? {
      assert Lookup(x[k].value.held, s) == Lookup(y[k].value.held, s);
    }
  }

  /** A secret whose provider looks the same, in slots that hold it nowhere new, boots and reads the same. */
  lemma BootDependsOnHolders(x: Slots, y: Slots, d: Declarations, secrets: seq<string>, s: string)
    requires |x| == |y| && s in secrets
    requires var own := DeclaredFor(d, s); own < |x| ==> SameSlot(x[own], y[own], secrets)
    requires forall k: nat :: Has(y, k, s) ==> Has(x, k, s)
    ensures SecretGet(y, d, s) == SecretGet(x, d, s)
    ensures Built(x, DeclaredFor(d, s)) && (HeldSomewhere(x, s) ==> Has(x, DeclaredFor(d, s), s)) ==>
              Built(y, DeclaredFor(d, s)) && (HeldSomewhere(y, s) ==> Has(y, DeclaredFor(d, s), s))
  {
    HasInSameSlot(x, y, DeclaredFor(d, s), secrets, s);
    if HeldSomewhere(y, s) {
      var k: nat :| Has(y, k, s);
      assert Has(x, k, s);
    }
  }

  /** Boot verdict and reads are a function of the governed secrets. */
  lemma SameSecretsSameBoot(x: Slots, y: Slots, d: Declarations, secrets: seq<string>)
    requires SameSecrets(x, y, secrets)
    ensures Accepted(x, d, secrets) <==> Accepted(y, d, secrets)
    ensures forall s :: s in secrets ==> SecretGet(x, d, s) == SecretGet(y, d, s)
    ensures forall s, k: nat :: s in secrets ==> (Has(x, k, s) <==> Has(y, k, s))
  {
    forall s, k: nat | s in secrets ensures Has(x, k, s) <==> Has(y, k, s) {
      HasInSameSlot(x, y, k, secrets, s);
    }
    forall s | s in secrets
      ensures SecretGet(x, d, s) == SecretGet(y, d, s)
      ensures Built(x, DeclaredFor(d, s)) && (HeldSomewhere(x, s) ==> Has(x, DeclaredFor(d, s), s)) <==>
              Built(y, DeclaredFor(d, s)) && (HeldSomewhere(y, s) ==> Has(y, DeclaredFor(d, s), s))
    {
      BootDependsOnHolders(x, y, d, secrets, s);
      BootDependsOnHolders(y, x, d, secrets, s);
    }
  }

  /** Losing values in a provider no secret is declared to keeps the boot and every read. */
  lemma LessElsewhereKeepsBoot(x: Slots, kind: nat, y: Slots, d: Declarations, secrets: seq<string>)
    requires NoMoreIn(x, kind, y, secrets) && Accepted(x, d, secrets)
    requires forall s :: s in secrets ==> DeclaredFor(d, s) != kind
    ensures Accepted(y, d, secrets)
    ensures forall s :: s in secrets ==> SecretGet(y, d, s) == SecretGet(x, d, s)
    ensures forall s, k: nat :: s in secrets && Has(y, k, s) ==> Has(x, k, s)
  {
    forall s, k: nat | s in secrets && Has(y, k, s) ensures Has(x, k, s) {
      if k == kind {
        assert Lookup(y[k].value.held, s) == Lookup(x[k].value.held, s);
      } else {
        HasInSameSlot(x, y, k, secrets, s);
      }
    }
    forall s | s in secrets
      ensures SecretGet(y, d, s) == SecretGet(x, d, s)
      ensures Built(y, DeclaredFor(d, s)) && (HeldSomewhere(y, s) ==> Has(y, DeclaredFor(d, s), s))
    {
      BootDependsOnHolders(x, y, d, secrets, s);
    }
  }

  /** What the operator was promised about one secret. */
  ghost function PromisedRead(s0: Slots, a: nat, b: nat, table: seq<(string, nat)>, s: string): Option<string>
    requires Built(s0, b)
  {
    if DeclaredFor(Declarations(b, table), s) != b then SecretGet(s0, Declarations(a, table), s)
    else if s in s0[b].value.held then Get(s0[b].value.held, s)
    else Get(HeldBy(s0, a), s)
  }

  lemma MigratedReads(s0: Slots, a: nat, b: nat, table: seq<(string, nat)>, secrets: seq<string>,
                      reply: string -> WriteReply, after: Slots, moved: MigrateReport, s: string)
    requires Accepted(s0, Declarations(a, table), secrets) && AllReadable(s0) && Built(s0, b)
    requires SecretsMigrated(s0, a, b, secrets, reply, after, moved) && CleanMigration(moved)
    requires NoRowNames(table, a) && s in secrets
    ensures SecretGet(after, Declarations(b, table), s) == PromisedRead(s0, a, b, table, s)
  {
    FirstMatchIsInTable(table, s, b);
    FirstMatchDefault(table, s, a, b);
    if Built(s0, a) {
      MigratedHas(s0, a, b, secrets, reply, after, moved, s);
    }
  }

  /**
  The whole workflow, each command and each boot in a process of its own. Accepted under
  `a`; migrate `a` to `b` without a failed line, leaving `after`; re-declare to `b`; `s1`
  is what the next process builds; purge `a` from there, leaving `s2`; `s3` is what the
  last process builds. Both boots are accepted and every secret reads what was promised.
  */
  lemma OperatorWorkflow(s0: Slots, a: nat, b: nat, table: seq<(string, nat)>, secrets: seq<string>,
                         reply: string -> WriteReply, after: Slots, moved: MigrateReport, s1: Slots,
                         reply': string -> DeleteReply, s2: Slots, purged: PurgeReport, s3: Slots)
    requires a != b && NoRowNames(table, a)
    requires Accepted(s0, Declarations(a, table), secrets) && AllReadable(s0) && Built(s0, b)
    requires SecretsMigrated(s0, a, b, secrets, reply, after, moved) && CleanMigration(moved)
    requires SameSecrets(after, s1, secrets)
    requires SecretsPurged(s1, a, b, secrets, true, reply', s2, purged)
    requires NoMoreIn(s2, a, s3, secrets)
    ensures Accepted(s1, Declarations(b, table), secrets)
    ensures Accepted(s3, Declarations(b, table), secrets)
    ensures forall s :: s in secrets ==>
              && SecretGet(s1, Declarations(b, table), s) == PromisedRead(s0, a, b, table, s)
              && SecretGet(s3, Declarations(b, table), s) == PromisedRead(s0, a, b, table, s)
    ensures Built(s0, a) && s0[a].value.writable && (forall s :: s in secrets ==> reply'(s).Ok()) ==>
              forall s :: s in secrets ==> !Has(s3, a, s)
  {
    var db := Declarations(b, table);
    MigratedBootIff(s0, a, b, table, secrets, reply, after, moved);
    SameSecretsSameBoot(after, s1, db, secrets);
    forall s | s in secrets ensures DeclaredFor(db, s) != a {
      FirstMatchIsInTable(table, s, b);
    }
    PurgeKeepsBootIff(s1, a, b, secrets, true, reply', s2, purged, db);
    forall s | s in secrets
      ensures SecretGet(s1, db, s) == PromisedRead(s0, a, b, table, s)
      ensures SecretGet(s2, db, s) == SecretGet(s1, db, s)
    {
      MigratedReads(s0, a, b, table, secrets, reply, after, moved, s);
      PurgeChangesReadsExactly(s1, a, b, secrets, true, reply', s2, purged, db, s);
    }
    LessElsewhereKeepsBoot(s2, a, s3, db, secrets);
    if Built(s0, a) && s0[a].value.writable && forall s :: s in secrets ==> reply'(s).Ok() {
      forall s | s in secrets ensures !Has(s3, a, s) {
        PurgedIsGone(s0, a, b, secrets, reply, after, moved, s1, reply', s2, purged, s);
      }
    }
  }

  /** A writable source loses every secret it held: each is live in `b` by then. */
  lemma PurgedIsGone(s0: Slots, a: nat, b: nat, secrets: seq<string>,
                     reply: string -> WriteReply, after: Slots, moved: MigrateReport, s1: Slots,
                     reply': string -> DeleteReply, s2: Slots, purged: PurgeReport, s: string)
    requires a != b && AllReadable(s0) && Built(s0, a) && Built(s0, b) && s0[a].value.writable
    requires SecretsMigrated(s0, a, b, secrets, reply, after, moved) && CleanMigration(moved)
    requires SameSecrets(after, s1, secrets)
    requires SecretsPurged(s1, a, b, secrets, true, reply', s2, purged)
    requires s in secrets && reply'(s).Ok()
    ensures !Has(s2, a, s)
  {
    MigratedHas(s0, a, b, secrets, reply, after, moved, s);
    HasInSameSlot(after, s1, a, secrets, s);
    HasInSameSlot(after, s1, b, secrets, s);
    assert SameSlot(after[a], s1[a], secrets);
    PurgedHas(s1, a, b, secrets, true, reply', s2, purged, s);
  }
}
