/**
Configuration generations: every declared key resolved at one moment, refreshed as a
whole or not at all, with bootstrap-tier entries carried over unchanged.
*/
module Generations {
  import opened Base
  import opened Providers
  import opened Registry

  /** A key's value, and the name of the provider that served it. */
  datatype Resolved = Resolved(value: Option<string>, servedBy: Option<string>)

  datatype Actor = System | Operator(login: string)

  datatype Generation = Generation(number: nat, entries: seq<Resolved>, actor: Actor)

  /** The installed provider as one resolution sees it. */
  datatype Source = Source(name: string, held: Contents)

  function FreshEntry(source: Source, name: string): Resolved {
    var value := Get(source.held, name);
    Resolved(value, if value.Some? then Some(source.name) else None)
  }

  ghost predicate Fits(registry: seq<ConfigKey>, g: Generation) {
    |g.entries| == |registry|
  }

  function Entry(registry: seq<ConfigKey>, source: Source, previous: Option<Generation>, i: nat): Resolved
    requires i < |registry| && (previous.Some? ==> Fits(registry, previous.value))
  {
    if registry[i].tier == Bootstrap && previous.Some? then previous.value.entries[i]
    else FreshEntry(source, registry[i].name)
  }

  function Resolve(registry: seq<ConfigKey>, source: Source, previous: Option<Generation>,
                   number: nat, actor: Actor): (g: Generation)
    requires previous.Some? ==> Fits(registry, previous.value)
    ensures Fits(registry, g)
  {
    Generation(number,
               seq(|registry|, i requires 0 <= i < |registry| => Entry(registry, source, previous, i)),
               actor)
  }

  function ServedBy(registry: seq<ConfigKey>, g: Generation, key: ConfigKey): Option<string>
    requires Fits(registry, g) && key.name in KeyNames(registry)
  {
    g.entries[IndexOf(registry, key.name)].servedBy
  }

  /** The resolved value of a key, which is what every read of configuration returns. */
  function ValueOf(registry: seq<ConfigKey>, g: Generation, key: ConfigKey): Option<string>
    requires Fits(registry, g) && key.name in KeyNames(registry)
  {
    g.entries[IndexOf(registry, key.name)].value
  }

  /**
  `g` answers every key from two moments: an application-tier key as `live` decoded it, a
  bootstrap-tier key as `boot` did, each with the name of the provider that served it.
  */
  ghost predicate AnswersFrom(registry: seq<ConfigKey>, g: Generation, live: Source, boot: Source) {
    && Fits(registry, g)
    && forall i :: 0 <= i < |registry| ==>
         var from := if registry[i].tier == Application then live else boot;
         var name := registry[i].name;
         g.entries[i] == if name in from.held && from.held[name].Readable?
                         then Resolved(Some(from.held[name].text), Some(from.name)) else Resolved(None, None)
  }

  /** ... so every read returns what was decoded, or nothing. */
  lemma ReadsFrom(registry: seq<ConfigKey>, g: Generation, live: Source, boot: Source, key: ConfigKey)
    requires Distinct(KeyNames(registry)) && AnswersFrom(registry, g, live, boot) && key in registry
    ensures key.name in KeyNames(registry)
    ensures var from := if key.tier == Application then live else boot;
            && ValueOf(registry, g, key) == Get(from.held, key.name)
            && ServedBy(registry, g, key) == if Get(from.held, key.name).Some? then Some(from.name) else None
  {
    var i :| 0 <= i < |registry| && registry[i] == key;
    IndexOfPosition(registry, i);
  }

  /** A first resolution answers from one source, a later one also from what bootstrap entries it carries. */
  lemma ResolveAnswers(registry: seq<ConfigKey>, source: Source, previous: Option<Generation>, number: nat,
                       actor: Actor, before: Source, boot: Source)
    requires previous.Some? ==> AnswersFrom(registry, previous.value, before, boot)
    ensures AnswersFrom(registry, Resolve(registry, source, previous, number, actor), source,
                        if previous.Some? then boot else source)
  {
  }

  // ---- Refresh ----

  datatype Request = Request(actor: Actor, required: seq<ConfigKey>)

  /** A key can only be named if it is declared. */
  ghost predicate Declared(registry: seq<ConfigKey>, request: Request) {
    forall k :: k in request.required ==> k in registry
  }

  datatype Rejection = Rejection(unresolved: seq<ConfigKey>, bootstrapRefused: seq<ConfigKey>, consulted: seq<string>)

  datatype Outcome =
    | Applied(generation: Generation, actor: Actor)
    | Rejected(reason: Rejection, previous: Generation)

  /** The required keys nobody serves in `g`, in order. */
  function Unserved(registry: seq<ConfigKey>, g: Generation, keys: seq<ConfigKey>): (r: seq<ConfigKey>)
    requires Fits(registry, g) && forall k :: k in keys ==> k.name in KeyNames(registry)
    ensures forall k :: k in r <==> k in keys && ServedBy(registry, g, k).None?
  {
    if keys == [] then []
    else (if ServedBy(registry, g, keys[0]).None? then [keys[0]] else []) + Unserved(registry, g, keys[1..])
  }

  lemma DeclaredNames(registry: seq<ConfigKey>, request: Request)
    requires Declared(registry, request)
    ensures forall k :: k in request.required ==> k.name in KeyNames(registry)
  {
    forall k | k in request.required ensures k.name in KeyNames(registry) {
      var i :| 0 <= i < |registry| && registry[i] == k;
      assert KeyNames(registry)[i] == k.name;
    }
  }

  /** A refresh can be granted exactly when every required key is application-tier and decodable now. */
  ghost predicate Grantable(source: Source, request: Request) {
    forall k :: k in request.required ==> k.tier == Application && Get(source.held, k.name).Some?
  }

  /** The keys the source cannot decode now, in order. */
  function Undecoded(source: Source, keys: seq<ConfigKey>): (r: seq<ConfigKey>)
    ensures forall k :: k in r <==> k in keys && Get(source.held, k.name).None?
  {
    if keys == [] then []
    else (if Get(source.held, keys[0].name).None? then [keys[0]] else []) + Undecoded(source, keys[1..])
  }

  function Undecodable(source: Source): ConfigKey -> bool {
    (key: ConfigKey) => Get(source.held, key.name).None?
  }

  /** They are named in order, and once per occurrence. */
  lemma {:induction false} UndecodedInOrder(source: Source, keys: seq<ConfigKey>) returns (at: seq<nat>)
    ensures Picks(keys, Undecodable(source), at, Undecoded(source, keys))
  {
    if keys == [] {
      at := [];
    } else {
      var rest := UndecodedInOrder(source, keys[1..]);
      at := PicksOneMore(keys, Undecodable(source), rest, Undecoded(source, keys[1..]));
    }
  }

  lemma {:induction false} UnservedIsUndecoded(registry: seq<ConfigKey>, g: Generation, source: Source,
                                               keys: seq<ConfigKey>)
    requires Fits(registry, g) && forall k :: k in keys ==> k.name in KeyNames(registry)
    requires forall k :: k in keys ==> (ServedBy(registry, g, k).None? <==> Get(source.held, k.name).None?)
    ensures Unserved(registry, g, keys) == Undecoded(source, keys)
  {
    if keys != [] {
      assert keys[0] in keys;
      UnservedIsUndecoded(registry, g, source, keys[1..]);
    }
  }

  /** What one refresh does to the installed generation. */
  ghost predicate RefreshStep(registry: seq<ConfigKey>, before: Generation, source: Source, request: Request,
                              outcome: Outcome, after: Generation)
    requires Fits(registry, before)
  {
    if Grantable(source, request) then
      && outcome == Applied(after, request.actor)
      && after == Resolve(registry, source, Some(before), before.number + 1, request.actor)
    else
      && after == before
      && outcome.Rejected? && outcome.previous == before
      && outcome.reason.bootstrapRefused == OfTier(request.required, Bootstrap)
      && outcome.reason.unresolved
      == (if outcome.reason.bootstrapRefused == [] then Undecoded(source, request.required) else [])
      && outcome.reason.consulted == if outcome.reason.bootstrapRefused == [] then [source.name] else []
  }

  /** The process-wide slot. */
  class ConfigCell {
    const registry: seq<ConfigKey>
    var current: Generation

    ghost predicate Valid()
      reads this
    {
      Distinct(KeyNames(registry)) && Fits(registry, current)
    }

    /** Boot: the first generation resolves every key, bootstrap tier included. */
    constructor (registry: seq<ConfigKey>, source: Source)
      requires Distinct(KeyNames(registry))
      ensures Valid() && this.registry == registry
      ensures current == Resolve(registry, source, None, 1, System)
    {
      this.registry := registry;
      this.current := Resolve(registry, source, None, 1, System);
    }

    method TryRefresh(source: Source, request: Request) returns (outcome: Outcome)
      requires Valid() && Declared(registry, request)
      modifies this`current
      ensures Valid()
      ensures RefreshStep(registry, old(current), source, request, outcome, current)
    {
      var previous := current;
      var refused := OfTier(request.required, Bootstrap);
      Decision(registry, source, previous, request);
      if refused != [] {
        return Outcome.Rejected(Rejection([], refused, []), previous);
      }
      var candidate := Resolve(registry, source, Some(previous), previous.number + 1, request.actor);
      var unresolved := Unserved(registry, candidate, request.required);
      if unresolved != [] {
        return Outcome.Rejected(Rejection(unresolved, [], [source.name]), previous);
      }
      current := candidate;
      return Applied(candidate, request.actor);
    }

    /** The best-effort form: no required keys, so it always applies. */
    method Refresh(source: Source) returns (g: Generation)
      requires Valid()
      modifies this`current
      ensures Valid() && g == current
      ensures current == Resolve(registry, source, Some(old(current)), old(current.number) + 1, System)
    {
      var outcome := TryRefresh(source, Request(System, []));
      match outcome {
        case Applied(generation, _) => g := generation;
        case Rejected(_, previous) => g := previous;
      }
    }
  }

  /** An application-tier key is served in a candidate exactly when the source decodes it. */
  lemma CandidateServes(registry: seq<ConfigKey>, source: Source, previous: Generation, number: nat, request: Request)
    requires Distinct(KeyNames(registry)) && Fits(registry, previous) && Declared(registry, request)
    ensures forall k :: k in request.required ==> k.name in KeyNames(registry)
    ensures forall k :: k in request.required && k.tier == Application ==>
              ServedBy(registry, Resolve(registry, source, Some(previous), number, request.actor), k)
              == if Get(source.held, k.name).Some? then Some(source.name) else None
  {
    DeclaredNames(registry, request);
    forall k | k in request.required && k.tier == Application
      ensures ServedBy(registry, Resolve(registry, source, Some(previous), number, request.actor), k)
              == if Get(source.held, k.name).Some? then Some(source.name) else None
    {
      var i :| 0 <= i < |registry| && registry[i] == k;
      IndexOfPosition(registry, i);
    }
  }

  /** The two checks a refresh makes decide exactly whether it can be granted. */
  lemma Decision(registry: seq<ConfigKey>, source: Source, previous: Generation, request: Request)
    requires Distinct(KeyNames(registry)) && Fits(registry, previous) && Declared(registry, request)
    ensures forall k :: k in request.required ==> k.name in KeyNames(registry)
    ensures var refused := OfTier(request.required, Bootstrap);
            var candidate := Resolve(registry, source, Some(previous), previous.number + 1, request.actor);
            && (Grantable(source, request) <==> refused == [] && Undecoded(source, request.required) == [])
            && (refused == [] ==>
                  Unserved(registry, candidate, request.required) == Undecoded(source, request.required))
  {
    CandidateServes(registry, source, previous, previous.number + 1, request);
    UndecodedMembers(source, request.required);
    var refused := OfTier(request.required, Bootstrap);
    if refused == [] {
      forall k | k in request.required ensures k.tier == Application {
        assert k !in refused;
      }
      var candidate := Resolve(registry, source, Some(previous), previous.number + 1, request.actor);
      UnservedIsUndecoded(registry, candidate, source, request.required);
    } else {
      assert refused[0] in refused;
    }
  }

  lemma {:induction false} UndecodedMembers(source: Source, keys: seq<ConfigKey>)
    ensures Undecoded(source, keys) == [] <==> forall k :: k in keys ==> Get(source.held, k.name).Some?
  {
    if keys != [] {
      UndecodedMembers(source, keys[1..]);
      assert keys == [keys[0]] + keys[1..];
    }
  }

  // ---- Serial runs ----

  ghost predicate SameBootstrap(registry: seq<ConfigKey>, a: Generation, b: Generation) {
    && Fits(registry, a) && Fits(registry, b)
    && forall i :: 0 <= i < |registry| && registry[i].tier == Bootstrap ==> a.entries[i] == b.entries[i]
  }

  /** Refreshes one after the other, each against whatever the provider holds by then. */
  ghost predicate SerialRun(registry: seq<ConfigKey>, states: seq<Generation>,
                            calls: seq<(Source, Request)>, outcomes: seq<Outcome>)
  {
    && |states| == |calls| + 1 && |outcomes| == |calls|
    && (forall i :: 0 <= i < |states| ==> Fits(registry, states[i]))
    && (forall i :: 0 <= i < |calls| ==> Declared(registry, calls[i].1))
    && (forall i :: 0 <= i < |calls| ==>
          RefreshStep(registry, states[i], calls[i].0, calls[i].1, outcomes[i], states[i + 1]))
  }

  function AppliedCount(outcomes: seq<Outcome>): nat {
    if outcomes == [] then 0
    else AppliedCount(outcomes[..|outcomes| - 1]) + if outcomes[|outcomes| - 1].Applied? then 1 else 0
  }

  /** The number counts the applied refreshes, and bootstrap entries are the first generation's. */
  lemma {:induction false} SerialNumbers(registry: seq<ConfigKey>, states: seq<Generation>,
                                         calls: seq<(Source, Request)>, outcomes: seq<Outcome>, n: nat)
    requires SerialRun(registry, states, calls, outcomes) && n < |states|
    ensures states[n].number == states[0].number + AppliedCount(outcomes[..n])
    ensures SameBootstrap(registry, states[0], states[n])
  {
    if n > 0 {
      SerialNumbers(registry, states, calls, outcomes, n - 1);
      assert outcomes[..n][..n - 1] == outcomes[..n - 1];
      assert RefreshStep(registry, states[n - 1], calls[n - 1].0, calls[n - 1].1, outcomes[n - 1], states[n]);
    }
  }

  /**
  A refresh is applied exactly when every required key is application-tier and the source
  decodes it, and then it serves them all; a rejected one leaves the generation identical
  and names the bootstrap-tier keys, or else the undecodable ones and the provider asked.
  */
  lemma SerialOutcomes(registry: seq<ConfigKey>, states: seq<Generation>,
                       calls: seq<(Source, Request)>, outcomes: seq<Outcome>, n: nat)
    requires Distinct(KeyNames(registry))
    requires SerialRun(registry, states, calls, outcomes) && n < |calls|
    ensures var (source, request) := calls[n];
            outcomes[n].Applied? <==>
            forall k :: k in request.required ==> k.tier == Application && Get(source.held, k.name).Some?
    ensures var (source, request) := calls[n];
            outcomes[n].Applied? ==>
              && outcomes[n] == Applied(states[n + 1], request.actor)
              && states[n + 1].number == states[n].number + 1
              && forall k :: k in request.required ==>
                   k.name in KeyNames(registry) && ServedBy(registry, states[n + 1], k) == Some(source.name)
    ensures var (source, request) := calls[n];
            outcomes[n].Rejected? ==>
              var reason := outcomes[n].reason;
              && states[n + 1] == states[n] == outcomes[n].previous
              && (forall k :: k in reason.bootstrapRefused <==> k in request.required && k.tier == Bootstrap)
              && (if reason.bootstrapRefused != [] then reason.unresolved == [] && reason.consulted == []
                  else && reason.consulted == [source.name]
                       && forall k :: k in reason.unresolved <==>
                            k in request.required && Get(source.held, k.name).None?)
  {
    var (source, request) := calls[n];
    assert RefreshStep(registry, states[n], source, request, outcomes[n], states[n + 1]);
    CandidateServes(registry, source, states[n], states[n].number + 1, request);
  }

  /** The sources after `n` calls: that of the last applied refresh, or boot's. */
  function LiveAfter(boot: Source, calls: seq<(Source, Request)>, outcomes: seq<Outcome>, n: nat): Source
    requires n <= |calls| == |outcomes|
  {
    if n == 0 then boot
    else if outcomes[n - 1].Applied? then calls[n - 1].0 else LiveAfter(boot, calls, outcomes, n - 1)
  }

  function ActorAfter(calls: seq<(Source, Request)>, outcomes: seq<Outcome>, n: nat): Actor
    requires n <= |calls| == |outcomes|
  {
    if n == 0 then System
    else if outcomes[n - 1].Applied? then calls[n - 1].1.actor else ActorAfter(calls, outcomes, n - 1)
  }

  /** One refresh: what the generation answers from afterwards, and who it names. */
  lemma RefreshAnswers(registry: seq<ConfigKey>, before: Generation, source: Source, request: Request,
                       outcome: Outcome, after: Generation, live: Source, boot: Source)
    requires AnswersFrom(registry, before, live, boot)
    requires RefreshStep(registry, before, source, request, outcome, after)
    ensures AnswersFrom(registry, after, if outcome.Applied? then source else live, boot)
    ensures after.actor == if outcome.Applied? then request.actor else before.actor
  {
    ResolveAnswers(registry, source, Some(before), before.number + 1, request.actor, live, boot);
  }

  /**
  Over every serial run, the installed generation reads every application-tier key as the
  source of the last applied refresh decoded it, and every bootstrap-tier key as boot's
  did; its actor is the one who asked for that refresh.
  */
  lemma {:induction false} SerialReads(registry: seq<ConfigKey>, boot: Source, states: seq<Generation>,
                                       calls: seq<(Source, Request)>, outcomes: seq<Outcome>, n: nat)
    requires SerialRun(registry, states, calls, outcomes) && n < |states|
    requires states[0] == Resolve(registry, boot, None, 1, System)
    ensures AnswersFrom(registry, states[n], LiveAfter(boot, calls, outcomes, n), boot)
    ensures states[n].actor == ActorAfter(calls, outcomes, n)
  {
    if n == 0 {
      ResolveAnswers(registry, boot, None, 1, System, boot, boot);
    } else {
      var (source, request) := calls[n - 1];
      var before, after := states[n - 1], states[n];
      assert RefreshStep(registry, before, source, request, outcomes[n - 1], after);
      SerialReads(registry, boot, states, calls, outcomes, n - 1);
      RefreshAnswers(registry, before, source, request, outcomes[n - 1], after,
                     LiveAfter(boot, calls, outcomes, n - 1), boot);
    }
  }

  // ---- Staleness ----

  datatype Staleness = Unchanged | Appeared | Disappeared | ChangedProvider

  function DeriveStaleness(recorded: Option<string>, liveHolds: bool, liveName: string): Staleness {
    match (recorded, liveHolds)
    case (None, false) => Unchanged
    case (None, true) => Appeared
    case (Some(_), false) => Disappeared
    case (Some(name), true) => if name == liveName then Unchanged else ChangedProvider
  }

  datatype StalenessRow = StalenessRow(key: string, recorded: Option<string>, liveHolds: bool, state: Staleness)

  function RowFor(registry: seq<ConfigKey>, recorded: Generation, source: Source, key: ConfigKey): StalenessRow
    requires Fits(registry, recorded) && key.name in KeyNames(registry)
  {
    var served := ServedBy(registry, recorded, key);
    var live := key.name in source.held;
    StalenessRow(key.name, served, live, DeriveStaleness(served, live, source.name))
  }

  /** One row per declared key, in registry order. */
  function CheckStaleness(registry: seq<ConfigKey>, recorded: Generation, source: Source): (rows: seq<StalenessRow>)
    requires Fits(registry, recorded)
    ensures |rows| == |registry|
    ensures forall i :: 0 <= i < |rows| ==>
              registry[i].name in KeyNames(registry) && rows[i] == RowFor(registry, recorded, source, registry[i])
  {
    assert forall i :: 0 <= i < |registry| ==> KeyNames(registry)[i] == registry[i].name;
    seq(|registry|, i requires 0 <= i < |registry| && registry[i].name in KeyNames(registry) =>
          RowFor(registry, recorded, source, registry[i]))
  }

  /** Each state of a key's row, from what was recorded and what the live provider holds. */
  lemma StatesExactly(registry: seq<ConfigKey>, recorded: Generation, live: Source, i: nat)
    requires Distinct(KeyNames(registry)) && Fits(registry, recorded) && i < |registry|
    ensures var row := CheckStaleness(registry, recorded, live)[i];
            var who, held := recorded.entries[i].servedBy, registry[i].name in live.held;
            && row.key == registry[i].name && row.recorded == who && row.liveHolds == held
            && (row.state == Appeared <==> who.None? && held)
            && (row.state == Disappeared <==> who.Some? && !held)
            && (row.state == ChangedProvider <==> who.Some? && held && who.value != live.name)
            && (row.state == Unchanged <==> (who.None? && !held) || (held && who == Some(live.name)))
  {
    IndexOfPosition(registry, i);
  }

  /** The rows that disagree, in registry order: what the report flags. */
  function Divergent(rows: seq<StalenessRow>): (r: seq<StalenessRow>)
    ensures forall row :: row in r <==> row in rows && row.state != Unchanged
  {
    if rows == [] then []
    else (if rows[0].state != Unchanged then [rows[0]] else []) + Divergent(rows[1..])
  }

  /**
  Against a source that decodes all it holds, the report is quiet exactly when resolving
  every key anew would record the same serving provider for each.
  */
  lemma QuietReportIff(registry: seq<ConfigKey>, recorded: Generation, source: Source)
    requires Distinct(KeyNames(registry)) && Fits(registry, recorded)
    requires forall k :: k in source.held ==> source.held[k].Readable?
    ensures Divergent(CheckStaleness(registry, recorded, source)) == [] <==>
            forall i :: 0 <= i < |registry| ==>
              recorded.entries[i].servedBy
              == Resolve(registry, source, None, recorded.number + 1, System).entries[i].servedBy
  {
    var rows := CheckStaleness(registry, recorded, source);
    var flagged := Divergent(rows);
    forall i | 0 <= i < |registry|
      ensures rows[i].state == Unchanged <==>
              recorded.entries[i].servedBy
              == Resolve(registry, source, None, recorded.number + 1, System).entries[i].servedBy
    {
      IndexOfPosition(registry, i);
    }
    if flagged != [] {
      assert flagged[0] in rows;
    }
    assert forall i :: 0 <= i < |rows| ==> rows[i] in rows;
  }

  /** Everything recorded was served by the one provider of the process. */
  ghost predicate OnlyServedBy(g: Generation, name: string) {
    forall i :: 0 <= i < |g.entries| ==> g.entries[i].servedBy.None? || g.entries[i].servedBy == Some(name)
  }

  lemma {:induction false} SingleProviderRun(registry: seq<ConfigKey>, states: seq<Generation>,
                                             calls: seq<(Source, Request)>, outcomes: seq<Outcome>,
                                             name: string, n: nat)
    requires SerialRun(registry, states, calls, outcomes) && n < |states|
    requires OnlyServedBy(states[0], name)
    requires forall i :: 0 <= i < |calls| ==> calls[i].0.name == name
    ensures OnlyServedBy(states[n], name)
  {
    if n > 0 {
      SingleProviderRun(registry, states, calls, outcomes, name, n - 1);
      assert RefreshStep(registry, states[n - 1], calls[n - 1].0, calls[n - 1].1, outcomes[n - 1], states[n]);
    }
  }

  /** In a single-provider process no report ever says that the provider changed. */
  lemma ProviderNeverChanges(registry: seq<ConfigKey>, boot: Source, states: seq<Generation>,
                             calls: seq<(Source, Request)>, outcomes: seq<Outcome>, n: nat, live: Source, i: nat)
    requires SerialRun(registry, states, calls, outcomes) && n < |states|
    requires states[0] == Resolve(registry, boot, None, 1, System)
    requires forall j :: 0 <= j < |calls| ==> calls[j].0.name == boot.name
    requires live.name == boot.name && i < |registry|
    ensures CheckStaleness(registry, states[n], live)[i].state != ChangedProvider
  {
    SingleProviderRun(registry, states, calls, outcomes, boot.name, n);
  }

  /**
  Right after an applied refresh, with the provider unchanged, the report diverges on
  exactly the application-tier keys held but undecodable, which it calls appeared, and the
  bootstrap-tier keys whose presence now differs from what boot recorded, each way.
  */
  lemma StaleAfterRefreshExactly(registry: seq<ConfigKey>, boot: Source, states: seq<Generation>,
                                 calls: seq<(Source, Request)>, outcomes: seq<Outcome>, n: nat, i: nat)
    requires Distinct(KeyNames(registry))
    requires SerialRun(registry, states, calls, outcomes) && n < |calls| && outcomes[n].Applied?
    requires states[0] == Resolve(registry, boot, None, 1, System)
    requires forall j :: 0 <= j < |calls| ==> calls[j].0.name == boot.name
    requires i < |registry|
    ensures var live := calls[n].0;
            var key := registry[i];
            var held, known := key.name in live.held,
                               Get(if key.tier == Application then live.held else boot.held, key.name).Some?;
            CheckStaleness(registry, states[n + 1], live)[i].state
            == if held == known then Unchanged else if held then Appeared else Disappeared
    ensures registry[i].tier == Application ==>
              CheckStaleness(registry, states[n + 1], calls[n].0)[i].state != Disappeared
  {
    IndexOfPosition(registry, i);
    SerialNumbers(registry, states, calls, outcomes, n + 1);
    SingleProviderRun(registry, states, calls, outcomes, boot.name, n + 1);
    assert RefreshStep(registry, states[n], calls[n].0, calls[n].1, outcomes[n], states[n + 1]);
    assert CheckStaleness(registry, states[n + 1], calls[n].0)[i]
        == RowFor(registry, states[n + 1], calls[n].0, registry[i]);
  }
}

/**
Any number of refreshes at once. A refresh reads the installed generation, builds a
candidate from it without holding a lock, and only then swaps the candidate in, so the
steps of different refreshes interleave freely.
*/
module Refreshers {
  import opened Base
  import opened Providers
  import opened Registry
  import opened Generations

  /** A generation that was installed, and the position of the one it was built from. */
  datatype Installed = Installed(generation: Generation, parent: nat)

  datatype Task = Reading(parent: nat, request: Request) | Built(parent: nat, candidate: Generation)

  /** Everything installed so far, boot first; the last one is live. */
  datatype Process = Process(history: seq<Installed>, tasks: map<nat, Task>)

  datatype Step = Read(id: nat, request: Request) | Build(id: nat, source: Source) | Swap(id: nat)

  function Boot(registry: seq<ConfigKey>, source: Source): Process {
    Process([Installed(Generations.Resolve(registry, source, None, 1, Actor.System), 0)], map[])
  }

  /** A step that does not apply leaves the system alone, so every step sequence is an interleaving. */
  ghost function Exec(registry: seq<ConfigKey>, s: Process, step: Step): Process {
    match step
    case Read(id, request) =>
      if id in s.tasks || s.history == [] then s
      else s.(tasks := s.tasks[id := Reading(|s.history| - 1, request)])
    case Build(id, source) =>
      if id !in s.tasks || !s.tasks[id].Reading? then s
      else
        var Reading(parent, request) := s.tasks[id];
        if parent >= |s.history| || !Fits(registry, s.history[parent].generation) then s
        else if !Grantable(source, request) then s.(tasks := s.tasks - {id})
        else
          var previous := s.history[parent].generation;
          s.(tasks := s.tasks[id := Built(parent, Generations.Resolve(registry, source, Some(previous),
                                                                      previous.number + 1, request.actor))])
    case Swap(id) =>
      if id !in s.tasks || !s.tasks[id].Built? then s
      else Process(s.history + [Installed(s.tasks[id].candidate, s.tasks[id].parent)], s.tasks - {id})
  }

  ghost function Run(registry: seq<ConfigKey>, s: Process, steps: seq<Step>): Process {
    if steps == [] then s else Exec(registry, Run(registry, s, steps[..|steps| - 1]), steps[|steps| - 1])
  }

  /** `g` was built from `parent`. */
  ghost predicate ChildOf(registry: seq<ConfigKey>, g: Generation, parent: Generation) {
    SameBootstrap(registry, g, parent) && g.number == parent.number + 1
  }

  ghost predicate Inv(registry: seq<ConfigKey>, s: Process) {
    && s.history != []
    && (forall i :: 0 <= i < |s.history| ==>
          SameBootstrap(registry, s.history[i].generation, s.history[0].generation))
    && (forall i :: 0 < i < |s.history| ==>
          && s.history[i].parent < i
          && ChildOf(registry, s.history[i].generation, s.history[s.history[i].parent].generation))
    && (forall id :: id in s.tasks ==>
          && s.tasks[id].parent < |s.history|
          && (s.tasks[id].Built? ==>
                ChildOf(registry, s.tasks[id].candidate, s.history[s.tasks[id].parent].generation)))
  }

  lemma ExecKeepsInv(registry: seq<ConfigKey>, s: Process, step: Step)
    requires Inv(registry, s)
    ensures Inv(registry, Exec(registry, s, step))
    ensures s.history <= Exec(registry, s, step).history
  {
    var s' := Exec(registry, s, step);
    match step {
      case Read(_, _) =>
      case Build(id, source) =>
        if id in s.tasks && s.tasks[id].Reading? {
          var parent := s.history[s.tasks[id].parent].generation;
          assert SameBootstrap(registry, parent, s.history[0].generation);
        }
      case Swap(id) =>
        if id in s.tasks && s.tasks[id].Built? {
          SwapKeepsInv(registry, s, id);
        }
    }
  }

  lemma SwapKeepsInv(registry: seq<ConfigKey>, s: Process, id: nat)
    requires Inv(registry, s) && id in s.tasks && s.tasks[id].Built?
    ensures Inv(registry, Exec(registry, s, Swap(id)))
  {
    var s' := Exec(registry, s, Swap(id));
    var n := |s.history|;
    assert forall i :: 0 <= i < n ==> s'.history[i] == s.history[i];
    assert s'.history[n] == Installed(s.tasks[id].candidate, s.tasks[id].parent);
    assert SameBootstrap(registry, s.history[s.tasks[id].parent].generation, s.history[0].generation);
  }

  lemma {:induction false} ReachableInv(registry: seq<ConfigKey>, source: Source, steps: seq<Step>)
    ensures Inv(registry, Run(registry, Boot(registry, source), steps))
    ensures Boot(registry, source).history <= Run(registry, Boot(registry, source), steps).history
  {
    if steps != [] {
      ReachableInv(registry, source, steps[..|steps| - 1]);
      ExecKeepsInv(registry, Run(registry, Boot(registry, source), steps[..|steps| - 1]), steps[|steps| - 1]);
    }
  }

  lemma {:induction false} NumberBound(registry: seq<ConfigKey>, s: Process, i: nat)
    requires Inv(registry, s) && i < |s.history|
    ensures s.history[0].generation.number <= s.history[i].generation.number <= s.history[0].generation.number + i
  {
    if i > 0 {
      NumberBound(registry, s, s.history[i].parent);
    }
  }

  /**
  In every interleaving of any number of refreshes, every generation ever installed
  carries boot's bootstrap entries, is numbered one above the generation it was built
  from, and is numbered at most one plus the refreshes applied up to it.
  */
  lemma EveryInterleaving(registry: seq<ConfigKey>, source: Source, steps: seq<Step>, i: nat)
    requires i < |Run(registry, Boot(registry, source), steps).history|
    ensures var history := Run(registry, Boot(registry, source), steps).history;
            && SameBootstrap(registry, history[i].generation, Boot(registry, source).history[0].generation)
            && 1 <= history[i].generation.number <= 1 + i
            && (i > 0 ==> history[i].parent < i
                          && history[i].generation.number == history[history[i].parent].generation.number + 1)
  {
    var s := Run(registry, Boot(registry, source), steps);
    ReachableInv(registry, source, steps);
    assert s.history[0] == Boot(registry, source).history[0];
    NumberBound(registry, s, i);
  }

  /** No swap overwrote a generation that its refresh had not read. */
  ghost predicate NoOverlap(history: seq<Installed>) {
    forall i :: 0 < i < |history| ==> history[i].parent == i - 1
  }

  ghost predicate Consecutive(history: seq<Installed>) {
    forall i :: 0 <= i < |history| ==> history[i].generation.number == 1 + i
  }

  /** The numbers count up one by one exactly when no two refreshes overlapped. */
  lemma ConsecutiveIff(registry: seq<ConfigKey>, source: Source, steps: seq<Step>)
    ensures var history := Run(registry, Boot(registry, source), steps).history;
            Consecutive(history) <==> NoOverlap(history)
  {
    var s := Run(registry, Boot(registry, source), steps);
    ReachableInv(registry, source, steps);
    assert s.history[0] == Boot(registry, source).history[0];
    if NoOverlap(s.history) {
      var i := 0;
      while i < |s.history|
        invariant 0 <= i <= |s.history|
        invariant forall j :: 0 <= j < i ==> s.history[j].generation.number == 1 + j
      {
        i := i + 1;
      }
    }
    if Consecutive(s.history) {
      forall i | 0 < i < |s.history| ensures s.history[i].parent == i - 1 {
        var p := s.history[i].parent;
        assert ChildOf(registry, s.history[i].generation, s.history[p].generation);
      }
    }
  }

  // ---- The same, of the schedule ----

  /** The process after the first `p` steps. */
  ghost function After(registry: seq<ConfigKey>, source: Source, steps: seq<Step>, p: nat): Process
    requires p <= |steps|
  {
    Run(registry, Boot(registry, source), steps[..p])
  }

  /** Step `p` swaps a candidate in. */
  ghost predicate Installs(registry: seq<ConfigKey>, source: Source, steps: seq<Step>, p: nat) {
    && p < |steps| && steps[p].Swap?
    && var s := After(registry, source, steps, p);
       steps[p].id in s.tasks && s.tasks[steps[p].id].Built?
  }

  /** Step `q` starts refresh `id`. */
  ghost predicate Starts(registry: seq<ConfigKey>, source: Source, steps: seq<Step>, q: nat, id: nat) {
    q < |steps| && steps[q].Read? && steps[q].id == id && id !in After(registry, source, steps, q).tasks
  }

  /** `q` is the latest start of refresh `id` before step `p`. */
  ghost predicate Began(registry: seq<ConfigKey>, source: Source, steps: seq<Step>, id: nat, q: nat, p: nat) {
    && q < p <= |steps| && Starts(registry, source, steps, q, id)
    && forall r :: q < r < p ==> !Starts(registry, source, steps, r, id)
  }

  /** No swap happens between the start of a refresh and its own swap. */
  ghost predicate Uncrossed(registry: seq<ConfigKey>, source: Source, steps: seq<Step>) {
    forall q: nat, p: nat ::
      Installs(registry, source, steps, p) && Began(registry, source, steps, steps[p].id, q, p) ==>
        forall r: nat :: q < r < p ==> !Installs(registry, source, steps, r)
  }

  lemma AfterOneMore(registry: seq<ConfigKey>, source: Source, steps: seq<Step>, p: nat)
    requires p < |steps|
    ensures After(registry, source, steps, p + 1)
         == Exec(registry, After(registry, source, steps, p), steps[p])
    ensures |After(registry, source, steps, p + 1).history|
         == |After(registry, source, steps, p).history| + if Installs(registry, source, steps, p) then 1 else 0
    ensures After(registry, source, steps, p).history <= After(registry, source, steps, p + 1).history
  {
    assert steps[..p + 1][..p] == steps[..p];
  }

  /** The history grows by the swaps, and only by them. */
  lemma {:induction false} Grows(registry: seq<ConfigKey>, source: Source, steps: seq<Step>, q: nat, p: nat)
    requires q <= p <= |steps|
    ensures After(registry, source, steps, q).history <= After(registry, source, steps, p).history
    ensures |After(registry, source, steps, q).history| == |After(registry, source, steps, p).history| <==>
            forall r: nat :: q <= r < p ==> !Installs(registry, source, steps, r)
    decreases p - q
  {
    if q < p {
      Grows(registry, source, steps, q, p - 1);
      AfterOneMore(registry, source, steps, p - 1);
    }
  }

  /** A refresh under way was built from the generation that was live when it started. */
  lemma {:induction false} BuiltFromStart(registry: seq<ConfigKey>, source: Source, steps: seq<Step>, p: nat, id: nat)
    returns (q: nat)
    requires p <= |steps| && id in After(registry, source, steps, p).tasks
    ensures Began(registry, source, steps, id, q, p)
    ensures After(registry, source, steps, p).tasks[id].parent == |After(registry, source, steps, q).history| - 1
  {
    assert p > 0;
    var before := After(registry, source, steps, p - 1);
    AfterOneMore(registry, source, steps, p - 1);
    if id in before.tasks {
      q := BuiltFromStart(registry, source, steps, p - 1, id);
    } else {
      q := p - 1;
    }
  }

  /** Every installed generation was swapped in by one step. */
  lemma {:induction false} SwappedInBy(registry: seq<ConfigKey>, source: Source, steps: seq<Step>, n: nat, i: nat)
    returns (p: nat)
    requires n <= |steps| && 0 < i < |After(registry, source, steps, n).history|
    ensures p < n && Installs(registry, source, steps, p) && |After(registry, source, steps, p).history| == i
    ensures After(registry, source, steps, n).history[i].parent
         == After(registry, source, steps, p).tasks[steps[p].id].parent
    ensures After(registry, source, steps, n).history[i].generation
         == After(registry, source, steps, p).tasks[steps[p].id].candidate
  {
    assert n > 0;
    AfterOneMore(registry, source, steps, n - 1);
    if i < |After(registry, source, steps, n - 1).history| {
      p := SwappedInBy(registry, source, steps, n - 1, i);
    } else {
      p := n - 1;
    }
  }

  /** The numbers count up one by one exactly when no refresh was crossed by another's swap. */
  lemma ConsecutiveIffUncrossed(registry: seq<ConfigKey>, source: Source, steps: seq<Step>)
    ensures Consecutive(Run(registry, Boot(registry, source), steps).history) <==> Uncrossed(registry, source, steps)
  {
    var n := |steps|;
    assert steps[..n] == steps;
    var history := After(registry, source, steps, n).history;
    ConsecutiveIff(registry, source, steps);
    if Uncrossed(registry, source, steps) {
      forall i | 0 < i < |history| ensures history[i].parent == i - 1 {
        var p := SwappedInBy(registry, source, steps, n, i);
        var q := BuiltFromStart(registry, source, steps, p, steps[p].id);
        Grows(registry, source, steps, q, p);
      }
    }
    if NoOverlap(history) {
      forall q: nat, p: nat | Installs(registry, source, steps, p) && Began(registry, source, steps, steps[p].id, q, p)
        ensures forall r: nat :: q < r < p ==> !Installs(registry, source, steps, r)
      {
        NotCrossed(registry, source, steps, q, p);
      }
    }
  }

  lemma NotCrossed(registry: seq<ConfigKey>, source: Source, steps: seq<Step>, q: nat, p: nat)
    requires NoOverlap(After(registry, source, steps, |steps|).history)
    requires Installs(registry, source, steps, p) && Began(registry, source, steps, steps[p].id, q, p)
    ensures forall r: nat :: q < r < p ==> !Installs(registry, source, steps, r)
  {
    var q' := BuiltFromStart(registry, source, steps, p, steps[p].id);
    assert q' == q;
    var i := |After(registry, source, steps, p).history|;
    AfterOneMore(registry, source, steps, p);
    Grows(registry, source, steps, p + 1, |steps|);
    ReachableInv(registry, source, steps[..p]);
    assert After(registry, source, steps, |steps|).history[i] == After(registry, source, steps, p + 1).history[i];
    Grows(registry, source, steps, q, p);
  }

  // ---- What an installed generation reads ----

  /** No step between `q` and `p` tries to build the candidate of refresh `id`. */
  ghost predicate NoBuild(steps: seq<Step>, id: nat, q: nat, p: nat) {
    forall r: nat :: q < r < p && r < |steps| ==> !(steps[r].Build? && steps[r].id == id)
  }

  /** A step after which a refresh is still reading did not try to build it. */
  lemma StillReading(registry: seq<ConfigKey>, s: Process, step: Step, id: nat)
    requires Inv(registry, s) && id in s.tasks
    requires var s' := Exec(registry, s, step); id in s'.tasks && s'.tasks[id].Reading?
    ensures Exec(registry, s, step).tasks[id] == s.tasks[id]
    ensures !(step.Build? && step.id == id)
  {
    assert SameBootstrap(registry, s.history[s.tasks[id].parent].generation, s.history[0].generation);
  }

  lemma StillReadingAfter(registry: seq<ConfigKey>, source: Source, steps: seq<Step>, n: nat, id: nat)
    requires n < |steps| && id in After(registry, source, steps, n).tasks
    requires var s := After(registry, source, steps, n + 1); id in s.tasks && s.tasks[id].Reading?
    ensures After(registry, source, steps, n + 1).tasks[id] == After(registry, source, steps, n).tasks[id]
    ensures !(steps[n].Build? && steps[n].id == id)
  {
    AfterOneMore(registry, source, steps, n);
    ReachableInv(registry, source, steps[..n]);
    StillReading(registry, After(registry, source, steps, n), steps[n], id);
  }

  /** A refresh that has started carries the request it started with, until its one attempt to build. */
  lemma {:induction false} RequestOfStart(registry: seq<ConfigKey>, source: Source, steps: seq<Step>,
                                          p: nat, id: nat, q: nat)
    requires p <= |steps| && id in After(registry, source, steps, p).tasks
    requires After(registry, source, steps, p).tasks[id].Reading? && Began(registry, source, steps, id, q, p)
    ensures After(registry, source, steps, p).tasks[id].request == steps[q].request
    ensures NoBuild(steps, id, q, p)
  {
    if id in After(registry, source, steps, p - 1).tasks {
      StillReadingAfter(registry, source, steps, p - 1, id);
      RequestOfStart(registry, source, steps, p - 1, id, q);
    } else {
      AfterOneMore(registry, source, steps, p - 1);
      assert Starts(registry, source, steps, p - 1, id);
    }
  }

  /** `g` was built at step `b`, the one attempt of the refresh that started at step `q`, and could be granted. */
  ghost predicate BuiltAt(registry: seq<ConfigKey>, source: Source, steps: seq<Step>, g: Generation, id: nat,
                          q: nat, b: nat)
  {
    && b < |steps| && steps[b].Build? && steps[b].id == id && Began(registry, source, steps, id, q, b)
    && NoBuild(steps, id, q, b)
    && Grantable(steps[b].source, steps[q].request)
    && AnswersFrom(registry, g, steps[b].source, source)
    && g.actor == steps[q].request.actor
  }

  /** The one step that makes a candidate: what the candidate answers from, and whom it names. */
  lemma BuildAnswers(registry: seq<ConfigKey>, s: Process, step: Step, live: Source, boot: Source)
    requires step.id in s.tasks && s.tasks[step.id].Reading? && s.tasks[step.id].parent < |s.history|
    requires AnswersFrom(registry, s.history[s.tasks[step.id].parent].generation, live, boot)
    ensures var s' := Exec(registry, s, step);
            step.id in s'.tasks && s'.tasks[step.id].Built? ==>
              && step.Build? && Grantable(step.source, s.tasks[step.id].request)
              && AnswersFrom(registry, s'.tasks[step.id].candidate, step.source, boot)
              && s'.tasks[step.id].candidate.actor == s.tasks[step.id].request.actor
  {
    if step.Build? {
      var Reading(parent, request) := s.tasks[step.id];
      var from := s.history[parent].generation;
      ResolveAnswers(registry, step.source, Some(from), from.number + 1, request.actor, live, boot);
    }
  }

  lemma BeganStays(registry: seq<ConfigKey>, source: Source, steps: seq<Step>, id: nat, q: nat, p: nat)
    requires p < |steps| && Began(registry, source, steps, id, q, p) && id in After(registry, source, steps, p).tasks
    ensures Began(registry, source, steps, id, q, p + 1)
  {
  }

  lemma BuiltNow(registry: seq<ConfigKey>, source: Source, steps: seq<Step>, b: nat, live: Source)
    returns (q: nat)
    requires b < |steps| && steps[b].Build? && steps[b].id in After(registry, source, steps, b).tasks
    requires var s, id := After(registry, source, steps, b), steps[b].id;
             && s.tasks[id].Reading? && s.tasks[id].parent < |s.history|
             && AnswersFrom(registry, s.history[s.tasks[id].parent].generation, live, source)
    requires var s := Exec(registry, After(registry, source, steps, b), steps[b]);
             steps[b].id in s.tasks && s.tasks[steps[b].id].Built?
    ensures Began(registry, source, steps, steps[b].id, q, b)
    ensures BuiltAt(registry, source, steps,
                    Exec(registry, After(registry, source, steps, b), steps[b]).tasks[steps[b].id].candidate,
                    steps[b].id, q, b)
  {
    q := BuiltFromStart(registry, source, steps, b, steps[b].id);
    RequestOfStart(registry, source, steps, b, steps[b].id, q);
    BuildAnswers(registry, After(registry, source, steps, b), steps[b], live, source);
  }

  /** A finished candidate was built at one step of its refresh. */
  lemma {:induction false} CandidateFrom(registry: seq<ConfigKey>, source: Source, steps: seq<Step>, p: nat, id: nat)
    returns (q: nat, b: nat)
    requires p <= |steps| && id in After(registry, source, steps, p).tasks
    requires After(registry, source, steps, p).tasks[id].Built?
    ensures b < p && Began(registry, source, steps, id, q, p)
    ensures BuiltAt(registry, source, steps, After(registry, source, steps, p).tasks[id].candidate, id, q, b)
    decreases p, 0
  {
    AfterOneMore(registry, source, steps, p - 1);
    var before := After(registry, source, steps, p - 1);
    if id in before.tasks && before.tasks[id].Built? {
      q, b := CandidateFrom(registry, source, steps, p - 1, id);
    } else {
      b := p - 1;
      assert id in before.tasks && before.tasks[id].Reading? && steps[b].Build? && steps[b].id == id;
      ReachableInv(registry, source, steps[..b]);
      var live := HistoryAnswers(registry, source, steps, b, before.tasks[id].parent);
      q := BuiltNow(registry, source, steps, b, live);
    }
    BeganStays(registry, source, steps, id, q, p - 1);
  }

  /** Every installed generation answers from one source and from boot's. */
  lemma {:induction false} HistoryAnswers(registry: seq<ConfigKey>, source: Source, steps: seq<Step>, n: nat, i: nat)
    returns (live: Source)
    requires n <= |steps| && i < |After(registry, source, steps, n).history|
    ensures AnswersFrom(registry, After(registry, source, steps, n).history[i].generation, live, source)
    decreases n, 1
  {
    if i == 0 {
      ReachableInv(registry, source, steps[..n]);
      ResolveAnswers(registry, source, None, 1, System, source, source);
      live := source;
    } else {
      var p := SwappedInBy(registry, source, steps, n, i);
      var q, b := CandidateFrom(registry, source, steps, p, steps[p].id);
      live := steps[b].source;
    }
  }

  /**
  In every interleaving, the generation installed as number `i` reads its application-tier
  keys as they were decoded at one step `b` between the start `q` of its refresh and its
  swap `p`, and its bootstrap-tier keys as boot decoded them; it names the actor of that
  refresh, and every key the refresh required was decodable.
  */
  lemma InstalledReads(registry: seq<ConfigKey>, source: Source, steps: seq<Step>, i: nat)
    requires 0 < i < |Run(registry, Boot(registry, source), steps).history|
    ensures var g := Run(registry, Boot(registry, source), steps).history[i].generation;
            exists p: nat, q: nat, b: nat ::
              && Installs(registry, source, steps, p) && |After(registry, source, steps, p).history| == i
              && b < p && Began(registry, source, steps, steps[p].id, q, p)
              && BuiltAt(registry, source, steps, g, steps[p].id, q, b)
  {
    assert steps[..|steps|] == steps;
    var p := SwappedInBy(registry, source, steps, |steps|, i);
    var q, b := CandidateFrom(registry, source, steps, p, steps[p].id);
  }

  // ---- Staleness in every interleaving ----

  ghost predicate OneProvider(s: Process, name: string) {
    && (forall i :: 0 <= i < |s.history| ==> OnlyServedBy(s.history[i].generation, name))
    && (forall id :: id in s.tasks && s.tasks[id].Built? ==> OnlyServedBy(s.tasks[id].candidate, name))
  }

  lemma {:induction false} OneProviderRun(registry: seq<ConfigKey>, source: Source, steps: seq<Step>)
    requires forall i :: 0 <= i < |steps| && steps[i].Build? ==> steps[i].source.name == source.name
    ensures OneProvider(Run(registry, Boot(registry, source), steps), source.name)
  {
    if steps != [] {
      var n := |steps| - 1;
      OneProviderRun(registry, source, steps[..n]);
      var s := Run(registry, Boot(registry, source), steps[..n]);
      var s' := Exec(registry, s, steps[n]);
      forall i | 0 <= i < |s'.history| ensures OnlyServedBy(s'.history[i].generation, source.name) {
        assert i < |s.history| ==> s'.history[i] == s.history[i];
      }
    }
  }

  /** In every interleaving of a single-provider process no report says that the provider changed. */
  lemma NoReportOfAChangedProvider(registry: seq<ConfigKey>, source: Source, steps: seq<Step>, live: Source,
                                   g: nat, i: nat)
    requires forall j :: 0 <= j < |steps| && steps[j].Build? ==> steps[j].source.name == source.name
    requires live.name == source.name && i < |registry|
    requires g < |Run(registry, Boot(registry, source), steps).history|
    ensures Fits(registry, Run(registry, Boot(registry, source), steps).history[g].generation)
    ensures CheckStaleness(registry, Run(registry, Boot(registry, source), steps).history[g].generation, live)[i].state
         != ChangedProvider
  {
    ReachableInv(registry, source, steps);
    OneProviderRun(registry, source, steps);
    var s := Run(registry, Boot(registry, source), steps);
    assert SameBootstrap(registry, s.history[g].generation, s.history[0].generation);
    assert OnlyServedBy(s.history[g].generation, source.name);
  }

  // ---- What overlapping costs ----

  lemma {:induction false} RunAppend(registry: seq<ConfigKey>, s: Process, a: seq<Step>, b: seq<Step>)
    ensures Run(registry, s, a + b) == Run(registry, Run(registry, s, a), b)
  {
    if b == [] {
      assert a + b == a;
    } else {
      var n := |b| - 1;
      RunAppend(registry, s, a, b[..n]);
      assert (a + b)[..|a + b| - 1] == a + b[..n];
    }
  }

  lemma RunOne(registry: seq<ConfigKey>, s: Process, step: Step)
    ensures Run(registry, s, [step]) == Exec(registry, s, step)
  {
    assert [step][..0] == [];
  }

  /** The two steps after the read. */
  function Finish(id: nat, source: Source): seq<Step> {
    [Build(id, source)] + [Swap(id)]
  }

  /** A refresh that read `parent` and is allowed to go on installs its child, whatever happened since. */
  lemma FinishInstalls(registry: seq<ConfigKey>, s: Process, id: nat, source: Source)
    requires id in s.tasks && s.tasks[id].Reading? && s.tasks[id].parent < |s.history|
    requires Fits(registry, s.history[s.tasks[id].parent].generation) && Grantable(source, s.tasks[id].request)
    ensures var p := s.tasks[id].parent;
            var from := s.history[p].generation;
            var child := Generations.Resolve(registry, source, Some(from), from.number + 1, s.tasks[id].request.actor);
            Run(registry, s, Finish(id, source)) == Process(s.history + [Installed(child, p)], s.tasks - {id})
  {
    RunAppend(registry, s, [Build(id, source)], [Swap(id)]);
    RunOne(registry, s, Build(id, source));
    RunOne(registry, Exec(registry, s, Build(id, source)), Swap(id));
    var built := Exec(registry, s, Build(id, source));
    assert built.tasks - {id} == s.tasks - {id};
  }

  /** A refresh nobody interrupts. */
  function Uninterrupted(id: nat, request: Request, source: Source): seq<Step> {
    [Read(id, request)] + Finish(id, source)
  }

  lemma UninterruptedInstalls(registry: seq<ConfigKey>, s: Process, id: nat, request: Request, source: Source)
    requires id !in s.tasks && s.history != [] && Grantable(source, request)
    requires Fits(registry, s.history[|s.history| - 1].generation)
    ensures var from := s.history[|s.history| - 1].generation;
            var child := Generations.Resolve(registry, source, Some(from), from.number + 1, request.actor);
            Run(registry, s, Uninterrupted(id, request, source))
            == Process(s.history + [Installed(child, |s.history| - 1)], s.tasks)
  {
    RunAppend(registry, s, [Read(id, request)], Finish(id, source));
    RunOne(registry, s, Read(id, request));
    var reading := Exec(registry, s, Read(id, request));
    FinishInstalls(registry, reading, id, source);
    assert reading.tasks - {id} == s.tasks;
  }

  /**
  Overlapping refreshes repeat a number and install it after a higher one: a refresh that
  read the live generation finishes after two others went by.
  */
  lemma OverlapRepeatsANumber(registry: seq<ConfigKey>, s: Process, a: nat, b: nat, request: Request, source: Source)
    requires a != b && a !in s.tasks && b !in s.tasks && s.history != [] && Grantable(source, request)
    requires Fits(registry, s.history[|s.history| - 1].generation)
    ensures var go := Uninterrupted(b, request, source);
            var now := Run(registry, s, [Read(a, request)] + (go + (go + Finish(a, source))));
            var n := |s.history|;
            && |now.history| == n + 3 && now.history[..n] == s.history
            && now.history[n + 1].generation.number == s.history[n - 1].generation.number + 2
            && now.history[n].generation.number == now.history[n + 2].generation.number
            == s.history[n - 1].generation.number + 1
  {
    var go := Uninterrupted(b, request, source);
    RunAppend(registry, s, [Read(a, request)], go + (go + Finish(a, source)));
    RunOne(registry, s, Read(a, request));
    var s1 := Exec(registry, s, Read(a, request));
    RunAppend(registry, s1, go, go + Finish(a, source));
    UninterruptedInstalls(registry, s1, b, request, source);
    var s2 := Run(registry, s1, go);
    RunAppend(registry, s2, go, Finish(a, source));
    UninterruptedInstalls(registry, s2, b, request, source);
    FinishInstalls(registry, Run(registry, s2, go), a, source);
  }
}
