/**
The stores behind the providers, and the caches in front of them. A store row is
either clear text, sealed under an encryption key, or unreadable; a codec says how a
provider writes a value and what a fresh build of the provider reads back.
*/
module WriteThrough {
  import opened Base
  import opened Text

  /** Sealing is symbolic: a row opens only under the key it was sealed with. */
  datatype Row = Clear(text: string) | Sealed(key: nat, plain: string) | Garbled

  datatype Codec =
    | AppSecretsTable(key: nat)  // app_secrets rows, encrypted; blank is unheld
    | InfisicalFolder            // remote secrets; blank is unheld
    | SecretsDirectory           // one file per secret, trimmed on read; blank is unheld
    | AppConfigTable             // app_config rows, plain; blank is a value
    | ConfigDirectory            // one file per key, one trailing newline stripped on load

  predicate EndsWith(s: string, suffix: string) {
    |s| >= |suffix| && s[|s| - |suffix|..] == suffix
  }

  /** Drop one final `\r\n` or `\n`. */
  function StripTrailingNewline(s: string): string {
    if EndsWith(s, "\r\n") then s[..|s| - 2]
    else if EndsWith(s, "\n") then s[..|s| - 1]
    else s
  }

  function NonBlank(s: string): Option<string> {
    if s == "" then None else Some(s)
  }

  function Encode(c: Codec, value: string): Row {
    if c.AppSecretsTable? then Sealed(c.key, value) else Clear(value)
  }

  /** What a fresh build makes of a row; `None` is unheld. */
  function Decode(c: Codec, row: Row): Option<string> {
    match c
    case AppSecretsTable(key) => if row.Sealed? && row.key == key then NonBlank(row.plain) else None
    case InfisicalFolder => if row.Clear? then NonBlank(row.text) else None
    case SecretsDirectory => if row.Clear? then NonBlank(Trim(row.text)) else None
    case AppConfigTable => if row.Clear? then Some(row.text) else None
    case ConfigDirectory => if row.Clear? then Some(StripTrailingNewline(row.text)) else None
  }

  /** The values a store gives back unchanged. */
  predicate RoundTrips(c: Codec, value: string) {
    match c
    case AppSecretsTable(_) => value != ""
    case InfisicalFolder => value != ""
    case SecretsDirectory => value != "" && Trimmed(value)
    case AppConfigTable => true
    case ConfigDirectory => !EndsWith(value, "\n")
  }

  /** A written value is read back by a fresh build exactly when it round-trips. */
  lemma FreshReadIff(c: Codec, value: string)
    ensures Decode(c, Encode(c, value)) == Some(value) <==> RoundTrips(c, value)
  {
    match c {
      case SecretsDirectory => TrimFixpoint(value);
      case ConfigDirectory =>
        assert EndsWith(value, "\r\n") ==> EndsWith(value, "\n") by {
          if EndsWith(value, "\r\n") {
            assert value[|value| - 1..] == value[|value| - 2..][1..];
          }
        }
      case _ =>
    }
  }

  /** Loading takes away one line ending, whichever it is, and nothing else. */
  lemma StripExactly(t: string)
    ensures StripTrailingNewline(t + "\r\n") == t
    ensures !EndsWith(t, "\r") ==> StripTrailingNewline(t + "\n") == t
    ensures EndsWith(t, "\r") ==> StripTrailingNewline(t + "\n") == t[..|t| - 1]
    ensures !EndsWith(t, "\n") ==> StripTrailingNewline(t) == t
  {
    assert EndsWith(t + "\r\n", "\r\n");
    var u := t + "\n";
    assert EndsWith(u, "\n");
    assert EndsWith(u, "\r\n") <==> EndsWith(t, "\r") by {
      if EndsWith(u, "\r\n") {
        assert u[|u| - 2..][0] == '\r';
      }
    }
    FreshReadIff(ConfigDirectory, t);
  }

  // ---- The cache in front of a store ----

  datatype State = State(rows: map<string, Row>, cache: map<string, string>)

  /** A call ends well, is refused without effect, or takes effect and still reports an error. */
  datatype Reply = Done | Rejected | Lost

  datatype Op = Put(name: string, value: string, reply: Reply) | Drop(name: string, reply: Reply)

  /** The store first, then the cache, and the cache only on success. */
  function Step(c: Codec, s: State, op: Op): State {
    match op
    case Put(name, value, reply) =>
      State(if reply.Rejected? then s.rows else s.rows[name := Encode(c, value)],
            if reply.Done? then s.cache[name := value] else s.cache)
    case Drop(name, reply) =>
      State(if reply.Rejected? then s.rows else s.rows - {name},
            if reply.Done? then s.cache - {name} else s.cache)
  }

  function Run(c: Codec, s: State, ops: seq<Op>): State {
    if ops == [] then s else Step(c, Run(c, s, ops[..|ops| - 1]), ops[|ops| - 1])
  }

  /** What a fresh build would read for one name, and for all of `names`. */
  function FreshAt(c: Codec, rows: map<string, Row>, name: string): Option<string> {
    if name in rows then Decode(c, rows[name]) else None
  }

  function Fresh(c: Codec, rows: map<string, Row>, names: set<string>): map<string, string> {
    map n | n in names && FreshAt(c, rows, n).Some? :: FreshAt(c, rows, n).value
  }

  /** Whatever was written under one encryption key, a build with another one holds none of it. */
  lemma {:induction false} RotatedKeyHoldsNothing(written: nat, read: nat, ops: seq<Op>, names: set<string>)
    requires written != read
    ensures Fresh(AppSecretsTable(read), Run(AppSecretsTable(written), State(map[], map[]), ops).rows, names) == map[]
  {
    if ops != [] {
      var n := |ops| - 1;
      RotatedKeyHoldsNothing(written, read, ops[..n], names);
      var c := AppSecretsTable(read);
      var before := Run(AppSecretsTable(written), State(map[], map[]), ops[..n]).rows;
      forall name | name in names
        ensures FreshAt(c, Run(AppSecretsTable(written), State(map[], map[]), ops).rows, name).None?
      {
        assert FreshAt(c, before, name).Some? ==> name in Fresh(c, before, names);
      }
    }
  }

  /** The last call on `name` that took effect. */
  function LastEffect(ops: seq<Op>, name: string): Option<Op> {
    if ops == [] then None
    else
      var op := ops[|ops| - 1];
      if op.name == name && !op.reply.Rejected? then Some(op) else LastEffect(ops[..|ops| - 1], name)
  }

  /** The last call on `name` that reported success. */
  function LastDone(ops: seq<Op>, name: string): Option<Op> {
    if ops == [] then None
    else
      var op := ops[|ops| - 1];
      if op.name == name && op.reply.Done? then Some(op) else LastDone(ops[..|ops| - 1], name)
  }

  /** The row an effective call leaves, what a fresh build reads of it, and what a done call caches. */
  function RowAfter(c: Codec, op: Op): Option<Row> {
    if op.Put? then Some(Encode(c, op.value)) else None
  }

  function ReadableAfter(c: Codec, op: Op): Option<string> {
    if op.Put? then Decode(c, Encode(c, op.value)) else None
  }

  function CachedAfter(op: Op): Option<string> {
    if op.Put? then Some(op.value) else None
  }

  /** What one call does to the row and to the cached value of a name. */
  lemma StepAt(c: Codec, s: State, op: Op, name: string)
    ensures var now := Step(c, s, op);
            && Lookup(now.rows, name)
            == (if op.name != name || op.reply.Rejected? then Lookup(s.rows, name) else RowAfter(c, op))
            && Lookup(now.cache, name)
            == (if op.name != name || !op.reply.Done? then Lookup(s.cache, name) else CachedAfter(op))
  {
  }

  /**
  After any run, refused and lost calls included, the last call on a name that took effect
  decides its row, and the last one that reported success decides its cached value.
  */
  lemma {:induction false} LastCallsDecide(c: Codec, s: State, ops: seq<Op>, name: string)
    ensures var now := Run(c, s, ops);
            && Lookup(now.rows, name)
            == (match LastEffect(ops, name) case None => Lookup(s.rows, name) case Some(op) => RowAfter(c, op))
            && Lookup(now.cache, name)
            == (match LastDone(ops, name) case None => Lookup(s.cache, name) case Some(op) => CachedAfter(op))
  {
    if ops != [] {
      var n := |ops| - 1;
      LastCallsDecide(c, s, ops[..n], name);
      StepAt(c, Run(c, s, ops[..n]), ops[n], name);
    }
  }

  /** A fresh read is a function of the row. */
  lemma FreshOfRow(c: Codec, rows: map<string, Row>, name: string)
    ensures FreshAt(c, rows, name)
         == match Lookup(rows, name) case None => None case Some(row) => Decode(c, row)
  {
  }

  ghost predicate NoneLost(ops: seq<Op>) {
    forall i :: 0 <= i < |ops| ==> !ops[i].reply.Lost?
  }

  ghost predicate Within(ops: seq<Op>, names: set<string>) {
    forall i :: 0 <= i < |ops| ==> ops[i].name in names
  }

  /** A done call took effect, and the two last calls are one unless a later call was lost. */
  lemma {:induction false} LastCallsAre(ops: seq<Op>, name: string)
    ensures LastDone(ops, name).Some? ==>
              LastEffect(ops, name).Some? && LastDone(ops, name).value.reply.Done? && LastDone(ops, name).value in ops
    ensures LastEffect(ops, name).Some? ==> LastEffect(ops, name).value in ops
    ensures NoneLost(ops) ==> LastEffect(ops, name) == LastDone(ops, name)
  {
    if ops != [] {
      LastCallsAre(ops[..|ops| - 1], name);
    }
  }

  lemma {:induction false} CacheStaysWithin(c: Codec, s: State, ops: seq<Op>, names: set<string>)
    requires s.cache.Keys <= names && Within(ops, names)
    ensures Run(c, s, ops).cache.Keys <= names
  {
    if ops != [] {
      CacheStaysWithin(c, s, ops[..|ops| - 1], names);
    }
  }

  /**
  What the last effective call on `name` leaves readable is what the last successful one,
  or the initial build, left cached; vacuous when no call took effect.
  */
  predicate Settled(c: Codec, initial: map<string, string>, ops: seq<Op>, name: string) {
    match LastEffect(ops, name)
    case None => true
    case Some(effect) =>
      ReadableAfter(c, effect)
      == match LastDone(ops, name) case None => Lookup(initial, name) case Some(op) => CachedAfter(op)
  }

  /**
  Write-through coherence, for every run from a fresh build: the cache says of a name what
  a fresh build of the store would, exactly when the calls on that name are settled.
  Without a lost call that is when the last write round-trips.
  */
  lemma CoherentIff(c: Codec, s: State, names: set<string>, ops: seq<Op>, name: string)
    requires s.cache == Fresh(c, s.rows, names) && name in names
    ensures var now := Run(c, s, ops);
            Lookup(now.cache, name) == FreshAt(c, now.rows, name) <==> Settled(c, s.cache, ops, name)
    ensures NoneLost(ops) ==>
              (Settled(c, s.cache, ops, name) <==>
               match LastEffect(ops, name)
               case Some(Put(_, value, _)) => RoundTrips(c, value)
               case _ => true)
  {
    LastCallsDecide(c, s, ops, name);
    LastCallsAre(ops, name);
    FreshOfRow(c, Run(c, s, ops).rows, name);
    FreshOfRow(c, s.rows, name);
    assert Lookup(s.cache, name) == FreshAt(c, s.rows, name);
    match LastEffect(ops, name) {
      case Some(Put(_, value, _)) => FreshReadIff(c, value);
      case _ =>
    }
  }

  ghost predicate AllRoundTrip(c: Codec, ops: seq<Op>) {
    forall i :: 0 <= i < |ops| && ops[i].Put? ==> RoundTrips(c, ops[i].value)
  }

  /**
  The whole cache equals a fresh build exactly when every name is settled; in particular
  after every run without a lost call in which every written value round-trips.
  */
  lemma CacheEqualsFreshBuildIff(c: Codec, s: State, names: set<string>, ops: seq<Op>)
    requires s.cache == Fresh(c, s.rows, names) && Within(ops, names)
    ensures Run(c, s, ops).cache == Fresh(c, Run(c, s, ops).rows, names) <==>
            forall name :: name in names ==> Settled(c, s.cache, ops, name)
    ensures NoneLost(ops) && AllRoundTrip(c, ops) ==> Run(c, s, ops).cache == Fresh(c, Run(c, s, ops).rows, names)
  {
    var now := Run(c, s, ops);
    var anew := Fresh(c, now.rows, names);
    CacheStaysWithin(c, s, ops, names);
    forall name | name in names
      ensures Lookup(now.cache, name) == Lookup(anew, name) <==> Settled(c, s.cache, ops, name)
      ensures NoneLost(ops) && AllRoundTrip(c, ops) ==> Settled(c, s.cache, ops, name)
    {
      CoherentIff(c, s, names, ops, name);
      LastCallsAre(ops, name);
    }
    if forall name :: name in names ==> Settled(c, s.cache, ops, name) {
      forall name ensures Lookup(now.cache, name) == Lookup(anew, name) {
        assert name !in names ==> name !in now.cache;
      }
      SameLookupsSameMap(now.cache, anew);
    }
  }

  /** No secret provider ever holds a blank value, over every run of non-blank writes. */
  lemma SecretCachesAreNeverBlank(c: Codec, s: State, names: set<string>, ops: seq<Op>, name: string)
    requires c.AppSecretsTable? || c.InfisicalFolder?
    requires s.cache == Fresh(c, s.rows, names)
    requires forall i :: 0 <= i < |ops| && ops[i].Put? ==> ops[i].value != ""
    ensures Lookup(Run(c, s, ops).cache, name) != Some("")
  {
    LastCallsDecide(c, s, ops, name);
    LastCallsAre(ops, name);
  }

  /** A blank secret is one run that breaks coherence: cached as held, unheld after a rebuild. */
  lemma BlankSecretDiverges(key: nat, name: string)
    ensures var now := Run(AppSecretsTable(key), State(map[], map[]), [Put(name, "", Done)]);
            Lookup(now.cache, name) == Some("") && FreshAt(AppSecretsTable(key), now.rows, name).None?
  {
    var c, ops := AppSecretsTable(key), [Put(name, "", Done)];
    LastCallsDecide(c, State(map[], map[]), ops, name);
    FreshOfRow(c, Run(c, State(map[], map[]), ops).rows, name);
  }

  /**
  A call that takes effect and still reports an error is the other: after a lost write the
  process does not hold what the next one will, after a lost delete it holds what is gone.
  */
  lemma LostCallDiverges(c: Codec, name: string, value: string)
    requires RoundTrips(c, value)
    ensures var now := Run(c, State(map[], map[]), [Put(name, value, Lost)]);
            Lookup(now.cache, name).None? && FreshAt(c, now.rows, name) == Some(value)
    ensures var now := Run(c, State(map[], map[]), [Put(name, value, Done), Drop(name, Lost)]);
            Lookup(now.cache, name) == Some(value) && FreshAt(c, now.rows, name).None?
  {
    var s, write, both := State(map[], map[]), Put(name, value, Lost), [Put(name, value, Done), Drop(name, Lost)];
    FreshReadIff(c, value);
    LastCallsDecide(c, s, [write], name);
    FreshOfRow(c, Run(c, s, [write]).rows, name);
    assert LastDone([write], name) == None by { assert [write][..0] == []; }
    LastCallsDecide(c, s, both, name);
    FreshOfRow(c, Run(c, s, both).rows, name);
    assert LastDone(both, name) == Some(both[0]) by { assert both[..1] == [both[0]]; }
  }

  // ---- Bootstrap-tier names ----

  /** The guard of the configuration providers: a bootstrap-tier name is refused before any I/O. */
  function Guard(frozen: set<string>, op: Op): Op {
    if op.name in frozen then op.(reply := Rejected) else op
  }

  function GuardAll(frozen: set<string>, ops: seq<Op>): (r: seq<Op>)
    ensures |r| == |ops|
    ensures forall i :: 0 <= i < |r| ==> r[i] == Guard(frozen, ops[i])
  {
    seq(|ops|, i requires 0 <= i < |ops| => Guard(frozen, ops[i]))
  }

  lemma {:induction false} FrozenHasNoEffect(frozen: set<string>, ops: seq<Op>, name: string)
    requires name in frozen
    ensures LastEffect(GuardAll(frozen, ops), name).None? && LastDone(GuardAll(frozen, ops), name).None?
  {
    if ops != [] {
      FrozenHasNoEffect(frozen, ops[..|ops| - 1], name);
      assert GuardAll(frozen, ops)[..|ops| - 1] == GuardAll(frozen, ops[..|ops| - 1]);
    }
  }

  /** Over every guarded run no bootstrap-tier row or cached value changes. */
  lemma RunsKeepFrozenNames(c: Codec, s: State, frozen: set<string>, ops: seq<Op>, name: string)
    requires name in frozen
    ensures var now := Run(c, s, GuardAll(frozen, ops));
            && Lookup(now.rows, name) == Lookup(s.rows, name)
            && Lookup(now.cache, name) == Lookup(s.cache, name)
  {
    FrozenHasNoEffect(frozen, ops, name);
    LastCallsDecide(c, s, GuardAll(frozen, ops), name);
  }

  /** A cache built from application-tier names never holds a bootstrap-tier one. */
  lemma FrozenNeverCached(c: Codec, rows: map<string, Row>, names: set<string>, frozen: set<string>,
                          ops: seq<Op>, name: string)
    requires names !! frozen && name in frozen
    ensures name !in Run(c, State(rows, Fresh(c, rows, names)), GuardAll(frozen, ops)).cache
  {
    var s := State(rows, Fresh(c, rows, names));
    RunsKeepFrozenNames(c, s, frozen, ops, name);
    assert name !in s.cache;
  }
}
