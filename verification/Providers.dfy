/**
The provider interface both operator tiers are written against: `get`, `has`,
`set` and `delete` over named values (the `ConfigProvider` and
`AppSecretProvider` traits). What happens behind `set` and `delete` is not
visible, so every call takes the reply of the backing store as a parameter, and
every statement below holds for all replies.
*/
module Providers {
  import opened Base

  /** A provider can hold a value it cannot decode: `has` is true, `get` is `None`. */
  datatype Held = Readable(text: string) | Undecodable

  type Contents = map<string, Held>

  /** `get`; `has` is plain membership. */
  function Get(held: Contents, key: string): (r: Option<string>)
    ensures r.Some? ==> key in held
  {
    if key in held && held[key].Readable? then Some(held[key].text) else None
  }

  /** How a write can end, and what the provider then holds under the key. */
  datatype WriteReply =
    | Stored                          // accepted, exactly as written
    | StoredAs(now: Option<Held>)     // accepted, but something else is there
    | Rejected                        // error, nothing changed
    | Lost(now: Option<Held>)         // error, and anything may be there now
  {
    predicate Ok() { Stored? || StoredAs? }

    function After(before: Option<Held>, value: string): Option<Held> {
      match this
      case Stored => Some(Readable(value))
      case StoredAs(now) => now
      case Rejected => before
      case Lost(now) => now
    }
  }

  /** How a delete can end. An accepted delete removes the value. */
  datatype DeleteReply = Removed | FailedGone | FailedKept {
    predicate Ok() { Removed? }
    predicate Gone() { !FailedKept? }
  }

  class Provider {
    const writable: bool
    var held: Contents
    ghost var deletes: seq<string>  // the keys `delete` was called with, in order

    constructor (writable: bool, held: Contents)
      ensures this.writable == writable && this.held == held && deletes == []
    {
      this.writable, this.held, deletes := writable, held, [];
    }

    method Set(key: string, value: string, reply: WriteReply) returns (ok: bool)
      modifies this`held
      ensures ok == reply.Ok()
      ensures held == Updated(old(held), key, reply.After(Lookup(old(held), key), value))
    {
      match reply {
        case Stored => held := held[key := Readable(value)];
        case StoredAs(now) => held := Updated(held, key, now);
        case Rejected =>
          SameLookupsSameMap(held, Updated(held, key, Lookup(held, key)));
        case Lost(now) => held := Updated(held, key, now);
      }
      ok := reply.Ok();
    }

    method Delete(key: string, reply: DeleteReply) returns (ok: bool)
      modifies this`held, this`deletes
      ensures ok == reply.Ok()
      ensures held == if reply.Gone() then old(held) - {key} else old(held)
      ensures deletes == old(deletes) + [key]
    {
      deletes := deletes + [key];
      if reply.Gone() {
        held := held - {key};
      }
      ok := reply.Ok();
    }
  }

  /** The read-back check after a write. */
  predicate VerifyReadback(readback: Option<string>, expected: string) {
    readback == Some(expected)
  }
}

/**
`provider-migrate`: copy every key the source can read into the target, one key
at a time, with a read-back.
*/
module Migration {
  import opened Base
  import opened Providers

  datatype MoveOutcome = SourceLacks | TargetHolds | Moved | Failed | BootstrapTier

  datatype MoveLine = MoveLine(key: string, outcome: MoveOutcome)

  /** A write is attempted exactly when the source reads and the target holds nothing. */
  predicate Attempted(src: Contents, tgt: Contents, key: string) {
    Get(src, key).Some? && key !in tgt
  }

  /** What the target holds under `key` once that key has been processed. */
  function HeldAfter(src: Contents, tgt: Contents, key: string, reply: WriteReply): Option<Held> {
    if Attempted(src, tgt, key) then reply.After(None, Get(src, key).value) else Lookup(tgt, key)
  }

  /** The line printed for `key`. */
  function OutcomeOf(src: Contents, tgt: Contents, key: string, reply: WriteReply): MoveOutcome {
    if Get(src, key).None? then SourceLacks
    else if key in tgt then TargetHolds
    else if reply.Ok() && HeldAfter(src, tgt, key, reply) == Some(Readable(Get(src, key).value)) then Moved
    else Failed
  }

  /** One key: read, refuse to overwrite, write, read back, compare. */
  method MoveOne(key: string, source: Provider, target: Provider, reply: WriteReply)
    returns (outcome: MoveOutcome)
    requires source != target
    modifies target`held
    ensures outcome == OutcomeOf(source.held, old(target.held), key, reply)
    ensures target.held
         == Updated(old(target.held), key, HeldAfter(source.held, old(target.held), key, reply))
  {
    SameLookupsSameMap(target.held, Updated(target.held, key, Lookup(target.held, key)));
    var value := Get(source.held, key);
    if value.None? {
      return SourceLacks;
    }
    if key in target.held {
      return TargetHolds;
    }
    var ok := target.Set(key, value.value, reply);
    assert Lookup(target.held, key) == reply.After(None, value.value);
    if !ok {
      return Failed;
    }
    var readback := Get(target.held, key);
    outcome := if VerifyReadback(readback, value.value) then Moved else Failed;
  }

  /**
  The whole walk, stated per key from the contents BEFORE it: `frozen` keys get a
  line and are not touched.
  */
  ghost predicate Migrated(src: Contents, tgt: Contents, keys: seq<string>, frozen: set<string>,
                           reply: string -> WriteReply, after: Contents, lines: seq<MoveLine>)
  {
    && |lines| == |keys|
    && (forall i :: 0 <= i < |keys| ==>
          lines[i] == MoveLine(keys[i],
                               if keys[i] in frozen then BootstrapTier
                               else OutcomeOf(src, tgt, keys[i], reply(keys[i]))))
    && (forall k :: Lookup(after, k)
                 == if k in keys && k !in frozen then HeldAfter(src, tgt, k, reply(k)) else Lookup(tgt, k))
  }

  method MigrateKeys(keys: seq<string>, frozen: set<string>, source: Provider, target: Provider,
                     reply: string -> WriteReply)
    returns (lines: seq<MoveLine>)
    requires source != target && Distinct(keys)
    modifies target`held
    ensures Migrated(source.held, old(target.held), keys, frozen, reply, target.held, lines)
  {
    ghost var before := target.held;
    lines := [];
    for n := 0 to |keys|
      invariant |lines| == n
      invariant Migrated(source.held, before, keys[..n], frozen, reply, target.held, lines)
    {
      var key := keys[n];
      DistinctPrefix(keys, n);
      assert Lookup(target.held, key) == Lookup(before, key);
      var outcome := BootstrapTier;
      if key !in frozen {
        outcome := MoveOne(key, source, target, reply(key));
      }
      lines := lines + [MoveLine(key, outcome)];
      assert keys[..n + 1] == keys[..n] + [key];
    }
    assert keys[..|keys|] == keys;
  }

  /**
  No value the target held is altered, keys outside the walk and frozen keys are
  untouched, and a "moved" line means source and target agree when the walk is over.
  */
  lemma MigrationIsConservative(src: Contents, tgt: Contents, keys: seq<string>, frozen: set<string>,
                                reply: string -> WriteReply, after: Contents, lines: seq<MoveLine>)
    requires Migrated(src, tgt, keys, frozen, reply, after, lines)
    ensures forall k :: k in tgt ==> Lookup(after, k) == Lookup(tgt, k)
    ensures forall k :: k !in keys || k in frozen ==> Lookup(after, k) == Lookup(tgt, k)
    ensures forall k :: k !in src ==> Lookup(after, k) == Lookup(tgt, k)
    ensures forall i :: 0 <= i < |lines| && lines[i].outcome == Moved ==>
              Get(src, lines[i].key).Some? && Get(after, lines[i].key) == Get(src, lines[i].key)
  {
    forall i | 0 <= i < |lines| && lines[i].outcome == Moved
      ensures Get(src, lines[i].key).Some? && Get(after, lines[i].key) == Get(src, lines[i].key)
    {
      assert lines[i].key in keys;
      assert Lookup(after, lines[i].key) == Some(Readable(Get(src, lines[i].key).value));
    }
  }

  /** What each line says, in terms of source and target before and after the walk. */
  lemma MigrationLinesSay(src: Contents, tgt: Contents, keys: seq<string>, frozen: set<string>,
                          reply: string -> WriteReply, after: Contents, lines: seq<MoveLine>, i: nat)
    requires Migrated(src, tgt, keys, frozen, reply, after, lines) && i < |keys|
    ensures var k, outcome := keys[i], lines[i].outcome;
            var free := k !in frozen && Get(src, k).Some? && k !in tgt;
            && lines[i].key == k
            && (outcome == BootstrapTier <==> k in frozen)
            && (outcome == SourceLacks <==> k !in frozen && Get(src, k).None?)
            && (outcome == TargetHolds <==> k !in frozen && Get(src, k).Some? && k in tgt)
            && (outcome == Moved <==>
                free && (reply(k).Stored? || reply(k).StoredAs?) && Get(after, k) == Get(src, k))
            && (outcome == Failed <==>
                free && (reply(k).Rejected? || reply(k).Lost? || Get(after, k) != Get(src, k)))
    ensures var k := keys[i];
            k !in frozen && Get(src, k).Some? && k !in tgt ==>
              match reply(k)
              case Stored => Get(after, k) == Get(src, k)
              case StoredAs(now) => Lookup(after, k) == now
              case Rejected => k !in after
              case Lost(now) => Lookup(after, k) == now
  {
    var k := keys[i];
    assert k in keys;
    assert Lookup(after, k) == if k !in frozen then HeldAfter(src, tgt, k, reply(k)) else Lookup(tgt, k);
  }

  ghost predicate NoFailure(lines: seq<MoveLine>) {
    forall i :: 0 <= i < |lines| ==> lines[i].outcome != Failed
  }

  /** Without a failed line, everything the source can read is in the target. */
  lemma MigrationIsComplete(src: Contents, tgt: Contents, keys: seq<string>, frozen: set<string>,
                            reply: string -> WriteReply, after: Contents, lines: seq<MoveLine>, k: string)
    requires Migrated(src, tgt, keys, frozen, reply, after, lines) && NoFailure(lines)
    requires k in keys && k !in frozen && Get(src, k).Some?
    ensures Lookup(after, k) == if k in tgt then Some(tgt[k]) else Some(src[k])
  {
    var i :| 0 <= i < |keys| && keys[i] == k;
    assert lines[i].outcome != Failed;
  }

  /**
  A second walk attempts a key exactly when the first one failed on it and left the
  target without a value.
  */
  lemma RerunRetriesExactlyTheFailures(
    src: Contents, tgt: Contents, keys: seq<string>, frozen: set<string>,
    reply: string -> WriteReply, after: Contents, lines: seq<MoveLine>,
    reply': string -> WriteReply, after': Contents, lines': seq<MoveLine>, i: nat)
    requires Migrated(src, tgt, keys, frozen, reply, after, lines)
    requires Migrated(src, after, keys, frozen, reply', after', lines')
    requires i < |keys|
    ensures lines'[i].outcome in {Moved, Failed}
       <==> lines[i].outcome == Failed && keys[i] !in after
  {
    var k := keys[i];
    assert Lookup(after, k)
        == if k !in frozen then HeldAfter(src, tgt, k, reply(k)) else Lookup(tgt, k);
  }

  /** After a walk with no failed line, a second one moves nothing and changes nothing. */
  lemma SecondMigrationIsIdle(
    src: Contents, tgt: Contents, keys: seq<string>, frozen: set<string>,
    reply: string -> WriteReply, after: Contents, lines: seq<MoveLine>,
    reply': string -> WriteReply, after': Contents, lines': seq<MoveLine>)
    requires Migrated(src, tgt, keys, frozen, reply, after, lines) && NoFailure(lines)
    requires Migrated(src, after, keys, frozen, reply', after', lines')
    ensures after' == after
    ensures forall i :: 0 <= i < |lines'| ==> lines'[i].outcome !in {Moved, Failed}
  {
    forall i | 0 <= i < |lines'| ensures lines'[i].outcome !in {Moved, Failed} {
      RerunRetriesExactlyTheFailures(src, tgt, keys, frozen, reply, after, lines, reply', after', lines', i);
    }
    forall k ensures Lookup(after', k) == Lookup(after, k) {
      if k in keys && k !in frozen && Get(src, k).Some? {
        MigrationIsComplete(src, tgt, keys, frozen, reply, after, lines, k);
      }
    }
    SameLookupsSameMap(after', after);
  }
}

/**
`provider-purge`, the part both tiers share: every key has a fate decided from
what the providers hold, the report lists the fates in key order, and only a
confirmed purge acts on them.
*/
module Purging {
  import opened Base
  import opened Providers

  datatype Reason =
    | TargetSelected      // secrets: the provider being purged is the selected one
    | NotLive             // secrets: the selected provider does not hold the key
    | ReadOnly            // secrets: the provider cannot be written
    | BootstrapKey        // config: bootstrap-tier key
    | Serving             // config: the provider being purged serves the key
    | NobodyServes        // config: no provider serves the key
    | ServingUnreachable  // config: the serving kind has no provider
    | ServingNotLive      // config: the serving provider does not hold the key

  datatype Fate = Silent | Kept(why: Reason) | Deletable

  datatype PurgeOutcome = Refused(why: Reason) | WouldDelete | Deleted | DeleteFailed

  datatype PurgeLine = PurgeLine(key: string, outcome: PurgeOutcome)

  /** The line a fate turns into, if any. */
  function LineFor(key: string, fate: Fate, confirm: bool, reply: DeleteReply): seq<PurgeLine> {
    match fate
    case Silent => []
    case Kept(why) => [PurgeLine(key, Refused(why))]
    case Deletable =>
      [PurgeLine(key, if !confirm then WouldDelete else if reply.Ok() then Deleted else DeleteFailed)]
  }

  /** Carry out one fate. */
  method Act(target: Provider, key: string, fate: Fate, confirm: bool, reply: DeleteReply)
    returns (line: seq<PurgeLine>)
    modifies target`held, target`deletes
    ensures line == LineFor(key, fate, confirm, reply)
    ensures target.held == if confirm && fate.Deletable? && reply.Gone() then old(target.held) - {key}
                           else old(target.held)
    ensures target.deletes == old(target.deletes) + if confirm && fate.Deletable? then [key] else []
  {
    match fate {
      case Silent => return [];
      case Kept(why) => return [PurgeLine(key, Refused(why))];
      case Deletable =>
    }
    if !confirm {
      return [PurgeLine(key, WouldDelete)];
    }
    var ok := target.Delete(key, reply);
    line := [PurgeLine(key, if ok then Deleted else DeleteFailed)];
  }

  function Report(keys: seq<string>, fates: seq<Fate>, confirm: bool, reply: string -> DeleteReply): seq<PurgeLine>
    requires |keys| == |fates|
  {
    if keys == [] then []
    else
      var n := |keys| - 1;
      Report(keys[..n], fates[..n], confirm, reply) + LineFor(keys[n], fates[n], confirm, reply(keys[n]))
  }

  /** The keys `delete` is called with, in order; none without confirmation. */
  function DeleteCalls(keys: seq<string>, fates: seq<Fate>, confirm: bool): seq<string>
    requires |keys| == |fates|
  {
    if keys == [] then []
    else
      var n := |keys| - 1;
      DeleteCalls(keys[..n], fates[..n], confirm) + if confirm && fates[n].Deletable? then [keys[n]] else []
  }

  /** Both walk forward one key at a time. */
  lemma WalkOneMore(keys: seq<string>, fates: seq<Fate>, n: nat, confirm: bool, reply: string -> DeleteReply)
    requires |keys| == |fates| && n < |keys|
    ensures Report(keys[..n + 1], fates[..n + 1], confirm, reply)
         == Report(keys[..n], fates[..n], confirm, reply) + LineFor(keys[n], fates[n], confirm, reply(keys[n]))
    ensures DeleteCalls(keys[..n + 1], fates[..n + 1], confirm)
         == DeleteCalls(keys[..n], fates[..n], confirm) + if confirm && fates[n].Deletable? then [keys[n]] else []
  {
    assert keys[..n + 1][..n] == keys[..n] && fates[..n + 1][..n] == fates[..n];
  }

  /** Exactly the deletable keys whose delete went through are missing afterwards. */
  ghost predicate LeftBehind(before: Contents, keys: seq<string>, fates: seq<Fate>, confirm: bool,
                             reply: string -> DeleteReply, after: Contents)
    requires |keys| == |fates|
  {
    && (forall i :: 0 <= i < |keys| ==>
          Lookup(after, keys[i]) == if confirm && fates[i].Deletable? && reply(keys[i]).Gone() then None
                                    else Lookup(before, keys[i]))
    && (forall k :: k !in keys ==> Lookup(after, k) == Lookup(before, k))
  }

  lemma LeftOneMore(before: Contents, keys: seq<string>, fates: seq<Fate>, n: nat, confirm: bool,
                    reply: string -> DeleteReply, held: Contents)
    requires |keys| == |fates| && n < |keys| && Distinct(keys)
    requires LeftBehind(before, keys[..n], fates[..n], confirm, reply, held)
    ensures Lookup(held, keys[n]) == Lookup(before, keys[n])
    ensures LeftBehind(before, keys[..n + 1], fates[..n + 1], confirm, reply,
                       if confirm && fates[n].Deletable? && reply(keys[n]).Gone() then held - {keys[n]} else held)
  {
    DistinctPrefix(keys, n);
    var after := if confirm && fates[n].Deletable? && reply(keys[n]).Gone() then held - {keys[n]} else held;
    forall i | 0 <= i < n + 1
      ensures Lookup(after, keys[i]) == if confirm && fates[i].Deletable? && reply(keys[i]).Gone() then None
                                        else Lookup(before, keys[i])
    {
      assert i < n ==> keys[..n][i] == keys[i] && fates[..n][i] == fates[i];
    }
  }

  /** The first `n` keys have been processed: lines printed, deletes called, values left. */
  ghost predicate Progress(before: Contents, keys: seq<string>, fates: seq<Fate>, n: nat, confirm: bool,
                           reply: string -> DeleteReply,
                           lines: seq<PurgeLine>, calls: seq<string>, held: Contents)
    requires |keys| == |fates| && n <= |keys|
  {
    && lines == Report(keys[..n], fates[..n], confirm, reply)
    && calls == DeleteCalls(keys[..n], fates[..n], confirm)
    && LeftBehind(before, keys[..n], fates[..n], confirm, reply, held)
  }

  lemma ProgressOneMore(before: Contents, keys: seq<string>, fates: seq<Fate>, n: nat, confirm: bool,
                        reply: string -> DeleteReply,
                        lines: seq<PurgeLine>, calls: seq<string>, held: Contents)
    requires |keys| == |fates| && n < |keys| && Distinct(keys)
    requires Progress(before, keys, fates, n, confirm, reply, lines, calls, held)
    ensures Lookup(held, keys[n]) == Lookup(before, keys[n])
    ensures Progress(before, keys, fates, n + 1, confirm, reply,
                     lines + LineFor(keys[n], fates[n], confirm, reply(keys[n])),
                     calls + (if confirm && fates[n].Deletable? then [keys[n]] else []),
                     if confirm && fates[n].Deletable? && reply(keys[n]).Gone() then held - {keys[n]} else held)
  {
    WalkOneMore(keys, fates, n, confirm, reply);
    LeftOneMore(before, keys, fates, n, confirm, reply, held);
  }

  lemma ProgressDone(before: Contents, keys: seq<string>, fates: seq<Fate>, confirm: bool,
                     reply: string -> DeleteReply,
                     lines: seq<PurgeLine>, calls: seq<string>, held: Contents)
    requires |keys| == |fates|
    requires Progress(before, keys, fates, |keys|, confirm, reply, lines, calls, held)
    ensures lines == Report(keys, fates, confirm, reply)
    ensures calls == DeleteCalls(keys, fates, confirm)
    ensures LeftBehind(before, keys, fates, confirm, reply, held)
  {
    assert keys[..|keys|] == keys && fates[..|keys|] == fates;
  }

  /** The keys of the lines with one of the given outcomes, in order. */
  function KeysWith(lines: seq<PurgeLine>, outcomes: set<PurgeOutcome>): seq<string> {
    if lines == [] then []
    else
      var n := |lines| - 1;
      KeysWith(lines[..n], outcomes) + if lines[n].outcome in outcomes then [lines[n].key] else []
  }

  lemma {:induction false} KeysWithAppend(a: seq<PurgeLine>, l: PurgeLine, outcomes: set<PurgeOutcome>)
    ensures KeysWith(a + [l], outcomes)
         == KeysWith(a, outcomes) + if l.outcome in outcomes then [l.key] else []
  {
    assert (a + [l])[..|a|] == a;
  }

  /** Of the keys `delete` was called with, those whose call reported success, or an error. */
  function Replied(calls: seq<string>, reply: string -> DeleteReply, success: bool): seq<string> {
    if calls == [] then []
    else
      var n := |calls| - 1;
      Replied(calls[..n], reply, success) + if reply(calls[n]).Removed? == success then [calls[n]] else []
  }

  lemma RepliedAppend(calls: seq<string>, k: string, reply: string -> DeleteReply, success: bool)
    ensures Replied(calls + [k], reply, success)
         == Replied(calls, reply, success) + if reply(k).Removed? == success then [k] else []
  {
    assert (calls + [k])[..|calls|] == calls;
  }

  /**
  The "deleted" keys are, in order, exactly the delete calls that reported success, and the
  "failed" keys those that reported an error; without confirmation there are neither.
  */
  lemma {:induction false} ReportedDeletes(keys: seq<string>, fates: seq<Fate>, confirm: bool,
                                           reply: string -> DeleteReply)
    requires |keys| == |fates|
    ensures var lines, calls := Report(keys, fates, confirm, reply), DeleteCalls(keys, fates, confirm);
            KeysWith(lines, {Deleted}) == Replied(calls, reply, true)
            && KeysWith(lines, {DeleteFailed}) == Replied(calls, reply, false)
  {
    if keys != [] {
      var n := |keys| - 1;
      ReportedDeletes(keys[..n], fates[..n], confirm, reply);
      var lines := Report(keys[..n], fates[..n], confirm, reply);
      var calls := DeleteCalls(keys[..n], fates[..n], confirm);
      var line := LineFor(keys[n], fates[n], confirm, reply(keys[n]));
      if line == [] {
        assert lines + line == lines;
      } else {
        KeysWithAppend(lines, line[0], {Deleted});
        KeysWithAppend(lines, line[0], {DeleteFailed});
      }
      if confirm && fates[n].Deletable? {
        RepliedAppend(calls, keys[n], reply, true);
        RepliedAppend(calls, keys[n], reply, false);
      } else {
        assert calls + [] == calls;
      }
    }
  }

  /** A report holds the lines of its keys, and no others. */
  lemma {:induction false} ReportMembers(keys: seq<string>, fates: seq<Fate>, confirm: bool,
                                         reply: string -> DeleteReply, l: PurgeLine)
    requires |keys| == |fates|
    ensures l in Report(keys, fates, confirm, reply) <==>
            exists i :: 0 <= i < |keys| && l in LineFor(keys[i], fates[i], confirm, reply(keys[i]))
  {
    if keys != [] {
      var n := |keys| - 1;
      ReportMembers(keys[..n], fates[..n], confirm, reply, l);
      if i :| 0 <= i < n && l in LineFor(keys[i], fates[i], confirm, reply(keys[i])) {
        assert keys[..n][i] == keys[i] && fates[..n][i] == fates[i];
      }
      if l in Report(keys[..n], fates[..n], confirm, reply) {
        var i :| 0 <= i < n && l in LineFor(keys[..n][i], fates[..n][i], confirm, reply(keys[..n][i]));
        assert keys[..n][i] == keys[i] && fates[..n][i] == fates[i];
      }
    }
  }

  /** The lines of one key are the line of its fate. */
  lemma LinesOfKey(keys: seq<string>, fates: seq<Fate>, confirm: bool, reply: string -> DeleteReply,
                   i: nat, outcome: PurgeOutcome)
    requires |keys| == |fates| && Distinct(keys) && i < |keys|
    ensures PurgeLine(keys[i], outcome) in Report(keys, fates, confirm, reply) <==>
            match fates[i]
            case Silent => false
            case Kept(why) => outcome == Refused(why)
            case Deletable =>
              outcome == if !confirm then WouldDelete else if reply(keys[i]).Removed? then Deleted else DeleteFailed
  {
    var l := PurgeLine(keys[i], outcome);
    ReportMembers(keys, fates, confirm, reply, l);
    if j :| 0 <= j < |keys| && l in LineFor(keys[j], fates[j], confirm, reply(keys[j])) {
      assert keys[j] == keys[i];
    }
    assert l in Report(keys, fates, confirm, reply) <==> l in LineFor(keys[i], fates[i], confirm, reply(keys[i]));
  }

  /** Line by line, `done` is what `dry` announced. */
  ghost predicate Predicts(dry: seq<PurgeLine>, done: seq<PurgeLine>) {
    && |dry| == |done|
    && forall i :: 0 <= i < |dry| ==> LinePredicts(dry[i], done[i])
  }

  predicate LinePredicts(dry: PurgeLine, done: PurgeLine) {
    if dry.outcome == WouldDelete
    then done.key == dry.key && done.outcome in {Deleted, DeleteFailed}
    else done == dry && dry.outcome.Refused?
  }

  /**
  The dry run predicts the confirmed one: same lines in the same order, except that
  each "would delete" becomes a delete that succeeded or failed; and the "would delete"
  keys are exactly the keys `delete` is called with, in order.
  */
  lemma {:induction false} DryRunPredicts(keys: seq<string>, fates: seq<Fate>,
                                          reply: string -> DeleteReply, reply': string -> DeleteReply)
    requires |keys| == |fates|
    ensures Predicts(Report(keys, fates, false, reply), Report(keys, fates, true, reply'))
    ensures KeysWith(Report(keys, fates, false, reply), {WouldDelete}) == DeleteCalls(keys, fates, true)
    ensures DeleteCalls(keys, fates, false) == []
    ensures KeysWith(Report(keys, fates, true, reply'), {Deleted, DeleteFailed}) == DeleteCalls(keys, fates, true)
  {
    if keys != [] {
      var n := |keys| - 1;
      DryRunPredicts(keys[..n], fates[..n], reply, reply');
      DryRunStep(Report(keys[..n], fates[..n], false, reply), Report(keys[..n], fates[..n], true, reply'),
                 keys[n], fates[n], reply(keys[n]), reply'(keys[n]));
    }
  }

  lemma DryRunStep(dry: seq<PurgeLine>, done: seq<PurgeLine>, key: string, fate: Fate,
                   r: DeleteReply, r': DeleteReply)
    requires Predicts(dry, done)
    ensures Predicts(dry + LineFor(key, fate, false, r), done + LineFor(key, fate, true, r'))
    ensures KeysWith(dry + LineFor(key, fate, false, r), {WouldDelete})
         == KeysWith(dry, {WouldDelete}) + if fate.Deletable? then [key] else []
    ensures KeysWith(done + LineFor(key, fate, true, r'), {Deleted, DeleteFailed})
         == KeysWith(done, {Deleted, DeleteFailed}) + if fate.Deletable? then [key] else []
  {
    if fate.Silent? {
      assert dry + LineFor(key, fate, false, r) == dry;
      assert done + LineFor(key, fate, true, r') == done;
    } else {
      KeysWithAppend(dry, LineFor(key, fate, false, r)[0], {WouldDelete});
      KeysWithAppend(done, LineFor(key, fate, true, r')[0], {Deleted, DeleteFailed});
    }
  }
}
