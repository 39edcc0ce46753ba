/**
The update check: one outbound fetch, a result cache with a time to live, and how
often a sequence of calls can reach the network.
*/
module UpdateCheck {
  import opened Base
  import opened VersionOrder

  const SUCCESS_TTL: real := 900.0
  const ERROR_TTL: real := 60.0

  datatype Check =
    | Disabled
    | UpToDate(latest: string)
    | UpdateAvailable(latest: string, releaseUrl: Option<string>)
    | Error(message: string)

  datatype Manifest = Manifest(version: string, releaseUrl: Option<string>)

  /** How a fetch ends: no response, or a status with a body that is a manifest or is not. */
  datatype Reply = Unreachable | Response(status: nat, statusText: string, body: Option<Manifest>)

  predicate IsSuccess(status: nat) {
    200 <= status < 300
  }

  /** The fetch brought a manifest. */
  predicate Brought(reply: Reply) {
    reply.Response? && IsSuccess(reply.status) && reply.body.Some?
  }

  /** A result, and the second its fetch completed. */
  datatype Cached = Cached(result: Check, fetchedAt: real)

  function TtlFor(result: Check): real {
    if result.Error? then ERROR_TTL else SUCCESS_TTL
  }

  /** When the call reads the clock, when its fetch would complete, and how. */
  datatype Call = Call(start: real, done: real, reply: Reply)

  datatype Answer = Answer(result: Check, fetched: bool)

  /** The build a check compares with, and the sanitised URL its errors name. */
  datatype Probe = Probe(running: string, display: string)

  /** What a completed fetch reports: only a manifest is compared, every other end is an error. */
  ghost function Reported(probe: Probe, reply: Reply): Check {
    if Brought(reply) then
      var m := reply.body.value;
      if Newer(m.version, probe.running) then UpdateAvailable(m.version, m.releaseUrl) else UpToDate(m.version)
    else Error(Failure(probe.display, reply))
  }

  function Failure(display: string, reply: Reply): string {
    if reply.Unreachable? then display + ": request failed"
    else if !IsSuccess(reply.status) then display + ": status " + reply.statusText
    else display + ": invalid manifest"
  }

  predicate Fresh(cache: Option<Cached>, now: real) {
    cache.Some? && now - cache.value.fetchedAt < TtlFor(cache.value.result)
  }

  /** One call: answer from a fresh cache, or fetch, store and answer. */
  ghost predicate CallStep(probe: Probe, before: Option<Cached>, call: Call,
                           answer: Answer, after: Option<Cached>)
  {
    if Fresh(before, call.start) then answer == Answer(before.value.result, false) && after == before
    else
      && answer == Answer(Reported(probe, call.reply), true)
      && after == Some(Cached(answer.result, call.done))
  }

  class Checker {
    const probe: Probe
    const configured: bool
    var cache: Option<Cached>

    constructor (probe: Probe, configured: bool)
      ensures this.probe == probe && this.configured == configured && cache == None
    {
      this.probe, this.configured, cache := probe, configured, None;
    }

    method Run(call: Call) returns (answer: Answer)
      modifies this`cache
      ensures configured ==> CallStep(probe, old(cache), call, answer, cache)
      ensures !configured ==> answer == Answer(Disabled, false) && cache == old(cache)
    {
      if !configured {
        return Answer(Disabled, false);
      }
      if cache.Some? {
        if call.start - cache.value.fetchedAt < TtlFor(cache.value.result) {
          return Answer(cache.value.result, false);
        }
      }
      var result := Fetch(call.reply);
      cache := Some(Cached(result, call.done));
      answer := Answer(result, true);
    }

    method Fetch(reply: Reply) returns (result: Check)
      ensures result == Reported(probe, reply)
    {
      if reply.Unreachable? {
        return Error(probe.display + ": request failed");
      }
      if !IsSuccess(reply.status) {
        return Error(probe.display + ": status " + reply.statusText);
      }
      if reply.body.None? {
        return Error(probe.display + ": invalid manifest");
      }
      var manifest := reply.body.value;
      var newer := IsNewer(manifest.version, probe.running);
      result := if newer then UpdateAvailable(manifest.version, manifest.releaseUrl) else UpToDate(manifest.version);
    }
  }

  // ---- Sequential runs ----

  /** Each call starts after the previous one is done, from an empty cache. */
  ghost predicate Sequential(probe: Probe, calls: seq<Call>, answers: seq<Answer>, caches: seq<Option<Cached>>) {
    && |answers| == |calls| && |caches| == |calls| + 1 && caches[0] == None
    && (forall i :: 0 <= i < |calls| ==> calls[i].start <= calls[i].done)
    && (forall i, j :: 0 <= i < j < |calls| ==> calls[i].done <= calls[j].start)
    && (forall i :: 0 <= i < |calls| ==> CallStep(probe, caches[i], calls[i], answers[i], caches[i + 1]))
  }

  /** `j` is the last call before `n` that fetched. */
  ghost predicate LastFetch(answers: seq<Answer>, n: nat, j: nat) {
    j < n <= |answers| && answers[j].fetched && forall i :: j < i < n ==> !answers[i].fetched
  }

  /** The cache is always the result of the last call that fetched. */
  lemma {:induction false} CacheIsTheLastFetch(probe: Probe, calls: seq<Call>, answers: seq<Answer>,
                                               caches: seq<Option<Cached>>, n: nat)
    requires Sequential(probe, calls, answers, caches) && n <= |calls|
    ensures caches[n].None? <==> forall i :: 0 <= i < n ==> !answers[i].fetched
    ensures forall j: nat :: LastFetch(answers, n, j) ==>
              caches[n] == Some(Cached(answers[j].result, calls[j].done))
    ensures caches[n].Some? ==> exists j: nat :: LastFetch(answers, n, j)
  {
    if n > 0 {
      CacheIsTheLastFetch(probe, calls, answers, caches, n - 1);
      assert CallStep(probe, caches[n - 1], calls[n - 1], answers[n - 1], caches[n]);
      if answers[n - 1].fetched {
        assert LastFetch(answers, n, n - 1);
      } else {
        var j: nat :| LastFetch(answers, n - 1, j);
        assert LastFetch(answers, n, j);
        forall k: nat | LastFetch(answers, n, k) ensures LastFetch(answers, n - 1, k) {}
      }
    }
  }

  /** An answer from the cache is the last fetched result, and younger than its time to live. */
  lemma CachedAnswersAreFresh(probe: Probe, calls: seq<Call>, answers: seq<Answer>,
                              caches: seq<Option<Cached>>, n: nat)
    requires Sequential(probe, calls, answers, caches) && n < |calls| && !answers[n].fetched
    ensures exists j: nat ::
              && LastFetch(answers, n, j)
              && answers[n].result == answers[j].result
              && calls[n].start - calls[j].done < if Brought(calls[j].reply) then 900.0 else 60.0
  {
    assert CallStep(probe, caches[n], calls[n], answers[n], caches[n + 1]);
    CacheIsTheLastFetch(probe, calls, answers, caches, n);
    var j: nat :| LastFetch(answers, n, j);
    assert caches[n] == Some(Cached(answers[j].result, calls[j].done));
    assert CallStep(probe, caches[j], calls[j], answers[j], caches[j + 1]);
  }

  /**
  A call is answered from the cache exactly when the last fetch brought a manifest less
  than 900 seconds ago, or did not bring one and completed less than 60 seconds ago.
  */
  lemma CachedIff(probe: Probe, calls: seq<Call>, answers: seq<Answer>, caches: seq<Option<Cached>>, n: nat)
    requires Sequential(probe, calls, answers, caches) && n < |calls|
    ensures !answers[n].fetched <==>
            exists j: nat ::
              && LastFetch(answers, n, j)
              && calls[n].start - calls[j].done < if Brought(calls[j].reply) then 900.0 else 60.0
  {
    assert CallStep(probe, caches[n], calls[n], answers[n], caches[n + 1]);
    CacheIsTheLastFetch(probe, calls, answers, caches, n);
    forall j: nat | LastFetch(answers, n, j)
      ensures caches[n] == Some(Cached(answers[j].result, calls[j].done))
      ensures answers[j].result.Error? <==> !Brought(calls[j].reply)
    {
      assert CallStep(probe, caches[j], calls[j], answers[j], caches[j + 1]);
    }
  }

  /** Call `j` is the fetch whose result call `n` answers with: its own, or the last one before it. */
  ghost predicate AnsweredBy(answers: seq<Answer>, n: nat, j: nat) {
    n < |answers| && if answers[n].fetched then j == n else LastFetch(answers, n, j)
  }

  /** What an answer has to say when it rests on `reply`. */
  ghost predicate Says(probe: Probe, reply: Reply, result: Check) {
    match reply
    case Unreachable => result == Error(probe.display + ": request failed")
    case Response(status, text, body) =>
      if status < 200 || 300 <= status then result == Error(probe.display + ": status " + text)
      else
        match body
        case None => result == Error(probe.display + ": invalid manifest")
        case Some(m) =>
          result == if Newer(m.version, probe.running) then UpdateAvailable(m.version, m.releaseUrl)
                    else UpToDate(m.version)
  }

  lemma ReportedSays(probe: Probe, reply: Reply)
    ensures Says(probe, reply, Reported(probe, reply))
  {
  }

  /** Every answer of a run rests on one fetch, its own or the last one before it, and says what that brought. */
  lemma AnswersSay(probe: Probe, calls: seq<Call>, answers: seq<Answer>, caches: seq<Option<Cached>>, n: nat)
    requires Sequential(probe, calls, answers, caches) && n < |calls|
    ensures exists j: nat :: AnsweredBy(answers, n, j)
    ensures forall j: nat :: AnsweredBy(answers, n, j) ==> Says(probe, calls[j].reply, answers[n].result)
  {
    assert CallStep(probe, caches[n], calls[n], answers[n], caches[n + 1]);
    CacheIsTheLastFetch(probe, calls, answers, caches, n);
    if answers[n].fetched {
      assert AnsweredBy(answers, n, n);
    } else {
      var k: nat :| LastFetch(answers, n, k);
      assert AnsweredBy(answers, n, k);
    }
    forall j: nat | AnsweredBy(answers, n, j) ensures Says(probe, calls[j].reply, answers[n].result) {
      assert CallStep(probe, caches[j], calls[j], answers[j], caches[j + 1]);
      ReportedSays(probe, calls[j].reply);
    }
  }

  /** Two fetches are at least the time to live of the earlier result apart. */
  lemma {:induction false} FetchesAreApart(probe: Probe, calls: seq<Call>, answers: seq<Answer>,
                                           caches: seq<Option<Cached>>, i: nat, j: nat)
    requires Sequential(probe, calls, answers, caches) && i < j < |calls|
    requires answers[i].fetched && answers[j].fetched
    ensures calls[j].done - calls[i].done >= TtlFor(answers[i].result)
    ensures calls[j].done - calls[i].done >= if Brought(calls[i].reply) then 900.0 else 60.0
  {
    assert CallStep(probe, caches[i], calls[i], answers[i], caches[i + 1]);
    CacheIsTheLastFetch(probe, calls, answers, caches, j);
    var k: nat :| LastFetch(answers, j, k);
    assert CallStep(probe, caches[j], calls[j], answers[j], caches[j + 1]);
    assert calls[j].start - calls[k].done >= TtlFor(answers[k].result);
    if i < k {
      FetchesAreApart(probe, calls, answers, caches, i, k);
    }
  }

  /** The fetches among the first `n` calls that completed between `lo` and `hi`. */
  function FetchesIn(calls: seq<Call>, answers: seq<Answer>, n: nat, lo: real, hi: real): nat
    requires n <= |calls| == |answers|
  {
    if n == 0 then 0
    else FetchesIn(calls, answers, n - 1, lo, hi)
         + if answers[n - 1].fetched && lo <= calls[n - 1].done <= hi then 1 else 0
  }

  /** `n` gaps laid end to end. */
  function Gaps(n: nat, gap: real): real {
    if n == 0 then 0.0 else Gaps(n - 1, gap) + gap
  }

  lemma {:induction false} GapsOf(n: nat)
    ensures Gaps(n, 60.0) == n as real * 60.0 && Gaps(n, 900.0) == n as real * 900.0
  {
    if n > 0 {
      GapsOf(n - 1);
    }
  }

  lemma {:induction false} SpacedFetches(probe: Probe, calls: seq<Call>, answers: seq<Answer>,
                                         caches: seq<Option<Cached>>, n: nat, lo: real, hi: real, gap: real)
    returns (last: nat)
    requires Sequential(probe, calls, answers, caches) && n <= |calls|
    requires forall i :: 0 <= i < n && answers[i].fetched ==> TtlFor(answers[i].result) >= gap
    requires FetchesIn(calls, answers, n, lo, hi) >= 1
    ensures last < n && answers[last].fetched && lo <= calls[last].done <= hi
    ensures Gaps(FetchesIn(calls, answers, n, lo, hi) - 1, gap) <= calls[last].done - lo
  {
    last := n - 1;
    if FetchesIn(calls, answers, n - 1, lo, hi) > 0 {
      var k := SpacedFetches(probe, calls, answers, caches, n - 1, lo, hi, gap);
      if answers[last].fetched && lo <= calls[last].done <= hi {
        FetchesAreApart(probe, calls, answers, caches, k, last);
      } else {
        last := k;
      }
    }
  }

  /**
  A window of `hi - lo` seconds contains at most that over 60, plus one, fetch
  completions; over 900, plus one, when no fetch of the run failed.
  */
  lemma FetchRateIsBounded(probe: Probe, calls: seq<Call>, answers: seq<Answer>,
                           caches: seq<Option<Cached>>, lo: real, hi: real)
    requires Sequential(probe, calls, answers, caches) && lo <= hi
    ensures FetchesIn(calls, answers, |calls|, lo, hi) as real <= (hi - lo) / 60.0 + 1.0
    ensures (forall i :: 0 <= i < |calls| && answers[i].fetched ==> Brought(calls[i].reply)) ==>
              FetchesIn(calls, answers, |calls|, lo, hi) as real <= (hi - lo) / 900.0 + 1.0
  {
    var n := |calls|;
    if FetchesIn(calls, answers, n, lo, hi) >= 1 {
      GapsOf(FetchesIn(calls, answers, n, lo, hi) - 1);
      var _ := SpacedFetches(probe, calls, answers, caches, n, lo, hi, 60.0);
      if forall i :: 0 <= i < n && answers[i].fetched ==> Brought(calls[i].reply) {
        forall i | 0 <= i < n && answers[i].fetched ensures TtlFor(answers[i].result) >= 900.0 {
          assert CallStep(probe, caches[i], calls[i], answers[i], caches[i + 1]);
        }
        var _ := SpacedFetches(probe, calls, answers, caches, n, lo, hi, 900.0);
      }
    }
  }
}
