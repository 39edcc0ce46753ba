/**
Write-through calls that overlap. A call changes the store first and takes the cache
lock only afterwards, so between its two effects other calls can run.
*/
module ConcurrentWrites {
  import opened Base
  import opened WriteThrough

  /** The two effects of one call, which is named by its position in the list of calls. */
  datatype Event = StoreChanged(call: nat) | CacheChanged(call: nat)

  function Row(c: Codec, op: Op): Option<Row> {
    if op.Put? then Some(Encode(c, op.value)) else None
  }

  /** What a successful call leaves behind under its name. */
  function Effect(op: Op): Option<string> {
    if op.Put? then Some(op.value) else None
  }

  function Exec(c: Codec, calls: seq<Op>, s: State, e: Event): State {
    if e.call >= |calls| then s
    else
      var op := calls[e.call];
      match e
      case StoreChanged(_) => s.(rows := Updated(s.rows, op.name, Row(c, op)))
      case CacheChanged(_) => s.(cache := Updated(s.cache, op.name, Effect(op)))
  }

  function ExecAll(c: Codec, calls: seq<Op>, s: State, events: seq<Event>): State {
    if events == [] then s
    else Exec(c, calls, ExecAll(c, calls, s, events[..|events| - 1]), events[|events| - 1])
  }

  /** Every call has run: each of its effects happens once, the store first, then the cache. */
  ghost predicate Complete(calls: seq<Op>, events: seq<Event>) {
    && Distinct(events)
    && (forall e :: e in events <==> e.call < |calls|)
    && StoreFirst(events)
  }

  ghost predicate StoreFirst(events: seq<Event>) {
    forall i :: 0 <= i < |events| && events[i].CacheChanged? ==> StoreChanged(events[i].call) in events[..i]
  }

  ghost predicate Coherent(c: Codec, s: State, name: string) {
    Lookup(s.cache, name) == FreshAt(c, s.rows, name)
  }

  predicate On(calls: seq<Op>, e: Event, name: string) {
    e.call < |calls| && calls[e.call].name == name
  }

  ghost predicate Touched(calls: seq<Op>, events: seq<Event>, name: string, store: bool) {
    exists i :: 0 <= i < |events| && On(calls, events[i], name) && events[i].StoreChanged? == store
  }

  /** The calls on `name` all leave the same thing behind. */
  ghost predicate Agree(calls: seq<Op>, name: string, effect: Option<string>) {
    forall i :: 0 <= i < |calls| && calls[i].name == name ==> Effect(calls[i]) == effect
  }

  lemma StoredReads(c: Codec, s: State, op: Op)
    requires op.Put? ==> RoundTrips(c, op.value)
    ensures FreshAt(c, Updated(s.rows, op.name, Row(c, op)), op.name) == Effect(op)
  {
    assert Lookup(Updated(s.rows, op.name, Row(c, op)), op.name) == Row(c, op);
    if op.Put? {
      FreshReadIff(c, op.value);
    }
  }

  /** With agreeing calls, whatever has been touched reads the common effect. */
  lemma {:induction false} AgreeingCallsDecide(c: Codec, calls: seq<Op>, s: State, events: seq<Event>,
                                               name: string, effect: Option<string>)
    requires Agree(calls, name, effect) && AllRoundTrip(c, calls)
    ensures var now := ExecAll(c, calls, s, events);
            && (if Touched(calls, events, name, true) then FreshAt(c, now.rows, name) == effect
                else Lookup(now.rows, name) == Lookup(s.rows, name))
            && (if Touched(calls, events, name, false) then Lookup(now.cache, name) == effect
                else Lookup(now.cache, name) == Lookup(s.cache, name))
  {
    if events != [] {
      var n := |events| - 1;
      var e := events[n];
      AgreeingCallsDecide(c, calls, s, events[..n], name, effect);
      TouchedOneMore(calls, events, name, true);
      TouchedOneMore(calls, events, name, false);
      ExecOn(c, calls, ExecAll(c, calls, s, events[..n]), e, name);
    }
  }

  /** One effect: what it does under its own name, and nothing elsewhere. */
  lemma ExecOn(c: Codec, calls: seq<Op>, s: State, e: Event, name: string)
    requires AllRoundTrip(c, calls)
    ensures var now := Exec(c, calls, s, e);
            && (if On(calls, e, name) && e.StoreChanged? then FreshAt(c, now.rows, name) == Effect(calls[e.call])
                else Lookup(now.rows, name) == Lookup(s.rows, name)
                     && FreshAt(c, now.rows, name) == FreshAt(c, s.rows, name))
            && (if On(calls, e, name) && e.CacheChanged? then Lookup(now.cache, name) == Effect(calls[e.call])
                else Lookup(now.cache, name) == Lookup(s.cache, name))
  {
    if e.call < |calls| {
      StoredReads(c, s, calls[e.call]);
      FreshOfRow(c, s.rows, name);
      FreshOfRow(c, Exec(c, calls, s, e).rows, name);
    }
  }

  lemma TouchedOneMore(calls: seq<Op>, events: seq<Event>, name: string, store: bool)
    requires events != []
    ensures var n := |events| - 1;
            Touched(calls, events, name, store) <==>
            Touched(calls, events[..n], name, store)
            || (On(calls, events[n], name) && events[n].StoreChanged? == store)
  {
    var n := |events| - 1;
    if Touched(calls, events[..n], name, store) {
      var i :| 0 <= i < n && On(calls, events[..n][i], name) && events[..n][i].StoreChanged? == store;
      assert events[i] == events[..n][i];
    }
    if Touched(calls, events, name, store) {
      var i :| 0 <= i < |events| && On(calls, events[i], name) && events[i].StoreChanged? == store;
      if i < n {
        assert events[..n][i] == events[i];
      }
    }
  }

  /** Once every call has run, store and cache have been touched under the same names. */
  lemma TouchedTogether(calls: seq<Op>, events: seq<Event>, name: string)
    requires Complete(calls, events)
    ensures Touched(calls, events, name, true) <==> Touched(calls, events, name, false)
  {
    forall store: bool | Touched(calls, events, name, store) ensures Touched(calls, events, name, !store) {
      var i :| 0 <= i < |events| && On(calls, events[i], name) && events[i].StoreChanged? == store;
      var other := if store then CacheChanged(events[i].call) else StoreChanged(events[i].call);
      assert other in events;
      var j :| 0 <= j < |events| && events[j] == other;
      assert On(calls, events[j], name);
    }
  }

  lemma AgreeingIsCoherent(c: Codec, calls: seq<Op>, s: State, events: seq<Event>,
                           name: string, effect: Option<string>)
    requires Coherent(c, s, name) && Complete(calls, events)
    requires Agree(calls, name, effect) && AllRoundTrip(c, calls)
    ensures Coherent(c, ExecAll(c, calls, s, events), name)
  {
    AgreeingCallsDecide(c, calls, s, events, name, effect);
    TouchedTogether(calls, events, name);
    FreshOfRow(c, s.rows, name);
    FreshOfRow(c, ExecAll(c, calls, s, events).rows, name);
  }

  /** Two calls pass each other between store and cache. */
  function Crossing(i: nat, j: nat): seq<Event> {
    [StoreChanged(i), StoreChanged(j), CacheChanged(j), CacheChanged(i)]
  }

  /** From any state, crossing calls with different effects leave the cache wrong. */
  lemma CrossingDiverges(c: Codec, calls: seq<Op>, s: State, name: string, i: nat, j: nat)
    requires i < |calls| && j < |calls| && calls[i].name == calls[j].name == name
    requires AllRoundTrip(c, calls) && Effect(calls[i]) != Effect(calls[j])
    ensures !Coherent(c, ExecAll(c, calls, s, Crossing(i, j)), name)
  {
    var e := Crossing(i, j);
    var s1 := Exec(c, calls, s, e[0]);
    var s2 := Exec(c, calls, s1, e[1]);
    var s3 := Exec(c, calls, s2, e[2]);
    assert ExecAll(c, calls, s, e[..1]) == s1 by { assert e[..1][..0] == []; }
    assert ExecAll(c, calls, s, e[..2]) == s2 by { assert e[..2][..1] == e[..1]; }
    assert ExecAll(c, calls, s, e[..3]) == s3 by { assert e[..3][..2] == e[..2]; }
    StoredReads(c, s1, calls[j]);
    assert Lookup(Exec(c, calls, s3, e[3]).cache, name) == Effect(calls[i]);
  }

  /** The first `n` calls except `i` and `j`, one after the other. */
  function Others(n: nat, i: nat, j: nat): seq<Event> {
    if n == 0 then []
    else Others(n - 1, i, j) + if n - 1 == i || n - 1 == j then [] else Both(n - 1)
  }

  function Both(call: nat): seq<Event> {
    [StoreChanged(call), CacheChanged(call)]
  }

  lemma {:induction false} OthersAre(n: nat, i: nat, j: nat)
    ensures Distinct(Others(n, i, j)) && StoreFirst(Others(n, i, j))
    ensures forall e :: e in Others(n, i, j) <==> e.call < n && e.call != i && e.call != j
  {
    if n > 0 {
      OthersAre(n - 1, i, j);
      var before := Others(n - 1, i, j);
      if n - 1 == i || n - 1 == j {
        assert before + [] == before;
      } else {
        BothIs(n - 1);
        AppendDistinct(before, Both(n - 1));
        AppendStoreFirst(before, Both(n - 1));
      }
    }
  }

  lemma AppendDistinct(a: seq<Event>, b: seq<Event>)
    requires Distinct(a) && Distinct(b) && forall e :: e in a ==> e !in b
    ensures Distinct(a + b)
  {
    forall i, j | 0 <= i < j < |a + b| ensures (a + b)[i] != (a + b)[j] {
      if i < |a| <= j {
        assert a[i] in a && b[j - |a|] in b;
      }
    }
  }

  lemma AppendStoreFirst(a: seq<Event>, b: seq<Event>)
    requires StoreFirst(a) && StoreFirst(b)
    ensures StoreFirst(a + b)
  {
    var all := a + b;
    forall i | 0 <= i < |all| && all[i].CacheChanged? ensures StoreChanged(all[i].call) in all[..i] {
      if i < |a| {
        assert all[..i] == a[..i];
      } else {
        assert all[..i] == a + b[..i - |a|];
      }
    }
  }

  lemma BothIs(call: nat)
    ensures Distinct(Both(call)) && StoreFirst(Both(call))
    ensures forall e :: e in Both(call) <==> e.call == call
  {
    assert Both(call)[..1] == [StoreChanged(call)];
  }

  lemma CrossingIs(i: nat, j: nat)
    requires i != j
    ensures Distinct(Crossing(i, j)) && StoreFirst(Crossing(i, j))
    ensures forall e :: e in Crossing(i, j) <==> e.call == i || e.call == j
  {
    var b := Crossing(i, j);
    assert b[0] == StoreChanged(i) && b[1] == StoreChanged(j) && b[2] == CacheChanged(j) && b[3] == CacheChanged(i);
    assert b[..2] == [b[0], b[1]] && b[..3] == [b[0], b[1], b[2]];
  }

  /** All calls, the crossing pair last. */
  function CrossingLast(calls: seq<Op>, i: nat, j: nat): seq<Event> {
    Others(|calls|, i, j) + Crossing(i, j)
  }

  lemma CrossingLastIsComplete(calls: seq<Op>, i: nat, j: nat)
    requires i < |calls| && j < |calls| && i != j
    ensures Complete(calls, CrossingLast(calls, i, j))
  {
    var a, b := Others(|calls|, i, j), Crossing(i, j);
    OthersAre(|calls|, i, j);
    CrossingIs(i, j);
    AppendDistinct(a, b);
    AppendStoreFirst(a, b);
  }

  lemma {:induction false} ExecAllAppend(c: Codec, calls: seq<Op>, s: State, a: seq<Event>, b: seq<Event>)
    ensures ExecAll(c, calls, s, a + b) == ExecAll(c, calls, ExecAll(c, calls, s, a), b)
  {
    if b == [] {
      assert a + b == a;
    } else {
      var n := |b| - 1;
      ExecAllAppend(c, calls, s, a, b[..n]);
      assert (a + b)[..|a + b| - 1] == a + b[..n];
    }
  }

  ghost function CommonEffect(calls: seq<Op>, name: string): (effect: Option<string>)
    ensures (forall i, j :: 0 <= i < |calls| && 0 <= j < |calls| && calls[i].name == calls[j].name == name ==>
               Effect(calls[i]) == Effect(calls[j])) ==> Agree(calls, name, effect)
  {
    if exists i :: 0 <= i < |calls| && calls[i].name == name
    then var i :| 0 <= i < |calls| && calls[i].name == name; Effect(calls[i])
    else None
  }

  /**
  A cache in front of a store is right about `name` after every interleaving of a list of
  successful calls, all of them run, exactly when the calls on `name` all leave the same
  thing behind: two that differ can cross last, and then the cache keeps what the store lost.
  */
  lemma EveryInterleavingCoherentIff(c: Codec, calls: seq<Op>, s: State, names: set<string>, name: string)
    requires s.cache == Fresh(c, s.rows, names) && name in names && AllRoundTrip(c, calls)
    ensures (forall events :: Complete(calls, events) ==> Coherent(c, ExecAll(c, calls, s, events), name))
       <==> forall i, j :: 0 <= i < |calls| && 0 <= j < |calls| && calls[i].name == calls[j].name == name ==>
              Effect(calls[i]) == Effect(calls[j])
  {
    assert Coherent(c, s, name);
    if i, j :| 0 <= i < |calls| && 0 <= j < |calls| && calls[i].name == calls[j].name == name
               && Effect(calls[i]) != Effect(calls[j])
    {
      var first := Others(|calls|, i, j);
      CrossingLastIsComplete(calls, i, j);
      ExecAllAppend(c, calls, s, first, Crossing(i, j));
      CrossingDiverges(c, calls, ExecAll(c, calls, s, first), name, i, j);
    } else {
      var effect := CommonEffect(calls, name);
      forall events | Complete(calls, events) ensures Coherent(c, ExecAll(c, calls, s, events), name) {
        AgreeingIsCoherent(c, calls, s, events, name, effect);
      }
    }
  }

  /** The first `n` calls one after the other. */
  function OneByOne(n: nat): seq<Event> {
    if n == 0 then [] else OneByOne(n - 1) + Both(n - 1)
  }

  lemma BothIsOneStep(c: Codec, calls: seq<Op>, s: State, n: nat)
    requires n < |calls| && calls[n].reply.Done?
    ensures ExecAll(c, calls, s, Both(n)) == Step(c, s, calls[n])
  {
    var e := Both(n);
    assert e[..1][..0] == [] && e[..1][0] == StoreChanged(n);
    assert ExecAll(c, calls, s, e[..1]) == Exec(c, calls, s, StoreChanged(n));
    assert ExecAll(c, calls, s, e) == Exec(c, calls, ExecAll(c, calls, s, e[..1]), CacheChanged(n));
  }

  /** Calls that do not overlap are the serial run, so its coherence carries over. */
  lemma {:induction false} OneByOneIsTheSerialRun(c: Codec, calls: seq<Op>, s: State, n: nat)
    requires n <= |calls| && forall i :: 0 <= i < n ==> calls[i].reply.Done?
    ensures ExecAll(c, calls, s, OneByOne(n)) == Run(c, s, calls[..n])
  {
    if n > 0 {
      OneByOneIsTheSerialRun(c, calls, s, n - 1);
      ExecAllAppend(c, calls, s, OneByOne(n - 1), Both(n - 1));
      BothIsOneStep(c, calls, Run(c, s, calls[..n - 1]), n - 1);
      assert calls[..n][..n - 1] == calls[..n - 1];
    }
  }
}
