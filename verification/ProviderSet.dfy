/**
`provider-set`: write one secret to the provider it is declared to, and trust only what a
fresh build of the providers reads back.
*/
module ProviderSet {
  import opened Base
  import opened Text
  import opened Providers
  import opened WriteThrough
  import opened StoreProviders
  import opened Boot
  import opened Restarts

  /** A secret provider as the command finds it: one that cannot be written, or a store. */
  datatype Handle = ReadOnly | Store(provider: CachedProvider)

  function Written(handle: Option<Handle>): set<CachedProvider> {
    if handle.Some? && handle.value.Store? then {handle.value.provider} else {}
  }

  /**
  Write one secret to its declared provider, build every provider again from the rows
  (`builds` says whether that works) and compare. Success means that the write reported
  success and the value round-trips through the store.
  */
  method SetOneSecret(secret: string, plain: string, declared: nat, handles: seq<Option<Handle>>,
                      secrets: seq<string>, reply: Reply, builds: bool)
    returns (ok: bool)
    requires declared < |handles| && secret in secrets
    modifies Written(handles[declared])
    ensures ok <==> && handles[declared].Some? && handles[declared].value.Store?
                    && secret !in handles[declared].value.provider.frozen && reply.Done? && builds
                    && RoundTrips(handles[declared].value.provider.codec, plain)
    ensures handles[declared].Some? && handles[declared].value.Store? ==>
              var p := handles[declared].value.provider;
              p.Now() == Step(p.codec, old(p.Now()), Guard(p.frozen, Put(secret, plain, reply)))
  {
    if handles[declared].None? || handles[declared].value.ReadOnly? {
      return false;
    }
    var target := handles[declared].value.provider;
    ok := target.Set(secret, plain, reply);
    if !ok || !builds {
      return false;
    }
    FreshReadIff(target.codec, plain);
    var anew := FreshContents(target.codec, target.rows, AsSet(secrets));
    ok := VerifyReadback(Get(anew, secret), plain);
    assert Lookup(anew, secret).Some? ==> Lookup(anew, secret).value.Readable?;
  }

  /**
  The command: a variable that is unset or blank is refused and nothing is written; else
  the text in it, without the white space around it, is what is written and compared.
  */
  method RunProviderSet(variable: Option<string>, secret: string, declared: nat, handles: seq<Option<Handle>>,
                        secrets: seq<string>, reply: Reply, builds: bool)
    returns (ok: bool)
    requires declared < |handles| && secret in secrets
    modifies Written(handles[declared])
    ensures ok ==> handles[declared].Some? && handles[declared].value.Store?
    ensures handles[declared].Some? && handles[declared].value.Store? ==>
              var p := handles[declared].value.provider;
              && (variable.None? || AllSpace(variable.value) ==> !ok && p.Now() == old(p.Now()))
              && forall plain :: variable.Some? && Padded(variable.value, plain) ==>
                   && p.Now() == Step(p.codec, old(p.Now()), Guard(p.frozen, Put(secret, plain, reply)))
                   && (ok <==> secret !in p.frozen && reply.Done? && builds && RoundTrips(p.codec, plain))
  {
    ReadSecretExactly(variable);
    var plain := ReadSecretFromEnv(variable);
    if plain.Plain? {
      ok := SetOneSecret(secret, plain.text, declared, handles, secrets, reply, builds);
    } else {
      ok := false;
    }
  }

  /**
  What `provider-set` does to the next process, for every reply of the store: the secret
  reads the text in the variable iff the write took effect, even when the command reported
  an error, or it read that text already; an effective write leaves it Used or Shadowed; an
  accepted deployment stays accepted and every other read is kept.
  */
  lemma SetAcrossRestart(before: Slots, d: Declarations, secrets: seq<string>, secret: string,
                         raw: string, plain: string, c: Codec, store: State, reply: Reply)
    requires secret in secrets && Padded(raw, plain) && SecretCodec(c)
    requires Built(before, DeclaredFor(d, secret))
    requires before[DeclaredFor(d, secret)].value.held == Observed(c, store)
    requires BuiltFromRows(c, store, AsSet(secrets))
    ensures ReadSecretFromEnv(Some(raw)).Plain?
    ensures var op := Put(secret, ReadSecretFromEnv(Some(raw)).text, reply);
            var next := AfterSet(before, DeclaredFor(d, secret), secrets, c, store, op);
            && (SecretGet(next, d, secret) == Some(plain) <==>
                !reply.Rejected? || SecretGet(before, d, secret) == Some(plain))
            && (reply.Rejected? ==> SecretGet(next, d, secret) == SecretGet(before, d, secret))
            && (!reply.Rejected? ==> Classify(next, d, secret).Used? || Classify(next, d, secret).Shadowed?)
            && (Accepted(before, d, secrets) ==> Accepted(next, d, secrets))
            && (forall s :: s in secrets && s != secret ==> SecretGet(next, d, s) == SecretGet(before, d, s))
  {
    ReadSecretExactly(Some(raw));
    var own := DeclaredFor(d, secret);
    var op := Put(secret, plain, reply);
    var next := AfterSet(before, own, secrets, c, store, op);
    forall s | s in secrets
      ensures Lookup(next[own].value.held, s) == if s == secret && !reply.Rejected? then Some(Readable(plain))
                                                 else Lookup(before[own].value.held, s)
    {
      NextHolds(before, own, secrets, c, store, op, s);
    }
    OneKeyChanges(before, own, next, secrets, secret, d);
    if !reply.Rejected? {
      assert Lookup(next[own].value.held, secret) == Some(Readable(plain));
      assert Has(next, own, secret);
      ClassifyExact(next, d, secret);
    } else {
      assert Lookup(next[own].value.held, secret) == Lookup(before[own].value.held, secret);
    }
  }

  function AfterSet(before: Slots, own: nat, secrets: seq<string>, c: Codec, store: State, op: Op): Slots
    requires Built(before, own)
  {
    Rebuilt(before, own, FreshContents(c, Step(c, store, op).rows, AsSet(secrets)))
  }

  /** What the next process holds of one secret after the write. */
  lemma NextHolds(before: Slots, own: nat, secrets: seq<string>, c: Codec, store: State, op: Op, s: string)
    requires Built(before, own) && before[own].value.held == Observed(c, store)
    requires SecretCodec(c) && BuiltFromRows(c, store, AsSet(secrets)) && s in secrets
    requires op.Put? && op.value != "" && Trimmed(op.value)
    ensures Lookup(AfterSet(before, own, secrets, c, store, op)[own].value.held, s)
         == if s == op.name && !op.reply.Rejected? then Some(Readable(op.value))
            else Lookup(before[own].value.held, s)
  {
    StepAt(c, store, op, s);
    FreshOfRow(c, Step(c, store, op).rows, s);
    FreshOfRow(c, store.rows, s);
    BuildIsObserved(c, store, secrets, s);
    assert s in AsSet(secrets);
    FreshReadIff(c, op.value);
  }

  /** Slots that differ in one secret of one provider, to which it is declared: everything else is kept. */
  lemma OneKeyChanges(before: Slots, own: nat, next: Slots, secrets: seq<string>, secret: string, d: Declarations)
    requires Built(before, own) && Built(next, own) && |next| == |before| && own == DeclaredFor(d, secret)
    requires forall k :: 0 <= k < |before| && k != own ==> next[k] == before[k]
    requires forall s :: s in secrets && s != secret ==>
               Lookup(next[own].value.held, s) == Lookup(before[own].value.held, s)
    requires secret in secrets && secret in before[own].value.held ==> secret in next[own].value.held
    ensures forall s :: s in secrets && s != secret ==> SecretGet(next, d, s) == SecretGet(before, d, s)
    ensures Accepted(before, d, secrets) ==> Accepted(next, d, secrets)
  {
    forall s | s in secrets && s != secret
      ensures SecretGet(next, d, s) == SecretGet(before, d, s)
      ensures forall k: nat :: Has(next, k, s) <==> Has(before, k, s)
    {
      assert Lookup(next[own].value.held, s) == Lookup(before[own].value.held, s);
    }
    if Accepted(before, d, secrets) {
      forall s | s in secrets
        ensures Built(next, DeclaredFor(d, s)) && (HeldSomewhere(next, s) ==> Has(next, DeclaredFor(d, s), s))
      {
        if HeldSomewhere(next, s) {
          var k: nat :| Has(next, k, s);
          assert k != own || s != secret ==> Has(before, k, s);
        }
      }
    }
  }
}
