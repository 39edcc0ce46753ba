/** The declared configuration keys: a name and the tier it resolves in. */
module Registry {
  import opened Base

  datatype Tier = Bootstrap | Application

  datatype ConfigKey = ConfigKey(name: string, tier: Tier)

  function KeyNames(registry: seq<ConfigKey>): (names: seq<string>)
    ensures |names| == |registry|
    ensures forall i :: 0 <= i < |names| ==> names[i] == registry[i].name
  {
    seq(|registry|, i requires 0 <= i < |registry| => registry[i].name)
  }

  function BootstrapNames(registry: seq<ConfigKey>): set<string> {
    set i | 0 <= i < |registry| && registry[i].tier == Bootstrap :: registry[i].name
  }

  /** A name belongs to the tier of the key that declares it. */
  lemma BootstrapNamesAre(registry: seq<ConfigKey>, name: string)
    requires Distinct(KeyNames(registry))
    ensures forall i :: 0 <= i < |registry| && registry[i].name == name ==>
              (name in BootstrapNames(registry) <==> registry[i].tier == Bootstrap)
    ensures name !in KeyNames(registry) ==> name !in BootstrapNames(registry)
  {
    forall i, j | 0 <= i < |registry| && 0 <= j < |registry| && registry[i].name == registry[j].name ensures i == j {
      assert KeyNames(registry)[i] == KeyNames(registry)[j];
    }
    if name in BootstrapNames(registry) {
      var i :| 0 <= i < |registry| && registry[i].tier == Bootstrap && registry[i].name == name;
      assert KeyNames(registry)[i] == name;
    }
  }

  /** The keys of `keys` in one tier, in order. */
  function OfTier(keys: seq<ConfigKey>, tier: Tier): (r: seq<ConfigKey>)
    ensures forall k :: k in r <==> k in keys && k.tier == tier
  {
    if keys == [] then []
    else (if keys[0].tier == tier then [keys[0]] else []) + OfTier(keys[1..], tier)
  }

  function InTier(tier: Tier): ConfigKey -> bool {
    (key: ConfigKey) => key.tier == tier
  }

  /** They are named in order, and once per occurrence. */
  lemma {:induction false} OfTierInOrder(keys: seq<ConfigKey>, tier: Tier) returns (at: seq<nat>)
    ensures Picks(keys, InTier(tier), at, OfTier(keys, tier))
  {
    if keys == [] {
      at := [];
    } else {
      var rest := OfTierInOrder(keys[1..], tier);
      at := PicksOneMore(keys, InTier(tier), rest, OfTier(keys[1..], tier));
    }
  }

  /** The position of a key by name, as the generation looks it up. */
  function IndexOf(registry: seq<ConfigKey>, name: string): (i: nat)
    requires name in KeyNames(registry)
    ensures i < |registry| && registry[i].name == name
  {
    if registry[0].name == name then 0
    else
      assert KeyNames(registry)[1..] == KeyNames(registry[1..]);
      1 + IndexOf(registry[1..], name)
  }

  /** With distinct names, a declared key is found at its own position. */
  lemma {:induction false} IndexOfPosition(registry: seq<ConfigKey>, i: nat)
    requires Distinct(KeyNames(registry)) && i < |registry|
    ensures registry[i].name in KeyNames(registry)
    ensures IndexOf(registry, registry[i].name) == i
  {
    assert KeyNames(registry)[i] == registry[i].name;
    var j := IndexOf(registry, registry[i].name);
    assert KeyNames(registry)[j] == KeyNames(registry)[i];
  }
}
