/**
The configuration provider chain: the priority list an operator writes, the walk
that resolves one key, and the classification of the result.
*/
module ConfigChain {
  import opened Base
  import opened Text
  import opened Providers

  datatype Kind = Environment | File | Database | Bunyip

  function Name(kind: Kind): string {
    match kind
    case Environment => "environment"
    case File => "file"
    case Database => "database"
    case Bunyip => "bunyip"
  }

  // ---- The priority list ----

  /** A provider name to a kind; blank is not a name. */
  function ParseName(raw: string): Option<Kind> {
    var name := Trim(raw);
    if name == "environment" then Some(Environment)
    else if name == "file" then Some(File)
    else if name == "database" then Some(Database)
    else if name == "bunyip" then Some(Bunyip)
    else None
  }

  datatype ListError = Blank(entry: nat) | Unknown(name: string) | Twice(kind: Kind)

  datatype ListResult = Ok(kinds: seq<Kind>) | Err(error: ListError)

  /** `kinds` is the reading of the comma-separated parts, entry by entry, without a repetition. */
  ghost predicate Reads(parts: seq<string>, kinds: seq<Kind>) {
    && |kinds| == |parts|
    && (forall i :: 0 <= i < |parts| ==> ParseName(parts[i]) == Some(kinds[i]))
    && Distinct(kinds)
  }

  /** The first entry that cannot be read, and why. */
  ghost predicate FailsAt(parts: seq<string>, n: nat, error: ListError) {
    n < |parts| && exists kinds :: Reads(parts[..n], kinds) && Explains(parts[n], n, kinds, error)
  }

  /** `error` is what is wrong with the entry `part`, after the entries read as `kinds`. */
  predicate Explains(part: string, n: nat, kinds: seq<Kind>, error: ListError) {
    match error
    case Blank(entry) => entry == n + 1 && Trim(part) == ""
    case Unknown(name) => name == Trim(part) && name != "" && ParseName(part).None?
    case Twice(kind) => ParseName(part) == Some(kind) && kind in kinds
  }

  method ParseList(raw: string) returns (r: ListResult)
    ensures r.Ok? ==> Reads(Split(raw, ','), r.kinds)
    ensures r.Err? ==> exists n: nat :: FailsAt(Split(raw, ','), n, r.error)
  {
    var parts := Split(raw, ',');
    var kinds: seq<Kind> := [];
    for n := 0 to |parts|
      invariant Reads(parts[..n], kinds)
    {
      var trimmed := Trim(parts[n]);
      if trimmed == "" {
        assert FailsAt(parts, n, Blank(n + 1));
        return Err(Blank(n + 1));
      }
      var kind := ParseName(trimmed);
      TrimFixpoint(parts[n]);
      TrimFixpoint(trimmed);
      if kind.None? {
        assert FailsAt(parts, n, Unknown(trimmed));
        return Err(Unknown(trimmed));
      }
      if kind.value in kinds {
        assert FailsAt(parts, n, Twice(kind.value));
        return Err(Twice(kind.value));
      }
      kinds := kinds + [kind.value];
      assert parts[..n + 1] == parts[..n] + [parts[n]];
    }
    assert parts[..|parts|] == parts;
    return Ok(kinds);
  }

  lemma PrefixReading(parts: seq<string>, kinds: seq<Kind>, n: nat, prefix: seq<Kind>)
    requires n <= |parts|
    ensures Reads(parts, kinds) && Reads(parts[..n], prefix) ==> prefix == kinds[..n]
  {
    assert forall i :: 0 <= i < n ==> parts[..n][i] == parts[i];
  }

  /** A failing list has no reading at all, so the two outcomes exclude each other. */
  lemma FailingListHasNoReading(parts: seq<string>, n: nat, error: ListError, kinds: seq<Kind>)
    requires FailsAt(parts, n, error)
    ensures !Reads(parts, kinds)
  {
    var prefix :| Reads(parts[..n], prefix) && Explains(parts[n], n, prefix, error);
    PrefixReading(parts, kinds, n, prefix);
    TrimFixpoint(parts[n]);
  }

  function Names(kinds: seq<Kind>): (names: seq<string>)
    ensures |names| == |kinds|
    ensures forall i :: 0 <= i < |names| ==> names[i] == Name(kinds[i])
  {
    seq(|kinds|, i requires 0 <= i < |kinds| => Name(kinds[i]))
  }

  /**
  The readable lists are exactly the non-empty duplicate-free ones: every reading is
  one, and every such list is the reading of its own rendering.
  */
  lemma PriorityListsExactly(kinds: seq<Kind>)
    ensures (exists raw :: Reads(Split(raw, ','), kinds)) <==> kinds != [] && Distinct(kinds)
    ensures kinds != [] && Distinct(kinds) ==> Reads(Split(Join(Names(kinds), ','), ','), kinds)
  {
    if kinds != [] && Distinct(kinds) {
      forall i | 0 <= i < |kinds| ensures ',' !in Name(kinds[i]) && ParseName(Name(kinds[i])) == Some(kinds[i]) {
        NameRoundTrip(kinds[i]);
      }
      SplitJoin(Names(kinds), ',');
    }
  }

  lemma NameRoundTrip(kind: Kind)
    ensures ',' !in Name(kind) && ParseName(Name(kind)) == Some(kind)
  {
    TrimFixpoint(Name(kind));
    match kind {
      case Environment => assert Name(kind)[0] == 'e' && Name(kind)[10] == 't';
      case File => assert Name(kind)[0] == 'f' && Name(kind)[3] == 'e';
      case Database => assert Name(kind)[0] == 'd' && Name(kind)[7] == 'e';
      case Bunyip => assert Name(kind)[0] == 'b' && Name(kind)[5] == 'p';
    }
  }

  /** An entry is read as the kind whose name it is once the white space around it is gone. */
  lemma ReadsExactly(parts: seq<string>, kinds: seq<Kind>)
    ensures Reads(parts, kinds) <==>
            |kinds| == |parts| && Distinct(kinds) && forall i :: 0 <= i < |parts| ==> Trim(parts[i]) == Name(kinds[i])
  {
    forall raw, kind: Kind ensures ParseName(raw) == Some(kind) <==> Trim(raw) == Name(kind) {
      ParsedIsNamed(raw, kind);
    }
  }

  ghost predicate IsName(text: string) {
    exists kind :: text == Name(kind)
  }

  /**
  The error of a list is about its first entry that cannot be read, from the text of the
  entries: it is all white space, or names no kind, or a kind that an earlier entry names.
  */
  lemma ListErrorsSay(parts: seq<string>, n: nat, error: ListError)
    requires FailsAt(parts, n, error)
    ensures n < |parts|
    ensures forall j :: 0 <= j < n ==> IsName(Trim(parts[j]))
    ensures match error
            case Blank(entry) => entry == n + 1 && AllSpace(parts[n])
            case Unknown(name) => Padded(parts[n], name) && !IsName(name)
            case Twice(kind) =>
              Padded(parts[n], Name(kind)) && exists j :: 0 <= j < n && Trim(parts[j]) == Name(kind)
  {
    var kinds :| Reads(parts[..n], kinds) && Explains(parts[n], n, kinds, error);
    forall j | 0 <= j < n
      ensures Trim(parts[j]) == Name(kinds[j])
      ensures IsName(Trim(parts[j]))
    {
      assert parts[..n][j] == parts[j];
      ParsedIsNamed(parts[j], kinds[j]);
    }
    TrimIsEmptyIff(parts[n]);
    PaddedIff(parts[n], Trim(parts[n]));
    forall kind: Kind ensures ParseName(parts[n]) == Some(kind) <==> Trim(parts[n]) == Name(kind) {
      ParsedIsNamed(parts[n], kind);
    }
    if error.Twice? {
      assert Name(error.kind)[..1] != "";
      var j :| 0 <= j < |kinds| && kinds[j] == error.kind;
      assert Trim(parts[j]) == Name(kinds[j]);
    }
  }

  lemma ParsedIsNamed(raw: string, kind: Kind)
    ensures ParseName(raw) == Some(kind) <==> Trim(raw) == Name(kind)
  {
    NameRoundTrip(kind);
    TrimFixpoint(raw);
    TrimFixpoint(Name(kind));
    TrimFixpoint(Trim(raw));
    assert Trim(Trim(raw)) == Trim(raw);
  }

  // ---- Resolution ----

  /** One provider of the chain: its kind and what it holds. */
  datatype Layer = Layer(kind: Kind, held: Contents)

  datatype Resolution = Resolution(value: Option<string>, servedBy: Option<Kind>, alsoHeldBy: seq<Kind>)

  predicate Decodes(layer: Layer, key: string) {
    Get(layer.held, key).Some?
  }

  function Kinds(chain: seq<Layer>): (kinds: seq<Kind>)
    ensures |kinds| == |chain|
    ensures forall i :: 0 <= i < |kinds| ==> kinds[i] == chain[i].kind
  {
    seq(|chain|, i requires 0 <= i < |chain| => chain[i].kind)
  }

  /** `i` is the first provider that can decode `key`. */
  ghost predicate Serves(chain: seq<Layer>, key: string, i: nat) {
    i < |chain| && Decodes(chain[i], key) && NoneBefore(chain, key, i)
  }

  ghost predicate NoneBefore(chain: seq<Layer>, key: string, n: nat)
    requires n <= |chain|
  {
    forall j :: 0 <= j < n ==> !Decodes(chain[j], key)
  }

  ghost predicate NobodyDecodes(chain: seq<Layer>, key: string) {
    NoneBefore(chain, key, |chain|)
  }

  /** The kinds that hold `key`, decodable or not, in chain order. */
  function HolderKinds(chain: seq<Layer>, key: string): seq<Kind> {
    if chain == [] then []
    else
      var n := |chain| - 1;
      HolderKinds(chain[..n], key) + if key in chain[n].held then [chain[n].kind] else []
  }

  /** The result the walk must produce: the first decodable copy, and every other holder. */
  ghost predicate Resolves(chain: seq<Layer>, key: string, r: Resolution) {
    if NobodyDecodes(chain, key) then r == Resolution(None, None, HolderKinds(chain, key))
    else exists i :: Serves(chain, key, i) && r == ServedAt(chain, key, i)
  }

  ghost function ServedAt(chain: seq<Layer>, key: string, i: nat): Resolution
    requires i < |chain|
  {
    Resolution(Get(chain[i].held, key), Some(chain[i].kind), HolderKinds(chain[..i] + chain[i + 1..], key))
  }

  lemma HolderKindsAppend(chain: seq<Layer>, layer: Layer, key: string)
    ensures HolderKinds(chain + [layer], key)
         == HolderKinds(chain, key) + if key in layer.held then [layer.kind] else []
  {
    assert (chain + [layer])[..|chain|] == chain;
  }

  method Resolve(chain: seq<Layer>, key: string) returns (r: Resolution)
    ensures Resolves(chain, key, r)
  {
    var value: Option<string> := None;
    var servedBy: Option<Kind> := None;
    var alsoHeldBy: seq<Kind> := [];
    ghost var at: nat := 0;
    for n := 0 to |chain|
      invariant servedBy.None? ==> value.None? && NoneBefore(chain, key, n)
                                   && alsoHeldBy == HolderKinds(chain[..n], key)
      invariant servedBy.Some? ==> at < n && Serves(chain, key, at)
                                   && value == Get(chain[at].held, key) && servedBy == Some(chain[at].kind)
                                   && alsoHeldBy == HolderKinds(chain[..at] + chain[at + 1..n], key)
    {
      var layer := chain[n];
      assert chain[..n + 1] == chain[..n] + [layer];
      HolderKindsAppend(chain[..n], layer, key);
      if servedBy.Some? {
        assert chain[..at] + chain[at + 1..n + 1] == (chain[..at] + chain[at + 1..n]) + [layer];
        HolderKindsAppend(chain[..at] + chain[at + 1..n], layer, key);
      }
      if key in layer.held {
        var decoded := if servedBy.None? then Get(layer.held, key) else None;
        if decoded.Some? {
          assert chain[..n] + chain[n + 1..n + 1] == chain[..n];
          at := n;
          servedBy := Some(layer.kind);
          value := decoded;
        } else {
          alsoHeldBy := alsoHeldBy + [layer.kind];
        }
      }
    }
    assert chain[..|chain|] == chain;
    r := Resolution(value, servedBy, alsoHeldBy);
    if servedBy.Some? {
      assert chain[at + 1..|chain|] == chain[at + 1..];
      assert r == ServedAt(chain, key, at);
    }
  }

  /** There is one result, so the method computes a function of the chain. */
  lemma ResolvesUnique(chain: seq<Layer>, key: string, r: Resolution, r': Resolution)
    requires Resolves(chain, key, r) && Resolves(chain, key, r')
    ensures r == r'
  {
    if !NobodyDecodes(chain, key) {
      var i: nat :| Serves(chain, key, i) && r == ServedAt(chain, key, i);
      var j: nat :| Serves(chain, key, j) && r' == ServedAt(chain, key, j);
      assert i == j;
    }
  }

  /** The `x`-th listed holder is the provider at `at[x]`, in chain order, and none is left out. */
  ghost predicate ListedAt(chain: seq<Layer>, key: string, kinds: seq<Kind>, at: seq<nat>) {
    && |at| == |kinds| && Increasing(at)
    && (forall x :: 0 <= x < |at| ==> at[x] < |chain| && key in chain[at[x]].held && kinds[x] == chain[at[x]].kind)
    && (forall i: nat :: i < |chain| && key in chain[i].held ==> i in at)
  }

  lemma HolderOnTop(chain: seq<Layer>, layer: Layer, key: string, kinds: seq<Kind>, at: seq<nat>)
    requires ListedAt(chain, key, kinds, at) && key in layer.held
    ensures ListedAt(chain + [layer], key, kinds + [layer.kind], at + [|chain|])
  {
    var all := at + [|chain|];
    assert all[|at|] == |chain|;
    forall i: nat | i < |chain + [layer]| && key in (chain + [layer])[i].held ensures i in all {
      assert i < |chain| ==> i in at;
    }
  }

  lemma NoHolderOnTop(chain: seq<Layer>, layer: Layer, key: string, kinds: seq<Kind>, at: seq<nat>)
    requires ListedAt(chain, key, kinds, at) && key !in layer.held
    ensures ListedAt(chain + [layer], key, kinds, at)
  {
  }

  /** The holders are listed in the order of the chain. */
  lemma {:induction false} HolderKindsInOrder(chain: seq<Layer>, key: string) returns (at: seq<nat>)
    ensures ListedAt(chain, key, HolderKinds(chain, key), at)
  {
    if chain == [] {
      at := [];
    } else {
      var below, layer := chain[..|chain| - 1], chain[|chain| - 1];
      assert below + [layer] == chain;
      at := HolderKindsInOrder(below, key);
      HolderKindsAppend(below, layer, key);
      if key in layer.held {
        HolderOnTop(below, layer, key, HolderKinds(below, key), at);
        at := at + [|below|];
      } else {
        NoHolderOnTop(below, layer, key, HolderKinds(below, key), at);
      }
    }
  }

  /** Every listed kind holds the key, every holder is listed, and no kind is listed twice. */
  lemma HolderKindsExact(chain: seq<Layer>, key: string)
    ensures forall k :: k in HolderKinds(chain, key) <==>
              exists i :: 0 <= i < |chain| && chain[i].kind == k && key in chain[i].held
    ensures Distinct(Kinds(chain)) ==> Distinct(HolderKinds(chain, key))
  {
    var at := HolderKindsInOrder(chain, key);
    var kinds := HolderKinds(chain, key);
    forall i: nat | i < |chain| && key in chain[i].held ensures chain[i].kind in kinds {
      var x :| 0 <= x < |at| && at[x] == i;
      assert kinds[x] == chain[i].kind;
    }
    if Distinct(Kinds(chain)) {
      forall x, y | 0 <= x < y < |kinds| ensures kinds[x] != kinds[y] {
        assert Kinds(chain)[at[x]] != Kinds(chain)[at[y]];
      }
    }
  }

  /** The position of the serving provider, as a function. */
  function FirstDecodable(chain: seq<Layer>, key: string): Option<nat> {
    if chain == [] then None
    else
      var n := |chain| - 1;
      var before := FirstDecodable(chain[..n], key);
      if before.Some? then before else if Decodes(chain[n], key) then Some(n) else None
  }

  lemma {:induction false} FirstDecodableExact(chain: seq<Layer>, key: string)
    ensures FirstDecodable(chain, key).None? <==> NobodyDecodes(chain, key)
    ensures forall i: nat :: FirstDecodable(chain, key) == Some(i) <==> Serves(chain, key, i)
  {
    if chain != [] {
      var n := |chain| - 1;
      FirstDecodableExact(chain[..n], key);
      assert forall j :: 0 <= j < n ==> chain[..n][j] == chain[j];
      forall i: nat ensures FirstDecodable(chain, key) == Some(i) <==> Serves(chain, key, i) {
        assert i < n ==> (Serves(chain, key, i) <==> Serves(chain[..n], key, i));
      }
    }
  }

  function ServingKind(chain: seq<Layer>, key: string): Option<Kind> {
    var i := FirstDecodable(chain, key);
    if i.Some? && i.value < |chain| then Some(chain[i.value].kind) else None
  }

  function ServedValue(chain: seq<Layer>, key: string): Option<string> {
    var i := FirstDecodable(chain, key);
    if i.Some? && i.value < |chain| then Get(chain[i.value].held, key) else None
  }

  /** What the walk reports as served is what these say. */
  lemma ResolvesServes(chain: seq<Layer>, key: string, r: Resolution)
    requires Resolves(chain, key, r)
    ensures r.servedBy == ServingKind(chain, key) && r.value == ServedValue(chain, key)
  {
    FirstDecodableExact(chain, key);
  }

  // ---- Classification ----

  datatype Classification =
    | Used(serving: Kind)
    | Missing
    | Duplicate(serving: Kind, others: seq<Kind>)
    | HigherEmptyLowerHolds(first: Kind, serving: Kind, lowerOthers: seq<Kind>)

  function ClassifyResolution(r: Resolution, top: Option<Kind>): Classification {
    if r.servedBy.None? then Missing
    else if top.None? then Used(r.servedBy.value)
    else if r.servedBy == top then
      if r.alsoHeldBy == [] then Used(r.servedBy.value) else Duplicate(r.servedBy.value, r.alsoHeldBy)
    else HigherEmptyLowerHolds(top.value, r.servedBy.value, r.alsoHeldBy)
  }

  function Top(chain: seq<Layer>): Option<Kind> {
    if chain == [] then None else Some(chain[0].kind)
  }

  ghost predicate HeldBelow(chain: seq<Layer>, key: string) {
    exists i :: 0 < i < |chain| && key in chain[i].held
  }

  /** The four classes in terms of who decodes and who holds, for every readable priority list. */
  lemma ClassificationExact(chain: seq<Layer>, key: string, r: Resolution)
    requires Distinct(Kinds(chain)) && Resolves(chain, key, r)
    ensures var c := ClassifyResolution(r, Top(chain));
            && (c.Missing? <==> NobodyDecodes(chain, key))
            && (c.Used? <==> chain != [] && Decodes(chain[0], key) && !HeldBelow(chain, key))
            && (c.Duplicate? <==> chain != [] && Decodes(chain[0], key) && HeldBelow(chain, key))
            && (c.HigherEmptyLowerHolds? <==> chain != [] && !Decodes(chain[0], key) && !NobodyDecodes(chain, key))
            && (!c.Missing? ==> ServingKind(chain, key) == Some(c.serving))
            && (c.Duplicate? ==> c.others == HolderKinds(chain[1..], key))
            && (c.HigherEmptyLowerHolds? ==> c.first == chain[0].kind && c.lowerOthers == r.alsoHeldBy)
  {
    ResolvesServes(chain, key, r);
    FirstDecodableExact(chain, key);
    if !NobodyDecodes(chain, key) {
      var i: nat :| Serves(chain, key, i) && r == ServedAt(chain, key, i);
      ClassifiedAt(chain, key, i);
    }
  }

  lemma ClassifiedAt(chain: seq<Layer>, key: string, i: nat)
    requires Distinct(Kinds(chain)) && Serves(chain, key, i)
    ensures var c := ClassifyResolution(ServedAt(chain, key, i), Top(chain));
            c == if i > 0 then HigherEmptyLowerHolds(chain[0].kind, chain[i].kind, ServedAt(chain, key, i).alsoHeldBy)
                 else if HeldBelow(chain, key) then Duplicate(chain[0].kind, HolderKinds(chain[1..], key))
                 else Used(chain[0].kind)
  {
    if i > 0 {
      assert Kinds(chain)[0] != Kinds(chain)[i];
    } else {
      assert chain[..0] + chain[1..] == chain[1..];
      HeldBelowIff(chain, key);
    }
  }

  lemma HeldBelowIff(chain: seq<Layer>, key: string)
    requires chain != []
    ensures HeldBelow(chain, key) <==> HolderKinds(chain[1..], key) != []
  {
    var below := HolderKinds(chain[1..], key);
    HolderKindsExact(chain[1..], key);
    if HeldBelow(chain, key) {
      var j :| 0 < j < |chain| && key in chain[j].held;
      assert chain[1..][j - 1].kind in below;
    }
    if below != [] {
      assert below[0] in below;
      var j :| 0 <= j < |chain[1..]| && chain[1..][j].kind == below[0] && key in chain[1..][j].held;
      assert key in chain[j + 1].held;
    }
  }

  /**
  The extra holders of a key a lower provider serves are the still-lower ones exactly
  when nobody above holds a copy it cannot decode.
  */
  lemma LowerOthersAreLowerIff(chain: seq<Layer>, key: string, i: nat)
    requires Distinct(Kinds(chain)) && Serves(chain, key, i)
    ensures (forall k :: k in ServedAt(chain, key, i).alsoHeldBy ==>
               exists j :: i < j < |chain| && chain[j].kind == k)
       <==> forall j :: 0 <= j < i ==> key !in chain[j].held
  {
    var rest := chain[..i] + chain[i + 1..];
    HolderKindsExact(rest, key);
    assert forall m :: 0 <= m < i ==> rest[m] == chain[m];
    if forall j :: 0 <= j < i ==> key !in chain[j].held {
      forall k | k in HolderKinds(rest, key) ensures exists j :: i < j < |chain| && chain[j].kind == k {
        var m :| 0 <= m < |rest| && rest[m].kind == k && key in rest[m].held;
        assert rest[m] == chain[m + 1];
      }
    } else {
      var j :| 0 <= j < i && key in chain[j].held;
      assert rest[j] == chain[j];
      assert chain[j].kind in HolderKinds(rest, key);
      assert chain[j].kind in ServedAt(chain, key, i).alsoHeldBy;
      assert !exists m :: i < m < |chain| && chain[m].kind == chain[j].kind by {
        assert forall m :: i < m < |chain| ==> Kinds(chain)[j] != Kinds(chain)[m];
      }
    }
  }

  /** The chain that shows it: an undecodable environment value above a file that serves. */
  lemma LowerOthersCanBeHigher(key: string, value: string)
    ensures var chain := [Layer(Environment, map[key := Undecodable]), Layer(File, map[key := Readable(value)])];
            && Serves(chain, key, 1)
            && ServedAt(chain, key, 1) == Resolution(Some(value), Some(File), [Environment])
            && ClassifyResolution(ServedAt(chain, key, 1), Top(chain))
            == HigherEmptyLowerHolds(Environment, File, [Environment])
  {
    var chain := [Layer(Environment, map[key := Undecodable]), Layer(File, map[key := Readable(value)])];
    HolderKindsAppend([], chain[0], key);
    assert [] + [chain[0]] == chain[..1] + chain[1 + 1..];
  }
}
