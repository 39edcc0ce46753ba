/**
Application-tier secrets at boot: which provider each secret is declared to, the
survey of who holds what, the classification of every secret, and the enforcement
that ends the boot. A provider kind is its slot index, so the number of kinds and
the list of secrets are arbitrary.
*/
module Boot {
  import opened Base
  import opened Providers

  datatype Slot = Slot(held: Contents, writable: bool)

  /** `None` is a provider that was not built. */
  type Slots = seq<Option<Slot>>

  /** The process-wide selection and the per-secret table in front of it. */
  datatype Declarations = Declarations(process: nat, perSecret: seq<(string, nat)>)

  predicate Built(slots: Slots, kind: nat) {
    kind < |slots| && slots[kind].Some?
  }

  predicate Has(slots: Slots, kind: nat, secret: string) {
    Built(slots, kind) && secret in slots[kind].value.held
  }

  ghost predicate HeldSomewhere(slots: Slots, secret: string) {
    exists kind: nat :: Has(slots, kind, secret)
  }

  /** A secret provider never holds a value it cannot hand out. */
  ghost predicate AllReadable(slots: Slots) {
    forall kind: nat, s :: Has(slots, kind, s) ==> Get(slots[kind].value.held, s).Some?
  }

  // ---- Declarations ----

  predicate Overridden(table: seq<(string, nat)>, secret: string) {
    exists i :: 0 <= i < |table| && table[i].0 == secret
  }

  /** Row `i` is the first one of `secret`. */
  ghost predicate FirstRow<T>(table: seq<(string, T)>, secret: string, i: nat) {
    i < |table| && table[i].0 == secret && forall j :: 0 <= j < i ==> table[j].0 != secret
  }

  function FirstMatch(table: seq<(string, nat)>, secret: string, default: nat): nat {
    if table == [] then default
    else if table[0].0 == secret then table[0].1
    else FirstMatch(table[1..], secret, default)
  }

  /** The provider that serves one secret: its own declaration, else the process's. */
  function DeclaredFor(d: Declarations, secret: string): nat {
    FirstMatch(d.perSecret, secret, d.process)
  }

  /** The read path every feature uses. */
  function SecretGet(slots: Slots, d: Declarations, secret: string): Option<string> {
    var kind := DeclaredFor(d, secret);
    if Built(slots, kind) then Get(slots[kind].value.held, secret) else None
  }

  lemma {:induction false} FirstMatchIsInTable(table: seq<(string, nat)>, secret: string, default: nat)
    ensures if Overridden(table, secret)
            then exists i :: 0 <= i < |table| && table[i] == (secret, FirstMatch(table, secret, default))
            else FirstMatch(table, secret, default) == default
    ensures forall i: nat :: FirstRow(table, secret, i) ==> FirstMatch(table, secret, default) == table[i].1
  {
    if table != [] && table[0].0 != secret {
      FirstMatchIsInTable(table[1..], secret, default);
      forall i: nat | FirstRow(table, secret, i) ensures FirstMatch(table, secret, default) == table[i].1 {
        assert FirstRow(table[1..], secret, i - 1);
      }
      if Overridden(table, secret) {
        var i :| 0 <= i < |table| && table[i].0 == secret;
        assert table[1..][i - 1].0 == secret;
        var j :| 0 <= j < |table[1..]| && table[1..][j] == (secret, FirstMatch(table[1..], secret, default));
        assert table[j + 1] == (secret, FirstMatch(table, secret, default));
      } else {
        assert forall i :: 0 <= i < |table[1..]| ==> table[1..][i] == table[i + 1];
      }
    } else if table != [] {
      assert table[0] == (secret, FirstMatch(table, secret, default));
    }
  }

  /** The default only matters for secrets without a row of their own. */
  lemma {:induction false} FirstMatchDefault(table: seq<(string, nat)>, secret: string, a: nat, b: nat)
    ensures Overridden(table, secret) ==> FirstMatch(table, secret, a) == FirstMatch(table, secret, b)
  {
    if table != [] && table[0].0 != secret {
      FirstMatchDefault(table[1..], secret, a, b);
      if Overridden(table, secret) {
        var i :| 0 <= i < |table| && table[i].0 == secret;
        assert table[1..][i - 1].0 == secret;
      }
    }
  }

  function Retain(table: seq<(string, nat)>, secret: string): seq<(string, nat)> {
    if table == [] then []
    else (if table[0].0 == secret then [] else [table[0]]) + Retain(table[1..], secret)
  }

  /** Replace whatever rows `secret` had with one. */
  function Declaring(d: Declarations, secret: string, kind: nat): Declarations {
    d.(perSecret := Retain(d.perSecret, secret) + [(secret, kind)])
  }

  lemma {:induction false} RetainThenAppend(table: seq<(string, nat)>, secret: string, kind: nat,
                                            s: string, default: nat)
    ensures FirstMatch(Retain(table, secret) + [(secret, kind)], s, default)
         == if s == secret then kind else FirstMatch(table, s, default)
  {
    var row := [(secret, kind)];
    if table == [] {
      assert Retain(table, secret) + row == row;
    } else {
      RetainThenAppend(table[1..], secret, kind, s, default);
      var rest := Retain(table[1..], secret) + row;
      if table[0].0 == secret {
        assert Retain(table, secret) + row == rest;
      } else {
        assert Retain(table, secret) + row == [table[0]] + rest;
        assert ([table[0]] + rest)[1..] == rest;
      }
    }
  }

  /** `declaring` moves exactly one secret. */
  lemma DeclaringMovesOneSecret(d: Declarations, secret: string, kind: nat, s: string)
    ensures DeclaredFor(Declaring(d, secret, kind), s) == if s == secret then kind else DeclaredFor(d, s)
  {
    RetainThenAppend(d.perSecret, secret, kind, s, d.process);
  }

  /**
  The hosting profile's table as boot reads it: every provider name has to parse
  (`None` is a name that does not), or the boot ends.
  */
  function BootTable(defaults: seq<(string, Option<nat>)>): Option<seq<(string, nat)>> {
    if defaults == [] then Some([])
    else if defaults[0].1.None? then None
    else
      var rest := BootTable(defaults[1..]);
      if rest.None? then None else Some([(defaults[0].0, defaults[0].1.value)] + rest.value)
  }

  /** Boot reads the rows in order, or refuses a table with any provider name it cannot read. */
  lemma {:induction false} BootTableExactly(defaults: seq<(string, Option<nat>)>)
    ensures BootTable(defaults).None? <==> exists i :: 0 <= i < |defaults| && defaults[i].1.None?
    ensures BootTable(defaults).Some? ==>
              && |BootTable(defaults).value| == |defaults|
              && forall i :: 0 <= i < |defaults| ==>
                   (BootTable(defaults).value[i].0, Some(BootTable(defaults).value[i].1)) == defaults[i]
  {
    if defaults != [] {
      BootTableExactly(defaults[1..]);
      if i :| 0 <= i < |defaults| && defaults[i].1.None? {
        assert i > 0 ==> defaults[1..][i - 1].1.None?;
      }
    }
  }

  /**
  `provider-set`'s own scan of the same table: the first row of the secret decides, even
  when boot would refuse a later one; without a row it is the process-wide selection.
  */
  method DeclaredForSecret(defaults: seq<(string, Option<nat>)>, selection: nat, secret: string)
    returns (r: Option<nat>)
    ensures BootTable(defaults).Some? ==>
              r == Some(DeclaredFor(Declarations(selection, BootTable(defaults).value), secret))
    ensures r.None? ==> BootTable(defaults).None?
    ensures forall i: nat :: FirstRow(defaults, secret, i) ==> r == defaults[i].1
    ensures (forall i :: 0 <= i < |defaults| ==> defaults[i].0 != secret) ==> r == Some(selection)
  {
    ghost var table := BootTable(defaults);
    for i := 0 to |defaults|
      invariant forall j :: 0 <= j < i ==> defaults[j].0 != secret
      invariant table.Some? ==>
                  && BootTable(defaults[i..]).Some?
                  && FirstMatch(table.value, secret, selection)
                  == FirstMatch(BootTable(defaults[i..]).value, secret, selection)
    {
      assert defaults[i..][0] == defaults[i] && defaults[i..][1..] == defaults[i + 1..];
      if defaults[i].0 == secret {
        assert forall j: nat :: FirstRow(defaults, secret, j) ==> j == i;
        return defaults[i].1;
      }
      ghost var rest := BootTable(defaults[i + 1..]);
      assert rest.Some? && defaults[i].1.Some? ==>
          BootTable(defaults[i..]).value[1..] == rest.value;
    }
    r := Some(selection);
  }

  // ---- Survey ----

  datatype SurveyRow = SurveyRow(secret: string, holders: seq<nat>, declared: nat, declaredBuilt: bool)

  /** The first `n` kinds that hold `secret`, in kind order. */
  function Holders(slots: Slots, secret: string, n: nat): seq<nat> {
    if n == 0 then []
    else Holders(slots, secret, n - 1) + if Has(slots, n - 1, secret) then [n - 1] else []
  }

  lemma {:induction false} HoldersExact(slots: Slots, secret: string, n: nat)
    ensures forall kind: nat :: kind in Holders(slots, secret, n) <==> kind < n && Has(slots, kind, secret)
    ensures Increasing(Holders(slots, secret, n))
  {
    if n != 0 {
      HoldersExact(slots, secret, n - 1);
      var before := Holders(slots, secret, n - 1);
      assert forall i :: 0 <= i < |before| ==> before[i] in before;
    }
  }

  function Row(slots: Slots, d: Declarations, secret: string): SurveyRow {
    var declared := DeclaredFor(d, secret);
    SurveyRow(secret, Holders(slots, secret, |slots|), declared, Built(slots, declared))
  }

  function FromCurrent(slots: Slots, d: Declarations, secrets: seq<string>): (rows: seq<SurveyRow>)
    ensures |rows| == |secrets|
    ensures forall i :: 0 <= i < |rows| ==> rows[i] == Row(slots, d, secrets[i])
  {
    seq(|secrets|, i requires 0 <= i < |secrets| => Row(slots, d, secrets[i]))
  }

  // ---- Classification ----

  datatype Classification =
    | Used
    | Missing
    | Shadowed(elsewhere: seq<nat>)
    | Misplaced(elsewhere: seq<nat>)
    | Unavailable
  {
    predicate Fatal() { Misplaced? || Unavailable? }
  }

  function Without(kinds: seq<nat>, kind: nat): (r: seq<nat>)
    ensures forall k :: k in r <==> k in kinds && k != kind
  {
    if kinds == [] then []
    else (if kinds[0] == kind then [] else [kinds[0]]) + Without(kinds[1..], kind)
  }

  lemma {:induction false} WithoutKeepsOrder(kinds: seq<nat>, kind: nat)
    requires Increasing(kinds)
    ensures Increasing(Without(kinds, kind))
  {
    if kinds != [] {
      WithoutKeepsOrder(kinds[1..], kind);
      var rest := Without(kinds[1..], kind);
      if kinds[0] == kind {
        assert [] + rest == rest;
      } else {
        assert forall x :: x in kinds[1..] ==> kinds[0] < x;
        IncreasingBehind(kinds[0], rest);
      }
    }
  }

  function ClassifyBuilt(declared: nat, holders: seq<nat>, declaredBuilt: bool): Classification {
    if !declaredBuilt then Unavailable
    else
      var elsewhere := Without(holders, declared);
      match (declared in holders, elsewhere == [])
      case (true, true) => Used
      case (true, false) => Shadowed(elsewhere)
      case (false, true) => Missing
      case (false, false) => Misplaced(elsewhere)
  }

  function Classify(slots: Slots, d: Declarations, secret: string): Classification {
    var row := Row(slots, d, secret);
    ClassifyBuilt(row.declared, row.holders, row.declaredBuilt)
  }

  /** The five classes in terms of who holds the secret. */
  lemma ClassifyExact(slots: Slots, d: Declarations, secret: string)
    ensures var own := DeclaredFor(d, secret);
            var other := exists k: nat :: k != own && Has(slots, k, secret);
            var c := Classify(slots, d, secret);
            && (c.Unavailable? <==> !Built(slots, own))
            && (c.Used? <==> Has(slots, own, secret) && !other)
            && (c.Shadowed? <==> Has(slots, own, secret) && other)
            && (c.Missing? <==> Built(slots, own) && !HeldSomewhere(slots, secret))
            && (c.Misplaced? <==> Built(slots, own) && !Has(slots, own, secret) && other)
    ensures var c := Classify(slots, d, secret);
            c.Shadowed? || c.Misplaced? ==>
              forall k: nat :: k in c.elsewhere <==> k != DeclaredFor(d, secret) && Has(slots, k, secret)
  {
    HoldersExact(slots, secret, |slots|);
    var own := DeclaredFor(d, secret);
    var elsewhere := Without(Holders(slots, secret, |slots|), own);
    if elsewhere != [] {
      assert elsewhere[0] in elsewhere;
      assert Has(slots, elsewhere[0], secret);
    }
    forall k: nat | k != own && Has(slots, k, secret) ensures k in elsewhere {}
  }

  /** The other holders are named in kind order. */
  lemma ElsewhereInOrder(slots: Slots, d: Declarations, secret: string)
    ensures var c := Classify(slots, d, secret);
            c.Shadowed? || c.Misplaced? ==> Increasing(c.elsewhere)
  {
    HoldersExact(slots, secret, |slots|);
    WithoutKeepsOrder(Holders(slots, secret, |slots|), DeclaredFor(d, secret));
  }

  // ---- Enforcement ----

  function FatalSecrets(rows: seq<SurveyRow>): seq<string> {
    if rows == [] then []
    else
      var n := |rows| - 1;
      var r := rows[n];
      FatalSecrets(rows[..n])
      + if ClassifyBuilt(r.declared, r.holders, r.declaredBuilt).Fatal() then [r.secret] else []
  }

  lemma {:induction false} NothingFatalIff(rows: seq<SurveyRow>)
    ensures FatalSecrets(rows) == [] <==>
            forall i :: 0 <= i < |rows| ==>
              !ClassifyBuilt(rows[i].declared, rows[i].holders, rows[i].declaredBuilt).Fatal()
  {
    if rows != [] {
      var n := |rows| - 1;
      NothingFatalIff(rows[..n]);
      assert forall i :: 0 <= i < n ==> rows[..n][i] == rows[i];
    }
  }

  /** The deployment lets this secret boot. */
  ghost predicate Fine(slots: Slots, d: Declarations, secret: string) {
    && Built(slots, DeclaredFor(d, secret))
    && (HeldSomewhere(slots, secret) ==> Has(slots, DeclaredFor(d, secret), secret))
  }

  /** The secrets the deployment does not let boot, in order. */
  ghost function NotFine(slots: Slots, d: Declarations, secrets: seq<string>): seq<string> {
    if secrets == [] then []
    else
      var n := |secrets| - 1;
      NotFine(slots, d, secrets[..n]) + if Fine(slots, d, secrets[n]) then [] else [secrets[n]]
  }

  /** A boot that ends names exactly those secrets, in order. */
  lemma {:induction false} FatalSecretsExactly(slots: Slots, d: Declarations, secrets: seq<string>)
    ensures FatalSecrets(FromCurrent(slots, d, secrets)) == NotFine(slots, d, secrets)
  {
    if secrets != [] {
      var n := |secrets| - 1;
      FatalSecretsExactly(slots, d, secrets[..n]);
      assert FromCurrent(slots, d, secrets)[..n] == FromCurrent(slots, d, secrets[..n]);
      ClassifyExact(slots, d, secrets[n]);
    }
  }

  /** Walk the survey and collect the secrets that end the boot. */
  method Enforce(rows: seq<SurveyRow>) returns (fatal: seq<string>)
    ensures fatal == FatalSecrets(rows)
  {
    fatal := [];
    for n := 0 to |rows|
      invariant fatal == FatalSecrets(rows[..n])
    {
      var row := rows[n];
      assert rows[..n + 1][..n] == rows[..n];
      match ClassifyBuilt(row.declared, row.holders, row.declaredBuilt) {
        case Used | Missing | Shadowed(_) =>
        case Misplaced(_) => fatal := fatal + [row.secret];
        case Unavailable => fatal := fatal + [row.secret];
      }
    }
    assert rows[..|rows|] == rows;
  }

  /** Every declared provider is built, and holds the secret whenever anybody does. */
  ghost predicate Accepted(slots: Slots, d: Declarations, secrets: seq<string>) {
    forall s :: s in secrets ==> Fine(slots, d, s)
  }

  /** Survey, classify, enforce: the boot goes on exactly when `Accepted` holds. */
  method BootCheck(slots: Slots, d: Declarations, secrets: seq<string>) returns (ok: bool)
    ensures ok <==> Accepted(slots, d, secrets)
  {
    var rows := FromCurrent(slots, d, secrets);
    var fatal := Enforce(rows);
    ok := fatal == [];
    NothingFatalIff(rows);
    forall i | 0 <= i < |secrets| ensures !Classify(slots, d, secrets[i]).Fatal() <==> Fine(slots, d, secrets[i]) {
      ClassifyExact(slots, d, secrets[i]);
    }
    assert forall i :: 0 <= i < |rows| ==> rows[i] == Row(slots, d, secrets[i]);
  }

  /** After an accepted boot the read path answers exactly when some built provider holds the secret. */
  lemma AcceptedBootServes(slots: Slots, d: Declarations, secrets: seq<string>, s: string)
    requires Accepted(slots, d, secrets) && AllReadable(slots) && s in secrets
    ensures SecretGet(slots, d, s).Some? <==> HeldSomewhere(slots, s)
  {
    if SecretGet(slots, d, s).Some? {
      assert Has(slots, DeclaredFor(d, s), s);
    }
  }

  /** The status report names a serving provider exactly for the secrets that can be read. */
  function ServedBy(row: SurveyRow): Option<nat> {
    if row.declaredBuilt && row.declared in row.holders then Some(row.declared) else None
  }

  lemma StatusMatchesReads(slots: Slots, d: Declarations, s: string)
    requires AllReadable(slots)
    ensures ServedBy(Row(slots, d, s)).Some? <==> SecretGet(slots, d, s).Some?
    ensures ServedBy(Row(slots, d, s)).Some? ==>
              SecretGet(slots, d, s) == Get(slots[ServedBy(Row(slots, d, s)).value].value.held, s)
  {
    HoldersExact(slots, s, |slots|);
  }
}
