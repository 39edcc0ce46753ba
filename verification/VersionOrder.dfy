/**
The version comparison of the self-hosted update check: how a version string is
reduced to release components, and the order on the result.
*/
module VersionOrder {
  import opened Text

  const U64_LIMIT: nat := 0x1_0000_0000_0000_0000

  // ---- Parsing ----

  function DropLeadingV(s: string): string {
    if s != [] && s[0] == 'v' then DropLeadingV(s[1..]) else s
  }

  predicate StartsMetadata(c: char) {
    c == '-' || c == '+'
  }

  /** Everything before the first `-` or `+`. */
  function Core(s: string): string {
    if s == [] || StartsMetadata(s[0]) then [] else [s[0]] + Core(s[1..])
  }

  predicate IsDigit(c: char) {
    '0' <= c <= '9'
  }

  predicate AllDigits(s: string) {
    forall i :: 0 <= i < |s| ==> IsDigit(s[i])
  }

  function Decimal(s: string): nat
    requires AllDigits(s)
  {
    if s == [] then 0 else 10 * Decimal(s[..|s| - 1]) + (s[|s| - 1] as int - '0' as int)
  }

  /** A component that is not a 64-bit number counts as 0. */
  function Component(s: string): nat {
    if s == [] || !AllDigits(s) || Decimal(s) >= U64_LIMIT then 0 else Decimal(s)
  }

  function Components(parts: seq<string>): (r: seq<nat>)
    ensures |r| == |parts|
    ensures forall i :: 0 <= i < |r| ==> r[i] == Component(parts[i])
  {
    seq(|parts|, i requires 0 <= i < |parts| => Component(parts[i]))
  }

  function ParseVersion(v: string): (r: seq<nat>)
    ensures |r| >= 1
  {
    Components(Split(Core(DropLeadingV(Trim(v))), '.'))
  }

  // ---- Rendering ----

  function Digit(d: nat): char
    requires d < 10
  {
    ('0' as int + d) as char
  }

  function Digits(n: nat): string {
    if n < 10 then [Digit(n)] else Digits(n / 10) + [Digit(n % 10)]
  }

  lemma {:induction false} DigitsRead(n: nat)
    ensures Digits(n) != [] && AllDigits(Digits(n)) && Decimal(Digits(n)) == n
  {
    if n < 10 {
      assert [Digit(n)][..0] == [];
    } else {
      DigitsRead(n / 10);
      assert Digits(n)[..|Digits(n)| - 1] == Digits(n / 10);
    }
  }

  function Parts(v: seq<nat>): (r: seq<string>)
    ensures |r| == |v|
    ensures forall i :: 0 <= i < |r| ==> r[i] == Digits(v[i])
  {
    seq(|v|, i requires 0 <= i < |v| => Digits(v[i]))
  }

  function Render(v: seq<nat>): string
    requires v != []
  {
    Join(Parts(v), '.')
  }

  predicate NumberText(s: string) {
    forall i :: 0 <= i < |s| ==> IsDigit(s[i]) || s[i] == '.'
  }

  lemma {:induction false} JoinIsNumberText(parts: seq<string>)
    requires |parts| >= 1 && forall i :: 0 <= i < |parts| ==> parts[i] != [] && AllDigits(parts[i])
    ensures NumberText(Join(parts, '.'))
    ensures var s := Join(parts, '.'); s != [] && IsDigit(s[0]) && IsDigit(s[|s| - 1])
  {
    if |parts| > 1 {
      JoinIsNumberText(parts[1..]);
    }
  }

  lemma {:induction false} NumberTextIsCore(s: string)
    requires NumberText(s)
    ensures Core(s) == s
  {
    if s != [] {
      NumberTextIsCore(s[1..]);
    }
  }

  /** Reading a rendered version gives back its 64-bit components, and 0 for larger ones, after any `v`s. */
  lemma RenderRoundTrip(v: seq<nat>, vs: string)
    requires v != [] && forall i :: 0 <= i < |vs| ==> vs[i] == 'v'
    ensures var r := ParseVersion(vs + Render(v));
            |r| == |v| && forall i :: 0 <= i < |v| ==> r[i] == if v[i] < 18446744073709551616 then v[i] else 0
  {
    var text := Render(v);
    RenderedText(v);
    TrimmedAfterVs(vs, text);
    TrimFixpoint(vs + text);
    DropsEveryV(vs, text);
    NumberTextIsCore(text);
    SplitJoin(Parts(v), '.');
    assert ParseVersion(vs + text) == Components(Parts(v));
    forall i | 0 <= i < |v| ensures Component(Parts(v)[i]) == if v[i] < 18446744073709551616 then v[i] else 0 {
      DigitsRead(v[i]);
    }
  }

  lemma RenderedText(v: seq<nat>)
    requires v != []
    ensures forall i :: 0 <= i < |v| ==> '.' !in Parts(v)[i]
    ensures NumberText(Render(v))
    ensures var s := Render(v); s != [] && IsDigit(s[0]) && IsDigit(s[|s| - 1])
  {
    forall i | 0 <= i < |v| ensures Parts(v)[i] != [] && AllDigits(Parts(v)[i]) && '.' !in Parts(v)[i] {
      DigitsRead(v[i]);
    }
    JoinIsNumberText(Parts(v));
  }

  lemma TrimmedAfterVs(vs: string, s: string)
    requires (forall i :: 0 <= i < |vs| ==> vs[i] == 'v') && s != [] && IsDigit(s[0]) && IsDigit(s[|s| - 1])
    ensures Trimmed(vs + s)
  {
    assert (vs + s)[|vs + s| - 1] == s[|s| - 1];
  }

  lemma {:induction false} DropsEveryV(vs: string, s: string)
    requires (forall i :: 0 <= i < |vs| ==> vs[i] == 'v') && s != [] && s[0] != 'v'
    ensures DropLeadingV(vs + s) == s
  {
    if vs == [] {
      assert vs + s == s;
    } else {
      DropsEveryV(vs[1..], s);
      assert (vs + s)[1..] == vs[1..] + s;
    }
  }

  predicate Zeros(s: string) {
    forall i :: 0 <= i < |s| ==> s[i] == '0'
  }

  /** A number text is its value's digits after leading zeros. */
  lemma {:induction false} DecimalDigits(s: string) returns (zeros: string)
    requires AllDigits(s) && Decimal(s) > 0
    ensures Zeros(zeros) && s == zeros + Digits(Decimal(s))
  {
    var n := |s| - 1;
    var d := s[n] as int - '0' as int;
    assert Digit(d) == s[n];
    if Decimal(s[..n]) == 0 {
      zeros := s[..n];
      ZeroIsZeros(zeros);
      assert s == zeros + [s[n]];
    } else {
      zeros := DecimalDigits(s[..n]);
      assert s == (zeros + Digits(Decimal(s[..n]))) + [s[n]];
      assert s == zeros + (Digits(Decimal(s[..n])) + [s[n]]);
    }
  }

  lemma {:induction false} ZeroIsZeros(s: string)
    requires AllDigits(s)
    ensures Decimal(s) == 0 <==> Zeros(s)
  {
    if s != [] {
      ZeroIsZeros(s[..|s| - 1]);
    }
  }

  lemma {:induction false} ZerosAddNothing(zeros: string, s: string)
    requires Zeros(zeros) && AllDigits(s)
    ensures AllDigits(zeros + s) && Decimal(zeros + s) == Decimal(s)
  {
    if s == [] {
      assert zeros + s == zeros;
      ZeroIsZeros(zeros);
    } else {
      ZerosAddNothing(zeros, s[..|s| - 1]);
      assert (zeros + s)[..|zeros + s| - 1] == zeros + s[..|s| - 1];
    }
  }

  ghost predicate Spells(s: string, n: nat) {
    exists zeros :: Zeros(zeros) && s == zeros + Digits(n)
  }

  /**
  A component counts for the 64-bit number it spells in decimal, leading zeros allowed;
  every other text, a larger number included, counts for nothing.
  */
  lemma ComponentExactly(s: string, n: nat)
    requires n > 0
    ensures Component(s) == n <==> n < 18446744073709551616 && Spells(s, n)
  {
    if Spells(s, n) {
      var zeros :| Zeros(zeros) && s == zeros + Digits(n);
      DigitsRead(n);
      ZerosAddNothing(zeros, Digits(n));
    }
    if Component(s) == n {
      var zeros := DecimalDigits(s);
    }
  }

  // ---- The order ----

  /** A component by position; a missing one is 0. */
  function At(v: seq<nat>, i: nat): nat {
    if i < |v| then v[i] else 0
  }

  ghost predicate DiffersFirstAt(a: seq<nat>, b: seq<nat>, i: nat) {
    At(a, i) != At(b, i) && forall j: nat :: j < i ==> At(a, j) == At(b, j)
  }

  /** Lexicographic order on the components, extended by zeros for ever. */
  ghost predicate Higher(a: seq<nat>, b: seq<nat>) {
    exists i: nat :: DiffersFirstAt(a, b, i) && At(a, i) > At(b, i)
  }

  ghost predicate SameRelease(a: seq<nat>, b: seq<nat>) {
    forall i: nat :: At(a, i) == At(b, i)
  }

  method IsNewer(latest: string, current: string) returns (newer: bool)
    ensures newer <==> Higher(ParseVersion(latest), ParseVersion(current))
  {
    var l, c := ParseVersion(latest), ParseVersion(current);
    var n := if |l| > |c| then |l| else |c|;
    for i := 0 to n
      invariant forall j: nat :: j < i ==> At(l, j) == At(c, j)
    {
      var lv, cv := At(l, i), At(c, i);
      if lv != cv {
        assert DiffersFirstAt(l, c, i);
        FirstDifferenceIsUnique(l, c, i);
        return lv > cv;
      }
    }
    newer := false;
  }

  lemma FirstDifferenceIsUnique(a: seq<nat>, b: seq<nat>, i: nat)
    requires DiffersFirstAt(a, b, i)
    ensures Higher(a, b) <==> At(a, i) > At(b, i)
    ensures forall j: nat :: DiffersFirstAt(a, b, j) ==> j == i
  {
    forall j: nat | DiffersFirstAt(a, b, j) ensures j == i {
      assert !(j < i) && !(i < j);
    }
  }

  lemma FirstDifference(a: seq<nat>, b: seq<nat>) returns (i: nat)
    requires !SameRelease(a, b)
    ensures DiffersFirstAt(a, b, i)
  {
    var k: nat :| At(a, k) != At(b, k);
    i := 0;
    while At(a, i) == At(b, i)
      invariant i <= k && forall j: nat :: j < i ==> At(a, j) == At(b, j)
      decreases k - i
    {
      i := i + 1;
    }
  }

  /** Of two versions exactly one is newer, or neither is and they are the same release. */
  lemma Trichotomy(a: seq<nat>, b: seq<nat>)
    ensures !Higher(a, b) && !Higher(b, a) <==> SameRelease(a, b)
    ensures !(Higher(a, b) && Higher(b, a))
  {
    if !SameRelease(a, b) {
      var i := FirstDifference(a, b);
      FirstDifferenceIsUnique(a, b, i);
      assert DiffersFirstAt(b, a, i);
      FirstDifferenceIsUnique(b, a, i);
    }
  }

  lemma HigherIsTransitive(a: seq<nat>, b: seq<nat>, c: seq<nat>)
    requires Higher(a, b) && Higher(b, c)
    ensures Higher(a, c)
  {
    var i: nat :| DiffersFirstAt(a, b, i) && At(a, i) > At(b, i);
    var j: nat :| DiffersFirstAt(b, c, j) && At(b, j) > At(c, j);
    var k := if i < j then i else j;
    assert DiffersFirstAt(a, c, k) && At(a, k) > At(c, k);
  }

  /** The same release answers the same on either side of the comparison. */
  lemma SameReleaseSameAnswers(a: seq<nat>, a': seq<nat>, b: seq<nat>)
    requires SameRelease(a, a')
    ensures Higher(a, b) <==> Higher(a', b)
    ensures Higher(b, a) <==> Higher(b, a')
  {
    assert forall i: nat :: DiffersFirstAt(a, b, i) <==> DiffersFirstAt(a', b, i);
    assert forall i: nat :: DiffersFirstAt(b, a, i) <==> DiffersFirstAt(b, a', i);
    if Higher(a, b) {
      var i: nat :| DiffersFirstAt(a, b, i) && At(a, i) > At(b, i);
      assert DiffersFirstAt(a', b, i);
    }
    if Higher(a', b) {
      var i: nat :| DiffersFirstAt(a', b, i) && At(a', i) > At(b, i);
      assert DiffersFirstAt(a, b, i);
    }
    if Higher(b, a) {
      var i: nat :| DiffersFirstAt(b, a, i) && At(b, i) > At(a, i);
      assert DiffersFirstAt(b, a', i);
    }
    if Higher(b, a') {
      var i: nat :| DiffersFirstAt(b, a', i) && At(b, i) > At(a', i);
      assert DiffersFirstAt(b, a, i);
    }
  }

  ghost predicate Newer(latest: string, current: string) {
    Higher(ParseVersion(latest), ParseVersion(current))
  }

  /**
  "Is newer" is a strict weak order on all strings: irreflexive, asymmetric,
  transitive, and "neither is newer" is transitive too.
  */
  lemma NewerIsAStrictWeakOrder(u: string, v: string, w: string)
    ensures !Newer(u, u)
    ensures !(Newer(u, v) && Newer(v, u))
    ensures Newer(u, v) && Newer(v, w) ==> Newer(u, w)
    ensures !Newer(u, v) && !Newer(v, u) && !Newer(v, w) && !Newer(w, v) ==> !Newer(u, w) && !Newer(w, u)
  {
    var a, b, c := ParseVersion(u), ParseVersion(v), ParseVersion(w);
    Trichotomy(a, b);
    Trichotomy(b, c);
    Trichotomy(a, c);
    if Higher(a, b) && Higher(b, c) {
      HigherIsTransitive(a, b, c);
    }
  }

  // ---- Suffixes that carry no release information ----

  /** A further zero component, or pre-release or build metadata. */
  predicate CarriesNothing(suffix: string) {
    suffix == ".0" || (suffix != [] && (suffix[0] == '-' || suffix[0] == '+'))
  }

  predicate HasMetadata(s: string) {
    exists i :: 0 <= i < |s| && StartsMetadata(s[i])
  }

  ghost predicate SameAnswers(v: string, v': string) {
    forall u :: (Newer(v, u) <==> Newer(v', u)) && (Newer(u, v) <==> Newer(u, v'))
  }

  lemma SameAnswersIff(v: string, v': string)
    ensures SameAnswers(v, v') <==> SameRelease(ParseVersion(v), ParseVersion(v'))
  {
    var a, a' := ParseVersion(v), ParseVersion(v');
    if SameRelease(a, a') {
      forall u ensures (Newer(v, u) <==> Newer(v', u)) && (Newer(u, v) <==> Newer(u, v')) {
        SameReleaseSameAnswers(a, a', ParseVersion(u));
      }
    } else {
      Trichotomy(a, a');
      Trichotomy(a, a);
      assert (Newer(v, v) <==> Newer(v', v)) && (Newer(v, v) <==> Newer(v, v')) ==> SameRelease(a, a');
    }
  }

  lemma {:induction false} TrimStartAppend(s: string, t: string)
    requires t != [] && !IsSpace(t[0])
    ensures TrimStart(s + t) == TrimStart(s) + t
  {
    if s == [] {
      assert s + t == t;
    } else if IsSpace(s[0]) {
      TrimStartAppend(s[1..], t);
      assert (s + t)[1..] == s[1..] + t;
    }
  }

  lemma {:induction false} DropLeadingVAppend(s: string, t: string)
    requires t == [] || t[0] != 'v'
    ensures DropLeadingV(s + t) == DropLeadingV(s) + t
  {
    if s == [] {
      assert s + t == t;
    } else if s[0] == 'v' {
      DropLeadingVAppend(s[1..], t);
      assert (s + t)[1..] == s[1..] + t;
    }
  }

  /** Dropping leading `v`s keeps every other character. */
  lemma {:induction false} DropLeadingVKeeps(s: string)
    ensures HasMetadata(DropLeadingV(s)) <==> HasMetadata(s)
  {
    if s != [] && s[0] == 'v' {
      DropLeadingVKeeps(s[1..]);
      if HasMetadata(s) {
        var i :| 0 <= i < |s| && StartsMetadata(s[i]);
        assert s[1..][i - 1] == s[i];
      }
    }
  }

  lemma {:induction false} CoreAppend(s: string, t: string)
    ensures Core(s + t) == if HasMetadata(s) then Core(s) else s + Core(t)
  {
    if s == [] {
      assert s + t == t;
    } else {
      CoreAppend(s[1..], t);
      assert (s + t)[1..] == s[1..] + t;
      if HasMetadata(s) && !StartsMetadata(s[0]) {
        var i :| 0 <= i < |s| && StartsMetadata(s[i]);
        assert s[1..][i - 1] == s[i];
      }
      if !HasMetadata(s) {
        assert forall i :: 0 <= i < |s[1..]| ==> s[1..][i] == s[i + 1];
        assert [s[0]] + (s[1..] + Core(t)) == s + Core(t);
      }
    }
  }

  /** `parts` with `t` glued to the last one. */
  function GlueLast(parts: seq<string>, t: string): seq<string>
    requires |parts| >= 1
  {
    parts[..|parts| - 1] + [parts[|parts| - 1] + t]
  }

  lemma {:induction false} SplitAppend(s: string, t: string, c: char)
    requires c !in t
    ensures Split(s + t, c) == GlueLast(Split(s, c), t)
  {
    if s == [] {
      SplitPrefix(t, [], c);
      assert s + t == t && t + [] == t && [] + t == t;
    } else {
      SplitAppend(s[1..], t, c);
      assert (s + t)[1..] == s[1..] + t;
      SplitAppendStep(s[0], Split(s[1..], c), t, c);
    }
  }

  lemma SplitAppendStep(head: char, q: seq<string>, t: string, c: char)
    requires |q| >= 1
    ensures [[]] + GlueLast(q, t) == GlueLast([[]] + q, t)
    ensures [[head] + GlueLast(q, t)[0]] + GlueLast(q, t)[1..] == GlueLast([[head] + q[0]] + q[1..], t)
  {
    if |q| == 1 {
      assert [head] + (q[0] + t) == ([head] + q[0]) + t;
    }
  }

  lemma {:induction false} SplitDotZero(s: string)
    ensures Split(s + ".0", '.') == Split(s, '.') + ["0"]
  {
    if s == [] {
      SplitPrefix("", ".0", '.');
      assert s + ".0" == ".0" && ".0"[1..] == "0";
      SplitPrefix("0", [], '.');
      assert "0" + [] == "0";
    } else {
      SplitDotZero(s[1..]);
      assert (s + ".0")[1..] == s[1..] + ".0";
    }
  }

  /** What such a suffix adds to a core without metadata. */
  function Remainder(suffix: string): string {
    if suffix == ".0" then ".0" else ""
  }

  lemma CoreOfSuffix(suffix: string)
    requires CarriesNothing(suffix)
    ensures Core(TrimEnd(suffix)) == Remainder(suffix)
    ensures TrimEnd(suffix) != [] && TrimEnd(suffix)[0] == suffix[0]
  {
    TrimEndKeepsSuffix([], suffix);
    if suffix == ".0" {
      CoreOfDotZero();
    }
  }

  lemma CoreOfDotZero()
    ensures Core(".0") == ".0"
  {
    var s := ".0";
    forall i | 0 <= i < |s| ensures !StartsMetadata(s[i]) {
      assert i == 0 || i == 1;
    }
    CoreWithoutMetadata(s);
  }

  /** What a suffix without release information leaves of the core. */
  lemma SuffixedCore(v: string, suffix: string)
    requires CarriesNothing(suffix)
    ensures var bare := DropLeadingV(TrimStart(v));
            Core(DropLeadingV(Trim(v + suffix)))
            == if HasMetadata(bare) then Core(bare) else bare + Remainder(suffix)
  {
    var d, kept := TrimStart(v), TrimEnd(suffix);
    CoreOfSuffix(suffix);
    TrimStartAppend(v, suffix);
    TrimEndKeepsSuffix(d, suffix);
    DropLeadingVAppend(d, kept);
    CoreAppend(DropLeadingV(d), kept);
  }

  lemma {:induction false} TrimStartKeepsMetadata(v: string)
    ensures HasMetadata(v) <==> HasMetadata(TrimStart(v))
  {
    if v != [] && IsSpace(v[0]) {
      TrimStartKeepsMetadata(v[1..]);
      if HasMetadata(v) {
        var i :| 0 <= i < |v| && StartsMetadata(v[i]);
        assert v[1..][i - 1] == v[i];
      }
    }
  }

  lemma {:induction false} TrimEndKeepsSuffix(d: string, suffix: string)
    requires suffix != [] && !IsSpace(suffix[0])
    ensures TrimEnd(d + suffix) == d + TrimEnd(suffix)
    ensures TrimEnd(suffix) != [] && TrimEnd(suffix)[0] == suffix[0]
    ensures !IsSpace(suffix[|suffix| - 1]) ==> TrimEnd(suffix) == suffix
  {
    if IsSpace(suffix[|suffix| - 1]) {
      var n := |suffix| - 1;
      TrimEndKeepsSuffix(d, suffix[..n]);
      assert (d + suffix)[..|d + suffix| - 1] == d + suffix[..n];
    }
  }

  /** A component with a space in it counts as 0. */
  lemma SpacedComponentIsZero(p: string, sp: string)
    requires sp != [] && IsSpace(sp[0])
    ensures Component(p + sp) == 0
  {
    assert (p + sp)[|p|] == sp[0];
  }

  /** The trimmed text is the start-trimmed one without its trailing white space. */
  lemma TrimmedText(v: string) returns (core: string, sp: string)
    ensures core == DropLeadingV(Trim(v)) && DropLeadingV(TrimStart(v)) == core + sp
    ensures forall i :: 0 <= i < |sp| ==> IsSpace(sp[i])
    ensures HasMetadata(v) <==> HasMetadata(core)
    ensures sp != [] ==> EndsInSpace(v)
    ensures sp == [] && EndsInSpace(v) ==> core == []
  {
    var d := TrimStart(v);
    var e := TrimEnd(d);
    TrimEndDecomposes(d);
    core, sp := DropLeadingV(e), d[|e|..];
    assert d == e + sp;
    DropLeadingVAppend(e, sp);
    TrimmedEnd(v, e, sp);
    TrimStartKeepsMetadata(v);
    MetadataIsNotSpace(e, sp);
    DropLeadingVKeeps(e);
  }

  lemma TrimmedEnd(v: string, e: string, sp: string)
    requires TrimStart(v) == e + sp && !EndsInSpace(e) && forall i :: 0 <= i < |sp| ==> IsSpace(sp[i])
    ensures sp != [] ==> EndsInSpace(v)
    ensures sp == [] && EndsInSpace(v) ==> e == []
  {
    TrimStartKeepsEnd(v);
    assert sp == [] ==> e + sp == e;
  }

  /** A version that ends in white space, without its last component and with it zeroed. */
  lemma GluedSpaceZeroes(core: string, sp: string)
    requires sp != [] && forall i :: 0 <= i < |sp| ==> IsSpace(sp[i])
    ensures var p := Components(Split(core, '.'));
            Components(Split(core + sp, '.')) == p[..|p| - 1] + [0]
  {
    assert '.' !in sp;
    SplitAppend(core, sp, '.');
    var p := Split(core, '.');
    SpacedComponentIsZero(p[|p| - 1], sp);
  }

  /** The remainder of a dropped suffix does not change the release. */
  lemma BareRelease(bare: string, suffix: string)
    requires CarriesNothing(suffix)
    ensures SameRelease(Components(Split(bare + Remainder(suffix), '.')), Components(Split(bare, '.')))
  {
    if suffix == ".0" {
      SplitDotZero(bare);
      assert Component("0") == 0;
      assert Components(Split(bare + ".0", '.')) == Components(Split(bare, '.')) + [0];
    } else {
      assert bare + "" == bare;
    }
  }

  /** The release of a suffixed version: the one of `v`, with its last component zeroed after white space. */
  lemma SuffixedRelease(v: string, suffix: string)
    requires CarriesNothing(suffix)
    ensures var b := ParseVersion(v);
            SameRelease(ParseVersion(v + suffix),
                        if EndsInSpace(v) && !HasMetadata(v) then b[..|b| - 1] + [0] else b)
  {
    var core, sp := TrimmedText(v);
    SuffixedCore(v, suffix);
    MetadataIsNotSpace(core, sp);
    if !HasMetadata(v) {
      CoreWithoutMetadata(core);
      PlainRelease(core, sp, suffix, EndsInSpace(v));
    }
  }

  lemma PlainRelease(core: string, sp: string, suffix: string, spaced: bool)
    requires CarriesNothing(suffix) && forall i :: 0 <= i < |sp| ==> IsSpace(sp[i])
    requires sp != [] ==> spaced
    requires sp == [] && spaced ==> core == []
    ensures var b := Components(Split(core, '.'));
            SameRelease(Components(Split(core + sp + Remainder(suffix), '.')),
                        if spaced then b[..|b| - 1] + [0] else b)
  {
    BareRelease(core + sp, suffix);
    SpaceTail(core, sp);
    if spaced && sp == [] {
      var b := Components(Split(core, '.'));
      assert b == [0] && b[..0] + [0] == b;
    }
  }

  lemma MetadataIsNotSpace(core: string, sp: string)
    requires forall i :: 0 <= i < |sp| ==> IsSpace(sp[i])
    ensures HasMetadata(core + sp) <==> HasMetadata(core)
    ensures HasMetadata(core) ==> Core(core + sp) == Core(core)
  {
    CoreAppend(core, sp);
    if HasMetadata(core + sp) {
      var i :| 0 <= i < |core + sp| && StartsMetadata((core + sp)[i]);
      assert i < |core| && core[i] == (core + sp)[i];
    }
    if HasMetadata(core) {
      var i :| 0 <= i < |core| && StartsMetadata(core[i]);
      assert (core + sp)[i] == core[i];
    }
  }

  lemma CoreWithoutMetadata(s: string)
    requires !HasMetadata(s)
    ensures Core(s) == s
  {
    CoreAppend(s, []);
    assert s + [] == s;
  }

  lemma SpaceTail(core: string, sp: string)
    requires forall i :: 0 <= i < |sp| ==> IsSpace(sp[i])
    ensures var p := Components(Split(core, '.'));
            Components(Split(core + sp, '.')) == if sp == [] then p else p[..|p| - 1] + [0]
  {
    if sp == [] {
      assert core + sp == core;
    } else {
      GluedSpaceZeroes(core, sp);
    }
  }

  /** Unless everything is white space, trimming the start leaves the end alone. */
  lemma {:induction false} TrimStartKeepsEnd(v: string)
    ensures TrimStart(v) != [] ==> (EndsInSpace(TrimStart(v)) <==> EndsInSpace(v))
  {
    if v != [] && IsSpace(v[0]) {
      TrimStartKeepsEnd(v[1..]);
    }
  }

  /**
  A ".0" or metadata suffix leaves every answer unchanged exactly when the string it is
  appended to does not end in white space, already carries metadata, or ends in a
  component that counts as 0: trailing white space is trimmed on its own, but not once
  something follows it.
  */
  lemma SuffixChangesNothingIff(v: string, suffix: string)
    requires CarriesNothing(suffix)
    ensures SameAnswers(v + suffix, v) <==>
            !EndsInSpace(v) || HasMetadata(v) || ParseVersion(v)[|ParseVersion(v)| - 1] == 0
  {
    var a, b := ParseVersion(v + suffix), ParseVersion(v);
    var n := |b| - 1;
    SameAnswersIff(v + suffix, v);
    SuffixedRelease(v, suffix);
    if EndsInSpace(v) && !HasMetadata(v) {
      var zeroed := b[..n] + [0];
      assert At(zeroed, n) == 0 && At(b, n) == b[n];
      assert forall i: nat :: i != n ==> At(zeroed, i) == At(b, i);
    }
  }

  /** The input that breaks it: "2 " is release 2, "2 .0" is not. */
  lemma SpaceBeforeSuffixIsSeen()
    ensures !SameAnswers("2 " + ".0", "2 ")
  {
    var v := "2 ";
    assert Trim(v) == "2" by {
      assert TrimStart(v) == v && v[..1] == "2" && TrimEnd(v) == TrimEnd(v[..1]);
    }
    assert Core("2") == "2" by { assert "2"[1..] == ""; }
    assert Split("2", '.') == ["2"] by { assert "2"[1..] == "" && ['2'] + [] == "2"; }
    assert Decimal("2") == 2 by { assert "2"[..0] == ""; }
    assert ParseVersion(v) == [2];
    SuffixChangesNothingIff(v, ".0");
  }
}
