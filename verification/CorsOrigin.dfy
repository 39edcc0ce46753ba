/**
The CORS origin matcher: how a configured entry becomes a rule, and which `Origin`
header bytes a list of rules admits.
*/
module CorsOrigin {
  import opened Base
  import opened Text

  newtype byte = x: int | 0 <= x < 256

  type Bytes = seq<byte>

  /** One character in UTF-8, which is how configured text meets header bytes. */
  function EncodeChar(c: char): (r: Bytes)
    ensures 1 <= |r| <= 4
    ensures c as int < 0x80 ==> r == [c as int as byte]
  {
    var n := c as int;
    if n < 0x80 then [n as byte]
    else if n < 0x800 then [(0xC0 + n / 0x40) as byte, (0x80 + n % 0x40) as byte]
    else if n < 0x1_0000 then
      [(0xE0 + n / 0x1000) as byte, (0x80 + n / 0x40 % 0x40) as byte, (0x80 + n % 0x40) as byte]
    else
      [(0xF0 + n / 0x4_0000 % 8) as byte, (0x80 + n / 0x1000 % 0x40) as byte,
       (0x80 + n / 0x40 % 0x40) as byte, (0x80 + n % 0x40) as byte]
  }

  function Utf8(s: string): Bytes {
    if s == [] then [] else EncodeChar(s[0]) + Utf8(s[1..])
  }

  lemma {:induction false} Utf8Append(a: string, b: string)
    ensures Utf8(a + b) == Utf8(a) + Utf8(b)
  {
    if a == [] {
      assert a + b == b;
    } else {
      Utf8Append(a[1..], b);
      assert (a + b)[1..] == a[1..] + b;
    }
  }

  predicate Continues(b: byte) {
    0x80 <= b < 0xC0
  }

  /** Section 3 of RFC 3629: the lead byte gives the length, and the payload bits spell the character. */
  lemma EncodedExactly(c: char)
    ensures var n, r := c as int, EncodeChar(c);
            && (forall i :: 1 <= i < |r| ==> Continues(r[i]))
            && match |r|
               case 1 => n == r[0] as int < 0x80
               case 2 => 0xC2 <= r[0] < 0xE0 && n == (r[0] as int - 0xC0) * 0x40 + (r[1] as int - 0x80)
               case 3 =>
                 0xE0 <= r[0] < 0xF0 && n >= 0x800
                 && n == (r[0] as int - 0xE0) * 0x1000 + (r[1] as int - 0x80) * 0x40 + (r[2] as int - 0x80)
               case _ =>
                 0xF0 <= r[0] < 0xF5 && n >= 0x1_0000
                 && n == (r[0] as int - 0xF0) * 0x4_0000 + (r[1] as int - 0x80) * 0x1000
                         + (r[2] as int - 0x80) * 0x40 + (r[3] as int - 0x80)
  {
    SixBitParts(c as int);
  }

  lemma SixBitParts(n: nat)
    ensures n == n / 0x40 * 0x40 + n % 0x40
    ensures n / 0x40 == n / 0x1000 * 0x40 + n / 0x40 % 0x40
    ensures n / 0x1000 == n / 0x4_0000 * 0x40 + n / 0x1000 % 0x40
  {
  }

  lemma SameHeadSameChar(c: char, d: char, x: Bytes, y: Bytes)
    requires EncodeChar(c) + x == EncodeChar(d) + y
    ensures c == d && x == y
  {
    EncodedExactly(c);
    EncodedExactly(d);
    var r, t, both := EncodeChar(c), EncodeChar(d), EncodeChar(c) + x;
    assert both[0] == r[0] == t[0];
    assert |r| == |t|;
    assert r == both[..|r|] == t;
    assert x == both[|r|..] == y;
  }

  /** Different texts are different header bytes, so an exact entry admits one text. */
  lemma {:induction false} Utf8IsInjective(a: string, b: string)
    requires Utf8(a) == Utf8(b)
    ensures a == b
  {
    if a != [] && b != [] {
      SameHeadSameChar(a[0], b[0], Utf8(a[1..]), Utf8(b[1..]));
      Utf8IsInjective(a[1..], b[1..]);
    }
  }

  // ---- Entries ----

  datatype Rule = Exact(value: Bytes) | Wildcard(scheme: string, suffix: string)

  datatype Parsed = Accepted(rule: Rule) | Panic

  const HTTPS: string := "https://"
  const HTTP: string := "http://"

  predicate StripsTo(s: string, prefix: string, rest: string) {
    s == prefix + rest
  }

  function StripPrefix(s: string, prefix: string): (r: Option<string>)
    ensures r.Some? ==> s == prefix + r.value
    ensures r.None? ==> forall rest :: !StripsTo(s, prefix, rest)
  {
    if prefix <= s then
      assert s == prefix + s[|prefix|..];
      Some(s[|prefix|..])
    else None
  }

  function WildcardRule(scheme: string, suffix: string): Parsed {
    if suffix == "" || '*' in suffix || '.' !in suffix then Panic
    else Accepted(Wildcard(scheme, "." + suffix))
  }

  /** `valid` says which text is a legal header value. */
  function ParseEntry(entry: string, valid: string -> bool): Parsed {
    var raw := Trim(entry);
    if raw == "" then Panic
    else
      var secure := StripPrefix(raw, HTTPS + "*.");
      if secure.Some? then WildcardRule(HTTPS, secure.value)
      else
        var plain := StripPrefix(raw, HTTP + "*.");
        if plain.Some? then WildcardRule(HTTP, plain.value)
        else if '*' in raw || !valid(raw) then Panic
        else Accepted(Exact(Utf8(raw)))
  }

  /** One entry that does not parse ends the boot. */
  function FromEntries(entries: seq<string>, valid: string -> bool): (r: Option<seq<Rule>>)
    ensures r.Some? <==> forall i :: 0 <= i < |entries| ==> ParseEntry(entries[i], valid).Accepted?
    ensures r.Some? ==> |r.value| == |entries|
                        && forall i :: 0 <= i < |entries| ==> r.value[i] == ParseEntry(entries[i], valid).rule
  {
    if forall i :: 0 <= i < |entries| ==> ParseEntry(entries[i], valid).Accepted? then
      Some(seq(|entries|, i requires 0 <= i < |entries| && ParseEntry(entries[i], valid).Accepted? =>
                            ParseEntry(entries[i], valid).rule))
    else None
  }

  // ---- Matching ----

  predicate EndsWith(s: Bytes, suffix: Bytes) {
    |s| >= |suffix| && s[|s| - |suffix|..] == suffix
  }

  predicate RuleMatches(rule: Rule, origin: Bytes) {
    match rule
    case Exact(value) => value == origin
    case Wildcard(scheme, suffix) =>
      var s := Utf8(scheme);
      && s <= origin
      && var host := origin[|s|..];
         |host| > |Utf8(suffix)| && EndsWith(host, Utf8(suffix))
  }

  predicate Matches(rules: seq<Rule>, origin: Bytes) {
    exists i :: 0 <= i < |rules| && RuleMatches(rules[i], origin)
  }

  // ---- What an entry admits, from its text alone ----

  /** `entry` is a scheme, a leading star label and a suffix with a dot and no further star. */
  predicate IsWildcard(entry: string, scheme: string, suffix: string) {
    && Trim(entry) == scheme + "*." + suffix
    && (scheme == HTTPS || scheme == HTTP)
    && '*' !in suffix && '.' in suffix
  }

  predicate IsExact(entry: string, valid: string -> bool) {
    Trim(entry) != "" && '*' !in Trim(entry) && valid(Trim(entry))
  }

  /** The origin is the scheme, at least one byte, a dot and the suffix. */
  ghost predicate IsSubdomain(origin: Bytes, scheme: string, suffix: string) {
    exists sub: Bytes :: sub != [] && Spells(origin, scheme, sub, suffix)
  }

  predicate Spells(origin: Bytes, scheme: string, sub: Bytes, suffix: string) {
    origin == Utf8(scheme) + sub + Utf8(".") + Utf8(suffix)
  }

  ghost predicate Admits(entry: string, origin: Bytes) {
    || ('*' !in Trim(entry) && origin == Utf8(Trim(entry)))
    || exists scheme, suffix :: IsWildcard(entry, scheme, suffix) && IsSubdomain(origin, scheme, suffix)
  }

  lemma StarAfterScheme(scheme: string, suffix: string)
    requires scheme == HTTPS || scheme == HTTP
    ensures '*' in scheme + "*." + suffix
    ensures scheme + "*." + suffix == (scheme + "*.") + suffix
  {
    assert (scheme + "*." + suffix)[|scheme|] == '*';
  }

  /** An entry's scheme and suffix are determined by its text. */
  lemma WildcardIsUnique(entry: string, a: string, x: string, b: string, y: string)
    requires IsWildcard(entry, a, x) && IsWildcard(entry, b, y)
    ensures a == b && x == y
  {
    var raw := Trim(entry);
    assert raw == a + "*." + x && raw == b + "*." + y;
    if a != b {
      assert raw[4] == 's' && raw[4] == ':' by {
        assert (HTTPS + "*.")[4] == 's' && (HTTP + "*.")[4] == ':';
      }
      assert false;
    }
    assert raw[|a| + 2..] == x && raw[|b| + 2..] == y;
  }

  /** Which entries are accepted, and as what. */
  lemma ParsedExactly(entry: string, valid: string -> bool)
    ensures ParseEntry(entry, valid).Accepted? <==>
            IsExact(entry, valid) || exists scheme, suffix :: IsWildcard(entry, scheme, suffix)
    ensures IsExact(entry, valid) ==> ParseEntry(entry, valid) == Accepted(Exact(Utf8(Trim(entry))))
    ensures forall scheme, suffix :: IsWildcard(entry, scheme, suffix) ==>
              ParseEntry(entry, valid) == Accepted(Wildcard(scheme, "." + suffix))
  {
    var raw := Trim(entry);
    forall scheme, suffix | IsWildcard(entry, scheme, suffix)
      ensures ParseEntry(entry, valid) == Accepted(Wildcard(scheme, "." + suffix))
    {
      StarAfterScheme(scheme, suffix);
      WildcardParses(entry, valid, scheme, suffix);
    }
    var p := ParseEntry(entry, valid);
    if IsExact(entry, valid) {
      ExactParses(entry, valid);
    }
    if p.Accepted? && p.rule.Wildcard? {
      var scheme, suffix := p.rule.scheme, p.rule.suffix[1..];
      StarAfterScheme(scheme, suffix);
      assert IsWildcard(entry, scheme, suffix);
    }
  }

  lemma ExactParses(entry: string, valid: string -> bool)
    requires IsExact(entry, valid)
    ensures ParseEntry(entry, valid) == Accepted(Exact(Utf8(Trim(entry))))
  {
    var raw := Trim(entry);
    if StripPrefix(raw, HTTPS + "*.").Some? {
      StarAfterScheme(HTTPS, StripPrefix(raw, HTTPS + "*.").value);
    } else if StripPrefix(raw, HTTP + "*.").Some? {
      StarAfterScheme(HTTP, StripPrefix(raw, HTTP + "*.").value);
    }
  }

  lemma WildcardParses(entry: string, valid: string -> bool, scheme: string, suffix: string)
    requires IsWildcard(entry, scheme, suffix)
    ensures ParseEntry(entry, valid) == Accepted(Wildcard(scheme, "." + suffix))
  {
    var raw := Trim(entry);
    StarAfterScheme(scheme, suffix);
    assert StripsTo(raw, scheme + "*.", suffix);
    var stripped := StripPrefix(raw, scheme + "*.");
    assert stripped == Some(suffix) by {
      assert raw[|scheme| + 2..] == suffix;
    }
    if scheme == HTTP {
      assert raw[4] == ':' by { assert (HTTP + "*.")[4] == ':'; }
      assert (HTTPS + "*.")[4] == 's';
    }
  }

  /** Prefix, longer than the suffix, and ending in it: something non-empty sits between the two. */
  lemma FramedIff(origin: Bytes, s: Bytes, t: Bytes)
    ensures s <= origin && |origin[|s|..]| > |t| && EndsWith(origin[|s|..], t) <==>
            exists mid: Bytes :: mid != [] && Framed(origin, s, mid, t)
  {
    if s <= origin && |origin[|s|..]| > |t| && EndsWith(origin[|s|..], t) {
      var host := origin[|s|..];
      var mid := host[..|host| - |t|];
      assert origin == s + host && host == mid + t;
      assert Framed(origin, s, mid, t);
    }
    if mid: Bytes :| mid != [] && Framed(origin, s, mid, t) {
      assert origin[|s|..] == mid + t;
      assert (mid + t)[|mid|..] == t;
    }
  }

  predicate Framed(origin: Bytes, s: Bytes, mid: Bytes, t: Bytes) {
    origin == s + mid + t
  }

  /** The boot goes on exactly when every entry is a legal exact or wildcard entry. */
  lemma AcceptedListsExactly(entries: seq<string>, valid: string -> bool)
    ensures FromEntries(entries, valid).Some? <==>
            forall i :: 0 <= i < |entries| ==>
              IsExact(entries[i], valid) || exists scheme, suffix :: IsWildcard(entries[i], scheme, suffix)
  {
    forall i | 0 <= i < |entries|
      ensures ParseEntry(entries[i], valid).Accepted? <==>
              IsExact(entries[i], valid) || exists scheme, suffix :: IsWildcard(entries[i], scheme, suffix)
    {
      ParsedExactly(entries[i], valid);
    }
  }

  /** A wildcard rule admits exactly the scheme, a non-empty label, a dot and the suffix. */
  lemma WildcardAdmitsExactly(scheme: string, suffix: string, origin: Bytes)
    ensures RuleMatches(Wildcard(scheme, "." + suffix), origin) <==> IsSubdomain(origin, scheme, suffix)
  {
    var s, t := Utf8(scheme), Utf8("." + suffix);
    Utf8Append(".", suffix);
    FramedIff(origin, s, t);
    forall mid: Bytes ensures Framed(origin, s, mid, t) <==> Spells(origin, scheme, mid, suffix) {
      assert s + mid + (Utf8(".") + Utf8(suffix)) == s + mid + Utf8(".") + Utf8(suffix);
    }
  }

  /**
  For every accepted list, an origin matches exactly when some entry admits it: byte for
  byte for an exact entry, a proper subdomain under the same scheme for a wildcard one.
  */
  lemma MatchesExactly(entries: seq<string>, valid: string -> bool, origin: Bytes)
    requires FromEntries(entries, valid).Some?
    ensures Matches(FromEntries(entries, valid).value, origin) <==>
            exists i :: 0 <= i < |entries| && Admits(entries[i], origin)
  {
    var rules := FromEntries(entries, valid).value;
    forall i | 0 <= i < |entries| ensures RuleMatches(rules[i], origin) <==> Admits(entries[i], origin) {
      EntryAdmitsExactly(entries[i], valid, origin);
    }
  }

  lemma EntryAdmitsExactly(entry: string, valid: string -> bool, origin: Bytes)
    requires ParseEntry(entry, valid).Accepted?
    ensures RuleMatches(ParseEntry(entry, valid).rule, origin) <==> Admits(entry, origin)
  {
    ParsedExactly(entry, valid);
    if exists scheme, suffix :: IsWildcard(entry, scheme, suffix) {
      var scheme, suffix :| IsWildcard(entry, scheme, suffix);
      StarAfterScheme(scheme, suffix);
      WildcardAdmitsExactly(scheme, suffix, origin);
      forall a, x | IsWildcard(entry, a, x) ensures a == scheme && x == suffix {
        WildcardIsUnique(entry, a, x, scheme, suffix);
      }
    }
  }

  lemma SameMiddle(s: Bytes, a: Bytes, b: Bytes, t: Bytes)
    requires s + a + t == s + b + t
    ensures a == b
  {
    assert (s + a + t)[|s|..|s| + |a|] == a;
    assert |a| == |b| && (s + b + t)[|s|..|s| + |b|] == b;
  }

  /**
  An origin that ends in the suffix is admitted exactly when a dot comes before it and a
  label before the dot: never the apex, never a look-alike host.
  */
  lemma NothingButSubdomains(scheme: string, suffix: string, host: Bytes)
    ensures IsSubdomain(Utf8(scheme) + host + Utf8(suffix), scheme, suffix) <==>
            |host| >= 2 && host[|host| - 1] == '.' as int as byte
  {
    var s, t, dot := Utf8(scheme), Utf8(suffix), Utf8(".");
    assert dot == ['.' as int as byte] by { assert "."[1..] == ""; }
    var origin := s + host + t;
    if IsSubdomain(origin, scheme, suffix) {
      var sub: Bytes :| sub != [] && Spells(origin, scheme, sub, suffix);
      assert s + (sub + dot) + t == s + sub + dot + t;
      SameMiddle(s, host, sub + dot, t);
    }
    if |host| >= 2 && host[|host| - 1] == '.' as int as byte {
      var sub := host[..|host| - 1];
      assert host == sub + dot;
      assert s + (sub + dot) + t == s + sub + dot + t;
      assert Spells(origin, scheme, sub, suffix);
    }
  }

  /** A wildcard under one scheme admits nothing under the other. */
  lemma OtherSchemeIsNeverAdmitted(scheme: string, other: string, suffix: string, host: Bytes)
    requires (scheme == HTTPS && other == HTTP) || (scheme == HTTP && other == HTTPS)
    ensures !IsSubdomain(Utf8(other) + host, scheme, suffix)
  {
    SchemesDiffer();
    var s, o := Utf8(scheme), Utf8(other);
    if IsSubdomain(o + host, scheme, suffix) {
      var sub: Bytes :| sub != [] && Spells(o + host, scheme, sub, suffix);
      PrefixesDiffer(s, o, sub, Utf8("."), Utf8(suffix), host);
    }
  }

  lemma PrefixesDiffer(s: Bytes, o: Bytes, a: Bytes, b: Bytes, c: Bytes, host: Bytes)
    requires |s| > 4 && |o| > 4 && s[4] != o[4]
    ensures o + host != s + a + b + c
  {
    assert (o + host)[4] == o[4] && (s + a + b + c)[4] == s[4];
  }

  lemma SchemesDiffer()
    ensures |Utf8(HTTPS)| > 4 && |Utf8(HTTP)| > 4
    ensures Utf8(HTTPS)[4] != Utf8(HTTP)[4]
  {
    assert HTTPS == "http" + "s://" && HTTP == "http" + "://";
    Utf8Append("http", "s://");
    Utf8Append("http", "://");
    assert |Utf8("http")| == 4 by {
      assert "http"[1..] == "ttp" && "ttp"[1..] == "tp" && "tp"[1..] == "p" && "p"[1..] == "";
      assert |Utf8("p")| == 1 && |Utf8("tp")| == 2 && |Utf8("ttp")| == 3;
    }
    assert Utf8("s://") == ['s' as int as byte] + Utf8("s://"[1..]);
    assert Utf8("://") == [':' as int as byte] + Utf8("://"[1..]);
  }
}
