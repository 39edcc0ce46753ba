/**
The string operations the providers rely on: `str::trim`, `str::split` on one
character and its inverse.
*/
module Text {

  /** The Unicode White_Space property, which is what `str::trim` removes. */
  predicate IsSpace(c: char) {
    var n := c as int;
    || 0x09 <= n <= 0x0D || n == 0x20 || n == 0x85 || n == 0xA0 || n == 0x1680
    || 0x2000 <= n <= 0x200A || n == 0x2028 || n == 0x2029 || n == 0x202F
    || n == 0x205F || n == 0x3000
  }

  function TrimStart(s: string): string {
    if s != [] && IsSpace(s[0]) then TrimStart(s[1..]) else s
  }

  function TrimEnd(s: string): string {
    if s != [] && IsSpace(s[|s| - 1]) then TrimEnd(s[..|s| - 1]) else s
  }

  function Trim(s: string): string {
    TrimEnd(TrimStart(s))
  }

  /** No white space at either end. */
  predicate Trimmed(s: string) {
    s == [] || (!IsSpace(s[0]) && !IsSpace(s[|s| - 1]))
  }

  lemma {:induction false} TrimEndKeepsHead(s: string)
    requires s == [] || !IsSpace(s[0])
    ensures Trimmed(TrimEnd(s))
    ensures TrimEnd(s) <= s
  {
    if s != [] && IsSpace(s[|s| - 1]) {
      TrimEndKeepsHead(s[..|s| - 1]);
    }
  }

  lemma {:induction false} TrimStartHead(s: string)
    ensures TrimStart(s) == [] || !IsSpace(TrimStart(s)[0])
  {
    if s != [] && IsSpace(s[0]) {
      TrimStartHead(s[1..]);
    }
  }

  /** Trimming yields a trimmed string, and leaves exactly the trimmed strings alone. */
  lemma TrimFixpoint(s: string)
    ensures Trimmed(Trim(s))
    ensures Trim(s) == s <==> Trimmed(s)
  {
    TrimStartHead(s);
    TrimEndKeepsHead(TrimStart(s));
  }

  /** The parts of `s` between occurrences of `c`; always at least one. */
  function Split(s: string, c: char): (parts: seq<string>)
    ensures |parts| >= 1
  {
    if s == [] then [[]]
    else
      var rest := Split(s[1..], c);
      if s[0] == c then [[]] + rest else [[s[0]] + rest[0]] + rest[1..]
  }

  function Join(parts: seq<string>, c: char): string
    requires |parts| >= 1
  {
    if |parts| == 1 then parts[0] else parts[0] + [c] + Join(parts[1..], c)
  }

  /** Scanning past a stretch without the separator only grows the first part. */
  lemma {:induction false} SplitPrefix(p: string, s: string, c: char)
    requires c !in p
    ensures Split(p + s, c) == [p + Split(s, c)[0]] + Split(s, c)[1..]
  {
    var parts := Split(s, c);
    if p == [] {
      assert p + s == s && p + parts[0] == parts[0];
      assert [parts[0]] + parts[1..] == parts;
    } else {
      var tail := p[1..];
      SplitPrefix(tail, s, c);
      assert (p + s)[1..] == tail + s && (p + s)[0] == p[0];
      assert [p[0]] + (tail + parts[0]) == p + parts[0];
    }
  }

  /** Splitting undoes joining when no part contains the separator. */
  lemma {:induction false} SplitJoin(parts: seq<string>, c: char)
    requires |parts| >= 1
    requires forall i :: 0 <= i < |parts| ==> c !in parts[i]
    ensures Split(Join(parts, c), c) == parts
  {
    if |parts| == 1 {
      SplitPrefix(parts[0], [], c);
      assert parts[0] + [] == parts[0];
    } else {
      var rest := Join(parts[1..], c);
      SplitJoin(parts[1..], c);
      SplitPrefix(parts[0], [c] + rest, c);
      assert ([c] + rest)[1..] == rest;
      assert parts[0] + [c] + rest == parts[0] + ([c] + rest);
      assert Split([c] + rest, c) == [[]] + parts[1..];
      assert parts[0] + [] == parts[0];
    }
  }

  predicate AllSpace(s: string) {
    forall i :: 0 <= i < |s| ==> IsSpace(s[i])
  }

  lemma {:induction false} TrimStartSkips(a: string, s: string)
    requires AllSpace(a)
    ensures TrimStart(a + s) == TrimStart(s)
  {
    if a == [] {
      assert a + s == s;
    } else {
      TrimStartSkips(a[1..], s);
      assert (a + s)[1..] == a[1..] + s;
    }
  }

  lemma {:induction false} TrimEndSkips(s: string, b: string)
    requires AllSpace(b)
    ensures TrimEnd(s + b) == TrimEnd(s)
  {
    if b == [] {
      assert s + b == s;
    } else {
      var n := |b| - 1;
      TrimEndSkips(s, b[..n]);
      assert (s + b)[..|s + b| - 1] == s + b[..n];
    }
  }

  /** Trimming takes away the white space around a text, and nothing of the text. */
  lemma TrimUnpads(a: string, plain: string, b: string)
    requires AllSpace(a) && AllSpace(b) && Trimmed(plain)
    ensures Trim(a + plain + b) == plain
  {
    assert a + plain + b == a + (plain + b);
    TrimStartSkips(a, plain + b);
    TrimFixpoint(plain);
    if plain == [] {
      assert plain + b == b && b + [] == b;
      TrimStartSkips(b, []);
    } else {
      assert TrimStart(plain + b) == plain + b && TrimStart(plain) == plain;
      TrimEndSkips(plain, b);
    }
  }

  predicate EndsInSpace(s: string) {
    s != [] && IsSpace(s[|s| - 1])
  }

  /** Trimming the end removes white space and nothing else. */
  lemma {:induction false} TrimEndDecomposes(s: string)
    ensures TrimEnd(s) <= s
    ensures forall i :: |TrimEnd(s)| <= i < |s| ==> IsSpace(s[i])
    ensures !EndsInSpace(TrimEnd(s))
  {
    if s != [] && IsSpace(s[|s| - 1]) {
      TrimEndDecomposes(s[..|s| - 1]);
    }
  }

  /** ... and so does trimming the start. */
  lemma {:induction false} TrimStartDecomposes(s: string) returns (a: string)
    ensures AllSpace(a) && s == a + TrimStart(s)
  {
    if s != [] && IsSpace(s[0]) {
      var rest := TrimStartDecomposes(s[1..]);
      a := [s[0]] + rest;
      assert s == [s[0]] + (rest + TrimStart(s));
    } else {
      a := [];
      assert s == [] + s;
    }
  }

  /** `s` is the non-blank text `plain` with only white space around it. */
  ghost predicate Padded(s: string, plain: string) {
    plain != "" && Trimmed(plain) && exists a, b :: Around(s, a, plain, b)
  }

  predicate Around(s: string, a: string, plain: string, b: string) {
    AllSpace(a) && AllSpace(b) && s == a + plain + b
  }

  /** Trimming finds exactly that text. */
  lemma PaddedIff(s: string, plain: string)
    ensures Padded(s, plain) <==> plain != "" && Trim(s) == plain
  {
    if Padded(s, plain) {
      var a, b :| Around(s, a, plain, b);
      TrimUnpads(a, plain, b);
    }
    if plain != "" && Trim(s) == plain {
      var a, b := Padding(s);
      TrimFixpoint(s);
    }
  }

  /** What trimming takes away at either end. */
  lemma Padding(s: string) returns (a: string, b: string)
    ensures Around(s, a, Trim(s), b)
  {
    a := TrimStartDecomposes(s);
    var d := TrimStart(s);
    TrimEndDecomposes(d);
    var plain := TrimEnd(d);
    b := d[|plain|..];
    assert AllSpace(b);
    Associates(a, plain, b);
    assert plain + b == d;
  }

  lemma Associates(a: string, b: string, c: string)
    ensures a + b + c == a + (b + c)
  {
  }

  /** Nothing is left of a text exactly when it is all white space. */
  lemma {:induction false} TrimIsEmptyIff(s: string)
    ensures Trim(s) == [] <==> AllSpace(s)
  {
    if AllSpace(s) {
      TrimUnpads(s, [], []);
      assert s + [] + [] == s;
    } else {
      var i :| 0 <= i < |s| && !IsSpace(s[i]);
      TrimKeeps(s, i);
    }
  }

  lemma {:induction false} TrimKeeps(s: string, i: nat)
    requires i < |s| && !IsSpace(s[i])
    ensures Trim(s) != []
    decreases |s|
  {
    if IsSpace(s[0]) {
      assert s[1..][i - 1] == s[i];
      TrimKeeps(s[1..], i - 1);
    } else {
      assert TrimStart(s) == s;
      TrimEndKeeps(s);
    }
  }

  lemma {:induction false} TrimEndKeeps(s: string)
    requires s != [] && !IsSpace(s[0])
    ensures TrimEnd(s) != []
  {
    if IsSpace(s[|s| - 1]) {
      TrimEndKeeps(s[..|s| - 1]);
    }
  }

  /** Joining undoes splitting, and no part contains the separator. */
  lemma {:induction false} JoinSplit(s: string, c: char)
    ensures Join(Split(s, c), c) == s
    ensures forall i :: 0 <= i < |Split(s, c)| ==> c !in Split(s, c)[i]
  {
    if s != [] {
      JoinSplit(s[1..], c);
      var rest := Split(s[1..], c);
      if s[0] == c {
        assert ([[]] + rest)[1..] == rest;
      } else {
        assert ([[s[0]] + rest[0]] + rest[1..])[1..] == rest[1..];
      }
    }
  }
}
