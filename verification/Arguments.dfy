/**
The arguments of `provider-migrate`: two provider names that have to be given and have
to differ, which is what lets the command treat source and target as two providers.
*/
module Arguments {
  import opened Base
  import opened Text
  import ConfigChain

  datatype ArgError = MissingValue | Help | Unrecognised(argument: string) | FromRequired | ToRequired | SameProvider

  datatype MigrateArgs = MigrateArgs(from: string, to: string, json: bool)

  datatype ArgResult = Ok(args: MigrateArgs) | Err(error: ArgError)

  method ParseMigrateArgs(args: seq<string>) returns (r: ArgResult)
    ensures r == Checked(Scan(args))
  {
    var from: Option<string> := None;
    var to: Option<string> := None;
    var json := false;
    var i := 0;
    while i < |args|
      invariant 0 <= i <= |args|
      invariant Scan(args) == ScanFrom(args[i..], Options(from, to, json))
    {
      var arg := args[i];
      assert args[i..][0] == arg && args[i..][1..] == args[i + 1..];
      i := i + 1;
      if arg == "--from" || arg == "--to" {
        if i == |args| {
          return Err(MissingValue);
        }
        assert args[i..][0] == args[i] && args[i - 1..][2..] == args[i + 1..];
        if arg == "--from" {
          from := Some(args[i]);
        } else {
          to := Some(args[i]);
        }
        i := i + 1;
      } else if arg == "--json" {
        json := true;
      } else if arg == "--text" {
        json := false;
      } else if arg == "--help" || arg == "-h" {
        return Err(Help);
      } else {
        return Err(Unrecognised(arg));
      }
    }
    if from.None? {
      return Err(FromRequired);
    }
    if to.None? {
      return Err(ToRequired);
    }
    if Trim(from.value) == Trim(to.value) {
      return Err(SameProvider);
    }
    return Ok(MigrateArgs(Trim(from.value), Trim(to.value), json));
  }

  datatype Options = Options(from: Option<string>, to: Option<string>, json: bool)

  datatype Scanned = Read(options: Options) | Stopped(error: ArgError)

  /** The flags left to right; a later one wins. */
  function ScanFrom(args: seq<string>, o: Options): Scanned {
    if args == [] then Read(o)
    else if args[0] == "--from" then
      if |args| == 1 then Stopped(MissingValue) else ScanFrom(args[2..], o.(from := Some(args[1])))
    else if args[0] == "--to" then
      if |args| == 1 then Stopped(MissingValue) else ScanFrom(args[2..], o.(to := Some(args[1])))
    else if args[0] == "--json" then ScanFrom(args[1..], o.(json := true))
    else if args[0] == "--text" then ScanFrom(args[1..], o.(json := false))
    else if args[0] == "--help" || args[0] == "-h" then Stopped(Help)
    else Stopped(Unrecognised(args[0]))
  }

  function Scan(args: seq<string>): Scanned {
    ScanFrom(args, Options(None, None, false))
  }

  function Checked(s: Scanned): ArgResult {
    match s
    case Stopped(error) => Err(error)
    case Read(Options(from, to, json)) =>
      if from.None? then Err(FromRequired)
      else if to.None? then Err(ToRequired)
      else if Trim(from.value) == Trim(to.value) then Err(SameProvider)
      else Ok(MigrateArgs(Trim(from.value), Trim(to.value), json))
  }

  /** An application-secret provider name to its slot; blank is not a name. */
  function SecretKind(raw: string): Option<nat> {
    var name := Trim(raw);
    if name == "environment" then Some(0)
    else if name == "file" then Some(1)
    else if name == "database" then Some(2)
    else if name == "infisical" then Some(3)
    else if name == "bunyip" then Some(4)
    else None
  }

  const SECRET_PROVIDERS: seq<string> := ["environment", "file", "database", "infisical", "bunyip"]

  /** A name is a slot's exactly when it is that slot's name once the white space around it is gone. */
  lemma SecretKindExactly(raw: string, kind: nat)
    ensures SecretKind(raw) == Some(kind) <==> kind < 5 && Trim(raw) == SECRET_PROVIDERS[kind]
  {
    assert SECRET_PROVIDERS[0][0] == 'e' && SECRET_PROVIDERS[1][0] == 'f' && SECRET_PROVIDERS[2][0] == 'd'
        && SECRET_PROVIDERS[3][0] == 'i' && SECRET_PROVIDERS[4][0] == 'b';
  }

  /** Accepted arguments never name one provider twice in either tier, however the names are padded. */
  lemma AcceptedNamesAreTwoProviders(args: seq<string>)
    requires Checked(Scan(args)).Ok?
    ensures var a := Checked(Scan(args)).args;
            && (SecretKind(a.from).Some? ==> SecretKind(a.from) != SecretKind(a.to))
            && (ConfigChain.ParseName(a.from).Some? ==>
                  ConfigChain.ParseName(a.from) != ConfigChain.ParseName(a.to))
  {
    var o := Scan(args).options;
    TrimFixpoint(o.from.value);
    TrimFixpoint(o.to.value);
    TrimFixpoint(Trim(o.from.value));
    TrimFixpoint(Trim(o.to.value));
  }

  // ---- Which argument lists are accepted ----

  datatype Flag = From(name: string) | To(name: string) | Json | Text

  function Written(flag: Flag): seq<string> {
    match flag
    case From(name) => ["--from", name]
    case To(name) => ["--to", name]
    case Json => ["--json"]
    case Text => ["--text"]
  }

  function Spelled(flags: seq<Flag>): seq<string> {
    if flags == [] then [] else Written(flags[0]) + Spelled(flags[1..])
  }

  function Apply(o: Options, flag: Flag): Options {
    match flag
    case From(name) => o.(from := Some(name))
    case To(name) => o.(to := Some(name))
    case Json => o.(json := true)
    case Text => o.(json := false)
  }

  /** The last flag of each kind decides. */
  function LastFrom(flags: seq<Flag>): Option<string> {
    if flags == [] then None
    else if flags[|flags| - 1].From? then Some(flags[|flags| - 1].name)
    else LastFrom(flags[..|flags| - 1])
  }

  function LastTo(flags: seq<Flag>): Option<string> {
    if flags == [] then None
    else if flags[|flags| - 1].To? then Some(flags[|flags| - 1].name)
    else LastTo(flags[..|flags| - 1])
  }

  /** ... and the last of the two output flags, text being what an operator gets without one. */
  predicate EndsInJson(flags: seq<Flag>) {
    flags != [] && match flags[|flags| - 1]
      case Json => true
      case Text => false
      case _ => EndsInJson(flags[..|flags| - 1])
  }

  function Folded(o: Options, flags: seq<Flag>): Options
    decreases |flags|
  {
    if flags == [] then o else Folded(Apply(o, flags[0]), flags[1..])
  }

  lemma {:induction false} FoldedOneMore(o: Options, flags: seq<Flag>, flag: Flag)
    ensures Folded(o, flags + [flag]) == Apply(Folded(o, flags), flag)
    decreases |flags|
  {
    if flags == [] {
      assert flags + [flag] == [flag] && [flag][1..] == [];
    } else {
      FoldedOneMore(Apply(o, flags[0]), flags[1..], flag);
      assert (flags + [flag])[1..] == flags[1..] + [flag];
    }
  }

  lemma {:induction false} FoldedIsLast(flags: seq<Flag>)
    ensures var o := Folded(Options(None, None, false), flags);
            o == Options(LastFrom(flags), LastTo(flags), EndsInJson(flags))
  {
    if flags != [] {
      var n := |flags| - 1;
      FoldedIsLast(flags[..n]);
      FoldedOneMore(Options(None, None, false), flags[..n], flags[n]);
      assert flags[..n] + [flags[n]] == flags;
    }
  }

  /** `rest` begins with the argument that ends the scan, for the reason `error`. */
  predicate Stops(rest: seq<string>, error: ArgError) {
    || ((rest == ["--from"] || rest == ["--to"]) && error == MissingValue)
    || (rest != [] && (rest[0] == "--help" || rest[0] == "-h") && error == Help)
    || (rest != [] && rest[0] !in {"--from", "--to", "--json", "--text", "--help", "-h"}
        && error == Unrecognised(rest[0]))
  }

  /** Scanning a spelled list of flags reads them all, and goes on behind them. */
  lemma {:induction false} SpelledIsRead(flags: seq<Flag>, rest: seq<string>, o: Options)
    ensures ScanFrom(Spelled(flags) + rest, o) == ScanFrom(rest, Folded(o, flags))
    decreases |flags|
  {
    if flags == [] {
      assert Spelled(flags) + rest == rest;
    } else {
      var w, tail := Written(flags[0]), Spelled(flags[1..]);
      SpelledIsRead(flags[1..], rest, Apply(o, flags[0]));
      assert (w + tail) + rest == w + (tail + rest);
      assert (w + (tail + rest))[|w|..] == tail + rest && (w + (tail + rest))[0] == w[0];
    }
  }

  /** Every argument list is a list of flags, followed by nothing or by what ends the scan. */
  lemma {:induction false} FlagsThenRest(args: seq<string>) returns (flags: seq<Flag>, rest: seq<string>)
    ensures args == Spelled(flags) + rest
    ensures rest == [] || exists error :: Stops(rest, error)
    decreases |args|
  {
    if args == [] || args == ["--from"] || args == ["--to"]
       || args[0] !in {"--from", "--to", "--json", "--text"} {
      flags, rest := [], args;
      assert rest == [] || Stops(rest, MissingValue) || Stops(rest, Help) || Stops(rest, Unrecognised(rest[0]));
    } else {
      var flag :=
        if args[0] == "--from" then From(args[1])
        else if args[0] == "--to" then To(args[1])
        else if args[0] == "--json" then Json
        else Text;
      var w := Written(flag);
      var more, tail := FlagsThenRest(args[|w|..]);
      flags, rest := [flag] + more, tail;
      assert flags[1..] == more;
      assert args == w + args[|w|..];
      assert w + (Spelled(more) + tail) == (w + Spelled(more)) + tail;
    }
  }

  predicate NamesTwo(flags: seq<Flag>) {
    LastFrom(flags).Some? && LastTo(flags).Some? && Trim(LastFrom(flags).value) != Trim(LastTo(flags).value)
  }

  /** What is wrong with a list of flags that is read to its end without naming two providers. */
  predicate Lacks(flags: seq<Flag>, error: ArgError) {
    match error
    case FromRequired => LastFrom(flags).None?
    case ToRequired => LastFrom(flags).Some? && LastTo(flags).None?
    case SameProvider =>
      LastFrom(flags).Some? && LastTo(flags).Some? && Trim(LastFrom(flags).value) == Trim(LastTo(flags).value)
    case _ => false
  }

  /** What a list of flags must answer when nothing follows. */
  lemma FlagsAnswered(flags: seq<Flag>)
    ensures NamesTwo(flags) ==>
              Checked(Scan(Spelled(flags)))
              == Ok(MigrateArgs(Trim(LastFrom(flags).value), Trim(LastTo(flags).value), EndsInJson(flags)))
    ensures forall error :: Lacks(flags, error) ==> Checked(Scan(Spelled(flags))) == Err(error)
  {
    FoldedIsLast(flags);
    SpelledIsRead(flags, [], Options(None, None, false));
    assert Spelled(flags) + [] == Spelled(flags);
    assert Scan(Spelled(flags)) == Read(Folded(Options(None, None, false), flags));
  }

  /** ... and when `rest` follows and ends the scan. */
  lemma RestAnswered(flags: seq<Flag>, rest: seq<string>, error: ArgError)
    requires Stops(rest, error)
    ensures Checked(Scan(Spelled(flags) + rest)) == Err(error)
  {
    SpelledIsRead(flags, rest, Options(None, None, false));
  }

  /**
  An argument list is accepted exactly when it is a list of flags in which both names
  occur and the last `--from` and the last `--to` differ after trimming, whatever the
  order, the repetitions and the output flags; the answer carries the trimmed names and
  the last output flag.
  */
  lemma AcceptedIff(args: seq<string>, a: MigrateArgs)
    ensures Checked(Scan(args)) == Ok(a) <==>
            exists flags ::
              && args == Spelled(flags) && NamesTwo(flags)
              && a == MigrateArgs(Trim(LastFrom(flags).value), Trim(LastTo(flags).value), EndsInJson(flags))
  {
    forall flags | args == Spelled(flags) && NamesTwo(flags)
      ensures Checked(Scan(args))
           == Ok(MigrateArgs(Trim(LastFrom(flags).value), Trim(LastTo(flags).value), EndsInJson(flags)))
    {
      FlagsAnswered(flags);
    }
    if Checked(Scan(args)) == Ok(a) {
      var flags, rest := FlagsThenRest(args);
      if error :| Stops(rest, error) {
        RestAnswered(flags, rest, error);
        assert false;
      }
      assert args == Spelled(flags);
      FlagsAnswered(flags);
      assert NamesTwo(flags) || Lacks(flags, FromRequired) || Lacks(flags, ToRequired) || Lacks(flags, SameProvider);
    }
  }

  /**
  It is refused with `error` exactly when, after a list of flags, `error` is what ends
  the scan, or the flags go to the end and `error` is the first thing they lack.
  */
  lemma RefusedIff(args: seq<string>, error: ArgError)
    ensures Checked(Scan(args)) == Err(error) <==>
            || (exists flags, rest :: args == Spelled(flags) + rest && Stops(rest, error))
            || (exists flags :: args == Spelled(flags) && Lacks(flags, error))
  {
    forall flags, rest | args == Spelled(flags) + rest && Stops(rest, error)
      ensures Checked(Scan(args)) == Err(error)
    {
      RestAnswered(flags, rest, error);
    }
    forall flags | args == Spelled(flags) && Lacks(flags, error)
      ensures Checked(Scan(args)) == Err(error)
    {
      FlagsAnswered(flags);
    }
    if Checked(Scan(args)) == Err(error) {
      var flags, rest := FlagsThenRest(args);
      if rest == [] {
        assert args == Spelled(flags);
        FlagsAnswered(flags);
        assert NamesTwo(flags) || Lacks(flags, FromRequired) || Lacks(flags, ToRequired) || Lacks(flags, SameProvider);
        assert Lacks(flags, error);
      } else {
        var e :| Stops(rest, e);
        RestAnswered(flags, rest, e);
        assert Stops(rest, error);
      }
    }
  }
}
