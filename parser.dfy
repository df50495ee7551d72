/** The ArgumentParser object: a registry built by add_argument calls and the
    parse_args pass over it. */
module ArgParse {
  import opened Arguments
  import opened Parsing
  import Tokenizer

  class ArgumentParser {
    /** Every spec ever declared; a builder handle is an index into it. */
    var specs: seq<Argument>
    /** Surface name (`-f`, `--foo`) to the index of its spec. */
    var optionalArguments: map<string, nat>
    /** Indices of the positional specs, in declaration order. */
    var positionalArguments: seq<nat>

    function Snapshot(): Registry
      reads this
    {
      Registry(specs, optionalArguments, positionalArguments)
    }

    predicate Valid()
      reads this
    {
      Snapshot().Valid() && Snapshot().PositionalsNamed()
    }

    constructor ()
      ensures Valid()
      ensures specs == [] && optionalArguments == map[] && positionalArguments == []
    {
      specs := [];
      optionalArguments := map[];
      positionalArguments := [];
    }

    /** add_argument(name_or_flag): a name starting with '-' becomes an optional
        keyed by that name (replacing any earlier entry), any other name is
        appended as a required positional. */
    method AddArgument(name: string) returns (handle: nat)
      requires Valid() && name != []
      modifies this
      ensures Valid()
      ensures handle == |old(specs)| && handle < |specs|
      ensures specs == old(specs) + [NewArgument(name, "", name, !IsFlag(name))]
      ensures IsFlag(name) ==>
        optionalArguments == old(optionalArguments)[name := handle] &&
        positionalArguments == old(positionalArguments)
      ensures !IsFlag(name) ==>
        positionalArguments == old(positionalArguments) + [handle] &&
        optionalArguments == old(optionalArguments)
      ensures IsFlag(name) ==>
        Snapshot().Optional(name).dest == name && !Snapshot().Optional(name).required
      ensures !IsFlag(name) ==>
        Snapshot().Positional(|positionalArguments| - 1).dest == name &&
        Snapshot().Positional(|positionalArguments| - 1).required
    {
      handle := |specs|;
      var optional := name[0] == '-';
      specs := specs + [NewArgument(name, "", name, !optional)];
      if optional {
        optionalArguments := optionalArguments[name := handle];
      } else {
        positionalArguments := positionalArguments + [handle];
      }
      forall j | 0 <= j < |positionalArguments|
        ensures Snapshot().Positional(j).dest == Snapshot().Positional(j).firstName
      {
        if j < |old(positionalArguments)| {
          assert positionalArguments[j] == old(positionalArguments)[j] < |old(specs)|;
          assert old(Snapshot()).Positional(j) == Snapshot().Positional(j);
        }
      }
    }

    /** add_argument(short_name, long_name): one optional spec, with `dest` the
        long name, reachable under both names. */
    method AddArgumentPair(shortName: string, longName: string) returns (handle: nat)
      requires Valid()
      modifies this
      ensures Valid()
      ensures handle == |old(specs)| && handle < |specs|
      ensures specs == old(specs) + [NewArgument(shortName, longName, longName, false)]
      ensures optionalArguments == old(optionalArguments)[longName := handle][shortName := handle]
      ensures positionalArguments == old(positionalArguments)
      ensures optionalArguments[shortName] == optionalArguments[longName] == handle
      ensures Snapshot().Optional(longName).dest == longName
    {
      handle := |specs|;
      specs := specs + [NewArgument(shortName, longName, longName, false)];
      optionalArguments := optionalArguments[longName := handle];
      optionalArguments := optionalArguments[shortName := handle];
      assert forall j | 0 <= j < |positionalArguments| ::
        Snapshot().Positional(j) == old(Snapshot()).Positional(j);
    }

    /** The builder's default_value setter: writes through the handle, so every
        name sharing the spec sees the new default. */
    method SetDefault(handle: nat, value: string)
      requires Valid() && handle < |specs|
      modifies this
      ensures Valid()
      ensures specs == old(specs)[handle := old(specs)[handle].(defaultValue := value)]
      ensures optionalArguments == old(optionalArguments)
      ensures positionalArguments == old(positionalArguments)
    {
      specs := specs[handle := specs[handle].(defaultValue := value)];
      assert forall j | 0 <= j < |positionalArguments| ::
        Snapshot().Positional(j).dest == old(Snapshot()).Positional(j).dest &&
        Snapshot().Positional(j).firstName == old(Snapshot()).Positional(j).firstName;
    }

    /** The builder's action selectors, as far as the action tag goes. */
    method SetAction(handle: nat, action: Action)
      requires Valid() && handle < |specs|
      modifies this
      ensures Valid()
      ensures specs == old(specs)[handle := old(specs)[handle].(action := action)]
      ensures optionalArguments == old(optionalArguments)
      ensures positionalArguments == old(positionalArguments)
    {
      specs := specs[handle := specs[handle].(action := action)];
      assert forall j | 0 <= j < |positionalArguments| ::
        Snapshot().Positional(j).dest == old(Snapshot()).Positional(j).dest &&
        Snapshot().Positional(j).firstName == old(Snapshot()).Positional(j).firstName;
    }

    /** parse_args(vector): pre-fill, the cursor loop, then the positional check. */
    method ParseArgs(args: seq<string>) returns (r: Result<Values, ParseError>)
      requires Valid()
      ensures r == Parse(Snapshot(), args)
    {
      ghost var reg := Snapshot();
      var aux: Values := map[];
      var keys := optionalArguments.Keys;
      while keys != {}
        invariant keys <= optionalArguments.Keys
        invariant aux == map k | k in optionalArguments.Keys - keys :: specs[optionalArguments[k]].defaultValue
        decreases keys
      {
        var k :| k in keys;
        aux := aux[k := specs[optionalArguments[k]].defaultValue];
        keys := keys - {k};
      }
      assert aux == Prefill(reg);

      var i := 0;
      var cur := 0;
      while i < |args|
        invariant i <= |args| && cur <= |positionalArguments|
        invariant Scan(reg, args[i..], cur, aux) == Scan(reg, args, 0, Prefill(reg))
        decreases |args| - i, |positionalArguments| - cur
      {
        var arg := args[i];
        assert args[i..][0] == arg;
        if arg == [] {
          return Err(EmptyToken);
        }
        if arg[0] == '-' {
          if arg !in optionalArguments {
            return Err(UnknownOption(arg));
          }
          var a := specs[optionalArguments[arg]];
          if a.action != Store {
            return Err(UnsupportedAction(arg));
          }
          if i + 1 == |args| {
            return Err(MissingValue(arg));
          }
          assert args[i..][1] == args[i + 1] && args[i..][2..] == args[i + 2..];
          aux := aux[a.dest := args[i + 1]];
          i := i + 2;
        } else {
          if cur >= |positionalArguments| {
            return Err(UnknownOption(arg));
          }
          var a := specs[positionalArguments[cur]];
          if a.action == Store {
            assert args[i..][1..] == args[i + 1..];
            aux := aux[a.dest := arg];
            i := i + 1;
          }
          cur := cur + 1;
        }
      }
      assert args[i..] == [];

      for j := 0 to |positionalArguments|
        invariant FirstMissing(reg, aux, j) == FirstMissing(reg, aux, 0)
      {
        var name := specs[positionalArguments[j]].firstName;
        if name !in aux {
          return Err(MissingOption(name));
        }
      }
      return Ok(aux);
    }

    /** parse_args(string): split on spaces, then parse the tokens. */
    method ParseString(s: string) returns (r: Result<Values, ParseError>)
      requires Valid()
      ensures NonEmptyTokens(Tokenizer.Tokens(s))
      ensures r == Parse(Snapshot(), Tokenizer.Tokens(s))
    {
      var tokens := Tokenizer.Split(s);
      r := ParseArgs(tokens);
    }
  }

  /** The registry the library's driver builds: `-f`/`--foo` and a positional `bar`. */
  function TestRegistry(): (reg: Registry)
    ensures reg.Valid() && reg.PositionalsNamed()
  {
    Registry([NewArgument("-f", "--foo", "--foo", false), NewArgument("bar", "", "bar", true)],
             map["--foo" := 0, "-f" := 0], [1])
  }

  lemma TestRegistryPrefill()
    ensures Prefill(TestRegistry()) == map["-f" := "", "--foo" := ""]
  {
  }

  /** "BAR": the positional takes it; both flag names keep the empty default. */
  lemma ParseBar()
    ensures Parse(TestRegistry(), ["BAR"]) == Ok(map["-f" := "", "--foo" := "", "bar" := "BAR"])
  {
    var reg := TestRegistry();
    TestRegistryPrefill();
    var m := map["-f" := "", "--foo" := "", "bar" := "BAR"];
    assert !IsFlag("BAR");
    assert Scan(reg, ["BAR"], 0, Prefill(reg)) == Scan(reg, [], 1, m);
  }

  /** "BAR --foo FOO": the value goes under `--foo` only; `-f` keeps its default. */
  lemma ParseBarFoo()
    ensures Parse(TestRegistry(), ["BAR", "--foo", "FOO"]) ==
      Ok(map["-f" := "", "--foo" := "FOO", "bar" := "BAR"])
  {
    var reg := TestRegistry();
    TestRegistryPrefill();
    var m1 := map["-f" := "", "--foo" := "", "bar" := "BAR"];
    var m2 := map["-f" := "", "--foo" := "FOO", "bar" := "BAR"];
    assert !IsFlag("BAR") && IsFlag("--foo");
    assert ["BAR", "--foo", "FOO"][1..] == ["--foo", "FOO"];
    assert Scan(reg, ["BAR", "--foo", "FOO"], 0, Prefill(reg)) == Scan(reg, ["--foo", "FOO"], 1, m1);
    StoreConsumesTwo(reg, "--foo", "FOO", [], 1, m1);
    assert ["--foo", "FOO"] + [] == ["--foo", "FOO"];
    assert m1["--foo" := "FOO"] == m2;
  }

  /** "--foo FOO": no bare token, so `bar` is reported missing. */
  lemma ParseFooOnly()
    ensures Parse(TestRegistry(), ["--foo", "FOO"]) == Err(MissingOption("bar"))
  {
  }

  /** "--unknown X": an unregistered flag is rejected, naming it. */
  lemma ParseUnknownFlag()
    ensures Parse(TestRegistry(), ["--unknown", "X"]) == Err(UnknownOption("--unknown"))
  {
  }

  /** "BAR --foo ''": an empty value token is stored like any other. */
  lemma ParseBarFooEmpty()
    ensures Parse(TestRegistry(), ["BAR", "--foo", ""]) == Ok(map["-f" := "", "--foo" := "", "bar" := "BAR"])
  {
    var reg := TestRegistry();
    TestRegistryPrefill();
    var m1 := map["-f" := "", "--foo" := "", "bar" := "BAR"];
    assert !IsFlag("BAR") && IsFlag("--foo");
    assert ["BAR", "--foo", ""][1..] == ["--foo", ""];
    assert Scan(reg, ["BAR", "--foo", ""], 0, Prefill(reg)) == Scan(reg, ["--foo", ""], 1, m1);
    StoreConsumesTwo(reg, "--foo", "", [], 1, m1);
    assert ["--foo", ""] + [] == ["--foo", ""];
    assert m1["--foo" := ""] == m1;
  }

  /** "-f A BAR --foo B": the second write to `--foo` wins over the first, across the bare token. */
  lemma RepeatedFooLastWins()
    ensures Parse(TestRegistry(), ["-f", "A", "BAR", "--foo", "B"]) == Parse(TestRegistry(), ["BAR", "--foo", "B"])
  {
    var reg := TestRegistry();
    assert IsFlag("-f") && IsFlag("--foo") && !IsFlag("BAR");
    assert ["BAR"][1..] == [];
    assert AvoidsDest(reg, ["BAR"], 0, "--foo");
    LastWriteWins(reg, "-f", "A", ["BAR"], "--foo", "B", [], 0, Prefill(reg));
    assert ["-f", "A"] + ["BAR"] + ["--foo", "B"] + [] == ["-f", "A", "BAR", "--foo", "B"];
    assert ["BAR"] + ["--foo", "B"] + [] == ["BAR", "--foo", "B"];
  }

  /** The driver's three command lines split into the expected tokens. */
  lemma DriverTokens()
    ensures Tokenizer.Tokens("BAR") == ["BAR"]
    ensures Tokenizer.Tokens("BAR --foo FOO") == ["BAR", "--foo", "FOO"]
    ensures Tokenizer.Tokens("--foo FOO") == ["--foo", "FOO"]
  {
    Tokenizer.TokensOfWord("BAR");
    assert Tokenizer.Join(["BAR", "--foo", "FOO"]) == "BAR --foo FOO";
    Tokenizer.JoinRoundTrip(["BAR", "--foo", "FOO"]);
    assert Tokenizer.Join(["--foo", "FOO"]) == "--foo FOO";
    Tokenizer.JoinRoundTrip(["--foo", "FOO"]);
  }

  /** The driver's declarations, through the class: `-f`/`--foo`, then `bar`. */
  method NewTestParser() returns (parser: ArgumentParser)
    ensures parser.Valid() && parser.Snapshot() == TestRegistry()
  {
    parser := new ArgumentParser();
    var foo := parser.AddArgumentPair("-f", "--foo");
    var bar := parser.AddArgument("bar");
    assert parser.optionalArguments == map["--foo" := 0, "-f" := 0];
  }

  /** The library's own driver: the three parse_args calls of test_name. */
  method TestName() returns (r1: Result<Values, ParseError>, r2: Result<Values, ParseError>, r3: Result<Values, ParseError>)
    ensures r1 == Ok(map["-f" := "", "--foo" := "", "bar" := "BAR"])
    ensures r2 == Ok(map["-f" := "", "--foo" := "FOO", "bar" := "BAR"])
    ensures r3 == Err(MissingOption("bar"))
  {
    var parser := NewTestParser();
    DriverTokens();
    ParseBar();
    ParseBarFoo();
    ParseFooOnly();
    r1 := parser.ParseString("BAR");
    r2 := parser.ParseString("BAR --foo FOO");
    r3 := parser.ParseString("--foo FOO");
  }
}
