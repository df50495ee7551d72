/** The meaning of parse_args on a token list: pre-fill, one left-to-right pass
    with a token cursor and a positional cursor, and the missing-positional check. */
module Parsing {
  import opened Arguments

  datatype Option<T> = None | Some(value: T)

  datatype Result<T, E> = Ok(value: T) | Err(error: E)

  /** Why a parse fails. UnknownOption and MissingOption are the two kinds the
      library reports; MissingValue and UnsupportedAction stand where it reads past
      the end of the tokens or loops forever, and EmptyToken where `.at(0)` on the
      token under the cursor throws. */
  datatype ParseError =
    | UnknownOption(token: string)
    | MissingOption(name: string)
    | MissingValue(flag: string)
    | UnsupportedAction(flag: string)
    | EmptyToken

  type Values = map<string, string>

  predicate NonEmptyTokens(ts: seq<string>) {
    forall k | 0 <= k < |ts| :: ts[k] != []
  }

  /** A token the pass reads as a positional value: non-empty and not a flag. */
  predicate IsBare(t: string) {
    t != [] && !IsFlag(t)
  }

  /** Some spec of the registry stores under `key`. */
  ghost predicate IsDest(reg: Registry, key: string) {
    exists i | 0 <= i < |reg.specs| :: reg.specs[i].dest == key
  }

  /** Some positional with index in [lo, hi) stores under `key`. */
  ghost predicate DestIn(reg: Registry, key: string, lo: nat, hi: nat)
    requires reg.Valid() && hi <= |reg.positional|
  {
    exists j | lo <= j < hi :: reg.Positional(j).dest == key
  }

  /** Positionals with index in [lo, hi) store under pairwise different keys. */
  ghost predicate DistinctDests(reg: Registry, lo: nat, hi: nat)
    requires reg.Valid() && hi <= |reg.positional|
  {
    forall i, j | lo <= i < j < hi :: reg.Positional(i).dest != reg.Positional(j).dest
  }

  /** No pass over `rest` from positional cursor `p` can store under `key`: no
      registered flag among the tokens and no positional from `p` on has it as dest. */
  ghost predicate Untouched(reg: Registry, rest: seq<string>, p: nat, key: string)
    requires reg.Valid()
  {
    (forall t | t in rest && t in reg.optional :: reg.Optional(t).dest != key) &&
    (forall j | p <= j < |reg.positional| :: reg.Positional(j).dest != key)
  }

  /** The steps the pass takes over `mid`, from positional cursor `p`, store nothing
      under `d`, and the last of them ends exactly at the end of `mid` (or one of
      them stops the pass with an error). */
  ghost predicate AvoidsDest(reg: Registry, mid: seq<string>, p: nat, d: string)
    requires reg.Valid()
    decreases |mid|, |reg.positional| - p
  {
    if mid == [] || mid[0] == [] then true
    else if IsFlag(mid[0]) then
      if mid[0] !in reg.optional || reg.Optional(mid[0]).action != Store then true
      else |mid| >= 2 && reg.Optional(mid[0]).dest != d && AvoidsDest(reg, mid[2..], p, d)
    else if p >= |reg.positional| then true
    else if reg.Positional(p).action == Store then
      reg.Positional(p).dest != d && AvoidsDest(reg, mid[1..], p + 1, d)
    else AvoidsDest(reg, mid, p + 1, d)
  }

  /** Every registered surface name mapped to its spec's default value. */
  function Prefill(reg: Registry): (m: Values)
    requires reg.Valid()
    ensures m.Keys == reg.optional.Keys
  {
    map k | k in reg.optional :: reg.Optional(k).defaultValue
  }

  /** The main pass over the tokens still to be read, with positional cursor `p`
      and the values gathered so far. */
  function Scan(reg: Registry, rest: seq<string>, p: nat, acc: Values): (r: Result<Values, ParseError>)
    requires reg.Valid()
    ensures r.Ok? ==> acc.Keys <= r.value.Keys
    decreases |rest|, |reg.positional| - p
  {
    if rest == [] then Ok(acc)
    else if rest[0] == [] then Err(EmptyToken)
    else
      var arg := rest[0];
      if IsFlag(arg) then
        if arg !in reg.optional then Err(UnknownOption(arg))
        else
          var a := reg.Optional(arg);
          if a.action != Store then Err(UnsupportedAction(arg))
          else if |rest| == 1 then Err(MissingValue(arg))
          else Scan(reg, rest[2..], p, acc[a.dest := rest[1]])
      else if p >= |reg.positional| then Err(UnknownOption(arg))
      else
        var a := reg.Positional(p);
        if a.action == Store then Scan(reg, rest[1..], p + 1, acc[a.dest := arg])
        else Scan(reg, rest, p + 1, acc)
  }

  /** The first positional from index j on whose name is not a key of `m`. */
  function FirstMissing(reg: Registry, m: Values, j: nat): (r: Option<string>)
    requires reg.Valid() && j <= |reg.positional|
    ensures r.None? <==> forall k | j <= k < |reg.positional| :: reg.Positional(k).firstName in m
    ensures r.Some? ==>
      exists k | j <= k < |reg.positional| ::
        reg.Positional(k).firstName == r.value && r.value !in m &&
        forall l | j <= l < k :: reg.Positional(l).firstName in m
    decreases |reg.positional| - j
  {
    if j == |reg.positional| then None
    else
      var name := reg.Positional(j).firstName;
      if name !in m then Some(name) else FirstMissing(reg, m, j + 1)
  }

  /** parse_args on a token list. */
  function Parse(reg: Registry, args: seq<string>): (r: Result<Values, ParseError>)
    requires reg.Valid()
    ensures r.Ok? ==> reg.optional.Keys <= r.value.Keys
    ensures r.Ok? ==> forall j | 0 <= j < |reg.positional| :: reg.Positional(j).firstName in r.value
    ensures r.Err? ==> r.error.MissingOption? || Scan(reg, args, 0, Prefill(reg)).Err?
  {
    match Scan(reg, args, 0, Prefill(reg))
    case Err(e) => Err(e)
    case Ok(m) =>
      match FirstMissing(reg, m, 0)
      case Some(name) => Err(MissingOption(name))
      case None => Ok(m)
  }

  // ---------------------------------------------------------------------------
  // The pass

  /** A successful pass only adds keys that are some spec's dest, keeps the value
      of every key it cannot write, and stores nothing but verbatim tokens. */
  lemma {:induction false} ScanFrame(reg: Registry, rest: seq<string>, p: nat, acc: Values, m: Values)
    requires reg.Valid()
    requires Scan(reg, rest, p, acc) == Ok(m)
    ensures acc.Keys <= m.Keys
    ensures forall k | k in m && k !in acc :: IsDest(reg, k)
    ensures forall k | k in acc && Untouched(reg, rest, p, k) :: m[k] == acc[k]
    ensures forall k | k in m :: (k in acc && m[k] == acc[k]) || m[k] in rest
    decreases |rest|, |reg.positional| - p
  {
    if rest != [] {
      var arg := rest[0];
      if IsFlag(arg) {
        var i := reg.optional[arg];
        var d := reg.specs[i].dest;
        assert IsDest(reg, d);
        ScanFrame(reg, rest[2..], p, acc[d := rest[1]], m);
        assert forall t | t in rest[2..] :: t in rest;
        forall k | k in acc && Untouched(reg, rest, p, k)
          ensures m[k] == acc[k]
        {
          assert Untouched(reg, rest[2..], p, k);
        }
      } else {
        var i := reg.positional[p];
        var d := reg.specs[i].dest;
        assert IsDest(reg, d);
        if reg.specs[i].action == Store {
          ScanFrame(reg, rest[1..], p + 1, acc[d := arg], m);
          assert forall t | t in rest[1..] :: t in rest;
          forall k | k in acc && Untouched(reg, rest, p, k)
            ensures m[k] == acc[k]
          {
            assert Untouched(reg, rest[1..], p + 1, k);
          }
        } else {
          ScanFrame(reg, rest, p + 1, acc, m);
          forall k | k in acc && Untouched(reg, rest, p, k)
            ensures m[k] == acc[k]
          {
            assert Untouched(reg, rest, p + 1, k);
          }
        }
      }
    }
  }

  /** What each error names: an unknown flag or a bare token no positional takes;
      a Store flag left as the last token; a flag whose action is not Store.
      The pass itself never reports a missing positional. */
  lemma {:induction false} ScanErrors(reg: Registry, rest: seq<string>, p: nat, acc: Values, e: ParseError)
    requires reg.Valid()
    requires Scan(reg, rest, p, acc) == Err(e)
    ensures e.UnknownOption? ==>
      e.token in rest && e.token != [] && (IsFlag(e.token) ==> e.token !in reg.optional)
    ensures e.MissingValue? ==>
      |rest| > 0 && rest[|rest| - 1] == e.flag && IsFlag(e.flag) &&
      e.flag in reg.optional && reg.Optional(e.flag).action == Store
    ensures e.UnsupportedAction? ==>
      e.flag in rest && IsFlag(e.flag) && e.flag in reg.optional && reg.Optional(e.flag).action != Store
    ensures e.EmptyToken? ==> [] in rest
    ensures !e.MissingOption?
    decreases |rest|, |reg.positional| - p
  {
    var arg := rest[0];
    if arg == [] {
    } else if IsFlag(arg) {
      if arg in reg.optional && reg.Optional(arg).action == Store && |rest| > 1 {
        ScanErrors(reg, rest[2..], p, acc[reg.Optional(arg).dest := rest[1]], e);
        assert forall t | t in rest[2..] :: t in rest;
      }
    } else if p < |reg.positional| {
      if reg.Positional(p).action == Store {
        ScanErrors(reg, rest[1..], p + 1, acc[reg.Positional(p).dest := arg], e);
        assert forall t | t in rest[1..] :: t in rest;
      } else {
        ScanErrors(reg, rest, p + 1, acc, e);
      }
    }
  }

  /** A Store flag writes the token after it under its dest and moves on by two. */
  lemma StoreConsumesTwo(reg: Registry, flag: string, v: string, rest: seq<string>, p: nat, acc: Values)
    requires reg.Valid()
    requires IsFlag(flag) && flag in reg.optional && reg.Optional(flag).action == Store
    ensures Scan(reg, [flag, v] + rest, p, acc) == Scan(reg, rest, p, acc[reg.Optional(flag).dest := v])
  {
  }

  /** Two surface names of one spec are interchangeable: `-f X` and `--foo X`
      lead to the same outcome. */
  lemma AliasesAgree(reg: Registry, f: string, g: string, v: string, rest: seq<string>, p: nat, acc: Values)
    requires reg.Valid()
    requires IsFlag(f) && IsFlag(g) && f in reg.optional && g in reg.optional
    requires reg.optional[f] == reg.optional[g] && reg.Optional(f).action == Store
    ensures Scan(reg, [f, v] + rest, p, acc) == Scan(reg, [g, v] + rest, p, acc)
  {
  }

  /** The same for a whole parse. */
  lemma AliasesParseAlike(reg: Registry, f: string, g: string, v: string, rest: seq<string>)
    requires reg.Valid()
    requires IsFlag(f) && IsFlag(g) && f in reg.optional && g in reg.optional
    requires reg.optional[f] == reg.optional[g] && reg.Optional(f).action == Store
    ensures Parse(reg, [f, v] + rest) == Parse(reg, [g, v] + rest)
  {
  }

  /** A write to `d` is lost when the pass later meets a Store flag for `d`, as
      long as the steps in between store nothing under `d`. */
  lemma {:induction false} EarlierWriteLost(reg: Registry, mid: seq<string>, g: string, v2: string,
                                            rest: seq<string>, p: nat, acc: Values, v1: string)
    requires reg.Valid()
    requires IsFlag(g) && g in reg.optional && reg.Optional(g).action == Store
    requires AvoidsDest(reg, mid, p, reg.Optional(g).dest)
    ensures Scan(reg, mid + [g, v2] + rest, p, acc[reg.Optional(g).dest := v1]) ==
            Scan(reg, mid + [g, v2] + rest, p, acc)
    decreases |mid|, |reg.positional| - p
  {
    var d := reg.Optional(g).dest;
    var s := mid + [g, v2] + rest;
    if mid == [] {
      assert s == [g, v2] + rest;
      StoreConsumesTwo(reg, g, v2, rest, p, acc[d := v1]);
      StoreConsumesTwo(reg, g, v2, rest, p, acc);
      assert acc[d := v1][d := v2] == acc[d := v2];
    } else if mid[0] == [] {
    } else if IsFlag(mid[0]) {
      if mid[0] in reg.optional && reg.Optional(mid[0]).action == Store {
        var e := reg.Optional(mid[0]).dest;
        assert s[1] == mid[1];
        assert s[2..] == mid[2..] + [g, v2] + rest;
        EarlierWriteLost(reg, mid[2..], g, v2, rest, p, acc[e := mid[1]], v1);
        assert acc[d := v1][e := mid[1]] == acc[e := mid[1]][d := v1];
      }
    } else if p < |reg.positional| {
      var a := reg.Positional(p);
      if a.action == Store {
        assert s[1..] == mid[1..] + [g, v2] + rest;
        EarlierWriteLost(reg, mid[1..], g, v2, rest, p + 1, acc[a.dest := mid[0]], v1);
        assert acc[d := v1][a.dest := mid[0]] == acc[a.dest := mid[0]][d := v1];
      } else {
        EarlierWriteLost(reg, mid, g, v2, rest, p + 1, acc, v1);
      }
    }
  }

  /** A repeated flag (under either of its names, or another Store flag with the
      same dest): the last value wins, whatever lies in between, as long as the
      steps the pass takes there store nothing under that dest. */
  lemma LastWriteWins(reg: Registry, f: string, v1: string, mid: seq<string>, g: string, v2: string,
                      rest: seq<string>, p: nat, acc: Values)
    requires reg.Valid()
    requires IsFlag(f) && IsFlag(g) && f in reg.optional && g in reg.optional
    requires reg.Optional(f).action == Store && reg.Optional(g).action == Store
    requires reg.Optional(f).dest == reg.Optional(g).dest
    requires AvoidsDest(reg, mid, p, reg.Optional(g).dest)
    ensures Scan(reg, [f, v1] + mid + [g, v2] + rest, p, acc) == Scan(reg, mid + [g, v2] + rest, p, acc)
  {
    var tail := mid + [g, v2] + rest;
    assert [f, v1] + mid + [g, v2] + rest == [f, v1] + tail;
    StoreConsumesTwo(reg, f, v1, tail, p, acc);
    EarlierWriteLost(reg, mid, g, v2, rest, p, acc, v1);
  }

  /** Bare tokens fill the positionals in declaration order, one token each. */
  lemma {:induction false} BareTokensInOrder(reg: Registry, rest: seq<string>, p: nat, acc: Values)
    requires reg.Valid()
    requires forall k | 0 <= k < |rest| :: IsBare(rest[k])
    requires p + |rest| <= |reg.positional|
    requires forall j | p <= j < p + |rest| :: reg.Positional(j).action == Store
    requires DistinctDests(reg, p, p + |rest|)
    ensures Scan(reg, rest, p, acc).Ok?
    ensures forall j | p <= j < p + |rest| ::
      reg.Positional(j).dest in Scan(reg, rest, p, acc).value &&
      Scan(reg, rest, p, acc).value[reg.Positional(j).dest] == rest[j - p]
    ensures forall key | key in acc && !DestIn(reg, key, p, p + |rest|) ::
      key in Scan(reg, rest, p, acc).value && Scan(reg, rest, p, acc).value[key] == acc[key]
    ensures forall key | key in Scan(reg, rest, p, acc).value ::
      key in acc || DestIn(reg, key, p, p + |rest|)
    decreases |rest|
  {
    if rest != [] {
      var d := reg.Positional(p).dest;
      var acc' := acc[d := rest[0]];
      assert Scan(reg, rest, p, acc) == Scan(reg, rest[1..], p + 1, acc');
      BareTokensInOrder(reg, rest[1..], p + 1, acc');
      var m := Scan(reg, rest, p, acc).value;
      assert !DestIn(reg, d, p + 1, p + |rest|);
      forall j | p <= j < p + |rest|
        ensures reg.Positional(j).dest in m && m[reg.Positional(j).dest] == rest[j - p]
      {
        if j > p {
          assert rest[1..][j - (p + 1)] == rest[j - p];
        }
      }
      forall key | key in acc && !DestIn(reg, key, p, p + |rest|)
        ensures key in m && m[key] == acc[key]
      {
        assert key != d;
        assert !DestIn(reg, key, p + 1, p + |rest|);
      }
      forall key | key in m
        ensures key in acc || DestIn(reg, key, p, p + |rest|)
      {
        if key == d {
          assert DestIn(reg, key, p, p + |rest|);
        }
      }
    }
  }

  /** A bare token after the last positional is an unknown option naming it;
      whatever follows that token is never read. */
  lemma {:induction false} ExtraBareToken(reg: Registry, rest: seq<string>, p: nat, acc: Values)
    requires reg.Valid()
    requires p <= |reg.positional| < p + |rest|
    requires forall k | 0 <= k <= |reg.positional| - p :: IsBare(rest[k])
    requires forall j | p <= j < |reg.positional| :: reg.Positional(j).action == Store
    ensures Scan(reg, rest, p, acc) == Err(UnknownOption(rest[|reg.positional| - p]))
    decreases |rest|
  {
    if p < |reg.positional| {
      var acc' := acc[reg.Positional(p).dest := rest[0]];
      ExtraBareToken(reg, rest[1..], p + 1, acc');
      assert rest[1..][|reg.positional| - (p + 1)] == rest[|reg.positional| - p];
    }
  }

  // ---------------------------------------------------------------------------
  // Whole parses

  /** A flag that is not registered is rejected at once, naming that flag. */
  lemma UnknownFlagRejected(reg: Registry, f: string, rest: seq<string>)
    requires reg.Valid() && IsFlag(f) && f !in reg.optional
    ensures Parse(reg, [f] + rest) == Err(UnknownOption(f))
  {
  }

  /** An empty token under the cursor stops the parse; one read as a flag's value does not. */
  lemma EmptyTokenRejected(reg: Registry, rest: seq<string>)
    requires reg.Valid()
    ensures Parse(reg, [""] + rest) == Err(EmptyToken)
  {
  }

  /** A Store flag followed by an empty token stores the empty string under its dest. */
  lemma StoreEmptyValue(reg: Registry, flag: string)
    requires reg.Valid() && IsFlag(flag) && flag in reg.optional && reg.Optional(flag).action == Store
    ensures Scan(reg, [flag, ""], 0, Prefill(reg)) == Ok(Prefill(reg)[reg.Optional(flag).dest := ""])
    ensures reg.positional == [] ==> Parse(reg, [flag, ""]) == Ok(Prefill(reg)[reg.Optional(flag).dest := ""])
  {
  }

  /** Success means the pass succeeded and every positional's name is a key. */
  lemma ParseOkIff(reg: Registry, args: seq<string>)
    requires reg.Valid()
    ensures Parse(reg, args).Ok? <==>
      Scan(reg, args, 0, Prefill(reg)).Ok? &&
      forall j | 0 <= j < |reg.positional| ::
        reg.Positional(j).firstName in Scan(reg, args, 0, Prefill(reg)).value
    ensures Parse(reg, args).Ok? ==> Parse(reg, args) == Scan(reg, args, 0, Prefill(reg))
  {
  }

  /** A missing-option error names the first positional whose name the pass left unset. */
  lemma ParseMissingNamesFirst(reg: Registry, args: seq<string>, name: string)
    requires reg.Valid()
    requires Parse(reg, args) == Err(MissingOption(name))
    ensures Scan(reg, args, 0, Prefill(reg)).Ok?
    ensures exists k | 0 <= k < |reg.positional| ::
      reg.Positional(k).firstName == name && name !in Scan(reg, args, 0, Prefill(reg)).value &&
      forall l | 0 <= l < k :: reg.Positional(l).firstName in Scan(reg, args, 0, Prefill(reg)).value
  {
    match Scan(reg, args, 0, Prefill(reg))
    case Err(e) =>
      ScanErrors(reg, args, 0, Prefill(reg), e);
    case Ok(m) =>
  }

  /** Every registered name is a key of a successful result, and keeps its
      default unless some token of the parse can store under it. */
  lemma ParseDefaults(reg: Registry, args: seq<string>, m: Values)
    requires reg.Valid()
    requires Parse(reg, args) == Ok(m)
    ensures forall k | k in reg.optional :: k in m
    ensures forall k | k in reg.optional && Untouched(reg, args, 0, k) :: m[k] == reg.Optional(k).defaultValue
    ensures forall k | k in m :: k in reg.optional || IsDest(reg, k)
  {
    ScanFrame(reg, args, 0, Prefill(reg), m);
  }

  /** With no positionals declared, no tokens give exactly the defaults. */
  lemma NoTokensGiveDefaults(reg: Registry)
    requires reg.Valid() && reg.positional == []
    ensures Parse(reg, []).Ok?
    ensures Parse(reg, []).value.Keys == reg.optional.Keys
    ensures forall k | k in reg.optional :: Parse(reg, []).value[k] == reg.Optional(k).defaultValue
  {
  }

  /** As many bare tokens as positionals: the k-th token is stored under the
      k-th positional's name, and the registered names keep their defaults. */
  lemma ParseAllPositionals(reg: Registry, args: seq<string>)
    requires reg.Valid() && reg.PositionalsNamed()
    requires forall k | 0 <= k < |args| :: IsBare(args[k])
    requires |args| == |reg.positional|
    requires forall j | 0 <= j < |reg.positional| :: reg.Positional(j).action == Store
    requires DistinctDests(reg, 0, |reg.positional|)
    ensures Parse(reg, args).Ok?
    ensures forall k | 0 <= k < |args| ::
      reg.Positional(k).firstName in Parse(reg, args).value &&
      Parse(reg, args).value[reg.Positional(k).firstName] == args[k]
    ensures forall key | key in reg.optional && !DestIn(reg, key, 0, |args|) ::
      key in Parse(reg, args).value && Parse(reg, args).value[key] == reg.Optional(key).defaultValue
  {
    BareTokensInOrder(reg, args, 0, Prefill(reg));
    var m := Scan(reg, args, 0, Prefill(reg)).value;
    assert forall j | 0 <= j < |reg.positional| :: reg.Positional(j).firstName in m;
  }

  /** Fewer bare tokens than positionals: the first unfilled positional is reported missing. */
  lemma ParseMissingPositional(reg: Registry, args: seq<string>)
    requires reg.Valid() && reg.PositionalsNamed()
    requires forall k | 0 <= k < |args| :: IsBare(args[k])
    requires |args| < |reg.positional|
    requires forall j | 0 <= j < |args| :: reg.Positional(j).action == Store
    requires DistinctDests(reg, 0, |args| + 1)
    requires reg.Positional(|args|).firstName !in reg.optional
    ensures Parse(reg, args) == Err(MissingOption(reg.Positional(|args|).firstName))
  {
    var n := |args|;
    assert DistinctDests(reg, 0, n);
    BareTokensInOrder(reg, args, 0, Prefill(reg));
    var m := Scan(reg, args, 0, Prefill(reg)).value;
    var name := reg.Positional(n).firstName;
    assert !DestIn(reg, name, 0, n);
    assert name !in m;
    assert forall j | 0 <= j < n :: reg.Positional(j).firstName in m;
    var r := FirstMissing(reg, m, 0);
    assert r.Some?;
    var k :| 0 <= k < |reg.positional| && reg.Positional(k).firstName == r.value && r.value !in m &&
      forall l | 0 <= l < k :: reg.Positional(l).firstName in m;
    assert k == n;
  }

  /** More bare tokens than positionals: the first surplus token is an unknown option. */
  lemma ParseExtraBareToken(reg: Registry, args: seq<string>)
    requires reg.Valid()
    requires |reg.positional| < |args|
    requires forall k | 0 <= k <= |reg.positional| :: IsBare(args[k])
    requires forall j | 0 <= j < |reg.positional| :: reg.Positional(j).action == Store
    ensures Parse(reg, args) == Err(UnknownOption(args[|reg.positional|]))
  {
    ExtraBareToken(reg, args, 0, Prefill(reg));
  }
}
