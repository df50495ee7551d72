/** Splitting a raw command line into tokens on runs of the space character.
    Only ' ' separates; tabs and every other character belong to tokens. */
module Tokenizer {

  /** A token: non-empty and free of spaces. */
  predicate IsWord(w: string) {
    w != [] && forall j | 0 <= j < |w| :: w[j] != ' '
  }

  predicate AllSpaces(s: string) {
    forall j | 0 <= j < |s| :: s[j] == ' '
  }

  /** Length of the space-free run at the front of `t`. */
  function RunLength(t: string): (n: nat)
    ensures n <= |t|
    ensures forall j | 0 <= j < n :: t[j] != ' '
    ensures n < |t| ==> t[n] == ' '
  {
    if t == [] || t[0] == ' ' then 0 else 1 + RunLength(t[1..])
  }

  /** The maximal space-free runs of `s`, left to right. */
  function Tokens(s: string): (r: seq<string>)
    ensures forall k | 0 <= k < |r| :: IsWord(r[k])
    decreases |s|
  {
    if s == [] then []
    else if s[0] == ' ' then Tokens(s[1..])
    else
      var n := RunLength(s);
      [s[..n]] + Tokens(s[n..])
  }

  /** Tokens joined with single spaces: the inverse of Tokens on well-formed lists. */
  function Join(ts: seq<string>): string {
    if |ts| == 0 then ""
    else if |ts| == 1 then ts[0]
    else ts[0] + " " + Join(ts[1..])
  }

  lemma RunLengthIs(t: string, n: nat)
    requires n <= |t|
    requires forall j | 0 <= j < n :: t[j] != ' '
    requires n < |t| ==> t[n] == ' '
    ensures RunLength(t) == n
  {
  }

  lemma {:induction false} RunLengthAppend(a: string, t: string)
    ensures RunLength(a + t) == if RunLength(a) < |a| then RunLength(a) else |a| + RunLength(t)
  {
    if a != [] && a[0] != ' ' {
      assert (a + t)[1..] == a[1..] + t;
      RunLengthAppend(a[1..], t);
    } else if a == [] {
      assert a + t == t;
    }
  }

  /** A stretch of spaces contributes no token. */
  lemma {:induction false} TokensSkipSpaces(s: string, from: nat, upto: nat)
    requires from <= upto <= |s|
    requires forall j | from <= j < upto :: s[j] == ' '
    ensures Tokens(s[from..]) == Tokens(s[upto..])
    decreases upto - from
  {
    if from < upto {
      assert s[from..][1..] == s[from + 1..];
      TokensSkipSpaces(s, from + 1, upto);
    }
  }

  /** A run s[current..next] ended by a space or the end of `s` is the next token. */
  lemma TokensRun(s: string, current: nat, next: nat)
    requires current < next <= |s|
    requires forall j | current <= j < next :: s[j] != ' '
    requires next < |s| ==> s[next] == ' '
    ensures next == |s| ==> Tokens(s[current..]) == [s[current..next]]
    ensures next < |s| ==> Tokens(s[current..]) == [s[current..next]] + Tokens(s[next + 1..])
  {
    var t := s[current..];
    RunLengthIs(t, next - current);
    assert t[..next - current] == s[current..next];
    assert t[next - current..] == s[next..];
    if next < |s| {
      assert s[next..][1..] == s[next + 1..];
    } else {
      assert s[next..] == [];
    }
  }

  /** Tokens is a homomorphism from space-separated concatenation to list concatenation. */
  lemma {:induction false} TokensConcat(a: string, b: string)
    ensures Tokens(a + " " + b) == Tokens(a) + Tokens(b)
    decreases |a|
  {
    var s := a + " " + b;
    if a == [] {
      assert s[1..] == b;
    } else if a[0] == ' ' {
      assert s[1..] == a[1..] + " " + b;
      TokensConcat(a[1..], b);
    } else {
      var n := RunLength(a);
      RunLengthAppend(a, " " + b);
      assert a + (" " + b) == s;
      assert RunLength(s) == n;
      assert s[..n] == a[..n];
      assert s[n..] == a[n..] + " " + b;
      TokensConcat(a[n..], b);
    }
  }

  /** Any non-empty run of spaces separates exactly like a single space. */
  lemma TokensSeparated(a: string, sep: string, b: string)
    requires sep != [] && AllSpaces(sep)
    ensures Tokens(a + sep + b) == Tokens(a) + Tokens(b)
  {
    var rest := sep[1..] + b;
    assert a + sep + b == a + " " + rest;
    TokensConcat(a, rest);
    TokensSkipSpaces(rest, 0, |sep| - 1);
    assert rest[|sep| - 1..] == b;
  }

  /** Only the all-space strings (the empty one included) yield no token. */
  lemma TokensEmptyIff(s: string)
    ensures Tokens(s) == [] <==> AllSpaces(s)
  {
    if AllSpaces(s) {
      TokensSkipSpaces(s, 0, |s|);
      assert s[0..] == s;
    } else {
      var j :| 0 <= j < |s| && s[j] != ' ';
      var from := FirstNonSpace(s, 0, j);
      TokensSkipSpaces(s, 0, from);
      assert s[0..] == s;
    }
  }

  /** Index of the first non-space at or after `from`, given that `j` is one. */
  lemma {:induction false} FirstNonSpace(s: string, from: nat, j: nat) returns (k: nat)
    requires from <= j < |s| && s[j] != ' '
    ensures from <= k <= j && s[k] != ' '
    ensures forall i | from <= i < k :: s[i] == ' '
    ensures Tokens(s[k..]) != []
    decreases j - from
  {
    if s[from] != ' ' {
      k := from;
    } else {
      k := FirstNonSpace(s, from + 1, j);
    }
    assert s[k..][0] != ' ';
  }

  /** A single word is its own only token. */
  lemma TokensOfWord(w: string)
    requires IsWord(w)
    ensures Tokens(w) == [w]
  {
    TokensRun(w, 0, |w|);
    assert w[0..] == w && w[0..|w|] == w;
  }

  /** Splitting undoes joining with single spaces. */
  lemma {:induction false} JoinRoundTrip(ts: seq<string>)
    requires forall k | 0 <= k < |ts| :: IsWord(ts[k])
    ensures Tokens(Join(ts)) == ts
  {
    if |ts| == 1 {
      TokensOfWord(ts[0]);
    } else if |ts| > 1 {
      TokensConcat(ts[0], Join(ts[1..]));
      TokensOfWord(ts[0]);
      JoinRoundTrip(ts[1..]);
    }
  }

  /** First index at or after `from` holding a non-space, or |s| (npos). */
  method FindFirstNotSpace(s: string, from: nat) returns (k: nat)
    requires from <= |s|
    ensures from <= k <= |s|
    ensures forall j | from <= j < k :: s[j] == ' '
    ensures k < |s| ==> s[k] != ' '
  {
    k := from;
    while k < |s| && s[k] == ' '
      invariant from <= k <= |s|
      invariant forall j | from <= j < k :: s[j] == ' '
    {
      k := k + 1;
    }
  }

  /** First index at or after `from` holding a space, or |s| (npos). */
  method FindFirstSpace(s: string, from: nat) returns (k: nat)
    requires from <= |s|
    ensures from <= k <= |s|
    ensures forall j | from <= j < k :: s[j] != ' '
    ensures k < |s| ==> s[k] == ' '
  {
    k := from;
    while k < |s| && s[k] != ' '
      invariant from <= k <= |s|
      invariant forall j | from <= j < k :: s[j] != ' '
    {
      k := k + 1;
    }
  }

  /** The library's split: skip spaces, take the run up to the next space, repeat. */
  method Split(s: string) returns (result: seq<string>)
    ensures result == Tokens(s)
  {
    result := [];
    var from := 0;
    var done := false;
    while !done
      invariant from <= |s|
      invariant !done ==> result + Tokens(s[from..]) == Tokens(s)
      invariant done ==> result == Tokens(s)
      decreases |s| - from + (if done then 0 else 1)
    {
      var current := FindFirstNotSpace(s, from);
      TokensSkipSpaces(s, from, current);
      if current == |s| {
        assert s[current..] == [];
        done := true;
      } else {
        var next := FindFirstSpace(s, current);
        TokensRun(s, current, next);
        ghost var before := result;
        result := result + [s[current..next]];
        if next == |s| {
          assert Tokens(s[current..]) == [s[current..next]];
          done := true;
        } else {
          assert before + Tokens(s[current..]) == result + Tokens(s[next + 1..]);
          from := next + 1;
        }
      }
    }
  }
}
