# argparse: argument registry and parser, modelled in Dafny

This project models the parser of a small C++ command-line library, `argparse.hpp`. It covers three parts:

- **`split`** turns a raw string into tokens. Tokens are the maximal runs of characters other than `' '`.
- **The registry** is an `ArgumentParser` with two fields in the source.
  - `_optional_arguments` maps each surface name (`-f`, `--foo`) to a spec.
  - `_positional_arguments` is the ordered list of positional specs.
- **`parse_args`** makes one left-to-right pass over the tokens. It has a token cursor and a positional cursor, and it writes into a fresh `map<string,string>`.

## Layout

- `tokenizer.dfy` (module `Tokenizer`)
  - `Tokens` is the meaning of `split`, as a recursive function.
  - `Split` is the library's loop. It is built on the two searches `FindFirstNotSpace` and `FindFirstSpace`, which stand for `find_first_not_of(" ")` and `find_first_of(" ")`. `npos` is `|s|`.
  - The lemmas fully characterise `Tokens`:
    - `Tokens(a + " " + b) == Tokens(a) + Tokens(b)`.
    - Any non-empty run of spaces separates like one space.
    - A single word is its own only token.
    - A string has no tokens exactly when it is all spaces.
    - Splitting undoes joining with single spaces.
- `registry.dfy` (module `Arguments`)
  - The `Action` enumeration and the `Argument` record.
  - `Registry`, a value snapshot of the parser's fields. `optional` maps a surface name to an *index* into `specs`. So the two-name form, which the C++ stores as one `Argument*` under two keys, gives two keys with one index.
- `parsing.dfy` (module `Parsing`). This is the meaning of `parse_args` on a token list.
  - `Prefill` maps every surface key to its spec's default.
  - `Scan` is the cursor pass over the tokens not yet read.
  - `FirstMissing` is the post-pass.
  - `Untouched` says that no registered flag among the tokens and no positional still to come stores under a key. `AvoidsDest` follows the pass's own steps over a stretch of tokens and says that none of them stores under a key and that the last one ends where the stretch does.
  - `Parse` puts the three together.
  - The lemmas state what the pass does and what each error names.
- `parser.dfy` (module `ArgParse`)
  - The class `ArgumentParser` holds the fields `specs`, `optionalArguments` and `positionalArguments`.
  - Its methods are `AddArgument`, `AddArgumentPair`, `SetDefault` and `SetAction`.
  - `ParseArgs` is the `while` loop of the source, with its two cursors and the post-pass `for` loop. It is proved equal to `Parsing.Parse`.
  - `ParseString` splits the string first.
  - `TestName` replays the library's own driver.

Behaviour kept from the code:

- Only `' '` separates tokens; tabs and every other character belong to tokens.
- `dest` is the declared name with its dashes (`"--foo"`).
- Pre-fill writes the surface *keys*, not the `dest`s. A two-name flag therefore pre-fills both `-f` and `--foo`, but a value is only ever written under `--foo`.
- Registering a name again replaces the earlier map entry.
- A bare token after the last positional is reported as an unknown option. There is no separate error kind for surplus bare tokens.
- The post-pass checks `first_name`. The writes go to `dest`.
- A positional whose action is not Store is skipped: the positional cursor advances and the same token is read again. The model does the same.

Two places where the source has no defined outcome become explicit errors:

- A Store flag that is the last token makes the source read `args[i + 1]` past the end. The model returns `MissingValue(flag)`.
- A flag whose action is not Store makes the source loop forever, because the `switch` has no case and `i` never advances. The model returns `UnsupportedAction(flag)`.
- An empty token under the token cursor makes `args[i].at(0)` throw `std::out_of_range`. The model returns `EmptyToken`. An empty token read as a Store flag's value is never `.at(0)`'d and is stored like any other value.

The two errors the library does report, through `handle_unknown_option` and `handle_missing_option`, are `UnknownOption(token)` and `MissingOption(name)`.

## Model

| member | source | states |
|---|---|---|
| Tokenizer.RunLength | argparse.hpp:48-49 | the token starting here ends at the first `' '` or at the end of the string |
| Tokenizer.Tokens | argparse.hpp:39-51 | every token produced is non-empty and contains no `' '` |
| Tokenizer.FindFirstNotSpace | argparse.hpp:44-45 | returns the first index at or after `from` that holds a non-space, or `|s|` (npos) when there is none |
| Tokenizer.FindFirstSpace | argparse.hpp:48 | returns the first index at or after `from` that holds a space, or `|s|` (npos) when there is none |
| Tokenizer.Split | argparse.hpp:39-51 | the `do/while` loop pushes exactly the tokens `Tokens(s)`, in order |
| Tokenizer.TokensSkipSpaces | argparse.hpp:44-45 | a stretch of spaces contributes no token |
| Tokenizer.TokensRun | argparse.hpp:47-49 | a run ended by a space or by the end of the string is the next token, and splitting resumes after that space |
| Tokenizer.TokensConcat | argparse.hpp:39-51 | joining two strings with one space concatenates their token lists |
| Tokenizer.TokensSeparated | argparse.hpp:39-51 | a run of several spaces separates exactly like one space |
| Tokenizer.TokensEmptyIff | argparse.hpp:43-45 | there are no tokens if and only if the string is empty or all spaces |
| Tokenizer.TokensOfWord | argparse.hpp:47-50 | a non-empty space-free string is its own single token |
| Tokenizer.JoinRoundTrip | argparse.hpp:39-51 | splitting a single-space join of non-empty space-free tokens returns those tokens |
| Arguments.NewArgument | argparse.hpp:184-188 | the spec `new Argument` starts as: Store action, empty default, the given names and `dest`; it has no contract of its own, and `AddArgument`, `AddArgumentPair` and every lemma below are stated about it |
| Arguments.IsFlag | argparse.hpp:189 | the test `name.at(0) == '-'` that both `add_argument` and the pass (argparse.hpp:258) use to tell flags from positionals; it has no contract of its own, and `AddArgument` and `Scan` are stated in terms of it |
| Parsing.Prefill | argparse.hpp:250-253 | the pre-fill has exactly the registered surface names as keys; it is the starting map that `ParseArgs`'s ensures and the lemmas about whole parses are stated about |
| Parsing.Scan | argparse.hpp:256-291 | the cursor pass never drops a key of the map it starts from; it is the definition that `ParseArgs`'s loop invariant and the pass lemmas below are stated about |
| Parsing.Parse | argparse.hpp:249-301 | a successful parse has every registered surface name and every positional's name as a key; a failed one failed in the pass or is a missing option from the post-pass; it is the definition that `ParseArgs`'s ensures equals |
| Parsing.FirstMissing | argparse.hpp:293-298 | returns nothing exactly when every positional name is a key; otherwise returns the first positional, in declaration order, whose name is absent |
| Parsing.ScanFrame | argparse.hpp:256-291 | a successful pass keeps every pre-filled key; a key it adds is some spec's `dest`; a key that no registered flag among the tokens and no positional still to come stores under keeps its value; every value written is a token of the input |
| Parsing.ScanErrors | argparse.hpp:261-281 | an unknown option names an input token that is an unregistered flag or a bare token; a missing value names the last token, a registered Store flag; an unsupported action names a registered flag whose action is not Store; an empty-token error means some token is empty; the pass never reports a missing option |
| Parsing.StoreConsumesTwo | argparse.hpp:265-274 | a Store flag stores the next token under its `dest` and the pass resumes two tokens later |
| Parsing.AliasesAgree | argparse.hpp:201-212 | two surface names of one spec (`-f X` and `--foo X`) lead the pass to the same outcome |
| Parsing.AliasesParseAlike | argparse.hpp:249-301 | the same holds for a whole parse: `-f X ...` and `--foo X ...` give the same result |
| Parsing.EarlierWriteLost | argparse.hpp:256-290 | a value stored under a `dest` is overwritten when the pass later meets a Store flag for that `dest`, across any stretch of tokens whose steps store nothing under it |
| Parsing.LastWriteWins | argparse.hpp:269 | repeating a flag, under either of its names or another Store flag with the same `dest`, leaves only the last value, also with any tokens in between whose steps store nothing under that `dest` |
| Parsing.BareTokensInOrder | argparse.hpp:277-290 | bare tokens fill the positionals in declaration order: the k-th token is stored under the k-th positional's `dest`, other keys are untouched, and no other key is added |
| Parsing.ExtraBareToken | argparse.hpp:278-280 | a bare token after the positionals run out gives an unknown option naming that token, whatever tokens follow it |
| Parsing.UnknownFlagRejected | argparse.hpp:262-263 | a token list that starts with an unregistered flag fails with an unknown option naming that flag, whatever follows |
| Parsing.EmptyTokenRejected | argparse.hpp:258 | a token list that starts with an empty token fails with the empty-token error |
| Parsing.StoreEmptyValue | argparse.hpp:265-273 | a Store flag followed by an empty token stores the empty string under its `dest`; with no positionals that is the whole parse's result |
| Parsing.ParseOkIff | argparse.hpp:293-300 | a parse succeeds if and only if the pass succeeds and every positional name is a key of its result; the result is the pass's map |
| Parsing.ParseMissingNamesFirst | argparse.hpp:294-297 | a missing-option error comes from a successful pass and names the first positional whose name the pass left unset |
| Parsing.ParseDefaults | argparse.hpp:250-253 | after a successful parse every registered surface name is a key; a name that no registered flag among the tokens and no positional stores under still has its default; every key is a surface name or a `dest` |
| Parsing.NoTokensGiveDefaults | argparse.hpp:250-256 | with no positionals, an empty token list succeeds with exactly the registered names as keys, each holding its spec's default |
| Parsing.ParseAllPositionals | argparse.hpp:277-300 | with one bare token per positional, the parse succeeds, the k-th token sits under the k-th positional's name, and names that are not positional dests keep their defaults |
| Parsing.ParseMissingPositional | argparse.hpp:293-298 | with fewer bare tokens than positionals, the parse fails with a missing option naming the first unfilled positional |
| Parsing.ParseExtraBareToken | argparse.hpp:277-280 | when the first tokens, one more than there are positionals, are all bare, the parse fails with an unknown option naming the first surplus token, whatever follows it |
| ArgParse.ArgumentParser.constructor | argparse.hpp:147-150 | a new parser has no specs, no optional names and no positionals |
| ArgParse.ArgumentParser.AddArgument | argparse.hpp:183-199 | a name starting with `-` gets a new Store spec under that key, with `dest` the name and `required` false, replacing any earlier entry, and the positionals are unchanged; any other name appends one positional spec, with `required` true and `dest` the name, and the map is unchanged |
| ArgParse.ArgumentParser.AddArgumentPair | argparse.hpp:201-212 | one new spec with `dest` the long name, stored under both the long and the short key; the positionals are unchanged |
| ArgParse.ArgumentParser.SetDefault | argparse.hpp:112-115 | writes the default of the spec behind the handle, so every name sharing that spec sees it; nothing else changes |
| ArgParse.ArgumentParser.SetAction | argparse.hpp:63-105 | sets the action tag of the spec behind the handle; nothing else changes |
| ArgParse.ArgumentParser.ParseArgs | argparse.hpp:249-301 | the cursor loop and the post-pass return exactly `Parse` of the current registry and the tokens, for every token list, empty tokens included |
| ArgParse.ArgumentParser.ParseString | argparse.hpp:235-239 | parsing a string is parsing its `split` tokens |
| ArgParse.TestRegistry | main.cpp:14-16 | the registry the driver builds is well formed |
| ArgParse.NewTestParser | main.cpp:14-16 | declaring `-f`/`--foo` and then `bar` through the class methods yields exactly the driver's registry |
| ArgParse.DriverTokens | main.cpp:18-24 | the driver's three command lines split into `[BAR]`, `[BAR, --foo, FOO]` and `[--foo, FOO]` |
| ArgParse.TestRegistryPrefill | argparse.hpp:250-253 | the driver's registry pre-fills both `-f` and `--foo` with the empty default |
| ArgParse.RepeatedFooLastWins | argparse.hpp:265-290 | in the driver's registry, `-f A BAR --foo B` parses exactly like `BAR --foo B` |
| ArgParse.ParseUnknownFlag | argparse.hpp:262-263 | in the driver's registry, `--unknown X` fails with an unknown option naming `--unknown` |
| ArgParse.ParseBarFooEmpty | argparse.hpp:265-273 | in the driver's registry, `BAR --foo ""` succeeds and stores the empty string under `--foo` |
| ArgParse.ParseBar | main.cpp:18 | `BAR` gives `{-f: "", --foo: "", bar: "BAR"}` |
| ArgParse.ParseBarFoo | main.cpp:21 | `BAR --foo FOO` gives `{-f: "", --foo: "FOO", bar: "BAR"}` |
| ArgParse.ParseFooOnly | main.cpp:24 | `--foo FOO` gives a missing option naming `bar` |
| ArgParse.TestName | main.cpp:13-26 | the driver's three calls, made through the class methods, return the three results above |

## Left out

- `usage()` and `print_help()` only write to the console.
- The printing, `exit` and `throw` inside `handle_unknown_option` and `handle_missing_option` are left out. The model returns an error value that says which handler would run and what it names. The `exit_on_failure` flag and the description are therefore not modelled.
- `parse_args(int argc, char const *argv[])` only copies `argv[1..]` into a vector and calls the vector form.
- `choices` validation is an empty block in the source.
- `nargs` is set to `'?'` but never read.
- `const_value` is never read by the parser.
- The setters `help`, `metavar`, `required`, `nargs` and `choices` have no effect on parsing. Neither does the `const_value` half of `store_const`, `store_true`, `store_false` and `append_const`. `SetAction` models only the action tag.
- Heap allocation of `new Argument`, and its leak, are not modelled. Specs are values in a sequence, and a builder handle is an index into it.
- An empty name makes `.at(0)` in `add_argument` throw. `AddArgument` requires a non-empty name instead. (An empty token in `parse_args` is modelled, as `EmptyToken`.)
- A flag whose action is not Store hangs the source. The model returns `UnsupportedAction` instead.
- A Store flag as the last token reads out of bounds in the source. The model returns `MissingValue` instead.
- `argparse2.hpp` is an unfinished rewrite and is not part of this model.
- `main.cpp` is modelled only by its three calls in `test_name`.
- Parsing.BareTokensInOrder: stated only for token lists made entirely of bare (non-empty, non-flag) tokens whose positionals store under pairwise different `dest`s. Flags interleaved with bare tokens are covered by `ScanFrame`, `StoreConsumesTwo` and `ScanErrors`, not by one closed formula.
- Parsing.ParseAllPositionals: stated under the same restriction as `BareTokensInOrder`.
- Parsing.ParseMissingPositional: stated under the same restriction, and only when the name of the first unfilled positional is not also an optional key.
- Parsing.ExtraBareToken: stated only when every positional from the cursor on is a Store positional, and the tokens up to the surplus one are all bare.
- Parsing.ParseExtraBareToken: stated under the same restriction as `ExtraBareToken`.
- Parsing.EarlierWriteLost: stated only when the steps the pass takes over the tokens in between store nothing under the `dest` and end exactly at the repeated flag (`AvoidsDest`); a stretch that ends with a Store flag would take the repeated flag as its value.
- Parsing.LastWriteWins: stated under the same restriction as `EarlierWriteLost`.
