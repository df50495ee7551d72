/** The declared arguments of a parser, as a value: the specs themselves, the
    surface-name index of the optional ones and the ordered positionals. */
module Arguments {

  /** What a matched argument does to the result; only Store is executed by the parser. */
  datatype Action = Store | StoreConst | Append | AppendConst | Count | Help | Version

  /** One declared argument. `secondName` is "" unless the two-name form declared it. */
  datatype Argument = Argument(
    firstName: string,
    secondName: string,
    action: Action,
    defaultValue: string,
    dest: string,
    required: bool)

  /** A freshly declared argument: Store action, empty default, `dest` as given. */
  function NewArgument(firstName: string, secondName: string, dest: string, required: bool): Argument {
    Argument(firstName, secondName, Store, "", dest, required)
  }

  /** A name is a flag when it starts with '-'. */
  predicate IsFlag(t: string) {
    t != [] && t[0] == '-'
  }

  /** A snapshot of the parser's registry. `optional` maps each surface name to the
      index of its spec in `specs`; two names mapped to one index share one spec. */
  datatype Registry = Registry(specs: seq<Argument>, optional: map<string, nat>, positional: seq<nat>) {

    /** Every index points at a spec. */
    predicate Valid() {
      (forall k | k in optional :: optional[k] < |specs|) &&
      (forall j | 0 <= j < |positional| :: positional[j] < |specs|)
    }

    /** The spec registered under the surface name `key`. */
    function Optional(key: string): Argument
      requires Valid() && key in optional
    {
      specs[optional[key]]
    }

    /** The spec of the j-th positional, in declaration order. */
    function Positional(j: nat): Argument
      requires Valid() && j < |positional|
    {
      specs[positional[j]]
    }

    /** Positionals keep the name they were declared with as their `dest`. */
    predicate PositionalsNamed()
      requires Valid()
    {
      forall j | 0 <= j < |positional| :: Positional(j).dest == Positional(j).firstName
    }
  }
}
