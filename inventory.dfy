/** The prefix inventory of the host platform, seen from the rule evaluator:
    one query, `Prefix.objects.filter(**criteria)`, whose outcome is decided
    by the inventory and is therefore a parameter of the model. The object
    keeps a log of the queries it was asked, so that a caller's contract can
    say whether a query was issued at all. */
module Inventory {
  import opened JsonValues

  /** The keyword arguments of a prefix query: field lookups and values. */
  type Criteria = seq<Field>

  /** How the inventory answers a query: the prefixes it selects, in its
      order and already stringified; a `FieldError` because a criterion
      names no field of a prefix; or any other failure (the database being
      unreachable, a value it cannot interpret, ...). */
  datatype Answer =
    | Rows(prefixes: seq<string>)
    | FieldError
    | OtherError(reason: string)

  class PrefixInventory {
    /** The inventory's answer to each possible query. */
    const answer: Criteria -> Answer
    /** The queries issued so far, oldest first. */
    var issued: seq<Criteria>

    constructor (answer: Criteria -> Answer)
      ensures this.answer == answer && issued == []
    {
      this.answer := answer;
      issued := [];
    }

    /** Runs one filtered prefix query. */
    method Filter(criteria: Criteria) returns (a: Answer)
      modifies this`issued
      ensures a == answer(criteria)
      ensures issued == old(issued) + [criteria]
    {
      a := answer(criteria);
      issued := issued + [criteria];
    }
  }
}
