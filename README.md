# Routing-policy rule evaluation in netbox-bgp, modelled in Dafny

netbox-bgp keeps BGP sessions, peer groups, communities and routing
policies for the NetBox inventory platform. A routing policy is an ordered
list of rules. Each `RoutingPolicyRule` can match on three kinds of input:

- communities and prefixes associated with it (structured matches);
- a dynamic filter (`match_ip_cond`), a JSON object of prefix-query
  criteria run against the inventory;
- a freeform JSON override (`match_custom`).

The rule also carries JSON set actions (`set_actions`).

This project models the part of `netbox_bgp/models.py` that makes
decisions:

- `match_statements`. It merges the three inputs per category
  (`community`, `ip address`) in a fixed order and drops empty categories.
- `get_ip_conditions`. It runs the dynamic filter and swallows only
  `FieldError`.
- `get_match_custom` and `set_statements`. Both pass their field through
  and default to `{}`.
- The store-side invariant on rules. Within a policy, indexes are unique
  and rules are listed by ascending index.
- The validator of a community's `value`. It is required, at most 64
  characters long, and must contain `\d+:\d+` somewhere.

Modules:

- `JsonValues` (`json_values.dfy`): decoded JSON values and the Python
  operations the evaluator applies to them: truthiness, `dict.get`, and
  what `list.extend` takes from a value.
- `Inventory` (`inventory.dfy`): the prefix inventory as a class. A
  constant oracle decides the answer to each query: rows, `FieldError` or
  another failure. A log records the queries issued.
- `RuleEvaluation` (`rule_evaluation.dfy`): the rule evaluator.
  - Specification functions: `IpConditions`, `CustomValues`,
    `EffectiveMatches`.
  - Imperative methods proved against them: `GetIpConditions`,
    `DropEmptyMatches`, `MatchStatements`.
  - Lemmas for the promised properties.
- `RuleTable` (`rule_table.dfy`): the rule table. Its rows are ordered by
  (policy, index). `RuleStore.Insert` keeps that order and rejects a taken
  slot or an index outside the column's range.
- `CommunityValue` (`community_value.dfy`): the community value validator.
  A digit-colon-digit scan is proved equal to an unanchored regular
  expression search.

Two facts about the code matter for reading the contracts:

- Evaluating a rule can fail. Every inventory failure other than
  `FieldError` propagates. So do `**` applied to a filter that is not an
  object, `.get` called on an override that is not an object, and `extend`
  given null, a boolean or a number. The model returns each of these as an
  `Err`.
- The community validator searches for `\d+:\d+` rather than matching
  the whole value, so `x12:3y` is accepted.

## Model

| member | source | states |
|---|---|---|
| JsonValues.Get | netbox_bgp/models.py:328-329 | `dict.get(key, [])` on the override returns a value bound to `key` when one is present, and the default otherwise |
| JsonValues.Iterate | netbox_bgp/models.py:328-329 | `extend` takes an array's items, a string's one-character strings, or an object's keys; null, booleans and numbers are not iterable |
| Inventory.PrefixInventory.Filter | netbox_bgp/models.py:302 | the filtered prefix query returns the inventory's answer to exactly those criteria and is logged as one issued query |
| RuleEvaluation.GetMatchCustom | netbox_bgp/models.py:307-312 | the override is returned when truthy, `{}` otherwise; the result is truthy exactly when the stored override is |
| RuleEvaluation.SetStatements | netbox_bgp/models.py:334-338 | the set actions are returned when truthy, `{}` otherwise, and never fail |
| RuleEvaluation.SetStatementsIdempotent | netbox_bgp/models.py:334-338 | storing the effective set actions back gives the same effective set actions |
| RuleEvaluation.IssuedQueries | netbox_bgp/models.py:298-305 | at most one query is issued, and one is issued exactly when the filter is a non-empty object |
| RuleEvaluation.EmptyFilterQueriesNothing | netbox_bgp/models.py:298-300 | a null or empty filter yields no prefixes whatever the inventory holds, and issues no query |
| RuleEvaluation.DynamicPrefixesInInventoryOrder | netbox_bgp/models.py:300-302 | a non-empty filter the inventory answers yields the inventory's prefixes in the inventory's order |
| RuleEvaluation.FieldErrorIsTolerated | netbox_bgp/models.py:301-304 | a `FieldError` gives an empty dynamic contribution; the whole evaluation equals that of the same rule with no filter |
| RuleEvaluation.OtherQueryFailurePropagates | netbox_bgp/models.py:301-305 | any other inventory failure is the result of `match_statements`, with the same reason |
| RuleEvaluation.GetIpConditions | netbox_bgp/models.py:298-305 | the method returns `IpConditions` of the filter and issues exactly `IssuedQueries` of it |
| RuleEvaluation.FalsyOverrideAddsNothing | netbox_bgp/models.py:307-312 | a falsy override adds nothing to either category |
| RuleEvaluation.OtherOverrideKeysIgnored | netbox_bgp/models.py:326-329 | adding an override member whose key is neither category leaves the match statements unchanged |
| RuleEvaluation.NonEmptyMembers | netbox_bgp/models.py:331 | an entry is kept exactly when it is one of the entries and its list is non-empty |
| RuleEvaluation.NonEmptyAppend | netbox_bgp/models.py:331 | filtering keeps order: filtering a concatenation is filtering each part and concatenating |
| RuleEvaluation.NonEmptySingle | netbox_bgp/models.py:331 | a single entry is kept exactly when its list is non-empty |
| RuleEvaluation.DropEmptyMatches | netbox_bgp/models.py:331 | the loop keeps the non-empty entries in their order, as `NonEmpty` |
| RuleEvaluation.MatchStatementsWellFormed | netbox_bgp/models.py:316-331 | every key is `community` or `ip address`, community comes first, each key appears at most once, and no key maps to an empty list |
| RuleEvaluation.CommunityMatches | netbox_bgp/models.py:318-328 | `community` is the structured community values then the override's, and is present exactly when that list is non-empty |
| RuleEvaluation.IpAddressMatches | netbox_bgp/models.py:321-329 | `ip address` is the structured prefixes, then the dynamic ones, then the override's, without deduplication, and is present exactly when that list is non-empty |
| RuleEvaluation.CommunityIgnoresInventory | netbox_bgp/models.py:318-328 | the inventory's answers never change the `community` category |
| RuleEvaluation.BareRuleMatchesNothing | netbox_bgp/models.py:314-332 | no associations, no filter and no override evaluate to the empty mapping, not an error |
| RuleEvaluation.StructuredThenOverrideExample | netbox_bgp/models.py:321-331 | prefix `10.0.0.0/24`, filter `{}` and override `{"ip address": ["192.168.1.0/24"]}` give exactly `{"ip address": ["10.0.0.0/24", "192.168.1.0/24"]}` |
| RuleEvaluation.DynamicOnlyExample | netbox_bgp/models.py:321-331 | a `within` filter that selects two prefixes, and nothing else, gives exactly those two in the inventory's order |
| RuleEvaluation.MatchStatements | netbox_bgp/models.py:314-332 | the method returns `EffectiveMatches` of the rule and issues exactly the dynamic filter's query |
| RuleTable.RulesOf | netbox_bgp/models.py:286 | a policy's rules are exactly the table's rows for that policy |
| RuleTable.RulesOfAscending | netbox_bgp/models.py:286-287 | in an ordered table, a policy's rules have strictly ascending indexes, so no two share an index |
| RuleTable.RuleStore.Insert | netbox_bgp/models.py:253-287 | an index below 0 or above 2147483647 is refused; a taken (policy, index) slot is refused; otherwise the rule is added; order and uniqueness are kept and other policies' rules are untouched |
| CommunityValue.ScanIsSearch | netbox_bgp/models.py:146 | a digit, a colon and a digit side by side exist exactly when a search for `\d+:\d+` succeeds somewhere in the value |
| CommunityValue.Validate | netbox_bgp/models.py:144-147 | a blank value gets only the blank error; any other value gets the missing-pair error exactly when `\d+:\d+` occurs nowhere in it, then the too-long error exactly when it exceeds 64 characters; it is accepted exactly when it has at most 64 characters and contains the pattern |
| CommunityValue.UnanchoredExample | netbox_bgp/models.py:146 | `x12:3y` is accepted and `65000:` is refused for want of a pair |

## Left out

- Persistence and the ORM are not modelled. This covers saving, loading, `on_delete` behaviour, `get_absolute_url`, the import/export policy many-to-many relations, and the uniqueness of sessions and of policy name plus description.
- Colour lookups and `__str__` are presentation over choice tables and are not modelled. The rule's action is a two-value datatype.
- The structured associations are inputs: the community values and the stringified prefixes, in the store's order. The two queries that read them are not modelled, and neither is their failure.
- Prefixes are opaque strings. What a filter such as `within` selects, and how a prefix is printed, belong to the inventory. The model takes them as the oracle's answer.
- Query laziness is not modelled. Django raises `FieldError` when the filter is built and most other failures when the query is evaluated. The oracle gives one answer per query, and both kinds of failure end `match_statements` the same way.
- JSON numbers are integers. Non-integer numbers, such as a `0.0` that is falsy, are not modelled.
- A decoded JSON object never repeats a key. For a list that does, `Get` returns the first binding.
- CommunityValue.IsDigit accepts only ASCII `0`-`9`. Python's `\d` also matches other Unicode decimal digits.
- The text of validation messages is not modelled.
- RuleTable.RuleStore.Insert models inserts only. Updating or deleting rules is not modelled, though the same constraint guards updates.
