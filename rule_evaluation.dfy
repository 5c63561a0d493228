/** The routing-policy rule evaluator: from one stored `RoutingPolicyRule`,
    the match statements a configuration renderer needs (its structured
    community and prefix associations, the prefixes its dynamic filter
    selects in the inventory, and its custom-match override, merged per
    category with empty categories dropped) and its set actions. */
module RuleEvaluation {
  import opened JsonValues
  import opened Inventory

  datatype Action = Permit | Deny

  /** The stored fields of a rule that the evaluator reads. The structured
      associations arrive as the store lists them: the `value` of each
      associated community and the text of each associated prefix. */
  datatype Rule = Rule(
    policy: nat,
    index: int,
    action: Action,
    description: string,
    matchCommunity: seq<string>,
    matchIp: seq<string>,
    matchIpCond: Json,
    matchCustom: Json,
    setActions: Json)

  /** The exceptions that leave `match_statements`. */
  datatype Failure =
    | QueryFailed(reason: string)           // an inventory failure other than FieldError
    | FilterNotMapping                      // `**` applied to a filter that is not an object
    | OverrideNotMapping                    // `.get` called on an override that is not an object
    | OverrideNotIterable(category: string) // `extend` given null, a boolean or a number

  datatype Result<T> = Ok(value: T) | Err(error: Failure) {
    predicate IsFailure() { Err? }
    function PropagateFailure<U>(): Result<U> requires Err? { Err(error) }
    function Extract(): T requires Ok? { value }
  }

  const Community := "community"
  const IpAddress := "ip address"

  /** One entry of the match-statement mapping: a category and its values. */
  datatype Statement = Statement(category: string, values: seq<Json>)

  // ---------------------------------------------------------------------
  // Pass-through accessors

  /** `get_match_custom`: the stored override when it is truthy, else `{}`. */
  function GetMatchCustom(rule: Rule): (r: Json)
    ensures Truthy(rule.matchCustom) ==> r == rule.matchCustom
    ensures !Truthy(rule.matchCustom) ==> r == EmptyObject
    ensures Truthy(r) <==> Truthy(rule.matchCustom)
  {
    if Truthy(rule.matchCustom) then rule.matchCustom else EmptyObject
  }

  /** `set_statements`: the stored set actions when truthy, else `{}`. */
  function SetStatements(rule: Rule): (r: Json)
    ensures Truthy(rule.setActions) ==> r == rule.setActions
    ensures !Truthy(rule.setActions) ==> r == EmptyObject
    ensures Truthy(r) <==> Truthy(rule.setActions)
  {
    if Truthy(rule.setActions) then rule.setActions else EmptyObject
  }

  /** Storing the effective set actions back leaves them as they were. */
  lemma SetStatementsIdempotent(rule: Rule)
    ensures SetStatements(rule.(setActions := SetStatements(rule))) == SetStatements(rule)
  {
  }

  // ---------------------------------------------------------------------
  // Dynamic match resolver

  /** The queries `get_ip_conditions` issues for a filter: one when the
      filter is a non-empty object, none otherwise (a falsy filter is not
      queried, and `**` rejects a non-object before any query). */
  function IssuedQueries(cond: Json): (q: seq<Criteria>)
    ensures |q| <= 1
    ensures q != [] <==> Truthy(cond) && cond.JObject?
  {
    if Truthy(cond) && cond.JObject? then [cond.fields] else []
  }

  /** The prefixes `get_ip_conditions` yields for a filter, once evaluated. */
  function IpConditions(cond: Json, answer: Criteria -> Answer): Result<seq<string>>
  {
    if !Truthy(cond) then Ok([])
    else if !cond.JObject? then Err(FilterNotMapping)
    else
      match answer(cond.fields)
      case Rows(prefixes) => Ok(prefixes)
      case FieldError => Ok([])
      case OtherError(reason) => Err(QueryFailed(reason))
  }

  /** A null or empty filter yields nothing, whatever the inventory holds,
      and issues no query. */
  lemma EmptyFilterQueriesNothing(cond: Json, answer: Criteria -> Answer, other: Criteria -> Answer)
    requires !Truthy(cond)
    ensures IpConditions(cond, answer) == IpConditions(cond, other) == Ok([])
    ensures IssuedQueries(cond) == []
  {
  }

  /** The prefixes the inventory selects are the dynamic contribution, in
      the inventory's order. */
  lemma DynamicPrefixesInInventoryOrder(cond: Json, answer: Criteria -> Answer)
    requires cond.JObject? && cond.fields != []
    requires answer(cond.fields).Rows?
    ensures IpConditions(cond, answer) == Ok(answer(cond.fields).prefixes)
    ensures IssuedQueries(cond) == [cond.fields]
  {
  }

  /** A FieldError from the inventory is swallowed: the dynamic contribution
      is empty, exactly as if the rule had no filter. */
  lemma FieldErrorIsTolerated(rule: Rule, answer: Criteria -> Answer)
    requires rule.matchIpCond.JObject? && rule.matchIpCond.fields != []
    requires answer(rule.matchIpCond.fields) == FieldError
    ensures IpConditions(rule.matchIpCond, answer) == Ok([])
    ensures EffectiveMatches(rule, answer) == EffectiveMatches(rule.(matchIpCond := JNull), answer)
  {
  }

  /** Any other inventory failure leaves `match_statements` unchanged. */
  lemma OtherQueryFailurePropagates(rule: Rule, answer: Criteria -> Answer)
    requires rule.matchIpCond.JObject? && rule.matchIpCond.fields != []
    requires answer(rule.matchIpCond.fields).OtherError?
    ensures EffectiveMatches(rule, answer) == Err(QueryFailed(answer(rule.matchIpCond.fields).reason))
  {
  }

  /** `get_ip_conditions`, run against an inventory. */
  method GetIpConditions(rule: Rule, inventory: PrefixInventory) returns (r: Result<seq<string>>)
    modifies inventory`issued
    ensures r == IpConditions(rule.matchIpCond, inventory.answer)
    ensures inventory.issued == old(inventory.issued) + IssuedQueries(rule.matchIpCond)
  {
    var queryset: seq<string> := [];
    if Truthy(rule.matchIpCond) {
      if !rule.matchIpCond.JObject? {
        return Err(FilterNotMapping);
      }
      var answer := inventory.Filter(rule.matchIpCond.fields);
      match answer
      case Rows(prefixes) =>
        queryset := prefixes;
      case FieldError =>
      case OtherError(reason) =>
        return Err(QueryFailed(reason));
    }
    return Ok(queryset);
  }

  // ---------------------------------------------------------------------
  // Match statements

  /** What the custom override adds to `category`: the items of
      `get_match_custom().get(category, [])`, as `list.extend` takes them. */
  function CustomValues(rule: Rule, category: string): Result<seq<Json>>
  {
    var custom := GetMatchCustom(rule);
    if !custom.JObject? then Err(OverrideNotMapping)
    else
      match Iterate(Get(custom.fields, category, JArray([])))
      case Items(values) => Ok(values)
      case NotIterable => Err(OverrideNotIterable(category))
  }

  /** A falsy override adds nothing to either category. */
  lemma FalsyOverrideAddsNothing(rule: Rule, category: string)
    requires !Truthy(rule.matchCustom)
    ensures CustomValues(rule, category) == Ok([])
  {
  }

  /** Members of the override other than the two categories are ignored. */
  lemma OtherOverrideKeysIgnored(rule: Rule, extra: Field, answer: Criteria -> Answer)
    requires rule.matchCustom.JObject?
    requires extra.key != Community && extra.key != IpAddress
    ensures var widened := rule.(matchCustom := JObject(rule.matchCustom.fields + [extra]));
            EffectiveMatches(widened, answer) == EffectiveMatches(rule, answer)
  {
    var widened := rule.(matchCustom := JObject(rule.matchCustom.fields + [extra]));
    OverrideCategoryUnchanged(rule, widened, extra, Community);
    OverrideCategoryUnchanged(rule, widened, extra, IpAddress);
  }

  /** One category's override values, before and after adding `extra`. */
  lemma OverrideCategoryUnchanged(rule: Rule, widened: Rule, extra: Field, category: string)
    requires rule.matchCustom.JObject?
    requires widened == rule.(matchCustom := JObject(rule.matchCustom.fields + [extra]))
    requires extra.key != category
    ensures CustomValues(widened, category) == CustomValues(rule, category)
  {
    var fields := rule.matchCustom.fields;
    GetIgnoresOtherKeys(fields, extra, category, JArray([]));
    assert GetMatchCustom(widened) == JObject(fields + [extra]);
    if fields == [] {
      assert GetMatchCustom(rule) == EmptyObject;
    } else {
      assert GetMatchCustom(rule) == JObject(fields);
    }
  }

  /** The entries of `entries` whose values are non-empty, in order: the
      comprehension that ends `match_statements`. */
  function NonEmpty(entries: seq<Statement>): (r: seq<Statement>)
    ensures |r| <= |entries|
  {
    if entries == [] then []
    else
      var last := entries[|entries| - 1];
      NonEmpty(entries[..|entries| - 1]) + (if last.values != [] then [last] else [])
  }

  /** An entry is kept exactly when it is one of the entries and its list
      is non-empty. */
  lemma {:induction false} NonEmptyMembers(entries: seq<Statement>, s: Statement)
    ensures s in NonEmpty(entries) <==> s in entries && s.values != []
  {
    if entries != [] {
      var init := entries[..|entries| - 1];
      NonEmptyMembers(init, s);
      assert entries == init + [entries[|entries| - 1]];
    }
  }

  /** A single entry is kept exactly when its list is non-empty. */
  lemma NonEmptySingle(s: Statement)
    ensures NonEmpty([s]) == if s.values != [] then [s] else []
  {
    assert [s][..0] == [];
  }

  /** Filtering keeps order: a mapping split in two is filtered part by part. */
  lemma {:induction false} NonEmptyAppend(a: seq<Statement>, b: seq<Statement>)
    ensures NonEmpty(a + b) == NonEmpty(a) + NonEmpty(b)
  {
    if b == [] {
      assert a + b == a;
    } else {
      var ab := a + b;
      var init := b[..|b| - 1];
      var last := b[|b| - 1];
      var kept := if last.values != [] then [last] else [];
      NonEmptyAppend(a, init);
      assert ab[..|ab| - 1] == a + init;
      assert ab[|ab| - 1] == last;
      assert NonEmpty(ab) == NonEmpty(a + init) + kept;
      assert NonEmpty(b) == NonEmpty(init) + kept;
    }
  }

  /** `match_statements` as a value: structured communities then the
      override's; structured prefixes, then dynamic ones, then the
      override's; the first failure met, in the source's order, otherwise. */
  function EffectiveMatches(rule: Rule, answer: Criteria -> Answer): Result<seq<Statement>>
  {
    var dynamic :- IpConditions(rule.matchIpCond, answer);
    var extraCommunity :- CustomValues(rule, Community);
    var extraIp :- CustomValues(rule, IpAddress);
    Ok(NonEmpty([Statement(Community, Strings(rule.matchCommunity) + extraCommunity),
                 Statement(IpAddress, Strings(rule.matchIp) + Strings(dynamic) + extraIp)]))
  }

  /** The values listed under `category`, or [] when it is absent. */
  function Category(statements: seq<Statement>, category: string): seq<Json>
  {
    if statements == [] then []
    else if statements[0].category == category then statements[0].values
    else Category(statements[1..], category)
  }

  /** Whether `category` is a key of the mapping. */
  predicate HasCategory(statements: seq<Statement>, category: string)
  {
    exists i :: 0 <= i < |statements| && statements[i].category == category
  }

  /** The shape of every match-statement mapping: keys drawn from the two
      categories, community before ip address, each at most once, and no
      key mapped to an empty list. */
  predicate WellFormed(statements: seq<Statement>)
  {
    && (forall i :: 0 <= i < |statements| ==>
          (statements[i].category == Community || statements[i].category == IpAddress)
          && statements[i].values != [])
    && (forall i, j :: 0 <= i < j < |statements| ==>
          statements[i].category == Community && statements[j].category == IpAddress)
  }

  /** Dropping empty entries from a two-entry mapping, case by case. */
  lemma NonEmptyPair(a: Statement, b: Statement)
    ensures NonEmpty([a, b]) == (if a.values != [] then [a] else []) + (if b.values != [] then [b] else [])
  {
  }

  /** The two-entry mapping after dropping empty entries: its shape and
      what each category lists. */
  lemma PairShape(a: Statement, b: Statement)
    requires a.category == Community && b.category == IpAddress
    ensures WellFormed(NonEmpty([a, b]))
    ensures Category(NonEmpty([a, b]), Community) == a.values
    ensures Category(NonEmpty([a, b]), IpAddress) == b.values
    ensures HasCategory(NonEmpty([a, b]), Community) <==> a.values != []
    ensures HasCategory(NonEmpty([a, b]), IpAddress) <==> b.values != []
  {
    NonEmptyPair(a, b);
    var m := NonEmpty([a, b]);
    if a.values != [] && b.values != [] {
      assert m == [a, b] && m[1..] == [b];
    } else if a.values != [] {
      assert m == [a] && m[1..] == [];
    } else if b.values != [] {
      assert m == [b] && m[1..] == [];
    }
  }

  /** Keys only from the two categories, each non-empty: an evaluated rule
      never maps a category to an empty list. */
  lemma MatchStatementsWellFormed(rule: Rule, answer: Criteria -> Answer)
    requires EffectiveMatches(rule, answer).Ok?
    ensures WellFormed(EffectiveMatches(rule, answer).value)
  {
    PairShape(Statement(Community, Strings(rule.matchCommunity) + CustomValues(rule, Community).value),
              Statement(IpAddress, Strings(rule.matchIp) + Strings(IpConditions(rule.matchIpCond, answer).value)
                                   + CustomValues(rule, IpAddress).value));
  }

  /** `community` is the structured community values followed by the
      override's, never anything from the dynamic filter; it is present
      exactly when that list is non-empty. */
  lemma CommunityMatches(rule: Rule, answer: Criteria -> Answer)
    requires EffectiveMatches(rule, answer).Ok?
    ensures CustomValues(rule, Community).Ok?
    ensures Category(EffectiveMatches(rule, answer).value, Community)
            == Strings(rule.matchCommunity) + CustomValues(rule, Community).value
    ensures HasCategory(EffectiveMatches(rule, answer).value, Community)
            <==> Strings(rule.matchCommunity) + CustomValues(rule, Community).value != []
  {
    PairShape(Statement(Community, Strings(rule.matchCommunity) + CustomValues(rule, Community).value),
              Statement(IpAddress, Strings(rule.matchIp) + Strings(IpConditions(rule.matchIpCond, answer).value)
                                   + CustomValues(rule, IpAddress).value));
  }

  /** `ip address` is the structured prefixes, then the dynamic filter's,
      then the override's, in that order and without deduplication; it is
      present exactly when that list is non-empty. */
  lemma IpAddressMatches(rule: Rule, answer: Criteria -> Answer)
    requires EffectiveMatches(rule, answer).Ok?
    ensures IpConditions(rule.matchIpCond, answer).Ok?
    ensures CustomValues(rule, IpAddress).Ok?
    ensures Category(EffectiveMatches(rule, answer).value, IpAddress)
            == Strings(rule.matchIp) + Strings(IpConditions(rule.matchIpCond, answer).value)
               + CustomValues(rule, IpAddress).value
    ensures HasCategory(EffectiveMatches(rule, answer).value, IpAddress)
            <==> Strings(rule.matchIp) + Strings(IpConditions(rule.matchIpCond, answer).value)
                 + CustomValues(rule, IpAddress).value != []
  {
    PairShape(Statement(Community, Strings(rule.matchCommunity) + CustomValues(rule, Community).value),
              Statement(IpAddress, Strings(rule.matchIp) + Strings(IpConditions(rule.matchIpCond, answer).value)
                                   + CustomValues(rule, IpAddress).value));
  }

  /** The inventory never influences the `community` category. */
  lemma CommunityIgnoresInventory(rule: Rule, answer: Criteria -> Answer, other: Criteria -> Answer)
    requires EffectiveMatches(rule, answer).Ok? && EffectiveMatches(rule, other).Ok?
    ensures Category(EffectiveMatches(rule, answer).value, Community)
            == Category(EffectiveMatches(rule, other).value, Community)
  {
    CommunityMatches(rule, answer);
    CommunityMatches(rule, other);
  }

  /** A rule with no associations, no filter and no override has no match
      statements at all, and evaluating it is not an error. */
  lemma BareRuleMatchesNothing(rule: Rule, answer: Criteria -> Answer)
    requires rule.matchCommunity == [] && rule.matchIp == []
    requires !Truthy(rule.matchIpCond) && !Truthy(rule.matchCustom)
    ensures EffectiveMatches(rule, answer) == Ok([])
  {
    NonEmptyPair(Statement(Community, []), Statement(IpAddress, []));
  }

  /** A structured prefix, an empty filter and an override listing one more
      prefix give exactly those two prefixes under `ip address`. */
  lemma StructuredThenOverrideExample(rule: Rule, answer: Criteria -> Answer)
    requires rule.matchCommunity == [] && rule.matchIp == ["10.0.0.0/24"]
    requires rule.matchIpCond == EmptyObject
    requires rule.matchCustom == JObject([Field(IpAddress, JArray([JString("192.168.1.0/24")]))])
    ensures EffectiveMatches(rule, answer)
            == Ok([Statement(IpAddress, [JString("10.0.0.0/24"), JString("192.168.1.0/24")])])
  {
    var fields := rule.matchCustom.fields;
    assert Get(fields, Community, JArray([])) == JArray([]) by {
      assert fields[1..] == [];
    }
    assert CustomValues(rule, Community) == Ok([]);
    assert CustomValues(rule, IpAddress) == Ok([JString("192.168.1.0/24")]);
    assert IpConditions(rule.matchIpCond, answer) == Ok([]);
    var ip := Strings(["10.0.0.0/24"]) + Strings([]) + [JString("192.168.1.0/24")];
    assert ip == [JString("10.0.0.0/24"), JString("192.168.1.0/24")];
    assert Strings([]) + [] == [];
    assert EffectiveMatches(rule, answer) == Ok(NonEmpty([Statement(Community, []), Statement(IpAddress, ip)]));
    assert NonEmpty([Statement(Community, []), Statement(IpAddress, ip)]) == [Statement(IpAddress, ip)];
  }

  /** Prefixes selected only by the dynamic filter are listed in the
      inventory's order. */
  lemma DynamicOnlyExample(rule: Rule, answer: Criteria -> Answer)
    requires rule.matchCommunity == [] && rule.matchIp == [] && !Truthy(rule.matchCustom)
    requires rule.matchIpCond == JObject([Field("within", JString("10.0.0.0/8"))])
    requires answer(rule.matchIpCond.fields) == Rows(["10.1.0.0/16", "10.2.0.0/16"])
    ensures EffectiveMatches(rule, answer)
            == Ok([Statement(IpAddress, [JString("10.1.0.0/16"), JString("10.2.0.0/16")])])
  {
    assert CustomValues(rule, Community) == Ok([]);
    assert CustomValues(rule, IpAddress) == Ok([]);
    assert IpConditions(rule.matchIpCond, answer) == Ok(["10.1.0.0/16", "10.2.0.0/16"]);
    var ip := Strings([]) + Strings(["10.1.0.0/16", "10.2.0.0/16"]) + [];
    assert ip == [JString("10.1.0.0/16"), JString("10.2.0.0/16")];
    assert Strings([]) + [] == [];
    assert EffectiveMatches(rule, answer) == Ok(NonEmpty([Statement(Community, []), Statement(IpAddress, ip)]));
    assert NonEmpty([Statement(Community, []), Statement(IpAddress, ip)]) == [Statement(IpAddress, ip)];
  }

  /** The comprehension `{k: v for k, v in result.items() if v}`. */
  method DropEmptyMatches(entries: seq<Statement>) returns (kept: seq<Statement>)
    ensures kept == NonEmpty(entries)
  {
    kept := [];
    var i := 0;
    while i < |entries|
      invariant 0 <= i <= |entries|
      invariant kept == NonEmpty(entries[..i])
    {
      assert entries[..i + 1][..i] == entries[..i];
      if entries[i].values != [] {
        kept := kept + [entries[i]];
      }
      i := i + 1;
    }
    assert entries[..i] == entries;
  }

  /** The `match_statements` property, run against an inventory. */
  method MatchStatements(rule: Rule, inventory: PrefixInventory) returns (r: Result<seq<Statement>>)
    modifies inventory`issued
    ensures r == EffectiveMatches(rule, inventory.answer)
    ensures inventory.issued == old(inventory.issued) + IssuedQueries(rule.matchIpCond)
  {
    var community := Strings(rule.matchCommunity);
    var ipAddress := Strings(rule.matchIp);
    var matched :- GetIpConditions(rule, inventory);
    ipAddress := ipAddress + Strings(matched);
    var custom := GetMatchCustom(rule);
    if !custom.JObject? {
      return Err(OverrideNotMapping);
    }
    match Iterate(Get(custom.fields, Community, JArray([]))) {
      case NotIterable =>
        return Err(OverrideNotIterable(Community));
      case Items(values) =>
        community := community + values;
    }
    match Iterate(Get(custom.fields, IpAddress, JArray([]))) {
      case NotIterable =>
        return Err(OverrideNotIterable(IpAddress));
      case Items(values) =>
        ipAddress := ipAddress + values;
    }
    var kept := DropEmptyMatches([Statement(Community, community), Statement(IpAddress, ipAddress)]);
    return Ok(kept);
  }
}
