/** The table of routing-policy rules as the store keeps it: rows listed by
    routing policy and then by index, and no two rows of one policy sharing
    an index. Inserting a rule keeps both properties or rejects the rule. */
module RuleTable {
  import opened RuleEvaluation

  /** The largest value the `index` column (a positive integer field) holds;
      the smallest is 0. */
  const MaxIndex := 2147483647

  /** The column accepts `index`. */
  predicate IndexInRange(index: int)
  {
    0 <= index <= MaxIndex
  }

  /** What saving a rule comes to: saved, or refused by the column's range
      or by the uniqueness of (policy, index). */
  datatype InsertOutcome = Saved | IndexOutOfRange | DuplicateIndex

  /** `a` comes strictly before `b` in the table's ordering (policy, index). */
  predicate Before(a: Rule, b: Rule)
  {
    a.policy < b.policy || (a.policy == b.policy && a.index < b.index)
  }

  /** `a` and `b` collide on the uniqueness constraint (policy, index). */
  predicate SameSlot(a: Rule, b: Rule)
  {
    a.policy == b.policy && a.index == b.index
  }

  /** Listed in table order; strict order also makes every slot unique. */
  predicate Ordered(rows: seq<Rule>)
  {
    forall i, j :: 0 <= i < j < |rows| ==> Before(rows[i], rows[j])
  }

  /** `policy.rules.all()`: the rules of one policy, in table order. */
  function RulesOf(rows: seq<Rule>, policy: nat): (r: seq<Rule>)
    ensures forall x :: x in r <==> x in rows && x.policy == policy
  {
    if rows == [] then []
    else (if rows[0].policy == policy then [rows[0]] else []) + RulesOf(rows[1..], policy)
  }

  /** Within one policy, the rules are listed by strictly ascending index,
      so no two of them share an index. */
  lemma {:induction false} RulesOfAscending(rows: seq<Rule>, policy: nat)
    requires Ordered(rows)
    ensures forall i, j :: 0 <= i < j < |RulesOf(rows, policy)| ==>
              RulesOf(rows, policy)[i].index < RulesOf(rows, policy)[j].index
  {
    if rows != [] {
      RulesOfAscending(rows[1..], policy);
      var tail := RulesOf(rows[1..], policy);
      forall x | x in tail ensures Before(rows[0], x) {
        var k :| 0 <= k < |rows[1..]| && rows[1..][k] == x;
        assert rows[k + 1] == x;
      }
    }
  }

  /** Listing one policy's rules distributes over a split of the table. */
  lemma {:induction false} RulesOfSplit(a: seq<Rule>, b: seq<Rule>, policy: nat)
    ensures RulesOf(a + b, policy) == RulesOf(a, policy) + RulesOf(b, policy)
  {
    if a != [] {
      assert (a + b)[1..] == a[1..] + b;
      RulesOfSplit(a[1..], b, policy);
    } else {
      assert a + b == b;
    }
  }

  /** Position `i` separates the rows before `rule` from the rows after it. */
  predicate SplitsAt(rows: seq<Rule>, i: int, rule: Rule)
  {
    && 0 <= i <= |rows|
    && (forall k :: 0 <= k < i ==> Before(rows[k], rule))
    && (forall k :: i <= k < |rows| ==> Before(rule, rows[k]))
  }

  /** Putting `rule` where it splits the table keeps the table ordered, and
      no row had taken its slot. */
  lemma InsertAtSplit(rows: seq<Rule>, i: int, rule: Rule)
    requires Ordered(rows) && SplitsAt(rows, i, rule)
    ensures Ordered(rows[..i] + [rule] + rows[i..])
    ensures forall x :: x in rows ==> !SameSlot(x, rule)
  {
    var grown := rows[..i] + [rule] + rows[i..];
    forall a, b | 0 <= a < b < |grown| ensures Before(grown[a], grown[b]) {
      if b < i {
        assert grown[a] == rows[a] && grown[b] == rows[b];
      } else if b == i {
        assert grown[a] == rows[a];
      } else if a == i {
        assert grown[b] == rows[b - 1];
      } else if a < i {
        assert grown[a] == rows[a] && grown[b] == rows[b - 1];
      } else {
        assert grown[a] == rows[a - 1] && grown[b] == rows[b - 1];
      }
    }
  }

  /** Putting a rule anywhere leaves the other policies' listings alone. */
  lemma InsertKeepsOtherPolicies(rows: seq<Rule>, i: int, rule: Rule, p: nat)
    requires 0 <= i <= |rows| && p != rule.policy
    ensures RulesOf(rows[..i] + [rule] + rows[i..], p) == RulesOf(rows, p)
  {
    assert rows == rows[..i] + rows[i..];
    RulesOfSplit(rows[..i] + [rule], rows[i..], p);
    RulesOfSplit(rows[..i], [rule], p);
    RulesOfSplit(rows[..i], rows[i..], p);
  }

  class RuleStore {
    /** The rows of the rule table, in the order `Meta.ordering` lists them. */
    var rows: seq<Rule>

    ghost predicate Valid()
      reads this
    {
      Ordered(rows) && forall x :: x in rows ==> IndexInRange(x.index)
    }

    constructor ()
      ensures Valid() && rows == []
    {
      rows := [];
    }

    /** Saves a new rule: refused when its index does not fit the column or
        its (policy, index) slot is taken, otherwise added at its place. */
    method Insert(rule: Rule) returns (outcome: InsertOutcome)
      requires Valid()
      modifies this
      ensures Valid()
      ensures !IndexInRange(rule.index) ==> outcome == IndexOutOfRange
      ensures (IndexInRange(rule.index) && exists x :: x in old(rows) && SameSlot(x, rule))
                ==> outcome == DuplicateIndex
      ensures (outcome == Saved)
                <==> (IndexInRange(rule.index) && forall x :: x in old(rows) ==> !SameSlot(x, rule))
      ensures outcome != Saved ==> rows == old(rows)
      ensures outcome == Saved ==> multiset(rows) == multiset(old(rows)) + multiset{rule}
      ensures forall p :: p != rule.policy ==> RulesOf(rows, p) == RulesOf(old(rows), p)
    {
      if !IndexInRange(rule.index) {
        return IndexOutOfRange;
      }
      var i := 0;
      while i < |rows| && Before(rows[i], rule)
        invariant 0 <= i <= |rows|
        invariant forall k :: 0 <= k < i ==> Before(rows[k], rule)
      {
        i := i + 1;
      }
      if i < |rows| && SameSlot(rows[i], rule) {
        return DuplicateIndex;
      }
      // every later row comes after the new one
      forall k | i <= k < |rows| ensures Before(rule, rows[k]) {
        if k > i {
          assert Before(rows[i], rows[k]);
        }
      }
      InsertAtSplit(rows, i, rule);
      forall p | p != rule.policy ensures RulesOf(rows[..i] + [rule] + rows[i..], p) == RulesOf(rows, p) {
        InsertKeepsOtherPolicies(rows, i, rule, p);
      }
      assert rows == rows[..i] + rows[i..];
      rows := rows[..i] + [rule] + rows[i..];
      return Saved;
    }
  }
}
