/**
 * Which clusters a policy is bound to: the placement rule the policy generator builds, the label selector
 * the translator builds from the same input, and the check on contradictory rules.
 */
module Selectors {
  import opened Text
  import opened Strings

  datatype Operator = Exists | In | DoesNotExist | NotIn

  datatype Requirement = Requirement(key: string, op: Operator, values: seq<string>)

  type Labels = map<string, string>

  /** Label keys with a value, or the empty value for "any". */
  type Rules = map<string, string>

  /** When a requirement accepts a set of labels. */
  predicate Matches(r: Requirement, labels: Labels) {
    match r.op
    case Exists => r.key in labels
    case In => r.key in labels && labels[r.key] in r.values
    case DoesNotExist => r.key !in labels
    case NotIn => r.key !in labels || labels[r.key] !in r.values
  }

  predicate MatchesAll(requirements: seq<Requirement>, labels: Labels) {
    forall i :: 0 <= i < |requirements| ==> Matches(requirements[i], labels)
  }

  // ---------- the placement rule ----------

  function Expression(key: string, value: string, excluded: bool): Requirement {
    if value == "" then Requirement(key, if excluded then DoesNotExist else Exists, [])
    else Requirement(key, if excluded then NotIn else In, Split(value, ','))
  }

  function Expressions(keys: seq<string>, rules: Rules, excluded: bool): (r: seq<Requirement>)
    requires forall k :: k in keys ==> k in rules
    ensures |r| == |keys| && forall i :: 0 <= i < |keys| ==> r[i] == Expression(keys[i], rules[keys[i]], excluded)
  {
    seq(|keys|, i requires 0 <= i < |keys| => Expression(keys[i], rules[keys[i]], excluded))
  }

  /** What a cluster must look like, without any order: the meaning of binding rules and excluded rules. */
  predicate Bound(rules: Rules, excluded: Rules, labels: Labels) {
    && (forall k :: k in rules ==> k in labels && (rules[k] == "" || labels[k] in Split(rules[k], ',')))
    && (forall k :: k in excluded ==> k !in labels || (excluded[k] != "" && labels[k] !in Split(excluded[k], ',')))
  }

  /** One loop over sorted keys. */
  method AddExpressions(rules: Rules, excluded: bool) returns (r: seq<Requirement>)
    ensures forall keys :: SortedKeys(keys, rules.Keys) ==> r == Expressions(keys, rules, excluded)
    ensures exists keys :: SortedKeys(keys, rules.Keys)
  {
    var keys := SortKeys(rules.Keys);
    r := [];
    for i := 0 to |keys|
      invariant r == Expressions(keys, rules, excluded)[..i]
    {
      r := r + [Expression(keys[i], rules[keys[i]], excluded)];
    }
    assert Expressions(keys, rules, excluded)[..|keys|] == Expressions(keys, rules, excluded);
    forall other | SortedKeys(other, rules.Keys) ensures r == Expressions(other, rules, excluded) {
      SortedKeysUnique(keys, other, rules.Keys);
    }
  }

  /** The expressions do not depend on the order in which the maps are enumerated, and mean `Bound`. */
  method CreatePlacementRule(rules: Rules, excluded: Rules) returns (r: seq<Requirement>)
    ensures forall keys, keys' :: SortedKeys(keys, rules.Keys) && SortedKeys(keys', excluded.Keys) ==>
                                    r == Expressions(keys, rules, false) + Expressions(keys', excluded, true)
    ensures forall labels :: MatchesAll(r, labels) <==> Bound(rules, excluded, labels)
  {
    var included := AddExpressions(rules, false);
    var excepted := AddExpressions(excluded, true);
    r := included + excepted;
    ghost var keys :| SortedKeys(keys, rules.Keys);
    ghost var keys' :| SortedKeys(keys', excluded.Keys);
    forall labels ensures MatchesAll(r, labels) <==> Bound(rules, excluded, labels) {
      ExpressionsMeaning(keys, keys', rules, excluded, labels);
    }
  }

  lemma ExpressionsMeaning(keys: seq<string>, keys': seq<string>, rules: Rules, excluded: Rules, labels: Labels)
    requires SortedKeys(keys, rules.Keys) && SortedKeys(keys', excluded.Keys)
    ensures MatchesAll(Expressions(keys, rules, false) + Expressions(keys', excluded, true), labels) <==>
            Bound(rules, excluded, labels)
  {
    var included, excepted := Expressions(keys, rules, false), Expressions(keys', excluded, true);
    var all := included + excepted;
    if MatchesAll(all, labels) {
      forall k | k in rules ensures k in labels && (rules[k] == "" || labels[k] in Split(rules[k], ',')) {
        assert k in keys;
        var i :| 0 <= i < |keys| && keys[i] == k;
        assert Matches(all[i], labels);
      }
      forall k | k in excluded ensures k !in labels || (excluded[k] != "" && labels[k] !in Split(excluded[k], ',')) {
        assert k in keys';
        var i :| 0 <= i < |keys'| && keys'[i] == k;
        assert Matches(all[|included| + i], labels);
      }
    }
    if Bound(rules, excluded, labels) {
      forall i | 0 <= i < |all| ensures Matches(all[i], labels) {
        if i < |keys| { assert keys[i] in rules; } else { assert keys'[i - |keys|] in excluded; }
      }
    }
  }

  // ---------- the check on the rules ----------

  predicate Accepted(rules: Rules, excluded: Rules) {
    forall k :: k in excluded && k in rules ==> excluded[k] != "" && excluded[k] != rules[k]
  }

  method CheckBindingRules(rules: Rules, excluded: Rules) returns (ok: bool)
    ensures ok <==> Accepted(rules, excluded)
  {
    var todo := excluded.Keys;
    while todo != {}
      invariant todo <= excluded.Keys
      invariant forall k :: k in excluded && k in rules && k !in todo ==> excluded[k] != "" && excluded[k] != rules[k]
    {
      var key :| key in todo;
      todo := todo - {key};
      if key in rules && (excluded[key] == "" || excluded[key] == rules[key]) {
        return false;
      }
    }
    ok := true;
  }

  ghost predicate Satisfiable(rules: Rules, excluded: Rules) {
    exists labels :: Bound(rules, excluded, labels)
  }

  /** Some value satisfies both what is asked and what is excluded for one key. */
  ghost predicate LeavesValue(rule: string, exception: string) {
    exception != "" && (rule == "" || exists v :: v in Split(rule, ',') && v !in Split(exception, ','))
  }

  lemma {:induction false} PiecesShorter(s: string, sep: char)
    ensures forall i :: 0 <= i < |Split(s, sep)| ==> |Split(s, sep)[i]| <= |s|
  {
    if s != "" { PiecesShorter(s[1..], sep); }
  }

  function Fresh(s: string): (v: string)
    ensures v !in Split(s, ',')
  {
    PiecesShorter(s, ',');
    var v := seq(|s| + 1, _ => 'x');
    assert |v| > |s|;
    v
  }

  ghost function Choose(rule: string, exception: string): string
    requires LeavesValue(rule, exception)
  {
    if rule == "" then Fresh(exception) else var v :| v in Split(rule, ',') && v !in Split(exception, ','); v
  }

  /** The labels of a cluster that is bound, if there is one. */
  ghost function Witness(rules: Rules, excluded: Rules): Labels
    requires forall k :: k in rules && k in excluded ==> LeavesValue(rules[k], excluded[k])
  {
    map k | k in rules :: if k in excluded then Choose(rules[k], excluded[k]) else Split(rules[k], ',')[0]
  }

  /** Exactly when some cluster can be bound. */
  lemma SatisfiableExactly(rules: Rules, excluded: Rules)
    ensures Satisfiable(rules, excluded) <==>
            forall k :: k in rules && k in excluded ==> LeavesValue(rules[k], excluded[k])
  {
    if Satisfiable(rules, excluded) {
      var labels :| Bound(rules, excluded, labels);
      forall k | k in rules && k in excluded ensures LeavesValue(rules[k], excluded[k]) {
        assert rules[k] == "" || labels[k] in Split(rules[k], ',');
      }
    }
    if forall k :: k in rules && k in excluded ==> LeavesValue(rules[k], excluded[k]) {
      assert Bound(rules, excluded, Witness(rules, excluded));
    }
  }

  /** A rejected pair of rule sets cannot bind any cluster. */
  lemma RejectionSound(rules: Rules, excluded: Rules)
    requires !Accepted(rules, excluded)
    ensures !Satisfiable(rules, excluded)
  {
    SatisfiableExactly(rules, excluded);
  }

  ghost predicate CommaFree(rules: Rules) {
    forall k :: k in rules ==> ',' !in rules[k]
  }

  /** For values without commas the check decides satisfiability. */
  lemma CheckDecides(rules: Rules, excluded: Rules)
    requires CommaFree(rules) && CommaFree(excluded)
    ensures Accepted(rules, excluded) <==> Satisfiable(rules, excluded)
  {
    SatisfiableExactly(rules, excluded);
    forall k | k in rules && k in excluded
      ensures LeavesValue(rules[k], excluded[k]) <==> excluded[k] != "" && excluded[k] != rules[k]
    {
      SplitPiece(rules[k], "", ',');
      SplitPiece(excluded[k], "", ',');
      assert rules[k] in Split(rules[k], ',');
    }
  }

  /**
   * In general its verdict is right exactly if what it accepts leaves a value for every key both bound and excluded.
   */
  lemma VerdictRightExactly(rules: Rules, excluded: Rules)
    ensures (Accepted(rules, excluded) <==> Satisfiable(rules, excluded)) <==>
            (Accepted(rules, excluded) ==>
               forall k :: k in rules && k in excluded ==> LeavesValue(rules[k], excluded[k]))
  {
    SatisfiableExactly(rules, excluded);
    if !Accepted(rules, excluded) { RejectionSound(rules, excluded); }
  }

  /** With commas it is only sound: these rules are accepted and bind nothing. */
  lemma CheckMissesLists(key: string)
    ensures Accepted(map[key := "a"], map[key := "a,b"]) && !Satisfiable(map[key := "a"], map[key := "a,b"])
  {
    var rules, excluded := map[key := "a"], map[key := "a,b"];
    SatisfiableExactly(rules, excluded);
    SplitPiece("a", "b", ',');
    assert "a" + [','] + "b" == "a,b";
    assert (["a"] + Split("b", ','))[0] == "a";
    assert key in rules && key in excluded && !LeavesValue(rules[key], excluded[key]);
  }

  // ---------- the translated selector ----------

  function TranslatedRequirement(key: string, value: string, excluded: bool): Requirement {
    if excluded then Requirement(key, DoesNotExist, [value])
    else if value == "" then Requirement(key, Exists, [])
    else Requirement(key, In, [value])
  }

  /**
   * What the translated selector accepts: empty keys are ignored, excluded keys must be absent whatever their value.
   */
  predicate Selected(labelList: Rules, excluded: Rules, labels: Labels) {
    && (forall k :: k in labelList && k != "" ==> k in labels && (labelList[k] == "" || labels[k] == labelList[k]))
    && (forall k :: k in excluded && k != "" ==> k !in labels)
  }

  predicate SelectedFrom(labelList: Rules, keys: set<string>, exclude: bool, labels: Labels) {
    forall k :: k in labelList && k in keys && k != "" ==>
        Matches(TranslatedRequirement(k, labelList[k], exclude), labels)
  }

  method AddRequirements(labelList: Rules, selector: seq<Requirement>, exclude: bool) returns (r: seq<Requirement>)
    ensures forall labels :: MatchesAll(r, labels) <==>
                               MatchesAll(selector, labels) && SelectedFrom(labelList, labelList.Keys, exclude, labels)
  {
    r := selector;
    var todo := labelList.Keys;
    while todo != {}
      invariant todo <= labelList.Keys
      invariant forall labels :: MatchesAll(r, labels) <==>
                                   && MatchesAll(selector, labels)
                                   && SelectedFrom(labelList, labelList.Keys - todo, exclude, labels)
    {
      var key :| key in todo;
      ghost var before, todo' := r, todo;
      todo := todo - {key};
      if key == "" {
        forall labels
          ensures SelectedFrom(labelList, labelList.Keys - todo, exclude, labels) <==>
                  SelectedFrom(labelList, labelList.Keys - todo', exclude, labels)
        {
        }
        continue;
      }
      var requirement := TranslatedRequirement(key, labelList[key], exclude);
      r := r + [requirement];
      forall labels
        ensures MatchesAll(r, labels) <==> MatchesAll(before, labels) && Matches(requirement, labels)
        ensures SelectedFrom(labelList, labelList.Keys - todo, exclude, labels) <==>
                SelectedFrom(labelList, labelList.Keys - todo', exclude, labels) && Matches(requirement, labels)
      {
        MatchesAllAppend(before, requirement, labels);
        SelectedFromNext(labelList, labelList.Keys - todo', key, exclude, labels);
        assert labelList.Keys - todo == labelList.Keys - todo' + {key};
      }
    }
    assert labelList.Keys - todo == labelList.Keys;
  }

  lemma MatchesAllAppend(requirements: seq<Requirement>, r: Requirement, labels: Labels)
    ensures MatchesAll(requirements + [r], labels) <==> MatchesAll(requirements, labels) && Matches(r, labels)
  {
    var all := requirements + [r];
    if MatchesAll(all, labels) {
      assert Matches(all[|requirements|], labels);
      forall i | 0 <= i < |requirements| ensures Matches(requirements[i], labels) { assert Matches(all[i], labels); }
    }
  }

  lemma SelectedFromNext(labelList: Rules, keys: set<string>, key: string, exclude: bool, labels: Labels)
    requires key in labelList && key != ""
    ensures SelectedFrom(labelList, keys + {key}, exclude, labels) <==>
            && SelectedFrom(labelList, keys, exclude, labels)
            && Matches(TranslatedRequirement(key, labelList[key], exclude), labels)
  {
  }

  method LabelToSelector(labelList: Rules, excluded: Rules) returns (selector: seq<Requirement>)
    ensures forall labels :: MatchesAll(selector, labels) <==> Selected(labelList, excluded, labels)
  {
    selector := AddRequirements(labelList, [], false);
    selector := AddRequirements(excluded, selector, true);
  }

  ghost predicate NamedKeys(rules: Rules) {
    "" !in rules
  }

  /** Translation narrows: a cluster the new selector accepts was accepted by the placement rule. */
  lemma TranslationRefines(rules: Rules, excluded: Rules, labels: Labels)
    requires NamedKeys(rules) && NamedKeys(excluded) && CommaFree(rules) && CommaFree(excluded)
    requires Selected(rules, excluded, labels)
    ensures Bound(rules, excluded, labels)
  {
    forall k | k in rules ensures rules[k] in Split(rules[k], ',') { SplitPiece(rules[k], "", ','); }
  }

  /** And it accepts the same clusters exactly when no excluded key has a value, or no cluster is bound at all. */
  lemma TranslationExactly(rules: Rules, excluded: Rules)
    requires NamedKeys(rules) && NamedKeys(excluded) && CommaFree(rules) && CommaFree(excluded)
    ensures (forall labels :: Selected(rules, excluded, labels) <==> Bound(rules, excluded, labels)) <==>
            (forall k :: k in excluded ==> excluded[k] == "") || !Accepted(rules, excluded)
  {
    CheckDecides(rules, excluded);
    forall k | k in rules ensures Split(rules[k], ',') == [rules[k]] { SplitPiece(rules[k], "", ','); }
    forall labels | Selected(rules, excluded, labels) ensures Bound(rules, excluded, labels) {
      TranslationRefines(rules, excluded, labels);
    }
    if k :| k in excluded && excluded[k] != "" && Satisfiable(rules, excluded) {
      var labels :| Bound(rules, excluded, labels);
      var labels' := if k in rules then labels else labels[k := Fresh(excluded[k])];
      assert Bound(rules, excluded, labels') && !Selected(rules, excluded, labels');
    }
  }
}
