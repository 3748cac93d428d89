/** Which dependency files bind: exactly those whose rules are what the printer writes, in some order after the first. */
module DepfileShape {
  import opened Wrappers
  import opened Depfile
  import opened DepfileBinding

  // ---------------------------------------------------------------- counting words

  lemma {:induction false} SetSize(words: seq<string>)
    ensures |SetOf(words)| <= |words|
    ensures Distinct(words) <==> |SetOf(words)| == |words|
  {
    if words != [] {
      var n := |words| - 1;
      var last, earlier := words[n], words[..n];
      SetSize(earlier);
      assert words == earlier + [last];
      assert SetOf(words) == SetOf(earlier) + {last};
      assert Distinct(words) <==> Distinct(earlier) && last !in earlier;
    }
  }

  lemma {:induction false} CountOfDistinct(words: seq<string>, word: string)
    requires Distinct(words)
    ensures multiset(words)[word] == if word in words then 1 else 0
  {
    if words != [] {
      var n := |words| - 1;
      CountOfDistinct(words[..n], word);
      assert words == words[..n] + [words[n]];
    }
  }

  /** As many words as distinct ones, and the same set: then they are the same words in some order. */
  lemma SameWords(words: seq<string>, distinct: seq<string>)
    requires Distinct(distinct)
    ensures |words| == |distinct| && SetOf(words) == SetOf(distinct) <==> multiset(words) == multiset(distinct)
  {
    SetSize(words);
    SetSize(distinct);
    if |words| == |distinct| && SetOf(words) == SetOf(distinct) {
      forall word ensures multiset(words)[word] == multiset(distinct)[word] {
        CountOfDistinct(words, word);
        CountOfDistinct(distinct, word);
        assert word in words <==> word in SetOf(words);
        assert word in distinct <==> word in SetOf(distinct);
      }
    }
    if multiset(words) == multiset(distinct) {
      assert |multiset(words)| == |words| && |multiset(distinct)| == |distinct|;
      forall word ensures word in SetOf(words) <==> word in SetOf(distinct) {
        assert word in multiset(words) <==> word in multiset(distinct);
      }
    }
  }

  // ---------------------------------------------------------------- counting rules

  /** Rules with the same dependencies are the same in some order exactly if their targets are. */
  lemma {:induction false} RulesByTarget(rules: seq<Rule>, dependencies: seq<string>, rule: Rule)
    requires forall k | 0 <= k < |rules| :: rules[k].dependencies == dependencies
    ensures multiset(rules)[rule] == if rule.dependencies == dependencies then multiset(TargetsOf(rules))[rule.target] else 0
  {
    if rules != [] {
      var n := |rules| - 1;
      RulesByTarget(rules[..n], dependencies, rule);
      assert rules == rules[..n] + [rules[n]];
      assert TargetsOf(rules) == TargetsOf(rules[..n]) + [rules[n].target];
    }
  }

  lemma SameRules(left: seq<Rule>, right: seq<Rule>, dependencies: seq<string>)
    requires forall k | 0 <= k < |left| :: left[k].dependencies == dependencies
    requires forall k | 0 <= k < |right| :: right[k].dependencies == dependencies
    ensures multiset(left) == multiset(right) <==> multiset(TargetsOf(left)) == multiset(TargetsOf(right))
  {
    forall rule ensures multiset(left)[rule] == if rule.dependencies == dependencies then multiset(TargetsOf(left))[rule.target] else 0 {
      RulesByTarget(left, dependencies, rule);
    }
    forall rule ensures multiset(right)[rule] == if rule.dependencies == dependencies then multiset(TargetsOf(right))[rule.target] else 0 {
      RulesByTarget(right, dependencies, rule);
    }
    if multiset(left) == multiset(right) {
      forall target ensures multiset(TargetsOf(left))[target] == multiset(TargetsOf(right))[target] {
        assert multiset(left)[Rule(target, dependencies)] == multiset(right)[Rule(target, dependencies)];
      }
    }
    if multiset(TargetsOf(left)) == multiset(TargetsOf(right)) {
      forall rule ensures multiset(left)[rule] == multiset(right)[rule] {
      }
    }
  }

  lemma {:induction false} SplitCounts(rules: seq<Rule>, rule: Rule)
    ensures multiset(WithDependencies(rules))[rule] == if rule.dependencies != [] then multiset(rules)[rule] else 0
    ensures multiset(WithoutDependencies(rules))[rule] == if rule.dependencies == [] then multiset(rules)[rule] else 0
  {
    if rules != [] {
      SplitCounts(rules[1..], rule);
      assert rules == [rules[0]] + rules[1..];
    }
  }

  lemma {:induction false} SplitSum(rules: seq<Rule>)
    ensures multiset(rules) == multiset(WithDependencies(rules)) + multiset(WithoutDependencies(rules))
  {
    if rules != [] {
      SplitSum(rules[1..]);
      assert rules == [rules[0]] + rules[1..];
    }
  }

  lemma PartsAlike(left: seq<Rule>, right: seq<Rule>)
    requires multiset(left) == multiset(right)
    ensures multiset(WithDependencies(left)) == multiset(WithDependencies(right))
    ensures multiset(WithoutDependencies(left)) == multiset(WithoutDependencies(right))
  {
    hide WithDependencies, WithoutDependencies;
    forall rule
      ensures multiset(WithDependencies(left))[rule] == multiset(WithDependencies(right))[rule]
      ensures multiset(WithoutDependencies(left))[rule] == multiset(WithoutDependencies(right))[rule]
    {
      SplitCounts(left, rule);
      SplitCounts(right, rule);
    }
  }

  /** Two rule lists are the same in some order exactly if their parts with and without dependencies are. */
  lemma SplitDecides(left: seq<Rule>, right: seq<Rule>)
    ensures multiset(left) == multiset(right) <==>
              && multiset(WithDependencies(left)) == multiset(WithDependencies(right))
              && multiset(WithoutDependencies(left)) == multiset(WithoutDependencies(right))
  {
    hide WithDependencies, WithoutDependencies;
    SplitSum(left);
    SplitSum(right);
    if multiset(left) == multiset(right) {
      PartsAlike(left, right);
    }
  }

  lemma {:induction false} SplitParts(rules: seq<Rule>)
    ensures forall k | 0 <= k < |WithDependencies(rules)| :: WithDependencies(rules)[k].dependencies != []
    ensures forall k | 0 <= k < |WithoutDependencies(rules)| :: WithoutDependencies(rules)[k].dependencies == []
  {
    if rules != [] {
      SplitParts(rules[1..]);
    }
  }

  // ---------------------------------------------------------------- the shape

  /** The first rule is the depfile's own, and all together are the printed ones, in some order. */
  ghost predicate Printed(rules: seq<Rule>, targets: seq<string>)
    requires rules != [] && targets != []
  {
    var dependencies := rules[0].dependencies;
    && rules[0].target == targets[0] && dependencies != [] && Distinct(dependencies)
    && multiset(rules) == multiset(TargetRules(targets, dependencies) + PhonyRules(dependencies))
  }

  lemma RulesFitExactly(rules: seq<Rule>, targets: seq<string>)
    requires rules != [] && targets != [] && Distinct(targets)
    ensures RulesFit(rules, targets) <==> Printed(rules, targets)
  {
    var dependencies := rules[0].dependencies;
    if dependencies != [] && Distinct(dependencies) {
      var products, empty := WithDependencies(rules), WithoutDependencies(rules);
      RenderedRulesSplit(targets, dependencies, dependencies);
      RuleTargets(targets, dependencies);
      RuleTargets(dependencies, dependencies);
      SplitDecides(rules, TargetRules(targets, dependencies) + PhonyRules(dependencies));
      SplitParts(rules);
      SameWords(TargetsOf(products), targets);
      SameWords(TargetsOf(empty), dependencies);
      PhonyHaveNone(dependencies);
      SameRules(empty, PhonyRules(dependencies), []);
      if forall k | 0 <= k < |products| :: products[k].dependencies == dependencies {
        SameRules(products, TargetRules(targets, dependencies), dependencies);
      } else {
        OddProduct(products, TargetRules(targets, dependencies), dependencies);
      }
      hide *;
    }
  }

  lemma OddProduct(products: seq<Rule>, printed: seq<Rule>, dependencies: seq<string>)
    requires forall k | 0 <= k < |printed| :: printed[k].dependencies == dependencies
    requires exists k | 0 <= k < |products| :: products[k].dependencies != dependencies
    ensures multiset(products) != multiset(printed)
  {
    var k :| 0 <= k < |products| && products[k].dependencies != dependencies;
    assert products[k] in multiset(products);
    assert products[k] !in printed;
  }

  lemma {:induction false} PhonyHaveNone(words: seq<string>)
    ensures forall k | 0 <= k < |PhonyRules(words)| :: PhonyRules(words)[k].dependencies == []
  {
    if words != [] {
      PhonyHaveNone(words[1..]);
    }
  }

  // ---------------------------------------------------------------- the members

  /** Every dependency resolves to an expected member of the package, no two to the same one. */
  ghost predicate MembersFit(deps: seq<string>, sourceDir: string, expected: map<string, string>) {
    && (forall k | 0 <= k < |deps| :: Member(sourceDir, deps[k]).Some? && Member(sourceDir, deps[k]).value in expected)
    && (forall i, j | 0 <= i < j < |deps| :: Member(sourceDir, deps[i]) != Member(sourceDir, deps[j]))
  }

  /** The sources are exactly the members, each with its spelling and its expected hash. */
  ghost predicate Lists(sources: map<string, Source>, deps: seq<string>, sourceDir: string, expected: map<string, string>) {
    && (forall member | member in sources :: Needs(deps, sourceDir, member))
    && (forall k | 0 <= k < |deps| ::
          var member := Member(sourceDir, deps[k]);
          && member.Some? && member.value in expected && member.value in sources
          && sources[member.value] == Source(deps[k], expected[member.value]))
  }

  lemma OneMoreListed(
    sources: map<string, Source>, deps: seq<string>, sourceDir: string, expected: map<string, string>, dep: string)
    requires Lists(sources, deps, sourceDir, expected) && MembersFit(deps, sourceDir, expected)
    requires Member(sourceDir, dep).Some? && Member(sourceDir, dep).value in expected
    ensures MembersFit(deps + [dep], sourceDir, expected) <==> Member(sourceDir, dep).value !in sources
    ensures var member := Member(sourceDir, dep).value;
            member !in sources ==> Lists(sources[member := Source(dep, expected[member])], deps + [dep], sourceDir, expected)
  {
    hide Member;
    var member, more := Member(sourceDir, dep).value, deps + [dep];
    assert forall k | 0 <= k < |deps| :: more[k] == deps[k];
    assert more[|deps|] == dep;
    if member in sources {
      assert Needs(deps, sourceDir, member);
      var k :| 0 <= k < |deps| && Member(sourceDir, deps[k]) == Some(member);
      assert Member(sourceDir, more[k]) == Member(sourceDir, more[|deps|]);
    }
  }

  lemma FewerFit(deps: seq<string>, sourceDir: string, expected: map<string, string>)
    requires deps != [] && MembersFit(deps, sourceDir, expected)
    ensures MembersFit(deps[..|deps| - 1], sourceDir, expected)
  {
    hide Member;
  }

  lemma {:induction false} SourcesExactly(deps: seq<string>, sourceDir: string, expected: map<string, string>)
    ensures Sources(deps, sourceDir, expected).Some? <==> MembersFit(deps, sourceDir, expected)
    ensures Sources(deps, sourceDir, expected).Some? ==> Lists(Sources(deps, sourceDir, expected).value, deps, sourceDir, expected)
  {
    if deps != [] {
      hide Member, MembersFit, Lists, Sources;
      var n := |deps| - 1;
      SourcesUnfold(deps, sourceDir, expected);
      SourcesExactly(deps[..n], sourceDir, expected);
      if MembersFit(deps, sourceDir, expected) {
        FewerFit(deps, sourceDir, expected);
        LastFits(deps, sourceDir, expected);
      }
      assert deps == deps[..n] + [deps[n]];
      var member := Member(sourceDir, deps[n]);
      if Sources(deps[..n], sourceDir, expected).Some? && member.Some? && member.value in expected {
        OneMoreListed(Sources(deps[..n], sourceDir, expected).value, deps[..n], sourceDir, expected, deps[n]);
      }
    }
  }

  lemma SourcesUnfold(deps: seq<string>, sourceDir: string, expected: map<string, string>)
    requires deps != []
    ensures var n := |deps| - 1;
            var earlier, member := Sources(deps[..n], sourceDir, expected), Member(sourceDir, deps[n]);
            Sources(deps, sourceDir, expected)
            == if earlier.None? || member.None? || member.value !in expected || member.value in earlier.value then None
               else Some(earlier.value[member.value := Source(deps[n], expected[member.value])])
  {
    hide Member;
  }

  lemma LastFits(deps: seq<string>, sourceDir: string, expected: map<string, string>)
    requires deps != [] && MembersFit(deps, sourceDir, expected)
    ensures Member(sourceDir, deps[|deps| - 1]).Some? && Member(sourceDir, deps[|deps| - 1]).value in expected
  {
    hide Member;
  }

  ghost predicate Needs(deps: seq<string>, sourceDir: string, member: string) {
    exists k | 0 <= k < |deps| :: Member(sourceDir, deps[k]) == Some(member)
  }

  /**
   * Every text: it binds exactly for an absolute normal source directory with unchanged files and distinct absolute
   * targets, when its rules are the printed ones and its dependencies the expected members, the needed ones among them.
   */
  lemma BindsExactly(text: string, targets: seq<string>, p: Package)
    requires targets != []
    ensures Bind(text, targets, p).Some? <==>
              && IsAbsolute(p.sourceDir) && IsNormal(p.sourceDir) && p.current == p.expected
              && Distinct(targets) && (forall k | 0 <= k < |targets| :: IsAbsolute(targets[k]))
              && Rules(text).Some? && Rules(text).value != []
              && Printed(Rules(text).value, targets)
              && var deps := Rules(text).value[0].dependencies;
                 && MembersFit(deps, p.sourceDir, p.expected) && Needs(deps, p.sourceDir, "src/lib.rs")
                 && (p.test ==> Needs(deps, p.sourceDir, "src/emitter_parity.rs")
                                && Needs(deps, p.sourceDir, "src/parity/current_features.rs"))
  {
    hide Rules, RulesFit, Printed, Sources, Member, IsNormal, MembersFit;
    if Rules(text).Some? && Rules(text).value != [] && Distinct(targets) {
      RulesFitExactly(Rules(text).value, targets);
      SourcesExactly(Rules(text).value[0].dependencies, p.sourceDir, p.expected);
    }
  }
}
