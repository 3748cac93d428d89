/** Binding a dependency file to one package: `bind_core_depfile` of evaluation/emitter-parity-run.py. */
module DepfileBinding {
  import opened Wrappers
  import opened Depfile

  // ---------------------------------------------------------------- path components

  /** Python's `split("/")` of text after a started component. */
  function SplitSlash(text: string, part: string): (r: seq<string>)
    ensures r != []
    decreases |text|
  {
    if text == "" then [part]
    else if text[0] == '/' then [part] + SplitSlash(text[1..], "")
    else SplitSlash(text[1..], part + [text[0]])
  }

  function JoinSlash(parts: seq<string>): string {
    if parts == [] then "" else if |parts| == 1 then parts[0] else parts[0] + "/" + JoinSlash(parts[1..])
  }

  predicate IsName(part: string) {
    part != "" && part != "." && part != ".."
  }

  /** The names left after walking the parts from below `stack`; none when a parent step leaves the package. */
  function Walk(parts: seq<string>, stack: seq<string>): Option<seq<string>>
    decreases |parts|
  {
    if parts == [] then Some(stack)
    else if parts[0] == "" || parts[0] == "." then Walk(parts[1..], stack)
    else if parts[0] == ".." then (if stack == [] then None else Walk(parts[1..], stack[..|stack| - 1]))
    else Walk(parts[1..], stack + [parts[0]])
  }

  /** How far below the start a walk ends: a name goes down, a parent step goes up. */
  function Depth(parts: seq<string>): int {
    if parts == [] then 0
    else Depth(parts[..|parts| - 1]) + var last := parts[|parts| - 1];
      if last == ".." then -1 else if IsName(last) then 1 else 0
  }

  lemma {:induction false} WalkConcat(left: seq<string>, right: seq<string>, stack: seq<string>)
    ensures Walk(left + right, stack)
         == match Walk(left, stack)
            case None => None
            case Some(between) => Walk(right, between)
    decreases |left|
  {
    if left == [] {
      assert left + right == right;
    } else {
      assert (left + right)[1..] == left[1..] + right;
      if left[0] == "" || left[0] == "." {
        WalkConcat(left[1..], right, stack);
      } else if left[0] != ".." {
        WalkConcat(left[1..], right, stack + [left[0]]);
      } else if stack != [] {
        WalkConcat(left[1..], right, stack[..|stack| - 1]);
      }
    }
  }

  ghost predicate AllNames(parts: seq<string>) {
    forall k | 0 <= k < |parts| :: IsName(parts[k])
  }

  /** One more part: a name is pushed, a parent step pops, anything else changes nothing. */
  lemma WalkLast(before: seq<string>, last: string)
    ensures Walk(before + [last], [])
         == match Walk(before, [])
            case None => None
            case Some(stack) =>
              if IsName(last) then Some(stack + [last])
              else if last != ".." then Some(stack)
              else if stack == [] then None else Some(stack[..|stack| - 1])
    ensures Depth(before + [last]) == Depth(before) + if last == ".." then -1 else if IsName(last) then 1 else 0
  {
    WalkConcat(before, [last], []);
    assert [last][1..] == [];
    assert (before + [last])[..|before|] == before;
  }

  /** No prefix of the path goes above its start. */
  ghost predicate StaysInside(parts: seq<string>) {
    forall k | 0 <= k <= |parts| :: Depth(parts[..k]) >= 0
  }

  lemma StaysLast(before: seq<string>, last: string)
    ensures StaysInside(before + [last]) <==> StaysInside(before) && Depth(before + [last]) >= 0
    ensures StaysInside(before) ==> Depth(before) >= 0
  {
    hide Depth;
    var parts := before + [last];
    assert forall k | 0 <= k <= |before| :: parts[..k] == before[..k];
    assert parts[..|parts|] == parts && before[..|before|] == before;
  }

  /** A walk stays in the package exactly when no prefix of it goes above the start; its result is a list of plain names. */
  lemma {:induction false} WalkStaysInside(parts: seq<string>)
    ensures Walk(parts, []).Some? <==> StaysInside(parts)
    ensures Walk(parts, []).Some? ==> |Walk(parts, []).value| == Depth(parts) && AllNames(Walk(parts, []).value)
  {
    if parts == [] {
      assert forall k | 0 <= k <= |parts| :: parts[..k] == [];
    } else {
      var before, last := parts[..|parts| - 1], parts[|parts| - 1];
      assert parts == before + [last];
      hide Walk, Depth, IsName, StaysInside;
      WalkStaysInside(before);
      WalkLast(before, last);
      StaysLast(before, last);
    }
  }

  /** A list of plain names walks to itself: resolving twice is resolving once. */
  lemma {:induction false} NamesWalkToThemselves(names: seq<string>, stack: seq<string>)
    requires AllNames(names)
    ensures Walk(names, stack) == Some(stack + names)
    decreases |names|
  {
    if names == [] {
      assert stack + names == stack;
    } else {
      assert forall k | 0 <= k < |names| - 1 :: names[1..][k] == names[k + 1];
      NamesWalkToThemselves(names[1..], stack + [names[0]]);
      assert stack + [names[0]] + names[1..] == stack + names;
    }
  }

  /** Splitting at slashes loses nothing. */
  lemma {:induction false} JoinOfSplit(text: string, part: string)
    ensures JoinSlash(SplitSlash(text, part)) == part + text
    decreases |text|
  {
    if text == "" {
      assert part + "" == part;
    } else if text[0] == '/' {
      JoinOfSplit(text[1..], "");
      var parts := SplitSlash(text, part);
      assert parts[1..] == SplitSlash(text[1..], "");
      assert part + "/" + ("" + text[1..]) == part + text;
    } else {
      JoinOfSplit(text[1..], part + [text[0]]);
      assert part + [text[0]] + text[1..] == part + text;
    }
  }

  /** The loop that pushes and pops components. */
  method WalkComponents(parts: seq<string>) returns (r: Option<seq<string>>)
    ensures r == Walk(parts, [])
  {
    var components: seq<string> := [];
    var k := 0;
    assert parts[0..] == parts;
    while k < |parts|
      invariant k <= |parts| && Walk(parts, []) == Walk(parts[k..], components)
    {
      assert parts[k..][1..] == parts[k + 1..];
      if parts[k] == "" || parts[k] == "." {
      } else if parts[k] == ".." {
        if components == [] {
          return None;
        }
        components := components[..|components| - 1];
      } else {
        components := components + [parts[k]];
      }
      k := k + 1;
    }
    assert parts[k..] == [];
    r := Some(components);
  }

  // ---------------------------------------------------------------- members

  predicate IsAbsolute(path: string) {
    path != "" && path[0] == '/'
  }

  /** A dependency's spelling relative to the package; none for an absolute path of another owner. */
  function Relative(sourceDir: string, spelling: string): Option<string> {
    if !IsAbsolute(spelling) then Some(spelling)
    else if sourceDir + "/" <= spelling then Some(spelling[|sourceDir| + 1..])
    else None
  }

  function Member(sourceDir: string, spelling: string): Option<string> {
    match Relative(sourceDir, spelling)
    case None => None
    case Some(relative) =>
      match Walk(SplitSlash(relative, ""), [])
      case None => None
      case Some(names) => Some(JoinSlash(names))
  }

  datatype Source = Source(spelling: string, sha256: string)

  /** Every dependency is an expected member, and no member is named twice. */
  function Sources(deps: seq<string>, sourceDir: string, expected: map<string, string>): Option<map<string, Source>> {
    if deps == [] then Some(map[])
    else
      var n := |deps| - 1;
      match Sources(deps[..n], sourceDir, expected)
      case None => None
      case Some(earlier) =>
        match Member(sourceDir, deps[n])
        case None => None
        case Some(member) =>
          if member !in expected || member in earlier then None
          else Some(earlier[member := Source(deps[n], expected[member])])
  }

  // ---------------------------------------------------------------- the rules of a package

  predicate Distinct(words: seq<string>) {
    forall i, j | 0 <= i < j < |words| :: words[i] != words[j]
  }

  function SetOf(words: seq<string>): set<string> {
    set word | word in words
  }

  function WithDependencies(rules: seq<Rule>): seq<Rule> {
    if rules == [] then []
    else (if rules[0].dependencies != [] then [rules[0]] else []) + WithDependencies(rules[1..])
  }

  function WithoutDependencies(rules: seq<Rule>): seq<Rule> {
    if rules == [] then []
    else (if rules[0].dependencies == [] then [rules[0]] else []) + WithoutDependencies(rules[1..])
  }

  function TargetsOf(rules: seq<Rule>): (r: seq<string>)
    ensures |r| == |rules| && forall k | 0 <= k < |r| :: r[k] == rules[k].target
  {
    seq(|rules|, k requires 0 <= k < |rules| => rules[k].target)
  }

  /** One rule per product with all dependencies, one empty rule per dependency. */
  predicate RulesFit(rules: seq<Rule>, targets: seq<string>)
    requires rules != [] && targets != []
  {
    var dependencies := rules[0].dependencies;
    var products, empty := WithDependencies(rules), WithoutDependencies(rules);
    && rules[0].target == targets[0]
    && dependencies != [] && Distinct(dependencies)
    && |products| == |targets| && SetOf(TargetsOf(products)) == SetOf(targets)
    && (forall k | 0 <= k < |products| :: products[k].dependencies == dependencies)
    && |empty| == |dependencies| && SetOf(TargetsOf(empty)) == SetOf(dependencies)
  }

  /** An absolute path that `normpath` leaves alone: one or two leading slashes, then plain names. */
  predicate IsNormal(path: string)
    requires IsAbsolute(path)
  {
    || path == "/" || path == "//"
    || var parts := SplitSlash(if "//" <= path && !("///" <= path) then path[2..] else path[1..], "");
       forall k | 0 <= k < |parts| :: IsName(parts[k])
  }

  /** A normal path with one leading slash is what walking and joining its own components gives. */
  lemma NormalPathsStay(path: string)
    requires IsAbsolute(path) && IsNormal(path) && path != "/" && !("//" <= path)
    ensures var names := Walk(SplitSlash(path[1..], ""), []);
            names.Some? && "/" + JoinSlash(names.value) == path
  {
    var parts := SplitSlash(path[1..], "");
    assert !("///" <= path);
    NamesWalkToThemselves(parts, []);
    assert [] + parts == parts;
    JoinOfSplit(path[1..], "");
    assert "/" + ("" + path[1..]) == path;
  }

  /** `sourceDir` is the text of the path object made from the argument. */
  datatype Package = Package(
    sourceDir: string, expected: map<string, string>, current: map<string, string>, test: bool)

  datatype Binding = Binding(owner: string, targets: seq<string>, sources: map<string, Source>)

  predicate PackageFit(p: Package, targets: seq<string>) {
    && IsAbsolute(p.sourceDir) && IsNormal(p.sourceDir) && p.current == p.expected
    && Distinct(targets) && forall k | 0 <= k < |targets| :: IsAbsolute(targets[k])
  }

  /** The sources a package cannot do without. */
  function Bound(p: Package, targets: seq<string>, deps: seq<string>): Option<Binding> {
    match Sources(deps, p.sourceDir, p.expected)
    case None => None
    case Some(sources) =>
      if "src/lib.rs" in sources && (p.test ==> "src/emitter_parity.rs" in sources && "src/parity/current_features.rs" in sources)
      then Some(Binding(p.sourceDir, targets, sources))
      else None
  }

  function Bind(text: string, targets: seq<string>, p: Package): Option<Binding>
    requires targets != []
  {
    if !PackageFit(p, targets) then None
    else match Rules(text)
         case None => None
         case Some(rules) =>
           if rules == [] || !RulesFit(rules, targets) then None else Bound(p, targets, rules[0].dependencies)
  }

  method ResolveMember(sourceDir: string, spelling: string) returns (member: Option<string>)
    ensures member == Member(sourceDir, spelling)
  {
    var relative := spelling;
    if IsAbsolute(spelling) {
      if !(sourceDir + "/" <= spelling) {
        return None;
      }
      relative := spelling[|sourceDir| + 1..];
    }
    var names := WalkComponents(SplitSlash(relative, ""));
    if names.None? {
      return None;
    }
    member := Some(JoinSlash(names.value));
  }

  method CollectSources(deps: seq<string>, sourceDir: string, expected: map<string, string>) returns (r: Option<map<string, Source>>)
    ensures r == Sources(deps, sourceDir, expected)
  {
    hide Member;
    var sources: map<string, Source> := map[];
    var k := 0;
    while k < |deps|
      invariant k <= |deps| && Sources(deps[..k], sourceDir, expected) == Some(sources)
    {
      assert deps[..k + 1][..k] == deps[..k];
      var member := ResolveMember(sourceDir, deps[k]);
      if member.None? || member.value !in expected || member.value in sources {
        PrefixFails(deps, k + 1, sourceDir, expected);
        return None;
      }
      sources := sources[member.value := Source(deps[k], expected[member.value])];
      k := k + 1;
    }
    assert deps[..k] == deps;
    r := Some(sources);
  }

  lemma {:induction false} PrefixFails(deps: seq<string>, k: nat, sourceDir: string, expected: map<string, string>)
    requires k <= |deps| && Sources(deps[..k], sourceDir, expected).None?
    ensures Sources(deps, sourceDir, expected).None?
    decreases |deps|
  {
    hide Member;
    if k < |deps| {
      assert deps[..|deps| - 1][..k] == deps[..k];
      PrefixFails(deps[..|deps| - 1], k, sourceDir, expected);
    } else {
      assert deps[..k] == deps;
    }
  }

  method BindCoreDepfile(text: string, targets: seq<string>, p: Package) returns (r: Option<Binding>)
    requires targets != []
    ensures r == Bind(text, targets, p)
  {
    hide Rules, Sources, RulesFit, PackageFit;
    if !PackageFit(p, targets) {
      return None;
    }
    var rules := DepfileRules(text);
    if rules.None? || rules.value == [] {
      return None;
    }
    if !RulesFit(rules.value, targets) {
      return None;
    }
    var sources := CollectSources(rules.value[0].dependencies, p.sourceDir, p.expected);
    if sources.None? || "src/lib.rs" !in sources.value {
      return None;
    }
    if p.test && ("src/emitter_parity.rs" !in sources.value || "src/parity/current_features.rs" !in sources.value) {
      return None;
    }
    r := Some(Binding(p.sourceDir, targets, sources.value));
  }

  // ---------------------------------------------------------------- binding what was printed

  lemma {:induction false} RenderedRulesSplit(targets: seq<string>, deps: seq<string>, all: seq<string>)
    requires all != []
    ensures WithDependencies(TargetRules(targets, all) + PhonyRules(deps)) == TargetRules(targets, all)
    ensures WithoutDependencies(TargetRules(targets, all) + PhonyRules(deps)) == PhonyRules(deps)
    decreases |targets| + |deps|
  {
    var rules := TargetRules(targets, all) + PhonyRules(deps);
    if targets != [] {
      RenderedRulesSplit(targets[1..], deps, all);
      assert rules[1..] == TargetRules(targets[1..], all) + PhonyRules(deps);
    } else if deps != [] {
      RenderedRulesSplit([], deps[1..], all);
      assert rules == PhonyRules(deps) && rules[1..] == TargetRules([], all) + PhonyRules(deps[1..]);
    }
  }

  lemma {:induction false} RuleTargets(targets: seq<string>, deps: seq<string>)
    ensures TargetsOf(TargetRules(targets, deps)) == targets && TargetsOf(PhonyRules(targets)) == targets
    ensures forall k | 0 <= k < |targets| :: TargetRules(targets, deps)[k].dependencies == deps
  {
    if targets != [] {
      RuleTargets(targets[1..], deps);
      forall k | 0 <= k < |targets|
        ensures TargetRules(targets, deps)[k] == Rule(targets[k], deps) && PhonyRules(targets)[k].target == targets[k]
      {
        if k > 0 {
          assert TargetsOf(TargetRules(targets[1..], deps))[k - 1] == targets[1..][k - 1];
          assert TargetsOf(PhonyRules(targets[1..]))[k - 1] == targets[1..][k - 1];
        }
      }
    }
  }

  lemma RenderedRulesFit(targets: seq<string>, deps: seq<string>)
    requires targets != []
    ensures RulesFit(TargetRules(targets, deps) + PhonyRules(deps), targets) <==> deps != [] && Distinct(deps)
  {
    var rules := TargetRules(targets, deps) + PhonyRules(deps);
    if deps != [] {
      RenderedRulesSplit(targets, deps, deps);
      RuleTargets(targets, deps);
      RuleTargets(deps, deps);
    }
  }

  /**
   * A printed dependency file never fails for its shape: it binds exactly when the package and its distinct absolute
   * targets fit, the dependencies are distinct and not none, and they resolve to distinct expected members that
   * include the required ones.
   */
  lemma BindingOfRendering(deps: seq<string>, targets: seq<string>, p: Package)
    requires AllPrintable(deps) && AllPrintable(targets) && targets != []
    ensures Bind(Render(deps, targets), targets, p)
         == if PackageFit(p, targets) && deps != [] && Distinct(deps) then Bound(p, targets, deps) else None
  {
    hide Rules, Render, RulesFit, Bound, PackageFit;
    DepfileRoundTrip(deps, targets);
    RenderedRulesFit(targets, deps);
    assert (TargetRules(targets, deps) + PhonyRules(deps))[0] == Rule(targets[0], deps);
  }
}
