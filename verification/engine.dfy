/** `InferenceEngine`: a fact tree, a registry of rules by id and an agenda
    of rules waiting to run. Writing a fact to a new value queues the rules
    subscribed to its node; `Run` executes the queued rules in sweeps until
    the agenda is empty or `MaxLoop` sweeps have run.

    The rule methods themselves are reflection targets in C#; here a rule's
    effect is a function `effect` from the rule and its argument values to
    the facts it returns. */
module InferenceEngines {
  import opened Wrappers
  import opened Strings
  import opened Values
  import opened Facts
  import opened RuleAttributes
  import opened RuleInfos
  import opened TreeNodes
  import LHS = LinkedHashSets

  datatype Engine = Engine(
    tree: Tree,
    rules: map<string, RuleInfo>,
    agenda: LHS.LinkedHashSet<RuleInfo>,
    maxLoop: int)

  /** A rule's effect: the facts it returns for its arguments. */
  type Effect = (RuleInfo, seq<Value>) -> seq<Fact>

  predicate Valid(e: Engine)
  {
    TreeNodes.Valid(e.tree) && LHS.Valid(e.agenda)
  }

  /** The constructor: a lone root, no rules, an empty agenda and at most
      100 sweeps per run. */
  function NewEngine(): (e: Engine)
    ensures Valid(e)
    ensures e.tree.Keys == {[]} && e.tree[[]].value == Null && e.tree[[]].rules.list == []
    ensures e.rules == map[] && e.agenda.list == [] && e.maxLoop == 100
  {
    Engine(NewTree(), map[], LHS.Empty(), 100)
  }

  /** The value held at `k`, null for a node that does not exist yet (and
      so holds null once created). */
  function ValueAt(t: Tree, k: Key): Value
  {
    if k in t then t[k].value else Null
  }

  /** The rules subscribed at `k`, none for a node that does not exist. */
  function RulesAt(t: Tree, k: Key): seq<RuleInfo>
  {
    if k in t then t[k].rules.list else []
  }

  // ---------------------------------------------------------------------
  // The fact indexer.
  // ---------------------------------------------------------------------

  /** The getter: the value of the node the trimmed path finds from the
      root without creating, null when there is none. */
  function Get(e: Engine, path: string): (v: Value)
    requires Valid(e)
    ensures v == TreeNodes.Get(e.tree, [], path)
  {
    var g := GetNode(e.tree, [], Trim(path), false);
    if g.node.Some? then e.tree[g.node.value].value else Null
  }

  /** The getter finds what a walk of the trimmed path finds when every
      node it enters exists, and null otherwise; it never creates. */
  lemma GetFinds(e: Engine, path: string)
    requires Valid(e)
    ensures Find(e.tree, [], Trim(path)).None? ==> Get(e, path) == Null
    ensures Find(e.tree, [], Trim(path)).Some? ==>
              Get(e, path) == ValueAt(e.tree, Find(e.tree, [], Trim(path)).value)
  {
  }

  /** Whether writing `v` at `path` changes a value: the path leads
      somewhere and the value held there differs. */
  predicate Changes(e: Engine, path: string, v: Value)
  {
    var k := Target([], Trim(path));
    k.Some? && ValueAt(e.tree, k.value) != v
  }

  /** The setter's work once the node `k` is resolved in the grown tree
      `t`: on a value change, store it and union the node's subscribers
      into the agenda. */
  function Write(e: Engine, t: Tree, k: Option<Key>, v: Value): (r: Engine)
    requires Valid(e) && TreeNodes.Valid(t) && (k.Some? ==> k.value in t)
    ensures Valid(r) && r.rules == e.rules && r.maxLoop == e.maxLoop
    ensures r.tree == Store(t, k, v)
    ensures k.None? || t[k.value].value == v ==> r.agenda == e.agenda
    ensures k.Some? && t[k.value].value != v ==>
              && e.agenda.list <= r.agenda.list
              && (forall x :: x in r.agenda.list <==> x in e.agenda.list || x in t[k.value].rules.list)
  {
    match k
    case None => e.(tree := t)
    case Some(j) =>
      var n := t[j];
      if n.value == v then
        assert t[j := n.(value := v)] == t;
        e.(tree := t)
      else
        e.(tree := t[j := n.(value := v)], agenda := LHS.UnionWith(e.agenda, n.rules.list))
  }

  /** The setter: resolves the trimmed path from the root, creating missing
      nodes. When the value there differs from `v`, stores `v` and unions
      the node's subscribers into the agenda; otherwise only the created
      nodes remain. */
  function Set(e: Engine, path: string, v: Value): (r: Engine)
    requires Valid(e)
    ensures Valid(r) && r.rules == e.rules && r.maxLoop == e.maxLoop
    ensures e.tree.Keys <= r.tree.Keys && e.agenda.list <= r.agenda.list
  {
    var g := GetNode(e.tree, [], Trim(path), true);
    Write(e, g.tree, g.node, v)
  }

  /** The engine's setter leaves the tree exactly as the node indexer's
      setter on the root does: the gate only decides the agenda. */
  lemma SetWritesLikeNodeIndexer(e: Engine, path: string, v: Value)
    requires Valid(e)
    ensures Set(e, path, v).tree == TreeNodes.Set(e.tree, [], path, v)
  {
  }

  /** The equality gate: a write that changes no value queues nothing; a
      write that changes one keeps the agenda and adds exactly the
      subscribers of the node written. */
  lemma SetQueues(e: Engine, path: string, v: Value)
    requires Valid(e)
    ensures !Changes(e, path, v) ==> Set(e, path, v).agenda == e.agenda
    ensures Changes(e, path, v) ==>
              var k := Target([], Trim(path)).value;
              forall x :: x in Set(e, path, v).agenda.list <==> x in e.agenda.list || x in RulesAt(e.tree, k)
  {
    var p := Trim(path);
    GetNodeWithCreate(e.tree, [], p);
    var g := GetNode(e.tree, [], p, true);
    assert g.node.Some? ==>
             g.tree[g.node.value].value == ValueAt(e.tree, g.node.value)
             && g.tree[g.node.value].rules.list == RulesAt(e.tree, g.node.value);
  }

  /** Reading a path right after writing it gives the value written,
      whenever the path stays inside the tree. */
  lemma SetThenGet(e: Engine, path: string, v: Value)
    requires Valid(e) && Target([], Trim(path)).Some?
    ensures Get(Set(e, path, v), path) == v
  {
    SetWritesLikeNodeIndexer(e, path, v);
    TreeNodes.SetThenGet(e.tree, [], path, v);
  }

  /** Writing the value a node already holds changes no value and queues
      nothing; only missing nodes on the way are created. */
  lemma SetSameValue(e: Engine, path: string)
    requires Valid(e) && Target([], Trim(path)).Some?
    ensures var k := Target([], Trim(path)).value;
            var r := Set(e, path, ValueAt(e.tree, k));
            && r.agenda == e.agenda
            && (forall j :: j in r.tree ==> r.tree[j].value == ValueAt(e.tree, j))
  {
    var k := Target([], Trim(path)).value;
    SetQueues(e, path, ValueAt(e.tree, k));
    SetWritesLikeNodeIndexer(e, path, ValueAt(e.tree, k));
  }

  /** Writing the same value twice: the second write changes nothing. */
  lemma SetIdempotent(e: Engine, path: string, v: Value)
    requires Valid(e)
    ensures Set(Set(e, path, v), path, v) == Set(e, path, v)
  {
    var p := Trim(path);
    GetNodeWithCreate(e.tree, [], p);
    var g := GetNode(e.tree, [], p, true);
    var r := Write(e, g.tree, g.node, v);
    assert r == Set(e, path, v);
    GetNodeWithCreate(r.tree, [], p);
    var g2 := GetNode(r.tree, [], p, true);
    assert g2.tree.Keys == r.tree.Keys;
    assert g2.tree == r.tree;
    assert g2.node == g.node;
  }

  /** A write that changes a value queues exactly the subscribers of the
      node written, after what was queued already, in subscription order
      of first appearance. */
  lemma SetQueuesSubscribersInOrder(e: Engine, path: string, v: Value)
    requires Valid(e) && Changes(e, path, v)
    ensures var k := Target([], Trim(path)).value;
            var r := Set(e, path, v);
            LHS.AppendedInOrder(|e.agenda.list|, r.agenda.list, RulesAt(e.tree, k))
  {
    var p := Trim(path);
    GetNodeWithCreate(e.tree, [], p);
    var k := Target([], p).value;
    var g := GetNode(e.tree, [], p, true);
    assert g.tree[k].value == ValueAt(e.tree, k) && g.tree[k].rules.list == RulesAt(e.tree, k);
    LHS.UnionWithOrder(e.agenda, RulesAt(e.tree, k));
  }

  // ---------------------------------------------------------------------
  // Rule registration, `Load` minus the reflection that discovers rules.
  // ---------------------------------------------------------------------

  /** How `AddRule` resolves a rule's fact paths. `Untrimmed` is the code
      as written: each stored fact path is resolved as it is. `Trimmed`
      resolves the path the rule reads, trimmed as the indexers trim it. */
  datatype Subscription = Untrimmed | Trimmed

  /** The paths a rule is subscribed through under `sub`. */
  function SubscribedPaths(rule: RuleInfo, sub: Subscription): (r: seq<string>)
    ensures |r| == |rule.factNames|
    ensures sub == Untrimmed ==> r == rule.factNames
    ensures sub == Trimmed ==> forall i :: 0 <= i < |r| ==> r[i] == ReadPath(rule, i)
  {
    match sub
    case Untrimmed => rule.factNames
    case Trimmed => ReadPaths(rule)
  }

  /** `AddRule` as written, or with its paths trimmed. */
  function AddRuleBy(t: Tree, rule: RuleInfo, sub: Subscription): (r: Outcome<Tree>)
    requires TreeNodes.Valid(t)
    ensures TreeNodes.Valid(r.state)
    ensures r == Subscribe(t, SubscribedPaths(rule, sub), rule)
  {
    match sub
    case Untrimmed => AddRuleAsWritten(t, rule)
    case Trimmed => AddRule(t, rule)
  }

  /** One round of `Load`: the rule is added to the registry under its
      name, which throws on a null name or a duplicate before anything
      else happens, and then subscribed to the node of every fact it
      reads. A fact path that resolves to null throws after the rule is
      registered. */
  function Register(e: Engine, rule: RuleInfo, sub: Subscription): (r: Outcome<Engine>)
    requires Valid(e)
    ensures Valid(r.state) && r.state.agenda == e.agenda && r.state.maxLoop == e.maxLoop
    ensures rule.name.None? ==> r == Threw(ArgumentNull, e)
    ensures rule.name.Some? && rule.name.value in e.rules ==> r == Threw(DuplicateKey, e)
    ensures rule.name.Some? && rule.name.value !in e.rules ==>
              r.state.rules == e.rules[rule.name.value := rule] && (r.Threw? ==> r.fault == NullReference)
  {
    match rule.name
    case None => Threw(ArgumentNull, e)
    case Some(id) =>
      if id in e.rules then Threw(DuplicateKey, e)
      else
        var e1 := e.(rules := e.rules[id := rule]);
        match AddRuleBy(e.tree, rule, sub)
        case Done(t) => Done(e1.(tree := t))
        case Threw(f, t) => Threw(f, e1.(tree := t))
  }

  /** A fresh rule is subscribed to the node each of its subscribed paths
      leads to; registration fails only when one of those paths leads
      nowhere, and changes no fact value. As written the paths are the
      stored fact paths; trimmed, they are the paths the rule reads. */
  lemma RegisterSubscribes(e: Engine, rule: RuleInfo, sub: Subscription)
    requires Valid(e) && rule.name.Some? && rule.name.value !in e.rules
    ensures var r := Register(e, rule, sub);
            var ps := SubscribedPaths(rule, sub);
            && (r.Done? <==> AllResolve(ps))
            && (r.Done? ==> forall i :: 0 <= i < |ps| ==>
                  Target([], ps[i]).Some? && Subscribed(r.state.tree, Target([], ps[i]).value, rule))
            && (forall k :: k in r.state.tree ==> r.state.tree[k].value == ValueAt(e.tree, k))
  {
    var ps := SubscribedPaths(rule, sub);
    SubscribeCompletes(e.tree, ps, rule);
    SubscribedAtEachTarget(e.tree, ps, rule);
    SubscribeKeepsValues(e.tree, ps, rule);
  }

  /** Registering a fresh rule leaves the tree its subscription leaves. */
  lemma RegisterTree(e: Engine, rule: RuleInfo, sub: Subscription)
    requires Valid(e) && rule.name.Some? && rule.name.value !in e.rules
    ensures var r := Register(e, rule, sub);
            var a := AddRuleBy(e.tree, rule, sub);
            r.Done? == a.Done? && r.state.tree == a.state
  {
  }

  /** As written, a rule at the root reading "/n" is subscribed where no
      write of "/n" lands: writing a new value there queues nothing. */
  lemma RootedFactNotQueuedAsWritten(n: string, id: string, v: Value)
    requires IsPlainName(n) && v != Null
    ensures var rule := RuleInfo(Some(id), ["/" + n], "", 1);
            var r := Register(NewEngine(), rule, Untrimmed);
            && r.Done?
            && Changes(r.state, "/" + n, v)
            && rule !in Set(r.state, "/" + n, v).agenda.list
  {
    var rule := RuleInfo(Some(id), ["/" + n], "", 1);
    var r := Register(NewEngine(), rule, Untrimmed);
    AbsoluteFactPathAsWritten(n, id);
    RegisterTree(NewEngine(), rule, Untrimmed);
    assert ValueAt(r.state.tree, [n]) == Null && RulesAt(r.state.tree, [n]) == [];
    SetQueues(r.state, "/" + n, v);
  }

  /** With the paths trimmed, the same rule is subscribed where writes of
      "/n" land: writing a new value there queues it. */
  lemma RootedFactQueuedTrimmed(n: string, id: string, v: Value)
    requires IsPlainName(n) && v != Null
    ensures var rule := RuleInfo(Some(id), ["/" + n], "", 1);
            var r := Register(NewEngine(), rule, Trimmed);
            && r.Done?
            && Changes(r.state, "/" + n, v)
            && rule in Set(r.state, "/" + n, v).agenda.list
  {
    var rule := RuleInfo(Some(id), ["/" + n], "", 1);
    var r := Register(NewEngine(), rule, Trimmed);
    var c := AddRule(NewTree(), rule);
    AbsoluteFactPathCorrected(n, id);
    SubscribeKeepsValues(NewTree(), ReadPaths(rule), rule);
    RegisterTree(NewEngine(), rule, Trimmed);
    assert c.state[[n]].value == ValueAt(NewTree(), [n]) == Null;
    assert ValueAt(r.state.tree, [n]) == Null && rule in RulesAt(r.state.tree, [n]);
    SetQueues(r.state, "/" + n, v);
  }

  /** The names of `rules`, in order. */
  function Names(rules: seq<RuleInfo>): (names: seq<Option<string>>)
    ensures |names| == |rules| && forall i :: 0 <= i < |rules| ==> names[i] == rules[i].name
    decreases |rules|
  {
    if rules == [] then []
    else
      var rest := Names(rules[1..]);
      assert forall i :: 1 <= i < |rules| ==> rules[i] == rules[1..][i - 1];
      [rules[0].name] + rest
  }

  /** `Load`: registers the rules in order and stops at the first one that
      throws, keeping the ones registered before it. */
  function Load(e: Engine, rules: seq<RuleInfo>, sub: Subscription): (r: Outcome<Engine>)
    requires Valid(e)
    ensures Valid(r.state) && r.state.agenda == e.agenda && r.state.maxLoop == e.maxLoop
    ensures r.Threw? ==> r.fault == ArgumentNull || r.fault == DuplicateKey || r.fault == NullReference
    ensures e.rules.Keys <= r.state.rules.Keys
    decreases |rules|
  {
    if rules == [] then Done(e)
    else
      match Register(e, rules[0], sub)
      case Threw(f, s) => Threw(f, s)
      case Done(s) => Load(s, rules[1..], sub)
  }

  /** As written, no rule has a name, so loading any model with a method
      throws at its first rule, before anything is registered or
      subscribed. */
  lemma LoadAsWrittenThrows(e: Engine, methodName: string, params: seq<Option<string>>,
                            attr: Option<RuleAttribute>, rest: seq<RuleInfo>, sub: Subscription)
    requires Valid(e)
    ensures Load(e, [NewRuleAsWritten(methodName, params, attr)] + rest, sub) == Threw(ArgumentNull, e)
  {
    var rules := [NewRuleAsWritten(methodName, params, attr)] + rest;
    assert rules[0] == NewRuleAsWritten(methodName, params, attr);
  }

  /** With `Name` set, a rule is registered under the rule attribute's
      name, or the method's name when the attribute gives none. */
  lemma RegisterByRuleName(e: Engine, methodName: string, params: seq<Option<string>>,
                           attr: Option<RuleAttribute>, sub: Subscription)
    requires Valid(e)
    ensures var rule := NewRule(methodName, params, attr);
            var id := RuleName(methodName, attr);
            var r := Register(e, rule, sub);
            && (id in e.rules ==> r == Threw(DuplicateKey, e))
            && (id !in e.rules ==> r.state.rules == e.rules[id := rule] && (r.Threw? ==> r.fault == NullReference))
  {
  }

  /** A completed load registered no name that was registered before, and
      every rule had a name. */
  lemma {:induction false} LoadIdsNew(e: Engine, rules: seq<RuleInfo>, sub: Subscription)
    requires Valid(e)
    ensures Load(e, rules, sub).Done? ==>
              forall i :: 0 <= i < |rules| ==> rules[i].name.Some? && rules[i].name.value !in e.rules
    decreases |rules|
  {
    if rules != [] {
      var reg := Register(e, rules[0], sub);
      if reg.Done? {
        var s := reg.state;
        var tail := rules[1..];
        LoadIdsNew(s, tail, sub);
        assert Load(e, rules, sub) == Load(s, tail, sub);
        assert forall i :: 1 <= i < |rules| ==> rules[i] == tail[i - 1];
      }
    }
  }

  /** A completed load had no name twice. */
  lemma {:induction false} LoadIdsDistinct(e: Engine, rules: seq<RuleInfo>, sub: Subscription)
    requires Valid(e)
    ensures Load(e, rules, sub).Done? ==> LHS.NoDuplicates(Names(rules))
    decreases |rules|
  {
    if rules != [] {
      var reg := Register(e, rules[0], sub);
      if reg.Done? {
        var s := reg.state;
        var tail := rules[1..];
        assert Load(e, rules, sub) == Load(s, tail, sub);
        if Load(s, tail, sub).Done? {
          LoadIdsDistinct(s, tail, sub);
          LoadIdsNew(s, tail, sub);
          assert rules[0].name.value in s.rules;
          assert Names(rules) == [rules[0].name] + Names(tail);
          LHS.NoDuplicatesCons(rules[0].name, Names(tail));
        }
      }
    }
  }

  /** A completed load adds exactly the names of the rules to the
      registry. */
  lemma {:induction false} LoadAddsIds(e: Engine, rules: seq<RuleInfo>, sub: Subscription)
    requires Valid(e)
    ensures var r := Load(e, rules, sub);
            r.Done? ==> forall id :: id in r.state.rules <==> id in e.rules || Some(id) in Names(rules)
    decreases |rules|
  {
    if rules != [] {
      var reg := Register(e, rules[0], sub);
      if reg.Done? {
        var s := reg.state;
        var tail := rules[1..];
        assert Load(e, rules, sub) == Load(s, tail, sub);
        LoadAddsIds(s, tail, sub);
        assert Names(rules) == [rules[0].name] + Names(tail);
        assert s.rules.Keys == e.rules.Keys + {rules[0].name.value};
      }
    }
  }

  /** A completed load keeps the rules registered before. */
  lemma {:induction false} LoadKeepsRegistered(e: Engine, rules: seq<RuleInfo>, sub: Subscription)
    requires Valid(e)
    ensures var r := Load(e, rules, sub);
            r.Done? ==> forall id :: id in e.rules ==> r.state.rules[id] == e.rules[id]
    decreases |rules|
  {
    if rules != [] {
      var reg := Register(e, rules[0], sub);
      if reg.Done? {
        assert Load(e, rules, sub) == Load(reg.state, rules[1..], sub);
        LoadKeepsRegistered(reg.state, rules[1..], sub);
      }
    }
  }

  /** Rule `rule` is registered under its name in `m`. */
  predicate RegisteredIn(m: map<string, RuleInfo>, rule: RuleInfo)
  {
    rule.name.Some? && rule.name.value in m && m[rule.name.value] == rule
  }

  /** A completed load maps each rule's name to the rule. */
  lemma {:induction false} LoadMapsIds(e: Engine, rules: seq<RuleInfo>, sub: Subscription)
    requires Valid(e)
    ensures var r := Load(e, rules, sub);
            r.Done? ==> forall i :: 0 <= i < |rules| ==> RegisteredIn(r.state.rules, rules[i])
    decreases |rules|
  {
    if rules != [] {
      var reg := Register(e, rules[0], sub);
      if reg.Done? {
        var s := reg.state;
        var tail := rules[1..];
        assert Load(e, rules, sub) == Load(s, tail, sub);
        LoadMapsIds(s, tail, sub);
        LoadKeepsRegistered(s, tail, sub);
        MapsIdsStep(rules, s.rules, Load(s, tail, sub));
      }
    }
  }

  /** The inductive step of `LoadMapsIds`. */
  lemma MapsIdsStep(rules: seq<RuleInfo>, before: map<string, RuleInfo>, r: Outcome<Engine>)
    requires |rules| > 0 && RegisteredIn(before, rules[0])
    requires r.Done? ==> forall id :: id in before ==> id in r.state.rules && r.state.rules[id] == before[id]
    requires r.Done? ==> forall i :: 0 <= i < |rules[1..]| ==> RegisteredIn(r.state.rules, rules[1..][i])
    ensures r.Done? ==> forall i :: 0 <= i < |rules| ==> RegisteredIn(r.state.rules, rules[i])
  {
    if r.Done? {
      forall i | 1 <= i < |rules| ensures RegisteredIn(r.state.rules, rules[i]) {
        assert rules[i] == rules[1..][i - 1];
      }
    }
  }

  // ---------------------------------------------------------------------
  // Rule execution.
  // ---------------------------------------------------------------------

  /** The arguments `Execute` gathers: the engine getter applied to each
      path, in order. */
  function Gather(e: Engine, paths: seq<string>): (args: seq<Value>)
    requires Valid(e)
    ensures |args| == |paths|
    ensures forall i :: 0 <= i < |args| ==> args[i] == Get(e, paths[i])
  {
    seq(|paths|, i requires 0 <= i < |paths| => Get(e, paths[i]))
  }

  /** The arguments of a rule: argument `i` is what the getter returns for
      the rule's root, a slash and fact path `i`, which is what the node
      indexer finds at `ReadPath(rule, i)`: the read path, where the
      trimmed subscription puts the rule. */
  lemma ArgumentsReadReadPaths(e: Engine, rule: RuleInfo)
    requires Valid(e)
    ensures var args := Gather(e, ArgPaths(rule));
            && |args| == |rule.factNames|
            && (forall i :: 0 <= i < |args| ==> args[i] == Get(e, rule.root + "/" + rule.factNames[i]))
            && (forall i :: 0 <= i < |args| ==> args[i] == TreeNodes.Get(e.tree, [], ReadPath(rule, i)))
  {
    var args := Gather(e, ArgPaths(rule));
    forall i | 0 <= i < |args|
      ensures args[i] == TreeNodes.Get(e.tree, [], ReadPath(rule, i))
    {
      TrimIdempotent(rule.root + "/" + rule.factNames[i]);
    }
  }

  /** What happens to the facts a rule returns. `Discard` is the code as
      written: its write-back loop has an empty body. `Apply` writes each
      returned fact through the engine setter, as the `Fact` class
      documents they are for. */
  datatype WriteBack = Discard | Apply

  /** Writes each fact through the setter, in order. A null name throws
      (the setter trims its path), keeping the writes made before it. */
  function ApplyFacts(e: Engine, facts: seq<Fact>): (r: Outcome<Engine>)
    requires Valid(e)
    ensures Valid(r.state) && r.state.rules == e.rules && r.state.maxLoop == e.maxLoop
    ensures r.Done? <==> AllNamed(facts)
    ensures r.Threw? ==> r.fault == NullReference
    ensures e.agenda.list <= r.state.agenda.list
    ensures e.tree.Keys <= r.state.tree.Keys
    decreases |facts|
  {
    if facts == [] then Done(e)
    else
      match facts[0].name
      case None => Threw(NullReference, e)
      case Some(n) =>
        ApplyFacts(Set(e, n, facts[0].value), facts[1..])
  }

  /** Every fact in `facts` has a name. */
  predicate AllNamed(facts: seq<Fact>)
    decreases |facts|
  {
    facts == [] || (facts[0].name.Some? && AllNamed(facts[1..]))
  }

  /** `AllNamed` holds exactly when no fact's name is null. */
  lemma {:induction false} AllNamedMeans(facts: seq<Fact>)
    ensures AllNamed(facts) <==> forall f :: f in facts ==> f.name.Some?
    decreases |facts|
  {
    if facts != [] {
      AllNamedMeans(facts[1..]);
      assert facts == [facts[0]] + facts[1..];
    }
  }

  /** Writing the facts back completes exactly when every fact has a name. */
  lemma {:induction false} ApplyFactsCompletes(e: Engine, facts: seq<Fact>)
    requires Valid(e)
    ensures ApplyFacts(e, facts).Done? <==> forall f :: f in facts ==> f.name.Some?
  {
    AllNamedMeans(facts);
  }

  /** `Execute`: gathers the arguments, invokes the rule and hands its
      facts to the write-back. Invoking a method with a different number of
      arguments than it declares parameters throws, which happens when
      some parameter of the rule carries no fact attribute. */
  function Execute(e: Engine, rule: RuleInfo, effect: Effect, mode: WriteBack): (r: Outcome<Engine>)
    requires Valid(e)
    ensures Valid(r.state) && r.state.rules == e.rules && r.state.maxLoop == e.maxLoop
    ensures !Callable(rule) ==> r == Threw(ParameterCount, e)
    ensures mode == Discard ==> r.state == e && (r.Done? <==> Callable(rule))
    ensures e.agenda.list <= r.state.agenda.list
  {
    var args := Gather(e, ArgPaths(rule));
    if !Callable(rule) then Threw(ParameterCount, e)
    else
      var facts := effect(rule, args);
      match mode
      case Discard => Done(e)
      case Apply => ApplyFacts(e, facts)
  }

  /** With the facts applied, executing a rule completes exactly when the
      rule can be invoked and every fact it returns has a name. */
  lemma ExecuteCompletes(e: Engine, rule: RuleInfo, effect: Effect)
    requires Valid(e)
    ensures var facts := effect(rule, Gather(e, ArgPaths(rule)));
            Execute(e, rule, effect, Apply).Done? <==> Callable(rule) && forall f :: f in facts ==> f.name.Some?
  {
    ExecuteApplies(e, rule, effect);
    ApplyFactsCompletes(e, effect(rule, Gather(e, ArgPaths(rule))));
  }

  /** With the facts applied, executing a rule that can be invoked writes
      back what it returns. */
  lemma ExecuteApplies(e: Engine, rule: RuleInfo, effect: Effect)
    requires Valid(e)
    ensures var facts := effect(rule, Gather(e, ArgPaths(rule)));
            Callable(rule) ==> Execute(e, rule, effect, Apply) == ApplyFacts(e, facts)
  {
  }

  /** One sweep: executes the rules of `batch` in order, each seeing the
      writes of those before it, and stops at the first that throws. */
  function Sweep(e: Engine, batch: seq<RuleInfo>, effect: Effect, mode: WriteBack): (r: Outcome<Engine>)
    requires Valid(e)
    ensures Valid(r.state) && r.state.rules == e.rules && r.state.maxLoop == e.maxLoop
    ensures mode == Discard ==> r.state == e
    ensures e.agenda.list <= r.state.agenda.list
    decreases |batch|
  {
    if batch == [] then Done(e)
    else
      match Execute(e, batch[0], effect, mode)
      case Threw(f, s) => Threw(f, s)
      case Done(s) => Sweep(s, batch[1..], effect, mode)
  }

  /** A sweep of one rule is one execution of it. */
  lemma SweepSingle(e: Engine, rule: RuleInfo, effect: Effect, mode: WriteBack)
    requires Valid(e)
    ensures Sweep(e, [rule], effect, mode) == Execute(e, rule, effect, mode)
  {
    assert [rule][1..] == [];
  }

  /** Sweeping `b1 + b2` sweeps `b1` and then, unless that threw, `b2`
      from where `b1` left the engine. */
  lemma {:induction false} SweepAppend(e: Engine, b1: seq<RuleInfo>, b2: seq<RuleInfo>, effect: Effect, mode: WriteBack)
    requires Valid(e)
    ensures var s1 := Sweep(e, b1, effect, mode);
            Sweep(e, b1 + b2, effect, mode) == if s1.Threw? then s1 else Sweep(s1.state, b2, effect, mode)
    decreases |b1|
  {
    if b1 == [] {
      assert b1 + b2 == b2;
    } else {
      assert (b1 + b2)[0] == b1[0] && (b1 + b2)[1..] == b1[1..] + b2;
      var x := Execute(e, b1[0], effect, mode);
      if x.Done? {
        SweepAppend(x.state, b1[1..], b2, effect, mode);
      }
    }
  }

  /** With the write-back as written, a sweep completes exactly when every
      rule of the batch can be invoked. */
  lemma {:induction false} SweepDiscardCompletes(e: Engine, batch: seq<RuleInfo>, effect: Effect)
    requires Valid(e)
    ensures Sweep(e, batch, effect, Discard).Done? <==> forall x :: x in batch ==> Callable(x)
    decreases |batch|
  {
    if batch != [] {
      SweepDiscardCompletes(e, batch[1..], effect);
      assert batch == [batch[0]] + batch[1..];
    }
  }

  /** The outcome of `Run` and, for each sweep it started, the snapshot of
      the agenda it executed. */
  datatype RunResult = RunResult(outcome: Outcome<Engine>, batches: seq<seq<RuleInfo>>)

  /** The loop of `Run` from the sweep count `loop`: while the agenda is
      not empty and fewer than `maxLoop` sweeps have run, snapshot the
      agenda, replace it by an empty one and sweep the snapshot. */
  function RunFrom(e: Engine, loop: int, effect: Effect, mode: WriteBack): (r: RunResult)
    requires Valid(e)
    ensures Valid(r.outcome.state)
    ensures r.outcome.state.rules == e.rules && r.outcome.state.maxLoop == e.maxLoop
    ensures |r.batches| <= if loop < e.maxLoop then e.maxLoop - loop else 0
    ensures e.agenda.list == [] || loop >= e.maxLoop ==> r == RunResult(Done(e), [])
    ensures e.agenda.list != [] && loop < e.maxLoop ==> |r.batches| >= 1 && r.batches[0] == e.agenda.list
    decreases e.maxLoop - loop
  {
    if e.agenda.list != [] && loop < e.maxLoop then
      var batch := e.agenda.list;
      match Sweep(e.(agenda := LHS.Empty()), batch, effect, mode)
      case Threw(f, s) => RunResult(Threw(f, s), [batch])
      case Done(s) =>
        var rest := RunFrom(s, loop + 1, effect, mode);
        RunResult(rest.outcome, [batch] + rest.batches)
    else RunResult(Done(e), [])
  }

  /** One step of the loop: with work left and sweeps to spare, the run is
      the first sweep over the snapshot followed, if it completes, by the
      rest of the loop. */
  lemma RunFromStep(e: Engine, loop: int, effect: Effect, mode: WriteBack)
    requires Valid(e) && e.agenda.list != [] && loop < e.maxLoop
    ensures var sw := Sweep(e.(agenda := LHS.Empty()), e.agenda.list, effect, mode);
            var r := RunFrom(e, loop, effect, mode);
            && (sw.Threw? ==> r == RunResult(sw, [e.agenda.list]))
            && (sw.Done? ==>
                  && r.outcome == RunFrom(sw.state, loop + 1, effect, mode).outcome
                  && r.batches == [e.agenda.list] + RunFrom(sw.state, loop + 1, effect, mode).batches)
  {
  }

  /** No sweep runs an empty snapshot. */
  lemma {:induction false} RunFromSweepsNonEmpty(e: Engine, loop: int, effect: Effect, mode: WriteBack)
    requires Valid(e)
    ensures forall b :: b in RunFrom(e, loop, effect, mode).batches ==> |b| > 0
    decreases e.maxLoop - loop
  {
    if e.agenda.list != [] && loop < e.maxLoop {
      RunFromStep(e, loop, effect, mode);
      var sw := Sweep(e.(agenda := LHS.Empty()), e.agenda.list, effect, mode);
      if sw.Done? {
        var rest := RunFrom(sw.state, loop + 1, effect, mode).batches;
        RunFromSweepsNonEmpty(sw.state, loop + 1, effect, mode);
        forall b | b in [e.agenda.list] + rest ensures |b| > 0 {
          if b != e.agenda.list {
            assert b in rest;
          }
        }
      }
    }
  }

  /** A run that ends normally has emptied the agenda, unless the loop
      count ran out. */
  lemma {:induction false} RunFromStops(e: Engine, loop: int, effect: Effect, mode: WriteBack)
    requires Valid(e)
    ensures var r := RunFrom(e, loop, effect, mode);
            r.outcome.Done? ==> r.outcome.state.agenda.list == [] || loop + |r.batches| >= e.maxLoop
    decreases e.maxLoop - loop
  {
    if e.agenda.list != [] && loop < e.maxLoop {
      var batch := e.agenda.list;
      var sw := Sweep(e.(agenda := LHS.Empty()), batch, effect, mode);
      if sw.Done? {
        var rest := RunFrom(sw.state, loop + 1, effect, mode);
        assert RunFrom(e, loop, effect, mode) == RunResult(rest.outcome, [batch] + rest.batches);
        RunFromStops(sw.state, loop + 1, effect, mode);
      }
    }
  }

  /** `Run`: the loop from zero sweeps. */
  function Run(e: Engine, effect: Effect, mode: WriteBack): (r: RunResult)
    requires Valid(e)
    ensures Valid(r.outcome.state)
    ensures r.outcome.state.rules == e.rules && r.outcome.state.maxLoop == e.maxLoop
    ensures |r.batches| <= if e.maxLoop > 0 then e.maxLoop else 0
    ensures e.agenda.list == [] ==> r == RunResult(Done(e), [])
    ensures r.outcome.Done? ==> r.outcome.state.agenda.list == [] || |r.batches| >= e.maxLoop
  {
    RunFromStops(e, 0, effect, mode);
    RunFrom(e, 0, effect, mode)
  }

  /** With the write-back as written, a run sweeps the agenda once and
      leaves every fact as it was: whatever the rules return is dropped,
      so no rule can queue another. The sweep completes exactly when every
      queued rule can be invoked. */
  lemma RunDiscardsRuleOutput(e: Engine, effect: Effect)
    requires Valid(e) && e.agenda.list != [] && e.maxLoop > 0
    ensures var r := Run(e, effect, Discard);
            && r.outcome.state == e.(agenda := LHS.Empty())
            && r.batches == [e.agenda.list]
            && (r.outcome.Done? <==> forall x :: x in e.agenda.list ==> Callable(x))
  {
    var e0 := e.(agenda := LHS.Empty());
    var sw := Sweep(e0, e.agenda.list, effect, Discard);
    SweepDiscardCompletes(e0, e.agenda.list, effect);
    RunFromStep(e, 0, effect, Discard);
    if sw.Done? {
      assert RunFrom(sw.state, 1, effect, Discard) == RunResult(Done(e0), []);
    }
  }

  /** A sweep of one invocable rule applies the facts that rule returns. */
  lemma SweepOne(e: Engine, rule: RuleInfo, effect: Effect)
    requires Valid(e)
    ensures Callable(rule) ==>
              Sweep(e, [rule], effect, Apply) == ApplyFacts(e, effect(rule, Gather(e, ArgPaths(rule))))
  {
    SweepSingle(e, rule, effect, Apply);
  }

  /** Applying a single named fact is one write through the setter. */
  lemma ApplyOne(e: Engine, p: string, v: Value)
    requires Valid(e)
    ensures ApplyFacts(e, [Fact(Some(p), v)]) == Done(Set(e, p, v))
  {
    assert [Fact(Some(p), v)][1..] == [];
  }

  /** With the facts applied, a rule that returns one fact for a path that
      leads somewhere and has no subscribers leaves that fact set after the
      run, and the run ends after its one sweep. */
  lemma RunAppliesRuleOutput(e: Engine, rule: RuleInfo, p: string, v: Value, effect: Effect)
    requires Valid(e) && e.agenda.list == [rule] && e.maxLoop > 0 && Callable(rule)
    requires effect(rule, Gather(e.(agenda := LHS.Empty()), ArgPaths(rule))) == [Fact(Some(p), v)]
    requires Target([], Trim(p)).Some? && RulesAt(e.tree, Target([], Trim(p)).value) == []
    ensures var r := Run(e, effect, Apply);
            && r.outcome.Done?
            && r.batches == [[rule]]
            && Get(r.outcome.state, p) == v
  {
    var e0 := e.(agenda := LHS.Empty());
    var s := Set(e0, p, v);
    SweepOne(e0, rule, effect);
    ApplyOne(e0, p, v);
    SetQueues(e0, p, v);
    assert s.agenda.list == [];
    SetThenGet(e0, p, v);
    assert RunFrom(s, 1, effect, Apply) == RunResult(Done(s), []);
    assert RunFrom(e, 0, effect, Apply) == RunResult(Done(s), [[rule]]);
  }
}
