/** `RuleInfo`: the fact paths a rule reads, composed from its parameters'
    fact attributes and its rule attribute. Reflection is replaced by plain
    inputs: per parameter the path of its fact attribute, if it has one,
    and for the method its rule attribute, if it has one. */
module RuleInfos {
  import opened Wrappers
  import opened Strings
  import opened RuleAttributes

  /** A rule. `name` is the key the engine registers it under (null as
      the constructor leaves it, see `NewRuleAsWritten`); `factNames` are
      the composed fact paths; `root` prefixes them when the rule reads;
      `arity` is the number of parameters of the rule's method. */
  datatype RuleInfo = RuleInfo(name: Option<string>, factNames: seq<string>, root: string, arity: nat)

  /** Whether invoking the rule's method with one argument per fact name
      matches its parameter count. */
  predicate Callable(rule: RuleInfo)
  {
    rule.arity == |rule.factNames|
  }

  /** `GetRulePath`: "." without a rule attribute, otherwise the
      attribute's path; either way stripped of slashes at both ends. */
  function RulePath(attr: Option<RuleAttribute>): (r: string)
    ensures attr.None? ==> r == "."
    ensures !StartsWithSlash(r) && (r == [] || r[|r| - 1] != '/')
    ensures attr.Some? ==>
              var p := attr.value.path;
              LeadingSlashes(p) + |r| <= |p| && r == p[LeadingSlashes(p)..LeadingSlashes(p) + |r|]
              && (forall k :: LeadingSlashes(p) + |r| <= k < |p| ==> p[k] == '/')
  {
    var rulePath := if attr.Some? then attr.value.path else ".";
    Trim(rulePath)
  }

  /** The path one fact attribute contributes: an absolute attribute path
      (starting with a slash) verbatim, a relative one after the rule path
      stripped of trailing slashes and one separating slash. */
  function FactPath(rulePath: string, attrPath: string): (r: string)
    ensures StartsWithSlash(attrPath) ==> r == attrPath
    ensures !StartsWithSlash(attrPath) ==>
              var base := TrimEnd(rulePath);
              |r| == |base| + 1 + |attrPath| && r[..|base|] == base && r[|base|] == '/'
              && r[|base| + 1..] == attrPath
  {
    if !StartsWithSlash(attrPath) then TrimEnd(rulePath) + "/" + attrPath
    else attrPath
  }

  /** The attribute paths of the parameters that carry a fact attribute, in
      parameter order. */
  function Attributed(params: seq<Option<string>>): (r: seq<string>)
    ensures |r| <= |params|
    ensures forall x :: x in r <==> Some(x) in params
    ensures |r| == |params| <==> forall p :: p in params ==> p.Some?
    decreases |params|
  {
    if params == [] then []
    else
      var rest := Attributed(params[1..]);
      assert params == [params[0]] + params[1..];
      if params[0].Some? then [params[0].value] + rest else rest
  }

  /** Taking the attribute paths of a parameter list keeps their order:
      those of the first part come first. */
  lemma {:induction false} AttributedAppend(a: seq<Option<string>>, b: seq<Option<string>>)
    ensures Attributed(a + b) == Attributed(a) + Attributed(b)
    decreases |a|
  {
    if a != [] {
      assert (a + b)[1..] == a[1..] + b;
      AttributedAppend(a[1..], b);
    } else {
      assert a + b == b;
    }
  }

  /** `CreateFactPathList`: one path per parameter carrying a fact
      attribute, in parameter order; other parameters contribute nothing. */
  function FactPathList(params: seq<Option<string>>, rulePath: string): (r: seq<string>)
    ensures |r| == |Attributed(params)|
    ensures forall j :: 0 <= j < |r| ==> r[j] == FactPath(rulePath, Attributed(params)[j])
  {
    if params == [] then []
    else
      var rest := FactPathList(params[1..], rulePath);
      var tail := Attributed(params[1..]);
      assert Attributed(params) == if params[0].Some? then [params[0].value] + tail else tail;
      match params[0]
      case None => rest
      case Some(p) => [FactPath(rulePath, p)] + rest
  }

  /** The path list of a parameter list is the lists of its parts, joined. */
  lemma {:induction false} FactPathListAppend(a: seq<Option<string>>, b: seq<Option<string>>, rulePath: string)
    ensures FactPathList(a + b, rulePath) == FactPathList(a, rulePath) + FactPathList(b, rulePath)
  {
    if a != [] {
      assert (a + b)[1..] == a[1..] + b;
      FactPathListAppend(a[1..], b, rulePath);
    } else {
      assert a + b == b;
    }
  }

  /** The name a rule is meant to be registered under: the rule
      attribute's name when it has one that is not blank, otherwise the
      method's name. `GetRulePath` computes it into a local variable and
      drops it. */
  function RuleName(methodName: string, attr: Option<RuleAttribute>): (r: string)
    ensures r == methodName || (attr.Some? && attr.value.name == Some(r))
    ensures r != methodName ==> !IsBlank(r)
    ensures attr.None? || attr.value.name.None? ==> r == methodName
    ensures attr.Some? && attr.value.name.Some? && !IsBlank(attr.value.name.value) ==> r == attr.value.name.value
  {
    if attr.Some? && attr.value.name.Some? && !IsBlank(attr.value.name.value) then attr.value.name.value
    else methodName
  }

  /** The constructor as written: fact paths composed from the parameters
      and the rule path, an empty root, and no name, since nothing assigns
      `Name`. */
  function NewRuleAsWritten(methodName: string, params: seq<Option<string>>, attr: Option<RuleAttribute>): (r: RuleInfo)
    ensures r.name == None && r.root == "" && r.arity == |params|
    ensures |r.factNames| == |Attributed(params)|
    ensures forall j :: 0 <= j < |r.factNames| ==>
              r.factNames[j] == FactPath(RulePath(attr), Attributed(params)[j])
  {
    RuleInfo(None, FactPathList(params, RulePath(attr)), "", |params|)
  }

  /** The constructor with `Name` set to the name `GetRulePath` computes. */
  function NewRule(methodName: string, params: seq<Option<string>>, attr: Option<RuleAttribute>): (r: RuleInfo)
    ensures r.name == Some(RuleName(methodName, attr)) && r.root == "" && r.arity == |params|
    ensures |r.factNames| == |Attributed(params)|
    ensures forall j :: 0 <= j < |r.factNames| ==>
              r.factNames[j] == FactPath(RulePath(attr), Attributed(params)[j])
  {
    NewRuleAsWritten(methodName, params, attr).(name := Some(RuleName(methodName, attr)))
  }

  /** A constructed rule can be invoked with its gathered arguments exactly
      when every parameter of its method carries a fact attribute. */
  lemma NewRuleCallable(methodName: string, params: seq<Option<string>>, attr: Option<RuleAttribute>)
    ensures Callable(NewRule(methodName, params, attr)) <==> forall p :: p in params ==> p.Some?
    ensures Callable(NewRuleAsWritten(methodName, params, attr)) <==> forall p :: p in params ==> p.Some?
  {
  }

  /** Under a bare rule attribute (path "/"), the rule path is empty, so
      every relative fact path gets a leading slash, and an absolute one
      stays as it is. */
  lemma BareRuleRootsFactPaths(methodName: string, params: seq<Option<string>>)
    ensures var r := NewRuleAsWritten(methodName, params, Some(NewRuleAttribute()));
            forall j :: 0 <= j < |r.factNames| ==>
              r.factNames[j] == if StartsWithSlash(Attributed(params)[j]) then Attributed(params)[j]
                                else "/" + Attributed(params)[j]
  {
    assert Trim("/") == "";
    assert TrimEnd("") == "";
  }

  /** The path `Execute` reads for the fact at index `i`: the rule's root,
      a slash, and the fact path, as the engine's indexer sees it after
      trimming slashes at both ends. */
  function ReadPath(rule: RuleInfo, i: nat): string
    requires i < |rule.factNames|
  {
    Trim(rule.root + "/" + rule.factNames[i])
  }

  /** `ReadPath` for every fact, in order. */
  function ReadPaths(rule: RuleInfo): (r: seq<string>)
    ensures |r| == |rule.factNames|
    ensures forall i :: 0 <= i < |r| ==> r[i] == ReadPath(rule, i)
  {
    seq(|rule.factNames|, i requires 0 <= i < |rule.factNames| => ReadPath(rule, i))
  }

  /** The paths `Execute` hands to the engine getter: the rule's root, a
      slash and each fact path, in order. */
  function ArgPaths(rule: RuleInfo): (r: seq<string>)
    ensures |r| == |rule.factNames|
    ensures forall i :: 0 <= i < |r| ==> r[i] == rule.root + "/" + rule.factNames[i]
    ensures forall i :: 0 <= i < |r| ==> Trim(r[i]) == ReadPath(rule, i)
  {
    seq(|rule.factNames|, i requires 0 <= i < |rule.factNames| => rule.root + "/" + rule.factNames[i])
  }
}
