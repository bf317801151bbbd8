/** `RuleAttribute`: marks a method as a rule and gives it a base path. */
module RuleAttributes {
  import opened Wrappers
  import opened Strings

  datatype RuleAttribute = RuleAttribute(path: string, name: Option<string>)

  /** The constructor: the base path is the root, "/", and no name is set. */
  function NewRuleAttribute(): (a: RuleAttribute)
    ensures a.path == "/" && a.name == None
  {
    RuleAttribute("/", None)
  }

  /** The `Path` setter: the stored path always starts with a slash; a value
      that already does is stored verbatim, any other gets one slash in
      front. The name is untouched. */
  function WithPath(a: RuleAttribute, value: string): (r: RuleAttribute)
    ensures StartsWithSlash(r.path)
    ensures r.path == value || r.path == "/" + value
    ensures r.path == value <==> StartsWithSlash(value)
    ensures r.name == a.name
  {
    if !StartsWithSlash(value) then a.(path := "/" + value) else a.(path := value)
  }

  /** Setting the path to the value it already holds changes nothing. */
  lemma WithPathIdempotent(a: RuleAttribute, value: string)
    ensures WithPath(WithPath(a, value), WithPath(a, value).path) == WithPath(a, value)
  {
  }

  /** Setting the path twice keeps only the effect of the second value. */
  lemma WithPathLastWins(a: RuleAttribute, v1: string, v2: string)
    ensures WithPath(WithPath(a, v1), v2) == WithPath(a, v2)
  {
  }
}
