/** `Fact`: a (name, value) pair a rule returns to describe an update, and
    `Fact.Combine`, which builds them from an alternating name/value array. */
module Facts {
  import opened Wrappers
  import opened Values

  /** The constructor stores both arguments unchanged; a null name (the
      result of casting a null element to string) is `None`. */
  datatype Fact = Fact(name: Option<string>, value: Value)

  /** The `(string)` cast applied to a name position: a string or null
      passes, any other boxed value throws. */
  function CastToString(v: Value): (r: Result<Option<string>>)
    ensures r.Ok? <==> v.Text? || v.Null?
    ensures v.Text? ==> r == Ok(Some(v.s))
    ensures v.Null? ==> r == Ok(None)
  {
    match v
    case Text(s) => Ok(Some(s))
    case Null => Ok(None)
    case _ => Err(InvalidCast)
  }

  /** The name positions 0, 2, 4, ... of `pairs` that have a following value. */
  predicate NamesCast(pairs: seq<Value>)
  {
    forall k :: 0 <= k < |pairs| / 2 ==> CastToString(pairs[2 * k]).Ok?
  }

  /** `Combine` as its documentation describes it: one fact per complete
      pair, in order, a trailing unpaired element ignored. It fails only
      when a name position holds something that is not a string. */
  function Combine(pairs: seq<Value>): (r: Result<seq<Fact>>)
    ensures r.Ok? <==> NamesCast(pairs)
    ensures !r.Ok? ==> r.fault == InvalidCast
    ensures r.Ok? ==> |r.value| == |pairs| / 2
    ensures r.Ok? ==> forall k :: 0 <= k < |pairs| / 2 ==>
              r.value[k] == Fact(CastToString(pairs[2 * k]).value, pairs[2 * k + 1])
    decreases |pairs|
  {
    if |pairs| < 2 then Ok([])
    else
      var rest := Combine(pairs[2..]);
      assert forall k :: 1 <= k < |pairs| / 2 ==> pairs[2 * k] == pairs[2..][2 * (k - 1)];
      assert forall k :: 0 <= k < |pairs[2..]| / 2 ==> pairs[2..][2 * k] == pairs[2 * (k + 1)];
      assert pairs[2 * 0] == pairs[0];
      match CastToString(pairs[0])
      case Err(f) => Err(f)
      case Ok(name) =>
        match rest
        case Err(f) => Err(f)
        case Ok(facts) =>
          assert forall k :: 1 <= k < |pairs| / 2 ==> pairs[2 * k + 1] == pairs[2..][2 * (k - 1) + 1];
          Ok([Fact(name, pairs[1])] + facts)
  }

  /** `Combine` as written: the loop runs while `i < n` and reads
      `pairs[i + 1]`, so the last round of an odd-length array casts the
      unpaired name and then reads one past the end. */
  function CombineAsWritten(pairs: seq<Value>): (r: Result<seq<Fact>>)
    ensures |pairs| % 2 == 0 ==> r == Combine(pairs)
    ensures |pairs| % 2 == 1 ==> r.Err?
    ensures |pairs| % 2 == 1 && NamesCast(pairs) && CastToString(pairs[|pairs| - 1]).Ok? ==>
              r == Err(IndexOutOfRange)
    decreases |pairs|
  {
    if |pairs| == 0 then Ok([])
    else if |pairs| == 1 then
      match CastToString(pairs[0])
      case Err(f) => Err(f)
      case Ok(_) => Err(IndexOutOfRange)
    else
      var rest := CombineAsWritten(pairs[2..]);
      NamesCastStep(pairs);
      assert |pairs| > 2 ==> pairs[2..][|pairs[2..]| - 1] == pairs[|pairs| - 1];
      match CastToString(pairs[0])
      case Err(f) => Err(f)
      case Ok(name) =>
        match rest
        case Err(f) => Err(f)
        case Ok(facts) => Ok([Fact(name, pairs[1])] + facts)
  }

  /** The names of `pairs` cast exactly when its first name and the names
      after its first pair cast. */
  lemma NamesCastStep(pairs: seq<Value>)
    requires |pairs| >= 2
    ensures NamesCast(pairs) <==> CastToString(pairs[0]).Ok? && NamesCast(pairs[2..])
  {
    var tail := pairs[2..];
    assert forall k :: 0 <= k < |tail| / 2 ==> tail[2 * k] == pairs[2 * (k + 1)];
    assert pairs[2 * 0] == pairs[0];
    if CastToString(pairs[0]).Ok? && NamesCast(tail) {
      forall k | 0 <= k < |pairs| / 2 ensures CastToString(pairs[2 * k]).Ok? {
        if k > 0 {
          assert pairs[2 * k] == tail[2 * (k - 1)];
        }
      }
    }
  }

  /** The documented promise fails on ["a", 1, "b"]: the trailing "b" is
      not ignored, the array read past the end throws. */
  lemma CombineOddLengthThrows()
    ensures CombineAsWritten([Text("a"), Int(1), Text("b")]) == Err(IndexOutOfRange)
    ensures Combine([Text("a"), Int(1), Text("b")]) == Ok([Fact(Some("a"), Int(1))])
  {
    var pairs := [Text("a"), Int(1), Text("b")];
    assert pairs[2..] == [Text("b")];
    assert pairs[2 * 0] == Text("a") && pairs[2 * 0 + 1] == Int(1);
    assert NamesCast(pairs);
    var r := Combine(pairs);
    assert |r.value| == 1 && r.value[0] == Fact(Some("a"), Int(1));
    assert r.value == [Fact(Some("a"), Int(1))];
    assert r == Ok(r.value);
  }
}
