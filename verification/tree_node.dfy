/** `TreeNode`: the hierarchical fact store. A node holds a value, the set
    of rules subscribed to it and its children by name; the parent link is
    what `..` follows.

    The tree is modelled as a map from a node's absolute key — the names of
    the children walked through from the root, the root itself being `[]` —
    to the node's own data. A node's children are the keys one name longer,
    its parent is its key without the last name, and child names are unique
    because map keys are. */
module TreeNodes {
  import opened Wrappers
  import opened Strings
  import opened Values
  import opened RuleInfos
  import LHS = LinkedHashSets

  type Key = seq<string>

  /** The key of a node's parent: its own key without the last name. */
  function Parent(k: Key): Key
    requires |k| > 0
  {
    k[..|k| - 1]
  }

  /** A node's own data: its value and its subscribed rules. The rule set
      is a hash set in C#; here it enumerates in subscription order. */
  datatype Node = Node(value: Value, rules: LHS.LinkedHashSet<RuleInfo>)

  /** A freshly constructed node: null value, no rules. */
  function EmptyNode(): (n: Node)
    ensures n.value == Null && n.rules.list == [] && LHS.Valid(n.rules)
  {
    Node(Null, LHS.Empty())
  }

  type Tree = map<Key, Node>

  /** The root is present, every other node's parent is present, and every
      rule set satisfies its class invariant. */
  predicate Valid(t: Tree)
  {
    && [] in t
    && (forall k {:trigger Parent(k)} :: k in t && |k| > 0 ==> Parent(k) in t)
    && (forall k :: k in t ==> LHS.Valid(t[k].rules))
  }

  /** `new TreeNode()`: a lone root. */
  function NewTree(): (t: Tree)
    ensures Valid(t) && t.Keys == {[]} && t[[]] == EmptyNode()
  {
    map[[] := EmptyNode()]
  }

  /** `t2` is `t1` with nodes added and none changed; the added nodes are
      fresh ones. */
  predicate Grows(t1: Tree, t2: Tree)
  {
    && (forall k :: k in t1 ==> k in t2 && t2[k] == t1[k])
    && (forall k :: k in t2 && k !in t1 ==> t2[k] == EmptyNode())
  }

  /** The outcome of `GetNode`: the node reached (`None` for null) and the
      tree, possibly grown by the nodes created on the way. */
  datatype Resolution = Resolution(node: Option<Key>, tree: Tree)

  /** `GetNode(path, create)` called on the node `at`. A blank path is the
      node itself; otherwise the path is split at its first slash: "."
      continues from the same node, ".." from the parent (null at the
      root, even when creating), and any other head names a child, which
      is created when missing and `create` is set, and otherwise ends the
      walk with null. */
  function GetNode(t: Tree, at: Key, path: string, create: bool): (r: Resolution)
    requires Valid(t) && at in t
    ensures Valid(r.tree) && Grows(t, r.tree)
    ensures r.node.Some? ==> r.node.value in r.tree
    ensures !create ==> r.tree == t
    decreases |path|
  {
    if IsBlank(path) then Resolution(Some(at), t)
    else
      var (head, rest) := SplitFirst(path);
      assert |rest| < |path| by {
        if '/' !in path {
          assert path != [];
        }
      }
      if head == "." then GetNode(t, at, rest, create)
      else if head == ".." then
        if at == [] then Resolution(None, t)
        else GetNode(t, Parent(at), rest, create)
      else
        var child := at + [head];
        if child !in t then
          if !create then Resolution(None, t)
          else
            assert Parent(child) == at;
            GetNode(t[child := EmptyNode()], child, rest, create)
        else GetNode(t, child, rest, create)
  }

  // ---------------------------------------------------------------------
  // A reference for path resolution: split the whole path into segments
  // first, then walk them.
  // ---------------------------------------------------------------------

  /** The segments `GetNode` consumes: every slash-separated segment, except
      that a blank final segment is a remainder `GetNode` stops at. */
  function Segments(path: string): (segs: seq<string>)
  {
    var parts := SplitAll(path);
    if IsBlank(parts[|parts| - 1]) then parts[..|parts| - 1] else parts
  }

  /** Where a walk over segments ends and which child keys it enters. */
  datatype Walk = Walk(target: Option<Key>, entered: set<Key>)

  /** Walks `segs` from `at` as if every child existed. */
  function WalkFrom(at: Key, segs: seq<string>): (w: Walk)
    decreases |segs|
  {
    if segs == [] then Walk(Some(at), {})
    else if segs[0] == "." then WalkFrom(at, segs[1..])
    else if segs[0] == ".." then
      if at == [] then Walk(None, {}) else WalkFrom(Parent(at), segs[1..])
    else
      var w := WalkFrom(at + [segs[0]], segs[1..]);
      Walk(w.target, {at + [segs[0]]} + w.entered)
  }

  /** Where a path leads from `at` when missing nodes are created. */
  function Target(at: Key, path: string): Option<Key>
  {
    WalkFrom(at, Segments(path)).target
  }

  /** A blank path has no segments; any other path's segments are its head
      followed by the segments of the rest. */
  lemma SegmentsStep(path: string)
    ensures IsBlank(path) ==> Segments(path) == []
    ensures !IsBlank(path) ==> Segments(path) == [SplitFirst(path).0] + Segments(SplitFirst(path).1)
  {
    if '/' in path {
      SegmentsStepAtSlash(path);
    } else {
      SplitAllStartsWithSplitFirst(path);
      assert SplitAll(path) == [path];
      assert SplitAll("") == [""];
    }
  }

  /** `SegmentsStep` for a path with a slash, which is never blank. */
  lemma SegmentsStepAtSlash(path: string)
    requires '/' in path
    ensures !IsBlank(path)
    ensures Segments(path) == [SplitFirst(path).0] + Segments(SplitFirst(path).1)
  {
    SlashNotBlank(path);
    SplitAllStartsWithSplitFirst(path);
    var sf := SplitFirst(path);
    var tail := SplitAll(sf.1);
    var parts := SplitAll(path);
    assert parts == [sf.0] + tail;
    assert Segments(path) == if IsBlank(parts[|parts| - 1]) then parts[..|parts| - 1] else parts;
    assert Segments(sf.1) == if IsBlank(tail[|tail| - 1]) then tail[..|tail| - 1] else tail;
    DropBlankLast(sf.0, tail);
  }

  /** A path holding a slash is not blank. */
  lemma SlashNotBlank(path: string)
    requires '/' in path
    ensures !IsBlank(path)
  {
    var i :| 0 <= i < |path| && path[i] == '/';
    assert !IsWhiteSpace(path[i]);
  }

  /** Dropping a blank last part commutes with putting a part in front. */
  lemma DropBlankLast(h: string, tail: seq<string>)
    requires |tail| >= 1
    ensures var parts := [h] + tail;
            (if IsBlank(parts[|parts| - 1]) then parts[..|parts| - 1] else parts)
            == [h] + (if IsBlank(tail[|tail| - 1]) then tail[..|tail| - 1] else tail)
  {
    var parts := [h] + tail;
    assert parts[|parts| - 1] == tail[|tail| - 1];
    assert parts[..|parts| - 1] == [h] + tail[..|tail| - 1];
  }

  /** With `create`, `GetNode` reaches the walk's target and adds exactly
      the entered nodes that were missing. */
  lemma {:induction false} GetNodeCreating(t: Tree, at: Key, path: string)
    requires Valid(t) && at in t
    ensures GetNode(t, at, path, true).node == WalkFrom(at, Segments(path)).target
    ensures GetNode(t, at, path, true).tree.Keys == t.Keys + WalkFrom(at, Segments(path)).entered
    decreases |path|
  {
    SegmentsStep(path);
    if !IsBlank(path) {
      var (head, rest) := SplitFirst(path);
      assert |rest| < |path| by {
        if '/' !in path {
          assert path != [];
        }
      }
      var segs := Segments(path);
      assert segs[0] == head && segs[1..] == Segments(rest);
      if head == "." {
        GetNodeCreating(t, at, rest);
      } else if head == ".." {
        if at != [] {
          GetNodeCreating(t, Parent(at), rest);
        }
      } else {
        CreatingThroughChild(t, at, path, head, rest);
      }
    }
  }

  /** The child step of `GetNodeCreating`. */
  lemma {:induction false} CreatingThroughChild(t: Tree, at: Key, path: string, head: string, rest: string)
    requires Valid(t) && at in t
    requires !IsBlank(path) && SplitFirst(path) == (head, rest) && head != "." && head != ".."
    requires Segments(path) == [head] + Segments(rest)
    requires |rest| < |path|
    ensures GetNode(t, at, path, true).node == WalkFrom(at, Segments(path)).target
    ensures GetNode(t, at, path, true).tree.Keys == t.Keys + WalkFrom(at, Segments(path)).entered
    decreases |path|, 0
  {
    var child := at + [head];
    var segs := Segments(path);
    assert segs[1..] == Segments(rest);
    var w := WalkFrom(child, Segments(rest));
    assert WalkFrom(at, segs) == Walk(w.target, {child} + w.entered);
    if child !in t {
      assert Parent(child) == at;
      var t1 := t[child := EmptyNode()];
      assert GetNode(t, at, path, true) == GetNode(t1, child, rest, true);
      GetNodeCreating(t1, child, rest);
    } else {
      assert GetNode(t, at, path, true) == GetNode(t, child, rest, true);
      GetNodeCreating(t, child, rest);
    }
  }

  /** Without `create`, `GetNode` reaches the walk's target when every
      entered node exists, and null otherwise. */
  lemma {:induction false} GetNodeFinding(t: Tree, at: Key, path: string)
    requires Valid(t) && at in t
    ensures GetNode(t, at, path, false).node ==
              if WalkFrom(at, Segments(path)).entered <= t.Keys
              then WalkFrom(at, Segments(path)).target else None
    decreases |path|
  {
    SegmentsStep(path);
    if !IsBlank(path) {
      var (head, rest) := SplitFirst(path);
      assert |rest| < |path| by {
        if '/' !in path {
          assert path != [];
        }
      }
      var segs := Segments(path);
      assert segs[0] == head && segs[1..] == Segments(rest);
      if head == "." {
        GetNodeFinding(t, at, rest);
      } else if head == ".." {
        if at != [] {
          GetNodeFinding(t, Parent(at), rest);
        }
      } else {
        var child := at + [head];
        var w := WalkFrom(child, Segments(rest));
        assert WalkFrom(at, segs) == Walk(w.target, {child} + w.entered);
        if child in t {
          assert GetNode(t, at, path, false) == GetNode(t, child, rest, false);
          GetNodeFinding(t, child, rest);
        }
      }
    }
  }

  // ---------------------------------------------------------------------
  // Consequences of the resolution theorem.
  // ---------------------------------------------------------------------

  /** Where a path leads from `at` without creating: the walk's target when
      every entered node exists, null otherwise. */
  function Find(t: Tree, at: Key, path: string): Option<Key>
  {
    var w := WalkFrom(at, Segments(path));
    if w.entered <= t.Keys then w.target else None
  }

  /** Resolving without `create` never changes the tree; it finds exactly
      what `Find` describes. */
  lemma GetNodeWithoutCreate(t: Tree, at: Key, path: string)
    requires Valid(t) && at in t
    ensures GetNode(t, at, path, false) == Resolution(Find(t, at, path), t)
    ensures Find(t, at, path).Some? ==> Find(t, at, path).value in t
  {
    GetNodeFinding(t, at, path);
  }

  /** Resolving with `create` reaches `Target`, adding exactly the missing
      entered nodes, all of them fresh; no existing node changes. */
  lemma GetNodeWithCreate(t: Tree, at: Key, path: string)
    requires Valid(t) && at in t
    ensures var r := GetNode(t, at, path, true);
            && r.node == Target(at, path)
            && r.tree.Keys == t.Keys + WalkFrom(at, Segments(path)).entered
            && (forall k :: k in t ==> r.tree[k] == t[k])
            && (forall k :: k in r.tree && k !in t ==> r.tree[k] == EmptyNode())
  {
    GetNodeCreating(t, at, path);
  }

  /** Resolving with `create` reaches `Target`. */
  lemma GetNodeTarget(t: Tree, at: Key, path: string)
    requires Valid(t) && at in t
    ensures GetNode(t, at, path, true).node == Target(at, path)
  {
    GetNodeCreating(t, at, path);
  }

  /** After a creating resolution, a non-creating one of the same path finds
      the same node, and a second creating one changes nothing. */
  lemma ResolveAfterCreate(t: Tree, at: Key, path: string)
    requires Valid(t) && at in t
    ensures var r := GetNode(t, at, path, true);
            && GetNode(r.tree, at, path, false) == r
            && GetNode(r.tree, at, path, true) == r
  {
    var r := GetNode(t, at, path, true);
    GetNodeCreating(t, at, path);
    GetNodeFinding(r.tree, at, path);
    GetNodeCreating(r.tree, at, path);
    var r2 := GetNode(r.tree, at, path, true);
    assert r2.tree.Keys == r.tree.Keys;
    assert r2.tree == r.tree;
  }

  /** A blank path is the node itself and creates nothing. */
  lemma BlankPathIsSelf(t: Tree, at: Key, path: string, create: bool)
    requires Valid(t) && at in t && IsBlank(path)
    ensures GetNode(t, at, path, create) == Resolution(Some(at), t)
  {
  }

  /** The segments of `h + "/" + r` for a slash-free `h`. */
  lemma SegmentsOfJoin(h: string, r: string)
    requires '/' !in h
    ensures Segments(h + "/" + r) == [h] + Segments(r)
  {
    var s := h + "/" + r;
    assert s[|h|] == '/';
    assert !IsWhiteSpace(s[|h|]);
    SplitFirstOfJoin(h, r);
    SegmentsStep(s);
  }

  /** A leading "." resolves exactly as the rest does from the same node. */
  lemma LeadingDotIsSelf(t: Tree, at: Key, rest: string, create: bool)
    requires Valid(t) && at in t
    ensures GetNode(t, at, "./" + rest, create) == GetNode(t, at, rest, create)
  {
    var s := "./" + rest;
    assert s == "." + "/" + rest;
    assert !IsWhiteSpace(s[0]);
    SplitFirstOfJoin(".", rest);
  }

  /** A leading ".." resolves to null at the root, even when creating, and
      otherwise resolves the rest from the parent. */
  lemma LeadingDotDotIsParent(t: Tree, at: Key, rest: string, create: bool)
    requires Valid(t) && at in t
    ensures at == [] ==> GetNode(t, at, "../" + rest, create) == Resolution(None, t)
    ensures at != [] ==> GetNode(t, at, "../" + rest, create) == GetNode(t, Parent(at), rest, create)
  {
    var s := "../" + rest;
    assert s == ".." + "/" + rest;
    assert !IsWhiteSpace(s[0]);
    SplitFirstOfJoin("..", rest);
  }

  /** A name segment: a child name `GetNode` enters. */
  predicate IsName(h: string)
  {
    '/' !in h && h != "." && h != ".."
  }

  /** Without `create`, a missing child ends the walk with null and the
      tree unchanged. */
  lemma MissingChildIsNull(t: Tree, at: Key, h: string, rest: string)
    requires Valid(t) && at in t && IsName(h) && at + [h] !in t
    ensures GetNode(t, at, h + "/" + rest, false) == Resolution(None, t)
  {
    var s := h + "/" + rest;
    assert s[|h|] == '/' && !IsWhiteSpace(s[|h|]);
    SplitFirstOfJoin(h, rest);
  }

  /** A walk that enters a child and leaves it again by ".." ends where the
      rest of the walk ends. */
  lemma WalkChildThenParent(at: Key, h: string, segs: seq<string>)
    requires h != "." && h != ".."
    ensures WalkFrom(at, [h, ".."] + segs).target == WalkFrom(at, segs).target
  {
    var all := [h, ".."] + segs;
    assert all[0] == h && all[1..] == [".."] + segs;
    assert ([".."] + segs)[1..] == segs;
    assert Parent(at + [h]) == at;
  }

  /** The segments of `h + "/../" + rest` for a slash-free `h`. */
  lemma SegmentsOfChildThenParent(h: string, rest: string)
    requires '/' !in h
    ensures Segments(h + "/../" + rest) == [h, ".."] + Segments(rest)
  {
    var up := ".." + "/" + rest;
    assert "../" + rest == up;
    assert h + "/../" + rest == h + "/" + up;
    SegmentsOfJoin(h, up);
    SegmentsOfJoin("..", rest);
    var segs := Segments(rest);
    assert [h] + ([".."] + segs) == [h, ".."] + segs;
  }

  /** Entering a child and leaving it again by ".." is no move at all. */
  lemma ChildThenParentCancels(at: Key, h: string, rest: string)
    requires IsName(h)
    ensures Target(at, h + "/../" + rest) == Target(at, rest)
  {
    SegmentsOfChildThenParent(h, rest);
    WalkChildThenParent(at, h, Segments(rest));
  }

  /** A single name that is not blank is one segment. */
  lemma SegmentsOfName(h: string)
    requires '/' !in h && !IsBlank(h)
    ensures Segments(h) == [h]
  {
    SegmentsStep(h);
    SplitAllStartsWithSplitFirst(h);
    SegmentsStep("");
  }

  // ---------------------------------------------------------------------
  // The path indexer `this[path]`: the path is trimmed of slashes at both
  // ends, then resolved from the node the indexer is called on.
  // ---------------------------------------------------------------------

  /** The indexer's getter: the value of the node the trimmed path finds
      without creating, null when it finds none. */
  function Get(t: Tree, at: Key, path: string): (v: Value)
    requires Valid(t) && at in t
    ensures Find(t, at, Trim(path)).None? ==> v == Null
    ensures Find(t, at, Trim(path)).Some? ==>
              Find(t, at, Trim(path)).value in t && v == t[Find(t, at, Trim(path)).value].value
  {
    GetNodeWithoutCreate(t, at, Trim(path));
    var r := GetNode(t, at, Trim(path), false);
    if r.node.Some? then t[r.node.value].value else Null
  }

  /** Stores `v` in the node `k`, if there is one. */
  function Store(t: Tree, k: Option<Key>, v: Value): (r: Tree)
    requires Valid(t) && (k.Some? ==> k.value in t)
    ensures Valid(r) && r.Keys == t.Keys
    ensures k.Some? ==> r[k.value].value == v
    ensures forall j :: j in t && Some(j) != k ==> r[j] == t[j]
    ensures forall j :: j in t ==> r[j].rules == t[j].rules
  {
    match k
    case None => t
    case Some(j) => t[j := t[j].(value := v)]
  }

  /** The indexer's setter: creates the missing nodes on the trimmed path
      and stores the value in the node it reaches; when the path leaves the
      tree above the root, the value is dropped but the nodes created on
      the way stay. No rule set changes. */
  function Set(t: Tree, at: Key, path: string, v: Value): (r: Tree)
    requires Valid(t) && at in t
    ensures Valid(r)
    ensures r.Keys == t.Keys + WalkFrom(at, Segments(Trim(path))).entered
    ensures Target(at, Trim(path)).Some? ==>
              Target(at, Trim(path)).value in r && r[Target(at, Trim(path)).value].value == v
    ensures forall k :: k in r && Some(k) != Target(at, Trim(path)) ==>
              r[k].value == (if k in t then t[k].value else Null)
    ensures forall k :: k in r ==> r[k].rules == (if k in t then t[k].rules else LHS.Empty())
  {
    var p := Trim(path);
    GetNodeWithCreate(t, at, p);
    var g := GetNode(t, at, p, true);
    Store(g.tree, g.node, v)
  }

  /** Reading a path right after writing it gives the value written,
      whenever the path stays inside the tree. */
  lemma SetThenGet(t: Tree, at: Key, path: string, v: Value)
    requires Valid(t) && at in t && Target(at, Trim(path)).Some?
    ensures Get(Set(t, at, path, v), at, path) == v
  {
    var r := Set(t, at, path, v);
    assert WalkFrom(at, Segments(Trim(path))).entered <= r.Keys;
  }

  /** Writing one path leaves the value read at any path resolving to a
      different existing node unchanged. */
  lemma SetElsewhere(t: Tree, at: Key, p: string, q: string, v: Value)
    requires Valid(t) && at in t
    requires Find(t, at, Trim(q)).Some? && Find(t, at, Trim(q)) != Target(at, Trim(p))
    ensures Get(Set(t, at, p, v), at, q) == Get(t, at, q)
  {
    var r := Set(t, at, p, v);
    assert WalkFrom(at, Segments(Trim(q))).entered <= r.Keys;
  }

  /** The "..-at-root" write: a path whose walk leaves the tree above the
      root stores nothing, though it may still create nodes. */
  lemma SetAboveRootStoresNothing(t: Tree, at: Key, path: string, v: Value)
    requires Valid(t) && at in t && Target(at, Trim(path)).None?
    ensures forall k :: k in t ==> Set(t, at, path, v)[k] == t[k]
  {
  }

  // ---------------------------------------------------------------------
  // Rule subscription, `AddRule`.
  // ---------------------------------------------------------------------

  /** The nodes a walk of each path from the root enters. */
  function Reach(paths: seq<string>): (keys: set<Key>)
    decreases |paths|
  {
    if paths == [] then {} else WalkFrom([], Segments(paths[0])).entered + Reach(paths[1..])
  }

  /** The nodes the paths lead to from the root. */
  function Targets(paths: seq<string>): (keys: set<Key>)
    decreases |paths|
  {
    if paths == [] then {}
    else
      var here := Target([], paths[0]);
      (if here.Some? then {here.value} else {}) + Targets(paths[1..])
  }

  /** Every path leads somewhere from the root. */
  predicate AllResolve(paths: seq<string>)
  {
    forall p :: p in paths ==> Target([], p).Some?
  }

  /** The rule subscribed to the node at `k`. */
  predicate Subscribed(t: Tree, k: Key, rule: RuleInfo)
  {
    k in t && rule in t[k].rules.list
  }

  /** Adds `rule` to the rule set of the node `k`. */
  function AddAt(t: Tree, k: Key, rule: RuleInfo): (r: Tree)
    requires Valid(t) && k in t
    ensures Valid(r) && r.Keys == t.Keys
    ensures r[k].value == t[k].value && Subscribed(r, k, rule)
    ensures t[k].rules.list <= r[k].rules.list
    ensures forall x :: x in r[k].rules.list <==> x in t[k].rules.list || x == rule
    ensures forall j :: j in t && j != k ==> r[j] == t[j]
  {
    t[k := t[k].(rules := LHS.Add(t[k].rules, rule).0)]
  }

  /** The loop of `AddRule` over `paths`, from the root: resolve each path
      creating missing nodes and add the rule to the node reached. A path
      that resolves to null makes `Rules` dereference null: the loop stops
      there with a null-reference fault, keeping what it did so far. */
  function Subscribe(t: Tree, paths: seq<string>, rule: RuleInfo): (r: Outcome<Tree>)
    requires Valid(t)
    ensures Valid(r.state)
    ensures r.Threw? ==> r.fault == NullReference
    decreases |paths|
  {
    if paths == [] then Done(t)
    else
      var g := GetNode(t, [], paths[0], true);
      match g.node
      case None => Threw(NullReference, g.tree)
      case Some(k) => Subscribe(AddAt(g.tree, k, rule), paths[1..], rule)
  }

  /** One step of `Subscribe`: the first path is resolved and either
      throws or adds the rule before the remaining paths. */
  lemma SubscribeStep(t: Tree, paths: seq<string>, rule: RuleInfo)
    requires Valid(t) && paths != []
    ensures var g := GetNode(t, [], paths[0], true);
            && (g.node.None? ==> Subscribe(t, paths, rule) == Threw(NullReference, g.tree))
            && (g.node.Some? ==> Subscribe(t, paths, rule) == Subscribe(AddAt(g.tree, g.node.value, rule), paths[1..], rule))
  {
  }

  /** Subscribing completes exactly when every path leads somewhere. */
  lemma {:induction false} SubscribeCompletes(t: Tree, paths: seq<string>, rule: RuleInfo)
    requires Valid(t)
    ensures Subscribe(t, paths, rule).Done? <==> AllResolve(paths)
    decreases |paths|
  {
    if paths != [] {
      SubscribeStep(t, paths, rule);
      GetNodeTarget(t, [], paths[0]);
      AllResolveCons(paths);
      var g := GetNode(t, [], paths[0], true);
      if g.node.Some? {
        SubscribeCompletes(AddAt(g.tree, g.node.value, rule), paths[1..], rule);
      }
    }
  }

  /** Every path resolves when the first does and all the others do. */
  lemma AllResolveCons(paths: seq<string>)
    requires paths != []
    ensures AllResolve(paths) <==> Target([], paths[0]).Some? && AllResolve(paths[1..])
  {
    assert paths == [paths[0]] + paths[1..];
  }

  /** Subscribing creates the nodes the walks enter and no others; when it
      stops early, only some of them. */
  lemma {:induction false} SubscribeKeys(t: Tree, paths: seq<string>, rule: RuleInfo)
    requires Valid(t)
    ensures var r := Subscribe(t, paths, rule);
            && t.Keys <= r.state.Keys <= t.Keys + Reach(paths)
            && (r.Done? ==> r.state.Keys == t.Keys + Reach(paths))
    decreases |paths|
  {
    if paths != [] {
      GetNodeWithCreate(t, [], paths[0]);
      SubscribeStep(t, paths, rule);
      var g := GetNode(t, [], paths[0], true);
      if g.node.Some? {
        SubscribeKeys(AddAt(g.tree, g.node.value, rule), paths[1..], rule);
      }
    }
  }

  /** Subscribing never changes a value; the nodes it creates hold null. */
  lemma {:induction false} SubscribeKeepsValues(t: Tree, paths: seq<string>, rule: RuleInfo)
    requires Valid(t)
    ensures var r := Subscribe(t, paths, rule);
            forall k :: k in r.state ==> r.state[k].value == (if k in t then t[k].value else Null)
    decreases |paths|
  {
    if paths != [] {
      SubscribeStep(t, paths, rule);
      var g := GetNode(t, [], paths[0], true);
      if g.node.Some? {
        SubscribeKeepsValues(AddAt(g.tree, g.node.value, rule), paths[1..], rule);
      }
    }
  }

  /** A completed subscription leaves the rule in every target node. */
  lemma {:induction false} SubscribeReachesTargets(t: Tree, paths: seq<string>, rule: RuleInfo)
    requires Valid(t)
    ensures var r := Subscribe(t, paths, rule);
            r.Done? ==> forall k :: k in Targets(paths) ==> Subscribed(r.state, k, rule)
    decreases |paths|
  {
    if paths != [] {
      GetNodeTarget(t, [], paths[0]);
      var g := GetNode(t, [], paths[0], true);
      if g.node.Some? {
        var t1 := AddAt(g.tree, g.node.value, rule);
        SubscribeReachesTargets(t1, paths[1..], rule);
        SubscribeKeepsRules(t1, paths[1..], rule);
      }
    }
  }

  /** A node no path leads to keeps its rule set (a created one keeps the
      empty set). */
  lemma {:induction false} SubscribeLeavesOthers(t: Tree, paths: seq<string>, rule: RuleInfo)
    requires Valid(t)
    ensures var r := Subscribe(t, paths, rule);
            forall k :: k in r.state && k !in Targets(paths) ==>
              r.state[k].rules == (if k in t then t[k].rules else LHS.Empty())
    decreases |paths|
  {
    if paths != [] {
      SubscribeStep(t, paths, rule);
      GetNodeTarget(t, [], paths[0]);
      var g := GetNode(t, [], paths[0], true);
      if g.node.Some? {
        SubscribeLeavesOthers(AddAt(g.tree, g.node.value, rule), paths[1..], rule);
      }
    }
  }

  /** Rule sets only grow, keeping the rules they had in their order. */
  lemma {:induction false} SubscribeKeepsRules(t: Tree, paths: seq<string>, rule: RuleInfo)
    requires Valid(t)
    ensures var r := Subscribe(t, paths, rule);
            forall k :: k in t ==> k in r.state && t[k].rules.list <= r.state[k].rules.list
    decreases |paths|
  {
    if paths != [] {
      SubscribeStep(t, paths, rule);
      var g := GetNode(t, [], paths[0], true);
      if g.node.Some? {
        var t1 := AddAt(g.tree, g.node.value, rule);
        var r := Subscribe(t1, paths[1..], rule);
        SubscribeKeepsRules(t1, paths[1..], rule);
        forall k | k in t ensures k in r.state && t[k].rules.list <= r.state[k].rules.list {
          assert g.tree[k] == t[k];
          assert t[k].rules.list <= t1[k].rules.list;
        }
      }
    }
  }

  /** The only rule subscribing adds anywhere is `rule`. */
  lemma {:induction false} SubscribeAddsOnlyRule(t: Tree, paths: seq<string>, rule: RuleInfo)
    requires Valid(t)
    ensures var r := Subscribe(t, paths, rule);
            forall k, x :: k in r.state && x in r.state[k].rules.list ==>
              x == rule || (k in t && x in t[k].rules.list)
    decreases |paths|
  {
    if paths != [] {
      SubscribeStep(t, paths, rule);
      var g := GetNode(t, [], paths[0], true);
      if g.node.Some? {
        var t1 := AddAt(g.tree, g.node.value, rule);
        SubscribeAddsOnlyRule(t1, paths[1..], rule);
        AddAtAddsOnlyRule(t, g.tree, g.node.value, rule);
        AddsOnlyRuleTrans(t, t1, Subscribe(t1, paths[1..], rule).state, rule);
      } else {
        forall k, x | k in g.tree && x in g.tree[k].rules.list
          ensures k in t && x in t[k].rules.list
        {
          FromGrownTree(t, g.tree, k, x);
        }
      }
    }
  }

  /** Every rule in `t2` is `rule` or was already in the same node of `t1`. */
  predicate AddsOnly(t1: Tree, t2: Tree, rule: RuleInfo)
  {
    forall k, x :: k in t2 && x in t2[k].rules.list ==> x == rule || (k in t1 && x in t1[k].rules.list)
  }

  /** Adding `rule` to a node of a grown tree adds only `rule`. */
  lemma AddAtAddsOnlyRule(t: Tree, t2: Tree, k0: Key, rule: RuleInfo)
    requires Valid(t2) && k0 in t2 && Grows(t, t2)
    ensures AddsOnly(t, AddAt(t2, k0, rule), rule)
  {
    var t3 := AddAt(t2, k0, rule);
    forall k, x | k in t3 && x in t3[k].rules.list
      ensures x == rule || (k in t && x in t[k].rules.list)
    {
      if x != rule {
        assert x in t2[k].rules.list;
        FromGrownTree(t, t2, k, x);
      }
    }
  }

  /** Adding only `rule` composes. */
  lemma AddsOnlyRuleTrans(t1: Tree, t2: Tree, t3: Tree, rule: RuleInfo)
    requires AddsOnly(t1, t2, rule) && AddsOnly(t2, t3, rule)
    ensures AddsOnly(t1, t3, rule)
  {
  }

  /** A rule found in a grown tree was already there: added nodes are empty. */
  lemma FromGrownTree(t: Tree, t2: Tree, k: Key, x: RuleInfo)
    requires Grows(t, t2) && k in t2 && x in t2[k].rules.list
    ensures k in t && x in t[k].rules.list
  {
  }

  /** A path that resolves is among the targets. */
  lemma {:induction false} InTargets(paths: seq<string>, i: nat)
    requires i < |paths| && Target([], paths[i]).Some?
    ensures Target([], paths[i]).value in Targets(paths)
  {
    if i > 0 {
      assert paths[1..][i - 1] == paths[i];
      InTargets(paths[1..], i - 1);
    }
  }

  /** Subscribing to every path reaches each one's target. */
  lemma SubscribedAtEachTarget(t: Tree, paths: seq<string>, rule: RuleInfo)
    requires Valid(t)
    ensures var r := Subscribe(t, paths, rule);
            r.Done? ==> forall i :: 0 <= i < |paths| ==>
              Target([], paths[i]).Some? && Subscribed(r.state, Target([], paths[i]).value, rule)
  {
    SubscribeCompletes(t, paths, rule);
    SubscribeReachesTargets(t, paths, rule);
    forall i | 0 <= i < |paths| && Target([], paths[i]).Some? {
      InTargets(paths, i);
    }
  }

  /** `AddRule` as written: each fact path is resolved from the root
      exactly as stored in the rule, without the slash trimming the
      indexers apply. An absolute fact path therefore subscribes the rule
      under a child with the empty name. */
  function AddRuleAsWritten(t: Tree, rule: RuleInfo): (r: Outcome<Tree>)
    requires Valid(t)
    ensures Valid(r.state)
    ensures r.Threw? ==> r.fault == NullReference
  {
    Subscribe(t, rule.factNames, rule)
  }

  /** What `AddRuleAsWritten` subscribes: the node each stored fact path
      leads to, completing exactly when every one leads somewhere. */
  lemma AddRuleAsWrittenSubscribes(t: Tree, rule: RuleInfo)
    requires Valid(t)
    ensures var r := AddRuleAsWritten(t, rule);
            && (r.Done? <==> AllResolve(rule.factNames))
            && (r.Done? ==> forall i :: 0 <= i < |rule.factNames| ==>
                  Target([], rule.factNames[i]).Some?
                  && Subscribed(r.state, Target([], rule.factNames[i]).value, rule))
  {
    SubscribeCompletes(t, rule.factNames, rule);
    SubscribedAtEachTarget(t, rule.factNames, rule);
  }

  /** `AddRule` subscribing the node each fact is read from: the path the
      rule's execution reads, trimmed as the indexers trim it. */
  function AddRule(t: Tree, rule: RuleInfo): (r: Outcome<Tree>)
    requires Valid(t)
    ensures Valid(r.state)
    ensures r.Threw? ==> r.fault == NullReference
  {
    Subscribe(t, ReadPaths(rule), rule)
  }

  /** What `AddRule` subscribes: the node each read path leads to,
      completing exactly when every one leads somewhere. */
  lemma AddRuleSubscribes(t: Tree, rule: RuleInfo)
    requires Valid(t)
    ensures var r := AddRule(t, rule);
            && (r.Done? <==> forall i :: 0 <= i < |rule.factNames| ==> Target([], ReadPath(rule, i)).Some?)
            && (r.Done? ==> forall i :: 0 <= i < |rule.factNames| ==>
                  Target([], ReadPath(rule, i)).Some?
                  && Subscribed(r.state, Target([], ReadPath(rule, i)).value, rule))
  {
    SubscribeCompletes(t, ReadPaths(rule), rule);
    SubscribedAtEachTarget(t, ReadPaths(rule), rule);
  }

  // ---------------------------------------------------------------------
  // Concrete paths.
  // ---------------------------------------------------------------------

  /** A child name that is neither blank nor contains a slash. */
  predicate IsPlainName(h: string)
  {
    IsName(h) && !IsBlank(h)
  }

  /** A plain name neither starts nor ends with a slash. */
  lemma PlainNameEnds(h: string)
    requires IsPlainName(h)
    ensures h != [] && h[0] != '/' && h[|h| - 1] != '/'
  {
    assert h[0] in h && h[|h| - 1] in h;
  }

  /** A walk step into the child `h`. */
  lemma WalkName(at: Key, h: string, segs: seq<string>)
    requires IsName(h)
    ensures WalkFrom(at, [h] + segs)
            == Walk(WalkFrom(at + [h], segs).target, {at + [h]} + WalkFrom(at + [h], segs).entered)
  {
    assert ([h] + segs)[1..] == segs;
  }

  /** A walk step over ".". */
  lemma WalkDot(at: Key, segs: seq<string>)
    ensures WalkFrom(at, ["."] + segs) == WalkFrom(at, segs)
  {
    assert (["."] + segs)[1..] == segs;
  }

  /** Walking the single name `h` enters and reaches `at + [h]`. */
  lemma WalkOneName(at: Key, h: string)
    requires IsName(h)
    ensures WalkFrom(at, [h]) == Walk(Some(at + [h]), {at + [h]})
  {
    WalkName(at, h, []);
    assert [h] + [] == [h];
  }

  /** "a/b" reaches the grandchild `b` of the child `a`. */
  lemma TwoNamesTarget(a: string, b: string)
    requires IsPlainName(a) && IsPlainName(b)
    ensures Target([], a + "/" + b) == Some([a, b])
  {
    SegmentsOfJoin(a, b);
    SegmentsOfName(b);
    WalkName([], a, [b]);
    assert [] + [a] == [a];
    WalkOneName([a], b);
    assert [a] + [b] == [a, b];
  }

  /** "/a/b" reaches the grandchild `b` of the child `a` of the root. */
  lemma TwoNamesPath(a: string, b: string)
    requires IsPlainName(a) && IsPlainName(b)
    ensures Target([], Trim("/" + a + "/" + b)) == Some([a, b])
  {
    var s := a + "/" + b;
    PlainNameEnds(a);
    PlainNameEnds(b);
    assert s[0] == a[0] && s[|s| - 1] == b[|b| - 1];
    assert "/" + a + "/" + b == "/" + s;
    TrimRooted(s);
    TwoNamesTarget(a, b);
  }

  /** "a/./b" reaches the same node as "a/b". */
  lemma TwoNamesWithDotTarget(a: string, b: string)
    requires IsPlainName(a) && IsPlainName(b)
    ensures Target([], a + "/" + ("." + "/" + b)) == Some([a, b])
  {
    SegmentsOfJoin(a, "." + "/" + b);
    SegmentsOfJoin(".", b);
    SegmentsOfName(b);
    WalkName([], a, ["."] + [b]);
    assert [] + [a] == [a];
    WalkDot([a], [b]);
    WalkOneName([a], b);
    assert [a] + [b] == [a, b];
  }

  /** "/a/./b/" reaches the same node: "." stays put and the trailing
      slash is trimmed. */
  lemma TwoNamesPathWithDot(a: string, b: string)
    requires IsPlainName(a) && IsPlainName(b)
    ensures Target([], Trim("/" + a + "/./" + b + "/")) == Some([a, b])
  {
    var s := a + "/" + ("." + "/" + b);
    PlainNameEnds(a);
    PlainNameEnds(b);
    assert s[0] == a[0] && s[|s| - 1] == b[|b| - 1];
    assert "/" + a + "/./" + b + "/" == "/" + s + "/";
    TrimRootedDirectory(s);
    TwoNamesWithDotTarget(a, b);
  }

  /** "a/b/../c" enters `b`, leaves it again and reaches `c` under `a`. */
  lemma ThreeNamesWithDotDotTarget(a: string, b: string, c: string)
    requires IsPlainName(a) && IsPlainName(b) && IsPlainName(c)
    ensures Target([], a + "/" + (b + "/../" + c)) == Some([a, c])
  {
    var rest := b + "/../" + c;
    SegmentsOfJoin(a, rest);
    WalkName([], a, Segments(rest));
    assert [] + [a] == [a];
    ChildThenParentCancels([a], b, c);
    SegmentsOfName(c);
    WalkOneName([a], c);
    assert [a] + [c] == [a, c];
  }

  /** "/a/b/../c" enters `b`, leaves it again and reaches `c` under `a`. */
  lemma ThreeNamesPathWithDotDot(a: string, b: string, c: string)
    requires IsPlainName(a) && IsPlainName(b) && IsPlainName(c)
    ensures Target([], Trim("/" + a + "/" + b + "/../" + c)) == Some([a, c])
  {
    var s := a + "/" + (b + "/../" + c);
    PlainNameEnds(a);
    PlainNameEnds(c);
    assert s[0] == a[0] && s[|s| - 1] == c[|c| - 1];
    assert "/" + a + "/" + b + "/../" + c == "/" + s;
    TrimRooted(s);
    ThreeNamesWithDotDotTarget(a, b, c);
  }

  /** Writing "/a/b" into a new tree stores the value in the grandchild `b`
      of the child `a`, and reading "/a/b" gives it back. */
  lemma SetTwoNames(a: string, b: string, v: Value)
    requires IsPlainName(a) && IsPlainName(b)
    ensures var t := Set(NewTree(), [], "/" + a + "/" + b, v);
            && [a, b] in t && t[[a, b]].value == v
            && Get(t, [], "/" + a + "/" + b) == v
  {
    TwoNamesPath(a, b);
    SetThenGet(NewTree(), [], "/" + a + "/" + b, v);
  }

  /** Writing "/a/./b/" stores the value in the same node. */
  lemma SetTwoNamesWithDot(a: string, b: string, v: Value)
    requires IsPlainName(a) && IsPlainName(b)
    ensures var t := Set(NewTree(), [], "/" + a + "/./" + b + "/", v);
            [a, b] in t && t[[a, b]].value == v
  {
    TwoNamesPathWithDot(a, b);
  }

  /** Writing "/a/b/../c" stores the value in `c` under `a`. */
  lemma SetThreeNamesWithDotDot(a: string, b: string, c: string, v: Value)
    requires IsPlainName(a) && IsPlainName(b) && IsPlainName(c)
    ensures var t := Set(NewTree(), [], "/" + a + "/" + b + "/../" + c, v);
            [a, c] in t && t[[a, c]].value == v
  {
    ThreeNamesPathWithDotDot(a, b, c);
  }

  /** Resolved verbatim, "/n" walks into the empty-named child of the
      root and then into `n` under it. */
  lemma AbsolutePathVerbatim(n: string)
    requires IsPlainName(n)
    ensures WalkFrom([], Segments("/" + n)) == Walk(Some(["", n]), {[""], ["", n]})
  {
    assert "/" + n == "" + "/" + n;
    SegmentsOfJoin("", n);
    SegmentsOfName(n);
    assert ["", n] == [""] + [n];
    WalkName([], "", [n]);
    assert [] + [""] == [""];
    WalkOneName([""], n);
    assert [""] + [n] == ["", n];
  }

  /** A rule at the root reading the absolute fact "/n" reads it at `n`. */
  lemma AbsolutePathRead(n: string, id: string)
    requires IsPlainName(n)
    ensures ReadPath(RuleInfo(Some(id), ["/" + n], "", 1), 0) == n
    ensures Trim("/" + n) == n
    ensures Target([], n) == Some([n])
  {
    PlainNameEnds(n);
    TrimRooted(n);
    ReadOfRootedPath(n, id);
    SingleNameTarget(n);
  }

  /** A rule with the empty root reads the fact path "/n" at `n`. */
  lemma ReadOfRootedPath(n: string, id: string)
    requires n != [] && n[0] != '/' && n[|n| - 1] != '/'
    ensures ReadPath(RuleInfo(Some(id), ["/" + n], "", 1), 0) == n
  {
    var rule := RuleInfo(Some(id), ["/" + n], "", 1);
    var p := rule.root + "/" + rule.factNames[0];
    assert p == "//" + n + "";
    TrimSlashes("//", n, "");
  }

  /** A plain name leads to the child of that name. */
  lemma SingleNameTarget(n: string)
    requires IsPlainName(n)
    ensures Target([], n) == Some([n])
  {
    SegmentsOfName(n);
    WalkOneName([], n);
    assert [] + [n] == [n];
  }

  /** Subscribing a rule through a single path that leads somewhere
      completes, creates exactly the nodes the walk enters and subscribes
      the rule at the target. */
  lemma SubscribeOne(t: Tree, p: string, rule: RuleInfo)
    requires Valid(t) && Target([], p).Some?
    ensures var r := Subscribe(t, [p], rule);
            && r.Done?
            && r.state.Keys == t.Keys + WalkFrom([], Segments(p)).entered
            && Subscribed(r.state, Target([], p).value, rule)
  {
    GetNodeWithCreate(t, [], p);
    var g := GetNode(t, [], p, true);
    var t1 := AddAt(g.tree, g.node.value, rule);
    assert [p][1..] == [];
    assert Subscribe(t, [p], rule) == Subscribe(t1, [], rule);
  }

  /** An absolute fact path "/n" resolved verbatim: `AddRuleAsWritten`
      subscribes the rule under the empty-named child of the root, and the
      node `n`, which every write of "/n" reaches, is not even created. */
  lemma AbsoluteFactPathAsWritten(n: string, id: string)
    requires IsPlainName(n)
    ensures var rule := RuleInfo(Some(id), ["/" + n], "", 1);
            var w := AddRuleAsWritten(NewTree(), rule);
            && Target([], Trim("/" + n)) == Some([n])
            && w.Done? && Subscribed(w.state, ["", n], rule) && [n] !in w.state
  {
    AbsolutePathRead(n, id);
    VerbatimLandsUnderEmptyName(n, id);
    VerbatimSkipsName(n, id);
  }

  /** Resolved verbatim, "/n" subscribes the rule at `n` under the
      empty-named child of the root. */
  lemma VerbatimLandsUnderEmptyName(n: string, id: string)
    requires IsPlainName(n)
    ensures var rule := RuleInfo(Some(id), ["/" + n], "", 1);
            var w := AddRuleAsWritten(NewTree(), rule);
            w.Done? && Subscribed(w.state, ["", n], rule)
  {
    AbsolutePathVerbatim(n);
    SingleFactLands(NewTree(), RuleInfo(Some(id), ["/" + n], "", 1));
  }

  /** Resolved verbatim, "/n" never creates the root's child `n`. */
  lemma VerbatimSkipsName(n: string, id: string)
    requires IsPlainName(n)
    ensures [n] !in AddRuleAsWritten(NewTree(), RuleInfo(Some(id), ["/" + n], "", 1)).state
  {
    var rule := RuleInfo(Some(id), ["/" + n], "", 1);
    AbsolutePathVerbatim(n);
    SingleFactLands(NewTree(), rule);
    PlainNameEnds(n);
    NotCreated(n, WalkFrom([], Segments(rule.factNames[0])).entered);
  }

  /** The child `n` of the root is neither the root nor under "". */
  lemma NotCreated(n: string, entered: set<Key>)
    requires n != "" && entered == {[""], ["", n]}
    ensures [n] !in NewTree().Keys + entered
  {
    assert [n][0] != "";
  }

  /** `AddRuleAsWritten` for a rule with one stored fact path that leads
      somewhere: the rule lands on its target, and the nodes entered on the
      way are the only ones created. */
  lemma SingleFactLands(t: Tree, rule: RuleInfo)
    requires Valid(t) && |rule.factNames| == 1 && Target([], rule.factNames[0]).Some?
    ensures var w := AddRuleAsWritten(t, rule);
            && w.Done?
            && Subscribed(w.state, Target([], rule.factNames[0]).value, rule)
            && w.state.Keys == t.Keys + WalkFrom([], Segments(rule.factNames[0])).entered
  {
    assert rule.factNames == [rule.factNames[0]];
    SubscribeOne(t, rule.factNames[0], rule);
  }

  /** Subscribing the read path of "/n" puts the rule on `n`, the node
      writes of "/n" reach. */
  lemma AbsoluteFactPathCorrected(n: string, id: string)
    requires IsPlainName(n)
    ensures var rule := RuleInfo(Some(id), ["/" + n], "", 1);
            var c := AddRule(NewTree(), rule);
            && Target([], Trim("/" + n)) == Some([n])
            && c.Done? && Subscribed(c.state, [n], rule)
  {
    var rule := RuleInfo(Some(id), ["/" + n], "", 1);
    AbsolutePathRead(n, id);
    var rp := ReadPaths(rule);
    assert |rp| == 1 && rp[0] == n;
    assert rp == [n];
    SubscribeOne(NewTree(), n, rule);
    assert AddRule(NewTree(), rule) == Subscribe(NewTree(), [n], rule);
  }

  // ---------------------------------------------------------------------
  // Where the fact paths of a rule lead.
  // ---------------------------------------------------------------------

  /** Splitting `u + "/" + w` at every slash splits `u` and `w` apart. */
  lemma {:induction false} SplitAllOfJoin(u: string, w: string)
    ensures SplitAll(u + "/" + w) == SplitAll(u) + SplitAll(w)
  {
    var s := u + "/" + w;
    if u == [] {
      assert s[0] == '/' && s[1..] == w;
    } else {
      assert s[0] == u[0] && s[1..] == u[1..] + "/" + w;
      SplitAllOfJoin(u[1..], w);
      var tu := SplitAll(u[1..]);
      var t := SplitAll(s[1..]);
      assert t == tu + SplitAll(w);
      if u[0] != '/' {
        assert t[0] == tu[0] && t[1..] == tu[1..] + SplitAll(w);
      }
    }
  }

  /** The segments of `u + "/" + w`: every part of `u`, then the segments
      of `w`. */
  lemma SegmentsOfSlashJoin(u: string, w: string)
    ensures Segments(u + "/" + w) == SplitAll(u) + Segments(w)
  {
    SplitAllOfJoin(u, w);
    var a := SplitAll(u);
    var b := SplitAll(w);
    var parts := a + b;
    assert parts[|parts| - 1] == b[|b| - 1];
    assert parts[..|parts| - 1] == a + b[..|b| - 1];
  }

  /** Walking `s1 + s2` walks `s1` and then, unless that left the tree,
      `s2` from where `s1` ended. */
  lemma {:induction false} WalkAppend(at: Key, s1: seq<string>, s2: seq<string>)
    ensures var w := WalkFrom(at, s1).target;
            WalkFrom(at, s1 + s2).target == if w.None? then None else WalkFrom(w.value, s2).target
    decreases |s1|
  {
    if s1 == [] {
      assert s1 + s2 == s2;
    } else {
      assert (s1 + s2)[0] == s1[0] && (s1 + s2)[1..] == s1[1..] + s2;
      if s1[0] == "." {
        WalkAppend(at, s1[1..], s2);
      } else if s1[0] == ".." {
        if at != [] {
          WalkAppend(Parent(at), s1[1..], s2);
        }
      } else {
        WalkAppend(at + [s1[0]], s1[1..], s2);
      }
    }
  }

  /** Walking segments none of which is "." or ".." descends by exactly
      those names. */
  lemma {:induction false} WalkNames(at: Key, segs: seq<string>)
    requires forall x :: x in segs ==> x != "." && x != ".."
    ensures WalkFrom(at, segs).target == Some(at + segs)
    decreases |segs|
  {
    if segs != [] {
      var h := segs[0];
      assert h in segs;
      assert forall x :: x in segs[1..] ==> x in segs;
      WalkNames(at + [h], segs[1..]);
      assert WalkFrom(at, segs).target == WalkFrom(at + [h], segs[1..]).target;
      assert segs == [h] + segs[1..];
      assert at + [h] + segs[1..] == at + segs;
    } else {
      assert at + segs == at;
    }
  }

  /** A relative fact path leads where its attribute path leads from the
      node the rule path, stripped of trailing slashes and split at every
      slash, leads from the root; and nowhere when that leaves the tree. */
  lemma RelativeFactPathWalk(rulePath: string, attrPath: string)
    requires !StartsWithSlash(attrPath)
    ensures var w := WalkFrom([], SplitAll(TrimEnd(rulePath))).target;
            Target([], FactPath(rulePath, attrPath)) == if w.None? then None else Target(w.value, attrPath)
  {
    var base := TrimEnd(rulePath);
    assert FactPath(rulePath, attrPath) == base + "/" + attrPath;
    SegmentsOfSlashJoin(base, attrPath);
    WalkAppend([], SplitAll(base), Segments(attrPath));
  }

  /** A rooted path "/g" resolved as it is lands under the empty-named
      child of the root, while the same path trimmed, as the indexers read
      it, lands at `g` itself: the two never meet. */
  lemma RootedPathMisplaced(g: string)
    requires g != [] && g[0] != '/' && g[|g| - 1] != '/'
    requires forall x :: x in Segments(g) ==> x != "." && x != ".."
    ensures Target([], "/" + g) == Some([""] + Segments(g))
    ensures Target([], Trim("/" + g)) == Some(Segments(g))
    ensures Target([], "/" + g) != Target([], Trim("/" + g))
  {
    RootedPathVerbatim(g);
    TrimRooted(g);
    WalkNames([], Segments(g));
    assert [] + Segments(g) == Segments(g);
    assert |[""] + Segments(g)| != |Segments(g)|;
  }

  /** The verbatim half of `RootedPathMisplaced`. */
  lemma RootedPathVerbatim(g: string)
    requires forall x :: x in Segments(g) ==> x != "." && x != ".."
    ensures Target([], "/" + g) == Some([""] + Segments(g))
  {
    var segs := [""] + Segments(g);
    assert "" + "/" + g == "/" + g;
    SegmentsOfJoin("", g);
    assert Segments("/" + g) == segs;
    assert forall x :: x in segs ==> x == "" || x in Segments(g);
    WalkNames([], segs);
    assert [] + segs == segs;
  }

  /** For a rule at the root, a fact path with no slash at either end is
      read exactly where it is stored: the code as written and the trimmed
      reading agree on it. */
  lemma UnrootedFactPathAgrees(rule: RuleInfo, i: nat)
    requires rule.root == "" && i < |rule.factNames|
    requires var f := rule.factNames[i]; f != [] && f[0] != '/' && f[|f| - 1] != '/'
    ensures ReadPath(rule, i) == rule.factNames[i]
  {
    var f := rule.factNames[i];
    assert rule.root + "/" + f == "/" + f;
    TrimRooted(f);
  }

  /** Under a rule path that keeps some text once its trailing slashes are
      dropped, a relative fact path with no trailing slash is read exactly
      where it is stored. An empty rule path, which a bare rule attribute
      gives, roots the fact path instead. */
  lemma RelativeFactPathAgrees(rulePath: string, attrPath: string, id: string)
    requires TrimEnd(rulePath) != [] && !StartsWithSlash(rulePath)
    requires attrPath != [] && !StartsWithSlash(attrPath) && attrPath[|attrPath| - 1] != '/'
    ensures var f := FactPath(rulePath, attrPath);
            ReadPath(RuleInfo(Some(id), [f], "", 1), 0) == f
  {
    var f := FactPath(rulePath, attrPath);
    var base := TrimEnd(rulePath);
    assert f == base + "/" + attrPath;
    assert f[0] == base[0] == rulePath[0];
    assert f[|f| - 1] == attrPath[|attrPath| - 1];
    UnrootedFactPathAgrees(RuleInfo(Some(id), [f], "", 1), 0);
  }

  /** A fact path "/../n" leaves the tree once trimmed but not as written:
      resolved as it is, it enters the empty-named child, leaves it again
      and reaches `n`. So the rule is subscribed as written and throws once
      the paths are trimmed. */
  lemma DotDotRootedChangesFailure(n: string, id: string)
    requires IsPlainName(n)
    ensures var rule := RuleInfo(Some(id), ["/../" + n], "", 1);
            && AddRuleAsWritten(NewTree(), rule).Done?
            && AddRule(NewTree(), rule).Threw?
  {
    var rule := RuleInfo(Some(id), ["/../" + n], "", 1);
    DotDotVerbatim(n);
    SubscribeOne(NewTree(), "/../" + n, rule);
    DotDotTrimmed(n, id);
    var rp := ReadPaths(rule);
    assert rp == ["../" + n];
    SubscribeCompletes(NewTree(), rp, rule);
    assert !AllResolve(rp) by {
      assert rp[0] in rp;
    }
  }

  /** "/../n" resolved as it is reaches `n`. */
  lemma DotDotVerbatim(n: string)
    requires IsPlainName(n)
    ensures Target([], "/../" + n) == Some([n])
  {
    assert "" + "/../" + n == "/../" + n;
    ChildThenParentCancels([], "", n);
    SingleNameTarget(n);
  }

  /** "/../n" read from the root is "../n", which leaves the tree. */
  lemma DotDotTrimmed(n: string, id: string)
    requires IsPlainName(n)
    ensures ReadPath(RuleInfo(Some(id), ["/../" + n], "", 1), 0) == "../" + n
    ensures Target([], "../" + n) == None
  {
    PlainNameEnds(n);
    var up := "../" + n;
    assert "" + "/" + ("/../" + n) == "//" + up + "";
    TrimSlashes("//", up, "");
    assert up == ".." + "/" + n;
    SegmentsOfJoin("..", n);
  }
}
