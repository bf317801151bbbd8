/** `LinkedHashSet<T>`: a hash set that enumerates its items in insertion
    order. The C# class pairs a dictionary from item to linked-list node
    with the linked list itself; here the dictionary is represented by its
    key set and the list by a sequence. */
module LinkedHashSets {

  /** No item occurs twice in `s`. */
  predicate NoDuplicates<T(==,!new)>(s: seq<T>)
  {
    forall i, j :: 0 <= i < j < |s| ==> s[i] != s[j]
  }

  /** The items of a sequence, as a set. */
  function Elems<T>(s: seq<T>): set<T>
  {
    set x | x in s
  }

  /** Dropping the head of a duplicate-free sequence. */
  lemma NoDuplicatesTail<T(!new)>(xs: seq<T>)
    requires xs != [] && NoDuplicates(xs)
    ensures NoDuplicates(xs[1..]) && xs[0] !in xs[1..]
  {
    forall j | 0 <= j < |xs[1..]| ensures xs[1..][j] != xs[0] {
      assert xs[1..][j] == xs[j + 1];
    }
  }

  /** Putting a new item in front of a duplicate-free sequence. */
  lemma NoDuplicatesCons<T(!new)>(x: T, t: seq<T>)
    requires x !in t && NoDuplicates(t)
    ensures NoDuplicates([x] + t)
  {
    forall i, j | 0 <= i < j < |[x] + t| ensures ([x] + t)[i] != ([x] + t)[j] {
      assert ([x] + t)[j] == t[j - 1];
      if i > 0 {
        assert ([x] + t)[i] == t[i - 1];
      }
    }
  }

  /** The items of `xs` that do not occur in `ys`, in their order in `xs`. */
  function Outside<T(==,!new)>(xs: seq<T>, ys: seq<T>): (r: seq<T>)
    ensures forall x :: x in r <==> x in xs && x !in ys
    ensures NoDuplicates(xs) ==> NoDuplicates(r)
  {
    if xs == [] then []
    else
      var t := Outside(xs[1..], ys);
      assert forall x :: x in xs <==> x == xs[0] || x in xs[1..];
      if xs[0] in ys then
        assert NoDuplicates(xs) ==> NoDuplicates(xs[1..]) by {
          if NoDuplicates(xs) { NoDuplicatesTail(xs); }
        }
        t
      else
        assert NoDuplicates(xs) ==> NoDuplicates([xs[0]] + t) by {
          if NoDuplicates(xs) {
            NoDuplicatesTail(xs);
            NoDuplicatesCons(xs[0], t);
          }
        }
        [xs[0]] + t
  }

  /** The items of `xs` that also occur in `ys`, in their order in `xs`. */
  function Inside<T(==,!new)>(xs: seq<T>, ys: seq<T>): (r: seq<T>)
    ensures forall x :: x in r <==> x in xs && x in ys
    ensures NoDuplicates(xs) ==> NoDuplicates(r)
  {
    if xs == [] then []
    else
      var t := Inside(xs[1..], ys);
      assert forall x :: x in xs <==> x == xs[0] || x in xs[1..];
      if xs[0] !in ys then
        assert NoDuplicates(xs) ==> NoDuplicates(xs[1..]) by {
          if NoDuplicates(xs) { NoDuplicatesTail(xs); }
        }
        t
      else
        assert NoDuplicates(xs) ==> NoDuplicates([xs[0]] + t) by {
          if NoDuplicates(xs) {
            NoDuplicatesTail(xs);
            NoDuplicatesCons(xs[0], t);
          }
        }
        [xs[0]] + t
  }

  /** The index of the first occurrence of `x` in `xs`. */
  function FirstIndex<T(==,!new)>(xs: seq<T>, x: T): (i: nat)
    requires x in xs
    ensures i < |xs| && xs[i] == x && x !in xs[..i]
  {
    if xs[0] == x then 0 else 1 + FirstIndex(xs[1..], x)
  }

  datatype LinkedHashSet<T> = LinkedHashSet(keys: set<T>, list: seq<T>)

  /** The class invariant: the dictionary's keys are exactly the list's
      items, and the list holds each of them once. */
  predicate Valid<T(==,!new)>(s: LinkedHashSet<T>)
  {
    s.keys == Elems(s.list) && NoDuplicates(s.list)
  }

  /** The parameterless constructor. */
  function Empty<T>(): (r: LinkedHashSet<T>)
    ensures r.keys == {} && r.list == []
  {
    LinkedHashSet({}, [])
  }

  /** `Clear`: afterwards nothing is contained and nothing is enumerated. */
  function Clear<T(==,!new)>(s: LinkedHashSet<T>): (r: LinkedHashSet<T>)
    ensures Valid(r)
    ensures r.list == [] && Count(r) == 0
  {
    Empty()
  }

  /** `Contains`: a dictionary lookup, which agrees with list membership. */
  function Contains<T(==,!new)>(s: LinkedHashSet<T>, x: T): (b: bool)
    ensures Valid(s) ==> (b <==> x in s.list)
  {
    x in s.keys
  }

  /** A duplicate-free sequence has as many distinct items as positions. */
  lemma {:induction false} DistinctCardinality<T(!new)>(s: seq<T>)
    requires NoDuplicates(s)
    ensures |Elems(s)| == |s|
  {
    if s != [] {
      DistinctCardinality(s[1..]);
      assert Elems(s) == {s[0]} + Elems(s[1..]);
      assert s[0] !in Elems(s[1..]) by {
        forall j | 0 <= j < |s[1..]| ensures s[1..][j] != s[0] {
          assert s[1..][j] == s[j + 1];
        }
      }
    }
  }

  /** `Count`: the dictionary's size, which equals the list's length. */
  function Count<T(==,!new)>(s: LinkedHashSet<T>): (n: nat)
    requires Valid(s)
    ensures n == |s.list|
  {
    DistinctCardinality(s.list);
    |s.keys|
  }

  /** `Add`: false and no change when the item is present; otherwise the
      item is appended at the end of the enumeration order. */
  function Add<T(==,!new)>(s: LinkedHashSet<T>, x: T): (r: (LinkedHashSet<T>, bool))
    requires Valid(s)
    ensures Valid(r.0)
    ensures r.1 <==> x !in s.list
    ensures r.1 ==> r.0.list == s.list + [x]
    ensures !r.1 ==> r.0 == s
  {
    if x in s.keys then (s, false)
    else (LinkedHashSet(s.keys + {x}, s.list + [x]), true)
  }

  /** The position of a present item. */
  function IndexOf<T(==,!new)>(s: seq<T>, x: T): (i: nat)
    requires x in s
    ensures i < |s| && s[i] == x
  {
    if s[0] == x then 0 else 1 + IndexOf(s[1..], x)
  }

  /** Unlinking the one node holding `x` keeps every other item in order. */
  lemma {:induction false} UnlinkIsOutside<T(!new)>(s: seq<T>, x: T)
    requires x in s && x !in s[IndexOf(s, x) + 1..]
    ensures s[..IndexOf(s, x)] + s[IndexOf(s, x) + 1..] == Outside(s, [x])
  {
    var tail := s[1..];
    if s[0] != x {
      var j := IndexOf(tail, x);
      assert s[j + 2..] == tail[j + 1..];
      UnlinkIsOutside(tail, x);
      UnlinkAfterHead(s, j);
    } else {
      OutsideOfAbsent(tail, [x]);
    }
  }

  /** Unlinking position `j + 1` of `s` is keeping the head and unlinking
      position `j` of the tail. */
  lemma UnlinkAfterHead<T>(s: seq<T>, j: nat)
    requires j + 1 < |s|
    ensures s[..j + 1] + s[j + 2..] == [s[0]] + (s[1..][..j] + s[1..][j + 1..])
  {
    assert s[..j + 1] == [s[0]] + s[1..][..j];
  }

  /** Filtering out items that are not there changes nothing. */
  lemma {:induction false} OutsideOfAbsent<T(!new)>(xs: seq<T>, ys: seq<T>)
    requires forall y :: y in ys ==> y !in xs
    ensures Outside(xs, ys) == xs
  {
    if xs != [] {
      assert xs[0] in xs;
      OutsideOfAbsent(xs[1..], ys);
    }
  }

  /** `Remove`: true exactly when the item was present; afterwards it is
      absent and the remaining items keep their relative order. */
  function Remove<T(==,!new)>(s: LinkedHashSet<T>, x: T): (r: (LinkedHashSet<T>, bool))
    requires Valid(s)
    ensures Valid(r.0)
    ensures r.1 <==> x in s.list
    ensures !Contains(r.0, x)
    ensures r.0.list == Outside(s.list, [x])
  {
    if x !in s.keys then
      OutsideOfAbsent(s.list, [x]);
      (s, false)
    else
      var i := IndexOf(s.list, x);
      assert x !in s.list[i + 1..] by {
        forall k | i + 1 <= k < |s.list| ensures s.list[k] != x {
        }
      }
      UnlinkIsOutside(s.list, x);
      (LinkedHashSet(s.keys - {x}, s.list[..i] + s.list[i + 1..]), true)
  }

  /** `UnionWith`: `Add` applied to each item of `other` in turn. The old
      items keep their places and the members become those of both; the
      order of the new items is `UnionWithOrder`. */
  function UnionWith<T(==,!new)>(s: LinkedHashSet<T>, other: seq<T>): (r: LinkedHashSet<T>)
    requires Valid(s)
    ensures Valid(r)
    ensures |s.list| <= |r.list| && r.list[..|s.list|] == s.list
    ensures forall x :: x in r.list <==> x in s.list || x in other
    decreases |other|
  {
    if other == [] then s
    else
      var s1 := Add(s, other[0]).0;
      var r := UnionWith(s1, other[1..]);
      assert r.list[..|s.list|] == s1.list[..|s.list|];
      assert forall x :: x in other <==> x == other[0] || x in other[1..];
      r
  }

  /** The items of `after` beyond the first `n` come from `other`, in the
      order of their first occurrence there. */
  predicate AppendedInOrder<T(==,!new)>(n: nat, after: seq<T>, other: seq<T>)
  {
    && (forall i :: n <= i < |after| ==> after[i] in other)
    && (forall i, j :: n <= i < j < |after| ==>
          after[i] in other && after[j] in other &&
          FirstIndex(other, after[i]) < FirstIndex(other, after[j]))
  }

  /** The items `UnionWith` appends come from `other`, each in the order of
      its first occurrence there. */
  lemma {:induction false} UnionWithOrder<T(!new)>(s: LinkedHashSet<T>, other: seq<T>)
    requires Valid(s)
    ensures AppendedInOrder(|s.list|, UnionWith(s, other).list, other)
    decreases |other|
  {
    var r := UnionWith(s, other);
    if other != [] {
      var s1 := Add(s, other[0]).0;
      assert r == UnionWith(s1, other[1..]);
      UnionWithOrder(s1, other[1..]);
      assert other[0] in s1.list;
      var k := IndexOf(s1.list, other[0]);
      assert r.list[k] == other[0];
      forall i | |s.list| <= i < |r.list|
        ensures r.list[i] in other
        ensures i < |s1.list| ==> FirstIndex(other, r.list[i]) == 0
        ensures i >= |s1.list| ==> FirstIndex(other, r.list[i]) == 1 + FirstIndex(other[1..], r.list[i])
      {
        if i >= |s1.list| {
          assert r.list[i] in other[1..];
          assert r.list[i] != other[0];
        } else {
          assert r.list[i] == s1.list[i] == other[0];
        }
      }
    }
  }

  /** The constructor taking an enumerable: `Add` of each item in turn;
      enumeration yields the items in the order of their first occurrence. */
  function FromSeq<T(==,!new)>(xs: seq<T>): (r: LinkedHashSet<T>)
    ensures Valid(r)
    ensures forall x :: x in r.list <==> x in xs
    ensures AppendedInOrder(0, r.list, xs)
  {
    UnionWithOrder(Empty(), xs);
    UnionWith(Empty(), xs)
  }

  /** Adding items that are all present already is a no-op. */
  lemma {:induction false} UnionWithPresent<T(!new)>(s: LinkedHashSet<T>, other: seq<T>)
    requires Valid(s)
    requires forall x :: x in other ==> x in s.list
    ensures UnionWith(s, other) == s
    decreases |other|
  {
    if other != [] {
      UnionWithPresent(s, other[1..]);
    }
  }

  /** A second union with the same items changes nothing. */
  lemma UnionWithIdempotent<T(!new)>(s: LinkedHashSet<T>, other: seq<T>)
    requires Valid(s)
    ensures UnionWith(UnionWith(s, other), other) == UnionWith(s, other)
  {
    UnionWithPresent(UnionWith(s, other), other);
  }

  /** Filtering twice is filtering once by both lists. */
  lemma {:induction false} OutsideOutside<T(!new)>(xs: seq<T>, a: seq<T>, b: seq<T>)
    ensures Outside(Outside(xs, a), b) == Outside(xs, a + b)
  {
    if xs != [] {
      OutsideOutside(xs[1..], a, b);
    }
  }

  /** `ExceptWith`: `Remove` applied to each item of `other`; exactly the
      items not in `other` survive, in their old order. */
  function ExceptWith<T(==,!new)>(s: LinkedHashSet<T>, other: seq<T>): (r: LinkedHashSet<T>)
    requires Valid(s)
    ensures Valid(r)
    ensures r.list == Outside(s.list, other)
    decreases |other|
  {
    if other == [] then
      OutsideOfAbsent(s.list, other);
      s
    else
      var s1 := Remove(s, other[0]).0;
      OutsideOutside(s.list, [other[0]], other[1..]);
      assert [other[0]] + other[1..] == other;
      ExceptWith(s1, other[1..])
  }

  /** The loop of `IntersectWith` over the snapshot `ts`: each item not in
      `other` is removed. */
  function RemoveUnlisted<T(==,!new)>(s: LinkedHashSet<T>, ts: seq<T>, other: seq<T>): (r: LinkedHashSet<T>)
    requires Valid(s)
    ensures Valid(r)
    ensures r.list == Outside(s.list, Outside(ts, other))
    decreases |ts|
  {
    if ts == [] then
      OutsideOfAbsent(s.list, []);
      s
    else if ts[0] in other then
      RemoveUnlisted(s, ts[1..], other)
    else
      var s1 := Remove(s, ts[0]).0;
      OutsideOutside(s.list, [ts[0]], Outside(ts[1..], other));
      RemoveUnlisted(s1, ts[1..], other)
  }

  /** Dropping the items that lie outside `other` keeps those inside it. */
  lemma {:induction false} OutsideOfOutside<T(!new)>(xs: seq<T>, other: seq<T>, ys: seq<T>)
    requires forall x :: x in xs ==> (x in ys <==> x !in other)
    ensures Outside(xs, ys) == Inside(xs, other)
  {
    if xs != [] {
      assert xs[0] in xs;
      OutsideOfOutside(xs[1..], other, ys);
    }
  }

  /** `IntersectWith`: exactly the items also in `other` survive, in their
      old order. */
  function IntersectWith<T(==,!new)>(s: LinkedHashSet<T>, other: seq<T>): (r: LinkedHashSet<T>)
    requires Valid(s)
    ensures Valid(r)
    ensures r.list == Inside(s.list, other)
  {
    var r := RemoveUnlisted(s, s.list, other);
    OutsideOfOutside(s.list, other, Outside(s.list, other));
    r
  }

  /** The first loop of `SymmetricExceptWith`: every snapshot item also in
      `pending` (the hash set built from `other`) is removed from both. */
  function DropShared<T(==,!new)>(cur: LinkedHashSet<T>, pending: LinkedHashSet<T>, ts: seq<T>)
    : (r: (LinkedHashSet<T>, LinkedHashSet<T>))
    requires Valid(cur) && Valid(pending) && NoDuplicates(ts)
    ensures Valid(r.0) && Valid(r.1)
    ensures r.0.list == Outside(cur.list, Inside(ts, pending.list))
    ensures r.1.list == Outside(pending.list, ts)
    decreases |ts|
  {
    if ts == [] then
      OutsideOfAbsent(cur.list, []);
      OutsideOfAbsent(pending.list, []);
      (cur, pending)
    else
      var t := ts[0];
      assert NoDuplicates(ts[1..]) by {
        forall i, j | 0 <= i < j < |ts[1..]| ensures ts[1..][i] != ts[1..][j] {
          assert ts[1..][i] == ts[i + 1] && ts[1..][j] == ts[j + 1];
        }
      }
      assert t !in ts[1..] by {
        forall j | 0 <= j < |ts[1..]| ensures ts[1..][j] != t {
          assert ts[1..][j] == ts[j + 1];
        }
      }
      if Contains(pending, t) then
        var c1 := Remove(cur, t).0;
        var p1 := Remove(pending, t).0;
        var r := DropShared(c1, p1, ts[1..]);
        InsideAfterRemovingOther(ts[1..], pending.list, t);
        OutsideOutside(cur.list, [t], Inside(ts[1..], pending.list));
        OutsideOutside(pending.list, [t], ts[1..]);
        assert [t] + ts[1..] == ts;
        r
      else
        OutsideAbsentHead(pending.list, t, ts[1..]);
        assert [t] + ts[1..] == ts;
        DropShared(cur, pending, ts[1..])
  }

  /** Removing an item that `xs` does not contain does not change `Inside(xs, _)`. */
  lemma {:induction false} InsideAfterRemovingOther<T(!new)>(xs: seq<T>, ys: seq<T>, t: T)
    requires t !in xs
    ensures Inside(xs, Outside(ys, [t])) == Inside(xs, ys)
  {
    if xs != [] {
      assert xs[0] in xs;
      InsideAfterRemovingOther(xs[1..], ys, t);
    }
  }

  /** Filtering out an absent head changes nothing. */
  lemma OutsideAbsentHead<T(!new)>(ys: seq<T>, t: T, ts: seq<T>)
    requires t !in ys
    ensures Outside(ys, [t] + ts) == Outside(ys, ts)
  {
    OutsideOutside(ys, [t], ts);
    OutsideOfAbsent(ys, [t]);
  }

  /** `SymmetricExceptWith`: afterwards the members are those in exactly one
      of the set and `other`; the items only in the set keep their order and
      come first. */
  function SymmetricExceptWith<T(==,!new)>(s: LinkedHashSet<T>, other: seq<T>): (r: LinkedHashSet<T>)
    requires Valid(s)
    ensures Valid(r)
    ensures forall x :: x in r.list <==> (x in s.list && x !in other) || (x in other && x !in s.list)
    ensures |Outside(s.list, other)| <= |r.list|
    ensures r.list[..|Outside(s.list, other)|] == Outside(s.list, other)
  {
    var pending := FromSeq(other);
    var (cur, rest) := DropShared(s, pending, s.list);
    OutsideSameMembership(s.list, Inside(s.list, pending.list), other);
    UnionWith(cur, rest.list)
  }

  /** `Outside(xs, _)` depends only on which items of `xs` the second
      argument contains. */
  lemma {:induction false} OutsideSameMembership<T(!new)>(xs: seq<T>, a: seq<T>, b: seq<T>)
    requires forall x :: x in xs ==> (x in a <==> x in b)
    ensures Outside(xs, a) == Outside(xs, b)
  {
    if xs != [] {
      assert xs[0] in xs;
      OutsideSameMembership(xs[1..], a, b);
    }
  }

  /** Some item of `xs` is in `m` (the loop returns at the first one). */
  function AnyIn<T(==,!new)>(xs: seq<T>, m: set<T>): (b: bool)
    ensures b <==> Elems(xs) * m != {}
  {
    if xs == [] then false
    else if xs[0] in m then
      assert xs[0] in Elems(xs) * m;
      true
    else
      assert Elems(xs) * m == Elems(xs[1..]) * m;
      AnyIn(xs[1..], m)
  }

  /** Every item of `xs` is in `m` (the loop returns at the first miss). */
  function AllIn<T(==,!new)>(xs: seq<T>, m: set<T>): (b: bool)
    ensures b <==> Elems(xs) <= m
  {
    if xs == [] then true
    else
      assert Elems(xs) == {xs[0]} + Elems(xs[1..]);
      xs[0] in m && AllIn(xs[1..], m)
  }

  /** `IsSubsetOf`: every item of the set occurs in `other`. */
  function IsSubsetOf<T(==,!new)>(s: LinkedHashSet<T>, other: seq<T>): (b: bool)
    requires Valid(s)
    ensures b <==> s.keys <= Elems(other)
  {
    AllIn(s.list, Elems(other))
  }

  /** `IsSupersetOf`: every item of `other` is contained in the set. */
  function IsSupersetOf<T(==,!new)>(s: LinkedHashSet<T>, other: seq<T>): (b: bool)
    requires Valid(s)
    ensures b <==> Elems(other) <= s.keys
  {
    AllIn(other, s.keys)
  }

  /** `Overlaps`: some item of `other` is contained in the set. */
  function Overlaps<T(==,!new)>(s: LinkedHashSet<T>, other: seq<T>): (b: bool)
    requires Valid(s)
    ensures b <==> s.keys * Elems(other) != {}
  {
    assert s.keys * Elems(other) == Elems(other) * s.keys;
    AnyIn(other, s.keys)
  }

  /** The two counters kept by the counting predicates: how many positions
      of `xs` hold an item of `m`, and how many do not. */
  function CountMembers<T(==,!new)>(xs: seq<T>, m: set<T>): (r: (nat, nat))
    ensures r.0 + r.1 == |xs|
    ensures r.1 > 0 <==> !(Elems(xs) <= m)
  {
    if xs == [] then (0, 0)
    else
      var (c, n) := CountMembers(xs[1..], m);
      assert Elems(xs) == {xs[0]} + Elems(xs[1..]);
      if xs[0] in m then (c + 1, n) else (c, n + 1)
  }

  /** The items of a non-empty sequence: its head and the items of its tail. */
  lemma ElemsCons<T>(xs: seq<T>)
    requires xs != []
    ensures Elems(xs) == {xs[0]} + Elems(xs[1..])
  {
    assert forall x :: x in xs <==> x == xs[0] || x in xs[1..];
  }

  /** Over a duplicate-free `xs` the counters are the sizes of the
      intersection with `m` and of the difference. */
  lemma CountMembersDistinct<T(!new)>(xs: seq<T>, m: set<T>)
    requires NoDuplicates(xs)
    ensures CountMembers(xs, m).0 == |Elems(xs) * m|
    ensures CountMembers(xs, m).1 == |Elems(xs) - m|
  {
    CountMembersInside(xs, m);
    CountMembersOutside(xs, m);
  }

  /** The first counter over a duplicate-free `xs`. */
  lemma {:induction false} CountMembersInside<T(!new)>(xs: seq<T>, m: set<T>)
    requires NoDuplicates(xs)
    ensures CountMembers(xs, m).0 == |Elems(xs) * m|
  {
    if xs != [] {
      var x := xs[0];
      var t := Elems(xs[1..]);
      NoDuplicatesTail(xs);
      ElemsCons(xs);
      CountMembersInside(xs[1..], m);
      if x in m {
        assert Elems(xs) * m == (t * m) + {x};
        assert x !in t * m;
      } else {
        assert Elems(xs) * m == t * m;
      }
    }
  }

  /** The second counter over a duplicate-free `xs`. */
  lemma {:induction false} CountMembersOutside<T(!new)>(xs: seq<T>, m: set<T>)
    requires NoDuplicates(xs)
    ensures CountMembers(xs, m).1 == |Elems(xs) - m|
  {
    if xs != [] {
      var x := xs[0];
      var t := Elems(xs[1..]);
      NoDuplicatesTail(xs);
      ElemsCons(xs);
      CountMembersOutside(xs[1..], m);
      if x in m {
        assert Elems(xs) - m == t - m;
      } else {
        assert Elems(xs) - m == (t - m) + {x};
        assert x !in t - m;
      }
    }
  }

  /** A sequence has at most as many distinct items as positions. */
  lemma {:induction false} ElemsAtMostLength<T>(xs: seq<T>)
    ensures |Elems(xs)| <= |xs|
  {
    if xs != [] {
      ElemsCons(xs);
      ElemsAtMostLength(xs[1..]);
    }
  }

  /** A part of `a` is as large as `a` exactly when it is all of `a`. */
  lemma IntersectionAsLarge<T>(a: set<T>, b: set<T>)
    ensures |b * a| == |a| <==> a <= b
  {
    assert b * a == a * b;
    assert |a - b| == |a| - |a * b|;
    if !(a <= b) {
      var x :| x in a && x !in b;
      assert x in a - b;
    } else {
      assert a - b == {};
    }
  }

  /** A strict part of a set is smaller than the set. */
  lemma StrictSubsetIsSmaller<T>(a: set<T>, b: set<T>)
    ensures a < b ==> |a| < |b|
  {
    if a < b {
      var x :| x in b && x !in a;
      assert b * a == a;
      assert |b - a| == |b| - |b * a|;
      assert x in b - a;
    }
  }

  /** `IsProperSubsetOf` as written: it counts the positions of `other`
      whose item is contained and those whose item is not. It never accepts
      an `other` whose items all lie in the set, and over a duplicate-free
      `other` it is strict inclusion. */
  function IsProperSubsetOf<T(==,!new)>(s: LinkedHashSet<T>, other: seq<T>): (b: bool)
    requires Valid(s)
    ensures b ==> !(Elems(other) <= s.keys)
    ensures NoDuplicates(other) ==> (b <==> s.keys < Elems(other))
  {
    var (contains, noContains) := CountMembers(other, s.keys);
    assert NoDuplicates(other) ==> (contains == Count(s) && noContains > 0 <==> s.keys < Elems(other)) by {
      if NoDuplicates(other) {
        CountMembersDistinct(other, s.keys);
        IntersectionAsLarge(s.keys, Elems(other));
      }
    }
    contains == Count(s) && noContains > 0
  }

  /** `IsProperSubsetOf` as written accepts {1, 2} against [1, 1, 3]: the
      repeated 1 is counted twice, standing in for the missing 2. */
  lemma ProperSubsetOfCountsRepeats()
    ensures Valid(LinkedHashSet({1, 2}, [1, 2]))
    ensures IsProperSubsetOf(LinkedHashSet({1, 2}, [1, 2]), [1, 1, 3])
    ensures !({1, 2} <= Elems([1, 1, 3]))
  {
    var s := LinkedHashSet({1, 2}, [1, 2]);
    assert Elems([1, 2]) == {1, 2};
    assert [1, 1, 3][1..] == [1, 3] && [1, 3][1..] == [3] && [3][1..] == [];
    assert CountMembers([3], s.keys) == (0, 1);
    assert CountMembers([1, 3], s.keys) == (1, 1);
    assert CountMembers([1, 1, 3], s.keys) == (2, 1);
    assert Count(s) == 2;
    assert 2 !in Elems([1, 1, 3]);
  }

  /** `IsProperSubsetOf` compared against the distinct items of `other`, as
      the ISet contract intends: exactly strict inclusion. */
  function IsProperSubsetOfSet<T(==,!new)>(s: LinkedHashSet<T>, other: seq<T>): (b: bool)
    requires Valid(s)
    ensures b <==> s.keys < Elems(other)
  {
    var d := FromSeq(other);
    assert Elems(d.list) == Elems(other);
    IsProperSubsetOf(s, d.list)
  }

  /** `IsProperSupersetOf` as written: it compares the set's size with the
      number of positions of `other`, then counts the set's items found in
      `other`. It only ever errs by rejecting: whatever it accepts is a
      strict superset, and over a duplicate-free `other` it is strict
      inclusion. */
  function IsProperSupersetOf<T(==,!new)>(s: LinkedHashSet<T>, other: seq<T>): (b: bool)
    requires Valid(s)
    ensures b ==> Elems(other) < s.keys
    ensures NoDuplicates(other) ==> (b <==> Elems(other) < s.keys)
  {
    var otherCount := |other|;
    if Count(s) <= otherCount then
      assert NoDuplicates(other) ==> !(Elems(other) < s.keys) by {
        if NoDuplicates(other) {
          DistinctCardinality(other);
          StrictSubsetIsSmaller(Elems(other), s.keys);
        }
      }
      false
    else
      var (contains, noContains) := CountMembers(s.list, Elems(other));
      assert contains == otherCount && noContains > 0 ==> Elems(other) < s.keys by {
        if contains == otherCount && noContains > 0 {
          CountMembersDistinct(s.list, Elems(other));
          ElemsAtMostLength(other);
          StrictSubsetIsSmaller(s.keys * Elems(other), Elems(other));
          assert s.keys * Elems(other) == Elems(other);
        }
      }
      assert NoDuplicates(other) ==>
          (contains == otherCount && noContains > 0 <==> Elems(other) < s.keys) by {
        if NoDuplicates(other) {
          DistinctCardinality(other);
          CountMembersDistinct(s.list, Elems(other));
          IntersectionAsLarge(Elems(other), s.keys);
        }
      }
      contains == otherCount && noContains > 0
  }

  /** `IsProperSupersetOf` as written rejects {1, 2, 3} against [1, 1]: the
      repeated 1 makes `other` look two items large. */
  lemma ProperSupersetOfCountsRepeats()
    ensures Valid(LinkedHashSet({1, 2, 3}, [1, 2, 3]))
    ensures !IsProperSupersetOf(LinkedHashSet({1, 2, 3}, [1, 2, 3]), [1, 1])
    ensures Elems([1, 1]) < {1, 2, 3}
  {
    var s := LinkedHashSet({1, 2, 3}, [1, 2, 3]);
    assert Elems([1, 2, 3]) == {1, 2, 3};
    assert Elems([1, 1]) == {1};
    assert [1, 2, 3][1..] == [2, 3] && [2, 3][1..] == [3] && [3][1..] == [];
    assert CountMembers([3], {1}) == (0, 1);
    assert CountMembers([2, 3], {1}) == (0, 2);
    assert CountMembers([1, 2, 3], {1}) == (1, 2);
    assert Count(s) == 3;
  }

  /** `IsProperSupersetOf` compared against the distinct items of `other`,
      as the ISet contract intends: exactly strict inclusion. */
  function IsProperSupersetOfSet<T(==,!new)>(s: LinkedHashSet<T>, other: seq<T>): (b: bool)
    requires Valid(s)
    ensures b <==> Elems(other) < s.keys
  {
    var d := FromSeq(other);
    assert Elems(d.list) == Elems(other);
    IsProperSupersetOf(s, d.list)
  }

  /** `SetEquals` as written: equal size against the number of positions of
      `other`, then `IsSupersetOf`. Over a duplicate-free `other` it is set
      equality. */
  function SetEquals<T(==,!new)>(s: LinkedHashSet<T>, other: seq<T>): (b: bool)
    requires Valid(s)
    ensures b ==> Elems(other) <= s.keys
    ensures NoDuplicates(other) ==> (b <==> Elems(other) == s.keys)
  {
    var otherCount := |other|;
    assert NoDuplicates(other) ==>
        (Count(s) == otherCount && IsSupersetOf(s, other) <==> Elems(other) == s.keys) by {
      if NoDuplicates(other) {
        DistinctCardinality(other);
        if Count(s) == otherCount && IsSupersetOf(s, other) {
          assert Elems(other) * s.keys == Elems(other);
          IntersectionAsLarge(s.keys, Elems(other));
        }
      }
    }
    if Count(s) != otherCount then false
    else IsSupersetOf(s, other)
  }

  /** `SetEquals` as written accepts {1, 2} against [1, 1]. */
  lemma SetEqualsCountsRepeats()
    ensures Valid(LinkedHashSet({1, 2}, [1, 2]))
    ensures SetEquals(LinkedHashSet({1, 2}, [1, 2]), [1, 1])
    ensures Elems([1, 1]) != {1, 2}
  {
    var s := LinkedHashSet({1, 2}, [1, 2]);
    assert Elems([1, 2]) == {1, 2};
    assert Elems([1, 1]) == {1};
    assert Count(s) == 2;
  }

  /** `SetEquals` compared against the distinct items of `other`, as the
      ISet contract intends: exactly set equality. */
  function SetEqualsSet<T(==,!new)>(s: LinkedHashSet<T>, other: seq<T>): (b: bool)
    requires Valid(s)
    ensures b <==> Elems(other) == s.keys
  {
    var d := FromSeq(other);
    assert Elems(d.list) == Elems(other);
    SetEquals(s, d.list)
  }
}
