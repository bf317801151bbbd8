/** The few `System.String` operations the engine uses on paths. */
module Strings {

  /** `char.IsWhiteSpace`: the Unicode space, line and paragraph separators
      plus the control characters U+0009..U+000D and U+0085. */
  predicate IsWhiteSpace(c: char)
  {
    || ('\U{0009}' <= c <= '\U{000D}') || c == '\U{0020}' || c == '\U{0085}' || c == '\U{00A0}'
    || c == '\U{1680}' || ('\U{2000}' <= c <= '\U{200A}') || c == '\U{2028}' || c == '\U{2029}'
    || c == '\U{202F}' || c == '\U{205F}' || c == '\U{3000}'
  }

  /** `string.IsNullOrWhiteSpace` for a non-null string. */
  predicate IsBlank(s: string)
  {
    forall i :: 0 <= i < |s| ==> IsWhiteSpace(s[i])
  }

  /** `s.StartsWith("/")`, compared character by character. */
  predicate StartsWithSlash(s: string)
  {
    |s| > 0 && s[0] == '/'
  }

  /** The number of slashes `s` starts with. */
  function LeadingSlashes(s: string): (n: nat)
    ensures n <= |s|
    ensures forall k :: 0 <= k < n ==> s[k] == '/'
    ensures n == |s| || s[n] != '/'
  {
    if StartsWithSlash(s) then 1 + LeadingSlashes(s[1..]) else 0
  }

  /** `s.TrimStart('/')`: drops every leading slash. */
  function TrimStart(s: string): (r: string)
    ensures r == s[LeadingSlashes(s)..]
    ensures !StartsWithSlash(r)
  {
    if StartsWithSlash(s) then TrimStart(s[1..]) else s
  }

  /** `s.TrimEnd('/')`: drops every trailing slash. */
  function TrimEnd(s: string): (r: string)
    ensures |r| <= |s| && r == s[..|r|]
    ensures forall k :: |r| <= k < |s| ==> s[k] == '/'
    ensures r == [] || r[|r| - 1] != '/'
  {
    if |s| > 0 && s[|s| - 1] == '/' then TrimEnd(s[..|s| - 1]) else s
  }

  /** `s.Trim('/')`: drops every leading and every trailing slash, keeping
      the text between them. */
  function Trim(s: string): (r: string)
    ensures r == [] || (r[0] != '/' && r[|r| - 1] != '/')
    ensures LeadingSlashes(s) + |r| <= |s|
    ensures r == s[LeadingSlashes(s)..LeadingSlashes(s) + |r|]
    ensures forall k :: LeadingSlashes(s) + |r| <= k < |s| ==> s[k] == '/'
  {
    var t := TrimStart(s);
    var r := TrimEnd(t);
    assert r == s[LeadingSlashes(s)..LeadingSlashes(s) + |r|];
    r
  }

  /** `s.Split('/', 2)`: the text before the first slash and the text after
      it; when there is no slash the second part is empty (C# gives null
      there, which every caller treats like an empty string). */
  function SplitFirst(s: string): (r: (string, string))
    ensures '/' !in r.0
    ensures '/' in s ==> s == r.0 + "/" + r.1
    ensures '/' !in s ==> r == (s, "")
  {
    if s == [] then ("", "")
    else if s[0] == '/' then ("", s[1..])
    else
      var (h, t) := SplitFirst(s[1..]);
      assert s == [s[0]] + s[1..];
      ([s[0]] + h, t)
  }

  /** `s.Split('/')`: every slash-separated segment, empty ones included;
      there is always at least one segment. */
  function SplitAll(s: string): (r: seq<string>)
    ensures |r| >= 1
  {
    if s == [] then [""]
    else
      var t := SplitAll(s[1..]);
      if s[0] == '/' then [""] + t else [[s[0]] + t[0]] + t[1..]
  }

  /** `string.Join("/", parts)`. */
  function Join(parts: seq<string>): string
  {
    if |parts| <= 1 then (if parts == [] then "" else parts[0])
    else parts[0] + "/" + Join(parts[1..])
  }

  /** Splitting at the first slash is the first step of splitting at every slash. */
  lemma {:induction false} SplitAllStartsWithSplitFirst(s: string)
    ensures var (h, t) := SplitFirst(s);
            SplitAll(s) == [h] + (if '/' in s then SplitAll(t) else [])
  {
    if s != [] && s[0] != '/' {
      SplitAllStartsWithSplitFirst(s[1..]);
    }
  }

  /** Splitting at every slash and joining again gives back the string. */
  lemma {:induction false} JoinSplitAll(s: string)
    ensures Join(SplitAll(s)) == s
  {
    if s != [] {
      var t := SplitAll(s[1..]);
      JoinSplitAll(s[1..]);
      if s[0] == '/' {
        assert SplitAll(s) == [""] + t;
      } else {
        var r := SplitAll(s);
        assert r == [[s[0]] + t[0]] + t[1..];
        if |t| == 1 {
          assert Join(r) == [s[0]] + t[0];
        } else {
          assert r[1..] == t[1..];
          assert Join(t) == t[0] + "/" + Join(t[1..]);
        }
      }
    }
  }

  /** No segment of a split contains the separator. */
  lemma {:induction false} SplitAllSegmentsHaveNoSlash(s: string)
    ensures forall i :: 0 <= i < |SplitAll(s)| ==> '/' !in SplitAll(s)[i]
  {
    if s != [] {
      SplitAllSegmentsHaveNoSlash(s[1..]);
      var t := SplitAll(s[1..]);
      if s[0] != '/' {
        var r := SplitAll(s);
        forall i | 0 <= i < |r| ensures '/' !in r[i] {
          if i == 0 {
            assert r[0] == [s[0]] + t[0];
          } else {
            assert r[i] == t[i];
          }
        }
      }
    }
  }

  /** Splitting `h + "/" + r` at its first slash gives back `h` and `r`
      when `h` has no slash. */
  lemma {:induction false} SplitFirstOfJoin(h: string, r: string)
    requires '/' !in h
    ensures SplitFirst(h + "/" + r) == (h, r)
  {
    var s := h + "/" + r;
    if h == [] {
      assert s == "/" + r;
    } else {
      assert s[1..] == h[1..] + "/" + r;
      SplitFirstOfJoin(h[1..], r);
      assert [h[0]] + h[1..] == h;
    }
  }

  /** Trimming text that neither starts nor ends with a slash, between
      any runs of slashes, gives back the text. */
  lemma TrimSlashes(p: string, s: string, q: string)
    requires forall k :: 0 <= k < |p| ==> p[k] == '/'
    requires forall k :: 0 <= k < |q| ==> q[k] == '/'
    requires s != [] && s[0] != '/' && s[|s| - 1] != '/'
    ensures Trim(p + s + q) == s
  {
    var x := p + s + q;
    var n := LeadingSlashes(x);
    assert forall k :: 0 <= k < |p| ==> x[k] == '/';
    assert x[|p|] == s[0];
    assert n == |p|;
    var r := Trim(x);
    assert forall k :: |p| + |s| <= k < |x| ==> x[k] == '/';
    assert x[|p| + |s| - 1] == s[|s| - 1];
    assert |r| == |s|;
    assert x[|p|..|p| + |s|] == s;
  }

  /** Trimming "/s" gives `s` when `s` neither starts nor ends with a slash. */
  lemma TrimRooted(s: string)
    requires s != [] && s[0] != '/' && s[|s| - 1] != '/'
    ensures Trim("/" + s) == s
  {
    assert "/" + s == "/" + s + "";
    TrimSlashes("/", s, "");
  }

  /** Trimming "/s/" gives `s` when `s` neither starts nor ends with a slash. */
  lemma TrimRootedDirectory(s: string)
    requires s != [] && s[0] != '/' && s[|s| - 1] != '/'
    ensures Trim("/" + s + "/") == s
  {
    TrimSlashes("/", s, "/");
  }

  /** Trimming twice is trimming once. */
  lemma TrimIdempotent(s: string)
    ensures Trim(Trim(s)) == Trim(s)
  {
    var r := Trim(s);
    if r != [] {
      assert "" + r + "" == r;
      TrimSlashes("", r, "");
    }
  }
}
