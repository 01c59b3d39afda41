/**
 * Hierarchy paths, name suffixes and animation-curve equality
 * (EditorUtils.cs). Paths are `/`-joined node names, read from just below a
 * base node down to a descendant; `""` denotes the base itself.
 */
module EditorUtils {
  import opened Wrappers
  import opened SceneModel
  import opened SeqFacts

  // ---------------------------------------------------------------------
  // Ancestry

  /** `a` is `n` itself or one of its transform ancestors. */
  ghost predicate IsAncestorOrSelf(s: seq<Node>, a: nat, n: nat)
    requires WellFormed(s) && n < |s|
    decreases n
  {
    n == a || (s[n].parent.Some? && IsAncestorOrSelf(s, a, s[n].parent.value))
  }

  /** `GetParent`: the parent game object, or null at a root. */
  function GetParent(s: seq<Node>, n: nat): (r: Option<nat>)
    requires WellFormed(s) && n < |s|
    ensures r.Some? ==> r.value < n && n in s[r.value].children
    ensures r.None? ==> forall i | 0 <= i < |s| :: n !in s[i].children
  {
    if s[n].parent.None? then
      assert forall i, j | 0 <= i < |s| && 0 <= j < |s[i].children| :: s[s[i].children[j]].parent == Some(i);
      None
    else s[n].parent
  }

  /**
   * `c` is a descending chain of nodes starting just below `base`: each
   * element's parent is the element before it (the first one's is `base`).
   */
  ghost predicate DownChain(s: seq<Node>, base: nat, c: seq<nat>) {
    && (forall i | 0 <= i < |c| :: c[i] < |s|)
    && (|c| > 0 ==> s[c[0]].parent == Some(base))
    && (forall i | 0 < i < |c| :: s[c[i]].parent == Some(c[i - 1]))
  }

  /** The nodes from just below `a` down to `n`. */
  ghost function Chain(s: seq<Node>, a: nat, n: nat): (c: seq<nat>)
    requires WellFormed(s) && n < |s| && IsAncestorOrSelf(s, a, n)
    ensures DownChain(s, a, c)
    ensures |c| == 0 <==> n == a
    ensures |c| > 0 ==> c[|c| - 1] == n
    decreases n
  {
    if n == a then []
    else
      var c := Chain(s, a, s[n].parent.value);
      var c' := c + [n];
      assert forall i | 0 < i < |c'| :: s[c'[i]].parent == Some(c'[i - 1]) by {
        forall i | 0 < i < |c'| ensures s[c'[i]].parent == Some(c'[i - 1]) {
          if i < |c| { assert c'[i] == c[i] && c'[i - 1] == c[i - 1]; }
        }
      }
      c'
  }

  /** The names of the nodes of a chain. */
  ghost function Names(s: seq<Node>, c: seq<nat>): (r: seq<string>)
    requires forall i | 0 <= i < |c| :: c[i] < |s|
    ensures |r| == |c|
    ensures forall i | 0 <= i < |c| :: r[i] == s[c[i]].name
  {
    seq(|c|, i requires 0 <= i < |c| => s[c[i]].name)
  }

  // ---------------------------------------------------------------------
  // Path strings

  /** Segments joined by single `/` separators. */
  function JoinPath(xs: seq<string>): string
    decreases |xs|
  {
    if |xs| == 0 then ""
    else if |xs| == 1 then xs[0]
    else JoinPath(xs[..|xs| - 1]) + "/" + xs[|xs| - 1]
  }

  /** `string.LastIndexOf`: the last position holding `c`, or -1. */
  function LastIndexOf(p: string, c: char): (r: int)
    ensures -1 <= r < |p|
    ensures r >= 0 ==> p[r] == c && forall j | r < j < |p| :: p[j] != c
    ensures r < 0 ==> forall j | 0 <= j < |p| :: p[j] != c
    decreases |p|
  {
    if |p| == 0 then -1
    else if p[|p| - 1] == c then |p| - 1
    else LastIndexOf(p[..|p| - 1], c)
  }

  /** The `/`-separated segments of a path (at least one, possibly empty). */
  function SplitPath(p: string): (r: seq<string>)
    ensures |r| > 0
    decreases |p|
  {
    var i := LastIndexOf(p, '/');
    if i < 0 then [p] else SplitPath(p[..i]) + [p[i + 1..]]
  }

  /** `string.TrimEnd(c)`: drop every trailing `c`. */
  function TrimEnd(p: string, c: char): (r: string)
    ensures r <= p
    ensures |r| == 0 || r[|r| - 1] != c
    ensures forall j | |r| <= j < |p| :: p[j] == c
    decreases |p|
  {
    if |p| > 0 && p[|p| - 1] == c then TrimEnd(p[..|p| - 1], c) else p
  }

  // ---------------------------------------------------------------------
  // GetPathForObjectInHierarchy

  /**
   * The upward walk of `GetPathForObjectInHierarchy` from `t`, with `acc` the
   * path built from the nodes already passed. An empty `acc` is replaced by
   * the name rather than joined to it, as in the source.
   */
  function PathFrom(s: seq<Node>, t: nat, base: nat, acc: string): Option<string>
    requires WellFormed(s) && t < |s|
    decreases t
  {
    if t == base then Some(acc)
    else
      var acc' := if acc == "" then s[t].name else s[t].name + "/" + acc;
      match s[t].parent
      case None => None
      case Some(p) => PathFrom(s, p, base, acc')
  }

  /**
   * `GetPathForObjectInHierarchy(childGO, baseGO)`: the path from `base` down
   * to `child`, or null when `child` is null or `base` is not above it.
   */
  function GetPathForObjectInHierarchy(s: seq<Node>, child: Option<nat>, base: nat): (r: Option<string>)
    requires WellFormed(s) && (child.Some? ==> child.value < |s|)
    ensures child == Some(base) ==> r == Some("")
    ensures child.None? ==> r.None?
  {
    match child
    case None => None
    case Some(t) => PathFrom(s, t, base, "")
  }

  lemma {:induction false} PathFromSomeIffAncestor(s: seq<Node>, t: nat, base: nat, acc: string)
    requires WellFormed(s) && t < |s|
    ensures PathFrom(s, t, base, acc).Some? <==> IsAncestorOrSelf(s, base, t)
    decreases t
  {
    if t != base {
      var acc' := if acc == "" then s[t].name else s[t].name + "/" + acc;
      if s[t].parent.Some? {
        PathFromSomeIffAncestor(s, s[t].parent.value, base, acc');
      }
    }
  }

  /** The path exists exactly when the base is an ancestor-or-self of the child. */
  lemma PathDefinedIffAncestor(s: seq<Node>, child: Option<nat>, base: nat)
    requires WellFormed(s) && (child.Some? ==> child.value < |s|)
    ensures GetPathForObjectInHierarchy(s, child, base).Some? <==>
            (child.Some? && IsAncestorOrSelf(s, base, child.value))
  {
    if child.Some? {
      PathFromSomeIffAncestor(s, child.value, base, "");
    }
  }

  /** `a` glued in front of `b` the way the upward walk does it. */
  function Glue(a: string, b: string): string {
    if b == "" then a else a + "/" + b
  }

  lemma GlueStep(a: string, n: string, acc: string)
    requires |n| > 0
    ensures Glue(a, Glue(n, acc)) == Glue(a + "/" + n, acc)
  {
    if acc != "" {
      assert a + "/" + (n + "/" + acc) == (a + "/" + n) + "/" + acc;
    }
  }

  lemma NamesSnoc(s: seq<Node>, c: seq<nat>)
    requires |c| > 0 && forall i | 0 <= i < |c| :: c[i] < |s|
    ensures Names(s, c) == Names(s, c[..|c| - 1]) + [s[c[|c| - 1]].name]
  {
  }

  lemma {:induction false} PathFromChain(s: seq<Node>, base: nat, c: seq<nat>, acc: string)
    requires WellFormed(s) && DownChain(s, base, c) && |c| > 0
    requires forall i | 0 <= i < |c| :: |s[c[i]].name| > 0
    ensures PathFrom(s, c[|c| - 1], base, acc) == Some(Glue(JoinPath(Names(s, c)), acc))
    decreases |c|
  {
    var t := c[|c| - 1];
    var n := s[t].name;
    var acc' := Glue(n, acc);
    DownChainIncreasing(s, base, c);
    if |c| == 1 {
      assert s[t].parent == Some(base);
      assert Names(s, c) == [n];
    } else {
      var init := c[..|c| - 1];
      assert DownChain(s, base, init);
      assert s[t].parent == Some(c[|c| - 2]);
      assert init[|init| - 1] == c[|c| - 2];
      assert PathFrom(s, t, base, acc) == PathFrom(s, c[|c| - 2], base, acc');
      PathFromChain(s, base, init, acc');
      NamesSnoc(s, c);
      var xs := Names(s, c);
      assert xs[..|xs| - 1] == Names(s, init);
      GlueStep(JoinPath(Names(s, init)), n, acc);
    }
  }

  /** A chain descends through ever larger indices, all above `base`. */
  lemma {:induction false} DownChainIncreasing(s: seq<Node>, base: nat, c: seq<nat>)
    requires WellFormed(s) && DownChain(s, base, c)
    ensures forall i | 0 <= i < |c| :: base < c[i]
    ensures forall i, j | 0 <= i < j < |c| :: c[i] < c[j]
    decreases |c|
  {
    if |c| > 0 {
      var init := c[..|c| - 1];
      assert DownChain(s, base, init);
      DownChainIncreasing(s, base, init);
      var t := c[|c| - 1];
      var q := if |c| == 1 then base else c[|c| - 2];
      assert s[t].parent == Some(q);
      assert q < t;
      assert forall i | 0 <= i < |init| :: c[i] == init[i];
    }
  }

  /**
   * With non-empty names, the path of a node below `base` is the names of the
   * nodes from just below `base` down to it, joined top-down by single `/`.
   */
  lemma PathIsJoinedNames(s: seq<Node>, n: nat, base: nat)
    requires WellFormed(s) && NamesNonEmpty(s) && n < |s| && IsAncestorOrSelf(s, base, n)
    ensures GetPathForObjectInHierarchy(s, Some(n), base) == Some(JoinPath(Names(s, Chain(s, base, n))))
  {
    var c := Chain(s, base, n);
    if |c| > 0 {
      PathFromChain(s, base, c, "");
    }
  }

  /** A path built from non-empty names has no leading or trailing `/`. */
  lemma {:induction false} JoinPathEnds(xs: seq<string>)
    requires |xs| > 0 && forall i | 0 <= i < |xs| :: |xs[i]| > 0
    ensures |JoinPath(xs)| > 0
    ensures JoinPath(xs)[0] == xs[0][0]
    ensures JoinPath(xs)[|JoinPath(xs)| - 1] == xs[|xs| - 1][|xs[|xs| - 1]| - 1]
    decreases |xs|
  {
    if |xs| > 1 {
      JoinPathEnds(xs[..|xs| - 1]);
    }
  }

  /**
   * The canonical form of a path: empty for the base itself, otherwise with
   * neither a leading nor a trailing `/` (names are non-empty and slash-free).
   */
  lemma PathIsCanonical(s: seq<Node>, n: nat, base: nat)
    requires WellFormed(s) && NamesNonEmpty(s) && NamesSlashFree(s) && n < |s| && IsAncestorOrSelf(s, base, n)
    ensures var p := GetPathForObjectInHierarchy(s, Some(n), base);
      && p.Some?
      && (p.value == "" <==> n == base)
      && (p.value != "" ==> p.value[0] != '/' && p.value[|p.value| - 1] != '/')
  {
    PathIsJoinedNames(s, n, base);
    var c := Chain(s, base, n);
    if |c| > 0 {
      var xs := Names(s, c);
      JoinPathEnds(xs);
      assert xs[0][0] != '/';
      assert xs[|xs| - 1][|xs[|xs| - 1]| - 1] != '/';
    }
  }

  // ---------------------------------------------------------------------
  // GetChildByPath

  /** The first of `cs` whose node is called `name` (`Transform.Find` for one segment). */
  function FindNamed(s: seq<Node>, cs: seq<nat>, name: string): (r: Option<nat>)
    requires forall j | 0 <= j < |cs| :: cs[j] < |s|
    ensures r.None? <==> forall j | 0 <= j < |cs| :: s[cs[j]].name != name
    ensures r.Some? ==> exists j :: (0 <= j < |cs| && cs[j] == r.value && s[r.value].name == name
      && forall k | 0 <= k < j :: s[cs[k]].name != name)
    decreases |cs|
  {
    if |cs| == 0 then None
    else if s[cs[0]].name == name then Some(cs[0])
    else
      var r := FindNamed(s, cs[1..], name);
      if r.Some? then
        var j :| 0 <= j < |cs[1..]| && cs[1..][j] == r.value && s[r.value].name == name
          && forall k | 0 <= k < j :: s[cs[1..][k]].name != name;
        assert cs[j + 1] == r.value;
        r
      else r
  }

  /** Follows `segs` downward from `t`, one first-matching child per segment. */
  function ResolveSegments(s: seq<Node>, t: nat, segs: seq<string>): (r: Option<nat>)
    requires WellFormed(s) && t < |s|
    ensures r.Some? ==> r.value < |s|
    decreases |segs|
  {
    if |segs| == 0 then Some(t)
    else
      match FindNamed(s, s[t].children, segs[0])
      case None => None
      case Some(c) => ResolveSegments(s, c, segs[1..])
  }

  /**
   * `GetChildByPath`: null for a null path, the node itself for `""`, and
   * otherwise `Transform.Find(path)`, modelled as following each `/`-separated
   * segment to the first child with that name.
   */
  function GetChildByPath(s: seq<Node>, root: nat, path: Option<string>): (r: Option<nat>)
    requires WellFormed(s) && root < |s|
    ensures path.None? ==> r.None?
    ensures path == Some("") ==> r == Some(root)
    ensures r.Some? ==> r.value < |s|
  {
    match path
    case None => None
    case Some(p) => if |p| > 0 then ResolveSegments(s, root, SplitPath(p)) else Some(root)
  }

  lemma {:induction false} JoinSplit(p: string)
    ensures JoinPath(SplitPath(p)) == p
    decreases |p|
  {
    var i := LastIndexOf(p, '/');
    if i >= 0 {
      var init := SplitPath(p[..i]);
      JoinSplit(p[..i]);
      var xs := init + [p[i + 1..]];
      assert xs[..|xs| - 1] == init;
      assert p == p[..i] + "/" + p[i + 1..];
    }
  }

  lemma {:induction false} SplitJoin(xs: seq<string>)
    requires |xs| > 0 && forall i, k | 0 <= i < |xs| && 0 <= k < |xs[i]| :: xs[i][k] != '/'
    ensures SplitPath(JoinPath(xs)) == xs
    decreases |xs|
  {
    if |xs| > 1 {
      var init := xs[..|xs| - 1];
      var x := xs[|xs| - 1];
      assert forall k | 0 <= k < |x| :: x[k] != '/';
      SplitSnoc(JoinPath(init), x);
      SplitJoin(init);
    }
  }

  /** Splitting `a/x` for a slash-free last segment `x` splits `a` and appends `x`. */
  lemma SplitSnoc(a: string, x: string)
    requires forall k | 0 <= k < |x| :: x[k] != '/'
    ensures SplitPath(a + "/" + x) == SplitPath(a) + [x]
  {
    var p := a + "/" + x;
    assert LastIndexOf(p, '/') == |a| by {
      assert p[|a|] == '/';
      forall j | |a| < j < |p| ensures p[j] != '/' {
        assert p[j] == x[j - |a| - 1];
      }
      LastIndexOfUnique(p, '/', |a|);
    }
    assert p[..|a|] == a;
    assert p[|a| + 1..] == x;
  }

  lemma LastIndexOfUnique(p: string, c: char, i: nat)
    requires i < |p| && p[i] == c && forall j | i < j < |p| :: p[j] != c
    ensures LastIndexOf(p, c) == i
  {
  }

  /** The nodes reached by a successful resolution form a chain whose names are the segments. */
  lemma {:induction false} ResolvedChain(s: seq<Node>, t: nat, segs: seq<string>) returns (c: seq<nat>)
    requires WellFormed(s) && t < |s| && ResolveSegments(s, t, segs).Some?
    ensures DownChain(s, t, c) && |c| == |segs| && Names(s, c) == segs
    ensures ResolveSegments(s, t, segs).value == if |c| == 0 then t else c[|c| - 1]
    decreases |segs|
  {
    if |segs| == 0 {
      c := [];
    } else {
      var cs := s[t].children;
      var m := FindNamed(s, cs, segs[0]).value;
      var j :| 0 <= j < |cs| && cs[j] == m && s[m].name == segs[0];
      assert s[m].parent == Some(t);
      assert ResolveSegments(s, t, segs) == ResolveSegments(s, m, segs[1..]);
      var rest := ResolvedChain(s, m, segs[1..]);
      c := [m] + rest;
      DownChainCons(s, t, m, rest);
      NamesCons(s, m, rest);
      ConsSplit(segs);
      if |rest| > 0 {
        ConsLast(m, rest);
      }
    }
  }

  /** A chain below `m` extended by `m` on top is a chain below `m`'s parent. */
  lemma DownChainCons(s: seq<Node>, t: nat, m: nat, rest: seq<nat>)
    requires m < |s| && s[m].parent == Some(t) && DownChain(s, m, rest)
    ensures DownChain(s, t, [m] + rest)
  {
    var c := [m] + rest;
    forall i | 1 < i < |c| ensures s[c[i]].parent == Some(c[i - 1]) {
      assert c[i] == rest[i - 1] && c[i - 1] == rest[i - 2];
    }
  }

  lemma NamesCons(s: seq<Node>, m: nat, rest: seq<nat>)
    requires m < |s| && forall i | 0 <= i < |rest| :: rest[i] < |s|
    ensures Names(s, [m] + rest) == [s[m].name] + Names(s, rest)
  {
    assert forall i | 0 < i < |rest| + 1 :: ([m] + rest)[i] == rest[i - 1];
  }

  /**
   * Whatever `GetChildByPath` finds, the path from `root` back down to it is
   * the path that was resolved (names non-empty).
   */
  lemma ResolvedPathRoundTrip(s: seq<Node>, root: nat, p: string)
    requires WellFormed(s) && NamesNonEmpty(s) && root < |s|
    requires GetChildByPath(s, root, Some(p)).Some?
    ensures GetPathForObjectInHierarchy(s, GetChildByPath(s, root, Some(p)), root) == Some(p)
  {
    if |p| > 0 {
      var segs := SplitPath(p);
      var c := ResolvedChain(s, root, segs);
      PathFromChain(s, root, c, "");
      JoinSplit(p);
    }
  }

  /** With unique sibling names, a child is the first (and only) child with its name. */
  lemma FindNamedUnique(s: seq<Node>, t: nat, m: nat)
    requires WellFormed(s) && UniqueSiblingNames(s) && t < |s| && m < |s| && s[m].parent == Some(t)
    ensures FindNamed(s, s[t].children, s[m].name) == Some(m)
  {
    var cs := s[t].children;
    assert m in cs;
    var jm :| 0 <= jm < |cs| && cs[jm] == m;
    var f := FindNamed(s, cs, s[m].name);
    assert s[cs[jm]].name == s[m].name;
    assert f.Some?;
    var j :| 0 <= j < |cs| && cs[j] == f.value && s[f.value].name == s[m].name
      && forall k | 0 <= k < j :: s[cs[k]].name != s[m].name;
    SameNamedSiblingsCoincide(s, t, j, jm);
  }

  lemma SameNamedSiblingsCoincide(s: seq<Node>, t: nat, j: nat, k: nat)
    requires WellFormed(s) && UniqueSiblingNames(s) && t < |s| && j < |s[t].children| && k < |s[t].children|
    requires s[s[t].children[j]].name == s[s[t].children[k]].name
    ensures j == k
  {
  }

  /** With unique sibling names, following a chain's names leads exactly down the chain. */
  lemma {:induction false} ResolveFollowsChain(s: seq<Node>, t: nat, c: seq<nat>)
    requires WellFormed(s) && UniqueSiblingNames(s) && t < |s| && DownChain(s, t, c)
    ensures ResolveSegments(s, t, Names(s, c)) == Some(if |c| == 0 then t else c[|c| - 1])
    decreases |c|
  {
    if |c| > 0 {
      var m := c[0];
      FindNamedUnique(s, t, m);
      var rest := c[1..];
      assert DownChain(s, m, rest) by {
        forall i | 0 < i < |rest| ensures s[rest[i]].parent == Some(rest[i - 1]) {
          assert rest[i] == c[i + 1] && rest[i - 1] == c[i];
        }
      }
      var xs := Names(s, c);
      assert xs[0] == s[m].name;
      assert xs[1..] == Names(s, rest);
      assert ResolveSegments(s, t, xs) == ResolveSegments(s, m, xs[1..]);
      ResolveFollowsChain(s, m, rest);
    }
  }

  /**
   * Round trip: the path from `base` to `n` is defined, resolving it from
   * `base` gives a node whose path back is the same string (when it
   * resolves), and with unique sibling names it resolves to `n` itself.
   */
  lemma PathRoundTrip(s: seq<Node>, n: nat, base: nat)
    requires WellFormed(s) && NamesNonEmpty(s) && NamesSlashFree(s)
    requires n < |s| && base < |s| && IsAncestorOrSelf(s, base, n)
    ensures var p := GetPathForObjectInHierarchy(s, Some(n), base);
      && p.Some?
      && (GetChildByPath(s, base, p).Some? ==> GetPathForObjectInHierarchy(s, GetChildByPath(s, base, p), base) == p)
      && (UniqueSiblingNames(s) ==> GetChildByPath(s, base, p) == Some(n))
  {
    PathIsJoinedNames(s, n, base);
    var p := GetPathForObjectInHierarchy(s, Some(n), base);
    if GetChildByPath(s, base, p).Some? {
      ResolvedPathRoundTrip(s, base, p.value);
    }
    var c := Chain(s, base, n);
    if UniqueSiblingNames(s) && |c| > 0 {
      var xs := Names(s, c);
      JoinPathEnds(xs);
      SplitJoin(xs);
      ResolveFollowsChain(s, base, c);
    }
  }

  /** Resolution with a repeated sibling name can fail although the path exists. */
  lemma GreedyFindCanMissPath()
    ensures var s := [ Node("R", None, [1, 2], []), Node("x", Some(0), [], []),
                       Node("x", Some(0), [3], []), Node("y", Some(2), [], []) ];
      && WellFormed(s)
      && GetPathForObjectInHierarchy(s, Some(3), 0) == Some("x/y")
      && GetChildByPath(s, 0, Some("x/y")).None?
  {
    var s := [ Node("R", None, [1, 2], []), Node("x", Some(0), [], []),
               Node("x", Some(0), [3], []), Node("y", Some(2), [], []) ];
    assert WellFormed(s);
    assert PathFrom(s, 2, 0, "y") == Some("x/y") by {
      assert "x" + "/" + "y" == "x/y";
    }
    SplitTwoSegments();
    assert FindNamed(s, [1, 2], "x") == Some(1);
    assert ResolveSegments(s, 0, ["x", "y"]) == ResolveSegments(s, 1, ["y"]);
  }

  lemma SplitTwoSegments()
    ensures SplitPath("x/y") == ["x", "y"]
  {
    assert LastIndexOf("x/y", '/') == 1;
    assert "x/y"[..1] == "x";
    assert "x/y"[2..] == "y";
    assert LastIndexOf("x", '/') == -1;
  }

  // ---------------------------------------------------------------------
  // GetParentPath

  /**
   * `GetParentPath`: trailing `/` are ignored, and the result is the part
   * before the last `/` when that `/` is not at position 0, else `""`.
   */
  function GetParentPath(path: string): (r: string)
    ensures r <= path
    ensures r != "" ==> (|r| < |path| && path[|r|] == '/' &&
      forall j | |r| < j < |TrimEnd(path, '/')| :: path[j] != '/')
    ensures r == "" <==> LastIndexOf(TrimEnd(path, '/'), '/') <= 0
    ensures r != "" ==> |r| == LastIndexOf(TrimEnd(path, '/'), '/')
  {
    var t := TrimEnd(path, '/');
    var i := LastIndexOf(t, '/');
    if i > 0 then t[..i] else ""
  }

  lemma GetParentPathExamples()
    ensures GetParentPath("a/b/c") == "a/b"
    ensures GetParentPath("a") == ""
    ensures GetParentPath("/a") == ""
    ensures GetParentPath("a/b//") == "a"
  {
    assert TrimEnd("a/b/c", '/') == "a/b/c";
    assert LastIndexOf("a/b/c", '/') == 3;
    assert "a/b/c"[..3] == "a/b";
    assert TrimEnd("a", '/') == "a";
    assert TrimEnd("/a", '/') == "/a";
    assert LastIndexOf("/a", '/') == 0;
    assert TrimEnd("a/b//", '/') == "a/b" by {
      assert "a/b//"[..4] == "a/b/";
      assert "a/b/"[..3] == "a/b";
    }
    assert LastIndexOf("a/b", '/') == 1;
    assert "a/b"[..1] == "a";
  }

  /**
   * The parent path of a node's path is its parent's path, when names are
   * non-empty and slash-free and `n` lies strictly below `base`.
   */
  lemma ParentPathOfChild(s: seq<Node>, n: nat, base: nat)
    requires WellFormed(s) && NamesNonEmpty(s) && NamesSlashFree(s)
    requires n < |s| && n != base && IsAncestorOrSelf(s, base, n)
    ensures s[n].parent.Some? && IsAncestorOrSelf(s, base, s[n].parent.value)
    ensures GetPathForObjectInHierarchy(s, Some(n), base).Some?
    ensures GetPathForObjectInHierarchy(s, s[n].parent, base).Some?
    ensures GetParentPath(GetPathForObjectInHierarchy(s, Some(n), base).value)
            == GetPathForObjectInHierarchy(s, s[n].parent, base).value
  {
    var q := s[n].parent.value;
    PathIsJoinedNames(s, n, base);
    PathIsJoinedNames(s, q, base);
    var c := Chain(s, base, n);
    var ci := Chain(s, base, q);
    assert c == ci + [n];
    var xs := Names(s, c);
    assert xs[..|xs| - 1] == Names(s, ci);
    ParentPathOfJoin(xs);
  }

  /** The parent path of joined segments drops the last one (segments non-empty and slash-free). */
  lemma ParentPathOfJoin(xs: seq<string>)
    requires |xs| > 0 && forall i | 0 <= i < |xs| :: |xs[i]| > 0
    requires forall i, k | 0 <= i < |xs| && 0 <= k < |xs[i]| :: xs[i][k] != '/'
    ensures GetParentPath(JoinPath(xs)) == JoinPath(xs[..|xs| - 1])
  {
    var x := xs[|xs| - 1];
    if |xs| == 1 {
      assert TrimEnd(x, '/') == x by { assert x[|x| - 1] != '/'; }
      assert LastIndexOf(x, '/') == -1;
    } else {
      var init := xs[..|xs| - 1];
      var a := JoinPath(init);
      JoinPathEnds(init);
      var p := a + "/" + x;
      assert JoinPath(xs) == p;
      assert TrimEnd(p, '/') == p by { assert p[|p| - 1] == x[|x| - 1]; }
      assert p[|a|] == '/';
      forall j | |a| < j < |p| ensures p[j] != '/' {
        assert p[j] == x[j - |a| - 1];
      }
      LastIndexOfUnique(p, '/', |a|);
      assert p[..|a|] == a;
    }
  }

  /** The path of a child named `name` of the object at path `parent`. */
  function ChildPath(parent: string, name: string): string {
    if parent == "" then name else parent + "/" + name
  }

  /** Continuing the upward walk at `q` with a child's name in hand gives that child's path. */
  lemma PathFromStep(s: seq<Node>, q: nat, base: nat, name: string)
    requires WellFormed(s) && NamesNonEmpty(s) && q < |s| && IsAncestorOrSelf(s, base, q) && |name| > 0
    ensures GetPathForObjectInHierarchy(s, Some(q), base).Some?
    ensures PathFrom(s, q, base, name) == Some(ChildPath(GetPathForObjectInHierarchy(s, Some(q), base).value, name))
  {
    PathIsJoinedNames(s, q, base);
    if q != base {
      var c := Chain(s, base, q);
      PathFromChain(s, base, c, name);
      JoinPathEnds(Names(s, c));
    }
  }

  /**
   * Gluing a node's name back onto the parent path of its path rebuilds the
   * path (names non-empty and slash-free, node strictly below `base`).
   */
  lemma ChildOfParentPath(s: seq<Node>, n: nat, base: nat)
    requires WellFormed(s) && NamesNonEmpty(s) && NamesSlashFree(s)
    requires n < |s| && n != base && IsAncestorOrSelf(s, base, n)
    ensures GetPathForObjectInHierarchy(s, Some(n), base).Some?
    ensures ChildPath(GetParentPath(GetPathForObjectInHierarchy(s, Some(n), base).value), s[n].name)
            == GetPathForObjectInHierarchy(s, Some(n), base).value
  {
    ParentPathOfChild(s, n, base);
    PathFromStep(s, s[n].parent.value, base, s[n].name);
  }

  /**
   * The upward walk from `t` reads only the names and parents of nodes up to
   * `t`: a hierarchy that keeps those gives the same path.
   */
  lemma {:induction false} PathFromFrame(s: seq<Node>, s': seq<Node>, t: nat, base: nat, acc: string)
    requires WellFormed(s) && WellFormed(s') && t < |s| <= |s'|
    requires forall i | 0 <= i < |s| :: s'[i].name == s[i].name && s'[i].parent == s[i].parent
    ensures PathFrom(s', t, base, acc) == PathFrom(s, t, base, acc)
    decreases t
  {
    if t != base && s[t].parent.Some? {
      var acc' := if acc == "" then s[t].name else s[t].name + "/" + acc;
      PathFromFrame(s, s', s[t].parent.value, base, acc');
    }
  }

  // ---------------------------------------------------------------------
  // Name suffixes

  predicate EndsWith(str: string, postfix: string) {
    |postfix| <= |str| && str[|str| - |postfix|..] == postfix
  }

  /**
   * `TryRemovePostfix(ref str, postfix)`: on a match the suffix is removed
   * once and the call answers true; otherwise the string is unchanged.
   */
  function TryRemovePostfix(str: string, postfix: string): (r: (bool, string))
    ensures r.0 <==> EndsWith(str, postfix)
    ensures r.0 ==> r.1 + postfix == str
    ensures !r.0 ==> r.1 == str
  {
    if !EndsWith(str, postfix) then (false, str)
    else (true, str[..|str| - |postfix|])
  }

  const ClonePostfix: string := "(Clone)"

  /** `WithoutClonePostfix`: strips one trailing `(Clone)`. */
  function WithoutClonePostfix(name: string): (r: string)
    ensures EndsWith(name, ClonePostfix) ==> r + ClonePostfix == name
    ensures !EndsWith(name, ClonePostfix) ==> r == name
  {
    TryRemovePostfix(name, ClonePostfix).1
  }

  lemma StripsOnlyOneClone()
    ensures WithoutClonePostfix("X(Clone)(Clone)") == "X(Clone)"
    ensures WithoutClonePostfix("X") == "X"
  {
    assert EndsWith("X(Clone)(Clone)", ClonePostfix);
    assert "X(Clone)(Clone)"[..8] == "X(Clone)";
    assert !EndsWith("X", ClonePostfix);
  }

  // ---------------------------------------------------------------------
  // Animation curves

  /** `Enumerable.SequenceEqual` under the element equality `eq`. */
  function SequenceEqual<T>(a: seq<T>, b: seq<T>, eq: (T, T) -> bool): (r: bool)
    ensures r <==> |a| == |b| && forall i | 0 <= i < |a| :: eq(a[i], b[i])
    decreases |a|
  {
    if |a| != |b| then false
    else if |a| == 0 then true
    else eq(a[0], b[0]) && SequenceEqual(a[1..], b[1..], eq)
  }

  /**
   * `IsAnimationCurvesEqual`: equal wrap modes and keyframe sequences that are
   * equal element by element under `keyEq` (Unity's `Keyframe.Equals`).
   */
  function IsAnimationCurvesEqual(c1: AnimationCurve, c2: AnimationCurve, keyEq: (Keyframe, Keyframe) -> bool): (r: bool)
    ensures r <==> (c1.preWrapMode == c2.preWrapMode && c1.postWrapMode == c2.postWrapMode
      && |c1.keys| == |c2.keys| && forall i | 0 <= i < |c1.keys| :: keyEq(c1.keys[i], c2.keys[i]))
  {
    if c1.postWrapMode != c2.postWrapMode then false
    else if c1.preWrapMode != c2.preWrapMode then false
    else if |c1.keys| != |c2.keys| then false
    else SequenceEqual(c1.keys, c2.keys, keyEq)
  }

  ghost predicate ReflexiveEq<T(!new)>(eq: (T, T) -> bool) {
    forall x :: eq(x, x)
  }

  ghost predicate SymmetricEq<T(!new)>(eq: (T, T) -> bool) {
    forall x, y :: eq(x, y) <==> eq(y, x)
  }

  lemma CurveEqualityReflexive(c: AnimationCurve, keyEq: (Keyframe, Keyframe) -> bool)
    requires ReflexiveEq(keyEq)
    ensures IsAnimationCurvesEqual(c, c, keyEq)
  {
  }

  lemma CurveEqualitySymmetric(c1: AnimationCurve, c2: AnimationCurve, keyEq: (Keyframe, Keyframe) -> bool)
    requires SymmetricEq(keyEq)
    ensures IsAnimationCurvesEqual(c1, c2, keyEq) == IsAnimationCurvesEqual(c2, c1, keyEq)
  {
  }

  // ---------------------------------------------------------------------
  // Lower-casing

  predicate IsUpper(c: char) { 'A' <= c <= 'Z' }

  /** `string.ToLower`, on ASCII letters only. */
  function ToLower(str: string): (r: string)
    ensures |r| == |str|
    ensures forall i | 0 <= i < |r| :: !IsUpper(r[i])
    ensures forall i | 0 <= i < |str| && !IsUpper(str[i]) :: r[i] == str[i]
    ensures forall i | 0 <= i < |str| && IsUpper(str[i]) :: 'a' <= r[i] <= 'z' && r[i] as int - str[i] as int == 'a' as int - 'A' as int
  {
    seq(|str|, i requires 0 <= i < |str| => if IsUpper(str[i]) then (str[i] as int + 32) as char else str[i])
  }

  /** Two characters are the same letter in either case, or simply equal. */
  predicate CaseVariants(x: char, y: char) {
    || x == y
    || (IsUpper(x) && y as int == x as int + ('a' as int - 'A' as int))
    || (IsUpper(y) && x as int == y as int + ('a' as int - 'A' as int))
  }

  /** Equal up to the case of ASCII letters, character by character. */
  predicate EqualIgnoringCase(a: string, b: string) {
    |a| == |b| && forall i | 0 <= i < |a| :: CaseVariants(a[i], b[i])
  }

  /** Lower-casing both sides compares strings up to ASCII letter case, in both directions. */
  lemma ToLowerEqualIffIgnoringCase(a: string, b: string)
    ensures ToLower(a) == ToLower(b) <==> EqualIgnoringCase(a, b)
  {
  }

  /** Lower-casing is idempotent: a lower-cased string has nothing left to lower. */
  lemma ToLowerIdempotent(str: string)
    ensures ToLower(ToLower(str)) == ToLower(str)
  {
  }
}
