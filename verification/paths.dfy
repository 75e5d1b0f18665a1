/**
 * The lexical path operations of Go's path/filepath package on a Unix
 * system, as the inventory code uses them: IsAbs, Clean, Join and Dir.
 *
 * A path is split at every '/' into components. Clean drops empty and "."
 * components and lets ".." remove the component before it; at the root a
 * ".." is dropped, in a relative path one that has nothing left to remove
 * is kept. A clean absolute path is therefore "/" followed by its
 * components joined with '/', none of which is empty, ".", ".." or holds
 * a '/'.
 */
module Paths {

  /** filepath.IsAbs on Unix: the path starts with '/'. */
  predicate IsAbs(p: string) {
    |p| > 0 && p[0] == '/'
  }

  predicate NoSep(cs: seq<string>) {
    forall i :: 0 <= i < |cs| ==> '/' !in cs[i]
  }

  /** A component that names a directory entry: not empty, not "." or "..", without '/'. */
  predicate IsName(c: string) {
    c != "" && c != "." && c != ".." && '/' !in c
  }

  /** strings.Join(cs, "/"). */
  function JoinSep(cs: seq<string>): string {
    if |cs| == 0 then ""
    else if |cs| == 1 then cs[0]
    else cs[0] + "/" + JoinSep(cs[1..])
  }

  /** strings.Split(p, "/"): the components between the separators; joining them again gives `p`. */
  function Split(p: string): (r: seq<string>)
    ensures |r| >= 1
    ensures NoSep(r)
    ensures JoinSep(r) == p
  {
    if p == [] then [""]
    else
      var rest := Split(p[1..]);
      if p[0] == '/' then
        assert JoinSep([""] + rest) == "" + "/" + JoinSep(rest);
        [""] + rest
      else
        var r := [[p[0]] + rest[0]] + rest[1..];
        assert |rest| > 1 ==> JoinSep(rest) == rest[0] + "/" + JoinSep(rest[1..]);
        assert |rest| > 1 ==> JoinSep(r) == r[0] + "/" + JoinSep(rest[1..]);
        assert p == [p[0]] + p[1..];
        r
  }

  /** The absolute path whose components are `cs`. */
  function AbsPath(cs: seq<string>): string {
    "/" + JoinSep(cs)
  }

  /** The components of a cleaned path: names, with ".." only at the front and never below the root. */
  predicate CleanElems(cs: seq<string>, rooted: bool) {
    && (forall i :: 0 <= i < |cs| ==> cs[i] != "" && cs[i] != "." && '/' !in cs[i])
    && (rooted ==> forall i :: 0 <= i < |cs| ==> cs[i] != "..")
    && (forall i, j :: 0 <= i < j < |cs| && cs[j] == ".." ==> cs[i] == "..")
  }

  /** One component of Clean's scan: skip "" and ".", let ".." remove a name, keep a name. */
  function Step(st: seq<string>, c: string, rooted: bool): seq<string> {
    if c == "" || c == "." then st
    else if c == ".." then
      if |st| > 0 && st[|st| - 1] != ".." then st[..|st| - 1]
      else if rooted then st
      else st + [".."]
    else st + [c]
  }

  /** Clean's scan over the components `cs`, starting from the already-cleaned components `st`. */
  function Resolve(st: seq<string>, cs: seq<string>, rooted: bool): seq<string>
    decreases |cs|
  {
    if cs == [] then st else Resolve(Step(st, cs[0], rooted), cs[1..], rooted)
  }

  /** filepath.Clean: the shortest lexically equivalent path; "." for an empty result. */
  function Clean(p: string): (r: string)
    ensures r != ""
  {
    if p == "" then "."
    else
      var rooted := p[0] == '/';
      var out := Resolve([], Split(p), rooted);
      if rooted then AbsPath(out)
      else if JoinSep(out) == "" then "."
      else JoinSep(out)
  }

  /** The paths Clean returns: "/", ".", or clean components behind an optional root. */
  predicate IsClean(p: string) {
    if IsAbs(p) then p == "/" || CleanElems(Split(p)[1..], true)
    else p == "." || (p != "" && CleanElems(Split(p), false))
  }

  /** filepath.Join: the non-empty elements joined with '/' and cleaned; "" when all are empty. */
  function Join(elems: seq<string>): (r: string)
    ensures r == "" <==> forall i :: 0 <= i < |elems| ==> elems[i] == ""
  {
    if elems == [] then ""
    else if elems[0] != "" then Clean(JoinSep(elems))
    else Join(elems[1..])
  }

  /** The position just after the last '/' of `p`, or 0 when there is none. */
  function LastSepEnd(p: string): (k: nat)
    ensures k <= |p|
    ensures k == 0 || p[k - 1] == '/'
    ensures forall i :: k <= i < |p| ==> p[i] != '/'
  {
    if p == "" then 0
    else if p[|p| - 1] == '/' then |p|
    else LastSepEnd(p[..|p| - 1])
  }

  /** filepath.Dir: everything up to the last '/', cleaned. */
  function Dir(p: string): string {
    Clean(p[..LastSepEnd(p)])
  }

  // ---------------------------------------------------------------------
  // Split and JoinSep are inverse to each other.
  // ---------------------------------------------------------------------

  lemma {:induction false} JoinSepAppend(xs: seq<string>, ys: seq<string>)
    requires |xs| >= 1 && |ys| >= 1
    ensures JoinSep(xs + ys) == JoinSep(xs) + "/" + JoinSep(ys)
  {
    if |xs| == 1 {
      assert (xs + ys)[1..] == ys;
    } else {
      assert (xs + ys)[1..] == xs[1..] + ys;
      JoinSepAppend(xs[1..], ys);
    }
  }

  lemma {:induction false} SplitNameFirst(w: string, t: string)
    requires '/' !in w
    ensures Split(w + t) == [w + Split(t)[0]] + Split(t)[1..]
  {
    if w != [] {
      var sp := Split(t);
      assert (w + t)[0] == w[0] && w[0] != '/';
      assert (w + t)[1..] == w[1..] + t;
      SplitNameFirst(w[1..], t);
      var rest := Split(w[1..] + t);
      assert rest[0] == w[1..] + sp[0] && rest[1..] == sp[1..];
      assert [w[0]] + rest[0] == w + sp[0];
    } else {
      var sp := Split(t);
      assert w + t == t && w + sp[0] == sp[0];
      assert [sp[0]] + sp[1..] == sp;
    }
  }

  /** Splitting the components joined with '/' gives the components back. */
  lemma {:induction false} SplitJoinSep(cs: seq<string>)
    requires |cs| >= 1 && NoSep(cs)
    ensures Split(JoinSep(cs)) == cs
  {
    if |cs| == 1 {
      SplitNameFirst(cs[0], "");
      assert cs[0] + "" == cs[0];
    } else {
      var tail := JoinSep(cs[1..]);
      SplitJoinSep(cs[1..]);
      assert ("/" + tail)[1..] == tail;
      assert Split("/" + tail) == [""] + cs[1..];
      assert JoinSep(cs) == cs[0] + ("/" + tail);
      SplitNameFirst(cs[0], "/" + tail);
      assert cs[0] + "" == cs[0];
    }
  }

  /** The components of `a + "/" + b` are those of `a` followed by those of `b`. */
  lemma SplitAppend(a: string, b: string)
    ensures Split(a + "/" + b) == Split(a) + Split(b)
  {
    JoinSepAppend(Split(a), Split(b));
    SplitJoinSep(Split(a) + Split(b));
  }

  lemma JoinSepFirst(cs: seq<string>)
    requires |cs| >= 1 && cs[0] != ""
    ensures JoinSep(cs) != "" && JoinSep(cs)[0] == cs[0][0]
  {
  }

  // ---------------------------------------------------------------------
  // Clean's scan.
  // ---------------------------------------------------------------------

  lemma {:induction false} ResolveAppend(st: seq<string>, xs: seq<string>, ys: seq<string>, rooted: bool)
    ensures Resolve(st, xs + ys, rooted) == Resolve(Resolve(st, xs, rooted), ys, rooted)
    decreases |xs|
  {
    if xs == [] {
      assert xs + ys == ys;
    } else {
      assert (xs + ys)[0] == xs[0] && (xs + ys)[1..] == xs[1..] + ys;
      ResolveAppend(Step(st, xs[0], rooted), xs[1..], ys, rooted);
    }
  }

  lemma StepClean(st: seq<string>, c: string, rooted: bool)
    requires CleanElems(st, rooted) && '/' !in c
    ensures CleanElems(Step(st, c, rooted), rooted)
  {
    if c == ".." && !(|st| > 0 && st[|st| - 1] != "..") && !rooted {
      assert forall i :: 0 <= i < |st| ==> st[i] == "..";
    }
  }

  /** Clean's scan keeps its output clean. */
  lemma {:induction false} ResolveClean(st: seq<string>, cs: seq<string>, rooted: bool)
    requires CleanElems(st, rooted) && NoSep(cs)
    ensures CleanElems(Resolve(st, cs, rooted), rooted)
    decreases |cs|
  {
    if cs != [] {
      StepClean(st, cs[0], rooted);
      ResolveClean(Step(st, cs[0], rooted), cs[1..], rooted);
    }
  }

  /** Clean's scan leaves components that are already clean as they are. */
  lemma {:induction false} ResolveKeepsClean(st: seq<string>, cs: seq<string>, rooted: bool)
    requires CleanElems(st + cs, rooted)
    ensures Resolve(st, cs, rooted) == st + cs
    decreases |cs|
  {
    if cs != [] {
      var c := cs[0];
      assert (st + cs)[|st|] == c;
      if c == ".." {
        assert forall i :: 0 <= i < |st| ==> st[i] == (st + cs)[i];
      }
      assert Step(st, c, rooted) == st + [c];
      assert (st + [c]) + cs[1..] == st + cs;
      ResolveKeepsClean(st + [c], cs[1..], rooted);
    }
  }

  // ---------------------------------------------------------------------
  // Clean returns a clean path, keeps a clean one, and is idempotent.
  // ---------------------------------------------------------------------

  lemma AbsPathSplit(cs: seq<string>)
    requires NoSep(cs)
    ensures cs == [] ==> AbsPath(cs) == "/"
    ensures cs != [] ==> Split(AbsPath(cs)) == [""] + cs
  {
    if cs != [] {
      var j := JoinSep(cs);
      calc {
        Split(AbsPath(cs));
      == { assert AbsPath(cs) == "" + "/" + j; }
        Split("" + "/" + j);
      == { SplitAppend("", j); }
        Split("") + Split(j);
      == { SplitJoinSep(cs); }
        [""] + cs;
      }
    }
  }

  /** Clean's result is clean, and absolute exactly when its argument is. */
  lemma CleanIsClean(p: string)
    ensures IsClean(Clean(p))
    ensures IsAbs(Clean(p)) <==> IsAbs(p)
  {
    if p != "" {
      var rooted := p[0] == '/';
      var out := Resolve([], Split(p), rooted);
      ResolveClean([], Split(p), rooted);
      AbsPathSplit(out);
      if out != [] {
        JoinSepFirst(out);
        SplitJoinSep(out);
        assert ([""] + out)[1..] == out;
      }
    }
  }

  /** Clean leaves a clean path unchanged. */
  lemma CleanKeepsClean(p: string)
    requires IsClean(p)
    ensures Clean(p) == p
  {
    if p == "/" {
      assert AbsPath([]) == "/";
      ResolveAbsPath([]);
    } else if p == "." {
      SplitJoinSep(["."]);
    } else {
      var sp := Split(p);
      if IsAbs(p) {
        ResolveAbsPath(sp[1..]);
        assert sp == [""] + sp[1..];
        assert |sp| >= 2 by { assert JoinSep(sp) == p != ""; }
        assert JoinSep(sp) == "" + "/" + JoinSep(sp[1..]);
        assert p == AbsPath(sp[1..]);
      } else {
        assert [] + sp == sp;
        ResolveKeepsClean([], sp, false);
      }
    }
  }

  lemma CleanIdempotent(p: string)
    ensures Clean(Clean(p)) == Clean(p)
  {
    CleanIsClean(p);
    CleanKeepsClean(Clean(p));
  }

  /** Clean's scan over the components of a clean absolute path gives those components. */
  lemma ResolveAbsPath(cs: seq<string>)
    requires CleanElems(cs, true)
    ensures Resolve([], Split(AbsPath(cs)), true) == cs
  {
    AbsPathSplit(cs);
    if cs == [] {
      assert Split("/") == ["", ""] by { SplitAppend("", ""); }
      assert Resolve([], ["", ""], true) == Resolve([], [""], true) == Resolve([], [], true);
    } else {
      assert ([""] + cs)[1..] == cs;
      assert Resolve([], [""] + cs, true) == Resolve([], cs, true);
      assert [] + cs == cs;
      ResolveKeepsClean([], cs, true);
    }
  }

  /**
   * Appending a relative path `q` to a clean absolute path: Clean continues
   * its scan from the components already there.
   */
  lemma CleanAbsAppend(cs: seq<string>, q: string)
    requires CleanElems(cs, true)
    ensures Clean(AbsPath(cs) + "/" + q) == AbsPath(Resolve(cs, Split(q), true))
  {
    var p := AbsPath(cs);
    SplitAppend(p, q);
    ResolveAppend([], Split(p), Split(q), true);
    ResolveAbsPath(cs);
    assert (p + "/" + q)[0] == '/';
  }

  /** Join of an absolute clean path and a relative path is the clean path's scan continued. */
  lemma JoinAbsRelative(cs: seq<string>, q: string)
    requires CleanElems(cs, true)
    ensures Join([AbsPath(cs), q]) == AbsPath(Resolve(cs, Split(q), true))
  {
    assert JoinSep([AbsPath(cs), q]) == AbsPath(cs) + "/" + q;
    CleanAbsAppend(cs, q);
  }

  /** The directory part of an absolute path is absolute and clean; of a relative one relative and clean. */
  lemma DirIsClean(p: string)
    ensures IsClean(Dir(p))
    ensures IsAbs(Dir(p)) <==> IsAbs(p)
  {
    var k := LastSepEnd(p);
    CleanIsClean(p[..k]);
    if IsAbs(p) {
      assert k >= 1;
      assert p[..k][0] == '/';
    }
  }

  /** Dir of `d + "/" + n` for a name `n` is the cleaned `d`. */
  lemma DirOfChild(d: string, n: string)
    requires '/' !in n
    ensures Dir(d + "/" + n) == Clean(d + "/")
  {
    var p := d + "/" + n;
    var k := LastSepEnd(p);
    assert p[|d|] == '/';
    assert forall i :: |d| + 1 <= i < |p| ==> p[i] == n[i - |d| - 1];
    assert k == |d| + 1;
    assert p[..k] == d + "/";
  }

  /** A trailing '/' does not change a non-empty path once cleaned. */
  lemma CleanTrailingSep(p: string)
    requires p != ""
    ensures Clean(p + "/") == Clean(p)
  {
    assert p + "/" == p + "/" + "";
    SplitAppend(p, "");
    ResolveAppend([], Split(p), [""], p[0] == '/');
    assert (p + "/")[0] == p[0];
  }

  /** Appending a name to an absolute path built from components. */
  lemma AbsPathChild(cs: seq<string>, n: string)
    requires cs != []
    ensures AbsPath(cs + [n]) == AbsPath(cs) + "/" + n
  {
    JoinSepAppend(cs, [n]);
  }

  /** A component list of names is clean at the root. */
  lemma NamesAreClean(cs: seq<string>)
    requires forall i :: 0 <= i < |cs| ==> IsName(cs[i])
    ensures CleanElems(cs, true)
  {
  }

  /** Components of a name followed by a separator and the rest of a path. */
  lemma SplitCons(w: string, rest: string)
    requires '/' !in w
    ensures Split(w + "/" + rest) == [w] + Split(rest)
  {
    SplitAppend(w, rest);
    SplitJoinSep([w]);
  }

  /** The absolute path of clean components is clean, so Clean returns it unchanged. */
  lemma AbsPathIsClean(cs: seq<string>)
    requires CleanElems(cs, true)
    ensures IsClean(AbsPath(cs)) && Clean(AbsPath(cs)) == AbsPath(cs)
  {
    AbsPathSplit(cs);
    if cs != [] {
      assert ([""] + cs)[1..] == cs;
    }
    CleanKeepsClean(AbsPath(cs));
  }

  /** A ".." right after a name cancels that name. */
  lemma CleanParent(cs: seq<string>, n: string, q: string)
    requires CleanElems(cs + [n], true)
    ensures Clean(AbsPath(cs + [n]) + "/" + (".." + "/" + q)) == Clean(AbsPath(cs) + "/" + q)
  {
    assert CleanElems(cs, true) by {
      assert forall i :: 0 <= i < |cs| ==> cs[i] == (cs + [n])[i];
    }
    CleanAbsAppend(cs + [n], ".." + "/" + q);
    CleanAbsAppend(cs, q);
    SplitCons("..", q);
    assert ([".."] + Split(q))[1..] == Split(q);
    assert (cs + [n])[..|cs|] == cs;
  }

  /** An empty component, a doubled '/', is skipped. */
  lemma CleanSkipEmpty(cs: seq<string>, q: string)
    requires CleanElems(cs, true)
    ensures Clean(AbsPath(cs) + "/" + ("/" + q)) == Clean(AbsPath(cs) + "/" + q)
  {
    CleanAbsAppend(cs, "/" + q);
    CleanAbsAppend(cs, q);
    assert "/" + q == "" + "/" + q;
    SplitCons("", q);
    assert ([""] + Split(q))[1..] == Split(q);
  }

  lemma JoinSepThree(a: string, b: string, c: string)
    ensures JoinSep([a, b, c]) == a + "/" + (b + "/" + c)
  {
    assert [a, b, c][1..] == [b, c];
    assert [b, c][1..] == [c];
    assert JoinSep([c]) == c;
    assert JoinSep([b, c]) == b + "/" + c;
    assert JoinSep([a, b, c]) == a + "/" + JoinSep([b, c]);
  }

  lemma AbsPathAppend(cs: seq<string>, ns: seq<string>)
    requires cs != [] && ns != []
    ensures AbsPath(cs + ns) == AbsPath(cs) + "/" + JoinSep(ns)
  {
    JoinSepAppend(cs, ns);
    var a, b := JoinSep(cs), JoinSep(ns);
    assert "/" + (a + "/" + b) == ("/" + a) + "/" + b;
  }

  /** Names appended to a clean absolute path keep it clean, so Clean leaves it unchanged. */
  lemma CleanNames(cs: seq<string>, ns: seq<string>)
    requires CleanElems(cs, true) && cs != [] && ns != []
    requires forall i :: 0 <= i < |ns| ==> IsName(ns[i])
    ensures AbsPath(cs + ns) == AbsPath(cs) + "/" + JoinSep(ns)
    ensures Clean(AbsPath(cs) + "/" + JoinSep(ns)) == AbsPath(cs) + "/" + JoinSep(ns)
  {
    AbsPathAppend(cs, ns);
    forall i | 0 <= i < |cs + ns|
      ensures IsName((cs + ns)[i])
    {
      if i < |cs| {
        assert (cs + ns)[i] == cs[i];
      } else {
        assert (cs + ns)[i] == ns[i - |cs|];
      }
    }
    NamesAreClean(cs + ns);
    AbsPathIsClean(cs + ns);
  }

  lemma JoinSepFour(a: string, b: string, c: string, d: string)
    ensures JoinSep([a, b, c, d]) == a + "/" + (b + "/" + (c + "/" + d))
  {
    assert [a, b, c, d][1..] == [b, c, d];
    JoinSepThree(b, c, d);
    assert JoinSep([a, b, c, d]) == a + "/" + JoinSep([b, c, d]);
  }
}
