/** The dependency ordering of pkgconfig.py: a depth-bounded recursion used as a sort key. */
module PkgConfig {
  /** Every package given on the command line, with what its `requires` reports. */
  type Packages = map<string, seq<string>>

  const MAX_DEPTH: nat := 10

  /** `calculate_pkg_priority`; nothing is counted below depth ten, so it ends on every graph. */
  function Priority(g: Packages, pkg: string, depth: nat): (n: nat)
    requires pkg in g && depth <= MAX_DEPTH + 1
    ensures n >= 1 <==> depth <= MAX_DEPTH
    decreases MAX_DEPTH + 1 - depth, 1, 0
  {
    if depth > MAX_DEPTH then 0 else 1 + Total(g, g[pkg], depth)
  }

  function Total(g: Packages, reqs: seq<string>, depth: nat): (n: nat)
    requires depth <= MAX_DEPTH
    decreases MAX_DEPTH + 1 - depth, 0, |reqs|
  {
    if reqs == [] then 0 else
    var req := reqs[|reqs| - 1];
    Total(g, reqs[..|reqs| - 1], depth) + if req in g then Priority(g, req, depth + 1) else 0
  }

  method CalculatePkgPriority(pkg: string, g: Packages, depth: nat) returns (prio: nat)
    requires pkg in g && depth <= MAX_DEPTH + 1
    ensures prio == Priority(g, pkg, depth)
    decreases MAX_DEPTH + 1 - depth
  {
    if depth > MAX_DEPTH { return 0; }
    var reqs := g[pkg];
    prio := 1;
    for i := 0 to |reqs|
      invariant prio == 1 + Total(g, reqs[..i], depth)
    {
      assert reqs[..i + 1][..i] == reqs[..i];
      if reqs[i] in g {
        var p := CalculatePkgPriority(reqs[i], g, depth + 1);
        prio := prio + p;
      }
    }
    assert reqs[..|reqs|] == reqs;
  }

  // ---------------------------------------------------------------- dependency chains

  predicate Requires(g: Packages, p: string, q: string) { p in g && q in g && q in g[p] }

  /** Packages each requiring the next. */
  predicate Chain(g: Packages, path: seq<string>) {
    && path != [] && path[0] in g
    && forall i :: 0 <= i < |path| - 1 ==> Requires(g, path[i], path[i + 1])
  }

  ghost predicate ChainsWithin(g: Packages, p: string, h: nat) {
    forall path :: Chain(g, path) && path[0] == p ==> |path| <= h
  }

  lemma ChainsShrink(g: Packages, p: string, q: string, h: nat)
    requires ChainsWithin(g, p, h) && Requires(g, p, q)
    ensures h >= 2 && ChainsWithin(g, q, h - 1)
  {
    assert Chain(g, [p, q]);
    forall path | Chain(g, path) && path[0] == q ensures |path| <= h - 1 {
      var longer := [p] + path;
      assert Chain(g, longer);
    }
  }

  /** Where every chain ends before the depth bound, the starting depth does not matter. */
  lemma {:induction false} DepthIrrelevant(g: Packages, p: string, h: nat, c: nat, d: nat)
    requires p in g && ChainsWithin(g, p, h) && h + c <= MAX_DEPTH + 1 && h + d <= MAX_DEPTH + 1
    ensures Priority(g, p, c) == Priority(g, p, d)
    decreases h, 1, 0
  {
    assert Chain(g, [p]);
    TotalsAgree(g, p, g[p], h, c, d);
  }

  lemma {:induction false} TotalsAgree(g: Packages, p: string, reqs: seq<string>, h: nat, c: nat, d: nat)
    requires p in g && ChainsWithin(g, p, h) && 1 <= h && h + c <= MAX_DEPTH + 1 && h + d <= MAX_DEPTH + 1
    requires forall i :: 0 <= i < |reqs| ==> reqs[i] in g[p]
    ensures Total(g, reqs, c) == Total(g, reqs, d)
    decreases h, 0, |reqs|
  {
    if reqs != [] {
      var q := reqs[|reqs| - 1];
      TotalsAgree(g, p, reqs[..|reqs| - 1], h, c, d);
      if q in g {
        ChainsShrink(g, p, q, h);
        DepthIrrelevant(g, q, h - 1, c + 1, d + 1);
      }
    }
  }

  lemma {:induction false} TotalCounts(g: Packages, reqs: seq<string>, depth: nat, i: nat)
    requires depth <= MAX_DEPTH && i < |reqs| && reqs[i] in g
    ensures Total(g, reqs, depth) >= Priority(g, reqs[i], depth + 1)
  {
    if i < |reqs| - 1 { TotalCounts(g, reqs[..|reqs| - 1], depth, i); }
  }

  /** A package from which no chain of more than ten packages starts outranks everything it requires. */
  lemma {:induction false} RequirerOutranks(g: Packages, p: string, q: string)
    requires ChainsWithin(g, p, 10) && Requires(g, p, q)
    ensures Priority(g, p, 1) > Priority(g, q, 1)
  {
    ChainsShrink(g, p, q, MAX_DEPTH);
    DepthIrrelevant(g, q, MAX_DEPTH - 1, 1, 2);
    var i :| 0 <= i < |g[p]| && g[p][i] == q;
    TotalCounts(g, g[p], 1, i);
  }

  /** What `sorted(..., key=priority, reverse=True)` may return. */
  ghost predicate SortedDescending(g: Packages, names: seq<string>, out: seq<string>) {
    && multiset(out) == multiset(names)
    && (forall i :: 0 <= i < |out| ==> out[i] in g)
    && forall i, j :: 0 <= i < j < |out| ==> Priority(g, out[i], 1) >= Priority(g, out[j], 1)
  }

  /** The sort puts such a package before those it requires, whatever chains there are elsewhere. */
  lemma {:induction false} RequirersFirst(g: Packages, names: seq<string>, out: seq<string>, i: nat, j: nat)
    requires SortedDescending(g, names, out)
    requires i < |out| && j < |out| && Requires(g, out[i], out[j]) && ChainsWithin(g, out[i], 10)
    ensures i < j
  {
    RequirerOutranks(g, out[i], out[j]);
  }

  // ---------------------------------------------------------------- what a priority counts

  /** The number of chains of exactly k packages that start at p. */
  function Chains(g: Packages, p: string, k: nat): (n: nat)
    requires p in g
    decreases k, 1, 0
  {
    if k == 0 then 0 else if k == 1 then 1 else ChainsOfAny(g, g[p], k - 1)
  }

  function ChainsOfAny(g: Packages, ps: seq<string>, k: nat): (n: nat)
    decreases k, 2, |ps|
  {
    if ps == [] then 0 else
    var p := ps[|ps| - 1];
    ChainsOfAny(g, ps[..|ps| - 1], k) + if p in g then Chains(g, p, k) else 0
  }

  lemma {:induction false} ChainOfAny(g: Packages, ps: seq<string>, k: nat) returns (i: nat)
    requires ChainsOfAny(g, ps, k) > 0
    ensures i < |ps| && ps[i] in g && Chains(g, ps[i], k) > 0
  {
    i := |ps| - 1;
    if !(ps[i] in g && Chains(g, ps[i], k) > 0) { i := ChainOfAny(g, ps[..i], k); }
  }

  lemma {:induction false} ChainsOfAnyAt(g: Packages, ps: seq<string>, k: nat, i: nat)
    requires i < |ps| && ps[i] in g
    ensures ChainsOfAny(g, ps, k) >= Chains(g, ps[i], k)
  {
    if i < |ps| - 1 { ChainsOfAnyAt(g, ps[..|ps| - 1], k, i); }
  }

  ghost predicate ChainFrom(g: Packages, p: string, k: nat) {
    exists path :: Chain(g, path) && |path| == k >= 1 && path[0] == p
  }

  lemma ChainLonger(g: Packages, p: string, path: seq<string>)
    requires Chain(g, path) && Requires(g, p, path[0])
    ensures Chain(g, [p] + path)
  {
  }

  lemma ChainShorter(g: Packages, path: seq<string>)
    requires Chain(g, path) && |path| >= 2
    ensures Chain(g, path[1..]) && Requires(g, path[0], path[1])
  {
    var rest := path[1..];
    assert Requires(g, path[0], path[0 + 1]);
    forall i | 0 <= i < |rest| - 1 ensures Requires(g, rest[i], rest[i + 1]) {
      var j := i + 1;
      assert Requires(g, path[j], path[j + 1]);
    }
  }

  /** The count is of the chains that there are. */
  lemma {:induction false} ChainsCounted(g: Packages, p: string, k: nat)
    requires p in g && k >= 1
    ensures Chains(g, p, k) > 0 <==> ChainFrom(g, p, k)
    decreases k
  {
    hide Chain, Requires;
    if k == 1 {
      assert Chain(g, [p]) by { SingleChain(g, p); }
    } else {
      if Chains(g, p, k) > 0 {
        var i := ChainOfAny(g, g[p], k - 1);
        ChainsCounted(g, g[p][i], k - 1);
        var path :| Chain(g, path) && |path| == k - 1 >= 1 && path[0] == g[p][i];
        RequiresAt(g, p, i);
        ChainLonger(g, p, path);
      }
      if ChainFrom(g, p, k) {
        var path :| Chain(g, path) && |path| == k >= 1 && path[0] == p;
        ChainShorter(g, path);
        var i := RequirementAt(g, p, path[1]);
        ChainsCounted(g, path[1], k - 1);
        ChainsOfAnyAt(g, g[p], k - 1, i);
      }
    }
  }

  lemma SingleChain(g: Packages, p: string)
    requires p in g
    ensures Chain(g, [p])
  {
  }

  lemma RequiresAt(g: Packages, p: string, i: nat)
    requires p in g && i < |g[p]| && g[p][i] in g
    ensures Requires(g, p, g[p][i])
  {
  }

  lemma RequirementAt(g: Packages, p: string, q: string) returns (i: nat)
    requires Requires(g, p, q)
    ensures p in g && q in g && i < |g[p]| && g[p][i] == q
  {
    i :| i < |g[p]| && g[p][i] == q;
  }

  /** The number of chains of at most h packages that start at p. */
  function ChainsUpTo(g: Packages, p: string, h: nat): (n: nat)
    requires p in g
  {
    if h == 0 then 0 else ChainsUpTo(g, p, h - 1) + Chains(g, p, h)
  }

  function AllChainsUpTo(g: Packages, ps: seq<string>, h: nat): (n: nat) {
    if ps == [] then 0 else
    var p := ps[|ps| - 1];
    AllChainsUpTo(g, ps[..|ps| - 1], h) + if p in g then ChainsUpTo(g, p, h) else 0
  }

  lemma {:induction false} AllChainsStep(g: Packages, ps: seq<string>, h: nat)
    ensures AllChainsUpTo(g, ps, 0) == 0
    ensures AllChainsUpTo(g, ps, h + 1) == AllChainsUpTo(g, ps, h) + ChainsOfAny(g, ps, h + 1)
  {
    if ps != [] { AllChainsStep(g, ps[..|ps| - 1], h); }
  }

  /** A chain is its first package, or that package and a shorter chain behind it. */
  lemma {:induction false} ChainsFromFirst(g: Packages, p: string, h: nat)
    requires p in g
    ensures ChainsUpTo(g, p, h + 1) == 1 + AllChainsUpTo(g, g[p], h)
  {
    if h == 0 {
      AllChainsStep(g, g[p], 0);
      assert ChainsUpTo(g, p, 0) == 0;
    } else {
      ChainsFromFirst(g, p, h - 1);
      AllChainsStep(g, g[p], h - 1);
    }
  }

  /** The priority of a package is the number of dependency chains of at most ten packages that start at it. */
  lemma {:induction false} PriorityCountsChains(g: Packages, p: string, depth: nat)
    requires p in g && depth <= 11
    ensures Priority(g, p, depth) == ChainsUpTo(g, p, 11 - depth)
    decreases MAX_DEPTH + 1 - depth, 1, 0
  {
    if depth <= MAX_DEPTH {
      TotalCountsChains(g, g[p], depth);
      ChainsFromFirst(g, p, MAX_DEPTH - depth);
    }
  }

  lemma {:induction false} TotalCountsChains(g: Packages, reqs: seq<string>, depth: nat)
    requires depth <= MAX_DEPTH
    ensures Total(g, reqs, depth) == AllChainsUpTo(g, reqs, MAX_DEPTH - depth)
    decreases MAX_DEPTH + 1 - depth, 0, |reqs|
  {
    if reqs != [] {
      TotalCountsChains(g, reqs[..|reqs| - 1], depth);
      if reqs[|reqs| - 1] in g { PriorityCountsChains(g, reqs[|reqs| - 1], depth + 1); }
    }
  }

  lemma {:induction false} AllChainsWithout(g: Packages, ps: seq<string>, i: nat, h: nat)
    requires i < |ps| && ps[i] in g
    ensures AllChainsUpTo(g, ps, h) == AllChainsUpTo(g, ps[..i] + ps[i + 1..], h) + ChainsUpTo(g, ps[i], h)
  {
    var front, others := ps[..|ps| - 1], ps[..i] + ps[i + 1..];
    if i == |ps| - 1 {
      assert others == front;
    } else {
      assert others[..|others| - 1] == front[..i] + front[i + 1..];
      AllChainsWithout(g, front, i, h);
    }
  }

  /**
    * A package outranks its i-th requirement exactly if that requirement does not start more chains of full length
    * than the other requirements start chains of less than that.
    */
  lemma {:induction false} RequirerOutranksIff(g: Packages, p: string, i: nat)
    requires p in g && i < |g[p]| && g[p][i] in g
    ensures Priority(g, p, 1) > Priority(g, g[p][i], 1) <==>
      Chains(g, g[p][i], 10) <= AllChainsUpTo(g, g[p][..i] + g[p][i + 1..], 9)
  {
    hide Priority, Chains, AllChainsUpTo;
    var q := g[p][i];
    PriorityCountsChains(g, p, 1);
    PriorityCountsChains(g, q, 1);
    ChainsFromFirst(g, p, MAX_DEPTH - 1);
    AllChainsWithout(g, g[p], i, MAX_DEPTH - 1);
  }

  // ---------------------------------------------------------------- the bound is tight

  /** The packages of `path` require one another in a line and nothing else. */
  predicate Line(g: Packages, path: seq<string>) {
    && (forall i :: 0 <= i < |path| ==> path[i] in g)
    && (forall i :: 0 <= i < |path| - 1 ==> g[path[i]] == [path[i + 1]])
    && (path != [] ==> g[path[|path| - 1]] == [])
  }

  lemma {:induction false} LinePriority(g: Packages, path: seq<string>, i: nat, depth: nat)
    requires Line(g, path) && i < |path| && depth <= MAX_DEPTH + 1
    ensures Priority(g, path[i], depth) ==
      if |path| - i <= MAX_DEPTH + 1 - depth then |path| - i else MAX_DEPTH + 1 - depth
    decreases |path| - i
  {
    if depth <= MAX_DEPTH {
      var reqs := g[path[i]];
      assert Priority(g, path[i], depth) == 1 + Total(g, reqs, depth);
      if i + 1 < |path| {
        LinePriority(g, path, i + 1, depth + 1);
        assert reqs == [path[i + 1]];
        TotalOfOne(g, path[i + 1], depth);
      } else {
        assert reqs == [];
        assert Total(g, reqs, depth) == 0;
      }
    }
  }

  lemma TotalOfOne(g: Packages, req: string, depth: nat)
    requires depth <= MAX_DEPTH && req in g
    ensures Total(g, [req], depth) == Priority(g, req, depth + 1)
  {
  }

  /** In a line every package outranks the next one exactly if the line has at most ten packages. */
  lemma {:induction false} LineRankedIffShort(g: Packages, path: seq<string>)
    requires Line(g, path)
    ensures (forall i :: 0 <= i < |path| - 1 ==> Priority(g, path[i], 1) > Priority(g, path[i + 1], 1))
      <==> |path| <= 10
  {
    forall i | 0 <= i < |path|
      ensures Priority(g, path[i], 1) == if |path| - i <= MAX_DEPTH then |path| - i else MAX_DEPTH
    {
      LinePriority(g, path, i, 1);
    }
    if |path| > MAX_DEPTH {
      assert Priority(g, path[0], 1) == Priority(g, path[0 + 1], 1);
    }
  }
}
