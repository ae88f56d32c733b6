/**
 * The sequential logic of the main index handler: grouping the installed
 * packages by repository root, deciding which repositories have an update to
 * present, counting them and writing the "no updates" marker.
 *
 * The root path of a package (util.GetRootPath) and its status line after the
 * VCS fields are refreshed (UpdateVcsFields, then status.PlumbingPresenterV2)
 * are computed outside this code and are parameters here.
 */
module PackageStore {
  import opened GoPackages

  // ---------------------------------------------------------------------------
  // The presentation predicate
  // ---------------------------------------------------------------------------

  /**
   * shouldPresentUpdate: a package is presented as an available update exactly
   * when its status line starts with two blanks and a '+' (clean working tree,
   * default branch, remote revision not present locally). The column after
   * those three, the stash marker, is ignored.
   */
  function ShouldPresentUpdate(statusLine: StatusLine): (present: bool)
    ensures present <==> statusLine[0] == ' ' && statusLine[1] == ' ' && statusLine[2] == '+'
  {
    statusLine[..3] == "  +"
  }

  /**
   * Only the first three columns decide; the stash column and the import path
   * do not. A corollary of ShouldPresentUpdate's ensures.
   */
  lemma ShouldPresentUpdateIgnoresTail(a: StatusLine, b: StatusLine)
    requires a[..3] == b[..3]
    ensures ShouldPresentUpdate(a) == ShouldPresentUpdate(b)
  {
  }

  // ---------------------------------------------------------------------------
  // Grouping packages by repository root
  // ---------------------------------------------------------------------------

  /** The packages of `ps` whose root path is `root`, in the order of `ps`. */
  function Members(ps: seq<GoPackage>, rootPathOf: GoPackage -> string, root: string): seq<GoPackage>
  {
    if ps == [] then []
    else
      var last := ps[|ps| - 1];
      Members(ps[..|ps| - 1], rootPathOf, root) + if rootPathOf(last) == root then [last] else []
  }

  /** Every package stored under a root has that root path and comes from the input list. */
  lemma {:induction false} MembersHaveRoot(ps: seq<GoPackage>, rootPathOf: GoPackage -> string, root: string)
    ensures forall p :: p in Members(ps, rootPathOf, root) ==> p in ps && rootPathOf(p) == root
  {
    if ps != [] {
      var init := ps[..|ps| - 1];
      MembersHaveRoot(init, rootPathOf, root);
      assert ps == init + [ps[|ps| - 1]];
    }
  }

  /** The indices in `ps` of the packages whose root path is `root`. */
  function Positions(ps: seq<GoPackage>, rootPathOf: GoPackage -> string, root: string): seq<nat>
  {
    if ps == [] then []
    else
      Positions(ps[..|ps| - 1], rootPathOf, root) + if rootPathOf(ps[|ps| - 1]) == root then [|ps| - 1] else []
  }

  /** The root paths of the packages in `ps` that lie in a recognised repository. */
  function Roots(ps: seq<GoPackage>, rootPathOf: GoPackage -> string): set<string>
  {
    set p | p in ps && rootPathOf(p) != "" :: rootPathOf(p)
  }

  /** How many packages of `ps` lie in a recognised repository. */
  function CountRooted(ps: seq<GoPackage>, rootPathOf: GoPackage -> string): nat
  {
    if ps == [] then 0
    else CountRooted(ps[..|ps| - 1], rootPathOf) + if rootPathOf(ps[|ps| - 1]) != "" then 1 else 0
  }

  ghost function PickKey(keys: set<string>): (k: string)
    requires keys != {}
    ensures k in keys
  {
    var k :| k in keys; k
  }

  /** The number of packages held by all groups of a grouping together. */
  ghost function TotalSize(groups: map<string, seq<GoPackage>>): nat
    decreases groups.Keys
  {
    if groups.Keys == {} then 0
    else
      var k := PickKey(groups.Keys);
      |groups[k]| + TotalSize(groups - {k})
  }

  lemma {:induction false} TotalSizeRemove(groups: map<string, seq<GoPackage>>, x: string)
    requires x in groups
    ensures TotalSize(groups) == |groups[x]| + TotalSize(groups - {x})
    decreases groups.Keys
  {
    var k := PickKey(groups.Keys);
    if k != x {
      var rest := groups - {k};
      TotalSizeRemove(rest, x);
      TotalSizeRemove(groups - {x}, k);
      assert rest - {x} == (groups - {x}) - {k};
    }
  }

  /** Replacing one group changes the total by the difference in that group's size. */
  lemma TotalSizeUpdate(groups: map<string, seq<GoPackage>>, k: string, v: seq<GoPackage>)
    ensures TotalSize(groups[k := v]) + (if k in groups then |groups[k]| else 0) == TotalSize(groups) + |v|
  {
    var updated := groups[k := v];
    TotalSizeRemove(updated, k);
    assert updated - {k} == groups - {k};
    if k in groups {
      TotalSizeRemove(groups, k);
    } else {
      assert groups - {k} == groups;
    }
  }

  lemma {:induction false} MembersEmptyOutsideRoots(ps: seq<GoPackage>, rootPathOf: GoPackage -> string, root: string)
    requires root != "" && root !in Roots(ps, rootPathOf)
    ensures Members(ps, rootPathOf, root) == []
  {
    if ps != [] {
      var init := ps[..|ps| - 1];
      assert Roots(init, rootPathOf) <= Roots(ps, rootPathOf) by {
        forall p | p in init ensures p in ps { }
      }
      MembersEmptyOutsideRoots(init, rootPathOf, root);
      assert ps[|ps| - 1] in ps;
    }
  }

  /** A root that some package has is the key of a non-empty group. */
  lemma {:induction false} MembersNonEmpty(ps: seq<GoPackage>, rootPathOf: GoPackage -> string, root: string)
    requires root in Roots(ps, rootPathOf)
    ensures Members(ps, rootPathOf, root) != []
  {
    var last := ps[|ps| - 1];
    var init := ps[..|ps| - 1];
    if rootPathOf(last) != root {
      var p :| p in ps && rootPathOf(p) != "" && rootPathOf(p) == root;
      assert p in init by {
        assert ps == init + [last];
      }
      MembersNonEmpty(init, rootPathOf, root);
    }
  }

  /**
   * Within a group the packages keep their relative order from the input
   * list: group member j is the package at the j-th of the ascending indices
   * whose root path is `root`, and every such index is used.
   */
  lemma {:induction false} MembersKeepInputOrder(ps: seq<GoPackage>, rootPathOf: GoPackage -> string, root: string)
    ensures var pos := Positions(ps, rootPathOf, root);
      && |pos| == |Members(ps, rootPathOf, root)|
      && (forall j :: 0 <= j < |pos| ==> pos[j] < |ps| && Members(ps, rootPathOf, root)[j] == ps[pos[j]])
      && (forall j, j' :: 0 <= j < j' < |pos| ==> pos[j] < pos[j'])
      && (forall i :: 0 <= i < |ps| ==> (i in pos <==> rootPathOf(ps[i]) == root))
  {
    if ps != [] {
      var init := ps[..|ps| - 1];
      MembersKeepInputOrder(init, rootPathOf, root);
      var pos := Positions(ps, rootPathOf, root);
      var pos0 := Positions(init, rootPathOf, root);
      forall i | 0 <= i < |ps| ensures i in pos <==> rootPathOf(ps[i]) == root {
        if i < |ps| - 1 {
          assert ps[i] == init[i];
          assert (|ps| - 1) != i;
        }
      }
    }
  }

  lemma RootsStep(ps: seq<GoPackage>, rootPathOf: GoPackage -> string, i: nat)
    requires i < |ps|
    ensures Roots(ps[..i + 1], rootPathOf)
         == Roots(ps[..i], rootPathOf) + if rootPathOf(ps[i]) != "" then {rootPathOf(ps[i])} else {}
  {
  }

  /** The state of the grouping loop after it has handled the first `i` packages. */
  ghost predicate GroupedUpTo(groups: map<string, seq<GoPackage>>, ps: seq<GoPackage>, rootPathOf: GoPackage -> string, i: nat)
    requires i <= |ps|
  {
    && groups.Keys == Roots(ps[..i], rootPathOf)
    && (forall root :: root in groups ==> groups[root] == Members(ps[..i], rootPathOf, root))
    && TotalSize(groups) == CountRooted(ps[..i], rootPathOf)
  }

  lemma MembersStep(ps: seq<GoPackage>, rootPathOf: GoPackage -> string, i: nat, root: string)
    requires i < |ps|
    ensures Members(ps[..i + 1], rootPathOf, root)
         == Members(ps[..i], rootPathOf, root) + if rootPathOf(ps[i]) == root then [ps[i]] else []
  {
    assert ps[..i + 1][..i] == ps[..i];
  }

  lemma CountRootedStep(ps: seq<GoPackage>, rootPathOf: GoPackage -> string, i: nat)
    requires i < |ps|
    ensures CountRooted(ps[..i + 1], rootPathOf) == CountRooted(ps[..i], rootPathOf) + if rootPathOf(ps[i]) != "" then 1 else 0
  {
    assert ps[..i + 1][..i] == ps[..i];
  }

  /** One iteration of the grouping loop, as main.go writes it: append to the group of the root path. */
  function AddToGroup(groups: map<string, seq<GoPackage>>, rootPath: string, p: GoPackage): map<string, seq<GoPackage>>
  {
    groups[rootPath := (if rootPath in groups then groups[rootPath] else []) + [p]]
  }

  /** One iteration of the grouping loop keeps its invariant. */
  lemma GroupStep(groups: map<string, seq<GoPackage>>, ps: seq<GoPackage>, rootPathOf: GoPackage -> string, i: nat)
    requires i < |ps| && GroupedUpTo(groups, ps, rootPathOf, i)
    ensures rootPathOf(ps[i]) == "" ==> GroupedUpTo(groups, ps, rootPathOf, i + 1)
    ensures rootPathOf(ps[i]) != "" ==> GroupedUpTo(AddToGroup(groups, rootPathOf(ps[i]), ps[i]), ps, rootPathOf, i + 1)
  {
    if rootPathOf(ps[i]) == "" {
      GroupStepSkip(groups, ps, rootPathOf, i);
    } else {
      GroupStepAdd(groups, ps, rootPathOf, i);
    }
  }

  lemma GroupStepSkip(groups: map<string, seq<GoPackage>>, ps: seq<GoPackage>, rootPathOf: GoPackage -> string, i: nat)
    requires i < |ps| && GroupedUpTo(groups, ps, rootPathOf, i) && rootPathOf(ps[i]) == ""
    ensures GroupedUpTo(groups, ps, rootPathOf, i + 1)
  {
    RootsStep(ps, rootPathOf, i);
    CountRootedStep(ps, rootPathOf, i);
    forall root | root in groups ensures groups[root] == Members(ps[..i + 1], rootPathOf, root) {
      MembersStep(ps, rootPathOf, i, root);
    }
  }

  lemma GroupStepAdd(groups: map<string, seq<GoPackage>>, ps: seq<GoPackage>, rootPathOf: GoPackage -> string, i: nat)
    requires i < |ps| && GroupedUpTo(groups, ps, rootPathOf, i) && rootPathOf(ps[i]) != ""
    ensures GroupedUpTo(AddToGroup(groups, rootPathOf(ps[i]), ps[i]), ps, rootPathOf, i + 1)
  {
    var next := AddToGroup(groups, rootPathOf(ps[i]), ps[i]);
    assert next.Keys == Roots(ps[..i + 1], rootPathOf) by {
      RootsStep(ps, rootPathOf, i);
    }
    GroupStepAddSize(groups, ps, rootPathOf, i);
    GroupStepAddMembers(groups, ps, rootPathOf, i);
  }

  lemma GroupStepAddSize(groups: map<string, seq<GoPackage>>, ps: seq<GoPackage>, rootPathOf: GoPackage -> string, i: nat)
    requires i < |ps| && TotalSize(groups) == CountRooted(ps[..i], rootPathOf) && rootPathOf(ps[i]) != ""
    ensures TotalSize(AddToGroup(groups, rootPathOf(ps[i]), ps[i])) == CountRooted(ps[..i + 1], rootPathOf)
  {
    var p, rootPath := ps[i], rootPathOf(ps[i]);
    var group := if rootPath in groups then groups[rootPath] else [];
    CountRootedStep(ps, rootPathOf, i);
    TotalSizeUpdate(groups, rootPath, group + [p]);
  }

  lemma GroupStepAddMembers(groups: map<string, seq<GoPackage>>, ps: seq<GoPackage>, rootPathOf: GoPackage -> string, i: nat)
    requires i < |ps| && rootPathOf(ps[i]) != ""
    requires groups.Keys == Roots(ps[..i], rootPathOf)
    requires forall root :: root in groups ==> groups[root] == Members(ps[..i], rootPathOf, root)
    ensures var next := AddToGroup(groups, rootPathOf(ps[i]), ps[i]);
      forall root :: root in next ==> next[root] == Members(ps[..i + 1], rootPathOf, root)
  {
    var p, rootPath := ps[i], rootPathOf(ps[i]);
    var next := AddToGroup(groups, rootPath, p);
    if rootPath !in groups {
      MembersEmptyOutsideRoots(ps[..i], rootPathOf, rootPath);
    }
    forall root | root in next ensures next[root] == Members(ps[..i + 1], rootPathOf, root) {
      MembersStep(ps, rootPathOf, i, root);
    }
  }

  /**
   * The grouping loop of the index handler: every package whose root path is
   * not "" is appended to the group of its root path.
   */
  method GroupByRootPath(goPackages: seq<GoPackage>, rootPathOf: GoPackage -> string)
    returns (goPackagesInRepo: map<string, seq<GoPackage>>)
    ensures goPackagesInRepo.Keys == Roots(goPackages, rootPathOf)
    ensures "" !in goPackagesInRepo
    ensures forall root :: root in goPackagesInRepo ==> goPackagesInRepo[root] == Members(goPackages, rootPathOf, root)
    ensures forall root :: root in goPackagesInRepo ==> goPackagesInRepo[root] != []
    ensures forall root, p :: root in goPackagesInRepo && p in goPackagesInRepo[root] ==> rootPathOf(p) == root
    ensures TotalSize(goPackagesInRepo) == CountRooted(goPackages, rootPathOf)
  {
    goPackagesInRepo := map[];
    for i := 0 to |goPackages|
      invariant GroupedUpTo(goPackagesInRepo, goPackages, rootPathOf, i)
    {
      GroupStep(goPackagesInRepo, goPackages, rootPathOf, i);
      var goPackage := goPackages[i];
      var rootPath := rootPathOf(goPackage);
      if rootPath != "" {
        goPackagesInRepo := AddToGroup(goPackagesInRepo, rootPath, goPackage);
      }
    }
    assert goPackages[..|goPackages|] == goPackages;
    forall root | root in goPackagesInRepo
      ensures goPackagesInRepo[root] != []
      ensures forall p :: p in goPackagesInRepo[root] ==> rootPathOf(p) == root
    {
      MembersNonEmpty(goPackages, rootPathOf, root);
      MembersHaveRoot(goPackages, rootPathOf, root);
    }
  }

  // ---------------------------------------------------------------------------
  // Filtering, counting and the "no updates" marker
  // ---------------------------------------------------------------------------

  /**
   * A repository has an update to present when its first package's status
   * says so. (The handler only sees repositories with at least one package.)
   */
  predicate HasUpdate(repo: GoPackageRepo, statusOf: GoPackage -> StatusLine)
  {
    repo.goPackages != [] && ShouldPresentUpdate(statusOf(repo.goPackages[0]))
  }

  /** The repositories of `repos` that have an update to present, in the order of `repos`. */
  function Presentable(repos: seq<GoPackageRepo>, statusOf: GoPackage -> StatusLine): (shown: seq<GoPackageRepo>)
  {
    if repos == [] then []
    else
      var last := repos[|repos| - 1];
      Presentable(repos[..|repos| - 1], statusOf) + if HasUpdate(last, statusOf) then [last] else []
  }

  lemma {:induction false} PresentableAppend(a: seq<GoPackageRepo>, b: seq<GoPackageRepo>, statusOf: GoPackage -> StatusLine)
    ensures Presentable(a + b, statusOf) == Presentable(a, statusOf) + Presentable(b, statusOf)
    decreases |b|
  {
    if b == [] {
      assert a + b == a;
    } else {
      var init := b[..|b| - 1];
      assert (a + b)[..|a + b| - 1] == a + init;
      PresentableAppend(a, init, statusOf);
    }
  }

  /** Nothing is presented exactly when no repository has an update. */
  lemma {:induction false} PresentableEmptyIff(repos: seq<GoPackageRepo>, statusOf: GoPackage -> StatusLine)
    ensures Presentable(repos, statusOf) == [] <==> forall r :: r in repos ==> !HasUpdate(r, statusOf)
  {
    if repos != [] {
      var init := repos[..|repos| - 1];
      assert repos == init + [repos[|repos| - 1]];
      PresentableEmptyIff(init, statusOf);
    }
  }

  /** Exactly the repositories of `repos` that have an update are presented. */
  lemma {:induction false} PresentableMembers(repos: seq<GoPackageRepo>, statusOf: GoPackage -> StatusLine)
    ensures forall r :: r in Presentable(repos, statusOf) <==> r in repos && HasUpdate(r, statusOf)
  {
    if repos != [] {
      var init := repos[..|repos| - 1];
      assert repos == init + [repos[|repos| - 1]];
      PresentableMembers(init, statusOf);
    }
  }

  lemma RemoveMatching(a: seq<GoPackageRepo>, b: seq<GoPackageRepo>, j: nat)
    requires multiset(a) == multiset(b) && a != [] && j < |b| && b[j] == a[0]
    ensures multiset(a[1..]) == multiset(b[..j] + b[j + 1..])
  {
    var x := a[0];
    assert a == [x] + a[1..];
    assert b == b[..j] + [x] + b[j + 1..];
    assert multiset(a[1..]) == multiset(a) - multiset{x};
    assert multiset(b[..j] + b[j + 1..]) == multiset(b[..j]) + multiset(b[j + 1..]);
    assert multiset(b[..j] + b[j + 1..]) == multiset(b) - multiset{x};
  }

  /** What is presented around one repository is what is presented before it, from it and after it. */
  lemma PresentableAround(before: seq<GoPackageRepo>, x: GoPackageRepo, after: seq<GoPackageRepo>, statusOf: GoPackage -> StatusLine)
    ensures multiset(Presentable(before + [x] + after, statusOf))
         == multiset(Presentable(before, statusOf)) + multiset(Presentable([x], statusOf)) + multiset(Presentable(after, statusOf))
  {
    PresentableAppend(before + [x], after, statusOf);
    PresentableAppend(before, [x], statusOf);
  }

  /**
   * The repositories presented do not depend on the order in which the
   * grouping map is iterated: two orderings of the same repositories present
   * the same repositories, each as often.
   */
  lemma {:induction false} PresentableOrderIndependent(a: seq<GoPackageRepo>, b: seq<GoPackageRepo>, statusOf: GoPackage -> StatusLine)
    requires multiset(a) == multiset(b)
    ensures multiset(Presentable(a, statusOf)) == multiset(Presentable(b, statusOf))
  {
    if a == [] {
      assert |b| == |multiset(b)| == |multiset(a)| == 0;
    } else {
      var x := a[0];
      assert x in multiset(b) by {
        assert x in multiset(a);
      }
      var j :| 0 <= j < |b| && b[j] == x;
      var rest := b[..j] + b[j + 1..];
      assert a == [x] + a[1..];
      assert b == b[..j] + [x] + b[j + 1..];
      PresentableAppend([x], a[1..], statusOf);
      PresentableAround(b[..j], x, b[j + 1..], statusOf);
      assert multiset(Presentable(a[1..], statusOf))
          == multiset(Presentable(b[..j], statusOf)) + multiset(Presentable(b[j + 1..], statusOf)) by {
        RemoveMatching(a, b, j);
        PresentableOrderIndependent(a[1..], rest, statusOf);
        PresentableAppend(b[..j], b[j + 1..], statusOf);
      }
    }
  }

  /** So updatesAvailable does not depend on the map's iteration order either. */
  lemma PresentedCountOrderIndependent(a: seq<GoPackageRepo>, b: seq<GoPackageRepo>, statusOf: GoPackage -> StatusLine)
    requires multiset(a) == multiset(b)
    ensures |Presentable(a, statusOf)| == |Presentable(b, statusOf)|
  {
    PresentableOrderIndependent(a, b, statusOf);
    assert |multiset(Presentable(a, statusOf))| == |Presentable(a, statusOf)|;
    assert |multiset(Presentable(b, statusOf))| == |Presentable(b, statusOf)|;
  }

  /**
   * The emit pass: every repository whose first package should be presented
   * is written out and counted in updatesAvailable; the "no updates" marker
   * is written exactly when that count is zero.
   */
  method EmitUpdates(repos: seq<GoPackageRepo>, statusOf: GoPackage -> StatusLine)
    returns (written: seq<GoPackageRepo>, updatesAvailable: nat, noUpdates: bool)
    requires forall r :: r in repos ==> r.goPackages != []
    ensures written == Presentable(repos, statusOf)
    ensures updatesAvailable == |written|
    ensures noUpdates <==> updatesAvailable == 0
    ensures noUpdates <==> forall r :: r in repos ==> !HasUpdate(r, statusOf)
  {
    written := [];
    updatesAvailable := 0;
    for i := 0 to |repos|
      invariant written == Presentable(repos[..i], statusOf)
      invariant updatesAvailable == |written|
    {
      var repo := repos[i];
      assert repos[..i + 1][..i] == repos[..i];
      var goPackage := repo.goPackages[0];
      if ShouldPresentUpdate(statusOf(goPackage)) {
        updatesAvailable := updatesAvailable + 1;
        written := written + [repo];
      }
    }
    assert repos[..|repos|] == repos;
    PresentableEmptyIff(repos, statusOf);
    noUpdates := updatesAvailable == 0;
  }

  // ---------------------------------------------------------------------------
  // The handler end to end
  // ---------------------------------------------------------------------------

  /** The first package of the group of `root`: the one whose status stands for the repository. */
  ghost function Representative(ps: seq<GoPackage>, rootPathOf: GoPackage -> string, root: string): GoPackage
    requires root in Roots(ps, rootPathOf)
  {
    MembersNonEmpty(ps, rootPathOf, root);
    Members(ps, rootPathOf, root)[0]
  }

  /** The repository roots whose representative package should be presented. */
  ghost function UpdatedRoots(ps: seq<GoPackage>, rootPathOf: GoPackage -> string, statusOf: GoPackage -> StatusLine): set<string>
  {
    set root | root in Roots(ps, rootPathOf) && ShouldPresentUpdate(statusOf(Representative(ps, rootPathOf, root)))
  }

  /** The root paths of the repositories in `repos` that have an update to present. */
  ghost function ShownRoots(repos: seq<GoPackageRepo>, statusOf: GoPackage -> StatusLine): set<string>
  {
    set r | r in repos && HasUpdate(r, statusOf) :: r.rootPath
  }

  lemma ShownRootsStep(repos: seq<GoPackageRepo>, statusOf: GoPackage -> StatusLine)
    requires repos != []
    ensures var last := repos[|repos| - 1];
      && repos == repos[..|repos| - 1] + [last]
      && ShownRoots(repos, statusOf)
         == ShownRoots(repos[..|repos| - 1], statusOf) + if HasUpdate(last, statusOf) then {last.rootPath} else {}
  {
  }

  /** No two repositories of `repos` have the same root path. */
  predicate DistinctRoots(repos: seq<GoPackageRepo>)
  {
    forall i, j :: 0 <= i < j < |repos| ==> repos[i].rootPath != repos[j].rootPath
  }

  /** With distinct root paths, the last repository's root is not among the roots shown before it. */
  lemma LastRootIsNew(repos: seq<GoPackageRepo>, statusOf: GoPackage -> StatusLine)
    requires repos != [] && DistinctRoots(repos)
    ensures repos[|repos| - 1].rootPath !in ShownRoots(repos[..|repos| - 1], statusOf)
  {
  }

  /** When the root paths are distinct, each presented repository stands for a distinct root. */
  lemma {:induction false} DistinctRootsCount(repos: seq<GoPackageRepo>, statusOf: GoPackage -> StatusLine)
    requires DistinctRoots(repos)
    ensures |Presentable(repos, statusOf)| == |ShownRoots(repos, statusOf)|
  {
    if repos != [] {
      var init := repos[..|repos| - 1];
      var last := repos[|repos| - 1];
      DistinctRootsCount(init, statusOf);
      LastRootIsNew(repos, statusOf);
      ShownRootsStep(repos, statusOf);
      var shownInit := ShownRoots(init, statusOf);
      if HasUpdate(last, statusOf) {
        assert Presentable(repos, statusOf) == Presentable(init, statusOf) + [last];
        assert ShownRoots(repos, statusOf) == shownInit + {last.rootPath};
        assert |shownInit + {last.rootPath}| == |shownInit| + 1;
      } else {
        assert Presentable(repos, statusOf) == Presentable(init, statusOf) + [];
        assert ShownRoots(repos, statusOf) == shownInit;
      }
    }
  }

  /** Filtering keeps distinct root paths distinct: no root is written twice. */
  lemma {:induction false} PresentableKeepsDistinctRoots(repos: seq<GoPackageRepo>, statusOf: GoPackage -> StatusLine)
    requires DistinctRoots(repos)
    ensures DistinctRoots(Presentable(repos, statusOf))
  {
    if repos != [] {
      var init, last := repos[..|repos| - 1], repos[|repos| - 1];
      PresentableKeepsDistinctRoots(init, statusOf);
      PresentableMembers(init, statusOf);
      var shownInit := Presentable(init, statusOf);
      forall i | 0 <= i < |shownInit| ensures shownInit[i].rootPath != last.rootPath {
        assert shownInit[i] in shownInit;
        var k :| 0 <= k < |init| && init[k] == shownInit[i];
        assert repos[k] == init[k];
      }
      var shown := Presentable(repos, statusOf);
      assert shown == shownInit + if HasUpdate(last, statusOf) then [last] else [];
      forall i, j | 0 <= i < j < |shown| ensures shown[i].rootPath != shown[j].rootPath {
        assert shown[i] == shownInit[i];
        if j < |shownInit| {
          assert shown[j] == shownInit[j];
        } else {
          assert shown[j] == last;
        }
      }
    }
  }

  /** The roots written are the roots of the input that have an update. */
  lemma ShownRootsOfPresentable(repos: seq<GoPackageRepo>, statusOf: GoPackage -> StatusLine)
    ensures ShownRoots(Presentable(repos, statusOf), statusOf) == ShownRoots(repos, statusOf)
  {
    PresentableMembers(repos, statusOf);
  }

  /** `repos` lists, in `order`, each root with its group of packages. */
  ghost predicate ReposInOrder(repos: seq<GoPackageRepo>, order: seq<string>, ps: seq<GoPackage>, rootPathOf: GoPackage -> string)
  {
    && |repos| == |order|
    && forall j :: 0 <= j < |repos| ==> repos[j] == GoPackageRepo(order[j], Members(ps, rootPathOf, order[j]))
  }

  /** Visiting every root once, the roots shown are those whose representative has an update. */
  lemma ShownRootsAreUpdatedRoots(repos: seq<GoPackageRepo>, order: seq<string>, ps: seq<GoPackage>,
                                  rootPathOf: GoPackage -> string, statusOf: GoPackage -> StatusLine)
    requires ReposInOrder(repos, order, ps, rootPathOf)
    requires forall root :: root in order <==> root in Roots(ps, rootPathOf)
    ensures ShownRoots(repos, statusOf) == UpdatedRoots(ps, rootPathOf, statusOf)
  {
    var shown, updated := ShownRoots(repos, statusOf), UpdatedRoots(ps, rootPathOf, statusOf);
    forall root | root in shown ensures root in updated {
      var r :| r in repos && HasUpdate(r, statusOf) && r.rootPath == root;
      var j :| 0 <= j < |repos| && repos[j] == r;
      assert order[j] == root;
    }
    forall root | root in updated ensures root in shown {
      var j :| 0 <= j < |order| && order[j] == root;
      MembersNonEmpty(ps, rootPathOf, root);
      assert repos[j] in repos;
    }
  }

  /**
   * The producer that feeds the emit pass: one repository per map entry, in
   * the map's iteration order `iterationOrder`.
   */
  method RepositoriesInOrder(goPackagesInRepo: map<string, seq<GoPackage>>, iterationOrder: seq<string>)
    returns (repos: seq<GoPackageRepo>)
    requires forall root :: root in iterationOrder ==> root in goPackagesInRepo
    ensures |repos| == |iterationOrder|
    ensures forall j :: 0 <= j < |repos| ==>
      repos[j] == GoPackageRepo(iterationOrder[j], goPackagesInRepo[iterationOrder[j]])
  {
    repos := [];
    for i := 0 to |iterationOrder|
      invariant |repos| == i
      invariant forall j :: 0 <= j < i ==> repos[j] == GoPackageRepo(iterationOrder[j], goPackagesInRepo[iterationOrder[j]])
    {
      var rootPath := iterationOrder[i];
      repos := repos + [GoPackageRepo(rootPath, goPackagesInRepo[rootPath])];
    }
  }

  /**
   * The index handler from grouping to the "no updates" marker. The map is
   * visited in `iterationOrder`, which Go leaves unspecified: any order that
   * lists each root exactly once. The count is the number of repositories
   * whose representative package should be presented, whatever that order.
   */
  method MainHandler(goPackages: seq<GoPackage>, rootPathOf: GoPackage -> string,
                     statusOf: GoPackage -> StatusLine, iterationOrder: seq<string>)
    returns (written: seq<GoPackageRepo>, updatesAvailable: nat, noUpdates: bool)
    requires forall i, j :: 0 <= i < j < |iterationOrder| ==> iterationOrder[i] != iterationOrder[j]
    requires forall root :: root in iterationOrder <==> root in Roots(goPackages, rootPathOf)
    ensures forall r :: r in written ==>
      && r.rootPath in Roots(goPackages, rootPathOf)
      && r.goPackages == Members(goPackages, rootPathOf, r.rootPath)
      && HasUpdate(r, statusOf)
    ensures ShownRoots(written, statusOf) == UpdatedRoots(goPackages, rootPathOf, statusOf)
    ensures DistinctRoots(written)
    ensures updatesAvailable == |written| == |UpdatedRoots(goPackages, rootPathOf, statusOf)|
    ensures noUpdates <==> updatesAvailable == 0
  {
    var goPackagesInRepo := GroupByRootPath(goPackages, rootPathOf);
    var repos := RepositoriesInOrder(goPackagesInRepo, iterationOrder);
    assert ReposInOrder(repos, iterationOrder, goPackages, rootPathOf);
    assert forall r :: r in repos ==> r.goPackages != [] by {
      forall r | r in repos ensures r.goPackages != [] {
        var j :| 0 <= j < |repos| && repos[j] == r;
        assert iterationOrder[j] in goPackagesInRepo;
      }
    }
    written, updatesAvailable, noUpdates := EmitUpdates(repos, statusOf);
    PresentableMembers(repos, statusOf);
    DistinctRootsCount(repos, statusOf);
    ShownRootsAreUpdatedRoots(repos, iterationOrder, goPackages, rootPathOf, statusOf);
    ShownRootsOfPresentable(repos, statusOf);
    PresentableKeepsDistinctRoots(repos, statusOf);
  }
}
