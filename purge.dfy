/**
  The specification of `exterminate` in src/ratpack/infest.py.  The walk is
  `os.walk(directory)` over the tree as it was when the call began: the loop
  only removes files of the directory it is visiting, whose listing the walk
  has already taken, and never a directory, so no later step of the walk sees
  a different tree.
 */
module Purge {
  import opened Wrappers
  import opened Strings
  import opened FileTree
  import opened Census

  /** The arguments of one call: the directory, its listing, `types_remove` and `burrows_only`. */
  datatype Order = Order(directory: string, top: seq<Entry>, types: seq<string>, burrowsOnly: bool)

  /** The returned dictionary; `surface_rats_left` is present only when `burrows_only` is set. */
  datatype Stats = Stats(ratsRemoved: nat, burrowsRemoved: nat, surfaceRatsLeft: Option<nat>)

  /** `os.listdir(<directory>/burrow)` when that is a file: NotADirectoryError, not caught. */
  datatype Failure = NotADirectory(path: string)

  /** The result of a call, and the tree it leaves: files removed by the walk stay removed even when the cleanup raises. */
  datatype Outcome = Outcome(result: Result<Stats, Failure>, listing: seq<Entry>)

  /** The one directory name `exterminate` reacts to. */
  const BURROW: string := "burrow"

  /** The steps of `os.walk(directory)`. */
  function Plan(o: Order): (w: seq<Visit>)
    ensures |w| >= 1 && w[0] == Visit(o.directory, [], Files(o.top))
  {
    Walk(o.directory, [], o.top)
  }

  /** `os.path.basename(root) == 'burrow'`. */
  predicate IsBurrowVisit(v: Visit)
  {
    Basename(v.root) == BURROW
  }

  /** The value of `in_burrow` while visiting step `k`: set at the first burrow visit, never reset. */
  predicate Armed(w: seq<Visit>, k: nat)
    requires k < |w|
  {
    IsBurrowVisit(w[k]) || (k > 0 && Armed(w, k - 1))
  }

  /** `in_burrow` is true at step `k` exactly when some step up to `k` visited a directory named `burrow`. */
  lemma {:induction false} ArmedMeans(w: seq<Visit>, k: nat)
    requires k < |w|
    ensures Armed(w, k) <==> exists j | 0 <= j <= k :: IsBurrowVisit(w[j])
  {
    var here := IsBurrowVisit(w[k]);
    if here {
      assert 0 <= k <= k && IsBurrowVisit(w[k]);
    } else if k == 0 {
      forall j | 0 <= j <= k
        ensures !IsBurrowVisit(w[j])
      {
        assert j == k;
      }
    } else {
      ArmedMeans(w, k - 1);
      assert Armed(w, k) == Armed(w, k - 1);
      if Armed(w, k - 1) {
        var j :| 0 <= j <= k - 1 && IsBurrowVisit(w[j]);
        assert 0 <= j <= k;
      } else {
        forall j | 0 <= j <= k
          ensures !IsBurrowVisit(w[j])
        {
          if j == k {
            assert !here;
          } else {
            assert 0 <= j <= k - 1;
          }
        }
      }
    }
  }

  /**
    The file is one `exterminate` would remove: `check_path` on the directory
    (not the walk's root) joined with the file's name, where `os.path.isdir`
    looks at that name directly in `directory`; and the name contains one of
    `types_remove`.
   */
  predicate Hit(o: Order, file: string)
  {
    CheckPath(Join(o.directory, file), IsDirNamed(o.top, file)) && MentionsAny(file, o.types)
  }

  /** A hit counts unless `burrows_only` is set and no burrow has been visited yet. */
  predicate Selected(o: Order, armed: bool, file: string)
  {
    Hit(o, file) && (armed || !o.burrowsOnly)
  }

  /**
    Only a name mentioning a type is selected; without `burrows_only`, or once
    a burrow has been visited, the hits are selected and nothing else; before
    that, with `burrows_only`, nothing is.
   */
  lemma SelectedGate(o: Order, armed: bool, file: string)
    ensures Selected(o, armed, file) ==> MentionsAny(file, o.types)
    ensures !o.burrowsOnly || armed ==> (Selected(o, armed, file) <==> Hit(o, file))
    ensures o.burrowsOnly && !armed ==> !Selected(o, armed, file)
  {
  }

  /** The locations of the selected files among the first `m` files of one visit, in order. */
  function Picked(o: Order, v: Visit, armed: bool, m: nat): (p: seq<seq<string>>)
    requires m <= |v.files|
    ensures |p| <= m
    ensures forall q | 0 <= q < |p| :: |p[q]| == |v.rel| + 1
  {
    if m == 0 then []
    else
      var f := v.files[m - 1];
      Picked(o, v, armed, m - 1) + (if Selected(o, armed, f) then [v.rel + [f]] else [])
  }

  /** The locations of the files selected in the first `n` steps of the walk, in walk order. */
  function Swept(o: Order, w: seq<Visit>, n: nat): seq<seq<string>>
    requires n <= |w|
  {
    if n == 0 then []
    else Swept(o, w, n - 1) + Picked(o, w[n - 1], Armed(w, n - 1), |w[n - 1].files|)
  }

  /** How many of the first `n` steps visited a directory named `burrow`. */
  function BurrowVisits(w: seq<Visit>, n: nat): (b: nat)
    requires n <= |w|
    ensures b <= n
  {
    if n == 0 then 0 else BurrowVisits(w, n - 1) + (if IsBurrowVisit(w[n - 1]) then 1 else 0)
  }

  function Locations(s: seq<seq<string>>): set<seq<string>>
  {
    set q | q in s
  }

  /**
    The final step: `<directory>/burrow` is removed when it exists, this is
    not a dry run and it is an empty directory; when it is a file and this is
    not a dry run, listing it raises.
   */
  function Cleanup(es: seq<Entry>, dryRun: bool, directory: string): (r: Result<seq<Entry>, Failure>)
    ensures r.Ok? ==> r.value == es || r.value == Unlink(es, BURROW)
    ensures r.Err? <==> !dryRun && Find(es, BURROW).Some? && Find(es, BURROW).value.File?
    ensures r == Ok(Unlink(es, BURROW)) && r != Ok(es) ==> !dryRun && Find(es, BURROW) == Some(Dir(BURROW, []))
    ensures !dryRun && Find(es, BURROW) == Some(Dir(BURROW, [])) ==> r == Ok(Unlink(es, BURROW))
  {
    match Find(es, BURROW)
    case None => Ok(es)
    case Some(e) =>
      if dryRun then Ok(es)
      else if e.File? then Err(NotADirectory(Join(directory, BURROW)))
      else if e.entries == [] then Ok(Unlink(es, BURROW))
      else Ok(es)
  }

  /** The tree after removing the files at the locations in `swept`, unless this is a dry run. */
  function Remains(o: Order, dryRun: bool, swept: seq<seq<string>>): seq<Entry>
  {
    if dryRun then o.top else Without(o.top, Locations(swept))
  }

  /**
    What is left after the walk: the tree as it was on a dry run; otherwise
    every file but the removed ones, and every directory.
   */
  lemma RemainsLocations(o: Order, dryRun: bool, swept: seq<seq<string>>)
    ensures dryRun ==> Remains(o, dryRun, swept) == o.top
    ensures FileLocations(Remains(o, dryRun, swept)) == FileLocations(o.top) - (if dryRun then {} else Locations(swept))
    ensures DirLocations(Remains(o, dryRun, swept)) == DirLocations(o.top)
  {
    WithoutLocations(o.top, Locations(swept));
    WithoutDirLocations(o.top, Locations(swept));
  }

  /** Before the walk removes anything, the tree is the one the call began with. */
  lemma RemainsAtStart(o: Order, dryRun: bool)
    ensures Remains(o, dryRun, []) == o.top
  {
    assert Locations([]) == {};
    WithoutNothing(o.top);
  }

  /** Removing files leaves every directory in place, so `os.path.isdir` answers as on the original tree. */
  lemma RemainsKeepsDirs(o: Order, dryRun: bool, swept: seq<seq<string>>, name: string)
    ensures IsDirNamed(Remains(o, dryRun, swept), name) == IsDirNamed(o.top, name)
  {
    if !dryRun {
      WithoutKeepsDirs(o.top, Locations(swept), name);
    }
  }

  /**
    One file of a visit: the selection grows by the file exactly when it is
    selected, with `os.path.isdir` asked of the tree as it stands, and
    removing it prunes the tree by its location.
   */
  lemma SweepStep(o: Order, dryRun: bool, done: seq<seq<string>>, v: Visit, armed: bool, j: nat, picked: seq<seq<string>>,
                  live: seq<Entry>, selected: bool)
    requires j < |v.files| && picked == Picked(o, v, armed, j) && live == Remains(o, dryRun, done + picked)
    requires selected == (CheckPath(Join(o.directory, v.files[j]), IsDirNamed(live, v.files[j]))
                          && MentionsAny(v.files[j], o.types) && !(!armed && o.burrowsOnly))
    ensures Picked(o, v, armed, j + 1) == if selected then picked + [v.rel + [v.files[j]]] else picked
    ensures selected ==> Remains(o, dryRun, done + (picked + [v.rel + [v.files[j]]]))
                         == if dryRun then live else RemoveFile(live, v.rel, v.files[j])
  {
    RemainsKeepsDirs(o, dryRun, done + picked, v.files[j]);
    var q := v.rel + [v.files[j]];
    if selected && !dryRun {
      RemoveFileWithout(o.top, Locations(done + picked), v.rel, v.files[j]);
      assert done + (picked + [q]) == (done + picked) + [q];
      assert Locations(done + (picked + [q])) == Locations(done + picked) + {q};
    }
  }

  /** Once the walk is done, the call's outcome is the cleanup's on what the walk left. */
  lemma ExterminateEnds(o: Order, dryRun: bool, swept: seq<seq<string>>, stats: Stats)
    requires swept == Swept(o, Plan(o), |Plan(o)|)
    requires stats == Stats(|swept|, BurrowVisits(Plan(o), |Plan(o)|),
                            if o.burrowsOnly then Some(CountRats(o.top, true, None).surfaceRats) else None)
    ensures var after := Remains(o, dryRun, swept);
      Exterminate(o, dryRun) == match Cleanup(after, dryRun, o.directory)
                                case Err(f) => Outcome(Err(f), after)
                                case Ok(l) => Outcome(Ok(stats), l)
  {
  }

  /** One step of the walk extends the selection by what its file loop picked. */
  lemma SweptStep(o: Order, w: seq<Visit>, k: nat, done: seq<seq<string>>, picked: seq<seq<string>>)
    requires k < |w| && done == Swept(o, w, k) && picked == Picked(o, w[k], Armed(w, k), |w[k].files|)
    ensures Swept(o, w, k + 1) == done + picked
  {
  }

  /** What `exterminate(directory, rat_types, burrows_only, dry_run)` returns and leaves behind. */
  function Exterminate(o: Order, dryRun: bool): (out: Outcome)
    ensures dryRun ==> out.result.Ok? && out.listing == o.top
    ensures out.result.Ok? ==> out.result.value.surfaceRatsLeft.Some? == o.burrowsOnly
  {
    var surfaceLeft := if o.burrowsOnly then Some(CountRats(o.top, true, None).surfaceRats) else None;
    var w := Plan(o);
    var doomed := Swept(o, w, |w|);
    var stats := Stats(|doomed|, BurrowVisits(w, |w|), surfaceLeft);
    var after := if dryRun then o.top else Without(o.top, Locations(doomed));
    match Cleanup(after, dryRun, o.directory)
    case Err(f) => Outcome(Err(f), after)
    case Ok(l) => Outcome(Ok(stats), l)
  }

  /**
    A dry run changes nothing and never fails, and it reports the same
    statistics as the real run with the same arguments, whenever that one
    returns.
   */
  lemma DryRunReportsTheSame(o: Order)
    ensures Exterminate(o, true) == Outcome(Exterminate(o, true).result, o.top)
    ensures Exterminate(o, true).result.Ok?
    ensures Exterminate(o, false).result.Ok? ==> Exterminate(o, false).result == Exterminate(o, true).result
  {
  }

  /**
    Without a dry run, the `burrow` directory disappears only when it was
    empty after the walk, and an empty one always disappears.
   */
  lemma OnlyEmptyBurrowRemoved(o: Order)
    ensures var w := Plan(o);
      var after := Without(o.top, Locations(Swept(o, w, |w|)));
      var out := Exterminate(o, false);
      && (Find(after, BURROW).Some? && Find(out.listing, BURROW).None? ==> Find(after, BURROW) == Some(Dir(BURROW, [])))
      && (Find(after, BURROW) == Some(Dir(BURROW, [])) ==> out.result.Ok? && out.listing == Unlink(after, BURROW))
  {
  }

  /** With `burrows_only` set and no burrow visited yet, a visit selects nothing. */
  lemma {:induction false} PickedNone(o: Order, v: Visit, m: nat)
    requires m <= |v.files| && o.burrowsOnly
    ensures Picked(o, v, false, m) == []
  {
    if m > 0 {
      PickedNone(o, v, m - 1);
    }
  }

  /** Every visit after the first is of a directory strictly below the root. */
  lemma WalkBelowRoot(o: Order, k: nat)
    requires 0 < k < |Plan(o)|
    ensures |Plan(o)[k].rel| >= 1
  {
    WalkDirsDepth(o.directory, [], o.top);
    assert Plan(o)[k] == WalkDirs(o.directory, [], o.top)[k - 1];
  }

  /**
    With `burrows_only` and a root not itself named `burrow`, the walk
    selects nothing directly in the root: every selected location is at
    least one directory deep.
   */
  lemma {:induction false} BurrowsOnlySparesRoot(o: Order, n: nat)
    requires o.burrowsOnly && Basename(o.directory) != BURROW
    requires n <= |Plan(o)|
    ensures forall q | q in Swept(o, Plan(o), n) :: |q| >= 2
  {
    var w := Plan(o);
    if n > 0 {
      BurrowsOnlySparesRoot(o, n - 1);
      var k := n - 1;
      var p := Picked(o, w[k], Armed(w, k), |w[k].files|);
      if k == 0 {
        assert !Armed(w, 0);
        PickedNone(o, w[0], |w[0].files|);
      } else {
        WalkBelowRoot(o, k);
      }
      assert forall q | q in p :: |q| >= 2;
    }
  }

  /** Removing files at locations of other depths than one leaves the root's rat count alone. */
  lemma {:induction false} DeepRemovalKeepsSurface(es: seq<Entry>, S: set<seq<string>>, filter: Option<seq<string>>)
    requires forall q | q in S :: |q| != 1
    ensures RatCount(Without(es, S), filter) == RatCount(es, filter)
    decreases es
  {
    if es != [] {
      DeepRemovalKeepsSurface(es[1..], S, filter);
      var rest := Without(es[1..], S);
      match es[0]
      case File(n) =>
        assert |[n]| == 1;
        assert ([es[0]] + rest)[1..] == rest;
      case Dir(n, kids) =>
        assert ([Dir(n, Without(kids, Below(S, n)))] + rest)[1..] == rest;
    }
  }

  /** Removing the `burrow` entry leaves the rat count alone: "burrow" does not end in ".rat". */
  lemma {:induction false} UnlinkBurrowKeepsCount(es: seq<Entry>, filter: Option<seq<string>>)
    ensures RatCount(Unlink(es, BURROW), filter) == RatCount(es, filter)
  {
    if es != [] {
      UnlinkBurrowKeepsCount(es[1..], filter);
      var r := Unlink(es, BURROW);
      if es[0].name == BURROW {
        assert r == Unlink(es[1..], BURROW);
        assert !IsRat(es[0], filter);
      } else {
        assert r[1..] == Unlink(es[1..], BURROW);
      }
    }
  }

  /**
    With `burrows_only`, `surface_rats_left` (counted before the walk) is
    also the number of ".rat" entries left directly in the root afterwards,
    dry run or not, as long as the root is not itself named `burrow`.
   */
  lemma SurfaceRatsLeftIsExact(o: Order, dryRun: bool)
    requires o.burrowsOnly && Basename(o.directory) != BURROW
    ensures var out := Exterminate(o, dryRun);
      out.result.Ok? ==> out.result.value.surfaceRatsLeft == Some(CountRats(out.listing, true, None).surfaceRats)
  {
    var w := Plan(o);
    var S := Locations(Swept(o, w, |w|));
    BurrowsOnlySparesRoot(o, |w|);
    DeepRemovalKeepsSurface(o.top, S, None);
    var after := if dryRun then o.top else Without(o.top, S);
    UnlinkBurrowKeepsCount(after, None);
  }

  /** The call of `StaleSurfaceForBurrowRoot`: one rat directly in a root named `burrow`. */
  function BurrowRoot(): Order
  {
    Order("burrow", [File("sewer_rat_id_1.rat")], ["sewer_rat"], true)
  }

  /**
    For a root itself named `burrow`, `surface_rats_left` is stale: the first
    step of the walk arms `in_burrow`, so the root's own rat is removed after
    it was counted, and none is left.
   */
  lemma StaleSurfaceForBurrowRoot()
    ensures var out := Exterminate(BurrowRoot(), false);
      && out == Outcome(Ok(Stats(1, 1, Some(1))), [])
      && CountRats(out.listing, true, None).surfaceRats == 0
  {
    var o := BurrowRoot();
    var w := Plan(o);
    BurrowRootWalk();
    BurrowRootSwept();
    assert |w| == 1;
    BurrowRootCounts();
    assert BurrowVisits(w, 1) == BurrowVisits(w, 0) + 1;
    assert Find([], BURROW).None?;
  }

  /** `count_rats` sees one surface rat in `BurrowRoot`; nothing prunes to an empty tree. */
  lemma BurrowRootCounts()
    ensures CountRats(BurrowRoot().top, true, None).surfaceRats == 1
    ensures CountRats([], true, None).surfaceRats == 0
    ensures Without(BurrowRoot().top, Locations([["sewer_rat_id_1.rat"]])) == []
  {
    var f := "sewer_rat_id_1.rat";
    assert EndsWith(f, ".rat") by { assert f[|f| - 4..] == ".rat"; }
    assert IsRat(File(f), None);
    assert RatCount([File(f)], None) == 1 + RatCount([], None);
    assert [f] in Locations([[f]]);
  }

  /** The walk of `BurrowRoot` is one `burrow` step listing the rat. */
  lemma BurrowRootWalk()
    ensures Plan(BurrowRoot()) == [Visit("burrow", [], ["sewer_rat_id_1.rat"])]
    ensures IsBurrowVisit(Plan(BurrowRoot())[0])
  {
    var o := BurrowRoot();
    assert Files(o.top) == ["sewer_rat_id_1.rat"];
    assert WalkDirs("burrow", [], o.top) == [];
    BasenameLast("burrow");
  }

  /** The walk of `BurrowRoot` selects its one rat. */
  lemma BurrowRootSwept()
    ensures Swept(BurrowRoot(), Plan(BurrowRoot()), |Plan(BurrowRoot())|) == [["sewer_rat_id_1.rat"]]
  {
    var o := BurrowRoot();
    var f := "sewer_rat_id_1.rat";
    BurrowRootWalk();
    var w := Plan(o);
    BurrowRootHit();
    assert |w| == 1 && w[0].files == [f] && w[0].rel == [];
    assert Armed(w, 0);
    assert Selected(o, true, f);
    assert Picked(o, w[0], true, 1) == Picked(o, w[0], true, 0) + [[] + [f]];
    assert Swept(o, w, 1) == Swept(o, w, 0) + Picked(o, w[0], true, 1);
    assert Swept(o, w, 0) == [] && Picked(o, w[0], true, 0) == [];
    assert [] + [f] == [f];
  }

  /** The rat of `BurrowRoot` is a hit. */
  lemma BurrowRootHit()
    ensures Hit(BurrowRoot(), "sewer_rat_id_1.rat")
  {
    var o := BurrowRoot();
    var f := "sewer_rat_id_1.rat";
    var path := Join("burrow", f);
    assert !StartsWith(f, "/") by { assert f[..1] == "s"; }
    assert path == "burrow/sewer_rat_id_1.rat";
    assert OccursAt(path, "rat_id", 13) && OccursAt(path, ".rat", 21);
    assert OccursAt(f, "sewer_rat", 0) && o.types[0] == "sewer_rat";
  }

  lemma {:induction false} FilesHas(es: seq<Entry>, i: nat)
    requires i < |es| && es[i].File?
    ensures es[i].name in Files(es)
  {
    if i > 0 {
      FilesHas(es[1..], i - 1);
    }
  }

  lemma {:induction false} PickedHas(o: Order, v: Visit, armed: bool, m: nat, x: nat)
    requires x < m <= |v.files| && Selected(o, armed, v.files[x])
    ensures v.rel + [v.files[x]] in Picked(o, v, armed, m)
  {
    if x < m - 1 {
      PickedHas(o, v, armed, m - 1, x);
    }
  }

  lemma {:induction false} SweptKeeps(o: Order, w: seq<Visit>, k: nat, n: nat)
    requires k <= n <= |w|
    ensures forall q | q in Swept(o, w, k) :: q in Swept(o, w, n)
  {
    if k < n {
      SweptKeeps(o, w, k, n - 1);
    }
  }

  /** What is left directly in a pruned listing was there before and was not pruned. */
  lemma {:induction false} WithoutTopFiles(es: seq<Entry>, S: set<seq<string>>)
    ensures forall i | 0 <= i < |Without(es, S)| :: Without(es, S)[i].File? ==>
      [Without(es, S)[i].name] !in S && Without(es, S)[i] in es
    decreases es
  {
    if es != [] {
      WithoutTopFiles(es[1..], S);
      var rest := Without(es[1..], S);
      match es[0]
      case File(n) =>
        var r := if [n] in S then rest else [es[0]] + rest;
        forall i | 0 <= i < |r| && r[i].File?
          ensures [r[i].name] !in S && r[i] in es
        {
          if [n] !in S && i > 0 {
            assert r[i] == rest[i - 1];
          }
        }
      case Dir(n, kids) =>
        var r := [Dir(n, Without(kids, Below(S, n)))] + rest;
        forall i | 0 <= i < |r| && r[i].File?
          ensures [r[i].name] !in S && r[i] in es
        {
          assert r[i] == rest[i - 1];
        }
    }
  }

  /**
    A real run without `burrows_only` leaves no file directly in the root
    that it would have removed: the root is visited first and every one of
    its hits is removed.
   */
  lemma FullSweepClearsRoot(o: Order)
    requires !o.burrowsOnly
    ensures var out := Exterminate(o, false);
      forall i | 0 <= i < |out.listing| :: out.listing[i].File? ==> !Hit(o, out.listing[i].name)
  {
    var w := Plan(o);
    var S := Locations(Swept(o, w, |w|));
    var after := Without(o.top, S);
    WithoutTopFiles(o.top, S);
    var out := Exterminate(o, false);
    assert forall e | e in out.listing :: e in after;
    forall i | 0 <= i < |out.listing| && out.listing[i].File? && Hit(o, out.listing[i].name)
      ensures false
    {
      var e := out.listing[i];
      var k :| 0 <= k < |after| && after[k] == e;
      RootHitDoomed(o, e);
    }
  }

  /** Every hit directly in the root is selected when `burrows_only` is off. */
  lemma RootHitDoomed(o: Order, e: Entry)
    requires !o.burrowsOnly && e in o.top && e.File? && Hit(o, e.name)
    ensures [e.name] in Swept(o, Plan(o), |Plan(o)|)
  {
    var w := Plan(o);
    SweptKeeps(o, w, 1, |w|);
    assert w[0] == Visit(o.directory, [], Files(o.top));
    var i :| 0 <= i < |o.top| && o.top[i] == e;
    FilesHas(o.top, i);
    var x :| 0 <= x < |w[0].files| && w[0].files[x] == e.name;
    PickedHas(o, w[0], Armed(w, 0), |w[0].files|, x);
    assert Swept(o, w, 1) == Picked(o, w[0], Armed(w, 0), |w[0].files|);
    assert [] + [e.name] == [e.name];
  }

  /** Every selected location comes from a file of the visit that is selected. */
  lemma {:induction false} PickedFrom(o: Order, v: Visit, armed: bool, m: nat, q: seq<string>) returns (x: nat)
    requires m <= |v.files| && q in Picked(o, v, armed, m)
    ensures x < m && q == v.rel + [v.files[x]] && Selected(o, armed, v.files[x])
  {
    if q in Picked(o, v, armed, m - 1) {
      x := PickedFrom(o, v, armed, m - 1, q);
    } else {
      x := m - 1;
    }
  }

  lemma {:induction false} SweptFrom(o: Order, w: seq<Visit>, n: nat, q: seq<string>) returns (k: nat)
    requires n <= |w| && q in Swept(o, w, n)
    ensures k < n && q in Picked(o, w[k], Armed(w, k), |w[k].files|)
  {
    if q in Swept(o, w, n - 1) {
      k := SweptFrom(o, w, n - 1, q);
    } else {
      k := n - 1;
    }
  }

  /** Everything the walk selects is a file of the tree that is a hit. */
  lemma SweptAreHits(o: Order, q: seq<string>)
    requires q in Swept(o, Plan(o), |Plan(o)|)
    ensures q in FileLocations(o.top) && Hit(o, q[|q| - 1])
  {
    var w := Plan(o);
    var k := SweptFrom(o, w, |w|, q);
    var x := PickedFrom(o, w[k], Armed(w, k), |w[k].files|, q);
    var f := w[k].files[x];
    var d := WalkListed(o.directory, [], o.top, k, f);
    assert w[k].rel == d;
    assert q == d + [f];
    assert q[|q| - 1] == f;
  }

  /** Without `burrows_only`, every hit anywhere in the tree is selected. */
  lemma DeepHitDoomed(o: Order, p: seq<string>)
    requires !o.burrowsOnly && p in FileLocations(o.top) && Hit(o, p[|p| - 1])
    ensures p in Swept(o, Plan(o), |Plan(o)|)
  {
    var w := Plan(o);
    var k := WalkFinds(o.directory, [], o.top, p);
    var f := p[|p| - 1];
    var x :| 0 <= x < |w[k].files| && w[k].files[x] == f;
    assert p == w[k].rel + [f];
    SelectedSwept(o, w, k, x);
  }

  /** A selected file of a step is among the locations the whole walk selects. */
  lemma SelectedSwept(o: Order, w: seq<Visit>, k: nat, x: nat)
    requires k < |w| && x < |w[k].files| && Selected(o, Armed(w, k), w[k].files[x])
    ensures w[k].rel + [w[k].files[x]] in Swept(o, w, |w|)
  {
    PickedHas(o, w[k], Armed(w, k), |w[k].files|, x);
    SweptStep(o, w, k, Swept(o, w, k), Picked(o, w[k], Armed(w, k), |w[k].files|));
    SweptKeeps(o, w, k + 1, |w|);
  }

  /**
    Without `burrows_only`, the walk selects exactly the hits of the whole
    tree, at every depth.
   */
  lemma SweptExactlyHits(o: Order)
    requires !o.burrowsOnly
    ensures Locations(Swept(o, Plan(o), |Plan(o)|)) == set p | p in FileLocations(o.top) && Hit(o, p[|p| - 1])
  {
    forall q | q in Swept(o, Plan(o), |Plan(o)|)
      ensures q in FileLocations(o.top) && Hit(o, q[|q| - 1])
    {
      SweptAreHits(o, q);
    }
    forall p | p in FileLocations(o.top) && Hit(o, p[|p| - 1])
      ensures p in Swept(o, Plan(o), |Plan(o)|)
    {
      DeepHitDoomed(o, p);
    }
  }

  /**
    A real run without `burrows_only` leaves no file it would have removed
    anywhere in the tree, whether or not the cleanup raises; the files that
    are left are files of the original tree.
   */
  lemma FullSweepClearsTree(o: Order)
    requires !o.burrowsOnly
    ensures var out := Exterminate(o, false);
      && FileLocations(out.listing) <= FileLocations(o.top)
      && forall p | p in FileLocations(out.listing) :: !Hit(o, p[|p| - 1])
  {
    var w := Plan(o);
    var S := Locations(Swept(o, w, |w|));
    var after := Without(o.top, S);
    var out := Exterminate(o, false);
    WithoutLocations(o.top, S);
    UnlinkLocations(after, BURROW);
    assert FileLocations(out.listing) <= FileLocations(after);
    forall p | p in FileLocations(out.listing) && Hit(o, p[|p| - 1])
      ensures false
    {
      DeepHitDoomed(o, p);
    }
  }

  /** The files of the tree, at every depth and counted with repetition, that are hits. */
  function TreeHits(o: Order, es: seq<Entry>): nat
    decreases es
  {
    if es == [] then 0
    else
      (match es[0]
       case File(n) => if Hit(o, n) then 1 else 0
       case Dir(_, kids) => TreeHits(o, kids))
      + TreeHits(o, es[1..])
  }

  /** How many of the first `m` names of `fs` are hits. */
  function HitsUpTo(o: Order, fs: seq<string>, m: nat): nat
    requires m <= |fs|
  {
    if m == 0 then 0 else HitsUpTo(o, fs, m - 1) + (if Hit(o, fs[m - 1]) then 1 else 0)
  }

  /** How many hits the files of the first `n` steps of a walk list. */
  function StepHits(o: Order, w: seq<Visit>, n: nat): nat
    requires n <= |w|
  {
    if n == 0 then 0 else StepHits(o, w, n - 1) + HitsUpTo(o, w[n - 1].files, |w[n - 1].files|)
  }

  /** Without `burrows_only`, a visit selects each of its hits once. */
  lemma {:induction false} PickedCountsHits(o: Order, v: Visit, armed: bool, m: nat)
    requires !o.burrowsOnly && m <= |v.files|
    ensures |Picked(o, v, armed, m)| == HitsUpTo(o, v.files, m)
  {
    if m > 0 {
      PickedCountsHits(o, v, armed, m - 1);
    }
  }

  /** Without `burrows_only`, the first `n` steps select each hit they list once. */
  lemma {:induction false} SweptCountsHits(o: Order, w: seq<Visit>, n: nat)
    requires !o.burrowsOnly && n <= |w|
    ensures |Swept(o, w, n)| == StepHits(o, w, n)
  {
    if n > 0 {
      SweptCountsHits(o, w, n - 1);
      PickedCountsHits(o, w[n - 1], Armed(w, n - 1), |w[n - 1].files|);
    }
  }

  lemma {:induction false} HitsUpToPrefix(o: Order, a: seq<string>, b: seq<string>, m: nat)
    requires m <= |a|
    ensures HitsUpTo(o, a + b, m) == HitsUpTo(o, a, m)
  {
    if m > 0 {
      HitsUpToPrefix(o, a, b, m - 1);
      assert (a + b)[m - 1] == a[m - 1];
    }
  }

  lemma {:induction false} HitsUpToAppend(o: Order, a: seq<string>, b: seq<string>, k: nat)
    requires k <= |b|
    ensures HitsUpTo(o, a + b, |a| + k) == HitsUpTo(o, a, |a|) + HitsUpTo(o, b, k)
  {
    if k == 0 {
      HitsUpToPrefix(o, a, b, |a|);
    } else {
      HitsUpToAppend(o, a, b, k - 1);
      assert (a + b)[|a| + k - 1] == b[k - 1];
    }
  }

  lemma {:induction false} StepHitsPrefix(o: Order, a: seq<Visit>, b: seq<Visit>, n: nat)
    requires n <= |a|
    ensures StepHits(o, a + b, n) == StepHits(o, a, n)
  {
    if n > 0 {
      StepHitsPrefix(o, a, b, n - 1);
      assert (a + b)[n - 1] == a[n - 1];
    }
  }

  lemma {:induction false} StepHitsAppend(o: Order, a: seq<Visit>, b: seq<Visit>, k: nat)
    requires k <= |b|
    ensures StepHits(o, a + b, |a| + k) == StepHits(o, a, |a|) + StepHits(o, b, k)
  {
    if k == 0 {
      StepHitsPrefix(o, a, b, |a|);
    } else {
      StepHitsAppend(o, a, b, k - 1);
      assert (a + b)[|a| + k - 1] == b[k - 1];
    }
  }

  /** The hits among the files directly in a listing. */
  function TopHits(o: Order, es: seq<Entry>): nat
  {
    HitsUpTo(o, Files(es), |Files(es)|)
  }

  /** The hits the walk below a listing's subdirectories lists. */
  function DeepHits(o: Order, root: string, rel: seq<string>, es: seq<Entry>): nat
  {
    StepHits(o, WalkDirs(root, rel, es), |WalkDirs(root, rel, es)|)
  }

  /** The walk of a listing lists its own hits first, then those below it. */
  lemma WalkHitsSplit(o: Order, root: string, rel: seq<string>, es: seq<Entry>)
    ensures StepHits(o, Walk(root, rel, es), |Walk(root, rel, es)|) == TopHits(o, es) + DeepHits(o, root, rel, es)
  {
    var v := Visit(root, rel, Files(es));
    StepHitsAppend(o, [v], WalkDirs(root, rel, es), |WalkDirs(root, rel, es)|);
    assert StepHits(o, [v], 1) == HitsUpTo(o, Files(es), |Files(es)|);
  }

  /** A listing's top hits are those of its first entry, then those of the rest. */
  lemma TopHitsCons(o: Order, es: seq<Entry>)
    requires es != []
    ensures TopHits(o, es) == (if es[0].File? && Hit(o, es[0].name) then 1 else 0) + TopHits(o, es[1..])
  {
    var head: seq<string> := if es[0].File? then [es[0].name] else [];
    assert Files(es) == head + Files(es[1..]);
    HitsUpToAppend(o, head, Files(es[1..]), |Files(es[1..])|);
    if es[0].File? {
      assert HitsUpTo(o, head, 1) == HitsUpTo(o, head, 0) + (if Hit(o, head[0]) then 1 else 0);
    }
  }

  /** The hits the walk of the subdirectory `e` lists; none when `e` is a file. */
  function SubdirHits(o: Order, root: string, rel: seq<string>, e: Entry): nat
  {
    if e.File? then 0
    else
      var w := Walk(Join(root, e.name), rel + [e.name], e.entries);
      StepHits(o, w, |w|)
  }

  /** The walk below a listing lists the hits of its first subdirectory's walk, then those of the rest. */
  lemma DeepHitsCons(o: Order, root: string, rel: seq<string>, es: seq<Entry>)
    requires es != []
    ensures DeepHits(o, root, rel, es) == SubdirHits(o, root, rel, es[0]) + DeepHits(o, root, rel, es[1..])
  {
    var tail := WalkDirs(root, rel, es[1..]);
    match es[0]
    case File(_) =>
      assert WalkDirs(root, rel, es) == tail;
    case Dir(n, kids) =>
      var head := Walk(Join(root, n), rel + [n], kids);
      assert WalkDirs(root, rel, es) == head + tail;
      StepHitsAppend(o, head, tail, |tail|);
  }

  /** `os.walk` lists every hit of the tree once: its steps' hits add up to the tree's. */
  lemma {:induction false} WalkCountsTree(o: Order, root: string, rel: seq<string>, es: seq<Entry>)
    ensures StepHits(o, Walk(root, rel, es), |Walk(root, rel, es)|) == TreeHits(o, es)
    decreases es, 1
  {
    WalkHitsSplit(o, root, rel, es);
    ListingCountsTree(o, root, rel, es);
  }

  lemma {:induction false} ListingCountsTree(o: Order, root: string, rel: seq<string>, es: seq<Entry>)
    ensures TopHits(o, es) + DeepHits(o, root, rel, es) == TreeHits(o, es)
    decreases es, 0
  {
    if es != [] {
      TopHitsCons(o, es);
      DeepHitsCons(o, root, rel, es);
      ListingCountsTree(o, root, rel, es[1..]);
      match es[0]
      case File(_) =>
      case Dir(n, kids) =>
        WalkCountsTree(o, Join(root, n), rel + [n], kids);
    }
  }

  /**
    Without `burrows_only`, `rats_removed` is exactly the number of hit files
    in the whole tree, at every depth, dry run or not: the walk lists each
    file once and counts it when it is a hit.
   */
  lemma RemovedIsTreeHits(o: Order, dryRun: bool)
    requires !o.burrowsOnly
    ensures var out := Exterminate(o, dryRun);
      out.result.Ok? ==> out.result.value.ratsRemoved == TreeHits(o, o.top)
  {
    SweptCountsHits(o, Plan(o), |Plan(o)|);
    WalkCountsTree(o, o.directory, [], o.top);
  }

  /** An explicit empty type list removes nothing: `matching_rats` is always empty. */
  lemma {:induction false} NoTypesNoRemoval(o: Order, n: nat)
    requires o.types == [] && n <= |Plan(o)|
    ensures Swept(o, Plan(o), n) == []
  {
    if n > 0 {
      NoTypesNoRemoval(o, n - 1);
      var w := Plan(o);
      NothingPicked(o, w[n - 1], Armed(w, n - 1), |w[n - 1].files|);
      SweptStep(o, w, n - 1, [], []);
    }
  }

  lemma {:induction false} NothingPicked(o: Order, v: Visit, armed: bool, m: nat)
    requires o.types == [] && m <= |v.files|
    ensures Picked(o, v, armed, m) == []
  {
    if m > 0 {
      NothingPicked(o, v, armed, m - 1);
      assert !MentionsAny(v.files[m - 1], o.types);
    }
  }
}
