/**
  `RAT_TYPES`, `check_path` and `count_rats` of src/ratpack/infest.py:
  which names count as rats and how a directory and its burrows are counted.
 */
module Census {
  import opened Wrappers
  import opened Strings
  import opened FileTree

  /** The vocabulary of rat types. */
  const RAT_TYPES: seq<string> := ["sewer_rat", "brown_rat", "black_rat", "fancy_rat", "plague_rat"]

  /** `rat_types if rat_types is not None else RAT_TYPES`. */
  function RatTypesOrDefault(ratTypes: Option<seq<string>>): seq<string>
  {
    if ratTypes.None? then RAT_TYPES else ratTypes.value
  }

  /**
    `check_path`: a path that is not a directory passes when it contains both
    "rat_id" and ".rat" anywhere; for a directory the function returns None,
    which every caller reads as false.
   */
  predicate CheckPath(path: string, isDir: bool)
  {
    if isDir then false else Contains(path, "rat_id") && Contains(path, ".rat")
  }

  /** A directory never passes: `check_path` falls off its end and returns None, which callers read as false. */
  lemma CheckPathRejectsDirectories(path: string)
    ensures !CheckPath(path, true)
  {
  }

  /** `any(rat in name for rat in types)`. */
  predicate MentionsAny(name: string, types: seq<string>)
  {
    exists i | 0 <= i < |types| :: Contains(name, types[i])
  }

  /** The type filter of `count_rats`: `if rat_types:` lets None and the empty list through unfiltered. */
  predicate Admits(filter: Option<seq<string>>, name: string)
  {
    filter.None? || filter.value == [] || MentionsAny(name, filter.value)
  }

  /** An entry `count_rats` counts: its name ends in ".rat" (file or directory alike) and passes the filter. */
  predicate IsRat(e: Entry, filter: Option<seq<string>>)
  {
    EndsWith(e.name, ".rat") && Admits(filter, e.name)
  }

  /** Counting a listing one entry longer counts that entry once more if it is a rat. */
  lemma {:induction false} RatCountSnoc(es: seq<Entry>, e: Entry, filter: Option<seq<string>>)
    ensures RatCount(es + [e], filter) == RatCount(es, filter) + (if IsRat(e, filter) then 1 else 0)
  {
    if es != [] {
      assert (es + [e])[1..] == es[1..] + [e];
      RatCountSnoc(es[1..], e, filter);
    }
  }

  /** `len([f for f in os.listdir(d) if f.endswith(".rat")])`, filtered. */
  function RatCount(es: seq<Entry>, filter: Option<seq<string>>): (n: nat)
    ensures n <= |es|
  {
    if es == [] then 0 else (if IsRat(es[0], filter) then 1 else 0) + RatCount(es[1..], filter)
  }

  /** The rats one level down, in every subdirectory whose name contains "burrow". */
  function BurrowRats(es: seq<Entry>, filter: Option<seq<string>>): nat
  {
    if es == [] then 0
    else
      (match es[0]
       case Dir(n, kids) => if Contains(n, "burrow") then RatCount(kids, filter) else 0
       case File(_) => 0)
      + BurrowRats(es[1..], filter)
  }

  datatype Counts = Counts(totalRats: nat, surfaceRats: nat, burrowedRats: nat)

  /** `count_rats(directory, include_burrows, rat_types)` on the listing `es` of `directory`. */
  function CountRats(es: seq<Entry>, includeBurrows: bool, filter: Option<seq<string>>): (c: Counts)
    ensures c.totalRats == c.surfaceRats + c.burrowedRats
    ensures c.surfaceRats <= |es|
    ensures !includeBurrows ==> c.burrowedRats == 0 && c.totalRats == c.surfaceRats
  {
    var surface := RatCount(es, filter);
    var burrowed := if includeBurrows then BurrowRats(es, filter) else 0;
    Counts(surface + burrowed, surface, burrowed)
  }

  /** The surface count does not depend on `include_burrows`. */
  lemma SurfaceIgnoresBurrowFlag(es: seq<Entry>, filter: Option<seq<string>>)
    ensures CountRats(es, true, filter).surfaceRats == CountRats(es, false, filter).surfaceRats
    ensures CountRats(es, false, filter).totalRats == CountRats(es, true, filter).totalRats - CountRats(es, true, filter).burrowedRats
  {
  }

  /** Some rat is counted exactly when the listing holds an entry that counts. */
  lemma {:induction false} RatCountPositive(es: seq<Entry>, filter: Option<seq<string>>)
    ensures RatCount(es, filter) > 0 <==> exists i | 0 <= i < |es| :: IsRat(es[i], filter)
  {
    if es != [] {
      RatCountPositive(es[1..], filter);
      if exists i | 0 <= i < |es| :: IsRat(es[i], filter) {
        var i :| 0 <= i < |es| && IsRat(es[i], filter);
        if i > 0 {
          assert es[1..][i - 1] == es[i];
        }
      }
      if exists i | 0 <= i < |es[1..]| :: IsRat(es[1..][i], filter) {
        var i :| 0 <= i < |es[1..]| && IsRat(es[1..][i], filter);
        assert es[i + 1] == es[1..][i];
      }
    }
  }

  /** The empty filter list and no filter count the same. */
  lemma {:induction false} EmptyFilterIsNoFilter(es: seq<Entry>)
    ensures RatCount(es, Some([])) == RatCount(es, None)
    ensures BurrowRats(es, Some([])) == BurrowRats(es, None)
  {
    if es != [] {
      EmptyFilterIsNoFilter(es[1..]);
      match es[0]
      case Dir(n, kids) => EmptyFilterIsNoFilter(kids);
      case File(_) =>
    }
  }

  /** Filtering counts a subset: never more than without a filter. */
  lemma {:induction false} FilterNeverAdds(es: seq<Entry>, filter: Option<seq<string>>)
    ensures RatCount(es, filter) <= RatCount(es, None)
    ensures BurrowRats(es, filter) <= BurrowRats(es, None)
  {
    if es != [] {
      FilterNeverAdds(es[1..], filter);
      match es[0]
      case Dir(n, kids) => FilterNeverAdds(kids, filter);
      case File(_) =>
    }
  }

  /** The filtered count of `count_rats` never exceeds the unfiltered one. */
  lemma FilteredTotalNeverAbove(es: seq<Entry>, includeBurrows: bool, filter: Option<seq<string>>)
    ensures CountRats(es, includeBurrows, filter).totalRats <= CountRats(es, includeBurrows, None).totalRats
    ensures CountRats(es, includeBurrows, filter).surfaceRats <= CountRats(es, includeBurrows, None).surfaceRats
  {
    FilterNeverAdds(es, filter);
  }

  /** The filter loses nothing exactly when every ".rat" entry mentions one of the listed types. */
  lemma {:induction false} FilterKeepsAll(es: seq<Entry>, filter: Option<seq<string>>)
    ensures RatCount(es, filter) == RatCount(es, None)
        <==> forall i | 0 <= i < |es| :: EndsWith(es[i].name, ".rat") ==> Admits(filter, es[i].name)
  {
    if es != [] {
      FilterKeepsAll(es[1..], filter);
      FilterNeverAdds(es[1..], filter);
      var all := forall i | 0 <= i < |es| :: EndsWith(es[i].name, ".rat") ==> Admits(filter, es[i].name);
      var tail := forall i | 0 <= i < |es[1..]| :: EndsWith(es[1..][i].name, ".rat") ==> Admits(filter, es[1..][i].name);
      if tail && (EndsWith(es[0].name, ".rat") ==> Admits(filter, es[0].name)) {
        forall i | 0 <= i < |es|
          ensures EndsWith(es[i].name, ".rat") ==> Admits(filter, es[i].name)
        {
          if i > 0 { assert es[i] == es[1..][i - 1]; }
        }
      }
      if all {
        forall i | 0 <= i < |es[1..]|
          ensures EndsWith(es[1..][i].name, ".rat") ==> Admits(filter, es[1..][i].name)
        {
          assert es[1..][i] == es[i + 1];
        }
      }
    }
  }

  /** What `count_rats` can see: top-level names, and the names inside subdirectories named like a burrow. */
  function Shallow(es: seq<Entry>): seq<Entry>
  {
    if es == [] then []
    else
      [match es[0]
       case File(n) => File(n)
       case Dir(n, kids) => Dir(n, if Contains(n, "burrow") then Stubs(kids) else [])]
      + Shallow(es[1..])
  }

  /** A listing with every subdirectory emptied. */
  function Stubs(es: seq<Entry>): seq<Entry>
  {
    if es == [] then []
    else
      [match es[0]
       case File(n) => File(n)
       case Dir(n, _) => Dir(n, [])]
      + Stubs(es[1..])
  }

  lemma {:induction false} StubsCount(es: seq<Entry>, filter: Option<seq<string>>)
    ensures RatCount(Stubs(es), filter) == RatCount(es, filter)
  {
    if es != [] {
      StubsCount(es[1..], filter);
      assert Stubs(es)[1..] == Stubs(es[1..]);
    }
  }

  /**
    Counting looks exactly one level down and only into burrow-named
    subdirectories: the deeper tree and every other subdirectory's contents
    do not change any of the three counts.
   */
  lemma {:induction false} CountSeesTwoLevels(es: seq<Entry>, includeBurrows: bool, filter: Option<seq<string>>)
    ensures CountRats(Shallow(es), includeBurrows, filter) == CountRats(es, includeBurrows, filter)
  {
    ShallowCount(es, filter);
  }

  lemma {:induction false} ShallowCount(es: seq<Entry>, filter: Option<seq<string>>)
    ensures RatCount(Shallow(es), filter) == RatCount(es, filter)
    ensures BurrowRats(Shallow(es), filter) == BurrowRats(es, filter)
  {
    if es != [] {
      ShallowCount(es[1..], filter);
      assert Shallow(es)[1..] == Shallow(es[1..]);
      match es[0]
      case File(_) =>
      case Dir(n, kids) => StubsCount(kids, filter);
    }
  }
}
