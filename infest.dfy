/**
  The module-level state of src/ratpack/infest.py and the operations that
  change it: the directory tree the functions work on, updated in place by
  `create_rats` and `exterminate`, and `RAT_REGISTRY`, updated by
  `create_rats` only; and the `infest` decorator that runs `create_rats`
  before the function it wraps.
 */
module Infest {
  import opened Wrappers
  import opened Strings
  import opened FileTree
  import opened Census
  import Breeding
  import Purge

  /** The arguments `infest` uses when the decorator is given none. */
  const DEFAULT_LEVEL: int := 3
  const DEFAULT_PROBABILITY: real := 0.2

  /** The directory `create_rats` and the decorator's wrapper work in: the listing of "." and the registry. */
  class Workspace {
    var listing: seq<Entry>
    var registry: Breeding.Registry

    /** A workspace over the given tree, with an empty `RAT_REGISTRY` as at import time. */
    constructor (listing: seq<Entry>)
      ensures this.listing == listing && registry == map[]
    {
      this.listing := listing;
      this.registry := map[];
    }

    /**
      The function `infest(infestation_level, rat_types, burrow_probability)`
      decorates: it runs `create_rats` in "." and then the decorated function,
      whose result is `answer`.  An exception from `create_rats` propagates
      and the decorated function is never called.
     */
    method Wrapper<R>(infestationLevel: int, ratTypes: Option<seq<string>>, burrowProbability: real,
                      rolls: seq<Breeding.Roll>, answer: R)
        returns (r: Result<R, Breeding.Failure>)
      requires |rolls| >= Breeding.ClampLevel(infestationLevel)
      modifies this
      ensures var h := Breeding.Breed(Breeding.Start(old(listing), old(registry), ".", burrowProbability),
                                      RatTypesOrDefault(ratTypes), rolls[..Breeding.ClampLevel(infestationLevel)]);
        && listing == h.nest.listing
        && registry == h.nest.registry
        && r == if h.failure.Some? then Err(h.failure.value) else Ok(answer)
    {
      var failure := CreateRats(infestationLevel, ratTypes, burrowProbability, ".", rolls);
      if failure.Some? {
        return Err(failure.value);
      }
      return Ok(answer);
    }

    /**
      The wrapper of a function decorated with a bare `@infest()`: three
      iterations, any of the five default types, burrow probability 0.2.
     */
    method DefaultWrapper<R>(rolls: seq<Breeding.Roll>, answer: R) returns (r: Result<R, Breeding.Failure>)
      requires |rolls| >= DEFAULT_LEVEL
      modifies this
      ensures var h := Breeding.Breed(Breeding.Start(old(listing), old(registry), ".", 0.2), RAT_TYPES, rolls[..3]);
        && listing == h.nest.listing
        && registry == h.nest.registry
        && r == if h.failure.Some? then Err(h.failure.value) else Ok(answer)
    {
      r := Wrapper(DEFAULT_LEVEL, None, DEFAULT_PROBABILITY, rolls, answer);
    }

    /**
      `create_rats(infestation_level, rat_types, burrow_probability, directory)`
      for a workspace whose tree is the listing of `directory`.  The loop runs
      `min(5, max(1, infestation_level))` times and reads the next roll on each
      iteration; an exception ends it, leaving whatever the iterations before
      it and the failed iteration's burrow step already changed.
     */
    method CreateRats(infestationLevel: int, ratTypes: Option<seq<string>>, burrowProbability: real, directory: string, rolls: seq<Breeding.Roll>)
        returns (failure: Option<Breeding.Failure>)
      requires |rolls| >= Breeding.ClampLevel(infestationLevel)
      modifies this
      ensures var h := Breeding.Breed(Breeding.Start(old(listing), old(registry), directory, burrowProbability),
                                      RatTypesOrDefault(ratTypes), rolls[..Breeding.ClampLevel(infestationLevel)]);
        && listing == h.nest.listing
        && registry == h.nest.registry
        && failure == h.failure
    {
      ghost var T := RatTypesOrDefault(ratTypes);
      ghost var goal := Breeding.Breed(Breeding.Start(listing, registry, directory, burrowProbability), T,
                                       rolls[..Breeding.ClampLevel(infestationLevel)]);

      var level := if infestationLevel < 1 then 1 else infestationLevel;
      level := if level > 5 then 5 else level;
      var probability := if burrowProbability < 0.0 then 0.0 else burrowProbability;
      probability := if probability > 1.0 then 1.0 else probability;
      var dir := directory;
      var rel: seq<string> := [];  // where `dir` lies below `directory`
      var types := ratTypes;
      var pending := rolls[..level];  // the random draws still to come, one roll per iteration
      while level > 0
        invariant |pending| == level
        invariant RatTypesOrDefault(types) == T
        invariant var rest := Breeding.Breed(Breeding.Nest(listing, registry, dir, rel, probability), T, pending);
          rest.nest == goal.nest && rest.failure == goal.failure
      {
        ghost var cur := Breeding.Nest(listing, registry, dir, rel, probability);
        var raised;
        raised, types, dir, rel, probability := Iterate(types, dir, rel, probability, pending[0]);
        ghost var h := Breeding.Spawn(cur, T, pending[0]);
        if raised.Some? {
          Breeding.BreedStops(cur, T, pending, h);
          return raised;
        }
        Breeding.BreedGoesOn(cur, T, pending, Breeding.Nest(listing, registry, dir, rel, probability), h.copies);
        pending := pending[1..];
        level := level - 1;
      }
      return None;
    }

    /**
      One iteration of the `while infestation_level > 0` loop of `create_rats`,
      from the loop's variables `rat_types`, `directory` (with its location
      below the workspace) and `burrow_probability` to their new values.
     */
    method Iterate(types: Option<seq<string>>, dir: string, rel: seq<string>, probability: real, roll: Breeding.Roll)
        returns (failure: Option<Breeding.Failure>, types': Option<seq<string>>, dir': string, rel': seq<string>, probability': real)
      modifies this
      ensures RatTypesOrDefault(types') == RatTypesOrDefault(types)
      ensures var h := Breeding.Spawn(Breeding.Nest(old(listing), old(registry), dir, rel, probability), RatTypesOrDefault(types), roll);
        && failure == h.failure
        && listing == h.nest.listing && registry == h.nest.registry
        && (failure.None? ==> h.nest == Breeding.Nest(listing, registry, dir', rel', probability'))
    {
      ghost var cur := Breeding.Nest(listing, registry, dir, rel, probability);
      var inBurrow;
      failure, dir', rel', probability', inBurrow := DigBurrow(dir, rel, probability, roll.draw);
      types' := types;
      if failure.Some? {
        return;
      }
      ghost var dug := Breeding.Nest(listing, registry, dir', rel', probability');
      Breeding.SpawnIsDrop(cur, RatTypesOrDefault(types), roll, dug);
      failure, types' := PlaceRat(types, dir', rel', probability', roll, inBurrow);
    }

    /**
      The burrow step of an iteration: when `burrow_probability` beats the
      draw, move into `<directory>/rat burrow` (`os.makedirs(..., exist_ok=True)`),
      lower the probability by 0.2 and register the burrow as empty.
     */
    method DigBurrow(dir: string, rel: seq<string>, probability: real, draw: real)
        returns (failure: Option<Breeding.Failure>, dir': string, rel': seq<string>, probability': real, inBurrow: bool)
      modifies this
      ensures inBurrow == (probability > draw)
      ensures var d := Breeding.Dig(Breeding.Nest(old(listing), old(registry), dir, rel, probability), draw);
        && (d.Err? ==> failure == Some(d.error) && listing == old(listing) && registry == old(registry))
        && (d.Ok? ==> failure.None? && d.value == Breeding.Nest(listing, registry, dir', rel', probability'))
    {
      ghost var cur := Breeding.Nest(listing, registry, dir, rel, probability);
      dir', rel', probability' := dir, rel, probability;
      inBurrow := false;
      failure := None;
      if probability > draw {
        var existing := EntryAt(listing, rel, Breeding.BURROW_NAME);
        if existing.Some? && existing.value.File? {
          return Some(Breeding.FileExists(Join(dir, Breeding.BURROW_NAME))), dir', rel', probability', true;
        }
        if existing.None? {
          listing := AddAt(listing, rel, Dir(Breeding.BURROW_NAME, []));
        }
        dir' := Join(dir, Breeding.BURROW_NAME);
        rel' := rel + [Breeding.BURROW_NAME];
        probability' := probability - Breeding.BURROW_DECREMENT;
        inBurrow := true;
        registry := registry[dir' := Breeding.Burrow([])];
        Breeding.DigInto(cur, draw, Breeding.Nest(listing, registry, dir', rel', probability'));
      }
    }

    /**
      The rat step of an iteration: count the ".rat" entries of the current
      directory, pick a type, copy the image to `<directory>/<type>_id_<k+1>.rat`
      and register the rat, in the burrow's `contains` list when this
      iteration dug one.
     */
    method PlaceRat(types: Option<seq<string>>, dir: string, rel: seq<string>, ghost probability: real, roll: Breeding.Roll, inBurrow: bool)
        returns (failure: Option<Breeding.Failure>, types': Option<seq<string>>)
      requires inBurrow ==> dir in registry && registry[dir].Burrow?
      modifies this
      ensures RatTypesOrDefault(types') == RatTypesOrDefault(types)
      ensures var h := Breeding.Drop(Breeding.Nest(old(listing), old(registry), dir, rel, probability), RatTypesOrDefault(types), roll, inBurrow);
        failure == h.failure && listing == h.nest.listing && registry == h.nest.registry
    {
      ghost var T := RatTypesOrDefault(types);
      ghost var st := Breeding.Nest(listing, registry, dir, rel, probability);
      Breeding.DropRaises(st, T, roll, inBurrow);
      types' := types;
      var here := ListingAt(listing, rel);
      if here.None? {
        return Some(Breeding.NoSuchDirectory(dir)), types';
      }
      var ratCount := CountRats(here.value, false, None).totalRats;
      if types'.None? {
        types' := Some(RAT_TYPES);
      }
      if |types'.value| == 0 {
        return Some(Breeding.EmptyChoice), types';
      }
      var ratType := types'.value[roll.pick % |types'.value|];
      failure := Release(dir, rel, probability, T, roll, inBurrow, here.value, ratType, ratCount + 1);
    }

    /**
      Copy the image to `<directory>/<type>_id_<id>.rat` and register the rat,
      in the burrow's `contains` list when the iteration dug one.
     */
    method Release(dir: string, rel: seq<string>, ghost probability: real, ghost types: seq<string>, roll: Breeding.Roll,
                   inBurrow: bool, here: seq<Entry>, ratType: string, id: nat)
        returns (failure: Option<Breeding.Failure>)
      requires inBurrow ==> dir in registry && registry[dir].Burrow?
      requires ListingAt(listing, rel) == Some(here) && id == CountRats(here, false, None).totalRats + 1
      requires |types| > 0 && ratType == types[roll.pick % |types|]
      modifies this
      ensures var h := Breeding.Drop(Breeding.Nest(old(listing), old(registry), dir, rel, probability), types, roll, inBurrow);
        failure == h.failure && listing == h.nest.listing && registry == h.nest.registry
    {
      ghost var st := Breeding.Nest(listing, registry, dir, rel, probability);
      var ratPath := Join(dir, Breeding.RatName(ratType, id));
      var copied := Breeding.Copy(listing, rel, Breeding.RatName(ratType, id), roll.image, ratPath);
      if copied.Err? {
        Breeding.DropCopyFails(st, types, roll, inBurrow, here, id, ratType, ratPath, copied.error);
        return Some(copied.error);
      }
      listing := copied.value;
      if inBurrow {
        registry := registry[dir := Breeding.Burrow(registry[dir].contains + [ratPath])];
      } else {
        registry := registry[ratPath := Breeding.Rat(ratType, id)];
      }
      Breeding.DropDone(st, types, roll, inBurrow, here, id, ratType, ratPath, listing, registry);
      failure := None;
    }

    /**
      `exterminate(directory, rat_types, burrows_only, dry_run)` for a
      workspace whose tree is the listing of `directory`.  The walk is
      collected up front: `os.walk` would list the same directories and files,
      since the loop removes only files of directories it has already listed.
      `RAT_REGISTRY` is left as it is.
     */
    method Exterminate(directory: string, ratTypes: Option<seq<string>>, burrowsOnly: bool, dryRun: bool)
        returns (result: Result<Purge.Stats, Purge.Failure>)
      modifies this
      ensures var out := Purge.Exterminate(Purge.Order(directory, old(listing), RatTypesOrDefault(ratTypes), burrowsOnly), dryRun);
        result == out.result && listing == out.listing
      ensures registry == old(registry)
    {
      var surfaceLeft := if burrowsOnly then Some(CountRats(listing, true, None).surfaceRats) else None;
      var types := RatTypesOrDefault(ratTypes);
      ghost var o := Purge.Order(directory, listing, types, burrowsOnly);
      var w := Walk(directory, [], listing);
      var ratsRemoved, burrowsRemoved := 0, 0;
      var inBurrow := false;
      ghost var swept: seq<seq<string>> := [];
      Purge.RemainsAtStart(o, dryRun);
      for k := 0 to |w|
        invariant w == Purge.Plan(o)
        invariant inBurrow == (k > 0 && Purge.Armed(w, k - 1))
        invariant swept == Purge.Swept(o, w, k) && ratsRemoved == |swept|
        invariant burrowsRemoved == Purge.BurrowVisits(w, k)
        invariant listing == Purge.Remains(o, dryRun, swept)
        invariant registry == old(registry)
      {
        if Basename(w[k].root) == Purge.BURROW {
          burrowsRemoved := burrowsRemoved + 1;
          inBurrow := true;
        }
        ghost var picked;
        var removed;
        removed, picked := Sweep(directory, types, burrowsOnly, dryRun, o, swept, w[k], inBurrow);
        Purge.SweptStep(o, w, k, swept, picked);
        swept := swept + picked;
        ratsRemoved := ratsRemoved + removed;
      }
      var stats := Purge.Stats(ratsRemoved, burrowsRemoved, surfaceLeft);
      Purge.ExterminateEnds(o, dryRun, swept, stats);
      var raised := RemoveBurrow(directory, dryRun);
      if raised.Some? {
        return Err(raised.value);
      }
      return Ok(stats);
    }

    /**
      The last step of `exterminate`: `shutil.rmtree(<directory>/burrow)` when
      it exists, this is not a dry run and `os.listdir` finds it empty; when
      it is a file, `os.listdir` raises instead.
     */
    method RemoveBurrow(directory: string, dryRun: bool) returns (raised: Option<Purge.Failure>)
      modifies this
      ensures match Purge.Cleanup(old(listing), dryRun, directory)
        case Err(f) => raised == Some(f) && listing == old(listing)
        case Ok(l) => raised.None? && listing == l
      ensures registry == old(registry)
    {
      var burrow := Find(listing, Purge.BURROW);
      if burrow.Some? && !dryRun {
        if burrow.value.File? {
          return Some(Purge.NotADirectory(Join(directory, Purge.BURROW)));
        }
        if burrow.value.entries == [] {
          listing := Unlink(listing, Purge.BURROW);
        }
      }
      return None;
    }

    /**
      The `for file in files` loop of one step of the walk: remove (or, in a
      dry run, only count) each file `check_path` and the type filter select,
      skipping them all while `burrows_only` is set and no burrow has been
      visited.
     */
    method Sweep(directory: string, types: seq<string>, burrowsOnly: bool, dryRun: bool,
                 ghost o: Purge.Order, ghost done: seq<seq<string>>, v: Visit, inBurrow: bool)
        returns (removed: nat, ghost picked: seq<seq<string>>)
      requires o == Purge.Order(directory, o.top, types, burrowsOnly)
      requires listing == Purge.Remains(o, dryRun, done)
      modifies this
      ensures picked == Purge.Picked(o, v, inBurrow, |v.files|) && removed == |picked|
      ensures listing == Purge.Remains(o, dryRun, done + picked)
      ensures registry == old(registry)
    {
      removed, picked := 0, [];
      assert done + picked == done;
      for j := 0 to |v.files|
        invariant picked == Purge.Picked(o, v, inBurrow, j) && removed == |picked|
        invariant listing == Purge.Remains(o, dryRun, done + picked)
        invariant registry == old(registry)
      {
        removed, picked := SweepFile(directory, types, burrowsOnly, dryRun, o, done, v, inBurrow, j, removed, picked);
      }
    }

    /** One turn of the `for file in files` loop: the `j`-th file of the step. */
    method SweepFile(directory: string, types: seq<string>, burrowsOnly: bool, dryRun: bool,
                     ghost o: Purge.Order, ghost done: seq<seq<string>>, v: Visit, inBurrow: bool,
                     j: nat, removed: nat, ghost picked: seq<seq<string>>)
        returns (removed': nat, ghost picked': seq<seq<string>>)
      requires o == Purge.Order(directory, o.top, types, burrowsOnly)
      requires j < |v.files|
      requires picked == Purge.Picked(o, v, inBurrow, j) && removed == |picked|
      requires listing == Purge.Remains(o, dryRun, done + picked)
      modifies this
      ensures picked' == Purge.Picked(o, v, inBurrow, j + 1) && removed' == |picked'|
      ensures listing == Purge.Remains(o, dryRun, done + picked')
      ensures registry == old(registry)
    {
      removed', picked' := removed, picked;
      var file := v.files[j];
      var hit := CheckPath(Join(directory, file), IsDirNamed(listing, file)) && MentionsAny(file, types);
      Purge.SweepStep(o, dryRun, done, v, inBurrow, j, picked, listing, hit && !(!inBurrow && burrowsOnly));
      if hit {
        if !inBurrow && burrowsOnly {
          return;
        }
        removed' := removed + 1;
        if !dryRun {
          listing := RemoveFile(listing, v.rel, file);
        }
        picked' := picked + [v.rel + [file]];
      }
    }
  }
}
