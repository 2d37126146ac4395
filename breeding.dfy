/**
  The specification of `create_rats` in src/ratpack/infest.py, one loop
  iteration at a time.  The random choices are given: each iteration reads
  one `Roll` holding the value `random.random()` returned, the index
  `random.choice(rat_types)` picked and the base name of the image
  `random.choice(images)` picked.
 */
module Breeding {
  import opened Wrappers
  import opened Strings
  import opened FileTree
  import opened Census

  /** A value of `RAT_REGISTRY`: `{"type": "burrow", "contains": [...]}` or `{"type": "rat", "data": {"type": t, "id": n}}`. */
  datatype Record = Burrow(contains: seq<string>) | Rat(ratType: string, id: nat)

  type Registry = map<string, Record>

  datatype Roll = Roll(draw: real, pick: nat, image: string)

  /** The exceptions an iteration can raise; none of them is caught. */
  datatype Failure =
    | FileExists(path: string)        // os.makedirs: a file already has the burrow's name
    | NoSuchDirectory(path: string)   // os.listdir in count_rats: the target directory is missing
    | EmptyChoice                     // random.choice([]) on an empty rat_types list
    | IsADirectory(path: string)      // shutil.copy: the destination is a directory after all

  const BURROW_NAME: string := "rat burrow"
  const BURROW_DECREMENT: real := 0.2

  /** `min(5, max(1, infestation_level))`. */
  function ClampLevel(level: int): (n: int)
    ensures 1 <= n <= 5
    ensures 1 <= level <= 5 ==> n == level
    ensures level < 1 ==> n == 1
    ensures level > 5 ==> n == 5
  {
    var atLeastOne := if level < 1 then 1 else level;
    if atLeastOne > 5 then 5 else atLeastOne
  }

  /** `min(1.0, max(0.0, burrow_probability))`. */
  function ClampProbability(p: real): (q: real)
    ensures 0.0 <= q <= 1.0
    ensures 0.0 <= p <= 1.0 ==> q == p
    ensures p < 0.0 ==> q == 0.0
    ensures p > 1.0 ==> q == 1.0
  {
    var atLeastZero := if p < 0.0 then 0.0 else p;
    if atLeastZero > 1.0 then 1.0 else atLeastZero
  }

  /** `f'{rat_type}_id_{n}.rat'`. */
  function RatName(ratType: string, id: nat): string
  {
    ratType + "_id_" + Decimal(id) + ".rat"
  }

  /** What the loop carries from one iteration to the next. */
  datatype Nest = Nest(listing: seq<Entry>, registry: Registry, directory: string, rel: seq<string>, probability: real)

  /** Where the loop stopped: its state then, the paths of the rats it copied and the exception it raised, if any. */
  datatype Hatch = Hatch(nest: Nest, copies: seq<string>, failure: Option<Failure>)

  /**
    The burrow step: when the probability beats the draw, the loop moves into
    `<directory>/rat burrow`, creating it unless it exists, lowers the
    probability by 0.2 and registers the burrow with nothing in it.
   */
  function Dig(st: Nest, draw: real): (r: Result<Nest, Failure>)
    ensures st.probability <= draw ==> r == Ok(st)
    ensures st.probability > draw ==>
      (r.Err? <==> EntryAt(st.listing, st.rel, BURROW_NAME).Some? && EntryAt(st.listing, st.rel, BURROW_NAME).value.File?)
    ensures st.probability > draw && r.Ok? ==>
      && r.value.directory == Join(st.directory, BURROW_NAME)
      && r.value.rel == st.rel + [BURROW_NAME]
      && r.value.probability == st.probability - BURROW_DECREMENT
      && r.value.registry == st.registry[r.value.directory := Burrow([])]
      && r.value.listing == (if EntryAt(st.listing, st.rel, BURROW_NAME).None? then AddAt(st.listing, st.rel, Dir(BURROW_NAME, [])) else st.listing)
      && (ListingAt(st.listing, st.rel).Some? ==> ListingAt(r.value.listing, r.value.rel).Some?)
      && (ListingAt(st.listing, st.rel).Some? && EntryAt(st.listing, st.rel, BURROW_NAME).None? ==> ListingAt(r.value.listing, r.value.rel) == Some([]))
  {
    if st.probability > draw then
      var directory := Join(st.directory, BURROW_NAME);
      match EntryAt(st.listing, st.rel, BURROW_NAME)
      case Some(File(_)) => Err(FileExists(directory))
      case found =>
        var listing := if found.None? then AddAt(st.listing, st.rel, Dir(BURROW_NAME, [])) else st.listing;
        Appended(st.listing, st.rel, Dir(BURROW_NAME, []));
        ListingAtSnoc(listing, st.rel, BURROW_NAME);
        Ok(Nest(listing, st.registry[directory := Burrow([])], directory, st.rel + [BURROW_NAME], st.probability - BURROW_DECREMENT))
    else Ok(st)
  }

  /**
    `shutil.copy(image, <directory at rel>/<name>)`: a new file appears when
    the name is free, an existing file is overwritten, and an existing
    directory receives a file named like the image instead.
   */
  function Copy(es: seq<Entry>, rel: seq<string>, name: string, image: string, path: string): (r: Result<seq<Entry>, Failure>)
    ensures ListingAt(es, rel).Some? && r.Ok? ==> ListingAt(r.value, rel).Some? && EntryAt(r.value, rel, name).Some?
    ensures ListingAt(es, rel).Some? && EntryAt(es, rel, name).None? ==>
      r.Ok? && ListingAt(r.value, rel) == Some(ListingAt(es, rel).value + [File(name)])
    ensures EntryAt(es, rel, name).Some? && EntryAt(es, rel, name).value.File? ==> r == Ok(es)
    ensures EntryAt(es, rel, name).Some? && EntryAt(es, rel, name).value.Dir? && r.Ok? ==> EntryAt(r.value, rel + [name], image).Some?
    ensures r.Err? ==> EntryAt(es, rel, name).Some? && EntryAt(es, rel, name).value.Dir?
    ensures EntryAt(es, rel, name).None? ==> r == Ok(AddAt(es, rel, File(name)))
    ensures EntryAt(es, rel, name).Some? && EntryAt(es, rel, name).value.Dir? ==>
      && (EntryAt(es, rel + [name], image).None? ==> r == Ok(AddAt(es, rel + [name], File(image))))
      && (EntryAt(es, rel + [name], image).Some? && EntryAt(es, rel + [name], image).value.File? ==> r == Ok(es))
      && (EntryAt(es, rel + [name], image).Some? && EntryAt(es, rel + [name], image).value.Dir? ==> r == Err(IsADirectory(Join(path, image))))
  {
    match EntryAt(es, rel, name)
    case None =>
      Appended(es, rel, File(name));
      Ok(AddAt(es, rel, File(name)))
    case Some(File(_)) => Ok(es)
    case Some(Dir(_, _)) =>
      ListingAtSnoc(es, rel, name);
      match EntryAt(es, rel + [name], image)
      case None =>
        var into := AddAt(es, rel + [name], File(image));
        Appended(es, rel + [name], File(image));
        ListingAtSnoc(into, rel, name);
        Ok(into)
      case Some(File(_)) => Ok(es)
      case Some(Dir(_, _)) => Err(IsADirectory(Join(path, image)))
  }

  /**
    A copy into an existing directory creates no directory and at most one
    file: `<rel>/<name>` when the name is free, `<rel>/<name>/<image>` when
    the name is a directory without that file, and none when it overwrites.
   */
  lemma CopyLocations(es: seq<Entry>, rel: seq<string>, name: string, image: string, path: string)
    requires ListingAt(es, rel).Some? && Copy(es, rel, name, image, path).Ok?
    ensures DirLocations(Copy(es, rel, name, image, path).value) == DirLocations(es)
    ensures FileLocations(Copy(es, rel, name, image, path).value) == FileLocations(es) +
      if EntryAt(es, rel, name).None? then {rel + [name]}
      else if EntryAt(es, rel, name).value.Dir? && EntryAt(es, rel + [name], image).None? then {rel + [name] + [image]}
      else {}
  {
    if EntryAt(es, rel, name).None? {
      AddFileLocations(es, rel, name);
    } else if EntryAt(es, rel, name).value.Dir? && EntryAt(es, rel + [name], image).None? {
      ListingAtSnoc(es, rel, name);
      AddFileLocations(es, rel + [name], image);
    }
  }

  /** The burrow step creates no file and at most the one burrow directory. */
  lemma DigLocations(st: Nest, draw: real)
    requires ListingAt(st.listing, st.rel).Some? && Dig(st, draw).Ok?
    ensures FileLocations(Dig(st, draw).value.listing) == FileLocations(st.listing)
    ensures DirLocations(Dig(st, draw).value.listing) == DirLocations(st.listing) +
      if st.probability > draw && EntryAt(st.listing, st.rel, BURROW_NAME).None? then {st.rel + [BURROW_NAME]} else {}
  {
    if st.probability > draw && EntryAt(st.listing, st.rel, BURROW_NAME).None? {
      AddDirLocations(st.listing, st.rel, BURROW_NAME);
    }
  }

  /**
    The tree a successful `shutil.copy` leaves: a file appended under a free
    name, a file named like the image appended inside a directory of that name
    when it has none, and otherwise the tree as it was (an existing file is
    overwritten in place).
   */
  function Copied(es: seq<Entry>, rel: seq<string>, name: string, image: string): seq<Entry>
  {
    var found := EntryAt(es, rel, name);
    if found.None? then AddAt(es, rel, File(name))
    else if found.value.Dir? && EntryAt(es, rel + [name], image).None? then AddAt(es, rel + [name], File(image))
    else es
  }

  /** A copy that succeeds leaves exactly the tree `Copied` describes. */
  lemma CopyLeaves(es: seq<Entry>, rel: seq<string>, name: string, image: string, path: string)
    requires Copy(es, rel, name, image, path).Ok?
    ensures Copy(es, rel, name, image, path).value == Copied(es, rel, name, image)
  {
  }

  /** The rat step: count, choose a type, copy the image and register the rat. */
  function Drop(st: Nest, types: seq<string>, roll: Roll, inBurrow: bool): (r: Hatch)
    requires inBurrow ==> st.directory in st.registry && st.registry[st.directory].Burrow?
    ensures r.failure.Some? ==> r.nest == st && r.copies == []
    ensures r.failure.Some? ==>
      r.failure == Some(NoSuchDirectory(st.directory)) || r.failure == Some(EmptyChoice) || r.failure.value.IsADirectory?
    ensures r.failure == Some(NoSuchDirectory(st.directory)) <==> ListingAt(st.listing, st.rel).None?
    ensures ListingAt(st.listing, st.rel).Some? ==> (r.failure == Some(EmptyChoice) <==> |types| == 0)
    ensures ListingAt(st.listing, st.rel).Some? && |types| > 0 ==>
      var name := RatName(types[roll.pick % |types|], RatCount(ListingAt(st.listing, st.rel).value, None) + 1);
      (r.failure.Some? <==>
        && EntryAt(st.listing, st.rel, name).Some? && EntryAt(st.listing, st.rel, name).value.Dir?
        && EntryAt(st.listing, st.rel + [name], roll.image).Some? && EntryAt(st.listing, st.rel + [name], roll.image).value.Dir?)
    ensures r.failure.None? ==>
      && |types| > 0
      && ListingAt(st.listing, st.rel).Some?
      && r == Placed(st, types[roll.pick % |types|], RatCount(ListingAt(st.listing, st.rel).value, None) + 1, roll.image, inBurrow)
  {
    match ListingAt(st.listing, st.rel)
    case None => Hatch(st, [], Some(NoSuchDirectory(st.directory)))
    case Some(here) =>
      var ratCount := CountRats(here, false, None).totalRats;
      assert ratCount == RatCount(here, None);
      if |types| == 0 then Hatch(st, [], Some(EmptyChoice))
      else
        var ratType := types[roll.pick % |types|];
        var name := RatName(ratType, ratCount + 1);
        var ratPath := Join(st.directory, name);
        match Copy(st.listing, st.rel, name, roll.image, ratPath)
        case Err(f) => Hatch(st, [], Some(f))
        case Ok(listing) =>
          CopyLeaves(st.listing, st.rel, name, roll.image, ratPath);
          Placed(st, ratType, ratCount + 1, roll.image, inBurrow)
  }

  /** The state after the rat `<type>_id_<id>.rat` is copied from `image` and registered. */
  function Placed(st: Nest, ratType: string, id: nat, image: string, inBurrow: bool): (r: Hatch)
    requires inBurrow ==> st.directory in st.registry && st.registry[st.directory].Burrow?
    requires ListingAt(st.listing, st.rel).Some?
    ensures var name := RatName(ratType, id);
      var found := EntryAt(st.listing, st.rel, name);
      && r.failure.None?
      && r.copies == [Join(st.directory, name)]
      && ListingAt(r.nest.listing, st.rel).Some?
      && EntryAt(r.nest.listing, st.rel, name).Some?
      && (found.None? ==> ListingAt(r.nest.listing, st.rel) == Some(ListingAt(st.listing, st.rel).value + [File(name)]))
      && (found.Some? && found.value.Dir? ==> EntryAt(r.nest.listing, st.rel + [name], image).Some?)
      && r.nest.listing == Copied(st.listing, st.rel, name, image)
      && r.nest.directory == st.directory && r.nest.rel == st.rel && r.nest.probability == st.probability
      && r.nest.registry ==
           if inBurrow then st.registry[st.directory := Burrow(st.registry[st.directory].contains + r.copies)]
           else st.registry[r.copies[0] := Rat(ratType, id)]
  {
    var name := RatName(ratType, id);
    var ratPath := Join(st.directory, name);
    var listing := Copied(st.listing, st.rel, name, image);
    Appended(st.listing, st.rel, File(name));
    ListingAtSnoc(st.listing, st.rel, name);
    Appended(st.listing, st.rel + [name], File(image));
    ListingAtSnoc(AddAt(st.listing, st.rel + [name], File(image)), st.rel, name);
    var registry :=
      if inBurrow then st.registry[st.directory := Burrow(st.registry[st.directory].contains + [ratPath])]
      else st.registry[ratPath := Rat(ratType, id)];
    Hatch(Nest(listing, registry, st.directory, st.rel, st.probability), [ratPath], None)
  }

  /** One iteration of the `while infestation_level > 0` loop. */
  function Spawn(st: Nest, types: seq<string>, roll: Roll): Hatch
  {
    match Dig(st, roll.draw)
    case Err(f) => Hatch(st, [], Some(f))
    case Ok(dug) => Drop(dug, types, roll, st.probability > roll.draw)
  }

  /** The loop run once per roll, stopping at the first exception. */
  function Breed(st: Nest, types: seq<string>, rolls: seq<Roll>): Hatch
    decreases |rolls|
  {
    if rolls == [] then Hatch(st, [], None)
    else
      var h := Spawn(st, types, rolls[0]);
      if h.failure.Some? then h
      else
        var rest := Breed(h.nest, types, rolls[1..]);
        Hatch(rest.nest, h.copies + rest.copies, rest.failure)
  }

  /** An iteration that raises ends the run with that iteration's result. */
  lemma BreedStops(st: Nest, types: seq<string>, rolls: seq<Roll>, h: Hatch)
    requires rolls != [] && Spawn(st, types, rolls[0]) == h && h.failure.Some?
    ensures Breed(st, types, rolls) == h
  {
  }

  /** An iteration that returns hands its state to the rest of the run. */
  lemma BreedGoesOn(st: Nest, types: seq<string>, rolls: seq<Roll>, next: Nest, copies: seq<string>)
    requires rolls != [] && Spawn(st, types, rolls[0]) == Hatch(next, copies, None)
    ensures Breed(st, types, rolls).nest == Breed(next, types, rolls[1..]).nest
    ensures Breed(st, types, rolls).failure == Breed(next, types, rolls[1..]).failure
  {
  }

  /** The burrow step that creates or enters `<directory>/rat burrow`. */
  lemma DigInto(st: Nest, draw: real, next: Nest)
    requires st.probability > draw
    requires EntryAt(st.listing, st.rel, BURROW_NAME).None? || EntryAt(st.listing, st.rel, BURROW_NAME).value.Dir?
    requires next.listing == if EntryAt(st.listing, st.rel, BURROW_NAME).None? then AddAt(st.listing, st.rel, Dir(BURROW_NAME, [])) else st.listing
    requires next.directory == Join(st.directory, BURROW_NAME) && next.rel == st.rel + [BURROW_NAME]
    requires next.probability == st.probability - BURROW_DECREMENT
    requires next.registry == st.registry[next.directory := Burrow([])]
    ensures Dig(st, draw) == Ok(next)
  {
  }

  /** The burrow step raises when a file already has the burrow's name. */
  lemma SpawnBlocked(st: Nest, types: seq<string>, roll: Roll)
    requires st.probability > roll.draw
    requires EntryAt(st.listing, st.rel, BURROW_NAME).Some? && EntryAt(st.listing, st.rel, BURROW_NAME).value.File?
    ensures Spawn(st, types, roll) == Hatch(st, [], Some(FileExists(Join(st.directory, BURROW_NAME))))
  {
  }

  /** The rat step raises when the directory is missing or the type list is empty; nothing changes then. */
  lemma DropRaises(st: Nest, types: seq<string>, roll: Roll, inBurrow: bool)
    requires inBurrow ==> st.directory in st.registry && st.registry[st.directory].Burrow?
    ensures ListingAt(st.listing, st.rel).None? ==> Drop(st, types, roll, inBurrow) == Hatch(st, [], Some(NoSuchDirectory(st.directory)))
    ensures ListingAt(st.listing, st.rel).Some? && types == [] ==> Drop(st, types, roll, inBurrow) == Hatch(st, [], Some(EmptyChoice))
  {
  }

  /** The rat step raises what the copy raises. */
  lemma DropCopyFails(st: Nest, types: seq<string>, roll: Roll, inBurrow: bool, here: seq<Entry>, id: nat, ratType: string,
                      ratPath: string, f: Failure)
    requires inBurrow ==> st.directory in st.registry && st.registry[st.directory].Burrow?
    requires ListingAt(st.listing, st.rel) == Some(here) && id == CountRats(here, false, None).totalRats + 1
    requires |types| > 0 && ratType == types[roll.pick % |types|]
    requires ratPath == Join(st.directory, RatName(ratType, id))
    requires Copy(st.listing, st.rel, RatName(ratType, id), roll.image, ratPath) == Err(f)
    ensures Drop(st, types, roll, inBurrow) == Hatch(st, [], Some(f))
  {
  }

  /** An iteration whose burrow step returned continues with the rat step. */
  lemma SpawnIsDrop(st: Nest, types: seq<string>, roll: Roll, dug: Nest)
    requires Dig(st, roll.draw) == Ok(dug)
    ensures Spawn(st, types, roll) == Drop(dug, types, roll, st.probability > roll.draw)
  {
  }

  /** The rat step that copies and registers a rat. */
  lemma DropDone(st: Nest, types: seq<string>, roll: Roll, inBurrow: bool, here: seq<Entry>, id: nat, ratType: string,
                 ratPath: string, listing: seq<Entry>, registry: Registry)
    requires inBurrow ==> st.directory in st.registry && st.registry[st.directory].Burrow?
    requires ListingAt(st.listing, st.rel) == Some(here) && id == CountRats(here, false, None).totalRats + 1
    requires |types| > 0 && ratType == types[roll.pick % |types|]
    requires ratPath == Join(st.directory, RatName(ratType, id))
    requires Copy(st.listing, st.rel, RatName(ratType, id), roll.image, ratPath) == Ok(listing)
    requires registry == if inBurrow then st.registry[st.directory := Burrow(st.registry[st.directory].contains + [ratPath])]
                         else st.registry[ratPath := Rat(ratType, id)]
    ensures Drop(st, types, roll, inBurrow) == Hatch(Nest(listing, registry, st.directory, st.rel, st.probability), [ratPath], None)
  {
  }

  /** The state `create_rats` starts its loop from. */
  function Start(listing: seq<Entry>, registry: Registry, directory: string, burrowProbability: real): (st: Nest)
    ensures st.listing == listing && st.registry == registry && st.directory == directory && st.rel == []
    ensures 0.0 <= st.probability <= 1.0
    ensures 0.0 <= burrowProbability <= 1.0 ==> st.probability == burrowProbability
  {
    Nest(listing, registry, directory, [], ClampProbability(burrowProbability))
  }

  /** An iteration that starts in an existing directory and returns ends in an existing directory. */
  lemma SpawnKeepsDirectory(st: Nest, types: seq<string>, roll: Roll)
    requires ListingAt(st.listing, st.rel).Some? && Spawn(st, types, roll).failure.None?
    ensures ListingAt(Spawn(st, types, roll).nest.listing, Spawn(st, types, roll).nest.rel).Some?
  {
    var dug := Dig(st, roll.draw).value;
    assert ListingAt(dug.listing, dug.rel).Some?;
    assert Spawn(st, types, roll) == Drop(dug, types, roll, st.probability > roll.draw);
  }

  /**
    A run that starts in an existing directory never raises FileNotFoundError:
    the burrow step always leaves the loop in a directory that exists.
   */
  lemma {:induction false} BreedNeverMissing(st: Nest, types: seq<string>, rolls: seq<Roll>)
    requires ListingAt(st.listing, st.rel).Some?
    ensures Breed(st, types, rolls).failure.Some? ==> !Breed(st, types, rolls).failure.value.NoSuchDirectory?
    decreases |rolls|
  {
    if rolls != [] {
      var h := Spawn(st, types, rolls[0]);
      if h.failure.None? {
        SpawnKeepsDirectory(st, types, rolls[0]);
        BreedNeverMissing(h.nest, types, rolls[1..]);
        BreedStep(st, types, rolls, h, Breed(h.nest, types, rolls[1..]));
      } else {
        BreedStops(st, types, rolls, h);
        match Dig(st, rolls[0].draw)
        case Err(_) =>
        case Ok(dug) =>
          assert ListingAt(dug.listing, dug.rel).Some?;
      }
    }
  }

  /** `create_rats` starts in the directory it was given, so it never raises FileNotFoundError. */
  lemma StartNeverMissing(listing: seq<Entry>, registry: Registry, directory: string, burrowProbability: real,
                          types: seq<string>, rolls: seq<Roll>)
    ensures var h := Breed(Start(listing, registry, directory, burrowProbability), types, rolls);
      h.failure.Some? ==> !h.failure.value.NoSuchDirectory?
  {
    BreedNeverMissing(Start(listing, registry, directory, burrowProbability), types, rolls);
  }

  /**
    An iteration that returns copies exactly one rat, named
    `<type>_id_<k+1>.rat` in the directory it ended up in, where `k` counts
    the ".rat" entries directly in that directory beforehand (no type filter,
    no burrows) and the type is the rolled element of `types`.
   */
  lemma SpawnNamesRat(st: Nest, types: seq<string>, roll: Roll)
    requires Spawn(st, types, roll).failure.None?
    ensures Dig(st, roll.draw).Ok?
    ensures var dug := Dig(st, roll.draw).value;
      && |types| > 0
      && ListingAt(dug.listing, dug.rel).Some?
      && Spawn(st, types, roll).nest.directory == dug.directory
      && (var k := RatCount(ListingAt(dug.listing, dug.rel).value, None);
          Spawn(st, types, roll).copies == [Join(dug.directory, RatName(types[roll.pick % |types|], k + 1))])
  {
    var dug := Dig(st, roll.draw).value;
    assert Spawn(st, types, roll) == Drop(dug, types, roll, st.probability > roll.draw);
  }

  /**
    The registry after one iteration: a burrow iteration registers the new
    burrow path holding exactly the rat it copied; any other iteration
    registers the rat under its own path with its type and id.  Nothing else
    in the registry changes.
   */
  lemma SpawnRegisters(st: Nest, types: seq<string>, roll: Roll)
    requires Spawn(st, types, roll).failure.None?
    ensures var h := Spawn(st, types, roll);
      if st.probability > roll.draw then
        && h.nest.directory == Join(st.directory, BURROW_NAME)
        && h.nest.registry == st.registry[h.nest.directory := Burrow(h.copies)]
      else
        && h.nest.directory == st.directory
        && |types| > 0
        && ListingAt(st.listing, st.rel).Some?
        && var k := RatCount(ListingAt(st.listing, st.rel).value, None);
           h.nest.registry == st.registry[h.copies[0] := Rat(types[roll.pick % |types|], k + 1)]
  {
    if st.probability > roll.draw {
      BurrowRegisters(st, types, roll);
    } else {
      SurfaceRegisters(st, types, roll);
    }
  }

  /** `SpawnRegisters` for an iteration that does not dig. */
  lemma SurfaceRegisters(st: Nest, types: seq<string>, roll: Roll)
    requires Spawn(st, types, roll).failure.None? && st.probability <= roll.draw
    ensures var h := Spawn(st, types, roll);
      && h.nest.directory == st.directory
      && |types| > 0
      && ListingAt(st.listing, st.rel).Some?
      && var k := RatCount(ListingAt(st.listing, st.rel).value, None);
         h.nest.registry == st.registry[h.copies[0] := Rat(types[roll.pick % |types|], k + 1)]
  {
    assert Dig(st, roll.draw) == Ok(st);
    assert Spawn(st, types, roll) == Drop(st, types, roll, false);
  }

  /** `SpawnRegisters` for an iteration that digs. */
  lemma BurrowRegisters(st: Nest, types: seq<string>, roll: Roll)
    requires Spawn(st, types, roll).failure.None? && st.probability > roll.draw
    ensures var h := Spawn(st, types, roll);
      && h.nest.directory == Join(st.directory, BURROW_NAME)
      && h.nest.registry == st.registry[h.nest.directory := Burrow(h.copies)]
  {
    var dug := Dig(st, roll.draw).value;
    var h := Drop(dug, types, roll, true);
    assert Spawn(st, types, roll) == h;
    assert dug.directory == h.nest.directory == Join(st.directory, BURROW_NAME);
    assert dug.registry == st.registry[dug.directory := Burrow([])];
    assert h.nest.registry == dug.registry[dug.directory := Burrow([] + h.copies)];
    assert [] + h.copies == h.copies;
    UpdateTwice(st.registry, dug.directory, Burrow([]), Burrow(h.copies));
  }

  /** A second update of the same key overrides the first. */
  lemma UpdateTwice<K, V>(m: map<K, V>, k: K, a: V, b: V)
    ensures m[k := a][k := b] == m[k := b]
  {
  }

  /** The loop stops with `random.choice` failing exactly when an explicit empty type list reaches it. */
  lemma SpawnEmptyChoice(st: Nest, types: seq<string>, roll: Roll)
    requires Dig(st, roll.draw).Ok?
    requires ListingAt(Dig(st, roll.draw).value.listing, Dig(st, roll.draw).value.rel).Some?
    ensures Spawn(st, types, roll).failure == Some(EmptyChoice) <==> types == []
  {
  }

  /** A path joined onto a rat name ends in ".rat". */
  lemma RatPathEndsInRat(directory: string, ratType: string, id: nat)
    ensures EndsWith(Join(directory, RatName(ratType, id)), ".rat")
  {
    var name := RatName(ratType, id);
    var p := Join(directory, name);
    JoinEnds(directory, name);
    assert p[|p| - 4..] == name[|name| - 4..];
  }

  /** An iteration that returns puts its copies before those of the rest of the run. */
  lemma BreedStep(st: Nest, types: seq<string>, rolls: seq<Roll>, h: Hatch, rest: Hatch)
    requires rolls != [] && h == Spawn(st, types, rolls[0]) && h.failure.None?
    requires rest == Breed(h.nest, types, rolls[1..])
    ensures Breed(st, types, rolls) == Hatch(rest.nest, h.copies + rest.copies, rest.failure)
  {
  }

  /** A successful run copies exactly one rat per iteration. */
  lemma {:induction false} BreedCopiesOnePerRoll(st: Nest, types: seq<string>, rolls: seq<Roll>)
    ensures |Breed(st, types, rolls).copies| <= |rolls|
    ensures Breed(st, types, rolls).failure.None? ==> |Breed(st, types, rolls).copies| == |rolls|
    decreases |rolls|
  {
    if rolls != [] {
      var h := Spawn(st, types, rolls[0]);
      if h.failure.None? {
        SpawnNamesRat(st, types, rolls[0]);
        BreedCopiesOnePerRoll(h.nest, types, rolls[1..]);
        BreedStep(st, types, rolls, h, Breed(h.nest, types, rolls[1..]));
      } else {
        BreedStops(st, types, rolls, h);
      }
    }
  }

  /** Every path in `ps` names a ".rat" file. */
  predicate RatPaths(ps: seq<string>)
  {
    forall i | 0 <= i < |ps| :: EndsWith(ps[i], ".rat")
  }

  lemma RatPathsAppend(a: seq<string>, b: seq<string>)
    requires RatPaths(a) && RatPaths(b)
    ensures RatPaths(a + b)
  {
    forall i | 0 <= i < |a + b|
      ensures EndsWith((a + b)[i], ".rat")
    {
      if i < |a| {
        assert (a + b)[i] == a[i];
      } else {
        assert (a + b)[i] == b[i - |a|];
      }
    }
  }

  /** The copy an iteration makes is a ".rat" path. */
  lemma SpawnCopiesRats(st: Nest, types: seq<string>, roll: Roll)
    requires Spawn(st, types, roll).failure.None?
    ensures RatPaths(Spawn(st, types, roll).copies)
  {
    SpawnNamesRat(st, types, roll);
    var dug := Dig(st, roll.draw).value;
    var k := RatCount(ListingAt(dug.listing, dug.rel).value, None);
    RatPathEndsInRat(dug.directory, types[roll.pick % |types|], k + 1);
  }

  /** Every copy of a run is a ".rat" path. */
  lemma {:induction false} BreedCopiesAreRats(st: Nest, types: seq<string>, rolls: seq<Roll>)
    ensures RatPaths(Breed(st, types, rolls).copies)
    decreases |rolls|
  {
    if rolls != [] {
      var h := Spawn(st, types, rolls[0]);
      if h.failure.None? {
        SpawnCopiesRats(st, types, rolls[0]);
        BreedCopiesAreRats(h.nest, types, rolls[1..]);
        var rest := Breed(h.nest, types, rolls[1..]);
        BreedStep(st, types, rolls, h, rest);
        RatPathsAppend(h.copies, rest.copies);
      } else {
        BreedStops(st, types, rolls, h);
      }
    }
  }

  /** Every rat record of `after` names one of `types`, or was already in `before` under the same path. */
  ghost predicate RatsFrom(before: Registry, after: Registry, types: seq<string>)
  {
    forall p | p in after && after[p].Rat? :: after[p].ratType in types || (p in before && after[p] == before[p])
  }

  lemma RatsFromTrans(a: Registry, b: Registry, c: Registry, types: seq<string>)
    requires RatsFrom(a, b, types) && RatsFrom(b, c, types)
    ensures RatsFrom(a, c, types)
  {
  }

  /** One iteration registers only burrows and rats of a type drawn from `types`. */
  lemma SpawnRatsFrom(st: Nest, types: seq<string>, roll: Roll)
    ensures RatsFrom(st.registry, Spawn(st, types, roll).nest.registry, types)
  {
    match Dig(st, roll.draw)
    case Err(_) =>
    case Ok(dug) =>
      var h := Drop(dug, types, roll, st.probability > roll.draw);
      assert RatsFrom(st.registry, dug.registry, types);
      assert RatsFrom(dug.registry, h.nest.registry, types);
      RatsFromTrans(st.registry, dug.registry, h.nest.registry, types);
  }

  /**
    Every rat record a run leaves behind has a type from the list it drew
    from (`rat_types`, or `RAT_TYPES` when that is None), unless the record
    was there before the run.
   */
  lemma {:induction false} BreedRatsFrom(st: Nest, types: seq<string>, rolls: seq<Roll>)
    ensures RatsFrom(st.registry, Breed(st, types, rolls).nest.registry, types)
    decreases |rolls|
  {
    if rolls != [] {
      var h := Spawn(st, types, rolls[0]);
      SpawnRatsFrom(st, types, rolls[0]);
      if h.failure.None? {
        BreedRatsFrom(h.nest, types, rolls[1..]);
        BreedStep(st, types, rolls, h, Breed(h.nest, types, rolls[1..]));
        RatsFromTrans(st.registry, h.nest.registry, Breed(h.nest, types, rolls[1..]).nest.registry, types);
      } else {
        BreedStops(st, types, rolls, h);
      }
    }
  }

  /** With the default list, every new rat is one of the five default types. */
  lemma DefaultRatsFrom(st: Nest, rolls: seq<Roll>)
    ensures RatsFrom(st.registry, Breed(st, RatTypesOrDefault(None), rolls).nest.registry, RAT_TYPES)
  {
    BreedRatsFrom(st, RatTypesOrDefault(None), rolls);
  }

  /** The part `_id_<n>.rat` that ends a rat name. */
  function IdSuffix(id: nat): string
  {
    "_id_" + Decimal(id) + ".rat"
  }

  /** The run of decimal digits that ends `s`. */
  function DigitRun(s: string): (d: string)
    ensures EndsWith(s, d)
    ensures forall i | 0 <= i < |d| :: IsDigit(d[i])
  {
    if s == [] || !IsDigit(s[|s| - 1]) then []
    else
      var d := DigitRun(s[..|s| - 1]);
      assert s[|s| - 1 - |d|..|s| - 1] == d;
      d + [s[|s| - 1]]
  }

  /** The digits after the last '_' are the trailing digit run. */
  lemma {:induction false} DigitRunAfterUnderscore(x: string, d: string)
    requires forall i | 0 <= i < |d| :: IsDigit(d[i])
    ensures DigitRun(x + "_" + d) == d
    decreases |d|
  {
    var s := x + "_" + d;
    if d != [] {
      var e := d[..|d| - 1];
      assert s[..|s| - 1] == x + "_" + e;
      DigitRunAfterUnderscore(x, e);
      assert e + [d[|d| - 1]] == d;
    }
  }

  /** The digits of the id are the trailing digit run of a name ending in `_id_<id>.rat`, less its `.rat`. */
  lemma IdSuffixDigits(name: string, id: nat)
    requires EndsWith(name, IdSuffix(id))
    ensures |name| >= 4 && DigitRun(name[..|name| - 4]) == Decimal(id)
  {
    var s := IdSuffix(id);
    var p := name[..|name| - |s|];
    assert name[..|name| - 4] == (p + "_id") + "_" + Decimal(id) by {
      assert name == p + s;
    }
    DecimalDigits(id);
    DigitRunAfterUnderscore(p + "_id", Decimal(id));
  }

  /** A name ends in at most one `_id_<n>.rat`: the id is determined by the name. */
  lemma IdSuffixUnique(name: string, a: nat, b: nat)
    requires EndsWith(name, IdSuffix(a)) && EndsWith(name, IdSuffix(b))
    ensures a == b
  {
    IdSuffixDigits(name, a);
    IdSuffixDigits(name, b);
    DecimalInjective(a, b);
  }

  lemma RatNameSuffix(ratType: string, id: nat)
    ensures EndsWith(RatName(ratType, id), IdSuffix(id))
  {
    assert RatName(ratType, id) == ratType + IdSuffix(id);
  }

  /** A name ending in `_id_<n>.rat` ends in ".rat", so `count_rats` counts it. */
  lemma SuffixIsRat(name: string, id: nat)
    ensures EndsWith(name, IdSuffix(id)) ==> EndsWith(name, ".rat")
  {
    if EndsWith(name, IdSuffix(id)) {
      var s := IdSuffix(id);
      assert name[|name| - 4..] == s[|s| - 4..];
    }
  }

  /**
    A listing whose `.rat` entries are numbered 1 to their count: each ends in
    `_id_<j>.rat` for some j between 1 and the count, and no two entries end
    in the same `_id_<j>.rat`, so the ids used are exactly 1 to the count.
   */
  ghost predicate Numbered(es: seq<Entry>)
  {
    && (forall i | 0 <= i < |es| && IsRat(es[i], None) ::
          exists j :: 1 <= j <= RatCount(es, None) && EndsWith(es[i].name, IdSuffix(j)))
    && (forall i, j, k: nat {:trigger EndsWith(es[i].name, IdSuffix(k)), EndsWith(es[j].name, IdSuffix(k))}
          | 0 <= i < |es| && 0 <= j < |es| && i != j && EndsWith(es[i].name, IdSuffix(k)) ::
          !EndsWith(es[j].name, IdSuffix(k)))
  }

  /** A listing with no `.rat` entry is numbered. */
  lemma NoRatsNumbered(es: seq<Entry>)
    requires RatCount(es, None) == 0
    ensures Numbered(es)
  {
    RatCountPositive(es, None);
    forall i, k: nat | 0 <= i < |es|
      ensures !EndsWith(es[i].name, IdSuffix(k))
    {
      SuffixIsRat(es[i].name, k);
    }
  }

  /** In a numbered listing every id an entry carries is between 1 and the count. */
  lemma IdBelowCount(es: seq<Entry>, i: nat, k: nat)
    requires Numbered(es) && i < |es| && EndsWith(es[i].name, IdSuffix(k))
    ensures 1 <= k <= RatCount(es, None)
  {
    SuffixIsRat(es[i].name, k);
    var j :| 1 <= j <= RatCount(es, None) && EndsWith(es[i].name, IdSuffix(j));
    IdSuffixUnique(es[i].name, j, k);
  }

  /** The name of the rat numbered one past the count is free in a numbered listing. */
  lemma NumberedFree(es: seq<Entry>, name: string)
    requires Numbered(es) && EndsWith(name, IdSuffix(RatCount(es, None) + 1))
    ensures EntryAt(es, [], name).None?
  {
    forall i | 0 <= i < |es|
      ensures es[i].name != name
    {
      if es[i].name == name {
        IdBelowCount(es, i, RatCount(es, None) + 1);
      }
    }
  }

  /** Appending the rat numbered one past the count keeps a listing numbered and counts one more. */
  lemma NumberedSnoc(es: seq<Entry>, name: string)
    requires Numbered(es) && EndsWith(name, IdSuffix(RatCount(es, None) + 1))
    ensures RatCount(es + [File(name)], None) == RatCount(es, None) + 1
    ensures Numbered(es + [File(name)])
  {
    SuffixIsRat(name, RatCount(es, None) + 1);
    RatCountSnoc(es, File(name), None);
    NumberedSnocInRange(es, name);
    NumberedSnocApart(es, name);
  }

  lemma NumberedSnocInRange(es: seq<Entry>, name: string)
    requires Numbered(es) && EndsWith(name, IdSuffix(RatCount(es, None) + 1))
    requires RatCount(es + [File(name)], None) == RatCount(es, None) + 1
    ensures var listing := es + [File(name)];
      forall i | 0 <= i < |listing| && IsRat(listing[i], None) ::
        exists j :: 1 <= j <= RatCount(listing, None) && EndsWith(listing[i].name, IdSuffix(j))
  {
    var n := RatCount(es, None);
    var listing := es + [File(name)];
    forall i | 0 <= i < |listing| && IsRat(listing[i], None)
      ensures exists j :: 1 <= j <= n + 1 && EndsWith(listing[i].name, IdSuffix(j))
    {
      if i < |es| {
        assert listing[i] == es[i];
        var j :| 1 <= j <= n && EndsWith(es[i].name, IdSuffix(j));
      } else {
        assert listing[i].name == name;
      }
    }
  }

  lemma NumberedSnocApart(es: seq<Entry>, name: string)
    requires Numbered(es) && EndsWith(name, IdSuffix(RatCount(es, None) + 1))
    ensures var listing := es + [File(name)];
      forall i, j, k: nat {:trigger EndsWith(listing[i].name, IdSuffix(k)), EndsWith(listing[j].name, IdSuffix(k))}
        | 0 <= i < |listing| && 0 <= j < |listing| && i != j && EndsWith(listing[i].name, IdSuffix(k)) ::
        !EndsWith(listing[j].name, IdSuffix(k))
  {
    var n := RatCount(es, None);
    var listing := es + [File(name)];
    forall i, j, k: nat | 0 <= i < |listing| && 0 <= j < |listing| && i != j && EndsWith(listing[i].name, IdSuffix(k))
      ensures !EndsWith(listing[j].name, IdSuffix(k))
    {
      if i < |es| && j < |es| {
        assert listing[i] == es[i] && listing[j] == es[j];
      } else if i < |es| {
        assert listing[i] == es[i] && listing[j].name == name;
        IdBelowCount(es, i, k);
        OtherId(name, k, n + 1);
      } else {
        assert listing[i].name == name && listing[j] == es[j];
        IdSuffixUnique(name, k, n + 1);
        if EndsWith(es[j].name, IdSuffix(k)) {
          IdBelowCount(es, j, k);
        }
      }
    }
  }

  /** A name that ends in `_id_<m>.rat` ends in no `_id_<k>.rat` with another id. */
  lemma OtherId(name: string, k: nat, m: nat)
    requires EndsWith(name, IdSuffix(m)) && k != m
    ensures !EndsWith(name, IdSuffix(k))
  {
    if EndsWith(name, IdSuffix(k)) {
      IdSuffixUnique(name, k, m);
    }
  }

  /** One iteration with no burrow dug appends the next numbered rat at the top. */
  lemma SpawnNumbered(st: Nest, types: seq<string>, roll: Roll)
    requires st.rel == [] && Numbered(st.listing) && |types| > 0 && roll.draw >= st.probability
    ensures var h := Spawn(st, types, roll);
      && h.failure.None? && h.nest.rel == [] && h.nest.probability == st.probability
      && h.nest.listing == st.listing + [File(RatName(types[roll.pick % |types|], RatCount(st.listing, None) + 1))]
      && RatCount(h.nest.listing, None) == RatCount(st.listing, None) + 1
      && Numbered(h.nest.listing)
  {
    assert Dig(st, roll.draw) == Ok(st);
    assert Spawn(st, types, roll) == Drop(st, types, roll, false);
    var name := RatName(types[roll.pick % |types|], RatCount(st.listing, None) + 1);
    DropAppends(st, types, roll, name);
    RatNameSuffix(types[roll.pick % |types|], RatCount(st.listing, None) + 1);
    NumberedSnoc(st.listing, name);
  }

  /** The rat step at the top, when the rat's name is free, appends it there. */
  lemma DropAppends(st: Nest, types: seq<string>, roll: Roll, name: string)
    requires st.rel == [] && Numbered(st.listing) && |types| > 0
    requires name == RatName(types[roll.pick % |types|], RatCount(st.listing, None) + 1)
    ensures var h := Drop(st, types, roll, false);
      h.failure.None? && h.nest.rel == [] && h.nest.probability == st.probability && h.nest.listing == st.listing + [File(name)]
  {
    RatNameSuffix(types[roll.pick % |types|], RatCount(st.listing, None) + 1);
    NumberedFree(st.listing, name);
    assert ListingAt(st.listing, []) == Some(st.listing);
    assert AddAt(st.listing, [], File(name)) == st.listing + [File(name)];
  }

  /**
    Breeding into a directory whose `.rat` entries are numbered, with no draw
    the probability beats, stays in that directory, keeps what was there and
    adds one new numbered rat per roll.
   */
  lemma {:induction false} BreedNumbered(st: Nest, types: seq<string>, rolls: seq<Roll>)
    requires st.rel == [] && Numbered(st.listing) && |types| > 0
    requires forall i | 0 <= i < |rolls| :: rolls[i].draw >= st.probability
    ensures var h := Breed(st, types, rolls);
      && h.failure.None? && h.nest.rel == []
      && st.listing <= h.nest.listing
      && RatCount(h.nest.listing, None) == RatCount(st.listing, None) + |rolls|
      && Numbered(h.nest.listing)
    decreases |rolls|
  {
    if rolls != [] {
      var h := Spawn(st, types, rolls[0]);
      SpawnNumbered(st, types, rolls[0]);
      assert forall i | 0 <= i < |rolls[1..]| :: rolls[1..][i] == rolls[i + 1];
      BreedNumbered(h.nest, types, rolls[1..]);
      BreedStep(st, types, rolls, h, Breed(h.nest, types, rolls[1..]));
    }
  }

  /**
    Creating N rats in a directory without `.rat` entries, where no burrow is
    dug, leaves exactly N rats on its surface and copies N rat files.
   */
  lemma FreshDirectorySurface(st: Nest, types: seq<string>, rolls: seq<Roll>)
    requires st.rel == [] && RatCount(st.listing, None) == 0 && |types| > 0
    requires forall i | 0 <= i < |rolls| :: rolls[i].draw >= st.probability
    ensures var h := Breed(st, types, rolls);
      && h.failure.None?
      && |h.copies| == |rolls|
      && CountRats(h.nest.listing, false, None).surfaceRats == |rolls|
  {
    NoRatsNumbered(st.listing);
    BreedNumbered(st, types, rolls);
    BreedCopiesOnePerRoll(st, types, rolls);
  }

  /** Every default type ends in "rat", so a default rat's name contains "rat_id". */
  lemma DefaultTypesEndInRat()
    ensures forall i | 0 <= i < |RAT_TYPES| :: EndsWith(RAT_TYPES[i], "rat")
  {
  }

  /** A rat whose type ends in "rat" passes `check_path` wherever it lies. */
  lemma RatNamePassesCheck(directory: string, ratType: string, id: nat)
    requires EndsWith(ratType, "rat")
    ensures CheckPath(Join(directory, RatName(ratType, id)), false)
  {
    var name := RatName(ratType, id);
    var p := Join(directory, name);
    var pre := ratType[..|ratType| - 3];
    assert name == pre + "rat_id" + ("_" + Decimal(id) + ".rat");
    assert OccursAt("rat_id", "rat_id", 0) && OccursAt(".rat", ".rat", 0);
    ContainsInner(pre, "rat_id", "_" + Decimal(id) + ".rat", "rat_id");
    assert name == (ratType + "_id_" + Decimal(id)) + ".rat" + "";
    ContainsInner(ratType + "_id_" + Decimal(id), ".rat", "", ".rat");
    var lead := p[..|p| - |name|];
    assert p == lead + name + "";
    ContainsInner(lead, name, "", "rat_id");
    ContainsInner(lead, name, "", ".rat");
  }
}
