/**
  An in-memory directory tree standing in for the filesystem that infest.py
  reads with `os.listdir`/`os.walk` and changes with `os.makedirs`,
  `shutil.copy`, `os.remove` and `shutil.rmtree`.  A directory is the
  sequence of its entries in listing order; a location below a directory
  is the sequence of directory names leading to it.
 */
module FileTree {
  import opened Wrappers
  import opened Strings

  datatype Entry = File(name: string) | Dir(name: string, entries: seq<Entry>)

  /** The entry called `name` in a listing (the first one, should there be several). */
  function Find(es: seq<Entry>, name: string): (r: Option<Entry>)
    ensures r.Some? ==> r.value in es && r.value.name == name
    ensures r.None? <==> forall i | 0 <= i < |es| :: es[i].name != name
  {
    if es == [] then None
    else if es[0].name == name then Some(es[0])
    else Find(es[1..], name)
  }

  /** `os.path.isdir(<dir>/<name>)` for an entry of the listing `es` of `<dir>`. */
  predicate IsDirNamed(es: seq<Entry>, name: string)
  {
    exists i | 0 <= i < |es| :: es[i].Dir? && es[i].name == name
  }

  /** The listing of the directory reached from `es` through the names in `rel`, if it exists. */
  function ListingAt(es: seq<Entry>, rel: seq<string>): Option<seq<Entry>>
    decreases |rel|
  {
    if rel == [] then Some(es)
    else match Find(es, rel[0])
      case Some(Dir(_, kids)) => ListingAt(kids, rel[1..])
      case _ => None
  }

  /** The entry called `name` in the directory at `rel`: `os.path.exists` and `os.path.isdir` look at it. */
  function EntryAt(es: seq<Entry>, rel: seq<string>, name: string): Option<Entry>
  {
    match ListingAt(es, rel)
    case None => None
    case Some(l) => Find(l, name)
  }

  /** The directory at `rel + [n]` is the directory entry called `n` in the directory at `rel`. */
  lemma {:induction false} ListingAtSnoc(es: seq<Entry>, rel: seq<string>, n: string)
    ensures ListingAt(es, rel + [n]) == match EntryAt(es, rel, n)
      case Some(Dir(_, kids)) => Some(kids)
      case _ => None
    decreases |rel|
  {
    if rel != [] {
      assert (rel + [n])[0] == rel[0] && (rel + [n])[1..] == rel[1..] + [n];
      match Find(es, rel[0])
      case Some(Dir(_, kids)) => ListingAtSnoc(kids, rel[1..], n);
      case _ =>
    }
  }

  /** The names of the non-directory entries, in listing order (the `files` of `os.walk`). */
  function Files(es: seq<Entry>): (fs: seq<string>)
    ensures |fs| <= |es|
  {
    if es == [] then []
    else (if es[0].File? then [es[0].name] else []) + Files(es[1..])
  }

  /** Adds `e` at the end of the directory at `rel` (nothing changes if there is none). */
  function AddAt(es: seq<Entry>, rel: seq<string>, e: Entry): seq<Entry>
    decreases |rel|, |es|
  {
    if rel == [] then es + [e]
    else if es == [] then es
    else if es[0].name != rel[0] then [es[0]] + AddAt(es[1..], rel, e)
    else match es[0]
      case File(_) => es
      case Dir(n, kids) => [Dir(n, AddAt(kids, rel[1..], e))] + es[1..]
  }

  lemma {:induction false} AddAtListing(es: seq<Entry>, rel: seq<string>, e: Entry)
    requires ListingAt(es, rel).Some?
    ensures ListingAt(AddAt(es, rel, e), rel) == Some(ListingAt(es, rel).value + [e])
    decreases |rel|, |es|
  {
    if rel != [] {
      assert es != [];
      if es[0].name != rel[0] {
        AddAtListing(es[1..], rel, e);
        assert ([es[0]] + AddAt(es[1..], rel, e))[1..] == AddAt(es[1..], rel, e);
      } else {
        match es[0]
        case Dir(n, kids) =>
          AddAtListing(kids, rel[1..], e);
      }
    }
  }

  /** The new entry is what the name now refers to, when the name was free. */
  lemma AddAtEntry(es: seq<Entry>, rel: seq<string>, e: Entry)
    requires ListingAt(es, rel).Some? && EntryAt(es, rel, e.name).None?
    ensures EntryAt(AddAt(es, rel, e), rel, e.name) == Some(e)
  {
    AddAtListing(es, rel, e);
    var l := ListingAt(es, rel).value;
    assert (l + [e])[|l|] == e;
  }

  /** Adding to an existing directory appends to it, and a free name then refers to the new entry. */
  lemma Appended(es: seq<Entry>, rel: seq<string>, e: Entry)
    ensures ListingAt(es, rel).Some? ==> ListingAt(AddAt(es, rel, e), rel) == Some(ListingAt(es, rel).value + [e])
    ensures ListingAt(es, rel).Some? && EntryAt(es, rel, e.name).None? ==> EntryAt(AddAt(es, rel, e), rel, e.name) == Some(e)
  {
    if ListingAt(es, rel).Some? {
      AddAtListing(es, rel, e);
      if EntryAt(es, rel, e.name).None? {
        AddAtEntry(es, rel, e);
      }
    }
  }

  /** `os.remove` of the file `name` in the directory at `rel`. */
  function RemoveFile(es: seq<Entry>, rel: seq<string>, name: string): seq<Entry>
    decreases es
  {
    if es == [] then []
    else
      var rest := RemoveFile(es[1..], rel, name);
      match es[0]
      case File(n) => if rel == [] && n == name then rest else [es[0]] + rest
      case Dir(n, kids) =>
        [if rel != [] && n == rel[0] then Dir(n, RemoveFile(kids, rel[1..], name)) else es[0]] + rest
  }

  /** The locations of `S` that lie below the entry `n`, relative to it. */
  function Below(S: set<seq<string>>, n: string): set<seq<string>>
  {
    set p | p in S && |p| > 0 && p[0] == n :: p[1..]
  }

  /** The tree with every file whose location is in `S` removed; directories all stay. */
  function Without(es: seq<Entry>, S: set<seq<string>>): seq<Entry>
    decreases es
  {
    if es == [] then []
    else
      var rest := Without(es[1..], S);
      match es[0]
      case File(n) => if [n] in S then rest else [es[0]] + rest
      case Dir(n, kids) => [Dir(n, Without(kids, Below(S, n)))] + rest
  }

  /** Pruning no location changes nothing. */
  lemma {:induction false} WithoutNothing(es: seq<Entry>)
    ensures Without(es, {}) == es
    decreases es
  {
    if es != [] {
      WithoutNothing(es[1..]);
      match es[0]
      case File(n) =>
      case Dir(n, kids) =>
        assert Below({}, n) == {};
        WithoutNothing(kids);
    }
  }

  lemma {:induction false} WithoutIgnoresRoot(es: seq<Entry>, S: set<seq<string>>)
    ensures Without(es, S + {[]}) == Without(es, S)
    decreases es
  {
    if es != [] {
      WithoutIgnoresRoot(es[1..], S);
      match es[0]
      case File(n) =>
      case Dir(n, kids) =>
        assert Below(S + {[]}, n) == Below(S, n);
    }
  }

  /** Removing one more file from a pruned tree prunes it by one more location. */
  lemma {:induction false} RemoveFileWithout(es: seq<Entry>, S: set<seq<string>>, rel: seq<string>, name: string)
    ensures RemoveFile(Without(es, S), rel, name) == Without(es, S + {rel + [name]})
    decreases es
  {
    var q := rel + [name];
    if es != [] {
      RemoveFileWithout(es[1..], S, rel, name);
      var rest := Without(es[1..], S);
      match es[0]
      case File(n) =>
        assert ([n] == q) <==> (rel == [] && n == name) by {
          if [n] == q { assert |rel| == 0; }
          if rel == [] { assert q == [name]; }
        }
        if [n] !in S {
          assert ([es[0]] + rest)[1..] == rest;
        }
      case Dir(n, kids) =>
        var w := [Dir(n, Without(kids, Below(S, n)))] + rest;
        assert w[1..] == rest;
        if rel != [] && n == rel[0] {
          assert Below(S + {q}, n) == Below(S, n) + {rel[1..] + [name]} by {
            assert q[1..] == rel[1..] + [name];
          }
          RemoveFileWithout(kids, Below(S, n), rel[1..], name);
        } else if rel == [] && n == name {
          assert Below(S + {q}, n) == Below(S, n) + {[]} by {
            assert q[1..] == [];
          }
          WithoutIgnoresRoot(kids, Below(S, n));
        } else {
          assert Below(S + {q}, n) == Below(S, n);
        }
    }
  }

  /** The locations of all the files of a tree, at every depth. */
  function FileLocations(es: seq<Entry>): (L: set<seq<string>>)
    ensures forall p | p in L :: |p| >= 1
    decreases es
  {
    if es == [] then {}
    else
      (match es[0]
       case File(n) => {[n]}
       case Dir(n, kids) => Under(n, FileLocations(kids)))
      + FileLocations(es[1..])
  }

  /** The locations `L`, seen from the directory that holds the entry `n`. */
  function Under(n: string, L: set<seq<string>>): set<seq<string>>
  {
    set p | p in L :: [n] + p
  }

  lemma UnderWithout(n: string, L: set<seq<string>>, S: set<seq<string>>)
    ensures Under(n, L - Below(S, n)) == Under(n, L) - S
  {
    forall p | p in Under(n, L) - S
      ensures p in Under(n, L - Below(S, n))
    {
      var q :| q in L && p == [n] + q;
      forall t | t in S && |t| > 0 && t[0] == n
        ensures t[1..] != q
      {
        assert t == [t[0]] + t[1..];
      }
    }
    forall p | p in Under(n, L - Below(S, n))
      ensures p in Under(n, L) - S
    {
      var q :| q in L - Below(S, n) && p == [n] + q;
      assert p[1..] == q;
    }
  }

  /** Pruning removes exactly the pruned locations, at every depth. */
  lemma {:induction false} WithoutLocations(es: seq<Entry>, S: set<seq<string>>)
    ensures FileLocations(Without(es, S)) == FileLocations(es) - S
    decreases es
  {
    if es != [] {
      WithoutLocations(es[1..], S);
      var rest := Without(es[1..], S);
      match es[0]
      case File(n) =>
        if [n] !in S {
          assert ([es[0]] + rest)[1..] == rest;
        }
      case Dir(n, kids) =>
        var w := [Dir(n, Without(kids, Below(S, n)))] + rest;
        assert w[1..] == rest;
        WithoutLocations(kids, Below(S, n));
        UnderWithout(n, FileLocations(kids), S);
    }
  }

  /** Pruning files keeps every directory, at every depth. */
  lemma {:induction false} WithoutDirLocations(es: seq<Entry>, S: set<seq<string>>)
    ensures DirLocations(Without(es, S)) == DirLocations(es)
    decreases es
  {
    if es != [] {
      WithoutDirLocations(es[1..], S);
      var rest := Without(es[1..], S);
      match es[0]
      case File(n) =>
        if [n] !in S {
          assert ([es[0]] + rest)[1..] == rest;
        }
      case Dir(n, kids) =>
        var w := [Dir(n, Without(kids, Below(S, n)))] + rest;
        assert w[1..] == rest;
        WithoutDirLocations(kids, Below(S, n));
    }
  }

  /** The locations of all the directories of a tree, at every depth. */
  function DirLocations(es: seq<Entry>): set<seq<string>>
    decreases es
  {
    if es == [] then {}
    else
      (match es[0]
       case File(_) => {}
       case Dir(n, kids) => {[n]} + Under(n, DirLocations(kids)))
      + DirLocations(es[1..])
  }

  /** The locations `L`, seen from the directory above the location `rel`. */
  function Prefixed(rel: seq<string>, L: set<seq<string>>): set<seq<string>>
  {
    set p | p in L :: rel + p
  }

  lemma PrefixedNothing(L: set<seq<string>>)
    ensures Prefixed([], L) == L
  {
    assert forall p: seq<string> | p in L :: [] + p == p;
  }

  lemma UnderUnion(n: string, A: set<seq<string>>, B: set<seq<string>>)
    ensures Under(n, A + B) == Under(n, A) + Under(n, B)
  {
  }

  lemma UnderPrefixed(n: string, rest: seq<string>, L: set<seq<string>>)
    ensures Under(n, Prefixed(rest, L)) == Prefixed([n] + rest, L)
  {
    forall q | q in L
      ensures [n] + (rest + q) == ([n] + rest) + q
    {
      AppendAssoc([n], rest, q);
    }
  }

  /** The locations of a listing are those of its first entry and those of the rest. */
  lemma ConsLocations(x: Entry, r: seq<Entry>)
    ensures FileLocations([x] + r) == FileLocations([x]) + FileLocations(r)
    ensures DirLocations([x] + r) == DirLocations([x]) + DirLocations(r)
  {
    assert ([x] + r)[0] == x && ([x] + r)[1..] == r;
    assert [x][1..] == [];
  }

  lemma {:induction false} SnocLocations(es: seq<Entry>, e: Entry)
    ensures FileLocations(es + [e]) == FileLocations(es) + FileLocations([e])
    ensures DirLocations(es + [e]) == DirLocations(es) + DirLocations([e])
  {
    if es != [] {
      var x, r := es[0], es[1..];
      SnocLocations(r, e);
      assert es + [e] == [x] + (r + [e]);
      ConsLocations(x, r + [e]);
      assert es == [x] + r;
      ConsLocations(x, r);
    }
  }

  /**
    Adding an entry to an existing directory adds exactly that entry's files
    and directories, at that directory's location, and changes no other
    location of the tree.
   */
  lemma {:induction false} AddAtLocations(es: seq<Entry>, rel: seq<string>, e: Entry)
    requires ListingAt(es, rel).Some?
    ensures FileLocations(AddAt(es, rel, e)) == FileLocations(es) + Prefixed(rel, FileLocations([e]))
    ensures DirLocations(AddAt(es, rel, e)) == DirLocations(es) + Prefixed(rel, DirLocations([e]))
    decreases |rel|, |es|, 1
  {
    if rel == [] {
      SnocLocations(es, e);
      PrefixedNothing(FileLocations([e]));
      PrefixedNothing(DirLocations([e]));
    } else if es[0].name != rel[0] {
      AddAtPast(es, rel, e);
    } else {
      AddAtInto(es, rel, e);
    }
  }

  /** Adding below a later entry leaves the first entry's locations as they are. */
  lemma {:induction false} AddAtPast(es: seq<Entry>, rel: seq<string>, e: Entry)
    requires ListingAt(es, rel).Some? && rel != [] && es != [] && es[0].name != rel[0]
    ensures FileLocations(AddAt(es, rel, e)) == FileLocations(es) + Prefixed(rel, FileLocations([e]))
    ensures DirLocations(AddAt(es, rel, e)) == DirLocations(es) + Prefixed(rel, DirLocations([e]))
    decreases |rel|, |es|, 0
  {
    assert es == [es[0]] + es[1..];
    ConsLocations(es[0], es[1..]);
    assert Find(es, rel[0]) == Find(es[1..], rel[0]);
    AddAtLocations(es[1..], rel, e);
    ConsLocations(es[0], AddAt(es[1..], rel, e));
  }

  /** Adding inside the first entry adds the new locations below it. */
  lemma {:induction false} AddAtInto(es: seq<Entry>, rel: seq<string>, e: Entry)
    requires ListingAt(es, rel).Some? && rel != [] && es != [] && es[0].name == rel[0]
    ensures FileLocations(AddAt(es, rel, e)) == FileLocations(es) + Prefixed(rel, FileLocations([e]))
    ensures DirLocations(AddAt(es, rel, e)) == DirLocations(es) + Prefixed(rel, DirLocations([e]))
    decreases |rel|, |es|, 0
  {
    assert Find(es, rel[0]) == Some(es[0]);
    var n, kids := es[0].name, es[0].entries;
    var kids' := AddAt(kids, rel[1..], e);
    assert AddAt(es, rel, e) == [Dir(n, kids')] + es[1..];
    assert es == [Dir(n, kids)] + es[1..];
    assert [n] + rel[1..] == rel;
    AddAtLocations(kids, rel[1..], e);
    IntoFiles(n, kids, kids', es[1..], rel[1..], e);
    IntoDirs(n, kids, kids', es[1..], rel[1..], e);
  }

  /** Files added below a directory's contents are added below the directory. */
  lemma IntoFiles(n: string, kids: seq<Entry>, kids': seq<Entry>, rest: seq<Entry>, tail: seq<string>, e: Entry)
    requires FileLocations(kids') == FileLocations(kids) + Prefixed(tail, FileLocations([e]))
    ensures FileLocations([Dir(n, kids')] + rest) == FileLocations([Dir(n, kids)] + rest) + Prefixed([n] + tail, FileLocations([e]))
  {
    ConsLocations(Dir(n, kids), rest);
    ConsLocations(Dir(n, kids'), rest);
    OneDirLocations(n, kids);
    OneDirLocations(n, kids');
    UnderUnion(n, FileLocations(kids), Prefixed(tail, FileLocations([e])));
    UnderPrefixed(n, tail, FileLocations([e]));
  }

  /** Directories added below a directory's contents are added below the directory. */
  lemma IntoDirs(n: string, kids: seq<Entry>, kids': seq<Entry>, rest: seq<Entry>, tail: seq<string>, e: Entry)
    requires DirLocations(kids') == DirLocations(kids) + Prefixed(tail, DirLocations([e]))
    ensures DirLocations([Dir(n, kids')] + rest) == DirLocations([Dir(n, kids)] + rest) + Prefixed([n] + tail, DirLocations([e]))
  {
    ConsLocations(Dir(n, kids), rest);
    ConsLocations(Dir(n, kids'), rest);
    OneDirLocations(n, kids);
    OneDirLocations(n, kids');
    UnderUnion(n, DirLocations(kids), Prefixed(tail, DirLocations([e])));
    UnderPrefixed(n, tail, DirLocations([e]));
  }

  /** The locations of a single directory entry. */
  lemma OneDirLocations(n: string, kids: seq<Entry>)
    ensures FileLocations([Dir(n, kids)]) == Under(n, FileLocations(kids))
    ensures DirLocations([Dir(n, kids)]) == {[n]} + Under(n, DirLocations(kids))
  {
    assert [Dir(n, kids)][0] == Dir(n, kids) && [Dir(n, kids)][1..] == [];
  }

  /** A new file adds one file location and leaves every directory in place. */
  lemma AddFileLocations(es: seq<Entry>, rel: seq<string>, name: string)
    requires ListingAt(es, rel).Some?
    ensures FileLocations(AddAt(es, rel, File(name))) == FileLocations(es) + {rel + [name]}
    ensures DirLocations(AddAt(es, rel, File(name))) == DirLocations(es)
  {
    AddAtLocations(es, rel, File(name));
    assert FileLocations([File(name)]) == {[name]};
    assert DirLocations([File(name)]) == {};
    assert Prefixed(rel, {[name]}) == {rel + [name]};
  }

  /** A new empty directory adds one directory location and no file. */
  lemma AddDirLocations(es: seq<Entry>, rel: seq<string>, name: string)
    requires ListingAt(es, rel).Some?
    ensures FileLocations(AddAt(es, rel, Dir(name, []))) == FileLocations(es)
    ensures DirLocations(AddAt(es, rel, Dir(name, []))) == DirLocations(es) + {rel + [name]}
  {
    AddAtLocations(es, rel, Dir(name, []));
    assert FileLocations([Dir(name, [])]) == {} by {
      assert Under(name, {}) == {};
    }
    assert DirLocations([Dir(name, [])]) == {[name]} by {
      assert Under(name, {}) == {};
    }
    assert Prefixed(rel, {[name]}) == {rel + [name]};
  }

  /** `shutil.rmtree` of a top-level entry adds no file location. */
  lemma {:induction false} UnlinkLocations(es: seq<Entry>, name: string)
    ensures FileLocations(Unlink(es, name)) <= FileLocations(es)
  {
    if es != [] {
      UnlinkLocations(es[1..], name);
      if es[0].name != name {
        assert Unlink(es, name)[1..] == Unlink(es[1..], name);
      } else {
        assert Unlink(es, name) == Unlink(es[1..], name);
      }
    }
  }

  lemma IsDirNamedCons(x: Entry, r: seq<Entry>, name: string)
    ensures IsDirNamed([x] + r, name) <==> (x.Dir? && x.name == name) || IsDirNamed(r, name)
  {
    var w := [x] + r;
    if IsDirNamed(r, name) {
      var i :| 0 <= i < |r| && r[i].Dir? && r[i].name == name;
      assert w[i + 1] == r[i];
    }
    if IsDirNamed(w, name) && !(x.Dir? && x.name == name) {
      var i :| 0 <= i < |w| && w[i].Dir? && w[i].name == name;
      assert w[0] == x;
      assert r[i - 1] == w[i];
    }
  }

  lemma {:induction false} WithoutKeepsDirs(es: seq<Entry>, S: set<seq<string>>, name: string)
    ensures IsDirNamed(Without(es, S), name) == IsDirNamed(es, name)
    decreases es
  {
    if es != [] {
      WithoutKeepsDirs(es[1..], S, name);
      var rest := Without(es[1..], S);
      assert es == [es[0]] + es[1..];
      IsDirNamedCons(es[0], es[1..], name);
      match es[0]
      case File(n) =>
        IsDirNamedCons(es[0], rest, name);
      case Dir(n, kids) =>
        IsDirNamedCons(Dir(n, Without(kids, Below(S, n))), rest, name);
    }
  }

  /** `shutil.rmtree` of the entry `name` of a listing. */
  function Unlink(es: seq<Entry>, name: string): (r: seq<Entry>)
    ensures Find(r, name).None?
    ensures forall i | 0 <= i < |r| :: r[i] in es
    ensures forall e | e in es && e.name != name :: e in r
  {
    if es == [] then []
    else (if es[0].name == name then [] else [es[0]]) + Unlink(es[1..], name)
  }

  /** One step of `os.walk`: the directory's path, its location and the names of its files. */
  datatype Visit = Visit(root: string, rel: seq<string>, files: seq<string>)

  /** `os.walk(root)`, top-down: the directory itself first, then each subdirectory's walk in listing order. */
  function Walk(root: string, rel: seq<string>, es: seq<Entry>): (w: seq<Visit>)
    ensures |w| >= 1 && w[0] == Visit(root, rel, Files(es))
    decreases es, 1
  {
    [Visit(root, rel, Files(es))] + WalkDirs(root, rel, es)
  }

  function WalkDirs(root: string, rel: seq<string>, es: seq<Entry>): seq<Visit>
    decreases es, 0
  {
    if es == [] then []
    else
      (match es[0]
       case File(_) => []
       case Dir(n, kids) => Walk(Join(root, n), rel + [n], kids))
      + WalkDirs(root, rel, es[1..])
  }

  /** Every visit of a walk lies at or below its starting location. */
  lemma {:induction false} WalkDepth(root: string, rel: seq<string>, es: seq<Entry>)
    ensures forall k | 0 <= k < |Walk(root, rel, es)| :: |Walk(root, rel, es)[k].rel| >= |rel|
    decreases es, 1
  {
    WalkDirsDepth(root, rel, es);
  }

  /** Every visit after the first lies strictly below the starting location. */
  lemma {:induction false} WalkDirsDepth(root: string, rel: seq<string>, es: seq<Entry>)
    ensures forall k | 0 <= k < |WalkDirs(root, rel, es)| :: |WalkDirs(root, rel, es)[k].rel| > |rel|
    decreases es, 0
  {
    if es != [] {
      WalkDirsDepth(root, rel, es[1..]);
      match es[0]
      case File(_) =>
        assert WalkDirs(root, rel, es) == WalkDirs(root, rel, es[1..]);
      case Dir(n, kids) =>
        WalkDepth(Join(root, n), rel + [n], kids);
    }
  }

  /** The visit `v` of a walk started at `rel` lists the file at location `p`. */
  predicate Lists(v: Visit, rel: seq<string>, p: seq<string>)
  {
    p != [] && v.rel == rel + p[..|p| - 1] && p[|p| - 1] in v.files
  }

  lemma {:induction false} TopFileListed(es: seq<Entry>, n: string)
    requires [n] in FileLocations(es)
    ensures n in Files(es)
  {
    if es != [] {
      match es[0]
      case File(m) =>
        if m != n {
          TopFileListed(es[1..], n);
        }
      case Dir(m, kids) =>
        assert [n] !in Under(m, FileLocations(kids));
        TopFileListed(es[1..], n);
    }
  }

  /** `os.walk` meets every file of the tree: some visit lists each file location. */
  lemma {:induction false} WalkFinds(root: string, rel: seq<string>, es: seq<Entry>, p: seq<string>) returns (k: nat)
    requires p in FileLocations(es)
    ensures k < |Walk(root, rel, es)| && Lists(Walk(root, rel, es)[k], rel, p)
    decreases es, 2
  {
    if |p| == 1 {
      assert p == [p[0]];
      TopFileListed(es, p[0]);
      k := 0;
    } else {
      var j := WalkDirsFinds(root, rel, es, p);
      k := 1 + j;
    }
  }

  lemma {:induction false} WalkDirsFinds(root: string, rel: seq<string>, es: seq<Entry>, p: seq<string>) returns (k: nat)
    requires p in FileLocations(es) && |p| >= 2
    ensures k < |WalkDirs(root, rel, es)| && Lists(WalkDirs(root, rel, es)[k], rel, p)
    decreases es, 1
  {
    if es[0].Dir? && p in Under(es[0].name, FileLocations(es[0].entries)) {
      k := WalkDirsFindsHere(root, rel, es, p);
    } else {
      FileLocationsSkip(es, p);
      var j := WalkDirsFinds(root, rel, es[1..], p);
      k := WalkDirsShift(root, rel, es, j);
    }
  }

  /** A deep location not under the first entry is a location of the rest of the listing. */
  lemma FileLocationsSkip(es: seq<Entry>, p: seq<string>)
    requires p in FileLocations(es) && |p| >= 2
    requires !(es[0].Dir? && p in Under(es[0].name, FileLocations(es[0].entries)))
    ensures p in FileLocations(es[1..])
  {
    if es[0].File? {
      assert p != [es[0].name];
    }
  }

  lemma {:induction false} WalkDirsFindsHere(root: string, rel: seq<string>, es: seq<Entry>, p: seq<string>) returns (k: nat)
    requires es != [] && es[0].Dir? && p in Under(es[0].name, FileLocations(es[0].entries))
    ensures k < |WalkDirs(root, rel, es)| && Lists(WalkDirs(root, rel, es)[k], rel, p)
    decreases es, 0
  {
    var n, kids := es[0].name, es[0].entries;
    var q :| q in FileLocations(kids) && p == [n] + q;
    var head := Walk(Join(root, n), rel + [n], kids);
    WalkDirsHead(root, rel, es);
    k := WalkFinds(Join(root, n), rel + [n], kids, q);
    ListsUnder(head[k], rel, n, q);
    WalkPrefix(head, WalkDirs(root, rel, es[1..]), k);
  }

  /** A file listed one directory further down is listed, seen from the directory above, with that directory's name in front. */
  lemma ListsUnder(v: Visit, rel: seq<string>, n: string, q: seq<string>)
    requires Lists(v, rel + [n], q)
    ensures Lists(v, rel, [n] + q)
  {
    var p := [n] + q;
    assert p[..|p| - 1] == [n] + q[..|q| - 1] && p[|p| - 1] == q[|q| - 1];
    AppendAssoc(rel, [n], q[..|q| - 1]);
  }

  lemma AppendAssoc<T>(a: seq<T>, b: seq<T>, c: seq<T>)
    ensures a + b + c == a + (b + c)
  {
  }

  lemma {:induction false} FileListed(es: seq<Entry>, f: string)
    requires f in Files(es)
    ensures [f] in FileLocations(es)
  {
    if es[0].File? && es[0].name == f {
    } else {
      assert f in Files(es[1..]);
      FileListed(es[1..], f);
    }
  }

  /** Conversely, every file a visit lists is a file location of the tree, one level below the visit. */
  lemma {:induction false} WalkListed(root: string, rel: seq<string>, es: seq<Entry>, k: nat, f: string) returns (d: seq<string>)
    requires k < |Walk(root, rel, es)| && f in Walk(root, rel, es)[k].files
    ensures Walk(root, rel, es)[k].rel == rel + d && d + [f] in FileLocations(es)
    decreases es, 2
  {
    if k == 0 {
      FileListed(es, f);
      d := [];
      assert rel + d == rel && d + [f] == [f];
    } else {
      d := WalkDirsListed(root, rel, es, k - 1, f);
    }
  }

  lemma {:induction false} WalkDirsListed(root: string, rel: seq<string>, es: seq<Entry>, k: nat, f: string) returns (d: seq<string>)
    requires k < |WalkDirs(root, rel, es)| && f in WalkDirs(root, rel, es)[k].files
    ensures WalkDirs(root, rel, es)[k].rel == rel + d && d + [f] in FileLocations(es)
    decreases es, 1
  {
    var h := WalkDirsTail(root, rel, es);
    if k < h {
      d := WalkDirsListedHere(root, rel, es, k, f);
    } else {
      assert WalkDirs(root, rel, es)[k] == WalkDirs(root, rel, es)[h..][k - h];
      d := WalkDirsListed(root, rel, es[1..], k - h, f);
    }
  }

  lemma {:induction false} WalkDirsListedHere(root: string, rel: seq<string>, es: seq<Entry>, k: nat, f: string) returns (d: seq<string>)
    requires es != [] && es[0].Dir? && k < |Walk(Join(root, es[0].name), rel + [es[0].name], es[0].entries)|
    requires f in WalkDirs(root, rel, es)[k].files
    ensures k < |WalkDirs(root, rel, es)|
    ensures WalkDirs(root, rel, es)[k].rel == rel + d && d + [f] in FileLocations(es)
    decreases es, 0
  {
    var n, kids := es[0].name, es[0].entries;
    var head := Walk(Join(root, n), rel + [n], kids);
    WalkDirsHead(root, rel, es);
    WalkPrefix(head, WalkDirs(root, rel, es[1..]), k);
    var e := WalkListed(Join(root, n), rel + [n], kids, k, f);
    d := [n] + e;
    AppendAssoc(rel, [n], e);
    AppendAssoc([n], e, [f]);
  }

  /** `os.walk` visits every directory of the tree, listing the files directly in it. */
  lemma {:induction false} WalkVisits(root: string, rel: seq<string>, es: seq<Entry>, d: seq<string>) returns (k: nat)
    requires ListingAt(es, d).Some?
    ensures k < |Walk(root, rel, es)|
    ensures Walk(root, rel, es)[k].rel == rel + d && Walk(root, rel, es)[k].files == Files(ListingAt(es, d).value)
    decreases es, 2
  {
    if d == [] {
      k := 0;
      assert rel + d == rel;
    } else {
      var j := WalkDirsVisits(root, rel, es, d);
      k := 1 + j;
    }
  }

  lemma {:induction false} WalkDirsVisits(root: string, rel: seq<string>, es: seq<Entry>, d: seq<string>) returns (k: nat)
    requires d != [] && ListingAt(es, d).Some?
    ensures k < |WalkDirs(root, rel, es)|
    ensures WalkDirs(root, rel, es)[k].rel == rel + d && WalkDirs(root, rel, es)[k].files == Files(ListingAt(es, d).value)
    decreases es, 1
  {
    if es[0].name == d[0] {
      k := WalkDirsVisitsHere(root, rel, es, d);
    } else {
      ListingAtSkip(es, d);
      var j := WalkDirsVisits(root, rel, es[1..], d);
      k := WalkDirsShift(root, rel, es, j);
    }
  }

  /** A path whose first name is not that of the first entry is looked up in the rest of the listing. */
  lemma ListingAtSkip(es: seq<Entry>, d: seq<string>)
    requires d != [] && ListingAt(es, d).Some? && es[0].name != d[0]
    ensures ListingAt(es[1..], d) == ListingAt(es, d)
  {
    assert Find(es, d[0]) == Find(es[1..], d[0]);
  }

  /** A step of the walk of the rest of a listing is a step of the walk of the whole. */
  lemma WalkDirsShift(root: string, rel: seq<string>, es: seq<Entry>, j: nat) returns (k: nat)
    requires es != [] && j < |WalkDirs(root, rel, es[1..])|
    ensures k < |WalkDirs(root, rel, es)| && WalkDirs(root, rel, es)[k] == WalkDirs(root, rel, es[1..])[j]
  {
    var h := WalkDirsTail(root, rel, es);
    k := h + j;
    assert WalkDirs(root, rel, es)[k] == WalkDirs(root, rel, es)[h..][j];
  }

  /** The walk of a subdirectory named like the first step of `d` finds the directory at `d`. */
  lemma {:induction false} WalkDirsVisitsHere(root: string, rel: seq<string>, es: seq<Entry>, d: seq<string>) returns (k: nat)
    requires d != [] && ListingAt(es, d).Some? && es != [] && es[0].name == d[0]
    ensures k < |WalkDirs(root, rel, es)|
    ensures WalkDirs(root, rel, es)[k].rel == rel + d && WalkDirs(root, rel, es)[k].files == Files(ListingAt(es, d).value)
    decreases es, 0
  {
    ListingAtHere(es, d);
    var n, kids := es[0].name, es[0].entries;
    var head := Walk(Join(root, n), rel + [n], kids);
    WalkDirsHead(root, rel, es);
    k := WalkVisits(Join(root, n), rel + [n], kids, d[1..]);
    assert head[k].rel == rel + d by {
      assert d == [n] + d[1..];
      AppendAssoc(rel, [n], d[1..]);
    }
    WalkPrefix(head, WalkDirs(root, rel, es[1..]), k);
  }

  lemma WalkPrefix(head: seq<Visit>, tail: seq<Visit>, k: nat)
    requires k < |head|
    ensures (head + tail)[k] == head[k]
  {
  }

  /** A path whose first name is that of the first entry leads into that entry, which is a directory. */
  lemma ListingAtHere(es: seq<Entry>, d: seq<string>)
    requires d != [] && ListingAt(es, d).Some? && es != [] && es[0].name == d[0]
    ensures es[0].Dir? && ListingAt(es, d) == ListingAt(es[0].entries, d[1..])
  {
    assert Find(es, d[0]) == Some(es[0]);
  }

  /** A listing that starts with a directory is walked into that directory first. */
  lemma WalkDirsHead(root: string, rel: seq<string>, es: seq<Entry>)
    requires es != [] && es[0].Dir?
    ensures WalkDirs(root, rel, es) == Walk(Join(root, es[0].name), rel + [es[0].name], es[0].entries) + WalkDirs(root, rel, es[1..])
  {
  }

  /** After the steps that the first entry contributes, the walk goes on with the rest of the listing. */
  lemma WalkDirsTail(root: string, rel: seq<string>, es: seq<Entry>) returns (h: nat)
    requires es != []
    ensures h <= |WalkDirs(root, rel, es)| && WalkDirs(root, rel, es)[h..] == WalkDirs(root, rel, es[1..])
  {
    var tail := WalkDirs(root, rel, es[1..]);
    match es[0]
    case File(_) =>
      assert WalkDirs(root, rel, es) == [] + tail;
      h := 0;
    case Dir(n, kids) =>
      var head := Walk(Join(root, n), rel + [n], kids);
      assert WalkDirs(root, rel, es) == head + tail;
      h := |head|;
  }
}
