/** Publishing a generation of the public documents (`publication.py`): a protocol over a file system
    any of whose calls may raise, and which may stop for good between any two of them. */
module Generations {
  import opened Basics
  import opened Ordering

  const DOCUMENTS: seq<string> := ["nodes.json", "edges.json", "neighbor-info.json", "observer-receptions.json",
                                   "stats.json", "meta.json", "configuration-warnings.json"]
  const GENERATIONS_TO_KEEP: nat := 12

  type Id = string

  /** A file that is still being written, or a complete one. */
  datatype File = Partial | Full(text: string)

  datatype Dir = Dir(modified: int, files: map<string, File>)

  /** The directories under generations/: temporary ones and generations. */
  datatype Path = Temp(id: Id) | Generation(id: Id)

  /** The public directory.  A draft of the manifest is incomplete or names a generation. */
  datatype Disk = Disk(directories: map<Path, Dir>, manifest: Option<Id>, drafts: seq<Option<Id>>)

  // ------------------------------------------------------------ what readers rely on

  predicate Whole(files: map<string, File>) {
    forall name :: name in DOCUMENTS ==> name in files && files[name].Full?
  }

  /** The manifest is absent or names a generation with all seven documents. */
  predicate Sound(d: Disk) {
    d.manifest.Some? ==>
      var generation := Generation(d.manifest.value);
      generation in d.directories && Whole(d.directories[generation].files)
  }

  /** The manifest and every generation that holds something are as they were. */
  ghost predicate Untouched(before: Disk, d: Disk) {
    && d.manifest == before.manifest
    && KeepsGenerations(before, d)
  }

  ghost predicate KeepsGenerations(before: Disk, d: Disk) {
    forall id :: Generation(id) in before.directories && before.directories[Generation(id)].files != map[] ==>
      Generation(id) in d.directories && d.directories[Generation(id)] == before.directories[Generation(id)]
  }

  /** The new generation is the published one. */
  predicate Active(id: Id, files: map<string, File>, d: Disk) {
    d.manifest == Some(id) && Generation(id) in d.directories && d.directories[Generation(id)].files == files
  }

  /** What every state on the way satisfies. */
  ghost predicate Safe(before: Disk, id: Id, files: map<string, File>, d: Disk) {
    Untouched(before, d) || Active(id, files, d)
  }

  /** So readers always find a whole generation. */
  lemma SafeIsSound(before: Disk, id: Id, files: map<string, File>, d: Disk)
    requires Sound(before) && Whole(files)
    requires Safe(before, id, files, d)
    ensures Sound(d)
  {
    PublishedHoldsSomething(before);
  }

  /** Only temporary directories differ. */
  ghost predicate SameGenerations(before: Disk, d: Disk) {
    && d.manifest == before.manifest && d.drafts == before.drafts
    && forall id :: (Generation(id) in d.directories <==> Generation(id) in before.directories)
                    && (Generation(id) in d.directories
                        ==> d.directories[Generation(id)] == before.directories[Generation(id)])
  }

  /** Only one directory differs. */
  ghost predicate SameExcept(before: Disk, path: Path, d: Disk) {
    && d.manifest == before.manifest && d.drafts == before.drafts
    && forall p :: p != path ==> (p in d.directories <==> p in before.directories)
                                 && (p in d.directories ==> d.directories[p] == before.directories[p])
  }

  // ------------------------------------------------------------ the states a disk goes through

  /** The later trace continues the earlier one with states that satisfy the property. */
  ghost predicate Grew(earlier: seq<Disk>, later: seq<Disk>, p: Disk -> bool) {
    && |earlier| <= |later| && later[..|earlier|] == earlier
    && forall i :: |earlier| <= i < |later| ==> p(later[i])
  }

  lemma GrewMore(a: seq<Disk>, b: seq<Disk>, c: seq<Disk>, p: Disk -> bool)
    requires Grew(a, b, p) && Grew(b, c, p)
    ensures Grew(a, c, p)
  {
    assert c[..|a|] == c[..|b|][..|a|];
    forall i | |a| <= i < |c| ensures p(c[i]) {
      if i < |b| { assert c[..|b|][i] == c[i]; }
    }
  }

  lemma GrewWeaker(a: seq<Disk>, b: seq<Disk>, p: Disk -> bool, q: Disk -> bool)
    requires Grew(a, b, p) && forall d :: p(d) ==> q(d)
    ensures Grew(a, b, q)
  {
  }

  // ------------------------------------------------------------ the protocol

  /** How a publication ended: whether old generations were cleaned up; or, after an exception, whether the
      manifest had been replaced and whether its handler ran through. */
  datatype Publication = Published(pruned: bool) | Failed(swapped: bool, cleaned: bool)

  /** The flags that the exception handler looks at. */
  datatype Progress = Progress(installed: bool, swapped: bool, draftOpen: bool)

  function Files(documents: map<string, string>): map<string, File> {
    map name | name in documents :: Full(documents[name])
  }

  predicate AllDocuments(documents: map<string, string>) {
    documents.Keys == set name | name in DOCUMENTS
  }

  /** The files after writing the first `n` of the documents. */
  ghost function Written(documents: map<string, string>, names: seq<string>, n: nat): map<string, File>
    requires n <= |names| && forall name :: name in names ==> name in documents
  {
    if n == 0 then map[] else Written(documents, names, n - 1)[names[n - 1] := Full(documents[names[n - 1]])]
  }

  lemma {:induction false} WrittenSoFar(documents: map<string, string>, names: seq<string>, n: nat)
    requires n <= |names| && forall name :: name in names ==> name in documents
    ensures forall name :: name in Written(documents, names, n) <==> name in names[..n]
    ensures forall name ::
              name in Written(documents, names, n) ==> Written(documents, names, n)[name] == Full(documents[name])
  {
    if n > 0 {
      WrittenSoFar(documents, names, n - 1);
      assert names[..n] == names[..n - 1] + [names[n - 1]];
    }
  }

  lemma {:induction false} WrittenAll(documents: map<string, string>)
    requires AllDocuments(documents)
    ensures Written(documents, DOCUMENTS, |DOCUMENTS|) == Files(documents)
    ensures Whole(Files(documents))
  {
    WrittenSoFar(documents, DOCUMENTS, |DOCUMENTS|);
    var files := Written(documents, DOCUMENTS, |DOCUMENTS|);
    forall name ensures name in files <==> name in documents {
    }
  }

  lemma {:induction false} NotYetWritten(documents: map<string, string>, n: nat)
    requires AllDocuments(documents) && n < |DOCUMENTS|
    ensures DOCUMENTS[n] !in Written(documents, DOCUMENTS, n)
  {
    WrittenSoFar(documents, DOCUMENTS, n);
    assert forall i, j :: 0 <= i < j < |DOCUMENTS| ==> DOCUMENTS[i] != DOCUMENTS[j];
  }

  ghost function GenerationIds(d: Disk): set<Id> {
    set p | p in d.directories && p.Generation? :: p.id
  }

  /** A generation of that name is there and holds something. */
  predicate Taken(d: Disk, id: Id) {
    Generation(id) in d.directories && d.directories[Generation(id)].files != map[]
  }

  class PublicDirectory {
    var disk: Disk
    /** Counts the calls made; `fails` says which of them raise. */
    var calls: nat
    const fails: nat -> bool
    ghost var trace: seq<Disk>

    ghost predicate Valid()
      reads this
    {
      trace != [] && trace[|trace| - 1] == disk
    }

    /** No call raises. */
    ghost predicate NothingRaises() {
      forall n :: !fails(n)
    }

    constructor (disk: Disk, fails: nat -> bool)
      ensures Valid() && this.disk == disk && trace == [disk] && this.fails == fails && calls == 0
    {
      this.disk, this.calls, this.fails, this.trace := disk, 0, fails, [disk];
    }

    /** One call that changes the disk, or raises and changes nothing. */
    method Call(next: Disk) returns (ok: bool)
      requires Valid()
      modifies this
      ensures Valid()
      ensures if ok then disk == next && trace == old(trace) + [next] else disk == old(disk) && trace == old(trace)
      ensures calls == old(calls) + 1 && ok == !fails(calls)
    {
      calls := calls + 1;
      if fails(calls) {
        return false;
      }
      disk := next;
      trace := trace + [next];
      return true;
    }

    /** fsync: it may raise, but changes nothing that readers see. */
    method Sync() returns (ok: bool)
      requires Valid()
      modifies this
      ensures Valid() && disk == old(disk) && trace == old(trace)
      ensures calls == old(calls) + 1 && ok == !fails(calls)
    {
      calls := calls + 1;
      ok := !fails(calls);
    }

    /** rmtree: the files one by one, then the directory. */
    method RemoveTree(path: Path) returns (ok: bool)
      requires Valid() && path in disk.directories
      modifies this
      ensures Valid()
      ensures Grew(old(trace), trace, d => SameExcept(old(disk), path, d))
      ensures SameExcept(old(disk), path, disk)
      ensures ok ==> path !in disk.directories
      ensures NothingRaises() ==> ok
    {
      ghost var p := d => SameExcept(old(disk), path, d);
      var rest := disk.directories[path].files.Keys;
      while rest != {}
        invariant Valid() && path in disk.directories
        invariant SameExcept(old(disk), path, disk)
        invariant Grew(old(trace), trace, p)
        decreases rest
      {
        var name :| name in rest;
        rest := rest - {name};
        var dir := disk.directories[path];
        ok := Call(disk.(directories := disk.directories[path := dir.(files := dir.files - {name})]));
        if !ok {
          return;
        }
      }
      ok := Call(disk.(directories := disk.directories - {path}));
    }

    /** `_remove_stale_temporary_generations` */
    method RemoveStaleTemporaries() returns (ok: bool)
      requires Valid()
      modifies this
      ensures Valid()
      ensures Grew(old(trace), trace, d => SameGenerations(old(disk), d))
      ensures SameGenerations(old(disk), disk)
      ensures ok ==> forall id :: Temp(id) !in disk.directories
      ensures NothingRaises() ==> ok
    {
      ghost var p := d => SameGenerations(old(disk), d);
      var rest := set path | path in disk.directories && path.Temp?;
      ok := true;
      while rest != {}
        invariant Valid() && ok
        invariant SameGenerations(old(disk), disk)
        invariant Grew(old(trace), trace, p)
        invariant forall id :: Temp(id) in disk.directories <==> Temp(id) in rest
        invariant forall path :: path in rest ==> path.Temp?
        decreases rest
      {
        var path :| path in rest;
        rest := rest - {path};
        ghost var before, start := disk, trace;
        ok := RemoveTree(path);
        GrewWeaker(start, trace, d => SameExcept(before, path, d), p);
        GrewMore(old(trace), start, trace, p);
        if !ok {
          return;
        }
      }
    }

    /** The documents, in a temporary directory. */
    method WriteGeneration(id: Id, documents: map<string, string>, modified: int) returns (ok: bool)
      requires Valid() && AllDocuments(documents)
      modifies this
      ensures Valid()
      ensures Grew(old(trace), trace, d => SameExcept(old(disk), Temp(id), d))
      ensures SameExcept(old(disk), Temp(id), disk)
      ensures ok ==> Temp(id) in disk.directories && disk.directories[Temp(id)].files == Files(documents)
      ensures NothingRaises() && Temp(id) !in old(disk).directories ==> ok
    {
      ghost var p := d => SameExcept(old(disk), Temp(id), d);
      if Temp(id) in disk.directories {
        return false;
      }
      ok := Call(disk.(directories := disk.directories[Temp(id) := Dir(modified, map[])]));
      if !ok {
        return;
      }
      ghost var made, start := disk, trace;
      ok := WriteDocuments(id, documents);
      GrewWeaker(start, trace, d => SameExcept(made, Temp(id), d), p);
      GrewMore(old(trace), start, trace, p);
      if !ok {
        return;
      }
      ok := Sync();
    }

    /** The loop over the documents. */
    method WriteDocuments(id: Id, documents: map<string, string>) returns (ok: bool)
      requires Valid() && AllDocuments(documents)
      requires Temp(id) in disk.directories && disk.directories[Temp(id)].files == map[]
      modifies this
      ensures Valid()
      ensures Grew(old(trace), trace, d => SameExcept(old(disk), Temp(id), d))
      ensures SameExcept(old(disk), Temp(id), disk)
      ensures ok ==> Temp(id) in disk.directories && disk.directories[Temp(id)].files == Files(documents)
      ensures NothingRaises() ==> ok
    {
      ghost var p := d => SameExcept(old(disk), Temp(id), d);
      ok := true;
      for i := 0 to |DOCUMENTS|
        invariant Valid() && ok && Temp(id) in disk.directories
        invariant SameExcept(old(disk), Temp(id), disk)
        invariant Grew(old(trace), trace, p)
        invariant disk.directories[Temp(id)].files == Written(documents, DOCUMENTS, i)
      {
        ghost var before, start := disk, trace;
        NotYetWritten(documents, i);
        ok := WriteDocument(id, DOCUMENTS[i], documents[DOCUMENTS[i]]);
        GrewWeaker(start, trace, d => SameExcept(before, Temp(id), d), p);
        GrewMore(old(trace), start, trace, p);
        if !ok {
          return;
        }
      }
      WrittenAll(documents);
    }

    /** One document: created, then filled, then synchronised. */
    method WriteDocument(id: Id, name: string, text: string) returns (ok: bool)
      requires Valid() && Temp(id) in disk.directories
      modifies this
      ensures Valid() && Temp(id) in disk.directories
      ensures Grew(old(trace), trace, d => SameExcept(old(disk), Temp(id), d))
      ensures SameExcept(old(disk), Temp(id), disk)
      ensures ok ==> disk.directories[Temp(id)].files == old(disk.directories[Temp(id)].files)[name := Full(text)]
      ensures NothingRaises() && name !in old(disk).directories[Temp(id)].files ==> ok
    {
      var dir := disk.directories[Temp(id)];
      if name in dir.files {
        return false;
      }
      ok := Call(disk.(directories := disk.directories[Temp(id) := dir.(files := dir.files[name := Partial])]));
      if !ok {
        return;
      }
      ok := Call(disk.(directories := disk.directories[Temp(id) := dir.(files := dir.files[name := Full(text)])]));
      if !ok {
        return;
      }
      ok := Sync();
    }

    /** The temporary directory becomes the generation; replacing a directory that holds something fails. */
    method Install(id: Id) returns (ok: bool)
      requires Valid() && Temp(id) in disk.directories
      modifies this
      ensures Valid()
      ensures if ok then trace == old(trace) + [disk] && Replaced(old(disk), id, disk)
              else disk == old(disk) && trace == old(trace)
      ensures NothingRaises() && !Taken(old(disk), id) ==> ok
      ensures Taken(old(disk), id) ==> !ok
    {
      if Generation(id) in disk.directories && disk.directories[Generation(id)].files != map[] {
        return false;
      }
      var dir := disk.directories[Temp(id)];
      ok := Call(disk.(directories := (disk.directories - {Temp(id)})[Generation(id) := dir]));
    }

    /** The manifest is drafted in a temporary file, which then replaces it. */
    method SwapManifest(id: Id) returns (ok: bool, draftOpen: bool)
      requires Valid()
      modifies this
      ensures Valid()
      ensures Grew(old(trace), trace, d => ManifestMayName(old(disk), id, d))
      ensures if ok then disk == old(disk).(manifest := Some(id)) && !draftOpen
              else disk.directories == old(disk).directories && disk.manifest == old(disk).manifest
                   && (draftOpen ==> disk.drafts != [] && disk.drafts[..|disk.drafts| - 1] == old(disk).drafts)
                   && (!draftOpen ==> disk.drafts == old(disk).drafts)
      ensures NothingRaises() ==> ok
    {
      var n := |disk.drafts|;
      ok := Call(disk.(drafts := disk.drafts + [None]));
      draftOpen := ok;
      if !ok {
        return;
      }
      ok := Call(disk.(drafts := disk.drafts[n := Some(id)]));
      if !ok {
        return;
      }
      ok := Sync();
      if !ok {
        return;
      }
      assert disk.drafts[..n] == old(disk).drafts;
      ok := Call(disk.(manifest := disk.drafts[n], drafts := disk.drafts[..n]));
      draftOpen := !ok;
    }

    // ---------------------------------------------------------- old generations

    /** The generations, in whatever order the directory lists them. */
    method ListGenerations() returns (listing: seq<Id>)
      ensures Distinct(listing)
      ensures forall id :: id in listing <==> Generation(id) in disk.directories
    {
      listing := [];
      var rest := set path | path in disk.directories && path.Generation?;
      while rest != {}
        invariant Distinct(listing)
        invariant forall path :: path in rest ==> path.Generation? && path.id !in listing
        invariant forall id :: Generation(id) in disk.directories <==> id in listing || Generation(id) in rest
        decreases rest
      {
        var path :| path in rest;
        rest := rest - {path};
        listing := listing + [path.id];
      }
    }

    /** `_prune_public_generations` */
    method Prune(active: Id) returns (ok: bool)
      requires Valid() && Generation(active) in disk.directories
      modifies this
      ensures Valid()
      ensures Grew(old(trace), trace, d => Keeps(old(disk), Generation(active), d))
      ensures Keeps(old(disk), Generation(active), disk)
      ensures ok ==> PrunedTo(old(disk), active, disk)
      ensures NothingRaises() ==> ok
    {
      var listing := ListGenerations();
      var newest := StableSort(listing, NewestFirst(disk.directories));
      SortedListing(listing, disk.directories);
      var retained := Retain(newest, active);
      ok := RemoveOthers(newest, retained, active);
      if ok {
        ok := Sync();
        RetainedArePruned(newest, retained, active, old(disk), disk);
      }
    }

    /** The first loop: the active generation and the newest others, up to the limit. */
    method Retain(newest: seq<Id>, active: Id) returns (retained: set<Id>)
      requires Distinct(newest) && active in newest
      ensures RetainsNewest(newest, active, retained)
    {
      retained := {active};
      ghost var seen := 0;
      for i := 0 to |newest|
        invariant seen == i && |retained| <= GENERATIONS_TO_KEEP
        invariant retained == {active} + FirstIds(newest, seen)
      {
        if |retained| >= GENERATIONS_TO_KEEP {
          break;
        }
        OneMoreId(newest, active, i);
        retained := retained + {newest[i]};
        seen := i + 1;
      }
      RetainedCount(newest, active, retained, seen);
    }

    /** The second loop. */
    method RemoveOthers(newest: seq<Id>, retained: set<Id>, active: Id) returns (ok: bool)
      requires Valid() && Distinct(newest) && active in retained
      requires forall id :: id in newest <==> Generation(id) in disk.directories
      modifies this
      ensures Valid()
      ensures Grew(old(trace), trace, d => KeepsAll(old(disk), retained, d))
      ensures KeepsAll(old(disk), retained, disk)
      ensures ok ==> forall id :: Generation(id) in disk.directories <==> id in newest && id in retained
      ensures NothingRaises() ==> ok
    {
      ghost var p := d => KeepsAll(old(disk), retained, d);
      ok := true;
      for i := 0 to |newest|
        invariant Valid() && ok
        invariant KeepsAll(old(disk), retained, disk)
        invariant Grew(old(trace), trace, p)
        invariant forall id :: Generation(id) in disk.directories
                          <==> id in newest && (id in retained || id in newest[i..])
      {
        if newest[i] !in retained {
          ghost var before, start := disk, trace;
          assert newest[i] in newest[i..];
          ok := RemoveTree(Generation(newest[i]));
          GrewWeaker(start, trace, d => SameExcept(before, Generation(newest[i]), d), p);
          GrewMore(old(trace), start, trace, p);
          if !ok {
            return;
          }
        }
      }
    }

    // ---------------------------------------------------------- a publication

    /** Writing and installing the generation. */
    method Prepare(id: Id, documents: map<string, string>, modified: int) returns (ok: bool, installed: bool)
      requires Valid() && AllDocuments(documents)
      modifies this
      ensures Valid()
      ensures Grew(old(trace), trace, d => Untouched(old(disk), d))
      ensures installed ==> Installed(old(disk), id, Files(documents), disk)
      ensures !installed ==> !ok && SameGenerations(old(disk), disk)
      ensures NothingRaises() && Temp(id) !in old(disk).directories ==> ok == !Taken(old(disk), id)
    {
      ghost var p := d => Untouched(old(disk), d);
      installed := false;
      ghost var start := trace;
      ok := WriteGeneration(id, documents, modified);
      GrewWeaker(start, trace, d => SameExcept(old(disk), Temp(id), d), p);
      if !ok {
        return;
      }
      ghost var written := disk;
      start := trace;
      ok := Install(id);
      installed := ok;
      if !ok {
        return;
      }
      assert Untouched(old(disk), disk);
      GrewMore(old(trace), start, trace, p);
      ok := Sync();
    }

    /** The steps up to the manifest, and the clean-up whose exceptions are only warnings. */
    method Attempt(id: Id, documents: map<string, string>, modified: int)
      returns (ok: bool, progress: Progress, pruned: bool)
      requires Valid() && AllDocuments(documents)
      modifies this
      ensures Valid()
      ensures Grew(old(trace), trace, d => Safe(old(disk), id, Files(documents), d))
      ensures progress.swapped ==> Active(id, Files(documents), disk) && !progress.draftOpen
      ensures progress.swapped && !ok ==> KeepsGenerations(old(disk), disk)
      ensures progress.swapped && pruned ==> ok && CleanedUp(old(disk), id, disk)
      ensures !progress.swapped ==> !ok && !pruned && Unswapped(old(disk), id, Files(documents), progress, disk)
      ensures NothingRaises() && Temp(id) !in old(disk).directories ==> ok == !Taken(old(disk), id)
      ensures NothingRaises() && ok ==> pruned
      ensures ok ==> progress.swapped
      ensures NothingRaises() && !ok ==> !progress.swapped
    {
      ghost var files := Files(documents);
      ghost var p := d => Safe(old(disk), id, files, d);
      progress, pruned := Progress(false, false, false), false;
      var installed;
      ok, installed := Prepare(id, documents, modified);
      GrewWeaker(old(trace), trace, d => Untouched(old(disk), d), p);
      progress := progress.(installed := installed);
      if !ok {
        return;
      }
      ghost var start := trace;
      var swapped, draftOpen;
      ok, swapped, draftOpen, pruned := Activate(id, old(disk), files);
      GrewMore(old(trace), start, trace, p);
      progress := Progress(true, swapped, draftOpen);
    }

    /** From the installed generation on. */
    method Activate(id: Id, ghost before: Disk, ghost files: map<string, File>)
      returns (ok: bool, swapped: bool, draftOpen: bool, pruned: bool)
      requires Valid() && Installed(before, id, files, disk)
      modifies this
      ensures Valid()
      ensures Grew(old(trace), trace, d => Safe(before, id, files, d))
      ensures swapped ==> Active(id, files, disk) && !draftOpen
      ensures swapped && !ok ==> KeepsGenerations(before, disk)
      ensures swapped && pruned ==> ok && CleanedUp(before, id, disk)
      ensures !swapped ==> !ok && !pruned && Unswapped(before, id, files, Progress(true, false, draftOpen), disk)
      ensures NothingRaises() ==> ok && pruned
      ensures ok ==> swapped
    {
      ghost var p := d => Safe(before, id, files, d);
      pruned := false;
      SwapIsSafe(before, disk, id, files);
      ok, draftOpen := SwapManifest(id);
      GrewWeaker(old(trace), trace, d => ManifestMayName(old(disk), id, d), p);
      swapped := ok;
      if !ok {
        return;
      }
      ok := Sync();
      if !ok {
        return;
      }
      ghost var published, start := disk, trace;
      pruned := Prune(id);
      GrewWeaker(start, trace, d => Keeps(published, Generation(id), d), p);
      GrewMore(old(trace), start, trace, p);
      InstalledIds(before, id, files, published);
    }

    /** The exception handler, which may raise as well. */
    method Handle(id: Id, progress: Progress) returns (cleaned: bool)
      requires Valid()
      requires progress.installed && !progress.swapped
           ==> Generation(id) in disk.directories && Some(id) != disk.manifest
      requires progress.draftOpen ==> disk.drafts != []
      modifies this
      ensures Valid()
      ensures Grew(old(trace), trace, d => Handled(old(disk), id, progress, d))
      ensures Handled(old(disk), id, progress, disk)
      ensures cleaned ==> && Temp(id) !in disk.directories
                          && (progress.installed && !progress.swapped ==> Generation(id) !in disk.directories)
                          && (progress.draftOpen ==> disk.drafts == old(disk).drafts[..|old(disk).drafts| - 1])
      ensures NothingRaises() ==> cleaned
    {
      var failed := progress.installed && !progress.swapped;
      cleaned := RemoveMade(id, failed);
      GrewWeaker(old(trace), trace, d => Removed(old(disk), id, failed, d), d => Handled(old(disk), id, progress, d));
      if cleaned && progress.draftOpen {
        cleaned := Call(disk.(drafts := disk.drafts[..|disk.drafts| - 1]));
      }
    }

    /** The temporary directory and, if asked, the generation. */
    method RemoveMade(id: Id, generation: bool) returns (cleaned: bool)
      requires Valid() && (generation ==> Generation(id) in disk.directories)
      modifies this
      ensures Valid()
      ensures Grew(old(trace), trace, d => Removed(old(disk), id, generation, d))
      ensures Removed(old(disk), id, generation, disk)
      ensures cleaned ==> Temp(id) !in disk.directories && (generation ==> Generation(id) !in disk.directories)
      ensures NothingRaises() ==> cleaned
    {
      ghost var p := d => Removed(old(disk), id, generation, d);
      cleaned := RemoveIfPresent(Temp(id));
      GrewWeaker(old(trace), trace, d => SameExcept(old(disk), Temp(id), d), p);
      if cleaned && generation {
        ghost var before, start := disk, trace;
        cleaned := RemoveIfPresent(Generation(id));
        GrewWeaker(start, trace, d => SameExcept(before, Generation(id), d), p);
        GrewMore(old(trace), start, trace, p);
      }
    }

    method RemoveIfPresent(path: Path) returns (ok: bool)
      requires Valid()
      modifies this
      ensures Valid()
      ensures Grew(old(trace), trace, d => SameExcept(old(disk), path, d))
      ensures SameExcept(old(disk), path, disk)
      ensures ok ==> path !in disk.directories
      ensures NothingRaises() ==> ok
    {
      ok := true;
      if path in disk.directories {
        ok := RemoveTree(path);
      }
    }

    /** The steps, and the handler if one of them raises. */
    method AttemptAndHandle(id: Id, documents: map<string, string>, modified: int) returns (r: Publication)
      requires Valid() && AllDocuments(documents) && Sound(disk)
      modifies this
      ensures Valid()
      ensures Grew(old(trace), trace, d => Safe(old(disk), id, Files(documents), d))
      ensures Ended(old(disk), id, Files(documents), r, disk)
      ensures NothingRaises() && Temp(id) !in old(disk).directories ==>
                r == if Taken(old(disk), id) then Failed(false, true) else Published(true)
    {
      ghost var files := Files(documents);
      ghost var p := d => Safe(old(disk), id, files, d);
      var ok, progress, pruned := Attempt(id, documents, modified);
      if ok {
        return Published(pruned);
      }
      ghost var failed, start := disk, trace;
      FailedIsUntouched(old(disk), id, files, progress, failed);
      var cleaned := Handle(id, progress);
      HandledIsSafe(old(disk), id, files, progress, failed);
      GrewWeaker(start, trace, d => Handled(failed, id, progress, d), p);
      GrewMore(old(trace), start, trace, p);
      return Failed(progress.swapped, cleaned);
    }

    /** `_write_public_documents_locked`.  Whatever raises, and wherever it is stopped for good, the disk
        only passes through states in which the manifest and its generation are the previous ones or the
        new ones. */
    method Publish(id: Id, documents: map<string, string>, modified: int) returns (r: Publication)
      requires Valid() && AllDocuments(documents) && Sound(disk)
      modifies this
      ensures Valid() && Sound(disk)
      ensures Grew(old(trace), trace, d => Sound(d) && Safe(old(disk), id, Files(documents), d))
      ensures Ended(old(disk), id, Files(documents), r, disk)
      ensures NothingRaises() ==> r == if Taken(old(disk), id) then Failed(false, true) else Published(true)
    {
      ghost var files := Files(documents);
      ghost var p := d => Safe(old(disk), id, files, d);
      WrittenAll(documents);
      var ok := RemoveStaleTemporaries();
      GrewWeaker(old(trace), trace, d => SameGenerations(old(disk), d), p);
      if !ok {
        AllSound(old(disk), id, files, old(trace), trace);
        return Failed(false, false);
      }
      ghost var cleared, start := disk, trace;
      r := AttemptAndHandle(id, documents, modified);
      GrewWeaker(start, trace, d => Safe(cleared, id, files, d), p);
      GrewMore(old(trace), start, trace, p);
      EndedFromCleared(old(disk), cleared, id, files, r, disk);
      AllSound(old(disk), id, files, old(trace), trace);
      SafeIsSound(old(disk), id, files, disk);
    }
  }

  /** How a publication may end. */
  ghost predicate Ended(before: Disk, id: Id, files: map<string, File>, r: Publication, d: Disk) {
    match r
    case Published(pruned) => Active(id, files, d) && (pruned ==> CleanedUp(before, id, d))
    case Failed(swapped, cleaned) =>
      if swapped then Active(id, files, d) && KeepsGenerations(before, d)
      else Untouched(before, d) && (cleaned ==> RolledBack(before, id, d))
  }

  lemma EndedFromCleared(before: Disk, cleared: Disk, id: Id, files: map<string, File>, r: Publication, d: Disk)
    requires SameGenerations(before, cleared) && Ended(cleared, id, files, r, d)
    ensures Ended(before, id, files, r, d)
    ensures Safe(before, id, files, d)
  {
    if r.Published? && r.pruned {
      CleanedFromCleared(before, cleared, id, d);
    }
  }

  lemma CleanedFromCleared(before: Disk, cleared: Disk, id: Id, d: Disk)
    requires SameGenerations(before, cleared) && CleanedUp(cleared, id, d)
    ensures CleanedUp(before, id, d)
  {
    assert GenerationIds(before) == GenerationIds(cleared) by {
      forall g ensures g in GenerationIds(before) <==> g in GenerationIds(cleared) {
        assert Generation(g) in before.directories <==> Generation(g) in cleared.directories;
      }
    }
    var published: Disk :| GainsGeneration(cleared, id, published) && PrunedTo(published, id, d);
    assert GainsGeneration(before, id, published) by {
      forall g | g != id && Generation(g) in before.directories
        ensures Generation(g) in published.directories
                && published.directories[Generation(g)] == before.directories[Generation(g)]
      {
        assert Generation(g) in cleared.directories;
      }
    }
  }

  /** A failed publication that was handled leaves no trace: at most an empty directory that had the new
      generation's name is gone. */
  ghost predicate RolledBack(before: Disk, id: Id, d: Disk) {
    && d.manifest == before.manifest && d.drafts == before.drafts && Temp(id) !in d.directories
    && (forall g :: g != id ==> (Generation(g) in d.directories <==> Generation(g) in before.directories)
                                && (Generation(g) in d.directories
                                    ==> d.directories[Generation(g)] == before.directories[Generation(g)]))
    && (Generation(id) in d.directories
        ==> Generation(id) in before.directories && d.directories[Generation(id)] == before.directories[Generation(id)])
  }

  lemma AllSound(before: Disk, id: Id, files: map<string, File>, earlier: seq<Disk>, later: seq<Disk>)
    requires Sound(before) && Whole(files)
    requires Grew(earlier, later, d => Safe(before, id, files, d))
    ensures Grew(earlier, later, d => Sound(d) && Safe(before, id, files, d))
  {
    forall i | |earlier| <= i < |later| ensures Sound(later[i]) {
      SafeIsSound(before, id, files, later[i]);
    }
  }

  /** A publication whose manifest was not swapped has left the manifest and the generations alone. */
  lemma FailedIsUntouched(before: Disk, id: Id, files: map<string, File>, progress: Progress, failed: Disk)
    requires Sound(before)
    requires !progress.swapped ==> Unswapped(before, id, files, progress, failed)
    ensures !progress.swapped ==> Untouched(before, failed)
    ensures !progress.swapped && progress.installed
        ==> Generation(id) in failed.directories && Some(id) != failed.manifest
  {
    PublishedHoldsSomething(before);
  }

  lemma PublishedHoldsSomething(d: Disk)
    requires Sound(d)
    ensures d.manifest.Some? ==> d.directories[Generation(d.manifest.value)].files != map[]
  {
    assert DOCUMENTS[0] in DOCUMENTS;
  }

  lemma HandledIsSafe(before: Disk, id: Id, files: map<string, File>, progress: Progress, failed: Disk)
    requires if progress.swapped then Active(id, files, failed) else Untouched(before, failed)
    requires !progress.swapped && progress.installed && Generation(id) in before.directories
         ==> before.directories[Generation(id)].files == map[]
    ensures forall d :: Handled(failed, id, progress, d) ==> Safe(before, id, files, d)
  {
    forall d | Handled(failed, id, progress, d) ensures Safe(before, id, files, d) {
      if progress.swapped {
        assert Active(id, files, d);
      } else {
        assert Untouched(before, d);
      }
    }
  }

  /** The generation is in place; nothing that held documents was replaced. */
  ghost predicate Installed(before: Disk, id: Id, files: map<string, File>, d: Disk) {
    && d.manifest == before.manifest && d.drafts == before.drafts
    && Generation(id) in d.directories && d.directories[Generation(id)].files == files
    && (Generation(id) in before.directories ==> before.directories[Generation(id)].files == map[])
    && forall g :: g != id ==> (Generation(g) in d.directories <==> Generation(g) in before.directories)
                               && (Generation(g) in d.directories
                                   ==> d.directories[Generation(g)] == before.directories[Generation(g)])
  }

  /** What a publication that fails before the swap leaves to its handler. */
  ghost predicate Unswapped(before: Disk, id: Id, files: map<string, File>, progress: Progress, d: Disk) {
    && (if progress.draftOpen then d.drafts != [] && d.drafts[..|d.drafts| - 1] == before.drafts
        else d.drafts == before.drafts)
    && (if progress.installed then Installed(before, id, files, d.(drafts := before.drafts))
        else SameGenerations(before, d.(drafts := before.drafts)))
  }

  /** The other generations are as they were. */
  ghost predicate GainsGeneration(before: Disk, id: Id, published: Disk) {
    && GenerationIds(published) == GenerationIds(before) + {id}
    && forall g :: g != id && Generation(g) in before.directories ==>
         Generation(g) in published.directories
         && published.directories[Generation(g)] == before.directories[Generation(g)]
  }

  /** After the clean-up: what was there and the new generation, pruned. */
  ghost predicate CleanedUp(before: Disk, id: Id, d: Disk) {
    exists published: Disk :: GainsGeneration(before, id, published) && PrunedTo(published, id, d)
  }

  /** The names are those of the seven documents, and each is complete with its own text. */
  lemma PublicationHoldsTheDocuments(before: Disk, id: Id, documents: map<string, string>, r: Publication, d: Disk)
    requires AllDocuments(documents) && Ended(before, id, Files(documents), r, d) && r.Published?
    ensures d.manifest == Some(id) && Generation(id) in d.directories
    ensures var files := d.directories[Generation(id)].files;
            && files.Keys == {"nodes.json", "edges.json", "neighbor-info.json", "observer-receptions.json",
                              "stats.json", "meta.json", "configuration-warnings.json"}
            && forall name :: name in files ==> name in documents && files[name] == Full(documents[name])
  {
    var names := set name | name in DOCUMENTS;
    assert names == {DOCUMENTS[0], DOCUMENTS[1], DOCUMENTS[2], DOCUMENTS[3], DOCUMENTS[4], DOCUMENTS[5], DOCUMENTS[6]};
  }

  lemma IsGenerationId(d: Disk, g: Id)
    ensures g in GenerationIds(d) <==> Generation(g) in d.directories
  {
    assert g in GenerationIds(d) <== Generation(g) in d.directories && Generation(g).Generation?;
  }

  lemma PrunedAreOlder(before: Disk, id: Id, published: Disk, d: Disk, k: Id, r: Id)
    requires GainsGeneration(before, id, published) && PrunedTo(published, id, d)
    requires k in GenerationIds(d) && k != id && r in GenerationIds(before) && r !in GenerationIds(d)
    ensures && Generation(k) in before.directories && Generation(r) in before.directories
            && before.directories[Generation(k)].modified >= before.directories[Generation(r)].modified
  {
    IsGenerationId(before, k);
    IsGenerationId(before, r);
    assert Modified(published.directories, k) >= Modified(published.directories, r);
  }

  /** A complete clean-up leaves twelve generations, or all if there are fewer: the new one and those modified
      last, each as it was. */
  lemma CleanUpLeavesTwelve(before: Disk, id: Id, d: Disk)
    requires CleanedUp(before, id, d)
    ensures |GenerationIds(d)| == Min(12, |GenerationIds(before) + {id}|) && id in GenerationIds(d)
    ensures forall k :: k in GenerationIds(d) && k != id ==>
              && Generation(k) in before.directories && Generation(k) in d.directories
              && d.directories[Generation(k)] == before.directories[Generation(k)]
    ensures forall k, r :: && k in GenerationIds(d) && k != id
                           && r in GenerationIds(before) && r !in GenerationIds(d) ==>
              && Generation(k) in before.directories && Generation(r) in before.directories
              && before.directories[Generation(k)].modified >= before.directories[Generation(r)].modified
  {
    var published: Disk :| GainsGeneration(before, id, published) && PrunedTo(published, id, d);
    forall k | k in GenerationIds(d) && k != id
      ensures && Generation(k) in before.directories && Generation(k) in d.directories
              && d.directories[Generation(k)] == before.directories[Generation(k)]
    {
      IsGenerationId(before, k);
      IsGenerationId(d, k);
      assert Keeps(published, Generation(k), d);
    }
    forall k, r | k in GenerationIds(d) && k != id && r in GenerationIds(before) && r !in GenerationIds(d)
      ensures && Generation(k) in before.directories && Generation(r) in before.directories
              && before.directories[Generation(k)].modified >= before.directories[Generation(r)].modified
    {
      PrunedAreOlder(before, id, published, d, k, r);
    }
  }

  /** Only the temporary directory and, if asked, the generation may have gone. */
  ghost predicate Removed(before: Disk, id: Id, generation: bool, d: Disk) {
    && d.manifest == before.manifest && d.drafts == before.drafts
    && (forall g :: Generation(g) in d.directories ==> Generation(g) in before.directories)
    && forall g :: Generation(g) in before.directories && (g != id || !generation) ==>
         Generation(g) in d.directories && d.directories[Generation(g)] == before.directories[Generation(g)]
  }

  /** The handler touches only what the failed publication made. */
  ghost predicate Handled(before: Disk, id: Id, progress: Progress, d: Disk) {
    && (d.drafts == before.drafts
        || (progress.draftOpen && before.drafts != [] && d.drafts == before.drafts[..|before.drafts| - 1]))
    && Removed(before, id, progress.installed && !progress.swapped, d.(drafts := before.drafts))
  }

  lemma InstalledIds(before: Disk, id: Id, files: map<string, File>, published: Disk)
    requires Installed(before, id, files, published.(manifest := before.manifest, drafts := before.drafts))
    ensures GenerationIds(published) == GenerationIds(before) + {id}
  {
    forall g ensures g in GenerationIds(published) <==> g in GenerationIds(before) || g == id {
      assert g in GenerationIds(published) <==> Generation(g) in published.directories;
      assert g in GenerationIds(before) <==> Generation(g) in before.directories;
    }
  }

  lemma SwapIsSafe(before: Disk, prepared: Disk, id: Id, files: map<string, File>)
    requires Installed(before, id, files, prepared)
    ensures forall d :: ManifestMayName(prepared, id, d) ==> Safe(before, id, files, d)
  {
    forall d | ManifestMayName(prepared, id, d) ensures Safe(before, id, files, d) {
      if d.manifest == before.manifest {
        assert Untouched(before, d);
      } else {
        assert Active(id, files, d);
      }
    }
  }

  /** Only the manifest and its drafts differ, and the manifest only by naming the id. */
  predicate ManifestMayName(before: Disk, id: Id, d: Disk) {
    d.directories == before.directories && (d.manifest == before.manifest || d == before.(manifest := Some(id)))
  }

  predicate Replaced(before: Disk, id: Id, after: Disk) {
    && Temp(id) in before.directories
    && (Generation(id) in before.directories ==> before.directories[Generation(id)].files == map[])
    && after == before.(
         directories := (before.directories - {Temp(id)})[Generation(id) := before.directories[Temp(id)]])
  }

  /** The directory is as it was, and so are the manifest and its drafts. */
  predicate Keeps(before: Disk, path: Path, d: Disk) {
    && d.manifest == before.manifest && d.drafts == before.drafts
    && (path in before.directories ==> path in d.directories && d.directories[path] == before.directories[path])
  }

  ghost predicate KeepsAll(before: Disk, ids: set<Id>, d: Disk) {
    forall id :: id in ids ==> Keeps(before, Generation(id), d)
  }

  function Modified(directories: map<Path, Dir>, id: Id): int {
    if Generation(id) in directories then directories[Generation(id)].modified else 0
  }

  function NewestFirst(directories: map<Path, Dir>): (Id, Id) -> bool {
    (a, b) => Modified(directories, a) >= Modified(directories, b)
  }

  lemma {:induction false} SortedListing(listing: seq<Id>, directories: map<Path, Dir>)
    requires Distinct(listing)
    ensures var newest := StableSort(listing, NewestFirst(directories));
            Distinct(newest) && Sorted(newest, NewestFirst(directories)) && forall id :: id in newest <==> id in listing
  {
    var newest := StableSort(listing, NewestFirst(directories));
    SortSorts(listing, NewestFirst(directories));
    SameElements(listing, newest);
    PermutationStaysDistinct(listing, newest);
  }

  function Min(a: nat, b: nat): nat {
    if a < b then a else b
  }

  ghost function FirstIds(ids: seq<Id>, n: nat): set<Id>
    requires n <= |ids|
  {
    set i | 0 <= i < n :: ids[i]
  }

  lemma OneMoreId(ids: seq<Id>, active: Id, n: nat)
    requires n < |ids|
    ensures {active} + FirstIds(ids, n + 1) == {active} + FirstIds(ids, n) + {ids[n]}
    ensures |{active} + FirstIds(ids, n + 1)| <= |{active} + FirstIds(ids, n)| + 1
  {
    assert FirstIds(ids, n + 1) == FirstIds(ids, n) + {ids[n]};
    assert {active} + FirstIds(ids, n + 1) == {active} + FirstIds(ids, n) + {ids[n]};
  }

  lemma {:induction false} FirstIdsCount(ids: seq<Id>, n: nat)
    requires Distinct(ids) && n <= |ids|
    ensures |FirstIds(ids, n)| == n
  {
    if n == 0 {
      assert FirstIds(ids, 0) == {};
    } else {
      FirstIdsCount(ids, n - 1);
      assert FirstIds(ids, n) == FirstIds(ids, n - 1) + {ids[n - 1]};
    }
  }

  lemma RetainedCount(newest: seq<Id>, active: Id, retained: set<Id>, seen: nat)
    requires Distinct(newest) && active in newest && seen <= |newest|
    requires retained == {active} + FirstIds(newest, seen)
    requires |retained| <= GENERATIONS_TO_KEEP && (|retained| == GENERATIONS_TO_KEEP || seen == |newest|)
    ensures RetainsNewest(newest, active, retained)
  {
    var all := FirstIds(newest, |newest|);
    FirstIdsCount(newest, |newest|);
    assert retained <= all;
    SubsetSize(retained, all);
    if seen == |newest| {
      assert retained == all;
    }
  }

  /** The active id and the first of the newest ones, as many as the limit allows. */
  ghost predicate RetainsNewest(newest: seq<Id>, active: Id, retained: set<Id>) {
    && (exists n :: 0 <= n <= |newest| && retained == {active} + FirstIds(newest, n))
    && |retained| == Min(GENERATIONS_TO_KEEP, |newest|)
  }

  /** What a complete clean-up leaves: the active generation and the newest others, at most twelve in all,
      each as it was. */
  ghost predicate PrunedTo(before: Disk, active: Id, after: Disk) {
    && GenerationIds(after) <= GenerationIds(before) && active in GenerationIds(after)
    && |GenerationIds(after)| == Min(GENERATIONS_TO_KEEP, |GenerationIds(before)|)
    && KeepsAll(before, GenerationIds(after), after)
    && forall k, r :: && k in GenerationIds(after) && k != active
                      && r in GenerationIds(before) && r !in GenerationIds(after) ==>
         Modified(before.directories, k) >= Modified(before.directories, r)
  }

  lemma RetainedArePruned(newest: seq<Id>, retained: set<Id>, active: Id, before: Disk, after: Disk)
    requires Distinct(newest) && Sorted(newest, NewestFirst(before.directories))
    requires forall id :: id in newest <==> Generation(id) in before.directories
    requires active in newest && RetainsNewest(newest, active, retained)
    requires KeepsAll(before, retained, after)
    requires forall id :: Generation(id) in after.directories <==> id in newest && id in retained
    ensures PrunedTo(before, active, after)
  {
    assert GenerationIds(after) == retained by {
      forall id ensures id in GenerationIds(after) <==> id in retained {
        assert Generation(id) in after.directories <==> id in newest && id in retained;
      }
    }
    assert GenerationIds(before) == FirstIds(newest, |newest|) by {
      forall id ensures id in GenerationIds(before) <==> id in FirstIds(newest, |newest|) {
        assert id in newest <==> Generation(id) in before.directories;
      }
    }
    FirstIdsCount(newest, |newest|);
    forall k, r | k in retained && k != active && r in GenerationIds(before) && r !in retained
      ensures Modified(before.directories, k) >= Modified(before.directories, r)
    {
      RetainedIsNewer(newest, retained, active, before, k, r);
    }
  }

  lemma RetainedIsNewer(newest: seq<Id>, retained: set<Id>, active: Id, before: Disk, k: Id, r: Id)
    requires Sorted(newest, NewestFirst(before.directories)) && RetainsNewest(newest, active, retained)
    requires k in retained && k != active && r in newest && r !in retained
    ensures Modified(before.directories, k) >= Modified(before.directories, r)
  {
    var n :| 0 <= n <= |newest| && retained == {active} + FirstIds(newest, n);
    var i :| 0 <= i < n && newest[i] == k;
    assert forall m :: 0 <= m < n ==> newest[m] in FirstIds(newest, n);
    var j :| 0 <= j < |newest| && newest[j] == r;
    assert NewestFirst(before.directories)(newest[i], newest[j]);
  }
}
