/**
 Putting a file in place in crates/core/src/paths.rs: a rename, or across devices a copy that is staged
 beside its destination. A script says how every operation on the disk goes, and the process may stop after any
 of them.
 */
module FilePlacement {
  import opened Wrappers

  datatype Path = Path(directory: string, name: string)
  type Bytes = seq<bv8>
  type Files = map<Path, Bytes>

  datatype Renaming = Done | CrossesDevices | OtherError

  // How an operation goes: a rename may find that it crosses devices, any operation may break, and a write that breaks
  // may have written the first part.
  datatype Fate = Works | Crosses | Breaks(written: nat)

  // `.name.id.staged`, in the directory of the destination.
  function StagingPath(dest: Path, id: string): (staged: Path) {
    Path(dest.directory, "." + dest.name + "." + id + ".staged")
  }

  lemma StagingIsBesideTheDestination(dest: Path, id: string)
    ensures StagingPath(dest, id) != dest && StagingPath(dest, id).directory == dest.directory
  {
    assert |StagingPath(dest, id).name| > |dest.name|;
  }

  function Content(files: Files, path: Path): Option<Bytes> {
    if path in files then Some(files[path]) else None
  }

  // The destination holds what it held or the whole payload, the payload is whole somewhere, and no
  // other file but the staged one has changed.
  ghost predicate Safe(before: Files, files: Files, source: Path, dest: Path, staged: Path)
    requires source in before
  {
    var payload := Some(before[source]);
    && (Content(files, dest) == Content(before, dest) || Content(files, dest) == payload)
    && (Content(files, source) == payload || Content(files, dest) == payload)
    && (forall path | path !in {source, dest, staged} :: Content(files, path) == Content(before, path))
  }

  lemma StagedStateIsSafe(before: Files, files: Files, source: Path, dest: Path, staged: Path)
    requires source in before && staged !in before && staged != dest
    requires files - {staged} == before - {staged}
    ensures Safe(before, files, source, dest, staged)
    ensures Content(files, dest) == Content(before, dest)
  {
    forall path | path != staged ensures Content(files, path) == Content(before, path) {
      assert Content(files - {staged}, path) == Content(before - {staged}, path);
    }
  }

  class Disk {
    var files: Files
    const fate: nat -> Fate        // of each operation, in the order they are performed
    var performed: nat
    ghost var history: seq<Files>  // the disk after every operation so far

    constructor (files: Files, fate: nat -> Fate)
      ensures this.files == files && this.fate == fate && performed == 0 && history == []
    {
      this.files, this.fate, performed, history := files, fate, 0, [];
    }

    // An operation ends with the disk recorded.
    twostate predicate Stepped()
      reads this
    {
      performed == old(performed) + 1 && history == old(history) + [files]
    }

    ghost predicate NoneBreaks(from: nat, to: nat) {
      forall i | from <= i < to :: !fate(i).Breaks?
    }

    method NextFate() returns (next: Fate)
      modifies this`performed
      ensures next == fate(old(performed)) && performed == old(performed) + 1
    {
      next := fate(performed);
      performed := performed + 1;
    }

    method Fsync(path: Path) returns (ok: bool)
      modifies this`performed, this`history
      ensures Stepped()
      ensures ok <==> path in files && !fate(old(performed)).Breaks?
    {
      var next := NextFate();
      ok := path in files && !next.Breaks?;
      history := history + [files];
    }

    method FsyncDirectory(directory: string) returns (ok: bool)
      modifies this`performed, this`history
      ensures Stepped()
      ensures ok <==> !fate(old(performed)).Breaks?
    {
      var next := NextFate();
      ok := !next.Breaks?;
      history := history + [files];
    }

    // A rename within a directory cannot cross devices.
    method Rename(from: Path, to: Path) returns (outcome: Renaming)
      modifies this
      ensures Stepped()
      ensures var next := fate(old(performed));
              outcome == if from !in old(files) || next.Breaks? then OtherError
                         else if next.Crosses? && from.directory != to.directory then CrossesDevices
                         else Done
      ensures files == if outcome.Done? then (old(files) - {from})[to := old(files)[from]] else old(files)
    {
      var next := NextFate();
      if from !in files || next.Breaks? {
        outcome := OtherError;
      } else if next.Crosses? && from.directory != to.directory {
        outcome := CrossesDevices;
      } else {
        files := (files - {from})[to := files[from]];
        outcome := Done;
      }
      history := history + [files];
    }

    method CreateNew(path: Path) returns (ok: bool)
      modifies this
      ensures Stepped()
      ensures ok <==> path !in old(files) && !fate(old(performed)).Breaks?
      ensures files == if ok then old(files)[path := []] else old(files)
    {
      var next := NextFate();
      ok := path !in files && !next.Breaks?;
      if ok {
        files := files[path := []];
      }
      history := history + [files];
    }

    method Read() returns (ok: bool)
      modifies this`performed, this`history
      ensures Stepped()
      ensures ok <==> !fate(old(performed)).Breaks?
    {
      var next := NextFate();
      ok := !next.Breaks?;
      history := history + [files];
    }

    method Append(path: Path, chunk: Bytes) returns (ok: bool)
      requires path in files
      modifies this
      ensures Stepped()
      ensures ok <==> !fate(old(performed)).Breaks?
      ensures path in files && files - {path} == old(files) - {path}
      ensures ok ==> files[path] == old(files)[path] + chunk
    {
      var next := NextFate();
      ok := !next.Breaks?;
      var n := if ok || next.written > |chunk| then |chunk| else next.written;
      files := files[path := files[path] + chunk[..n]];
      assert ok ==> chunk[..n] == chunk;
      history := history + [files];
    }

    method Remove(path: Path) returns (ok: bool)
      modifies this
      ensures Stepped()
      ensures ok <==> path in old(files) && !fate(old(performed)).Breaks?
      ensures files == if ok then old(files) - {path} else old(files)
    {
      var next := NextFate();
      ok := path in files && !next.Breaks?;
      if ok {
        files := files - {path};
      }
      history := history + [files];
    }

    // Reads the payload in chunks and appends each to the staged file, until a read or a write breaks.
    method CopyInto(payload: Bytes, staged: Path) returns (ok: bool)
      requires staged in files && files[staged] == []
      modifies this
      ensures old(history) <= history && old(performed) <= performed
      ensures forall i | |old(history)| <= i < |history| :: staged in history[i] && history[i] - {staged} == old(files) - {staged}
      ensures staged in files && files - {staged} == old(files) - {staged}
      ensures ok <==> NoneBreaks(old(performed), performed)
      ensures ok ==> files[staged] == payload
    {
      var copied := 0;
      ok := true;
      while ok && copied < |payload|
        invariant copied <= |payload|
        invariant old(history) <= history && old(performed) <= performed
        invariant forall i | |old(history)| <= i < |history| :: staged in history[i] && history[i] - {staged} == old(files) - {staged}
        invariant staged in files && files - {staged} == old(files) - {staged}
        invariant ok <==> NoneBreaks(old(performed), performed)
        invariant ok ==> files[staged] == payload[..copied]
        decreases ok, |payload| - copied
      {
        var size: nat :| 0 < size <= |payload| - copied;
        ok := Read();
        if ok {
          ok := Append(staged, payload[copied..copied + size]);
          assert payload[..copied] + payload[copied..copied + size] == payload[..copied + size];
          copied := copied + size;
        }
      }
      assert payload[..|payload|] == payload;
    }

    // Succeeds exactly when no operation breaks. `cleaned` is false only when a failed copy could not take its staged
    // file away.
    method WriteIntoPlace(payload: Bytes, dest: Path, staged: Path) returns (written: bool, cleaned: bool)
      requires staged != dest && staged.directory == dest.directory && staged !in files
      modifies this
      ensures old(history) <= history && old(performed) <= performed
      ensures forall i | |old(history)| <= i < |history| ::
                history[i] - {staged} == old(files) - {staged} || history[i] == old(files)[dest := payload]
      ensures written <==> NoneBreaks(old(performed), performed)
      ensures written ==> files == old(files)[dest := payload] && cleaned
      ensures !written ==> files - {staged} == old(files) - {staged} && (if cleaned then files == old(files) else staged in files)
    {
      cleaned := true;
      written := StageAndRename(payload, dest, staged);
      if !written {
        ghost var left := files;
        var present := staged in files;
        var removed := Remove(staged);
        cleaned := removed || !present;
        assert left - {staged} == old(files) - {staged} == old(files);
        assert staged !in left ==> left == left - {staged};
      }
    }

    method StageAndRename(payload: Bytes, dest: Path, staged: Path) returns (written: bool)
      requires staged != dest && staged.directory == dest.directory && staged !in files
      modifies this
      ensures old(history) <= history && old(performed) <= performed
      ensures forall i | |old(history)| <= i < |history| ::
                history[i] - {staged} == old(files) - {staged} || history[i] == old(files)[dest := payload]
      ensures written <==> NoneBreaks(old(performed), performed)
      ensures if written then files == old(files)[dest := payload] else files - {staged} == old(files) - {staged}
    {
      var created := CreateNew(staged);
      if !created { return false; }
      var copied := CopyInto(payload, staged);
      if !copied { return false; }
      var synced := Fsync(staged);
      if !synced { return false; }
      ghost var beforeRename := files;
      var outcome := Rename(staged, dest);
      written := outcome.Done?;
      if written {
        assert beforeRename - {staged} == old(files) - {staged} == old(files);
        assert files == old(files)[dest := payload];
      }
    }

    // Main result, for any fates: a file that is there is put in place, and nothing else is left behind, exactly when
    // no operation breaks; a rename that crosses devices breaks nothing. After every operation the disk is safe. A
    // missing source changes nothing. A staged file or a copied source stays only if it could not be removed, which is
    // what `cleaned` tells.
    method RenameOrCopy(source: Path, dest: Path, id: string) returns (ok: bool, cleaned: bool)
      requires StagingPath(dest, id) !in files  // a fresh id
      modifies this
      ensures old(history) <= history && old(performed) <= performed
      ensures source !in old(files) ==> !ok && files == old(files)
      ensures source in old(files) ==>
                forall i | |old(history)| <= i < |history| :: Safe(old(files), history[i], source, dest, StagingPath(dest, id))
      ensures source in old(files) ==> Safe(old(files), files, source, dest, StagingPath(dest, id))
      ensures source in old(files) ==> (ok && cleaned <==> NoneBreaks(old(performed), performed))
      ensures ok ==> files == if cleaned then (old(files) - {source})[dest := old(files)[source]]
                              else old(files)[dest := old(files)[source]]
      ensures cleaned ==> StagingPath(dest, id) !in files
      ensures !cleaned ==> StagingPath(dest, id) in files || (source in files && Content(files, dest) == Content(old(files), source))
      ensures !ok && Content(files, dest) != Content(old(files), dest) ==> performed > 0 && fate(performed - 1).Breaks?
      ensures Content(files, dest) != Content(old(files), dest) ==> StagingPath(dest, id) !in files
    {
      StagingIsBesideTheDestination(dest, id);
      var staged := StagingPath(dest, id);
      cleaned := true;
      ok := Fsync(source);
      if !ok { return; }
      ghost var payload := files[source];
      var outcome := Rename(source, dest);
      match outcome {
        case Done =>
        case CrossesDevices =>
          ghost var copying := |history|;
          ok, cleaned := WriteIntoPlace(files[source], dest, staged);
          forall i | copying <= i < |history| ensures Safe(old(files), history[i], source, dest, staged) {
            if history[i] - {staged} == old(files) - {staged} {
              StagedStateIsSafe(old(files), history[i], source, dest, staged);
            }
          }
          if !ok {
            StagedStateIsSafe(old(files), files, source, dest, staged);
            return;
          }
          cleaned := Remove(source);
          assert cleaned ==> files == (old(files) - {source})[dest := payload];
        case OtherError =>
          return false, true;
      }
      ok := FsyncDirectory(dest.directory);
    }
  }
}
