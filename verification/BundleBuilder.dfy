/** `Stage2BundleBuilder`: every filesystem step may fail, before or after taking effect, and the
    process may stop between any two steps. The ghost history of the disk records every state that a
    crash could leave behind. */
module BundleBuilder {
  import opened Prelude
  import opened BundleModel

  datatype Fate = Works | FailsBefore | FailsAfter

  /** A disk whose steps fail as the schedule says, and whose clock never goes back. */
  class FileSystem {
    const fates: nat -> Fate
    const ticks: nat -> nat
    /** What an interrupted write leaves of a file. */
    const torn: nat -> Content
    var disk: Disk
    var step: nat
    var now: nat
    ghost var history: seq<Disk>

    /** No step fails. */
    ghost predicate Healthy() {
      forall n: nat :: fates(n) == Works
    }

    ghost predicate Valid()
      reads this
    {
      history != [] && history[|history| - 1] == disk && Stamped(disk.staging, now) && Stamped(disk.final, now)
    }

    constructor (fates: nat -> Fate, ticks: nat -> nat, torn: nat -> Content)
      ensures Valid() && disk == Disk(None, None) && history == [disk] && this.fates == fates
    {
      this.fates, this.ticks, this.torn := fates, ticks, torn;
      disk, step, now := Disk(None, None), 0, 0;
      history := [Disk(None, None)];
    }

    /** One step of the operating system towards `next`. */
    method Attempt(next: Disk) returns (ok: bool)
      requires Valid() && Stamped(next.staging, now) && Stamped(next.final, now)
      modifies this
      ensures Valid() && history == old(history) + [disk] && now == old(now)
      ensures disk == old(disk) || disk == next
      ensures ok ==> disk == next
      ensures Healthy() ==> ok
    {
      var fate := fates(step);
      step := step + 1;
      if !fate.FailsBefore? {
        disk := next;
      }
      history := history + [disk];
      ok := fate.Works?;
    }

    /** The clock moves on before bytes are written. */
    method Tick()
      requires Valid()
      modifies this
      ensures Valid() && disk == old(disk) && history == old(history) && now >= old(now)
    {
      now := now + ticks(step);
    }
  }

  /** No file bears a later time than the clock. */
  predicate Stamped(tree: Option<Tree>, now: nat) {
    tree.Some? ==> forall p :: p in tree.value ==> tree.value[p].mtime <= now
  }

  /** `ContractError` is the refusal of a state record by its own field limits. */
  datatype Io<+T> = Done(value: T) | OsError | BundleError | ContractError

  /** How a tree may look while, or after, `content` is durably written to `path`: only the path and
      its temporary differ, and once the new content is in place there is no temporary. */
  ghost predicate Touched(before: Tree, after: Tree, path: Path, content: Content) {
    && (forall p :: p != path && p != TempOf(path) ==> (p in after <==> p in before))
    && (forall p :: p != path && p != TempOf(path) && p in before ==> after[p] == before[p])
    && (|| (path in before && path in after && after[path] == before[path])
        || (path !in before && path !in after)
        || (path in after && after[path].content == content && TempOf(path) !in before && TempOf(path) !in after))
  }

  /** The same for a whole disk; the other place is untouched. */
  ghost predicate DiskTouched(before: Disk, after: Disk, place: Place, path: Path, content: Content) {
    && before.At(place).Some? && after.At(place).Some?
    && after == before.With(place, after.At(place).value)
    && Touched(before.At(place).value, after.At(place).value, path, content)
  }

  /** Exactly the new file was added. */
  predicate Written(before: Tree, after: Tree, path: Path, content: Content) {
    && after.Keys == before.Keys + {path}
    && (forall p :: p in before && p != path ==> after[p] == before[p])
    && after[path].content == content
    && TempOf(path) !in before
  }

  /** The temporary holds something or is not there; all else is as before. */
  ghost predicate OnlyTemporary(before: Disk, after: Disk, place: Place, path: Path) {
    && before.At(place).Some? && after.At(place).Some?
    && after == before.With(place, after.At(place).value)
    && after.At(place).value - {TempOf(path)} == before.At(place).value
  }

  lemma TemporaryIsTouched(before: Disk, after: Disk, place: Place, path: Path, content: Content)
    requires OnlyTemporary(before, after, place, path)
    ensures DiskTouched(before, after, place, path, content)
  {
    TempIsElsewhere(path);
    var old', new' := before.At(place).value, after.At(place).value;
    forall p | p != TempOf(path) ensures (p in new' <==> p in old') && (p in old' ==> new'[p] == old'[p]) {
      assert p in new' <==> p in new' - {TempOf(path)};
    }
  }

  /** The temporary is written piece by piece: a crash may leave any part of it. */
  method WriteTemporary(fs: FileSystem, place: Place, path: Path, content: Content) returns (ok: bool)
    requires fs.Valid() && fs.disk.At(place).Some? && TempOf(path) !in fs.disk.At(place).value
    modifies fs
    ensures fs.Valid() && old(fs.history) <= fs.history && fs.now >= old(fs.now)
    ensures forall k :: old(|fs.history|) <= k < |fs.history| ==>
            OnlyTemporary(old(fs.disk), fs.history[k], place, path)
    ensures OnlyTemporary(old(fs.disk), fs.disk, place, path)
    ensures ok ==> fs.disk.At(place).value == old(fs.disk).At(place).value[TempOf(path) := File(content, fs.now)]
    ensures fs.Healthy() ==> ok
  {
    var temp, tree := TempOf(path), fs.disk.At(place).value;
    fs.Tick();
    var part, file := File(fs.torn(fs.step), fs.now), File(content, fs.now);
    assert tree[temp := part] - {temp} == tree && tree[temp := file] - {temp} == tree && tree - {temp} == tree;
    ok := fs.Attempt(fs.disk.With(place, tree[temp := part]));
    if ok {
      ok := fs.Attempt(fs.disk.With(place, tree[temp := file]));
    }
  }

  /** The guarded part of a durable write: temporary, rename, directory sync. */
  method PlaceFile(fs: FileSystem, place: Place, path: Path, content: Content) returns (ok: bool)
    requires fs.Valid() && fs.disk.At(place).Some?
    modifies fs
    ensures fs.Valid() && old(fs.history) <= fs.history && fs.now >= old(fs.now)
    ensures forall k :: old(|fs.history|) <= k < |fs.history| ==>
            DiskTouched(old(fs.disk), fs.history[k], place, path, content)
    ensures DiskTouched(old(fs.disk), fs.disk, place, path, content)
    ensures ok ==> Written(old(fs.disk.At(place).value), fs.disk.At(place).value, path, content)
                   && fs.disk.At(place).value[path].mtime >= old(fs.now)
    ensures fs.Healthy() && TempOf(path) !in old(fs.disk).At(place).value ==> ok
  {
    var tree := fs.disk.At(place).value;
    TempIsElsewhere(path);
    if TempOf(path) in tree {
      return false;
    }
    ok := WriteTemporary(fs, place, path, content);
    forall k | old(|fs.history|) <= k < |fs.history|
      ensures DiskTouched(old(fs.disk), fs.history[k], place, path, content)
    {
      TemporaryIsTouched(old(fs.disk), fs.history[k], place, path, content);
    }
    TemporaryIsTouched(old(fs.disk), fs.disk, place, path, content);
    if !ok {
      return;
    }
    var file := File(content, fs.now);
    ok := fs.Attempt(fs.disk.With(place, tree[path := file]));
    assert DiskTouched(old(fs.disk), fs.disk, place, path, content);
    if !ok {
      return;
    }
    ok := fs.Attempt(fs.disk);
  }

  /** `_durable_write`: whatever happens, the temporary is removed if it is still there. */
  method DurableWrite(fs: FileSystem, size: Content -> nat, place: Place, path: Path, content: Content)
    returns (r: Io<()>)
    requires fs.Valid() && fs.disk.At(place).Some?
    modifies fs
    ensures fs.Valid() && old(fs.history) <= fs.history && fs.now >= old(fs.now)
    ensures forall k :: old(|fs.history|) <= k < |fs.history| ==>
            DiskTouched(old(fs.disk), fs.history[k], place, path, content)
    ensures DiskTouched(old(fs.disk), fs.disk, place, path, content)
    ensures r.Done? ==> Written(old(fs.disk.At(place).value), fs.disk.At(place).value, path, content)
                        && fs.disk.At(place).value[path].mtime >= old(fs.now)
    ensures r.BundleError? ==> fs.disk == old(fs.disk)
    ensures r.BundleError? <==> size(content) > 16_777_216
    ensures !r.ContractError?
    ensures fs.Healthy() && TempOf(path) !in old(fs.disk).At(place).value && size(content) <= MAX_STAGE2_FILE_BYTES
            ==> r.Done?
  {
    if size(content) > MAX_STAGE2_FILE_BYTES {
      return BundleError;
    }
    var ok := PlaceFile(fs, place, path, content);
    TempIsElsewhere(path);
    var temp := TempOf(path);
    var tree := fs.disk.At(place).value;
    if temp in tree {
      var removed := fs.Attempt(fs.disk.With(place, tree - {temp}));
      ok := ok && removed;
      assert DiskTouched(old(fs.disk), fs.disk, place, path, content);
    }
    return if ok then Done(()) else OsError;
  }

  // ---------------------------------------------------------------- safety of single writes

  /** The directory at `place`, if there, does not hold a manifest. */
  predicate NoManifest(disk: Disk, place: Place) {
    disk.At(place).Some? ==> MANIFEST_PATH !in disk.At(place).value
  }

  /** Writing anything but the manifest into a directory without one keeps every state safe. */
  lemma WriteKeepsSafe(before: Disk, after: Disk, place: Place, path: Path, content: Content)
    requires DiskTouched(before, after, place, path, content)
    requires Safe(before) && NoManifest(before, place) && path != MANIFEST_PATH
    ensures Safe(after) && NoManifest(after, place)
  {
    TempIsElsewhere(path);
    assert BaseName(MANIFEST_PATH) == MANIFEST_NAME;
  }

  /** So does writing the manifest of a directory's inventory once its state record is gone. */
  lemma ManifestKeepsSafe(before: Disk, after: Disk, m: Manifest)
    requires DiskTouched(before, after, Final, MANIFEST_PATH, ManifestDocument(m))
    requires Safe(before) && NoManifest(before, Final) && STATE_PATH !in before.final.value
    requires m.files == Inventory(before.final.value)
    ensures Safe(after)
  {
    TempIsElsewhere(MANIFEST_PATH);
    var old', new' := before.final.value, after.final.value;
    assert BaseName(STATE_PATH) == STATE_NAME && STATE_PATH != TempOf(MANIFEST_PATH);
    assert STATE_PATH !in new';
    if MANIFEST_PATH in new' {
      assert Inventory(new') == Inventory(old') by {
        assert BaseName(MANIFEST_PATH) == MANIFEST_NAME;
      }
    }
  }

  // ---------------------------------------------------------------- what no write touches

  /** The bundle, wherever it is. */
  function BundleOf(disk: Disk): Option<Tree> {
    if disk.final.Some? then disk.final else disk.staging
  }

  /** The builder's own documents and their temporaries. */
  predicate IsOwn(p: Path) {
    p == STATE_PATH || p == MANIFEST_PATH || p == TempOf(STATE_PATH) || p == TempOf(MANIFEST_PATH)
  }

  /** What a call may touch beside them: one evidence file and its temporary. */
  predicate MayTouch(p: Path, evidence: Option<Path>) {
    IsOwn(p) || (evidence.Some? && (p == evidence.value || p == TempOf(evidence.value)))
  }

  ghost predicate SameElsewhere(before: Tree, after: Tree, evidence: Option<Path>) {
    && (forall p :: !MayTouch(p, evidence) ==> (p in after <==> p in before))
    && forall p :: !MayTouch(p, evidence) && p in before && p in after ==> after[p] == before[p]
  }

  /** The bundle is still there, staged or moved, with every file that may not be touched. */
  ghost predicate Keeps(before: Disk, after: Disk, evidence: Option<Path>) {
    BundleOf(before).Some? ==>
    BundleOf(after).Some? && SameElsewhere(BundleOf(before).value, BundleOf(after).value, evidence)
  }

  ghost predicate KeepsSince(before: Disk, history: seq<Disk>, from: nat, evidence: Option<Path>) {
    forall k :: from <= k < |history| ==> Keeps(before, history[k], evidence)
  }

  lemma KeepsOn(a: Disk, b: Disk, earlier: seq<Disk>, history: seq<Disk>, from: nat, evidence: Option<Path>)
    requires earlier <= history && Keeps(a, b, evidence)
    requires KeepsSince(a, earlier, from, evidence) && KeepsSince(b, history, |earlier|, evidence)
    ensures KeepsSince(a, history, from, evidence)
  {
    forall k | from <= k < |history| ensures Keeps(a, history[k], evidence) {
      if k < |earlier| {
        assert history[k] == earlier[k];
      }
    }
  }

  lemma TouchedKeeps(before: Disk, after: Disk, place: Place, path: Path, content: Content, evidence: Option<Path>)
    requires DiskTouched(before, after, place, path, content)
    requires before.staging.None? || before.final.None?
    requires MayTouch(path, evidence) && MayTouch(TempOf(path), evidence)
    ensures Keeps(before, after, evidence)
  {
  }

  // ---------------------------------------------------------------- the builder

  datatype CommitResult =
    | CommitDone(manifest: Manifest)
    | Refused               // not incomplete, or already gone
    | ValidationFailed(recorded: bool)
    | CrashedBeforeManifest
    | ManifestRefused       // the manifest's own contract or the size limit
    | RecordedFailure       // "bundle fsync or atomic rename failed"
    | UnconfirmedFailure    // "... invalid-state durability could not be confirmed"

  predicate IsIncomplete(tree: Option<Tree>) {
    && tree.Some? && STATE_PATH in tree.value
    && tree.value[STATE_PATH].content.StateDocument? && !tree.value[STATE_PATH].content.record.invalid
  }

  /** State records fit the size limit, and no temporary of an earlier failure is in the way. */
  ghost predicate CanWriteState(size: Content -> nat, tree: Tree) {
    && TempOf(STATE_PATH) !in tree
    && forall record :: size(StateDocument(record)) <= MAX_STAGE2_FILE_BYTES
  }

  /** Every state of the disk from index `from` on is safe. */
  ghost predicate SafeSince(history: seq<Disk>, from: nat) {
    forall k :: from <= k < |history| ==> Safe(history[k])
  }

  class Stage2BundleBuilder {
    const fs: FileSystem
    const size: Content -> nat
    var sequence: nat

    constructor (fs: FileSystem, size: Content -> nat)
      ensures this.fs == fs && this.size == size && sequence == 0
    {
      this.fs, this.size, sequence := fs, size, 0;
    }

    /** What holds between any two calls, in particular after calls that failed. */
    ghost predicate Valid()
      reads this, fs
    {
      && fs.Valid() && SafeSince(fs.history, 0) && NoManifest(fs.disk, Staging)
      && (fs.disk.staging.None? || fs.disk.final.None?)
    }

    /** `_write_state_at`: the number is taken before the record is checked. */
    method WriteStateAt(place: Place, invalid: bool, phase: string, reason: Option<string>, last: Option<string>)
      returns (r: Io<()>)
      requires Valid() && fs.disk.At(place).Some? && NoManifest(fs.disk, place)
      modifies this, fs
      ensures Valid() && old(fs.history) <= fs.history && fs.now >= old(fs.now)
      ensures sequence == old(sequence) + 1
      ensures NoManifest(fs.disk, place) && fs.disk.At(place).Some?
      ensures fs.disk == old(fs.disk).With(place, fs.disk.At(place).value)
      ensures r.Done? ==> Written(old(fs.disk.At(place).value), fs.disk.At(place).value, STATE_PATH,
                                  StateDocument(StateRecord(invalid, phase, reason, last, sequence)))
      ensures r.ContractError? <==> !RecordFits(StateRecord(invalid, phase, reason, last, sequence))
      ensures r.ContractError? ==> fs.disk == old(fs.disk)
      ensures KeepsSince(old(fs.disk), fs.history, old(|fs.history|), None) && Keeps(old(fs.disk), fs.disk, None)
      ensures fs.Healthy() && CanWriteState(size, old(fs.disk).At(place).value) ==> r.Done? || r.ContractError?
    {
      sequence := sequence + 1;
      var record := StateRecord(invalid, phase, reason, last, sequence);
      if !RecordFits(record) {
        return ContractError;
      }
      var content := StateDocument(record);
      r := DurableWrite(fs, size, place, STATE_PATH, content);
      assert STATE_NAME[0] != MANIFEST_NAME[0];
      forall k | old(|fs.history|) <= k < |fs.history|
        ensures Safe(fs.history[k]) && Keeps(old(fs.disk), fs.history[k], None)
      {
        WriteKeepsSafe(old(fs.disk), fs.history[k], place, STATE_PATH, content);
        TouchedKeeps(old(fs.disk), fs.history[k], place, STATE_PATH, content, None);
      }
      WriteKeepsSafe(old(fs.disk), fs.disk, place, STATE_PATH, content);
      TouchedKeeps(old(fs.disk), fs.disk, place, STATE_PATH, content, None);
    }

    /** The directory is made, its first state written, and both levels synced. */
    method Create() returns (r: Io<()>)
      requires Valid()
      modifies this, fs
      ensures Valid() && old(fs.history) <= fs.history
      ensures (old(fs.disk).staging.Some? || old(fs.disk).final.Some?) ==> r.BundleError? && fs.disk == old(fs.disk)
      ensures r.Done? ==> IsIncomplete(fs.disk.staging) && fs.disk.staging.value.Keys == {STATE_PATH}
                          && fs.disk.final == None
                          && fs.disk.staging.value[STATE_PATH].content
                             == StateDocument(StateRecord(false, "CREATED", None, None, sequence))
      ensures !r.ContractError?
      ensures KeepsSince(old(fs.disk), fs.history, old(|fs.history|), None)
      ensures old(fs.disk) == Disk(None, None) && fs.Healthy() && CanWriteState(size, map[]) ==> r.Done?
    {
      if fs.disk.staging.Some? || fs.disk.final.Some? {
        return BundleError;
      }
      var ok := fs.Attempt(Disk(Some(map[]), None));
      if !ok {
        return OsError;
      }
      r := WriteStateAt(Staging, false, "CREATED", None, None);
      if !r.Done? {
        return;
      }
      ok := fs.Attempt(fs.disk);
      if ok {
        ok := fs.Attempt(fs.disk);
      }
      return if ok then Done(()) else OsError;
    }

    /** `_write_evidence`; `admissible` stands for suffix, UTF-8 and public-safety policy. A path too long
        to be a boundary of the state record is refused only when its file is there for good. */
    method WriteEvidence(path: Path, data: string, prefix: string, admissible: bool) returns (r: Io<()>)
      requires Valid() && prefix in {"raw", "derived"}
      modifies this, fs
      ensures Valid() && old(fs.history) <= fs.history
      ensures !IsIncomplete(old(fs.disk).staging) ==> r.BundleError? && fs.disk == old(fs.disk)
      ensures !admissible || |path| < 2 || path[0] != prefix ==> r.BundleError? && fs.disk == old(fs.disk)
      ensures BundleOf(old(fs.disk)).Some? && !IsFree(BundleOf(old(fs.disk)).value, path) ==>
                (r.BundleError? || r.OsError?) && fs.disk == old(fs.disk)
                && KeepsSince(old(fs.disk), fs.history, old(|fs.history|), None)
      ensures KeepsSince(old(fs.disk), fs.history, old(|fs.history|), Some(path))
      ensures Keeps(old(fs.disk), fs.disk, Some(path))
      ensures r.Done? ==> path[0] == prefix && path !in old(fs.disk).staging.value
                          && IsIncomplete(fs.disk.staging)
                          && EvidenceAdded(old(fs.disk).staging.value, fs.disk.staging.value, path, Blob(data))
                          && Boundary(fs.disk.staging.value) == Some(PathText(path)) && IsIdentifier(PathText(path))
      ensures r.ContractError? ==> path !in old(fs.disk).staging.value && fs.disk.staging.Some?
                                   && Written(old(fs.disk).staging.value, fs.disk.staging.value, path, Blob(data))
                                   && !IsIdentifier(PathText(path))
      ensures IsIncomplete(old(fs.disk).staging) && fs.Healthy() && CanWriteState(size, old(fs.disk).staging.value)
              && path[0] == prefix && admissible && IsFree(old(fs.disk).staging.value, path)
              && TempOf(path) !in old(fs.disk).staging.value && size(Blob(data)) <= MAX_STAGE2_FILE_BYTES
              ==> if 1 <= |PathText(path)| <= 160 then r.Done? else r.ContractError?
    {
      if !IsIncomplete(fs.disk.staging) {
        return BundleError;
      }
      if |path| < 2 || path[0] != prefix || !admissible {
        return BundleError;
      }
      r := PrepareDestination(path);
      if !r.Done? {
        return;
      }
      ghost var earlier := fs.history;
      r := RetainAndName(path, data);
      KeepsOn(old(fs.disk), old(fs.disk), earlier, fs.history, old(|fs.history|), Some(path));
    }

    /** `_prepare_evidence_destination`: directories in front are made and synced, and nothing may be in the
        way. */
    method PrepareDestination(path: Path) returns (r: Io<()>)
      requires Valid() && IsIncomplete(fs.disk.staging) && |path| >= 2
      modifies fs
      ensures Valid() && old(fs.history) <= fs.history && fs.disk == old(fs.disk)
      ensures KeepsSince(old(fs.disk), fs.history, old(|fs.history|), None)
      ensures r.Done? ==> IsFree(fs.disk.staging.value, path)
      ensures !r.ContractError? && (fs.Healthy() && IsFree(fs.disk.staging.value, path) ==> r.Done?)
    {
      for depth := 1 to |path|
        invariant Valid() && old(fs.history) <= fs.history && fs.disk == old(fs.disk)
        invariant KeepsSince(old(fs.disk), fs.history, old(|fs.history|), None)
        invariant forall d :: 1 <= d < depth ==> path[..d] !in fs.disk.staging.value
      {
        if path[..depth] in fs.disk.staging.value {
          return BundleError;
        }
        if !IsDirectory(fs.disk.staging.value, path[..depth]) {
          var ok := fs.Attempt(fs.disk);
          if !ok {
            return OsError;
          }
        }
      }
      if path in fs.disk.staging.value || IsDirectory(fs.disk.staging.value, path) {
        return BundleError;
      }
      return Done(());
    }

    method RetainAndName(path: Path, data: string) returns (r: Io<()>)
      requires Valid() && IsIncomplete(fs.disk.staging) && |path| >= 2 && path !in fs.disk.staging.value
      modifies this, fs
      ensures Valid() && old(fs.history) <= fs.history
      ensures KeepsSince(old(fs.disk), fs.history, old(|fs.history|), Some(path))
      ensures Keeps(old(fs.disk), fs.disk, Some(path))
      ensures r.Done? ==> IsIncomplete(fs.disk.staging)
                          && EvidenceAdded(old(fs.disk).staging.value, fs.disk.staging.value, path, Blob(data))
                          && Boundary(fs.disk.staging.value) == Some(PathText(path)) && IsIdentifier(PathText(path))
      ensures r.ContractError? ==> fs.disk.staging.Some?
                                   && Written(old(fs.disk).staging.value, fs.disk.staging.value, path, Blob(data))
                                   && !IsIdentifier(PathText(path))
      ensures fs.Healthy() && CanWriteState(size, old(fs.disk).staging.value)
              && TempOf(path) !in old(fs.disk).staging.value && size(Blob(data)) <= MAX_STAGE2_FILE_BYTES
              ==> if IsIdentifier(PathText(path)) then r.Done? else r.ContractError?
    {
      r := RetainFile(path, data);
      if r.Done? {
        ghost var retained, behind := fs.disk, fs.history;
        r := NameBoundary(PathText(path));
        KeepsOn(old(fs.disk), retained, behind, fs.history, old(|fs.history|), Some(path));
      }
    }

    /** The evidence file itself, into the staging directory. */
    method RetainFile(path: Path, data: string) returns (r: Io<()>)
      requires Valid() && IsIncomplete(fs.disk.staging) && |path| >= 2
      modifies fs
      ensures Valid() && old(fs.history) <= fs.history
      ensures !r.ContractError?
      ensures KeepsSince(old(fs.disk), fs.history, old(|fs.history|), Some(path))
      ensures Keeps(old(fs.disk), fs.disk, Some(path))
      ensures r.Done? ==> fs.disk.staging.Some? && fs.disk == old(fs.disk).With(Staging, fs.disk.staging.value)
                          && Written(old(fs.disk).staging.value, fs.disk.staging.value, path, Blob(data))
      ensures fs.Healthy() && TempOf(path) !in old(fs.disk).staging.value && size(Blob(data)) <= MAX_STAGE2_FILE_BYTES
              ==> r.Done?
    {
      r := DurableWrite(fs, size, Staging, path, Blob(data));
      forall k | old(|fs.history|) <= k < |fs.history|
        ensures Safe(fs.history[k]) && Keeps(old(fs.disk), fs.history[k], Some(path))
      {
        WriteKeepsSafe(old(fs.disk), fs.history[k], Staging, path, Blob(data));
        TouchedKeeps(old(fs.disk), fs.history[k], Staging, path, Blob(data), Some(path));
      }
      WriteKeepsSafe(old(fs.disk), fs.disk, Staging, path, Blob(data));
      TouchedKeeps(old(fs.disk), fs.disk, Staging, path, Blob(data), Some(path));
    }

    /** The state record behind an evidence file, or its refusal. */
    method NameBoundary(text: string) returns (r: Io<()>)
      requires Valid() && IsIncomplete(fs.disk.staging)
      modifies this, fs
      ensures Valid() && old(fs.history) <= fs.history
      ensures r.Done? ==> IsIncomplete(fs.disk.staging) && Boundary(fs.disk.staging.value) == Some(text)
                          && OnlyStateDiffers(old(fs.disk).staging.value, fs.disk.staging.value)
      ensures KeepsSince(old(fs.disk), fs.history, old(|fs.history|), None) && Keeps(old(fs.disk), fs.disk, None)
      ensures r.ContractError? <==> !IsIdentifier(text)
      ensures r.ContractError? ==> fs.disk == old(fs.disk)
      ensures fs.Healthy() && CanWriteState(size, old(fs.disk).staging.value) ==> r.Done? || r.ContractError?
    {
      r := WriteStateAt(Staging, false, "EVIDENCE_RETAINED", None, Some(text));
    }

    /** `invalidate`; its caller's words must fit the record, or nothing is written. */
    method Invalidate(phase: string, reason: string, last: Option<string>) returns (r: Io<()>)
      requires Valid()
      modifies this, fs
      ensures Valid() && old(fs.history) <= fs.history
      ensures !IsIncomplete(old(fs.disk).staging) ==> r.BundleError? && fs.disk == old(fs.disk)
      ensures r.Done? ==> fs.disk.staging.Some? && Inspect(fs.disk.staging.value) == Returned(Invalid)
                          && Inventory(fs.disk.staging.value) == Inventory(old(fs.disk).staging.value)
                          && sequence == old(sequence) + 1
                          && fs.disk.staging.value[STATE_PATH].content
                             == StateDocument(StateRecord(true, phase, Some(reason), last, sequence))
      ensures fs.disk.final == old(fs.disk).final
      ensures KeepsSince(old(fs.disk), fs.history, old(|fs.history|), None) && Keeps(old(fs.disk), fs.disk, None)
      ensures r.ContractError?
              <==> IsIncomplete(old(fs.disk).staging)
                   && !(1 <= |phase| <= 160 && 1 <= |reason| <= 160 && (last.Some? ==> 1 <= |last.value| <= 160))
      ensures r.ContractError? ==> fs.disk == old(fs.disk)
      ensures IsIncomplete(old(fs.disk).staging) && fs.Healthy() && CanWriteState(size, old(fs.disk).staging.value)
              ==> r.Done? || r.ContractError?
    {
      if !IsIncomplete(fs.disk.staging) {
        return BundleError;
      }
      r := WriteStateAt(Staging, true, phase, Some(reason), last);
    }

    /** `_record_commit_failure`: wherever the bundle is now, it must say INVALID and hold no manifest. */
    method RecordCommitFailure() returns (r: Io<()>)
      requires Valid()
      modifies this, fs
      ensures Valid() && old(fs.history) <= fs.history
      ensures r.Done? ==> SaysInvalid(fs.disk)
      ensures !r.ContractError?
      ensures KeepsSince(old(fs.disk), fs.history, old(|fs.history|), None) && Keeps(old(fs.disk), fs.disk, None)
    {
      var place := if fs.disk.final.Some? then Final else Staging;
      if fs.disk.At(place).None? {
        return BundleError;
      }
      var removed := RemoveManifest(place);
      if !removed {
        return OsError;
      }
      ghost var bare, earlier := fs.disk, fs.history;
      r := WriteStateAt(place, true, "COMMIT", Some("DURABILITY_OPERATION_FAILED"), Some("RECONSTRUCTION_VALIDATED"));
      KeepsOn(old(fs.disk), bare, earlier, fs.history, old(|fs.history|), None);
      if r.Done? && place.Final? {
        var synced := fs.Attempt(fs.disk);
        r := if synced then Done(()) else OsError;
      }
    }

    method RemoveManifest(place: Place) returns (ok: bool)
      requires Valid() && fs.disk.At(place).Some?
      modifies fs
      ensures Valid() && old(fs.history) <= fs.history
      ensures ok ==> fs.disk.At(place).Some? && NoManifest(fs.disk, place)
                     && fs.disk == old(fs.disk).With(place, fs.disk.At(place).value)
      ensures KeepsSince(old(fs.disk), fs.history, old(|fs.history|), None) && Keeps(old(fs.disk), fs.disk, None)
    {
      var tree := fs.disk.At(place).value;
      ok := true;
      if MANIFEST_PATH in tree {
        ok := fs.Attempt(fs.disk.With(place, tree - {MANIFEST_PATH}));
      }
    }

    /** The ordered steps from staged evidence to the manifest, which is written last. */
    method Publish(m: Manifest) returns (r: Io<()>)
      requires Valid() && IsIncomplete(fs.disk.staging) && m.files == Inventory(fs.disk.staging.value)
      modifies this, fs
      ensures Valid() && old(fs.history) <= fs.history
      ensures r.Done? ==> fs.disk.staging.None? && fs.disk.final.Some?
                          && Published(old(fs.disk).staging.value, fs.disk.final.value, m)
      ensures r.BundleError? ==> ByNow(fs.disk) == Returned(Incomplete)
      ensures KeepsSince(old(fs.disk), fs.history, old(|fs.history|), None) && Keeps(old(fs.disk), fs.disk, None)
      ensures fs.Healthy() && CanWriteManifest(size, old(fs.disk).staging.value, m) ==> r.Done?
    {
      ghost var staged := fs.disk.staging.value;
      var ok := MoveToFinal();
      if !ok {
        return OsError;
      }
      ghost var moved, earlier := fs.disk, fs.history;
      r := RemoveState();
      KeepsOn(old(fs.disk), moved, earlier, fs.history, old(|fs.history|), None);
      if r.Done? {
        ghost var bare, behind := fs.disk, fs.history;
        r := WriteManifest(m);
        KeepsOn(old(fs.disk), bare, behind, fs.history, old(|fs.history|), None);
      }
    }

    method MoveToFinal() returns (ok: bool)
      requires Valid() && IsIncomplete(fs.disk.staging)
      modifies fs
      ensures Valid() && old(fs.history) <= fs.history
      ensures ok ==> fs.disk == Disk(None, old(fs.disk).staging)
      ensures fs.Healthy() ==> ok
      ensures KeepsSince(old(fs.disk), fs.history, old(|fs.history|), None) && Keeps(old(fs.disk), fs.disk, None)
    {
      ok := fs.Attempt(fs.disk);
      if ok {
        ok := fs.Attempt(Disk(None, fs.disk.staging));
      }
      if ok {
        ok := fs.Attempt(fs.disk);
      }
    }

    method RemoveState() returns (r: Io<()>)
      requires Valid() && fs.disk.staging.None? && fs.disk.final.Some? && NoManifest(fs.disk, Final)
      modifies fs
      ensures Valid() && old(fs.history) <= fs.history && fs.disk.staging.None? && !r.BundleError?
      ensures r.Done? ==> fs.disk.final == Some(old(fs.disk).final.value - {STATE_PATH})
                          && Inventory(fs.disk.final.value) == Inventory(old(fs.disk).final.value)
      ensures KeepsSince(old(fs.disk), fs.history, old(|fs.history|), None) && Keeps(old(fs.disk), fs.disk, None)
      ensures fs.Healthy() ==> r.Done?
    {
      var tree := fs.disk.final.value;
      var ok := fs.Attempt(Disk(None, Some(tree - {STATE_PATH})));
      if !ok {
        return OsError;
      }
      ok := fs.Attempt(fs.disk);
      assert BaseName(STATE_PATH) == STATE_NAME;
      return if ok then Done(()) else OsError;
    }

    method WriteManifest(m: Manifest) returns (r: Io<()>)
      requires Valid() && fs.disk.staging.None? && fs.disk.final.Some? && NoManifest(fs.disk, Final)
      requires STATE_PATH !in fs.disk.final.value && m.files == Inventory(fs.disk.final.value)
      modifies fs
      ensures Valid() && old(fs.history) <= fs.history && fs.disk.staging.None?
      ensures r.Done? ==> fs.disk.final.Some? && Published(old(fs.disk).final.value, fs.disk.final.value, m)
      ensures r.BundleError? ==> fs.disk == old(fs.disk)
      ensures KeepsSince(old(fs.disk), fs.history, old(|fs.history|), None) && Keeps(old(fs.disk), fs.disk, None)
      ensures fs.Healthy() && CanWriteManifest(size, old(fs.disk).final.value, m) ==> r.Done?
    {
      r := DurableWrite(fs, size, Final, MANIFEST_PATH, ManifestDocument(m));
      forall k | old(|fs.history|) <= k < |fs.history|
        ensures Safe(fs.history[k]) && Keeps(old(fs.disk), fs.history[k], None)
      {
        ManifestKeepsSafe(old(fs.disk), fs.history[k], m);
        TouchedKeeps(old(fs.disk), fs.history[k], Final, MANIFEST_PATH, ManifestDocument(m), None);
      }
      TouchedKeeps(old(fs.disk), fs.disk, Final, MANIFEST_PATH, ManifestDocument(m), None);
    }

    /** `commit`. `manifestFits` says whether the manifest's own field contracts hold. */
    method Commit(reconstruct: Reconstructor, crashBeforeManifest: bool, createdAt: nat, manifestFits: bool)
      returns (r: CommitResult)
      requires Valid()
      modifies this, fs
      ensures Valid() && old(fs.history) <= fs.history
      ensures !IsIncomplete(old(fs.disk).staging) ==> r.Refused? && fs.disk == old(fs.disk)
      ensures r.CommitDone? ==> fs.disk.staging.None? && fs.disk.final.Some?
                                && CommittedFrom(fs.disk.final.value, old(fs.disk).staging.value, r.manifest,
                                   reconstruct)
      ensures r.RecordedFailure? || (r.ValidationFailed? && r.recorded) ==> SaysInvalid(fs.disk)
      ensures r.CrashedBeforeManifest? || r.ManifestRefused? ==> ByNow(fs.disk) == Returned(Incomplete)
      ensures r.CommitDone? ==> !crashBeforeManifest && manifestFits && r.manifest.createdAt == createdAt
                                && (exists p :: p in r.manifest.files && p[0] == "raw")
                                && (exists p :: p in r.manifest.files && p[0] == "derived")
      ensures KeepsSince(old(fs.disk), fs.history, old(|fs.history|), None) && Keeps(old(fs.disk), fs.disk, None)
      ensures IsIncomplete(old(fs.disk).staging) && fs.Healthy()
              && Reconstructs(old(fs.disk).staging.value, reconstruct)
              && !crashBeforeManifest && manifestFits
              && CanWriteManifest(size, old(fs.disk).staging.value, ManifestOf(old(fs.disk).staging.value, createdAt))
              ==> r == CommitDone(ManifestOf(old(fs.disk).staging.value, createdAt))
    {
      if !IsIncomplete(fs.disk.staging) {
        return Refused;
      }
      ghost var staged := fs.disk.staging.value;
      var fits, recorded := ValidateForCommit(reconstruct);
      if !fits {
        return ValidationFailed(recorded);
      }
      if crashBeforeManifest {
        return CrashedBeforeManifest;
      }
      if !manifestFits {
        return ManifestRefused;
      }
      var tree := fs.disk.staging.value;
      var m := ManifestOf(tree, createdAt);
      ghost var earlier := fs.history;
      r := PublishOrRecord(m);
      KeepsOn(old(fs.disk), old(fs.disk), earlier, fs.history, old(|fs.history|), None);
      if r.CommitDone? {
        PublishedIsCommitted(staged, fs.disk.final.value, m, reconstruct);
      }
    }

    /** Reconstruction and inventory; whatever goes wrong here is recorded as invalid. */
    method ValidateForCommit(reconstruct: Reconstructor) returns (fits: bool, recorded: bool)
      requires Valid() && IsIncomplete(fs.disk.staging)
      modifies this, fs
      ensures Valid() && old(fs.history) <= fs.history
      ensures fits ==> fs.disk == old(fs.disk) && Reconstructs(fs.disk.staging.value, reconstruct)
      ensures !fits && recorded ==> SaysInvalid(fs.disk)
      ensures KeepsSince(old(fs.disk), fs.history, old(|fs.history|), None) && Keeps(old(fs.disk), fs.disk, None)
      ensures fs.Healthy() ==> (fits <==> Reconstructs(old(fs.disk).staging.value, reconstruct))
      ensures fs.Healthy() && CanWriteState(size, old(fs.disk).staging.value) ==> fits || recorded
    {
      var readable := fs.Attempt(fs.disk);
      fits, recorded := readable && Reconstructs(fs.disk.staging.value, reconstruct), false;
      if !fits {
        ghost var earlier := fs.history;
        var r := Invalidate("COMMIT_VALIDATION", "RECONSTRUCTION_OR_INVENTORY_INVALID", Some("RAW_EVIDENCE_RETAINED"));
        KeepsOn(old(fs.disk), old(fs.disk), earlier, fs.history, old(|fs.history|), None);
        recorded := r.Done?;
      }
    }

    method PublishOrRecord(m: Manifest) returns (r: CommitResult)
      requires Valid() && IsIncomplete(fs.disk.staging) && m.files == Inventory(fs.disk.staging.value)
      modifies this, fs
      ensures Valid() && old(fs.history) <= fs.history
      ensures r.CommitDone? ==> r.manifest == m && fs.disk.staging.None? && fs.disk.final.Some?
                                && Published(old(fs.disk).staging.value, fs.disk.final.value, m)
      ensures r.RecordedFailure? ==> SaysInvalid(fs.disk)
      ensures r.ManifestRefused? ==> ByNow(fs.disk) == Returned(Incomplete)
      ensures r.CommitDone? || r.ManifestRefused? || r.RecordedFailure? || r.UnconfirmedFailure?
      ensures KeepsSince(old(fs.disk), fs.history, old(|fs.history|), None) && Keeps(old(fs.disk), fs.disk, None)
      ensures fs.Healthy() && CanWriteManifest(size, old(fs.disk).staging.value, m) ==> r.CommitDone?
    {
      var published := Publish(m);
      if published.Done? {
        return CommitDone(m);
      }
      if published.BundleError? {
        return ManifestRefused;
      }
      ghost var failed, earlier := fs.disk, fs.history;
      var recovered := RecordCommitFailure();
      KeepsOn(old(fs.disk), failed, earlier, fs.history, old(|fs.history|), None);
      return if recovered.Done? then RecordedFailure else UnconfirmedFailure;
    }
  }

  /** The manifest of a staged directory. */
  function ManifestOf(tree: Tree, createdAt: nat): Manifest {
    Manifest(createdAt, Inventory(tree), Beneath(tree, "derived"))
  }

  predicate CanWriteManifest(size: Content -> nat, tree: Tree, m: Manifest) {
    TempOf(MANIFEST_PATH) !in tree && size(ManifestDocument(m)) <= MAX_STAGE2_FILE_BYTES
  }

  /** The derived files are exactly what the raw files reconstruct to, and there are some of each. */
  predicate Reconstructs(tree: Tree, reconstruct: Reconstructor) {
    && reconstruct(Beneath(tree, "raw")) == Some(Beneath(tree, "derived"))
    && (exists p :: p in Inventory(tree) && p[0] == "raw")
    && (exists p :: p in Inventory(tree) && p[0] == "derived")
  }

  /** The bundle, wherever it is, calls itself invalid. */
  predicate SaysInvalid(disk: Disk) {
    var place := if disk.final.Some? then Final else Staging;
    disk.At(place).Some? && Inspect(disk.At(place).value) == Returned(Invalid)
    && (disk.staging.None? || disk.final.None?)
  }

  /** What the bundle calls itself, wherever it is. */
  function ByNow(disk: Disk): Result<BundleState> {
    if disk.final.Some? then Inspect(disk.final.value)
    else if disk.staging.Some? then Inspect(disk.staging.value)
    else Raised
  }

  /** From staged files to published ones: the state record gone, the manifest there and newest. */
  predicate Published(staged: Tree, tree: Tree, m: Manifest) {
    && MANIFEST_PATH !in staged
    && tree.Keys == staged.Keys - {STATE_PATH} + {MANIFEST_PATH}
    && (forall p :: p in tree && p != MANIFEST_PATH ==> tree[p] == staged[p])
    && tree[MANIFEST_PATH].content == ManifestDocument(m)
    && (forall p :: p in tree ==> tree[p].mtime <= tree[MANIFEST_PATH].mtime)
  }

  lemma PublishedIsCommitted(staged: Tree, tree: Tree, m: Manifest, reconstruct: Reconstructor)
    requires Published(staged, tree, m) && Reconstructs(staged, reconstruct)
    requires m.files == Inventory(staged) && m.reconstruction == Beneath(staged, "derived")
    ensures CommittedFrom(tree, staged, m, reconstruct)
  {
  }

  /** A path where evidence can be put: below the top, not in use, and not below a file. */
  predicate IsFree(tree: Tree, path: Path) {
    && |path| >= 2 && path !in tree && !IsDirectory(tree, path)
    && forall depth :: 1 <= depth < |path| ==> path[..depth] !in tree
  }

  predicate IsDirectory(tree: Tree, path: Path) {
    exists p :: p in tree && path < p
  }

  /** The last valid boundary that the state record of a directory names. */
  function Boundary(tree: Tree): Option<string> {
    if STATE_PATH in tree && tree[STATE_PATH].content.StateDocument? then tree[STATE_PATH].content.record.last else None
  }

  /** All files but the state record are as they were. */
  predicate OnlyStateDiffers(before: Tree, after: Tree) {
    after.Keys == before.Keys + {STATE_PATH} && forall p :: p in before && p != STATE_PATH ==> after[p] == before[p]
  }

  /** One evidence file and the next state record were added to a directory. */
  predicate EvidenceAdded(before: Tree, after: Tree, path: Path, content: Content) {
    && after.Keys == before.Keys + {path, STATE_PATH}
    && (forall p :: p in before && p != path && p != STATE_PATH ==> after[p] == before[p])
    && after[path].content == content
  }

  // ---------------------------------------------------------------- whole lifecycles

  datatype Call =
    | CallCreate
    | CallWrite(path: Path, data: string, derived: bool, admissible: bool)
    | CallInvalidate(phase: string, reason: string)
    | CallCommit(reconstruct: Reconstructor, crashBeforeManifest: bool, createdAt: nat, manifestFits: bool)

  datatype Outcome = Plain(io: Io<()>) | Committing(result: CommitResult)

  /** What a call may do to the disk, given how it ended. */
  predicate CallFits(call: Call, before: Disk, after: Disk, outcome: Outcome) {
    match call
    case CallCreate =>
      && outcome.Plain?
      && (before.staging.Some? || before.final.Some? ==> outcome.io.BundleError? && after == before)
      && !outcome.io.ContractError?
      && (outcome.io.Done? ==>
            IsIncomplete(after.staging) && after.staging.value.Keys == {STATE_PATH} && after.final == None)
    case CallWrite(path, data, derived, admissible) =>
      && outcome.Plain?
      && (!IsIncomplete(before.staging) ==> outcome.io.BundleError? && after == before)
      && (outcome.io.Done? ==>
            && before.staging.Some? && path !in before.staging.value && IsIncomplete(after.staging)
            && EvidenceAdded(before.staging.value, after.staging.value, path, Blob(data))
            && Boundary(after.staging.value) == Some(PathText(path)) && IsIdentifier(PathText(path)))
      && (outcome.io.ContractError? ==>
            && before.staging.Some? && path !in before.staging.value && after.staging.Some?
            && Written(before.staging.value, after.staging.value, path, Blob(data)) && !IsIdentifier(PathText(path)))
    case CallInvalidate(phase, reason) =>
      && outcome.Plain? && after.final == before.final
      && (!IsIncomplete(before.staging) ==> outcome.io.BundleError? && after == before)
      && (outcome.io.Done? ==>
            && before.staging.Some? && after.staging.Some? && Inspect(after.staging.value) == Returned(Invalid)
            && Inventory(after.staging.value) == Inventory(before.staging.value))
      && (outcome.io.ContractError? ==> after == before && !(IsIdentifier(phase) && IsIdentifier(reason)))
    case CallCommit(reconstruct, crash, createdAt, fits) =>
      && outcome.Committing?
      && (!IsIncomplete(before.staging) ==> outcome.result.Refused? && after == before)
      && (outcome.result.CommitDone? ==>
            && before.staging.Some? && after.staging.None? && after.final.Some?
            && CommittedFrom(after.final.value, before.staging.value, outcome.result.manifest, reconstruct))
      && (outcome.result.RecordedFailure? || (outcome.result.ValidationFailed? && outcome.result.recorded)
          ==> SaysInvalid(after))
      && (outcome.result.CrashedBeforeManifest? || outcome.result.ManifestRefused?
          ==> ByNow(after) == Returned(Incomplete))
  }

  /** The disks between the calls of a lifecycle, from a fresh one on. */
  ghost predicate IsLifecycle(calls: seq<Call>, outcomes: seq<Outcome>, disks: seq<Disk>) {
    && |outcomes| == |calls| && |disks| == |calls| + 1 && disks[0] == Disk(None, None)
    && (forall i :: 0 <= i < |disks| ==> disks[i].staging.None? || disks[i].final.None?)
    && forall i :: 0 <= i < |calls| ==> CallFits(calls[i], disks[i], disks[i + 1], outcomes[i])
  }

  /** The evidence file a call may touch: never one that is there. */
  function TouchedBy(call: Call, before: Disk): Option<Path> {
    if call.CallWrite? && !(BundleOf(before).Some? && call.path in BundleOf(before).value) then Some(call.path)
      else None
  }

  /** Where in the history of the disk the calls of a lifecycle begin and end, and what each of its states
      keeps, crashes inside the call included. */
  ghost predicate IsHistory(calls: seq<Call>, disks: seq<Disk>, history: seq<Disk>, marks: seq<nat>) {
    && |disks| == |calls| + 1 && |marks| == |disks| && marks[|calls|] == |history| - 1
    && (forall i :: 0 <= i < |marks| ==> marks[i] < |history| && history[marks[i]] == disks[i])
    && forall i :: 0 <= i < |calls| ==> IsCallHistory(calls[i], disks[i], history, marks[i], marks[i + 1])
  }

  ghost predicate IsCallHistory(call: Call, before: Disk, history: seq<Disk>, from: nat, to: nat) {
    from <= to && forall k :: from <= k <= to && k < |history| ==> Keeps(before, history[k], TouchedBy(call, before))
  }

  /** Any sequence of calls on a fresh disk, under any schedule of step failures, stopped anywhere: each
      call does to the disk what its outcome says, and no state of the disk along the way, between calls
      or inside them, calls itself committed without being sealed. */
  method RunLifecycle(
    fates: nat -> Fate, ticks: nat -> nat, torn: nat -> Content, size: Content -> nat, calls: seq<Call>)
    returns (fs: FileSystem, outcomes: seq<Outcome>, ghost disks: seq<Disk>, ghost marks: seq<nat>)
    ensures fs.Valid() && SafeSince(fs.history, 0)
    ensures IsLifecycle(calls, outcomes, disks) && disks[|calls|] == fs.disk
    ensures IsHistory(calls, disks, fs.history, marks)
  {
    fs := new FileSystem(fates, ticks, torn);
    var builder := new Stage2BundleBuilder(fs, size);
    outcomes, disks, marks := [], [fs.disk], [0];
    for i := 0 to |calls|
      invariant builder.fs == fs && builder.Valid() && fresh(fs) && fresh(builder)
      invariant |outcomes| == i && |disks| == i + 1 && disks[0] == Disk(None, None) && disks[i] == fs.disk
      invariant forall j :: 0 <= j <= i ==> disks[j].staging.None? || disks[j].final.None?
      invariant forall j :: 0 <= j < i ==> CallFits(calls[j], disks[j], disks[j + 1], outcomes[j])
      invariant IsHistory(calls[..i], disks, fs.history, marks)
    {
      ghost var earlier := fs.history;
      var outcome := RunCall(builder, calls[i]);
      HistoryGrows(calls[..i], disks, earlier, marks, calls[i], fs.history, fs.disk);
      assert calls[..i + 1] == calls[..i] + [calls[i]];
      outcomes, disks, marks := outcomes + [outcome], disks + [fs.disk], marks + [|fs.history| - 1];
    }
    assert calls[..|calls|] == calls;
  }

  lemma HistoryGrows(
    calls: seq<Call>, disks: seq<Disk>, earlier: seq<Disk>, marks: seq<nat>, call: Call, history: seq<Disk>, disk: Disk)
    requires IsHistory(calls, disks, earlier, marks) && earlier != [] && earlier <= history
    requires history[|history| - 1] == disk
    requires KeepsSince(disks[|calls|], history, |earlier|, TouchedBy(call, disks[|calls|]))
    ensures IsHistory(calls + [call], disks + [disk], history, marks + [|history| - 1])
  {
    var calls', disks', marks' := calls + [call], disks + [disk], marks + [|history| - 1];
    forall i | 0 <= i < |calls'| ensures IsCallHistory(calls'[i], disks'[i], history, marks'[i], marks'[i + 1]) {
      if i < |calls| {
        assert IsCallHistory(calls[i], disks[i], earlier, marks[i], marks[i + 1]);
      }
    }
  }

  method RunCall(builder: Stage2BundleBuilder, call: Call) returns (outcome: Outcome)
    requires builder.Valid()
    modifies builder, builder.fs
    ensures builder.Valid() && old(builder.fs.history) <= builder.fs.history
    ensures CallFits(call, old(builder.fs.disk), builder.fs.disk, outcome)
    ensures var touched := TouchedBy(call, old(builder.fs.disk));
            KeepsSince(old(builder.fs.disk), builder.fs.history, old(|builder.fs.history|), touched)
  {
    match call
    case CallCreate =>
      var created := builder.Create();
      outcome := Plain(created);
    case CallWrite(path, data, derived, admissible) =>
      var written := builder.WriteEvidence(path, data, if derived then "derived" else "raw", admissible);
      outcome := Plain(written);
    case CallInvalidate(phase, reason) =>
      var recorded := builder.Invalidate(phase, reason, None);
      outcome := Plain(recorded);
    case CallCommit(reconstruct, crash, createdAt, fits) =>
      var committed := builder.Commit(reconstruct, crash, createdAt, fits);
      outcome := Committing(committed);
  }

  /** Committed for good: once a commit has succeeded, no later call of the lifecycle changes the disk,
      and validation of the final directory gives that manifest back, unless a reserved name is in it. */
  lemma {:induction false} CommittedForGood(calls: seq<Call>, outcomes: seq<Outcome>, disks: seq<Disk>, i: nat, j: nat)
    requires IsLifecycle(calls, outcomes, disks) && i < j < |disks|
    requires calls[i].CallCommit? && outcomes[i].Committing? && outcomes[i].result.CommitDone?
    ensures disks[j] == disks[i + 1] && disks[j].final.Some?
    ensures var tree := disks[j].final.value;
            ValidateCommitted(tree, calls[i].reconstruct)
            == if exists p :: p in tree && BaseName(p) == STATE_NAME then Raised
               else Returned(outcomes[i].result.manifest)
  {
    var done := disks[i + 1];
    assert CallFits(calls[i], disks[i], done, outcomes[i]);
    CommitThenValidate(done.final.value, disks[i].staging.value, outcomes[i].result.manifest, calls[i].reconstruct);
    var k := i + 1;
    while k < j
      invariant i < k <= j && disks[k] == done
    {
      assert CallFits(calls[k], disks[k], disks[k + 1], outcomes[k]);
      k := k + 1;
    }
  }

  /** Invalid for good: once a bundle calls itself invalid between two calls, no later call of the
      lifecycle changes the disk, so it is never committed. */
  lemma {:induction false} InvalidForGood(calls: seq<Call>, outcomes: seq<Outcome>, disks: seq<Disk>, i: nat, j: nat)
    requires IsLifecycle(calls, outcomes, disks) && i <= j < |disks| && SaysInvalid(disks[i])
    ensures disks[j] == disks[i]
    ensures i < j ==> !(outcomes[j - 1].Committing? && outcomes[j - 1].result.CommitDone?)
  {
    if i < j {
      InvalidForGood(calls, outcomes, disks, i, j - 1);
      assert CallFits(calls[j - 1], disks[j - 1], disks[j], outcomes[j - 1]);
    }
  }

  /** A path that is no document of the builder's own and no temporary name. */
  ghost predicate IsEvidencePath(p: Path) {
    !IsOwn(p) && forall q: Path :: p != TempOf(q)
  }

  predicate HoldsFile(disk: Disk, p: Path, content: Content) {
    BundleOf(disk).Some? && p in BundleOf(disk).value && BundleOf(disk).value[p].content == content
  }

  /** Evidence is never lost: once a write has put a file into the bundle, the bundle holds it with that
      content in every later state of the disk, between calls or inside them, staged, moved, committed or
      invalid. */
  lemma EvidenceIsNeverLost(
    calls: seq<Call>, outcomes: seq<Outcome>, disks: seq<Disk>, history: seq<Disk>, marks: seq<nat>, i: nat, k: nat)
    requires IsLifecycle(calls, outcomes, disks) && IsHistory(calls, disks, history, marks)
    requires i < |calls| && calls[i].CallWrite? && IsEvidencePath(calls[i].path)
    requires outcomes[i].Plain? && (outcomes[i].io.Done? || outcomes[i].io.ContractError?)
    requires marks[i + 1] <= k < |history|
    ensures HoldsFile(history[k], calls[i].path, Blob(calls[i].data))
  {
    assert CallFits(calls[i], disks[i], disks[i + 1], outcomes[i]);
    FileStays(calls, disks, history, marks, i + 1, calls[i].path, Blob(calls[i].data), k);
  }

  lemma {:induction false} FileStays(
    calls: seq<Call>, disks: seq<Disk>, history: seq<Disk>, marks: seq<nat>, j: nat, p: Path, content: Content, k: nat)
    requires IsHistory(calls, disks, history, marks) && j < |disks| && IsEvidencePath(p)
    requires HoldsFile(disks[j], p, content) && marks[j] <= k < |history|
    ensures HoldsFile(history[k], p, content)
    decreases |disks| - j
  {
    if j < |calls| {
      assert IsCallHistory(calls[j], disks[j], history, marks[j], marks[j + 1]);
      if k <= marks[j + 1] {
        KeptFile(disks[j], history[k], calls[j], p, content);
      } else {
        assert marks[j] <= marks[j + 1];
        KeptFile(disks[j], history[marks[j + 1]], calls[j], p, content);
        FileStays(calls, disks, history, marks, j + 1, p, content, k);
      }
    }
  }

  lemma KeptFile(before: Disk, after: Disk, call: Call, p: Path, content: Content)
    requires HoldsFile(before, p, content) && IsEvidencePath(p) && Keeps(before, after, TouchedBy(call, before))
    ensures HoldsFile(after, p, content)
  {
    assert !MayTouch(p, TouchedBy(call, before));
  }

  // ---------------------------------------------------------------- a reserved name

  const LOG: Path := ["raw", "log.txt"]
  const RESERVED: Path := ["raw", STATE_NAME]
  const SUMMARY: Path := ["derived", "summary.json"]

  lemma SampleNames()
    ensures STATE_NAME != MANIFEST_NAME && LOG[1] != STATE_NAME && LOG[1] != MANIFEST_NAME
    ensures SUMMARY[1] != STATE_NAME && SUMMARY[1] != MANIFEST_NAME
    ensures "raw" != STATE_NAME && "derived" != STATE_NAME && "raw" != "derived" && LOG != RESERVED
  {
    assert "raw"[0] == 'r' && "derived"[0] == 'd' && STATE_NAME[0] == 'b' && MANIFEST_NAME[0] == 'e';
    assert LOG[1][0] == 'l' && SUMMARY[1][0] == 's';
  }

  /** Nothing is in the way of a new file beside files of two components. */
  lemma SampleIsFree(tree: Tree, path: Path)
    requires |path| == 2 && path !in tree && [path[0]] !in tree
    requires forall p :: p in tree ==> |p| <= 2 && !IsHidden(p)
    ensures IsFree(tree, path) && TempOf(path) !in tree && TempOf(STATE_PATH) !in tree
  {
    assert path[..1] == [path[0]];
    TempIsHidden(path);
    TempIsHidden(STATE_PATH);
  }

  predicate IsHidden(p: Path) {
    "." <= BaseName(p)
  }

  lemma TempIsHidden(p: Path)
    ensures IsHidden(TempOf(p))
  {
    assert BaseName(TempOf(p))[0] == '.';
  }

  ghost predicate IsReady(builder: Stage2BundleBuilder)
    reads builder, builder.fs
  {
    && builder.Valid() && builder.fs.Healthy() && IsIncomplete(builder.fs.disk.staging)
    && (forall c :: builder.size(c) == 0)
    && (forall p :: p in builder.fs.disk.staging.value ==> |p| <= 2 && !IsHidden(p))
    && (forall p :: p in builder.fs.disk.staging.value && |p| == 1 ==> p == STATE_PATH)
  }

  method AddSample(builder: Stage2BundleBuilder, path: Path, data: string, prefix: string)
    requires IsReady(builder) && prefix in {"raw", "derived"} && |path| == 2 && path[0] == prefix && !IsHidden(path)
    requires path !in builder.fs.disk.staging.value && IsIdentifier(PathText(path))
    modifies builder, builder.fs
    ensures IsReady(builder)
    ensures builder.fs.disk.staging.value.Keys == old(builder.fs.disk).staging.value.Keys + {path}
    ensures builder.fs.disk.staging.value[path].content == Blob(data)
  {
    var tree := builder.fs.disk.staging.value;
    SampleNames();
    SampleIsFree(tree, path);
    var written := builder.WriteEvidence(path, data, prefix, true);
    SampleStaysReady(tree, builder.fs.disk.staging.value, path, Blob(data));
  }

  lemma SampleStaysReady(before: Tree, after: Tree, path: Path, content: Content)
    requires EvidenceAdded(before, after, path, content) && STATE_PATH in before && |path| == 2 && !IsHidden(path)
    requires forall p :: p in before ==> |p| <= 2 && !IsHidden(p) && (|p| == 1 ==> p == STATE_PATH)
    ensures after.Keys == before.Keys + {path} && after[path].content == content
    ensures forall p :: p in after ==> |p| <= 2 && !IsHidden(p) && (|p| == 1 ==> p == STATE_PATH)
  {
  }

  method NewSample() returns (builder: Stage2BundleBuilder)
    ensures fresh(builder) && fresh(builder.fs) && IsReady(builder)
            && builder.fs.disk.staging.value.Keys == {STATE_PATH}
  {
    var fs := new FileSystem(n => Works, n => 1, n => Blob(""));
    builder := new Stage2BundleBuilder(fs, c => 0);
    assert builder.Valid() && fs.Healthy();
    var created := builder.Create();
    assert created.Done? && !IsHidden(STATE_PATH) by {
      assert STATE_NAME[0] == 'b';
    }
  }

  lemma SamplePaths()
    ensures !IsHidden(LOG) && !IsHidden(RESERVED) && !IsHidden(SUMMARY)
    ensures LOG != STATE_PATH && RESERVED != STATE_PATH && SUMMARY != STATE_PATH && LOG != RESERVED && LOG != SUMMARY
            && RESERVED != SUMMARY
  {
    SampleNames();
    assert LOG[1][0] == 'l' && SUMMARY[1][0] == 's' && RESERVED[1][0] == 'b';
  }

  lemma SampleTexts()
    ensures IsIdentifier(PathText(LOG)) && IsIdentifier(PathText(RESERVED)) && IsIdentifier(PathText(SUMMARY))
  {
    TextOfTwo(LOG);
    TextOfTwo(RESERVED);
    TextOfTwo(SUMMARY);
  }

  lemma TextOfTwo(path: Path)
    requires |path| == 2
    ensures |PathText(path)| == |path[0]| + 1 + |path[1]|
  {
  }

  method StageLog() returns (builder: Stage2BundleBuilder)
    ensures fresh(builder) && fresh(builder.fs) && IsReady(builder)
    ensures builder.fs.disk.staging.value.Keys == {STATE_PATH, LOG}
  {
    SamplePaths();
    SampleTexts();
    builder := NewSample();
    AddSample(builder, LOG, "log", "raw");
  }

  method StageRaw() returns (builder: Stage2BundleBuilder)
    ensures fresh(builder) && fresh(builder.fs) && IsReady(builder)
    ensures builder.fs.disk.staging.value.Keys == {STATE_PATH, LOG, RESERVED}
  {
    SamplePaths();
    SampleTexts();
    builder := StageLog();
    AddSample(builder, RESERVED, "reserved", "raw");
  }

  method StageSample() returns (builder: Stage2BundleBuilder)
    ensures fresh(builder) && fresh(builder.fs) && IsReady(builder)
    ensures var staged := builder.fs.disk.staging.value;
            staged.Keys == {STATE_PATH, LOG, RESERVED, SUMMARY} && staged[SUMMARY].content == Blob("summary")
  {
    SamplePaths();
    SampleTexts();
    builder := StageRaw();
    AddSample(builder, SUMMARY, "summary", "derived");
  }

  /** A bundle that commits on a healthy disk and then fails its own validation: it holds evidence called
      like the state record. */
  method CommitThatFailsValidation() returns (committed: CommitResult, validated: Result<Manifest>)
    ensures committed.CommitDone? && validated.Raised?
  {
    var builder := StageSample();
    var reconstruct: Reconstructor := files => Some(map[SUMMARY := Blob("summary")]);
    ghost var staged := builder.fs.disk.staging.value;
    SampleReconstructs(staged, reconstruct);
    TempIsHidden(MANIFEST_PATH);
    committed := builder.Commit(reconstruct, false, 0, true);
    var tree := builder.fs.disk.final.value;
    validated := ValidateCommitted(tree, reconstruct);
    ReservedFailsValidation(tree, staged, committed.manifest, reconstruct);
  }

  lemma ReservedFailsValidation(tree: Tree, staged: Tree, m: Manifest, reconstruct: Reconstructor)
    requires CommittedFrom(tree, staged, m, reconstruct) && RESERVED in staged
    ensures ValidateCommitted(tree, reconstruct).Raised?
  {
    CommitThenValidate(tree, staged, m, reconstruct);
    SampleNames();
    assert RESERVED in tree && BaseName(RESERVED) == STATE_NAME;
  }

  lemma SampleReconstructs(tree: Tree, reconstruct: Reconstructor)
    requires tree.Keys == {STATE_PATH, LOG, RESERVED, SUMMARY} && tree[SUMMARY].content == Blob("summary")
    requires forall files :: reconstruct(files) == Some(map[SUMMARY := Blob("summary")])
    ensures Reconstructs(tree, reconstruct)
  {
    SampleNames();
    assert Beneath(tree, "derived") == map[SUMMARY := Blob("summary")];
    assert LOG in Inventory(tree) && LOG[0] == "raw";
    assert SUMMARY in Inventory(tree) && SUMMARY[0] == "derived";
  }
}
