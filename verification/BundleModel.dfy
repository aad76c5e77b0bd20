/** Bundle directories, the documents in them, and the verdicts of `stage2_bundle.py` that only read:
    what a directory says it is, and whether a committed bundle can be trusted. */
module BundleModel {
  import opened Prelude

  /** A path relative to the bundle, by components. */
  type Path = p: seq<string> | |p| > 0 witness ["raw"]

  const STATE_NAME := "bundle-state.json"
  const MANIFEST_NAME := "evidence-manifest.json"
  const STATE_PATH: Path := [STATE_NAME]
  const MANIFEST_PATH: Path := [MANIFEST_NAME]
  const MAX_STAGE2_FILE_BYTES := 16 * 1024 * 1024

  datatype BundleState = Incomplete | Invalid | Committed

  /** A state record can only say INCOMPLETE or INVALID. */
  datatype StateRecord =
    StateRecord(invalid: bool, phase: string, reason: Option<string>, last: Option<string>, sequence: nat)

  /** The record's own contract; a record that does not meet it is never built. */
  predicate RecordFits(r: StateRecord) {
    && IsIdentifier(r.phase) && (r.reason.Some? ==> IsIdentifier(r.reason.value))
    && (r.last.Some? ==> IsIdentifier(r.last.value)) && (r.invalid <==> r.reason.Some?)
  }

  /** The path as it is written, with a slash between components. */
  function PathText(p: Path): string {
    if |p| == 1 then p[0] else p[0] + "/" + PathText(p[1..])
  }

  /** File contents; a digest is as good as the contents, so manifests list contents. */
  datatype Content = Blob(text: string) | StateDocument(record: StateRecord) | ManifestDocument(manifest: Manifest)

  datatype Manifest = Manifest(createdAt: nat, files: map<Path, Content>, reconstruction: map<Path, Content>)

  datatype File = File(content: Content, mtime: nat)
  type Tree = map<Path, File>

  /** The two places a bundle can be: the staging directory and the final one. */
  datatype Place = Staging | Final
  datatype Disk = Disk(staging: Option<Tree>, final: Option<Tree>) {
    function At(place: Place): Option<Tree> {
      if place.Staging? then staging else final
    }

    function With(place: Place, tree: Tree): Disk {
      if place.Staging? then this.(staging := Some(tree)) else this.(final := Some(tree))
    }
  }

  function BaseName(p: Path): string {
    p[|p| - 1]
  }

  /** `.name.tmp-pid` next to the file. */
  function TempOf(p: Path): Path {
    p[..|p| - 1] + ["." + BaseName(p) + ".tmp-pid"]
  }

  lemma TempIsElsewhere(p: Path)
    ensures TempOf(p) != p && BaseName(TempOf(p)) != STATE_NAME && BaseName(TempOf(p)) != MANIFEST_NAME
    ensures |TempOf(p)| == |p| && (|p| > 1 ==> TempOf(p)[0] == p[0])
  {
    assert |BaseName(TempOf(p))| > |BaseName(p)|;
    assert BaseName(TempOf(p))[0] == '.';
  }

  function Inspect(tree: Tree): Result<BundleState> {
    if MANIFEST_PATH in tree then
      if tree[MANIFEST_PATH].content.ManifestDocument? then Returned(Committed) else Raised
    else if STATE_PATH !in tree then Returned(Incomplete)
    else if tree[STATE_PATH].content.StateDocument? then
      Returned(if tree[STATE_PATH].content.record.invalid then Invalid else Incomplete)
    else Raised
  }

  /** The files a manifest lists: all but those with one of the two reserved names, in any directory. */
  function Inventory(tree: Tree): map<Path, Content> {
    map p: Path | p in tree && BaseName(p) != STATE_NAME && BaseName(p) != MANIFEST_NAME :: tree[p].content
  }

  function Beneath(tree: Tree, top: string): map<Path, Content> {
    map p: Path | p in tree && p[0] == top :: tree[p].content
  }

  /** A reconstruction of derived files from raw files; `None` when it raises. */
  type Reconstructor = map<Path, Content> -> Option<map<Path, Content>>

  /** `validate_committed_bundle`. */
  function ValidateCommitted(tree: Tree, reconstruct: Reconstructor): Result<Manifest> {
    if Inspect(tree) != Returned(Committed) then Raised
    else
      var m := tree[MANIFEST_PATH].content.manifest;
      var actual := map p: Path | p in tree && BaseName(p) != MANIFEST_NAME :: tree[p].content;
      if actual.Keys != m.files.Keys || actual != m.files then Raised
      else if exists p :: p in m.files && tree[p].mtime > tree[MANIFEST_PATH].mtime then Raised
      else if reconstruct(Beneath(tree, "raw")) != Some(Beneath(tree, "derived")) then Raised
      else if Beneath(tree, "derived") != m.reconstruction then Raised
      else Returned(m)
  }

  // ---------------------------------------------------------------- what a committed directory holds

  /** A directory that calls itself committed: its manifest lists exactly its inventory, with the
      listed contents, and no state record is left. */
  predicate Sealed(tree: Tree) {
    && MANIFEST_PATH in tree && tree[MANIFEST_PATH].content.ManifestDocument?
    && tree[MANIFEST_PATH].content.manifest.files == Inventory(tree)
    && STATE_PATH !in tree
  }

  predicate SafeTree(tree: Option<Tree>) {
    tree.Some? && Inspect(tree.value) == Returned(Committed) ==> Sealed(tree.value)
  }

  /** Nothing on disk calls itself committed unless it is sealed. */
  predicate Safe(disk: Disk) {
    SafeTree(disk.staging) && SafeTree(disk.final)
  }

  /** No file of the tree, apart from the two at the top, has a reserved name. */
  predicate NoReservedNames(tree: Tree) {
    forall p :: p in tree && p != STATE_PATH && p != MANIFEST_PATH
      ==> BaseName(p) != STATE_NAME && BaseName(p) != MANIFEST_NAME
  }

  /** A sealed directory holds exactly the listed files and the manifest if and only if no evidence
      file bears a reserved name. */
  lemma SealedHoldsExactlyItsFiles(tree: Tree)
    requires Sealed(tree)
    ensures tree.Keys == tree[MANIFEST_PATH].content.manifest.files.Keys + {MANIFEST_PATH} <==> NoReservedNames(tree)
    ensures forall p :: p in tree[MANIFEST_PATH].content.manifest.files
                        ==> p in tree && tree[p].content == tree[MANIFEST_PATH].content.manifest.files[p]
  {
    var listed := tree[MANIFEST_PATH].content.manifest.files;
    assert listed == Inventory(tree);
    if NoReservedNames(tree) {
      assert tree.Keys == listed.Keys + {MANIFEST_PATH};
    }
    if tree.Keys == listed.Keys + {MANIFEST_PATH} {
      forall p | p in tree && p != STATE_PATH && p != MANIFEST_PATH
        ensures BaseName(p) != STATE_NAME && BaseName(p) != MANIFEST_NAME
      {
        assert p in listed;
      }
    }
  }

  /** What a successful commit leaves: the staged files without their state record, and the manifest. */
  predicate CommittedFrom(tree: Tree, staged: Tree, m: Manifest, reconstruct: Reconstructor) {
    && MANIFEST_PATH !in staged
    && tree.Keys == staged.Keys - {STATE_PATH} + {MANIFEST_PATH}
    && (forall p :: p in tree && p != MANIFEST_PATH ==> tree[p] == staged[p])
    && tree[MANIFEST_PATH].content == ManifestDocument(m)
    && (forall p :: p in tree ==> tree[p].mtime <= tree[MANIFEST_PATH].mtime)
    && m.files == Inventory(staged)
    && m.reconstruction == Beneath(staged, "derived")
    && reconstruct(Beneath(staged, "raw")) == Some(Beneath(staged, "derived"))
  }

  /** Commit then validate, exactly: validation returns the committed manifest if and only if no
      evidence file is called `bundle-state.json`; a nested `evidence-manifest.json` goes unnoticed. */
  lemma CommitThenValidate(tree: Tree, staged: Tree, m: Manifest, reconstruct: Reconstructor)
    requires CommittedFrom(tree, staged, m, reconstruct)
    ensures Sealed(tree)
    ensures ValidateCommitted(tree, reconstruct)
            == if exists p :: p in tree && BaseName(p) == STATE_NAME then Raised else Returned(m)
  {
    CommitKeepsEvidence(tree, staged, m, reconstruct);
    var actual := map p: Path | p in tree && BaseName(p) != MANIFEST_NAME :: tree[p].content;
    if p :| p in tree && BaseName(p) == STATE_NAME {
      assert STATE_NAME[0] != MANIFEST_NAME[0];
      assert p in actual && p !in m.files;
    } else {
      assert actual == m.files;
    }
  }

  lemma CommitKeepsEvidence(tree: Tree, staged: Tree, m: Manifest, reconstruct: Reconstructor)
    requires CommittedFrom(tree, staged, m, reconstruct)
    ensures Inventory(tree) == Inventory(staged) && STATE_PATH !in tree
    ensures Beneath(tree, "raw") == Beneath(staged, "raw") && Beneath(tree, "derived") == Beneath(staged, "derived")
  {
    assert STATE_NAME[0] != MANIFEST_NAME[0];
    assert "raw"[0] != MANIFEST_NAME[0] && "raw"[0] != STATE_NAME[0];
    assert "derived"[0] != MANIFEST_NAME[0] && "derived"[0] != STATE_NAME[0];
    BeneathStays(tree, staged, "raw");
    BeneathStays(tree, staged, "derived");
    InventoryStays(tree, staged);
  }

  lemma BeneathStays(tree: Tree, staged: Tree, top: string)
    requires top != STATE_NAME && top != MANIFEST_NAME
    requires tree.Keys == staged.Keys - {STATE_PATH} + {MANIFEST_PATH}
    requires forall p :: p in tree && p != MANIFEST_PATH ==> tree[p] == staged[p]
    ensures Beneath(tree, top) == Beneath(staged, top)
  {
    assert STATE_PATH[0] == STATE_NAME && MANIFEST_PATH[0] == MANIFEST_NAME;
  }

  lemma InventoryStays(tree: Tree, staged: Tree)
    requires tree.Keys == staged.Keys - {STATE_PATH} + {MANIFEST_PATH}
    requires forall p :: p in tree && p != MANIFEST_PATH ==> tree[p] == staged[p]
    ensures Inventory(tree) == Inventory(staged)
  {
    assert BaseName(STATE_PATH) == STATE_NAME && BaseName(MANIFEST_PATH) == MANIFEST_NAME;
  }

  // ---------------------------------------------------------------- what validation refuses

  /** The files of a directory below one top name, with their contents. */
  ghost predicate AreFilesBelow(files: map<Path, Content>, tree: Tree, top: string) {
    && (forall p: Path :: p in files <==> p in tree && p[0] == top)
    && forall p: Path :: p in files ==> files[p] == tree[p].content
  }

  /** Each listed file is there as listed, not newer than the manifest, and nothing else is but files
      named like the manifest. */
  ghost predicate HoldsAsListed(tree: Tree, m: Manifest)
    requires MANIFEST_PATH in tree
  {
    && (forall p: Path :: p in m.files <==> p in tree && p[|p| - 1] != "evidence-manifest.json")
    && (forall p: Path :: p in m.files ==> tree[p].content == m.files[p] && tree[p].mtime <= tree[MANIFEST_PATH].mtime)
  }

  /** Validation, exactly: it returns the manifest at the top if and only if every file is as listed, the
      raw files reconstruct to exactly the derived ones, and those are the recorded reconstruction. */
  lemma ValidatesExactly(
    tree: Tree, reconstruct: Reconstructor, m: Manifest, raw: map<Path, Content>, derived: map<Path, Content>)
    requires AreFilesBelow(raw, tree, "raw") && AreFilesBelow(derived, tree, "derived")
    ensures ValidateCommitted(tree, reconstruct) == Returned(m)
            <==> && MANIFEST_PATH in tree && tree[MANIFEST_PATH].content == ManifestDocument(m)
                 && HoldsAsListed(tree, m)
                 && reconstruct(raw) == Some(derived) && derived == m.reconstruction
  {
    assert raw == Beneath(tree, "raw") && derived == Beneath(tree, "derived");
    if MANIFEST_PATH in tree && tree[MANIFEST_PATH].content == ManifestDocument(m) {
      var actual := map p: Path | p in tree && BaseName(p) != MANIFEST_NAME :: tree[p].content;
      ListingExactly(tree, m, actual);
    }
  }

  lemma ListingExactly(tree: Tree, m: Manifest, actual: map<Path, Content>)
    requires MANIFEST_PATH in tree
    requires actual == map p: Path | p in tree && BaseName(p) != MANIFEST_NAME :: tree[p].content
    ensures HoldsAsListed(tree, m)
            <==> actual == m.files && !(exists p :: p in m.files && tree[p].mtime > tree[MANIFEST_PATH].mtime)
  {
    if HoldsAsListed(tree, m) {
      assert actual.Keys == m.files.Keys;
      assert forall p :: p in actual ==> actual[p] == m.files[p];
    }
  }

  /** A file that differs from the one in a trusted directory with the same manifest: gone, added, changed,
      or touched behind the manifest. */
  predicate Tampered(trusted: Tree, tree: Tree, p: Path)
    requires MANIFEST_PATH in trusted
  {
    || (p in trusted <==> p !in tree)
    || (p in trusted && p in tree && tree[p].content != trusted[p].content)
    || (p in tree && tree[p].mtime > trusted[MANIFEST_PATH].mtime)
  }

  /** Tampering is found: one such file, under any name but the manifest's, and validation refuses. */
  lemma TamperingIsFound(trusted: Tree, tree: Tree, reconstruct: Reconstructor, p: Path)
    requires ValidateCommitted(trusted, reconstruct).Returned?
    requires MANIFEST_PATH in trusted && MANIFEST_PATH in tree && tree[MANIFEST_PATH] == trusted[MANIFEST_PATH]
    requires p[|p| - 1] != "evidence-manifest.json" && Tampered(trusted, tree, p)
    ensures ValidateCommitted(tree, reconstruct).Raised?
  {
    var m := ValidateCommitted(trusted, reconstruct).value;
    ValidatesExactly(trusted, reconstruct, m, Beneath(trusted, "raw"), Beneath(trusted, "derived"));
    if ValidateCommitted(tree, reconstruct).Returned? {
      var m' := ValidateCommitted(tree, reconstruct).value;
      ValidatesExactly(tree, reconstruct, m', Beneath(tree, "raw"), Beneath(tree, "derived"));
    }
  }

  /** What a directory says it is: COMMITTED exactly with a readable manifest, which comes before any state
      record; INVALID or INCOMPLETE as its state record says, and INCOMPLETE without one. */
  lemma InspectsExactly(tree: Tree)
    ensures Inspect(tree) == Returned(Committed)
            <==> MANIFEST_PATH in tree && exists m :: tree[MANIFEST_PATH].content == ManifestDocument(m)
    ensures Inspect(tree) == Returned(Invalid)
            <==> MANIFEST_PATH !in tree && STATE_PATH in tree
                 && exists r: StateRecord :: r.invalid && tree[STATE_PATH].content == StateDocument(r)
    ensures Inspect(tree) == Returned(Incomplete)
            <==> MANIFEST_PATH !in tree
                 && (STATE_PATH !in tree
                     || exists r: StateRecord :: !r.invalid && tree[STATE_PATH].content == StateDocument(r))
  {
    if MANIFEST_PATH in tree && tree[MANIFEST_PATH].content.ManifestDocument? {
      assert tree[MANIFEST_PATH].content == ManifestDocument(tree[MANIFEST_PATH].content.manifest);
    }
    if STATE_PATH in tree && tree[STATE_PATH].content.StateDocument? {
      assert tree[STATE_PATH].content == StateDocument(tree[STATE_PATH].content.record);
    }
  }
}
