/**
  The decisions the plugin's event handlers take, as functions of the
  settings, the host's index and the event: which note to create when a
  folder appears (src/main.ts:45-57), what a click on a folder label does
  (src/main.ts:97-122), which note move a folder rename asks for
  (src/main.ts:125-158) and which rename a note rename asks for
  (src/main.ts:160-188). Each returns the requested operations in order.
*/
module Handlers {
  import opened Strings
  import opened Paths
  import opened Settings
  import opened Exclusions
  import opened Vault

  // ---------------------------------------------------------------------------
  // Vault `create`: the folder note of a new folder

  /**
    The `create` handler's guard chain. A note named after the new folder is
    requested inside it when the layout is ready, auto-create is on, the new
    entry is a folder, its exclusion does not disable auto-create and nothing
    is stored at that path yet.
  */
  function OnFolderCreate(settings: FolderNotesSettings, layoutReady: bool, index: Index, created: AbstractFile): (ops: seq<VaultOp>)
    ensures ops == [] || ops == [Create(NotePath(created.path, Name(created.path)))]
    ensures ops != [] <==>
      layoutReady && settings.autoCreate && created.Folder? &&
      !AutoCreateDisabled(settings.excludeFolders, created.path) &&
      NotePath(created.path, Name(created.path)) !in index
  {
    if !layoutReady then []
    else if !settings.autoCreate then []
    else if !created.Folder? then []
    else if AutoCreateDisabled(settings.excludeFolders, created.path) then []
    else
      var path := NotePath(created.path, Name(created.path));
      if path in index then [] else [Create(path)]
  }

  /** The note a folder creation asks for is that folder's note. */
  lemma CreatedNoteIsFolderNote(settings: FolderNotesSettings, layoutReady: bool, index: Index, created: AbstractFile)
    ensures forall op :: op in OnFolderCreate(settings, layoutReady, index, created) ==>
      op.Create? && IsFolderNoteOf(op.path, created.path)
  {
    NotePathIsFolderNote(created.path);
  }

  /**
    Delivering the same `create` event again, once the requested note exists,
    requests nothing: the existence check comes before the create.
  */
  lemma CreateReplayIsNoOp(settings: FolderNotesSettings, layoutReady: bool, index: Index, created: AbstractFile)
    ensures var ops := OnFolderCreate(settings, layoutReady, index, created);
      OnFolderCreate(settings, layoutReady, ApplyAll(index, ops), created) == []
  {
    var ops := OnFolderCreate(settings, layoutReady, index, created);
    var path := NotePath(created.path, Name(created.path));
    if ops != [] {
      var index' := index[path := FileKind];
      assert ApplyAll(index, ops) == index';
      assert path in index';
    } else {
      assert ApplyAll(index, ops) == index;
    }
  }

  // ---------------------------------------------------------------------------
  // Folder-label click

  /** `Keymap.isModEvent`: whether the click asks for a new tab, split or window. */
  datatype ModEvent = NoModifier | NewTab | NewSplit | NewWindow

  /**
    A click on a folder label: the folder's `data-path` ("" when it has none),
    the label's text, and the modifiers held.
  */
  datatype Click = Click(folder: string, title: string, altKey: bool, mod: ModEvent)

  /**
    What the click handler does, in order. `ReplayClick` detaches the handler
    and re-dispatches the click, so the host expands or collapses the folder.
  */
  datatype ClickEffect = ReplayClick | OpenNote(path: string) | CreateNote(path: string)

  predicate FolderNoteDisabled(entries: seq<ExcludedFolder>, folder: string)
  {
    var ex := Lookup(entries, folder);
    ex.Some? && ex.value.disableFolderNote
  }

  predicate CollapsingEnabled(settings: FolderNotesSettings, folder: string)
  {
    var ex := Lookup(settings.excludeFolders, folder);
    (ex.Some? && ex.value.enableCollapsing) || settings.enableCollapsing
  }

  /** The modifier held is one the settings allow to create a note. */
  predicate CreateAllowed(settings: FolderNotesSettings, click: Click)
  {
    (settings.altKey && click.altKey) || (settings.ctrlKey && click.mod == NewTab)
  }

  /**
    `handleFolderClick`. A click without a `data-path` is swallowed. A folder
    whose exclusion disables folder notes gets the native click only. Otherwise
    the native click is replayed first when collapsing is on, and then the note
    `folder/title.md` is opened if it exists, created if an allowed modifier is
    held, and otherwise the native click is replayed.
  */
  function FolderClick(settings: FolderNotesSettings, index: Index, click: Click): (effects: seq<ClickEffect>)
    ensures click.folder == "" ==> effects == []
    ensures click.folder != "" && FolderNoteDisabled(settings.excludeFolders, click.folder) ==>
      effects == [ReplayClick]
    ensures click.folder != "" && !FolderNoteDisabled(settings.excludeFolders, click.folder) ==>
      |effects| == (if CollapsingEnabled(settings, click.folder) then 2 else 1) &&
      (CollapsingEnabled(settings, click.folder) ==> effects[0] == ReplayClick)
    ensures forall p :: OpenNote(p) in effects <==>
      click.folder != "" && !FolderNoteDisabled(settings.excludeFolders, click.folder) &&
      p == NotePath(click.folder, click.title) && p in index
    ensures forall p :: CreateNote(p) in effects <==>
      click.folder != "" && !FolderNoteDisabled(settings.excludeFolders, click.folder) &&
      p == NotePath(click.folder, click.title) && p !in index && CreateAllowed(settings, click)
  {
    if click.folder == "" then []
    else if FolderNoteDisabled(settings.excludeFolders, click.folder) then [ReplayClick]
    else
      var collapse := if CollapsingEnabled(settings, click.folder) then [ReplayClick] else [];
      var path := NotePath(click.folder, click.title);
      var decision :=
        if path in index then OpenNote(path)
        else if click.altKey || click.mod == NewTab then
          if CreateAllowed(settings, click) then CreateNote(path) else ReplayClick
        else ReplayClick;
      collapse + [decision]
  }

  /**
    A click with neither Alt nor the new-tab modifier never creates a note; when
    no note exists it ends by handing the click back to the host.
  */
  lemma PlainClickNeverCreates(settings: FolderNotesSettings, index: Index, click: Click)
    requires !click.altKey && click.mod != NewTab
    requires click.folder != ""
    requires NotePath(click.folder, click.title) !in index
    ensures var effects := FolderClick(settings, index, click);
      (forall p :: CreateNote(p) !in effects) && effects[|effects| - 1] == ReplayClick
  {
  }

  // ---------------------------------------------------------------------------
  // Vault `rename` of a folder: move its note along

  /**
    The note move `handleFolderRename` asks for, given the exclusion list as it
    was before the event. The exclusions are rewritten first and the sync
    exclusion is then looked up under the OLD path. The note is looked for at
    `oldPath/oldName.md`; it is renamed from `newPath/oldName.md`, the path
    line 155 gives it, to the renamed folder's own note path.
  */
  function FolderRenameOps(entries: seq<ExcludedFolder>, index: Index, newPath: string, oldPath: string): (ops: seq<VaultOp>)
    ensures |ops| <= 1
    ensures ops != [] <==>
      newPath in index && index[newPath] == FolderKind &&
      !SyncDisabled(RewriteAll(entries, oldPath, newPath), oldPath) &&
      NotePath(oldPath, Name(oldPath)) in index
    ensures ops != [] ==>
      ops[0] == Rename(NotePath(newPath, Name(oldPath)), NotePath(newPath, Name(newPath))) &&
      IsFolderNoteOf(ops[0].to, newPath)
  {
    if newPath !in index then []
    else if SyncDisabled(RewriteAll(entries, oldPath, newPath), oldPath) then []
    else if index[newPath] != FolderKind then []
    else if NotePath(oldPath, Name(oldPath)) !in index then []
    else
      NotePathIsFolderNote(newPath);
      [Rename(NotePath(newPath, Name(oldPath)), NotePath(newPath, Name(newPath)))]
  }

  /**
    The note of a folder moved from `oldPath` to `newPath` is moved out of the
    folder's old name into the new one: it leaves `newPath/oldName.md`, where
    it lay inside the folder's new location as the old folder's note, and
    becomes the new folder's note.
  */
  lemma FolderRenameKeepsAssociation(entries: seq<ExcludedFolder>, index: Index, newPath: string, oldPath: string)
    requires FolderRenameOps(entries, index, newPath, oldPath) != []
    ensures var op := FolderRenameOps(entries, index, newPath, oldPath)[0];
      IsFolderNoteOf(NotePath(oldPath, Name(oldPath)), oldPath) &&
      '/' in op.from && Parent(op.from) == newPath && Name(op.from) == Name(oldPath) + ".md" &&
      IsFolderNoteOf(op.to, newPath)
  {
    NotePathIsFolderNote(oldPath);
    NotePathParts(newPath, Name(oldPath));
  }

  // ---------------------------------------------------------------------------
  // Vault `rename` of a file: rename its folder along

  /**
    The folder path checked for a collision (lines 170-176): the new file
    path's parent, cut back to before its own last '/' (only when that '/' is
    not the first character), followed by the file name with its first ".md"
    removed.
  */
  function CollisionProbe(filePath: string): (r: string)
    ensures var parent, stem := Parent(filePath), ReplaceFirst(Name(filePath), ".md", "");
      ('/' in parent && Parent(parent) != "" ==> r == Parent(parent) + "/" + stem) &&
      (!('/' in parent && Parent(parent) != "") ==> r == stem)
  {
    var parent := Parent(filePath);
    var i := LastIndexOf(parent, '/');
    assert ('/' in parent) == (i >= 0);
    assert i >= 0 ==> Parent(parent) == parent[..i] && |Parent(parent)| == i;
    (if i > 0 then parent[..i] + "/" else "") + ReplaceFirst(Name(filePath), ".md", "")
  }

  /**
    The path the folder is renamed to (lines 182-185): the note's basename,
    placed beside the folder when the folder is not at the top level.
  */
  function FolderTarget(folderPath: string, basename: string): (r: string)
    ensures '/' !in basename ==> Name(r) == basename
    ensures '/' !in basename && '/' in folderPath ==> '/' in r && Parent(r) == Parent(folderPath)
    ensures '/' !in folderPath ==> r == basename
  {
    if '/' in folderPath then
      var r := Parent(folderPath) + "/" + basename;
      assert '/' !in basename ==> '/' in r && Name(r) == basename && Parent(r) == Parent(folderPath) by {
        if '/' !in basename {
          assert r[|Parent(folderPath)|] == '/';
          ChildPath(Parent(folderPath), basename);
        }
      }
      r
    else basename
  }

  /**
    The guards of `handleFileRename` that must all pass before anything is
    requested: the old parent exists, the new name is not already the
    parent's note name, sync is not disabled for the parent, and the file was
    the parent's note before the rename.
  */
  predicate FileRenameProceeds(entries: seq<ExcludedFolder>, index: Index, filePath: string, oldPath: string)
  {
    var folder := Parent(oldPath);
    folder in index &&
    Name(folder) + ".md" != Name(filePath) &&
    !SyncDisabled(entries, folder) &&
    Name(oldPath) == Name(folder) + ".md"
  }

  /**
    The rename `handleFileRename` asks for when the file now at `file.path`
    was at `oldPath`: nothing unless the guards pass; the file's own rename
    undone when something is stored at the collision probe; otherwise the old
    parent folder renamed after the note, when it is a folder.
  */
  function FileRenameOps(entries: seq<ExcludedFolder>, index: Index, file: AbstractFile, oldPath: string): (ops: seq<VaultOp>)
    requires file.File?
    ensures !FileRenameProceeds(entries, index, file.path, oldPath) ==> ops == []
    ensures FileRenameProceeds(entries, index, file.path, oldPath) && CollisionProbe(file.path) in index ==>
      ops == [Rename(file.path, oldPath)]
    ensures FileRenameProceeds(entries, index, file.path, oldPath) && CollisionProbe(file.path) !in index ==>
      ops == if index[Parent(oldPath)] == FolderKind
             then [Rename(Parent(oldPath), FolderTarget(Parent(oldPath), file.basename))]
             else []
  {
    var folder := Parent(oldPath);
    if folder !in index then []
    else if Name(folder) + ".md" == Name(file.path) then []
    else if SyncDisabled(entries, folder) then []
    else if Name(oldPath) != Name(folder) + ".md" then []
    else if CollisionProbe(file.path) in index then [Rename(file.path, oldPath)]
    else if index[folder] == FolderKind then [Rename(folder, FolderTarget(folder, file.basename))]
    else []
  }

  /**
    When a folder note is renamed where it lies to `b.md` (with `b` free of
    '/' and of ".md"), the collision probe is exactly the path the folder would
    be renamed to, unless the folder path starts with '/'.
  */
  lemma CollisionProbeIsTarget(folder: string, b: string)
    requires '/' !in b && !Includes(b, ".md")
    requires |folder| > 0 ==> folder[0] != '/'
    ensures CollisionProbe(NotePath(folder, b)) == FolderTarget(folder, b)
  {
    var i := LastIndexOf(folder, '/');
    assert i != 0 by {
      if i >= 0 {
        assert folder[i] == '/' && folder[0] != '/';
      }
    }
    assert i > 0 ==> Parent(folder) == folder[..i];
    var note := NotePath(folder, b);
    NotePathParts(folder, b);
    StripMdSuffix(b);
    assert ReplaceFirst(Name(note), ".md", "") == b;
  }

  /**
    Renaming a folder note `folder/name.md` to `folder/b.md` renames the folder
    to `b` in the same parent, so that the note, which the host moves with its
    folder, is again the folder's note; when an entry already exists there,
    only the note's own rename is undone.
  */
  lemma NoteRenameRenamesFolder(entries: seq<ExcludedFolder>, index: Index, folder: string, b: string)
    requires folder in index && index[folder] == FolderKind
    requires !SyncDisabled(entries, folder)
    requires '/' !in b && !Includes(b, ".md") && b != Name(folder)
    requires |folder| > 0 && folder[0] != '/'
    ensures var oldPath, file := NotePath(folder, Name(folder)), File(NotePath(folder, b), b);
      var target := FolderTarget(folder, b);
      Name(target) == b && IsFolderNoteOf(NotePath(target, b), target) &&
      (target !in index ==> FileRenameOps(entries, index, file, oldPath) == [Rename(folder, target)]) &&
      (target in index ==> FileRenameOps(entries, index, file, oldPath) == [Rename(file.path, oldPath)])
  {
    var oldPath, newPath := NotePath(folder, Name(folder)), NotePath(folder, b);
    NotePathParts(folder, Name(folder));
    NotePathParts(folder, b);
    CollisionProbeIsTarget(folder, b);
    assert (b + ".md")[..|b|] == b;
    assert (Name(folder) + ".md")[..|Name(folder)|] == Name(folder);
    assert FileRenameProceeds(entries, index, newPath, oldPath);
    var target := FolderTarget(folder, b);
    NotePathIsFolderNote(target);
  }

  /**
    Undoing a note rename fires the host's `rename` event once more, with the
    roles of the two paths swapped; that event requests nothing, because the
    note again carries its folder's name.
  */
  lemma RevertIsNoOp(entries: seq<ExcludedFolder>, index: Index, file: AbstractFile, oldPath: string, oldBasename: string)
    requires file.File?
    requires Parent(file.path) == Parent(oldPath)
    requires FileRenameOps(entries, index, file, oldPath) == [Rename(file.path, oldPath)]
    ensures FileRenameOps(entries, Apply(index, Rename(file.path, oldPath)), File(oldPath, oldBasename), file.path) == []
  {
  }

  // ---------------------------------------------------------------------------
  // The note rename as written and as evidently intended

  /**
    As written, a folder note moved into another folder whose name is taken is
    moved back, and moving it back fires the handler again with the roles
    swapped: with top-level folders `a` and `b`, neither with sync disabled by
    an exclusion, moving `a/a.md` to `b/b.md`
    requests the move back, whose event requests the move again, and the two
    renames leave the index where it started.
  */
  lemma CrossFolderMoveRevertsForever(entries: seq<ExcludedFolder>, index: Index, a: string, b: string)
    requires a != b && '/' !in a && '/' !in b && !Includes(a, ".md") && !Includes(b, ".md")
    requires !SyncDisabled(entries, a) && !SyncDisabled(entries, b)
    requires a in index && b in index
    requires NotePath(b, b) in index && NotePath(a, a) !in index
    ensures var moveBack, moveAgain := Rename(NotePath(b, b), NotePath(a, a)), Rename(NotePath(a, a), NotePath(b, b));
      FileRenameOps(entries, index, File(NotePath(b, b), b), NotePath(a, a)) == [moveBack] &&
      FileRenameOps(entries, Apply(index, moveBack), File(NotePath(a, a), a), NotePath(b, b)) == [moveAgain] &&
      Apply(Apply(index, moveBack), moveAgain) == index
  {
    MoveOntoFolderNoteReverts(entries, index, a, b);
    MoveBackRevertsAgain(entries, index, a, b);
    RenameBackRestores(index, NotePath(b, b), NotePath(a, a));
  }

  /** The move back fires an event that, as written, requests the move again. */
  lemma MoveBackRevertsAgain(entries: seq<ExcludedFolder>, index: Index, a: string, b: string)
    requires a != b && '/' !in a && '/' !in b && !Includes(a, ".md")
    requires !SyncDisabled(entries, b)
    requires a in index && b in index && NotePath(b, b) in index
    ensures var na, nb := NotePath(a, a), NotePath(b, b);
      FileRenameOps(entries, Apply(index, Rename(nb, na)), File(na, a), nb) == [Rename(na, nb)]
  {
    var na, nb := NotePath(a, a), NotePath(b, b);
    assert na != nb by {
      assert LastIndexOf(na, '/') == |a| && LastIndexOf(nb, '/') == |b|;
      assert na[..|a|] == a && nb[..|b|] == b;
    }
    assert '/' in na && '/' in nb;
    MoveOntoFolderNoteReverts(entries, Apply(index, Rename(nb, na)), b, a);
  }

  /**
    As written, moving the note of top-level folder `a` to the note path of
    another existing top-level folder `b` is undone: the probe finds `b`.
  */
  lemma MoveOntoFolderNoteReverts(entries: seq<ExcludedFolder>, index: Index, a: string, b: string)
    requires a != b && '/' !in a && '/' !in b && !Includes(b, ".md")
    requires !SyncDisabled(entries, a)
    requires a in index && b in index
    ensures FileRenameOps(entries, index, File(NotePath(b, b), b), NotePath(a, a)) == [Rename(NotePath(b, b), NotePath(a, a))]
  {
    var na, nb := NotePath(a, a), NotePath(b, b);
    assert Parent(na) == a && Name(na) == a + ".md" by { NotePathParts(a, a); }
    assert Name(nb) == b + ".md" by { NotePathParts(b, b); }
    assert a + ".md" != b + ".md" by { MdNamesDiffer(a, b); }
    assert CollisionProbe(nb) == b by { CollisionProbeIsTarget(b, b); }
    assert FileRenameProceeds(entries, index, nb, na);
  }

  /**
    As written, the collision probe removes the first ".md" of the new note
    name, which may lie inside the basename: renaming `f/f.md` to
    `f/x.mdy.md` probes `xy.md`, not `x.mdy`, and when only `x.mdy` exists
    the folder is renamed onto it.
  */
  lemma MissedCollision(entries: seq<ExcludedFolder>, index: Index, f: string, x: string, y: string)
    requires '/' !in f && '/' !in x && '/' !in y && !Includes(x, ".md")
    requires f in index && index[f] == FolderKind && !SyncDisabled(entries, f)
    requires f != x + ".md" + y
    requires x + ".md" + y in index && x + y + ".md" !in index
    ensures var b := x + ".md" + y;
      CollisionProbe(NotePath(f, b)) == x + y + ".md" &&
      FileRenameOps(entries, index, File(NotePath(f, b), b), NotePath(f, f)) == [Rename(f, b)] &&
      IntendedFileRenameOps(entries, index, File(NotePath(f, b), b), NotePath(f, f)) ==
        [Rename(NotePath(f, b), NotePath(f, f))]
  {
    var b := x + ".md" + y;
    var note := NotePath(f, b);
    assert '/' !in b;
    assert CollisionProbe(note) == x + y + ".md" by {
      ProbeStripsInnerMd(f, x, y);
    }
    assert FileRenameProceeds(entries, index, note, NotePath(f, f)) by {
      NotePathParts(f, b);
      NotePathParts(f, f);
      MdNamesDiffer(f, b);
    }
    assert FolderTarget(f, b) == b;
  }

  /**
    The probe for a note renamed to `x.md` + `y` + ".md" in a top-level folder
    removes the ".md" inside the basename and keeps the extension.
  */
  lemma ProbeStripsInnerMd(f: string, x: string, y: string)
    requires '/' !in f && '/' !in x && '/' !in y && !Includes(x, ".md")
    ensures CollisionProbe(NotePath(f, x + ".md" + y)) == x + y + ".md"
  {
    var b := x + ".md" + y;
    var note := NotePath(f, b);
    assert '/' !in b;
    assert Parent(note) == f && Name(note) == b + ".md" by { NotePathParts(f, b); }
    assert CollisionProbe(note) == ReplaceFirst(b + ".md", ".md", "");
    ReplaceInnerMd(x, y);
  }

  /**
    The note rename as evidently intended: only a note renamed inside its own
    folder renames the folder, and the collision check looks at the very path
    the folder would be renamed to, so the folder never lands on an existing
    entry.
  */
  function IntendedFileRenameOps(entries: seq<ExcludedFolder>, index: Index, file: AbstractFile, oldPath: string): (ops: seq<VaultOp>)
    requires file.File?
    ensures Parent(file.path) != Parent(oldPath) ==> ops == []
    ensures !FileRenameProceeds(entries, index, file.path, oldPath) ==> ops == []
    ensures ops != [] && ops != [Rename(file.path, oldPath)] ==>
      var folder, target := Parent(oldPath), FolderTarget(Parent(oldPath), file.basename);
      ops == [Rename(folder, target)] && index[folder] == FolderKind && target !in index
    ensures Parent(file.path) == Parent(oldPath) && FileRenameProceeds(entries, index, file.path, oldPath) ==>
      var folder, target := Parent(oldPath), FolderTarget(Parent(oldPath), file.basename);
      ops == if target in index then [Rename(file.path, oldPath)]
             else if index[folder] == FolderKind then [Rename(folder, target)]
             else []
  {
    var folder := Parent(oldPath);
    if Parent(file.path) != folder || !FileRenameProceeds(entries, index, file.path, oldPath) then []
    else
      var target := FolderTarget(folder, file.basename);
      if target in index then [Rename(file.path, oldPath)]
      else if index[folder] == FolderKind then [Rename(folder, target)]
      else []
  }

  /**
    With the intended handler, undoing a note rename ends the exchange: the
    event it fires requests nothing, wherever the note had been moved.
  */
  lemma IntendedRevertIsNoOp(entries: seq<ExcludedFolder>, index: Index, file: AbstractFile, oldPath: string, oldBasename: string)
    requires file.File?
    requires IntendedFileRenameOps(entries, index, file, oldPath) == [Rename(file.path, oldPath)]
    ensures IntendedFileRenameOps(entries, Apply(index, Rename(file.path, oldPath)), File(oldPath, oldBasename), file.path) == []
  {
    var folder := Parent(oldPath);
    assert Parent(file.path) == folder;
    assert Name(oldPath) == Name(folder) + ".md";
    assert !FileRenameProceeds(entries, Apply(index, Rename(file.path, oldPath)), oldPath, file.path);
  }

  /**
    For a note renamed inside its folder to a basename free of '/' and ".md",
    in a folder whose path does not start with '/', the intended handler asks
    for exactly what the source asks for.
  */
  lemma IntendedAgreesInPlace(entries: seq<ExcludedFolder>, index: Index, folder: string, b: string, oldPath: string)
    requires '/' !in b && !Includes(b, ".md")
    requires |folder| > 0 ==> folder[0] != '/'
    requires Parent(oldPath) == folder
    ensures IntendedFileRenameOps(entries, index, File(NotePath(folder, b), b), oldPath) ==
      FileRenameOps(entries, index, File(NotePath(folder, b), b), oldPath)
  {
    NotePathParts(folder, b);
    CollisionProbeIsTarget(folder, b);
    IntendedMatchesWhenProbeIsTarget(entries, index, File(NotePath(folder, b), b), oldPath);
  }

  /** Where the probe is the rename target, the two handlers differ only in the folder guard. */
  lemma IntendedMatchesWhenProbeIsTarget(entries: seq<ExcludedFolder>, index: Index, file: AbstractFile, oldPath: string)
    requires file.File?
    requires Parent(file.path) == Parent(oldPath)
    requires CollisionProbe(file.path) == FolderTarget(Parent(oldPath), file.basename)
    ensures IntendedFileRenameOps(entries, index, file, oldPath) == FileRenameOps(entries, index, file, oldPath)
  {
  }
}
