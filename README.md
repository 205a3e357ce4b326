# Folder notes: a Dafny model of the plugin's core

The folder-notes plugin for Obsidian gives each folder a *folder note*: a
Markdown file inside the folder that carries the folder's own name
(`Projects/Projects.md`). This project models what the plugin class in
`src/main.ts` decides when the vault or the file explorer reports an event,
and proves properties of those decisions:

- **Path helpers.** `getNameFromPathString` and `getPathFromString` split a
  path at its last `'/'`. `'/' || '\\'` evaluates to `'/'`, so the backslash
  is never a separator. They are modelled as `Paths.Name` and `Paths.Parent`.
  `split('/')` and `join('/')` are modelled as `Paths.Split` and `Paths.Join`.
- **Exclusion registry.** `getExcludedFolderByPath` returns the first entry
  in list order that names the folder itself, or that names the folder's
  parent and has `subFolders` set (`Exclusions.Lookup`).
- **Folder created.** A note is created inside the new folder unless one of
  the guards stops it (`Handlers.OnFolderCreate`).
- **Folder label clicked.** The click is swallowed, replayed to the host,
  opens the note, or creates it (`Handlers.FolderClick`).
- **Folder renamed.** First every exclusion entry whose path contains the
  old path is rewritten in place (`Plugin.FolderNotesPlugin.RewriteExclusions`,
  specified by `Exclusions.RewriteAll`). Then the folder's note is moved to
  the new name (`Plugin.FolderNotesPlugin.HandleFolderRename`, specified by
  `Handlers.FolderRenameOps`).
- **Folder note renamed.** The folder is renamed after the note. If an entry
  already exists at the probed path, the note's own rename is undone instead
  (`Plugin.FolderNotesPlugin.HandleFileRename`, specified by
  `Handlers.FileRenameOps`).
- **File opened.** The plugin remembers which folder's tree node is marked
  active (`Plugin.FolderNotesPlugin.OnFileOpen`).

**How the host appears in the model.** The vault is a map from path to entry
kind (`Vault.Index`). The handlers never change it. They return the host
operations they request, in order (`Vault.VaultOp`), and `Vault.Apply` and
`Vault.ApplyAll` give the effect of those operations on the index.

**Source quirks kept.** The model follows the code as written:
- `folders[folders.indexOf(x)] = y` with `x` absent assigns property `-1`, which `join` ignores.
- `replace('.md', '')` removes only the first occurrence.
- The collision probe keeps the grandparent prefix only when its `'/'` is past position 0.
- After a folder rename, the sync exclusion is looked up under the old path, after the entries have already been rewritten.
- A folder's note is renamed from `newFolder/oldName.md`, the path line 155 assigns to it before `vault.rename`.

## Model

| member | source | states |
|---|---|---|
| Strings.LastIndexOf | src/main.ts:225-227 | `lastIndexOf('/')` is -1 exactly when the character is absent; otherwise it is a position holding the character with none after it |
| Strings.IndexOf | src/main.ts:183 | `indexOf` on a substring: -1 exactly when there is no occurrence; otherwise the position of the first occurrence |
| Strings.Includes | src/main.ts:131 | `includes` holds exactly when the pattern occurs at some position of the string |
| Strings.IncludesChar | src/main.ts:183 | `folder.path.indexOf('/') >= 0` holds exactly when the path contains a `'/'` |
| Strings.ReplaceFirst | src/main.ts:176 | `replace` with a string pattern leaves the string alone when the pattern is absent; otherwise it replaces the first occurrence only, keeping what surrounds it |
| Strings.StripMdSuffix | src/main.ts:176 | removing ".md" from `b + ".md"` gives back `b` when `b` contains no ".md" |
| Strings.ReplaceFirstMd | src/main.ts:176 | when `x` holds no ".md", the first ".md" of `x + ".md" + t` is the one right after `x`, and removing it gives `x + t` |
| Strings.ReplaceInnerMd | src/main.ts:176 | when `x` holds no ".md", removing the first ".md" from `x + ".md" + y + ".md"` removes the inner one and keeps the extension |
| Strings.FirstIndex | src/main.ts:144 | `folders.indexOf(x)`: -1 exactly when `x` is absent; otherwise the first position holding `x` |
| Strings.ReplaceFirstOccurrence | src/main.ts:144 | assigning at `indexOf(x)` changes exactly the first position holding `x`; when `x` is absent nothing changes |
| Paths.Name | src/main.ts:225-227 | the name contains no '/', is a suffix of the path, follows the last '/', and is the whole path when there is no '/' |
| Paths.Parent | src/main.ts:229-232 | the whole path when there is no '/'; otherwise parent + "/" + name rebuilds the path |
| Paths.ChildPath | src/main.ts:225-232 | for a child path `p/n` with `n` free of '/', the name is `n` and the parent is `p` |
| Paths.Split | src/main.ts:139 | `split('/')` returns at least one segment, and no segment contains '/' |
| Paths.Join | src/main.ts:145 | `join('/')` gives back a single segment unchanged; with two or more segments the result ends in '/' followed by the last segment |
| Paths.JoinSplit | src/main.ts:139-145 | joining a path's segments with '/' gives back the path |
| Paths.SplitJoin | src/main.ts:139-145 | splitting the join of '/'-free segments gives back those segments |
| Paths.NotePath | src/main.ts:151-153 | `folder + '/' + name + '.md'` starts with the folder path and ends in ".md"; when the name has no '/', the last '/' is the one right after the folder path |
| Paths.NotePathIsFolderNote | src/main.ts:53 | `folder + '/' + name + '.md'` built from the folder's own name is that folder's note: its parent is the folder and its name is the folder's name plus ".md" |
| Exclusions.Lookup | src/main.ts:234-240 | `None` exactly when no entry names the path, or names its parent with `subFolders` set; otherwise the first such entry in list order |
| Exclusions.MatchScope | src/main.ts:234-240 | an entry governs its own folder, plus the folders directly inside it when `subFolders` is set, and nothing else |
| Exclusions.AreaExample | src/main.ts:234-240 | a `subFolders` entry "Area" governs "Area/Sub" but not "Area2", "Other/Area" or "Area/Sub/X" |
| Exclusions.RewriteSelected | src/main.ts:135-145 | only the entry's path changes; an entry equal to the old path takes the new path |
| Exclusions.RewriteSegments | src/main.ts:139-145 | any other entry keeps its number of segments; only the first segment equal to the old folder name changes, and it becomes the new folder name |
| Exclusions.RewriteWithoutLeafIsIdentity | src/main.ts:144-145 | when no segment equals the old folder name, the entry comes back unchanged |
| Exclusions.RewriteAll | src/main.ts:130-146 | the list keeps its length; each entry whose path contains the old path is rewritten, and every other entry is left as it was |
| Exclusions.AncestorSegmentRewritten | src/main.ts:130-145 | renaming `n/n` to `n/m` rewrites the entry `n/n/t` to `m/n/t`: the segment replaced is the ancestor, so the entry leaves the renamed folder |
| Exclusions.NamesakeRewritten | src/main.ts:130-145 | for names `o`, `p`, `q` free of '/' with `o` other than `p`, renaming the top-level folder `p` to `q` rewrites the entry `o/p` of a namesake in another folder to `o/q` |
| Exclusions.IntendedRewriteKeepsNamesake | src/main.ts:130-145 | with the corrected rewrite, the entry `o/p` is left alone when the top-level `p` is renamed |
| Exclusions.IntendedRewrite | src/main.ts:130-145 | the corrected rewrite: only the path changes; the renamed folder's own entry takes the new path; an entry inside the renamed folder moves inside the new one and keeps its path relative to it; every other entry is unchanged |
| Exclusions.IntendedRewriteOfAncestorCase | src/main.ts:130-145 | with the corrected rewrite, renaming `n/n` to `n/m` turns `n/n/t` into `n/m/t` |
| Exclusions.UnrelatedNameFragmentExample | src/main.ts:130-146 | renaming "Project" to "Projects" leaves an entry "MyProjectNotes" unchanged |
| Exclusions.ExactSyncExclusionFollowsRename | src/main.ts:135-149 | an exact `disableSync` entry for the renamed folder applies to the old path before the rewrite and no longer applies after it |
| Handlers.OnFolderCreate | src/main.ts:45-57 | requests nothing or the single note `path/name.md`; it requests the note exactly when the layout is ready, auto-create is on, the entry is a folder, its exclusion allows auto-create, and no entry exists at that path |
| Handlers.CreatedNoteIsFolderNote | src/main.ts:52-55 | every note requested on creation is the new folder's note |
| Handlers.CreateReplayIsNoOp | src/main.ts:52-55 | after the requested note exists, the same event requests nothing more |
| Handlers.FolderClick | src/main.ts:97-122 | no data-path: nothing happens. Folder notes disabled: the click is replayed only. Otherwise the click is replayed first when collapsing is on, then the note is opened exactly when it exists, created exactly when it is missing and an allowed modifier is held, and the click is replayed in every other case |
| Handlers.PlainClickNeverCreates | src/main.ts:111-121 | without Alt or the new-tab modifier, a click on a folder with no note creates nothing and ends by replaying the click |
| Handlers.FolderRenameOps | src/main.ts:125-158 | at most one operation. The note is moved exactly when the renamed folder exists and is a folder, no sync exclusion matches the old path in the rewritten list, and the note `old/oldName.md` exists. The move goes from `new/oldName.md` to the renamed folder's note |
| Handlers.FolderRenameKeepsAssociation | src/main.ts:150-156 | the note looked for is the old folder's note; the renamed one lies in the new folder under the old name, and it becomes the new folder's note |
| Handlers.CollisionProbe | src/main.ts:170-176 | the probed path is the new note's name with its first ".md" removed, placed in the parent of the note's folder when that folder's path has a '/' and a non-empty parent, and bare otherwise |
| Handlers.FolderTarget | src/main.ts:181-186 | the new folder path ends in the note's basename; it stays in the old folder's parent, or is the bare basename for a top-level folder |
| Handlers.FileRenameOps | src/main.ts:160-188 | nothing unless all four guards pass. If an entry exists at the collision probe, the note's rename is undone. Otherwise the old parent folder is renamed after the note's basename when it is a folder |
| Handlers.CollisionProbeIsTarget | src/main.ts:170-176 | for a note renamed in place to `b.md`, with `b` free of '/' and of ".md" and a folder path that does not start with '/', the collision probe is exactly the path the folder would be renamed to |
| Handlers.NoteRenameRenamesFolder | src/main.ts:160-188 | for a folder whose sync is not disabled by an exclusion, `b` free of '/' and of ".md", and a folder path that does not start with '/', renaming `folder/folder.md` to `folder/b.md` renames the folder to `b` beside itself, after which the note is again the folder's note; when that path is taken, only the note's rename is undone |
| Handlers.RevertIsNoOp | src/main.ts:177-180 | for a rename within the note's own folder, the rename event that undoing the note's rename fires requests nothing |
| Handlers.CrossFolderMoveRevertsForever | src/main.ts:160-180 | for top-level folders `a` and `b` with names free of ".md", and an exclusion list that disables sync for neither, moving `a/a.md` to `b/b.md` requests the move back; that move's event requests the move again; and the two moves restore the index, so the exchange never ends |
| Handlers.MoveOntoFolderNoteReverts | src/main.ts:170-180 | for top-level folders `a` and `b`, with `b` free of ".md" and sync not disabled for `a`, moving the note of `a` onto `b/b.md` is undone because the probe finds `b` |
| Handlers.MoveBackRevertsAgain | src/main.ts:160-180 | for top-level folders `a` and `b`, with `a` free of ".md" and sync not disabled for `b`, the event fired by the move back from `b/b.md` to `a/a.md` requests the move to `b/b.md` again |
| Handlers.ProbeStripsInnerMd | src/main.ts:170-176 | for a top-level folder and `x`, `y` free of '/', with `x` free of ".md", the probe for the basename `x.md` + `y` is `xy.md`: the ".md" removed lies inside the basename |
| Handlers.MissedCollision | src/main.ts:170-186 | for a top-level folder `f` whose sync is not disabled by an exclusion, `f`, `x` and `y` free of '/', and `x` free of ".md": when `x.mdy` exists and `xy.md` does not, renaming `f/f.md` to `f/x.mdy.md` probes `xy.md` and requests the rename of folder `f` onto the existing `x.mdy`, while the corrected handler only undoes the note's rename |
| Handlers.IntendedFileRenameOps | src/main.ts:160-188 | the corrected handler: nothing for a note moved out of its folder or when a guard fails. Otherwise it undoes the note's rename exactly when the folder's rename target is taken, renames the folder to that target when it is a folder, and requests nothing else. A folder rename always lands on a free path |
| Handlers.IntendedRevertIsNoOp | src/main.ts:177-180 | with the corrected handler, the event fired by undoing a note's rename requests nothing, wherever the note had been moved |
| Handlers.IntendedAgreesInPlace | src/main.ts:160-188 | for a note renamed in place to a basename free of '/' and of ".md", in a folder path that does not start with '/', the corrected handler requests exactly what the source requests |
| Handlers.IntendedMatchesWhenProbeIsTarget | src/main.ts:170-186 | for a rename within the folder, when the probe is the rename target, the corrected handler requests exactly what the source requests |
| Plugin.FolderNotesPlugin.constructor | src/main.ts:8-13 | starts with the given settings and no active folder |
| Plugin.FolderNotesPlugin.OnRename | src/main.ts:72-84 | with sync off, nothing is requested and nothing changes. Otherwise a folder rename runs the folder handler and a file rename runs the file handler, each with its own result and new state |
| Plugin.FolderNotesPlugin.RewriteExclusions | src/main.ts:130-146 | the exclusion list becomes the rewritten list; every other setting and the active folder are unchanged |
| Plugin.FolderNotesPlugin.HandleFolderRename | src/main.ts:125-158 | when the folder exists, the exclusions are rewritten (untouched otherwise), and the requested operations are those of the folder-rename decision on the settings as they were |
| Plugin.FolderNotesPlugin.HandleFileRename | src/main.ts:160-188 | the probe and the target built step by step give the operations of the file-rename decision |
| Plugin.FolderNotesPlugin.FolderPathFromNote | src/main.ts:170-176 | the path built step by step from the renamed note is the collision probe that `Handlers.CollisionProbeIsTarget` relates to the folder's new path |
| Plugin.FolderNotesPlugin.RenamedFolderPath | src/main.ts:182-185 | the path built step by step is the folder target: it ends in the basename and stays in the folder's parent |
| Plugin.FolderNotesPlugin.OnFileOpen | src/main.ts:61-70 | a folder is active exactly when the opened file has a non-empty basename equal to its parent's name and the parent's node is rendered; that folder is the parent |

## Left out

- The `MutationObserver` and the click listeners it installs on rendered folder titles (src/main.ts:20-38) are left out. They are DOM work; only the decision a click triggers is modelled.
- The CSS class updates are left out: `addCSSClassToTitleEL`, `removeCSSClassToTitleEL`, `loadFileClasses` and the class removals in the `rename` handler when sync is off. They change only the explorer's appearance.
- The `delete` handler (src/main.ts:40-44) is left out, because it only removes a CSS class.
- `createFolderNote`, `openFolderNote` and `deleteFolderNote` (src/main.ts:190-223) are left out as host work: file creation, opening a leaf, the template, the folder-name modal and the delete confirmation. The model records only the request to create or open a note. `openFolderNote` opening nothing when the path holds a folder is not modelled.
- `loadSettings` and `saveSettings` are left out because they are persistence I/O. `settings.ts`, the settings tab, `template.ts`, the modals and `commands.ts` are not part of this model. The settings record carries only the fields `src/main.ts` reads.
- The `Notice` shown when a folder rename collides is not modelled, because it is user-interface output.
- Asynchronous interleaving is not modelled: each handler runs to completion on the state it is given.
- `Plugin.FolderNotesPlugin.RewriteExclusions` updates a local copy of the entry list and stores it in the settings once. The source mutates entry objects that the settings list shares. No other code runs in between, so the result is the same, but the aliasing itself is not modelled.
- `Vault.Apply` moves only the entry it renames. The host's re-keying of a renamed folder's children is not modelled.
- A file's `basename` is an input given with the event, not derived from its path, as the host supplies it.
- Handlers.RevertIsNoOp: covers only a rename within the note's own folder. For a move to another folder the revert fires the handler again with the roles swapped, and the exchange does not end (see "## Findings").
- Handlers.CollisionProbeIsTarget: holds only for a basename with no '/' and no ".md", in a folder whose path does not start with '/'. A basename holding ".md" makes the probe differ from the target (`Handlers.MissedCollision`); a folder path starting with '/' keeps that '/' in the target but not in the probe.
- Handlers.NoteRenameRenamesFolder: holds under the same limits as `Handlers.CollisionProbeIsTarget`, for the same reasons, and only when no exclusion disables sync for the folder. With sync disabled the handler returns at src/main.ts:168 and requests nothing.
- Handlers.MissedCollision: shown for a top-level folder `f` whose sync is not disabled, with `f`, `x` and `y` free of '/' and `x` free of ".md". With sync disabled the handler requests nothing. When `x` holds a ".md" itself, that one is removed instead and the probe is not `xy.md` (see `Handlers.ProbeStripsInnerMd`). The host refuses the requested rename onto the existing `x.mdy`, so the note keeps its new name and is no longer the note of `f`.
- Handlers.CrossFolderMoveRevertsForever: shown for top-level folders whose names contain no ".md", with sync disabled for neither. An exclusion that disables sync for `a` stops the first move back, and one for `b` stops the move again. A name holding ".md" changes the probe (see `Handlers.MissedCollision`), so the cycle is not shown for it.
- Handlers.MoveOntoFolderNoteReverts: shown for top-level folders, with `b` free of ".md" and sync not disabled for `a`. With sync disabled for `a` the handler requests nothing.
- Handlers.MoveBackRevertsAgain: shown for top-level folders, with `a` free of ".md" and sync not disabled for `b`, for the same reasons.
- Handlers.ProbeStripsInnerMd: shown only for `x` free of ".md". When `x` holds a ".md" itself, that one is removed instead; for `x` = "a.mdb" and `y` = "y" the probe is "ab.mdy.md".
- Vault.Apply: a rename or a create overwrites an existing entry, where the host refuses such an operation. `Vault.RenameBackRestores` requires the rename's target to be free; no other lemma depends on the refusal.
- The `folders.length < 1` branch (src/main.ts:140-142) is not modelled as a separate path. `split` always returns at least one segment, so the branch cannot run; `Paths.Split` proves that bound.
- Which DOM node `document.querySelector` returns for a folder is modelled as membership of the folder path in a set of rendered paths.

## Findings

The handlers and the plugin class follow the code as written. Beside them stand the corrected definitions, with their properties proved.

| source | as written | input that shows it | evidently intended | confidence | as-written member | corrected member |
|---|---|---|---|---|---|---|
| src/main.ts:160-180 | a note moved to another folder, where the probe finds an existing entry, is moved back; the move back fires the handler again with the roles swapped | top-level folders `a` and `b`, where `b` has no note yet; move `a/a.md` to `b/b.md`: it is moved back, and the move back requests the move to `b/b.md` again, without end | only a rename within the note's own folder is handled, so undoing a rename ends the exchange | medium, not executed | Handlers.CrossFolderMoveRevertsForever | Handlers.IntendedRevertIsNoOp |
| src/main.ts:170-180 | the probe removes the first ".md" of the new file name, which may lie inside the basename, so it can differ from the path the folder is renamed to | top-level folder `f` with note `f/f.md`; `x.mdy` exists and `xy.md` does not; rename the note to `f/x.mdy.md`: the probe `xy.md` is free, and the handler requests the rename of folder `f` onto the existing `x.mdy`; the host refuses it, so the note keeps its new name and stops being the note of `f` | the collision check looks at the folder's rename target itself | medium, not executed | Handlers.MissedCollision | Handlers.IntendedFileRenameOps |
| src/main.ts:139-145 | the segment replaced is the first one equal to the old folder name, even when that segment is an ancestor | rename folder `Notes/Notes` to `Notes/Archive` with the exclusion `Notes/Notes/Sub`: the entry becomes `Archive/Notes/Sub` | an entry inside the renamed folder moves with it, to `Notes/Archive/Sub` | high, not executed | Exclusions.AncestorSegmentRewritten | Exclusions.IntendedRewrite |
| src/main.ts:130-145 | every entry whose path contains the old path and has a segment equal to the old folder name is rewritten, even when it lies in an unrelated folder | rename the top-level folder `Project` to `Projects` with the exclusion `Other/Project`: the entry becomes `Other/Projects` | only the renamed folder's own entry and the entries inside it change | high, not executed | Exclusions.NamesakeRewritten | Exclusions.IntendedRewrite |
