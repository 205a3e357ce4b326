/**
  The plugin instance: the state its event handlers read and update. The
  settings' exclusion list is rewritten in place when a folder is renamed, and
  the folder whose note is open is remembered across `file-open` events.
*/
module Plugin {
  import opened Wrappers
  import opened Strings
  import opened Paths
  import opened Settings
  import opened Exclusions
  import opened Vault
  import opened Handlers

  /**
    The file a `file-open` event reports: its basename and the path and name
    of the folder it lies in.
  */
  datatype OpenedFile = OpenedFile(basename: string, parentPath: string, parentName: string)

  class FolderNotesPlugin {
    var settings: FolderNotesSettings
    /** The folder whose tree node is marked active, by its `data-path`. */
    var activeFolder: Option<string>

    constructor (settings: FolderNotesSettings)
      ensures this.settings == settings && activeFolder == None
    {
      this.settings := settings;
      activeFolder := None;
    }

    /**
      The `rename` handler (src/main.ts:72-84): nothing unless folder-name sync
      is on; then a folder rename moves the folder's note along and a file
      rename renames the file's folder along.
    */
    method OnRename(index: Index, file: AbstractFile, oldPath: string) returns (ops: seq<VaultOp>)
      modifies this
      ensures activeFolder == old(activeFolder)
      ensures !old(settings).syncFolderName ==> ops == [] && settings == old(settings)
      ensures old(settings).syncFolderName && file.Folder? ==>
        ops == FolderRenameOps(old(settings).excludeFolders, index, file.path, oldPath) &&
        settings == old(settings).(excludeFolders :=
          if file.path in index then RewriteAll(old(settings).excludeFolders, oldPath, file.path)
          else old(settings).excludeFolders)
      ensures old(settings).syncFolderName && file.File? ==>
        ops == FileRenameOps(settings.excludeFolders, index, file, oldPath) && settings == old(settings)
    {
      if !settings.syncFolderName {
        return [];
      }
      match file
      case Folder(path) =>
        ops := HandleFolderRename(index, path, oldPath);
      case File(_, _) =>
        ops := HandleFileRename(index, file, oldPath);
    }

    /**
      `handleFolderRename` (src/main.ts:125-158): when the renamed folder is
      found, every exclusion entry containing the old path is rewritten in
      place, and then the folder's note move is decided.
    */
    method HandleFolderRename(index: Index, newPath: string, oldPath: string) returns (ops: seq<VaultOp>)
      modifies this
      ensures activeFolder == old(activeFolder)
      ensures settings == old(settings).(excludeFolders :=
        if newPath in index then RewriteAll(old(settings).excludeFolders, oldPath, newPath)
        else old(settings).excludeFolders)
      ensures ops == FolderRenameOps(old(settings).excludeFolders, index, newPath, oldPath)
    {
      var oldFileName := Name(oldPath);
      if newPath !in index {
        return [];
      }
      RewriteExclusions(oldPath, newPath);
      var excluded := Lookup(settings.excludeFolders, oldPath);
      if excluded.Some? && excluded.value.disableSync {
        return [];
      }
      var newNotePath := NotePath(newPath, Name(newPath));
      if index[newPath] != FolderKind {
        return [];
      }
      if NotePath(oldPath, oldFileName) !in index {
        return [];
      }
      ops := [Rename(NotePath(newPath, oldFileName), newNotePath)];
    }

    /**
      The loop of `handleFolderRename` (src/main.ts:130-146): each exclusion
      entry whose path contains `oldPath` is rewritten in place, in list order;
      the other entries and every other setting stay as they were.
    */
    method RewriteExclusions(oldPath: string, newPath: string)
      modifies this
      ensures activeFolder == old(activeFolder)
      ensures settings == old(settings).(excludeFolders := RewriteAll(old(settings).excludeFolders, oldPath, newPath))
    {
      var entries := settings.excludeFolders;
      ghost var rewritten := RewriteAll(entries, oldPath, newPath);
      var i := 0;
      while i < |entries|
        invariant 0 <= i <= |entries| == |rewritten|
        invariant forall k :: 0 <= k < i ==> entries[k] == rewritten[k]
        invariant forall k :: i <= k < |entries| ==> entries[k] == old(settings).excludeFolders[k]
      {
        var entry := entries[i];
        if Includes(entry.path, oldPath) {
          entries := entries[i := RewriteSelected(entry, oldPath, newPath)];
        }
        i := i + 1;
      }
      assert entries == rewritten;
      settings := settings.(excludeFolders := entries);
    }

    /**
      `handleFileRename` (src/main.ts:160-188), building the collision probe
      step by step as the source does.
    */
    method HandleFileRename(index: Index, file: AbstractFile, oldPath: string) returns (ops: seq<VaultOp>)
      requires file.File?
      ensures ops == FileRenameOps(settings.excludeFolders, index, file, oldPath)
    {
      var oldFileName := Name(oldPath);
      var oldFilePath := Parent(oldPath);
      if oldFilePath !in index {
        return [];
      }
      var folderName := Name(oldFilePath);
      if folderName + ".md" == Name(file.path) {
        return [];
      }
      var excluded := Lookup(settings.excludeFolders, oldFilePath);
      if excluded.Some? && excluded.value.disableSync {
        return [];
      }
      if oldFileName != folderName + ".md" {
        return [];
      }
      assert FileRenameProceeds(settings.excludeFolders, index, file.path, oldPath);
      var newFolderPath := FolderPathFromNote(file.path);
      if newFolderPath in index {
        return [Rename(file.path, oldPath)];
      }
      if index[oldFilePath] == FolderKind {
        var newPath := RenamedFolderPath(oldFilePath, file.basename);
        return [Rename(oldFilePath, newPath)];
      }
      return [];
    }

    /**
      The folder path a renamed note points at, built as lines 170-176 build
      it: the note's parent, cut back to before its own last '/' when that '/'
      is past the first character, then the note's name without its first ".md".
    */
    method FolderPathFromNote(filePath: string) returns (newFolderPath: string)
      ensures newFolderPath == CollisionProbe(filePath)
    {
      newFolderPath := Parent(filePath);
      var slash := LastIndexOf(newFolderPath, '/');
      if slash > 0 {
        newFolderPath := newFolderPath[..slash] + "/";
      } else {
        newFolderPath := "";
      }
      newFolderPath := newFolderPath + ReplaceFirst(Name(filePath), ".md", "");
    }

    /**
      The path a folder is renamed to after its note (lines 182-185): the
      basename, prefixed by the folder's parent when the folder path has a '/'.
    */
    method RenamedFolderPath(folderPath: string, basename: string) returns (newPath: string)
      ensures newPath == FolderTarget(folderPath, basename)
    {
      newPath := basename;
      IncludesChar(folderPath, '/');
      if IndexOf(folderPath, "/") >= 0 {
        newPath := Parent(folderPath) + "/" + newPath;
      }
    }

    /**
      The `file-open` handler (src/main.ts:61-70): the previous active folder
      is cleared; when the opened file is its folder's note and the folder's
      tree node is rendered, that folder becomes active.
    */
    method OnFileOpen(openFile: Option<OpenedFile>, rendered: set<string>)
      modifies this
      ensures settings == old(settings)
      ensures activeFolder.Some? <==>
        openFile.Some? && openFile.value.basename != "" &&
        openFile.value.basename == openFile.value.parentName && openFile.value.parentPath in rendered
      ensures activeFolder.Some? ==> activeFolder == Some(openFile.value.parentPath)
    {
      if activeFolder.Some? {
        activeFolder := None;
      }
      if openFile.None? || openFile.value.basename == "" {
        return;
      }
      if openFile.value.basename != openFile.value.parentName {
        return;
      }
      if openFile.value.parentPath in rendered {
        activeFolder := Some(openFile.value.parentPath);
      }
    }
  }
}
