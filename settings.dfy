/**
  The plugin's configuration, as loaded from the host and merged over the
  defaults. Only `excludeFolders` changes while the plugin runs (a folder
  rename rewrites its entries); the flags are read by the event handlers.
*/
module Settings {

  /** One configured exclusion: a folder path and the behaviours switched for it. */
  datatype ExcludedFolder = ExcludedFolder(
    path: string,
    subFolders: bool,
    disableAutoCreate: bool,
    disableSync: bool,
    disableFolderNote: bool,
    enableCollapsing: bool)

  datatype FolderNotesSettings = FolderNotesSettings(
    hideFolderNote: bool,
    underlineFolder: bool,
    autoCreate: bool,
    syncFolderName: bool,
    altKey: bool,
    ctrlKey: bool,
    enableCollapsing: bool,
    showDeleteConfirmation: bool,
    templatePath: string,
    excludeFolders: seq<ExcludedFolder>)
}
