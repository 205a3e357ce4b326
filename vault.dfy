/**
  The host's vault as the handlers see it: an index from path to the kind of
  entry stored there, and the operations the handlers ask the host to
  perform. The handlers never touch the index themselves; they return the
  operations they request, in order.
*/
module Vault {

  datatype Kind = FileKind | FolderKind

  /** `getAbstractFileByPath`: a path is in the map exactly when it resolves to an entry. */
  type Index = map<string, Kind>

  /**
    The entry an event is about. A file carries the host's `basename` (its name
    without the extension); both kinds carry their full path, whose last
    segment is the entry's `name`.
  */
  datatype AbstractFile = Folder(path: string) | File(path: string, basename: string)

  /**
    A requested host operation. `Rename.from` is the `path` the host object
    carries when `vault.rename` is called; `Create` asks for an empty note.
  */
  datatype VaultOp = Rename(from: string, to: string) | Create(path: string)

  /**
    The index after one requested operation, moving only the entry named (the
    host re-keys a renamed folder's children on its own).
  */
  function Apply(index: Index, op: VaultOp): (r: Index)
    ensures op.Create? ==> op.path in r && r[op.path] == FileKind
    ensures op.Rename? && op.from in index ==> op.to in r && r[op.to] == index[op.from]
    ensures op.Rename? && op.from in index && op.from != op.to ==>
      op.from !in r && forall p :: p in index && p != op.from && p != op.to ==> p in r
  {
    match op
    case Create(p) => index[p := FileKind]
    case Rename(from, to) =>
      if from in index then (index - {from})[to := index[from]] else index
  }

  /** The index after the requested operations, applied in order. */
  function ApplyAll(index: Index, ops: seq<VaultOp>): Index
    decreases |ops|
  {
    if ops == [] then index else ApplyAll(Apply(index, ops[0]), ops[1..])
  }

  /** Renaming an entry to a free path and back again leaves the index as it was. */
  lemma RenameBackRestores(index: Index, p: string, q: string)
    requires p in index && q !in index
    ensures Apply(Apply(index, Rename(p, q)), Rename(q, p)) == index
  {
    var index'' := Apply(Apply(index, Rename(p, q)), Rename(q, p));
    assert forall k :: k in index'' <==> k in index;
  }
}
