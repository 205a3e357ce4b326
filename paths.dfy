/**
  Vault paths as the plugin handles them: plain strings in which only '/'
  separates segments. The plugin's helpers call `lastIndexOf('/' || '\\')`,
  but `'/' || '\\'` evaluates to `'/'`, so a backslash is an ordinary character.
*/
module Paths {
  import opened Strings

  /** `getNameFromPathString`: the text after the last '/', or the whole path. */
  function Name(path: string): (r: string)
    ensures '/' !in r
    ensures |r| <= |path| && r == path[|path| - |r|..]
    ensures '/' in path ==> path[|path| - |r| - 1] == '/'
    ensures '/' !in path ==> r == path
  {
    var i := LastIndexOf(path, '/');
    path[if i >= 0 then i + 1 else 0..]
  }

  /** `getPathFromString`: the text before the last '/', or the whole path when it has none. */
  function Parent(path: string): (r: string)
    ensures '/' !in path ==> r == path
    ensures '/' in path ==> path == r + "/" + Name(path) && |r| < |path|
  {
    var i := LastIndexOf(path, '/');
    var r := path[..if i >= 0 then i else |path|];
    assert i >= 0 ==> path == path[..i] + [path[i]] + path[i + 1..];
    r
  }

  /** Appending a '/'-free segment is undone by `Parent` and recovered by `Name`. */
  lemma ChildPath(p: string, n: string)
    requires '/' !in n
    ensures Name(p + "/" + n) == n
    ensures Parent(p + "/" + n) == p
  {
    LastIndexOfAfter(p, '/', n);
    var s := p + "/" + n;
    assert s[|p| + 1..] == n;
    assert s[..|p|] == p;
  }

  /** `path.split('/')`: never empty, and no segment holds a '/'. */
  function Split(path: string): (r: seq<string>)
    ensures |r| >= 1
    ensures forall k :: 0 <= k < |r| ==> '/' !in r[k]
    decreases |path|
  {
    if '/' !in path then [path] else Split(Parent(path)) + [Name(path)]
  }

  /**
    `segments.join('/')`: a single segment is the path itself; with more, the
    last segment ends the path, right after a '/'.
  */
  function Join(segs: seq<string>): (r: string)
    ensures |segs| == 1 ==> r == segs[0]
    ensures |segs| >= 2 ==>
      var last := segs[|segs| - 1];
      |last| < |r| && r[|r| - |last| - 1] == '/' && r[|r| - |last|..] == last
  {
    if |segs| == 0 then ""
    else if |segs| == 1 then segs[0]
    else Join(segs[..|segs| - 1]) + "/" + segs[|segs| - 1]
  }

  /** A path of two '/'-free segments splits into those segments. */
  lemma SplitTwo(a: string, b: string)
    requires '/' !in a && '/' !in b
    ensures Split(a + "/" + b) == [a, b]
  {
    SplitChild(a, b);
  }

  /** A path of three '/'-free segments splits into those segments. */
  lemma SplitThree(a: string, b: string, c: string)
    requires '/' !in a && '/' !in b && '/' !in c
    ensures Split(a + "/" + b + "/" + c) == [a, b, c]
  {
    SplitTwo(a, b);
    SplitChild(a + "/" + b, c);
  }

  /** Two segments join with a '/' between them. */
  lemma JoinTwo(a: string, b: string)
    ensures Join([a, b]) == a + "/" + b
  {
    assert [a, b][..1] == [a];
  }

  /** Three segments join with a '/' between each two. */
  lemma JoinThree(a: string, b: string, c: string)
    ensures Join([a, b, c]) == a + "/" + b + "/" + c
  {
    assert [a, b, c][..2] == [a, b];
    assert [a, b][..1] == [a];
  }

  /** Joining the segments of a path gives back the path. */
  lemma {:induction false} JoinSplit(path: string)
    ensures Join(Split(path)) == path
    decreases |path|
  {
    if '/' in path {
      var init := Split(Parent(path));
      JoinSplit(Parent(path));
      assert (init + [Name(path)])[..|init|] == init;
    }
  }

  /** Appending a '/'-free segment to a path appends it to the path's segments. */
  lemma SplitChild(p: string, n: string)
    requires '/' !in n
    ensures Split(p + "/" + n) == Split(p) + [n]
  {
    var s := p + "/" + n;
    assert s[|p|] == '/';
    ChildPath(p, n);
  }

  lemma InitPlusLast(segs: seq<string>)
    requires |segs| > 0
    ensures segs == segs[..|segs| - 1] + [segs[|segs| - 1]]
  {
  }

  /** Splitting a join of '/'-free segments gives back the segments. */
  lemma {:induction false} SplitJoin(segs: seq<string>)
    requires |segs| >= 1
    requires forall k :: 0 <= k < |segs| ==> '/' !in segs[k]
    ensures Split(Join(segs)) == segs
  {
    if |segs| > 1 {
      var init, last := segs[..|segs| - 1], segs[|segs| - 1];
      assert forall k :: 0 <= k < |init| ==> '/' !in init[k];
      SplitJoin(init);
      SplitChild(Join(init), last);
      InitPlusLast(segs);
    }
  }

  /**
    The path of the note named `name` inside `folder`: `folder + '/' + name + '.md'`.
    For a '/'-free name its last '/' is the one right after the folder.
  */
  function NotePath(folder: string, name: string): (r: string)
    ensures |folder| + 3 < |r| && r[..|folder|] == folder && r[|r| - 3..] == ".md"
    ensures '/' !in name ==> LastIndexOf(r, '/') == |folder|
  {
    var r := folder + "/" + name + ".md";
    assert r == folder + ['/'] + (name + ".md");
    assert r[..|folder|] == folder && r[|r| - 3..] == ".md";
    assert '/' !in name ==> LastIndexOf(r, '/') == |folder| by {
      if '/' !in name {
        assert '/' !in name + ".md";
        LastIndexOfAfter(folder, '/', name + ".md");
      }
    }
    r
  }

  /**
    The naming convention that links a note to a folder: the note lies directly
    inside the folder and is called after it.
  */
  predicate IsFolderNoteOf(note: string, folder: string)
  {
    '/' in note && Parent(note) == folder && Name(note) == Name(folder) + ".md"
  }

  /** A note path lies directly inside its folder and is named `name + ".md"`. */
  lemma NotePathParts(folder: string, name: string)
    requires '/' !in name
    ensures '/' in NotePath(folder, name)
    ensures Parent(NotePath(folder, name)) == folder
    ensures Name(NotePath(folder, name)) == name + ".md"
  {
    var leaf := name + ".md";
    assert '/' !in leaf;
    assert NotePath(folder, name) == folder + "/" + leaf;
    assert NotePath(folder, name)[|folder|] == '/';
    ChildPath(folder, leaf);
  }

  /** The note path built from a folder's own name is that folder's note. */
  lemma NotePathIsFolderNote(folder: string)
    ensures IsFolderNoteOf(NotePath(folder, Name(folder)), folder)
  {
    NotePathParts(folder, Name(folder));
  }
}
