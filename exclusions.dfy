/**
  The exclusion registry: finding the entry that governs a folder
  (`getExcludedFolderByPath`, src/main.ts:234-240) and rewriting the entries
  when a folder is renamed (the loop in `handleFolderRename`, src/main.ts:130-146).
*/
module Exclusions {
  import opened Wrappers
  import opened Strings
  import opened Paths
  import opened Settings

  /** The test inside `find`: the entry is the folder itself, or covers it as a subfolder. */
  predicate Matches(e: ExcludedFolder, path: string)
  {
    e.path == path || (e.subFolders && e.path == Parent(path))
  }

  /** `getExcludedFolderByPath`: the first entry, in list order, that matches `path`. */
  function Lookup(entries: seq<ExcludedFolder>, path: string): (r: Option<ExcludedFolder>)
    ensures r == None <==> forall i :: 0 <= i < |entries| ==> !Matches(entries[i], path)
    ensures r != None ==>
      exists i :: 0 <= i < |entries| && entries[i] == r.value && Matches(entries[i], path) &&
        forall j :: 0 <= j < i ==> !Matches(entries[j], path)
  {
    if |entries| == 0 then None
    else if Matches(entries[0], path) then Some(entries[0])
    else
      var r := Lookup(entries[1..], path);
      assert forall j :: 1 <= j < |entries| ==> entries[j] == entries[1..][j - 1];
      r
  }

  /** `excludedFolder && excludedFolder.disableSync` for the entry found for `path`. */
  predicate SyncDisabled(entries: seq<ExcludedFolder>, path: string)
  {
    var ex := Lookup(entries, path);
    ex.Some? && ex.value.disableSync
  }

  /** `excludedFolder && excludedFolder.disableAutoCreate` for the entry found for `path`. */
  predicate AutoCreateDisabled(entries: seq<ExcludedFolder>, path: string)
  {
    var ex := Lookup(entries, path);
    ex.Some? && ex.value.disableAutoCreate
  }

  /**
    What an entry governs: its own folder and, when `subFolders` is set, the
    folders directly inside it; never a sibling, a grandchild or a folder
    elsewhere that shares its name.
  */
  lemma MatchScope(e: ExcludedFolder, q: string)
    ensures Matches(e, q) <==>
      q == e.path || (e.subFolders && '/' in q && q == e.path + "/" + Name(q))
  {
    if e.subFolders && '/' in q && q == e.path + "/" + Name(q) {
      ChildPath(e.path, Name(q));
    }
  }

  /** A `subFolders` entry "Area" governs "Area/Sub", but not "Area2", "Other/Area" or "Area/Sub/X". */
  lemma AreaExample(e: ExcludedFolder)
    requires e.path == "Area" && e.subFolders
    ensures Matches(e, "Area/Sub")
    ensures !Matches(e, "Area2") && !Matches(e, "Other/Area") && !Matches(e, "Area/Sub/X")
  {
    AreaGovernsChild(e);
    AreaIgnoresSibling(e);
    AreaIgnoresNamesake(e);
    AreaIgnoresGrandchild(e);
  }

  lemma AreaGovernsChild(e: ExcludedFolder)
    requires e.path == "Area" && e.subFolders
    ensures Matches(e, "Area/Sub")
  {
    assert "Area/Sub" == "Area" + "/" + "Sub";
    ChildPath("Area", "Sub");
  }

  lemma AreaIgnoresSibling(e: ExcludedFolder)
    requires e.path == "Area"
    ensures !Matches(e, "Area2")
  {
    assert '/' !in "Area2";
  }

  lemma AreaIgnoresNamesake(e: ExcludedFolder)
    requires e.path == "Area"
    ensures !Matches(e, "Other/Area")
  {
    assert "Other/Area" == "Other" + "/" + "Area";
    ChildPath("Other", "Area");
  }

  lemma AreaIgnoresGrandchild(e: ExcludedFolder)
    requires e.path == "Area"
    ensures !Matches(e, "Area/Sub/X")
  {
    assert "Area/Sub/X" == "Area/Sub" + "/" + "X";
    ChildPath("Area/Sub", "X");
  }

  /**
    The rewrite of one entry selected because its path contains `oldPath`, when
    the folder at `oldPath` is now at `newPath` (lines 135-145). An exact entry
    takes the new path; any other has the first segment equal to the old leaf
    name replaced by the new leaf name. When no segment equals it, the source
    assigns `folders[-1]`, a property that `join` ignores, so the path is
    re-joined unchanged.
  */
  function RewriteSelected(e: ExcludedFolder, oldPath: string, newPath: string): (r: ExcludedFolder)
    ensures r == e.(path := r.path)
    ensures e.path == oldPath ==> r.path == newPath
  {
    if e.path == oldPath then e.(path := newPath)
    else
      var folders := Split(e.path);
      var i := FirstIndex(folders, Name(oldPath));
      var folders' := if i >= 0 then folders[i := Name(newPath)] else folders;
      e.(path := Join(folders'))
  }

  /**
    An entry other than the renamed folder keeps its number of segments and
    changes in one segment at most: the first one equal to the old leaf name,
    which becomes the new leaf name. Segments that merely contain the old name
    are untouched.
  */
  lemma RewriteSegments(e: ExcludedFolder, oldPath: string, newPath: string)
    requires e.path != oldPath
    ensures var before, after := Split(e.path), Split(RewriteSelected(e, oldPath, newPath).path);
      |after| == |before| &&
      forall k :: 0 <= k < |before| ==>
        after[k] == if before[k] == Name(oldPath) && Name(oldPath) !in before[..k] then Name(newPath) else before[k]
  {
    var before := Split(e.path);
    var i := FirstIndex(before, Name(oldPath));
    var folders' := if i >= 0 then before[i := Name(newPath)] else before;
    assert RewriteSelected(e, oldPath, newPath).path == Join(folders');
    assert forall k :: 0 <= k < |folders'| ==> '/' !in folders'[k];
    SplitJoin(folders');
    ReplaceFirstOccurrence(before, Name(oldPath), Name(newPath));
  }

  /** When no segment of the entry equals the old leaf name, the entry is unchanged. */
  lemma RewriteWithoutLeafIsIdentity(e: ExcludedFolder, oldPath: string, newPath: string)
    requires e.path != oldPath
    requires Name(oldPath) !in Split(e.path)
    ensures RewriteSelected(e, oldPath, newPath) == e
  {
    JoinSplit(e.path);
  }

  /**
    The whole registry after a folder rename: every entry whose path contains
    `oldPath` is rewritten, every other entry is left as it was.
  */
  function RewriteAll(entries: seq<ExcludedFolder>, oldPath: string, newPath: string): (r: seq<ExcludedFolder>)
    ensures |r| == |entries|
    ensures forall k :: 0 <= k < |entries| ==>
      r[k] == if Includes(entries[k].path, oldPath) then RewriteSelected(entries[k], oldPath, newPath) else entries[k]
  {
    if |entries| == 0 then []
    else
      var e := entries[0];
      var head := if Includes(e.path, oldPath) then RewriteSelected(e, oldPath, newPath) else e;
      var tail := RewriteAll(entries[1..], oldPath, newPath);
      assert forall k :: 1 <= k < |entries| ==> entries[k] == entries[1..][k - 1];
      [head] + tail
  }

  /**
    Renaming folder "Project" to "Projects" leaves an entry for "MyProjectNotes"
    as it was: its path contains "Project", so it is selected, but none of its
    segments is "Project".
  */
  lemma UnrelatedNameFragmentExample(e: ExcludedFolder)
    requires e.path == "MyProjectNotes"
    ensures RewriteAll([e], "Project", "Projects") == [e]
  {
    assert '/' !in "Project";
    assert '/' !in "MyProjectNotes";
    assert Split(e.path) == ["MyProjectNotes"];
    RewriteWithoutLeafIsIdentity(e, "Project", "Projects");
  }

  /**
    The sync exclusion of a renamed folder is looked up under its old path
    after the rewrite (line 148), when its exact entry already carries the new
    path: an exact `disableSync` entry for the folder then no longer applies,
    and only an entry still matching the old path can stop the note move.
  */
  lemma ExactSyncExclusionFollowsRename(e: ExcludedFolder, oldPath: string, newPath: string)
    requires e.path == oldPath && !e.subFolders && e.disableSync
    requires newPath != oldPath
    ensures SyncDisabled([e], oldPath)
    ensures !SyncDisabled(RewriteAll([e], oldPath, newPath), oldPath)
  {
    IncludesSelf(oldPath);
    assert RewriteAll([e], oldPath, newPath)[0].path == newPath;
  }

  /**
    As written, the segment replaced is the first one equal to the old folder
    name, even when it names an ancestor: renaming `n/n` to `n/m` turns the
    entry `n/n/t` into `m/n/t` (for example "Notes/Notes/Sub" becomes
    "Archive/Notes/Sub"), so the entry leaves the renamed folder's subtree.
  */
  lemma AncestorSegmentRewritten(e: ExcludedFolder, n: string, m: string, t: string)
    requires '/' !in n && '/' !in m && '/' !in t
    requires e.path == n + "/" + n + "/" + t
    ensures RewriteAll([e], n + "/" + n, n + "/" + m) == [e.(path := m + "/" + n + "/" + t)]
  {
    var oldPath, newPath := n + "/" + n, n + "/" + m;
    assert e.path == oldPath + "/" + t;
    assert OccursAt(e.path, oldPath, 0);
    assert RewriteSelected(e, oldPath, newPath).path == m + "/" + n + "/" + t by {
      assert e.path != oldPath by { assert |e.path| > |oldPath|; }
      SplitThree(n, n, t);
      AncestorSegmentSelected(e, n, m, t);
      JoinThree(m, n, t);
    }
  }

  /** The entry with segments `n`, `n`, `t` rewritten for the rename of `n/n` to `n/m`. */
  lemma AncestorSegmentSelected(e: ExcludedFolder, n: string, m: string, t: string)
    requires '/' !in n && '/' !in m
    requires e.path != n + "/" + n && Split(e.path) == [n, n, t]
    ensures RewriteSelected(e, n + "/" + n, n + "/" + m).path == Join([m, n, t])
  {
    assert [n, n, t][0 := m] == [m, n, t];
    ChildPath(n, n);
    ChildPath(n, m);
    RewriteFirstSegment(e, n + "/" + n, n + "/" + m, [n, n, t]);
  }

  /**
    When the first segment of an entry is the old leaf name, the rewrite
    replaces that segment and joins the segments again.
  */
  lemma RewriteFirstSegment(e: ExcludedFolder, oldPath: string, newPath: string, segs: seq<string>)
    requires e.path != oldPath && Split(e.path) == segs
    requires |segs| > 0 && segs[0] == Name(oldPath)
    ensures RewriteSelected(e, oldPath, newPath).path == Join(segs[0 := Name(newPath)])
  {
    assert FirstIndex(segs, Name(oldPath)) == 0;
  }

  /**
    As written, renaming the top-level folder `p` to `q` also rewrites an entry
    `o/p` for a namesake inside another folder (renaming "Project" to
    "Projects" turns "Other/Project" into "Other/Projects").
  */
  lemma NamesakeRewritten(e: ExcludedFolder, o: string, p: string, q: string)
    requires '/' !in o && '/' !in p && '/' !in q && o != p
    requires e.path == o + "/" + p
    ensures RewriteAll([e], p, q) == [e.(path := o + "/" + q)]
  {
    assert e.path[|o| + 1..] == p;
    assert OccursAt(e.path, p, |o| + 1);
    NamesakeSelected(e, o, p, q);
  }

  /** With the intended rewrite, the entry `o/p` is left alone when `p` is renamed. */
  lemma IntendedRewriteKeepsNamesake(e: ExcludedFolder, o: string, p: string, q: string)
    requires '/' !in o && '/' !in p && o != p
    requires e.path == o + "/" + p
    ensures IntendedRewrite(e, p, q) == e
  {
    assert e.path != p by { assert |e.path| > |p|; }
    NamesakeNotBelow(o, p);
  }

  /** The entry `o/p` rewritten for the rename of `p` to `q`. */
  lemma NamesakeSelected(e: ExcludedFolder, o: string, p: string, q: string)
    requires '/' !in o && '/' !in p && '/' !in q && o != p
    requires e.path == o + "/" + p
    ensures RewriteSelected(e, p, q).path == o + "/" + q
  {
    assert e.path != p by { assert |e.path| > |p|; }
    SplitTwo(o, p);
    NamesakeSegments(e, o, p, q);
    JoinTwo(o, q);
  }

  /** The entry with segments `o`, `p` rewritten for the rename of `p` to `q`. */
  lemma NamesakeSegments(e: ExcludedFolder, o: string, p: string, q: string)
    requires '/' !in p && '/' !in q && o != p
    requires e.path != p && Split(e.path) == [o, p]
    ensures RewriteSelected(e, p, q).path == Join([o, q])
  {
    assert FirstIndex([o, p], p) == 1;
    assert [o, p][1 := q] == [o, q];
  }

  /** `o/p` does not lie inside the folder `p` when `o` and `p` differ. */
  lemma NamesakeNotBelow(o: string, p: string)
    requires '/' !in o && '/' !in p && o != p
    ensures !Below(o + "/" + p, p)
  {
    var s := o + "/" + p;
    if |p| == |o| {
      assert s[..|p| + 1][..|p|] == o;
      assert (p + "/")[..|p|] == p;
    } else if |p| < |s| {
      if |p| < |o| {
        assert s[|p|] == o[|p|];
      } else {
        assert s[|p|] == p[|p| - |o| - 1];
      }
      assert s[..|p| + 1][|p|] == s[|p|];
      assert (p + "/")[|p|] == '/';
    }
  }

  /** `path` lies strictly inside `folder`. */
  predicate Below(path: string, folder: string)
  {
    |folder| < |path| && path[..|folder| + 1] == folder + "/"
  }

  /**
    The rewrite of an entry as evidently intended: the renamed folder's own
    entry takes the new path, an entry inside it keeps its path relative to
    the folder, and every other entry is left alone.
  */
  function IntendedRewrite(e: ExcludedFolder, oldPath: string, newPath: string): (r: ExcludedFolder)
    ensures r == e.(path := r.path)
    ensures e.path == oldPath ==> r.path == newPath
    ensures Below(e.path, oldPath) ==>
      Below(r.path, newPath) && r.path[|newPath| + 1..] == e.path[|oldPath| + 1..]
    ensures e.path != oldPath && !Below(e.path, oldPath) ==> r == e
  {
    if e.path == oldPath then e.(path := newPath)
    else if Below(e.path, oldPath) then
      var p := newPath + e.path[|oldPath|..];
      assert p[..|newPath| + 1] == newPath + "/" by {
        assert e.path[|oldPath|] == (oldPath + "/")[|oldPath|];
      }
      assert p[|newPath| + 1..] == e.path[|oldPath| + 1..];
      e.(path := p)
    else e
  }

  /** With the intended rewrite, renaming `n/n` to `n/m` turns `n/n/t` into `n/m/t`. */
  lemma IntendedRewriteOfAncestorCase(e: ExcludedFolder, n: string, m: string, t: string)
    requires e.path == n + "/" + n + "/" + t
    ensures IntendedRewrite(e, n + "/" + n, n + "/" + m).path == n + "/" + m + "/" + t
  {
    var oldPath, newPath := n + "/" + n, n + "/" + m;
    assert e.path == oldPath + "/" + t;
    assert e.path[..|oldPath| + 1] == oldPath + "/";
    assert e.path[|oldPath|..] == "/" + t;
  }
}
