/**
  The JavaScript string and array primitives the plugin's path logic is built
  from: `lastIndexOf` on a character, `indexOf`/`includes` on a substring,
  `replace` with a string pattern (first occurrence only) and `indexOf` on an
  array of strings. Positions follow JavaScript: -1 means "not found".
*/
module Strings {

  /** `sub` occurs in `s` starting at position `i`. */
  predicate OccursAt(s: string, sub: string, i: int)
  {
    0 <= i && i + |sub| <= |s| && s[i..i + |sub|] == sub
  }

  /** `s.lastIndexOf(c)`: the position of the last `c` in `s`, or -1. */
  function LastIndexOf(s: string, c: char): (r: int)
    ensures -1 <= r < |s|
    ensures r == -1 <==> c !in s
    ensures r >= 0 ==> s[r] == c && c !in s[r + 1..]
  {
    if |s| == 0 then -1
    else if s[|s| - 1] == c then |s| - 1
    else
      var r := LastIndexOf(s[..|s| - 1], c);
      assert s == s[..|s| - 1] + [s[|s| - 1]];
      r
  }

  /** The last `c` of `p + [c] + t` is the one after `p` when `t` has none. */
  lemma {:induction false} LastIndexOfAfter(p: string, c: char, t: string)
    requires c !in t
    ensures LastIndexOf(p + [c] + t, c) == |p|
  {
    var s := p + [c] + t;
    if t != [] {
      assert s[..|s| - 1] == p + [c] + t[..|t| - 1];
      assert s[|s| - 1] == t[|t| - 1];
      LastIndexOfAfter(p, c, t[..|t| - 1]);
    }
  }

  /** `s.indexOf(sub, k)` for `k <= |s|`: the first occurrence at or after `k`, or -1. */
  function IndexOfFrom(s: string, sub: string, k: nat): (r: int)
    requires k <= |s|
    decreases |s| - k
    ensures r == -1 || (k <= r && OccursAt(s, sub, r))
    ensures r >= 0 ==> forall j :: k <= j < r ==> !OccursAt(s, sub, j)
    ensures r == -1 ==> forall j :: k <= j ==> !OccursAt(s, sub, j)
  {
    if k + |sub| > |s| then -1
    else if s[k..k + |sub|] == sub then k
    else IndexOfFrom(s, sub, k + 1)
  }

  /** `s.indexOf(sub)`: the first occurrence of `sub` in `s`, or -1. */
  function IndexOf(s: string, sub: string): (r: int)
    ensures r == -1 || OccursAt(s, sub, r)
    ensures r >= 0 ==> forall j :: 0 <= j < r ==> !OccursAt(s, sub, j)
    ensures r == -1 <==> forall j :: !OccursAt(s, sub, j)
  {
    IndexOfFrom(s, sub, 0)
  }

  /** `s.includes(sub)`: `sub` occurs somewhere in `s`. */
  predicate Includes(s: string, sub: string)
    ensures Includes(s, sub) <==> exists i :: OccursAt(s, sub, i)
  {
    IndexOf(s, sub) >= 0
  }

  /** Every string includes itself. */
  lemma IncludesSelf(s: string)
    ensures Includes(s, s)
  {
    assert OccursAt(s, s, 0);
  }

  /** Searching for a one-character string finds something exactly when the character occurs. */
  lemma IncludesChar(s: string, c: char)
    ensures Includes(s, [c]) <==> c in s
  {
    if c in s {
      var i :| 0 <= i < |s| && s[i] == c;
      assert s[i..i + 1] == [c];
      assert OccursAt(s, [c], i);
    }
    if Includes(s, [c]) {
      var r := IndexOf(s, [c]);
      assert s[r..r + 1][0] == s[r];
    }
  }

  /** `s.replace(pat, rep)` with a string pattern: only the first occurrence is replaced. */
  function ReplaceFirst(s: string, pat: string, rep: string): (r: string)
    ensures !Includes(s, pat) ==> r == s
    ensures Includes(s, pat) ==>
      exists i :: OccursAt(s, pat, i) && r == s[..i] + rep + s[i + |pat|..] &&
        forall j :: 0 <= j < i ==> !OccursAt(s, pat, j)
  {
    var i := IndexOf(s, pat);
    if i < 0 then s else s[..i] + rep + s[i + |pat|..]
  }

  /**
    In `x + ".md" + t` with no ".md" in `x`, the first ".md" is the one after
    `x`: no earlier occurrence can straddle the end of `x`, because ".md"
    starts with the only '.' it contains.
  */
  lemma ReplaceFirstMd(x: string, t: string)
    requires !Includes(x, ".md")
    ensures ReplaceFirst(x + ".md" + t, ".md", "") == x + t
  {
    var s := x + ".md" + t;
    assert s[|x|..|x| + 3] == ".md";
    assert OccursAt(s, ".md", |x|);
    forall j | 0 <= j < |x|
      ensures !OccursAt(s, ".md", j)
    {
      NoMdBefore(x, t, j);
    }
    var i := IndexOf(s, ".md");
    assert i == |x|;
    assert s[..i] == x;
    assert s[i + 3..] == t;
  }

  /** No ".md" in `x + ".md" + t` starts inside `x` when `x` holds no ".md". */
  lemma NoMdBefore(x: string, t: string, j: int)
    requires !Includes(x, ".md") && 0 <= j < |x|
    ensures !OccursAt(x + ".md" + t, ".md", j)
  {
    var s := x + ".md" + t;
    if j + 3 <= |x| {
      assert s[j..j + 3] == x[j..j + 3];
      assert !OccursAt(x, ".md", j);
    } else if j == |x| - 1 {
      assert s[j + 1] == '.';
      assert s[j..j + 3][1] == s[j + 1];
    } else {
      assert j == |x| - 2 && s[j + 2] == '.';
      assert s[j..j + 3][2] == s[j + 2];
    }
  }

  /** Appending ".md" keeps distinct names distinct. */
  lemma MdNamesDiffer(a: string, b: string)
    requires a != b
    ensures a + ".md" != b + ".md"
  {
    assert (a + ".md")[..|a|] == a;
    assert (b + ".md")[..|b|] == b;
  }

  /** In `x + ".md" + y + ".md"` the ".md" removed is the inner one, after `x`. */
  lemma ReplaceInnerMd(x: string, y: string)
    requires !Includes(x, ".md")
    ensures ReplaceFirst(x + ".md" + y + ".md", ".md", "") == x + y + ".md"
  {
    assert x + ".md" + y + ".md" == x + ".md" + (y + ".md");
    assert x + (y + ".md") == x + y + ".md";
    ReplaceFirstMd(x, y + ".md");
  }

  /** Removing the first ".md" from `b + ".md"` gives back `b` when `b` holds no ".md". */
  lemma StripMdSuffix(b: string)
    requires !Includes(b, ".md")
    ensures ReplaceFirst(b + ".md", ".md", "") == b
  {
    ReplaceFirstMd(b, "");
    assert b + ".md" + "" == b + ".md";
    assert b + "" == b;
  }

  /** `segs.indexOf(x)` on an array of strings: the first position holding `x`, or -1. */
  function FirstIndex(segs: seq<string>, x: string): (r: int)
    ensures -1 <= r < |segs|
    ensures r == -1 <==> x !in segs
    ensures r >= 0 ==> segs[r] == x && x !in segs[..r]
  {
    if |segs| == 0 then -1
    else if segs[0] == x then 0
    else
      var k := FirstIndex(segs[1..], x);
      if k < 0 then -1
      else
        assert segs[..k + 1] == [segs[0]] + segs[1..][..k];
        k + 1
  }

  /** A position holding `x` with no `x` before it is the one `FirstIndex` finds. */
  lemma FirstIndexAt(segs: seq<string>, x: string, k: int)
    requires 0 <= k < |segs| && segs[k] == x && x !in segs[..k]
    ensures FirstIndex(segs, x) == k
  {
    var i := FirstIndex(segs, x);
    assert forall j :: 0 <= j < k ==> segs[..k][j] == segs[j];
    assert forall j :: 0 <= j < i ==> segs[..i][j] == segs[j];
  }

  /**
    `segs[segs.indexOf(x)] = y` when `x` occurs: exactly the first position
    holding `x` takes `y`.
  */
  lemma ReplaceFirstOccurrence(segs: seq<string>, x: string, y: string)
    ensures var i := FirstIndex(segs, x);
      var r := if i >= 0 then segs[i := y] else segs;
      |r| == |segs| &&
      forall k :: 0 <= k < |segs| ==> r[k] == if segs[k] == x && x !in segs[..k] then y else segs[k]
  {
    forall k | 0 <= k < |segs| && segs[k] == x && x !in segs[..k]
      ensures FirstIndex(segs, x) == k
    {
      FirstIndexAt(segs, x, k);
    }
  }
}
