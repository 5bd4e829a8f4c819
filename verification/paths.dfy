/** The destination-path resolver `parsePath` of the Sass compiler
    extension (extension.js:162-199).

    A destination is first built from the source path and the `out`
    directive, then normalised in three passes: one left-to-right,
    non-overlapping rewrite of `/./` to `/`; a walk over the `/`-separated
    segments in which every `..` blanks itself and the nearest preceding
    non-empty segment; and a rewrite of every run of slashes to one slash.
    The resolver answers `None` (the source's `false`) when the normalised
    destination is the source path itself. */
module Paths {
  import opened Optional
  import opened Text

  // ---------------------------------------------------------------------
  // Building the destination
  // ---------------------------------------------------------------------

  predicate EndsWith(s: string, suffix: string) {
    |suffix| <= |s| && s[|s| - |suffix|..] == suffix
  }

  /** `path.split('/')`, drop the last piece, `join('/')`. */
  function Dirname(path: string): string {
    var parts := Split(path, '/');
    Join(parts[..|parts| - 1], '/')
  }

  /** The last `/`-separated piece of a path. */
  function Basename(path: string): string {
    var parts := Split(path, '/');
    parts[|parts| - 1]
  }

  /** A path without a slash has an empty directory part; otherwise the
      path is its directory part, one slash and a slash-free last segment. */
  lemma DirnameBasename(path: string)
    ensures '/' !in Basename(path)
    ensures '/' !in path ==> Dirname(path) == "" && Basename(path) == path
    ensures '/' in path ==> path == Dirname(path) + "/" + Basename(path)
  {
    var parts := Split(path, '/');
    SplitPiecesLackSeparator(path, '/');
    if '/' !in path {
      SplitNoSeparator(path, '/');
    } else {
      SplitAtLeastTwo(path, '/');
      var n := |parts|;
      assert parts == parts[..n - 1] + [parts[n - 1]];
      JoinSnoc(parts[..n - 1], parts[n - 1], '/');
      JoinSplit(path, '/');
    }
  }

  /** `path.replace(/(scss|sass)$/, 'css')`: a trailing `scss` or `sass`
      (with or without a dot before it) becomes `css`. */
  function SwapExtension(path: string): string {
    if EndsWith(path, "scss") || EndsWith(path, "sass") then path[..|path| - 4] + "css"
    else path
  }

  /** The unnormalised destination, by the three rules of
      extension.js:165-174 taken in order. */
  function Destination(path: string, out: string, canBeSame: bool): (d: string)
    ensures out == "." && canBeSame ==> d == SwapExtension(path)
    ensures !(out == "." && canBeSame) && |out| > 0 && out[0] == '/' ==> d == out
    ensures !(out == "." && canBeSame) && !(|out| > 0 && out[0] == '/') ==>
              ('/' !in path ==> d == "/" + out) &&
              ('/' in path ==> path == Dirname(path) + "/" + Basename(path) && d == Dirname(path) + "/" + out)
  {
    DirnameBasename(path);
    if out == "." && canBeSame then SwapExtension(path)
    else if |out| > 0 && out[0] == '/' then out
    else Dirname(path) + "/" + out
  }

  // ---------------------------------------------------------------------
  // Pass 1: `replace(/\/\.\//gi, '/')`
  // ---------------------------------------------------------------------

  predicate DotSegmentAt(s: string, i: int) {
    0 <= i && i + 3 <= |s| && s[i] == '/' && s[i + 1] == '.' && s[i + 2] == '/'
  }

  predicate HasDotSegment(s: string) {
    exists i :: 0 <= i < |s| && DotSegmentAt(s, i)
  }

  /** One left-to-right pass replacing each `/./` by `/`; after a match the
      scan resumes behind it, so `/././` becomes `/./`. */
  function DropDotSegments(s: string): (r: string)
    ensures |r| <= |s|
    decreases |s|
  {
    if |s| == 0 then ""
    else if DotSegmentAt(s, 0) then "/" + DropDotSegments(s[3..])
    else [s[0]] + DropDotSegments(s[1..])
  }

  /** The pass changes a string exactly when it holds a `/./`. */
  lemma {:induction false} DropDotSegmentsChanges(s: string)
    ensures DropDotSegments(s) == s <==> !HasDotSegment(s)
    decreases |s|
  {
    if |s| == 0 {
    } else if DotSegmentAt(s, 0) {
      assert |DropDotSegments(s)| < |s|;
    } else {
      DropDotSegmentsChanges(s[1..]);
      var r := DropDotSegments(s);
      assert HasDotSegment(s) <==> HasDotSegment(s[1..]) by {
        if HasDotSegment(s) {
          var i :| 0 <= i < |s| && DotSegmentAt(s, i);
          assert i > 0;
          assert s[1..][i - 1] == s[i] && s[1..][i] == s[i + 1] && s[1..][i + 1] == s[i + 2];
          assert DotSegmentAt(s[1..], i - 1);
        }
        if HasDotSegment(s[1..]) {
          var i :| 0 <= i < |s[1..]| && DotSegmentAt(s[1..], i);
          assert s[1..][i] == s[i + 1] && s[1..][i + 1] == s[i + 2] && s[1..][i + 2] == s[i + 3];
          assert DotSegmentAt(s, i + 1);
        }
      }
      assert s == [s[0]] + s[1..];
      if r == s {
        assert r[1..] == DropDotSegments(s[1..]);
      }
    }
  }

  // ---------------------------------------------------------------------
  // Pass 2: the `..` walk
  // ---------------------------------------------------------------------

  /** Index of the nearest non-empty segment strictly before `k`, or -1 when
      every earlier segment is empty (the source then writes to index -1,
      which is not an array element, so nothing is blanked). */
  function NearestNonEmptyBefore(segs: seq<string>, k: int): (j: int)
    requires 0 <= k <= |segs|
    ensures -1 <= j < k
    ensures j >= 0 ==> segs[j] != ""
    ensures forall i :: j < i < k ==> segs[i] == ""
    decreases k
  {
    if k == 0 then -1
    else if segs[k - 1] != "" then k - 1
    else NearestNonEmptyBefore(segs, k - 1)
  }

  /** The visit of segment `k`: a `..` blanks itself and the nearest
      non-empty segment before it; any other segment is left alone. */
  function CancelAt(segs: seq<string>, k: int): (r: seq<string>)
    requires 0 <= k < |segs|
    ensures |r| == |segs|
    ensures segs[k] != ".." ==> r == segs
    ensures segs[k] == ".." ==>
              forall i :: 0 <= i < |segs| ==>
                r[i] == (if i == k || i == NearestNonEmptyBefore(segs, k) then "" else segs[i])
  {
    if segs[k] == ".." then
      var j := NearestNonEmptyBefore(segs, k);
      var blanked := segs[k := ""];
      if j >= 0 then blanked[j := ""] else blanked
    else segs
  }

  /** Visit segments `k`, `k + 1`, ... in order, as `destination.every`
      does. Each segment is either kept or blanked. */
  function CancelFrom(segs: seq<string>, k: int): (r: seq<string>)
    requires 0 <= k <= |segs|
    ensures |r| == |segs|
    ensures forall i :: 0 <= i < |r| ==> r[i] == "" || r[i] == segs[i]
    decreases |segs| - k
  {
    if k == |segs| then segs
    else CancelFrom(CancelAt(segs, k), k + 1)
  }

  function CancelParents(segs: seq<string>): seq<string> {
    CancelFrom(segs, 0)
  }

  // ---------------------------------------------------------------------
  // Pass 3: `replace(/([\/]+)/gi, '/')`
  // ---------------------------------------------------------------------

  predicate DoubleSlashAt(s: string, i: int) {
    0 <= i && i + 1 < |s| && s[i] == '/' && s[i + 1] == '/'
  }

  predicate NoDoubleSlash(s: string) {
    forall i :: 0 <= i < |s| ==> !DoubleSlashAt(s, i)
  }

  /** Every run of slashes becomes a single slash. */
  function CollapseSlashes(s: string): (r: string)
    ensures |r| <= |s|
    ensures |s| > 0 ==> |r| > 0 && r[0] == s[0]
    ensures NoDoubleSlash(r)
    decreases |s|
  {
    if |s| == 0 then ""
    else if |s| >= 2 && s[0] == '/' && s[1] == '/' then
      CollapseSlashes(s[1..])
    else
      var rest := CollapseSlashes(s[1..]);
      var r := [s[0]] + rest;
      assert NoDoubleSlash(r) by {
        forall i | 0 <= i < |r|
          ensures !DoubleSlashAt(r, i)
        {
          if i > 0 && i + 1 < |r| {
            assert r[i] == rest[i - 1] && r[i + 1] == rest[i];
            assert !DoubleSlashAt(rest, i - 1);
          }
        }
      }
      r
  }

  /** Collapsing changes a string exactly when it holds a `//`; in
      particular it is idempotent. */
  lemma {:induction false} CollapseSlashesChanges(s: string)
    ensures CollapseSlashes(s) == s <==> NoDoubleSlash(s)
    decreases |s|
  {
    if |s| == 0 {
    } else if |s| >= 2 && s[0] == '/' && s[1] == '/' {
      assert DoubleSlashAt(s, 0);
      assert |CollapseSlashes(s)| < |s|;
    } else {
      CollapseSlashesChanges(s[1..]);
      var r := CollapseSlashes(s);
      assert NoDoubleSlash(s) <==> NoDoubleSlash(s[1..]) by {
        if NoDoubleSlash(s[1..]) {
          forall i | 0 <= i < |s|
            ensures !DoubleSlashAt(s, i)
          {
            if i > 0 && i + 1 < |s| {
              assert s[1..][i - 1] == s[i] && s[1..][i] == s[i + 1];
              assert !DoubleSlashAt(s[1..], i - 1);
            }
          }
        }
        if NoDoubleSlash(s) {
          forall i | 0 <= i < |s[1..]|
            ensures !DoubleSlashAt(s[1..], i)
          {
            assert s[1..][i] == s[i + 1];
            if i + 1 < |s[1..]| {
              assert s[1..][i + 1] == s[i + 2];
            }
            assert !DoubleSlashAt(s, i + 1);
          }
        }
      }
      assert s == [s[0]] + s[1..];
      if r == s {
        assert r[1..] == CollapseSlashes(s[1..]);
      }
    }
  }

  // ---------------------------------------------------------------------
  // The resolver
  // ---------------------------------------------------------------------

  /** The three normalisation passes in the source's order. */
  function Normalise(d: string): string {
    CollapseSlashes(Join(CancelParents(Split(DropDotSegments(d), '/')), '/'))
  }

  /** `parsePath(path, out, canBeSame)`; `None` stands for `false`. The
      answer is `false` exactly when the normalised destination is the
      source path, and that destination otherwise. */
  function ParsePath(path: string, out: string, canBeSame: bool): (r: Option<string>)
    ensures r.None? <==> Normalise(Destination(path, out, canBeSame)) == path
    ensures r.Some? ==> r.value == Normalise(Destination(path, out, canBeSame))
    ensures r.None? ==> NoDoubleSlash(path)
    ensures r.Some? ==> r.value != path && NoDoubleSlash(r.value)
  {
    var d := Normalise(Destination(path, out, canBeSame));
    if d == path then None else Some(d)
  }
}
