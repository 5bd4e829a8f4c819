/** Paths already in normal form. A path whose segments after the first
    are all plain names (non-empty, neither `.` nor `..`) passes the three
    normalisation passes of `parsePath` unchanged, so for such a
    destination the resolver answers the destination itself, or `false`
    when that is the source path. */
module PathClean {
  import opened Optional
  import opened Text
  import opened Paths

  /** Slash-free segments, none of them `..`, and every segment after the
      first a non-empty name other than `.`. */
  predicate Clean(parts: seq<string>) {
    |parts| >= 1 &&
    (forall i :: 0 <= i < |parts| ==> '/' !in parts[i] && parts[i] != "..") &&
    (forall i :: 1 <= i < |parts| ==> parts[i] != "" && parts[i] != ".")
  }

  /** Slash-free segments, every one after the first non-empty. */
  predicate Named(parts: seq<string>) {
    |parts| >= 1 &&
    (forall i :: 0 <= i < |parts| ==> '/' !in parts[i]) &&
    (forall i :: 1 <= i < |parts| ==> parts[i] != "")
  }

  /** A join of at least two segments is the first, a slash, and the join
      of the rest, which starts with the second segment. */
  lemma JoinCons(parts: seq<string>)
    requires |parts| >= 2 && parts[1] != ""
    ensures Join(parts, '/') == parts[0] + "/" + Join(parts[1..], '/')
    ensures |Join(parts[1..], '/')| >= |parts[1]|
    ensures Join(parts[1..], '/')[..|parts[1]|] == parts[1]
  {
    var rest := parts[1..];
    assert rest[0] == parts[1];
    if |rest| >= 2 {
      assert Join(rest, '/') == rest[0] + ("/" + Join(rest[1..], '/'));
    }
  }

  /** Joining named segments makes no `//`. */
  lemma {:induction false} JoinNoDoubleSlash(parts: seq<string>)
    requires Named(parts)
    ensures NoDoubleSlash(Join(parts, '/'))
    decreases |parts|
  {
    var s := Join(parts, '/');
    if |parts| == 1 {
      forall i | 0 <= i < |s| ensures !DoubleSlashAt(s, i) {
        assert s[i] in parts[0];
      }
    } else {
      var p, rest := parts[0], parts[1..];
      var t := Join(rest, '/');
      JoinCons(parts);
      JoinNoDoubleSlash(rest);
      assert t[0] == parts[1][0];
      assert parts[1][0] in parts[1];
      forall i | 0 <= i < |s| ensures !DoubleSlashAt(s, i) {
        if i < |p| {
          assert s[i] == p[i] && p[i] in p;
        } else if i > |p| && i + 1 < |s| {
          assert s[i] == t[i - |p| - 1] && s[i + 1] == t[i - |p|];
          assert !DoubleSlashAt(t, i - |p| - 1);
        }
      }
    }
  }

  /** Joining named segments none of which (after the first) is `.` makes
      no `/./`. */
  lemma {:induction false} JoinNoDotSegment(parts: seq<string>)
    requires Named(parts)
    requires forall i :: 1 <= i < |parts| ==> parts[i] != "."
    ensures !HasDotSegment(Join(parts, '/'))
    decreases |parts|
  {
    var s := Join(parts, '/');
    if |parts| == 1 {
      forall i | 0 <= i < |s| ensures !DotSegmentAt(s, i) {
        assert s[i] in parts[0];
      }
    } else {
      var p, rest := parts[0], parts[1..];
      var t := Join(rest, '/');
      var q := parts[1];
      JoinCons(parts);
      JoinNoDotSegment(rest);
      assert t[0] == q[0];
      forall i | 0 <= i < |s| ensures !DotSegmentAt(s, i) {
        if i < |p| {
          assert s[i] == p[i] && p[i] in p;
        } else if i == |p| && i + 3 <= |s| && s[i + 1] == '.' {
          if |q| > 1 {
            assert s[i + 2] == t[1] == q[1];
            assert q[1] in q;
          }
        } else if i > |p| && i + 3 <= |s| {
          assert s[i] == t[i - |p| - 1] && s[i + 1] == t[i - |p|] && s[i + 2] == t[i - |p| + 1];
          assert !DotSegmentAt(t, i - |p| - 1);
        }
      }
    }
  }

  /** Segments without `..` come out of the walk unchanged. */
  lemma {:induction false} CancelFromNoParents(segs: seq<string>, k: int)
    requires 0 <= k <= |segs|
    requires forall i :: 0 <= i < |segs| ==> segs[i] != ".."
    ensures CancelFrom(segs, k) == segs
    decreases |segs| - k
  {
    if k < |segs| {
      CancelFromNoParents(segs, k + 1);
    }
  }

  /** Normalisation leaves the join of clean segments as it is. */
  lemma NormaliseClean(parts: seq<string>)
    requires Clean(parts)
    ensures Normalise(Join(parts, '/')) == Join(parts, '/')
  {
    var s := Join(parts, '/');
    JoinNoDotSegment(parts);
    DropDotSegmentsChanges(s);
    SplitJoin(parts, '/');
    CancelFromNoParents(parts, 0);
    JoinNoDoubleSlash(parts);
    CollapseSlashesChanges(s);
  }

  /** For a destination already in normal form, `parsePath` answers it
      unchanged, or `false` exactly when it is the source path. */
  lemma ParsePathClean(path: string, out: string, canBeSame: bool, parts: seq<string>)
    requires Clean(parts) && Destination(path, out, canBeSame) == Join(parts, '/')
    ensures ParsePath(path, out, canBeSame) ==
            (if Join(parts, '/') == path then None else Some(Join(parts, '/')))
  {
    NormaliseClean(parts);
  }

  /** One step of the slash pass: a slash followed by a slash is dropped. */
  lemma CollapseDrop(s: string)
    requires |s| >= 2 && s[0] == '/' && s[1] == '/'
    ensures CollapseSlashes(s) == CollapseSlashes(s[1..])
  {
  }

  /** One step of the slash pass: any other first character is kept. */
  lemma CollapseKeep(s: string)
    requires |s| >= 1 && !(|s| >= 2 && s[0] == '/' && s[1] == '/')
    ensures CollapseSlashes(s) == [s[0]] + CollapseSlashes(s[1..])
  {
  }
}
