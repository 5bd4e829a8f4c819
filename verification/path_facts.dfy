/** What the normalisation of `parsePath` achieves, stated against an
    independent reference: the usual directory stack, where a name is
    pushed, a `..` pops (and is ignored on an empty stack) and an empty
    segment does nothing. */
module PathFacts {
  import opened Text
  import opened Paths

  /** The non-empty segments, in order. */
  function NonEmpty(segs: seq<string>): seq<string>
    decreases |segs|
  {
    if |segs| == 0 then []
    else (if segs[0] == "" then [] else [segs[0]]) + NonEmpty(segs[1..])
  }

  /** One segment applied to a directory stack: a name is pushed, `..`
      pops (and is ignored on an empty stack) and an empty segment does
      nothing. */
  function StackStep(stack: seq<string>, s: string): (r: seq<string>)
    ensures (forall x :: x in stack ==> x != "" && x != "..") ==> forall x :: x in r ==> x != "" && x != ".."
  {
    if s == ".." then
      (if |stack| == 0 then []
       else
         var popped := stack[..|stack| - 1];
         assert forall x :: x in popped ==> x in stack;
         popped)
    else if s == "" then stack
    else stack + [s]
  }

  /** Reference resolution of a segment list by a directory stack. */
  function Resolve(segs: seq<string>): (stack: seq<string>)
    ensures forall x :: x in stack ==> x != "" && x != ".."
    decreases |segs|
  {
    if |segs| == 0 then []
    else StackStep(Resolve(segs[..|segs| - 1]), segs[|segs| - 1])
  }

  lemma {:induction false} NonEmptyConcat(a: seq<string>, b: seq<string>)
    ensures NonEmpty(a + b) == NonEmpty(a) + NonEmpty(b)
    decreases |a|
  {
    if |a| > 0 {
      NonEmptyConcat(a[1..], b);
      assert (a + b)[1..] == a[1..] + b;
      assert (a + b)[0] == a[0];
    } else {
      assert a + b == b;
    }
  }

  lemma {:induction false} NonEmptyOfBlanks(a: seq<string>)
    requires forall i :: 0 <= i < |a| ==> a[i] == ""
    ensures NonEmpty(a) == []
    decreases |a|
  {
    if |a| > 0 {
      NonEmptyOfBlanks(a[1..]);
    }
  }

  lemma {:induction false} NonEmptyMember(a: seq<string>, x: string)
    requires x in a && x != ""
    ensures x in NonEmpty(a)
    decreases |a|
  {
    if a[0] != x {
      assert x in a[1..] by {
        var i :| 0 <= i < |a| && a[i] == x;
        assert a[1..][i - 1] == x;
      }
      NonEmptyMember(a[1..], x);
    }
  }

  /** Blanking the last non-empty segment of a prefix drops the last
      element of its non-empty segments. */
  lemma BlankLastNonEmpty(xs: seq<string>, j: int)
    requires 0 <= j < |xs| && xs[j] != ""
    requires forall i :: j < i < |xs| ==> xs[i] == ""
    ensures NonEmpty(xs) == NonEmpty(xs[j := ""]) + [xs[j]]
  {
    var ys := xs[j := ""];
    assert xs == xs[..j] + [xs[j]] + xs[j + 1..];
    assert ys == xs[..j] + [""] + xs[j + 1..];
    NonEmptyOfBlanks(xs[j + 1..]);
    NonEmptyConcat(xs[..j] + [xs[j]], xs[j + 1..]);
    NonEmptyConcat(xs[..j], [xs[j]]);
    NonEmptyConcat(xs[..j] + [""], xs[j + 1..]);
    NonEmptyConcat(xs[..j], [""]);
  }

  /** Visiting segment `k` leaves the later segments alone. */
  lemma CancelKeepsRest(segs: seq<string>, b: seq<string>, k: int)
    requires |b| == |segs| && 0 <= k < |b|
    requires b[k..] == segs[k..]
    ensures CancelAt(b, k)[k + 1..] == segs[k + 1..]
  {
    var b' := CancelAt(b, k);
    forall i | k + 1 <= i < |b|
      ensures b'[i] == segs[i]
    {
      assert b[k..][i - k] == segs[k..][i - k];
    }
  }

  /** Visiting a segment other than `..` appends it to the visited
      prefix. */
  lemma CancelName(b: seq<string>, k: int)
    requires 0 <= k < |b| && b[k] != ".."
    ensures NonEmpty(CancelAt(b, k)[..k + 1]) == StackStep(NonEmpty(b[..k]), b[k])
  {
    assert CancelAt(b, k)[..k + 1] == b[..k] + [b[k]];
    NonEmptyConcat(b[..k], [b[k]]);
  }

  /** Visiting a `..` pops the last non-empty segment of the visited
      prefix, if there is one. */
  lemma CancelParent(b: seq<string>, k: int)
    requires 0 <= k < |b| && b[k] == ".."
    ensures NonEmpty(CancelAt(b, k)[..k + 1]) == StackStep(NonEmpty(b[..k]), b[k])
  {
    var b' := CancelAt(b, k);
    var xs := b[..k];
    var j := NearestNonEmptyBefore(b, k);
    NonEmptyConcat(b'[..k], [""]);
    assert b'[..k + 1] == b'[..k] + [""];
    if j >= 0 {
      assert b'[..k] == xs[j := ""];
      BlankLastNonEmpty(xs, j);
    } else {
      assert b'[..k] == xs;
      NonEmptyOfBlanks(xs);
    }
  }

  /** Visiting segment `k` keeps the correspondence between the visited
      prefix and the directory stack. */
  lemma CancelStep(segs: seq<string>, b: seq<string>, k: int)
    requires |b| == |segs| && 0 <= k < |b|
    requires b[k..] == segs[k..]
    requires NonEmpty(b[..k]) == Resolve(segs[..k])
    ensures CancelAt(b, k)[k + 1..] == segs[k + 1..]
    ensures NonEmpty(CancelAt(b, k)[..k + 1]) == Resolve(segs[..k + 1])
  {
    CancelKeepsRest(segs, b, k);
    assert b[k] == segs[k] by { assert b[k..][0] == segs[k..][0]; }
    if b[k] == ".." {
      CancelParent(b, k);
    } else {
      CancelName(b, k);
    }
    assert segs[..k + 1][..k] == segs[..k];
  }

  lemma {:induction false} CancelFromResolves(segs: seq<string>, b: seq<string>, k: int)
    requires |b| == |segs| && 0 <= k <= |b|
    requires b[k..] == segs[k..]
    requires NonEmpty(b[..k]) == Resolve(segs[..k])
    ensures NonEmpty(CancelFrom(b, k)) == Resolve(segs)
    decreases |b| - k
  {
    if k == |b| {
      assert b[..k] == b;
      assert segs[..k] == segs;
    } else {
      CancelStep(segs, b, k);
      CancelFromResolves(segs, CancelAt(b, k), k + 1);
    }
  }

  /** The `..` walk keeps exactly the segments the directory stack keeps. */
  lemma CancelParentsResolves(segs: seq<string>)
    ensures NonEmpty(CancelParents(segs)) == Resolve(segs)
  {
    assert segs[..0] == [];
    assert segs[0..] == segs;
    CancelFromResolves(segs, segs, 0);
  }

  /** Collapsing slashes keeps the first segment and the non-empty later
      segments. */
  lemma {:induction false} CollapseKeepsSegments(s: string)
    ensures Split(CollapseSlashes(s), '/')[0] == Split(s, '/')[0]
    ensures NonEmpty(Split(CollapseSlashes(s), '/')[1..]) == NonEmpty(Split(s, '/')[1..])
    decreases |s|
  {
    if |s| == 0 {
    } else if |s| >= 2 && s[0] == '/' && s[1] == '/' {
      var t := s[1..];
      CollapseKeepsSegments(t);
      assert t[1..] == s[2..];
      assert Split(t, '/') == [""] + Split(s[2..], '/');
      assert Split(s, '/') == [""] + Split(t, '/');
      assert Split(s, '/')[1..] == Split(t, '/');
      assert Split(t, '/')[1..] == Split(s[2..], '/');
      NonEmptyConcat([""], Split(s[2..], '/'));
    } else {
      var t := s[1..];
      var c := CollapseSlashes(s);
      CollapseKeepsSegments(t);
      var ct := CollapseSlashes(t);
      assert c == [s[0]] + ct;
      assert c[1..] == ct;
      var sct := Split(ct, '/');
      var st := Split(t, '/');
      if s[0] == '/' {
        assert Split(c, '/') == [""] + sct;
        assert Split(s, '/') == [""] + st;
        assert sct == [sct[0]] + sct[1..];
        assert st == [st[0]] + st[1..];
        NonEmptyConcat([sct[0]], sct[1..]);
        NonEmptyConcat([st[0]], st[1..]);
        assert Split(c, '/')[1..] == sct;
        assert Split(s, '/')[1..] == st;
      } else {
        assert Split(c, '/') == [[s[0]] + sct[0]] + sct[1..];
        assert Split(s, '/') == [[s[0]] + st[0]] + st[1..];
      }
    }
  }

  lemma NonEmptySplitCollapse(s: string)
    ensures NonEmpty(Split(CollapseSlashes(s), '/')) == NonEmpty(Split(s, '/'))
  {
    CollapseKeepsSegments(s);
    var a := Split(CollapseSlashes(s), '/');
    var b := Split(s, '/');
    assert a == [a[0]] + a[1..];
    assert b == [b[0]] + b[1..];
    NonEmptyConcat([a[0]], a[1..]);
    NonEmptyConcat([b[0]], b[1..]);
  }

  /** The normalised destination has no `//`, no `..` segment, and its
      non-empty segments are exactly what a directory stack makes of the
      segments left after the `/./` pass. */
  lemma NormaliseResolvesParents(d: string)
    ensures NoDoubleSlash(Normalise(d))
    ensures NonEmpty(Split(Normalise(d), '/')) == Resolve(Split(DropDotSegments(d), '/'))
    ensures forall seg :: seg in Split(Normalise(d), '/') ==> seg != ".."
  {
    var segs := Split(DropDotSegments(d), '/');
    var blanked := CancelParents(segs);
    var joined := Join(blanked, '/');
    SplitPiecesLackSeparator(DropDotSegments(d), '/');
    assert forall i :: 0 <= i < |blanked| ==> '/' !in blanked[i];
    SplitJoin(blanked, '/');
    CancelParentsResolves(segs);
    NonEmptySplitCollapse(joined);
    forall seg | seg in Split(Normalise(d), '/')
      ensures seg != ".."
    {
      if seg == ".." {
        NonEmptyMember(Split(Normalise(d), '/'), seg);
      }
    }
  }

  /** What `parsePath` answers, when it does not answer `false`, is a path
      with no `//` and no `..` segment whose non-empty segments are the
      directory-stack resolution of the destination after the `/./` pass. */
  lemma ParsePathResolves(path: string, out: string, canBeSame: bool)
    requires ParsePath(path, out, canBeSame).Some?
    ensures var r := ParsePath(path, out, canBeSame).value;
            var d := Destination(path, out, canBeSame);
            NoDoubleSlash(r) &&
            NonEmpty(Split(r, '/')) == Resolve(Split(DropDotSegments(d), '/')) &&
            (forall seg :: seg in Split(r, '/') ==> seg != "..")
  {
    NormaliseResolvesParents(Destination(path, out, canBeSame));
  }
}
