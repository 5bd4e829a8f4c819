/** Resolutions of `parsePath` for the shapes of `out` a stylesheet header
    uses: a sibling with the extension swapped, a bare file name, the
    source's own name, a parent-directory hop, and a `..` above the root.
    Each is stated for arbitrary segment names, not for one literal path. */
module PathExamples {
  import opened Optional
  import opened Text
  import opened Paths
  import opened PathClean

  /** A plain file or directory name: non-empty, slash-free, and neither
      `.` nor `..`. */
  predicate Name(x: string) {
    x != "" && '/' !in x && x != "." && x != ".."
  }

  /** The directory part of a joined path is the join of all but its last
      segment, and its last segment is the base name. */
  lemma DirnameOfJoin(parts: seq<string>)
    requires |parts| >= 1 && forall i :: 0 <= i < |parts| ==> '/' !in parts[i]
    ensures Dirname(Join(parts, '/')) == Join(parts[..|parts| - 1], '/')
    ensures Basename(Join(parts, '/')) == parts[|parts| - 1]
  {
    SplitJoin(parts, '/');
  }

  lemma Join2(x: string, y: string)
    ensures Join([x, y], '/') == x + "/" + y
  {
    assert [x, y][1..] == [y];
  }

  lemma Join3(x: string, y: string, z: string)
    ensures Join([x, y, z], '/') == x + "/" + y + "/" + z
  {
    assert [x, y, z][1..] == [y, z];
    Join2(y, z);
  }

  lemma Join4(w: string, x: string, y: string, z: string)
    ensures Join([w, x, y, z], '/') == w + "/" + x + "/" + y + "/" + z
  {
    assert [w, x, y, z][1..] == [x, y, z];
    Join3(x, y, z);
  }

  lemma Join5(v: string, w: string, x: string, y: string, z: string)
    ensures Join([v, w, x, y, z], '/') == v + "/" + w + "/" + x + "/" + y + "/" + z
  {
    assert [v, w, x, y, z][1..] == [w, x, y, z];
    Join4(w, x, y, z);
  }

  /** Characters other than `/` pass the slash pass one by one. */
  lemma {:induction false} CollapseSlashFreePrefix(x: string, y: string)
    requires '/' !in x
    ensures CollapseSlashes(x + y) == x + CollapseSlashes(y)
    decreases |x|
  {
    if |x| == 0 {
      assert x + y == y;
    } else {
      assert x[0] in x;
      CollapseKeep(x + y);
      assert (x + y)[1..] == x[1..] + y;
      CollapseSlashFreePrefix(x[1..], y);
    }
  }

  /** A single slash before a slash-free name survives the slash pass. */
  lemma CollapseRooted(x: string)
    requires '/' !in x
    ensures CollapseSlashes("/" + x) == "/" + x
  {
    if |x| > 0 {
      assert x[0] in x;
    }
    CollapseKeep("/" + x);
    assert ("/" + x)[1..] == x + "";
    CollapseSlashFreePrefix(x, "");
  }

  /** With `canBeSame` and out `.`, a slash-free source resolves to itself
      with the extension swapped: `a.scss` gives `a.css`. */
  lemma ResolveSameDirectory(path: string)
    requires '/' !in path && (EndsWith(path, "scss") || EndsWith(path, "sass"))
    ensures ParsePath(path, ".", true) == Some(SwapExtension(path))
  {
    var d := SwapExtension(path);
    assert d == path[..|path| - 4] + "css";
    forall i | 0 <= i < |d| ensures d[i] != '/' {
      if i < |path| - 4 {
        assert d[i] == path[i] && path[i] in path;
      }
    }
    assert d != "..";
    assert |d| < |path|;
    assert d == Join([d], '/');
    ParsePathClean(path, ".", true, [d]);
  }

  /** A slash-free source has an empty directory part, so a plain `out`
      gains a leading slash and never equals the source: even
      `parsePath("a.scss", "a.scss", false)` is `/a.scss`, not `false`. */
  lemma ResolveBareSource(name: string, out: string, canBeSame: bool)
    requires Name(name) && Name(out)
    ensures ParsePath(name, out, canBeSame) == Some("/" + out)
  {
    assert out[0] != '/' by { assert out[0] in out; }
    var parts := ["", out];
    assert Join(parts, '/') == "/" + out;
    assert Destination(name, out, canBeSame) == "/" + out;
    ParsePathClean(name, out, canBeSame, parts);
  }

  /** An `out` naming the source file itself resolves back onto the source
      and gives `false`, as `/x/a.scss` with out `a.scss` does. */
  lemma ResolveOntoSelf(parts: seq<string>)
    requires |parts| >= 2 && Clean(parts)
    ensures ParsePath(Join(parts, '/'), parts[|parts| - 1], false) == None
  {
    var path := Join(parts, '/');
    var out := parts[|parts| - 1];
    DirnameOfJoin(parts);
    SplitAtLeastTwoOfJoin(parts);
    assert out[0] != '/' by { assert out[0] in out; }
    assert Destination(path, out, false) == Dirname(path) + "/" + out;
    assert Destination(path, out, false) == path;
    ParsePathClean(path, out, false, parts);
  }

  /** A join of two or more segments holds a slash. */
  lemma SplitAtLeastTwoOfJoin(parts: seq<string>)
    requires |parts| >= 2 && forall i :: 0 <= i < |parts| ==> '/' !in parts[i]
    ensures '/' in Join(parts, '/')
  {
    var s := Join(parts, '/');
    assert s == parts[0] + "/" + Join(parts[1..], '/');
    assert s[|parts[0]|] == '/';
  }

  /** The destination of `../o` from `/a/b/c` is `/a/b/../o`. */
  lemma ParentDestination(a: string, b: string, c: string, o: string)
    requires Name(a) && Name(b) && Name(c) && Name(o)
    ensures Destination(Join(["", a, b, c], '/'), "../" + o, false) == Join(["", a, b, "..", o], '/')
  {
    var src := ["", a, b, c];
    var path := Join(src, '/');
    DirnameOfJoin(src);
    assert src[..3] == ["", a, b];
    SplitAtLeastTwoOfJoin(src);
    Join3("", a, b);
    Join5("", a, b, "..", o);
    assert Destination(path, "../" + o, false) == Join(["", a, b], '/') + "/" + ("../" + o);
  }

  /** The walk blanks the `..` and the directory before it. */
  lemma ParentCancel(a: string, b: string, o: string)
    requires Name(a) && Name(b) && Name(o)
    ensures CancelParents(["", a, b, "..", o]) == ["", a, "", "", o]
  {
    var parts := ["", a, b, "..", o];
    var blanked := ["", a, "", "", o];
    assert CancelFrom(blanked, 4) == blanked;
    assert NearestNonEmptyBefore(parts, 3) == 2;
    assert CancelAt(parts, 3) == blanked;
    assert CancelFrom(parts, 3) == blanked;
    assert CancelFrom(parts, 2) == blanked;
    assert CancelFrom(parts, 1) == blanked;
  }

  /** The slash pass closes the gap the walk left. */
  lemma ParentCollapse(a: string, o: string)
    requires Name(a) && Name(o)
    ensures CollapseSlashes(Join(["", a, "", "", o], '/')) == Join(["", a, o], '/')
  {
    Join5("", a, "", "", o);
    Join3("", a, o);
    var t := "///" + o;
    var j := "/" + a + t;
    assert Join(["", a, "", "", o], '/') == j;
    assert a[0] in a;
    CollapseKeep(j);
    assert j[0] == '/' && j[1..] == a + t;
    CollapseSlashFreePrefix(a, t);
    CollapseRun(o);
    assert CollapseSlashes(j) == "/" + (a + ("/" + o));
    assert "/" + (a + ("/" + o)) == Join(["", a, o], '/');
  }

  /** A run of three slashes before a name collapses to one. */
  lemma CollapseRun(o: string)
    requires '/' !in o
    ensures CollapseSlashes("///" + o) == "/" + o
  {
    var t := "///" + o;
    CollapseDrop(t);
    assert t[1..] == "//" + o;
    CollapseDrop("//" + o);
    assert ("//" + o)[1..] == "/" + o;
    CollapseRooted(o);
  }

  /** `/a/b/../o` normalises to `/a/o`. */
  lemma ParentNormalise(a: string, b: string, o: string)
    requires Name(a) && Name(b) && Name(o)
    ensures Normalise(Join(["", a, b, "..", o], '/')) == Join(["", a, o], '/')
  {
    var parts := ["", a, b, "..", o];
    var d := Join(parts, '/');
    JoinNoDotSegment(parts);
    DropDotSegmentsChanges(d);
    SplitJoin(parts, '/');
    ParentCancel(a, b, o);
    ParentCollapse(a, o);
  }

  /** A `..` cancels the directory before it:
      `parsePath("/a/b/c.scss", "../d.css", false)` is `/a/d.css`. */
  lemma ResolveParentOut(a: string, b: string, c: string, o: string)
    requires Name(a) && Name(b) && Name(c) && Name(o)
    ensures ParsePath(Join(["", a, b, c], '/'), "../" + o, false) == Some(Join(["", a, o], '/'))
  {
    ParentDestination(a, b, c, o);
    ParentNormalise(a, b, o);
    ParentDiffers(a, b, c, o);
  }

  /** `/a/o` is not `/a/b/c`: one slash fewer. */
  lemma ParentDiffers(a: string, b: string, c: string, o: string)
    requires Name(a) && Name(b) && Name(c) && Name(o)
    ensures Join(["", a, o], '/') != Join(["", a, b, c], '/')
  {
    Join4("", a, b, c);
    Join3("", a, o);
    var r, path := Join(["", a, o], '/'), Join(["", a, b, c], '/');
    var k := |a| + 2;
    assert r[k..] == o;
    assert path[k..] == b + "/" + c;
    assert path[k..][|b|] == '/';
    assert '/' in path[k..];
  }

  /** A `..` with nothing before it vanishes without error: `/../x` is
      `/x`. */
  lemma UnmatchedParentDropped(x: string)
    requires Name(x)
    ensures Normalise("/../" + x) == "/" + x
  {
    var d := "/../" + x;
    var parts := ["", "..", x];
    Join3("", "..", x);
    assert Join(parts, '/') == d;
    JoinNoDotSegment(parts);
    DropDotSegmentsChanges(d);
    SplitJoin(parts, '/');
    var blanked := ["", "", x];
    assert CancelParents(parts) == blanked by {
      assert CancelFrom(blanked, 2) == blanked;
      assert NearestNonEmptyBefore(parts, 1) == -1;
      assert CancelAt(parts, 1) == blanked;
      assert CancelFrom(parts, 1) == blanked;
    }
    var j := "//" + x;
    Join3("", "", x);
    assert Join(blanked, '/') == j;
    CollapseDrop(j);
    assert j[1..] == "/" + x;
    CollapseRooted(x);
  }

  /** The `/./` pass is a single non-overlapping scan. */
  lemma DotPassSingleScan()
    ensures DropDotSegments("/././") == "/./"
  {
  }

  /** A rooted source one level down resolves a plain `out` to its sibling:
      `parsePath("/a.scss", "b.scss", canBeSame)` is `/b.scss`. */
  lemma ResolveSibling(x: string, y: string, canBeSame: bool)
    requires Name(x) && Name(y) && x != y
    ensures ParsePath("/" + x, y, canBeSame) == Some("/" + y)
  {
    var path := "/" + x;
    assert path == "" + ['/'] + x;
    SplitNoSeparator(x, '/');
    SplitAtSeparator("", x, '/');
    assert Split(path, '/') == ["", x];
    assert ["", x][..1] == [""];
    assert Dirname(path) == "";
    assert y[0] != '/' by { assert y[0] in y; }
    Join2("", y);
    assert Destination(path, y, canBeSame) == Join(["", y], '/');
    ParsePathClean(path, y, canBeSame, ["", y]);
  }
}
