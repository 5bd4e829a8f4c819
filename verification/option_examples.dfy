/** The common shape of a build directive, `// k1: v1, k2: v2`, proved
    stage by stage (first line, the directive pattern, the split on `,`,
    each item, the fold) for arbitrary keys and values. */
module OptionExamples {
  import opened Optional
  import opened Text
  import opened Options
  import opened OptionFacts

  /** A key or value written without blanks, separators or line breaks,
      such as `out`, `style.css` or `true`. */
  predicate Token(s: string) {
    |s| > 0 && !IsSpace(s[0]) && !IsSpace(s[|s| - 1]) &&
    forall i :: 0 <= i < |s| ==> s[i] != ',' && s[i] != ':' && !IsLineTerminator(s[i])
  }

  /** `k: v` with one blank after the colon. */
  function Item(k: string, v: string): string {
    k + ":" + (" " + v)
  }

  /** The body `k1: v1, k2: v2` of a two-item directive. */
  function PairBody(k1: string, v1: string, k2: string, v2: string): string {
    Item(k1, v1) + "," + Item(" " + k2, v2)
  }

  /** Text with no blank at either end is its own trim. */
  lemma TrimUnpadded(x: string)
    requires |x| > 0 && !IsSpace(x[0]) && !IsSpace(x[|x| - 1])
    ensures Trim(x) == x
  {
    assert LeadingSpaces(x) == 0 && x[0..] == x;
    assert TrailingSpaces(x) == 0 && x[..|x|] == x;
  }

  /** One blank in front of such text is trimmed away. */
  lemma TrimOneBlank(x: string)
    requires |x| > 0 && !IsSpace(x[0]) && !IsSpace(x[|x| - 1])
    ensures Trim(" " + x) == x
  {
    var s := " " + x;
    assert s[1..] == x;
    assert LeadingSpaces(s) == 1;
    TrimUnpadded(x);
  }

  /** A token holds neither separator. */
  lemma TokenSeparators(s: string)
    requires Token(s)
    ensures ':' !in s && ',' !in s
  {
    forall i | 0 <= i < |s| ensures s[i] != ':' && s[i] != ',' { }
  }

  /** ` k: v`, an item after a blank, binds the key to the coerced value. */
  lemma PaddedItem(k: string, v: string)
    requires Token(k) && Token(v)
    ensures ParseItem(Item(" " + k, v)) == Some(Binding(k, Coerce(v)))
  {
    TokenSeparators(k);
    assert ':' !in " " + k;
    ParseItemAtFirstColon(" " + k, " " + v);
    TrimOneBlank(k);
    TrimOneBlank(v);
  }

  /** Neither item holds a `,`, so the body splits into the two. */
  lemma PairSplit(k1: string, v1: string, k2: string, v2: string)
    requires Token(k1) && Token(v1) && Token(k2) && Token(v2)
    ensures Split(PairBody(k1, v1, k2, v2), ',') == [Item(k1, v1), Item(" " + k2, v2)]
  {
    var a, b := Item(k1, v1), Item(" " + k2, v2);
    assert ',' !in a by {
      forall i | 0 <= i < |a| ensures a[i] != ',' {
        if i < |k1| { assert a[i] == k1[i]; }
        else if i >= |k1| + 2 { assert a[i] == v1[i - |k1| - 2]; }
      }
    }
    assert ',' !in b by {
      forall i | 0 <= i < |b| ensures b[i] != ',' {
        if 1 <= i < |k2| + 1 { assert b[i] == k2[i - 1]; }
        else if i >= |k2| + 3 { assert b[i] == v2[i - |k2| - 3]; }
      }
    }
    SplitAtSeparator(a, b, ',');
    SplitNoSeparator(b, ',');
  }

  /** The two items bind their keys in order, the second winning when the
      keys are the same. */
  lemma PairBind(k1: string, v1: string, k2: string, v2: string)
    requires Token(k1) && Token(v1) && Token(k2) && Token(v2)
    ensures Bind(Split(PairBody(k1, v1, k2, v2), ',')) == map[k1 := Coerce(v1)][k2 := Coerce(v2)]
  {
    PairSplit(k1, v1, k2, v2);
    BareItem(k1, v1);
    PaddedItem(k2, v2);
    BindTwo(Item(k1, v1), Item(" " + k2, v2), k1, Coerce(v1), k2, Coerce(v2));
  }

  /** An item with no blank in front binds its key. */
  lemma BareItem(k: string, v: string)
    requires Token(k) && Token(v)
    ensures ParseItem(Item(k, v)) == Some(Binding(k, Coerce(v)))
  {
    TokenSeparators(k);
    ParseItemAtFirstColon(k, " " + v);
    TrimUnpadded(k);
    TrimOneBlank(v);
  }

  /** Two items that bind `k1` and `k2` give the object with both, the
      second winning when the keys are the same. */
  lemma BindTwo(a: string, b: string, k1: string, x1: Value, k2: string, x2: Value)
    requires ParseItem(a) == Some(Binding(k1, x1)) && ParseItem(b) == Some(Binding(k2, x2))
    ensures Bind([a, b]) == map[k1 := x1][k2 := x2]
  {
    BindPair(a, b);
  }

  /** Two parsed items fold left to right. */
  lemma FoldPair(x: Option<Binding>, y: Option<Binding>)
    ensures Fold([x, y]) == Assign(Assign(map[], x), y)
  {
    assert [x, y][..1] == [x];
    assert [x][..0] == [];
    assert Fold([x]) == Assign(map[], x);
  }

  /** A two-item directive binds what its first item binds, then what its
      second binds. */
  lemma BindPair(a: string, b: string)
    ensures Bind([a, b]) == Assign(Assign(map[], ParseItem(a)), ParseItem(b))
  {
    ParseItemsPair(a, b);
    FoldPair(ParseItem(a), ParseItem(b));
  }

  lemma ParseItemsPair(a: string, b: string)
    ensures ParseItems([a, b]) == [ParseItem(a), ParseItem(b)]
  {
    var ps := ParseItems([a, b]);
    assert |ps| == 2 && ps[0] == ParseItem(a) && ps[1] == ParseItem(b);
  }

  /** The body has no line break and starts with the first key. */
  lemma PairBodyOneLine(k1: string, v1: string, k2: string, v2: string)
    requires Token(k1) && Token(v1) && Token(k2) && Token(v2)
    ensures var body := PairBody(k1, v1, k2, v2);
            |body| > 0 && body[0] == k1[0] && NoLineTerminator(body)
  {
    var body := PairBody(k1, v1, k2, v2);
    var n1, n2 := |k1| + 2 + |v1|, |k2| + 2 + |v2|;
    assert |body| == n1 + 2 + n2;
    forall i | 0 <= i < |body| ensures !IsLineTerminator(body[i]) {
      if i < |k1| {
        assert body[i] == k1[i];
      } else if |k1| + 2 <= i < n1 {
        assert body[i] == v1[i - |k1| - 2];
      } else if n1 + 2 <= i < n1 + 2 + |k2| {
        assert body[i] == k2[i - n1 - 2];
      } else if n1 + 4 + |k2| <= i {
        assert body[i] == v2[i - n1 - 4 - |k2|];
      }
    }
  }

  /** `getOptions` on a document whose first line is `// k1: v1, k2: v2`:
      `// out: style.css, minify: true` gives `out` the text `style.css`
      and `minify` the boolean `true`. */
  lemma PairDirective(k1: string, v1: string, k2: string, v2: string, rest: string)
    requires Token(k1) && Token(v1) && Token(k2) && Token(v2)
    ensures GetOptions("// " + PairBody(k1, v1, k2, v2) + "\n" + rest) == map[k1 := Coerce(v1)][k2 := Coerce(v2)]
  {
    var body := PairBody(k1, v1, k2, v2);
    var line := "// " + body;
    PairBodyOneLine(k1, v1, k2, v2);
    assert '\n' !in line by {
      forall i | 0 <= i < |line| ensures line[i] != '\n' {
        if i >= 3 { assert line[i] == body[i - 3] && !IsLineTerminator(body[i - 3]); }
      }
    }
    assert line + "\n" + rest == line + ("\n" + rest);
    FirstLineOf(line, "\n" + rest);
    DirectiveRoundTrip("", " ", body, "");
    assert "" + "//" + " " + body + "" == line;
    PairBind(k1, v1, k2, v2);
  }

  /** The item `k: v` has no line break, no `,`, and starts with the key. */
  lemma ItemOneLine(k: string, v: string)
    requires Token(k) && Token(v)
    ensures var a := Item(k, v);
            |a| > 0 && a[0] == k[0] && NoLineTerminator(a) && ',' !in a
  {
    var a := Item(k, v);
    forall i | 0 <= i < |a| ensures !IsLineTerminator(a[i]) && a[i] != ',' {
      if i < |k| {
        assert a[i] == k[i];
      } else if i >= |k| + 2 {
        assert a[i] == v[i - |k| - 2];
      }
    }
  }

  /** A one-item directive binds what its item binds. */
  lemma BindOne(a: string)
    ensures Bind([a]) == Assign(map[], ParseItem(a))
  {
    var ps := ParseItems([a]);
    assert |ps| == 1 && ps[0] == ParseItem(a);
    assert ps[..0] == [];
    assert Fold(ps) == Assign(Fold(ps[..0]), ps[0]);
  }

  /** `getOptions` on a document whose first line is `// k: v`, such as
      `// out: style.css`. */
  lemma OneDirective(k: string, v: string, rest: string)
    requires Token(k) && Token(v)
    ensures GetOptions("// " + Item(k, v) + "\n" + rest) == map[k := Coerce(v)]
  {
    var body := Item(k, v);
    var line := "// " + body;
    ItemOneLine(k, v);
    assert '\n' !in line by {
      forall i | 0 <= i < |line| ensures line[i] != '\n' {
        if i >= 3 { assert line[i] == body[i - 3] && !IsLineTerminator(body[i - 3]); }
      }
    }
    assert line + "\n" + rest == line + ("\n" + rest);
    FirstLineOf(line, "\n" + rest);
    DirectiveRoundTrip("", " ", body, "");
    assert "" + "//" + " " + body + "" == line;
    SplitNoSeparator(body, ',');
    BareItem(k, v);
    BindOne(body);
  }
}
