/** Properties of `getOptions`: which line is read, what the directive
    pattern captures, how items bind keys, and how values are typed. */
module OptionFacts {
  import opened Optional
  import opened Text
  import opened Options

  // ---------------------------------------------------------------------
  // Trimming and the directive pattern
  // ---------------------------------------------------------------------

  lemma {:induction false} LeadingSpacesOf(w: string, x: string)
    requires AllSpace(w)
    requires |x| == 0 || !IsSpace(x[0])
    ensures LeadingSpaces(w + x) == |w|
    decreases |w|
  {
    if |w| > 0 {
      assert (w + x)[1..] == w[1..] + x;
      LeadingSpacesOf(w[1..], x);
    } else {
      assert w + x == x;
    }
  }

  lemma {:induction false} TrailingSpacesOf(x: string, w: string)
    requires AllSpace(w)
    requires |x| == 0 || !IsSpace(x[|x| - 1])
    ensures TrailingSpaces(x + w) == |w|
    decreases |w|
  {
    if |w| > 0 {
      assert (x + w)[..|x + w| - 1] == x + w[..|w| - 1];
      TrailingSpacesOf(x, w[..|w| - 1]);
    } else {
      assert x + w == x;
    }
  }

  /** `trim` strips exactly the surrounding whitespace: text whose ends are
      not whitespace comes back unchanged from any padding. */
  lemma TrimRoundTrip(w1: string, x: string, w2: string)
    requires AllSpace(w1) && AllSpace(w2)
    requires |x| > 0 ==> !IsSpace(x[0]) && !IsSpace(x[|x| - 1])
    ensures Trim(w1 + x + w2) == x
  {
    var s := w1 + x + w2;
    if |x| == 0 {
      assert AllSpace(s) by {
        forall i | 0 <= i < |s| ensures IsSpace(s[i]) {
          if i < |w1| { assert s[i] == w1[i]; } else { assert s[i] == w2[i - |w1|]; }
        }
      }
    } else {
      LeadingSpacesOf(w1, x + w2);
      assert s == w1 + (x + w2);
      var t := s[|w1|..];
      assert t == x + w2;
      TrailingSpacesOf(x, w2);
      assert t[..|t| - |w2|] == x;
    }
  }

  lemma {:induction false} TakeLineOf(body: string, tail: string)
    requires NoLineTerminator(body)
    requires |tail| == 0 || IsLineTerminator(tail[0])
    ensures TakeLine(body + tail) == body
    decreases |body|
  {
    if |body| > 0 {
      assert (body + tail)[1..] == body[1..] + tail;
      TakeLineOf(body[1..], tail);
      assert body == [body[0]] + body[1..];
    } else {
      assert body + tail == tail;
    }
  }

  /** A line `w1 // w2 body tail` (whitespace `w1`, `w2`; a body that starts
      with a non-space and has no line terminator; a tail that is empty or
      starts with one) captures exactly `body`. */
  lemma DirectiveRoundTrip(w1: string, w2: string, body: string, tail: string)
    requires AllSpace(w1) && AllSpace(w2)
    requires |body| > 0 && !IsSpace(body[0]) && NoLineTerminator(body)
    requires |tail| == 0 || IsLineTerminator(tail[0])
    ensures DirectiveBody(w1 + "//" + w2 + body + tail) == Some(body)
  {
    var line := w1 + "//" + w2 + body + tail;
    assert line == w1 + ("//" + w2 + body + tail);
    LeadingSpacesOf(w1, "//" + w2 + body + tail);
    assert line[|w1|] == '/' && line[|w1| + 1] == '/';
    var rest := line[|w1| + 2..];
    assert rest == w2 + (body + tail);
    LeadingSpacesOf(w2, body + tail);
    assert rest[|w2|..] == body + tail;
    TakeLineOf(body, tail);
  }

  /** After `//` and nothing but whitespace the pattern either fails or
      captures a single whitespace character. */
  lemma BlankDirectiveBody(w1: string, w2: string)
    requires AllSpace(w1) && AllSpace(w2)
    ensures DirectiveBody(w1 + "//" + w2).None? ||
            (|DirectiveBody(w1 + "//" + w2).value| == 1 && IsSpace(DirectiveBody(w1 + "//" + w2).value[0]))
  {
    var line := w1 + "//" + w2;
    LeadingSpacesOf(w1, "//" + w2);
    assert line == w1 + ("//" + w2);
    var r := line[|w1| + 2..];
    assert r == w2;
    LeadingSpacesOf(w2, "");
    assert w2 + "" == w2;
  }

  lemma FoldNone()
    ensures Fold([None]) == map[]
  {
    var bs: seq<Option<Binding>> := [None];
    assert bs[..0] == [];
  }

  /** A single whitespace character binds nothing. */
  lemma BlankBodyBindsNothing(body: string)
    requires |body| == 1 && IsSpace(body[0])
    ensures Bind(Split(body, ',')) == map[]
  {
    assert ':' !in body;
    SplitNoSeparator(body, ',');
    assert ParseItem(body) == None;
    assert ParseItems([body]) == [None];
    FoldNone();
  }

  /** A first line that is only `//` and whitespace defines no options. */
  lemma BlankDirectiveHasNoOptions(w1: string, w2: string, rest: string)
    requires AllSpace(w1) && AllSpace(w2) && '\n' !in w1 && '\n' !in w2
    ensures GetOptions(w1 + "//" + w2 + "\n" + rest) == map[]
  {
    var line := w1 + "//" + w2;
    assert w1 + "//" + w2 + "\n" + rest == line + ("\n" + rest);
    assert '\n' !in line by {
      forall i | 0 <= i < |line| ensures line[i] != '\n' {
        if i < |w1| { assert line[i] == w1[i]; }
        else if i >= |w1| + 2 { assert line[i] == w2[i - |w1| - 2]; }
      }
    }
    FirstLineOf(line, "\n" + rest);
    BlankDirectiveBody(w1, w2);
    if DirectiveBody(line).Some? {
      BlankBodyBindsNothing(DirectiveBody(line).value);
    }
  }

  lemma FirstLineOf(line: string, rest: string)
    requires '\n' !in line
    requires |rest| > 0 && rest[0] == '\n'
    ensures FirstLine(line + rest) == line
  {
    var content := line + rest;
    assert content[|line|] == '\n';
    assert '\n' in content;
    assert content[..|line|] == line;
  }

  /** A first line that is not whitespace followed by `//` defines no
      options, whatever follows it. */
  lemma NotDirectiveHasNoOptions(line: string, rest: string)
    requires '\n' !in line
    requires forall i :: 0 <= i && i + 2 <= |line| && AllSpace(line[..i]) ==> !(line[i] == '/' && line[i + 1] == '/')
    ensures GetOptions(line + "\n" + rest) == map[]
  {
    var i := LeadingSpaces(line);
    assert AllSpace(line[..i]);
    assert line + "\n" + rest == line + ("\n" + rest);
    FirstLineOf(line, "\n" + rest);
  }

  /** Only the text before the first newline is read: the rest of the
      document never changes the options. */
  lemma OnlyFirstLineRead(line: string, rest1: string, rest2: string)
    requires '\n' !in line
    ensures GetOptions(line + "\n" + rest1) == GetOptions(line + "\n" + rest2)
  {
    assert line + "\n" + rest1 == line + ("\n" + rest1);
    assert line + "\n" + rest2 == line + ("\n" + rest2);
    FirstLineOf(line, "\n" + rest1);
    FirstLineOf(line, "\n" + rest2);
  }

  // ---------------------------------------------------------------------
  // Items
  // ---------------------------------------------------------------------

  /** An item is cut at its first `:`: the key is the trimmed text before
      it and the value the coerced trimmed text after it, whatever further
      `:` the value holds. */
  lemma ParseItemAtFirstColon(key: string, value: string)
    requires ':' !in key
    ensures ParseItem(key + ":" + value) == Some(Binding(Trim(key), Coerce(Trim(value))))
  {
    var item := key + ":" + value;
    assert item[|key|] == ':';
    assert item[..|key|] == key;
    assert item[|key| + 1..] == value;
  }

  /** Parsed item `i` assigns key `k`. */
  predicate Assigns(bs: seq<Option<Binding>>, i: int, k: string) {
    0 <= i < |bs| && bs[i].Some? && bs[i].value.key == k
  }

  lemma AssignKey(m: map<string, Value>, b: Option<Binding>, k: string)
    ensures b.Some? && b.value.key == k ==> k in Assign(m, b) && Assign(m, b)[k] == b.value.value
    ensures !(b.Some? && b.value.key == k) ==>
              (k in Assign(m, b) <==> k in m) && (k in m ==> Assign(m, b)[k] == m[k])
  {
  }

  lemma {:induction false} FoldKeepsKey(bs: seq<Option<Binding>>, k: string, i: int)
    requires Assigns(bs, i, k)
    ensures k in Fold(bs)
    decreases |bs|
  {
    var n := |bs|;
    var prefix := bs[..n - 1];
    AssignKey(Fold(prefix), bs[n - 1], k);
    if i < n - 1 {
      assert prefix[i] == bs[i];
      FoldKeepsKey(prefix, k, i);
    }
  }

  lemma {:induction false} FoldKeyHasItem(bs: seq<Option<Binding>>, k: string) returns (i: int)
    requires k in Fold(bs)
    ensures Assigns(bs, i, k)
    decreases |bs|
  {
    var n := |bs|;
    var prefix := bs[..n - 1];
    AssignKey(Fold(prefix), bs[n - 1], k);
    if Assigns(bs, n - 1, k) {
      i := n - 1;
    } else {
      i := FoldKeyHasItem(prefix, k);
      assert prefix[i] == bs[i];
    }
  }

  /** The fold defines exactly the keys some item assigns. */
  lemma FoldDefines(bs: seq<Option<Binding>>, k: string)
    ensures k in Fold(bs) <==> exists i :: Assigns(bs, i, k)
  {
    if k in Fold(bs) {
      var i := FoldKeyHasItem(bs, k);
    }
    forall i | Assigns(bs, i, k) ensures k in Fold(bs) {
      FoldKeepsKey(bs, k, i);
    }
  }

  /** The fold keeps the value of the last item that assigns a key. */
  lemma {:induction false} FoldLastWins(bs: seq<Option<Binding>>, k: string, i: int)
    requires Assigns(bs, i, k)
    requires forall j :: i < j < |bs| ==> !Assigns(bs, j, k)
    ensures k in Fold(bs) && Fold(bs)[k] == bs[i].value.value
    decreases |bs|
  {
    var n := |bs|;
    var prefix := bs[..n - 1];
    AssignKey(Fold(prefix), bs[n - 1], k);
    if i < n - 1 {
      assert !Assigns(bs, n - 1, k);
      assert prefix[i] == bs[i];
      forall j | i < j < |prefix| ensures !Assigns(prefix, j, k) {
        assert prefix[j] == bs[j];
        assert !Assigns(bs, j, k);
      }
      FoldLastWins(prefix, k, i);
    }
  }

  /** Item `i` of a directive defines key `k`. */
  predicate Binds(items: seq<string>, i: int, k: string) {
    0 <= i < |items| && ParseItem(items[i]).Some? && ParseItem(items[i]).value.key == k
  }

  /** A key is defined exactly when some item with a `:` names it. */
  lemma BindDefines(items: seq<string>, k: string)
    ensures k in Bind(items) <==> exists i :: Binds(items, i, k)
  {
    var bs := ParseItems(items);
    FoldDefines(bs, k);
    assert forall i :: Assigns(bs, i, k) <==> Binds(items, i, k);
  }

  /** The value of a key is the one given by the last item that names it. */
  lemma BindLastWins(items: seq<string>, k: string, i: int)
    requires Binds(items, i, k)
    requires forall j :: i < j < |items| ==> !Binds(items, j, k)
    ensures k in Bind(items) && Bind(items)[k] == ParseItem(items[i]).value.value
  {
    var bs := ParseItems(items);
    forall j | i < j < |bs| ensures !Assigns(bs, j, k) {
      assert !Binds(items, j, k);
    }
    FoldLastWins(bs, k, i);
  }

  // ---------------------------------------------------------------------
  // Values
  // ---------------------------------------------------------------------

  function DigitChar(d: nat): char
    requires d < 10
  {
    ('0' as int + d) as char
  }

  /** A number written in decimal without leading zeros. */
  function DecimalString(n: nat): (s: string)
    ensures |s| > 0 && AllDigits(s)
    decreases n
  {
    if n < 10 then [DigitChar(n)]
    else DecimalString(n / 10) + [DigitChar(n % 10)]
  }

  lemma {:induction false} DecimalRoundTrip(n: nat)
    ensures DecimalValue(DecimalString(n)) == n
    decreases n
  {
    if n >= 10 {
      DecimalRoundTrip(n / 10);
      var s := DecimalString(n);
      assert s[..|s| - 1] == DecimalString(n / 10);
    }
  }

  /** How a directive value is written. */
  function Show(v: Value): string {
    match v
    case Bool(b) => if b then "true" else "false"
    case Null => "null"
    case Undefined => "undefined"
    case Number(n) => DecimalString(n)
    case Str(s) => s
  }

  /** Reading a written value gives it back, for every value except text
      that itself spells a literal. */
  lemma CoerceShowRoundTrip(v: Value)
    requires v.Str? ==> !IsLiteral(v.s)
    ensures Coerce(Show(v)) == v
  {
    if v.Number? {
      var s := DecimalString(v.n);
      DecimalRoundTrip(v.n);
      assert s != "true" && s != "false" && s != "undefined" && s != "null" by {
        assert IsDigit(s[0]);
      }
    }
  }
}
