/** The build-directive parser `getOptions` (extension.js:139-161).

    Only the text before the first newline is read. It must match
    `^\s*\/\/\s*(.+)`; the captured text is split on `,`, every item with a
    `:` is split at its first `:` into a trimmed key and a trimmed value,
    and a value that is exactly `true`, `false`, `undefined`, `null` or a
    run of ASCII digits is turned into that literal. Later keys overwrite
    earlier ones. */
module Options {
  import opened Optional
  import opened Text

  /** What a directive value becomes: one of the four literals, a number,
      or the text itself. */
  datatype Value = Bool(b: bool) | Null | Undefined | Number(n: nat) | Str(s: string)

  datatype Binding = Binding(key: string, value: Value)

  // ---------------------------------------------------------------------
  // Character classes of JavaScript regular expressions
  // ---------------------------------------------------------------------

  /** `\s`, which is also what `String.prototype.trim` strips: the
      ECMAScript WhiteSpace and LineTerminator code points. */
  predicate IsSpace(c: char) {
    var n := c as int;
    n == 0x09 || n == 0x0A || n == 0x0B || n == 0x0C || n == 0x0D || n == 0x20 ||
    n == 0xA0 || n == 0x1680 || (0x2000 <= n <= 0x200A) || n == 0x2028 || n == 0x2029 ||
    n == 0x202F || n == 0x205F || n == 0x3000 || n == 0xFEFF
  }

  /** The characters `.` does not match. */
  predicate IsLineTerminator(c: char) {
    var n := c as int;
    n == 0x0A || n == 0x0D || n == 0x2028 || n == 0x2029
  }

  predicate AllSpace(s: string) {
    forall i :: 0 <= i < |s| ==> IsSpace(s[i])
  }

  predicate NoLineTerminator(s: string) {
    forall i :: 0 <= i < |s| ==> !IsLineTerminator(s[i])
  }

  // ---------------------------------------------------------------------
  // Scanning helpers
  // ---------------------------------------------------------------------

  /** `s.indexOf(c)`: the first position of `c`, or -1. */
  function IndexOf(s: string, c: char): (i: int)
    ensures -1 <= i < |s|
    ensures i >= 0 ==> s[i] == c && c !in s[..i]
    ensures i < 0 ==> c !in s
    decreases |s|
  {
    if |s| == 0 then -1
    else if s[0] == c then 0
    else
      var j := IndexOf(s[1..], c);
      if j < 0 then -1
      else
        assert s[..j + 1] == [s[0]] + s[1..][..j];
        j + 1
  }

  /** Length of the longest all-whitespace prefix. */
  function LeadingSpaces(s: string): (n: nat)
    ensures n <= |s|
    ensures forall i :: 0 <= i < n ==> IsSpace(s[i])
    ensures n < |s| ==> !IsSpace(s[n])
    decreases |s|
  {
    if |s| == 0 || !IsSpace(s[0]) then 0
    else LeadingSpaces(s[1..]) + 1
  }

  /** Length of the longest all-whitespace suffix. */
  function TrailingSpaces(s: string): (n: nat)
    ensures n <= |s|
    ensures forall i :: |s| - n <= i < |s| ==> IsSpace(s[i])
    ensures n < |s| ==> !IsSpace(s[|s| - n - 1])
    decreases |s|
  {
    if |s| == 0 || !IsSpace(s[|s| - 1]) then 0
    else TrailingSpaces(s[..|s| - 1]) + 1
  }

  /** `.+` matched greedily: everything up to the first line terminator. */
  function TakeLine(s: string): (r: string)
    ensures |r| <= |s| && r == s[..|r|]
    ensures NoLineTerminator(r)
    ensures |r| < |s| ==> IsLineTerminator(s[|r|])
    decreases |s|
  {
    if |s| == 0 || IsLineTerminator(s[0]) then ""
    else [s[0]] + TakeLine(s[1..])
  }

  /** Position of the last character that is not a line terminator, or -1. */
  function LastNonTerminator(s: string): (k: int)
    ensures -1 <= k < |s|
    ensures k >= 0 ==> !IsLineTerminator(s[k])
    ensures forall i :: k < i < |s| ==> IsLineTerminator(s[i])
    decreases |s|
  {
    if |s| == 0 then -1
    else if !IsLineTerminator(s[|s| - 1]) then |s| - 1
    else LastNonTerminator(s[..|s| - 1])
  }

  /** `s.trim()`. */
  function Trim(s: string): (r: string)
    ensures |r| <= |s|
    ensures |r| > 0 ==> !IsSpace(r[0]) && !IsSpace(r[|r| - 1])
    ensures AllSpace(s) ==> r == ""
  {
    var t := s[LeadingSpaces(s)..];
    var r := t[..|t| - TrailingSpaces(t)];
    assert |t| > 0 ==> !IsSpace(t[0]);
    assert |r| > 0 ==> r[0] == t[0] && r[|r| - 1] == t[|t| - TrailingSpaces(t) - 1];
    r
  }

  // ---------------------------------------------------------------------
  // The directive line
  // ---------------------------------------------------------------------

  /** `content.substr(0, content.indexOf('\n'))`; with no newline the length
      is -1, which `substr` treats as 0. */
  function FirstLine(content: string): (line: string)
    ensures '\n' !in line
    ensures '\n' in content ==> |line| < |content| && line == content[..|line|] && content[|line|] == '\n'
    ensures '\n' !in content ==> line == ""
  {
    var i := IndexOf(content, '\n');
    if i < 0 then "" else content[..i]
  }

  /** The group captured by `/^\s*\/\/\s*(.+)/.exec(line)`, or `None` when
      the line does not match. When only whitespace follows the `//`, the
      inner `\s*` gives back its last character that `.` accepts, and the
      capture is that one character. */
  function DirectiveBody(line: string): (r: Option<string>)
    ensures r.Some? ==> |r.value| > 0 && NoLineTerminator(r.value)
    ensures r.Some? ==> var i := LeadingSpaces(line);
                        i + 2 <= |line| && line[i] == '/' && line[i + 1] == '/'
  {
    var i := LeadingSpaces(line);
    if !(i + 2 <= |line| && line[i] == '/' && line[i + 1] == '/') then None
    else
      var rest := line[i + 2..];
      var j := LeadingSpaces(rest);
      if j < |rest| then
        var body := TakeLine(rest[j..]);
        assert |body| > 0 by {
          assert !IsSpace(rest[j]);
        }
        Some(body)
      else
        var k := LastNonTerminator(rest);
        if k < 0 then None else Some([rest[k]])
  }

  // ---------------------------------------------------------------------
  // Items and values
  // ---------------------------------------------------------------------

  predicate IsDigit(c: char) {
    '0' <= c <= '9'
  }

  predicate AllDigits(s: string) {
    forall i :: 0 <= i < |s| ==> IsDigit(s[i])
  }

  /** The pattern `^(true|false|undefined|null|[0-9]+)$`. */
  predicate IsLiteral(s: string) {
    s == "true" || s == "false" || s == "undefined" || s == "null" || (|s| > 0 && AllDigits(s))
  }

  /** The digits read as a decimal number. */
  function DecimalValue(s: string): nat
    requires AllDigits(s)
    decreases |s|
  {
    if |s| == 0 then 0
    else DecimalValue(s[..|s| - 1]) * 10 + (s[|s| - 1] as int - '0' as int)
  }

  /** `eval` restricted to the literals the pattern admits; any other value
      stays text. */
  function Coerce(v: string): (r: Value)
    ensures r.Str? <==> !IsLiteral(v)
    ensures r.Str? ==> r.s == v
  {
    if v == "true" then Bool(true)
    else if v == "false" then Bool(false)
    else if v == "undefined" then Undefined
    else if v == "null" then Null
    else if |v| > 0 && AllDigits(v) then Number(DecimalValue(v))
    else Str(v)
  }

  /** One `,`-separated item: `None` when it has no `:`, otherwise the key
      and value around the first `:`, both trimmed. */
  function ParseItem(item: string): (r: Option<Binding>)
    ensures r.None? <==> ':' !in item
  {
    var i := IndexOf(item, ':');
    if i < 0 then None
    else Some(Binding(Trim(item[..i]), Coerce(Trim(item[i + 1..]))))
  }

  /** Each item parsed on its own, in order. */
  function ParseItems(items: seq<string>): (bs: seq<Option<Binding>>)
    ensures |bs| == |items|
    ensures forall i :: 0 <= i < |items| ==> bs[i] == ParseItem(items[i])
    decreases |items|
  {
    if |items| == 0 then [] else [ParseItem(items[0])] + ParseItems(items[1..])
  }

  /** One parsed item applied to the object built so far: an item without
      `:` leaves it as it is, otherwise the key is (re)assigned. */
  function Assign(m: map<string, Value>, b: Option<Binding>): map<string, Value> {
    match b
    case None => m
    case Some(b) => m[b.key := b.value]
  }

  /** The parsed items applied in order to an empty object. */
  function Fold(bs: seq<Option<Binding>>): map<string, Value>
    decreases |bs|
  {
    if |bs| == 0 then map[]
    else Assign(Fold(bs[..|bs| - 1]), bs[|bs| - 1])
  }

  /** The object the items of a directive build. */
  function Bind(items: seq<string>): map<string, Value> {
    Fold(ParseItems(items))
  }

  /** `getOptions(content)`. */
  function GetOptions(content: string): (options: map<string, Value>)
    ensures '\n' !in content ==> options == map[]
  {
    match DirectiveBody(FirstLine(content))
    case None => map[]
    case Some(body) => Bind(Split(body, ','))
  }
}
