/** `parse_params` of the class-wise imbalance dashboard: the textual dump of
    a trial's hyperparameters (`{'lr': 0.001, 'layers': [1, 2], ...}`) is
    cleaned, split at the commas outside bracket lists, and turned into a dict
    whose values are numbers when they parse as such and strings otherwise.
    The support-magnitude bucketing of the same dashboard is here too. */
module ParamsParser {
  import opened Trials

  /** A cell of the `trial_params` CSV column: a string, or anything else
      (a missing value reads as a float NaN). */
  datatype Cell = Text(s: string) | NotText

  // ---------------------------------------------------------------------
  // str.strip

  /** The character sets the parser strips. */
  datatype CharSet = Whitespace | Braces | SingleQuote | DoubleQuote

  /** `str.isspace`: the characters `str.strip()` removes. */
  predicate IsSpace(c: char) {
    var n := c as int;
    n == 0x20 || 0x09 <= n <= 0x0d || 0x1c <= n <= 0x1f || n == 0x85 || n == 0xa0
    || n == 0x1680 || 0x2000 <= n <= 0x200a || n == 0x2028 || n == 0x2029
    || n == 0x202f || n == 0x205f || n == 0x3000
  }

  predicate In(cs: CharSet, c: char) {
    match cs
    case Whitespace => IsSpace(c)
    case Braces => c == '{' || c == '}'
    case SingleQuote => c == '\''
    case DoubleQuote => c == '"'
  }

  /** The number of leading characters of `s` in `cs`. */
  function Leading(s: string, cs: CharSet): (r: nat)
    ensures r <= |s|
    ensures forall i :: 0 <= i < r ==> In(cs, s[i])
    ensures r < |s| ==> !In(cs, s[r])
  {
    if s == [] || !In(cs, s[0]) then 0
    else
      var n := Leading(s[1..], cs);
      assert forall i :: 1 <= i < n + 1 ==> s[i] == s[1..][i - 1];
      n + 1
  }

  /** The number of trailing characters of `s` in `cs`. */
  function Trailing(s: string, cs: CharSet): (r: nat)
    ensures r <= |s|
    ensures forall i :: |s| - r <= i < |s| ==> In(cs, s[i])
    ensures r < |s| ==> !In(cs, s[|s| - r - 1])
  {
    if s == [] || !In(cs, s[|s| - 1]) then 0
    else
      var init := s[..|s| - 1];
      var n := Trailing(init, cs);
      assert forall i :: 0 <= i < |init| ==> init[i] == s[i];
      n + 1
  }

  /** `s.strip(cs)`: both ends of `s` lose every character in `cs`. */
  function Strip(s: string, cs: CharSet): string {
    var t := s[Leading(s, cs)..];
    t[..|t| - Trailing(t, cs)]
  }

  /** The stripped string is the slice of `s` between a run of characters in
      `cs` on each side. */
  lemma StripSpec(s: string, cs: CharSet)
    ensures exists i, j ::
      (0 <= i <= j <= |s| && Strip(s, cs) == s[i..j]
       && (forall k :: 0 <= k < i ==> In(cs, s[k]))
       && (forall k :: j <= k < |s| ==> In(cs, s[k])))
  {
    var i := Leading(s, cs);
    var t := s[i..];
    var n := Trailing(t, cs);
    var j := |s| - n;
    assert Strip(s, cs) == s[i..j];
    forall k | j <= k < |s| ensures In(cs, s[k]) {
      assert s[k] == t[k - i];
    }
  }

  /** The stripped string neither starts nor ends with a character in `cs`. */
  lemma StripEnds(s: string, cs: CharSet)
    ensures var r := Strip(s, cs);
      r == [] || (!In(cs, r[0]) && !In(cs, r[|r| - 1]))
  {
    var t := s[Leading(s, cs)..];
    var n := Trailing(t, cs);
    var r := Strip(s, cs);
    if r != [] {
      assert r[0] == t[0] && r[|r| - 1] == t[|t| - n - 1];
    }
  }

  /** A string with no character of `cs` at either end is left as it is. */
  lemma StripUnchanged(s: string, cs: CharSet)
    requires s == [] || (!In(cs, s[0]) && !In(cs, s[|s| - 1]))
    ensures Strip(s, cs) == s
  {
    assert s[0..] == s;
  }

  /** Stripping twice is stripping once. */
  lemma StripIdempotent(s: string, cs: CharSet)
    ensures Strip(Strip(s, cs), cs) == Strip(s, cs)
  {
    StripEnds(s, cs);
    StripUnchanged(Strip(s, cs), cs);
  }

  /** `s` with every newline removed. */
  function DeleteNewlines(s: string): (r: string)
    ensures forall c :: c in r <==> c in s && c != '\n'
    ensures |r| <= |s|
  {
    if s == [] then []
    else
      var init := DeleteNewlines(s[..|s| - 1]);
      var c := s[|s| - 1];
      assert s == s[..|s| - 1] + [c];
      if c == '\n' then init else init + [c]
  }

  /** The cell text with white space, then braces, stripped from both ends
      and every newline removed. */
  function Clean(s: string): string {
    DeleteNewlines(Strip(Strip(s, Whitespace), Braces))
  }

  // ---------------------------------------------------------------------
  // Splitting at the commas that are not inside a bracketed list

  /** The first bracket character of `s`, if any. */
  function FirstBracket(s: string): (r: Option<char>)
    ensures r.Some? ==> r.value == '[' || r.value == ']'
  {
    if s == [] then None
    else if s[0] == '[' || s[0] == ']' then Some(s[0])
    else FirstBracket(s[1..])
  }

  lemma {:induction false} FirstBracketAppend(a: string, b: string)
    ensures FirstBracket(a + b) == if FirstBracket(a).Some? then FirstBracket(a) else FirstBracket(b)
  {
    if a != [] {
      assert (a + b)[0] == a[0];
      assert (a + b)[1..] == a[1..] + b;
      FirstBracketAppend(a[1..], b);
      if a[0] != '[' && a[0] != ']' {
        assert FirstBracket(a + b) == FirstBracket(a[1..] + b);
      }
    } else {
      assert a + b == b;
    }
  }

  /** The comma at `i` splits: the lookahead `(?![^\[]*\])` fails there, that
      is, the text after it does not reach a `]` before any `[`. A comma inside
      a `[...]` list, which is closed before the next one opens, never splits. */
  predicate IsSplit(s: string, i: nat)
    requires i < |s|
  {
    s[i] == ',' && FirstBracket(s[i + 1..]) != Some(']')
  }

  /** The first split comma at or after `i`. */
  function FindSplit(s: string, i: nat): (r: Option<nat>)
    requires i <= |s|
    ensures r.Some? ==>
      (i <= r.value < |s| && IsSplit(s, r.value)
       && forall j :: i <= j < r.value ==> !IsSplit(s, j))
    ensures r.None? ==> forall j :: i <= j < |s| ==> !IsSplit(s, j)
    decreases |s| - i
  {
    if i == |s| then None
    else if IsSplit(s, i) then Some(i)
    else FindSplit(s, i + 1)
  }

  /** The parts `re.split` returns: the pieces between split commas. */
  function Parts(s: string): (r: seq<string>)
    ensures |r| > 0
    decreases |s|
  {
    match FindSplit(s, 0)
    case None => [s]
    case Some(i) => [s[..i]] + Parts(s[i + 1..])
  }

  /** `",".join(parts)`. */
  function Join(parts: seq<string>): string
    requires |parts| > 0
  {
    if |parts| == 1 then parts[0] else parts[0] + "," + Join(parts[1..])
  }

  /** Where part `k` begins in the text joined from the parts: the lengths of
      the parts before it, each with its comma. */
  function PartStart(ps: seq<string>, k: nat): nat
    requires k <= |ps|
  {
    if k == 0 then 0 else |ps[0]| + 1 + PartStart(ps[1..], k - 1)
  }

  /** Part `k` is the text of the joined parts at its start. */
  lemma {:induction false} PartAt(ps: seq<string>, k: nat)
    requires k < |ps|
    ensures PartStart(ps, k) + |ps[k]| <= |Join(ps)|
    ensures Join(ps)[PartStart(ps, k)..PartStart(ps, k) + |ps[k]|] == ps[k]
  {
    if k > 0 {
      PartAt(ps[1..], k - 1);
      assert ps[1..][k - 1] == ps[k];
      var n := |ps[0]| + 1;
      assert Join(ps) == ps[0] + "," + Join(ps[1..]);
      assert Join(ps)[n..] == Join(ps[1..]);
    }
  }

  /** Splitting loses nothing: joining the parts with commas gives the input. */
  lemma {:induction false} JoinParts(s: string)
    ensures Join(Parts(s)) == s
    decreases |s|
  {
    match FindSplit(s, 0)
    case None =>
    case Some(i) =>
      JoinParts(s[i + 1..]);
      assert Parts(s)[1..] == Parts(s[i + 1..]);
      assert s == s[..i] + "," + s[i + 1..];
  }

  /** A comma that does not split in `s` does not split in a prefix of `s`
      that ends just before a split comma. */
  lemma NoSplitInPrefix(s: string, i: nat, j: nat)
    requires j < i < |s| && IsSplit(s, i) && !IsSplit(s, j)
    ensures !IsSplit(s[..i], j)
  {
    if s[j] == ',' {
      assert s[j + 1..] == s[j + 1..i] + [','] + s[i + 1..];
      FirstBracketAppend(s[j + 1..i] + [','], s[i + 1..]);
      FirstBracketAppend(s[j + 1..i], [',']);
      assert s[..i][j + 1..] == s[j + 1..i];
    }
  }

  /** The split is maximal: no part holds a comma that would split it. */
  lemma {:induction false} PartsHaveNoSplit(s: string)
    ensures forall p, j :: p in Parts(s) && 0 <= j < |p| ==> !IsSplit(p, j)
    decreases |s|
  {
    match FindSplit(s, 0)
    case None =>
    case Some(i) =>
      PartsHaveNoSplit(s[i + 1..]);
      forall j | 0 <= j < i ensures !IsSplit(s[..i], j) {
        NoSplitInPrefix(s, i, j);
      }
  }

  /** Text without brackets has no first bracket. */
  lemma {:induction false} NoBracketNone(t: string)
    requires forall k :: 0 <= k < |t| ==> t[k] != '[' && t[k] != ']'
    ensures FirstBracket(t) == None
  {
    if t != [] {
      NoBracketNone(t[1..]);
    }
  }

  /** `s[a..b + 1]` is a `[...]` list with no bracket between its ends. */
  predicate PlainList(s: string, a: nat, b: nat) {
    a < b < |s| && s[a] == '[' && s[b] == ']' &&
    forall j :: a < j < b ==> s[j] != '[' && s[j] != ']'
  }

  /** A comma inside such a list is followed by the list's `]` before any
      `[`, so it does not split. */
  lemma NoSplitInsideList(s: string, a: nat, b: nat, j: nat)
    requires PlainList(s, a, b) && a < j < b
    ensures !IsSplit(s, j)
  {
    var t := s[j + 1..b];
    assert forall k :: 0 <= k < |t| ==> t[k] == s[j + 1 + k];
    NoBracketNone(t);
    assert s[j + 1..] == t + s[b..];
    FirstBracketAppend(t, s[b..]);
  }

  /** `s[a..b + 1]` is the slice at offset `o` of part `k` of `ps`, and part
      `k` begins at `a - o`, so (by PartAt, when `ps` joins to `s`) it is this
      very occurrence of the text that lies inside the part. */
  predicate InPart(ps: seq<string>, s: string, a: nat, b: nat, k: nat, o: nat) {
    a <= b < |s| && k < |ps| && o + (b + 1 - a) <= |ps[k]| &&
    ps[k][o..o + (b + 1 - a)] == s[a..b + 1] &&
    o <= a && a - o == PartStart(ps, k)
  }

  /** A list of `s` lies inside one part of the split: part `k` begins at
      `a - o` in `s` and holds the whole list at offset `o`. */
  lemma {:induction false} ListInOnePart(s: string, a: nat, b: nat) returns (k: nat, o: nat)
    requires PlainList(s, a, b)
    ensures InPart(Parts(s), s, a, b, k, o)
    decreases |s|
  {
    var i, rest := FirstCut(s, a, b);
    if i == |s| || b < i {
      k, o := 0, a;
    } else {
      var a', b' := ListShifted(s, i, rest, a, b);
      var k', o' := ListInOnePart(rest, a', b');
      k, o := k' + 1, o';
      LaterPart(Parts(s), Parts(rest), s, rest, i, a, b, a', b', k', o');
    }
  }

  /** The first split comma `i` of `s` (or `|s|` when there is none) lies
      before or after a list, never inside it; the first part ends there,
      and the other parts are the parts of the text after it. */
  lemma FirstCut(s: string, a: nat, b: nat) returns (i: nat, rest: string)
    requires PlainList(s, a, b)
    ensures i <= |s| && (i < a || b < i)
    ensures i == |s| || b < i ==> InPart(Parts(s), s, a, b, 0, a)
    ensures i < a ==> rest == s[i + 1..] && Parts(s)[1..] == Parts(rest)
    ensures i < a ==> |Parts(s)[0]| == i
  {
    match FindSplit(s, 0) {
    case None =>
      i, rest := |s|, [];
    case Some(n) =>
      i, rest := n, s[n + 1..];
      if a < i < b {
        NoSplitInsideList(s, a, b, i);
      }
      assert Parts(s)[0] == s[..i];
      if b < i {
        assert s[..i][a..b + 1] == s[a..b + 1];
      }
    }
    if i == |s| || b < i {
      assert Parts(s)[0][a..a + (b + 1 - a)] == s[a..b + 1];
    }
  }

  /** A list of `s` after the split comma `i` is a list of the rest, with
      the same text. */
  lemma ListShifted(s: string, i: nat, rest: string, a: nat, b: nat) returns (a': nat, b': nat)
    requires PlainList(s, a, b) && i < a && rest == s[i + 1..]
    ensures PlainList(rest, a', b') && |rest| < |s|
    ensures b' + 1 - a' == b + 1 - a && rest[a'..b' + 1] == s[a..b + 1]
    ensures a' + i + 1 == a
  {
    a', b' := a - i - 1, b - i - 1;
    forall j | a' < j < b'
      ensures rest[j] != '[' && rest[j] != ']'
    {
      assert rest[j] == s[i + 1 + j];
    }
  }

  /** Part `k + 1` of a split is part `k` of the split of the rest. */
  lemma LaterPart(ps: seq<string>, qs: seq<string>, s: string, rest: string, i: nat, a: nat, b: nat, a': nat, b': nat, k: nat, o: nat)
    requires |ps| > 0 && ps[1..] == qs && |ps[0]| == i && a' + i + 1 == a && a <= b < |s|
    requires a' <= b' < |rest| && b' + 1 - a' == b + 1 - a && rest[a'..b' + 1] == s[a..b + 1]
    requires InPart(qs, rest, a', b', k, o)
    ensures InPart(ps, s, a, b, k + 1, o)
  {
    assert ps[k + 1] == qs[k];
  }

  // ---------------------------------------------------------------------
  // One "key: value" part

  /** The position of the first `c` in `s`. */
  function IndexOf(s: string, c: char): (r: nat)
    requires c in s
    ensures r < |s| && s[r] == c && c !in s[..r]
  {
    if s[0] == c then 0
    else
      var n := IndexOf(s[1..], c);
      assert s[..n + 1] == [s[0]] + s[1..][..n];
      n + 1
  }

  /** `part.split(":", 1)`. */
  function SplitFirstColon(part: string): (r: (string, string))
    requires ':' in part
    ensures ':' !in r.0 && r.0 + ":" + r.1 == part
  {
    var i := IndexOf(part, ':');
    assert part == part[..i] + [':'] + part[i + 1..];
    (part[..i], part[i + 1..])
  }

  /** A key or value with white space, then single quotes, then double
      quotes stripped from both ends. */
  function CleanToken(x: string): string {
    Strip(Strip(Strip(x, Whitespace), SingleQuote), DoubleQuote)
  }

  /** Where `'::'` first occurs in `v`. */
  function FindDoubleColon(v: string, i: nat): (r: Option<nat>)
    requires i <= |v|
    ensures r.Some? ==>
      (i <= r.value && r.value + 1 < |v| && v[r.value] == ':' && v[r.value + 1] == ':'
       && forall j :: i <= j < r.value ==> !(v[j] == ':' && v[j + 1] == ':'))
    ensures r.None? ==> forall j :: i <= j < |v| - 1 ==> !(v[j] == ':' && v[j + 1] == ':')
    decreases |v| - i
  {
    if i + 1 >= |v| then None
    else if v[i] == ':' && v[i + 1] == ':' then Some(i)
    else FindDoubleColon(v, i + 1)
  }

  predicate HasDoubleColon(v: string) {
    exists j :: 0 <= j < |v| - 1 && v[j] == ':' && v[j + 1] == ':'
  }

  /** `v.split("::")[0]` when `"::" in v`, else `v`. */
  function Truncate(v: string): (r: string)
    ensures !HasDoubleColon(v) ==> r == v
    ensures HasDoubleColon(v) ==> |r| + 1 < |v| && v[|r|] == ':' && v[|r| + 1] == ':'
    ensures r == v[..|r|] && !HasDoubleColon(r)
  {
    match FindDoubleColon(v, 0)
    case None => v
    case Some(i) => v[..i]
  }

  // ---------------------------------------------------------------------
  // int(v)

  predicate IsDigit(c: char) {
    '0' <= c <= '9'
  }

  /** What `int` accepts after the sign: ASCII digits, with single
      underscores between digits. */
  predicate IsDigitString(d: string) {
    && |d| > 0 && IsDigit(d[0]) && IsDigit(d[|d| - 1])
    && (forall i :: 0 <= i < |d| ==> IsDigit(d[i]) || d[i] == '_')
    && (forall i :: 0 <= i < |d| - 1 ==> !(d[i] == '_' && d[i + 1] == '_'))
  }

  function Digits(d: string): (r: string)
    ensures (forall i :: 0 <= i < |d| ==> IsDigit(d[i]) || d[i] == '_') ==>
      forall j :: 0 <= j < |r| ==> IsDigit(r[j])
  {
    if d == [] then []
    else
      var init := Digits(d[..|d| - 1]);
      var c := d[|d| - 1];
      if c == '_' then init else init + [c]
  }

  /** The number an all-digit string denotes. */
  function DigitsValue(ds: string): nat {
    if ds == [] then 0
    else
      var c := ds[|ds| - 1];
      var digit := if IsDigit(c) then (c as int - '0' as int) else 0;
      DigitsValue(ds[..|ds| - 1]) * 10 + digit
  }

  /** An optionally signed integer literal without surrounding space. */
  function SignedValue(t: string): Option<int> {
    if t != [] && (t[0] == '-' || t[0] == '+') then
      var d := t[1..];
      var n: int := DigitsValue(Digits(d));
      if IsDigitString(d) then Some(if t[0] == '-' then -n else n)
      else None
    else if IsDigitString(t) then Some(DigitsValue(Digits(t)))
    else None
  }

  /** `int(v)`, which also skips surrounding white space. */
  function ParseInt(v: string): Option<int> {
    SignedValue(Strip(v, Whitespace))
  }

  /** `str(n)` for a natural number. */
  function Decimal(n: nat): (r: string)
    ensures |r| > 0 && forall i :: 0 <= i < |r| ==> IsDigit(r[i])
  {
    var last := ['0' + (n % 10) as char];
    if n < 10 then last else Decimal(n / 10) + last
  }

  /** `str(i)`. */
  function IntText(i: int): string {
    if i < 0 then "-" + Decimal(-i) else Decimal(i)
  }

  lemma {:induction false} DigitsOfDecimal(n: nat)
    ensures Digits(Decimal(n)) == Decimal(n) && DigitsValue(Decimal(n)) == n
  {
    var r := Decimal(n);
    if n >= 10 {
      DigitsOfDecimal(n / 10);
      assert r[..|r| - 1] == Decimal(n / 10);
    }
  }

  lemma DecimalIsDigitString(n: nat)
    ensures IsDigitString(Decimal(n))
  {
  }

  lemma DigitNotSpace(c: char)
    requires IsDigit(c)
    ensures !In(Whitespace, c)
  {
  }

  lemma SignedDecimal(n: nat)
    ensures SignedValue(Decimal(n)) == Some(n)
    ensures SignedValue("-" + Decimal(n)) == Some(-(n as int))
  {
    var d := Decimal(n);
    DigitsOfDecimal(n);
    DecimalIsDigitString(n);
    assert ("-" + d)[1..] == d;
  }

  /** `str(i)` has no surrounding white space. */
  lemma IntTextStripped(i: int)
    ensures Strip(IntText(i), Whitespace) == IntText(i)
  {
    var t := IntText(i);
    var d := Decimal(if i < 0 then -i else i);
    assert t[|t| - 1] == d[|d| - 1];
    DigitNotSpace(d[|d| - 1]);
    if i >= 0 {
      DigitNotSpace(d[0]);
    }
    StripUnchanged(t, Whitespace);
  }

  /** Converting the text of an integer back gives that integer. */
  lemma ParseIntText(i: int)
    ensures ParseInt(IntText(i)) == Some(i)
  {
    IntTextStripped(i);
    SignedDecimal(if i < 0 then -i else i);
  }

  // ---------------------------------------------------------------------
  // One dict entry and the dict

  /** A value with a '.' becomes a float if `parseFloat` (Python's `float`)
      accepts it; one without becomes an int if it is an integer literal; any
      other value stays a string, cut at its first `"::"`. */
  function Convert(v: string, parseFloat: string -> Option<real>): Value {
    if '.' in v then
      match parseFloat(v)
      case Some(x) => RealV(x)
      case None => StrV(Truncate(v))
    else
      match ParseInt(v)
      case Some(n) => IntV(n)
      case None => StrV(Truncate(v))
  }

  /** Only the string branch truncates: a number is never cut, and a string
      value is the text up to its first `"::"`. */
  lemma ConvertSpec(v: string, parseFloat: string -> Option<real>)
    ensures var r := Convert(v, parseFloat);
      && (r.RealV? <==> '.' in v && parseFloat(v).Some?)
      && (r.RealV? ==> r.r == parseFloat(v).value)
      && (r.IntV? <==> '.' !in v && ParseInt(v).Some?)
      && (r.IntV? ==> r.i == ParseInt(v).value)
      && (r.StrV? ==> r.s == Truncate(v))
      && !r.BoolV?
  {
  }

  /** The integer literal of any int converts back to that int. */
  lemma ConvertIntText(i: int, parseFloat: string -> Option<real>)
    ensures Convert(IntText(i), parseFloat) == IntV(i)
  {
    ParseIntText(i);
    var t := IntText(i);
    assert '.' !in t by {
      var m := if i < 0 then -i else i;
      assert i < 0 ==> t[1..] == Decimal(m);
    }
  }

  /** "1e-05" has no '.' and is no integer literal, so it stays a string. */
  lemma ExponentStaysString(parseFloat: string -> Option<real>)
    ensures Convert("1e-05", parseFloat) == StrV("1e-05")
  {
    var v := "1e-05";
    assert !IsDigit(v[1]);
    assert Strip(v, Whitespace) == v by { StripUnchanged(v, Whitespace); }
    assert !HasDoubleColon(v) by {
      forall j | 0 <= j < |v| - 1 ensures !(v[j] == ':' && v[j + 1] == ':') {
        assert v[j] != ':';
      }
    }
  }

  /** The entry one part contributes, or None for a part without ':'. */
  function Entry(part: string, parseFloat: string -> Option<real>): Option<(string, Value)> {
    if ':' in part then
      var kv := SplitFirstColon(part);
      Some((CleanToken(kv.0), Convert(CleanToken(kv.1), parseFloat)))
    else None
  }

  /** The entries of the parts in order, skipping the parts that have none. */
  function Entries(parts: seq<string>, parseFloat: string -> Option<real>): (r: Params)
    ensures |r| <= |parts|
  {
    if parts == [] then []
    else
      var init := Entries(parts[..|parts| - 1], parseFloat);
      match Entry(parts[|parts| - 1], parseFloat)
      case None => init
      case Some(e) => init + [e]
  }

  /** `d[k] = v` on a dict given by its items: the value of an existing key is
      replaced in place; a new key goes at the end. */
  function Put(d: Params, k: string, v: Value): Params {
    if d == [] then [(k, v)]
    else if d[0].0 == k then [(k, v)] + d[1..]
    else [d[0]] + Put(d[1..], k, v)
  }

  lemma HasTail(d: Params, k: string)
    requires d != []
    ensures Has(d, k) <==> d[0].0 == k || Has(d[1..], k)
  {
    if Has(d, k) && d[0].0 != k {
      var i :| 0 <= i < |d| && d[i].0 == k;
      assert d[1..][i - 1].0 == k;
    }
    if Has(d[1..], k) {
      var i :| 0 <= i < |d[1..]| && d[1..][i].0 == k;
      assert d[i + 1].0 == k;
    }
  }

  lemma KeysCons<V>(x: (string, V), s: seq<(string, V)>)
    ensures Keys([x] + s) == [x.0] + Keys(s)
  {
  }

  /** An existing key keeps its position; a new key is appended. */
  lemma {:induction false} PutKeys(d: Params, k: string, v: Value)
    ensures Keys(Put(d, k, v)) == if Has(d, k) then Keys(d) else Keys(d) + [k]
  {
    if d != [] {
      HasTail(d, k);
      assert d == [d[0]] + d[1..];
      KeysCons(d[0], d[1..]);
      if d[0].0 == k {
        KeysCons((k, v), d[1..]);
      } else {
        PutKeys(d[1..], k, v);
        KeysCons(d[0], Put(d[1..], k, v));
      }
    }
  }

  /** Assignment keeps the keys of a dict distinct. */
  lemma PutDistinct(d: Params, k: string, v: Value)
    requires DistinctKeys(d)
    ensures DistinctKeys(Put(d, k, v))
  {
    var r := Put(d, k, v);
    PutKeys(d, k, v);
    assert forall i :: 0 <= i < |r| ==> Keys(r)[i] == r[i].0;
    assert forall i :: 0 <= i < |d| ==> Keys(d)[i] == d[i].0;
    if !Has(d, k) {
      assert forall i :: 0 <= i < |d| ==> d[i].0 != k;
    }
  }

  /** After `d[k] = v`, `k` maps to `v` and every other key keeps its value. */
  lemma {:induction false} GetPut(d: Params, k: string, v: Value, q: string)
    ensures Get(Put(d, k, v), q) == if q == k then Some(v) else Get(d, q)
  {
    if d != [] && d[0].0 != k {
      GetPut(d[1..], k, v, q);
      assert ([d[0]] + Put(d[1..], k, v))[1..] == Put(d[1..], k, v);
    } else if d != [] {
      assert ([(k, v)] + d[1..])[1..] == d[1..];
    }
  }

  /** The dict the parts' entries build, each assignment in turn. */
  function Dict(es: Params): Params {
    if es == [] then [] else Put(Dict(es[..|es| - 1]), es[|es| - 1].0, es[|es| - 1].1)
  }

  /** The value of the last entry for `k`, if any. */
  function LastValue(es: Params, k: string): Option<Value> {
    if es == [] then None
    else if es[|es| - 1].0 == k then Some(es[|es| - 1].1)
    else LastValue(es[..|es| - 1], k)
  }

  /** The dict holds each key once, in order of the key's first entry, and
      maps it to the value of its last entry. */
  lemma {:induction false} DictSpec(es: Params)
    ensures DistinctKeys(Dict(es))
    ensures Keys(Dict(es)) == FirstAppearance(es)
    ensures forall k :: Get(Dict(es), k) == LastValue(es, k)
  {
    if es != [] {
      var init := es[..|es| - 1];
      var e := es[|es| - 1];
      DictSpec(init);
      var d := Dict(init);
      PutKeys(d, e.0, e.1);
      PutDistinct(d, e.0, e.1);
      assert Has(d, e.0) <==> e.0 in FirstAppearance(init) by {
        assert Has(d, e.0) <==> e.0 in Keys(d);
      }
      forall k ensures Get(Dict(es), k) == LastValue(es, k) {
        GetPut(d, e.0, e.1, k);
      }
    }
  }

  /** `parse_params(s)`. */
  function Parse(cell: Cell, parseFloat: string -> Option<real>): Params {
    match cell
    case NotText => []
    case Text(s) => if ':' in s then Dict(Entries(Parts(Clean(s)), parseFloat)) else []
  }

  /** The parsing loop: each part with a ':' assigns one dict entry. */
  method ParseParams(cell: Cell, parseFloat: string -> Option<real>) returns (params: Params)
    ensures params == Parse(cell, parseFloat)
  {
    if cell.NotText? || ':' !in cell.s {
      return [];
    }
    var parts := Parts(Clean(cell.s));
    params := [];
    for n := 0 to |parts|
      invariant params == Dict(Entries(parts[..n], parseFloat))
    {
      EntriesStep(parts, n, parseFloat);
      var part := parts[n];
      if ':' !in part {
        continue;
      }
      var kv := SplitFirstColon(part);
      var k := CleanToken(kv.0);
      var v := CleanToken(kv.1);
      var value: Value;
      if '.' in v {
        match parseFloat(v)
        case Some(x) => value := RealV(x);
        case None => value := StrV(Truncate(v));
      } else {
        match ParseInt(v)
        case Some(i) => value := IntV(i);
        case None => value := StrV(Truncate(v));
      }
      assert value == Convert(v, parseFloat);
      params := Put(params, k, value);
    }
    assert parts[..|parts|] == parts;
  }

  /** One more part assigns its entry, if it has one. */
  lemma EntriesStep(parts: seq<string>, n: nat, parseFloat: string -> Option<real>)
    requires n < |parts|
    ensures var d := Dict(Entries(parts[..n], parseFloat));
      Dict(Entries(parts[..n + 1], parseFloat)) ==
        match Entry(parts[n], parseFloat)
        case None => d
        case Some(e) => Put(d, e.0, e.1)
  {
    assert parts[..n + 1][..n] == parts[..n];
  }

  /** A cell that is no string, or a string without ':', gives the empty dict. */
  lemma ParseEmptyCases(cell: Cell, parseFloat: string -> Option<real>)
    requires cell.NotText? || ':' !in cell.s
    ensures Parse(cell, parseFloat) == []
  {
  }

  /** The parsed dict has each key once, and a key assigned by several parts
      keeps the value of the last of them. */
  lemma ParseSpec(s: string, parseFloat: string -> Option<real>)
    requires ':' in s
    ensures var es := Entries(Parts(Clean(s)), parseFloat);
      var d := Parse(Text(s), parseFloat);
      DistinctKeys(d) && Keys(d) == FirstAppearance(es)
      && forall k :: Get(d, k) == LastValue(es, k)
  {
    DictSpec(Entries(Parts(Clean(s)), parseFloat));
  }

  /** The cleaned text has no newline. */
  lemma CleanHasNoNewline(s: string)
    ensures '\n' !in Clean(s)
  {
  }

  // ---------------------------------------------------------------------
  // Support magnitude

  /** The four support buckets, smallest classes first. */
  datatype Magnitude = Extreme | High | Medium | Low

  function Rank(m: Magnitude): nat {
    match m
    case Extreme => 1
    case High => 2
    case Medium => 3
    case Low => 4
  }

  /** The bucket of a class with `n` test samples. */
  function MagnitudeOf(n: int): (r: Magnitude)
    ensures r == Extreme <==> n <= 10000
    ensures r == High <==> 10000 < n <= 40000
    ensures r == Medium <==> 40000 < n <= 80000
    ensures r == Low <==> 80000 < n
  {
    if n <= 10000 then Extreme
    else if n <= 40000 then High
    else if n <= 80000 then Medium
    else Low
  }

  /** More support never gives a smaller bucket. */
  lemma MagnitudeMonotone(a: int, b: int)
    requires a <= b
    ensures Rank(MagnitudeOf(a)) <= Rank(MagnitudeOf(b))
  {
  }
}
