/**
 * String helpers shared by the Swift and Python halves: decimal formatting and
 * parsing, ASCII case mapping, whitespace stripping, splitting and joining.
 * Strings are sequences of characters; only the ASCII behaviour of the
 * platforms' Unicode-aware operations is modelled.
 */
module Text {
  import opened Wrappers

  // ---------------------------------------------------------------------------
  // Decimal numerals (Swift string interpolation of an Int, Python str(int))

  predicate IsDigit(c: char) {
    '0' <= c <= '9'
  }

  function DigitChar(d: nat): (c: char)
    requires d < 10
    ensures IsDigit(c)
  {
    ['0', '1', '2', '3', '4', '5', '6', '7', '8', '9'][d]
  }

  function DigitValue(c: char): (d: nat)
    requires IsDigit(c)
    ensures d < 10 && DigitChar(d) == c
  {
    (c as int - '0' as int) as nat
  }

  /** The shortest decimal numeral of n, most significant digit first. */
  function NatToDecimal(n: nat): (s: string)
    ensures |s| >= 1 && forall i :: 0 <= i < |s| ==> IsDigit(s[i])
    ensures |s| > 1 ==> s[0] != '0'
  {
    if n < 10 then [DigitChar(n)] else NatToDecimal(n / 10) + [DigitChar(n % 10)]
  }

  /** Decimal text of an integer, with a leading '-' when negative. */
  function IntToDecimal(i: int): (s: string)
    ensures i >= 0 ==> s == NatToDecimal(i)
    ensures i < 0 ==> s == "-" + NatToDecimal(-i)
  {
    if i >= 0 then NatToDecimal(i) else "-" + NatToDecimal(-i)
  }

  predicate AllDigits(s: string) {
    forall i :: 0 <= i < |s| ==> IsDigit(s[i])
  }

  /** The value of a non-empty string of ASCII digits, or None. */
  function ParseDigits(s: string): (r: Option<nat>)
    ensures r.Some? <==> |s| >= 1 && AllDigits(s)
  {
    if s == [] || !IsDigit(s[|s| - 1]) then None
    else if |s| == 1 then Some(DigitValue(s[0]))
    else
      match ParseDigits(s[..|s| - 1])
      case None => None
      case Some(v) => Some(v * 10 + DigitValue(s[|s| - 1]))
  }

  lemma {:induction false} ParseNatToDecimal(n: nat)
    ensures ParseDigits(NatToDecimal(n)) == Some(n)
  {
    if n >= 10 {
      var s := NatToDecimal(n);
      assert s[..|s| - 1] == NatToDecimal(n / 10);
      ParseNatToDecimal(n / 10);
      assert DigitValue(s[|s| - 1]) == n % 10;
    }
  }

  /** Reading back a signed numeral: the digits after an optional '-' parse to the magnitude. */
  lemma IntToDecimalParses(i: int)
    ensures i >= 0 ==> ParseDigits(IntToDecimal(i)) == Some(i)
    ensures i < 0 ==> IntToDecimal(i)[0] == '-' && ParseDigits(IntToDecimal(i)[1..]) == Some(-i)
  {
    if i >= 0 {
      ParseNatToDecimal(i);
    } else {
      ParseNatToDecimal(-i);
      assert IntToDecimal(i)[1..] == NatToDecimal(-i);
    }
  }

  lemma NatToDecimalInjective(m: nat, n: nat)
    requires NatToDecimal(m) == NatToDecimal(n)
    ensures m == n
  {
    ParseNatToDecimal(m);
    ParseNatToDecimal(n);
  }

  lemma IntToDecimalInjective(i: int, j: int)
    requires IntToDecimal(i) == IntToDecimal(j)
    ensures i == j
  {
    var s, t := IntToDecimal(i), IntToDecimal(j);
    if i >= 0 && j >= 0 {
      NatToDecimalInjective(i, j);
    } else if i < 0 && j < 0 {
      assert s[1..] == NatToDecimal(-i) && t[1..] == NatToDecimal(-j);
      NatToDecimalInjective(-i, -j);
    }
  }

  // ---------------------------------------------------------------------------
  // ASCII case mapping

  function UpperChar(c: char): char {
    if 'a' <= c <= 'z' then (c as int - 32) as char else c
  }

  function LowerChar(c: char): char {
    if 'A' <= c <= 'Z' then (c as int + 32) as char else c
  }

  function Upper(s: string): (r: string)
    ensures |r| == |s| && forall i :: 0 <= i < |s| ==> r[i] == UpperChar(s[i])
  {
    seq(|s|, i requires 0 <= i < |s| => UpperChar(s[i]))
  }

  function Lower(s: string): (r: string)
    ensures |r| == |s| && forall i :: 0 <= i < |s| ==> r[i] == LowerChar(s[i])
  {
    seq(|s|, i requires 0 <= i < |s| => LowerChar(s[i]))
  }

  // ---------------------------------------------------------------------------
  // Stripping (Python str.strip)

  /** The ASCII characters for which Python's str.isspace holds. */
  const Whitespace: set<char> :=
    {' ', '\t', '\n', '\r', '\U{000B}', '\U{000C}', '\U{001C}', '\U{001D}', '\U{001E}', '\U{001F}'}

  function StripLeft(s: string, drop: set<char>): (r: string)
    ensures |r| <= |s| && r == s[|s| - |r|..]
    ensures r != [] ==> r[0] !in drop
    ensures forall i :: 0 <= i < |s| - |r| ==> s[i] in drop
  {
    if s != [] && s[0] in drop then StripLeft(s[1..], drop) else s
  }

  function StripRight(s: string, drop: set<char>): (r: string)
    ensures |r| <= |s| && r == s[..|r|]
    ensures r != [] ==> r[|r| - 1] !in drop
    ensures forall i :: |r| <= i < |s| ==> s[i] in drop
  {
    if s != [] && s[|s| - 1] in drop then StripRight(s[..|s| - 1], drop) else s
  }

  /** Python's s.strip(chars): drop leading and trailing characters of the set. */
  function Strip(s: string, drop: set<char>): (r: string)
    ensures r != [] ==> r[0] !in drop && r[|r| - 1] !in drop
  {
    StripRight(StripLeft(s, drop), drop)
  }

  /**
   * The stripped text is a slice of `s` with only characters of the set cut off on
   * either side; with the first clause of `Strip`'s contract this fixes it.
   */
  lemma StripExactly(s: string, drop: set<char>)
    ensures exists i, j ::
      && 0 <= i <= j <= |s| && Strip(s, drop) == s[i..j]
      && (forall k :: 0 <= k < i ==> s[k] in drop)
      && (forall k :: j <= k < |s| ==> s[k] in drop)
  {
    var left := StripLeft(s, drop);
    var i := |s| - |left|;
    var r := StripRight(left, drop);
    SuffixPrefix(s, i, |r|);
    assert Strip(s, drop) == s[i..i + |r|];
  }

  /** A prefix of a suffix is a slice, and the rest of the suffix is the rest of the text. */
  lemma SuffixPrefix(s: string, i: int, n: int)
    requires 0 <= i && 0 <= n && i + n <= |s|
    ensures s[i..][..n] == s[i..i + n]
    ensures forall k :: i + n <= k < |s| ==> s[k] == s[i..][k - i]
  {
  }

  /** Python's s.strip() with no argument. */
  function StripSpace(s: string): string {
    Strip(s, Whitespace)
  }

  lemma StripIdentity(s: string, drop: set<char>)
    requires s != [] ==> s[0] !in drop && s[|s| - 1] !in drop
    ensures Strip(s, drop) == s
  {
  }

  // ---------------------------------------------------------------------------
  // Joining and splitting

  /** Python's sep.join(parts). */
  function Join(sep: string, parts: seq<string>): string {
    if |parts| == 0 then ""
    else if |parts| == 1 then parts[0]
    else parts[0] + sep + Join(sep, parts[1..])
  }

  /** Python's "".join(parts). */
  function Concat(parts: seq<string>): (r: string)
    ensures (forall i :: 0 <= i < |parts| ==> |parts[i]| == 1) ==> |r| == |parts|
  {
    if parts == [] then "" else parts[0] + Concat(parts[1..])
  }

  lemma ConcatSingles(parts: seq<string>, i: nat)
    requires forall k :: 0 <= k < |parts| ==> |parts[k]| == 1
    requires i < |parts|
    ensures Concat(parts)[i] == parts[i][0]
  {
    if i > 0 {
      ConcatSingles(parts[1..], i - 1);
    }
  }

  function IndexOf(s: string, c: char): (r: nat)
    ensures r <= |s| && (r < |s| ==> s[r] == c)
    ensures forall i :: 0 <= i < r ==> s[i] != c
  {
    if s == [] then 0 else if s[0] == c then 0 else 1 + IndexOf(s[1..], c)
  }

  /** Python's s.split(sep) for a one-character separator. */
  function Split(s: string, sep: char): (parts: seq<string>)
    ensures |parts| >= 1
    ensures forall k :: 0 <= k < |parts| ==> sep !in parts[k]
    decreases |s|
  {
    var i := IndexOf(s, sep);
    if i == |s| then [s] else [s[..i]] + Split(s[i + 1..], sep)
  }

  /** Splitting into exactly two parts means exactly one separator, between them. */
  lemma {:induction false} SplitTwo(s: string, sep: char)
    ensures |Split(s, sep)| == 2 <==>
      exists i :: 0 <= i < |s| && s[i] == sep && sep !in s[..i] && sep !in s[i + 1..]
    ensures |Split(s, sep)| == 2 ==> s == Split(s, sep)[0] + [sep] + Split(s, sep)[1]
  {
    var i := IndexOf(s, sep);
    if i < |s| {
      var rest := s[i + 1..];
      var j := IndexOf(rest, sep);
      assert s[..i] + [sep] + rest == s;
      if j == |rest| {
        assert Split(rest, sep) == [rest];
      } else {
        assert |Split(s, sep)| > 2;
        forall k | 0 <= k < |s| && s[k] == sep && sep !in s[..k]
          ensures sep in s[k + 1..]
        {
          assert k == i;
          assert s[k + 1..][j] == sep;
        }
      }
    } else {
      assert sep !in s;
    }
  }

  /** A character that is in neither the separator nor any part is not in the joined text. */
  lemma {:induction false} JoinAvoids(sep: string, parts: seq<string>, c: char)
    requires c !in sep && forall k :: 0 <= k < |parts| ==> c !in parts[k]
    ensures c !in Join(sep, parts)
  {
    if |parts| > 1 {
      JoinAvoids(sep, parts[1..], c);
    }
  }

  /** Splitting the join of separator-free parts at the separator gives the parts back. */
  lemma {:induction false} SplitJoin(parts: seq<string>, sep: char)
    requires |parts| >= 1 && forall k :: 0 <= k < |parts| ==> sep !in parts[k]
    ensures Split(Join([sep], parts), sep) == parts
  {
    if |parts| > 1 {
      var rest := Join([sep], parts[1..]);
      assert Join([sep], parts) == parts[0] + [sep] + rest;
      SplitCons(parts[0], sep, rest);
      SplitJoin(parts[1..], sep);
      assert parts == [parts[0]] + parts[1..];
    }
  }

  /** A separator-free part followed by the separator splits off as the first part. */
  lemma SplitCons(a: string, sep: char, b: string)
    requires sep !in a
    ensures Split(a + [sep] + b, sep) == [a] + Split(b, sep)
  {
    var s := a + [sep] + b;
    IndexOfFirst(a, sep, b);
    assert s[..|a|] == a && s[|a| + 1..] == b;
  }

  lemma {:induction false} IndexOfFirst(a: string, c: char, b: string)
    requires c !in a
    ensures IndexOf(a + [c] + b, c) == |a|
  {
    if a != [] {
      IndexOfFirst(a[1..], c, b);
      assert (a + [c] + b)[1..] == a[1..] + [c] + b;
    }
  }

  // ---------------------------------------------------------------------------
  // Lines (Python str.splitlines and the "one word per line" file text)

  /** The line boundaries of Python's str.splitlines that are ASCII or common Unicode separators. */
  predicate IsLineBreak(c: char) {
    c in {'\n', '\r', '\U{000B}', '\U{000C}', '\U{001C}', '\U{001D}', '\U{001E}', '\U{0085}', '\U{2028}', '\U{2029}'}
  }

  function LineEnd(s: string): (r: nat)
    ensures r <= |s| && (r < |s| ==> IsLineBreak(s[r]))
    ensures forall i :: 0 <= i < r ==> !IsLineBreak(s[i])
  {
    if s == [] || IsLineBreak(s[0]) then 0 else 1 + LineEnd(s[1..])
  }

  /** Python's s.splitlines(): "\r\n" is one boundary and a final boundary adds no empty line. */
  function SplitLines(s: string): seq<string>
    decreases |s|
  {
    if s == [] then []
    else
      var i := LineEnd(s);
      if i == |s| then [s]
      else
        var next := if s[i] == '\r' && i + 1 < |s| && s[i + 1] == '\n' then i + 2 else i + 1;
        [s[..i]] + SplitLines(s[next..])
  }

  predicate NoLineBreak(line: string) {
    forall i :: 0 <= i < |line| ==> !IsLineBreak(line[i])
  }

  /** The text a list of lines is written as: "\n".join(lines), plus "\n" when there are lines. */
  function LinesText(lines: seq<string>): (text: string)
    ensures lines == [] <==> text == ""
  {
    Join("\n", lines) + (if lines == [] then "" else "\n")
  }

  lemma LinesTextCons(lines: seq<string>)
    requires lines != []
    ensures LinesText(lines) == lines[0] + "\n" + LinesText(lines[1..])
  {
  }

  /** Reading back the written text gives the same lines. */
  lemma {:induction false} SplitLinesText(lines: seq<string>)
    requires forall k :: 0 <= k < |lines| ==> NoLineBreak(lines[k])
    ensures SplitLines(LinesText(lines)) == lines
  {
    if lines != [] {
      var s := LinesText(lines);
      var rest := LinesText(lines[1..]);
      LinesTextCons(lines);
      assert s == lines[0] + ("\n" + rest);
      var i := LineEnd(s);
      assert s[|lines[0]|] == '\n';
      assert i == |lines[0]|;
      assert s[..i] == lines[0];
      assert s[i + 1..] == rest;
      SplitLinesText(lines[1..]);
    }
  }
}
