/** The parts of Go's `strings` and `fmt` packages that the certificate code
    relies on, over strings as sequences of Unicode scalar values. */
module Text {

  /** The white space `unicode.IsSpace` recognises: the ASCII controls
      U+0009..U+000D, space, U+0085, U+00A0 and the other White_Space code points. */
  const Spaces: set<char> :=
    {'\t', '\n', 11 as char, 12 as char, '\r', ' ', 0x85 as char, 0xA0 as char,
     0x1680 as char, 0x2000 as char, 0x2001 as char, 0x2002 as char, 0x2003 as char,
     0x2004 as char, 0x2005 as char, 0x2006 as char, 0x2007 as char, 0x2008 as char,
     0x2009 as char, 0x200A as char, 0x2028 as char, 0x2029 as char, 0x202F as char,
     0x205F as char, 0x3000 as char}

  /** `strings.TrimLeft(s, cutset)`: drops every leading character that belongs to
      the cut set (a set of characters, not a prefix). */
  function TrimLeftSet(s: string, cut: set<char>): (r: string)
    ensures |r| <= |s|
  {
    if s != [] && s[0] in cut then TrimLeftSet(s[1..], cut) else s
  }

  /** TrimLeftSet keeps a suffix, drops only cut characters, and stops at the first
      character outside the cut set. */
  lemma {:induction false} TrimLeftSetSuffix(s: string, cut: set<char>)
    ensures var r := TrimLeftSet(s, cut);
      && r == s[|s| - |r|..]
      && (r != [] ==> r[0] !in cut)
      && forall i :: 0 <= i < |s| - |r| ==> s[i] in cut
  {
    if s != [] && s[0] in cut {
      TrimLeftSetSuffix(s[1..], cut);
      assert forall i :: 1 <= i < |s| ==> s[i] == s[1..][i - 1];
    }
  }

  /** `strings.TrimRight(s, cutset)`: drops every trailing character of the cut set. */
  function TrimRightSet(s: string, cut: set<char>): (r: string)
    ensures |r| <= |s|
  {
    if s != [] && s[|s| - 1] in cut then TrimRightSet(s[..|s| - 1], cut) else s
  }

  /** TrimRightSet keeps a prefix, drops only cut characters, and stops at the last
      character outside the cut set. */
  lemma {:induction false} TrimRightSetPrefix(s: string, cut: set<char>)
    ensures var r := TrimRightSet(s, cut);
      && r == s[..|r|]
      && (r != [] ==> r[|r| - 1] !in cut)
      && forall i :: |r| <= i < |s| ==> s[i] in cut
  {
    if s != [] && s[|s| - 1] in cut {
      TrimRightSetPrefix(s[..|s| - 1], cut);
    }
  }

  /** `strings.TrimSpace`: drops leading and trailing white space. */
  function TrimSpace(s: string): (r: string)
    ensures |r| <= |s|
    ensures r != [] ==> r[0] !in Spaces && r[|r| - 1] !in Spaces
  {
    if s != [] && s[0] in Spaces then TrimSpace(s[1..])
    else
      TrimRightSetPrefix(s, Spaces);
      TrimRightSet(s, Spaces)
  }

  function LowerChar(c: char): char
  {
    if 'A' <= c <= 'Z' then (c as int - 'A' as int + 'a' as int) as char else c
  }

  /** `strings.ToLower`, restricted to the ASCII letters. */
  function ToLower(s: string): (r: string)
    ensures |r| == |s|
    ensures forall i :: 0 <= i < |s| ==> r[i] == LowerChar(s[i])
  {
    seq(|s|, i requires 0 <= i < |s| => LowerChar(s[i]))
  }

  /** `strings.Split(s, sep)` for a one-character separator: the pieces between
      separators, so a string with k separators gives k + 1 pieces. */
  function Split(s: string, sep: char): (parts: seq<string>)
    ensures |parts| >= 1
    ensures forall i :: 0 <= i < |parts| ==> sep !in parts[i]
    ensures Join(parts, [sep]) == s
  {
    if s == [] then [[]]
    else
      var rest := Split(s[1..], sep);
      if s[0] == sep then [[]] + rest
      else [[s[0]] + rest[0]] + rest[1..]
  }

  /** `strings.Join(parts, sep)`. */
  function Join(parts: seq<string>, sep: string): string
  {
    if |parts| == 0 then ""
    else if |parts| == 1 then parts[0]
    else parts[0] + sep + Join(parts[1..], sep)
  }

  lemma {:induction false} SplitNoSeparator(p: string, sep: char)
    requires sep !in p
    ensures Split(p, sep) == [p]
  {
    if p != [] {
      SplitNoSeparator(p[1..], sep);
      assert [p[0]] + p[1..] == p;
    }
  }

  lemma {:induction false} SplitAtSeparator(p: string, rest: string, sep: char)
    requires sep !in p
    ensures Split(p + [sep] + rest, sep) == [p] + Split(rest, sep)
  {
    var s := p + [sep] + rest;
    if p == [] {
      assert s[1..] == rest;
    } else {
      assert s[1..] == p[1..] + [sep] + rest;
      SplitAtSeparator(p[1..], rest, sep);
      assert [p[0]] + p[1..] == p;
    }
  }

  /** Splitting a join of separator-free pieces gives the pieces back: together
      with Split's own contract, Split and Join are inverse to each other. */
  lemma {:induction false} SplitJoin(parts: seq<string>, sep: char)
    requires |parts| >= 1
    requires forall i :: 0 <= i < |parts| ==> sep !in parts[i]
    ensures Split(Join(parts, [sep]), sep) == parts
  {
    if |parts| == 1 {
      SplitNoSeparator(parts[0], sep);
    } else {
      SplitJoin(parts[1..], sep);
      SplitAtSeparator(parts[0], Join(parts[1..], [sep]), sep);
      assert [parts[0]] + parts[1..] == parts;
    }
  }

  function DigitChar(d: nat): (c: char)
    requires d < 10
  {
    ('0' as int + d) as char
  }

  predicate IsDecimal(s: string)
  {
    s != [] && forall i :: 0 <= i < |s| ==> '0' <= s[i] <= '9'
  }

  /** `fmt.Sprintf("%d", n)` for a non-negative n. */
  function Decimal(n: nat): (r: string)
    ensures IsDecimal(r)
    ensures |r| > 1 ==> r[0] != '0'
  {
    if n < 10 then [DigitChar(n)] else Decimal(n / 10) + [DigitChar(n % 10)]
  }

  function DecimalValue(s: string): nat
    requires forall i :: 0 <= i < |s| ==> '0' <= s[i] <= '9'
  {
    if s == [] then 0
    else DecimalValue(s[..|s| - 1]) * 10 + (s[|s| - 1] as int - '0' as int)
  }

  lemma {:induction false} DecimalRoundTrip(n: nat)
    ensures DecimalValue(Decimal(n)) == n
  {
    var r := Decimal(n);
    if n >= 10 {
      DecimalRoundTrip(n / 10);
      assert r[..|r| - 1] == Decimal(n / 10);
    }
  }

  /** `fmt.Sprint` of a boolean. */
  function BoolText(b: bool): string
  {
    if b then "true" else "false"
  }
}
