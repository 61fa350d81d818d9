/** The JavaScript string operations the screens use: `trim`,
    `toLowerCase` (ASCII letters only), `includes`, `split('T')[0]` and the
    decimal rendering of a count in a label. */
module Text {

  /** The code points `String.prototype.trim` removes: the WhiteSpace
      characters (TAB, VT, FF, the Zs space separators, NBSP, BOM) and the
      LineTerminator characters (LF, CR, LS, PS). */
  predicate IsSpace(c: char) {
    c in Spaces
  }

  const Spaces: set<char> := {
    '\t', '\n', '\U{000B}', '\U{000C}', '\r', ' ', '\U{00A0}', '\U{1680}',
    '\U{2000}', '\U{2001}', '\U{2002}', '\U{2003}', '\U{2004}', '\U{2005}',
    '\U{2006}', '\U{2007}', '\U{2008}', '\U{2009}', '\U{200A}',
    '\U{2028}', '\U{2029}', '\U{202F}', '\U{205F}', '\U{3000}', '\U{FEFF}'
  }

  predicate AllSpace(s: string) {
    forall i :: 0 <= i < |s| ==> IsSpace(s[i])
  }

  /** A string after its first space, as a prefix of a given length. */
  lemma AllSpaceFront(s: string, n: nat)
    requires 0 < n <= |s|
    ensures AllSpace(s[..n]) <==> IsSpace(s[0]) && AllSpace(s[1..][..n - 1])
  {
    assert forall i :: 0 < i < n ==> s[..n][i] == s[1..][..n - 1][i - 1];
  }

  lemma AllSpaceSnoc(t: string, c: char)
    ensures AllSpace(t + [c]) <==> AllSpace(t) && IsSpace(c)
  {
    assert (t + [c])[|t|] == c;
    assert forall i :: 0 <= i < |t| ==> (t + [c])[i] == t[i];
  }

  function TrimStart(s: string): (r: string)
    ensures |r| <= |s| && r == s[|s| - |r|..]
    ensures r == [] <==> AllSpace(s)
    ensures r == [] || !IsSpace(r[0])
  {
    if s != [] && IsSpace(s[0]) then TrimStart(s[1..]) else s
  }

  /** What `TrimStart` removes is spaces only. */
  lemma {:induction false} TrimStartDropsSpaces(s: string)
    ensures AllSpace(s[..|s| - |TrimStart(s)|])
  {
    if s != [] && IsSpace(s[0]) {
      var n := |s| - |TrimStart(s)|;
      TrimStartDropsSpaces(s[1..]);
      AllSpaceFront(s, n);
    }
  }

  function TrimEnd(s: string): (r: string)
    ensures |r| <= |s| && r == s[..|r|]
    ensures AllSpace(s[|r|..])
    ensures r == [] <==> AllSpace(s)
    ensures r == [] || !IsSpace(r[|r| - 1])
  {
    if s != [] && IsSpace(s[|s| - 1]) then
      var r := TrimEnd(s[..|s| - 1]);
      assert s == s[..|s| - 1] + [s[|s| - 1]];
      AllSpaceSnoc(s[..|s| - 1], s[|s| - 1]);
      assert s[|r|..] == s[..|s| - 1][|r|..] + [s[|s| - 1]];
      AllSpaceSnoc(s[..|s| - 1][|r|..], s[|s| - 1]);
      r
    else s
  }

  /** Whether `r` is the part of `s` from position `k` on, with only
      spaces before it and after it. */
  predicate SpaceBordered(s: string, r: string, k: int) {
    0 <= k && k + |r| <= |s| && r == s[k..k + |r|] && AllSpace(s[..k]) && AllSpace(s[k + |r|..])
  }

  /** `s.trim()`: the string without its leading and trailing spaces. */
  function Trim(s: string): (r: string)
    ensures |r| <= |s|
    ensures exists k :: SpaceBordered(s, r, k)
    ensures r == [] <==> AllSpace(s)
    ensures r != [] ==> !IsSpace(r[0]) && !IsSpace(r[|r| - 1])
  {
    TrimBordered(s);
    TrimEnd(TrimStart(s))
  }

  /** What the two trims leave sits between a run of spaces and another. */
  lemma TrimBordered(s: string)
    ensures SpaceBordered(s, TrimEnd(TrimStart(s)), |s| - |TrimStart(s)|)
  {
    var u := TrimStart(s);
    TrimStartDropsSpaces(s);
    BorderedWithin(s, u, TrimEnd(u), |s| - |u|);
  }

  /** Spaces cut off the front of `s`, then off the back of what is left. */
  lemma BorderedWithin(s: string, u: string, r: string, k: nat)
    requires k <= |s| && u == s[k..] && AllSpace(s[..k])
    requires |r| <= |u| && r == u[..|r|] && AllSpace(u[|r|..])
    ensures SpaceBordered(s, r, k)
  {
    assert u[..|r|] == s[k..k + |r|];
    assert u[|r|..] == s[k + |r|..];
  }

  /** Trimming an already trimmed string changes nothing. */
  lemma TrimIdempotent(s: string)
    ensures Trim(Trim(s)) == Trim(s)
  {
    var t := Trim(s);
    assert TrimStart(t) == t;
    assert TrimEnd(t) == t;
  }

  /** `c.toLowerCase()` for ASCII letters; every other character is kept. */
  function LowerChar(c: char): (d: char)
    ensures !('A' <= d <= 'Z')
    ensures 'A' <= c <= 'Z' ==> d as int == c as int + 32
    ensures !('A' <= c <= 'Z') ==> d == c
  {
    if 'A' <= c <= 'Z' then (c as int + 32) as char else c
  }

  function ToLower(s: string): (r: string)
    ensures |r| == |s|
    ensures forall i :: 0 <= i < |s| ==> r[i] == LowerChar(s[i])
  {
    seq(|s|, i requires 0 <= i < |s| => LowerChar(s[i]))
  }

  lemma ToLowerIdempotent(s: string)
    ensures ToLower(ToLower(s)) == ToLower(s)
  {
  }

  /** Whether `needle` occurs in `hay` starting at position `k`. */
  predicate OccursAt(hay: string, needle: string, k: int) {
    0 <= k && k + |needle| <= |hay| && hay[k..k + |needle|] == needle
  }

  /** `hay.includes(needle)` */
  function Includes(hay: string, needle: string): (b: bool)
    ensures b <==> exists k :: OccursAt(hay, needle, k)
    decreases |hay|
  {
    if needle <= hay then
      assert OccursAt(hay, needle, 0);
      true
    else if hay == [] then
      false
    else
      var b := Includes(hay[1..], needle);
      assert b ==> exists k :: OccursAt(hay, needle, k) by {
        if b {
          var k :| OccursAt(hay[1..], needle, k);
          assert hay[1..][k..k + |needle|] == hay[k + 1..k + 1 + |needle|];
          assert OccursAt(hay, needle, k + 1);
        }
      }
      assert (exists k :: OccursAt(hay, needle, k)) ==> b by {
        if k :| OccursAt(hay, needle, k) {
          assert k != 0;
          assert hay[1..][k - 1..k - 1 + |needle|] == hay[k..k + |needle|];
          assert OccursAt(hay[1..], needle, k - 1);
        }
      }
      b
  }

  /** `s.split('T')[0]`: everything before the first 'T', or all of `s`. */
  function DatePart(s: string): (r: string)
    ensures r <= s
    ensures 'T' !in r
    ensures |r| < |s| ==> s[|r|] == 'T'
  {
    if s == [] || s[0] == 'T' then [] else [s[0]] + DatePart(s[1..])
  }

  lemma DatePartIdempotent(s: string)
    ensures DatePart(DatePart(s)) == DatePart(s)
  {
    var r := DatePart(s);
    DatePartOfTFree(r);
  }

  lemma {:induction false} DatePartOfTFree(s: string)
    requires 'T' !in s
    ensures DatePart(s) == s
  {
    if s != [] {
      DatePartOfTFree(s[1..]);
    }
  }

  /** The date part is all of `s`, or it is followed by a 'T' in `s`. */
  lemma DatePartShape(s: string)
    ensures DatePart(s) == s || DatePart(s) + "T" <= s
  {
    var r := DatePart(s);
    if |r| < |s| {
      assert r + "T" == s[..|r| + 1];
    }
  }

  /** A date followed by 'T' and a time, or the date alone, cuts back to the date. */
  lemma {:induction false} DatePartOfStamp(d: string, s: string)
    requires 'T' !in d
    requires s == d || d + "T" <= s
    ensures DatePart(s) == d
  {
    if d != [] {
      assert s[0] == d[0];
      assert s[1..] == d[1..] || d[1..] + "T" <= s[1..];
      DatePartOfStamp(d[1..], s[1..]);
    }
  }

  predicate IsDigit(c: char) { '0' <= c <= '9' }

  /** `String(n)` for a count: its decimal digits, most significant first. */
  function Decimal(n: nat): (r: string)
    ensures r != []
    ensures forall i :: 0 <= i < |r| ==> IsDigit(r[i])
    // no leading zero: only the count 0 starts with '0'
    ensures r[0] == '0' <==> n == 0
    ensures n == 0 ==> r == "0"
  {
    var d := ((n % 10) + '0' as int) as char;
    if n < 10 then [d] else Decimal(n / 10) + [d]
  }

  /** The value of a string of decimal digits. */
  function DecimalValue(s: string): nat
    requires forall i :: 0 <= i < |s| ==> IsDigit(s[i])
  {
    if s == [] then 0
    else
      var c := s[|s| - 1];
      assert IsDigit(c);
      DecimalValue(s[..|s| - 1]) * 10 + (c as int - '0' as int)
  }

  /** Reading the rendered digits back gives the count. */
  lemma {:induction false} DecimalRoundTrip(n: nat)
    ensures DecimalValue(Decimal(n)) == n
  {
    var r := Decimal(n);
    if n >= 10 {
      DecimalRoundTrip(n / 10);
      assert r[..|r| - 1] == Decimal(n / 10);
    }
  }

  /** Two counts render alike only if they are equal. */
  lemma DecimalInjective(n: nat, m: nat)
    requires Decimal(n) == Decimal(m)
    ensures n == m
  {
    DecimalRoundTrip(n);
    DecimalRoundTrip(m);
  }

  /** `n === 1 ? 'task' : 'tasks'` */
  function TaskNoun(n: nat): (w: string)
    ensures w == "task" <==> n == 1
    ensures w == "task" || w == "tasks"
  {
    if n == 1 then "task" else "tasks"
  }
}
