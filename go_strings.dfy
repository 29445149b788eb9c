/**
 * The few Go standard-library string operations the modelled code relies on
 * (strconv.Itoa / fmt "%d", strings.IndexByte, strings.Index, strings.Contains,
 * strings.Split, strings.Join and strings.TrimSpace), over `seq<char>`.
 */
module GoStrings {

  // ---------------------------------------------------------------------------
  // Decimal rendering (strconv.Itoa, fmt.Sprintf("%d", ...))
  // ---------------------------------------------------------------------------

  predicate IsDigit(c: char) { '0' <= c <= '9' }

  predicate AllDigits(s: string) { forall k :: 0 <= k < |s| ==> IsDigit(s[k]) }

  function DigitChar(d: nat): (c: char)
    requires d < 10
    ensures IsDigit(c)
  {
    (48 + d) as char
  }

  function DigitValue(c: char): (d: nat)
    requires IsDigit(c)
    ensures d < 10
  {
    (c as int) - 48
  }

  /** The decimal digits of `n`, most significant first, without leading zeros. */
  function NatToDecimal(n: nat): (s: string)
    ensures |s| > 0 && AllDigits(s)
    ensures s[0] == '0' ==> n == 0
  {
    if n < 10 then [DigitChar(n)] else NatToDecimal(n / 10) + [DigitChar(n % 10)]
  }

  /** Reads a string of decimal digits back as a number. */
  function DecimalToNat(s: string): nat
    requires AllDigits(s)
  {
    if |s| == 0 then 0 else DecimalToNat(s[..|s| - 1]) * 10 + DigitValue(s[|s| - 1])
  }

  /** Decimal rendering is inverted by decimal parsing. */
  lemma {:induction false} DecimalRoundTrip(n: nat)
    ensures DecimalToNat(NatToDecimal(n)) == n
  {
    if n >= 10 {
      var s := NatToDecimal(n);
      var prefix := NatToDecimal(n / 10);
      assert s == prefix + [DigitChar(n % 10)];
      assert s[..|s| - 1] == prefix;
      DecimalRoundTrip(n / 10);
    }
  }

  /** strconv.Itoa: a minus sign for negative values, then the digits. */
  function IntToDecimal(i: int): (s: string)
    ensures |s| > 0
    ensures i >= 0 ==> AllDigits(s)
    ensures i < 0 ==> s[0] == '-' && AllDigits(s[1..])
  {
    if i >= 0 then NatToDecimal(i) else "-" + NatToDecimal(-i)
  }

  /** Distinct integers have distinct decimal renderings. */
  lemma IntToDecimalInjective(a: int, b: int)
    requires IntToDecimal(a) == IntToDecimal(b)
    ensures a == b
  {
    if a >= 0 && b >= 0 {
      DecimalRoundTrip(a);
      DecimalRoundTrip(b);
    } else if a < 0 && b < 0 {
      assert NatToDecimal(-a) == IntToDecimal(a)[1..];
      assert NatToDecimal(-b) == IntToDecimal(b)[1..];
      DecimalRoundTrip(-a);
      DecimalRoundTrip(-b);
    }
  }

  // ---------------------------------------------------------------------------
  // Searching (strings.IndexByte, strings.Index, strings.Contains)
  // ---------------------------------------------------------------------------

  /** strings.IndexByte: the first index of `c` in `s`, or -1. */
  function IndexOfChar(s: string, c: char): (r: int)
    ensures -1 <= r < |s|
    ensures r == -1 <==> c !in s
    ensures r >= 0 ==> s[r] == c && c !in s[..r]
  {
    if |s| == 0 then -1
    else if s[0] == c then 0
    else
      var k := IndexOfChar(s[1..], c);
      if k < 0 then -1 else assert s[..k + 1] == [s[0]] + s[1..][..k]; k + 1
  }

  predicate OccursAt(s: string, p: string, i: int)
  {
    0 <= i && i + |p| <= |s| && s[i..i + |p|] == p
  }

  /** strings.Index: the first position at which `p` occurs in `s`, or -1. */
  function IndexOf(s: string, p: string): (r: int)
    ensures -1 <= r <= |s|
    ensures r >= 0 ==> OccursAt(s, p, r)
    ensures r >= 0 ==> forall k :: 0 <= k < r ==> !OccursAt(s, p, k)
    ensures r == -1 ==> forall k :: 0 <= k <= |s| ==> !OccursAt(s, p, k)
    decreases |s|
  {
    if |p| > |s| then -1
    else if s[..|p|] == p then 0
    else
      var k := IndexOf(s[1..], p);
      ShiftOccurs(s, p);
      assert !OccursAt(s, p, 0);
      assert forall j :: 1 <= j <= |s| ==> (OccursAt(s, p, j) <==> OccursAt(s[1..], p, j - 1));
      if k < 0 then -1 else k + 1
  }

  /** Occurrences in `s[1..]` are the occurrences in `s` shifted by one. */
  lemma ShiftOccurs(s: string, p: string)
    requires |s| > 0
    ensures forall k :: 0 <= k ==> (OccursAt(s[1..], p, k) <==> OccursAt(s, p, k + 1))
  {
    forall k | 0 <= k
      ensures OccursAt(s[1..], p, k) <==> OccursAt(s, p, k + 1)
    {
      if k + |p| <= |s| - 1 {
        assert s[1..][k..k + |p|] == s[k + 1..k + 1 + |p|];
      }
    }
  }

  /** strings.Contains. */
  predicate Contains(s: string, p: string)
  {
    IndexOf(s, p) >= 0
  }

  // ---------------------------------------------------------------------------
  // Splitting and joining on one character (strings.Split, strings.Join)
  // ---------------------------------------------------------------------------

  /** strings.Split with a one-character separator: never empty, no piece holds `sep`. */
  function Split(s: string, sep: char): (r: seq<string>)
    ensures |r| >= 1
    ensures forall k :: 0 <= k < |r| ==> sep !in r[k]
    ensures sep !in s ==> r == [s]
    ensures sep in s ==> r[0] == s[..IndexOfChar(s, sep)]
    decreases |s|
  {
    var i := IndexOfChar(s, sep);
    if i < 0 then [s] else [s[..i]] + Split(s[i + 1..], sep)
  }

  /** strings.Join. */
  function Join(pieces: seq<string>, sep: char): string
  {
    if |pieces| == 0 then ""
    else if |pieces| == 1 then pieces[0]
    else pieces[0] + [sep] + Join(pieces[1..], sep)
  }

  lemma JoinCons(head: string, rest: seq<string>, sep: char)
    requires |rest| >= 1
    ensures Join([head] + rest, sep) == head + [sep] + Join(rest, sep)
  {
    assert ([head] + rest)[1..] == rest;
  }

  /** Splitting and joining again gives back the original text. */
  lemma {:induction false} JoinSplit(s: string, sep: char)
    ensures Join(Split(s, sep), sep) == s
    decreases |s|
  {
    var i := IndexOfChar(s, sep);
    if i >= 0 {
      var tail := s[i + 1..];
      JoinSplit(tail, sep);
      JoinCons(s[..i], Split(tail, sep), sep);
      Around(s, i);
    }
  }

  lemma Around(s: string, i: nat)
    requires i < |s|
    ensures s == s[..i] + [s[i]] + s[i + 1..]
  {
    assert forall k | 0 <= k < |s| :: s[k] == (s[..i] + [s[i]] + s[i + 1..])[k];
  }

  // ---------------------------------------------------------------------------
  // strings.TrimSpace
  // ---------------------------------------------------------------------------

  /** unicode.IsSpace. */
  predicate IsSpace(c: char)
  {
    var x := c as int;
    x == 0x20 || (0x09 <= x <= 0x0D) || x == 0x85 || x == 0xA0 || x == 0x1680
    || (0x2000 <= x <= 0x200A) || x == 0x2028 || x == 0x2029 || x == 0x202F
    || x == 0x205F || x == 0x3000
  }

  function TrimLeft(s: string): (r: string)
    ensures |r| <= |s| && r == s[|s| - |r|..]
    ensures forall k :: 0 <= k < |s| - |r| ==> IsSpace(s[k])
    ensures |r| > 0 ==> !IsSpace(r[0])
  {
    if |s| > 0 && IsSpace(s[0]) then TrimLeft(s[1..]) else s
  }

  function TrimRight(s: string): (r: string)
    ensures |r| <= |s| && r == s[..|r|]
    ensures forall k :: |r| <= k < |s| ==> IsSpace(s[k])
    ensures |r| > 0 ==> !IsSpace(r[|r| - 1])
  {
    if |s| > 0 && IsSpace(s[|s| - 1]) then TrimRight(s[..|s| - 1]) else s
  }

  /**
   * strings.TrimSpace: `s` without its leading and trailing white space. The
   * result is a contiguous part of `s` whose ends are not white space.
   */
  function TrimSpace(s: string): (r: string)
    ensures |r| <= |s|
    ensures |r| > 0 ==> !IsSpace(r[0]) && !IsSpace(r[|r| - 1])
    ensures (forall k :: 0 <= k < |s| ==> IsSpace(s[k])) <==> r == ""
  {
    var left := TrimLeft(s);
    var r := TrimRight(left);
    assert |r| > 0 ==> r[0] == left[0];
    TrimmedEmptyMeansSpaces(s, left, r);
    r
  }

  /** TrimSpace only removes white space from the two ends of `s`. */
  lemma TrimSpaceIsSlice(s: string)
    ensures TrimmedSlice(s, TrimSpace(s))
  {
    TrimmedIsSlice(s, TrimLeft(s), TrimRight(TrimLeft(s)));
  }

  /** Every character of `s` before `i` and from `j` on is white space. */
  predicate SpaceOutside(s: string, i: int, j: int)
  {
    (forall k | 0 <= k < i && k < |s| :: IsSpace(s[k])) && (forall k | 0 <= j <= k < |s| :: IsSpace(s[k]))
  }

  /** `r` is a contiguous part of `s` with only white space around it. */
  predicate TrimmedSlice(s: string, r: string)
  {
    exists i, j | 0 <= i <= j <= |s| :: r == s[i..j] && SpaceOutside(s, i, j)
  }

  lemma TrimmedIsSlice(s: string, left: string, r: string)
    requires |left| <= |s| && left == s[|s| - |left|..]
    requires forall k :: 0 <= k < |s| - |left| ==> IsSpace(s[k])
    requires |r| <= |left| && r == left[..|r|]
    requires forall k :: |r| <= k < |left| ==> IsSpace(left[k])
    ensures TrimmedSlice(s, r)
  {
    var i, j := |s| - |left|, |s| - |left| + |r|;
    assert left == s[i..];
    forall k | 0 <= k < |r|
      ensures r[k] == s[i + k]
    {
      assert r[k] == left[k];
    }
    assert r == s[i..j];
    forall k | 0 <= j <= k < |s|
      ensures IsSpace(s[k])
    {
      assert s[k] == left[k - i];
    }
    assert SpaceOutside(s, i, j);
  }


  lemma TrimmedEmptyMeansSpaces(s: string, left: string, r: string)
    requires left == TrimLeft(s) && r == TrimRight(left)
    ensures r == "" ==> forall k :: 0 <= k < |s| ==> IsSpace(s[k])
  {
    if r == "" {
      assert left == "";
    }
  }
}
