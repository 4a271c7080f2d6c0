/** The string operations the collector relies on, on `seq<char>`:
    `str.lower()` (ASCII only), the `in` substring test, `", ".join(...)`
    with the split that undoes it, and the decimal text of an integer as an
    f-string renders it. */
module Text {

  // ---------------------------------------------------------------------------
  // Lower-casing
  // ---------------------------------------------------------------------------

  predicate IsUpper(c: char) {
    'A' <= c <= 'Z'
  }

  /** `c.lower()` restricted to ASCII: only 'A'..'Z' change. */
  function LowerChar(c: char): (r: char)
    ensures !IsUpper(r)
    ensures !IsUpper(c) ==> r == c
    ensures IsUpper(c) ==> r as int == c as int + 32
  {
    if IsUpper(c) then (c as int + 32) as char else c
  }

  /** `s.lower()` with ASCII case folding. */
  function Lower(s: string): (r: string)
    ensures |r| == |s|
    ensures forall i :: 0 <= i < |s| ==> r[i] == LowerChar(s[i])
  {
    if s == [] then [] else [LowerChar(s[0])] + Lower(s[1..])
  }

  /** Lower-casing twice is lower-casing once. */
  lemma LowerIdempotent(s: string)
    ensures Lower(Lower(s)) == Lower(s)
  {
    assert forall i :: 0 <= i < |s| ==> Lower(Lower(s))[i] == Lower(s)[i];
  }

  /** A string with no upper-case letter is its own lower-case form. */
  lemma LowerOfLowerCase(s: string)
    requires NoUpper(s)
    ensures Lower(s) == s
  {
    assert forall i :: 0 <= i < |s| ==> Lower(s)[i] == s[i];
  }

  /** ASCII upper-casing of one character, used to state case-insensitivity. */
  function UpperChar(c: char): char {
    if 'a' <= c <= 'z' then (c as int - 32) as char else c
  }

  function Upper(s: string): (r: string)
    ensures |r| == |s|
    ensures forall i :: 0 <= i < |s| ==> r[i] == UpperChar(s[i])
  {
    if s == [] then [] else [UpperChar(s[0])] + Upper(s[1..])
  }

  /** Upper-casing first changes nothing once the result is lower-cased. */
  lemma LowerOfUpper(s: string)
    ensures Lower(Upper(s)) == Lower(s)
  {
    assert forall i :: 0 <= i < |s| ==> Lower(Upper(s))[i] == Lower(s)[i];
  }

  predicate NoUpper(s: string) {
    forall i :: 0 <= i < |s| ==> !IsUpper(s[i])
  }

  // ---------------------------------------------------------------------------
  // Substring test
  // ---------------------------------------------------------------------------

  /** `p` occurs in `s` starting at index `i`. */
  ghost predicate OccursAt(s: string, p: string, i: int) {
    0 <= i && i + |p| <= |s| && s[i..i + |p|] == p
  }

  /** Python's `p in s` on strings: `p` is a contiguous block of `s`
      (the empty string is in every string). */
  function Contains(s: string, p: string): bool
    decreases |s|
  {
    if |p| > |s| then false
    else if s[..|p|] == p then true
    else Contains(s[1..], p)
  }

  /** The recursive test agrees with the definition "occurs at some index". */
  lemma {:induction false} ContainsIffOccurs(s: string, p: string)
    ensures Contains(s, p) <==> exists i :: OccursAt(s, p, i)
    decreases |s|
  {
    if |p| > |s| {
    } else if s[..|p|] == p {
      assert OccursAt(s, p, 0);
    } else {
      ContainsIffOccurs(s[1..], p);
      if Contains(s[1..], p) {
        var i :| OccursAt(s[1..], p, i);
        assert s[1..][i..i + |p|] == s[i + 1..i + 1 + |p|];
        assert OccursAt(s, p, i + 1);
      }
      if exists i :: OccursAt(s, p, i) {
        var i :| OccursAt(s, p, i);
        assert i != 0;
        assert s[1..][i - 1..i - 1 + |p|] == s[i..i + |p|];
        assert OccursAt(s[1..], p, i - 1);
      }
    }
  }

  /** An occurrence in `s` is an occurrence of the lower-cased pattern in the
      lower-cased text: matching after `lower()` never loses a hit. */
  lemma LowerKeepsOccurrence(s: string, p: string, i: int)
    requires OccursAt(s, p, i)
    ensures OccursAt(Lower(s), Lower(p), i)
  {
    assert s[i..i + |p|] == p;
    assert forall j :: 0 <= j < |p| ==> Lower(s)[i..i + |p|][j] == Lower(p)[j];
  }

  /** Substring containment survives lower-casing both sides. */
  lemma ContainsLower(s: string, p: string)
    requires Contains(s, p)
    ensures Contains(Lower(s), Lower(p))
  {
    ContainsIffOccurs(s, p);
    var i :| OccursAt(s, p, i);
    LowerKeepsOccurrence(s, p, i);
    ContainsIffOccurs(Lower(s), Lower(p));
  }

  // ---------------------------------------------------------------------------
  // Joining with a separator, and splitting back
  // ---------------------------------------------------------------------------

  /** `sep.join(parts)`. */
  function Join(parts: seq<string>, sep: string): string
    decreases |parts|
  {
    if parts == [] then []
    else if |parts| == 1 then parts[0]
    else parts[0] + sep + Join(parts[1..], sep)
  }

  /** The index of the first `c` in `s`, or `|s|` when there is none. */
  function FirstIndex(s: string, c: char): (i: nat)
    ensures i <= |s|
    ensures forall j :: 0 <= j < i ==> s[j] != c
    ensures i < |s| ==> s[i] == c
  {
    if s == [] then 0 else if s[0] == c then 0 else 1 + FirstIndex(s[1..], c)
  }

  /** Splits a `", "`-joined string back into its parts: cut at every ','
      and drop the blank that follows it. */
  function SplitCommaSpace(s: string): seq<string>
    decreases |s|
  {
    var i := FirstIndex(s, ',');
    if i == |s| then [s]
    else [s[..i]] + SplitCommaSpace(if i + 2 <= |s| then s[i + 2..] else [])
  }

  /** The first `c` in `a + b` is at `|a|` when `a` has none and `b` starts with one. */
  lemma FirstIndexAfter(a: string, b: string, c: char)
    requires c !in a
    requires b != [] && b[0] == c
    ensures FirstIndex(a + b, c) == |a|
  {
    var i := FirstIndex(a + b, c);
    assert (a + b)[|a|] == c;
  }

  /** Splitting a part that holds no comma gives that part alone. */
  lemma SplitOne(p: string)
    requires ',' !in p
    ensures SplitCommaSpace(p) == [p]
  {
  }

  /** Splitting `p + ", " + rest` cuts `p` off the front. */
  lemma SplitFirst(p: string, rest: string)
    requires ',' !in p
    ensures SplitCommaSpace(p + ", " + rest) == [p] + SplitCommaSpace(rest)
  {
    var s := p + ", " + rest;
    assert s == p + (", " + rest);
    FirstIndexAfter(p, ", " + rest, ',');
    assert s[..|p|] == p;
    assert s[|p| + 2..] == rest;
  }

  /** Joining with `", "` parts that hold no comma loses nothing: splitting
      gives the parts back. */
  lemma {:induction false} SplitJoin(parts: seq<string>)
    requires parts != []
    requires forall k :: k in parts ==> ',' !in k
    ensures SplitCommaSpace(Join(parts, ", ")) == parts
    decreases |parts|
  {
    var p, tail := parts[0], parts[1..];
    assert p in parts;
    if tail == [] {
      SplitOne(p);
    } else {
      assert forall k :: k in tail ==> k in parts;
      SplitJoin(tail);
      assert Join(parts, ", ") == p + ", " + Join(tail, ", ");
      SplitFirst(p, Join(tail, ", "));
      assert parts == [p] + tail;
    }
  }

  // ---------------------------------------------------------------------------
  // Decimal text of integers
  // ---------------------------------------------------------------------------

  predicate IsDigit(c: char) {
    '0' <= c <= '9'
  }

  function DigitChar(d: nat): (c: char)
    requires d < 10
    ensures IsDigit(c)
  {
    ('0' as int + d) as char
  }

  function DigitValue(c: char): nat
    requires IsDigit(c)
  {
    c as int - '0' as int
  }

  /** `str(n)` for a non-negative integer: its decimal digits, without
      leading zeros. */
  function NatText(n: nat): (r: string)
    ensures |r| > 0
    ensures forall i :: 0 <= i < |r| ==> IsDigit(r[i])
    decreases n
  {
    if n < 10 then [DigitChar(n)] else NatText(n / 10) + [DigitChar(n % 10)]
  }

  /** `str(n)` for any integer. */
  function IntText(n: int): string {
    if n < 0 then "-" + NatText(-n) else NatText(n)
  }

  /** Reads a string of decimal digits as a number. */
  function ParseNat(s: string): nat
    requires forall i :: 0 <= i < |s| ==> IsDigit(s[i])
    decreases |s|
  {
    if s == [] then 0 else 10 * ParseNat(s[..|s| - 1]) + DigitValue(s[|s| - 1])
  }

  /** Reading the decimal text of `n` gives `n` back. */
  lemma {:induction false} ParseNatText(n: nat)
    ensures ParseNat(NatText(n)) == n
    decreases n
  {
    if n >= 10 {
      ParseNatText(n / 10);
      var s := NatText(n);
      assert s[..|s| - 1] == NatText(n / 10);
    }
  }

  /** Different integers have different decimal texts. */
  lemma IntTextInjective(a: int, b: int)
    requires IntText(a) == IntText(b)
    ensures a == b
  {
    assert IntText(a)[0] == '-' <==> a < 0;
    assert IntText(b)[0] == '-' <==> b < 0;
    if a < 0 {
      assert NatText(-a) == IntText(a)[1..] == IntText(b)[1..] == NatText(-b);
      ParseNatText(-a);
      ParseNatText(-b);
    } else {
      ParseNatText(a);
      ParseNatText(b);
    }
  }
}
