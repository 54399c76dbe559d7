/**
 * The Python string primitives the mail handler relies on: what counts as
 * whitespace (for str.strip() and for the regular-expression class \s alike),
 * str.strip() itself, and lower-casing.
 */
module PyStr {
  import opened SeqFacts

  /**
   * The code points CPython classifies as whitespace (Py_UNICODE_ISSPACE).
   * str.strip() with no argument and the \\s class of a str pattern both
   * consult this one table.
   */
  function Whitespace(): seq<int>
  {
    [0x09, 0x0A, 0x0B, 0x0C, 0x0D, 0x1C, 0x1D, 0x1E, 0x1F, 0x20, 0x85, 0xA0, 0x1680,
     0x2000, 0x2001, 0x2002, 0x2003, 0x2004, 0x2005, 0x2006, 0x2007, 0x2008, 0x2009, 0x200A,
     0x2028, 0x2029, 0x202F, 0x205F, 0x3000]
  }

  predicate Listed(n: int, codes: seq<int>)
  {
    codes != [] && (codes[0] == n || Listed(n, codes[1..]))
  }

  /**
   * c is whitespace.  Among ASCII characters these are tab, line feed,
   * vertical tab, form feed, carriage return, the four separators 0x1C-0x1F
   * and the blank.
   */
  predicate IsSpace(c: char)
    ensures c as int <= 0x7E ==> (IsSpace(c) <==> 0x09 <= c as int <= 0x0D || 0x1C <= c as int <= 0x20)
  {
    AsciiListed(c as int);
    Listed(c as int, Whitespace())
  }

  lemma {:induction false} ListedAt(n: int, codes: seq<int>, i: nat)
    requires i < |codes| && codes[i] == n
    ensures Listed(n, codes)
  {
    if i > 0 {
      ListedAt(n, codes[1..], i - 1);
    }
  }

  /** The ASCII part of the whitespace table. */
  lemma AsciiListed(n: int)
    ensures n <= 0x7E ==> (Listed(n, Whitespace()) <==> 0x09 <= n <= 0x0D || 0x1C <= n <= 0x20)
  {
    var w := Whitespace();
    if 0x09 <= n <= 0x0D {
      ListedAt(n, w, n - 0x09);
    } else if 0x1C <= n <= 0x20 {
      ListedAt(n, w, n - 0x1C + 5);
    } else if n <= 0x7E {
      assert forall k :: 0 <= k < |w| ==> w[k] != n;
      NotListed(n, w);
    }
  }

  lemma {:induction false} NotListed(n: int, codes: seq<int>)
    requires forall k :: 0 <= k < |codes| ==> codes[k] != n
    ensures !Listed(n, codes)
  {
    if codes != [] {
      NotListed(n, codes[1..]);
    }
  }

  /** No printable ASCII character (from '!' to '~') is whitespace. */
  lemma {:induction false} PrintableNotSpace(c: char)
    requires '!' <= c <= '~'
    ensures !IsSpace(c)
  {
  }

  predicate AllSpace(s: string)
  {
    forall k :: 0 <= k < |s| ==> IsSpace(s[k])
  }

  /** No whitespace at either end. */
  predicate Trimmed(s: string)
  {
    s == [] || (!IsSpace(s[0]) && !IsSpace(s[|s| - 1]))
  }

  /** s without its leading whitespace. */
  function LStrip(s: string): (r: string)
    ensures |r| <= |s| && r == s[|s| - |r|..]
    ensures AllSpace(s[..|s| - |r|])
    ensures r == [] || !IsSpace(r[0])
  {
    if s != [] && IsSpace(s[0]) then LStrip(s[1..]) else s
  }

  /** s without its trailing whitespace. */
  function RStrip(s: string): (r: string)
    ensures |r| <= |s| && r == s[..|r|]
    ensures AllSpace(s[|r|..])
    ensures r == [] || !IsSpace(r[|r| - 1])
  {
    if s != [] && IsSpace(s[|s| - 1]) then RStrip(s[..|s| - 1]) else s
  }

  /** Python's str.strip() with no argument. */
  function Strip(s: string): (r: string)
    ensures |r| <= |s| && Trimmed(r)
  {
    RStrip(LStrip(s))
  }

  /** strip() only removes whitespace, and only at the two ends of s. */
  lemma {:induction false} StripCut(s: string) returns (lead: string, trail: string)
    ensures AllSpace(lead) && AllSpace(trail)
    ensures s == lead + Strip(s) + trail
  {
    var l := LStrip(s);
    var r := RStrip(l);
    lead, trail := s[..|s| - |l|], l[|r|..];
    TakeDrop(s, |s| - |l|);
    TakeDrop(l, |r|);
    Assoc(lead, r, trail);
  }

  /** Cutting whitespace from the front: what follows it, if it starts with no whitespace, is what lstrip() keeps. */
  lemma {:induction false} LStripUnique(w: string, r: string)
    requires AllSpace(w) && (r == [] || !IsSpace(r[0]))
    ensures LStrip(w + r) == r
  {
    if w != [] {
      ConsTail(w, r);
      LStripUnique(w[1..], r);
    } else {
      AppendEmpty(r);
    }
  }

  /** The mirror image of LStripUnique for the back of the string. */
  lemma {:induction false} RStripUnique(r: string, w: string)
    requires AllSpace(w) && (r == [] || !IsSpace(r[|r| - 1]))
    ensures RStrip(r + w) == r
  {
    if w != [] {
      SnocFront(r, w);
      RStripUnique(r, w[..|w| - 1]);
    } else {
      AppendEmpty(r);
    }
  }

  /**
   * strip() of whitespace, a middle with no whitespace at its ends, and
   * whitespace is that middle: together with StripCut this pins the result down.
   */
  lemma {:induction false} StripParts(w1: string, r: string, w2: string)
    requires AllSpace(w1) && Trimmed(r) && AllSpace(w2)
    ensures Strip(w1 + r + w2) == r
  {
    if r == [] {
      AppendEmpty(w1);
      AppendEmpty(w1 + w2);
      AllSpaceConcat(w1, w2);
      LStripUnique(w1 + w2, r);
    } else {
      Assoc(w1, r, w2);
      ConsTail(r, w2);
      LStripUnique(w1, r + w2);
      RStripUnique(r, w2);
    }
  }

  lemma {:induction false} AllSpaceConcat(a: string, b: string)
    requires AllSpace(a) && AllSpace(b)
    ensures AllSpace(a + b)
  {
    forall k | 0 <= k < |a + b| ensures IsSpace((a + b)[k]) {
      if k < |a| { assert (a + b)[k] == a[k]; } else { assert (a + b)[k] == b[k - |a|]; }
    }
  }

  /** Whitespace in front of s does not change what strip() keeps. */
  lemma {:induction false} StripIgnoresLeadingSpace(w: string, s: string)
    requires AllSpace(w)
    ensures Strip(w + s) == Strip(s)
  {
    var t := Strip(s);
    var a, b := StripCut(s);
    Assoc(w, a + t, b);
    Assoc(w, a, t);
    AllSpaceConcat(w, a);
    StripParts(w + a, t, b);
  }

  /** Whitespace after s does not change what strip() keeps. */
  lemma {:induction false} StripIgnoresTrailingSpace(s: string, w: string)
    requires AllSpace(w)
    ensures Strip(s + w) == Strip(s)
  {
    var t := Strip(s);
    var a, b := StripCut(s);
    Assoc(a + t, b, w);
    AllSpaceConcat(b, w);
    StripParts(a, t, b + w);
  }

  /** A string with no whitespace at its ends is its own strip(). */
  lemma {:induction false} StripTrimmed(s: string)
    requires Trimmed(s)
    ensures Strip(s) == s
  {
    assert AllSpace([]);
    AppendEmpty(s);
    StripParts([], s, []);
  }

  /** strip() keeps nothing exactly when s is all whitespace. */
  lemma {:induction false} StripEmpty(s: string)
    ensures Strip(s) == [] <==> AllSpace(s)
  {
    if AllSpace(s) {
      assert AllSpace([]) && Trimmed([]);
      AppendEmpty(s);
      StripParts(s, [], []);
    }
  }

  /** ASCII lower-casing of one character. */
  function LowerChar(c: char): char
  {
    if 'A' <= c <= 'Z' then (c as int + 32) as char else c
  }

  /**
   * Lower-casing, letter by letter: an upper-case ASCII letter becomes its
   * lower-case partner, 32 code points on, and every other character stays.
   */
  function Lower(s: string): (r: string)
    ensures |r| == |s|
    ensures forall i :: 0 <= i < |s| ==> if 'A' <= s[i] <= 'Z' then r[i] as int == s[i] as int + 32 else r[i] == s[i]
  {
    seq(|s|, i requires 0 <= i < |s| => LowerChar(s[i]))
  }

  /** Lower-casing leaves no upper-case ASCII letter and is idempotent. */
  lemma LowerIdempotent(s: string)
    ensures forall i :: 0 <= i < |s| ==> !('A' <= Lower(s)[i] <= 'Z')
    ensures Lower(Lower(s)) == Lower(s)
  {
  }

  /** Strings equal up to the case of ASCII letters lower-case alike. */
  lemma LowerIgnoresCase(s: string, t: string)
    requires |s| == |t|
    requires forall i :: 0 <= i < |s| ==> s[i] == t[i] || LowerChar(s[i]) == t[i] || s[i] == LowerChar(t[i])
    ensures Lower(s) == Lower(t)
  {
  }
}
