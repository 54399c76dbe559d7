/**
 * The recipient-list parser of the mail handler (_parse_emails): a field such
 * as "a@x.com, b@y.com;c@z.com" is split at every ',' or ';', each piece is
 * stripped of surrounding whitespace, and the pieces that are left empty are
 * dropped. Addresses are not validated; they pass through as written.
 */
module EmailList {
  import opened Wrappers
  import opened PyStr
  import opened SeqFacts

  predicate IsDelimiter(c: char)
  {
    c == ',' || c == ';'
  }

  predicate NoDelimiter(s: string)
  {
    forall k :: 0 <= k < |s| ==> !IsDelimiter(s[k])
  }

  /** What the parser promises of every address it returns. */
  predicate WellFormed(e: string)
  {
    e != [] && Trimmed(e) && NoDelimiter(e)
  }

  /** The delimiter characters of s, in order. */
  function Delimiters(s: string): string
  {
    if s == [] then []
    else (if IsDelimiter(s[0]) then [s[0]] else []) + Delimiters(s[1..])
  }

  /** re.split(r'[;,]', s): the pieces between the delimiters, empty ones included. */
  function Split(s: string): (pieces: seq<string>)
    ensures |pieces| == |Delimiters(s)| + 1
  {
    if s == [] then [[]]
    else if IsDelimiter(s[0]) then [[]] + Split(s[1..])
    else
      var rest := Split(s[1..]);
      [[s[0]] + rest[0]] + rest[1..]
  }

  /** No piece holds a delimiter. */
  lemma {:induction false} SplitNoDelimiter(s: string)
    ensures forall p :: p in Split(s) ==> NoDelimiter(p)
  {
    if s != [] {
      SplitNoDelimiter(s[1..]);
      var rest := Split(s[1..]);
      if !IsDelimiter(s[0]) {
        assert rest[0] in rest;
        NoDelimiterCons(s[0], rest[0]);
        forall p | p in Split(s) ensures NoDelimiter(p) {
          if p != [s[0]] + rest[0] { assert p in rest[1..]; }
        }
      }
    }
  }

  lemma {:induction false} NoDelimiterCons(c: char, p: string)
    requires !IsDelimiter(c) && NoDelimiter(p)
    ensures NoDelimiter([c] + p)
  {
    forall k | 0 <= k < |[c] + p| ensures !IsDelimiter(([c] + p)[k]) {
      if k > 0 { assert ([c] + p)[k] == p[k - 1]; }
    }
  }

  /** Puts pieces back together with the given delimiters between them. */
  function Rejoin(pieces: seq<string>, delims: string): string
    requires |pieces| == |delims| + 1
    decreases |delims|
  {
    if delims == [] then pieces[0]
    else pieces[0] + [delims[0]] + Rejoin(pieces[1..], delims[1..])
  }

  lemma {:induction false} RejoinCons(p: string, ps: seq<string>, d: char, ds: string)
    requires |ps| == |ds| + 1
    ensures Rejoin([p] + ps, [d] + ds) == p + [d] + Rejoin(ps, ds)
  {
    ConsTail([p], ps);
    ConsTail([d], ds);
  }

  lemma {:induction false} RejoinFirst(p: string, ps: seq<string>, ds: string)
    requires |ps| == |ds|
    ensures Rejoin([p] + ps, ds) == p + Rejoin([[]] + ps, ds)
  {
    ConsTail([p], ps);
    ConsTail([[]], ps);
    if ds != [] {
      Assoc(p, [ds[0]], Rejoin(ps, ds[1..]));
    } else {
      AppendEmpty(p);
    }
  }

  /** Splitting loses nothing: the pieces and the delimiters give back the input. */
  lemma {:induction false} SplitRejoin(s: string)
    ensures Rejoin(Split(s), Delimiters(s)) == s
  {
    if s != [] {
      SplitRejoin(s[1..]);
      var rest, ds := Split(s[1..]), Delimiters(s[1..]);
      var c := s[0];
      ConsTail([c], s[1..]);
      if IsDelimiter(c) {
        assert Split(s) == [[]] + rest;
        assert Delimiters(s) == [c] + ds;
        RejoinCons([], rest, c, ds);
        AppendEmpty([c]);
      } else {
        assert Delimiters(s) == ds by { AppendEmpty(ds); }
        var first := [c] + rest[0];
        assert Split(s) == [first] + rest[1..];
        RejoinFirst(first, rest[1..], ds);
        RejoinFirst(rest[0], rest[1..], ds);
        assert rest == [rest[0]] + rest[1..];
        Assoc([c], rest[0], Rejoin([[]] + rest[1..], ds));
      }
    }
  }

  /** The list comprehension [p.strip() for p in parts if p.strip()]. */
  function StripNonBlank(parts: seq<string>): (addrs: seq<string>)
    ensures |addrs| <= |parts|
    ensures forall e :: e in addrs ==> e != [] && Trimmed(e)
  {
    if parts == [] then []
    else
      var p := Strip(parts[0]);
      (if p != [] then [p] else []) + StripNonBlank(parts[1..])
  }

  /** Stripping only cuts, so pieces free of delimiters give addresses free of them. */
  lemma {:induction false} StripNonBlankNoDelimiter(parts: seq<string>)
    requires forall p :: p in parts ==> NoDelimiter(p)
    ensures forall e :: e in StripNonBlank(parts) ==> NoDelimiter(e)
  {
    if parts != [] {
      assert parts[0] in parts;
      StripKeepsNoDelimiter(parts[0]);
      StripNonBlankNoDelimiter(parts[1..]);
    }
  }

  lemma {:induction false} StripKeepsNoDelimiter(s: string)
    ensures NoDelimiter(s) ==> NoDelimiter(Strip(s))
  {
    var lead, trail := StripCut(s);
    if NoDelimiter(s) {
      forall k | 0 <= k < |Strip(s)| ensures !IsDelimiter(Strip(s)[k]) {
        assert Strip(s)[k] == s[|lead| + k];
      }
    }
  }

  /** _parse_emails: None and "" give no addresses; otherwise split, strip, drop blanks. */
  function ParseEmails(value: Option<string>): (addrs: seq<string>)
    ensures value == None || value == Some([]) ==> addrs == []
    ensures forall e :: e in addrs ==> WellFormed(e)
  {
    if value.None? || value.value == [] then []
    else
      SplitNoDelimiter(value.value);
      StripNonBlankNoDelimiter(Split(value.value));
      StripNonBlank(Split(value.value))
  }

  /** The guard for the empty string only short-cuts: splitting "" leaves one blank piece. */
  lemma {:induction false} ParseEmailsSplits(s: string)
    ensures ParseEmails(Some(s)) == StripNonBlank(Split(s))
  {
    if s == [] {
      StripNonBlankSingle([]);
    }
  }

  lemma {:induction false} StripNonBlankSingle(p: string)
    ensures StripNonBlank([p]) == if Strip(p) == [] then [] else [Strip(p)]
  {
    assert [p][1..] == [];
    AppendEmpty(if Strip(p) == [] then [] else [Strip(p)]);
  }

  lemma {:induction false} SplitAppend(a: string, d: char, b: string)
    requires IsDelimiter(d)
    ensures Split(a + [d] + b) == Split(a) + Split(b)
  {
    if a == [] {
      AppendEmpty([d]);
      ConsTail([d], b);
      assert Split([d] + b) == [[]] + Split(b);
    } else {
      var c := a[0];
      var s := a + [d] + b;
      Assoc(a, [d], b);
      ConsTail(a, [d] + b);
      Assoc(a[1..], [d], b);
      SplitAppend(a[1..], d, b);
      var ra := Split(a[1..]);
      if IsDelimiter(c) {
        assert Split(s) == [[]] + (ra + Split(b));
        Assoc([[]], ra, Split(b));
      } else {
        ConsTail(ra, Split(b));
        var first := [c] + ra[0];
        assert Split(s) == [first] + (ra[1..] + Split(b));
        Assoc([first], ra[1..], Split(b));
      }
    }
  }

  lemma {:induction false} SplitSingle(a: string)
    requires NoDelimiter(a)
    ensures Split(a) == [a]
  {
    if a != [] {
      SplitSingle(a[1..]);
      assert [a[0]] + a[1..] == a;
    }
  }

  lemma {:induction false} StripNonBlankAppend(x: seq<string>, y: seq<string>)
    ensures StripNonBlank(x + y) == StripNonBlank(x) + StripNonBlank(y)
  {
    if x != [] {
      ConsTail(x, y);
      StripNonBlankAppend(x[1..], y);
      var p := Strip(x[0]);
      var h := if p != [] then [p] else [];
      assert StripNonBlank(x + y) == h + StripNonBlank(x[1..] + y);
      assert StripNonBlank(x) == h + StripNonBlank(x[1..]);
      Assoc(h, StripNonBlank(x[1..]), StripNonBlank(y));
    } else {
      AppendEmpty(y);
    }
  }

  /**
   * Order is kept: the addresses of "a,b" (or "a;b") are those of a
   * followed by those of b.
   */
  lemma {:induction false} ParseEmailsConcat(a: string, d: char, b: string)
    requires IsDelimiter(d)
    ensures ParseEmails(Some(a + [d] + b)) == ParseEmails(Some(a)) + ParseEmails(Some(b))
  {
    ParseEmailsSplits(a + [d] + b);
    ParseEmailsSplits(a);
    ParseEmailsSplits(b);
    SplitAppend(a, d, b);
    StripNonBlankAppend(Split(a), Split(b));
  }

  /** A piece without delimiters gives its stripped self, or nothing if it is blank. */
  lemma {:induction false} ParseEmailsPiece(a: string)
    requires NoDelimiter(a)
    ensures ParseEmails(Some(a)) == if Strip(a) == [] then [] else [Strip(a)]
  {
    ParseEmailsSplits(a);
    SplitSingle(a);
    StripNonBlankSingle(a);
  }

  /** A field that is only whitespace holds no address. */
  lemma {:induction false} ParseEmailsAllSpace(s: string)
    requires AllSpace(s)
    ensures ParseEmails(Some(s)) == []
  {
    SpaceHasNoDelimiter(s);
    ParseEmailsPiece(s);
    StripEmpty(s);
  }

  lemma {:induction false} SpaceHasNoDelimiter(w: string)
    requires AllSpace(w)
    ensures NoDelimiter(w)
  {
    forall k | 0 <= k < |w| ensures !IsDelimiter(w[k]) {
      DelimiterNotSpace(w[k]);
    }
  }

  lemma {:induction false} DelimiterNotSpace(c: char)
    ensures IsDelimiter(c) ==> !IsSpace(c)
  {
    if IsDelimiter(c) {
      PrintableNotSpace(c);
    }
  }

  lemma {:induction false} NoDelimiterConcat(a: string, b: string)
    requires NoDelimiter(a) && NoDelimiter(b)
    ensures NoDelimiter(a + b)
  {
    forall k | 0 <= k < |a + b| ensures !IsDelimiter((a + b)[k]) {
      if k < |a| { assert (a + b)[k] == a[k]; } else { assert (a + b)[k] == b[k - |a|]; }
    }
  }

  /** Python's ",".join(xs). */
  function JoinComma(xs: seq<string>): string
  {
    if xs == [] then []
    else if |xs| == 1 then xs[0]
    else xs[0] + [','] + JoinComma(xs[1..])
  }

  /** Joining well-formed addresses with ',' and parsing gives them back. */
  lemma {:induction false} ParseEmailsJoin(xs: seq<string>)
    requires forall e :: e in xs ==> WellFormed(e)
    ensures ParseEmails(Some(JoinComma(xs))) == xs
  {
    if xs != [] {
      var x := xs[0];
      assert x in xs;
      StripTrimmed(x);
      ParseEmailsPiece(x);
      assert ParseEmails(Some(x)) == [x];
      var rest := xs[1..];
      assert xs == [x] + rest by {
        ConsTail([x], rest);
        TakeDrop(xs, 1);
      }
      if rest != [] {
        forall e | e in rest ensures WellFormed(e) {
          assert e in xs;
        }
        ParseEmailsJoin(rest);
        var j := JoinComma(rest);
        assert JoinComma(xs) == x + [','] + j;
        ParseEmailsConcat(x, ',', j);
      }
    }
  }

  /** Re-parsing the parser's output, joined with ',', gives the same list. */
  lemma {:induction false} ParseEmailsIdempotent(value: Option<string>)
    ensures ParseEmails(Some(JoinComma(ParseEmails(value)))) == ParseEmails(value)
  {
    ParseEmailsJoin(ParseEmails(value));
  }

  /**
   * Whitespace around the whole field does not change the addresses: the
   * strip() applied to the HIDDEN_BCC setting when it is loaded is invisible
   * to the parser.
   */
  lemma {:induction false} ParseEmailsOuterWhitespace(s: string)
    ensures ParseEmails(Some(Strip(s))) == ParseEmails(Some(s))
  {
    var lead, trail := StripCut(s);
    var t := Strip(s);
    ParseEmailsLeadingSpace(lead, t + trail);
    ParseEmailsTrailingSpace(t, trail);
    Assoc(lead, t, trail);
  }

  lemma {:induction false} ParseEmailsLeadingSpace(w: string, s: string)
    requires AllSpace(w)
    ensures ParseEmails(Some(w + s)) == ParseEmails(Some(s))
    decreases |s|
  {
    if NoDelimiter(s) {
      SpaceHasNoDelimiter(w);
      NoDelimiterConcat(w, s);
      ParseEmailsPiece(w + s);
      ParseEmailsPiece(s);
      StripIgnoresLeadingSpace(w, s);
    } else {
      var k :| 0 <= k < |s| && IsDelimiter(s[k]);
      var a, d, b := s[..k], s[k], s[k + 1..];
      CutAt(s, k);
      Assoc(w, a + [d], b);
      Assoc(w, a, [d]);
      ParseEmailsConcat(w + a, d, b);
      ParseEmailsConcat(a, d, b);
      ParseEmailsLeadingSpace(w, a);
    }
  }

  lemma {:induction false} ParseEmailsTrailingSpace(s: string, w: string)
    requires AllSpace(w)
    ensures ParseEmails(Some(s + w)) == ParseEmails(Some(s))
    decreases |s|
  {
    if NoDelimiter(s) {
      SpaceHasNoDelimiter(w);
      NoDelimiterConcat(s, w);
      ParseEmailsPiece(s + w);
      ParseEmailsPiece(s);
      StripIgnoresTrailingSpace(s, w);
    } else {
      var k :| 0 <= k < |s| && IsDelimiter(s[k]);
      var a, d, b := s[..k], s[k], s[k + 1..];
      CutAt(s, k);
      Assoc(a + [d], b, w);
      ParseEmailsConcat(a, d, b + w);
      ParseEmailsConcat(a, d, b);
      ParseEmailsTrailingSpace(b, w);
    }
  }
}
