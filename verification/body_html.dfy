/**
 * The HTML rendering of the message body: every URL, a maximal run of
 * non-whitespace starting with http:// or https:// and at least one more
 * character, is wrapped in an anchor that links to itself (the substitution
 * of the pattern (https?://[^\s]+)), and then every newline becomes <br>.
 * Nothing else is escaped.
 */
module BodyHtml {
  import opened PyStr
  import opened SeqFacts

  predicate StartsWith(s: string, prefix: string)
  {
    |prefix| <= |s| && s[..|prefix|] == prefix
  }

  /** The length of the https?:// the pattern matches at the head of s, or 0 where it matches none. */
  function SchemeLength(s: string): nat
  {
    if StartsWith(s, "https://") then 8 else if StartsWith(s, "http://") then 7 else 0
  }

  /** The pattern matches at the head of s: a scheme followed by a non-whitespace character. */
  predicate UrlStart(s: string)
  {
    var n := SchemeLength(s);
    0 < n < |s| && !IsSpace(s[n])
  }

  predicate NoSpace(s: string)
  {
    forall k :: 0 <= k < |s| ==> !IsSpace(s[k])
  }

  /** The length of the run of non-whitespace characters s starts with: what [^\s]+ consumes greedily. */
  function NonSpaceRun(s: string): (n: nat)
    ensures n <= |s|
    ensures n < |s| ==> IsSpace(s[n])
  {
    if s == [] || IsSpace(s[0]) then 0 else 1 + NonSpaceRun(s[1..])
  }

  lemma {:induction false} NonSpaceRunNoSpace(s: string)
    ensures NoSpace(s[..NonSpaceRun(s)])
  {
    if s != [] && !IsSpace(s[0]) {
      NonSpaceRunNoSpace(s[1..]);
      var n := NonSpaceRun(s[1..]);
      assert s[..n + 1] == [s[0]] + s[1..][..n];
    }
  }

  lemma {:induction false} NonSpaceRunAtLeast(s: string, j: nat)
    requires j <= |s| && NoSpace(s[..j])
    ensures j <= NonSpaceRun(s)
  {
    if j > 0 {
      assert s[..j][0] == s[0];
      assert s[1..][..j - 1] == s[..j][1..];
      NonSpaceRunAtLeast(s[1..], j - 1);
    }
  }

  /** Where the pattern matches, the greedy run covers the scheme and at least one character after it. */
  lemma UrlRunCoversScheme(s: string)
    requires UrlStart(s)
    ensures SchemeLength(s) < NonSpaceRun(s)
  {
    var m := SchemeLength(s);
    var scheme := if m == 8 then "https://" else "http://";
    assert s[..m] == scheme;
    var head := s[..m + 1];
    forall k | 0 <= k < |head| ensures !IsSpace(head[k]) {
      if k < m {
        assert head[k] == scheme[k];
        PrintableNotSpace(scheme[k]);
      }
    }
    NonSpaceRunAtLeast(s, m + 1);
  }

  /** One step of the substitution's left-to-right scan: a URL it replaces, or a character it copies. */
  datatype Token = Text(c: char) | Link(url: string)

  /**
   * The scan itself: where the pattern matches, the longest match; elsewhere
   * one character.  The tokens spell out s, and every URL is a non-empty run
   * without whitespace.
   */
  function Tokenize(s: string): (ts: seq<Token>)
    ensures Source(ts) == s
    ensures forall t :: t in ts && t.Link? ==> t.url != [] && NoSpace(t.url)
    decreases |s|
  {
    if s == [] then []
    else
      var n := if UrlStart(s) then NonSpaceRun(s) else 1;
      assert 0 < n <= |s| by {
        if UrlStart(s) { UrlRunCoversScheme(s); }
      }
      var t := if UrlStart(s) then Link(s[..n]) else Text(s[0]);
      assert t.Link? ==> NoSpace(t.url) by {
        if UrlStart(s) { NonSpaceRunNoSpace(s); }
      }
      var rest := Tokenize(s[n..]);
      SourceCons(t, rest);
      TakeDrop(s, n);
      [t] + rest
  }

  /** The text of the body a token stands for. */
  function Original(t: Token): string
  {
    match t
    case Text(c) => [c]
    case Link(u) => u
  }

  function Source(ts: seq<Token>): string
  {
    if ts == [] then [] else Original(ts[0]) + Source(ts[1..])
  }

  /**
   * The replacement <a href="\1">\1</a>: the URL appears twice, as the href
   * value and as the link text, inside fifteen characters of markup.
   */
  function Anchor(url: string): (a: string)
    ensures |a| == 2 * |url| + 15
    ensures a[..9] == "<a href=\"" && a[9..9 + |url|] == url
    ensures a[9 + |url|..11 + |url|] == "\">" && a[11 + |url|..11 + 2 * |url|] == url
    ensures a[11 + 2 * |url|..] == "</a>"
  {
    "<a href=\"" + url + "\">" + url + "</a>"
  }

  function Replacement(t: Token): string
  {
    match t
    case Text(c) => [c]
    case Link(u) => Anchor(u)
  }

  function Emit(ts: seq<Token>): string
  {
    if ts == [] then [] else Replacement(ts[0]) + Emit(ts[1..])
  }

  /**
   * re.sub(r'(https?://[^\s]+)', r'<a href="\1">\1</a>', body).  The
   * substitution adds and removes no newline.
   */
  function Linkify(body: string): (html: string)
    ensures Count(html, '\n') == Count(body, '\n')
  {
    EmitKeepsNewlines(Tokenize(body));
    Emit(Tokenize(body))
  }

  /** The token the scan must produce at the head of the text still to scan. */
  predicate ScanStep(t: Token, rest: string)
  {
    if UrlStart(rest) then t == Link(rest[..NonSpaceRun(rest)])
    else rest != [] && t == Text(rest[0])
  }

  /**
   * ts is a leftmost-longest scan of s: the tokens spell s, and each token
   * is the match (or the single character) found where it starts.
   */
  ghost predicate IsScanOf(ts: seq<Token>, s: string)
  {
    Source(ts) == s && forall i :: 0 <= i < |ts| ==> ScanStep(ts[i], Source(ts[i..]))
  }

  lemma {:induction false} SourceCons(t: Token, ts: seq<Token>)
    ensures Source([t] + ts) == Original(t) + Source(ts)
  {
    ConsTail([t], ts);
  }

  /** The scan loses nothing and replaces exactly the leftmost, longest matches. */
  lemma {:induction false} TokenizeIsScan(s: string)
    ensures IsScanOf(Tokenize(s), s)
    decreases |s|
  {
    if s != [] {
      var ts := Tokenize(s);
      var n := if UrlStart(s) then NonSpaceRun(s) else 1;
      if UrlStart(s) { UrlRunCoversScheme(s); }
      var t := if UrlStart(s) then Link(s[..n]) else Text(s[0]);
      var rest := Tokenize(s[n..]);
      assert ts == [t] + rest;
      TokenizeIsScan(s[n..]);
      SourceCons(t, rest);
      assert Original(t) == s[..n];
      TakeDrop(s, n);
      forall i | 0 <= i < |ts| ensures ScanStep(ts[i], Source(ts[i..])) {
        if i == 0 {
          assert ts[0..] == ts;
        } else {
          assert ts[i..] == rest[i - 1..];
        }
      }
    }
  }

  /** Any scan of s that keeps to the scanning rule is the one Tokenize finds. */
  lemma {:induction false} ScanUnique(ts: seq<Token>, s: string)
    requires IsScanOf(ts, s)
    ensures ts == Tokenize(s)
    decreases |ts|
  {
    if ts == [] {
      assert s == [];
    } else {
      assert ts[0..] == ts;
      assert ScanStep(ts[0], s);
      var t, rest := ts[0], ts[1..];
      assert ts == [t] + rest;
      SourceCons(t, rest);
      var n := |Original(t)|;
      if UrlStart(s) { UrlRunCoversScheme(s); }
      assert Original(t) == s[..n];
      assert Source(rest) == s[n..];
      forall i | 0 <= i < |rest| ensures ScanStep(rest[i], Source(rest[i..])) {
        assert rest[i..] == ts[i + 1..];
        assert rest[i] == ts[i + 1];
      }
      ScanUnique(rest, s[n..]);
    }
  }

  /** A body in which the pattern matches nowhere is left as it is by the substitution. */
  lemma {:induction false} LinkifyPlain(s: string)
    requires forall i :: 0 <= i <= |s| ==> !UrlStart(s[i..])
    ensures Linkify(s) == s
    decreases |s|
  {
    if s != [] {
      assert s[0..] == s;
      forall i | 0 <= i <= |s[1..]| ensures !UrlStart(s[1..][i..]) {
        assert s[1..][i..] == s[i + 1..];
      }
      LinkifyPlain(s[1..]);
      var rest := Tokenize(s[1..]);
      ConsTail([Text(s[0])], rest);
      assert Linkify(s) == [s[0]] + Emit(rest);
      ConsTail([s[0]], s[1..]);
    }
  }

  /** The number of times c occurs in s. */
  function Count(s: string, c: char): nat
  {
    multiset(s)[c]
  }

  lemma {:induction false} EmitCons(t: Token, ts: seq<Token>)
    ensures Emit([t] + ts) == Replacement(t) + Emit(ts)
  {
    ConsTail([t], ts);
  }

  /**
   * Replacing tokens keeps the newlines of the text they spell out: a URL
   * holds no whitespace, nor does the anchor markup.
   */
  lemma {:induction false} EmitKeepsNewlines(ts: seq<Token>)
    requires forall t :: t in ts && t.Link? ==> NoSpace(t.url)
    ensures Count(Emit(ts), '\n') == Count(Source(ts), '\n')
  {
    if ts != [] {
      var t, rest := ts[0], ts[1..];
      assert ts == [t] + rest;
      assert forall u :: u in rest ==> u in ts;
      EmitKeepsNewlines(rest);
      ReplacementKeepsNewlines(t);
      EmitCons(t, rest);
      SourceCons(t, rest);
      assert multiset(Emit(ts)) == multiset(Replacement(t)) + multiset(Emit(rest));
      assert multiset(Source(ts)) == multiset(Original(t)) + multiset(Source(rest));
    }
  }

  /** One token's replacement holds as many newlines as the text it replaces. */
  lemma ReplacementKeepsNewlines(t: Token)
    requires t.Link? ==> NoSpace(t.url)
    ensures Count(Replacement(t), '\n') == Count(Original(t), '\n')
  {
    if t.Link? {
      NoSpaceNoNewline(t.url);
      AnchorNewlines(t.url);
    }
  }

  /** The anchor markup adds no newline of its own. */
  lemma AnchorNewlines(url: string)
    ensures Count(Anchor(url), '\n') == 2 * Count(url, '\n')
  {
    assert '\n' !in "<a href=\"" && '\n' !in "\">" && '\n' !in "</a>";
  }

  /** What one character of the body becomes in the HTML: a newline turns into <br>. */
  function Br(c: char): string
  {
    if c == '\n' then "<br>" else [c]
  }

  /** str.replace('\n', '<br>'). */
  function ReplaceNewlines(s: string): (r: string)
    ensures '\n' !in r
    ensures |r| == |s| + 3 * Count(s, '\n')
  {
    if s == [] then []
    else
      assert s == [s[0]] + s[1..];
      Br(s[0]) + ReplaceNewlines(s[1..])
  }

  /** Replacing newlines works piece by piece. */
  lemma {:induction false} ReplaceNewlinesAppend(a: string, b: string)
    ensures ReplaceNewlines(a + b) == ReplaceNewlines(a) + ReplaceNewlines(b)
  {
    if a != [] {
      ConsTail(a, b);
      ReplaceNewlinesAppend(a[1..], b);
      Assoc(Br(a[0]), ReplaceNewlines(a[1..]), ReplaceNewlines(b));
    } else {
      AppendEmpty(b);
      AppendEmpty(ReplaceNewlines(b));
    }
  }

  /**
   * Character i of the body reappears, after the characters before it have
   * been replaced, as itself or, if it is a newline, as exactly one <br>.
   */
  lemma ReplaceNewlinesAt(s: string, i: nat)
    requires i < |s|
    ensures var at := i + 3 * Count(s[..i], '\n');
            var r := ReplaceNewlines(s);
            at + |Br(s[i])| <= |r| && r[at..at + |Br(s[i])|] == Br(s[i])
  {
    CutAt(s, i);
    var a, b := s[..i], s[i + 1..];
    ReplaceNewlinesAppend(a + [s[i]], b);
    ReplaceNewlinesAppend(a, [s[i]]);
    assert ReplaceNewlines([s[i]]) == Br(s[i]) by {
      assert [s[i]][1..] == [];
      AppendEmpty(Br(s[i]));
    }
    var ra, rb := ReplaceNewlines(a), ReplaceNewlines(b);
    assert ReplaceNewlines(s) == ra + Br(s[i]) + rb;
  }

  /** Text without a newline is left unchanged. */
  lemma {:induction false} ReplaceNewlinesNone(s: string)
    requires forall k :: 0 <= k < |s| ==> s[k] != '\n'
    ensures ReplaceNewlines(s) == s
  {
    if s != [] {
      var tail := s[1..];
      assert forall k :: 0 <= k < |tail| ==> tail[k] == s[k + 1];
      ReplaceNewlinesNone(tail);
      assert ReplaceNewlines(s) == [s[0]] + tail;
    }
  }

  /**
   * msg.html: the linked body with newlines turned into <br>.  The HTML holds
   * no newline, and every newline of the body became one <br> (three
   * characters more).
   */
  function RenderHtml(body: string): (html: string)
    ensures '\n' !in html
    ensures |html| == |Linkify(body)| + 3 * Count(body, '\n')
  {
    ReplaceNewlines(Linkify(body))
  }

  /**
   * A body without a newline in which the pattern matches nowhere comes out
   * unchanged: nothing HTML-significant is escaped.
   */
  lemma RenderHtmlPlain(body: string)
    requires forall i :: 0 <= i <= |body| ==> !UrlStart(body[i..])
    requires forall k :: 0 <= k < |body| ==> body[k] != '\n'
    ensures RenderHtml(body) == body
  {
    LinkifyPlain(body);
    ReplaceNewlinesNone(body);
  }

  /** Text before the first place the pattern matches is copied as it is. */
  lemma {:induction false} LinkifyPlainPrefix(p: string, s: string)
    requires forall i :: 0 <= i < |p| ==> !UrlStart((p + s)[i..])
    ensures Linkify(p + s) == p + Linkify(s)
  {
    if p != [] {
      var ps := p + s;
      ConsTail(p, s);
      assert ps[0..] == ps;
      forall i | 0 <= i < |p[1..]| ensures !UrlStart((p[1..] + s)[i..]) {
        assert (p[1..] + s)[i..] == ps[i + 1..];
      }
      LinkifyPlainPrefix(p[1..], s);
      EmitCons(Text(ps[0]), Tokenize(ps[1..]));
      ConsTail([p[0]], p[1..] + Linkify(s));
      Assoc([p[0]], p[1..], Linkify(s));
      assert [p[0]] + p[1..] == p;
    } else {
      AppendEmpty(s);
      AppendEmpty(Linkify(s));
    }
  }

  /** Where the pattern matches, the whole run up to the next whitespace becomes one anchor. */
  lemma LinkifyAtUrl(s: string)
    requires UrlStart(s)
    ensures Linkify(s) == Anchor(s[..NonSpaceRun(s)]) + Linkify(s[NonSpaceRun(s)..])
  {
    var n := NonSpaceRun(s);
    EmitCons(Link(s[..n]), Tokenize(s[n..]));
  }

  /** The run ends exactly at the first whitespace. */
  lemma {:induction false} NonSpaceRunExact(s: string, n: nat)
    requires n < |s| && NoSpace(s[..n]) && IsSpace(s[n])
    ensures NonSpaceRun(s) == n
  {
    if n > 0 {
      assert s[..n][0] == s[0];
      assert s[1..][..n - 1] == s[..n][1..];
      NonSpaceRunExact(s[1..], n - 1);
    }
  }

  /** Two lines joined by one newline become two lines joined by one <br>. */
  lemma ReplaceNewlinesLines(x: string, y: string)
    requires '\n' !in x && '\n' !in y
    ensures ReplaceNewlines(x + "\n" + y) == x + "<br>" + y
  {
    ReplaceNewlinesAppend(x + "\n", y);
    ReplaceNewlinesAppend(x, "\n");
    assert forall k :: 0 <= k < |x| ==> x[k] != '\n';
    assert forall k :: 0 <= k < |y| ==> y[k] != '\n';
    ReplaceNewlinesNone(x);
    ReplaceNewlinesNone(y);
    assert ReplaceNewlines("\n") == "<br>" by {
      assert "\n"[1..] == [];
      AppendEmpty("<br>");
    }
  }

  /** A URL that ends its line is replaced by its anchor; a following line without a URL is copied. */
  lemma LinkifyUrlLine(url: string, next: string)
    requires UrlStart(url) && NoSpace(url)
    requires forall i :: 0 <= i <= |next| ==> !UrlStart(next[i..])
    ensures Linkify(url + ("\n" + next)) == Anchor(url) + ("\n" + next)
  {
    var tail := "\n" + next;
    var u := url + tail;
    UrlExtends(url, tail);
    assert IsSpace('\n');
    Halves(url, tail);
    NonSpaceRunExact(u, |url|);
    LinkifyAtUrl(u);
    LinkifyNewlineLine(next);
  }

  /**
   * A line of text in which the pattern starts nowhere, then a URL that ends
   * the line, then a line without a URL: the URL becomes an anchor, the
   * newline a <br>, and the rest is copied.
   */
  lemma RenderUrlLine(prefix: string, url: string, next: string)
    requires '\n' !in prefix && forall i :: 0 <= i < |prefix| ==> !UrlStart((prefix + url)[i..])
    requires UrlStart(url) && NoSpace(url)
    requires '\n' !in next && forall i :: 0 <= i <= |next| ==> !UrlStart(next[i..])
    ensures RenderHtml(prefix + url + "\n" + next) == prefix + Anchor(url) + "<br>" + next
  {
    LinkifyUrlAfterText(prefix, url, next);
    assert '\n' !in Anchor(url) by {
      NoSpaceNoNewline(url);
    }
    ReplaceNewlinesLines(prefix + Anchor(url), next);
  }

  lemma LinkifyUrlAfterText(prefix: string, url: string, next: string)
    requires forall i :: 0 <= i < |prefix| ==> !UrlStart((prefix + url)[i..])
    requires UrlStart(url) && NoSpace(url)
    requires forall i :: 0 <= i <= |next| ==> !UrlStart(next[i..])
    ensures Linkify(prefix + url + "\n" + next) == prefix + Anchor(url) + "\n" + next
  {
    var tail := "\n" + next;
    var u := url + tail;
    assert prefix + url + "\n" + next == prefix + u;
    forall i | 0 <= i < |prefix| ensures !UrlStart((prefix + u)[i..]) {
      var x := (prefix + url)[i..];
      assert (prefix + u)[i..] == x + tail;
      UrlStartAppend(x, tail);
    }
    LinkifyPlainPrefix(prefix, u);
    LinkifyUrlLine(url, next);
    var anchor := Anchor(url);
    Assoc(prefix, anchor, tail);
    Assoc(prefix + anchor, "\n", next);
  }

  lemma NoSpaceNoNewline(s: string)
    requires NoSpace(s)
    ensures '\n' !in s
  {
    assert IsSpace('\n');
    forall k | 0 <= k < |s| ensures s[k] != '\n' {
    }
  }

  /** A match at the head of url is still one with anything appended. */
  lemma UrlExtends(url: string, tail: string)
    requires UrlStart(url)
    ensures UrlStart(url + tail)
  {
    var m := SchemeLength(url);
    assert (url + tail)[..8] == url[..8];
    assert (url + tail)[..7] == url[..7];
    assert SchemeLength(url + tail) == m;
    assert (url + tail)[m] == url[m];
  }

  /** Whether the pattern matches at the head of x depends on its first nine characters only. */
  lemma UrlStartAppend(x: string, tail: string)
    requires 9 <= |x|
    ensures UrlStart(x + tail) <==> UrlStart(x)
  {
    assert (x + tail)[..8] == x[..8];
    assert (x + tail)[..7] == x[..7];
    var m := SchemeLength(x);
    assert SchemeLength(x + tail) == m;
    assert m < |x| && (x + tail)[m] == x[m];
  }

  /** A newline and then a line in which the pattern matches nowhere are copied. */
  lemma LinkifyNewlineLine(next: string)
    requires forall i :: 0 <= i <= |next| ==> !UrlStart(next[i..])
    ensures Linkify("\n" + next) == "\n" + next
  {
    var t := "\n" + next;
    forall i | 0 <= i <= |t| ensures !UrlStart(t[i..]) {
      if i == 0 {
        assert t[0] == '\n';
      } else {
        assert t[i..] == next[i - 1..];
      }
    }
    LinkifyPlain(t);
  }
}
