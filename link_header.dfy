/**
 * The next-page lookup every route performs on the upstream's `Link` response header:
 * the first place where a target in angle brackets (a non-empty run of characters other
 * than '>') is followed by `; rel="next"`, and that target. This is a regular
 * expression simplification of the Web Linking header of RFC 8288, section 3; the module also
 * renders well-formed headers so the lookup can be checked against them.
 */
module LinkHeader {
  import opened Wrappers
  import opened Text

  /** What must follow the closing '>' of the target for the pattern to match. */
  const RelNext: string := "; rel=\"next\""

  /** The number of leading characters other than '>'. */
  function UrlRun(s: string): (n: nat)
    ensures n <= |s|
    ensures forall i :: 0 <= i < n ==> s[i] != '>'
    ensures n < |s| ==> s[n] == '>'
  {
    if s == [] || s[0] == '>' then 0 else 1 + UrlRun(s[1..])
  }

  /**
   * The pattern anchored at the first character: '<', a non-empty run without '>', '>', then
   * `; rel="next"`. Because the run cannot contain '>', the greedy run is the only candidate.
   */
  function MatchAt(s: string): (m: Option<string>)
    ensures m.Some? ==> s != [] && s[0] == '<'
    ensures m.Some? ==> m.value != [] && '>' !in m.value
    ensures m.Some? ==> StartsWith(s, "<" + m.value + ">" + RelNext)
  {
    if s == [] || s[0] != '<' then None
    else
      var n := UrlRun(s[1..]);
      if n == 0 || n + 1 == |s| then None
      else if StartsWith(s[n + 2..], RelNext) then
        var url := s[1..n + 1];
        assert forall i :: 0 <= i < |url| ==> url[i] == s[1..][i];
        assert s[..n + 2] == "<" + url + ">";
        assert s[..n + 2 + |RelNext|] == s[..n + 2] + s[n + 2..][..|RelNext|];
        Some(url)
      else None
  }

  /** `match` without the global flag: the capture of the leftmost position where the pattern matches. */
  function NextLink(h: string): (m: Option<string>)
    decreases |h|
  {
    if h == [] then None
    else match MatchAt(h)
      case Some(url) => Some(url)
      case None => NextLink(h[1..])
  }

  /** The leftmost position where the pattern matches, or |h| when there is none. */
  function MatchIndex(h: string): (k: nat)
    ensures k <= |h|
    decreases |h|
  {
    if h == [] || MatchAt(h).Some? then 0 else 1 + MatchIndex(h[1..])
  }

  /** `NextLink` is the capture at the leftmost matching position, and None when there is none. */
  lemma {:induction false} NextLinkLeftmost(h: string)
    ensures MatchIndex(h) < |h| ==> NextLink(h) == MatchAt(h[MatchIndex(h)..]) && NextLink(h).Some?
    ensures MatchIndex(h) == |h| ==> NextLink(h) == None
    decreases |h|
  {
    if h != [] {
      if MatchAt(h).Some? {
        assert h[0..] == h;
      } else {
        var t := h[1..];
        NextLinkLeftmost(t);
        if MatchIndex(t) < |t| {
          assert h[MatchIndex(h)..] == t[MatchIndex(t)..];
        }
      }
    }
  }

  /** No position before the leftmost matching one matches. */
  lemma {:induction false} NoEarlierMatch(h: string)
    ensures forall j :: 0 <= j < MatchIndex(h) ==> MatchAt(h[j..]).None?
    decreases |h|
  {
    if h != [] && MatchAt(h).None? {
      var t := h[1..];
      NoEarlierMatch(t);
      assert h[0..] == h;
      forall j | 1 <= j < MatchIndex(h)
        ensures MatchAt(h[j..]).None?
      {
        assert h[j..] == t[j - 1..];
      }
    }
  }

  /** A matching position always starts at a '<', so a prefix without '<' is skipped. */
  lemma {:induction false} NoAngleSkip(a: string, b: string)
    requires '<' !in a
    ensures NextLink(a + b) == NextLink(b)
  {
    if a != [] {
      assert (a + b)[0] == a[0];
      assert (a + b)[1..] == a[1..] + b;
      NoAngleSkip(a[1..], b);
    } else {
      assert a + b == b;
    }
  }

  /** One link-value of a `Link` header: a target and its relation type. */
  datatype Link = Link(url: string, rel: string)

  /** `; rel="rel"`. */
  function RelParam(rel: string): string {
    "; rel=\"" + rel + "\""
  }

  /** `<url>; rel="rel"`. */
  function Render(l: Link): string {
    "<" + l.url + ">" + RelParam(l.rel)
  }

  /** The link-values joined by ", ", as the upstream writes the header. */
  function RenderLinks(links: seq<Link>): string {
    if links == [] then []
    else if |links| == 1 then Render(links[0])
    else Render(links[0]) + ", " + RenderLinks(links[1..])
  }

  /** Targets are non-empty and free of angle brackets; relation types have no '"' and no '<'. */
  predicate WellFormed(links: seq<Link>) {
    forall i :: 0 <= i < |links| ==>
      links[i].url != [] && '<' !in links[i].url && '>' !in links[i].url
      && '"' !in links[i].rel && '<' !in links[i].rel
  }

  /** The target of the first link whose relation type is exactly "next". */
  function FirstNext(links: seq<Link>): Option<string> {
    if links == [] then None
    else if links[0].rel == "next" then Some(links[0].url)
    else FirstNext(links[1..])
  }

  /** `; rel="` + rel + `"` starts with `; rel="next"` exactly when the relation type is "next". */
  lemma RelIsNext(rel: string, t: string)
    requires '"' !in rel
    ensures StartsWith(RelParam(rel) + t, RelNext) <==> rel == "next"
  {
    var s := RelParam(rel) + t;
    assert s[..7] == "; rel=\"";
    assert forall j :: 7 <= j < 7 + |rel| ==> s[j] == rel[j - 7];
    assert forall i :: 0 <= i < |rel| ==> rel[i] != '"';
    assert s[7 + |rel|] == '"';
    if rel == "next" {
      assert s[..12] == RelNext;
    }
    if StartsWith(s, RelNext) {
      assert s[7..12] == "next\"";
      assert forall i :: 0 <= i < 5 ==> s[7 + i] == "next\""[i];
      assert forall k :: 0 <= k < 4 ==> "next\""[k] != '"';
      assert s[7 + |rel|] == '"';
      assert |rel| >= 4;
      assert rel[..4] == s[7..11];
      assert s[11] == '"';
      assert |rel| == 4;
      assert rel == s[7..11];
    }
  }

  lemma {:induction false} UrlRunPrefix(a: string, b: string)
    requires '>' !in a && b != [] && b[0] == '>'
    ensures UrlRun(a + b) == |a|
  {
    if a == [] {
      assert a + b == b;
    } else {
      assert (a + b)[0] == a[0];
      assert (a + b)[1..] == a[1..] + b;
      UrlRunPrefix(a[1..], b);
    }
  }

  /** The pattern at a '<' followed by a non-empty run without '>' and then a '>'. */
  lemma MatchAtRun(s: string, n: nat)
    requires s != [] && s[0] == '<' && UrlRun(s[1..]) == n && 0 < n && n + 1 < |s|
    ensures MatchAt(s) == if StartsWith(s[n + 2..], RelNext) then Some(s[1..n + 1]) else None
  {
  }

  /** At the start of a rendered link-value the pattern matches exactly when its relation is "next". */
  lemma MatchRendered(l: Link, t: string)
    requires l.url != [] && '>' !in l.url && '"' !in l.rel
    ensures MatchAt(Render(l) + t) == if l.rel == "next" then Some(l.url) else None
  {
    var tail := RelParam(l.rel) + t;
    var s := Render(l) + t;
    var n := |l.url|;
    assert s == "<" + (l.url + (">" + tail));
    assert s[1..] == l.url + (">" + tail);
    UrlRunPrefix(l.url, ">" + tail);
    assert s[n + 2..] == tail;
    assert s[1..n + 1] == l.url;
    MatchAtRun(s, n);
    RelIsNext(l.rel, t);
  }

  /** The characters of a rendered link-value after its opening '<' include no '<'. */
  lemma RenderedTail(l: Link)
    requires '<' !in l.url && '<' !in l.rel
    ensures Render(l) == "<" + Render(l)[1..] && '<' !in Render(l)[1..]
  {
    assert Render(l)[1..] == l.url + ">" + RelParam(l.rel);
  }

  /** The lookup on a link-value followed by more text: its target, or the lookup on the rest. */
  lemma NextLinkCons(l: Link, t: string)
    requires l.url != [] && '<' !in l.url && '>' !in l.url && '"' !in l.rel && '<' !in l.rel
    ensures NextLink(Render(l) + t) == if l.rel == "next" then Some(l.url) else NextLink(t)
  {
    MatchRendered(l, t);
    if l.rel != "next" {
      RenderedTail(l);
      assert (Render(l) + t)[1..] == Render(l)[1..] + t;
      NoAngleSkip(Render(l)[1..], t);
    }
  }

  /** On a well-formed header the lookup returns the target of the first "next" link. */
  lemma {:induction false} NextLinkRendered(links: seq<Link>)
    requires WellFormed(links)
    ensures NextLink(RenderLinks(links)) == FirstNext(links)
  {
    if links != [] {
      var l := links[0];
      if |links| == 1 {
        assert Render(l) + [] == RenderLinks(links);
        NextLinkCons(l, []);
      } else {
        assert WellFormed(links[1..]);
        NextLinkRendered(links[1..]);
        NextLinkSeparated(l, links[1..]);
      }
    }
  }

  /** One link-value, the separator and the rest of a header. */
  lemma NextLinkSeparated(l: Link, rest: seq<Link>)
    requires rest != [] && WellFormed([l] + rest)
    ensures NextLink(RenderLinks([l] + rest))
         == if l.rel == "next" then Some(l.url) else NextLink(RenderLinks(rest))
  {
    var links := [l] + rest;
    assert links[0] == l && links[1..] == rest;
    var tail := RenderLinks(rest);
    assert RenderLinks(links) == Render(l) + (", " + tail);
    NextLinkCons(l, ", " + tail);
    NoAngleSkip(", ", tail);
  }
}
