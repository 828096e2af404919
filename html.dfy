/**
 * `cleanHtml` (app/api/google-feedNew/route.js and, identically, app/api/google-feed/route.js):
 * strip tags, drop "&#xD;" entities, trim, collapse newline runs, collapse white-space runs.
 * Each regular-expression replacement is a left-to-right scan, as JavaScript's global replace is.
 */
module Html {
  import opened Text

  /** No leading or trailing white space and no two white-space characters in a row. */
  ghost predicate Tidy(s: string) {
    (s == [] || (!IsSpace(s[0]) && !IsSpace(s[|s| - 1])))
    && NoDoubleSpace(s)
  }

  ghost predicate NoDoubleSpace(s: string) {
    forall i, j :: 0 <= i && j == i + 1 && j < |s| ==> !IsSpace(s[i]) || !IsSpace(s[j])
  }

  /** The length of a tag body: characters up to and including the first '>', or all of `t`. */
  function TagRest(t: string): (n: nat)
    ensures n <= |t|
    ensures t != [] ==> n >= 1
  {
    if t == [] then 0 else if t[0] == '>' then 1 else 1 + TagRest(t[1..])
  }

  /**
   * The tag removal: a '<' followed by a character other than '>' starts a tag
   * that runs to the next '>' or to the end of the text. A '<' that ends the text or is followed
   * by '>' is kept.
   */
  function StripTags(s: string): (r: string)
    ensures |r| <= |s|
    ensures s != [] && s[0] != '<' ==> r != [] && r[0] == s[0]
    ensures NoTag(r)
    decreases |s|
  {
    if s == [] then []
    else if s[0] == '<' && |s| >= 2 && s[1] != '>' then StripTags(s[1 + TagRest(s[1..])..])
    else [s[0]] + StripTags(s[1..])
  }

  /** Text in which no tag starts: every '<' is last or is followed by '>'. */
  ghost predicate NoTag(s: string) {
    forall i, j :: 0 <= i && j == i + 1 && j < |s| && s[i] == '<' ==> s[j] == '>'
  }

  /** Stripping tags from text without tags changes nothing. */
  lemma {:induction false} StripTagsNoTag(s: string)
    requires NoTag(s)
    ensures StripTags(s) == s
  {
    if s != [] {
      assert NoTag(s[1..]);
      StripTagsNoTag(s[1..]);
    }
  }

  const CarriageReturnEntity: string := "&#xD;"

  /** Every "&#xD;" entity removed, scanning left to right. */
  function RemoveCarriageReturns(s: string): (r: string)
    ensures |r| <= |s|
    decreases |s|
  {
    if s == [] then []
    else if |s| >= 5 && s[..5] == CarriageReturnEntity then RemoveCarriageReturns(s[5..])
    else [s[0]] + RemoveCarriageReturns(s[1..])
  }

  /** Newline runs collapsed: a run of newlines becomes one; first and last characters are kept. */
  function SqueezeNewlines(s: string): (r: string)
    ensures r == [] <==> s == []
    ensures s != [] ==> r[0] == s[0] && r[|r| - 1] == s[|s| - 1]
  {
    if s == [] then []
    else if |s| >= 2 && s[0] == '\n' && s[1] == '\n' then SqueezeNewlines(s[1..])
    else [s[0]] + SqueezeNewlines(s[1..])
  }

  /** The number of leading white-space characters. */
  function SpaceRun(s: string): (n: nat)
    ensures n <= |s|
    ensures forall i :: 0 <= i < n ==> IsSpace(s[i])
    ensures n < |s| ==> !IsSpace(s[n])
  {
    if s != [] && IsSpace(s[0]) then 1 + SpaceRun(s[1..]) else 0
  }

  /**
   * White-space runs collapsed: every run of two or more white-space characters becomes one
   * space. The result never has two white-space characters in a row, and white space at its
   * ends stays exactly where the input had it.
   */
  function SqueezeSpaces(s: string): (r: string)
    ensures |r| <= |s|
    ensures r == [] <==> s == []
    ensures s != [] ==> (IsSpace(r[0]) <==> IsSpace(s[0]))
    ensures s != [] ==> (IsSpace(r[|r| - 1]) <==> IsSpace(s[|s| - 1]))
    ensures NoDoubleSpace(r)
    decreases |s|
  {
    if s == [] then []
    else
      var n := SpaceRun(s);
      if n >= 2 then " " + SqueezeSpaces(s[n..])
      else [s[0]] + SqueezeSpaces(s[1..])
  }

  /** `cleanHtml`: the result is tidy. */
  function CleanHtml(raw: string): (r: string)
    ensures Tidy(r)
  {
    Squeeze(Trim(RemoveCarriageReturns(StripTags(raw))))
  }

  /** The two squeezes; on text with no white space at its ends the result is tidy. */
  function Squeeze(t: string): (r: string)
    ensures (t == [] || (!IsSpace(t[0]) && !IsSpace(t[|t| - 1]))) ==> Tidy(r)
  {
    var n := SqueezeNewlines(t);
    assert n == [] <==> t == [];
    var r := SqueezeSpaces(n);
    assert t != [] ==> (IsSpace(r[0]) <==> IsSpace(t[0])) && (IsSpace(r[|r| - 1]) <==> IsSpace(t[|t| - 1]));
    r
  }

  /** Text without white space passes both squeezes unchanged. */
  lemma {:induction false} SqueezeNoSpace(s: string)
    requires forall i :: 0 <= i < |s| ==> !IsSpace(s[i])
    ensures SqueezeNewlines(s) == s && SqueezeSpaces(s) == s
  {
    if s != [] {
      SqueezeNoSpace(s[1..]);
    }
  }

  /** `cleanHtml` leaves text with no tag, no entity and no white space unchanged. */
  lemma CleanHtmlPlain(s: string)
    requires forall i :: 0 <= i < |s| ==> s[i] != '<' && !IsSpace(s[i])
    requires RemoveCarriageReturns(s) == s
    ensures CleanHtml(s) == s
  {
    StripTagsNoTag(s);
    TrimTidy(s);
    SqueezeNoSpace(s);
  }

  /** A character that does not start the entity is kept. */
  lemma RemoveCarriageReturnsKeeps(s: string)
    requires s != [] && (|s| < 5 || s[..5] != CarriageReturnEntity)
    ensures RemoveCarriageReturns(s) == [s[0]] + RemoveCarriageReturns(s[1..])
  {
  }

  /** The entity is removed where it starts. */
  lemma RemoveCarriageReturnsDrops(s: string)
    requires |s| >= 5 && s[..5] == CarriageReturnEntity
    ensures RemoveCarriageReturns(s) == RemoveCarriageReturns(s[5..])
  {
  }

  /** Removing "&#xD;" from "&#x&#xD;D;" spells a new "&#xD;". */
  lemma EntityInsideEntity(s: string, e: string)
    requires s == "&#x&#xD;D;" && e == CarriageReturnEntity
    ensures RemoveCarriageReturns(s) == e
  {
    var s1 := s[1..];
    var s2 := s1[1..];
    var s3 := s2[1..];
    var t := s3[5..];
    var t1 := t[1..];
    assert s[..5][3] != e[3];
    RemoveCarriageReturnsKeeps(s);
    assert s1[0] != '&' && s2[0] != '&';
    RemoveCarriageReturnsKeeps(s1);
    RemoveCarriageReturnsKeeps(s2);
    assert s3[..5] == e;
    RemoveCarriageReturnsDrops(s3);
    assert |t| == 2 && |t1| == 1 && t1[1..] == [];
    RemoveCarriageReturnsKeeps(t);
    RemoveCarriageReturnsKeeps(t1);
    assert [s[0], s1[0], s2[0], t[0], t1[0]] == e;
  }

  /** Trimming text without white space changes nothing. */
  lemma TrimNoSpace(e: string)
    requires forall i :: 0 <= i < |e| ==> !IsSpace(e[i])
    ensures Trim(e) == e
  {
    if e != [] {
      assert !IsSpace(e[0]) && !IsSpace(e[|e| - 1]);
    }
    TrimTidy(e);
  }

  /** The steps after entity removal leave text without white space unchanged. */
  lemma SqueezeTrimNoSpace(e: string)
    requires forall i :: 0 <= i < |e| ==> !IsSpace(e[i])
    ensures Squeeze(Trim(e)) == e
  {
    TrimNoSpace(e);
    SqueezeNoSpace(e);
  }

  lemma StripTagsNested(s: string)
    requires s == "&#x&#xD;D;"
    ensures StripTags(s) == s
  {
    assert forall i :: 0 <= i < |s| ==> s[i] != '<';
    StripTagsNoTag(s);
  }

  /** `cleanHtml` leaves "&#xD;" spelled across another "&#xD;". */
  lemma CleanHtmlNestedEntity(s: string, e: string)
    requires s == "&#x&#xD;D;" && e == CarriageReturnEntity
    ensures CleanHtml(s) == e
  {
    StripTagsNested(s);
    EntityInsideEntity(s, e);
    assert forall i :: 0 <= i < |e| ==> !IsSpace(e[i]);
    SqueezeTrimNoSpace(e);
  }

  /** `cleanHtml` of the entity alone is empty. */
  lemma CleanHtmlEntity()
    ensures CleanHtml(CarriageReturnEntity) == []
  {
    var e := CarriageReturnEntity;
    assert forall i :: 0 <= i < |e| ==> e[i] != '<';
    StripTagsNoTag(e);
    assert e[..5] == CarriageReturnEntity && e[5..] == [];
    assert RemoveCarriageReturns(e) == [];
    assert Trim([]) == [];
  }

  /** A second `cleanHtml` removes what the first one left: the function is not idempotent. */
  lemma CleanHtmlNotIdempotent(s: string)
    requires s == "&#x&#xD;D;"
    ensures CleanHtml(s) == CarriageReturnEntity
    ensures CleanHtml(CleanHtml(s)) == ""
  {
    CleanHtmlNestedEntity(s, CarriageReturnEntity);
    CleanHtmlEntity();
  }
}
