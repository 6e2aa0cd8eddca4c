/**
 * The per-line body of `phrase_process` in `preprocess/utils.py`: AutoPhrase
 * marks a phrase as `<phrase>a b</phrase>`; the line is split at every
 * opening tag, each segment at its closing tags, the spaces of a phrase
 * become underscores, the tags disappear and the result is stripped.
 */
module PhraseCollapse {
  import opened Wrappers
  import opened Text

  const Open: string := "<phrase>"
  const Close: string := "</phrase>"

  /** The reference rewrite of a phrase: each space becomes `_`, nothing else changes. */
  function SpacesToUnderscores(s: string): (r: string)
  {
    seq(|s|, i requires 0 <= i < |s| => if s[i] == ' ' then '_' else s[i])
  }

  /** `'_'.join(s.split(' '))`. */
  function Underscored(s: string): string
  {
    Join(Split(s, " "), "_")
  }

  /** One segment between opening tags: the phrase before its first closing tag, then the text after it. */
  function CollapseSegment(seg: string): string
  {
    var pieces := Split(seg, Close);
    if |pieces| > 1 then Underscored(pieces[0]) + pieces[1] else pieces[0]
  }

  /** The collapsed segments, concatenated in order. */
  function CollapseAll(segs: seq<string>): string
  {
    if |segs| == 0 then "" else CollapseSegment(segs[0]) + CollapseAll(segs[1..])
  }

  /** `doc` before stripping: every segment of the line collapsed, in order. */
  function Collapse(line: string): string
  {
    CollapseAll(Split(line, Open))
  }

  /** `doc.strip()`: the text written for one input line, without its newline. */
  function CollapseLine(line: string): string
  {
    Strip(Collapse(line))
  }

  /** The line written for one input line, newline included. */
  function WrittenLine(line: string): string
  {
    CollapseLine(line) + "\n"
  }

  /** Applies `f` to every line, in order. */
  method MapLines(lines: seq<string>, f: string -> string) returns (out: seq<string>)
    ensures |out| == |lines|
    ensures forall k :: 0 <= k < |lines| ==> out[k] == f(lines[k])
  {
    out := [];
    var k := 0;
    while k < |lines|
      invariant 0 <= k <= |lines| && |out| == k
      invariant forall j :: 0 <= j < k ==> out[j] == f(lines[j])
    {
      out := out + [f(lines[k])];
      k := k + 1;
    }
  }

  /**
   * `phrase_process` without its file handles: one output line, ended by a
   * newline, for every input line.
   */
  method PhraseProcess(lines: seq<string>) returns (out: seq<string>)
    ensures |out| == |lines|
    ensures forall k :: 0 <= k < |lines| ==> out[k] == CollapseLine(lines[k]) + "\n"
  {
    out := MapLines(lines, WrittenLine);
  }

  /** Neither tag repeats its first character, `<`, after position 0. */
  lemma TagsStartOnce()
    ensures forall k :: 1 <= k < |Open| ==> Open[k] != Open[0]
    ensures forall k :: 1 <= k < |Close| ==> Close[k] != Close[0]
    ensures Open[0] == '<' && Close[0] == '<'
  {
  }

  /** A string without spaces is its own rewrite. */
  lemma NoSpaceFixed(s: string)
    requires forall j :: 0 <= j < |s| ==> !OccursAt(s, " ", j)
    ensures SpacesToUnderscores(s) == s
  {
    forall j | 0 <= j < |s|
      ensures s[j] != ' '
    {
      OccursChar(s, ' ', j);
    }
  }

  /** The rewrite works character by character, so it can be cut at a space. */
  lemma CutAtSpace(s: string, i: int)
    requires 0 <= i < |s| && s[i] == ' '
    ensures SpacesToUnderscores(s) == SpacesToUnderscores(s[..i]) + "_" + SpacesToUnderscores(s[i + 1..])
  {
  }

  /** `'_'.join(s.split(' '))` is the pointwise space-to-underscore rewrite. */
  lemma {:induction false} UnderscoredSpec(s: string)
    ensures Underscored(s) == SpacesToUnderscores(s)
    decreases |s|
  {
    var f := Find(s, " ");
    if f.None? {
      NoSpaceFixed(s);
      SplitWithoutSeparator(s, " ");
    } else {
      var i := f.value;
      var tail := s[i + 1..];
      assert Split(s, " ") == [s[..i]] + Split(tail, " ");
      UnderscoredSpec(tail);
      JoinCons(s[..i], Split(tail, " "), "_");
      assert Underscored(s) == s[..i] + "_" + Underscored(tail);
      forall j | 0 <= j < i
        ensures !OccursAt(s[..i], " ", j)
      {
        if OccursAt(s[..i], " ", j) {
          OccursInPrefix(s, " ", i, j);
        }
      }
      NoSpaceFixed(s[..i]);
      OccursChar(s, ' ', i);
      CutAtSpace(s, i);
    }
  }

  /** The rewritten phrase has the same length and differs only where `s` has a space. */
  lemma UnderscoredPointwise(s: string)
    ensures |Underscored(s)| == |s|
    ensures forall i :: 0 <= i < |s| ==> Underscored(s)[i] == if s[i] == ' ' then '_' else s[i]
  {
    UnderscoredSpec(s);
  }

  /** A segment without a closing tag is copied verbatim. */
  lemma SegmentWithoutClose(seg: string)
    requires !Contains(seg, Close)
    ensures CollapseSegment(seg) == seg
  {
    SplitWithoutSeparator(seg, Close);
  }

  /**
   * A segment with a closing tag at `i` keeps the underscored phrase before
   * it and the text after it up to the next closing tag, if any; whatever
   * follows a second closing tag is dropped.
   */
  lemma SegmentWithClose(seg: string)
    requires Contains(seg, Close)
    ensures var i := Find(seg, Close).value;
      var rest := seg[i + |Close|..];
      && !Contains(seg[..i], Close)
      && (!Contains(rest, Close) ==> CollapseSegment(seg) == SpacesToUnderscores(seg[..i]) + rest)
      && (Contains(rest, Close) ==>
            CollapseSegment(seg) == SpacesToUnderscores(seg[..i]) + rest[..Find(rest, Close).value])
  {
    var i := Find(seg, Close).value;
    var rest := seg[i + |Close|..];
    SplitAtFirst(seg, Close);
    FirstPiece(rest, Close);
    UnderscoredSpec(seg[..i]);
  }

  /** Splitting at a first occurrence: the text before it, then the pieces of the rest. */
  lemma SplitAtFirst(s: string, sep: string)
    requires |sep| > 0 && Contains(s, sep)
    ensures var i := Find(s, sep).value;
      && Split(s, sep) == [s[..i]] + Split(s[i + |sep|..], sep)
      && !Contains(s[..i], sep)
  {
    var i := Find(s, sep).value;
    assert Split(s, sep) == [s[..i]] + Split(s[i + |sep|..], sep);
    SplitPiecesAreFree(s, sep);
    assert Split(s, sep)[0] == s[..i];
  }

  /** The first piece of a split is everything before the first separator. */
  lemma FirstPiece(s: string, sep: string)
    requires |sep| > 0
    ensures !Contains(s, sep) ==> Split(s, sep)[0] == s
    ensures Contains(s, sep) ==> Split(s, sep)[0] == s[..Find(s, sep).value]
  {
    SplitWithoutSeparator(s, sep);
  }

  /** A line without either tag is only stripped. */
  lemma UntaggedLine(line: string)
    requires !Contains(line, Open) && !Contains(line, Close)
    ensures CollapseLine(line) == Strip(line)
  {
    CollapseSingle(line);
    SegmentWithoutClose(line);
  }

  /** A tag whose first character occurs nowhere else in it is first found right after a tag-free prefix. */
  lemma FindAfterFree(a: string, pat: string, b: string)
    requires |pat| > 0 && forall k :: 1 <= k < |pat| ==> pat[k] != pat[0]
    requires !Contains(a, pat)
    ensures Find(a + pat + b, pat) == Some(|a|)
  {
    var s := a + pat + b;
    assert OccursAt(s, pat, |a|) by {
      assert s[|a|..|a| + |pat|] == pat;
    }
    forall j | 0 <= j < |a|
      ensures !OccursAt(s, pat, j)
    {
      if j + |pat| <= |a| {
        assert a[j..j + |pat|] == s[j..j + |pat|];
        assert !OccursAt(a, pat, j);
      } else {
        assert s[|a|] == pat[0];
        assert j + |pat| > |s| || s[j..j + |pat|][|a| - j] == s[|a|];
      }
    }
  }

  /**
   * Collapsing is a left-to-right concatenation: a tag-free prefix is
   * collapsed as one segment, the rest of the line after the opening tag on
   * its own.
   */
  lemma CollapseCons(a: string, b: string)
    requires !Contains(a, Open)
    ensures Collapse(a + Open + b) == CollapseSegment(a) + Collapse(b)
  {
    TagsStartOnce();
    FindAfterFree(a, Open, b);
    var s := a + Open + b;
    assert s[..|a|] == a;
    assert s[|a| + |Open|..] == b;
  }

  /** A string without `<` contains neither tag. */
  lemma NoTagsWithoutLt(s: string)
    requires '<' !in s
    ensures !Contains(s, Open) && !Contains(s, Close)
  {
    forall j
      ensures !OccursAt(s, Open, j) && !OccursAt(s, Close, j)
    {
      if 0 <= j < |s| {
        assert s[j] in s;
        if j + |Open| <= |s| {
          assert s[j..j + |Open|][0] == s[j];
        }
        if j + |Close| <= |s| {
          assert s[j..j + |Close|][0] == s[j];
        }
      }
    }
  }

  /** A line without an opening tag is a single segment. */
  lemma CollapseSingle(a: string)
    requires !Contains(a, Open)
    ensures Collapse(a) == CollapseSegment(a)
  {
    SplitWithoutSeparator(a, Open);
    assert CollapseAll([a]) == CollapseSegment(a) + CollapseAll([a][1..]);
  }

  /** A tag-free phrase between its tags, then tag-free text, collapse to the underscored phrase and the text. */
  lemma SegmentOfSpan(p: string, t: string)
    requires '<' !in p && '<' !in t
    ensures CollapseSegment(p + Close + t) == SpacesToUnderscores(p) + t
  {
    TagsStartOnce();
    NoTagsWithoutLt(p);
    NoTagsWithoutLt(t);
    FindAfterFree(p, Close, t);
    var s := p + Close + t;
    assert s[..|p|] == p;
    assert s[|p| + |Close|..] == t;
    SplitWithoutSeparator(t, Close);
    UnderscoredSpec(p);
  }

  /** A phrase of well-formed markup: the tagged text and the plain text after it. */
  datatype Span = Span(phrase: string, after: string)

  /** The markup AutoPhrase writes: each span as `<phrase>p</phrase>t`. */
  function Markup(spans: seq<Span>): string
    decreases |spans|, 1
  {
    if |spans| == 0 then ""
    else Open + AfterOpen(spans)
  }

  /** The markup of the spans without the first opening tag. */
  function AfterOpen(spans: seq<Span>): string
    requires |spans| > 0
    decreases |spans|, 0
  {
    spans[0].phrase + Close + spans[0].after + Markup(spans[1..])
  }

  lemma Regroup(a: string, b: string, c: string)
    ensures a + (b + c) == a + b + c
  {
  }

  /** The text intended for that markup: each phrase underscored, then its plain text. */
  function Intended(spans: seq<Span>): string
  {
    if |spans| == 0 then ""
    else SpacesToUnderscores(spans[0].phrase) + spans[0].after + Intended(spans[1..])
  }

  /** Neither the text nor any span has a `<` of its own. */
  predicate TagFree(lead: string, spans: seq<Span>)
  {
    && '<' !in lead
    && forall k :: 0 <= k < |spans| ==> '<' !in spans[k].phrase && '<' !in spans[k].after
  }

  /** The spans after the first are tag-free too. */
  lemma TagFreeTail(spans: seq<Span>)
    requires |spans| > 0 && TagFree("", spans)
    ensures TagFree("", spans[1..])
  {
    assert forall k :: 0 <= k < |spans| - 1 ==> spans[1..][k] == spans[k + 1];
  }

  /** Markup that starts right after an opening tag collapses to the intended text. */
  lemma {:induction false} CollapseSpans(spans: seq<Span>)
    requires |spans| > 0 && TagFree("", spans)
    ensures Collapse(AfterOpen(spans)) == Intended(spans)
    decreases |spans|
  {
    var p, t := spans[0].phrase, spans[0].after;
    var rest := spans[1..];
    var seg := p + Close + t;
    SegmentOfSpan(p, t);
    TagFreeSpanHasNoOpen(p, t);
    if |rest| == 0 {
      assert seg + Markup(rest) == seg;
      CollapseSingle(seg);
    } else {
      TagFreeTail(spans);
      CollapseSpans(rest);
      Regroup(seg, Open, AfterOpen(rest));
      CollapseCons(seg, AfterOpen(rest));
    }
  }

  /** A phrase and its text joined by a closing tag contain no opening tag. */
  lemma TagFreeSpanHasNoOpen(p: string, t: string)
    requires '<' !in p && '<' !in t
    ensures !Contains(p + Close + t, Open)
  {
    var s := p + Close + t;
    TagsStartOnce();
    forall i | 0 <= i < |s| && i != |p|
      ensures s[i] != '<'
    {
      if i < |p| {
        assert s[i] == p[i];
      } else if i < |p| + |Close| {
        assert s[i] == Close[i - |p|];
      } else {
        assert s[i] == t[i - |p| - |Close|];
      }
    }
    assert s[|p| + 1] == Close[1] == '/';
    forall j
      ensures !OccursAt(s, Open, j)
    {
      if 0 <= j && j + |Open| <= |s| {
        assert s[j..j + |Open|][0] == s[j];
        assert s[j..j + |Open|][1] == s[j + 1];
      }
    }
  }

  /**
   * Well-formed markup collapses to the intended text: the plain text as is,
   * every phrase with its spaces turned into underscores, no tag left.
   */
  lemma CollapseMarkup(lead: string, spans: seq<Span>)
    requires TagFree(lead, spans)
    ensures Collapse(lead + Markup(spans)) == lead + Intended(spans)
  {
    NoTagsWithoutLt(lead);
    if |spans| == 0 {
      assert lead + Markup(spans) == lead && lead + Intended(spans) == lead;
      CollapseSingle(lead);
      SegmentWithoutClose(lead);
    } else {
      Regroup(lead, Open, AfterOpen(spans));
      CollapseCons(lead, AfterOpen(spans));
      SegmentWithoutClose(lead);
      CollapseSpans(spans);
    }
  }

  /** The intended text of tag-free spans has no `<`. */
  lemma {:induction false} IntendedHasNoLt(spans: seq<Span>)
    requires TagFree("", spans)
    ensures '<' !in Intended(spans)
    decreases |spans|
  {
    if |spans| > 0 {
      var p := spans[0].phrase;
      assert forall i :: 0 <= i < |p| ==> SpacesToUnderscores(p)[i] != '<' by {
        assert forall i :: 0 <= i < |p| ==> p[i] in p;
      }
      TagFreeTail(spans);
      IntendedHasNoLt(spans[1..]);
    }
  }

  /**
   * For well-formed markup the written line holds no tag at all: nothing of
   * it is a `<`.
   */
  lemma CleanMarkupLine(lead: string, spans: seq<Span>)
    requires TagFree(lead, spans)
    ensures var out := CollapseLine(lead + Markup(spans));
      '<' !in out && !Contains(out, Open) && !Contains(out, Close)
  {
    CollapseMarkup(lead, spans);
    IntendedHasNoLt(spans);
    var s := lead + Intended(spans);
    assert '<' !in s;
    StripKeepsOnlyOwn(s);
    NoTagsWithoutLt(Strip(s));
  }

  /**
   * Ill-formed input can assemble a new tag out of the pieces around a
   * removed one: the text `<phr`, a tag, and `ase>` collapse to `<phrase>`.
   */
  lemma TagCanReform()
    ensures CollapseLine("<phr" + Open + "ase>") == Open
  {
    var a, b := "<phr", "ase>";
    ShorterThanTags(a);
    ShorterThanTags(b);
    CollapseCons(a, b);
    SegmentWithoutClose(a);
    CollapseSingle(b);
    SegmentWithoutClose(b);
    assert Collapse(a + Open + b) == a + b;
    assert a + b == Open;
    StripKeeps(Open);
  }

  /** A string shorter than both tags contains neither. */
  lemma ShorterThanTags(s: string)
    requires |s| < |Open| && |s| < |Close|
    ensures !Contains(s, Open) && !Contains(s, Close)
  {
  }
}
