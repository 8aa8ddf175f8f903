/** The URL linkifier `url_to_md` of kim.py.

    The scan finds each occurrence of a URL prefix, takes the URL token that
    starts there and wraps it as the Markdown link `[url](url)`, then resumes
    after the inserted link. The token ends at the first line break after the
    prefix; when the rest of the text has no line break, at the first space;
    failing both, at the end of the text.

    `Tokenize` is an independent description of the same scan: it cuts the
    input into plain spans and URL tokens that together cover it exactly, and
    `Linkify` renders those segments. `UrlToMd`, the index-driven loop, is
    proved to compute `Linkify`. `UrlToMdAsWritten` follows the original loop
    literally, including its `replace(url, ..., 1)`, which rewrites the
    leftmost copy of the URL in the whole text rather than the one the scan
    found; `RepeatedUrlDoubleWrapped` shows an input where the two differ. */
module Linkify {
  import opened Wrappers
  import opened Text

  /** A prefix the scan can work with: non-empty (an empty prefix never lets the
      loop finish) and free of the two token terminators. "http://" and
      "https://", the only prefixes the exporter uses, qualify. */
  predicate ValidPrefix(p: string) {
    |p| > 0 && '\n' !in p && ' ' !in p
  }

  lemma ExporterPrefixesValid()
    ensures ValidPrefix("http://") && ValidPrefix("https://")
  {
  }

  /** The end of the URL token that starts at `i`: the first line break at or
      after `i`, else the first space at or after `i`, else the end of `s`. */
  function TokenEnd(s: string, i: nat): (e: nat)
    requires i <= |s|
    ensures i <= e <= |s|
    ensures e == |s| || s[e] == '\n' || s[e] == ' '
    ensures forall k :: i <= k < e ==> s[k] != '\n'
  {
    match FindChar(s, '\n', i)
    case Some(n) => n
    case None =>
      match FindChar(s, ' ', i)
      case Some(sp) => sp
      case None => |s|
  }

  /** The token ends at a line break whenever one follows; only when none
      follows can it end at a space, and then at the first one. */
  lemma TokenEndIsFirstBreak(s: string, i: nat)
    requires i <= |s|
    ensures (exists k :: i <= k < |s| && s[k] == '\n') <==> (TokenEnd(s, i) < |s| && s[TokenEnd(s, i)] == '\n')
    ensures (forall k :: i <= k < |s| ==> s[k] != '\n') ==>
              forall k :: i <= k < TokenEnd(s, i) ==> s[k] != ' '
  {
  }

  /** A token that starts with a valid prefix contains the whole prefix. */
  lemma TokenCoversPrefix(s: string, p: string, i: nat)
    requires ValidPrefix(p) && OccursAt(s, p, i)
    ensures i + |p| <= TokenEnd(s, i)
  {
    forall k | i <= k < i + |p|
      ensures s[k] != '\n' && s[k] != ' '
    {
      assert s[k] == s[i..i + |p|][k - i];
    }
  }

  /** The token end depends only on the text from `k` on. */
  lemma TokenEndInSuffix(s: string, k: nat, d: nat)
    requires k + d <= |s|
    ensures TokenEnd(s, k + d) == TokenEnd(s[k..], d) + k
  {
    FindCharInSuffix(s, '\n', k, d);
    FindCharInSuffix(s, ' ', k, d);
  }

  datatype Segment = Plain(text: string) | Url(url: string)

  /** The Markdown link for a URL token. */
  function Wrap(url: string): string {
    "[" + url + "](" + url + ")"
  }

  /** The input text a run of segments covers. */
  function Source(segs: seq<Segment>): string {
    if segs == [] then [] else SegmentSource(segs[0]) + Source(segs[1..])
  }

  /** The Markdown text a run of segments renders to. */
  function Render(segs: seq<Segment>): string {
    if segs == [] then [] else SegmentRender(segs[0]) + Render(segs[1..])
  }

  function SegmentSource(g: Segment): string {
    match g
    case Plain(t) => t
    case Url(u) => u
  }

  function SegmentRender(g: Segment): string {
    match g
    case Plain(t) => t
    case Url(u) => Wrap(u)
  }

  lemma SourceCons(g: Segment, rest: seq<Segment>)
    ensures Source([g] + rest) == SegmentSource(g) + Source(rest)
  {
    assert ([g] + rest)[1..] == rest;
  }

  lemma RenderCons(g: Segment, rest: seq<Segment>)
    ensures Render([g] + rest) == SegmentRender(g) + Render(rest)
  {
    assert ([g] + rest)[1..] == rest;
  }

  /** Nothing before the first occurrence contains the pattern. */
  lemma NothingBeforeFirst(s: string, p: string, i: nat)
    requires |p| > 0 && Find(s, p, 0) == Some(i)
    ensures !Contains(s[..i], p)
  {
    forall j: nat | true
      ensures !OccursAt(s[..i], p, j)
    {
      OccursInPrefix(s, p, i, j);
    }
  }

  lemma SplitThree(s: string, i: nat, e: nat)
    requires i <= e <= |s|
    ensures s == s[..i] + (s[i..e] + s[e..])
  {
  }

  lemma TokenStartsWithPrefix(s: string, p: string, i: nat, e: nat)
    requires OccursAt(s, p, i) && i + |p| <= e <= |s|
    ensures |p| <= |s[i..e]| && s[i..e][..|p|] == p
  {
    assert s[i..e][..|p|] == s[i..i + |p|];
  }

  /** A URL token: it starts with the prefix and stays on one line. */
  predicate IsUrlToken(u: string, p: string) {
    |p| <= |u| && u[..|p|] == p && '\n' !in u
  }

  /** The scan as a segmentation of `s`: plain spans and URL tokens that,
      read back in order, give exactly `s`. */
  function Tokenize(s: string, p: string): (segs: seq<Segment>)
    requires ValidPrefix(p)
    ensures Source(segs) == s
    decreases |s|
  {
    match Find(s, p, 0)
    case None =>
      SourceCons(Plain(s), []);
      [Plain(s)]
    case Some(i) =>
      TokenCoversPrefix(s, p, i);
      var e := TokenEnd(s, i);
      var rest := Tokenize(s[e..], p);
      SourceCons(Url(s[i..e]), rest);
      SourceCons(Plain(s[..i]), [Url(s[i..e])] + rest);
      SplitThree(s, i, e);
      [Plain(s[..i])] + ([Url(s[i..e])] + rest)
  }

  /** Every URL segment is a token that starts with the prefix and stays on one line. */
  predicate UrlsAreTokens(segs: seq<Segment>, p: string) {
    forall k :: 0 <= k < |segs| && segs[k].Url? ==> IsUrlToken(segs[k].url, p)
  }

  /** No plain segment contains the prefix. */
  predicate PlainsLackPrefix(segs: seq<Segment>, p: string) {
    forall k :: 0 <= k < |segs| && segs[k].Plain? ==> !Contains(segs[k].text, p)
  }

  lemma SegmentsCons(a: Segment, b: Segment, rest: seq<Segment>, p: string)
    ensures UrlsAreTokens([a] + ([b] + rest), p)
            <==> (a.Url? ==> IsUrlToken(a.url, p)) && (b.Url? ==> IsUrlToken(b.url, p)) && UrlsAreTokens(rest, p)
    ensures PlainsLackPrefix([a] + ([b] + rest), p)
            <==> (a.Plain? ==> !Contains(a.text, p)) && (b.Plain? ==> !Contains(b.text, p)) && PlainsLackPrefix(rest, p)
  {
    var segs := [a] + ([b] + rest);
    assert segs[0] == a && segs[1] == b;
    assert forall k :: 2 <= k < |segs| ==> segs[k] == rest[k - 2];
    if UrlsAreTokens(segs, p) {
      forall k | 0 <= k < |rest| && rest[k].Url?
        ensures IsUrlToken(rest[k].url, p)
      {
        assert rest[k] == segs[k + 2];
      }
    }
    if PlainsLackPrefix(segs, p) {
      forall k | 0 <= k < |rest| && rest[k].Plain?
        ensures !Contains(rest[k].text, p)
      {
        assert rest[k] == segs[k + 2];
      }
    }
  }

  lemma NoBreakInToken(s: string, i: nat, e: nat)
    requires i <= e <= |s| && forall k :: i <= k < e ==> s[k] != '\n'
    ensures '\n' !in s[i..e]
  {
    forall j | 0 <= j < e - i
      ensures s[i..e][j] != '\n'
    {
      assert s[i..e][j] == s[i + j];
    }
  }

  /** The scan only ever takes URL tokens that start with the prefix and stay on one line. */
  lemma {:induction false} TokenizeUrls(s: string, p: string)
    requires ValidPrefix(p)
    ensures UrlsAreTokens(Tokenize(s, p), p)
    decreases |s|
  {
    match Find(s, p, 0)
    case None =>
    case Some(i) =>
      TokenCoversPrefix(s, p, i);
      var e := TokenEnd(s, i);
      TokenStartsWithPrefix(s, p, i, e);
      NoBreakInToken(s, i, e);
      TokenizeUrls(s[e..], p);
      SegmentsCons(Plain(s[..i]), Url(s[i..e]), Tokenize(s[e..], p), p);
  }

  /** No plain segment contains the prefix: every occurrence of it lies inside a URL token. */
  lemma {:induction false} TokenizePlain(s: string, p: string)
    requires ValidPrefix(p)
    ensures PlainsLackPrefix(Tokenize(s, p), p)
    decreases |s|
  {
    match Find(s, p, 0)
    case None =>
    case Some(i) =>
      TokenCoversPrefix(s, p, i);
      NothingBeforeFirst(s, p, i);
      var e := TokenEnd(s, i);
      TokenizePlain(s[e..], p);
      SegmentsCons(Plain(s[..i]), Url(s[i..e]), Tokenize(s[e..], p), p);
  }

  /** The linkified text: the scan's URL tokens wrapped, everything else kept. */
  function Linkify(s: string, p: string): string
    requires ValidPrefix(p)
    decreases |s|
  {
    match Find(s, p, 0)
    case None => s
    case Some(i) =>
      TokenCoversPrefix(s, p, i);
      var e := TokenEnd(s, i);
      s[..i] + Wrap(s[i..e]) + Linkify(s[e..], p)
  }

  /** Linkifying renders the segmentation: URL segments become links, plain
      segments stay as they are. */
  lemma {:induction false} LinkifyRendersTokens(s: string, p: string)
    requires ValidPrefix(p)
    ensures Linkify(s, p) == Render(Tokenize(s, p))
    decreases |s|
  {
    match Find(s, p, 0)
    case None =>
      RenderCons(Plain(s), []);
      assert [Plain(s)] + [] == [Plain(s)];
    case Some(i) =>
      TokenCoversPrefix(s, p, i);
      var e := TokenEnd(s, i);
      var rest := Tokenize(s[e..], p);
      LinkifyRendersTokens(s[e..], p);
      RenderCons(Url(s[i..e]), rest);
      RenderCons(Plain(s[..i]), [Url(s[i..e])] + rest);
  }

  /** Text without the prefix comes back unchanged. */
  lemma LinkifyWithoutPrefix(s: string, p: string)
    requires ValidPrefix(p) && !Contains(s, p)
    ensures Linkify(s, p) == s
  {
  }

  /** One round of the scan, seen on the suffix that starts at `idx`. */
  lemma SuffixStep(t: string, p: string, idx: nat, start: nat)
    requires ValidPrefix(p) && idx <= |t| && Find(t, p, idx) == Some(start)
    ensures start + |p| <= TokenEnd(t, start)
    ensures Linkify(t[idx..], p)
            == t[idx..start] + Wrap(t[start..TokenEnd(t, start)]) + Linkify(t[TokenEnd(t, start)..], p)
  {
    var e := TokenEnd(t, start);
    TokenCoversPrefix(t, p, start);
    SuffixFacts(t, p, idx, start, e);
    StepOnPieces(t[idx..], p, start - idx, e - idx, t[idx..start], t[start..e], t[e..]);
  }

  lemma SuffixFacts(t: string, p: string, idx: nat, start: nat, e: nat)
    requires idx <= |t| && Find(t, p, idx) == Some(start) && e == TokenEnd(t, start)
    ensures idx <= start <= e <= |t|
    ensures RoundAt(t[idx..], p, start - idx, e - idx, t[idx..start], t[start..e], t[e..])
  {
    SuffixView(t, p, idx, start);
    SuffixSlices(t, idx, start, e);
  }

  /** The scan on `u` finds the prefix at `a`, its token ends at `b`, and the
      text before, inside and after the token is as named. */
  predicate RoundAt(u: string, p: string, a: nat, b: nat, before: string, url: string, after: string) {
    Find(u, p, 0) == Some(a) && TokenEnd(u, a) == b
    && a <= b <= |u| && u[..a] == before && u[a..b] == url && u[b..] == after
  }

  /** The search and the token end, seen from the suffix that starts at `idx`. */
  lemma SuffixView(t: string, p: string, idx: nat, start: nat)
    requires idx <= |t| && Find(t, p, idx) == Some(start)
    ensures idx <= start <= TokenEnd(t, start)
    ensures Find(t[idx..], p, 0) == Some(start - idx)
    ensures TokenEnd(t[idx..], start - idx) == TokenEnd(t, start) - idx
  {
    FindView(t, p, idx, start);
    TokenView(t, idx, start);
  }

  lemma TokenView(t: string, idx: nat, start: nat)
    requires idx <= start <= |t|
    ensures TokenEnd(t[idx..], start - idx) == TokenEnd(t, start) - idx
  {
    TokenEndInSuffix(t, idx, start - idx);
  }

  lemma FindView(t: string, p: string, idx: nat, start: nat)
    requires idx <= |t| && Find(t, p, idx) == Some(start)
    ensures idx <= start && Find(t[idx..], p, 0) == Some(start - idx)
  {
    FindInSuffix(t, p, idx, 0);
  }

  /** One round of the scan on `u`, with its three pieces named. */
  lemma StepOnPieces(u: string, p: string, a: nat, b: nat, before: string, url: string, after: string)
    requires ValidPrefix(p) && RoundAt(u, p, a, b, before, url, after)
    ensures Linkify(u, p) == before + Wrap(url) + Linkify(after, p)
  {
    LinkifyAt(u, p, a, b);
  }

  lemma SuffixSlices(t: string, idx: nat, start: nat, e: nat)
    requires idx <= start <= e <= |t|
    ensures t[idx..][..start - idx] == t[idx..start]
    ensures t[idx..][start - idx..e - idx] == t[start..e]
    ensures t[idx..][e - idx..] == t[e..]
  {
  }

  /** The scan stops: no prefix from `idx` on, so the suffix is kept as it is. */
  lemma SuffixDone(t: string, p: string, idx: nat)
    requires ValidPrefix(p) && idx <= |t| && Find(t, p, idx).None?
    ensures Linkify(t[idx..], p) == t[idx..]
  {
    FindInSuffix(t, p, idx, 0);
  }

  /** `url_to_md(text, prefix)` with the replacement made where the scan found
      the token; the index bookkeeping follows the original loop. */
  method UrlToMd(text: string, prefix: string) returns (r: string)
    requires ValidPrefix(prefix)
    ensures r == Linkify(text, prefix)
    ensures !Contains(text, prefix) ==> r == text
  {
    r := text;
    var idx: nat := 0;
    var found := Find(r, prefix, idx);
    ScanBegins(text, prefix);
    while found.Some?
      invariant idx <= |r|
      invariant found == Find(r, prefix, idx)
      invariant Scanned(r, prefix, idx) == Linkify(text, prefix)
      decreases |r| - idx
    {
      var start := found.value;
      var stop := TokenEnd(r, start);
      var next := SpliceLink(r, start, stop);
      CorrectedRound(r, prefix, idx, start, stop);
      r, idx := next, stop + (stop - start) + 4;
      found := Find(r, prefix, idx);
    }
    ScanEnds(r, prefix, idx);
    if !Contains(text, prefix) {
      LinkifyWithoutPrefix(text, prefix);
    }
  }

  /** The text with the token at `start..stop` replaced by its link. */
  function SpliceLink(r: string, start: nat, stop: nat): string
    requires start <= stop <= |r|
  {
    r[..start] + Wrap(r[start..stop]) + r[stop..]
  }

  /** What the loop will have produced: the text up to `idx` as it stands,
      and the rest linkified. */
  function Scanned(r: string, p: string, idx: nat): string
    requires ValidPrefix(p) && idx <= |r|
  {
    r[..idx] + Linkify(r[idx..], p)
  }

  lemma ScanBegins(text: string, p: string)
    requires ValidPrefix(p)
    ensures Scanned(text, p, 0) == Linkify(text, p)
  {
    assert text[..0] + text[0..] == text;
  }

  lemma ScanEnds(r: string, p: string, idx: nat)
    requires ValidPrefix(p) && idx <= |r| && Find(r, p, idx).None?
    ensures Scanned(r, p, idx) == r
  {
    SuffixDone(r, p, idx);
    assert r[..idx] + r[idx..] == r;
  }

  /** One round of the corrected loop keeps its invariant and shrinks the
      distance from the scan position to the end of the text. */
  lemma CorrectedRound(r: string, p: string, idx: nat, start: nat, stop: nat)
    requires ValidPrefix(p) && idx <= |r| && Find(r, p, idx) == Some(start)
    requires stop == TokenEnd(r, start)
    ensures start <= stop
    ensures stop + (stop - start) + 4 <= |SpliceLink(r, start, stop)|
    ensures |SpliceLink(r, start, stop)| - (stop + (stop - start) + 4) < |r| - idx
    ensures Scanned(SpliceLink(r, start, stop), p, stop + (stop - start) + 4) == Scanned(r, p, idx)
  {
    SuffixStep(r, p, idx, start);
    var url := r[start..stop];
    Splice(r, idx, start, stop, Wrap(url));
    Regroup(r[..idx], r[idx..start], Wrap(url), Linkify(r[stop..], p));
  }

  /** Cutting the spliced text right after the inserted part. */
  lemma Splice(r: string, idx: nat, start: nat, stop: nat, w: string)
    requires idx <= start <= stop <= |r|
    ensures (r[..start] + w + r[stop..])[..start + |w|] == r[..idx] + r[idx..start] + w
    ensures (r[..start] + w + r[stop..])[start + |w|..] == r[stop..]
  {
    assert r[..start] == r[..idx] + r[idx..start];
  }

  lemma Regroup(a: string, b: string, c: string, d: string)
    ensures (a + b + c) + d == a + (b + c + d)
  {
  }

  /** The replacement as kim.py writes it, `t.replace(url, Wrap(url), 1)`, when
      the URL also stands at `start`: it rewrites the leftmost copy, which may
      lie before `start`, but the text after the token is the same either way. */
  lemma ReplaceFirstShape(t: string, start: nat, stop: nat)
    requires start <= stop <= |t|
    ensures |ReplaceFirst(t, t[start..stop], Wrap(t[start..stop]))| == |t| + (stop - start) + 4
    ensures ReplaceFirst(t, t[start..stop], Wrap(t[start..stop]))[stop + (stop - start) + 4..] == t[stop..]
  {
    var url := t[start..stop];
    var w := Wrap(url);
    ReplaceFirstBefore(t, url, w, start);
    var j := Find(t, url, 0).value;
    ShiftedTail(t, url, w, j, start);
  }

  /** With a copy of `pat` at `i`, the replacement happens at or before `i`. */
  lemma ReplaceFirstBefore(s: string, pat: string, repl: string, i: nat)
    requires OccursAt(s, pat, i)
    ensures Find(s, pat, 0).Some? && Find(s, pat, 0).value <= i
    ensures ReplaceFirst(s, pat, repl) == s[..Find(s, pat, 0).value] + repl + s[Find(s, pat, 0).value + |pat|..]
  {
    var f := Find(s, pat, 0);
    assert f.Some?;
    ReplaceFirstAt(s, pat, repl, f.value);
  }

  /** After replacing the copy of `url` at `j`, the text beyond a later copy
      at `start` is the original text beyond it, moved by the growth. */
  lemma ShiftedTail(t: string, url: string, w: string, j: nat, start: nat)
    requires j <= start && start + |url| <= |t|
    ensures (t[..j] + w + t[j + |url|..])[start + |w|..] == t[start + |url|..]
  {
  }

  /** Where the original loop stands between two rounds: the text so far and
      the index its next search starts from. */
  datatype ScanState = ScanState(text: string, idx: nat)

  /** One round of the original loop: find the prefix from `idx`, take the
      token there, replace the leftmost copy of that token in the whole text by
      its link, and resume the length of the token plus four past the token's
      old end. `None` when the search finds nothing and the loop stops. */
  function AsWrittenStep(t: string, p: string, idx: nat): (r: Option<ScanState>)
    requires ValidPrefix(p) && idx <= |t|
    ensures r.None? <==> Find(t, p, idx).None?
    ensures r.Some? ==> r.value.idx <= |r.value.text| && |r.value.text| - r.value.idx < |t| - idx
  {
    match Find(t, p, idx)
    case None => None
    case Some(start) =>
      var stop := TokenEnd(t, start);
      var url := t[start..stop];
      var next := ReplaceFirst(t, url, Wrap(url));
      AsWrittenProgress(t, p, idx, start, stop, next);
      Some(ScanState(next, stop + (stop - start) + 4))
  }

  /** The original loop from a given state to its end. */
  function ScanAsWritten(t: string, p: string, idx: nat): string
    requires ValidPrefix(p) && idx <= |t|
    decreases |t| - idx
  {
    match AsWrittenStep(t, p, idx)
    case None => t
    case Some(st) => ScanAsWritten(st.text, p, st.idx)
  }

  /** A round moves the scan position past the inserted link, and the
      distance to the end of the text shrinks. */
  lemma AsWrittenProgress(t: string, p: string, idx: nat, start: nat, stop: nat, next: string)
    requires ValidPrefix(p) && idx <= |t| && Find(t, p, idx) == Some(start)
    requires stop == TokenEnd(t, start) && next == ReplaceFirst(t, t[start..stop], Wrap(t[start..stop]))
    ensures stop + (stop - start) + 4 <= |next|
    ensures |next| - (stop + (stop - start) + 4) < |t| - idx
  {
    TokenCoversPrefix(t, p, start);
    ReplaceFirstShape(t, start, stop);
  }

  /** The original loop produces as much text as the corrected scan: each
      round adds the length of its URL plus four, whichever copy it wraps. */
  lemma {:induction false} ScanAsWrittenLength(t: string, p: string, idx: nat)
    requires ValidPrefix(p) && idx <= |t|
    ensures |ScanAsWritten(t, p, idx)| == idx + |Linkify(t[idx..], p)|
    decreases |t| - idx
  {
    match AsWrittenStep(t, p, idx)
    case None =>
      SuffixDone(t, p, idx);
    case Some(st) =>
      var start := Find(t, p, idx).value;
      var stop := TokenEnd(t, start);
      StepShape(t, p, idx);
      SuffixStep(t, p, idx, start);
      ScanAsWrittenLength(st.text, p, st.idx);
  }

  /** What a round of the original loop leaves to scan: the new position is
      the old token end moved by the growth, and from there on the text is
      the text after the token. */
  lemma StepShape(t: string, p: string, idx: nat)
    requires ValidPrefix(p) && idx <= |t| && AsWrittenStep(t, p, idx).Some?
    ensures Find(t, p, idx).Some?
    ensures var start := Find(t, p, idx).value;
      var stop := TokenEnd(t, start);
      var st := AsWrittenStep(t, p, idx).value;
      start <= stop && st.idx == stop + (stop - start) + 4 && st.idx <= |st.text| && st.text[st.idx..] == t[stop..]
  {
    var start := Find(t, p, idx).value;
    var stop := TokenEnd(t, start);
    ReplaceFirstShape(t, start, stop);
  }

  /** `url_to_md(text, prefix)` exactly as written. It always produces the
      length the corrected scan produces, and leaves text without the prefix
      alone; which copy of a repeated URL gets wrapped is where it differs. */
  function UrlToMdAsWritten(text: string, p: string): (r: string)
    requires ValidPrefix(p)
    ensures |r| == |Linkify(text, p)|
    ensures !Contains(text, p) ==> r == text
  {
    assert text[0..] == text;
    ScanAsWrittenLength(text, p, 0);
    ScanAsWritten(text, p, 0)
  }

  /** A URL token that ends at neither a line break nor a space of its own. */
  predicate BareToken(u: string, p: string) {
    |p| <= |u| && u[..|p|] == p && ' ' !in u && '\n' !in u
  }

  lemma FindHere(s: string, p: string, i: nat)
    requires OccursAt(s, p, i)
    ensures Find(s, p, i) == Some(i)
  {
  }

  lemma FindNext(s: string, p: string, i: nat)
    requires OccursAt(s, p, i + 1) && !OccursAt(s, p, i)
    ensures Find(s, p, i) == Some(i + 1)
  {
    FindHere(s, p, i + 1);
  }

  /** The token that starts a text `u + " " + rest` is `u`. */
  lemma TokenBeforeSpace(u: string, rest: string)
    requires ' ' !in u && '\n' !in u && '\n' !in rest
    ensures TokenEnd(u + " " + rest, 0) == |u|
  {
    var s := u + " " + rest;
    assert forall k :: 0 <= k < |u| ==> s[k] == u[k];
    assert forall k :: |u| < k < |s| ==> s[k] == rest[k - |u| - 1];
    assert s[|u|] == ' ';
  }

  /** A text that is one token to its end. */
  lemma TokenToEnd(s: string, i: nat)
    requires i <= |s| && forall k :: i <= k < |s| ==> s[k] != ' ' && s[k] != '\n'
    ensures TokenEnd(s, i) == |s|
  {
  }

  /** A note that mentions the same URL twice, separated by a space: the
      corrected scan links each copy once. */
  lemma LinkifyRepeatedUrl(u: string, p: string)
    requires ValidPrefix(p) && BareToken(u, p)
    ensures Linkify(u + " " + u, p) == Wrap(u) + " " + Wrap(u)
  {
    LinkifyFirstCopy(u, p);
    LinkifyAfterSpace(u, p);
  }

  /** One round of the corrected scan, taken on its own. */
  lemma LinkifyAt(s: string, p: string, i: nat, e: nat)
    requires ValidPrefix(p) && Find(s, p, 0) == Some(i) && TokenEnd(s, i) == e
    ensures i <= e <= |s|
    ensures Linkify(s, p) == s[..i] + Wrap(s[i..e]) + Linkify(s[e..], p)
  {
  }

  lemma LinkifyFirstCopy(u: string, p: string)
    requires ValidPrefix(p) && BareToken(u, p)
    ensures Linkify(u + " " + u, p) == Wrap(u) + Linkify(" " + u, p)
  {
    var s := u + " " + u;
    SplitAtSpace(u, u, p);
    FindHere(s, p, 0);
    TokenBeforeSpace(u, u);
    LinkifyAt(s, p, 0, |u|);
  }

  lemma SplitAtSpace(u: string, rest: string, p: string)
    requires |p| <= |u| && u[..|p|] == p
    ensures OccursAt(u + " " + rest, p, 0)
    ensures (u + " " + rest)[..0] == [] && (u + " " + rest)[0..|u|] == u
    ensures (u + " " + rest)[|u|..] == " " + rest
  {
    var s := u + " " + rest;
    assert s[0..|p|] == u[..|p|];
  }

  lemma LinkifyAfterSpace(u: string, p: string)
    requires ValidPrefix(p) && BareToken(u, p)
    ensures Linkify(" " + u, p) == " " + Wrap(u)
  {
    var t := " " + u;
    assert t[1..1 + |p|] == p && t[0] != p[0];
    FindNext(t, p, 0);
    assert forall k :: 1 <= k < |t| ==> t[k] == u[k - 1];
    TokenToEnd(t, 1);
    LinkifyAt(t, p, 1, |t|);
    assert t[..1] == " " && t[1..|t|] == u && t[|t|..] == [];
    assert Linkify([], p) == [];
  }

  /** The same note through the original loop: the second round finds the
      second copy but rewrites the leftmost copy of the URL, which by then
      sits inside the first link, and leaves the second copy bare. */
  lemma AsWrittenRepeatedUrl(u: string, p: string)
    requires ValidPrefix(p) && BareToken(u, p) && p[0] != '['
    ensures UrlToMdAsWritten(u + " " + u, p) == "[" + Wrap(u) + "](" + u + ") " + u
  {
    var s := u + " " + u;
    var m := Wrap(u) + " " + u;
    var n := "[" + Wrap(u) + "](" + u + ") " + u;
    assert UrlToMdAsWritten(s, p) == ScanAsWritten(s, p, 0) by {
      assert s[0..] == s;
    }
    assert ScanAsWritten(s, p, 0) == ScanAsWritten(m, p, |Wrap(u)|) by {
      AsWrittenFirstRound(u, p);
    }
    assert ScanAsWritten(m, p, |Wrap(u)|) == ScanAsWritten(n, p, |n|) by {
      AsWrittenSecondRound(u, p);
    }
    assert ScanAsWritten(n, p, |n|) == n by {
      assert Find(n, p, |n|).None?;
    }
  }

  lemma ReplaceFirstAt(s: string, pat: string, repl: string, j: nat)
    requires Find(s, pat, 0) == Some(j)
    ensures ReplaceFirst(s, pat, repl) == s[..j] + repl + s[j + |pat|..]
  {
  }

  lemma AsWrittenFirstRound(u: string, p: string)
    requires ValidPrefix(p) && BareToken(u, p)
    ensures AsWrittenStep(u + " " + u, p, 0) == Some(ScanState(Wrap(u) + " " + u, |Wrap(u)|))
  {
    var s := u + " " + u;
    assert s[0..|p|] == p;
    FindHere(s, p, 0);
    TokenBeforeSpace(u, u);
    assert s[0..|u|] == u;
    FindHere(s, u, 0);
    ReplaceFirstAt(s, u, Wrap(u), 0);
    assert s[..0] + Wrap(u) + s[|u|..] == Wrap(u) + " " + u;
  }

  lemma AsWrittenSecondRound(u: string, p: string)
    requires ValidPrefix(p) && BareToken(u, p) && p[0] != '['
    ensures AsWrittenStep(Wrap(u) + " " + u, p, |Wrap(u)|)
            == Some(ScanState("[" + Wrap(u) + "](" + u + ") " + u, |"[" + Wrap(u) + "](" + u + ") " + u|))
  {
    var w := Wrap(u);
    var t := w + " " + u;
    SecondToken(u, p);
    LeftmostCopyInLink(u, p);
    ReplaceFirstAt(t, u, w, 1);
    WrapInsideWrap(u);
  }

  /** In the text after the first round, the search from the end of the first
      link finds the second copy, and its token runs to the end of the text. */
  lemma SecondToken(u: string, p: string)
    requires ValidPrefix(p) && BareToken(u, p)
    ensures var t := Wrap(u) + " " + u;
      Find(t, p, |Wrap(u)|) == Some(|Wrap(u)| + 1) && TokenEnd(t, |Wrap(u)| + 1) == |t|
      && t[|Wrap(u)| + 1..|t|] == u
  {
    SecondCopyFound(Wrap(u), u, p);
    SecondCopyToEnd(Wrap(u), u);
  }

  lemma SecondCopyFound(w: string, u: string, p: string)
    requires |p| > 0 && |p| <= |u| && u[..|p|] == p && p[0] != ' '
    ensures Find(w + " " + u, p, |w|) == Some(|w| + 1)
  {
    var t := w + " " + u;
    OccursAfterSpace(w, u, p);
    SpaceAfter(w, u);
    NotAtMismatch(t, p, |w|);
    FindNext(t, p, |w|);
  }

  lemma OccursAfterSpace(w: string, u: string, p: string)
    requires |p| <= |u| && u[..|p|] == p
    ensures OccursAt(w + " " + u, p, |w| + 1)
  {
    var t := w + " " + u;
    assert t[|w| + 1..|w| + 1 + |p|] == u[..|p|];
  }

  lemma SpaceAfter(w: string, u: string)
    ensures (w + " " + u)[|w|] == ' '
  {
  }

  /** No occurrence where the text differs from the pattern's first character. */
  lemma NotAtMismatch(t: string, p: string, i: nat)
    requires |p| > 0 && i < |t| && t[i] != p[0]
    ensures !OccursAt(t, p, i)
  {
    if i + |p| <= |t| {
      assert t[i..i + |p|][0] == t[i];
    }
  }

  lemma SecondCopyToEnd(w: string, u: string)
    requires ' ' !in u && '\n' !in u
    ensures var t := w + " " + u;
      TokenEnd(t, |w| + 1) == |t| && t[|w| + 1..|t|] == u
  {
    var t := w + " " + u;
    assert forall k :: |w| + 1 <= k < |t| ==> t[k] == u[k - |w| - 1];
    TokenToEnd(t, |w| + 1);
    assert t[|w| + 1..|t|] == u;
  }

  /** ... while the leftmost copy of the URL is the one inside the first link. */
  lemma LeftmostCopyInLink(u: string, p: string)
    requires ValidPrefix(p) && BareToken(u, p) && p[0] != '['
    ensures Find(Wrap(u) + " " + u, u, 0) == Some(1)
  {
    var t := Wrap(u) + " " + u;
    assert t[1..1 + |u|] == u && t[0] != u[0];
    FindNext(t, u, 0);
  }

  /** Wrapping the copy of `u` inside its own link. */
  lemma WrapInsideWrap(u: string)
    ensures var t := Wrap(u) + " " + u;
      1 + |u| <= |t| && t[..1] + Wrap(u) + t[1 + |u|..] == "[" + Wrap(u) + "](" + u + ") " + u
  {
    var t := Wrap(u) + " " + u;
    var tail := "](" + u + ")" + " " + u;
    assert t == "[" + u + tail;
    assert t[..1] == "[";
    assert t[1 + |u|..] == tail;
    assert "[" + Wrap(u) + tail == "[" + Wrap(u) + "](" + u + ") " + u;
  }

  lemma FindSkip(s: string, p: string, i: nat)
    requires i + |p| <= |s| && !OccursAt(s, p, i)
    ensures Find(s, p, i) == Find(s, p, i + 1)
  {
  }

  /** A text without the prefix's first character holds no prefix. */
  lemma FindWithoutHead(s: string, p: string, i: nat)
    requires |p| > 0 && p[0] !in s
    ensures Find(s, p, i).None?
  {
    forall j | i <= j && j + |p| <= |s|
      ensures !OccursAt(s, p, j)
    {
      assert s[j] in s;
      assert s[j..j + |p|][0] == s[j];
    }
  }

  /** A sentence with one URL, ended by a space and followed by text on the
      same line: only the URL changes. */
  lemma LinkifyOneUrl(a: string, u: string, b: string, p: string)
    requires ValidPrefix(p) && BareToken(u, p)
    requires NoEarlyPrefix(a, p) && !Contains(b, p) && '\n' !in b
    ensures Linkify(a + u + " " + b, p) == a + Wrap(u) + " " + b
  {
    OneUrlRound(a, u, b, p);
    StepOnPieces(a + u + " " + b, p, |a|, |a| + |u|, a, u, " " + b);
    NoPrefixAfterSpace(b, p);
    LinkifyWithoutPrefix(" " + b, p);
  }

  /** A space in front of a text without the prefix adds no occurrence. */
  lemma NoPrefixAfterSpace(b: string, p: string)
    requires ValidPrefix(p) && !Contains(b, p)
    ensures !Contains(" " + b, p)
  {
    var t := " " + b;
    assert t[0] == ' ' && t[1..] == b;
    if |p| <= |t| {
      NotAtMismatch(t, p, 0);
      FindSkip(t, p, 0);
      FindInSuffix(t, p, 1, 0);
    }
  }

  /** On the same sentence the original loop agrees with the corrected scan:
      the leftmost copy of the URL is the one the scan found. */
  lemma AsWrittenOneUrl(a: string, u: string, b: string, p: string)
    requires ValidPrefix(p) && BareToken(u, p)
    requires NoEarlyPrefix(a, p) && !Contains(b, p) && '\n' !in b
    ensures UrlToMdAsWritten(a + u + " " + b, p) == a + Wrap(u) + " " + b
  {
    var s := a + u + " " + b;
    var n := a + Wrap(u) + " " + b;
    assert UrlToMdAsWritten(s, p) == ScanAsWritten(s, p, 0) by {
      assert s[0..] == s;
    }
    assert ScanAsWritten(s, p, 0) == ScanAsWritten(n, p, |a + Wrap(u)|) by {
      AsWrittenOneRound(a, u, b, p);
    }
    assert ScanAsWritten(n, p, |a + Wrap(u)|) == n by {
      OneUrlRest(a + Wrap(u), b, p);
    }
  }

  /** The one round: the token is `u`, and its leftmost copy is where the
      scan found it. */
  lemma AsWrittenOneRound(a: string, u: string, b: string, p: string)
    requires ValidPrefix(p) && BareToken(u, p)
    requires NoEarlyPrefix(a, p) && '\n' !in b
    ensures AsWrittenStep(a + u + " " + b, p, 0) == Some(ScanState(a + Wrap(u) + " " + b, |a + Wrap(u)|))
  {
    var s := a + u + " " + b;
    OneUrlRound(a, u, b, p);
    assert OccursAt(s, u, |a|);
    LeftmostCopy(s, u, p, |a|);
    StepAtLeftmost(s, p, |a|, |a| + |u|);
    assert s[..|a|] + Wrap(u) + s[|a| + |u|..] == a + Wrap(u) + " " + b;
  }

  /** A round whose token's leftmost copy is the one the scan found wraps it
      in place. */
  lemma StepAtLeftmost(t: string, p: string, start: nat, stop: nat)
    requires ValidPrefix(p) && Find(t, p, 0) == Some(start) && TokenEnd(t, start) == stop
    requires Find(t, t[start..stop], 0) == Some(start)
    ensures start <= stop <= |t|
    ensures AsWrittenStep(t, p, 0)
            == Some(ScanState(t[..start] + Wrap(t[start..stop]) + t[stop..], start + |Wrap(t[start..stop])|))
  {
    ReplaceFirstAt(t, t[start..stop], Wrap(t[start..stop]), start);
  }

  /** The first copy of a token is where the prefix first occurs, since
      every copy starts with the prefix. */
  lemma LeftmostCopy(s: string, u: string, p: string, i: nat)
    requires |p| <= |u| && u[..|p|] == p
    requires Find(s, p, 0) == Some(i) && OccursAt(s, u, i)
    ensures Find(s, u, 0) == Some(i)
  {
    forall j | 0 <= j < i
      ensures !OccursAt(s, u, j)
    {
      if OccursAt(s, u, j) {
        CopyStartsWithPrefix(s, u, p, j);
      }
    }
  }

  lemma CopyStartsWithPrefix(s: string, u: string, p: string, j: nat)
    requires |p| <= |u| && u[..|p|] == p && OccursAt(s, u, j)
    ensures OccursAt(s, p, j)
  {
    assert s[j..j + |p|] == s[j..j + |u|][..|p|];
  }

  /** After the link, the rest of the line holds no prefix, so the loop stops. */
  lemma OneUrlRest(w: string, b: string, p: string)
    requires ValidPrefix(p) && !Contains(b, p)
    ensures Find(w + " " + b, p, |w|).None?
  {
    var n := w + " " + b;
    assert n[|w|..] == " " + b;
    NoPrefixAfterSpace(b, p);
    NoneFromSuffix(n, p, |w|);
  }

  /** A search from `k` finds nothing when the text from `k` on lacks the pattern. */
  lemma NoneFromSuffix(n: string, p: string, k: nat)
    requires k <= |n| && !Contains(n[k..], p)
    ensures Find(n, p, k).None?
  {
    forall j | k <= j
      ensures !OccursAt(n, p, j)
    {
      OccursInSuffix(n, p, k, j - k);
    }
  }


  lemma OneUrlRound(a: string, u: string, b: string, p: string)
    requires ValidPrefix(p) && BareToken(u, p)
    requires NoEarlyPrefix(a, p) && '\n' !in b
    ensures RoundAt(a + u + " " + b, p, |a|, |a| + |u|, a, u, " " + b)
  {
    var s := a + u + " " + b;
    OneUrlSlices(a, u, b, p);
    OneUrlFind(a, u, b, p);
    TokenBeforeSpace(u, b);
    TokenEndInSuffix(s, |a|, 0);
  }

  lemma OneUrlSlices(a: string, u: string, b: string, p: string)
    requires |p| <= |u| && u[..|p|] == p
    ensures var s := a + u + " " + b;
      s[..|a|] == a && s[|a|..] == u + " " + b && s[|a|..|a| + |u|] == u && s[|a| + |u|..] == " " + b
      && OccursAt(s, p, |a|)
  {
    var s := a + u + " " + b;
    assert s[|a|..|a| + |p|] == u[..|p|];
  }

  /** The search lands on the URL: nothing before it starts like the prefix. */
  lemma OneUrlFind(a: string, u: string, b: string, p: string)
    requires |p| <= |u| && u[..|p|] == p && NoEarlyPrefix(a, p) && OccursAt(a + u + " " + b, p, |a|)
    ensures Find(a + u + " " + b, p, 0) == Some(|a|)
  {
    var s := a + u + " " + b;
    forall j | 0 <= j < |a|
      ensures !OccursAt(s, p, j)
    {
      SameWindow(a, u, b, p, j);
    }
  }

  /** No occurrence of the prefix starts inside `a`, not even one that
      runs on into the prefix that follows `a`. */
  predicate NoEarlyPrefix(a: string, p: string) {
    forall j :: 0 <= j < |a| ==> !OccursAt(a + p, p, j)
  }

  /** A window that starts inside `a` reads the same in `a + p` as in the text. */
  lemma SameWindow(a: string, u: string, b: string, p: string, j: nat)
    requires |p| <= |u| && u[..|p|] == p && j < |a|
    ensures OccursAt(a + u + " " + b, p, j) <==> OccursAt(a + p, p, j)
  {
    var s := a + u + " " + b;
    var t := a + p;
    forall k | j <= k < j + |p|
      ensures s[k] == t[k]
    {
      if k >= |a| {
        assert s[k] == u[k - |a|] == u[..|p|][k - |a|];
      }
    }
    assert s[j..j + |p|] == t[j..j + |p|];
  }

  /** The sentence "Check http://example.com for info": only the URL changes. */
  lemma CheckExample()
    ensures Linkify("Check http://example.com for info", "http://")
            == "Check [http://example.com](http://example.com) for info"
  {
    var u := "http://example.com";
    CheckPieces();
    CheckToken();
    CheckNoEarlyPrefix();
    CheckTail();
    LinkifyOneUrl("Check ", u, "for info", "http://");
    CheckWrapped();
  }

  // The `Check*` lemmas below state facts about the literals of `CheckExample`.
  // They model nothing; they keep each step of the example small enough for
  // the solver.
  lemma CheckPieces()
    ensures "Check " + "http://example.com" + " " + "for info" == "Check http://example.com for info"
  {
  }

  lemma CheckToken()
    ensures ValidPrefix("http://") && BareToken("http://example.com", "http://")
  {
    assert "http://example.com"[..7] == "http://";
  }

  lemma CheckTail()
    ensures !Contains("for info", "http://") && '\n' !in "for info"
  {
    FindWithoutHead("for info", "http://", 0);
  }

  /** "Check" holds an `h`, but no `http://` starts before the URL. */
  lemma CheckNoEarlyPrefix()
    ensures NoEarlyPrefix("Check ", "http://")
  {
    CheckWithPrefix();
    forall j | 0 <= j < 6
      ensures !OccursAt("Check http://", "http://", j)
    {
      var d := if j == 1 then 1 else 0;
      NotAtOffset("Check http://", "http://", j, d);
    }
  }

  lemma CheckWithPrefix()
    ensures "Check " + "http://" == "Check http://"
  {
  }

  /** No occurrence at `i` when the text differs from the pattern at offset `d`. */
  lemma NotAtOffset(t: string, p: string, i: nat, d: nat)
    requires d < |p| && i + d < |t| && t[i + d] != p[d]
    ensures !OccursAt(t, p, i)
  {
    if i + |p| <= |t| {
      assert t[i..i + |p|][d] == t[i + d];
    }
  }

  /** The result text, built one piece at a time from the left. */
  lemma CheckWrapped()
    ensures "Check " + Wrap("http://example.com") + " " + "for info"
            == "Check [http://example.com](http://example.com) for info"
  {
    var u := "http://example.com";
    WrapInLine("Check ", u, " " + "for info");
    CheckOpen();
    CheckUrl();
    CheckMiddle();
    CheckUrlAgain();
    CheckClose();
    CheckSpace();
    CheckRest();
  }

  lemma WrapInLine(a: string, u: string, c: string)
    ensures a + Wrap(u) + c == a + "[" + u + "](" + u + ")" + c
  {
  }

  lemma CheckOpen() ensures "Check " + "[" == "Check [" {}
  lemma CheckUrl() ensures "Check [" + "http://example.com" == "Check [http://example.com" {}
  lemma CheckMiddle() ensures "Check [http://example.com" + "](" == "Check [http://example.com](" {}
  lemma CheckUrlAgain()
    ensures "Check [http://example.com](" + "http://example.com" == "Check [http://example.com](http://example.com"
  {
  }
  lemma CheckClose()
    ensures "Check [http://example.com](http://example.com" + ")" == "Check [http://example.com](http://example.com)"
  {
  }
  lemma CheckSpace()
    ensures "Check [http://example.com](http://example.com)" + (" " + "for info")
            == "Check [http://example.com](http://example.com) for info"
  {
  }
  lemma CheckRest() ensures " " + "for info" == " for info" {}

  /** The note "http://a http://a": the original loop wraps the first copy
      twice and leaves the second bare. */
  lemma RepeatedUrlDoubleWrapped()
    ensures UrlToMdAsWritten("http://a http://a", "http://") == "[[http://a](http://a)](http://a) http://a"
    ensures Linkify("http://a http://a", "http://") == "[http://a](http://a) [http://a](http://a)"
  {
    SampleToken();
    LinkifyRepeatedUrl("http://a", "http://");
    AsWrittenRepeatedUrl("http://a", "http://");
    SampleInput();
    SampleLinked();
    SampleDoubleWrapped();
  }

  // The `Sample*` lemmas and `Assoc6` below state facts about the literals of
  // `RepeatedUrlDoubleWrapped`. They model nothing; they keep each step of the
  // example small enough for the solver.
  lemma SampleToken()
    ensures ValidPrefix("http://") && BareToken("http://a", "http://") && "http://"[0] != '['
  {
    assert "http://a"[..7] == "http://";
  }

  lemma SampleInput()
    ensures "http://a" + " " + "http://a" == "http://a http://a"
  {
  }

  lemma SampleLinked()
    ensures Wrap("http://a") + " " + Wrap("http://a") == "[http://a](http://a) [http://a](http://a)"
  {
    SampleWrap();
    SampleLinkPair();
  }

  lemma SampleWrap()
    ensures Wrap("http://a") == "[http://a](http://a)"
  {
  }

  lemma SampleLinkPair()
    ensures "[http://a](http://a)" + " " + "[http://a](http://a)" == "[http://a](http://a) [http://a](http://a)"
  {
  }

  lemma SampleDoubleWrapped()
    ensures "[" + Wrap("http://a") + "](" + "http://a" + ") " + "http://a" == "[[http://a](http://a)](http://a) http://a"
  {
    SampleWrap();
    SampleOuterOpen();
    SampleOuterClose();
    SampleOuterJoin();
    Assoc6("[", "[http://a](http://a)", "](", "http://a", ") ", "http://a");
  }

  lemma SampleOuterOpen()
    ensures "[" + "[http://a](http://a)" == "[[http://a](http://a)"
  {
  }

  lemma SampleOuterClose()
    ensures "](" + "http://a" + ") " + "http://a" == "](http://a) http://a"
  {
  }

  lemma SampleOuterJoin()
    ensures "[[http://a](http://a)" + "](http://a) http://a" == "[[http://a](http://a)](http://a) http://a"
  {
  }

  lemma Assoc6(a: string, b: string, c: string, d: string, e: string, f: string)
    ensures a + b + c + d + e + f == (a + b) + (c + d + e + f)
  {
  }
}
