/** The tag line of a note (kim.py:221-226): every label becomes ` #label`
    with spaces turned into `-` and `&` into `and`; the concatenation is then
    passed through `re.sub('[^A-z0-9-_# ]', '-', ...)` and `strip()`.

    The character class `A-z` spans the code points from `A` to `z`, so it
    also admits the six characters ``[ \ ] ^ _ ` `` between the two alphabets.
    `JoinTags` is an independent description of the result: the tags `#label`
    joined by single spaces (`LabelLineIsJoinedTags`). */
module Labels {
  import opened Text

  /** A character the regular expression keeps. */
  predicate AllowedLabelChar(c: char) {
    ('A' <= c <= 'z') || ('0' <= c <= '9') || c == '-' || c == '_' || c == '#' || c == ' '
  }

  /** `re.sub('[^A-z0-9-_# ]', '-', s)`: every other character becomes `-`. */
  function FilterLabelChars(s: string): (r: string)
    ensures |r| == |s|
    ensures forall k :: 0 <= k < |s| ==> r[k] == (if AllowedLabelChar(s[k]) then s[k] else '-')
  {
    seq(|s|, k requires 0 <= k < |s| => if AllowedLabelChar(s[k]) then s[k] else '-')
  }

  /** `str(label).replace(' ', '-').replace('&', 'and')`. */
  function CleanLabel(l: string): string {
    ReplaceChar(ReplaceChar(l, ' ', "-"), '&', "and")
  }

  /** What the loop appends for one label. */
  function LabelToken(l: string): string {
    " #" + CleanLabel(l)
  }

  /** The loop of kim.py:223-225: tokens appended in iteration order. */
  function RawLabelLine(ls: seq<string>): string {
    if ls == [] then "" else RawLabelLine(ls[..|ls| - 1]) + LabelToken(ls[|ls| - 1])
  }

  /** kim.py:226: the filtered and stripped tag line. */
  function LabelLine(ls: seq<string>): string {
    Strip(FilterLabelChars(RawLabelLine(ls)))
  }

  /** One tag as it appears in the finished line. */
  function Tag(l: string): string {
    "#" + FilterLabelChars(CleanLabel(l))
  }

  /** The reference: the tags of the labels, in order, separated by one space. */
  function JoinTags(ls: seq<string>): string {
    if |ls| <= 1 then (if ls == [] then "" else Tag(ls[0]))
    else JoinTags(ls[..|ls| - 1]) + " " + Tag(ls[|ls| - 1])
  }

  lemma FilterAppend(a: string, b: string)
    ensures FilterLabelChars(a + b) == FilterLabelChars(a) + FilterLabelChars(b)
  {
  }

  /** A cleaned label holds no space: spaces became dashes. */
  lemma CleanLabelHasNoBlank(l: string)
    ensures ' ' !in CleanLabel(l)
  {
    CountAbsent(ReplaceChar(l, ' ', "-"), ' ');
    ReplaceCharCount(ReplaceChar(l, ' ', "-"), '&', "and", ' ');
    CountAbsent(CleanLabel(l), ' ');
  }

  /** A tag holds no whitespace at all and starts with `#`. */
  lemma TagShape(l: string)
    ensures |Tag(l)| > 0 && Tag(l)[0] == '#'
    ensures forall k :: 0 <= k < |Tag(l)| ==> AllowedLabelChar(Tag(l)[k]) && !IsSpace(Tag(l)[k])
  {
    var c := CleanLabel(l);
    CleanLabelHasNoBlank(l);
    forall k | 0 <= k < |Tag(l)|
      ensures AllowedLabelChar(Tag(l)[k]) && !IsSpace(Tag(l)[k])
    {
      if k > 0 {
        assert Tag(l)[k] == FilterLabelChars(c)[k - 1];
        if AllowedLabelChar(c[k - 1]) {
          assert c[k - 1] != ' ';
        }
      }
    }
  }

  /** Every character is one the filter admits. */
  predicate AllAllowed(s: string) {
    forall k :: 0 <= k < |s| ==> AllowedLabelChar(s[k])
  }

  /** A run of tags: it starts with `#`, ends with a non-space, and holds only
      admitted characters. */
  predicate TagRun(s: string) {
    |s| > 0 && s[0] == '#' && !IsSpace(s[|s| - 1]) && AllAllowed(s)
  }

  lemma TagIsRun(l: string)
    ensures TagRun(Tag(l))
  {
    TagShape(l);
  }

  lemma JoinRuns(a: string, b: string)
    requires TagRun(a) && TagRun(b)
    ensures TagRun(a + " " + b)
  {
    var j := a + " " + b;
    assert forall k :: |a| + 1 <= k < |j| ==> j[k] == b[k - |a| - 1];
    assert forall k :: 0 <= k < |a| ==> j[k] == a[k];
  }

  /** The joined tags form a run of tags. */
  lemma {:induction false} JoinTagsShape(ls: seq<string>)
    requires ls != []
    ensures TagRun(JoinTags(ls))
  {
    var last := ls[|ls| - 1];
    TagIsRun(last);
    if |ls| > 1 {
      var init := ls[..|ls| - 1];
      JoinTagsShape(init);
      JoinRuns(JoinTags(init), Tag(last));
    }
  }

  /** One token of the raw line, filtered: a space and the tag. */
  lemma FilterToken(l: string)
    ensures FilterLabelChars(LabelToken(l)) == " " + Tag(l)
  {
    FilterAppend(" #", CleanLabel(l));
    assert FilterLabelChars(" #") == " #";
  }

  /** Filtering the raw line gives one leading space followed by the joined tags. */
  lemma {:induction false} FilteredRawLine(ls: seq<string>)
    requires ls != []
    ensures FilterLabelChars(RawLabelLine(ls)) == " " + JoinTags(ls)
  {
    var init := ls[..|ls| - 1];
    var last := ls[|ls| - 1];
    var raw := RawLabelLine(init);
    assert RawLabelLine(ls) == raw + LabelToken(last);
    FilterAppend(raw, LabelToken(last));
    FilterToken(last);
    if |ls| == 1 {
      assert init == [];
      FilterFirstTag(raw, Tag(last));
    } else {
      FilteredRawLine(init);
      assert JoinTags(ls) == JoinTags(init) + " " + Tag(last);
      SpaceBeforeJoin(FilterLabelChars(raw), JoinTags(init), Tag(last));
    }
  }

  lemma FilterFirstTag(raw: string, t: string)
    requires raw == ""
    ensures FilterLabelChars(raw) + (" " + t) == " " + t
  {
  }

  lemma SpaceBeforeJoin(f: string, j: string, t: string)
    requires f == " " + j
    ensures f + (" " + t) == " " + (j + " " + t)
  {
  }

  /** The tag line is the labels' tags, in iteration order, separated by
      single spaces. */
  lemma LabelLineIsJoinedTags(ls: seq<string>)
    ensures LabelLine(ls) == JoinTags(ls)
  {
    if ls != [] {
      FilteredRawLine(ls);
      JoinTagsShape(ls);
      StripSpacedRun(JoinTags(ls));
    }
  }

  /** A run of tags behind one space strips to itself. */
  lemma StripSpacedRun(s: string)
    requires TagRun(s)
    ensures Strip(" " + s) == s
  {
    StripLeadingSpace(' ', s);
    StripTrimmed(s);
  }

  /** Every character of the tag line is one the filter admits. */
  lemma LabelLineAllowed(ls: seq<string>)
    ensures AllAllowed(LabelLine(ls))
  {
    LabelLineIsJoinedTags(ls);
    if ls != [] {
      JoinTagsShape(ls);
    }
  }

  /** No labels, no tags: the line is empty. Otherwise it starts with `#` and
      does not end in whitespace. */
  lemma LabelLineEnds(ls: seq<string>)
    ensures ls == [] <==> LabelLine(ls) == ""
    ensures ls != [] ==> LabelLine(ls)[0] == '#' && !IsSpace(LabelLine(ls)[|LabelLine(ls)| - 1])
  {
    LabelLineIsJoinedTags(ls);
    if ls != [] {
      JoinTagsShape(ls);
    }
  }

  /** The number of `#` in the tag line: one per label plus those inside the labels. */
  function HashesIn(ls: seq<string>): nat {
    if ls == [] then 0 else HashesIn(ls[..|ls| - 1]) + Count(ls[|ls| - 1], '#')
  }

  lemma {:induction false} TagHashes(l: string)
    ensures Count(Tag(l), '#') == 1 + Count(l, '#')
  {
    var c := CleanLabel(l);
    ReplaceCharCount(l, ' ', "-", '#');
    ReplaceCharCount(ReplaceChar(l, ' ', "-"), '&', "and", '#');
    FilterKeepsHashes(c);
    CountAppend("#", FilterLabelChars(c), '#');
  }

  lemma {:induction false} FilterKeepsHashes(s: string)
    ensures Count(FilterLabelChars(s), '#') == Count(s, '#')
  {
    if s != [] {
      FilterAppend([s[0]], s[1..]);
      assert s == [s[0]] + s[1..];
      FilterKeepsHashes(s[1..]);
      CountAppend(FilterLabelChars([s[0]]), FilterLabelChars(s[1..]), '#');
    }
  }

  lemma {:induction false} JoinTagsHashes(ls: seq<string>)
    ensures Count(JoinTags(ls), '#') == |ls| + HashesIn(ls)
  {
    if ls != [] {
      var init := ls[..|ls| - 1];
      var last := ls[|ls| - 1];
      TagHashes(last);
      if |ls| == 1 {
        assert HashesIn(init) == 0;
      } else {
        JoinTagsHashes(init);
        CountAppend(JoinTags(init) + " ", Tag(last), '#');
        CountAppend(JoinTags(init), " ", '#');
      }
    }
  }

  /** Each label contributes exactly one `#` of its own. */
  lemma LabelLineHashes(ls: seq<string>)
    ensures Count(LabelLine(ls), '#') == |ls| + HashesIn(ls)
  {
    LabelLineIsJoinedTags(ls);
    JoinTagsHashes(ls);
  }

  /** Tags are separated by exactly one space each. */
  lemma {:induction false} LabelLineSpaces(ls: seq<string>)
    requires ls != []
    ensures Count(LabelLine(ls), ' ') == |ls| - 1
  {
    LabelLineIsJoinedTags(ls);
    JoinTagsSpaces(ls);
  }

  lemma {:induction false} JoinTagsSpaces(ls: seq<string>)
    requires ls != []
    ensures Count(JoinTags(ls), ' ') == |ls| - 1
  {
    var last := ls[|ls| - 1];
    TagShape(last);
    CountAbsent(Tag(last), ' ');
    if |ls| > 1 {
      var init := ls[..|ls| - 1];
      JoinTagsSpaces(init);
      CountAppend(JoinTags(init) + " ", Tag(last), ' ');
      CountAppend(JoinTags(init), " ", ' ');
    }
  }

  /** Two labels give their two tags, separated by one space. */
  lemma TwoLabels(a: string, b: string)
    ensures LabelLine([a, b]) == Tag(a) + " " + Tag(b)
  {
    LabelLineIsJoinedTags([a, b]);
    assert [a, b][..1] == [a];
  }

  /** A word of a label: admitted characters, no space. */
  predicate Word(w: string) {
    AllAllowed(w) && ' ' !in w
  }

  lemma WordHasNoAmpersand(w: string)
    requires Word(w)
    ensures '&' !in w
  {
    forall k | 0 <= k < |w|
      ensures w[k] != '&'
    {
      assert AllowedLabelChar(w[k]);
    }
  }

  /** A space between two words becomes a dash. */
  lemma CleanSpaced(x: string, y: string)
    requires Word(x) && Word(y)
    ensures CleanLabel(x + " " + y) == x + "-" + y
  {
    ReplaceCharAppend(x + " ", y, ' ', "-");
    ReplaceCharAppend(x, " ", ' ', "-");
    assert ReplaceChar(" ", ' ', "-") == "-";
    WordHasNoAmpersand(x);
    WordHasNoAmpersand(y);
    ReplaceCharAppend(x + "-", y, '&', "and");
    ReplaceCharAppend(x, "-", '&', "and");
  }

  /** An ampersand between two words becomes `and`. */
  lemma CleanAmpersand(x: string, y: string)
    requires Word(x) && Word(y)
    ensures CleanLabel(x + "&" + y) == x + "and" + y
  {
    ReplaceCharAppend(x + "&", y, ' ', "-");
    ReplaceCharAppend(x, "&", ' ', "-");
    WordHasNoAmpersand(x);
    WordHasNoAmpersand(y);
    ReplaceCharAppend(x + "&", y, '&', "and");
    ReplaceCharAppend(x, "&", '&', "and");
    assert ReplaceChar("&", '&', "and") == "and";
  }

  lemma AllowedJoin(a: string, b: string)
    requires AllAllowed(a) && AllAllowed(b)
    ensures AllAllowed(a + b)
  {
    assert forall k :: |a| <= k < |a + b| ==> (a + b)[k] == b[k - |a|];
  }

  lemma TagSpaced(x: string, y: string)
    requires Word(x) && Word(y)
    ensures Tag(x + " " + y) == "#" + (x + "-" + y)
  {
    CleanSpaced(x, y);
    AllowedJoin(x, "-");
    AllowedJoin(x + "-", y);
    FilterFixed(x + "-" + y);
  }

  lemma TagAmpersand(x: string, y: string)
    requires Word(x) && Word(y)
    ensures Tag(x + "&" + y) == "#" + (x + "and" + y)
  {
    CleanAmpersand(x, y);
    AllowedJoin(x, "and");
    AllowedJoin(x + "and", y);
    FilterFixed(x + "and" + y);
  }

  /** A label with a space and one with an ampersand, each made of plain
      words, as in `["to do", "Q&A"]`. */
  lemma LabelLineExample(x: string, y: string, q: string, a: string)
    requires Word(x) && Word(y) && Word(q) && Word(a)
    ensures LabelLine([x + " " + y, q + "&" + a]) == "#" + (x + "-" + y) + " " + "#" + (q + "and" + a)
  {
    TwoLabels(x + " " + y, q + "&" + a);
    TagSpaced(x, y);
    TagAmpersand(q, a);
  }

  /** `["to do", "Q&A"]` becomes `#to-do #QandA`. */
  lemma ToDoQandA()
    ensures LabelLine(["to do", "Q&A"]) == "#to-do #QandA"
  {
    ExampleWords();
    ExampleLabels();
    LabelLineExample("to", "do", "Q", "A");
    ExampleLine();
  }

  // `ExampleWords`, `ExampleLabels` and `ExampleLine` state facts about the
  // literals of `ToDoQandA`. They model nothing; they keep each step of the
  // example small enough for the solver.
  lemma ExampleWords()
    ensures Word("to") && Word("do") && Word("Q") && Word("A")
  {
  }

  lemma ExampleLabels()
    ensures "to" + " " + "do" == "to do" && "Q" + "&" + "A" == "Q&A"
  {
  }

  lemma ExampleLine()
    ensures "#" + ("to" + "-" + "do") + " " + "#" + ("Q" + "and" + "A") == "#to-do #QandA"
  {
  }

  lemma FilterFixed(s: string)
    requires AllAllowed(s)
    ensures FilterLabelChars(s) == s
  {
  }
}
