/** The date string and the title of a note (kim.py:212-217).

    The date is `str(created)` with every `:` deleted, every `.` turned into
    `-`, and every character outside `[A-z0-9-]` turned into a space. An empty
    title falls back to that date; every `:` of the title then becomes ` –`
    (a space and an en dash). `DateChars` and `RestoreColons` are independent
    partners: a per-character description of the date and the inverse of the
    title rewrite. */
module Naming {
  import opened Text

  /** A character the class `[^A-z0-9-]` does not match. */
  predicate AllowedDateChar(c: char) {
    ('A' <= c <= 'z') || ('0' <= c <= '9') || c == '-'
  }

  /** `re.sub('[^A-z0-9-]', ' ', s)`. */
  function FilterDateChars(s: string): (r: string)
    ensures |r| == |s|
    ensures forall k :: 0 <= k < |s| ==> r[k] == (if AllowedDateChar(s[k]) then s[k] else ' ')
  {
    seq(|s|, k requires 0 <= k < |s| => if AllowedDateChar(s[k]) then s[k] else ' ')
  }

  lemma FilterDateAppend(a: string, b: string)
    ensures FilterDateChars(a + b) == FilterDateChars(a) + FilterDateChars(b)
  {
  }

  /** kim.py:212: the date string derived from a note's creation timestamp. */
  function SanitiseDate(raw: string): (r: string)
    ensures DateText(r)
    ensures ':' !in r && '.' !in r
    ensures |r| == |raw| - Count(raw, ':')
  {
    var noColons := ReplaceChar(raw, ':', "");
    ReplaceCharLength(raw, ':', "");
    ReplaceCharLength(noColons, '.', "-");
    FilterDateChars(ReplaceChar(noColons, '.', "-"))
  }

  /** What one character of the timestamp turns into. */
  function DateChar(c: char): string {
    if c == ':' then ""
    else if c == '.' then "-"
    else if AllowedDateChar(c) then [c]
    else " "
  }

  /** The reference: the timestamp rewritten one character at a time. */
  function DateChars(s: string): string {
    if s == [] then "" else DateChar(s[0]) + DateChars(s[1..])
  }

  lemma SanitiseOneChar(c: char)
    ensures SanitiseDate([c]) == DateChar(c)
  {
    assert [c][1..] == [];
  }

  lemma SanitiseDateAppend(a: string, b: string)
    ensures SanitiseDate(a + b) == SanitiseDate(a) + SanitiseDate(b)
  {
    ReplaceCharAppend(a, b, ':', "");
    ReplaceCharAppend(ReplaceChar(a, ':', ""), ReplaceChar(b, ':', ""), '.', "-");
    FilterDateAppend(ReplaceChar(ReplaceChar(a, ':', ""), '.', "-"), ReplaceChar(ReplaceChar(b, ':', ""), '.', "-"));
  }

  /** The three chained rewrites act on each character independently. */
  lemma {:induction false} SanitiseDateIsPerCharacter(raw: string)
    ensures SanitiseDate(raw) == DateChars(raw)
  {
    if raw != [] {
      assert raw == [raw[0]] + raw[1..];
      SanitiseDateAppend([raw[0]], raw[1..]);
      SanitiseOneChar(raw[0]);
      SanitiseDateIsPerCharacter(raw[1..]);
    }
  }

  /** A string that is already a date string is its own per-character rewrite. */
  lemma {:induction false} DateCharsFixed(s: string)
    requires DateText(s)
    ensures DateChars(s) == s
  {
    if s != [] {
      assert forall k :: 0 <= k < |s| - 1 ==> s[1..][k] == s[k + 1];
      DateCharsFixed(s[1..]);
      assert s == [s[0]] + s[1..];
    }
  }

  /** Sanitising a date string again changes nothing. */
  lemma SanitiseDateIdempotent(raw: string)
    ensures SanitiseDate(SanitiseDate(raw)) == SanitiseDate(raw)
  {
    var d := SanitiseDate(raw);
    SanitiseDateIsPerCharacter(d);
    DateCharsFixed(d);
  }

  /** The shape `str()` gives a timestamp with microseconds,
      `date hh:mm:ss.ffffff`: the colons vanish, the decimal point becomes a
      dash and the separating space stays, e.g. `2023-01-05 10:00:00.123000`
      becomes `2023-01-05 100000-123000`. */
  lemma SanitiseStamp(d: string, h: string, m: string, s: string, f: string)
    requires DateText(d) && DateText(h) && DateText(m) && DateText(s) && DateText(f)
    ensures SanitiseDate(d + " " + h + ":" + m + ":" + s + "." + f) == d + " " + h + m + s + "-" + f
  {
    StampSeconds(d, h, m, s);
    SanitiseStep(d + " " + h + ":" + m + ":" + s, '.', f);
  }

  lemma StampSeconds(d: string, h: string, m: string, s: string)
    requires DateText(d) && DateText(h) && DateText(m) && DateText(s)
    ensures SanitiseDate(d + " " + h + ":" + m + ":" + s) == d + " " + h + m + s
  {
    StampMinutes(d, h, m);
    SanitiseStep(d + " " + h + ":" + m, ':', s);
  }

  lemma StampMinutes(d: string, h: string, m: string)
    requires DateText(d) && DateText(h) && DateText(m)
    ensures SanitiseDate(d + " " + h + ":" + m) == d + " " + h + m
  {
    SanitiseDateFixedPart(d);
    SanitiseStep(d, ' ', h);
    SanitiseStep(d + " " + h, ':', m);
  }

  /** One separator and one kept piece more. */
  lemma SanitiseStep(x: string, c: char, y: string)
    requires DateText(y)
    ensures SanitiseDate(x + [c] + y) == SanitiseDate(x) + DateChar(c) + y
  {
    SanitiseDateAppend(x + [c], y);
    SanitiseDateAppend(x, [c]);
    SanitiseOneChar(c);
    SanitiseDateFixedPart(y);
  }

  /** An ISO-style timestamp loses its colons outright: `2023-01-05T10:00:00Z`
      becomes `2023-01-05T100000Z`, not `2023-01-05T10-00-00Z`. */
  lemma IsoStampLosesColons()
    ensures SanitiseDate("2023-01-05T10:00:00Z") == "2023-01-05T100000Z"
  {
    IsoPieces();
    IsoText();
    SanitiseDateFixedPart("2023-01-05T10");
    SanitiseStep("2023-01-05T10", ':', "00");
    SanitiseStep("2023-01-05T10" + [':'] + "00", ':', "00Z");
    IsoResult();
  }

  // `IsoPieces`, `IsoText` and `IsoResult` state facts about the literals of
  // `IsoStampLosesColons`. They model nothing; they keep each step of the
  // example small enough for the solver.
  lemma IsoPieces()
    ensures "2023-01-05T10" + [':'] + "00" + [':'] + "00Z" == "2023-01-05T10:00:00Z"
  {
  }

  lemma IsoText()
    ensures DateText("2023-01-05T10") && DateText("00") && DateText("00Z")
  {
  }

  lemma IsoResult()
    ensures "2023-01-05T10" + "" + "00" + "" + "00Z" == "2023-01-05T100000Z"
  {
  }

  /** Text made only of characters the date keeps unchanged. */
  predicate DateText(s: string) {
    forall k :: 0 <= k < |s| ==> AllowedDateChar(s[k]) || s[k] == ' '
  }

  /** Pieces without `:` and `.` made only of kept characters pass through. */
  lemma SanitiseDateFixedPart(s: string)
    requires DateText(s)
    ensures SanitiseDate(s) == s
  {
    SanitiseDateIsPerCharacter(s);
    DateCharsFixed(s);
  }

  /** What a `:` of the title becomes: a space and an en dash. */
  const COLON_REWRITE: string := " –"

  /** kim.py:214-217: the fallback to the date, then the colon rewrite. */
  function NoteTitle(title: string, date: string): (r: string)
    ensures ':' !in r
    ensures title == "" && ':' !in date ==> r == date
    ensures title != "" ==> |r| == |title| + Count(title, ':')
  {
    var t := if title == "" then date else title;
    assert |COLON_REWRITE| == 2;
    ReplaceCharLength(t, ':', COLON_REWRITE);
    ReplaceChar(t, ':', COLON_REWRITE)
  }

  /** Inverse of the colon rewrite: every ` –` turns back into `:`. */
  function RestoreColons(s: string): string {
    if s == [] then ""
    else if |s| >= 2 && s[0] == ' ' && s[1] == '–' then ":" + RestoreColons(s[2..])
    else [s[0]] + RestoreColons(s[1..])
  }

  /** The rewrite never produces an en dash at the start unless the title had one. */
  lemma RewriteHead(s: string)
    requires '–' !in s && s != []
    ensures ReplaceChar(s, ':', COLON_REWRITE)[0] != '–'
  {
  }

  lemma {:induction false} RestoreRewrite(s: string)
    requires '–' !in s
    ensures RestoreColons(ReplaceChar(s, ':', COLON_REWRITE)) == s
  {
    if s != [] {
      var rest := ReplaceChar(s[1..], ':', COLON_REWRITE);
      RestoreRewrite(s[1..]);
      if s[0] == ':' {
        assert ReplaceChar(s, ':', COLON_REWRITE) == " –" + rest;
        assert (" –" + rest)[2..] == rest;
      } else {
        assert ReplaceChar(s, ':', COLON_REWRITE) == [s[0]] + rest;
        if s[0] == ' ' && rest != [] {
          RewriteHead(s[1..]);
        }
        assert ([s[0]] + rest)[1..] == rest;
      }
      assert s == [s[0]] + s[1..];
    }
  }

  /** A title without en dashes can be recovered from the rewritten one. */
  lemma NoteTitleRoundTrip(title: string, date: string)
    requires title != "" && '–' !in title
    ensures RestoreColons(NoteTitle(title, date)) == title
  {
    RestoreRewrite(title);
  }

  /** An untitled note is named after its date string. */
  lemma UntitledNoteNamedByDate(raw: string)
    ensures NoteTitle("", SanitiseDate(raw)) == SanitiseDate(raw)
  {
  }
}
