/** Glyph folding of a note's body (kim.py:219): twelve `str.replace` calls
    that turn typographic characters into plain ASCII, applied one after the
    other in a fixed order.

    `ReplaceAll` follows the chain literally. `MapChars` is an independent,
    character-by-character description: every character is looked up in the
    table and replaced by its ASCII text, or kept. Because every replacement
    text is ASCII and every glyph is not, the order of the chain does not
    matter and the two agree (`FoldIsPerCharacter`). */
module Glyphs {
  import opened Wrappers
  import opened Text

  /** One `replace(glyph, ascii)` of the chain. */
  datatype Fold = Fold(glyph: char, ascii: string)

  /** The chain in source order: right and left double quotes, left and
      right single quotes, bullet, ballot box, ballot box with check,
      no-break space, en dash, em dash, ellipsis, plus-minus sign. */
  const GlyphTable: seq<Fold> := [
    Fold('\U{201D}', "\""),
    Fold('\U{201C}', "\""),
    Fold('\U{2018}', "'"),
    Fold('\U{2019}', "'"),
    Fold('\U{2022}', "-"),
    Fold('\U{2610}', "[ ]"),
    Fold('\U{2611}', "[x]"),
    Fold('\U{A0}', " "),
    Fold('\U{2013}', "--"),
    Fold('\U{2014}', "--"),
    Fold('\U{2026}', "..."),
    Fold('\U{B1}', "+/-")
  ]

  predicate IsAscii(s: string) {
    forall k :: 0 <= k < |s| ==> s[k] < '\U{80}'
  }

  /** A chain whose glyphs are all non-ASCII and whose replacements are all ASCII. */
  predicate AsciiFolds(t: seq<Fold>) {
    forall i :: 0 <= i < |t| ==> t[i].glyph >= '\U{80}' && IsAscii(t[i].ascii)
  }

  lemma GlyphTableAsciiFolds()
    ensures AsciiFolds(GlyphTable)
  {
  }

  /** The replacement the first entry for `c` prescribes, if there is one. */
  function Lookup(c: char, t: seq<Fold>): (r: Option<string>)
    ensures r.Some? ==> exists i :: 0 <= i < |t| && t[i] == Fold(c, r.value)
    ensures r.None? ==> forall i :: 0 <= i < |t| ==> t[i].glyph != c
  {
    if t == [] then None
    else if t[0].glyph == c then Some(t[0].ascii)
    else
      var r := Lookup(c, t[1..]);
      assert forall i :: 1 <= i < |t| ==> t[i] == t[1..][i - 1];
      assert r.Some? ==> t[1..][FirstIndex(c, r.value, t[1..])] == Fold(c, r.value);
      r
  }

  /** Some index of the entry `Fold(c, a)` the table is known to hold. */
  function FirstIndex(c: char, a: string, t: seq<Fold>): (i: nat)
    requires exists i :: 0 <= i < |t| && t[i] == Fold(c, a)
    ensures i < |t| && t[i] == Fold(c, a)
  {
    if t[0] == Fold(c, a) then 0
    else
      assert forall i :: 1 <= i < |t| ==> t[i] == t[1..][i - 1];
      1 + FirstIndex(c, a, t[1..])
  }

  predicate IsGlyph(c: char) {
    Lookup(c, GlyphTable).Some?
  }

  /** What one character becomes. */
  function FoldChar(c: char, t: seq<Fold>): string {
    match Lookup(c, t)
    case None => [c]
    case Some(a) => a
  }

  /** The character-by-character reference: each character folded on its own. */
  function MapChars(s: string, t: seq<Fold>): string {
    if s == [] then [] else FoldChar(s[0], t) + MapChars(s[1..], t)
  }

  /** The chain as written: `s.replace(g1, a1).replace(g2, a2)...`. */
  function ReplaceAll(s: string, t: seq<Fold>): string
    decreases |t|
  {
    if t == [] then s else ReplaceAll(ReplaceChar(s, t[0].glyph, t[0].ascii), t[1..])
  }

  /** kim.py:219 applied to a note's text. */
  function FoldGlyphs(s: string): (r: string)
    ensures r == MapChars(s, GlyphTable)
  {
    GlyphTableAsciiFolds();
    FoldIsPerCharacter(s, GlyphTable);
    ReplaceAll(s, GlyphTable)
  }

  /** None of the twelve glyphs survives the fold. */
  lemma FoldGlyphsLeavesNoGlyph(s: string)
    ensures forall k :: 0 <= k < |FoldGlyphs(s)| ==> !IsGlyph(FoldGlyphs(s)[k])
  {
    GlyphTableAsciiFolds();
    MapCharsFree(s, GlyphTable);
  }

  lemma {:induction false} MapCharsAppend(a: string, b: string, t: seq<Fold>)
    ensures MapChars(a + b, t) == MapChars(a, t) + MapChars(b, t)
  {
    if a == [] {
      assert a + b == b;
    } else {
      assert (a + b)[0] == a[0];
      assert (a + b)[1..] == a[1..] + b;
      MapCharsAppend(a[1..], b, t);
      Assoc(FoldChar(a[0], t), MapChars(a[1..], t), MapChars(b, t));
    }
  }

  /** Text without any of the chain's glyphs is left as it is. */
  lemma {:induction false} MapCharsUnchanged(s: string, t: seq<Fold>)
    requires forall k :: 0 <= k < |s| ==> Lookup(s[k], t).None?
    ensures MapChars(s, t) == s
  {
    if s != [] {
      assert forall k :: 0 <= k < |s| - 1 ==> s[1..][k] == s[k + 1];
      MapCharsUnchanged(s[1..], t);
      assert s == [s[0]] + s[1..];
    }
  }

  lemma AsciiIsNoGlyph(c: char, t: seq<Fold>)
    requires AsciiFolds(t) && c < '\U{80}'
    ensures Lookup(c, t).None?
  {
  }

  /** Replacing the first glyph of the chain, then folding with the rest, is
      folding with the whole chain. */
  lemma {:induction false} ReplaceThenFold(s: string, f: Fold, t: seq<Fold>)
    requires AsciiFolds([f] + t)
    ensures MapChars(ReplaceChar(s, f.glyph, f.ascii), t) == MapChars(s, [f] + t)
  {
    assert ([f] + t)[0] == f && ([f] + t)[1..] == t;
    if s != [] {
      var head := if s[0] == f.glyph then f.ascii else [s[0]];
      ReplaceThenFold(s[1..], f, t);
      MapCharsAppend(head, ReplaceChar(s[1..], f.glyph, f.ascii), t);
      if s[0] == f.glyph {
        assert AsciiFolds(t) by {
          assert forall i :: 0 <= i < |t| ==> t[i] == ([f] + t)[i + 1];
        }
        forall k | 0 <= k < |f.ascii|
          ensures Lookup(f.ascii[k], t).None?
        {
          AsciiIsNoGlyph(f.ascii[k], t);
        }
        MapCharsUnchanged(f.ascii, t);
      } else {
        assert MapChars([s[0]], t) == FoldChar(s[0], t) by {
          assert [s[0]][1..] == [];
        }
      }
    }
  }

  /** The chain of replacements computes the per-character fold. */
  lemma {:induction false} FoldIsPerCharacter(s: string, t: seq<Fold>)
    requires AsciiFolds(t)
    ensures ReplaceAll(s, t) == MapChars(s, t)
    decreases |t|
  {
    if t == [] {
      forall k | 0 <= k < |s|
        ensures Lookup(s[k], t).None?
      {
      }
      MapCharsUnchanged(s, t);
    } else {
      assert t == [t[0]] + t[1..];
      assert AsciiFolds(t[1..]) by {
        assert forall i :: 0 <= i < |t| - 1 ==> t[1..][i] == t[i + 1];
      }
      FoldIsPerCharacter(ReplaceChar(s, t[0].glyph, t[0].ascii), t[1..]);
      ReplaceThenFold(s, t[0], t[1..]);
    }
  }

  /** No glyph survives the fold. */
  lemma {:induction false} MapCharsFree(s: string, t: seq<Fold>)
    requires AsciiFolds(t)
    ensures forall k :: 0 <= k < |MapChars(s, t)| ==> Lookup(MapChars(s, t)[k], t).None?
  {
    if s != [] {
      MapCharsFree(s[1..], t);
      var h := FoldChar(s[0], t);
      forall k | 0 <= k < |h|
        ensures Lookup(h[k], t).None?
      {
        if Lookup(s[0], t).Some? {
          var i := FirstIndex(s[0], h, t);
          AsciiIsNoGlyph(h[k], t);
        }
      }
      var m := MapChars(s, t);
      assert forall k :: |h| <= k < |m| ==> m[k] == MapChars(s[1..], t)[k - |h|];
    }
  }

  /** With any chain that folds glyphs to ASCII, folding twice is folding once. */
  lemma MapCharsIdempotent(s: string, t: seq<Fold>)
    requires AsciiFolds(t)
    ensures MapChars(MapChars(s, t), t) == MapChars(s, t)
  {
    MapCharsFree(s, t);
    MapCharsUnchanged(MapChars(s, t), t);
  }

  /** Folding twice is folding once. */
  lemma FoldGlyphsIdempotent(s: string)
    ensures FoldGlyphs(FoldGlyphs(s)) == FoldGlyphs(s)
  {
    GlyphTableAsciiFolds();
    MapCharsIdempotent(s, GlyphTable);
  }

  /** A text with none of the glyphs comes back unchanged. */
  lemma FoldGlyphsPlain(s: string)
    requires forall k :: 0 <= k < |s| ==> !IsGlyph(s[k])
    ensures FoldGlyphs(s) == s
  {
    MapCharsUnchanged(s, GlyphTable);
  }

  /** Folding works line by line: it commutes with concatenation. */
  lemma FoldGlyphsAppend(a: string, b: string)
    ensures FoldGlyphs(a + b) == FoldGlyphs(a) + FoldGlyphs(b)
  {
    MapCharsAppend(a, b, GlyphTable);
  }

  /** No glyph appears twice in the chain, so each has exactly one replacement. */
  predicate DistinctGlyphs(t: seq<Fold>) {
    forall i, j :: 0 <= i < j < |t| ==> t[i].glyph != t[j].glyph
  }

  lemma GlyphTableDistinct()
    ensures DistinctGlyphs(GlyphTable)
  {
  }

  lemma {:induction false} LookupEntry(t: seq<Fold>, i: nat)
    requires DistinctGlyphs(t) && i < |t|
    ensures Lookup(t[i].glyph, t) == Some(t[i].ascii)
  {
    if i > 0 {
      assert t[0].glyph != t[i].glyph;
      assert t[1..][i - 1] == t[i];
      LookupEntry(t[1..], i - 1);
    }
  }

  /** Each glyph on its own becomes its table entry: the ballot box with
      check becomes "[x]", the ellipsis "...", and so on. */
  lemma FoldGlyphsEntry(i: nat)
    requires i < |GlyphTable|
    ensures FoldGlyphs([GlyphTable[i].glyph]) == GlyphTable[i].ascii
  {
    GlyphTableDistinct();
    MapCharsEntry(GlyphTable, i);
  }

  lemma MapCharsEntry(t: seq<Fold>, i: nat)
    requires DistinctGlyphs(t) && i < |t|
    ensures MapChars([t[i].glyph], t) == t[i].ascii
  {
    LookupEntry(t, i);
    assert [t[i].glyph][1..] == [];
  }
}
