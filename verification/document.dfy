/** Writing one note as a Markdown file (`keep_save_md_file`, kim.py:159-197)
    and the conversion loop that feeds it (`keep_query_convert`,
    kim.py:211-233).

    The file system is a set of existing paths, the downloads are their
    HTTP status and sniffed kind, and the date formatter is a parameter
    `stamp` that either renders a timestamp or fails with the text of its
    error. A file is named after the note's title; if that file already
    exists, the date string is appended once, without checking again. The
    attachments' embeds are prepended one by one, so the last attachment
    ends up first. The document is a heading, the tag line, the body with
    both kinds of link wrapped, and a footer with the two timestamps and a
    link back to the note. */
module Document {
  import opened Wrappers
  import opened Text
  import Linkify
  import opened Attachments
  import Glyphs
  import Labels
  import Naming

  const KEEP_NOTE_URL: string := "https://keep.google.com/#NOTE/"
  const SAVE_FAILED: string := "Problem with markdown file creation: "
  const TECH_ERR: string := " Technical Error Message: "

  /** `Path(outpath, title + ".md")`, joined with a plain `/`. */
  function MdPath(outpath: string, title: string): string {
    outpath + "/" + title + ".md"
  }

  /** kim.py:167: where the attachments are stored. */
  function MediaPath(outpath: string): string {
    outpath + "/" + MEDIA_DEFAULT_PATH
  }

  /** kim.py:171-174: the title the file is finally named after. The date is
      appended at most once and the result is not checked again. */
  function ChooseTitle(outpath: string, title: string, date: string, existing: set<string>): (t: string)
    ensures t == title || t == title + date
    ensures MdPath(outpath, title) !in existing ==> t == title
    ensures MdPath(outpath, title) in existing ==> t == title + date
    ensures MdPath(outpath, t) !in existing
            <==> MdPath(outpath, title) !in existing || MdPath(outpath, title + date) !in existing
  {
    if MdPath(outpath, title) in existing then title + date else title
  }

  lemma CancelAround(a: string, x: string, y: string, b: string)
    requires a + x + b == a + y + b
    ensures x == y
  {
    assert |x| == |y|;
    var l := a + x + b;
    var r := a + y + b;
    assert x == l[|a|..|a| + |x|];
    assert y == r[|a|..|a| + |y|];
  }

  /** Two notes with the same taken title but different dates go to
      different files. */
  lemma DatesSeparatePaths(outpath: string, title: string, d1: string, d2: string, existing: set<string>)
    requires MdPath(outpath, title) in existing && d1 != d2
    ensures MdPath(outpath, ChooseTitle(outpath, title, d1, existing)) != MdPath(outpath, ChooseTitle(outpath, title, d2, existing))
  {
    var p := outpath + "/" + title;
    assert MdPath(outpath, title + d1) == p + d1 + ".md";
    assert MdPath(outpath, title + d2) == p + d2 + ".md";
    if p + d1 + ".md" == p + d2 + ".md" {
      CancelAround(p, d1, d2, ".md");
    }
  }

  /** When both the plain and the dated file exist, the dated one is
      overwritten. */
  lemma SecondCollisionOverwrites(outpath: string, title: string, date: string, existing: set<string>)
    requires MdPath(outpath, title) in existing && MdPath(outpath, title + date) in existing
    ensures ChooseTitle(outpath, title, date, existing) == title + date
    ensures MdPath(outpath, ChooseTitle(outpath, title, date, existing)) in existing
  {
  }

  /** A download request: the HTTP status and the kind of the bytes. */
  datatype Fetch = Fetch(status: int, kind: ImageKind)

  /** kim.py:175-178: the attachments of a note, named `<title><index>`. */
  function Downloads(title: string, mediapath: string, blobs: seq<Fetch>): (ds: seq<Download>)
    ensures |ds| == |blobs|
    ensures forall i :: 0 <= i < |ds| ==> ParseEmbed(ds[i].embed) == Some(ImageName(title, i) + Extension(blobs[i].status, blobs[i].kind))
  {
    seq(|blobs|, i requires 0 <= i < |blobs| => DownloadBlob(ImageName(title, i), mediapath, blobs[i].status, blobs[i].kind))
  }

  function Embeds(ds: seq<Download>): seq<string> {
    seq(|ds|, i requires 0 <= i < |ds| => ds[i].embed)
  }

  /** Embeds each followed by a blank line, in the order given. */
  function EmbedBlock(es: seq<string>): string {
    if es == [] then "" else es[0] + "\n\n" + EmbedBlock(es[1..])
  }

  function Reverse(es: seq<string>): (r: seq<string>)
    ensures |r| == |es|
    ensures forall i :: 0 <= i < |es| ==> r[i] == es[|es| - 1 - i]
  {
    seq(|es|, i requires 0 <= i < |es| => es[|es| - 1 - i])
  }

  /** The body after the embeds have been prepended. */
  function WithEmbeds(text: string, es: seq<string>): string {
    EmbedBlock(Reverse(es)) + text
  }

  lemma ReverseSnoc(es: seq<string>, i: nat)
    requires i < |es|
    ensures Reverse(es[..i + 1]) == [es[i]] + Reverse(es[..i])
  {
  }

  lemma EmbedBlockCons(e: string, rs: seq<string>)
    ensures EmbedBlock([e] + rs) == e + "\n\n" + EmbedBlock(rs)
  {
    assert ([e] + rs)[1..] == rs;
  }

  /** kim.py:175-179 as written: every embed is put in front of the text
      built so far. */
  method PrependEmbeds(text: string, es: seq<string>) returns (r: string)
    ensures r == WithEmbeds(text, es)
  {
    r := text;
    var i := 0;
    assert es[..0] == [];
    while i < |es|
      invariant 0 <= i <= |es|
      invariant r == EmbedBlock(Reverse(es[..i])) + text
    {
      ReverseSnoc(es, i);
      EmbedBlockCons(es[i], Reverse(es[..i]));
      r := es[i] + "\n\n" + r;
      i := i + 1;
    }
    assert es[..|es|] == es;
  }

  /** The last attachment's embed opens the body. */
  lemma LastAttachmentFirst(text: string, es: seq<string>)
    requires es != []
    ensures WithEmbeds(text, es) == es[|es| - 1] + "\n\n" + WithEmbeds(text, es[..|es| - 1])
  {
    var n := |es| - 1;
    assert Reverse(es) == [es[n]] + Reverse(es[..n]);
    EmbedBlockCons(es[n], Reverse(es[..n]));
  }

  /** kim.py:190: the body with `http://` links wrapped, then `https://` ones,
      by the corrected scan. `url_to_md` as written can wrap an earlier copy
      of a token instead (`Linkify.AsWrittenRepeatedUrl`); the two agree on a
      line with one URL (`Linkify.AsWrittenOneUrl`). */
  function LinkBody(body: string): string {
    Linkify.ExporterPrefixesValid();
    Linkify.Linkify(Linkify.Linkify(body, "http://"), "https://")
  }

  /** kim.py:186-194: the nine writes, in order, grouped into what comes
      before the body, the body and what comes after it. */
  function Content(title: string, labels: string, body: string, created: string, updated: string, id: string): string {
    Heading(title, labels) + LinkBody(body) + Footer(created, updated, id)
  }

  /** kim.py:186-189. */
  function Heading(title: string, labels: string): string {
    "# " + title + "\n\n"
    + "---\n\n"
    + "`Tags:` " + labels + "\n\n"
    + "---\n\n"
  }

  /** The end of kim.py:190 and kim.py:191-194. */
  function Footer(created: string, updated: string, id: string): string {
    "\n\n"
    + "---\n\n"
    + "    Created: " + created + "\n"
    + "    Updated: " + updated + "\n"
    + "    Source:  " + KEEP_NOTE_URL + id + "\n"
  }

  /** The last line links back to the note. */
  lemma ContentEndsWithSource(title: string, labels: string, body: string, created: string, updated: string, id: string)
    ensures var doc := Content(title, labels, body, created, updated, id);
            var line := "    Source:  " + KEEP_NOTE_URL + id + "\n";
            |line| <= |doc| && doc[|doc| - |line|..] == line
  {
    var line := "    Source:  " + KEEP_NOTE_URL + id + "\n";
    var f := Footer(created, updated, id);
    var doc := Content(title, labels, body, created, updated, id);
    var pre := Heading(title, labels) + LinkBody(body) + f[..|f| - |line|];
    assert f == f[..|f| - |line|] + line;
    assert doc == pre + line;
  }

  /** A body with no link in it appears in the document as it is. */
  lemma PlainBodyVerbatim(title: string, labels: string, body: string, created: string, updated: string, id: string)
    requires !Contains(body, "http://") && !Contains(body, "https://")
    ensures Content(title, labels, body, created, updated, id) == Heading(title, labels) + body + Footer(created, updated, id)
  {
    Linkify.ExporterPrefixesValid();
    Linkify.LinkifyWithoutPrefix(body, "http://");
    Linkify.LinkifyWithoutPrefix(body, "https://");
  }

  /** The title on the first line: what follows `# ` up to the line break. */
  function ReadTitle(doc: string): Option<string> {
    if |doc| >= 2 && doc[..2] == "# " then
      match FindChar(doc, '\n', 2)
      case None => None
      case Some(e) => Some(doc[2..e])
    else None
  }

  /** A one-line title is read back from the document. */
  lemma ReadTitleOfContent(title: string, labels: string, body: string, created: string, updated: string, id: string)
    requires '\n' !in title
    ensures ReadTitle(Content(title, labels, body, created, updated, id)) == Some(title)
  {
    var rest := "\n---\n\n" + "`Tags:` " + labels + "\n\n" + "---\n\n" + LinkBody(body) + Footer(created, updated, id);
    assert Content(title, labels, body, created, updated, id) == "# " + title + "\n" + rest;
    ReadTitleLine(title, rest);
  }

  lemma ReadTitleLine(title: string, rest: string)
    requires '\n' !in title
    ensures ReadTitle("# " + title + "\n" + rest) == Some(title)
  {
    var doc := "# " + title + "\n" + rest;
    assert doc[..2] == "# ";
    assert doc[2 + |title|] == '\n';
    assert forall k :: 2 <= k < 2 + |title| ==> doc[k] == title[k - 2];
    assert doc[2..2 + |title|] == title;
  }

  /** The message raised when writing the file fails. */
  function SaveError(path: string, cause: string): string {
    SAVE_FAILED + path + "\r\n" + TECH_ERR + cause
  }

  /** A written file: its path, its text and the downloads behind it. */
  datatype SavedNote = SavedNote(path: string, content: string, downloads: seq<Download>)

  /** kim.py:159-197. `created` and `updated` are the outcomes of rendering
      the two timestamps; the first failure is reported. */
  function SaveMdFile(outpath: string, existing: set<string>, title: string, text: string, labels: string,
                      blobs: seq<Fetch>, date: string, created: Result<string, string>,
                      updated: Result<string, string>, id: string): (r: Result<SavedNote, string>)
    ensures r.Success? <==> created.Success? && updated.Success?
    ensures r.Success? ==> r.value.path == MdPath(outpath, ChooseTitle(outpath, title, date, existing))
    ensures r.Success? ==> |r.value.downloads| == |blobs|
    ensures r.Success? ==> r.value.downloads == Downloads(ChooseTitle(outpath, title, date, existing), MediaPath(outpath), blobs)
    ensures r.Success? ==> r.value.content == Content(ChooseTitle(outpath, title, date, existing), labels,
                                                      WithEmbeds(text, Embeds(r.value.downloads)),
                                                      created.value, updated.value, id)
    ensures r.Success? && '\n' !in title + date ==> ReadTitle(r.value.content) == Some(ChooseTitle(outpath, title, date, existing))
    ensures r.Failure? ==> r.error == SaveError(MdPath(outpath, ChooseTitle(outpath, title, date, existing)),
                                                if created.Failure? then created.error else updated.error)
  {
    var t := ChooseTitle(outpath, title, date, existing);
    var path := MdPath(outpath, t);
    var ds := Downloads(t, MediaPath(outpath), blobs);
    var body := WithEmbeds(text, Embeds(ds));
    if created.Failure? then Failure(SaveError(path, created.error))
    else if updated.Failure? then Failure(SaveError(path, updated.error))
    else
      TitleReadsBack(title, date, t, labels, body, created.value, updated.value, id);
      Success(SavedNote(path, Content(t, labels, body, created.value, updated.value, id), ds))
  }

  /** The chosen title is the title, possibly with the date after it; when
      neither holds a line break, it reads back from the document. */
  lemma TitleReadsBack(title: string, date: string, t: string, labels: string, body: string,
                       created: string, updated: string, id: string)
    requires t == title || t == title + date
    ensures '\n' !in title + date ==> ReadTitle(Content(t, labels, body, created, updated, id)) == Some(t)
  {
    if '\n' !in title + date {
      assert '\n' !in t;
      ReadTitleOfContent(t, labels, body, created, updated, id);
    }
  }

  /** A note as the Keep client delivers it; `created` and `updated` are
      the `str()` of its timestamps. */
  datatype Note = Note(title: string, text: string, labels: seq<string>, blobs: seq<Fetch>,
                       created: string, updated: string, id: string)

  /** What `keep_save_md_file` is called with for one note. */
  datatype Prepared = Prepared(title: string, text: string, labels: string, blobs: seq<Fetch>, date: string,
                               created: Result<string, string>, updated: Result<string, string>, id: string)

  /** kim.py:212-226 for one note: the date string, the title, the folded
      body and the tag line; `stamp` renders the two timestamps (kim.py:182-183). */
  function Prepare(n: Note, stamp: string -> Result<string, string>): (p: Prepared)
    ensures ':' !in p.title && ':' !in p.date && '.' !in p.date
    ensures forall k :: 0 <= k < |p.text| ==> !Glyphs.IsGlyph(p.text[k])
    ensures Labels.AllAllowed(p.labels)
    ensures p.labels == "" <==> n.labels == []
    ensures p.created == stamp(n.created) && p.updated == stamp(n.updated)
  {
    var date := Naming.SanitiseDate(n.created);
    Glyphs.FoldGlyphsLeavesNoGlyph(n.text);
    Labels.LabelLineAllowed(n.labels);
    Labels.LabelLineEnds(n.labels);
    Prepared(Naming.NoteTitle(n.title, date), Glyphs.FoldGlyphs(n.text), Labels.LabelLine(n.labels), n.blobs, date,
             stamp(n.created), stamp(n.updated), n.id)
  }

  /** kim.py:233: one prepared note saved. */
  function SaveNote(p: Prepared, outpath: string, existing: set<string>): (r: Result<SavedNote, string>)
    ensures r.Success? <==> p.created.Success? && p.updated.Success?
    ensures r.Success? ==> r.value.path == MdPath(outpath, ChooseTitle(outpath, p.title, p.date, existing))
  {
    SaveMdFile(outpath, existing, p.title, p.text, p.labels, p.blobs, p.date, p.created, p.updated, p.id)
  }

  /** What a run leaves behind: the files it wrote, in order, and the message
      of the note that stopped it, if one did. Files written before a failure
      stay on disk. */
  datatype Run = Run(saved: seq<SavedNote>, error: Option<string>)

  /** The paths of the written files. */
  function Paths(fs: seq<SavedNote>): set<string> {
    if fs == [] then {} else {fs[0].path} + Paths(fs[1..])
  }

  /** kim.py:211-233: the prepared notes in order; every written file exists
      for the notes after it, and the first failure ends the run. */
  function ExportRun(ps: seq<Prepared>, outpath: string, existing: set<string>): Run
    decreases |ps|
  {
    if ps == [] then Run([], None)
    else
      match SaveNote(ps[0], outpath, existing)
      case Failure(e) => Run([], Some(e))
      case Success(f) =>
        var rest := ExportRun(ps[1..], outpath, existing + {f.path});
        Run([f] + rest.saved, rest.error)
  }

  /** kim.py:201-233: every note is prepared, then saved. Preparing is pure
      and cannot fail, so preparing all notes first changes nothing. */
  function ConvertNotes(notes: seq<Note>, outpath: string, existing: set<string>, stamp: string -> Result<string, string>): Run {
    ExportRun(PrepareAll(notes, stamp), outpath, existing)
  }

  function PrepareAll(notes: seq<Note>, stamp: string -> Result<string, string>): (ps: seq<Prepared>)
    ensures |ps| == |notes|
    ensures forall i :: 0 <= i < |notes| ==> ps[i].created == stamp(notes[i].created) && ps[i].updated == stamp(notes[i].updated)
  {
    seq(|notes|, i requires 0 <= i < |notes| => Prepare(notes[i], stamp))
  }

  /** Both timestamps of a note render. */
  predicate Renders(p: Prepared) {
    p.created.Success? && p.updated.Success?
  }

  /** Whether every timestamp of the notes rendered. */
  predicate StampsRender(ps: seq<Prepared>) {
    forall i :: 0 <= i < |ps| ==> Renders(ps[i])
  }

  lemma StampsRenderCons(ps: seq<Prepared>)
    requires ps != []
    ensures StampsRender(ps) <==> Renders(ps[0]) && StampsRender(ps[1..])
  {
    assert forall i :: 1 <= i < |ps| ==> ps[i] == ps[1..][i - 1];
  }

  /** The run fails exactly when some timestamp cannot be rendered; whether
      files exist does not matter. */
  lemma {:induction false} ExportRunSucceeds(ps: seq<Prepared>, outpath: string, existing: set<string>)
    ensures ExportRun(ps, outpath, existing).error.None? <==> StampsRender(ps)
    decreases |ps|
  {
    if ps != [] {
      StampsRenderCons(ps);
      var c := SaveNote(ps[0], outpath, existing);
      if c.Success? {
        ExportRunSucceeds(ps[1..], outpath, existing + {c.value.path});
      }
    }
  }

  /** Converting notes succeeds exactly when all their timestamps render. */
  lemma ConvertNotesSucceeds(notes: seq<Note>, outpath: string, existing: set<string>, stamp: string -> Result<string, string>)
    ensures ConvertNotes(notes, outpath, existing, stamp).error.None?
            <==> forall i :: 0 <= i < |notes| ==> stamp(notes[i].created).Success? && stamp(notes[i].updated).Success?
  {
    var ps := PrepareAll(notes, stamp);
    ExportRunSucceeds(ps, outpath, existing);
    StampsRenderAll(notes, ps, stamp);
  }

  lemma StampsRenderAll(notes: seq<Note>, ps: seq<Prepared>, stamp: string -> Result<string, string>)
    requires |ps| == |notes|
    requires forall i :: 0 <= i < |notes| ==> ps[i].created == stamp(notes[i].created) && ps[i].updated == stamp(notes[i].updated)
    ensures StampsRender(ps) <==> forall i :: 0 <= i < |notes| ==> stamp(notes[i].created).Success? && stamp(notes[i].updated).Success?
  {
  }

  /** The run writes a prefix of the notes, all of which render, and stops
      exactly at the first note that does not: every note before it keeps its
      file. */
  lemma {:induction false} ExportRunStops(ps: seq<Prepared>, outpath: string, existing: set<string>)
    ensures var r := ExportRun(ps, outpath, existing);
      |r.saved| <= |ps|
      && (forall i :: 0 <= i < |r.saved| ==> Renders(ps[i]))
      && (r.error.None? <==> |r.saved| == |ps|)
      && (r.error.Some? ==> !Renders(ps[|r.saved|]))
    decreases |ps|
  {
    if ps != [] {
      var c := SaveNote(ps[0], outpath, existing);
      if c.Success? {
        var rest := ExportRun(ps[1..], outpath, existing + {c.value.path});
        ExportRunStops(ps[1..], outpath, existing + {c.value.path});
        RunHead(ps, outpath, existing);
        StopsCons(ps, c.value, rest.saved, rest.error);
      }
    }
  }

  /** The step of `ExportRunStops`: a first note that renders, in front of a
      run that stops correctly, gives a run that stops correctly. */
  lemma StopsCons(ps: seq<Prepared>, f: SavedNote, rs: seq<SavedNote>, error: Option<string>)
    requires ps != [] && Renders(ps[0])
    requires |rs| <= |ps[1..]|
    requires forall i :: 0 <= i < |rs| ==> Renders(ps[1..][i])
    requires error.None? <==> |rs| == |ps[1..]|
    requires error.Some? ==> !Renders(ps[1..][|rs|])
    ensures |[f] + rs| <= |ps|
    ensures forall i :: 0 <= i < |[f] + rs| ==> Renders(ps[i])
    ensures error.None? <==> |[f] + rs| == |ps|
    ensures error.Some? ==> !Renders(ps[|[f] + rs|])
  {
    forall i | 0 <= i < |[f] + rs|
      ensures Renders(ps[i])
    {
      if i > 0 {
        assert ps[i] == ps[1..][i - 1];
      }
    }
    if error.Some? {
      assert ps[|[f] + rs|] == ps[1..][|rs|];
    }
  }

  /** Indices of the run after its first note, seen one place further on. */
  lemma ShiftedRun(ps: seq<Prepared>, f: SavedNote, rs: seq<SavedNote>)
    requires ps != []
    ensures forall i :: 1 <= i < |ps| ==> ps[i] == ps[1..][i - 1]
    ensures forall i :: 1 <= i < 1 + |rs| ==> ([f] + rs)[i] == rs[i - 1]
  {
  }

  lemma PathsCons(f: SavedNote, rs: seq<SavedNote>)
    ensures Paths([f] + rs) == {f.path} + Paths(rs)
  {
    assert ([f] + rs)[1..] == rs;
  }

  /** Each written file is the note's save with the files written before it
      in place. */
  lemma {:induction false} ExportRunSaves(ps: seq<Prepared>, outpath: string, existing: set<string>)
    ensures var r := ExportRun(ps, outpath, existing);
      |r.saved| <= |ps|
      && forall i :: 0 <= i < |r.saved| ==> SaveNote(ps[i], outpath, existing + Paths(r.saved[..i])) == Success(r.saved[i])
    decreases |ps|
  {
    if ps != [] {
      var c := SaveNote(ps[0], outpath, existing);
      if c.Success? {
        var seen := existing + {c.value.path};
        var rest := ExportRun(ps[1..], outpath, seen);
        ExportRunSaves(ps[1..], outpath, seen);
        RunHead(ps, outpath, existing);
        SavesCons(ps, c.value, rest.saved, outpath, existing);
      }
    }
  }

  /** The step of `ExportRunSaves`: the first note's file, in front of the
      files saved after it with that file in place. */
  lemma SavesCons(ps: seq<Prepared>, f: SavedNote, rs: seq<SavedNote>, outpath: string, existing: set<string>)
    requires ps != [] && SaveNote(ps[0], outpath, existing) == Success(f)
    requires |rs| <= |ps[1..]|
    requires forall i :: 0 <= i < |rs| ==> SaveNote(ps[1..][i], outpath, existing + {f.path} + Paths(rs[..i])) == Success(rs[i])
    ensures |[f] + rs| <= |ps|
    ensures forall i :: 0 <= i < |[f] + rs| ==> SaveNote(ps[i], outpath, existing + Paths(([f] + rs)[..i])) == Success(([f] + rs)[i])
  {
    forall i | 0 <= i < |[f] + rs|
      ensures SaveNote(ps[i], outpath, existing + Paths(([f] + rs)[..i])) == Success(([f] + rs)[i])
    {
      if i == 0 {
        assert ([f] + rs)[..0] == [];
      } else {
        assert ps[i] == ps[1..][i - 1];
        PrefixPaths(f, rs, i, existing);
      }
    }
  }

  /** The files before index `i` of a run: its first file, then those before
      index `i - 1` of the rest. */
  lemma PrefixPaths(f: SavedNote, rs: seq<SavedNote>, i: nat, existing: set<string>)
    requires 0 < i <= 1 + |rs|
    ensures existing + Paths(([f] + rs)[..i]) == existing + {f.path} + Paths(rs[..i - 1])
  {
    assert ([f] + rs)[..i] == [f] + rs[..i - 1];
    PathsCons(f, rs[..i - 1]);
  }

  /** A failed run reports the file-creation message of the first note that
      cannot be saved, with the files written before it in place. */
  lemma {:induction false} ExportRunError(ps: seq<Prepared>, outpath: string, existing: set<string>)
    requires ExportRun(ps, outpath, existing).error.Some?
    ensures var r := ExportRun(ps, outpath, existing);
      |r.saved| < |ps| && SaveNote(ps[|r.saved|], outpath, existing + Paths(r.saved)) == Failure(r.error.value)
    decreases |ps|
  {
    var c := SaveNote(ps[0], outpath, existing);
    if c.Success? {
      var seen := existing + {c.value.path};
      var rest := ExportRun(ps[1..], outpath, seen);
      ExportRunError(ps[1..], outpath, seen);
      ShiftedRun(ps, c.value, rest.saved);
      PathsCons(c.value, rest.saved);
      assert existing + Paths([c.value] + rest.saved) == seen + Paths(rest.saved);
    }
  }

  /** A successful run writes one file per note. */
  lemma {:induction false} ExportRunLength(ps: seq<Prepared>, outpath: string, existing: set<string>)
    requires ExportRun(ps, outpath, existing).error.None?
    ensures |ExportRun(ps, outpath, existing).saved| == |ps|
    decreases |ps|
  {
    if ps != [] {
      var c := SaveNote(ps[0], outpath, existing);
      ExportRunLength(ps[1..], outpath, existing + {c.value.path});
    }
  }

  /** A run that gets past its first note: that note's file, then the rest
      of the run with the file in place. */
  lemma RunHead(ps: seq<Prepared>, outpath: string, existing: set<string>)
    requires ps != [] && SaveNote(ps[0], outpath, existing).Success?
    ensures var f := SaveNote(ps[0], outpath, existing).value;
            var rest := ExportRun(ps[1..], outpath, existing + {f.path});
            ExportRun(ps, outpath, existing) == Run([f] + rest.saved, rest.error)
  {
  }

  /** A run of one note that renders writes that note's file. */
  lemma RunOfOne(b: Prepared, outpath: string, seen: set<string>)
    requires Renders(b)
    ensures var r := ExportRun([b], outpath, seen);
            r.error.None? && |r.saved| == 1 && r.saved[0].path == SaveNote(b, outpath, seen).value.path
  {
    var cb := SaveNote(b, outpath, seen);
    assert [b][0] == b && [b][1..] == [];
    assert ExportRun([], outpath, seen + {cb.value.path}) == Run([], None);
    RunHead([b], outpath, seen);
  }

  /** A run of two notes that render: the second sees the first one's file. */
  lemma RunOfTwo(a: Prepared, b: Prepared, outpath: string, existing: set<string>)
    requires Renders(a) && Renders(b)
    ensures var pa := SaveNote(a, outpath, existing).value.path;
            var r := ExportRun([a, b], outpath, existing);
            r.error.None? && |r.saved| == 2 && r.saved[0].path == pa
            && r.saved[1].path == SaveNote(b, outpath, existing + {pa}).value.path
  {
    var pa := SaveNote(a, outpath, existing).value.path;
    RunOfOne(b, outpath, existing + {pa});
    assert [a, b][0] == a && [a, b][1..] == [b];
    RunHead([a, b], outpath, existing);
  }

  /** A note that fails after one that was saved: the run reports the
      failure, and the first note's file stays written. */
  lemma FailureKeepsEarlierFile(a: Prepared, b: Prepared, outpath: string, existing: set<string>)
    requires Renders(a) && !Renders(b)
    ensures var fa := SaveNote(a, outpath, existing).value;
            ExportRun([a, b], outpath, existing)
            == Run([fa], Some(SaveNote(b, outpath, existing + {fa.path}).error))
  {
    var fa := SaveNote(a, outpath, existing).value;
    assert [a, b][0] == a && [a, b][1..] == [b];
    assert [b][0] == b;
    RunHead([a, b], outpath, existing);
  }

  /** Two notes with the same title in one run: the second sees the first
      one's file and is named with its date. */
  lemma SameTitleTwice(a: Prepared, b: Prepared, outpath: string, existing: set<string>)
    requires a.title == b.title && MdPath(outpath, a.title) !in existing
    requires Renders(a) && Renders(b)
    ensures var r := ExportRun([a, b], outpath, existing);
            r.error.None? && |r.saved| == 2
            && r.saved[0].path == MdPath(outpath, a.title)
            && r.saved[1].path == MdPath(outpath, b.title + b.date)
  {
    RunOfTwo(a, b, outpath, existing);
  }
}
