# keep-it-markdown: the note-to-Markdown core in Dafny

`kim.py` exports Google Keep notes as Markdown files. This project models the
part of it that turns one note into one file:

- the query dispatch that chooses which notes to export;
- the date string, the title and its colon rewrite;
- the glyph folding of the body;
- the tag line built from the labels;
- the naming of downloaded attachments and their embeds;
- the choice of the file path, with its single-pass collision check;
- the layout of the document, including the URL linkifier `url_to_md` that
  runs over the body twice (`http://`, then `https://`);
- the conversion loop that saves the notes one after the other and stops at
  the first failure.

Everything is a pure function over strings (`seq<char>`), except two loops
that are modelled as methods with loop invariants: the index-driven loop of
`url_to_md` (`Linkify.UrlToMd`) and the loop that puts the attachments' embeds
in front of the body (`Document.PrependEmbeds`). The outside world becomes
parameters:

- the set of paths that already exist;
- the HTTP status of each download;
- the kind `imghdr` reports for the downloaded bytes;
- a `stamp` function that renders a timestamp or fails with an error text.

Modules, in dependency order:

| file | module | models |
|---|---|---|
| wrappers.dfy | `Wrappers` | `Option` and `Result` |
| text.dfy | `Text` | Python's `str.find`, `replace` (all copies of a character, or the first copy of a substring), `strip`, `str(n)` |
| linkify.dfy | `Linkify` | `url_to_md` (kim.py:109-124) |
| glyphs.dfy | `Glyphs` | the twelve-step glyph fold (kim.py:219) |
| labels.dfy | `Labels` | the tag line (kim.py:221-226) |
| naming.dfy | `Naming` | the date string and the title (kim.py:212-217) |
| query.dfy | `Query` | the query dispatch (kim.py:203-209) |
| attachments.dfy | `Attachments` | `keep_download_blob` (kim.py:127-156) |
| document.dfy | `Document` | `keep_save_md_file` (kim.py:159-197) and the loop of `keep_query_convert` (kim.py:211-233) |

Every operation but the document layout has a partner: an independent
reference description, an inverse, or an invariant, with a lemma that connects
the two. The document is checked only at its ends and for a plain body.

| operation | partner |
|---|---|
| the linkifier | a segmentation `Tokenize` into plain spans and URL tokens, whose rendering is `Linkify`; the loop `UrlToMd` is proved to compute it |
| the glyph chain | a per-character lookup `MapChars` |
| the tag line | `JoinTags`, the tags joined by single spaces |
| the date rewrite | a per-character rewrite `DateChars` |
| the title rewrite | its inverse `RestoreColons` |
| the query dispatch | its inverse `QueryText` |
| the embed | its parser `ParseEmbed` |
| `replace` of one character | its action on a single character (`ReplaceCharSingle`), which with `ReplaceCharAppend` fixes the result on every text |
| the document | a reader `ReadTitle` for its first line (`ReadTitleOfContent`), its last line (`ContentEndsWithSource`) and a body without links kept verbatim (`PlainBodyVerbatim`); where the tag line and the body sit in between follows only from the definition of `Content` |

Three behaviours of the code are kept as written:

- A URL token ends at the first line break after the prefix whenever there is
  one, even past a space. So in `http://a b` followed by a line break, the token
  is `http://a b` (`Linkify.TokenEndIsFirstBreak`).
- The date string deletes the colons rather than turning them into dashes, so
  `2023-01-05T10:00:00Z` gives `2023-01-05T100000Z`
  (`Naming.IsoStampLosesColons`).
- Media names are the title followed by the attachment index, with no
  separator, so attachment 10 of a note titled `a` and attachment 0 of a note
  titled `a1` both become `a10`, and when both get the same extension the later
download overwrites the earlier
  (`Attachments.MediaNamesClashAcrossNotes`). Within one note the names never
  clash (`Attachments.MediaNamesDistinct`).

## Model

| member | source | states |
|---|---|---|
| Text.Find | kim.py:112 | `s.find(sub, start)`: the result is an occurrence at or after `start`, none lies between `start` and it, and `None` (Python's -1) means there is no occurrence from `start` on |
| Text.FindChar | kim.py:113-115 | `s.find(c, start)` for one character: the first index at or after `start` that holds `c`, or none |
| Text.FindCharIsFind | kim.py:113-115 | searching for a character is searching for the one-character string |
| Text.ReplaceChar | kim.py:217 | `s.replace(c, repl)`: when `repl` lacks `c`, no `c` is left, and a text without `c` is unchanged |
| Text.ReplaceCharSingle | kim.py:217 | on a single character, `c` becomes `repl` and any other character is kept |
| Text.ReplaceCharAt | kim.py:217 | each character of the text is replaced in its own place: the result is the replaced text before it, its own replacement, and the replaced text after it |
| Text.ReplaceCharInPlace | kim.py:212 | a one-character replacement keeps the length, turns every `c` into the new character and keeps every other character at its index |
| Text.ReplaceCharLength | kim.py:212 | deleting a character shortens the text by its count, a one-character replacement keeps the length, a two-character one adds the count |
| Text.ReplaceFirst | kim.py:120 | `s.replace(pat, repl, 1)` leaves a text without `pat` unchanged |
| Text.ReplaceFirstLeftmost | kim.py:120 | `s.replace(pat, repl, 1)` rewrites exactly the leftmost occurrence and keeps the text around it |
| Text.Strip | kim.py:226 | `strip()`: the result neither starts nor ends with whitespace, keeps every non-whitespace character, and a text without whitespace is unchanged |
| Text.StripTrimmed | kim.py:226 | stripping a text that is already trimmed changes nothing |
| Text.StripLeadingSpace | kim.py:226 | a leading whitespace character does not change the stripped result |
| Text.NatToString | kim.py:178 | `str(idx)`: a non-empty run of decimal digits without a leading zero |
| Text.NatToStringRoundTrip | kim.py:178 | reading the digits of `str(n)` gives back `n` |
| Text.NatToStringInjective | kim.py:178 | different indices give different strings |
| Linkify.ExporterPrefixesValid | kim.py:190 | the two prefixes the exporter passes are non-empty and contain no space or line break |
| Linkify.TokenEnd | kim.py:113-117 | the token ends at a line break, a space or the end of the text, and holds no line break |
| Linkify.TokenEndIsFirstBreak | kim.py:113-117 | the token ends at a line break exactly when one follows; only when none follows can it end at a space, and then at the first one |
| Linkify.TokenCoversPrefix | kim.py:112-117 | a token that starts with the prefix contains the whole prefix |
| Linkify.Tokenize | kim.py:109-124 | the scan cuts the text into plain spans and URL tokens that, read back in order, give exactly the input |
| Linkify.TokenizeUrls | kim.py:113-119 | every URL token starts with the prefix and stays on one line |
| Linkify.TokenizePlain | kim.py:112 | no plain span contains the prefix: every occurrence lies inside a URL token |
| Linkify.Linkify | kim.py:109-124 | the corrected scan, with the replacement made at the position found; `LinkifyRendersTokens` states it renders the segmentation with each URL token as `[url](url)`, and `UrlToMd` that the loop computes it |
| Linkify.LinkifyRendersTokens | kim.py:119-120 | the linkified text is the segmentation with each URL token written as `[url](url)` and everything else kept |
| Linkify.LinkifyWithoutPrefix | kim.py:109-124 | a text without the prefix comes back unchanged |
| Linkify.UrlToMd | kim.py:109-124 | the loop, with the replacement made at the position the scan found, computes `Linkify`; a text without the prefix comes back unchanged; the loop ends because the distance from the scan position to the end of the text shrinks |
| Linkify.CorrectedRound | kim.py:119-122 | one round wraps the token, the text grows by the token's length plus four, the next search starts that far past the old token end, and the distance to the end of the text shrinks |
| Linkify.LinkifyOneUrl | kim.py:109-124 | a line `a + url + " " + b` whose only prefix occurrence is the URL token (none starts in `a`, none lies in `b`) and with no line break after the URL: only the token changes, into `[url](url)` |
| Linkify.AsWrittenOneUrl | kim.py:109-124 | on the same line the loop as written gives the same result: the leftmost copy of the token is the one the scan found, and the loop then stops |
| Linkify.CheckExample | kim.py:109-124 | `Check http://example.com for info` becomes `Check [http://example.com](http://example.com) for info` |
| Linkify.LinkifyRepeatedUrl | kim.py:109-124 | with the corrected replacement, a URL written twice is linked twice, once per copy |
| Linkify.AsWrittenStep | kim.py:112-122 | one round of the loop as written: it stops exactly when the search fails, and otherwise shrinks the distance to the end of the text |
| Linkify.AsWrittenProgress | kim.py:120-122 | after `replace(url, ..., 1)` the next search position is still within the text and further along relative to its end |
| Linkify.ReplaceFirstShape | kim.py:120-121 | replacing the leftmost copy of the token grows the text by the token's length plus four and leaves the text after the scanned token in place |
| Linkify.StepShape | kim.py:119-122 | after a round as written, the text from the new search position on is the text after the old token |
| Linkify.ScanAsWritten | kim.py:109-124 | the loop of `url_to_md` as written, replacing the leftmost copy of each token; `ScanAsWrittenLength` fixes its length, `AsWrittenOneUrl` its result on a line with one URL and `AsWrittenRepeatedUrl` its result on a repeated URL |
| Linkify.ScanAsWrittenLength | kim.py:109-124 | the loop as written produces exactly as much text as the corrected scan |
| Linkify.UrlToMdAsWritten | kim.py:109-124 | `url_to_md` as written has the corrected result's length and leaves a text without the prefix unchanged |
| Linkify.AsWrittenRepeatedUrl | kim.py:120 | for a URL written twice, the loop as written wraps the first copy twice and leaves the second bare |
| Linkify.RepeatedUrlDoubleWrapped | kim.py:120 | on `http://a http://a` the loop as written gives `[[http://a](http://a)](http://a) http://a`, while the corrected scan gives `[http://a](http://a) [http://a](http://a)` |
| Glyphs.GlyphTableAsciiFolds | kim.py:219 | every glyph of the chain is non-ASCII and every replacement is ASCII |
| Glyphs.GlyphTableDistinct | kim.py:219 | the twelve glyphs are pairwise different |
| Glyphs.Lookup | kim.py:219 | the replacement found for a character is an entry of the table, and no entry matches when none is found |
| Glyphs.ReplaceAll | kim.py:219 | the chain of `replace` calls in order; `FoldIsPerCharacter` states it equals the per-character lookup |
| Glyphs.FoldIsPerCharacter | kim.py:219 | the chain of replacements equals the per-character lookup, whatever the order of the chain |
| Glyphs.FoldGlyphs | kim.py:219 | the folded note text is the per-character lookup of the glyph table |
| Glyphs.FoldGlyphsLeavesNoGlyph | kim.py:219 | none of the twelve glyphs is left in the output |
| Glyphs.FoldGlyphsIdempotent | kim.py:219 | folding twice is folding once |
| Glyphs.MapCharsIdempotent | kim.py:219 | for any chain whose glyphs are non-ASCII and whose replacements are ASCII, a second pass of the per-character fold leaves the result of the first unchanged |
| Glyphs.FoldGlyphsPlain | kim.py:219 | a text without glyphs is returned unchanged |
| Glyphs.FoldGlyphsAppend | kim.py:219 | folding distributes over concatenation |
| Glyphs.FoldGlyphsEntry | kim.py:219 | each glyph alone folds to its replacement |
| Labels.FilterLabelChars | kim.py:226 | `re.sub('[^A-z0-9-_# ]', '-', s)`: same length, kept characters unchanged, every other character `-` |
| Labels.CleanLabel | kim.py:225 | `replace(' ', '-').replace('&', 'and')`; `CleanLabelHasNoBlank`, `CleanSpaced` and `CleanAmpersand` state that no space is left, that a space becomes `-` and that `&` becomes `and` |
| Labels.RawLabelLine | kim.py:222-225 | the tags each preceded by a space; `FilteredRawLine` states what the filter makes of it |
| Labels.LabelLine | kim.py:221-226 | the filtered and stripped line; `LabelLineIsJoinedTags` states it is the tags joined by single spaces |
| Labels.CleanLabelHasNoBlank | kim.py:225 | after `replace(' ', '-')` a label holds no space |
| Labels.TagShape | kim.py:225-226 | a tag starts with `#` and holds only allowed, non-whitespace characters |
| Labels.FilteredRawLine | kim.py:223-226 | filtering the raw line of a non-empty label list gives a space followed by the tags joined by spaces |
| Labels.LabelLineIsJoinedTags | kim.py:221-226 | the tag line is the tags `#label` of the labels in iteration order, joined by single spaces |
| Labels.LabelLineAllowed | kim.py:226 | every character of the tag line is in `A-z`, `0-9`, `-`, `_`, `#` or space |
| Labels.LabelLineEnds | kim.py:223-226 | the tag line is empty exactly when there are no labels; otherwise it starts with `#` and does not end with whitespace |
| Labels.LabelLineHashes | kim.py:225-226 | the line holds one `#` per label plus those inside the labels |
| Labels.LabelLineSpaces | kim.py:225-226 | the line holds one space fewer than there are labels |
| Labels.TwoLabels | kim.py:224-226 | two labels give their two tags separated by one space |
| Labels.CleanSpaced | kim.py:225 | a space between two words of a label becomes `-` (the general case follows from `Text.ReplaceCharAt`) |
| Labels.CleanAmpersand | kim.py:225 | an `&` between two words of a label becomes `and` (the general case follows from `Text.ReplaceCharAt`) |
| Labels.LabelLineExample | kim.py:221-226 | labels `x y` and `q&a` made of plain words become `#x-y #qanda` |
| Labels.ToDoQandA | kim.py:221-226 | `["to do", "Q&A"]` gives `#to-do #QandA` |
| Naming.FilterDateChars | kim.py:212 | `re.sub('[^A-z0-9-]', ' ', s)`: same length, kept characters unchanged, every other character a space |
| Naming.SanitiseDate | kim.py:212 | the date string holds no `:` or `.`, only characters that survive the filter, and is as long as the timestamp minus its colons |
| Naming.SanitiseDateIsPerCharacter | kim.py:212 | the three chained rewrites equal the per-character rewrite: `:` vanishes, `.` becomes `-`, kept characters stay, others become a space |
| Naming.SanitiseDateIdempotent | kim.py:212 | sanitising a date string again changes nothing |
| Naming.SanitiseStamp | kim.py:212 | `date hh:mm:ss.ffffff` becomes `date hhmmss-ffffff` |
| Naming.IsoStampLosesColons | kim.py:212 | `2023-01-05T10:00:00Z` becomes `2023-01-05T100000Z` |
| Naming.NoteTitle | kim.py:214-217 | the title holds no `:`; an untitled note takes the date string; a titled note grows by one character per colon |
| Naming.NoteTitleRoundTrip | kim.py:217 | a title without en dashes is recovered from its rewrite by turning every ` –` back into `:` |
| Naming.UntitledNoteNamedByDate | kim.py:214-215 | an untitled note is named by its date string, unchanged |
| Query.Dispatch | kim.py:203-209 | `--all` selects all notes; `#name` selects the label `name`; any other non-empty query is a free-text search for itself; the empty query has no selection |
| Query.DispatchThenText | kim.py:203-209 | every non-empty query is written back as itself, and its selection is one that dispatch can reach |
| Query.TextThenDispatch | kim.py:203-209 | every reachable selection is dispatched from its own string |
| Query.HashAllIsLabel | kim.py:203-207 | `#--all` selects the label `--all`, not all notes |
| Attachments.Extension | kim.py:133-150 | `.png` exactly for status 200 with a PNG, `.jpg` exactly for status 200 with a JPEG, `.dat` otherwise, including any non-200 status |
| Attachments.DownloadBlob | kim.py:127-156 | the media name is the blob name plus the extension; the embed refers to that name; the file is copied to `<path>/<name>` exactly on status 200, and the destination is the failure text otherwise |
| Attachments.NotRetrievedIsNoPath | kim.py:151 | the failure text can never be a copy destination |
| Attachments.ParseEmbedFor | kim.py:156 | the embed parses back to the media name |
| Attachments.EmbedForParsed | kim.py:156 | an embed is determined by the name it refers to |
| Attachments.EmbedFor | kim.py:156 | the embed text for a media name; `ParseEmbedFor` and `EmbedForParsed` state that it parses back to that name and only to it |
| Attachments.EmbedShape | kim.py:156 | the returned text is always `![[media/<name><ext>]]` |
| Attachments.ImageName | kim.py:178 | the title followed by `str(idx)`; `MediaNamesDistinct` states that one note's names are pairwise different, `MediaNamesClashAcrossNotes` that two notes' names can clash |
| Attachments.MediaNamesDistinct | kim.py:176-178 | two attachments of one note never get the same media file name |
| Attachments.MediaNamesClashAcrossNotes | kim.py:178 | attachment 10 of a note titled `a` and attachment 0 of a note titled `a1` share a name |
| Document.ChooseTitle | kim.py:171-174 | the file takes the title, or the title plus the date when `title.md` exists; the date is appended at most once, and it is appended whenever `title.md` exists |
| Document.DatesSeparatePaths | kim.py:171-174 | two notes with a taken title and different dates go to different files |
| Document.SecondCollisionOverwrites | kim.py:171-174 | when the dated file exists too, it is the one written, over the old file |
| Document.Downloads | kim.py:176-179 | one download per attachment; attachment `i` is embedded as `<title><i><ext>` |
| Document.PrependEmbeds | kim.py:176-180 | prepending each embed and a blank line in loop order yields the embeds in reverse order in front of the body |
| Document.LastAttachmentFirst | kim.py:180 | the last attachment's embed opens the body |
| Document.ReadTitleOfContent | kim.py:186 | the first line of the document is `# ` and the title, which reads back |
| Document.LinkBody | kim.py:190 | the body linked for `http://` and then `https://` by the corrected scan `Linkify.Linkify`, not by `url_to_md` as written (see Findings); `PlainBodyVerbatim` states that a body without links is kept, and `Linkify.LinkifyOneUrl` what happens to one URL |
| Document.Content | kim.py:186-194 | the heading, tag line, body (linked by the corrected scan, see `Document.LinkBody`) and footer; `ReadTitleOfContent` and `ContentEndsWithSource` state that its first line reads back the title and its last line links back to the note |
| Document.PlainBodyVerbatim | kim.py:186-194 | a body without links appears between the heading and the footer unchanged |
| Document.ContentEndsWithSource | kim.py:194 | the document ends with the line linking back to the note |
| Document.SaveMdFile | kim.py:159-197 | given that the file system and network calls succeed, the file is written exactly when both timestamps render; its path is the chosen one; attachment `i` is downloaded as `<chosen title><i>`; the text is the heading and tag line, the body with the embeds in front and links wrapped, and the footer; a title and date without line breaks read back from its first line; a failure reports the path and the first failing cause |
| Document.TitleReadsBack | kim.py:186 | the chosen title, with or without the date, reads back from the document's first line when neither part holds a line break |
| Document.Prepare | kim.py:211-226 | the prepared title and date hold no `:`; the date holds no `.`; the body holds no glyph; the tag line holds only allowed characters and is empty exactly when there are no labels; the timestamps are those of the note |
| Document.SaveNote | kim.py:233 | given that the file system and network calls succeed, saving succeeds exactly when both timestamps render, at the chosen path |
| Document.PrepareAll | kim.py:211-233 | every note is prepared, in order, keeping its timestamps |
| Document.ExportRun | kim.py:211-233 | the loop over the notes, stopping at the first failure; `ExportRunStops`, `ExportRunSaves` and `ExportRunError` state which files it leaves and what it reports |
| Document.ConvertNotes | kim.py:201-233 | the notes prepared, then exported; `ConvertNotesSucceeds` states when it reports no error |
| Document.ExportRunSucceeds | kim.py:211-233 | given that the file system and network calls succeed, the run reports no error exactly when every note's timestamps render; which files already exist does not matter |
| Document.ConvertNotesSucceeds | kim.py:201-233 | given that the file system and network calls succeed, converting notes reports no error exactly when all their timestamps render |
| Document.ExportRunStops | kim.py:211-233 | the run writes files for a prefix of the notes, all of which render; it reports an error exactly when it stops short, and then the next note does not render; files written before a failure stay |
| Document.ExportRunSaves | kim.py:211-233 | each written file is that note's save with the files written before it counting as existing |
| Document.ExportRunError | kim.py:211-233 | a failed run reports the failure message of the first note it could not save, saved with the earlier files in place |
| Document.ExportRunLength | kim.py:211-233 | a successful run writes one file per note |
| Document.RunOfOne | kim.py:211-233 | a run of one rendering note writes that note's file |
| Document.FailureKeepsEarlierFile | kim.py:211-233 | when the first of two notes renders and the second does not, the run keeps the first file and reports the second note's failure |
| Document.RunOfTwo | kim.py:211-233 | in a run of two notes, the second sees the first one's file |
| Document.SameTitleTwice | kim.py:171-174 | two notes with the same free title in one run go to `title.md` and `title<date>.md` |

## Left out

- Network, files and libraries: the Keep client (`find`, `findLabel`, `getMediaLink`), `requests.get`, `imghdr.what`, `shutil.copyfile`, `os.mkdir`, `os.remove`, file writing and the `errors="ignore"` encoding. These are effects, not logic. The HTTP status, the sniffed kind and the set of existing paths are inputs instead. What the model assumes about their failures is stated on the `Document` lines below.
- The configuration, keyring, login and command-line handling. They are outside the conversion.
- `pendulum.parse(...).format(...)` (kim.py:182-183). The date formatter is a library, so it is the parameter `stamp`.
- `print` progress output and the unused `media_downloaded` flag. They do not affect the files.
- `pathlib.Path` normalisation. Paths are joined with a plain `/`.
- Document.SaveMdFile: downloads happen before the timestamps are rendered, so they happen even when rendering fails. The model keeps only the failure message for such a note.
- Document.ConvertNotes prepares every note before saving any of them. Preparation is pure and cannot fail, so this does not change any file.
- Linkify.UrlToMd: requires a prefix that is non-empty and contains no space or line break. With an empty prefix the original loop never ends. `url_to_md` is only called with `http://` and `https://`.
- Linkify.UrlToMdAsWritten: states only the length of the result and the no-prefix case, because its exact result depends on where earlier copies of each token lie. The exact result is stated for a line with one URL (`AsWrittenOneUrl`) and for the repeated-URL family (`AsWrittenRepeatedUrl`).
- Document.LinkBody: links by the corrected scan `Linkify.Linkify`, not by `url_to_md` as written. On `http://a http://a` kim.py writes `[[http://a](http://a)](http://a) http://a` (`Linkify.AsWrittenRepeatedUrl`, `Linkify.RepeatedUrlDoubleWrapped`); the model writes `[http://a](http://a) [http://a](http://a)`. The two agree on a line with one URL (`Linkify.AsWrittenOneUrl`) and on text without a prefix.
- Document.Content: its body is `Document.LinkBody`'s, so it can differ from the text kim.py:186-194 writes when a URL token's text also occurs earlier in the body, as for a repeated URL (`Linkify.AsWrittenRepeatedUrl`); it agrees on a body that is one line with one URL (`Linkify.AsWrittenOneUrl`) and on a body without a prefix.
- Document.SaveMdFile: the body is linked by the corrected scan `Linkify.Linkify`, not by `url_to_md` as written (see Findings). The saved body differs from the one kim.py writes whenever a URL token's text also occurs earlier in the body, including inside a link made earlier in the same pass. The two agree on text without a prefix (`Linkify.UrlToMdAsWritten`) and on a line with one URL (`Linkify.AsWrittenOneUrl`).
- Document.SaveMdFile: assumes that every file-system and network call in kim.py:161-194 succeeds: creating the folders, `getMediaLink`, `requests.get`, writing the temporary `.dat` file and opening the Markdown file. In kim.py any exception there aborts the note and, with it, the whole run. For example, a title holding `/` names a file in a folder that does not exist. Only the timestamp rendering is modelled as a failure.
- Document.SaveNote: assumes the same successful file-system and network calls as `SaveMdFile`.
- Document.ExportRunSucceeds: assumes the same successful file-system and network calls for every note. Under that assumption only the timestamps decide success.
- Document.ConvertNotesSucceeds: assumes the same successful file-system and network calls for every note.
- Text.ReplaceChar: its own contract does not fix the result when `c` occurs. `ReplaceCharSingle` with `ReplaceCharAppend` or `ReplaceCharAt` does, and `ReplaceCharInPlace` gives it index by index for a one-character replacement.
- Text.ReplaceFirst: its own contract covers only the text without `pat`. `ReplaceFirstLeftmost` states the general case.
- Text.Strip: the contract states the trimmed ends and the kept characters, not the exact slice. `StripTrimmed` and `StripLeadingSpace` complement it.
- Query.Dispatch: an empty query raises `IndexError` in the source and is `None` here. The lookup of the label by name (`findLabel`) is not modelled.

## Findings

| source | as written | input that shows it | evidently intended | confidence | as-written member | corrected member |
|---|---|---|---|---|---|---|
| kim.py:120 | `text.replace(url, "[url](url)", 1)` rewrites the leftmost copy of the URL anywhere in the text, not the copy the scan found at `idx` | `http://a http://a` gives `[[http://a](http://a)](http://a) http://a` | each URL token is wrapped where it was found: `[http://a](http://a) [http://a](http://a)` | high, not executed | Linkify.AsWrittenRepeatedUrl | Linkify.LinkifyRepeatedUrl |
