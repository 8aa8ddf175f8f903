/** Naming of a note's downloaded attachments (`keep_download_blob`,
    kim.py:127-156). The HTTP status and the kind `imghdr.what` reports for
    the downloaded bytes are inputs; the download, the sniffing and the
    file copy are not modelled. A blob is named `<title><index>` and gets
    the extension `.png` or `.jpg` when the download succeeded and the bytes
    are an image of that kind, `.dat` otherwise. `ParseEmbed` is the partner
    of the embed string: it reads the media file name back. */
module Attachments {
  import opened Wrappers
  import opened Text

  /** The media folder, relative to the Markdown files. */
  const MEDIA_DEFAULT_PATH: string := "media/"

  /** What the copy destination is set to when the download fails. */
  const MEDIA_NOT_RETRIEVED: string := "Media could not be retrieved"

  const HTTP_OK: int := 200

  /** What `imghdr.what` says about the downloaded bytes. */
  datatype ImageKind = Png | Jpeg | OtherKind

  /** The outcome of one download: the name the note embeds, where the bytes
      were copied to, and the embed text that is returned. */
  datatype Download = Download(mediaName: string, finalPath: string, embed: string)

  /** kim.py:133-153: the extension of the stored file. */
  function Extension(status: int, kind: ImageKind): (ext: string)
    ensures |ext| == 4 && ext[0] == '.'
    ensures ext == ".png" <==> status == HTTP_OK && kind == Png
    ensures ext == ".jpg" <==> status == HTTP_OK && kind == Jpeg
    ensures ext == ".dat" <==> status != HTTP_OK || kind == OtherKind
  {
    if status == HTTP_OK then
      match kind
      case Png => ".png"
      case Jpeg => ".jpg"
      case OtherKind => ".dat"
    else ".dat"
  }

  /** The Obsidian-style embed of a media file. */
  function EmbedFor(mediaName: string): string {
    "![[" + MEDIA_DEFAULT_PATH + mediaName + "]]"
  }

  /** kim.py:127-156. A failed download is not an error: the note still
      embeds the `.dat` name. */
  function DownloadBlob(blobName: string, blobPath: string, status: int, kind: ImageKind): (r: Download)
    ensures r.mediaName == blobName + Extension(status, kind)
    ensures ParseEmbed(r.embed) == Some(r.mediaName)
    ensures status == HTTP_OK <==> r.finalPath == blobPath + "/" + r.mediaName
    ensures status != HTTP_OK ==> r.finalPath == MEDIA_NOT_RETRIEVED
  {
    var ext := Extension(status, kind);
    var mediaName := blobName + ext;
    var finalPath := if status == HTTP_OK then blobPath + "/" + blobName + ext else MEDIA_NOT_RETRIEVED;
    ParseEmbedFor(mediaName);
    NotRetrievedIsNoPath(blobPath, mediaName);
    Download(mediaName, finalPath, EmbedFor(mediaName))
  }

  /** The failure text holds no `/`, so it is never a copy destination. */
  lemma NotRetrievedIsNoPath(dir: string, name: string)
    ensures MEDIA_NOT_RETRIEVED != dir + "/" + name
  {
    var p := dir + "/" + name;
    assert p[|dir|] == '/';
    assert forall k :: 0 <= k < |MEDIA_NOT_RETRIEVED| ==> MEDIA_NOT_RETRIEVED[k] != '/';
  }

  const EMBED_OPEN: string := "![[" + MEDIA_DEFAULT_PATH
  const EMBED_CLOSE: string := "]]"

  /** The media file an embed refers to, if the text is an embed. */
  function ParseEmbed(e: string): Option<string> {
    if |e| >= |EMBED_OPEN| + |EMBED_CLOSE| && e[..|EMBED_OPEN|] == EMBED_OPEN && e[|e| - |EMBED_CLOSE|..] == EMBED_CLOSE
    then Some(e[|EMBED_OPEN|..|e| - |EMBED_CLOSE|])
    else None
  }

  lemma ParseEmbedFor(n: string)
    ensures ParseEmbed(EmbedFor(n)) == Some(n)
  {
    var e := EmbedFor(n);
    assert e == EMBED_OPEN + n + EMBED_CLOSE;
    assert e[..|EMBED_OPEN|] == EMBED_OPEN;
    assert e[|e| - |EMBED_CLOSE|..] == EMBED_CLOSE;
    assert e[|EMBED_OPEN|..|e| - |EMBED_CLOSE|] == n;
  }

  /** An embed is determined by the name it refers to. */
  lemma EmbedForParsed(e: string, n: string)
    requires ParseEmbed(e) == Some(n)
    ensures EmbedFor(n) == e
  {
    assert e == e[..|EMBED_OPEN|] + e[|EMBED_OPEN|..|e| - |EMBED_CLOSE|] + e[|e| - |EMBED_CLOSE|..];
  }

  /** The returned text is always `![[media/<name><ext>]]`, whatever the
      download did. */
  lemma EmbedShape(blobName: string, blobPath: string, status: int, kind: ImageKind)
    ensures DownloadBlob(blobName, blobPath, status, kind).embed == "![[media/" + blobName + Extension(status, kind) + "]]"
  {
    var r := DownloadBlob(blobName, blobPath, status, kind);
    EmbedForParsed(r.embed, r.mediaName);
    assert EMBED_OPEN == "![[media/";
  }

  /** kim.py:178: the name of the attachment at position `idx` of a note. */
  function ImageName(title: string, idx: nat): string {
    title + NatToString(idx)
  }

  /** Within one note, two attachments never get the same media file name,
      whatever their downloads return. */
  lemma MediaNamesDistinct(title: string, i: nat, j: nat, si: int, ki: ImageKind, sj: int, kj: ImageKind)
    requires i != j
    ensures (ImageName(title, i) + Extension(si, ki)) != (ImageName(title, j) + Extension(sj, kj))
  {
    var ni := NatToString(i);
    var nj := NatToString(j);
    var ei := Extension(si, ki);
    var ej := Extension(sj, kj);
    if ImageName(title, i) + ei == ImageName(title, j) + ej {
      var a := title + ni + ei;
      var b := title + nj + ej;
      assert |ni| == |nj|;
      assert ni == a[|title|..|title| + |ni|];
      assert nj == b[|title|..|title| + |nj|];
      NatToStringInjective(i, j);
    }
  }

  /** Across notes the names can clash: attachment 10 of `a` and attachment
      0 of `a1` are both called `a10`. */
  lemma MediaNamesClashAcrossNotes()
    ensures ImageName("a", 10) == ImageName("a1", 0)
  {
    assert NatToString(10) == NatToString(1) + [DigitChar(0)];
  }
}
