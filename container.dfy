/**
 * The file layout written by `main` in gen_poly.py: a JPEG start-of-image
 * marker, then three APP10 segments (marker FF EA and a big-endian length
 * that counts itself) holding the Whitespace and Brainfuck programs, the tar
 * archive and the HTML wrapper, with the rest of the JPEG between the second
 * and the third, and the zip archive at the end.
 *
 * The input files are byte sequences (the zip archive is opaque), the base64
 * text of the HTML page is a parameter, and the output file is an object
 * whose contents grow by appending, as the source writes to its temporary
 * file step by step.
 */
module Container {
  import opened Common
  import Whitespace
  import Brainfuck
  import BfMachine
  import BfRun

  // ---------------------------------------------------------------------
  // struct.pack('>h', v)
  // ---------------------------------------------------------------------

  /** A signed 16-bit big-endian integer; None where struct.pack raises. */
  function PackShort(v: int): (r: Option<seq<Byte>>)
    ensures r.Some? <==> -32768 <= v <= 32767
    ensures r.Some? ==> |r.value| == 2
  {
    if -32768 <= v <= 32767 then
      var u := v % 65536;
      Some([u / 256, u % 256])
    else None
  }

  /** struct.unpack('>h', b): two's complement, most significant byte first. */
  function UnpackShort(b: seq<Byte>): int
    requires |b| == 2
  {
    var u := (b[0] as int) * 256 + b[1] as int;
    if u >= 32768 then u - 65536 else u
  }

  /** Unpacking a packed value gives it back. */
  lemma PackShortRoundTrip(v: int)
    requires -32768 <= v <= 32767
    ensures UnpackShort(PackShort(v).value) == v
  {
    var u := v % 65536;
    var b := PackShort(v).value;
    assert (b[0] as int) * 256 + b[1] as int == u;
    if v < 0 {
      assert u == v + 65536;
    }
  }

  /** For the non-negative lengths written here, the two bytes also read
      back as the unsigned length a JPEG reader expects. */
  lemma PackShortUnsigned(v: int)
    requires 0 <= v <= 32767
    ensures (PackShort(v).value[0] as int) * 256 + PackShort(v).value[1] as int == v
  {
  }

  // ---------------------------------------------------------------------
  // APP10 segments
  // ---------------------------------------------------------------------

  const SOI: seq<Byte> := [0xFF, 0xD8]
  const APP10: seq<Byte> := [0xFF, 0xEA]

  /** Marker, length of the body plus the two length bytes, body; None when
      that length does not fit a signed 16-bit integer. */
  function Segment(body: seq<Byte>): (r: Option<seq<Byte>>)
    ensures r.Some? <==> |body| + 2 <= 32767
    ensures r.Some? ==> |r.value| == |body| + 4
  {
    match PackShort(|body| + 2)
    case Some(len) => Some(APP10 + len + body)
    case None => None
  }

  /** How a JPEG reader sees an APP10 segment at offset `at`: the body its
      length field covers, and the offset just after it. */
  function ReadSegment(file: seq<Byte>, at: nat): (r: Option<(seq<Byte>, nat)>)
    ensures r.Some? ==> r.value.1 <= |file|
  {
    if at + 4 <= |file| && file[at] == 0xFF && file[at + 1] == 0xEA then
      var len := (file[at + 2] as int) * 256 + file[at + 3] as int;
      if 2 <= len && at + 2 + len <= |file| then
        Some((file[at + 4 .. at + 2 + len], at + 2 + len))
      else None
    else None
  }

  // ---------------------------------------------------------------------
  // The custom chunk: both programs, a comment opener and the filler
  // ---------------------------------------------------------------------

  /** "<!--" */
  const COMMENT_OPEN: seq<Byte> := [0x3C, 0x21, 0x2D, 0x2D]
  /** 'F' */
  const FILLER: Byte := 0x46

  /** `512 - (len + 6) % 512 - 4`; negative when `(len + 6) % 512` is 509,
      510 or 511. */
  function PaddingLength(len: nat): int {
    512 - (len + 6) % 512 - 4
  }

  /** `b'F' * k`: empty for every `k <= 0`. */
  function Filler(k: int): (r: seq<Byte>)
    ensures |r| == (if k <= 0 then 0 else k)
    ensures forall i :: 0 <= i < |r| ==> r[i] == FILLER
  {
    if k <= 0 then [] else seq(k, _ => FILLER)
  }

  function CustomChunk(ws: seq<Byte>, bf: seq<Byte>): seq<Byte> {
    var c := ws + bf + COMMENT_OPEN;
    c + Filler(PaddingLength(|c|))
  }

  /** The chunk holds the Whitespace program, the Brainfuck program, the
      comment opener and then only filler, between 0 and 508 bytes of it. */
  lemma ChunkLayout(ws: seq<Byte>, bf: seq<Byte>)
    ensures var c := CustomChunk(ws, bf); var n := |ws| + |bf| + 4;
      && n <= |c| <= n + 508
      && c[..|ws|] == ws
      && c[|ws| .. |ws| + |bf|] == bf
      && c[|ws| + |bf| .. n] == COMMENT_OPEN
      && forall i :: n <= i < |c| ==> c[i] == FILLER
  {
  }

  /** The arithmetic of the padding: with `n` bytes before the filler, the
      chunk ends 10 bytes short of a multiple of 512 exactly when the
      padding is not negative. */
  lemma PaddingArith(n: nat)
    ensures var p := PaddingLength(n); var c := n + (if p <= 0 then 0 else p);
      && ((c + 10) % 512 == 0 <==> (n + 6) % 512 <= 508)
      && ((n + 6) % 512 > 508 ==> c == n && 1 <= (c + 10) % 512 <= 3)
  {
    var q := (n + 6) / 512;
    var m := (n + 6) % 512;
    assert n + 6 == 512 * q + m;
    if m <= 508 {
      assert n + PaddingLength(n) + 10 == 512 * (q + 1);
    } else {
      assert n + 10 == 512 * (q + 1) + (m - 508);
    }
  }

  /** The tar archive's bytes start 10 bytes past the chunk's length (the SOI
      marker and two segment headers); that offset is a multiple of 512
      exactly when the padding is not negative, and otherwise it is 1, 2 or
      3 past a multiple of 512. */
  lemma PaddingAlignment(ws: seq<Byte>, bf: seq<Byte>)
    ensures var n := |ws| + |bf| + 4; var c := CustomChunk(ws, bf);
      && ((|c| + 10) % 512 == 0 <==> (n + 6) % 512 <= 508)
      && ((n + 6) % 512 > 508 ==> |c| == n && 1 <= (|c| + 10) % 512 <= 3)
  {
    var n := |ws| + |bf| + 4;
    var p := PaddingLength(n);
    assert |CustomChunk(ws, bf)| == n + (if p <= 0 then 0 else p);
    PaddingArith(n);
  }

  // ---------------------------------------------------------------------
  // The HTML wrapper
  // ---------------------------------------------------------------------

  predicate Base64Char(ch: char) {
    ('A' <= ch <= 'Z') || ('a' <= ch <= 'z') || ('0' <= ch <= '9')
    || ch == '+' || ch == '/' || ch == '='
  }

  predicate Base64Text(s: string) {
    forall i :: 0 <= i < |s| ==> Base64Char(s[i])
  }

  /** The lines of the f-string of gen_poly.py:235-240: every line but the
      first is indented by 16 spaces, and the closing line holds 12. */
  const INDENT: string := Rep(16, ' ')
  const COMMENT_END: string := "-->"
  const HTML_TAG: string := "<html>"
  const SCRIPT_TAG: string := "<script language='Javascript'>\n"
  const OPEN_LINE: string := COMMENT_END + HTML_TAG + SCRIPT_TAG
  const PAGE_START: string := "page=\""
  const PAGE_END: string := "\";\n"
  const GET_HTML: string := "document.getElementsByTagName("
  const INNER_HTML: string := "\"html\")[0].innerHTML="
  const DECODE_PAGE: string := "window.atob(page)\n"
  const SET_PAGE: string := GET_HTML + INNER_HTML + DECODE_PAGE
  const END_TAGS: string := "</script></html>"
  const COMMENT_START: string := "<!--"
  const CLOSE_LINE: string := END_TAGS + COMMENT_START + "\n"

  const HTML_OPEN: string := "\n" + INDENT + OPEN_LINE + INDENT + PAGE_START
  const HTML_CLOSE: string := PAGE_END + INDENT + SET_PAGE + INDENT + CLOSE_LINE + Rep(12, ' ')

  function HtmlText(b64: string): string {
    HTML_OPEN + b64 + HTML_CLOSE
  }

  /** The wrapper closes the HTML comment opened at the end of the custom
      chunk with nothing but whitespace before it, then opens the page, and
      after the page opens a comment again that runs to the end of the file. */
  lemma HtmlMarkers(b64: string)
    ensures var h := HtmlText(b64);
      && |h| == |b64| + 216
      && (forall i :: 0 <= i < 17 ==> h[i] == ' ' || h[i] == '\n')
      && h[17..20] == "-->"
      && h[20..26] == "<html>"
      && h[79 .. 79 + |b64|] == b64
      && h[|h| - 17 ..] == "<!--\n" + Rep(12, ' ')
  {
    var h := HtmlText(b64);
    Pieces3(h, HTML_OPEN, b64, HTML_CLOSE);
    OpenMarkers();
    CloseMarkers();
    assert h[..17] == HTML_OPEN[..17];
    assert h[17..20] == HTML_OPEN[17..20];
    assert h[20..26] == HTML_OPEN[20..26];
    assert h[|h| - 17 ..] == HTML_CLOSE[120..];
  }

  lemma OpenMarkers()
    ensures |HTML_OPEN| == 79
    ensures forall i :: 0 <= i < 17 ==> HTML_OPEN[i] == ' ' || HTML_OPEN[i] == '\n'
    ensures HTML_OPEN[17..20] == "-->" && HTML_OPEN[20..26] == "<html>"
  {
    var lead := "\n" + INDENT;
    Pieces4(HTML_OPEN, lead, OPEN_LINE, INDENT, PAGE_START);
    Pieces3(OPEN_LINE, COMMENT_END, HTML_TAG, SCRIPT_TAG);
    assert HTML_OPEN[17..20] == OPEN_LINE[..3];
    assert HTML_OPEN[20..26] == OPEN_LINE[3..9];
  }

  lemma CloseMarkers()
    ensures |HTML_CLOSE| == 137
    ensures HTML_CLOSE[120..] == "<!--\n" + Rep(12, ' ')
  {
    var body := PAGE_END + INDENT + SET_PAGE + INDENT;
    Pieces3(HTML_CLOSE, body, CLOSE_LINE, Rep(12, ' '));
    Pieces3(CLOSE_LINE, END_TAGS, COMMENT_START, "\n");
    assert |body| == 104;
    var tail := HTML_CLOSE[120..];
    assert tail[..5] == CLOSE_LINE[16..];
    assert tail[5..] == Rep(12, ' ');
    assert tail == tail[..5] + tail[5..];
  }

  /** Locating the pieces of a concatenation. */
  lemma Pieces3(h: string, a: string, b: string, c: string)
    requires h == a + b + c
    ensures h[..|a|] == a && h[|a| .. |a| + |b|] == b && h[|a| + |b| ..] == c
  {
  }

  lemma Pieces4(h: string, a: string, b: string, c: string, e: string)
    requires h == a + b + c + e
    ensures h[..|a|] == a && h[|a| .. |a| + |b|] == b
    ensures h[|a| + |b| .. |a| + |b| + |c|] == c && h[|a| + |b| + |c| ..] == e
  {
  }

  // ---------------------------------------------------------------------
  // Encoding text as bytes
  // ---------------------------------------------------------------------

  predicate IsAscii(s: string) {
    forall i :: 0 <= i < |s| ==> s[i] as int < 128
  }

  lemma AsciiAppend(a: string, b: string)
    requires IsAscii(a) && IsAscii(b)
    ensures IsAscii(a + b)
  {
    forall i | 0 <= i < |a + b|
      ensures (a + b)[i] as int < 128
    {
      if i >= |a| {
        assert (a + b)[i] == b[i - |a|];
      }
    }
  }

  lemma AsciiAppend3(a: string, b: string, c: string)
    requires IsAscii(a) && IsAscii(b) && IsAscii(c)
    ensures IsAscii(a + b + c)
  {
    AsciiAppend(a, b);
    AsciiAppend(a + b, c);
  }

  /** `str.encode()` on ASCII text: one byte per character. */
  function Ascii(s: string): (r: seq<Byte>)
    requires IsAscii(s)
    ensures |r| == |s| && forall i :: 0 <= i < |s| ==> r[i] == s[i] as int
  {
    seq(|s|, i requires 0 <= i < |s| => s[i] as int)
  }

  lemma HtmlAscii(b64: string)
    requires Base64Text(b64)
    ensures IsAscii(HtmlText(b64))
  {
    OpenAscii();
    CloseAscii();
    assert IsAscii(b64);
    AsciiAppend3(HTML_OPEN, b64, HTML_CLOSE);
  }

  lemma OpenAscii()
    ensures IsAscii(HTML_OPEN)
  {
    assert IsAscii(COMMENT_END) && IsAscii(HTML_TAG) && IsAscii(SCRIPT_TAG);
    assert IsAscii(PAGE_START) && IsAscii(INDENT) && IsAscii("\n");
    AsciiAppend3(COMMENT_END, HTML_TAG, SCRIPT_TAG);
    AsciiAppend("\n", INDENT);
    AsciiAppend3("\n" + INDENT, OPEN_LINE, INDENT);
    AsciiAppend("\n" + INDENT + OPEN_LINE + INDENT, PAGE_START);
  }

  lemma CloseAscii()
    ensures IsAscii(HTML_CLOSE)
  {
    SetPageAscii();
    CloseLineAscii();
    assert IsAscii(PAGE_END) && IsAscii(INDENT) && IsAscii(Rep(12, ' '));
    AsciiAppend3(PAGE_END, INDENT, SET_PAGE);
    AsciiAppend3(PAGE_END + INDENT + SET_PAGE, INDENT, CLOSE_LINE);
    AsciiAppend(PAGE_END + INDENT + SET_PAGE + INDENT + CLOSE_LINE, Rep(12, ' '));
  }

  lemma SetPageAscii()
    ensures IsAscii(SET_PAGE)
  {
    GetHtmlAscii();
    InnerHtmlAscii();
    assert IsAscii(DECODE_PAGE);
    AsciiAppend3(GET_HTML, INNER_HTML, DECODE_PAGE);
  }

  lemma GetHtmlAscii()
    ensures IsAscii(GET_HTML)
  {
  }

  lemma InnerHtmlAscii()
    ensures IsAscii(INNER_HTML)
  {
  }

  lemma CloseLineAscii()
    ensures IsAscii(CLOSE_LINE)
  {
    assert IsAscii(END_TAGS) && IsAscii(COMMENT_START) && IsAscii("\n");
    AsciiAppend3(END_TAGS, COMMENT_START, "\n");
  }

  /** The HTML wrapper as written to the file. */
  function HtmlBytes(b64: string): (r: seq<Byte>)
    requires Base64Text(b64)
    ensures |r| == |b64| + 216
  {
    HtmlAscii(b64);
    HtmlMarkers(b64);
    Ascii(HtmlText(b64))
  }

  lemma WsProgramAscii(message: seq<nat>)
    ensures IsAscii(Whitespace.WsProgram(message))
  {
    Whitespace.WsProgramAlphabet(message);
  }

  lemma BfProgramAscii(message: seq<nat>)
    ensures IsAscii(Brainfuck.BfProgram(message))
  {
    BfRun.BfParse(message);
    var p := Brainfuck.BfProgram(message);
    forall i | 0 <= i < |p|
      ensures p[i] as int < 128
    {
      assert p[i] in "+-<>[].,";
    }
  }

  /** The two generated programs, encoded. */
  function WsBytes(message: seq<nat>): seq<Byte> {
    WsProgramAscii(message);
    Ascii(Whitespace.WsProgram(message))
  }

  function BfBytes(message: seq<nat>): seq<Byte> {
    BfProgramAscii(message);
    Ascii(Brainfuck.BfProgram(message))
  }

  // ---------------------------------------------------------------------
  // The whole file
  // ---------------------------------------------------------------------

  /** Why `main` stops: a length that struct.pack refuses, or a JPEG that
      does not start with the SOI marker (NotImplementedError). */
  datatype Failure = ChunkTooLong | TarTooLong | NotJpeg | HtmlTooLong

  /** The bytes in the output file when `main` finishes or raises. */
  datatype Written = Complete(file: seq<Byte>) | Aborted(reason: Failure, partial: seq<Byte>)

  predicate StartsWithSoi(jpeg: seq<Byte>) {
    |jpeg| >= 2 && jpeg[..2] == SOI
  }

  /** What gen_poly.py:217-250 leaves in the output file, from the two
      encoded programs, the tar and JPEG files, the base64 page and the zip
      bytes: the checks come in the order of the source, and a length that
      cannot be packed leaves the marker written just before it. */
  function Polyglot(ws: seq<Byte>, bf: seq<Byte>, tar: seq<Byte>, jpeg: seq<Byte>,
                    b64: string, zip: seq<Byte>): Written
    requires Base64Text(b64)
  {
    var chunk := CustomChunk(ws, bf);
    if Segment(chunk).None? then Aborted(ChunkTooLong, SOI + APP10)
    else if Segment(tar).None? then Aborted(TarTooLong, SOI + Segment(chunk).value + APP10)
    else AfterTar(SOI + Segment(chunk).value + Segment(tar).value, jpeg, HtmlBytes(b64), zip)
  }

  /** The part of the file that follows the tar segment, `done` being what
      was written before it: the JPEG after its SOI, the HTML segment and
      the zip bytes. */
  function AfterTar(done: seq<Byte>, jpeg: seq<Byte>, html: seq<Byte>, zip: seq<Byte>): Written {
    if !StartsWithSoi(jpeg) then Aborted(NotJpeg, done)
    else if Segment(html).None? then Aborted(HtmlTooLong, done + jpeg[2..] + APP10)
    else Complete(done + jpeg[2..] + Segment(html).value + zip)
  }

  /** The file is written completely exactly when all three segments fit in
      a signed 16-bit length and the JPEG starts with SOI; otherwise the
      first check to fail, in the order of the source, is the reason, and
      the file then holds no zip bytes. */
  lemma PolyglotOutcome(ws: seq<Byte>, bf: seq<Byte>, tar: seq<Byte>, jpeg: seq<Byte>,
                        b64: string, zip: seq<Byte>)
    requires Base64Text(b64)
    ensures var r := Polyglot(ws, bf, tar, jpeg, b64, zip);
      var chunkFits := |CustomChunk(ws, bf)| <= 32765;
      var tarFits := |tar| <= 32765;
      var htmlFits := |b64| <= 32549;
      && (r.Complete? <==> chunkFits && tarFits && StartsWithSoi(jpeg) && htmlFits)
      && ((r.Aborted? && r.reason == ChunkTooLong) <==> !chunkFits)
      && ((r.Aborted? && r.reason == TarTooLong) <==> chunkFits && !tarFits)
      && ((r.Aborted? && r.reason == NotJpeg) <==> chunkFits && tarFits && !StartsWithSoi(jpeg))
      && ((r.Aborted? && r.reason == HtmlTooLong)
            <==> chunkFits && tarFits && StartsWithSoi(jpeg) && !htmlFits)
  {
  }

  /** How a JPEG reader walks a file laid out as SOI, a segment holding
      `chunk`, a segment holding `tar`, the raw bytes `rest`, a segment
      holding `html`, and `zip` running to the end of the file. */
  predicate ReadsAs(f: seq<Byte>, chunk: seq<Byte>, tar: seq<Byte>, rest: seq<Byte>,
                    html: seq<Byte>, zip: seq<Byte>)
  {
    var t := |chunk| + 10;
    var j := t + |tar|;
    var h := j + |rest|;
    && h <= |f|
    && f[..2] == SOI
    && ReadSegment(f, 2) == Some((chunk, t - 4))
    && ReadSegment(f, t - 4) == Some((tar, j))
    && f[j .. h] == rest
    && ReadSegment(f, h) == Some((html, |f| - |zip|))
    && |zip| <= |f| && f[|f| - |zip| ..] == zip
  }

  /** A complete file reads, segment by segment, as the custom chunk, the
      tar archive, the JPEG's own bytes after its SOI, the HTML wrapper and
      the zip bytes. */
  lemma PolyglotReadBack(ws: seq<Byte>, bf: seq<Byte>, tar: seq<Byte>, jpeg: seq<Byte>,
                         b64: string, zip: seq<Byte>)
    requires Base64Text(b64)
    requires Polyglot(ws, bf, tar, jpeg, b64, zip).Complete?
    ensures |jpeg| >= 2
    ensures ReadsAs(Polyglot(ws, bf, tar, jpeg, b64, zip).file,
                    CustomChunk(ws, bf), tar, jpeg[2..], HtmlBytes(b64), zip)
  {
    PolyglotFile(ws, bf, tar, jpeg, b64, zip);
    ReadPieces(Polyglot(ws, bf, tar, jpeg, b64, zip).file,
               CustomChunk(ws, bf), tar, jpeg[2..], HtmlBytes(b64), zip);
  }

  lemma PolyglotFile(ws: seq<Byte>, bf: seq<Byte>, tar: seq<Byte>, jpeg: seq<Byte>,
                     b64: string, zip: seq<Byte>)
    requires Base64Text(b64)
    requires Polyglot(ws, bf, tar, jpeg, b64, zip).Complete?
    ensures var chunk := CustomChunk(ws, bf); var html := HtmlBytes(b64);
      && Segment(chunk).Some? && Segment(tar).Some? && Segment(html).Some? && |jpeg| >= 2
      && Polyglot(ws, bf, tar, jpeg, b64, zip).file
         == SOI + Segment(chunk).value + Segment(tar).value + jpeg[2..]
            + Segment(html).value + zip
  {
  }

  /** The reading of a file laid out as SOI, two segments, raw bytes, a
      segment and a trailer. */
  lemma ReadPieces(f: seq<Byte>, chunk: seq<Byte>, tar: seq<Byte>, rest: seq<Byte>,
                   html: seq<Byte>, zip: seq<Byte>)
    requires Segment(chunk).Some? && Segment(tar).Some? && Segment(html).Some?
    requires f == SOI + Segment(chunk).value + Segment(tar).value + rest
                  + Segment(html).value + zip
    ensures ReadsAs(f, chunk, tar, rest, html, zip)
  {
    var s1 := Segment(chunk).value;
    var s2 := Segment(tar).value;
    var s3 := Segment(html).value;
    var p1 := SOI + s1;
    var p2 := p1 + s2;
    var p3 := p2 + rest;
    var p4 := p3 + s3;
    Split(f, p4, zip);
    Split(f, p3, s3);
    Split(f, p2, rest);
    Split(f, p1, s2);
    SegmentAt(f, SOI, chunk);
    SegmentAt(f, p1, tar);
    SegmentAt(f, p3, html);
  }

  /** When a prefix of `f` is `x + y`, `x` is a prefix of `f` and `y`
      follows it. */
  lemma Split(f: seq<Byte>, x: seq<Byte>, y: seq<Byte>)
    requires |x| + |y| <= |f| && f[..|x| + |y|] == x + y
    ensures f[..|x|] == x && f[|x|..|x| + |y|] == y
  {
    assert f[..|x|] == (x + y)[..|x|];
    assert f[|x|..|x| + |y|] == (x + y)[|x|..];
  }

  /** A segment that directly follows a prefix of the file reads back as its
      body. */
  lemma SegmentAt(f: seq<Byte>, p: seq<Byte>, body: seq<Byte>)
    requires Segment(body).Some?
    requires |p| + |body| + 4 <= |f| && f[..|p| + |body| + 4] == p + Segment(body).value
    ensures ReadSegment(f, |p|) == Some((body, |p| + |body| + 4))
  {
    var seg := Segment(body).value;
    var at := |p|;
    PackShortUnsigned(|body| + 2);
    assert f[at .. at + |seg|] == (p + seg)[at..] == seg;
    assert f[at + 4 .. at + 4 + |body|] == seg[4..] == body;
  }

  /** The chunk of a file written by `main` starts with the generated
      Whitespace program and continues with the generated Brainfuck
      program, one byte per character. */
  lemma MainChunkPrograms(wsMessage: seq<nat>, bfMessage: seq<nat>)
    ensures var c := CustomChunk(WsBytes(wsMessage), BfBytes(bfMessage));
      var ws := Whitespace.WsProgram(wsMessage);
      var bf := Brainfuck.BfProgram(bfMessage);
      && |c| >= |ws| + |bf|
      && (forall i :: 0 <= i < |ws| ==> c[i] == ws[i] as int)
      && (forall i :: 0 <= i < |bf| ==> c[|ws| + i] == bf[i] as int)
  {
    ChunkLayout(WsBytes(wsMessage), BfBytes(bfMessage));
  }

  // ---------------------------------------------------------------------
  // main, writing step by step
  // ---------------------------------------------------------------------

  /** The temporary output file, opened for writing in binary mode. */
  class OutputFile {
    var contents: seq<Byte>

    constructor ()
      ensures contents == []
    {
      contents := [];
    }

    method Write(b: seq<Byte>)
      modifies this
      ensures contents == old(contents) + b
    {
      contents := contents + b;
    }
  }

  /** `main` after argument parsing: generates both programs, encodes them
      and writes the file. */
  method WriteMain(out: OutputFile, wsMessage: seq<nat>, bfMessage: seq<nat>,
                   tar: seq<Byte>, jpeg: seq<Byte>, b64: string, zip: seq<Byte>)
      returns (failure: Option<Failure>)
    requires Base64Text(b64)
    modifies out
    ensures match Polyglot(WsBytes(wsMessage), BfBytes(bfMessage), tar, jpeg, b64, zip)
      case Complete(f) => failure == None && out.contents == old(out.contents) + f
      case Aborted(reason, p) => failure == Some(reason) && out.contents == old(out.contents) + p
  {
    var wsText := Whitespace.GenWhitespaceProgram(wsMessage);
    var bfText := Brainfuck.GenBfProgram(bfMessage);
    WsProgramAscii(wsMessage);
    BfProgramAscii(bfMessage);
    failure := WritePolyglot(out, Ascii(wsText), Ascii(bfText), tar, jpeg, b64, zip);
  }

  /** The writes of gen_poly.py:217-250, one after the other; at the first
      failure they stop, and what was written so far stays in the file. */
  method WritePolyglot(out: OutputFile, ws: seq<Byte>, bf: seq<Byte>,
                       tar: seq<Byte>, jpeg: seq<Byte>, b64: string, zip: seq<Byte>)
      returns (failure: Option<Failure>)
    requires Base64Text(b64)
    modifies out
    ensures match Polyglot(ws, bf, tar, jpeg, b64, zip)
      case Complete(f) => failure == None && out.contents == old(out.contents) + f
      case Aborted(reason, p) => failure == Some(reason) && out.contents == old(out.contents) + p
  {
    ghost var start := out.contents;
    out.Write(SOI);
    var chunk := ws + bf + COMMENT_OPEN;
    var paddingLength := PaddingLength(|chunk|);
    chunk := chunk + Filler(paddingLength);
    assert chunk == CustomChunk(ws, bf);
    out.Write(APP10);
    var len := PackShort(|chunk| + 2);
    if len.None? {
      return Some(ChunkTooLong);
    }
    WriteSegment(out, start, SOI, chunk);
    ghost var done := SOI + Segment(chunk).value;
    out.Write(APP10);
    len := PackShort(|tar| + 2);
    if len.None? {
      return Some(TarTooLong);
    }
    WriteSegment(out, start, done, tar);
    failure := WriteAfterTar(out, start, done + Segment(tar).value, jpeg, HtmlBytes(b64), zip);
  }

  /** The writes that follow the tar segment. */
  method WriteAfterTar(out: OutputFile, ghost start: seq<Byte>, ghost done: seq<Byte>,
                       jpeg: seq<Byte>, html: seq<Byte>, zip: seq<Byte>)
      returns (failure: Option<Failure>)
    requires out.contents == start + done
    modifies out
    ensures match AfterTar(done, jpeg, html, zip)
      case Complete(f) => failure == None && out.contents == start + f
      case Aborted(reason, p) => failure == Some(reason) && out.contents == start + p
  {
    if !StartsWithSoi(jpeg) {
      return Some(NotJpeg);
    }
    out.Write(jpeg[2..]);
    out.Write(APP10);
    var len := PackShort(|html| + 2);
    if len.None? {
      return Some(HtmlTooLong);
    }
    WriteSegment(out, start, done + jpeg[2..], html);
    out.Write(zip);
    assert out.contents == start + (done + jpeg[2..] + Segment(html).value + zip);
    failure := None;
  }

  /** Writes the length and the body of a segment whose marker has just
      been written. */
  method WriteSegment(out: OutputFile, ghost start: seq<Byte>, ghost done: seq<Byte>,
                      body: seq<Byte>)
    requires out.contents == start + done + APP10
    requires Segment(body).Some?
    modifies out
    ensures out.contents == start + (done + Segment(body).value)
  {
    var len := PackShort(|body| + 2);
    out.Write(len.value);
    out.Write(body);
    assert out.contents == start + done + (APP10 + len.value + body);
  }
}
