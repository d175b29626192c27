/**
 * The other side of lib/parse-formdata.js: how a client lays out a
 * `multipart/form-data` body (RFC 7578), and the round trip `parse`
 * completes on such a body.
 */
module Multipart {
  import opened Wrappers
  import opened Buffers
  import Seqs
  import Records
  import opened FormData

  // ---------------------------------------------------------------------
  // Framing: parts between delimiters
  // ---------------------------------------------------------------------

  /**
   * What follows the first delimiter of a body: each part followed by the
   * next delimiter, the last one by the close delimiter.
   */
  function Frame(parts: seq<Bytes>, delim: Bytes, close: Bytes): Bytes
    requires |parts| > 0
    decreases |parts|
  {
    if |parts| == 1 then parts[0] + close
    else parts[0] + delim + Frame(parts[1..], delim, close)
  }

  /** `delim` first occurs in `part + delim` at its end: nothing in the part, nor across its end, looks like a delimiter. */
  predicate Clean(part: Bytes, delim: Bytes) {
    Seqs.IndexOf(part + delim, delim, 0).Some? && Seqs.IndexOf(part + delim, delim, 0).value == |part|
  }

  /** The last part: no delimiter in it or across into the close delimiter, which first occurs at its end. */
  predicate CleanLast(part: Bytes, delim: Bytes, close: Bytes) {
    && Seqs.IndexOf(part + close, delim, 0).None?
    && Seqs.IndexOf(part + close, close, 0).Some?
    && Seqs.IndexOf(part + close, close, 0).value == |part|
  }

  /** Parts a sender can frame so that a receiver searching for delimiters finds exactly them. */
  predicate Framable(parts: seq<Bytes>, delim: Bytes, close: Bytes) {
    && |parts| > 0
    && (forall k :: 0 <= k < |parts| - 1 ==> Clean(parts[k], delim))
    && CleanLast(parts[|parts| - 1], delim, close)
  }

  /** The last part: everything up to the close delimiter. */
  lemma ChunksOfLast(prefix: Bytes, part: Bytes, delim: Bytes, close: Bytes)
    requires |delim| > 0 && CleanLast(part, delim, close)
    ensures ChunksFrom(prefix + (part + close), delim, close, |delim|, |prefix|) == [part]
  {
    var buffer := prefix + (part + close);
    var j := |prefix|;
    ShiftedNone(prefix, part + close, delim);
    ShiftedSome(prefix, part + close, close);
    Middle(prefix, part, close);
    assert LastChunk(buffer, close, j) == part;
  }

  /** The middle piece of a concatenation of three. */
  lemma Middle(a: Bytes, b: Bytes, c: Bytes)
    ensures (a + (b + c))[|a|..|a| + |b|] == b
    ensures ((a + b) + c)[|a|..|a| + |b|] == b
  {
    assert (a + (b + c))[|a|..|a| + |b|] == b;
  }

  /** A needle absent from `s` is absent from `prefix + s` past the prefix. */
  lemma ShiftedNone(prefix: Bytes, s: Bytes, needle: Bytes)
    requires Seqs.IndexOf(s, needle, 0).None?
    ensures Seqs.IndexOf(prefix + s, needle, |prefix|).None?
  {
    Seqs.IndexOfShift(prefix, s, needle, 0);
  }

  /** The first occurrence in `s` is the first one in `prefix + s` past the prefix. */
  lemma ShiftedSome(prefix: Bytes, s: Bytes, needle: Bytes)
    requires Seqs.IndexOf(s, needle, 0).Some?
    ensures Seqs.IndexOf(prefix + s, needle, |prefix|).Some?
    ensures Seqs.IndexOf(prefix + s, needle, |prefix|).value == |prefix| + Seqs.IndexOf(s, needle, 0).value
  {
    Seqs.IndexOfShift(prefix, s, needle, 0);
  }

  /** A part followed by a delimiter: the part, then whatever follows the delimiter. */
  lemma ChunksOfNext(prefix: Bytes, part: Bytes, rest: Bytes, delim: Bytes, close: Bytes)
    requires |delim| > 0 && Clean(part, delim)
    ensures var buffer := prefix + part + delim + rest;
      ChunksFrom(buffer, delim, close, |delim|, |prefix|)
        == [part] + ChunksFrom(buffer, delim, close, |delim|, |prefix + part + delim|)
  {
    var buffer := prefix + part + delim + rest;
    var j := |prefix|;
    DelimiterAfterPart(prefix, part, delim, rest);
    var i := |prefix| + |part|;
    SecondOfFour(prefix, part, delim, rest);
    ChunksFromAt(buffer, delim, close, j, i, |prefix + part + delim|, part);
  }

  /** A part found at `j`, up to the delimiter at `i`, then the parts after that delimiter. */
  lemma ChunksFromAt(buffer: Bytes, delim: Bytes, close: Bytes, j: nat, i: nat, next: nat, part: Bytes)
    requires |delim| > 0 && j <= i <= |buffer| && next == i + |delim|
    requires Seqs.IndexOf(buffer, delim, j).Some? && Seqs.IndexOf(buffer, delim, j).value == i
    requires buffer[j..i] == part
    ensures ChunksFrom(buffer, delim, close, |delim|, j) == [part] + ChunksFrom(buffer, delim, close, |delim|, next)
  {
    ChunksFromStep(buffer, delim, close, |delim|, j, i);
    assert ChunksFrom(buffer, delim, close, |delim|, j) == [buffer[j..i]] + ChunksFrom(buffer, delim, close, |delim|, next);
  }

  /** Behind a clean part, the next delimiter is the one right after it. */
  lemma DelimiterAfterPart(prefix: Bytes, part: Bytes, delim: Bytes, rest: Bytes)
    requires Clean(part, delim)
    ensures var buffer := prefix + part + delim + rest;
      && Seqs.IndexOf(buffer, delim, |prefix|).Some?
      && Seqs.IndexOf(buffer, delim, |prefix|).value == |prefix| + |part|
  {
    Seqs.IndexOfExtend(part + delim, rest, delim);
    ShiftedSome(prefix, (part + delim) + rest, delim);
    Regroup(prefix, part, delim, rest);
  }

  /** The second piece of a concatenation of four, grouped to the left. */
  lemma SecondOfFour(a: Bytes, b: Bytes, c: Bytes, d: Bytes)
    ensures (((a + b) + c) + d)[|a|..|a| + |b|] == b
  {
    assert (((a + b) + c) + d)[|a|..|a| + |b|] == b;
  }

  /** Chaining two facts about the parts of one body. */
  lemma JoinChunks(buffer: Bytes, delim: Bytes, close: Bytes, i: nat, j: nat, first: Bytes, tail: seq<Bytes>)
    requires |delim| > 0 && i <= |buffer| && j <= |buffer|
    requires ChunksFrom(buffer, delim, close, |delim|, i) == [first] + ChunksFrom(buffer, delim, close, |delim|, j)
    requires ChunksFrom(buffer, delim, close, |delim|, j) == tail
    ensures ChunksFrom(buffer, delim, close, |delim|, i) == [first] + tail
  {
  }

  /** Regrouping a concatenation of four. */
  lemma Regroup(a: Bytes, b: Bytes, c: Bytes, d: Bytes)
    ensures a + ((b + c) + d) == ((a + b) + c) + d
  {
  }

  /** Splitting a frame from its first part on gives back the parts. */
  lemma {:induction false} ChunksOfFrame(prefix: Bytes, parts: seq<Bytes>, delim: Bytes, close: Bytes)
    requires |delim| > 0 && Framable(parts, delim, close)
    ensures ChunksFrom(prefix + Frame(parts, delim, close), delim, close, |delim|, |prefix|) == parts
    decreases |parts|
  {
    if |parts| == 1 {
      ChunksOfLast(prefix, parts[0], delim, close);
    } else {
      var tail := parts[1..];
      var rest := Frame(tail, delim, close);
      var prefix' := prefix + parts[0] + delim;
      var buffer := prefix' + rest;
      ChunksOfNext(prefix, parts[0], rest, delim, close);
      FramableTail(parts, delim, close);
      ChunksOfFrame(prefix', tail, delim, close);
      JoinChunks(buffer, delim, close, |prefix|, |prefix'|, parts[0], tail);
      FrameSplit(prefix, parts, delim, close);
      assert [parts[0]] + tail == parts;
    }
  }

  /** A frame of several parts behind a prefix: the first part, a delimiter, the frame of the rest. */
  lemma FrameSplit(prefix: Bytes, parts: seq<Bytes>, delim: Bytes, close: Bytes)
    requires |parts| > 1
    ensures prefix + Frame(parts, delim, close) == prefix + parts[0] + delim + Frame(parts[1..], delim, close)
  {
    Regroup(prefix, parts[0], delim, Frame(parts[1..], delim, close));
  }

  /** The parts after the first one are framable too. */
  lemma FramableTail(parts: seq<Bytes>, delim: Bytes, close: Bytes)
    requires Framable(parts, delim, close) && |parts| > 1
    ensures Framable(parts[1..], delim, close)
  {
    assert forall k :: 0 <= k < |parts| - 1 ==> parts[1..][k] == parts[k + 1];
  }

  /**
   * A body made of a preamble, a delimiter and a frame is split into exactly
   * the framed parts; the preamble is skipped.
   */
  lemma SplitFrame(preamble: Bytes, parts: seq<Bytes>, delim: Bytes, close: Bytes)
    requires |delim| > 0 && Framable(parts, delim, close) && Clean(preamble, delim)
    ensures SplitParts(preamble + delim + Frame(parts, delim, close), delim, close, |delim|) == Ok(parts)
  {
    var buffer := preamble + delim + Frame(parts, delim, close);
    Seqs.IndexOfExtend(preamble + delim, Frame(parts, delim, close), delim);
    SplitPartsAt(buffer, delim, close, |preamble|, |preamble + delim|);
    ChunksOfFrame(preamble + delim, parts, delim, close);
  }

  /** With the first delimiter at `i`, the parts are those after it. */
  lemma SplitPartsAt(buffer: Bytes, delim: Bytes, close: Bytes, i: nat, next: nat)
    requires |delim| > 0 && next == i + |delim| <= |buffer|
    requires Seqs.IndexOf(buffer, delim, 0).Some? && Seqs.IndexOf(buffer, delim, 0).value == i
    ensures SplitParts(buffer, delim, close, |delim|).Ok?
    ensures SplitParts(buffer, delim, close, |delim|).value == ChunksFrom(buffer, delim, close, |delim|, next)
  {
    var r := SplitParts(buffer, delim, close, |delim|);
    assert r == Ok(ChunksFrom(buffer, delim, close, |delim|, next));
  }

  // ---------------------------------------------------------------------
  // One part: headers, blank line, content
  // ---------------------------------------------------------------------

  /** The `Content-Disposition` header up to the opening quote of the field name. */
  const DispositionPrefix := DispositionLead + "; name=\""

  /** The `Content-Disposition` header up to its first parameter. */
  const DispositionLead := "Content-Disposition: form-data"

  /** What introduces the file name inside the `Content-Disposition` header. */
  const FilenamePrefix := "; filename=\""

  /** One field as a client sends it: its name, a file name for uploads, further header lines, the content. */
  datatype FieldSpec = FieldSpec(name: string, filename: Option<string>, extraHeaders: seq<string>, content: Bytes)

  /** The `Content-Disposition` header of a field. */
  function Disposition(f: FieldSpec): string {
    DispositionPrefix + f.name + "\""
    + (if f.filename.Some? then FilenamePrefix + f.filename.value + "\"" else "")
  }

  /** Further header lines, each after a line break. */
  function HeaderLines(lines: seq<string>): string
    decreases |lines|
  {
    if |lines| == 0 then "" else "\r\n" + lines[0] + HeaderLines(lines[1..])
  }

  /** The header block of a part. */
  function Headers(f: FieldSpec): string {
    Disposition(f) + HeaderLines(f.extraHeaders)
  }

  /** A part on the wire: headers, a blank line, the content and a line break. */
  function EncodePart(f: FieldSpec): Bytes {
    Utf8(Headers(f)) + HeaderEnd + f.content + [CR, LF]
  }

  /** A quoted name the attribute patterns read back whole: ASCII, with no quote, semicolon or line break. */
  predicate Token(s: string) {
    forall i :: 0 <= i < |s| ==> s[i] as int < 0x80 && s[i] != '"' && s[i] != ';' && s[i] != '\r' && s[i] != '\n'
  }

  /** A further header line: non-empty ASCII with no semicolon or line break. */
  predicate HeaderLine(l: string) {
    && l != ""
    && forall i :: 0 <= i < |l| ==> l[i] as int < 0x80 && l[i] != ';' && l[i] != '\r' && l[i] != '\n'
  }

  /** A field whose part `parse` reads back. */
  predicate WellFormedField(f: FieldSpec) {
    && Token(f.name)
    && (f.filename.Some? ==> Token(f.filename.value))
    && forall i :: 0 <= i < |f.extraHeaders| ==> HeaderLine(f.extraHeaders[i])
  }

  /** The value `parse` gives the field: a file for a non-empty file name, the decoded content otherwise. */
  function Expected(f: FieldSpec): Value {
    if f.filename.Some? && f.filename.value != "" then File(f.filename.value, f.content)
    else Text(ToText(f.content))
  }

  /** Every carriage return is followed by a line feed and then by something other than a carriage return. */
  predicate NoBlankLine(h: string) {
    forall k :: 0 <= k < |h| && h[k] == '\r' ==> k + 2 < |h| && h[k + 2] != '\r'
  }

  /** Further header lines are ASCII, hold no semicolon and never two line breaks in a row. */
  lemma {:induction false} HeaderLinesShape(lines: seq<string>)
    requires forall i :: 0 <= i < |lines| ==> HeaderLine(lines[i])
    ensures var t := HeaderLines(lines);
      IsAscii(t) && NoBlankLine(t) && forall k :: 0 <= k < |t| ==> t[k] != ';'
    decreases |lines|
  {
    if |lines| > 0 {
      var tail := lines[1..];
      assert forall i :: 0 <= i < |tail| ==> tail[i] == lines[i + 1];
      HeaderLinesShape(tail);
      var l := lines[0];
      var rest := HeaderLines(tail);
      var t := HeaderLines(lines);
      assert t == "\r\n" + l + rest;
      assert HeaderLine(l);
      forall k | 0 <= k < |t| && t[k] == '\r' ensures k + 2 < |t| && t[k + 2] != '\r' {
        if k >= 2 + |l| {
          assert t[k] == rest[k - 2 - |l|];
        }
      }
    }
  }

  /** ASCII text with no carriage return, whose semicolons can only sit at `a` or `b`. */
  predicate PlainExcept(s: string, a: int, b: int) {
    forall k :: 0 <= k < |s| ==> s[k] as int < 0x80 && s[k] != '\r' && (s[k] == ';' ==> k == a || k == b)
  }

  /** ASCII text with no carriage return and no semicolon. */
  predicate Plain(s: string) {
    forall k :: 0 <= k < |s| ==> s[k] as int < 0x80 && s[k] != '\r' && s[k] != ';'
  }

  /** Two plain pieces around one semicolon: the semicolon is the only one. */
  lemma PlainAroundSemicolon(a: string, b: string)
    requires Plain(a) && Plain(b)
    ensures PlainExcept(a + ";" + b, |a|, |a|)
  {
    var s := a + ";" + b;
    assert forall k :: 0 <= k < |a| ==> s[k] == a[k];
    assert forall k :: |a| < k < |s| ==> s[k] == b[k - |a| - 1];
  }

  /** The header's lead is plain text of 30 characters. */
  lemma DispositionLeadPlain()
    ensures |DispositionLead| == 30 && Plain(DispositionLead)
  {
    // Checked ten characters at a time, which keeps the solver's work small.
    var d := DispositionLead;
    assert forall k :: 0 <= k < 10 ==> d[k] as int < 0x80 && d[k] != '\r' && d[k] != ';';
    assert forall k :: 10 <= k < 20 ==> d[k] as int < 0x80 && d[k] != '\r' && d[k] != ';';
    assert forall k :: 20 <= k < 30 ==> d[k] as int < 0x80 && d[k] != '\r' && d[k] != ';';
  }

  /** The header up to the field name: its only semicolon precedes `name`. */
  lemma DispositionPrefixShape()
    ensures |DispositionPrefix| == 38 && PlainExcept(DispositionPrefix, 30, 30)
    ensures DispositionPrefix[30..38] == "; name=\""
  {
    DispositionLeadPlain();
    assert Plain(" name=\"");
    PlainAroundSemicolon(DispositionLead, " name=\"");
    assert DispositionPrefix == DispositionLead + ";" + " name=\"";
  }

  /** The file name attribute's opening: its only semicolon comes first. */
  lemma FilenamePrefixShape()
    ensures |FilenamePrefix| == 12 && PlainExcept(FilenamePrefix, 0, 0)
    ensures FilenamePrefix[2..10] == "filename" && FilenamePrefix[10] == '=' && FilenamePrefix[11] == '"'
  {
  }

  /** `"Content-Disposition: form-data; name=\"" + name + "\""`: laid out as written, with one semicolon. */
  lemma OpeningShape(name: string)
    requires Token(name)
    ensures var o := DispositionPrefix + name + "\"";
      var n := |name|;
      && |o| == 39 + n && PlainExcept(o, 30, 30)
      && o[..38] == DispositionPrefix && o[38..38 + n] == name && o[38 + n] == '"'
  {
    DispositionPrefixShape();
    var o := DispositionPrefix + name + "\"";
    var n := |name|;
    forall k | 0 <= k < |o| ensures o[k] as int < 0x80 && o[k] != '\r' && (o[k] == ';' ==> k == 30) {
      if k < 38 {
        assert o[k] == DispositionPrefix[k];
      } else if k < 38 + n {
        assert o[k] == name[k - 38];
      }
    }
  }

  /** `"; filename=\"" + fn + "\""`: laid out as written, with one semicolon. */
  lemma FilenameShape(fn: string)
    requires Token(fn)
    ensures var t := FilenamePrefix + fn + "\"";
      && |t| == 13 + |fn| && PlainExcept(t, 0, 0)
      && t[..12] == FilenamePrefix && t[12..12 + |fn|] == fn && t[12 + |fn|] == '"'
  {
    FilenamePrefixShape();
    var t := FilenamePrefix + fn + "\"";
    forall k | 0 <= k < |t| ensures t[k] as int < 0x80 && t[k] != '\r' && (t[k] == ';' ==> k == 0) {
      if k < 12 {
        assert t[k] == FilenamePrefix[k];
      } else if k < 12 + |fn| {
        assert t[k] == fn[k - 12];
      }
    }
  }

  /** The `Content-Disposition` header: plain, with semicolons before `name` and `filename` only. */
  lemma DispositionShape(f: FieldSpec)
    requires WellFormedField(f)
    ensures var d := Disposition(f);
      var n := |f.name|;
      && |d| >= 39 + n
      && (forall k :: 0 <= k < 38 ==> d[k] == DispositionPrefix[k])
      && (forall t :: 0 <= t < n ==> d[38 + t] == f.name[t])
      && d[38 + n] == '"'
      && PlainExcept(d, 30, if f.filename.Some? then 39 + n else 30)
      && (f.filename.Some? ==>
            var fn := f.filename.value;
            && |d| == 52 + n + |fn|
            && (forall k :: 0 <= k < 12 ==> d[39 + n + k] == FilenamePrefix[k])
            && (forall t :: 0 <= t < |fn| ==> d[51 + n + t] == fn[t])
            && d[51 + n + |fn|] == '"')
  {
    var n := |f.name|;
    var o := DispositionPrefix + f.name + "\"";
    OpeningShape(f.name);
    if f.filename.Some? {
      var fn := f.filename.value;
      var t := FilenamePrefix + fn + "\"";
      FilenameShape(fn);
      var d := o + t;
      assert Disposition(f) == d;
      assert forall k :: 0 <= k < |o| ==> d[k] == o[k];
      assert forall k :: |o| <= k < |d| ==> d[k] == t[k - |o|];
    } else {
      assert Disposition(f) == o;
    }
  }

  /** The header block is ASCII with no blank line, starts with the `Content-Disposition` header and has no other semicolon. */
  lemma HeadersShape(f: FieldSpec)
    requires WellFormedField(f)
    ensures var h := Headers(f);
      var d := Disposition(f);
      && IsAscii(h) && NoBlankLine(h)
      && |h| >= |d| && (forall k :: 0 <= k < |d| ==> h[k] == d[k])
      && forall k :: 0 <= k < |h| && h[k] == ';' ==> k == 30 || (f.filename.Some? && k == 39 + |f.name|)
  {
    HeaderLinesShape(f.extraHeaders);
    DispositionShape(f);
    var d := Disposition(f);
    var rest := HeaderLines(f.extraHeaders);
    var h := d + rest;
    assert Headers(f) == h;
    forall k | 0 <= k < |h|
      ensures h[k] as int < 0x80
      ensures h[k] == ';' ==> k == 30 || (f.filename.Some? && k == 39 + |f.name|)
      ensures h[k] == '\r' ==> k + 2 < |h| && h[k + 2] != '\r'
    {
      if k >= |d| {
        assert h[k] == rest[k - |d|];
        assert h[k] == '\r' ==> h[k + 2] == rest[k - |d| + 2];
      }
    }
  }

  /** `;\s*attr="v"` starting at `p`, with one space and `v` from `s` on: the pattern captures `v` there. */
  lemma AttributeHere(h: string, attr: string, p: nat, s: nat, v: string)
    requires attr != "" && !IsSpace(attr[0])
    requires s == p + 4 + |attr| && s + |v| < |h|
    requires h[p] == ';' && h[p + 1] == ' '
    requires forall t :: 0 <= t < |attr| ==> h[p + 2 + t] == attr[t]
    requires h[s - 2] == '=' && h[s - 1] == '"'
    requires forall t :: 0 <= t < |v| ==> h[s + t] == v[t]
    requires h[s + |v|] == '"'
    requires forall t :: 0 <= t < |v| ==> v[t] != '"' && !IsLineTerminator(v[t])
    ensures AttributeAt(h, attr, p).Some? && AttributeAt(h, attr, p).value == v
  {
    assert SkipSpaces(h, p + 2) == p + 2;
    assert SkipSpaces(h, p + 1) == p + 2;
    assert MatchesAt(h, p + 2, attr);
    var e := s + |v|;
    assert forall t :: s <= t < e ==> h[t] == v[t - s];
    assert Closes(h, s, e);
    var r := QuoteEnd(h, s);
    assert r.Some?;
    assert r.value == e;
    assert h[s..e] == v;
    assert AttributeAt(h, attr, p) == Some(h[s..e]);
  }

  /** The pattern can only match where a semicolon is. */
  lemma MatchesOnlyAtSemicolons(h: string, attr: string, k: nat)
    requires k >= |h| || h[k] != ';'
    ensures AttributeAt(h, attr, k).None?
  {
  }

  /** The leftmost match decides the capture; only semicolons before it need checking. */
  lemma FirstAttribute(h: string, attr: string, p: nat)
    requires AttributeAt(h, attr, p).Some?
    requires forall k :: 0 <= k < p && h[k] == ';' ==> AttributeAt(h, attr, k).None?
    ensures Attribute(h, attr) == AttributeAt(h, attr, p)
  {
    forall k | 0 <= k < p && h[k] != ';' ensures AttributeAt(h, attr, k).None? {
      MatchesOnlyAtSemicolons(h, attr, k);
    }
  }

  /** Without a match at any semicolon, there is no capture. */
  lemma NoAttribute(h: string, attr: string)
    requires forall k :: 0 <= k < |h| && h[k] == ';' ==> AttributeAt(h, attr, k).None?
    ensures Attribute(h, attr).None?
  {
    forall k | 0 <= k < |h| && h[k] != ';' ensures AttributeAt(h, attr, k).None? {
      MatchesOnlyAtSemicolons(h, attr, k);
    }
  }

  /** Where the name attribute sits in the header block, laid out as the capture needs it. */
  lemma NameLayout(f: FieldSpec)
    requires WellFormedField(f)
    ensures var h := Headers(f);
      && 38 + |f.name| < |h|
      && h[30] == ';' && h[31] == ' '
      && (forall t :: 0 <= t < 4 ==> h[32 + t] == "name"[t])
      && h[36] == '=' && h[37] == '"'
      && (forall t :: 0 <= t < |f.name| ==> h[38 + t] == f.name[t])
      && h[38 + |f.name|] == '"'
      && (forall k :: 0 <= k < 30 ==> h[k] != ';')
  {
    var h := Headers(f);
    var d := Disposition(f);
    DispositionPrefixShape();
    DispositionShape(f);
    HeadersShape(f);
    assert h[32] == 'n' && h[33] == 'a' && h[34] == 'm' && h[35] == 'e';
    forall t | 0 <= t < |f.name| ensures h[38 + t] == f.name[t] {
      assert h[38 + t] == d[38 + t];
    }
  }

  /** The header block of a well-formed field yields its name. */
  lemma NameAttribute(f: FieldSpec)
    requires WellFormedField(f)
    ensures Attribute(Headers(f), "name") == Some(f.name)
  {
    var h := Headers(f);
    NameLayout(f);
    AttributeHere(h, "name", 30, 38, f.name);
    FirstAttribute(h, "name", 30);
  }

  /** The semicolon before `name` does not start a `filename` match. */
  lemma NoFilenameBeforeName(f: FieldSpec)
    requires WellFormedField(f)
    ensures AttributeAt(Headers(f), "filename", 30).None?
  {
    var h := Headers(f);
    DispositionPrefixShape();
    DispositionShape(f);
    HeadersShape(f);
    assert h[30] == ';' && h[31] == ' ' && h[32] == 'n';
    assert SkipSpaces(h, 32) == 32;
    assert SkipSpaces(h, 31) == 32;
    assert Fold(h[32]) != Fold("filename"[0]);
    assert !MatchesAt(h, 32, "filename");
  }

  /** The header block of a well-formed field yields its file name, or none when it has none. */
  lemma FilenameAttribute(f: FieldSpec)
    requires WellFormedField(f)
    ensures Attribute(Headers(f), "filename") == f.filename
  {
    var h := Headers(f);
    var n := |f.name|;
    HeadersShape(f);
    NoFilenameBeforeName(f);
    if f.filename.Some? {
      FilenamePresent(f);
    } else {
      NoAttribute(h, "filename");
    }
  }

  /** Where the file name attribute sits in the header block, laid out as the capture needs it. */
  lemma FilenameLayout(f: FieldSpec)
    requires WellFormedField(f) && f.filename.Some?
    ensures var h := Headers(f);
      var fn := f.filename.value;
      var p := 39 + |f.name|;
      var s := 51 + |f.name|;
      && s + |fn| < |h|
      && h[p] == ';' && h[p + 1] == ' '
      && (forall t :: 0 <= t < 8 ==> h[p + 2 + t] == "filename"[t])
      && h[s - 2] == '=' && h[s - 1] == '"'
      && (forall t :: 0 <= t < |fn| ==> h[s + t] == fn[t])
      && h[s + |fn|] == '"'
      && (forall k :: 0 <= k < p && h[k] == ';' ==> k == 30)
  {
    var h := Headers(f);
    var d := Disposition(f);
    var n := |f.name|;
    var fn := f.filename.value;
    DispositionShape(f);
    HeadersShape(f);
    FilenamePrefixShape();
    var p := 39 + n;
    forall t | 0 <= t < 12 ensures h[p + t] == FilenamePrefix[t] {
      assert h[39 + n + t] == d[39 + n + t];
    }
    forall t | 0 <= t < 8 ensures h[p + 2 + t] == "filename"[t] {
      assert h[p + (2 + t)] == FilenamePrefix[2 + t];
    }
    var s := 51 + n;
    forall t | 0 <= t < |fn| ensures h[s + t] == fn[t] {
      assert h[51 + n + t] == d[51 + n + t];
    }
    assert h[s - 2] == FilenamePrefix[10] && h[s - 1] == FilenamePrefix[11];
  }

  /** A file name, after the field name, is captured. */
  lemma FilenamePresent(f: FieldSpec)
    requires WellFormedField(f) && f.filename.Some?
    requires AttributeAt(Headers(f), "filename", 30).None?
    ensures Attribute(Headers(f), "filename") == f.filename
  {
    var h := Headers(f);
    var fn := f.filename.value;
    var p := 39 + |f.name|;
    FilenameLayout(f);
    AttributeHere(h, "filename", p, 51 + |f.name|, fn);
    FirstAttribute(h, "filename", p);
    assert f.filename == Some(fn);
  }

  /** With no blank line in the headers, the first blank line of a part is the one after them. */
  lemma BlankLineAfterHeaders(h: string, rest: Bytes)
    requires IsAscii(h) && NoBlankLine(h)
    ensures Seqs.IndexOf((Utf8(h) + HeaderEnd) + rest, HeaderEnd, 0).Some?
    ensures Seqs.IndexOf((Utf8(h) + HeaderEnd) + rest, HeaderEnd, 0).value == |Utf8(h)|
  {
    var hb := Utf8(h);
    Utf8Ascii(h);
    var x := hb + HeaderEnd;
    assert x[|hb|..|hb| + 4] == HeaderEnd;
    assert Seqs.OccursAt(x, HeaderEnd, |hb|);
    forall k | 0 <= k < |hb| ensures !Seqs.OccursAt(x, HeaderEnd, k) {
      if x[k] == CR {
        assert hb[k] == h[k] as int;
        assert k + 2 < |h| && h[k + 2] != '\r';
        assert x[k + 2] == hb[k + 2] == h[k + 2] as int;
        assert x[k + 2] != HeaderEnd[2];
      }
    }
    Seqs.IndexOfExtend(x, rest, HeaderEnd);
  }

  /** An encoded part of a well-formed field parses back to its name and value. */
  lemma ParseEncodedPart(f: FieldSpec)
    requires WellFormedField(f)
    ensures ParsePart(EncodePart(f)) == Ok((f.name, Expected(f)))
  {
    var h := Headers(f);
    HeadersShape(f);
    var hb := Utf8(h);
    var rest := f.content + [CR, LF];
    var chunk := EncodePart(f);
    assert chunk == (hb + HeaderEnd) + rest;
    BlankLineAfterHeaders(h, rest);
    var i := |hb|;
    assert chunk[..i] == hb;
    AsciiRoundTrip(h);
    assert Subarray(chunk, i + 4, -2) == f.content;
    NameAttribute(f);
    FilenameAttribute(f);
    assert ParsePart(chunk) == Field(h, f.content);
  }

  // ---------------------------------------------------------------------
  // The whole body
  // ---------------------------------------------------------------------

  /** The `content-type` header a client sends with a body delimited by `boundary`. */
  function ContentType(boundary: string): string {
    "multipart/form-data; boundary=" + boundary
  }

  /**
   * A boundary the header carries whole: non-empty, with no `boundary=` in
   * it for `split` to cut at.
   */
  predicate HeaderSafe(boundary: string) {
    boundary != "" && !Seqs.Includes(boundary, BoundaryKey)
  }

  /** `parse` reads the boundary back out of the `content-type` header. */
  lemma BoundaryOfContentType(b: string)
    requires HeaderSafe(b)
    ensures Boundary(Some(ContentType(b))).Some?
    ensures Boundary(Some(ContentType(b))).value == b
  {
    var ct := ContentType(b);
    var pre := "multipart/form-data; boundary=";
    assert |pre| == 30 && ct == pre + b;
    assert forall k :: 0 <= k < 21 ==> ct[k] != 'b';
    forall k: nat | k < 21 ensures !Seqs.OccursAt(ct, BoundaryKey, k) {
      Seqs.Mismatch(ct, BoundaryKey, k);
    }
    assert ct[21..30] == BoundaryKey;
    assert Seqs.OccursAt(ct, BoundaryKey, 21);
    assert Seqs.IndexOf(ct, BoundaryKey, 0) == Some(21);
    forall k: nat | k >= 30 ensures !Seqs.OccursAt(ct, BoundaryKey, k) {
      Seqs.OccursPastPrefix(pre, b, BoundaryKey, k);
    }
    assert Seqs.IndexOf(ct, BoundaryKey, 30).None?;
    assert ct[30..|ct|] == b;
  }

  /** The encoded parts of the fields, in order. */
  function EncodeAll(fields: seq<FieldSpec>): (parts: seq<Bytes>)
    ensures |parts| == |fields| && forall k :: 0 <= k < |fields| ==> parts[k] == EncodePart(fields[k])
  {
    seq(|fields|, k requires 0 <= k < |fields| => EncodePart(fields[k]))
  }

  /** The name and value `parse` should read from each field, in order. */
  function ExpectAll(fields: seq<FieldSpec>): (r: seq<(string, Value)>)
    ensures |r| == |fields| && forall k :: 0 <= k < |fields| ==> r[k] == (fields[k].name, Expected(fields[k]))
  {
    seq(|fields|, k requires 0 <= k < |fields| => (fields[k].name, Expected(fields[k])))
  }

  /** A body as a client sends it: a delimiter, then each part, the last one closed. */
  function Body(boundary: string, fields: seq<FieldSpec>): Bytes
    requires |fields| > 0
  {
    Delimiter(boundary) + Frame(EncodeAll(fields), Delimiter(boundary), CloseDelimiter(boundary))
  }

  /** Every well-formed part parses to the field it encodes. */
  lemma ParseAllParts(fields: seq<FieldSpec>)
    requires forall k :: 0 <= k < |fields| ==> WellFormedField(fields[k])
    ensures ParseParts(EncodeAll(fields)).Ok?
    ensures ParseParts(EncodeAll(fields)).value == ExpectAll(fields)
  {
    var parts := EncodeAll(fields);
    var results := ParseEach(parts);
    forall k | 0 <= k < |fields| ensures results[k] == Ok(ExpectAll(fields)[k]) {
      ParseEncodedPart(fields[k]);
    }
  }

  /**
   * The round trip: a body framed with an ASCII boundary the header carries whole,
   * whose parts hold no delimiter, parses to the fields sent, a later field
   * overwriting an earlier one of the same name.
   */
  lemma ParseRoundTrip(b: string, fields: seq<FieldSpec>)
    requires HeaderSafe(b) && IsAscii(b) && |fields| > 0
    requires forall k :: 0 <= k < |fields| ==> WellFormedField(fields[k])
    requires Framable(EncodeAll(fields), Delimiter(b), CloseDelimiter(b))
    ensures var r := Parse(Some(ContentType(b)), Body(b, fields));
      && r.Parsed?
      && r.form == AppendAll([], ExpectAll(fields))
      && Records.UniqueKeys(r.form)
      && forall n :: Records.Get(r.form, n) == ValueAfter([], ExpectAll(fields), n)
  {
    BoundaryOfContentType(b);
    SplitBody(b, fields);
    ParseAllParts(fields);
    ParseSteps(Some(ContentType(b)), Body(b, fields), b, EncodeAll(fields), ExpectAll(fields));
  }

  /** A body framed from well-formed parts splits into exactly those parts. */
  lemma SplitBody(b: string, fields: seq<FieldSpec>)
    requires IsAscii(b) && |fields| > 0
    requires Framable(EncodeAll(fields), Delimiter(b), CloseDelimiter(b))
    ensures SplitParts(Body(b, fields), Delimiter(b), CloseDelimiter(b), Advance(b)).Ok?
    ensures SplitParts(Body(b, fields), Delimiter(b), CloseDelimiter(b), Advance(b)).value == EncodeAll(fields)
  {
    var delim := Delimiter(b);
    var close := CloseDelimiter(b);
    var parts := EncodeAll(fields);
    NothingBeforeFirst(delim);
    SplitFrame([], parts, delim, close);
    assert [] + delim + Frame(parts, delim, close) == Body(b, fields);
  }

  /** An empty preamble is clean. */
  lemma NothingBeforeFirst(delim: Bytes)
    ensures Clean([], delim)
  {
    assert Seqs.OccursAt([] + delim, delim, 0);
  }

  /** `parse` in its three stages: the boundary, the parts, the fields. */
  lemma ParseSteps(contentType: Option<string>, body: Bytes, b: string, chunks: seq<Bytes>, fields: seq<(string, Value)>)
    requires Boundary(contentType).Some? && Boundary(contentType).value == b
    requires SplitParts(body, Delimiter(b), CloseDelimiter(b), Advance(b)).Ok?
    requires SplitParts(body, Delimiter(b), CloseDelimiter(b), Advance(b)).value == chunks
    requires ParseParts(chunks).Ok? && ParseParts(chunks).value == fields
    ensures Parse(contentType, body).Parsed?
    ensures Parse(contentType, body).form == AppendAll([], fields)
  {
  }

  /**
   * A boundary that keeps the delimiter out of the close delimiter: ASCII,
   * with no carriage return and not ending in a dash.
   */
  predicate DelimiterSafe(boundary: string) {
    && boundary != ""
    && IsAscii(boundary)
    && (forall k :: 0 <= k < |boundary| ==> boundary[k] != '\r')
    && boundary[|boundary| - 1] != '-'
  }

  /** The delimiter text never occurs inside the close delimiter text. */
  lemma DelimiterTextNotInClose(b: string)
    requires DelimiterSafe(b)
    ensures forall t: nat :: !Seqs.OccursAt("--" + b + "--\r\n", "--" + b + "\r\n", t)
  {
    var d := "--" + b + "\r\n";
    var e := "--" + b + "--\r\n";
    var n := |b|;
    assert forall k :: 0 <= k < n ==> e[k + 2] == b[k];
    assert d[n + 1] == b[n - 1] && d[n + 2] == '\r';
    assert e[0] == '-' && e[1] == '-' && e[n + 2] == '-' && e[n + 3] == '-';
    forall t: nat ensures !Seqs.OccursAt(e, d, t) {
      if t + |d| <= |e| {
        assert e[t..t + |d|][n + 2] == e[t + n + 2];
      }
    }
  }

  /** An occurrence among ASCII bytes is an occurrence in the text they encode. */
  lemma AsciiOccurs(s: string, needle: string, t: nat)
    requires IsAscii(s) && IsAscii(needle)
    requires Seqs.OccursAt(Utf8(s), Utf8(needle), t)
    ensures Seqs.OccursAt(s, needle, t)
  {
    Utf8Ascii(s);
    Utf8Ascii(needle);
    forall k | 0 <= k < |needle| ensures s[t + k] == needle[k] {
      assert Utf8(s)[t..t + |needle|][k] == Utf8(needle)[k];
    }
  }

  /** The delimiter never occurs inside the close delimiter. */
  lemma DelimiterNotInClose(b: string)
    requires DelimiterSafe(b)
    ensures forall t: nat :: !Seqs.OccursAt(CloseDelimiter(b), Delimiter(b), t)
  {
    DelimiterTextNotInClose(b);
    assert IsAscii("--" + b + "\r\n") && IsAscii("--" + b + "--\r\n");
    forall t: nat | Seqs.OccursAt(CloseDelimiter(b), Delimiter(b), t) ensures false {
      AsciiOccurs("--" + b + "--\r\n", "--" + b + "\r\n", t);
    }
  }

  /** A form with no field is sent as the close delimiter alone, which `parse` rejects. */
  lemma EmptyFormRejected(b: string)
    requires HeaderSafe(b) && DelimiterSafe(b)
    ensures Parse(Some(ContentType(b)), CloseDelimiter(b)) == Failed(NoBoundaryEnd(CloseDelimiter(b)))
  {
    BoundaryOfContentType(b);
    DelimiterNotInClose(b);
    Seqs.IncludesMeansOccurs(CloseDelimiter(b), Delimiter(b));
  }
}
