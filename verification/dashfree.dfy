/**
 * Everyday forms: fields with no two dashes in a row anywhere can never
 * hold a delimiter, so any boundary without a line feed frames them, and
 * `parse` (lib/parse-formdata.js) reads them back.
 */
module DashFreeForms {
  import opened Wrappers
  import opened Buffers
  import Seqs
  import Records
  import opened FormData
  import opened Multipart

  /** The `-` character as a byte. */
  const Dash: Byte := 45

  /** No two `dash` elements stand next to each other. */
  predicate DashFree<T(==)>(s: seq<T>, dash: T) {
    forall k :: 0 <= k < |s| - 1 ==> !(s[k] == dash && s[k + 1] == dash)
  }

  /** Two dash-free pieces that do not both touch a dash at the seam make a dash-free whole. */
  lemma DashFreeConcat<T>(a: seq<T>, b: seq<T>, dash: T)
    requires DashFree(a, dash) && DashFree(b, dash)
    requires |a| == 0 || |b| == 0 || a[|a| - 1] != dash || b[0] != dash
    ensures DashFree(a + b, dash)
  {
    var s := a + b;
    forall k | 0 <= k < |s| - 1 ensures !(s[k] == dash && s[k + 1] == dash) {
      if k + 1 < |a| {
        assert s[k] == a[k] && s[k + 1] == a[k + 1];
      } else if k >= |a| {
        assert s[k] == b[k - |a|] && s[k + 1] == b[k + 1 - |a|];
      }
    }
  }

  // ---------------------------------------------------------------------
  // Delimiters cannot start inside a dash-free part
  // ---------------------------------------------------------------------

  /** How both delimiters look: two dashes first, a line feed last and nowhere else. */
  predicate DelimiterShaped(d: Bytes) {
    && |d| >= 2 && d[0] == Dash && d[1] == Dash && d[|d| - 1] == LF
    && forall i :: 0 <= i < |d| - 1 ==> d[i] != LF
  }

  /** A boundary without a line feed. */
  predicate SingleLine(b: string) {
    forall k :: 0 <= k < |b| ==> b[k] != '\n'
  }

  /** The delimiters of an ASCII boundary without a line feed are so shaped, the close one two bytes longer. */
  lemma DelimitersShaped(b: string)
    requires IsAscii(b) && SingleLine(b)
    ensures DelimiterShaped(Delimiter(b)) && DelimiterShaped(CloseDelimiter(b))
    ensures |CloseDelimiter(b)| == |Delimiter(b)| + 2
  {
    var d := "--" + b + "\r\n";
    var e := "--" + b + "--\r\n";
    assert forall i :: 0 <= i < |b| ==> d[i + 2] == b[i] && e[i + 2] == b[i];
    assert IsAscii(d) && IsAscii(e);
    Utf8Ascii(d);
    Utf8Ascii(e);
  }

  /**
   * A delimiter-shaped needle does not start inside a dash-free part that
   * another delimiter-shaped piece at least as long follows: its two dashes
   * would both fall in the part, or its line feed in the piece before the
   * piece's own end.
   */
  lemma NoOccurrenceInPart(part: Bytes, tail: Bytes, needle: Bytes, k: nat)
    requires DelimiterShaped(needle) && DelimiterShaped(tail) && |tail| >= |needle|
    requires DashFree(part, Dash) && k < |part|
    ensures !Seqs.OccursAt(part + tail, needle, k)
  {
  }

  /** A dash-free part is clean. */
  lemma DashFreeClean(part: Bytes, delim: Bytes)
    requires DelimiterShaped(delim) && DashFree(part, Dash)
    ensures Clean(part, delim)
  {
    var s := part + delim;
    assert Seqs.OccursAt(s, delim, |part|);
    var r := Seqs.IndexOf(s, delim, 0);
    assert r.Some?;
    if r.value < |part| {
      NoOccurrenceInPart(part, delim, delim, r.value);
    }
  }

  /** A dash-free last part is clean against both delimiters. */
  lemma DashFreeCleanLast(part: Bytes, delim: Bytes, close: Bytes)
    requires DelimiterShaped(delim) && DelimiterShaped(close) && |close| >= |delim|
    requires forall t: nat :: !Seqs.OccursAt(close, delim, t)
    requires DashFree(part, Dash)
    ensures CleanLast(part, delim, close)
  {
    var s := part + close;
    forall k: nat ensures !Seqs.OccursAt(s, delim, k) {
      if k < |part| {
        NoOccurrenceInPart(part, close, delim, k);
      } else {
        Seqs.OccursPastPrefix(part, close, delim, k);
      }
    }
    var n := Seqs.IndexOf(s, delim, 0);
    assert n.None?;
    assert Seqs.OccursAt(s, close, |part|);
    var r := Seqs.IndexOf(s, close, 0);
    assert r.Some?;
    if r.value < |part| {
      NoOccurrenceInPart(part, close, close, r.value);
    }
  }

  /** Dash-free parts are framable under the delimiters of any safe single-line boundary. */
  lemma DashFreeFramable(parts: seq<Bytes>, b: string)
    requires |parts| > 0 && DelimiterSafe(b) && SingleLine(b)
    requires forall k :: 0 <= k < |parts| ==> DashFree(parts[k], Dash)
    ensures Framable(parts, Delimiter(b), CloseDelimiter(b))
  {
    DelimitersShaped(b);
    DelimiterNotInClose(b);
    forall k | 0 <= k < |parts| - 1 ensures Clean(parts[k], Delimiter(b)) {
      DashFreeClean(parts[k], Delimiter(b));
    }
    DashFreeCleanLast(parts[|parts| - 1], Delimiter(b), CloseDelimiter(b));
  }

  // ---------------------------------------------------------------------
  // Encoded parts of dash-free fields
  // ---------------------------------------------------------------------

  /** A field with no two dashes in a row in its name, file name, header lines or content. */
  predicate DashFreeField(f: FieldSpec) {
    && DashFree(f.name, '-')
    && (f.filename.Some? ==> DashFree(f.filename.value, '-'))
    && (forall i :: 0 <= i < |f.extraHeaders| ==> DashFree(f.extraHeaders[i], '-'))
    && DashFree(f.content, Dash)
  }

  /** Dash-free ASCII text encodes to dash-free bytes. */
  lemma DashFreeUtf8(s: string)
    requires IsAscii(s) && DashFree(s, '-')
    ensures DashFree(Utf8(s), Dash)
  {
    Utf8Ascii(s);
    var u := Utf8(s);
    forall k | 0 <= k < |u| - 1 ensures !(u[k] == Dash && u[k + 1] == Dash) {
      assert u[k] == s[k] as int && u[k + 1] == s[k + 1] as int;
    }
  }

  /** Further header lines, each dash-free, stay dash-free behind their line breaks. */
  lemma {:induction false} HeaderLinesDashFree(lines: seq<string>)
    requires forall i :: 0 <= i < |lines| ==> DashFree(lines[i], '-')
    ensures DashFree(HeaderLines(lines), '-')
    decreases |lines|
  {
    if |lines| > 0 {
      var tail := lines[1..];
      assert forall i :: 0 <= i < |tail| ==> tail[i] == lines[i + 1];
      HeaderLinesDashFree(tail);
      var rest := HeaderLines(tail);
      assert rest == "" || rest[0] == '\r';
      DashFreeConcat("\r\n", lines[0], '-');
      DashFreeConcat("\r\n" + lines[0], rest, '-');
    }
  }

  /** The fixed text of the `Content-Disposition` header has no double dash. */
  lemma PrefixesDashFree()
    ensures DashFree(DispositionPrefix, '-') && DispositionPrefix[|DispositionPrefix| - 1] == '"'
    ensures DashFree(FilenamePrefix, '-') && FilenamePrefix[0] == ';' && FilenamePrefix[|FilenamePrefix| - 1] == '"'
  {
    DispositionLeadPlain();
    assert DashFree(DispositionLead, '-');
    DashFreeConcat(DispositionLead, "; name=\"", '-');
  }

  /** The `Content-Disposition` header of a dash-free field is dash-free. */
  lemma DispositionDashFree(f: FieldSpec)
    requires DashFreeField(f)
    ensures DashFree(Disposition(f), '-')
  {
    PrefixesDashFree();
    DashFreeConcat(DispositionPrefix, f.name, '-');
    DashFreeConcat(DispositionPrefix + f.name, "\"", '-');
    var opening := DispositionPrefix + f.name + "\"";
    if f.filename.Some? {
      var fn := f.filename.value;
      DashFreeConcat(FilenamePrefix, fn, '-');
      DashFreeConcat(FilenamePrefix + fn, "\"", '-');
      DashFreeConcat(opening, FilenamePrefix + fn + "\"", '-');
    } else {
      assert Disposition(f) == opening + "";
    }
  }

  /** A well-formed dash-free field encodes to a dash-free part. */
  lemma EncodePartDashFree(f: FieldSpec)
    requires WellFormedField(f) && DashFreeField(f)
    ensures DashFree(EncodePart(f), Dash)
  {
    var d := Disposition(f);
    DispositionDashFree(f);
    HeaderLinesDashFree(f.extraHeaders);
    DashFreeConcat(d, HeaderLines(f.extraHeaders), '-');
    HeadersShape(f);
    var h := Utf8(Headers(f));
    DashFreeUtf8(Headers(f));
    DashFreeConcat(h, HeaderEnd, Dash);
    DashFreeConcat(h + HeaderEnd, f.content, Dash);
    DashFreeConcat(h + HeaderEnd + f.content, [CR, LF], Dash);
  }

  /**
   * The round trip for everyday forms: under a safe single-line boundary,
   * well-formed fields with no double dash anywhere parse back to the
   * fields sent, with no further condition on the framing.
   */
  lemma DashFreeRoundTrip(b: string, fields: seq<FieldSpec>)
    requires HeaderSafe(b) && DelimiterSafe(b) && SingleLine(b) && |fields| > 0
    requires forall k :: 0 <= k < |fields| ==> WellFormedField(fields[k]) && DashFreeField(fields[k])
    ensures var r := Parse(Some(ContentType(b)), Body(b, fields));
      r.Parsed? && r.form == AppendAll([], ExpectAll(fields))
  {
    var parts := EncodeAll(fields);
    forall k | 0 <= k < |parts| ensures DashFree(parts[k], Dash) {
      EncodePartDashFree(fields[k]);
    }
    DashFreeFramable(parts, b);
    ParseRoundTrip(b, fields);
  }

  /** Two fields of different names make an object with both, in order. */
  lemma TwoFields(a: string, va: Value, b: string, vb: Value)
    requires a != b
    ensures AppendAll([], [(a, va), (b, vb)]) == [Records.Entry(a, va), Records.Entry(b, vb)]
  {
    var fields := [(a, va), (b, vb)];
    var first := Records.Set([], a, va);
    assert first == [Records.Entry(a, va)];
    assert fields[1..] == [(b, vb)];
    assert AppendAll([], fields) == AppendAll(first, [(b, vb)]);
    assert Records.Keys(first) == {a};
    var second := Records.Set(first, b, vb);
    assert second == [Records.Entry(a, va), Records.Entry(b, vb)];
    assert AppendAll(first, [(b, vb)]) == AppendAll(second, []);
  }

  /**
   * Two well-formed dash-free fields of different names, framed under a
   * safe single-line boundary, parse to an object holding both, in order.
   */
  lemma TwoFieldRoundTrip(b: string, first: FieldSpec, second: FieldSpec)
    requires HeaderSafe(b) && DelimiterSafe(b) && SingleLine(b)
    requires WellFormedField(first) && DashFreeField(first)
    requires WellFormedField(second) && DashFreeField(second)
    requires first.name != second.name
    ensures Parse(Some(ContentType(b)), Body(b, [first, second]))
      == Parsed([Records.Entry(first.name, Expected(first)), Records.Entry(second.name, Expected(second))])
  {
    var fields := [first, second];
    DashFreeRoundTrip(b, fields);
    assert ExpectAll(fields) == [(first.name, Expected(first)), (second.name, Expected(second))];
    TwoFields(first.name, Expected(first), second.name, Expected(second));
  }
}
