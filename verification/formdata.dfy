/**
 * lib/parse-formdata.js: the hand-rolled `multipart/form-data` splitter
 * (RFC 7578, delimiter syntax of section 5.1.1 of RFC 2046). The body is cut
 * at each `--boundary\r\n`; every part is split at its first blank line into
 * a header block, searched for `name="…"` and `filename="…"`, and a value.
 */
module FormData {
  import opened Wrappers
  import opened Buffers
  import Seqs
  import Records

  /** A form field: text, or an uploaded file with its file name. */
  datatype Value = Text(text: string) | File(name: string, buffer: Bytes)

  /** The object `parse` returns: field name → value, later parts overwriting earlier ones. */
  type Form = Records.Record<string, Value>

  /** The errors `parse` throws. */
  datatype ParseError =
    | NoBoundaryEnd(buffer: Bytes)  // no `--boundary\r\n` anywhere in the body
    | NoHeader(chunk: Bytes)        // a part without a blank line
    | NoName(headers: string)       // a header block without `name="…"` (a TypeError in the source)

  /** What `parse(req)` resolves to. */
  datatype Outcome = NotFormData | Failed(error: ParseError) | Parsed(form: Form)

  const CR: Byte := 13
  const LF: Byte := 10
  const HeaderEnd: Bytes := [CR, LF, CR, LF]

  // ---------------------------------------------------------------------
  // Boundary and delimiters
  // ---------------------------------------------------------------------

  const BoundaryKey := "boundary="

  /**
   * `req.headers["content-type"]?.split("boundary=")[1]`, kept only when
   * truthy: the text after the first `boundary=`, up to a second one.
   */
  function Boundary(contentType: Option<string>): (r: Option<string>)
    ensures r.Some? ==> r.value != "" && contentType.Some?
    ensures r.Some? ==> forall k: nat :: !Seqs.OccursAt(r.value, BoundaryKey, k)
    ensures contentType.Some? && (forall k: nat :: !Seqs.OccursAt(contentType.value, BoundaryKey, k)) ==> r.None?
    ensures r.Some? <==>
      && contentType.Some?
      && Seqs.SecondPiece(contentType.value, BoundaryKey).Some?
      && Seqs.SecondPiece(contentType.value, BoundaryKey).value != ""
    ensures r.Some? ==> r == Seqs.SecondPiece(contentType.value, BoundaryKey)
  {
    match contentType
    case None => None
    case Some(ct) =>
      match Seqs.SecondPiece(ct, BoundaryKey)
      case None => None
      case Some(b) => if b == "" then None else Some(b)
  }

  /** `boundary + "\r\n"` as bytes, where `boundary` already carries its leading `--`. */
  function Delimiter(boundary: string): Bytes {
    Utf8("--" + boundary + "\r\n")
  }

  /**
   * `boundaryCRLF.length`: how far `parse` moves past the start of each
   * delimiter it finds. It counts UTF-16 code units while the search works
   * on bytes, so it is the delimiter's byte length exactly when the boundary
   * is ASCII, and falls short of it otherwise.
   */
  function Advance(boundary: string): (n: nat)
    ensures 0 < n <= |Delimiter(boundary)|
    ensures n == |Delimiter(boundary)| <==> IsAscii(boundary)
  {
    var text := "--" + boundary + "\r\n";
    Utf16NotLonger(text);
    assert IsAscii(text) <==> IsAscii(boundary) by {
      assert forall k :: 0 <= k < |boundary| ==> text[k + 2] == boundary[k];
    }
    Utf16Length(text)
  }

  /** `boundary + "--\r\n"`: the close delimiter. */
  function CloseDelimiter(boundary: string): Bytes {
    Utf8("--" + boundary + "--\r\n")
  }

  // ---------------------------------------------------------------------
  // Splitting the body into parts
  // ---------------------------------------------------------------------

  /**
   * The last part, starting at `j`: up to the close delimiter, or, when
   * there is none, `buffer.subarray(j, -1)` — everything but the final byte.
   */
  function LastChunk(buffer: Bytes, close: Bytes, j: nat): (r: Bytes)
    requires j <= |buffer|
    ensures Seqs.IndexOf(buffer, close, j).Some? ==> r == buffer[j..Seqs.IndexOf(buffer, close, j).value]
    ensures Seqs.IndexOf(buffer, close, j).None? ==> r == if j < |buffer| then buffer[j..|buffer| - 1] else []
  {
    match Seqs.IndexOf(buffer, close, j)
    case Some(i) => buffer[j..i]
    case None => Subarray(buffer, j, -1)
  }

  /**
   * The parts from `j` on: each runs to the next delimiter, and the next
   * part starts `step` bytes after where that delimiter starts; the last one
   * ends as `LastChunk` says. No part contains a delimiter. `parse` steps by
   * `boundaryCRLF.length`, which is the delimiter's length in UTF-16 code
   * units and so may fall short of its length in bytes (`Advance`).
   */
  function ChunksFrom(buffer: Bytes, delim: Bytes, close: Bytes, step: nat, j: nat): (r: seq<Bytes>)
    requires 0 < step <= |delim| && j <= |buffer|
    ensures |r| >= 1
    ensures forall k :: 0 <= k < |r| - 1 ==> !Seqs.Includes(r[k], delim)
    decreases |buffer| - j
  {
    match Seqs.IndexOf(buffer, delim, j)
    case Some(i) =>
      NoOccurrenceBefore(buffer, delim, j, i);
      [buffer[j..i]] + ChunksFrom(buffer, delim, close, step, i + step)
    case None => [LastChunk(buffer, close, j)]
  }

  /** One step of `ChunksFrom`: the part up to the next delimiter, then the parts after it. */
  lemma ChunksFromStep(buffer: Bytes, delim: Bytes, close: Bytes, step: nat, j: nat, i: nat)
    requires 0 < step <= |delim| && j <= |buffer|
    requires Seqs.IndexOf(buffer, delim, j) == Some(i)
    ensures j <= i && i + step <= |buffer|
    ensures ChunksFrom(buffer, delim, close, step, j) == [buffer[j..i]] + ChunksFrom(buffer, delim, close, step, i + step)
  {
  }

  /** With no delimiter left, `ChunksFrom` is the last part alone. */
  lemma ChunksFromLast(buffer: Bytes, delim: Bytes, close: Bytes, step: nat, j: nat)
    requires 0 < step <= |delim| && j <= |buffer|
    requires Seqs.IndexOf(buffer, delim, j).None?
    ensures ChunksFrom(buffer, delim, close, step, j) == [LastChunk(buffer, close, j)]
  {
  }

  /** Where part `k` starts when every part is followed by a delimiter of length `n`. */
  function Offset(parts: seq<Bytes>, k: nat, n: nat): nat
    requires k <= |parts|
  {
    if k == 0 then 0 else Offset(parts, k - 1, n) + |parts[k - 1]| + n
  }

  /** Offsets past the first part are the tail's offsets shifted by it. */
  lemma {:induction false} OffsetTail(parts: seq<Bytes>, k: nat, n: nat)
    requires 1 <= k <= |parts|
    ensures Offset(parts, k, n) == |parts[0]| + n + Offset(parts[1..], k - 1, n)
  {
    if k > 1 {
      OffsetTail(parts, k - 1, n);
    }
  }

  /**
   * `part` read at `o`: a part other than the last holds the bytes from `o`
   * up to the first delimiter at or after `o`; the last one starts where no
   * delimiter follows and ends as `LastChunk` says.
   */
  predicate ChunkAt(buffer: Bytes, delim: Bytes, close: Bytes, o: nat, part: Bytes, last: bool) {
    && o <= |buffer|
    && if last then Seqs.IndexOf(buffer, delim, o).None? && part == LastChunk(buffer, close, o)
       else
         && o + |part| <= |buffer|
         && Seqs.IndexOf(buffer, delim, o) == Some(o + |part|)
         && buffer[o..o + |part|] == part
  }

  /**
   * `r` laid out from `j` as `at` says: its first part at `j`, and the
   * rest laid out from `n` past the end of it.
   */
  predicate LaidOut(at: (nat, Bytes, bool) -> bool, j: nat, r: seq<Bytes>, n: nat)
    decreases |r|
  {
    && |r| > 0
    && at(j, r[0], |r| == 1)
    && (|r| > 1 ==> LaidOut(at, j + |r[0]| + n, r[1..], n))
  }

  /** Part `k` of parts laid out from `j` sits at `Offset(r, k, n)` past `j`. */
  lemma {:induction false} LaidOutPart(at: (nat, Bytes, bool) -> bool, j: nat, r: seq<Bytes>, n: nat, k: nat)
    requires LaidOut(at, j, r, n) && k < |r|
    ensures at(j + Offset(r, k, n), r[k], k == |r| - 1)
    decreases k
  {
    if k > 0 {
      LaidOutPart(at, j + |r[0]| + n, r[1..], n, k - 1);
      OffsetTail(r, k, n);
      assert r[1..][k - 1] == r[k];
    }
  }

  /** `ChunkAt` for one buffer and pair of delimiters. */
  function ChunkTest(buffer: Bytes, delim: Bytes, close: Bytes): (nat, Bytes, bool) -> bool {
    (o: nat, part: Bytes, last: bool) => ChunkAt(buffer, delim, close, o, part, last)
  }

  /** The parts read from `j` on are laid out from `j`, part by part as `ChunkAt` says. */
  lemma {:induction false} ChunksFromLaidOut(buffer: Bytes, delim: Bytes, close: Bytes, step: nat, j: nat)
    requires 0 < step <= |delim| && j <= |buffer|
    ensures LaidOut(ChunkTest(buffer, delim, close), j, ChunksFrom(buffer, delim, close, step, j), step)
    decreases |buffer| - j
  {
    match Seqs.IndexOf(buffer, delim, j)
    case None =>
      ChunksFromLast(buffer, delim, close, step, j);
      ChunkTestAt(buffer, delim, close, j, LastChunk(buffer, close, j), true);
    case Some(i) =>
      ChunksFromLaidOut(buffer, delim, close, step, i + step);
      LaidOutStep(buffer, delim, close, step, j, i);
  }

  /** One step of `ChunksFromLaidOut`: the parts after the delimiter at `i` laid out, so are those from `j`. */
  lemma LaidOutStep(buffer: Bytes, delim: Bytes, close: Bytes, step: nat, j: nat, i: nat)
    requires 0 < step <= |delim| && j <= |buffer| && Seqs.IndexOf(buffer, delim, j) == Some(i)
    requires i + step <= |buffer|
    requires LaidOut(ChunkTest(buffer, delim, close), i + step, ChunksFrom(buffer, delim, close, step, i + step), step)
    ensures LaidOut(ChunkTest(buffer, delim, close), j, ChunksFrom(buffer, delim, close, step, j), step)
  {
    ChunksFromStep(buffer, delim, close, step, j, i);
    LaidOutAfterDelimiter(buffer, delim, close, step, j, i, ChunksFrom(buffer, delim, close, step, i + step));
  }

  /** The part up to the delimiter at `i`, then parts laid out from `step` past that delimiter's start. */
  lemma LaidOutAfterDelimiter(buffer: Bytes, delim: Bytes, close: Bytes, step: nat, j: nat, i: nat, rest: seq<Bytes>)
    requires j <= |buffer| && Seqs.IndexOf(buffer, delim, j) == Some(i)
    requires |rest| > 0 && LaidOut(ChunkTest(buffer, delim, close), i + step, rest, step)
    ensures LaidOut(ChunkTest(buffer, delim, close), j, [buffer[j..i]] + rest, step)
  {
    var part := buffer[j..i];
    assert ChunkAt(buffer, delim, close, j, part, false);
    ChunkTestAt(buffer, delim, close, j, part, false);
    LaidOutCons(ChunkTest(buffer, delim, close), j, part, i + step, rest, step);
  }

  /** `ChunkTest` accepts what `ChunkAt` says. */
  lemma ChunkTestAt(buffer: Bytes, delim: Bytes, close: Bytes, o: nat, part: Bytes, last: bool)
    requires ChunkAt(buffer, delim, close, o, part, last)
    ensures ChunkTest(buffer, delim, close)(o, part, last)
  {
  }

  /** A part that `at` accepts, followed by parts laid out from `n` past its end, is laid out. */
  lemma LaidOutCons(at: (nat, Bytes, bool) -> bool, j: nat, part: Bytes, next: nat, rest: seq<Bytes>, n: nat)
    requires next == j + |part| + n
    requires |rest| > 0 && at(j, part, false) && LaidOut(at, next, rest, n)
    ensures LaidOut(at, j, [part] + rest, n)
  {
    assert ([part] + rest)[1..] == rest;
  }

  /**
   * The parts, position by position: part `k` starts `step` bytes after
   * the start of the delimiter that ends part `k - 1`; a part other than the
   * last runs to the first delimiter at or after its start, and the last
   * starts where no delimiter follows.
   */
  lemma ChunksFromPositions(buffer: Bytes, delim: Bytes, close: Bytes, step: nat, j: nat, r: seq<Bytes>, k: nat)
    requires 0 < step <= |delim| && j <= |buffer|
    requires r == ChunksFrom(buffer, delim, close, step, j) && k < |r|
    ensures ChunkTest(buffer, delim, close)(j + Offset(r, k, step), r[k], k == |r| - 1)
  {
    ChunksFromLaidOut(buffer, delim, close, step, j);
    LaidOutPart(ChunkTest(buffer, delim, close), j, r, step, k);
  }

  /** A slice that no occurrence of `needle` fits into does not contain it. */
  lemma NoOccurrenceBefore(buffer: Bytes, needle: Bytes, j: nat, e: nat)
    requires j <= e <= |buffer|
    requires forall k :: j <= k && k + |needle| <= e ==> !Seqs.OccursAt(buffer, needle, k)
    ensures !Seqs.Includes(buffer[j..e], needle)
  {
    Seqs.IncludesMeansOccurs(buffer[j..e], needle);
    if Seqs.Includes(buffer[j..e], needle) {
      var k: nat :| Seqs.OccursAt(buffer[j..e], needle, k);
      Seqs.OccursInSlice(buffer, needle, j, e, k);
    }
  }

  /**
   * The `while (true)` loop: skip everything up to the first delimiter and
   * return the parts after it; fail when the body holds no delimiter.
   */
  function SplitParts(buffer: Bytes, delim: Bytes, close: Bytes, step: nat): (r: Result<seq<Bytes>, ParseError>)
    requires 0 < step <= |delim|
    ensures r.Err? <==> !Seqs.Includes(buffer, delim)
    ensures r.Err? ==> r.error == NoBoundaryEnd(buffer)
    ensures r.Ok? ==> |r.value| >= 1
  {
    match Seqs.IndexOf(buffer, delim, 0)
    case None => Err(NoBoundaryEnd(buffer))
    case Some(i) => Ok(ChunksFrom(buffer, delim, close, step, i + step))
  }

  /**
   * A missing close delimiter is not an error: after the last delimiter the
   * remaining bytes, less the final one, form the last part.
   */
  lemma MissingCloseDelimiter(buffer: Bytes, delim: Bytes, close: Bytes, step: nat, i: nat)
    requires 0 < step <= |delim|
    requires Seqs.IndexOf(buffer, delim, 0) == Some(i)
    requires Seqs.IndexOf(buffer, delim, i + step).None?
    requires Seqs.IndexOf(buffer, close, i + step).None?
    ensures var j := i + step;
      SplitParts(buffer, delim, close, step) == Ok([if j < |buffer| then buffer[j..|buffer| - 1] else []])
  {
    var j := i + step;
    assert j <= |buffer| by { assert Seqs.OccursAt(buffer, delim, i); }
    assert SplitParts(buffer, delim, close, step) == Ok(ChunksFrom(buffer, delim, close, step, j));
    ChunksFromLast(buffer, delim, close, step, j);
  }

  // ---------------------------------------------------------------------
  // The attribute regular expressions /;\s*name="(.*?)"/i
  // ---------------------------------------------------------------------

  /** JavaScript's `\s`: white space and line terminators. */
  predicate IsSpace(c: char) {
    var n := c as int;
    n in {0x09, 0x0A, 0x0B, 0x0C, 0x0D, 0x20, 0xA0, 0x1680, 0x2028, 0x2029, 0x202F, 0x205F, 0x3000, 0xFEFF}
    || 0x2000 <= n <= 0x200A
  }

  /** The characters `.` does not match. */
  predicate IsLineTerminator(c: char) {
    c as int in {0x0A, 0x0D, 0x2028, 0x2029}
  }

  /** Case folding of the `i` flag, which only relates ASCII letters here. */
  function Fold(c: char): char {
    if 'A' <= c <= 'Z' then (c as int + 32) as char else c
  }

  /** `word` matches `h` at `q`, ignoring ASCII case. */
  predicate MatchesAt(h: string, q: nat, word: string) {
    q + |word| <= |h| && forall t :: 0 <= t < |word| ==> Fold(h[q + t]) == Fold(word[t])
  }

  /** Where greedy `\s*` starting at `q` stops. */
  function SkipSpaces(h: string, q: nat): (r: nat)
    requires q <= |h|
    ensures q <= r <= |h|
    ensures forall k :: q <= k < r ==> IsSpace(h[k])
    ensures r < |h| ==> !IsSpace(h[r])
    decreases |h| - q
  {
    if q == |h| || !IsSpace(h[q]) then q else SkipSpaces(h, q + 1)
  }

  /** `"` at `e` closes a lazy `(.*?)` opened at `s`: no line terminator lies between. */
  predicate Closes(h: string, s: nat, e: nat) {
    s <= e < |h| && h[e] == '"' && forall t :: s <= t < e ==> !IsLineTerminator(h[t])
  }

  /** Where `(.*?)"` opened at `s` ends: the first `"`, unless a line terminator comes first. */
  function QuoteEnd(h: string, s: nat): (r: Option<nat>)
    requires s <= |h|
    ensures r.Some? ==> Closes(h, s, r.value) && forall t :: s <= t < r.value ==> h[t] != '"'
    ensures r.None? ==> forall e :: !Closes(h, s, e)
    decreases |h| - s
  {
    if s == |h| then None
    else if h[s] == '"' then Some(s)
    else if IsLineTerminator(h[s]) then
      assert forall e :: s < e ==> !Closes(h, s, e);
      None
    else
      var r := QuoteEnd(h, s + 1);
      assert r.None? ==> forall e :: s < e ==> !Closes(h, s, e) by {
        assert forall e :: s < e && Closes(h, s, e) ==> Closes(h, s + 1, e);
      }
      r
  }

  /** The capture when `;\s*attr="(.*?)"` matches with its `;` at `p`. */
  function AttributeAt(h: string, attr: string, p: nat): (r: Option<string>)
    ensures r.Some? ==> forall t :: 0 <= t < |r.value| ==> r.value[t] != '"' && !IsLineTerminator(r.value[t])
  {
    if p < |h| && h[p] == ';' then
      var q := SkipSpaces(h, p + 1);
      var s := q + |attr| + 2;
      if s <= |h| && MatchesAt(h, q, attr) && h[q + |attr|] == '=' && h[q + |attr| + 1] == '"' then
        match QuoteEnd(h, s)
        case Some(e) => Some(h[s..e])
        case None => None
      else None
    else None
  }

  /** The leftmost position at or after `p` where the attribute pattern matches. */
  function FirstMatch(h: string, attr: string, p: nat): (r: Option<nat>)
    ensures r.Some? ==> p <= r.value < |h| && AttributeAt(h, attr, r.value).Some?
    ensures forall k :: p <= k < |h| && AttributeAt(h, attr, k).Some? ==> r.Some? && r.value <= k
    decreases |h| - p
  {
    if p >= |h| then None
    else if AttributeAt(h, attr, p).Some? then Some(p)
    else FirstMatch(h, attr, p + 1)
  }

  /** `headers.match(/;\s*attr="(.*?)"/i)?.[1]`: the capture of the leftmost match. */
  function Attribute(h: string, attr: string): (r: Option<string>)
    ensures r.Some? <==> exists k :: 0 <= k < |h| && AttributeAt(h, attr, k).Some?
    ensures r.Some? ==> forall t :: 0 <= t < |r.value| ==> r.value[t] != '"' && !IsLineTerminator(r.value[t])
  {
    match FirstMatch(h, attr, 0)
    case None => None
    case Some(p) => AttributeAt(h, attr, p)
  }

  // ---------------------------------------------------------------------
  // Parts and the form
  // ---------------------------------------------------------------------

  /**
   * `append(headers, body)`: the field named by `name="…"`; a file when the
   * headers carry a non-empty `filename="…"`, text otherwise. Fails when
   * there is no name.
   */
  function Field(headers: string, body: Bytes): (r: Result<(string, Value), ParseError>)
    ensures r.Err? <==> Attribute(headers, "name").None?
    ensures r.Ok? ==> r.value.0 == Attribute(headers, "name").value
    ensures r.Ok? && r.value.1.File? ==> r.value.1.buffer == body && r.value.1.name != ""
                                         && Attribute(headers, "filename") == Some(r.value.1.name)
    ensures r.Ok? && r.value.1.Text? ==> r.value.1.text == ToText(body)
                                         && Attribute(headers, "filename") in {None, Some("")}
  {
    match Attribute(headers, "name")
    case None => Err(NoName(headers))
    case Some(name) =>
      var filename := Attribute(headers, "filename");
      Ok((name, if filename.Some? && filename.value != "" then File(filename.value, body) else Text(ToText(body))))
  }

  /**
   * One part: the headers before its first `\r\n\r\n`, the value after it
   * without the final two bytes (`chunk.subarray(i + 4, -2)`). Fails when
   * the part has no blank line.
   */
  function ParsePart(chunk: Bytes): (r: Result<(string, Value), ParseError>)
    ensures r == Err(NoHeader(chunk)) <==> !Seqs.Includes(chunk, HeaderEnd)
  {
    match Seqs.IndexOf(chunk, HeaderEnd, 0)
    case None => Err(NoHeader(chunk))
    case Some(i) => Field(ToText(chunk[..i]), Subarray(chunk, i + 4, -2))
  }

  /** The values of all results when every one succeeded, else the first error. */
  function Collect<T, E>(results: seq<Result<T, E>>): (r: Result<seq<T>, E>)
    ensures r.Ok? <==> forall k :: 0 <= k < |results| ==> results[k].Ok?
    ensures r.Ok? ==> |r.value| == |results| && forall k :: 0 <= k < |results| ==> results[k].value == r.value[k]
    ensures r.Err? ==> exists k :: 0 <= k < |results| && results[k].Err? && results[k].error == r.error
                                   && forall k' :: 0 <= k' < k ==> results[k'].Ok?
    decreases |results|
  {
    if |results| == 0 then Ok([])
    else
      Seqs.TailIndex(results);
      match results[0]
      case Err(e) => Err(e)
      case Ok(x) =>
        match Collect(results[1..])
        case Err(e) => Err(e)
        case Ok(xs) => Ok([x] + xs)
  }

  /** Every part, parsed in order; the first part that fails aborts the parse. */
  function ParseParts(chunks: seq<Bytes>): Result<seq<(string, Value)>, ParseError> {
    Collect(ParseEach(chunks))
  }

  /** Each part parsed on its own. */
  function ParseEach(chunks: seq<Bytes>): (results: seq<Result<(string, Value), ParseError>>)
    ensures |results| == |chunks|
  {
    seq(|chunks|, k requires 0 <= k < |chunks| => ParsePart(chunks[k]))
  }

  /** The position of the last field named `n`. */
  function LastNamed(fields: seq<(string, Value)>, n: string): (r: Option<nat>)
    ensures r.Some? ==> r.value < |fields| && fields[r.value].0 == n
    ensures r.Some? ==> forall k :: r.value < k < |fields| ==> fields[k].0 != n
    ensures r.None? ==> forall k :: 0 <= k < |fields| ==> fields[k].0 != n
    decreases |fields|
  {
    if |fields| == 0 then None
    else if fields[|fields| - 1].0 == n then Some(|fields| - 1)
    else LastNamed(fields[..|fields| - 1], n)
  }

  /** The value `n` holds once `fields` are appended to `form`: the last field named `n`, else what `form` holds. */
  function ValueAfter(form: Form, fields: seq<(string, Value)>, n: string): Option<Value> {
    match LastNamed(fields, n)
    case None => Records.Get(form, n)
    case Some(k) => Some(fields[k].1)
  }

  /**
   * `formData[name] = value` for every field in order: a later field with
   * the same name replaces the earlier value, and names not among the fields
   * keep what `form` held.
   */
  function AppendAll(form: Form, fields: seq<(string, Value)>): (r: Form)
    ensures forall n :: Records.Get(r, n) == ValueAfter(form, fields, n)
    ensures Records.UniqueKeys(form) ==> Records.UniqueKeys(r)
    decreases |fields|
  {
    if |fields| == 0 then form
    else
      var next := Records.Set(form, fields[0].0, fields[0].1);
      var r := AppendAll(next, fields[1..]);
      AppendAllStep(form, fields, r);
      r
  }

  /** One step of `AppendAll`: appending the first field, then the rest. */
  lemma AppendAllStep(form: Form, fields: seq<(string, Value)>, r: Form)
    requires |fields| > 0
    requires forall n :: Records.Get(r, n) == ValueAfter(Records.Set(form, fields[0].0, fields[0].1), fields[1..], n)
    ensures forall n :: Records.Get(r, n) == ValueAfter(form, fields, n)
  {
    forall n ensures ValueAfter(Records.Set(form, fields[0].0, fields[0].1), fields[1..], n) == ValueAfter(form, fields, n) {
      ValueAfterStep(form, fields, n);
    }
  }

  /** The value of one name after the first field, then the rest. */
  lemma ValueAfterStep(form: Form, fields: seq<(string, Value)>, n: string)
    requires |fields| > 0
    ensures ValueAfter(Records.Set(form, fields[0].0, fields[0].1), fields[1..], n) == ValueAfter(form, fields, n)
  {
    match LastNamed(fields[1..], n)
    case Some(k) =>
      assert fields[1..][k] == fields[k + 1];
      assert LastNamed(fields, n) == Some(k + 1);
    case None =>
      if fields[0].0 == n {
        assert LastNamed(fields, n) == Some(0);
      } else {
        assert LastNamed(fields, n) == None;
      }
  }

  /** `parse(req)` given the `content-type` header and the whole body. */
  function Parse(contentType: Option<string>, body: Bytes): (r: Outcome)
    ensures r.NotFormData? <==> Boundary(contentType).None?
    ensures Boundary(contentType).Some? && !Seqs.Includes(body, Delimiter(Boundary(contentType).value)) ==>
              r == Failed(NoBoundaryEnd(body))
  {
    match Boundary(contentType)
    case None => NotFormData
    case Some(b) =>
      var delim := Delimiter(b);
      match SplitParts(body, delim, CloseDelimiter(b), Advance(b))
      case Err(e) => Failed(e)
      case Ok(chunks) =>
        match ParseParts(chunks)
        case Err(e) => Failed(e)
        case Ok(fields) => Parsed(AppendAll([], fields))
  }
}
