/**
 * Concrete bodies run through the model of `parse` (lib/parse-formdata.js):
 * the layout in the comment above `parse`, and an upload as a client of
 * the signing service sends it.
 */
module FormExamples {
  import opened Wrappers
  import opened Buffers
  import Records
  import opened FormData
  import opened Multipart
  import opened DashFreeForms

  /** The boundary of the comment above `parse`; its delimiter is `------boundary`. */
  const ExampleBoundary := "----boundary"

  /** The header line of the file part in that comment, in three pieces. */
  const OctetStream := ContentTypeKey + Application + OctetSubtype
  const ContentTypeKey := "Content-Type: "
  const Application := "application/"
  const OctetSubtype := "octet-stream"

  /** The bytes of `Hello, world!`. */
  const Hello: Bytes := [0x48, 0x65, 0x6C, 0x6C, 0x6F, 0x2C, 0x20, 0x77, 0x6F, 0x72, 0x6C, 0x64, 0x21]

  /** The bytes of `field-content`. */
  const FieldContent: Bytes := [0x66, 0x69, 0x65, 0x6C, 0x64, 0x2D, 0x63, 0x6F, 0x6E, 0x74, 0x65, 0x6E, 0x74]

  /** The bytes of `ABC`. */
  const Abc: Bytes := [0x41, 0x42, 0x43]

  /** The bytes of `sha1`. */
  const Sha1Text: Bytes := [0x73, 0x68, 0x61, 0x31]

  /** The file part of that comment: `blob` holding `Hello, world!`. */
  const BlobField := FieldSpec("file", Some("blob"), [OctetStream], Hello)

  /** The text part of that comment: `field` holding `field-content`. */
  const TextField := FieldSpec("field", None, [], FieldContent)

  /** The file part of an upload: `a.exe` holding `ABC`. */
  const ExeField := FieldSpec("file", Some("a.exe"), [], Abc)

  /** The method part of an upload: `hash` holding `sha1`. */
  const HashField := FieldSpec("hash", None, [], Sha1Text)

  /** Bytes that carry the codes of ASCII text one by one are its encoding. */
  lemma EncodesAscii(s: string, b: Bytes)
    requires IsAscii(s) && |b| == |s| && forall i :: 0 <= i < |s| ==> b[i] == s[i] as int
    ensures b == Utf8(s)
  {
    Utf8Ascii(s);
  }

  /** The file content of the comment above `parse` is the encoding of `Hello, world!`. */
  lemma HelloEncodesText()
    ensures Hello == Utf8("Hello, world!")
  {
    EncodesAscii("Hello, world!", Hello);
  }

  /** The text content of the comment above `parse` is the encoding of `field-content`. */
  lemma FieldContentEncodesText()
    ensures FieldContent == Utf8("field-content")
  {
    EncodesAscii("field-content", FieldContent);
  }

  /** The contents of the upload are the encodings of their texts. */
  lemma UploadContentsEncodeText()
    ensures Abc == Utf8("ABC") && Sha1Text == Utf8("sha1")
  {
    EncodesAscii("ABC", Abc);
    EncodesAscii("sha1", Sha1Text);
  }

  /** The example boundary is carried whole by the header: it holds no `boundary=`. */
  lemma ExampleBoundaryInHeader()
    ensures HeaderSafe(ExampleBoundary)
  {
    var b := ExampleBoundary;
    assert |b| == 12 && forall k :: 0 <= k < 4 ==> b[k] != 'b';
    forall k: nat ensures !Seqs.OccursAt(b, BoundaryKey, k) {
      if k < 4 {
        Seqs.Mismatch(b, BoundaryKey, k);
      }
    }
    Seqs.IncludesMeansOccurs(b, BoundaryKey);
  }

  /** The example boundary keeps the delimiters apart and stays on one line. */
  lemma ExampleBoundaryInBody()
    ensures DelimiterSafe(ExampleBoundary) && SingleLine(ExampleBoundary)
  {
  }

  /** The example boundary is safe in the header and in the body. */
  lemma ExampleBoundarySafe()
    ensures HeaderSafe(ExampleBoundary) && DelimiterSafe(ExampleBoundary) && SingleLine(ExampleBoundary)
  {
    ExampleBoundaryInHeader();
    ExampleBoundaryInBody();
  }

  /** Text a header line may hold: ASCII with no semicolon or line break. */
  predicate LineText(s: string) {
    forall i :: 0 <= i < |s| ==> s[i] as int < 0x80 && s[i] != ';' && s[i] != '\r' && s[i] != '\n'
  }

  /** A piece of a header line: line text without a double dash. */
  predicate LinePiece(s: string) {
    LineText(s) && DashFree(s, '-')
  }

  /** Line pieces that do not both touch a dash at the seam join into a line piece. */
  lemma LinePieceConcat(a: string, b: string)
    requires LinePiece(a) && LinePiece(b)
    requires |a| == 0 || |b| == 0 || a[|a| - 1] != '-' || b[0] != '-'
    ensures LinePiece(a + b)
  {
    DashFreeConcat(a, b, '-');
    assert forall i :: 0 <= i < |a| ==> (a + b)[i] == a[i];
    assert forall i :: |a| <= i < |a + b| ==> (a + b)[i] == b[i - |a|];
  }

  /** The `Content-Type` line is a header line without a double dash. */
  lemma OctetStreamSafe()
    ensures HeaderLine(OctetStream) && DashFree(OctetStream, '-')
  {
    assert LinePiece(ContentTypeKey);
    assert LinePiece(Application);
    assert LinePiece(OctetSubtype);
    LinePieceConcat(ContentTypeKey, Application);
    LinePieceConcat(ContentTypeKey + Application, OctetSubtype);
  }

  /** The file part of the comment is sent safely and read back as the file `blob`. */
  lemma BlobFieldSafe()
    ensures WellFormedField(BlobField) && DashFreeField(BlobField)
    ensures Expected(BlobField) == File("blob", Hello)
  {
    OctetStreamSafe();
  }

  /** The text part of the comment is sent safely and read back as `field-content`. */
  lemma TextFieldSafe()
    ensures WellFormedField(TextField) && DashFreeField(TextField)
    ensures Expected(TextField) == Text("field-content")
  {
  }

  /** The file part of an upload is sent safely and read back as the file `a.exe`. */
  lemma ExeFieldSafe()
    ensures WellFormedField(ExeField) && DashFreeField(ExeField)
    ensures Expected(ExeField) == File("a.exe", Abc)
  {
  }

  /** The method part of an upload is sent safely and read back as `sha1`. */
  lemma HashFieldSafe()
    ensures WellFormedField(HashField) && DashFreeField(HashField)
    ensures Expected(HashField) == Text("sha1")
  {
  }

  /**
   * The body laid out in the comment above `parse`, with the line break
   * every part ends with before the next delimiter: `parse` returns the
   * file `blob` and the text `field-content`, in that order.
   */
  lemma DocCommentExample()
    ensures Parse(Some(ContentType(ExampleBoundary)), Body(ExampleBoundary, [BlobField, TextField]))
      == Parsed([Records.Entry("file", File("blob", Hello)), Records.Entry("field", Text("field-content"))])
  {
    ExampleBoundarySafe();
    BlobFieldSafe();
    TextFieldSafe();
    TwoFieldRoundTrip(ExampleBoundary, BlobField, TextField);
  }

  /** An upload of `a.exe` holding `ABC`, to be signed with `sha1`, parses to exactly those two fields. */
  lemma UploadExample()
    ensures Parse(Some(ContentType(ExampleBoundary)), Body(ExampleBoundary, [ExeField, HashField]))
      == Parsed([Records.Entry("file", File("a.exe", Abc)), Records.Entry("hash", Text("sha1"))])
  {
    ExampleBoundarySafe();
    ExeFieldSafe();
    HashFieldSafe();
    TwoFieldRoundTrip(ExampleBoundary, ExeField, HashField);
  }
}
