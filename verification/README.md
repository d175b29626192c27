# sign-server, modelled in Dafny

A model of the core of `sign-server`. This is a local proxy that sits in front of Windows
`signtool`. It keeps a content-addressable cache of files plus a lineage document (`meta.json`),
so that a file already signed, or already the signed output of an earlier request, is served
without running signtool again. The model covers four parts:

- `records.dfy`, `seqs.dfy`, `buffers.dfy`: JavaScript objects used as dictionaries (association lists
  that keep every key in insertion order), `indexOf`/`lastIndexOf`/`includes`/`split` over sequences, and Node `Buffer`
  slicing and UTF-8 encoding.
- `cache.dfy` (lib/cache.js): the store is one directory per hash, each a listing of `name → bytes`.
  The `meta` document has the four maps `keep`, `temp`, `sha1` and `sha256`. Operations: `has`, `get`,
  `name`, `set` (blob or path, rename or copy-then-delete), `meta` load/save, `clear`.
- `lineage.dfy` and `signing.dfy` (lib/make-sign-fn.js): the reverse-lineage oracle `is_signed`
  and the `sign` request. A request is a pure function from the disk state to the reply, the new disk
  state and the list of signtool invocations. Signtool is an oracle answering each invocation.
- `formdata.dfy` and `multipart.dfy` (lib/parse-formdata.js): the hand-rolled `multipart/form-data`
  parser of RFC 7578. Delimiters follow section 5.1.1 of RFC 2046. The second file lays out a body
  the way a client does and proves that `parse` reads back the fields. `dashfree.dfy` discharges
  the framing condition for everyday forms: no part with two dashes in a row can hold a delimiter.
  `formexamples.dfy` runs two concrete bodies through `parse`.
- `certificates.dfy` (lib/find-certificate.js): shaping the PowerShell certificate listing into
  records, and the subject filter.

Where the code's comments or the project's design notes disagree with the code, the model follows the code:

- `is_signed` finds the key `K` whose value is the file's hash in one method map. It then asks whether `K`
  is a *value* of the other method map, not whether it is a key there.
- The attempt loop has no `break`. On the signing path signtool always runs twice: the second run
  sees the file the first run left. The request fails exactly when the second run fails.
- `meta.temp[new_hash]` receives the stored file's path, not a hash.
- After finding a delimiter, `parse` moves on by `boundaryCRLF.length`: the delimiter's length in
  UTF-16 code units, not in bytes, though `indexOf` searched the bytes. For an ASCII boundary the two
  agree. For a boundary with other characters the next part starts inside the delimiter, so its
  headers begin with the delimiter's last bytes (`FormData.Advance`). The round trip is stated
  for ASCII boundaries only.
- A body that has an opening delimiter but no close delimiter is not rejected. Its last part is
  everything after the last delimiter except the final byte.
- The example body in the comment above `parse` shows no line break after `field-content`. Every
  part ends with one before the next delimiter (section 5.1.1 of RFC 2046), and `parse` cuts two bytes
  before each delimiter. `FormExamples.DocCommentExample` therefore uses the body with that line break.
- Signing `h1` with sha1 and then signing `h1` again with sha256 does not make `is_signed(h1, ·)` true.
  `is_signed` only recognises outputs, never inputs (`Lineage.DualSignature`).

## Model

| member | source | states |
|---|---|---|
| Records.ByValue | lib/make-sign-fn.js:10-14 | `by_value` returns nothing exactly when no value equals `v`; otherwise it returns the key of the first entry, in iteration order, holding `v` |
| Records.ByValueInvertsGet | lib/make-sign-fn.js:10-14 | when keys and values are both unique, `by_value(r, v) == k` iff `r[k] == v` |
| Records.Set | lib/make-sign-fn.js:86 | property assignment: the key then holds the value, every other key keeps its value, the key set grows by the key, uniqueness of keys is kept |
| Records.Get | lib/make-sign-fn.js:94 | property read: absent iff not a key; with unique keys it is the value of the entry with that key |
| Seqs.IndexOf | lib/parse-formdata.js:35 | `indexOf(needle, from)` is the first occurrence at or after `from`, and nothing when there is none |
| Seqs.SecondPiece | lib/parse-formdata.js:18 | `split(sep)[1]` is nothing iff `sep` does not occur; otherwise it starts just past the first occurrence and ends at the next occurrence after that, or at the end when there is none, and it contains no `sep` |
| Seqs.LastIndexOf | lib/find-certificate.js:15 | `lastIndexOf(x)` is the last index holding `x`, and nothing iff `x` does not occur |
| Seqs.IncludesMeansOccurs | lib/find-certificate.js:16 | `includes` holds iff the needle occurs at some index |
| Buffers.Subarray | lib/parse-formdata.js:65 | `subarray(start, end)` with a negative end counts from the back; an inverted range is empty |
| Buffers.ToText | lib/parse-formdata.js:64 | `toString()` gives one character per byte, with the same code (ASCII) |
| Buffers.AsciiRoundTrip | lib/parse-formdata.js:62-64 | encoding ASCII text to bytes and decoding it gives the text back |
| Buffers.Utf16NotLonger | lib/parse-formdata.js:40 | a string's `length` (UTF-16 code units) is at least its character count and at most its UTF-8 byte count, and equals the byte count exactly when the string is ASCII |
| Cache.Get | lib/cache.js:52-60 | `get` returns the first entry's bytes (first in creation order; see Left out); it returns nothing, never an error, iff the directory is missing or empty |
| Cache.Name | lib/cache.js:97-100 | `name` throws iff the directory is missing; otherwise it returns the first entry's name (first in creation order), or nothing for an empty directory |
| Cache.SetBuffer | lib/cache.js:62-81 | `set(h, {name, buffer})` writes `buffer` at `dir/name` and returns that path; other entries and other directories are unchanged, and no entry is removed |
| Cache.SetFile | lib/cache.js:62-75 | `set(h, path)` fails iff there is no file at `path`; otherwise it returns `dir/basename(path)` |
| Cache.SetFileMoves | lib/cache.js:65-75 | rename and copy-then-delete end in the same state: the content is at `dir/basename(path)`, the source is gone, and other files are untouched |
| Cache.LoadMeta | lib/cache.js:90-95 | a missing or unparsable `meta.json` loads as `{keep:{}, temp:{}, sha1:{}, sha256:{}}` |
| Cache.SaveMeta | lib/cache.js:84-89 | saving replaces the document, and the next load returns what was saved; the directories are untouched |
| Cache.SaveThenLoad | lib/cache.js:84-95 | save then load is the identity, and saving what was loaded changes nothing |
| Cache.Clear | lib/cache.js:35-45 | `clear` removes exactly the directories of hashes in `temp`, leaves other directories as they were, empties `temp`, `sha1` and `sha256`, and keeps `keep` |
| Cache.SetOnEmptySlot | lib/cache.js:62-81 | on an empty slot, after `set(h, {name, buffer})`: `has(h)` holds, `get(h)` is `buffer` and `name(h)` is `name` |
| Cache.SecondNameBreaksHas | lib/cache.js:47-64 | `set` never removes entries, so storing a second name under a cached hash makes `has(h)` false |
| Lineage.IsSigned | lib/make-sign-fn.js:22-39 | `is_signed(h, m)` holds whenever `h` is a value of the `m` map, and is false when `h` is a value of neither map |
| Lineage.IsSignedClosedForm | lib/make-sign-fn.js:22-39 | `is_signed(h, m)` iff `h` is an `m` output, or the first other-method input `K` mapping to `h` is itself an `m` output |
| Lineage.IsSignedMeansCarriesSignature | lib/make-sign-fn.js:22-39 | when no output has two inputs, `is_signed` decides exactly whether `h` carries an `m` signature in the lineage (both directions) |
| Lineage.CrossMethod | lib/make-sign-fn.js:27-36 | if `other[K] == h`, then `is_signed(h, m)` iff `h` is an `m` output or `K` is an `m` output |
| Lineage.DualSignature | lib/make-sign-fn.js:22-39 | after `h1 -sha1-> h2 -sha256-> h3`: `h3` counts as signed for both methods, `h2` for sha1 only, `h1` for neither |
| Signing.ResolveBlob | lib/make-sign-fn.js:77-90 | a blob is hashed; an uncached blob is stored and its name recorded in `temp` if nested, else in `keep`, with nothing else changing; a cached one changes nothing; the lineage maps and every cached directory are kept |
| Signing.RecordOrigin | lib/make-sign-fn.js:85-87 | the origin goes to `temp` when nested, else to `keep`; the `sha1` and `sha256` maps are untouched |
| Signing.Resolve | lib/make-sign-fn.js:62-90 | a hash reference fails with "not found file with hash …" iff it is not cached; otherwise its single file's name and bytes go through `ResolveBlob` exactly as an uploaded blob would (re-hashed, and stored and recorded when that hash is not cached); a blob goes through `ResolveBlob` |
| Signing.Switches | lib/make-sign-fn.js:118-119 | `/sm` is present iff the certificate is in the machine store, `/as` iff nested, in that order |
| Signing.SigntoolArgs | lib/make-sign-fn.js:115-120 | the arguments are exactly `sign /debug /tr <url> /td sha256 /sha1 <thumbprint> /s <store> /fd <method>`, the switches, then the file |
| Signing.RecordSigned | lib/make-sign-fn.js:142-145 | after a successful run, `temp[new]` is the stored path and `meta[method][in] == new`; every other entry is unchanged; `is_signed(new, method)` holds |
| Signing.AttemptsFrom | lib/make-sign-fn.js:123-137 | the loop makes one call per remaining pass, each on the file the previous call left; it fails iff the last call fails, with that call's message |
| Signing.UnknownHashRejected | lib/make-sign-fn.js:63-67 | a reference to an uncached hash is rejected with "not found file with hash …"; the disk is unchanged and signtool never runs |
| Signing.ContentAddressedReference | lib/make-sign-fn.js:62-90 | when the cached file hashes to its own directory's name, resolving the reference keeps the hash and changes nothing |
| Signing.SignFreshRunsTwice | lib/make-sign-fn.js:115-137 | the signing path calls signtool exactly twice with the same arguments; the second call sees the first call's output; the path fails iff the second call fails, and otherwise sends what that call wrote |
| Signing.SigntoolRunsTwiceOrNever | lib/make-sign-fn.js:92-137 | signtool runs iff the input resolves, has no cached output and is not already signed; then it runs exactly twice with the same arguments, and the request fails iff the second run fails |
| Signing.CachedOutputServed | lib/make-sign-fn.js:92-98 | if `meta[method][hash]` is set and cached, its bytes are sent, signtool never runs, and only the resolved input is recorded |
| Signing.AlreadySignedReturnedAsIs | lib/make-sign-fn.js:100-104 | otherwise, when `is_signed` holds, the input bytes are sent unchanged and signtool never runs |
| Signing.SignFreshStores | lib/make-sign-fn.js:139-150 | after a successful run the output is stored under its own hash with the input's name, holding exactly the bytes sent; other directories are unchanged and the scratch copy is gone |
| Signing.SignFreshRecords | lib/make-sign-fn.js:139-145 | after a successful run the meta document is the input's document with the output recorded by `RecordSigned` under its stored path |
| Signing.SigningRecordsOutput | lib/make-sign-fn.js:58-150 | a whole `sign` request that ran signtool and succeeded stores and records its output as the two rows above say |
| Signing.SignFreshFailure | lib/make-sign-fn.js:123-137 | a failed signing run leaves the cache untouched and the scratch copy behind |
| Signing.FailedSigningKeepsCache | lib/make-sign-fn.js:123-137 | a failed signing leaves the cache as resolution left it, and the scratch copy stays behind |
| Signing.RepeatedUploadServedFromCache | lib/make-sign-fn.js:92-98 | uploading the same blob again after a successful signing sends the same bytes without running signtool |
| Certificates.ToArray | lib/find-certificate.js:30-32 | null becomes `[]`, an array stays as it is, and a single object becomes a singleton |
| Certificates.StoreName | lib/find-certificate.js:15 | the store is the suffix after the last backslash, or the whole path when it has none; the store holds no backslash |
| Certificates.Shape | lib/find-certificate.js:14-22 | thumbprint and subject are copied, and `isLocalMachine` holds iff the path contains `Certificate::LocalMachine` |
| Certificates.ShapeAll | lib/find-certificate.js:13-23 | one record per object, in order |
| Certificates.FilterBySubject | lib/find-certificate.js:25 | keeps exactly the records whose subject contains the filter, each as many times as it appears in the input, in their original order |
| Certificates.FindCertificates | lib/find-certificate.js:11-27 | empty output gives no certificates; without an effective filter there is one record per object with its fields copied; with a non-empty filter not starting with `//`, exactly the matching records, each as many times as it was listed |
| FormData.Boundary | lib/parse-formdata.js:18-19 | the boundary is present exactly when there is a content type whose `split("boundary=")[1]` exists and is non-empty, and it is then that piece: the text after the first `boundary=` up to the next one |
| FormData.LastChunk | lib/parse-formdata.js:41-44 | the last part runs to the close delimiter; without one it is everything but the final byte |
| FormData.Advance | lib/parse-formdata.js:29-40 | the step past a delimiter is positive and at most the delimiter's byte length, and equals that length exactly when the boundary is ASCII |
| FormData.ChunksFrom | lib/parse-formdata.js:34-50 | there is at least one part, and no part except the last contains the delimiter, whatever the step past each delimiter |
| FormData.ChunksFromLaidOut | lib/parse-formdata.js:34-50 | the parts are laid out from `j`: the first is read at `j` as `ChunkAt` says (exactly the bytes up to the first delimiter, or, when it is the last part, where no delimiter follows, cut as `LastChunk` cuts), and the rest are laid out from `step` bytes past the start of that delimiter |
| FormData.ChunksFromPositions | lib/parse-formdata.js:34-50 | part `k` starts at `j` plus the lengths of the parts before it and `step` for the delimiter after each; a part other than the last is exactly the bytes from its start up to the first delimiter at or after it; the last part starts where no delimiter follows and is what `LastChunk` cuts there (`ChunkTest` is `ChunkAt` with the buffer and delimiters fixed) |
| FormData.SplitParts | lib/parse-formdata.js:32-50 | splitting fails with "not found boundary end" iff the body holds no `--boundary\r\n`, whatever the step |
| FormData.MissingCloseDelimiter | lib/parse-formdata.js:41-47 | with one opening delimiter and nothing `step` bytes past its start that looks like a delimiter, splitting succeeds with a single part that drops the body's final byte |
| FormData.Attribute | lib/parse-formdata.js:54-55 | `match(/;\s*attr="(.*?)"/i)` matches iff the pattern matches at some `;`; the capture holds no quote and no line terminator |
| FormData.Field | lib/parse-formdata.js:53-59 | `append` fails iff there is no `name`; a non-empty `filename` makes a file `{filename, body}`, otherwise the value is the body's text |
| FormData.ParsePart | lib/parse-formdata.js:61-69 | a part fails with "not found headers" iff it holds no `\r\n\r\n` |
| FormData.AppendAll | lib/parse-formdata.js:56 | each name holds the value of its last field, and names of no field keep their value |
| FormData.Parse | lib/parse-formdata.js:17-47 | a missing boundary gives null, and a body without `--boundary\r\n` fails with "not found boundary end"; parts are split stepping `Advance(b)` past each delimiter |
| Multipart.BoundaryOfContentType | lib/parse-formdata.js:18 | for every non-empty `b` holding no `boundary=` (an `=` on its own is allowed), `parse` reads back `b` from `multipart/form-data; boundary=<b>` |
| Multipart.ChunksOfFrame | lib/parse-formdata.js:34-50 | when the step past a delimiter is its full byte length (an ASCII boundary), the parts of a framed body are exactly the byte ranges between consecutive delimiters, in order |
| Multipart.SplitFrame | lib/parse-formdata.js:34-50 | when the step past a delimiter is its full byte length, bytes before the first delimiter are discarded and the framed parts come back |
| Multipart.ParseEncodedPart | lib/parse-formdata.js:53-69 | an encoded part parses back to its field's name and value (a file with a non-empty filename, else text) |
| Multipart.ParseRoundTrip | lib/parse-formdata.js:17-72 | under a non-empty ASCII boundary holding no `boundary=`, a body built from well-formed fields whose parts the delimiter search frames parses to those fields, a later field overwriting an earlier one of the same name |
| Multipart.EmptyFormRejected | lib/parse-formdata.js:41-47 | a body made only of the close delimiter fails with "not found boundary end" |
| DashFreeForms.DashFreeFramable | lib/parse-formdata.js:34-50 | under a non-empty ASCII boundary with no carriage return and no final dash (`DelimiterSafe`) and no line feed (`SingleLine`), the delimiter search finds each boundary between parts that hold no two dashes in a row, and no other boundary |
| DashFreeForms.EncodePartDashFree | lib/parse-formdata.js:53-69 | a part encoded from a field with no double dash in its name, file name, header lines or content has no double dash |
| DashFreeForms.DashFreeRoundTrip | lib/parse-formdata.js:17-72 | such fields parse back to the fields sent, with no further condition on the framing |
| DashFreeForms.TwoFieldRoundTrip | lib/parse-formdata.js:53-59 | two such fields with different names give an object holding both, in the order sent (insertion order; see Left out) |
| FormExamples.DocCommentExample | lib/parse-formdata.js:3-15 | the body in the comment above `parse` gives `{ file: { name: 'blob', buffer }, field: "field-content" }`, where `buffer` holds `Hello, world!` |
| FormExamples.UploadExample | lib/parse-formdata.js:17-72 | an upload of `a.exe` holding `ABC` with `hash` set to `sha1` gives exactly those two fields |

## Left out

- HTTP routing, CORS, the startup exit rule and network-interface printing in `server.js`: these are I/O plumbing.
- lib/find-signtool.js is not part of this model. It is a file-system probe over fixed Windows paths.
- Spawning processes (`exec` in lib/utils.js). Signtool is an oracle from an invocation to success (with the file's new content) or failure (with a message). PowerShell's output and `JSON.parse` are parameters of `FindCertificates`.
- `md5`, `send` and `cache.path` are not defined in the modelled files. `md5` is a parameter of the environment, applied to file contents: `md5(tmpfile)` is taken to hash the file at that path. `send` returns the given bytes. `send_file(res, cache.path(...))` returns the stored file's bytes.
- The 15-second cooldown, the 10-minute timeout, `Math.random` scratch names and `os.tmpdir`. The scratch directory is a parameter of the request.
- Console logging and stream piping.
- Concurrency: requests are modelled one at a time, so the races on `meta.json`'s read-modify-write are not modelled.
- JSON text of `meta.json`: save and load are modelled as identity on the record. A document that parses but lacks a map is not modelled.
- Hash method names other than `sha1`/`sha256` in the `hash` field: the method is a two-valued datatype.
- Buffers.ToText: decodes byte-per-character, which is exact only on ASCII. Decoding multi-byte UTF-8 (and replacing invalid sequences) is not modelled.
- FormData.Field: a header block without `name="…"` makes the source throw a `TypeError`. It is modelled as a third parse error, `NoName`.
- Records: a JavaScript object enumerates keys that are array indices (`"0"`, `"1"`, …) first, in ascending numeric order, and only then the other keys in insertion order. The model keeps insertion order for every key. Lookups are unaffected. The `meta` maps are unaffected too: their keys are 32-digit md5 digests, far above the largest array index (2^32 − 2), so `by_value` scans them in insertion order in the source as well.
- Multipart.ParseRoundTrip: no round trip is claimed for a boundary with non-ASCII characters. There the source steps short of the delimiter's end, so every part begins with leftover delimiter bytes ahead of its headers (`FormData.Advance`). Those bytes can hold a `;name="…"` that the name search finds first: with a boundary of eleven `é` followed by `;name="z"`, a field sent as `a` comes back as `z`.
- DashFreeForms.TwoFieldRoundTrip: "in the order sent" is the model's insertion order. In the source, a field whose name is an array index would be listed first in the parsed object. The same holds for the order of `Multipart.ParseRoundTrip`'s form. The values under each name are as stated.
- Cache.Get / Cache.Name: a directory's entries are kept in the order they were created, and the "first entry" is the oldest. `readdirSync` lists by name (NTFS index order on Windows, sorted elsewhere), so in a directory with several entries the source may read a different one. `sign` reads only directories that `has` accepts, which hold exactly one entry, so its behaviour is unaffected.
- Signing.Resolve: a reference is a `Hash`, which is never empty. The source accepts `file=""`, and `cache.has("")` then checks the cache root directory itself (lib/cache.js:48). That case is not modelled.
- Path resolution: names and references are flat keys. A reference or file name holding a path separator or `..` makes `path.join` (lib/cache.js:48, 78) reach outside the hash's directory. That is not modelled. Nor is a reference naming a plain file in the cache root, such as `meta.json`: `existsSync` finds it, `readdirSync` then throws ENOTDIR (lib/cache.js:48-49), and the request fails with that file-system message. The model keeps `meta.json` apart from the hash directories, so it answers "not found file with hash meta.json" there.
- A request without a `file` field: the request type always carries a reference or a blob. In the source, `file_hash` stays undefined and the request later fails with a `TypeError` on `file.name`.
- File-system failures: every write, rename and copy succeeds. In the source, `edit_meta` records the name (lib/make-sign-fn.js:85-87) before `cache.set` writes the file (line 88). A failed write would leave `keep` or `temp` naming a file that was never stored. `cache.set` runs `mkdirSync` (lib/cache.js:64) before it looks at the file, so a `set` whose file is missing leaves an empty directory for the hash. `Cache.SetFile` leaves the store unchanged in that case, and `has` answers false for that hash either way.
- Signing.AttemptsFrom: a failed signtool run is taken to leave the scratch file unchanged (`Signing.After`). A real signtool can fail after rewriting the file, for example when timestamping fails after signing. The second pass would then see the rewritten file.
- Certificates.FindCertificates: a certificate object whose `PSParentPath` is not a string (a `TypeError` in the source) is not modelled. Objects always carry the three string fields.
