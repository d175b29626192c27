/**
 * The `sign` closure of lib/make-sign-fn.js: resolve the uploaded file, look
 * for an earlier signed output, ask the lineage oracle, and otherwise run
 * signtool on a scratch copy, store the result and record it in the meta
 * document. Requests are modelled one at a time, as a function from the disk
 * state to the reply, the new disk state and the signtool invocations made.
 */
module Signing {
  import opened Wrappers
  import opened Buffers
  import Records
  import opened Cache
  import opened Lineage
  import opened Certificates

  const TimestampUrl := "http://timestamp.digicert.com"

  /** The `file` field: the hash of a cached file, or an uploaded `{name, buffer}` blob. */
  datatype FileArg = ByReference(hash: Hash) | ByContent(name: FileName, buffer: Bytes)

  /** The form fields `sign` reads; `isNest` is the truthiness of the field. */
  datatype Request = Request(file: FileArg, digest: Method, isNest: bool)

  /** What one signtool run does: rewrites the file, or exits with an error. */
  datatype Run = Signed(output: Bytes) | Failed(message: string)

  /** One signtool invocation: attempt number, argument list and the file content it saw. */
  datatype Call = Call(attempt: nat, args: seq<string>, content: Bytes)

  /**
   * What `sign` depends on but does not define: the certificate it signs
   * with, `md5` over file contents, and signtool, an oracle answering each
   * invocation.
   */
  datatype Env = Env(cert: Certificate, md5: Bytes -> Hash, signtool: Call -> Run)

  /** The disk: the cache and the files outside it. */
  datatype State = State(store: Store, files: Files)

  /** The response: 200 with bytes, or 400 with the error message. */
  datatype Reply = Sent(bytes: Bytes) | Rejected(message: string)

  /** A finished request: reply, disk afterwards, and the signtool invocations in order. */
  datatype Outcome = Outcome(reply: Reply, state: State, calls: seq<Call>)

  /** `not_found_error(hash)`. */
  function NotFoundMessage(h: Hash): string {
    "not found file with hash " + h
  }

  /** `path.join(tmpdir, file.name)` as text. */
  function PathText(p: Path): string {
    p.dir + [Sep] + p.base
  }

  // ---------------------------------------------------------------------
  // Step 1: resolve the input
  // ---------------------------------------------------------------------

  /** The input once resolved: its hash, name and content, and the cache after recording it. */
  datatype Input = Input(hash: Hash, name: FileName, buffer: Bytes, store: Store)

  /**
   * The blob branch: hash the content; a file not yet cached has its origin
   * written to `temp` (nested) or `keep` (top level) and is stored. A cached
   * one changes nothing.
   */
  function ResolveBlob(env: Env, s: Store, name: FileName, buffer: Bytes, isNest: bool): (r: Input)
    ensures r.hash == env.md5(buffer) && r.name == name && r.buffer == buffer
    ensures r.store.root == s.root
    ensures Has(s, r.hash) ==> r.store == s
    ensures !Has(s, r.hash) ==>
      var m := LoadMeta(s);
      var m' := LoadMeta(r.store);
      && r.hash in r.store.dirs
      && Records.Get(r.store.dirs[r.hash], name) == Some(buffer)
      && (forall n :: n != name ==> Records.Get(r.store.dirs[r.hash], n) == Records.Get(DirOf(s, r.hash), n))
      && (forall h :: h != r.hash ==> (h in r.store.dirs <==> h in s.dirs))
      && (forall h :: h != r.hash && h in s.dirs ==> r.store.dirs[h] == s.dirs[h])
      && (isNest ==> m' == m.(temp := Records.Set(m.temp, r.hash, name)))
      && (!isNest ==> m' == m.(keep := Records.Set(m.keep, r.hash, name)))
    ensures forall m :: Table(LoadMeta(r.store), m) == Table(LoadMeta(s), m)
    ensures forall h :: Has(s, h) ==> h in r.store.dirs && r.store.dirs[h] == s.dirs[h]
  {
    var h := env.md5(buffer);
    if Has(s, h) then Input(h, name, buffer, s)
    else
      var m := LoadMeta(s);
      var m' := RecordOrigin(m, h, name, isNest);
      var stored := SetBuffer(SaveMeta(s, m'), h, name, buffer).0;
      assert LoadMeta(stored) == m';
      Input(h, name, buffer, stored)
  }

  /** The first `edit_meta` callback: `file_hash → name` goes to `temp` when nested, else to `keep`. */
  function RecordOrigin(m: Meta, h: Hash, name: FileName, isNest: bool): (m': Meta)
    ensures isNest ==> m' == m.(temp := Records.Set(m.temp, h, name))
    ensures !isNest ==> m' == m.(keep := Records.Set(m.keep, h, name))
    ensures forall d :: Table(m', d) == Table(m, d)
  {
    if isNest then m.(temp := Records.Set(m.temp, h, name)) else m.(keep := Records.Set(m.keep, h, name))
  }

  /**
   * Step 1. A hash reference must be cached (else "not found file with
   * hash …"); its single file's name and content are read and then go
   * through the blob branch like an upload.
   */
  function Resolve(env: Env, s: Store, req: Request): (r: Result<Input, string>)
    ensures req.file.ByReference? ==> (r.Err? <==> !Has(s, req.file.hash))
    ensures req.file.ByReference? && r.Err? ==> r.error == NotFoundMessage(req.file.hash)
    ensures req.file.ByReference? && r.Ok? ==>
      r.value == ResolveBlob(env, s, s.dirs[req.file.hash][0].key, s.dirs[req.file.hash][0].value, req.isNest)
    ensures req.file.ByContent? ==> r.Ok? && r.value == ResolveBlob(env, s, req.file.name, req.file.buffer, req.isNest)
  {
    match req.file
    case ByReference(h) =>
      if !Has(s, h) then Err(NotFoundMessage(h))
      else
        var name := Name(s, h).value.value;
        var buffer := Get(s, h).value;
        Ok(ResolveBlob(env, s, name, buffer, req.isNest))
    case ByContent(name, buffer) =>
      Ok(ResolveBlob(env, s, name, buffer, req.isNest))
  }

  // ---------------------------------------------------------------------
  // Step 4: signtool
  // ---------------------------------------------------------------------

  /** The optional switches: `/sm` for a machine store, then `/as` to append a nested signature. */
  function Switches(isLocalMachine: bool, isNest: bool): (r: seq<string>)
    ensures "/sm" in r <==> isLocalMachine
    ensures "/as" in r <==> isNest
    ensures |r| == (if isLocalMachine then 1 else 0) + (if isNest then 1 else 0)
    ensures isLocalMachine && isNest ==> r == ["/sm", "/as"]
  {
    (if isLocalMachine then ["/sm"] else []) + (if isNest then ["/as"] else [])
  }

  /**
   * The signtool argument list: fixed options, the certificate, the digest
   * algorithm, the optional switches, and the file last.
   */
  function SigntoolArgs(cert: Certificate, m: Method, isNest: bool, file: string): (args: seq<string>)
    ensures |args| == 13 + (if cert.isLocalMachine then 1 else 0) + (if isNest then 1 else 0)
    ensures args[..12] == ["sign", "/debug", "/tr", TimestampUrl, "/td", "sha256",
                           "/sha1", cert.thumbprint, "/s", cert.store, "/fd", MethodName(m)]
    ensures args[|args| - 1] == file
    ensures args[12..|args| - 1] == Switches(cert.isLocalMachine, isNest)
  {
    var fixed := ["sign", "/debug", "/tr", TimestampUrl, "/td", "sha256",
                  "/sha1", cert.thumbprint, "/s", cert.store, "/fd", MethodName(m)];
    var switches := Switches(cert.isLocalMachine, isNest);
    var args := fixed + switches + [file];
    assert args[12..|args| - 1] == switches;
    args
  }

  /** The number of passes of the attempt loop. */
  const Tries: nat := 2

  /**
   * The file after one run: rewritten on success. A failed run is taken to
   * leave the file untouched, even though signtool may have rewritten it
   * before failing.
   */
  function After(run: Run, content: Bytes): Bytes {
    match run
    case Signed(output) => output
    case Failed(_) => content
  }

  /** The attempt loop's result: the file's final content, the error thrown if any, the invocations. */
  datatype Attempts = Attempts(content: Bytes, failure: Option<string>, calls: seq<Call>)

  /**
   * The `for (let i = 0; i < 2; ++i)` loop from pass `i` on. There is no
   * `break`: every pass runs signtool on the current file. A failure in the
   * first pass is swallowed; a failure in the last one is thrown.
   */
  function AttemptsFrom(signtool: Call -> Run, args: seq<string>, content: Bytes, i: nat): (r: Attempts)
    requires i <= Tries
    ensures |r.calls| == Tries - i
    ensures forall k :: 0 <= k < |r.calls| ==> r.calls[k].attempt == i + k && r.calls[k].args == args
    ensures |r.calls| > 0 ==> r.calls[0].content == content
    ensures forall k :: 0 <= k < |r.calls| - 1 ==>
              r.calls[k + 1].content == After(signtool(r.calls[k]), r.calls[k].content)
    ensures |r.calls| == 0 ==> r == Attempts(content, None, [])
    ensures |r.calls| > 0 ==>
              var last := r.calls[|r.calls| - 1];
              && r.content == After(signtool(last), last.content)
              && (r.failure.Some? <==> signtool(last).Failed?)
              && (r.failure.Some? ==> r.failure.value == signtool(last).message)
    decreases Tries - i
  {
    if i == Tries then Attempts(content, None, [])
    else
      var call := Call(i, args, content);
      var run := signtool(call);
      var rest := AttemptsFrom(signtool, args, After(run, content), i + 1);
      if run.Failed? && i != 0 then Attempts(content, Some(run.message), [call])
      else Attempts(rest.content, rest.failure, [call] + rest.calls)
  }

  // ---------------------------------------------------------------------
  // The request
  // ---------------------------------------------------------------------

  /**
   * The `edit_meta` callback after a successful run: `temp[newHash]` is set
   * to the stored path and `meta[method][fileHash]` to `newHash`. Every other
   * entry is unchanged, and the lineage counts `newHash` as signed for the
   * method.
   */
  function RecordSigned(meta: Meta, m: Method, fileHash: Hash, newHash: Hash, stored: string): (meta': Meta)
    ensures Records.Get(meta'.temp, newHash) == Some(stored)
    ensures Records.Get(Table(meta', m), fileHash) == Some(newHash)
    ensures forall h :: h != newHash ==> Records.Get(meta'.temp, h) == Records.Get(meta.temp, h)
    ensures forall h :: h != fileHash ==> Records.Get(Table(meta', m), h) == Records.Get(Table(meta, m), h)
    ensures meta'.keep == meta.keep
    ensures Table(meta', m.Other()) == Table(meta, m.Other())
    ensures WellFormed(meta) ==> WellFormed(meta')
    ensures IsSigned(meta', newHash, m)
  {
    var m1 := meta.(temp := Records.Set(meta.temp, newHash, stored));
    var m2 := WithTable(m1, m, Records.Set(Table(m1, m), fileHash, newHash));
    assert IsOutput(m2, newHash, m) by {
      assert Records.Entry(fileHash, newHash) in Table(m2, m);
    }
    m2
  }

  /**
   * Steps 4 and 5: copy the input to `scratch/name`, run the attempt loop,
   * then move the signed file into the cache under its own hash and record
   * `temp[new hash] = stored path` and `meta[method][input hash] = new hash`.
   * The response streams the stored file.
   */
  function SignFresh(env: Env, input: Input, files: Files, req: Request, scratch: string, renameFails: bool)
    : (o: Outcome)
  {
    var tmpfile := Path(scratch, input.name);
    var args := SigntoolArgs(env.cert, req.digest, req.isNest, PathText(tmpfile));
    var attempts := AttemptsFrom(env.signtool, args, input.buffer, 0);
    var files' := files[tmpfile := attempts.content];
    if attempts.failure.Some? then
      Outcome(Rejected(attempts.failure.value), State(input.store, files'), attempts.calls)
    else
      var newHash := env.md5(attempts.content);
      var moved := SetFile(input.store, files', newHash, tmpfile, renameFails).value;
      var m := RecordSigned(LoadMeta(moved.0), req.digest, input.hash, newHash, moved.2);
      Outcome(Sent(attempts.content), State(SaveMeta(moved.0, m), moved.1), attempts.calls)
  }

  /**
   * `sign({file, hash, isNest})`, one request against the disk state `st`.
   * `scratch` is the random scratch directory and `renameFails` tells
   * whether moving the signed file into the cache needs the copy fallback.
   */
  function Sign(env: Env, st: State, req: Request, scratch: string, renameFails: bool): (o: Outcome)
  {
    match Resolve(env, st.store, req)
    case Err(message) => Outcome(Rejected(message), st, [])
    case Ok(input) =>
      var meta := LoadMeta(input.store);
      var previous := Records.Get(Table(meta, req.digest), input.hash);
      if previous.Some? && Has(input.store, previous.value) then
        Outcome(Sent(Get(input.store, previous.value).value), st.(store := input.store), [])
      else if IsSigned(meta, input.hash, req.digest) then
        Outcome(Sent(input.buffer), st.(store := input.store), [])
      else
        SignFresh(env, input, st.files, req, scratch, renameFails)
  }

  // ---------------------------------------------------------------------
  // Properties of a request
  // ---------------------------------------------------------------------

  /** The cache already holds a signed output, for method `m`, of the resolved input. */
  predicate HasCachedOutput(input: Input, m: Method) {
    var previous := Records.Get(Table(LoadMeta(input.store), m), input.hash);
    previous.Some? && Has(input.store, previous.value)
  }

  /** A reference to a hash that is not cached is refused; nothing changes and signtool never runs. */
  lemma UnknownHashRejected(env: Env, st: State, req: Request, scratch: string, renameFails: bool)
    requires req.file.ByReference? && !Has(st.store, req.file.hash)
    ensures Sign(env, st, req, scratch, renameFails) == Outcome(Rejected(NotFoundMessage(req.file.hash)), st, [])
  {
  }

  /**
   * When every cached file sits under the hash of its own content, resolving
   * a reference finds the same hash and changes nothing.
   */
  lemma ContentAddressedReference(env: Env, s: Store, req: Request)
    requires req.file.ByReference? && Has(s, req.file.hash)
    requires env.md5(Get(s, req.file.hash).value) == req.file.hash
    ensures Resolve(env, s, req).Ok?
    ensures Resolve(env, s, req).value.hash == req.file.hash
    ensures Resolve(env, s, req).value.store == s
  {
  }

  /**
   * The signing path runs signtool twice on the scratch copy with the same
   * arguments, the second run seeing what the first one left; it fails
   * exactly when the second run fails, and otherwise sends what that run wrote.
   */
  lemma SignFreshRunsTwice(env: Env, input: Input, files: Files, req: Request, scratch: string, renameFails: bool)
    ensures var o := SignFresh(env, input, files, req, scratch, renameFails);
      var args := SigntoolArgs(env.cert, req.digest, req.isNest, PathText(Path(scratch, input.name)));
      var first := Call(0, args, input.buffer);
      var second := Call(1, args, After(env.signtool(first), input.buffer));
      && o.calls == [first, second]
      && (o.reply.Rejected? <==> env.signtool(second).Failed?)
      && (o.reply.Rejected? ==> o.reply.message == env.signtool(second).message)
      && (o.reply.Sent? ==> o.reply.bytes == env.signtool(second).output)
  {
    var args := SigntoolArgs(env.cert, req.digest, req.isNest, PathText(Path(scratch, input.name)));
    var a := AttemptsFrom(env.signtool, args, input.buffer, 0);
    assert |a.calls| == 2;
  }

  /**
   * Signtool runs exactly when the input resolves, no signed output of it is
   * cached and the lineage does not count it as signed already; it then runs
   * twice as `SignFreshRunsTwice` says.
   */
  lemma SigntoolRunsTwiceOrNever(env: Env, st: State, req: Request, scratch: string, renameFails: bool)
    ensures var o := Sign(env, st, req, scratch, renameFails);
      var r := Resolve(env, st.store, req);
      o.calls != [] <==>
        r.Ok? && !HasCachedOutput(r.value, req.digest) && !IsSigned(LoadMeta(r.value.store), r.value.hash, req.digest)
    ensures var o := Sign(env, st, req, scratch, renameFails);
      o.calls != [] ==>
        var input := Resolve(env, st.store, req).value;
        var args := SigntoolArgs(env.cert, req.digest, req.isNest, PathText(Path(scratch, input.name)));
        var first := Call(0, args, input.buffer);
        var second := Call(1, args, After(env.signtool(first), input.buffer));
        && o.calls == [first, second]
        && (o.reply.Rejected? <==> env.signtool(second).Failed?)
        && (o.reply.Rejected? ==> o.reply.message == env.signtool(second).message)
        && (o.reply.Sent? ==> o.reply.bytes == env.signtool(second).output)
  {
    var r := Resolve(env, st.store, req);
    if r.Ok? && !HasCachedOutput(r.value, req.digest) && !IsSigned(LoadMeta(r.value.store), r.value.hash, req.digest) {
      assert Sign(env, st, req, scratch, renameFails) == SignFresh(env, r.value, st.files, req, scratch, renameFails);
      SignFreshRunsTwice(env, r.value, st.files, req, scratch, renameFails);
    }
  }

  /** A cached signed output of the input is served as is, and signtool never runs. */
  lemma CachedOutputServed(env: Env, st: State, req: Request, scratch: string, renameFails: bool)
    requires Resolve(env, st.store, req).Ok?
    requires HasCachedOutput(Resolve(env, st.store, req).value, req.digest)
    ensures var input := Resolve(env, st.store, req).value;
      var previous := Records.Get(Table(LoadMeta(input.store), req.digest), input.hash).value;
      Sign(env, st, req, scratch, renameFails)
        == Outcome(Sent(Get(input.store, previous).value), st.(store := input.store), [])
  {
  }

  /**
   * A file the lineage counts as signed for the method, with no cached
   * output, is sent back unchanged and signtool never runs.
   */
  lemma AlreadySignedReturnedAsIs(env: Env, st: State, req: Request, scratch: string, renameFails: bool)
    requires Resolve(env, st.store, req).Ok?
    requires !HasCachedOutput(Resolve(env, st.store, req).value, req.digest)
    requires IsSigned(LoadMeta(Resolve(env, st.store, req).value.store), Resolve(env, st.store, req).value.hash, req.digest)
    ensures var input := Resolve(env, st.store, req).value;
      Sign(env, st, req, scratch, renameFails) == Outcome(Sent(input.buffer), st.(store := input.store), [])
  {
  }

  /** A request on which signtool ran went down the signing path. */
  lemma SigningPath(env: Env, st: State, req: Request, scratch: string, renameFails: bool)
    requires Sign(env, st, req, scratch, renameFails).calls != []
    ensures Resolve(env, st.store, req).Ok?
    ensures Sign(env, st, req, scratch, renameFails)
      == SignFresh(env, Resolve(env, st.store, req).value, st.files, req, scratch, renameFails)
  {
  }

  /**
   * The cache after a successful signing of `input` that replied `o`: the
   * output is stored under the hash of its content and the name of the
   * input, exactly the bytes sent back; every other directory is as before;
   * the scratch copy is gone.
   */
  ghost predicate StoresOutput(env: Env, input: Input, scratch: string, o: Outcome)
    requires o.reply.Sent?
  {
    var out := env.md5(o.reply.bytes);
    && out in o.state.store.dirs
    && Records.Get(o.state.store.dirs[out], input.name) == Some(o.reply.bytes)
    && (forall h :: h != out ==> (h in o.state.store.dirs <==> h in input.store.dirs))
    && (forall h :: h != out && h in input.store.dirs && h in o.state.store.dirs ==>
          o.state.store.dirs[h] == input.store.dirs[h])
    && Path(scratch, input.name) !in o.state.files
  }

  /**
   * The meta document after a successful signing of `input` with method `m`
   * that replied `o`: the input's document with the output recorded by
   * `RecordSigned` under the output's stored path.
   */
  ghost predicate RecordsOutput(env: Env, input: Input, m: Method, o: Outcome)
    requires o.reply.Sent?
  {
    var out := env.md5(o.reply.bytes);
    LoadMeta(o.state.store)
      == RecordSigned(LoadMeta(input.store), m, input.hash, out, StoredPath(input.store.root, out, input.name))
  }

  /** The state after a successful run of the attempt loop, built step by step. */
  lemma SignFreshSteps(env: Env, input: Input, files: Files, req: Request, scratch: string, renameFails: bool)
    requires SignFresh(env, input, files, req, scratch, renameFails).reply.Sent?
    ensures var o := SignFresh(env, input, files, req, scratch, renameFails);
      var tmpfile := Path(scratch, input.name);
      var files' := files[tmpfile := o.reply.bytes];
      var out := env.md5(o.reply.bytes);
      var moved := SetFile(input.store, files', out, tmpfile, renameFails).value;
      && moved.0.metaFile == input.store.metaFile
      && moved.2 == StoredPath(input.store.root, out, input.name)
      && o.state == State(SaveMeta(moved.0, RecordSigned(LoadMeta(moved.0), req.digest, input.hash, out, moved.2)), moved.1)
  {
  }

  /** A successful signing stores its output as `StoresOutput` says. */
  lemma SignFreshStores(env: Env, input: Input, files: Files, req: Request, scratch: string, renameFails: bool)
    requires SignFresh(env, input, files, req, scratch, renameFails).reply.Sent?
    ensures StoresOutput(env, input, scratch, SignFresh(env, input, files, req, scratch, renameFails))
  {
    var o := SignFresh(env, input, files, req, scratch, renameFails);
    var tmpfile := Path(scratch, input.name);
    var files' := files[tmpfile := o.reply.bytes];
    var out := env.md5(o.reply.bytes);
    SignFreshSteps(env, input, files, req, scratch, renameFails);
    SetFileMoves(input.store, files', out, tmpfile, renameFails);
  }

  /** A successful signing records its output as `RecordsOutput` says. */
  lemma SignFreshRecords(env: Env, input: Input, files: Files, req: Request, scratch: string, renameFails: bool)
    requires SignFresh(env, input, files, req, scratch, renameFails).reply.Sent?
    ensures RecordsOutput(env, input, req.digest, SignFresh(env, input, files, req, scratch, renameFails))
  {
    SignFreshSteps(env, input, files, req, scratch, renameFails);
  }

  /**
   * A whole `sign` request that ran signtool and succeeded stores and
   * records its output as `StoresOutput` and `RecordsOutput` say.
   */
  lemma SigningRecordsOutput(env: Env, st: State, req: Request, scratch: string, renameFails: bool)
    requires Sign(env, st, req, scratch, renameFails).calls != []
    requires Sign(env, st, req, scratch, renameFails).reply.Sent?
    ensures Resolve(env, st.store, req).Ok?
    ensures var input := Resolve(env, st.store, req).value;
      var o := Sign(env, st, req, scratch, renameFails);
      && StoresOutput(env, input, scratch, o)
      && RecordsOutput(env, input, req.digest, o)
  {
    SigningPath(env, st, req, scratch, renameFails);
    SignFreshStores(env, Resolve(env, st.store, req).value, st.files, req, scratch, renameFails);
    SignFreshRecords(env, Resolve(env, st.store, req).value, st.files, req, scratch, renameFails);
  }

  /** A failed signing run leaves the cache as it was, and the scratch copy behind. */
  lemma SignFreshFailure(env: Env, input: Input, files: Files, req: Request, scratch: string, renameFails: bool)
    requires SignFresh(env, input, files, req, scratch, renameFails).reply.Rejected?
    ensures var o := SignFresh(env, input, files, req, scratch, renameFails);
      && o.state.store == input.store
      && o.state.files.Keys == files.Keys + {Path(scratch, input.name)}
      && (forall p :: p in files && p != Path(scratch, input.name) ==> o.state.files[p] == files[p])
  {
  }

  /** A failed signing leaves the cache as resolving left it, and the scratch copy behind. */
  lemma FailedSigningKeepsCache(env: Env, st: State, req: Request, scratch: string, renameFails: bool)
    requires Sign(env, st, req, scratch, renameFails).calls != []
    requires Sign(env, st, req, scratch, renameFails).reply.Rejected?
    ensures Resolve(env, st.store, req).Ok?
    ensures var o := Sign(env, st, req, scratch, renameFails);
      var input := Resolve(env, st.store, req).value;
      && o.state.store == input.store
      && o.state.files.Keys == st.files.Keys + {Path(scratch, input.name)}
      && (forall p :: p in st.files && p != Path(scratch, input.name) ==> o.state.files[p] == st.files[p])
  {
    SigningPath(env, st, req, scratch, renameFails);
    SignFreshFailure(env, Resolve(env, st.store, req).value, st.files, req, scratch, renameFails);
  }

  /**
   * Uploading the same blob again after it was signed, with its output
   * cached alone in its directory, serves the same bytes from the cache
   * without running signtool.
   */
  lemma RepeatedUploadServedFromCache(env: Env, st: State, req: Request, scratch: string, renameFails: bool,
                                      scratch': string, renameFails': bool)
    requires req.file.ByContent?
    requires Sign(env, st, req, scratch, renameFails).calls != []
    requires Sign(env, st, req, scratch, renameFails).reply.Sent?
    requires var o := Sign(env, st, req, scratch, renameFails);
      Has(o.state.store, env.md5(o.reply.bytes))
    ensures var o := Sign(env, st, req, scratch, renameFails);
      var o' := Sign(env, o.state, req, scratch', renameFails');
      o'.reply == o.reply && o'.calls == []
  {
    var o := Sign(env, st, req, scratch, renameFails);
    SigningRecordsOutput(env, st, req, scratch, renameFails);
    var input := Resolve(env, st.store, req).value;
    var out := env.md5(o.reply.bytes);
    var input' := Resolve(env, o.state.store, req).value;
    assert input'.hash == input.hash;
    assert Records.Get(Table(LoadMeta(o.state.store), req.digest), input.hash) == Some(out);
    assert Table(LoadMeta(input'.store), req.digest) == Table(LoadMeta(o.state.store), req.digest);
    assert input'.store.dirs[out] == o.state.store.dirs[out];
    assert HasCachedOutput(input', req.digest);
    CachedOutputServed(env, o.state, req, scratch', renameFails');
    var dir := o.state.store.dirs[out];
    assert Records.Entry(input.name, o.reply.bytes) in dir;
  }
}
