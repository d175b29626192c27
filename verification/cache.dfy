/**
 * The content-addressable cache of lib/cache.js: a root directory holding
 * one sub-directory per content hash (each meant to hold exactly one file)
 * and the `meta.json` document with the four lineage maps.
 */
module Cache {
  import opened Wrappers
  import opened Buffers
  import Records

  /** An md5 hex digest naming one cache directory; digests are never empty. */
  type Hash = s: string | s != "" witness "0"

  /** The base name of a file; never empty. */
  type FileName = s: string | s != "" witness "f"

  /**
   * The entries of one directory, in the order they were created. The file
   * system lists them by name instead; the two agree on a directory with a
   * single entry, the only kind `sign` reads.
   */
  type Directory = Records.Record<FileName, Bytes>

  /**
   * The `meta.json` document: `keep` and `temp` record where a stored file
   * came from, `sha1` and `sha256` map an input hash to the hash of its
   * signed output.
   */
  datatype Meta = Meta(
    keep: Records.Record<Hash, string>,
    temp: Records.Record<Hash, string>,
    sha1: Records.Record<Hash, Hash>,
    sha256: Records.Record<Hash, Hash>)

  /** What loading yields when `meta.json` is missing or cannot be parsed. */
  const EmptyMeta := Meta([], [], [], [])

  /** Every object in the document has unique keys, as JSON.stringify writes them. */
  predicate WellFormed(m: Meta) {
    && Records.UniqueKeys(m.keep)
    && Records.UniqueKeys(m.temp)
    && Records.UniqueKeys(m.sha1)
    && Records.UniqueKeys(m.sha256)
  }

  /**
   * The cache on disk. `metaFile` is the parsed content of `meta.json`, or
   * nothing when the file is missing or does not parse.
   */
  datatype Store = Store(root: string, dirs: map<Hash, Directory>, metaFile: Option<Meta>)

  /** A file outside the cache (the scratch copy handed to signtool). */
  datatype Path = Path(dir: string, base: FileName)

  /** Files outside the cache, by path. */
  type Files = map<Path, Bytes>

  /** Errors the file system raises. */
  datatype FsError = NoSuchFile(path: Path) | NoSuchDirectory(hash: Hash)

  /** The path separator of `path.join` on Windows, where signtool runs. */
  const Sep: char := '\\'

  /** `path.join(cache_dir, hash, name)`: where a cached file lives. */
  function StoredPath(root: string, h: Hash, name: FileName): string {
    root + [Sep] + h + [Sep] + name
  }

  /** The listing of the directory for `h` once `mkdirSync(dir, {recursive: true})` has run. */
  function DirOf(s: Store, h: Hash): Directory {
    if h in s.dirs then s.dirs[h] else []
  }

  /** `cache_has(hash)`: the directory exists and holds exactly one entry. */
  predicate Has(s: Store, h: Hash) {
    h in s.dirs && |s.dirs[h]| == 1
  }

  /**
   * `cache_get(hash)`: the content of the first entry of the directory;
   * nothing, never an error, when the directory is missing or empty.
   */
  function Get(s: Store, h: Hash): (r: Option<Bytes>)
    ensures r.None? <==> h !in s.dirs || s.dirs[h] == []
    ensures r.Some? ==> s.dirs[h][0].value == r.value
  {
    if h in s.dirs && |s.dirs[h]| > 0 then Some(s.dirs[h][0].value) else None
  }

  /**
   * `cache_name(hash)`: the name of the first entry; throws when the
   * directory is missing, nothing when it is empty.
   */
  function Name(s: Store, h: Hash): (r: Result<Option<FileName>, FsError>)
    ensures r.Err? <==> h !in s.dirs
    ensures r == Ok(None) <==> h in s.dirs && s.dirs[h] == []
    ensures r.Ok? && r.value.Some? ==> s.dirs[h][0].key == r.value.value
  {
    if h !in s.dirs then Err(NoSuchDirectory(h))
    else if |s.dirs[h]| == 0 then Ok(None)
    else Ok(Some(s.dirs[h][0].key))
  }

  /**
   * `cache_set(hash, {name, buffer})`: creates the directory if needed and
   * writes `buffer` to `name` inside it, returning the stored path. Nothing
   * else in the cache changes, and no existing entry is removed.
   */
  function SetBuffer(s: Store, h: Hash, name: FileName, buffer: Bytes): (r: (Store, string))
    ensures r.1 == StoredPath(s.root, h, name)
    ensures r.0.root == s.root && r.0.metaFile == s.metaFile
    ensures h in r.0.dirs && Records.Get(r.0.dirs[h], name) == Some(buffer)
    ensures forall n :: n != name ==> Records.Get(r.0.dirs[h], n) == Records.Get(DirOf(s, h), n)
    ensures Records.Keys(r.0.dirs[h]) == Records.Keys(DirOf(s, h)) + {name}
    ensures forall h' :: h' != h ==> (h' in r.0.dirs <==> h' in s.dirs)
    ensures forall h' :: h' != h && h' in s.dirs ==> r.0.dirs[h'] == s.dirs[h']
  {
    var dir := Records.Set(DirOf(s, h), name, buffer);
    (s.(dirs := s.dirs[h := dir]), StoredPath(s.root, h, name))
  }

  /** `fs.renameSync(src, dst)`: one atomic move. */
  function Rename(s: Store, files: Files, h: Hash, src: Path): (Store, Files)
    requires src in files
  {
    (s.(dirs := s.dirs[h := Records.Set(DirOf(s, h), src.base, files[src])]), files - {src})
  }

  /** `copyFile(src, dst)` followed by `rmSync(src)`: the cross-volume fallback. */
  function CopyThenRemove(s: Store, files: Files, h: Hash, src: Path): (Store, Files)
    requires src in files
  {
    var copied := SetBuffer(s, h, src.base, files[src]).0;
    (copied, files - {src})
  }

  /**
   * `cache_set(hash, path)`: moves the file at `path` into the directory for
   * `hash` under its base name, by renaming it or, when renaming fails
   * (`renameFails`), by copying then deleting it. Fails when there is no file
   * at `path`; the source has by then already created the hash's directory
   * (lib/cache.js:64), which stays behind empty, while the model leaves the
   * store as it was. `has` answers false for that hash either way.
   */
  function SetFile(s: Store, files: Files, h: Hash, src: Path, renameFails: bool)
    : (r: Result<(Store, Files, string), FsError>)
    ensures r.Err? <==> src !in files
    ensures r.Ok? ==> r.value.2 == StoredPath(s.root, h, src.base)
  {
    if src !in files then Err(NoSuchFile(src))
    else
      var (s', files') := if renameFails then CopyThenRemove(s, files, h, src) else Rename(s, files, h, src);
      Ok((s', files', StoredPath(s.root, h, src.base)))
  }

  /**
   * Whichever branch `cache_set(hash, path)` takes, the file ends up at
   * `dir/basename(path)` with its content, the source no longer exists, and
   * nothing else changes.
   */
  lemma SetFileMoves(s: Store, files: Files, h: Hash, src: Path, renameFails: bool)
    requires src in files
    ensures var r := SetFile(s, files, h, src, renameFails);
      && r.Ok?
      && r == SetFile(s, files, h, src, !renameFails)
      && Records.Get(r.value.0.dirs[h], src.base) == Some(files[src])
      && src !in r.value.1
      && (forall p :: p != src ==> (p in r.value.1 <==> p in files))
      && r.value.0 == SetBuffer(s, h, src.base, files[src]).0
  {
  }

  /**
   * `cache_meta()`: the saved document, or the empty one when `meta.json` is
   * missing or unparsable.
   */
  function LoadMeta(s: Store): (m: Meta)
    ensures s.metaFile.None? ==> m == EmptyMeta
  {
    s.metaFile.GetOr(EmptyMeta)
  }

  /** `cache_meta(m)`: replaces the whole document. */
  function SaveMeta(s: Store, m: Meta): (s': Store)
    ensures LoadMeta(s') == m
    ensures s'.dirs == s.dirs && s'.root == s.root
  {
    s.(metaFile := Some(m))
  }

  /**
   * `cache_clear()`: deletes the directory of every hash listed in `temp`,
   * empties `temp`, `sha1` and `sha256`, and keeps `keep`.
   */
  function Clear(s: Store): (s': Store)
    ensures var m := LoadMeta(s);
      && s'.dirs.Keys == s.dirs.Keys - Records.Keys(m.temp)
      && (forall h :: h in s'.dirs ==> s'.dirs[h] == s.dirs[h])
      && LoadMeta(s') == Meta(m.keep, [], [], [])
  {
    var m := LoadMeta(s);
    var removed := Records.Keys(m.temp);
    var dirs := map h | h in s.dirs && h !in removed :: s.dirs[h];
    SaveMeta(s.(dirs := dirs), m.(temp := [], sha1 := [], sha256 := []))
  }

  /**
   * On an empty slot, storing a blob makes the hash cached: `has` holds and
   * `get` and `name` give back exactly what was stored.
   */
  lemma SetOnEmptySlot(s: Store, h: Hash, name: FileName, buffer: Bytes)
    requires h !in s.dirs || s.dirs[h] == []
    ensures var s' := SetBuffer(s, h, name, buffer).0;
      Has(s', h) && Get(s', h) == Some(buffer) && Name(s', h) == Ok(Some(name))
  {
    assert DirOf(s, h) == [];
  }

  /**
   * `cache_set` never removes an entry, so storing a second name under a
   * cached hash leaves two entries and `has` becomes false.
   */
  lemma SecondNameBreaksHas(s: Store, h: Hash, name: FileName, buffer: Bytes)
    requires Has(s, h) && s.dirs[h][0].key != name
    ensures !Has(SetBuffer(s, h, name, buffer).0, h)
  {
    var old_name := s.dirs[h][0].key;
    var dir' := SetBuffer(s, h, name, buffer).0.dirs[h];
    assert old_name in Records.Keys(DirOf(s, h));
    assert {old_name, name} <= Records.Keys(dir');
  }

  /** Saving then loading the document gives back what was saved. */
  lemma SaveThenLoad(s: Store, m: Meta)
    ensures LoadMeta(SaveMeta(s, m)) == m
    ensures LoadMeta(SaveMeta(s, LoadMeta(s))) == LoadMeta(s)
  {
  }
}
