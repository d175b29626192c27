/**
 * The lineage oracle of lib/make-sign-fn.js: `by_value` and `is_signed`,
 * which decide whether a file is already the signed output of an earlier
 * request, reading the `sha1` and `sha256` maps of the meta document.
 */
module Lineage {
  import opened Wrappers
  import Records
  import opened Cache

  /** The digest algorithm requested in the `hash` form field. */
  datatype Method = Sha1 | Sha256 {

    /** The other method, whose map `is_signed` cross-checks. */
    function Other(): (o: Method)
      ensures o != this
    {
      if Sha1? then Sha256 else Sha1
    }
  }

  /** The method's name: the `hash` field value and signtool's `/fd` argument. */
  function MethodName(m: Method): string {
    match m
    case Sha1 => "sha1"
    case Sha256 => "sha256"
  }

  /** `meta[hash]`: the map from input hash to signed-output hash for one method. */
  function Table(meta: Meta, m: Method): Records.Record<Hash, Hash> {
    match m
    case Sha1 => meta.sha1
    case Sha256 => meta.sha256
  }

  /** The document with the map of method `m` replaced by `t`. */
  function WithTable(meta: Meta, m: Method, t: Records.Record<Hash, Hash>): (meta': Meta)
    ensures Table(meta', m) == t && Table(meta', m.Other()) == Table(meta, m.Other())
    ensures meta'.keep == meta.keep && meta'.temp == meta.temp
  {
    match m
    case Sha1 => meta.(sha1 := t)
    case Sha256 => meta.(sha256 := t)
  }

  /** `h` is the signed output, for method `m`, of some input. */
  predicate IsOutput(meta: Meta, h: Hash, m: Method) {
    h in Records.Values(Table(meta, m))
  }

  /**
   * `is_signed(file_hash, method)`. Look `h` up as a value of the `sha1` map;
   * if some key `K` maps to it, `h` counts as signed for sha1, and for sha256
   * when `K` is itself a value of the `sha256` map. Then the same against the
   * `sha256` map with the roles exchanged.
   */
  function IsSigned(meta: Meta, h: Hash, m: Method): (r: bool)
    ensures IsOutput(meta, h, m) ==> r
    ensures !IsOutput(meta, h, Sha1) && !IsOutput(meta, h, Sha256) ==> !r
  {
    var key1 := Records.ByValue(meta.sha1, h);
    if key1.Some? && (m == Sha1 || Records.ByValue(meta.sha256, key1.value).Some?) then true
    else
      var key2 := Records.ByValue(meta.sha256, h);
      key2.Some? && (m == Sha256 || Records.ByValue(meta.sha1, key2.value).Some?)
  }

  /**
   * The whole decision in one formula: `h` is signed for `m` exactly when it
   * is an `m` output, or when the first input `K` whose other-method output
   * is `h` is itself an `m` output.
   */
  lemma IsSignedClosedForm(meta: Meta, h: Hash, m: Method)
    ensures var k := Records.ByValue(Table(meta, m.Other()), h);
      IsSigned(meta, h, m) <==> IsOutput(meta, h, m) || (k.Some? && IsOutput(meta, k.value, m))
  {
  }

  /**
   * `h` carries a signature by `m` in the lineage: it is an `m` output, or it
   * is the other method's output of a file that is itself an `m` output.
   */
  ghost predicate CarriesSignature(meta: Meta, h: Hash, m: Method) {
    || IsOutput(meta, h, m)
    || exists k: Hash :: Records.Get(Table(meta, m.Other()), k) == Some(h) && IsOutput(meta, k, m)
  }

  /** No two inputs were signed to the same output. */
  predicate OutputsDistinct(meta: Meta) {
    Records.UniqueValues(meta.sha1) && Records.UniqueValues(meta.sha256)
  }

  /**
   * When no output has two inputs, `is_signed` decides exactly whether the
   * file carries a signature by the requested method in the lineage.
   */
  lemma IsSignedMeansCarriesSignature(meta: Meta, h: Hash, m: Method)
    requires WellFormed(meta) && OutputsDistinct(meta)
    ensures IsSigned(meta, h, m) <==> CarriesSignature(meta, h, m)
  {
    IsSignedClosedForm(meta, h, m);
    var other := Table(meta, m.Other());
    assert Records.UniqueKeys(other) && Records.UniqueValues(other);
    var k := Records.ByValue(other, h);
    if k.Some? {
      Records.ByValueInvertsGet(other, k.value, h);
    }
    if CarriesSignature(meta, h, m) && !IsOutput(meta, h, m) {
      var k': Hash :| Records.Get(other, k') == Some(h) && IsOutput(meta, k', m);
      Records.ByValueInvertsGet(other, k', h);
    }
  }

  /**
   * The cross-method case: if `K` was signed with sha1 to `h`, then `h`
   * counts as signed for sha256 exactly when `h` is itself a sha256 output or
   * `K` is a sha256 output; and symmetrically.
   */
  lemma CrossMethod(meta: Meta, k: Hash, h: Hash, m: Method)
    requires WellFormed(meta) && OutputsDistinct(meta)
    requires Records.Get(Table(meta, m.Other()), k) == Some(h)
    ensures IsSigned(meta, h, m) <==> IsOutput(meta, h, m) || IsOutput(meta, k, m)
  {
    IsSignedClosedForm(meta, h, m);
    Records.ByValueInvertsGet(Table(meta, m.Other()), k, h);
  }

  /**
   * Recording a fresh output `v` for `k`: `k` is then the only input whose
   * output is `v`, and a value that was absent before is still absent.
   */
  lemma RecordFreshOutput(r: Records.Record<Hash, Hash>, k: Hash, v: Hash)
    requires v !in Records.Values(r)
    ensures Records.ByValue(Records.Set(r, k, v), v) == Some(k)
    ensures forall w :: w != v && w !in Records.Values(r) ==> w !in Records.Values(Records.Set(r, k, v))
  {
    var r' := Records.Set(r, k, v);
    assert Records.Entry(k, v) in r';
    assert v in Records.Values(r');
    var i :| 0 <= i < |r'| && r'[i] == Records.Entry(Records.ByValue(r', v).value, v);
    assert r'[i] in r';
  }

  /**
   * Dual signing: `h1` is signed with sha1 to a fresh `h2`, then `h2` is
   * signed with sha256 to a fresh `h3`. Afterwards `h3` counts as signed for
   * both methods, `h2` for sha1 only, and the original `h1` for neither.
   */
  lemma DualSignature(meta: Meta, h1: Hash, h2: Hash, h3: Hash)
    requires h1 != h2 && h2 != h3 && h1 != h3
    requires !IsOutput(meta, h1, Sha1) && !IsOutput(meta, h1, Sha256)
    requires !IsOutput(meta, h2, Sha1) && !IsOutput(meta, h2, Sha256)
    requires !IsOutput(meta, h3, Sha1) && !IsOutput(meta, h3, Sha256)
    ensures var m1 := WithTable(meta, Sha1, Records.Set(meta.sha1, h1, h2));
      var m2 := WithTable(m1, Sha256, Records.Set(m1.sha256, h2, h3));
      && IsSigned(m2, h3, Sha1) && IsSigned(m2, h3, Sha256)
      && IsSigned(m2, h2, Sha1) && !IsSigned(m2, h2, Sha256)
      && !IsSigned(m2, h1, Sha1) && !IsSigned(m2, h1, Sha256)
  {
    var sha1 := Records.Set(meta.sha1, h1, h2);
    var sha256 := Records.Set(meta.sha256, h2, h3);
    RecordFreshOutput(meta.sha1, h1, h2);
    RecordFreshOutput(meta.sha256, h2, h3);
    var m2 := Meta(meta.keep, meta.temp, sha1, sha256);
    // h3 is only the sha256 output of h2, and h2 only the sha1 output of h1.
    assert Records.ByValue(sha256, h3) == Some(h2);
    assert Records.ByValue(sha1, h2) == Some(h1);
    assert h1 !in Records.Values(sha1) && h1 !in Records.Values(sha256);
    assert h2 !in Records.Values(sha256) && h3 !in Records.Values(sha1);
    assert IsOutput(m2, h3, Sha256) && IsOutput(m2, h2, Sha1);
    assert !IsOutput(m2, h1, Sha1) && !IsOutput(m2, h1, Sha256);
    assert !IsSigned(m2, h2, Sha256);
  }
}
