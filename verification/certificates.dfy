/**
 * lib/find-certificate.js after the PowerShell call: shaping the parsed
 * `Get-ChildItem Cert:` output into certificate records and filtering them
 * by subject.
 */
module Certificates {
  import opened Wrappers
  import Seqs

  /** One object of the PowerShell output: `Subject`, `PSParentPath`, `Thumbprint`. */
  datatype CertInfo = CertInfo(subject: string, psParentPath: string, thumbprint: string)

  /** `JSON.parse(raw)`: `null`, an array of objects, or a single object. */
  datatype Parsed = Null | Many(items: seq<CertInfo>) | One(item: CertInfo)

  /** A code-signing certificate as the signing function uses it. */
  datatype Certificate = Certificate(thumbprint: string, subject: string, store: string, isLocalMachine: bool)

  /** `toArray(a)`: null becomes `[]`, an array stays, anything else is wrapped. */
  function ToArray(a: Parsed): (r: seq<CertInfo>)
    ensures a.Null? ==> r == []
    ensures a.Many? ==> r == a.items
    ensures a.One? ==> r == [a.item]
  {
    match a
    case Null => []
    case Many(items) => items
    case One(item) => [item]
  }

  /**
   * `parentPath.slice(parentPath.lastIndexOf("\\") + 1)`: what follows the
   * last backslash, or the whole path when there is none.
   */
  function StoreName(parentPath: string): (r: string)
    ensures '\\' !in r
    ensures |r| <= |parentPath| && r == parentPath[|parentPath| - |r|..]
    ensures '\\' !in parentPath ==> r == parentPath
    ensures '\\' in parentPath ==> parentPath[|parentPath| - |r| - 1] == '\\'
  {
    match Seqs.LastIndexOf(parentPath, '\\')
    case None => parentPath
    case Some(i) => parentPath[i + 1..]
  }

  const LocalMachineMarker := "Certificate::LocalMachine"

  /** `parentPath.includes("Certificate::LocalMachine")`. */
  predicate InLocalMachine(parentPath: string) {
    Seqs.Includes(parentPath, LocalMachineMarker)
  }

  /** The record built for one PowerShell object. */
  function Shape(info: CertInfo): (c: Certificate)
    ensures c.thumbprint == info.thumbprint && c.subject == info.subject
    ensures c.store == StoreName(info.psParentPath)
    ensures c.isLocalMachine <==> exists k :: Seqs.OccursAt(info.psParentPath, LocalMachineMarker, k)
  {
    Seqs.IncludesMeansOccurs(info.psParentPath, LocalMachineMarker);
    Certificate(info.thumbprint, info.subject, StoreName(info.psParentPath), InLocalMachine(info.psParentPath))
  }

  /** The loop over `certList`: one record per object, in order. */
  function ShapeAll(infos: seq<CertInfo>): (r: seq<Certificate>)
    ensures |r| == |infos|
    ensures forall i :: 0 <= i < |infos| ==> r[i] == Shape(infos[i])
  {
    if |infos| == 0 then [] else [Shape(infos[0])] + ShapeAll(infos[1..])
  }

  /** The subject filter applies only to a non-empty subject not starting with `//`. */
  predicate FilterApplies(subject: string) {
    subject != "" && !Seqs.StartsWith(subject, "//")
  }

  /** `result.filter((e) => e.subject.includes(subject))`. */
  function FilterBySubject(cs: seq<Certificate>, subject: string): (r: seq<Certificate>)
    ensures |r| <= |cs|
    ensures forall c :: c in r <==> c in cs && Seqs.Includes(c.subject, subject)
    ensures forall c :: multiset(r)[c] == if Seqs.Includes(c.subject, subject) then multiset(cs)[c] else 0
    ensures IsSubsequence(r, cs)
  {
    if |cs| == 0 then []
    else
      var rest := FilterBySubject(cs[1..], subject);
      assert cs == [cs[0]] + cs[1..];
      if Seqs.Includes(cs[0].subject, subject) then [cs[0]] + rest else rest
  }

  /** `a` is `b` with some elements dropped, the rest kept in order. */
  ghost predicate IsSubsequence<T>(a: seq<T>, b: seq<T>)
    decreases |b|
  {
    if |a| == 0 then true
    else if |b| == 0 then false
    else if a[0] == b[0] then IsSubsequence(a[1..], b[1..])
    else IsSubsequence(a, b[1..])
  }

  /**
   * `findCertificate(subject)` given the PowerShell output `raw` and the JSON
   * parser `parse`: no certificates for empty output, otherwise one record
   * per parsed object, filtered by subject when the filter applies; a parse
   * error is the function's error.
   */
  function FindCertificates(raw: string, parse: string -> Result<Parsed, string>, subject: string)
    : (r: Result<seq<Certificate>, string>)
    ensures raw == "" ==> r == Ok([])
    ensures raw != "" && parse(raw).Err? ==> r == Err(parse(raw).error)
    ensures raw != "" && parse(raw).Ok? && !FilterApplies(subject) ==>
              var infos := ToArray(parse(raw).value);
              && r.Ok? && |r.value| == |infos|
              && forall i :: 0 <= i < |infos| ==>
                   && r.value[i].thumbprint == infos[i].thumbprint
                   && r.value[i].subject == infos[i].subject
                   && r.value[i].store == StoreName(infos[i].psParentPath)
                   && (r.value[i].isLocalMachine <==> InLocalMachine(infos[i].psParentPath))
    ensures raw != "" && parse(raw).Ok? && FilterApplies(subject) ==>
              var all := ShapeAll(ToArray(parse(raw).value));
              && r.Ok?
              && (forall c :: c in r.value <==> c in all && Seqs.Includes(c.subject, subject))
              && (forall c :: multiset(r.value)[c] == if Seqs.Includes(c.subject, subject) then multiset(all)[c] else 0)
              && IsSubsequence(r.value, all)
  {
    if raw == "" then Ok([])
    else
      match parse(raw)
      case Err(e) => Err(e)
      case Ok(parsed) =>
        var result := ShapeAll(ToArray(parsed));
        if FilterApplies(subject) then Ok(FilterBySubject(result, subject)) else Ok(result)
  }
}
