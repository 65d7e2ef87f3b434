/**
 * The Normalized URL Index entry (`NUIEntry`): one crawled web resource,
 * sealed at construction by a SHA-256 fingerprint over its six core fields,
 * and its serialisation to a nine-key mapping.
 *
 * The SHA-256 primitive is a parameter of the construction: a total function
 * from byte strings to 32-byte digests. Everything proved here holds for every
 * such function; that distinct inputs give distinct digests is a cryptographic
 * assumption and is never used.
 */
module Protocol {
  import opened Wrappers
  import opened Bytes
  import opened Utf8
  import opened DateTimes
  import opened Text
  import opened Hex

  const DigestSize: nat := 32

  type Digest = d: seq<byte> | |d| == DigestSize witness seq(32, _ => 0 as byte)

  /** `hashlib.sha256(data).digest()`, supplied by the host. */
  type Sha256 = seq<byte> -> Digest

  /** The separator between core fields in the fingerprint pre-image. */
  const Separator: char := '|'

  datatype NUIEntry = NUIEntry(
    url: string,
    crawlDate: NaiveDateTime,
    sourceDomain: string,
    countryCode: string,
    stateProvinceCode: Option<string>,
    simhashSig: Option<string>,
    canonicalUrlHash: Option<string>,
    keywords: seq<string>,
    integrityHash: string)

  /** Python truthiness of an `Optional[str]`: present and non-empty. */
  predicate Truthy(o: Option<string>) {
    o.Some? && o.value != ""
  }

  /** `o if o else ""`: the value of a truthy field, the empty string otherwise. */
  function OrEmpty(o: Option<string>): (s: string)
    ensures s == "" <==> !Truthy(o)
    ensures o.Some? ==> s == o.value
  {
    if Truthy(o) then o.value else ""
  }

  /** The six core strings, in the fixed order the fingerprint uses. */
  function CoreData(e: NUIEntry): (core: seq<string>)
    ensures |core| == 6
  {
    [ e.url,
      IsoFormat(e.crawlDate),
      e.sourceDomain,
      e.countryCode,
      OrEmpty(e.stateProvinceCode),
      OrEmpty(e.simhashSig) ]
  }

  /** The string that is encoded and hashed: the core strings joined by `|`. */
  function PreImage(e: NUIEntry): string
  {
    Join(CoreData(e), Separator)
  }

  /** `_calculate_integrity_hash`: SHA-256 of the UTF-8 pre-image, as lower-case hex. */
  function CalculateIntegrityHash(e: NUIEntry, sha256: Sha256): (h: string)
    ensures |h| == 2 * DigestSize
    ensures forall i :: 0 <= i < |h| ==> IsLowerHexDigit(h[i])
  {
    HexDigest(sha256(Encode(PreImage(e))))
  }

  /** The stored fingerprint is the one the entry's own core fields give. */
  predicate Sealed(e: NUIEntry, sha256: Sha256) {
    e.integrityHash == CalculateIntegrityHash(e, sha256)
  }

  /**
   * `NUIEntry(...)`: every field stored as given, no validation; a missing
   * keyword list becomes the empty list; the fingerprint is computed last,
   * from the stored fields.
   */
  function NewEntry(url: string, crawlDate: NaiveDateTime, sourceDomain: string, countryCode: string,
                    stateProvinceCode: Option<string>, simhashSig: Option<string>,
                    canonicalUrlHash: Option<string>, keywords: Option<seq<string>>,
                    sha256: Sha256): (e: NUIEntry)
    ensures e.url == url && e.crawlDate == crawlDate
    ensures e.sourceDomain == sourceDomain && e.countryCode == countryCode
    ensures e.stateProvinceCode == stateProvinceCode && e.simhashSig == simhashSig
    ensures e.canonicalUrlHash == canonicalUrlHash
    ensures e.keywords == if keywords.Some? then keywords.value else []
    ensures Sealed(e, sha256)
    ensures |e.integrityHash| == 64
  {
    var unsealed := NUIEntry(url, crawlDate, sourceDomain, countryCode,
                             stateProvinceCode, simhashSig, canonicalUrlHash,
                             if keywords.Some? then keywords.value else [], "");
    unsealed.(integrityHash := CalculateIntegrityHash(unsealed, sha256))
  }

  // ---------------------------------------------------------------------
  // Which fields the fingerprint covers

  /** The six fields named by the core data agree (optional ones after `or ""`). */
  predicate SameCore(a: NUIEntry, b: NUIEntry) {
    && a.url == b.url
    && a.crawlDate == b.crawlDate
    && a.sourceDomain == b.sourceDomain
    && a.countryCode == b.countryCode
    && OrEmpty(a.stateProvinceCode) == OrEmpty(b.stateProvinceCode)
    && OrEmpty(a.simhashSig) == OrEmpty(b.simhashSig)
  }

  /** Agreeing on the core fields is agreeing on the six core strings. */
  lemma SameCoreIsSameCoreData(a: NUIEntry, b: NUIEntry)
    ensures SameCore(a, b) <==> CoreData(a) == CoreData(b)
  {
    IsoFormatInjective(a.crawlDate, b.crawlDate);
    if CoreData(a) == CoreData(b) {
      assert CoreData(a)[1] == CoreData(b)[1];
    }
  }

  /** Entries agreeing on the core fields have the same pre-image and fingerprint. */
  lemma HashDependsOnlyOnCore(a: NUIEntry, b: NUIEntry, sha256: Sha256)
    requires SameCore(a, b)
    ensures PreImage(a) == PreImage(b)
    ensures CalculateIntegrityHash(a, sha256) == CalculateIntegrityHash(b, sha256)
  {
    SameCoreIsSameCoreData(a, b);
  }

  /** The canonical URL hash and the keywords are outside the fingerprint. */
  lemma NonCoreFieldsNotHashed(url: string, crawlDate: NaiveDateTime, sourceDomain: string,
                               countryCode: string, spc: Option<string>, sim: Option<string>,
                               canon1: Option<string>, keywords1: Option<seq<string>>,
                               canon2: Option<string>, keywords2: Option<seq<string>>,
                               sha256: Sha256)
    ensures NewEntry(url, crawlDate, sourceDomain, countryCode, spc, sim, canon1, keywords1, sha256).integrityHash
         == NewEntry(url, crawlDate, sourceDomain, countryCode, spc, sim, canon2, keywords2, sha256).integrityHash
  {
    var a := NewEntry(url, crawlDate, sourceDomain, countryCode, spc, sim, canon1, keywords1, sha256);
    var b := NewEntry(url, crawlDate, sourceDomain, countryCode, spc, sim, canon2, keywords2, sha256);
    HashDependsOnlyOnCore(a, b, sha256);
  }

  /** The pre-image spelled out: six fields in fixed order, five separators, no escaping. */
  lemma PreImageLayout(e: NUIEntry)
    ensures PreImage(e) == e.url + "|" + IsoFormat(e.crawlDate) + "|" + e.sourceDomain + "|"
                           + e.countryCode + "|" + OrEmpty(e.stateProvinceCode) + "|"
                           + OrEmpty(e.simhashSig)
    ensures |PreImage(e)| == |e.url| + |IsoFormat(e.crawlDate)| + |e.sourceDomain| + |e.countryCode|
                             + |OrEmpty(e.stateProvinceCode)| + |OrEmpty(e.simhashSig)| + 5
  {
    var c := CoreData(e);
    assert Join(c[..1], Separator) == c[0] by { assert c[..1] == [c[0]]; }
    JoinPrefix(c, 1);
    JoinPrefix(c, 2);
    JoinPrefix(c, 3);
    JoinPrefix(c, 4);
    JoinPrefix(c, 5);
    assert c[..6] == c;
  }

  /** One more core string joined onto a prefix of the core data. */
  lemma JoinPrefix(c: seq<string>, k: nat)
    requires 1 <= k < |c|
    ensures Join(c[..k + 1], Separator) == Join(c[..k], Separator) + [Separator] + c[k]
  {
    assert c[..k + 1] == c[..k] + [c[k]];
    JoinSnoc(c[..k], c[k], Separator);
  }

  /**
   * Optional core fields that agree after the falsy collapse (`None` against
   * `""` in either field, the other field anything shared) give the same
   * fingerprint.
   */
  lemma FalsyOptionalsCollapse(url: string, crawlDate: NaiveDateTime, sourceDomain: string,
                               countryCode: string, spc1: Option<string>, sim1: Option<string>,
                               spc2: Option<string>, sim2: Option<string>,
                               canonicalUrlHash: Option<string>, keywords: Option<seq<string>>,
                               sha256: Sha256)
    requires OrEmpty(spc1) == OrEmpty(spc2) && OrEmpty(sim1) == OrEmpty(sim2)
    ensures var a := NewEntry(url, crawlDate, sourceDomain, countryCode, spc1, sim1, canonicalUrlHash, keywords, sha256);
            var b := NewEntry(url, crawlDate, sourceDomain, countryCode, spc2, sim2, canonicalUrlHash, keywords, sha256);
            PreImage(a) == PreImage(b) && a.integrityHash == b.integrityHash
  {
    var a := NewEntry(url, crawlDate, sourceDomain, countryCode, spc1, sim1, canonicalUrlHash, keywords, sha256);
    var b := NewEntry(url, crawlDate, sourceDomain, countryCode, spc2, sim2, canonicalUrlHash, keywords, sha256);
    HashDependsOnlyOnCore(a, b, sha256);
  }

  // ---------------------------------------------------------------------
  // Tamper sensitivity

  /** The six core fields, in pre-image order. */
  datatype CoreField = Url | CrawlDate | SourceDomain | CountryCode | StateProvinceCode | SimhashSig
  {
    /** The field's position in the core data. */
    function Position(): (k: nat)
      ensures k < 6
    {
      match this
      case Url => 0
      case CrawlDate => 1
      case SourceDomain => 2
      case CountryCode => 3
      case StateProvinceCode => 4
      case SimhashSig => 5
    }
  }

  function FieldAt(k: nat): (f: CoreField)
    requires k < 6
    ensures f.Position() == k
  {
    [Url, CrawlDate, SourceDomain, CountryCode, StateProvinceCode, SimhashSig][k]
  }

  /** Two entries carry the same value in one core field (optional ones after `or ""`). */
  predicate FieldAgrees(a: NUIEntry, b: NUIEntry, f: CoreField) {
    match f
    case Url => a.url == b.url
    case CrawlDate => a.crawlDate == b.crawlDate
    case SourceDomain => a.sourceDomain == b.sourceDomain
    case CountryCode => a.countryCode == b.countryCode
    case StateProvinceCode => OrEmpty(a.stateProvinceCode) == OrEmpty(b.stateProvinceCode)
    case SimhashSig => OrEmpty(a.simhashSig) == OrEmpty(b.simhashSig)
  }

  /** Every core field other than `f` agrees. */
  predicate AgreeExcept(a: NUIEntry, b: NUIEntry, f: CoreField) {
    forall g: CoreField :: g != f ==> FieldAgrees(a, b, g)
  }

  /** A field agrees exactly when its string in the core data does. */
  lemma FieldAgreesAtPosition(a: NUIEntry, b: NUIEntry, f: CoreField)
    ensures FieldAgrees(a, b, f) <==> CoreData(a)[f.Position()] == CoreData(b)[f.Position()]
  {
    if f == CrawlDate {
      IsoFormatInjective(a.crawlDate, b.crawlDate);
    }
  }

  /**
   * With every other core field equal, the pre-image (and its UTF-8 bytes, the
   * input to SHA-256) changes exactly when the one field changes.
   */
  lemma SingleFieldChange(a: NUIEntry, b: NUIEntry, f: CoreField)
    requires AgreeExcept(a, b, f)
    ensures PreImage(a) == PreImage(b) <==> FieldAgrees(a, b, f)
    ensures Encode(PreImage(a)) == Encode(PreImage(b)) <==> FieldAgrees(a, b, f)
  {
    var k := f.Position();
    forall i | 0 <= i < 6 && i != k
      ensures CoreData(a)[i] == CoreData(b)[i]
    {
      FieldAgreesAtPosition(a, b, FieldAt(i));
    }
    FieldAgreesAtPosition(a, b, f);
    if FieldAgrees(a, b, f) {
      assert CoreData(a) == CoreData(b);
    } else {
      JoinDiffersAtOne(CoreData(a), CoreData(b), Separator, k);
    }
    EncodeInjective(PreImage(a), PreImage(b));
  }

  /**
   * An entry rebuilt with one core field changed keeps the old fingerprint only
   * if SHA-256 maps two different byte strings to one digest.
   */
  lemma TamperNeedsCollision(a: NUIEntry, b: NUIEntry, f: CoreField, sha256: Sha256)
    requires Sealed(a, sha256) && Sealed(b, sha256)
    requires AgreeExcept(a, b, f) && !FieldAgrees(a, b, f)
    ensures Encode(PreImage(a)) != Encode(PreImage(b))
    ensures a.integrityHash == b.integrityHash
            <==> sha256(Encode(PreImage(a))) == sha256(Encode(PreImage(b)))
  {
    SingleFieldChange(a, b, f);
    HexDigestInjective(sha256(Encode(PreImage(a))), sha256(Encode(PreImage(b))));
  }

  /** No core string holds the separator (the ISO date never does). */
  predicate PipeFree(e: NUIEntry) {
    && Separator !in e.url
    && Separator !in e.sourceDomain
    && Separator !in e.countryCode
    && Separator !in OrEmpty(e.stateProvinceCode)
    && Separator !in OrEmpty(e.simhashSig)
  }

  /** The ISO date never holds the separator. */
  lemma IsoFormatPipeFree(d: NaiveDateTime)
    ensures Separator !in IsoFormat(d)
  {
    var s := IsoFormat(d);
    forall i | 0 <= i < |s| ensures s[i] != Separator {
      assert IsIsoChar(s[i]);
    }
  }

  /** Without `|` in the fields, the pre-image determines the core fields. */
  lemma PreImageInjectiveWhenPipeFree(a: NUIEntry, b: NUIEntry)
    requires PipeFree(a) && PipeFree(b)
    ensures PreImage(a) == PreImage(b) <==> SameCore(a, b)
  {
    IsoFormatPipeFree(a.crawlDate);
    IsoFormatPipeFree(b.crawlDate);
    SplitJoin(CoreData(a), Separator);
    SplitJoin(CoreData(b), Separator);
    SameCoreIsSameCoreData(a, b);
  }

  /**
   * Separators are not escaped: moving a `|` from the source domain into the
   * country code changes two core fields and leaves the pre-image, and so the
   * hash, as it was.
   */
  lemma PipeCollision(e: NUIEntry, sha256: Sha256)
    ensures var a := e.(sourceDomain := "x|y", countryCode := "z");
            var b := e.(sourceDomain := "x", countryCode := "y|z");
            && !SameCore(a, b) && PreImage(a) == PreImage(b)
            && CalculateIntegrityHash(a, sha256) == CalculateIntegrityHash(b, sha256)
  {
    var a := e.(sourceDomain := "x|y", countryCode := "z");
    var b := e.(sourceDomain := "x", countryCode := "y|z");
    var ca, cb := CoreData(a), CoreData(b);
    assert ca[..2] == cb[..2] && ca[4..] == cb[4..];
    JoinShiftSeparator(ca, cb, Separator, 2);
  }
}
