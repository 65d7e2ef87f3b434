/**
 * `NUIEntry.to_dict()`: the nine-key mapping handed to JSON, CSV or RDF
 * writers, and its inverse, which rebuilds an entry and re-derives its
 * fingerprint to check it.
 */
module Serialisation {
  import opened Wrappers
  import opened DateTimes
  import opened Text
  import opened Protocol

  /** A value of the serialised mapping: a string, `None`, or a list of strings. */
  datatype Value = Str(s: string) | Null | StrList(items: seq<string>)

  /** The nine keys of the serialised mapping; `Name` is how each is spelt there. */
  datatype Key =
    | UrlKey | CrawlDateKey | SourceDomainKey | CountryCodeKey | StateProvinceCodeKey
    | SimhashSigKey | CanonicalUrlHashKey | KeywordsKey | IntegrityHashKey
  {
    function Name(): string {
      match this
      case UrlKey => "url"
      case CrawlDateKey => "crawl_date"
      case SourceDomainKey => "source_domain"
      case CountryCodeKey => "country_code"
      case StateProvinceCodeKey => "state_province_code"
      case SimhashSigKey => "simhash_sig"
      case CanonicalUrlHashKey => "canonical_url_hash"
      case KeywordsKey => "keywords"
      case IntegrityHashKey => "integrity_hash"
    }
  }

  const AllKeys: set<Key> := {UrlKey, CrawlDateKey, SourceDomainKey, CountryCodeKey,
                              StateProvinceCodeKey, SimhashSigKey, CanonicalUrlHashKey,
                              KeywordsKey, IntegrityHashKey}

  /** Every key is among the nine, and their spellings are pairwise distinct. */
  lemma KeysComplete(j: Key, k: Key)
    ensures k in AllKeys
    ensures j.Name() == k.Name() <==> j == k
  {
    if j != k {
      assert |j.Name()| != |k.Name()|;
    }
  }

  /** An optional field as it is serialised: `None` stays `None`. */
  function OptionalValue(o: Option<string>): (v: Value)
    ensures v.Null? <==> o.None?
    ensures o.Some? ==> v == Str(o.value)
  {
    match o
    case None => Null
    case Some(s) => Str(s)
  }

  /** The value `to_dict()` stores under one key. */
  function FieldValue(e: NUIEntry, k: Key): Value
  {
    match k
    case UrlKey => Str(e.url)
    case CrawlDateKey => Str(IsoFormat(e.crawlDate))
    case SourceDomainKey => Str(e.sourceDomain)
    case CountryCodeKey => Str(e.countryCode)
    case StateProvinceCodeKey => OptionalValue(e.stateProvinceCode)
    case SimhashSigKey => OptionalValue(e.simhashSig)
    case CanonicalUrlHashKey => OptionalValue(e.canonicalUrlHash)
    case KeywordsKey => StrList(e.keywords)
    case IntegrityHashKey => Str(e.integrityHash)
  }

  /** `to_dict()`: all nine keys, the date in ISO form, optionals passed through raw. */
  function ToDict(e: NUIEntry): (d: map<Key, Value>)
    ensures d.Keys == AllKeys
    ensures d[UrlKey] == Str(e.url)
    ensures d[CrawlDateKey] == Str(CoreData(e)[1])
    ensures d[SourceDomainKey] == Str(e.sourceDomain)
    ensures d[CountryCodeKey] == Str(e.countryCode)
    ensures d[IntegrityHashKey] == Str(e.integrityHash)
  {
    map k | k in AllKeys :: FieldValue(e, k)
  }

  /** Reads back an optional field; a list is not an optional string. */
  function OptionalField(v: Value): (r: Option<Option<string>>)
    ensures r.Some? <==> !v.StrList?
    ensures r.Some? ==> OptionalValue(r.value) == v
  {
    match v
    case Null => Some(None)
    case Str(s) => Some(Some(s))
    case StrList(_) => None
  }

  /** The mapping has the nine keys, each holding a value of its field's kind. */
  predicate WellShaped(d: map<Key, Value>) {
    && d.Keys == AllKeys
    && d[UrlKey].Str? && d[CrawlDateKey].Str? && d[SourceDomainKey].Str?
    && d[CountryCodeKey].Str? && d[KeywordsKey].StrList? && d[IntegrityHashKey].Str?
    && ParseIso(d[CrawlDateKey].s).Some?
    && !d[StateProvinceCodeKey].StrList?
    && !d[SimhashSigKey].StrList?
    && !d[CanonicalUrlHashKey].StrList?
  }

  /** Constructs an entry anew from the fields of a well-shaped mapping. */
  function Rebuild(d: map<Key, Value>, sha256: Sha256): (e: NUIEntry)
    requires WellShaped(d)
    ensures Sealed(e, sha256)
  {
    NewEntry(d[UrlKey].s, ParseIso(d[CrawlDateKey].s).value, d[SourceDomainKey].s,
             d[CountryCodeKey].s, OptionalField(d[StateProvinceCodeKey]).value,
             OptionalField(d[SimhashSigKey]).value,
             OptionalField(d[CanonicalUrlHashKey]).value,
             Some(d[KeywordsKey].items), sha256)
  }

  /** The rebuilt entry serialises every field but the hash as the mapping holds it. */
  lemma RebuildAgrees(d: map<Key, Value>, sha256: Sha256, k: Key)
    requires WellShaped(d) && k in AllKeys && k != IntegrityHashKey
    ensures FieldValue(Rebuild(d, sha256), k) == d[k]
  {
    match k
    case CrawlDateKey =>
      assert IsoFormat(ParseIso(d[CrawlDateKey].s).value) == d[CrawlDateKey].s;
    case _ =>
  }

  /**
   * Rebuilds an entry from a serialised mapping and accepts it only when the
   * fingerprint recomputed from its core fields equals the one it carries.
   */
  function FromDict(d: map<Key, Value>, sha256: Sha256): (r: Option<NUIEntry>)
    ensures r.Some? ==> Sealed(r.value, sha256)
  {
    if !WellShaped(d) then None
    else
      var e := Rebuild(d, sha256);
      if e.integrityHash == d[IntegrityHashKey].s then Some(e) else None
  }

  /** An accepted mapping is exactly the serialisation of the entry it yields. */
  lemma FromDictSound(d: map<Key, Value>, sha256: Sha256)
    requires FromDict(d, sha256).Some?
    ensures ToDict(FromDict(d, sha256).value) == d
  {
    var e := FromDict(d, sha256).value;
    forall k | k in AllKeys
      ensures ToDict(e)[k] == d[k]
    {
      if k != IntegrityHashKey {
        RebuildAgrees(d, sha256, k);
      }
    }
  }

  /** A constructed entry survives serialisation and re-verification unchanged. */
  lemma FromDictToDict(e: NUIEntry, sha256: Sha256)
    requires Sealed(e, sha256)
    ensures FromDict(ToDict(e), sha256) == Some(e)
  {
    IsoRoundTrip(e.crawlDate);
    var d := ToDict(e);
    assert d[UrlKey] == Str(e.url);
    assert d[SourceDomainKey] == Str(e.sourceDomain);
    assert d[CountryCodeKey] == Str(e.countryCode);
    assert OptionalField(d[StateProvinceCodeKey]) == Some(e.stateProvinceCode);
    assert OptionalField(d[SimhashSigKey]) == Some(e.simhashSig);
    assert OptionalField(d[CanonicalUrlHashKey]) == Some(e.canonicalUrlHash);
    assert d[KeywordsKey] == StrList(e.keywords);
    var r := Rebuild(d, sha256);
    HashDependsOnlyOnCore(r, e, sha256);
    assert r == e;
  }

  /** The mappings `FromDict` accepts are precisely the serialisations of sealed entries. */
  lemma FromDictExact(d: map<Key, Value>, e: NUIEntry, sha256: Sha256)
    ensures FromDict(d, sha256) == Some(e) <==> Sealed(e, sha256) && ToDict(e) == d
  {
    if FromDict(d, sha256) == Some(e) {
      FromDictSound(d, sha256);
    }
    if Sealed(e, sha256) && ToDict(e) == d {
      FromDictToDict(e, sha256);
    }
  }

  /**
   * The serialised date is character for character the date inside the
   * pre-image, right after the URL and its separator.
   */
  lemma SerialisedDateIsHashedDate(e: NUIEntry)
    ensures ToDict(e)[CrawlDateKey] == Str(IsoFormat(e.crawlDate))
    ensures |PreImage(e)| > |e.url| + |IsoFormat(e.crawlDate)|
    ensures var iso := ToDict(e)[CrawlDateKey].s;
            PreImage(e)[|e.url| + 1 .. |e.url| + 1 + |iso|] == iso
  {
    JoinSecond(CoreData(e), Separator);
  }

  /**
   * The optional fields are serialised raw, `None` as `None`, and the keyword
   * list as it was stored.
   */
  lemma OptionalsSerialisedRaw(e: NUIEntry)
    ensures ToDict(e)[StateProvinceCodeKey] == OptionalValue(e.stateProvinceCode)
    ensures ToDict(e)[SimhashSigKey] == OptionalValue(e.simhashSig)
    ensures ToDict(e)[CanonicalUrlHashKey] == OptionalValue(e.canonicalUrlHash)
    ensures ToDict(e)[KeywordsKey] == StrList(e.keywords)
  {
  }

  /**
   * Hashing turns a falsy optional into `""`, serialising keeps it as it is:
   * entries whose optional core fields agree once collapsed (`None` against
   * `""`) share their fingerprint, and `to_dict()` tells them apart unless
   * the raw fields are equal.
   */
  lemma AbsentAndEmptySplitOnlyInSerialisation(url: string, crawlDate: NaiveDateTime,
                                               sourceDomain: string, countryCode: string,
                                               spc1: Option<string>, sim1: Option<string>,
                                               spc2: Option<string>, sim2: Option<string>,
                                               canonicalUrlHash: Option<string>,
                                               keywords: Option<seq<string>>, sha256: Sha256)
    requires OrEmpty(spc1) == OrEmpty(spc2) && OrEmpty(sim1) == OrEmpty(sim2)
    ensures var a := NewEntry(url, crawlDate, sourceDomain, countryCode, spc1, sim1, canonicalUrlHash, keywords, sha256);
            var b := NewEntry(url, crawlDate, sourceDomain, countryCode, spc2, sim2, canonicalUrlHash, keywords, sha256);
            && a.integrityHash == b.integrityHash
            && (ToDict(a) == ToDict(b) <==> spc1 == spc2 && sim1 == sim2)
  {
    FalsyOptionalsCollapse(url, crawlDate, sourceDomain, countryCode, spc1, sim1, spc2, sim2,
                           canonicalUrlHash, keywords, sha256);
    var a := NewEntry(url, crawlDate, sourceDomain, countryCode, spc1, sim1, canonicalUrlHash, keywords, sha256);
    var b := NewEntry(url, crawlDate, sourceDomain, countryCode, spc2, sim2, canonicalUrlHash, keywords, sha256);
    OptionalsSerialisedRaw(a);
    OptionalsSerialisedRaw(b);
  }
}
