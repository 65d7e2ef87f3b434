/**
 * The example at the bottom of protocol.py, as concrete vectors: an entry for
 * an NSF research paper, and the same entry rebuilt with its source domain
 * replaced by `fake.gov`.
 */
module Demo {
  import opened Wrappers
  import opened Utf8
  import opened DateTimes
  import opened Protocol
  import opened Serialisation

  const CrawlDate: NaiveDateTime := DateTime(2025, 11, 13, 10, 0, 0, 0)

  const Url: string := "https://www.nsf.gov/research_paper_123.pdf"

  const Keywords: seq<string> := ["computational-science", "grant-funding", "resilience"]

  /** The fields the example passes to the constructor. */
  predicate IsExample(e: NUIEntry) {
    && e.url == Url && e.crawlDate == CrawlDate && e.sourceDomain == "nsf.gov"
    && e.countryCode == "US" && e.stateProvinceCode == Some("VA")
    && e.simhashSig == Some("a3b2c1d0e4f5a6b7") && e.canonicalUrlHash == None
    && e.keywords == Keywords
  }

  /** The tampered object: the example's fields with `fake.gov`, and no keywords. */
  predicate IsTampered(e: NUIEntry) {
    && e.url == Url && e.crawlDate == CrawlDate && e.sourceDomain == "fake.gov"
    && e.countryCode == "US" && e.stateProvinceCode == Some("VA")
    && e.simhashSig == Some("a3b2c1d0e4f5a6b7") && e.canonicalUrlHash == None
    && e.keywords == []
  }

  /** The two constructor calls of the example build entries of those shapes. */
  lemma ExampleConstruction(sha256: Sha256)
    ensures IsExample(NewEntry(Url, CrawlDate, "nsf.gov", "US", Some("VA"), Some("a3b2c1d0e4f5a6b7"),
                               None, Some(Keywords), sha256))
    ensures IsTampered(NewEntry(Url, CrawlDate, "fake.gov", "US", Some("VA"), Some("a3b2c1d0e4f5a6b7"),
                                None, None, sha256))
  {
  }

  /** `datetime(2025, 11, 13, 10, 0, 0).isoformat()`. */
  lemma ExampleIsoDate()
    ensures IsoFormat(CrawlDate) == "2025-11-13T10:00:00"
  {
    assert PadDecimal(2025, 4) == "2025";
    assert PadDecimal(11, 2) == "11" && PadDecimal(13, 2) == "13";
    assert PadDecimal(10, 2) == "10" && PadDecimal(0, 2) == "00";
  }

  /** The pre-image of the example entry, field by field. */
  lemma ExamplePreImage(e: NUIEntry)
    requires IsExample(e)
    ensures PreImage(e)
         == Url + "|" + "2025-11-13T10:00:00" + "|" + "nsf.gov" + "|" + "US" + "|" + "VA" + "|" + "a3b2c1d0e4f5a6b7"
  {
    ExampleIsoDate();
    PreImageLayout(e);
  }

  /** Rebuilding with `fake.gov` changes the hashed bytes; equal hashes would be a SHA-256 collision. */
  lemma TamperedDiffers(a: NUIEntry, b: NUIEntry, sha256: Sha256)
    requires IsExample(a) && IsTampered(b) && Sealed(a, sha256) && Sealed(b, sha256)
    ensures PreImage(a) != PreImage(b)
    ensures Encode(PreImage(a)) != Encode(PreImage(b))
    ensures a.integrityHash == b.integrityHash
            <==> sha256(Encode(PreImage(a))) == sha256(Encode(PreImage(b)))
  {
    assert |a.sourceDomain| != |b.sourceDomain|;
    TamperNeedsCollision(a, b, SourceDomain, sha256);
  }

  /**
   * The serialised example: the ISO date string, no canonical URL hash, the
   * keywords kept; the rebuilt tampered object would serialise with no keywords.
   */
  lemma ExampleDict(a: NUIEntry, b: NUIEntry)
    requires IsExample(a) && IsTampered(b)
    ensures ToDict(a)[CrawlDateKey] == Str("2025-11-13T10:00:00")
    ensures ToDict(a)[CanonicalUrlHashKey] == Null
    ensures ToDict(a)[KeywordsKey] == StrList(Keywords)
    ensures ToDict(b)[KeywordsKey] == StrList([])
  {
    ExampleIsoDate();
    OptionalsSerialisedRaw(a);
    OptionalsSerialisedRaw(b);
  }

  /**
   * The example's dictionary with `source_domain` overwritten by `fake.gov`:
   * it keeps the keywords and the original fingerprint, and re-verifying it
   * succeeds exactly when SHA-256 collides on the two hashed byte strings.
   */
  lemma TamperedDictRejected(a: NUIEntry, b: NUIEntry, sha256: Sha256)
    requires IsExample(a) && IsTampered(b) && Sealed(a, sha256) && Sealed(b, sha256)
    ensures var d := ToDict(a)[SourceDomainKey := Str("fake.gov")];
            && d[KeywordsKey] == StrList(Keywords)
            && d[IntegrityHashKey] == Str(a.integrityHash)
            && (FromDict(d, sha256).Some?
                <==> sha256(Encode(PreImage(a))) == sha256(Encode(PreImage(b))))
  {
    var d := ToDict(a)[SourceDomainKey := Str("fake.gov")];
    IsoRoundTrip(a.crawlDate);
    assert WellShaped(d);
    var r := Rebuild(d, sha256);
    assert SameCore(r, b);
    HashDependsOnlyOnCore(r, b, sha256);
    TamperedDiffers(a, b, sha256);
  }
}
