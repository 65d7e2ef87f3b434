# NUI entry: integrity hash and serialisation

A model of the entry type of the Normalized URL Index (NUI) of the Public Web
Index Cooperative. An `NUIEntry` is one canonical record of the index: a URL,
the naive datetime of its last crawl, the source domain, the country code,
three optional strings (state or province code, SimHash signature, canonical
URL hash) and a list of keywords. When it is built, the entry seals itself
with an integrity hash: the lower-case hex SHA-256 digest of the UTF-8 bytes
of six core strings joined with `|`. The URL, the ISO-8601 crawl date, the
source domain and the country code are always hashed. The state/province code
and the SimHash signature are hashed as `""` when they are absent or empty.
The canonical URL hash and the keywords are never hashed. `to_dict` turns an
entry into a nine-key dictionary. It carries the optional fields raw (absent
stays `null`) and the stored hash as it is.

The Python code is pure (a constructor, a hash computation, a serialiser), so
the model is made of datatypes, functions and lemmas. Each building block is
its own module:

- `Utf8` (utf8.dfy): UTF-8 encoding as in section 3 of RFC 3629. It comes
  with a decoder, so the encoding is proved to be a round trip and injective.
- `Hex` (hex.dfy): `hexdigest`, i.e. two lower-case hex digits per byte. A
  parser inverts it.
- `DateTimes` (datetimes.dfy): proleptic Gregorian naive datetimes with
  years 1..9999, and `isoformat`. Its output is `YYYY-MM-DDTHH:MM:SS`, with
  `.ffffff` only when the microsecond is not zero. A canonical parser inverts
  it.
- `Text` (text.dfy): `str.join` with a one-character separator, and the
  split that inverts it on parts without the separator.
- `Protocol` (protocol.dfy): the entry, the core data, the integrity hash,
  the constructor, and what the hash does and does not protect.
- `Serialisation` (serialisation.dfy): `to_dict`, and a model-side
  `FromDict` that accepts exactly the dictionaries of sealed entries.
- `Demo` (demo.dfy): the example at the bottom of protocol.py, an NSF
  research paper and its copy with a tampered source domain.

SHA-256 is not written out. Every member that hashes takes the digest
function as a parameter `sha256: seq<byte> -> Digest` (32 bytes). The
properties are therefore proved for every such function. Whatever depends on
collision resistance is stated as "equal hashes iff a collision of
`sha256`".

The constructor keeps the caller's keyword list (`self.keywords =
keywords`). It does not copy it. For values the two are the same, and
entries here are values (see "Left out").

## Model

| member | source | states |
|---|---|---|
| Protocol.OrEmpty | protocol.py:75-76 | an optional core field becomes `""` exactly when it is absent or empty (falsy), and otherwise its own string |
| Protocol.CoreData | protocol.py:70-77 | the core data has exactly six strings |
| Protocol.CalculateIntegrityHash | protocol.py:65-79 | the integrity hash is 64 characters long, each a lower-case hex digit |
| Protocol.NewEntry | protocol.py:25-63 | every field is stored as given; absent keywords become the empty list; the stored hash is the hash of the entry's own core data (the entry is sealed) |
| Protocol.HashDependsOnlyOnCore | protocol.py:70-79 | two entries with the same core data have the same integrity hash, whatever their other fields |
| Protocol.NonCoreFieldsNotHashed | protocol.py:58-59 | changing the canonical URL hash or the keywords leaves the integrity hash unchanged |
| Protocol.PreImageLayout | protocol.py:70-78 | the hashed string is url, ISO date, domain, country, state, simhash in that order, separated by five pipe characters, and its length is their total plus 5 |
| Protocol.FalsyOptionalsCollapse | protocol.py:75-76 | optional core fields that agree once `None` and `""` are collapsed (either field absent against empty, the other anything shared) give the same pre-image and the same hash |
| Protocol.SingleFieldChange | protocol.py:70-78 | two entries that differ in one core field (after the falsy collapse) have different pre-images and different UTF-8 bytes, and equal ones otherwise |
| Protocol.TamperNeedsCollision | protocol.py:65-79 | if sealed entries differ in one core field, their hashed bytes differ, and their hashes are equal exactly when `sha256` collides on those bytes |
| Protocol.IsoFormatPipeFree | protocol.py:72 | an ISO-8601 date never contains the pipe character |
| Protocol.PreImageInjectiveWhenPipeFree | protocol.py:70-78 | when no core string contains the pipe character, equal pre-images hold exactly when the core data is equal |
| Protocol.PipeCollision | protocol.py:78 | without escaping, core fields "x, pipe, y" then "z" and "x" then "y, pipe, z" give the same pre-image and the same hash |
| Serialisation.KeysComplete | protocol.py:83-93 | the nine keys are all in the key set, and distinct keys have distinct wire names |
| Serialisation.OptionalValue | protocol.py:88-90 | an optional field is serialised as its string when present and as null when absent, so empty and absent stay apart |
| Serialisation.ToDict | protocol.py:81-93 | the dictionary has exactly the nine keys; `url`, `source_domain` and `country_code` hold the entry's strings; `crawl_date` is the same ISO string that is hashed; `integrity_hash` is the stored hash, not recomputed |
| Serialisation.SerialisedDateIsHashedDate | protocol.py:72-85 | the serialised `crawl_date` is the second core string and can be read back out of the hashed string |
| Serialisation.OptionalsSerialisedRaw | protocol.py:88-91 | the three optional fields and the keywords are serialised raw, without the falsy collapse of the hash |
| Serialisation.AbsentAndEmptySplitOnlyInSerialisation | protocol.py:75-90 | entries whose state code and SimHash agree once `None` and `""` are collapsed share a hash, and their dictionaries are equal exactly when the raw fields are equal |
| Serialisation.Rebuild | protocol.py:81-93 | inverse direction of `to_dict`: rebuilding an entry from a well-shaped dictionary and recomputing its hash gives a sealed entry |
| Serialisation.RebuildAgrees | protocol.py:81-93 | inverse direction of `to_dict`: each field of the rebuilt entry serialises back to the dictionary's value under its key |
| Serialisation.FromDict | protocol.py:81-93 | inverse direction of `to_dict`: a dictionary is accepted only when its stored hash matches the recomputed one, so every accepted entry is sealed |
| Serialisation.FromDictSound | protocol.py:81-93 | an accepted dictionary is exactly the `to_dict` of the entry it yields |
| Serialisation.FromDictToDict | protocol.py:81-93 | `to_dict` of a sealed entry is accepted and gives the entry back |
| Serialisation.FromDictExact | protocol.py:81-93 | a dictionary yields entry e exactly when e is sealed and the dictionary is `to_dict(e)` |
| Utf8.EncodeChar | protocol.py:78 | a character is encoded in 1 to 4 bytes with the lead-byte ranges of RFC 3629 section 4 and continuation bytes after the lead |
| Utf8.Encode | protocol.py:78 | the encoding is at least as long as the string and empty only for the empty string |
| Utf8.DecodeEncode | protocol.py:78 | decoding the UTF-8 encoding gives the string back |
| Utf8.EncodeInjective | protocol.py:78 | two strings have the same UTF-8 bytes exactly when they are equal |
| Utf8.EncodeAscii | protocol.py:78 | an ASCII string is encoded one byte per character, as its code points |
| Hex.NibbleValue | protocol.py:79 | a character has a nibble value exactly when it is a lower-case hex digit, and that digit is the value's |
| Hex.HexDigest | protocol.py:79 | `hexdigest` is twice as long as the digest and contains only lower-case hex digits |
| Hex.ParseHexDigest | protocol.py:79 | parsing the hex digest gives the digest bytes back |
| Hex.HexDigestInjective | protocol.py:79 | two digests have the same hex form exactly when they are equal |
| DateTimes.DaysInMonth | protocol.py:28 | a month has 28 to 31 days, and February has 29 exactly in leap years |
| DateTimes.PadDecimal | protocol.py:72 | a zero-padded field has the requested width and contains only digits |
| DateTimes.ParsePadDecimal | protocol.py:72 | a zero-padded field reads back as its number when the number fits the width |
| DateTimes.IsoFormat | protocol.py:72 | `isoformat` is 19 characters long, or 26 with a microsecond; `-`, `T` and `:` are at their fixed positions, and `.` at 19 when a microsecond is present |
| DateTimes.ParseIso | protocol.py:72 | any datetime the parser accepts formats back to the parsed string |
| DateTimes.IsoRoundTrip | protocol.py:72 | parsing `isoformat(d)` gives `d` back |
| DateTimes.IsoFormatInjective | protocol.py:72 | two datetimes have the same ISO string exactly when they are equal |
| Text.Split | protocol.py:78 | splitting yields at least one part |
| Text.JoinLength | protocol.py:78 | a join is the total length of the parts plus one per separator |
| Text.SplitJoin | protocol.py:78 | splitting a join on its separator gives the parts back when no part contains the separator |
| Text.JoinDiffersAtOne | protocol.py:78 | joins of equally many separator-free parts that differ in exactly one place are different |
| Text.JoinShiftSeparator | protocol.py:78 | moving a separator from one part to its neighbour leaves the join unchanged |
| Demo.ExampleConstruction | protocol.py:98-127 | the two constructor calls of the example build the example entry and the tampered entry |
| Demo.ExampleIsoDate | protocol.py:100 | `datetime(2025, 11, 13, 10, 0, 0)` formats as `2025-11-13T10:00:00` |
| Demo.ExamplePreImage | protocol.py:98-106 | the example's hashed string is the URL, date, `nsf.gov`, `US`, `VA` and the SimHash signature joined with the pipe character |
| Demo.TamperedDiffers | protocol.py:115-129 | the `fake.gov` rebuild hashes different bytes, so the two hashes match only on a SHA-256 collision |
| Demo.ExampleDict | protocol.py:110 | the serialised example carries the ISO date, a null canonical URL hash and its keywords; the rebuilt tampered object would serialise with an empty keyword list |
| Demo.TamperedDictRejected | protocol.py:115-117 | the example's dictionary with `source_domain` set to `fake.gov` keeps the keywords and the original hash, and re-verifying it succeeds exactly when SHA-256 collides on the two hashed byte strings |

## Left out

- SHA-256 itself is a parameter of type `seq<byte> -> Digest`. Its compression function is not modelled. Collision resistance cannot be proved, so it is not assumed either: every tamper-evidence result is stated relative to a collision of that function.
- The constructor's `UnicodeEncodeError` for lone surrogates cannot occur here. Dafny's `char` is a Unicode scalar value, so every string encodes.
- Protocol.NewEntry: no runtime type checks. The model's types exclude arguments that are not strings or datetimes (a `None` URL would make Python's `join` raise `TypeError`).
- Timezone-aware datetimes (an offset suffix in `isoformat`), the `fold` attribute and `datetime` subclasses are not modelled. Only naive datetimes are.
- Entries are values. Python lets callers reassign attributes after construction without recomputing the hash, and the stored keyword list is the caller's own list object. Aliasing and in-place mutation are not modelled. `Sealed` says whether a given entry's stored hash matches its core data.
- Serialisation.ToDict: the dictionary is a map over a `Key` datatype whose `Name()` gives the wire strings. Python's insertion order of dictionary keys is not modelled. Neither are the JSON, CSV and RDF formats built from the dictionary.
- The `__main__` block's printing and its `json.dumps` call are not modelled. The example's values, and the dictionary edited at protocol.py:116-117, are stated as lemmas in `Demo`.
- The concrete hex strings the example prints depend on SHA-256 and are not derived.
- `FromDict` and `ParseIso` are model-side inverses, so the round trips can be stated. They accept only the canonical forms that `to_dict` and `isoformat` produce, not everything Python's `fromisoformat` or a JSON reader would accept.
