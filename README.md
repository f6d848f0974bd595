# Inventory back end: SGTIN-96 products and inventories

The back end keeps four tables in memory: companies, products, inventories and tag sets. A company has a name and an
SGTIN-96 company prefix. A product has a name and an item reference. An inventory row records how many tagged items
of one product were counted in one inventory event. A tag set row lists those tags in their hexadecimal form.

The web layer offers five handlers:

- `CreateProduct` registers a company–product pair, after checking that the prefix and the reference fit together
  in one SGTIN-96 tag. That check is the partition table of the GS1 EPC Tag Data Standard, section 14.5.1.
- `CreateInventory` decodes a batch of tag strings and sorts them into buckets, one per (prefix, reference) pair.
  It stores one inventory row and one tag set per bucket, and reports which tags failed and why.
- Three read-only handlers sum the stored counts by product within one event, by product and day, and by company.

Identifiers are fresh GUIDs printed as 32 lowercase hexadecimal digits. Dates are stored in the fixed UTC form
`yyyyMMddTHH:mm:ssZ`.

The model is organised as follows:

- `Partition` is the partition check, with the shift precedence of the C# code kept as written.
- `Numerals` and `Utilities` hold the GUID printing and the date codec. They carry round-trip proofs: parse after
  format gives the whole-second date back, and format after a successful parse
  gives back its first 17 characters followed by `Z`, hence the string itself when it ends in `Z`.
- `DataLayer` holds the stored records. Each is an immutable row value plus a record class with its `DeepCopy`.
- `Store.CosmosDBService` is a class over the four tables. Its two operations are proved against the pure functions
  `Store.UpsertSpec` and `Store.InsertSpec`. The table invariant (`Store.TablesValid`) is proved to be kept by both.
- `Bucketing` states `CreateProduct` and `CreateInventory` as pure functions of the tables and the request, and
  proves what their replies mean.
- `Grouping` models insertion-ordered dictionaries: first-occurrence key order, the values per key, and the sums
  per key.
- `Controller.InventoryController` holds the five handlers as methods, each proved to compute its specification.

The randomness of `Guid.NewGuid` is a parameter: the store draws its k-th identifier from a function `ids`. The tag
library (`EpcTag.FromBinary`, `ToBinary`, the fields it exposes) and the number parsers are a `Codec` value. Every
property is proved for every choice of these.

## Model

| member | source | states |
|---|---|---|
| Partition.ShiftsAreCodeRows | Backend/Helpers/UtilitiesWeb.cs:10-16 | The shifts `1 << P + 1` evaluate as `1 << (P + 1)`, so the seven rows compare against 2^41/2^5, 2^38/2^8, 2^35/2^11, 2^31/2^15, 2^28/2^18, 2^25/2^21 and 2^21/2^25 |
| Partition.CanRepresentIffSomeRow | Backend/Helpers/UtilitiesWeb.cs:7-18 | A pair is accepted exactly when some row has the prefix strictly below its bound and the reference at or below its bound |
| Partition.StandardPairsAccepted | Backend/Helpers/UtilitiesWeb.cs:7-18 | Every pair that fits a row of the standard's partition table (prefix in P bits, reference in R bits) is accepted |
| Partition.WiderThanStandard | Backend/Helpers/UtilitiesWeb.cs:10 | The partition check accepts a 41-bit prefix that no row of the standard admits |
| Partition.PrefixBoundStrict | Backend/Helpers/UtilitiesWeb.cs:10-17 | No prefix of 2^41 or more is accepted, whatever the reference |
| Partition.ReferenceBoundInclusive | Backend/Helpers/UtilitiesWeb.cs:10-16 | The reference bound is inclusive (2^25 passes and 2^25 + 1 fails with prefix 0), and the largest accepted prefix 2^41 - 1 passes with reference 2^5 |
| Partition.DownwardClosed | Backend/Helpers/UtilitiesWeb.cs:7-18 | Lowering the prefix or the reference never turns an accepted pair into a rejected one |
| Partition.SamplePairAccepted | Backend/Controllers/InventoryController.cs:51-53 | The documented sample pair (3319361, 407205) is accepted by the sixth row and by none before it |
| Utilities.GUIDToString | Common/Helpers/UtilitiesCommon.cs:16-19 | The "N" form of a GUID is 32 hexadecimal digits |
| Utilities.GUIDToStringRoundTrip | Common/Helpers/UtilitiesCommon.cs:16-19 | Reading the 32 digits back as a base-16 numeral gives the GUID, so no information is lost |
| Utilities.GetGUID | Common/Helpers/UtilitiesCommon.cs:11-14 | A new id is 32 hexadecimal digits followed by the suffix |
| Utilities.GetGUIDInjective | Common/Helpers/UtilitiesCommon.cs:11-14 | Two GUIDs printed with the same suffix give the same id only if they are equal |
| Utilities.ConvertDateTimeToUTCString | Common/Helpers/UtilitiesCommon.cs:21-24 | A formatted date has exactly 18 characters |
| Utilities.FormattedPieces | Common/Helpers/UtilitiesCommon.cs:21-24 | The formatted date is four year digits, two month digits and two day digits, then 'T', hour, ':', minute, ':', second and 'Z' |
| Utilities.TryConvertUTCStringToDateTime | Common/Helpers/UtilitiesCommon.cs:26-29 | A string is accepted only if its first 17 characters match the exact pattern and the rest is a UTC designator (`Z` or `GMT` in any letter case), and the date it yields has no sub-second part |
| Utilities.ParseOfFormat | Common/Helpers/UtilitiesCommon.cs:21-29 | Parsing a formatted date succeeds and gives back the date truncated to whole seconds |
| Utilities.FormatOfParse | Common/Helpers/UtilitiesCommon.cs:21-29 | Formatting a successfully parsed string gives back its first 17 characters followed by `Z`, and so the string itself when its designator is `Z` |
| Utilities.FormatOfParseCanonical | Common/Helpers/UtilitiesCommon.cs:21-29 | Formatting a parsed string of the canonical form `yyyyMMddTHH:mm:ssZ` gives back that same string |
| Utilities.DesignatorIrrelevant | Common/Helpers/UtilitiesCommon.cs:26-29 | Two accepted-form strings that differ only in their UTC designator parse to the same result |
| Utilities.DesignatorVariants | Common/Helpers/UtilitiesCommon.cs:26-29 | A formatted date parses back to the same date with `GMT`, `gmt` or `z` in place of `Z`, and is rejected with no designator at all |
| Utilities.AcceptedIffFormatted | Common/Helpers/UtilitiesCommon.cs:21-29 | The parser accepts a string exactly when it ends in a UTC designator and its first 17 characters, followed by `Z`, are the formatted form of some date |
| Utilities.FormattedMatches | Common/Helpers/UtilitiesCommon.cs:21-29 | Every formatted date matches the pattern the parser requires |
| Utilities.DayKeyOfFormatted | Backend/Controllers/InventoryController.cs:293 | The first eight characters of a formatted date are decimal digits spelling its year, month and day |
| Utilities.SameDayKeyIffSameDay | Backend/Controllers/InventoryController.cs:293 | Two formatted dates share their first eight characters exactly when they fall on the same calendar day |
| DataLayer.CompanyDTO.DeepCopy | Common/DataLayer/ContainerDTOs.cs:24-28 | The copy is a new object with the same field values |
| DataLayer.ProductDTO.DeepCopy | Common/DataLayer/ContainerDTOs.cs:43-47 | The copy is a new object with the same field values |
| DataLayer.InventoryDTO.DeepCopy | Common/DataLayer/ContainerDTOs.cs:72-76 | The copy is a new object with the same field values |
| DataLayer.TagsSgtin96DTO.constructor | Common/DataLayer/ContainerDTOs.cs:91 | A new tag-set record owns a new, empty tag list |
| DataLayer.TagsSgtin96DTO.DeepCopy | Common/DataLayer/ContainerDTOs.cs:93-98 | The copy is a new object with a new list holding the same tags in the same order; a null list becomes an empty one |
| DataLayer.CopyThenAdd | Common/DataLayer/ContainerDTOs.cs:93-98 | A copy does not share its tag list: adding a tag to the copy leaves the original record unchanged |
| Store.GuidIdsDiffer | Backend/Services/CosmosDBService.cs:141-146 | Every drawn id has 32 characters, and distinct draws give distinct ids |
| Store.EqualsIgnoreCaseEquivalence | Backend/Services/CosmosDBService.cs:72 | Case-insensitive name equality is reflexive, symmetric and transitive |
| Store.EqualsIgnoreCaseIff | Backend/Services/CosmosDBService.cs:72-82 | Two names compare equal without case exactly when they have the same length and agree at every position up to the case of an ASCII letter; a position with two different non-letters or two different letters makes them unequal |
| Store.CaseDoesNotMatter | Backend/Services/CosmosDBService.cs:72-82 | Two samples: "Acme Corp" equals "ACME corp" without case, "Acme" does not equal "Acne" |
| Store.FirstIndex | Backend/Services/CosmosDBService.cs:75 | `FirstOrDefault`: the index found has the key and no earlier element has it; nothing is found exactly when no element has the key |
| Store.UpsertSpec | Backend/Services/CosmosDBService.cs:66-108 | A failure changes no table and is the partition error or the prefix mismatch. On success the returned company matches the requested name and prefix, the returned product matches the requested name, both are stored, and inventories and tag sets are untouched. An existing first match (by name, ignoring case) is returned and nothing is added to its table; a missing company is appended as the request under the next fresh id (both id fields), a missing product as the request under the next fresh id, owned by the returned company, and `minted` counts exactly those draws |
| Store.UpsertFailsIff | Backend/Services/CosmosDBService.cs:69-79 | The upsert fails exactly when the pair fails the partition check, or when the first company with that name (ignoring case) has a different prefix |
| Store.UpsertKeepsExistingProduct | Backend/Services/CosmosDBService.cs:81-105 | When a product of that name exists and the upsert passes its checks, the existing product row is returned unchanged, whatever its reference or owner, no product is added, and only the new company's id (if any) is drawn |
| Store.UpsertIdempotent | Backend/Services/CosmosDBService.cs:66-108 | After a successful upsert, repeating it with names equal up to case and the same prefix changes nothing and returns the same rows |
| Store.UpsertPreservesValid | Backend/Services/CosmosDBService.cs:91-105 | The upsert keeps the table invariant, including that no two companies and no two products have names equal up to case |
| Store.CompanyNamesAppend | Backend/Services/CosmosDBService.cs:91-97 | Appending a company whose name matches none stored (ignoring case) keeps company names distinct up to case |
| Store.ProductNamesAppend | Backend/Services/CosmosDBService.cs:99-105 | Appending a product whose name matches none stored (ignoring case) keeps product names distinct up to case |
| Store.EventIdPatternExamples | Backend/Services/CosmosDBService.cs:116-117 | The event-id pattern accepts "abcd" and "abcd" followed by a newline (the `$` anchor), and rejects "", "ab-cd" and a lone newline |
| Store.ResolveFirstTag | Backend/Services/CosmosDBService.cs:124-139 | The lookups for the first tag fail only with a parse error, company-not-found or product-not-found. On success the stored company and product carry the parsed prefix and reference |
| Store.InsertSpec | Backend/Services/CosmosDBService.cs:110-179 | A failure adds no row. A success appends exactly one inventory row and one tag set, linked to the same company and product. The row counts all tags (at least one), the tag set lists their hexadecimal forms in order, and the row carries the event id, the location and the formatted date |
| Store.InsertOutcome | Backend/Services/CosmosDBService.cs:116-160 | Each error arises in its case, checked in source order: a bad event id, an empty tag list, an unparsable first tag, an unknown prefix, an unknown reference, and tags for different products |
| Store.InsertUsesFirstMatches | Backend/Services/CosmosDBService.cs:127-139 | The new rows link to the first company with the prefix and the first product with the reference |
| Store.InsertDraws | Backend/Services/CosmosDBService.cs:141-169 | The four GUIDs are drawn in source order: the tag set's inventory id, the row's tags id, the tag set's id, then the row's id |
| Store.InsertCrossLinksMismatch | Backend/Services/CosmosDBService.cs:141-169 | When the draws differ, the tag set's inventory id is not the row's id, and the row's tags id is not the tag set's id |
| Store.InsertPreservesValid | Backend/Services/CosmosDBService.cs:162-176 | The insertion keeps the table invariant |
| Store.InsertSpecPastLookups | Backend/Services/CosmosDBService.cs:141-178 | Once the lookups succeed, mixed tags fail after three draws with no row added. Otherwise exactly the two built rows are appended after four draws |
| Store.CollectTags | Backend/Services/CosmosDBService.cs:152-160 | The loop succeeds exactly when all tags name the first tag's product, and then the list gains their hexadecimal forms in order |
| Store.CosmosDBService.UpsertCompanyRow | Backend/Services/CosmosDBService.cs:91-97 | A missing company is added under a fresh id, and its copy is returned |
| Store.CosmosDBService.UpsertProductRow | Backend/Services/CosmosDBService.cs:99-105 | A missing product is added under a fresh id, owned by the company, and its copy is returned |
| Store.CosmosDBService.UpsertCompanyAndProductTuple | Backend/Services/CosmosDBService.cs:66-108 | The tables become those of `UpsertSpec`. The same error is raised, or fresh copies of the specified rows are returned. The invariant is kept |
| Store.CosmosDBService.DrawTagSet | Backend/Services/CosmosDBService.cs:141-160 | Three ids are drawn. The tag-set record is fresh, and it holds the tags' hexadecimal forms exactly when they all name one product |
| Store.CosmosDBService.AppendTaggedInventory | Backend/Services/CosmosDBService.cs:141-178 | Mixed tags add nothing. Otherwise the two built rows are appended, and fresh records of them are returned |
| Store.CosmosDBService.InsertInventoryWithSGTIN96Tags | Backend/Services/CosmosDBService.cs:110-179 | The tables become those of `InsertSpec`. The same error is raised, or records equal to the two new rows are returned. The invariant is kept |
| Bucketing.CreateProductSpec | Backend/Controllers/InventoryController.cs:64-97 | A bad request happens only for the prefix mismatch, and it changes nothing. A change to the store comes only with a reply that has only `Completed` set. A completed reply means both names were given and a company and product of those names are stored |
| Bucketing.CreateProductCompletedIff | Backend/Controllers/InventoryController.cs:68-92 | `Completed` is set exactly when both names are non-empty, the pair passes the partition check, and the first company of that name does not have a different prefix |
| Bucketing.CreateProductFlags | Backend/Controllers/InventoryController.cs:68-92 | `InvalidCompanyName` is set exactly when the company name is null or empty; `InvalidItemName` exactly when the company name is given and the item name is null or empty; `InvalidPrefixCombination` exactly when both names are given and the pair fails the partition check; every OK reply sets exactly one flag |
| Bucketing.CreateProductPreservesValid | Backend/Controllers/InventoryController.cs:82 | Creating a product keeps the table invariant |
| Bucketing.Decoded | Backend/Controllers/InventoryController.cs:141-164 | The decoded tags are no more than the input strings, and each is filed under the (prefix, reference) its own fields parse to |
| Bucketing.DecodedAppend | Backend/Controllers/InventoryController.cs:141-164 | One more string either appends its decoded tag or joins the failed set |
| Bucketing.DecodedExactly | Backend/Controllers/InventoryController.cs:145-157 | A decoded entry is present exactly when some input string decodes to it |
| Bucketing.DecodedCount | Backend/Controllers/InventoryController.cs:141-164 | When no string fails to decode, every string yields one decoded tag |
| Bucketing.BucketsShape | Backend/Controllers/InventoryController.cs:140-157 | Bucket keys are distinct, no bucket is empty, every tag in a bucket parses to the bucket's key, and the buckets hold all decoded tags |
| Bucketing.InsertBucket | Backend/Controllers/InventoryController.cs:168-191 | One bucket adds at most one row for this event, location and date, and it counts the bucket's tags. A stored bucket adds its size to `SucceededTags` and changes nothing else in the result. A rejected bucket adds exactly its tags' binary forms to the failed set and leaves `SucceededTags` as it was. Flags and failures are only ever added |
| Bucketing.InsertBucketOutcome | Backend/Controllers/InventoryController.cs:168-191 | With the outcome read off the stored companies and products: an exception escapes exactly for a bad event id or a missing or unparsable first tag; a row is added exactly when the bucket is stored; a rejected bucket fails exactly its tags; `OneOrMoreCompanyPrefixNotFound`, `OneOrMoreProductReferenceNotFound` and `OneOrMoreTagsAreInvalid` are raised exactly for an unknown prefix, an unknown reference and mixed product texts |
| Bucketing.InsertBucketNoFault | Backend/Controllers/InventoryController.cs:168-191 | With a valid event id and a parsable non-empty bucket, no exception escapes the bucket loop |
| Bucketing.InsertBucketPreservesValid | Backend/Controllers/InventoryController.cs:170-175 | Inserting one bucket keeps the table invariant |
| Bucketing.InsertBucketsEffect | Backend/Controllers/InventoryController.cs:166-192 | The bucket loop only appends rows for this request, and `SucceededTags` grows by exactly the counts of the rows it stored |
| Bucketing.InsertBucketsPreservesValid | Backend/Controllers/InventoryController.cs:166-192 | The bucket loop keeps the table invariant |
| Bucketing.InsertBucketsAllStored | Backend/Controllers/InventoryController.cs:166-192 | If no tag failed, `SucceededTags` grew by the total number of tags in the buckets |
| Bucketing.SomeBucketEndsStep | Backend/Controllers/InventoryController.cs:166-192 | Some bucket of a list ends in an outcome exactly when some bucket before the last does or the last one does |
| Bucketing.InsertBucketsReport | Backend/Controllers/InventoryController.cs:166-192 | When no bucket lets an exception escape, the loop succeeds, `SucceededTags` grows by exactly the sizes of the stored buckets, the failed set grows by exactly the binary forms of the buckets not stored, and each of the three flags is raised exactly when some bucket ends in its outcome |
| Bucketing.InsertBucketsNoFault | Backend/Controllers/InventoryController.cs:166-192 | With a valid event id and buckets of parsable tags, the loop never ends in an uncaught exception |
| Bucketing.CreateInventorySpec | Backend/Controllers/InventoryController.cs:118-209 | A reply rejecting the event id, the date or an empty tag list changes nothing, counts no tag and is not completed |
| Bucketing.CreateInventoryBadRequestIff | Backend/Controllers/InventoryController.cs:122-123 | The handler answers with a bad request exactly when the event id is null |
| Bucketing.CreateInventoryStores | Backend/Controllers/InventoryController.cs:166-192 | For an accepted request the reply is OK, companies and products are untouched, and rows are only appended, each carrying the request's event id, location and date. `SucceededTags` is the sum of the appended rows' counts |
| Bucketing.CreateInventoryReport | Backend/Controllers/InventoryController.cs:138-201 | For an accepted request: `Completed` holds exactly when no failed tags are listed; a completed reply counts every input tag; every undecodable string is listed as failed and sets `OneOrMoreTagsAreInvalid` |
| Bucketing.CreateInventoryRejects | Backend/Controllers/InventoryController.cs:122-127 | With an event id present: a non-matching id sets only `InvalidInventoryEventID`; else an unparsable date sets only `InvalidDateOfInventory`; else a null or empty tag list sets only `EmptyTags`; none changes the store. An OK reply carries one of these flags exactly when the id is present and the request is not accepted |
| Bucketing.NoBucketEscapes | Backend/Controllers/InventoryController.cs:166-192 | Under a valid event id, non-empty buckets of tags that parse to their key never let an exception escape |
| Bucketing.CreateInventoryFailures | Backend/Controllers/InventoryController.cs:138-201 | For an accepted request, `SucceededTags` is the number of tags in the stored buckets, the listed failed tags are exactly the undecodable strings and the binary forms of the buckets not stored (none listed, and `Completed`, when there are none); the prefix and reference flags are raised exactly when some bucket has an unknown prefix or reference, and `OneOrMoreTagsAreInvalid` exactly when some string does not decode or some bucket mixes product texts |
| Bucketing.CreateInventoryPreservesValid | Backend/Controllers/InventoryController.cs:118-209 | Creating an inventory keeps the table invariant |
| Grouping.Keys | Backend/Controllers/InventoryController.cs:153-156 | Dictionary keys are distinct and are exactly the keys that occur |
| Grouping.KeysAppend | Backend/Controllers/InventoryController.cs:153-156 | A new key goes to the end of the key order, and a known key leaves the order as it is |
| Grouping.TracksAppend | Backend/Controllers/InventoryController.cs:153-157 | Adding one entry to the bucket dictionary (creating the list if the key is new) keeps it equal to the grouping of all entries seen |
| Grouping.TracksSumsAppend | Backend/Controllers/InventoryController.cs:242-243 | Adding one count to the sum dictionary (starting from 0 if the key is new) keeps it equal to the per-key sums of all entries seen |
| Grouping.GroupsTotal | Backend/Controllers/InventoryController.cs:153-157 | Grouping loses and duplicates nothing: the groups hold as many weighted entries as the input |
| Grouping.SumsByKeyMeaning | Backend/Controllers/InventoryController.cs:237-252 | The listed keys are distinct and are exactly the keys that occur; each is listed with the sum of its values |
| Grouping.SumsByKeyTotal | Backend/Controllers/InventoryController.cs:237-252 | The per-key sums add up to the sum of all entries |
| Controller.KeyedCountsTotal | Backend/Controllers/InventoryController.cs:238-244 | The sum for a key is the total `ProductCount` of the rows with that key |
| Controller.KeyedCountsHasKey | Backend/Controllers/InventoryController.cs:238-244 | A key occurs exactly when some row has it |
| Controller.GroupedCountsMeaning | Backend/Controllers/InventoryController.cs:237-252 | The listed keys are distinct and are exactly the keys of the filtered rows; each is listed with its rows' total `ProductCount` |
| Controller.SumCountsByKey | Backend/Controllers/InventoryController.cs:237-252 | The dictionary loop followed by the listing loop produces the per-key sums in first-occurrence order |
| Controller.AccumulateCounts | Backend/Controllers/InventoryController.cs:237-245 | After the loop the dictionary holds, for each key, the sum of the counts of the rows with that key, with keys in first-occurrence order |
| Controller.ListSums | Backend/Controllers/InventoryController.cs:247-252 | The listing pairs each key, in order, with its dictionary value |
| Controller.DayKeyIsProductAndDay | Backend/Controllers/InventoryController.cs:293 | Two rows with formatted dates share a per-day key exactly when they have the same product and the same calendar day |
| Controller.CompanyCountsCoverAllRows | Backend/Controllers/InventoryController.cs:337-352 | The per-company counts add up to the total `ProductCount` of all stored rows |
| Controller.AddBinaries | Backend/Controllers/InventoryController.cs:180 | The failed set gains exactly the hexadecimal forms of the bucket's tags |
| Controller.CatchFault | Backend/Controllers/InventoryController.cs:177-191 | The catch clauses computed statement by statement agree with `Bucketing.Caught`, whose effect per outcome `Bucketing.InsertBucketOutcome` states: each caught exception sets its own flag and fails the bucket's tags, any other propagates |
| Controller.InsertBucketsStopsAtFault | Backend/Controllers/InventoryController.cs:166-208 | Once an uncaught exception leaves the bucket loop, later buckets are not inserted |
| Controller.InventoryController.CreateProduct | Backend/Controllers/InventoryController.cs:64-97 | The store and the reply are those of `CreateProductSpec`, and the invariant is kept |
| Controller.InventoryController.DecodeString | Backend/Controllers/InventoryController.cs:145-151 | Decoding one string gives its key and tag, or nothing when the library or a parser throws |
| Controller.InventoryController.SortOne | Backend/Controllers/InventoryController.cs:143-163 | One iteration keeps the failed set equal to the undecodable strings so far, the flag equal to "some failed", and the dictionary equal to the grouping so far |
| Controller.InventoryController.SortIntoBuckets | Backend/Controllers/InventoryController.cs:139-164 | The failed set is exactly the undecodable strings, the flag is set exactly when it is non-empty, and the dictionary lists the buckets in first-occurrence order |
| Controller.InventoryController.InsertOne | Backend/Controllers/InventoryController.cs:168-191 | The store and the outcome are those of `InsertBucket`, and the invariant is kept |
| Controller.InventoryController.InsertAll | Backend/Controllers/InventoryController.cs:166-192 | The store and the outcome are those of inserting the buckets in dictionary order, and the invariant is kept |
| Controller.InventoryController.CreateInventory | Backend/Controllers/InventoryController.cs:118-209 | The store and the reply are those of `CreateInventorySpec`, and the invariant is kept |
| Controller.InventoryController.InventoriedItemsCountGroupedByProduct | Backend/Controllers/InventoryController.cs:227-261 | The reply is completed and lists, per product, the total count of the rows of the given event, keyed by first occurrence |
| Controller.InventoryController.InventoriedItemsCountGroupedByProductPerDay | Backend/Controllers/InventoryController.cs:278-312 | Every stored date is long enough for its day prefix. The reply is completed and lists, per (product, day), the total count of the rows |
| Controller.InventoryController.InventoriedItemsCountGroupedByCompanies | Backend/Controllers/InventoryController.cs:329-358 | The reply is completed and lists, per company, the total count of its rows |

## Left out

- HTTP, routing, JSON serialisation, `async`, dependency injection, start-up configuration and the console client are outside the model. Handlers are methods taking the request record.
- Concurrent requests are not modelled. Each handler runs alone on the store.
- The service keeps its tables in in-memory lists; the Cosmos DB client it configures is never used and is not modelled.
- `Guid.NewGuid` randomness is the parameter `ids`: the k-th draw is `ids(k)`. Distinctness of GUIDs is an explicit hypothesis wherever it is needed.
- The Bytefeld EPC library (`EpcTag.FromBinary`, `ToBinary`, `CompanyPrefix`, `IndicatorAndItemReference`) and `ulong.Parse`/`uint.Parse` with `NumberStyles.Any` are arbitrary functions in `Epc.Codec`. Their own behaviour is not modelled.
- The exception message text in a bad request is replaced by the exception type (`Exceptions.Fault`).
- Case-insensitive name comparison folds ASCII letters only. The culture-invariant folding of other letters is not modelled.
- The UTC designator accepted by the date parser (`Z` or `GMT`, any letter case) is matched with ASCII case folding only; culture-specific case rules of the parser are not modelled.
- Dates are assumed to be UTC. Offsets, sub-second parts beyond truncation and other calendars are not modelled.
- The stored records are kept as values. References to a stored record escaping the store, and changes made through them, are not modelled. `InsertInventoryWithSGTIN96Tags` in the source (Backend/Services/CosmosDBService.cs:178) returns the stored inventory and tag-set objects themselves, so a caller could change the stored rows through them; the model's method returns new records with the same contents.
- Dictionary enumeration is taken to follow insertion order, as the .NET `Dictionary` does when no key is removed.
- The `FailedTags` list is a set. The order in which a `HashSet` enumerates is not specified.
- The flags every response inherits (network, authorization and concurrency errors) are never set by this core and are not represented.
- `OtherError` in `CreateProduct` is unreachable, because the upsert never returns a null record, so it is not represented.
- A null tag inside `ItemTags` and a null `Location` are not modelled. Tags are strings and the location is a string.
- The aggregation handlers' bad-request paths are unreachable in the model: stored rows always carry an event id, a product id and a company id.
- Bucketing.CreateInventorySpec: `SucceededTags` is an unbounded count. The C# `int` wrap-around on more than 2^31 - 1 tags is not modelled.
- Controller.InventoryController.InventoriedItemsCountGroupedByProduct: counts are unbounded. The `ulong` wrap-around of the per-key sums is not modelled.
- Controller.InventoryController.InventoriedItemsCountGroupedByCompanies: counts are unbounded. The `ulong` wrap-around of the per-key sums is not modelled.
- Controller.InventoryController.InventoriedItemsCountGroupedByProductPerDay: requires the table invariant, under which every stored date has 18 characters. The bad request that `Substring(0, 8)` would raise on a shorter date is therefore not modelled. Counts are unbounded.
- Store.InsertCrossLinksMismatch: the mismatch is shown under the hypothesis that the draws involved differ, which GUIDs make overwhelmingly likely but do not guarantee.
