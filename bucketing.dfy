/**
 * What the two write handlers of the inventory controller do, as functions
 * of the store's contents and the request: `CreateProduct` (a validated
 * upsert) and `CreateInventory` (decode every tag string, group the tags by
 * company prefix and item reference, insert each group, and report).
 */
module Bucketing {
  import opened Wrappers
  import opened Partition
  import opened Utilities
  import opened Exceptions
  import opened Epc
  import opened DataLayer
  import opened Store
  import opened Grouping
  import opened ApiComm

  // ----- CreateProduct -----

  /**
   * `CreateProduct`: both names must be present and non-empty (the company's
   * checked first); then the upsert runs, an invalid prefix and reference
   * pair is reported as a flag and any other exception as a bad request.
   */
  function CreateProductSpec(t: Tables, ids: nat -> string, request: CreateProductReq): (r: (Tables, Reply<CreateProductResp>))
    ensures r.1.BadRequest? ==> r.1.fault == ValueMismatch && r.0 == t
    ensures r.0 != t ==> r.1 == Ok(NoProductFlags.(completed := true))
    ensures r.1.Ok? && r.1.result.completed ==>
      && request.companyName.Some? && request.itemName.Some?
      && (exists c :: c in r.0.companies && EqualsIgnoreCase(c.companyName, request.companyName.value)
                      && c.companyPrefix == request.companyPrefix)
      && (exists p :: p in r.0.products && EqualsIgnoreCase(p.productName, request.itemName.value))
  {
    if request.companyName.None? || request.companyName.value == "" then
      (t, Ok(NoProductFlags.(invalidCompanyName := true)))
    else if request.itemName.None? || request.itemName.value == "" then
      (t, Ok(NoProductFlags.(invalidItemName := true)))
    else
      var (t', out) := UpsertSpec(t, ids, RequestedCompany(request), RequestedProduct(request));
      match out
      case Success(_) => (t', Ok(NoProductFlags.(completed := true)))
      case Failure(InvalidSGTIN96CompanyProductCombination) => (t', Ok(NoProductFlags.(invalidPrefixCombination := true)))
      case Failure(e) => (t', BadRequest(e))
  }

  /** The company record the handler builds: only the name and the prefix are set. */
  function RequestedCompany(request: CreateProductReq): Company
  {
    Company("", "", if request.companyName.Some? then request.companyName.value else "", request.companyPrefix)
  }

  /** The product record the handler builds: only the name and the reference are set. */
  function RequestedProduct(request: CreateProductReq): Product
  {
    Product("", "", if request.itemName.Some? then request.itemName.value else "", request.itemReference)
  }

  /**
   * A product is created (the response says `Completed`) exactly when both
   * names are given, the prefix and reference fit an SGTIN-96 partition, and
   * the first company of that name (up to case), if any, has the same prefix.
   */
  lemma CreateProductCompletedIff(t: Tables, ids: nat -> string, request: CreateProductReq)
    ensures var reply := CreateProductSpec(t, ids, request).1;
      (reply.Ok? && reply.result.completed) <==>
        && request.companyName.Some? && request.companyName.value != ""
        && request.itemName.Some? && request.itemName.value != ""
        && CanRepresentValidSGTIN96Tag(request.companyPrefix, request.itemReference)
        && !exists i :: 0 <= i < |t.companies| && EqualsIgnoreCase(t.companies[i].companyName, request.companyName.value)
             && t.companies[i].companyPrefix != request.companyPrefix
             && forall j :: 0 <= j < i ==> !EqualsIgnoreCase(t.companies[j].companyName, request.companyName.value)
  {
    UpsertFailsIff(t, ids, RequestedCompany(request), RequestedProduct(request));
  }

  /** The number of flags set in a `CreateProductResp`. */
  function ProductFlagCount(resp: CreateProductResp): nat
  {
    (if resp.invalidCompanyName then 1 else 0) + (if resp.invalidItemName then 1 else 0)
    + (if resp.invalidPrefixCombination then 1 else 0) + (if resp.completed then 1 else 0)
  }

  /**
   * Which flag a rejected request sets, in the order of the checks: a missing
   * or empty company name; else a missing or empty item name; else a prefix
   * and reference that fit no partition. Every OK reply sets exactly one flag.
   */
  lemma CreateProductFlags(t: Tables, ids: nat -> string, request: CreateProductReq)
    ensures var reply := CreateProductSpec(t, ids, request).1;
      var noCompanyName := request.companyName.None? || request.companyName.value == "";
      var noItemName := request.itemName.None? || request.itemName.value == "";
      && ((reply.Ok? && reply.result.invalidCompanyName) <==> noCompanyName)
      && ((reply.Ok? && reply.result.invalidItemName) <==> !noCompanyName && noItemName)
      && ((reply.Ok? && reply.result.invalidPrefixCombination) <==>
            !noCompanyName && !noItemName && !CanRepresentValidSGTIN96Tag(request.companyPrefix, request.itemReference))
      && (reply.Ok? ==> ProductFlagCount(reply.result) == 1)
  {
  }

  /** `CreateProduct` keeps the store invariant. */
  lemma CreateProductPreservesValid(t: Tables, ids: nat -> string, request: CreateProductReq)
    requires TablesValid(t)
    ensures TablesValid(CreateProductSpec(t, ids, request).0)
  {
    UpsertPreservesValid(t, ids, RequestedCompany(request), RequestedProduct(request));
  }

  // ----- CreateInventory: decoding and bucketing -----

  /** A bucket key: the company prefix and the item reference. */
  type Key = (ULong, UInt)

  /**
   * `EpcTag.FromBinary` followed by the two number parses: the tag with its
   * key, or None when any of the three throws.
   */
  function DecodeTag(codec: Codec, s: string): Option<(Key, Sgtin96Tag)>
  {
    match codec.fromBinary(s)
    case None => None
    case Some(tag) =>
      match ParsedKey(codec, tag)
      case None => None
      case Some(key) => Some((key, tag))
  }

  /** The decoded tags with their keys, in input order; strings that do not decode are skipped. */
  function Decoded(codec: Codec, strings: seq<string>): (entries: seq<(Key, Sgtin96Tag)>)
    ensures |entries| <= |strings|
    ensures forall i :: 0 <= i < |entries| ==> ParsedKey(codec, entries[i].1) == Some(entries[i].0)
  {
    if |strings| == 0 then []
    else
      var init := Decoded(codec, strings[..|strings| - 1]);
      match DecodeTag(codec, strings[|strings| - 1])
      case None => init
      case Some(entry) => init + [entry]
  }

  /** The input strings that do not decode. */
  function Undecodable(codec: Codec, strings: seq<string>): set<string>
  {
    set s | s in strings && DecodeTag(codec, s).None?
  }

  /** The buckets: each key with its tags in input order, keys in first-occurrence order. */
  function Buckets(codec: Codec, strings: seq<string>): seq<(Key, seq<Sgtin96Tag>)>
  {
    Groups(Decoded(codec, strings))
  }

  function Once(tag: Sgtin96Tag): nat { 1 }

  /** One more input string: it is decoded and appended, or it is undecodable. */
  lemma DecodedAppend(codec: Codec, strings: seq<string>, s: string)
    ensures Decoded(codec, strings + [s]) ==
      if DecodeTag(codec, s).None? then Decoded(codec, strings) else Decoded(codec, strings) + [DecodeTag(codec, s).value]
    ensures Undecodable(codec, strings + [s]) ==
      Undecodable(codec, strings) + if DecodeTag(codec, s).None? then {s} else {}
  {
    assert (strings + [s])[..|strings|] == strings;
  }

  /** A tag enters the decoded list exactly when some input string decodes to it. */
  lemma {:induction false} DecodedExactly(codec: Codec, strings: seq<string>)
    ensures forall e :: e in Decoded(codec, strings) <==> exists s :: s in strings && DecodeTag(codec, s) == Some(e)
  {
    if |strings| > 0 {
      var init := strings[..|strings| - 1];
      DecodedExactly(codec, init);
      assert strings == init + [strings[|strings| - 1]];
      forall e ensures e in Decoded(codec, strings) <==> exists s :: s in strings && DecodeTag(codec, s) == Some(e) {
        if e in Decoded(codec, strings) && e !in Decoded(codec, init) {
          assert DecodeTag(codec, strings[|strings| - 1]) == Some(e);
        }
        if exists s :: s in strings && DecodeTag(codec, s) == Some(e) {
          var s :| s in strings && DecodeTag(codec, s) == Some(e);
          if s in init {
            assert e in Decoded(codec, init);
          }
        }
      }
    }
  }

  /** Without undecodable strings every string yields one decoded tag. */
  lemma {:induction false} DecodedCount(codec: Codec, strings: seq<string>)
    requires Undecodable(codec, strings) == {}
    ensures |Decoded(codec, strings)| == |strings|
  {
    if |strings| > 0 {
      var init := strings[..|strings| - 1];
      assert strings[|strings| - 1] in strings;
      assert forall s :: s in init ==> s in strings;
      assert Undecodable(codec, init) <= Undecodable(codec, strings);
      assert strings[|strings| - 1] !in Undecodable(codec, strings);
      DecodedCount(codec, init);
    }
  }

  lemma {:induction false} CountOnce<K>(entries: seq<(K, Sgtin96Tag)>)
    ensures EntryTotal(entries, Once) == |entries|
  {
    if |entries| > 0 {
      CountOnce(entries[..|entries| - 1]);
    }
  }

  /**
   * The buckets have distinct keys, none is empty, every tag in a bucket
   * parses to the bucket's key, and the bucket sizes add up to the number of
   * decoded tags.
   */
  lemma BucketsShape(codec: Codec, strings: seq<string>)
    ensures var bs := Buckets(codec, strings);
      && (forall i, j :: 0 <= i < j < |bs| ==> bs[i].0 != bs[j].0)
      && (forall i :: 0 <= i < |bs| ==> |bs[i].1| > 0)
      && (forall i, j :: 0 <= i < |bs| && 0 <= j < |bs[i].1| ==> ParsedKey(codec, bs[i].1[j]) == Some(bs[i].0))
      && GroupTotal(bs, Once) == |Decoded(codec, strings)|
  {
    var entries := Decoded(codec, strings);
    var bs := Buckets(codec, strings);
    var ks := Keys(entries);
    forall i | 0 <= i < |bs| ensures |bs[i].1| > 0 {
      assert ks[i] in ks;
    }
    forall i, j | 0 <= i < |bs| && 0 <= j < |bs[i].1| ensures ParsedKey(codec, bs[i].1[j]) == Some(bs[i].0) {
      var n :| 0 <= n < |entries| && entries[n] == (ks[i], bs[i].1[j]);
    }
    GroupsTotal(entries, Once);
    CountOnce(entries);
  }

  // ----- CreateInventory: inserting the buckets -----

  /** The handler's running result while it goes through the buckets. */
  datatype Progress = Progress(
    failed: set<string>,
    tagsInvalid: bool,
    companyNotFound: bool,
    productNotFound: bool,
    succeeded: nat)

  /** The binary forms of the tags, as a set. */
  function BinarySet(tags: seq<Sgtin96Tag>): set<string>
  {
    set i | 0 <= i < |tags| :: tags[i].binary
  }

  /** The sum of the product counts of the rows. */
  function StoredCount(rows: seq<Inventory>): nat
  {
    if |rows| == 0 then 0 else StoredCount(rows[..|rows| - 1]) + rows[|rows| - 1].productCount
  }

  /** The row was stored for this event, location and date. */
  predicate FromRequest(row: Inventory, eventId: string, location: string, date: UtcDateTime)
  {
    row.inventoryEventId == eventId && row.inventoryLocation == location
    && row.dateOfInventory == ConvertDateTimeToUTCString(date)
  }

  /**
   * `t'` is `t` with inventory rows appended, each for this event, location
   * and date; companies and products are the same.
   */
  predicate Extends(t: Tables, t': Tables, eventId: string, location: string, date: UtcDateTime)
  {
    && t'.companies == t.companies && t'.products == t.products
    && t.inventories <= t'.inventories
    && forall i :: |t.inventories| <= i < |t'.inventories| ==> FromRequest(t'.inventories[i], eventId, location, date)
  }

  /** `q` has every failure `p` has, and keeps its invalid-tags flag. */
  predicate Advances(p: Progress, q: Progress)
  {
    p.failed <= q.failed && (p.tagsInvalid ==> q.tagsInvalid)
  }

  /**
   * One bucket: the insertion either stores one row counting the bucket's
   * tags, or fails with a not-found or invalid-tag exception that is caught,
   * flagged and recorded with the bucket's binary forms; any other exception
   * escapes.
   */
  function InsertBucket(t: Tables, ids: nat -> string, codec: Codec, eventId: string, location: string,
                        date: UtcDateTime, bucket: (Key, seq<Sgtin96Tag>), p: Progress): (r: (Tables, Result<Progress, Fault>))
    ensures Extends(t, r.0, eventId, location, date) && |r.0.inventories| <= |t.inventories| + 1
    ensures |r.0.inventories| > |t.inventories| ==> r.0.inventories[|t.inventories|].productCount == |bucket.1|
    ensures r.1.Success? ==> Advances(p, r.1.value)
    ensures r.1.Success? && |r.0.inventories| > |t.inventories| ==> r.1.value == p.(succeeded := p.succeeded + |bucket.1|)
    ensures r.1.Success? && |r.0.inventories| == |t.inventories| ==>
      r.1.value.succeeded == p.succeeded && r.1.value.failed == p.failed + BinarySet(bucket.1)
  {
    var (t', out) := InsertSpec(t, ids, codec, eventId, location, date, bucket.1);
    (t', Caught(if out.Success? then None else Some(out.error), bucket.1, p))
  }

  /**
   * The `catch` clauses of the bucket loop: success counts the tags; a
   * company or product not found, or an invalid tag, is flagged and the
   * bucket's binary forms are recorded as failed; anything else escapes.
   */
  function Caught(fault: Option<Fault>, tags: seq<Sgtin96Tag>, p: Progress): Result<Progress, Fault>
  {
    match fault
    case None => Success(p.(succeeded := p.succeeded + |tags|))
    case Some(CompanyNotFound) => Success(p.(companyNotFound := true, failed := p.failed + BinarySet(tags)))
    case Some(ProductNotFound) => Success(p.(productNotFound := true, failed := p.failed + BinarySet(tags)))
    case Some(InvalidSGTIN96Tag) => Success(p.(tagsInvalid := true, failed := p.failed + BinarySet(tags)))
    case Some(e) => Failure(e)
  }

  /** How the insertion of one bucket ends. */
  datatype BucketOutcome = Stored | NoCompany | NoProduct | MixedTags | Escapes

  /**
   * The outcome of inserting `tags`, read off the stored companies and
   * products: an exception escapes when the event id is invalid or the first
   * tag is missing or does not parse; otherwise the first tag's prefix must
   * name a company, its reference a product, and all tags the same texts.
   */
  function OutcomeOf(companies: seq<Company>, products: seq<Product>, codec: Codec, eventId: string,
                     tags: seq<Sgtin96Tag>): BucketOutcome
  {
    if !MatchesEventIdPattern(eventId) || |tags| == 0 || ParsedKey(codec, tags[0]).None? then Escapes
    else
      var (prefix, reference) := ParsedKey(codec, tags[0]).value;
      if forall c :: c in companies ==> c.companyPrefix != prefix then NoCompany
      else if forall q :: q in products ==> q.productReference != reference then NoProduct
      else if SameProductTexts(tags) then Stored
      else MixedTags
  }

  /**
   * What one bucket does to the running result: a stored bucket counts its
   * tags and changes nothing else; a rejected one adds exactly its binary
   * forms to the failed tags and raises the one flag that names its outcome;
   * the only exceptions that escape are those of the `Escapes` outcome.
   */
  lemma InsertBucketOutcome(t: Tables, ids: nat -> string, codec: Codec, eventId: string, location: string,
                            date: UtcDateTime, bucket: (Key, seq<Sgtin96Tag>), p: Progress)
    ensures var (t', r) := InsertBucket(t, ids, codec, eventId, location, date, bucket, p);
      var o := OutcomeOf(t.companies, t.products, codec, eventId, bucket.1);
      && (r.Failure? <==> o == Escapes)
      && (|t'.inventories| > |t.inventories| <==> o == Stored)
      && (r.Success? ==>
            && r.value.succeeded == p.succeeded + (if o == Stored then |bucket.1| else 0)
            && r.value.failed == p.failed + (if o == Stored then {} else BinarySet(bucket.1))
            && r.value.companyNotFound == (p.companyNotFound || o == NoCompany)
            && r.value.productNotFound == (p.productNotFound || o == NoProduct)
            && r.value.tagsInvalid == (p.tagsInvalid || o == MixedTags))
  {
    InsertOutcome(t, ids, codec, eventId, location, date, bucket.1);
  }

  /** A bucket of parsable tags under a valid event id never lets an exception escape. */
  lemma InsertBucketNoFault(t: Tables, ids: nat -> string, codec: Codec, eventId: string, location: string,
                            date: UtcDateTime, bucket: (Key, seq<Sgtin96Tag>), p: Progress)
    requires MatchesEventIdPattern(eventId) && |bucket.1| > 0 && ParsedKey(codec, bucket.1[0]).Some?
    ensures InsertBucket(t, ids, codec, eventId, location, date, bucket, p).1.Success?
  {
    InsertOutcome(t, ids, codec, eventId, location, date, bucket.1);
  }

  /** One bucket keeps the store invariant. */
  lemma InsertBucketPreservesValid(t: Tables, ids: nat -> string, codec: Codec, eventId: string, location: string,
                                   date: UtcDateTime, bucket: (Key, seq<Sgtin96Tag>), p: Progress)
    requires TablesValid(t)
    ensures TablesValid(InsertBucket(t, ids, codec, eventId, location, date, bucket, p).0)
  {
    InsertPreservesValid(t, ids, codec, eventId, location, date, bucket.1);
  }

  /** The buckets in order; the first exception that escapes ends the loop. */
  function InsertBuckets(t: Tables, ids: nat -> string, codec: Codec, eventId: string, location: string,
                         date: UtcDateTime, buckets: seq<(Key, seq<Sgtin96Tag>)>, p: Progress): (Tables, Result<Progress, Fault>)
  {
    if |buckets| == 0 then (t, Success(p))
    else
      var (t1, r1) := InsertBuckets(t, ids, codec, eventId, location, date, buckets[..|buckets| - 1], p);
      if r1.Failure? then (t1, r1)
      else InsertBucket(t1, ids, codec, eventId, location, date, buckets[|buckets| - 1], r1.value)
  }

  lemma ExtendsTransitive(t1: Tables, t2: Tables, t3: Tables, eventId: string, location: string, date: UtcDateTime)
    requires Extends(t1, t2, eventId, location, date) && Extends(t2, t3, eventId, location, date)
    ensures Extends(t1, t3, eventId, location, date)
  {
    assert t3.inventories[..|t2.inventories|] == t2.inventories;
  }

  lemma StoredCountAppend(rows: seq<Inventory>, row: Inventory)
    ensures StoredCount(rows + [row]) == StoredCount(rows) + row.productCount
  {
    assert (rows + [row])[..|rows|] == rows;
  }

  /** Splits the new rows after three tables at the middle one. */
  lemma StoredCountStep(t: Tables, t1: Tables, t2: Tables)
    requires t.inventories <= t1.inventories <= t2.inventories && |t2.inventories| <= |t1.inventories| + 1
    ensures StoredCount(t2.inventories[|t.inventories|..]) ==
      StoredCount(t1.inventories[|t.inventories|..]) + if |t2.inventories| > |t1.inventories| then t2.inventories[|t1.inventories|].productCount else 0
  {
    var n := |t.inventories|;
    if |t2.inventories| > |t1.inventories| {
      assert t2.inventories[n..] == t1.inventories[n..] + [t2.inventories[|t1.inventories|]];
      StoredCountAppend(t1.inventories[n..], t2.inventories[|t1.inventories|]);
    } else {
      assert t2.inventories[n..] == t1.inventories[n..];
    }
  }

  /**
   * What inserting the buckets does: the store is only extended with rows for
   * this event, location and date, failures are only added, and the
   * successful count grows by the sum of the new rows' product counts.
   */
  lemma {:induction false} InsertBucketsEffect(t: Tables, ids: nat -> string, codec: Codec, eventId: string, location: string,
                                               date: UtcDateTime, buckets: seq<(Key, seq<Sgtin96Tag>)>, p: Progress)
    ensures var (t', r) := InsertBuckets(t, ids, codec, eventId, location, date, buckets, p);
      && Extends(t, t', eventId, location, date)
      && (r.Success? ==> Advances(p, r.value) && r.value.succeeded == p.succeeded + StoredCount(t'.inventories[|t.inventories|..]))
  {
    if |buckets| > 0 {
      var init := buckets[..|buckets| - 1];
      InsertBucketsEffect(t, ids, codec, eventId, location, date, init, p);
      var (t1, r1) := InsertBuckets(t, ids, codec, eventId, location, date, init, p);
      if r1.Success? {
        var t2 := InsertBucket(t1, ids, codec, eventId, location, date, buckets[|buckets| - 1], r1.value).0;
        ExtendsTransitive(t, t1, t2, eventId, location, date);
        StoredCountStep(t, t1, t2);
      }
    }
  }

  /** Inserting the buckets keeps the store invariant. */
  lemma {:induction false} InsertBucketsPreservesValid(t: Tables, ids: nat -> string, codec: Codec, eventId: string, location: string,
                                                       date: UtcDateTime, buckets: seq<(Key, seq<Sgtin96Tag>)>, p: Progress)
    requires TablesValid(t)
    ensures TablesValid(InsertBuckets(t, ids, codec, eventId, location, date, buckets, p).0)
  {
    if |buckets| > 0 {
      var init := buckets[..|buckets| - 1];
      InsertBucketsPreservesValid(t, ids, codec, eventId, location, date, init, p);
      var (t1, r1) := InsertBuckets(t, ids, codec, eventId, location, date, init, p);
      if r1.Success? {
        InsertBucketPreservesValid(t1, ids, codec, eventId, location, date, buckets[|buckets| - 1], r1.value);
      }
    }
  }

  /**
   * When no failure at all is recorded and no bucket is empty, every bucket
   * was stored: the successful count grows by the number of tags in the
   * buckets.
   */
  lemma {:induction false} InsertBucketsAllStored(t: Tables, ids: nat -> string, codec: Codec, eventId: string, location: string,
                                                  date: UtcDateTime, buckets: seq<(Key, seq<Sgtin96Tag>)>, p: Progress)
    requires forall i :: 0 <= i < |buckets| ==> |buckets[i].1| > 0
    ensures var r := InsertBuckets(t, ids, codec, eventId, location, date, buckets, p).1;
      r.Success? && r.value.failed == {} ==> r.value.succeeded == p.succeeded + GroupTotal(buckets, Once)
  {
    if |buckets| > 0 {
      var init, last := buckets[..|buckets| - 1], buckets[|buckets| - 1];
      InsertBucketsAllStored(t, ids, codec, eventId, location, date, init, p);
      var (t1, r1) := InsertBuckets(t, ids, codec, eventId, location, date, init, p);
      if r1.Success? {
        var r2 := InsertBucket(t1, ids, codec, eventId, location, date, last, r1.value).1;
        if r2.Success? && r2.value.failed == {} {
          assert last.1[0].binary in BinarySet(last.1);
          TotalOnceOfTags(last.1);
        }
      }
    }
  }

  lemma {:induction false} TotalOnceOfTags(tags: seq<Sgtin96Tag>)
    ensures Total(tags, Once) == |tags|
  {
    if |tags| > 0 {
      TotalOnceOfTags(tags[..|tags| - 1]);
    }
  }

  /**
   * A bucket list whose buckets are non-empty and whose first tags parse
   * never lets an exception escape under a valid event id.
   */
  lemma {:induction false} InsertBucketsNoFault(t: Tables, ids: nat -> string, codec: Codec, eventId: string, location: string,
                                                date: UtcDateTime, buckets: seq<(Key, seq<Sgtin96Tag>)>, p: Progress)
    requires MatchesEventIdPattern(eventId)
    requires forall i :: 0 <= i < |buckets| ==> |buckets[i].1| > 0 && ParsedKey(codec, buckets[i].1[0]).Some?
    ensures InsertBuckets(t, ids, codec, eventId, location, date, buckets, p).1.Success?
  {
    if |buckets| > 0 {
      var init := buckets[..|buckets| - 1];
      InsertBucketsNoFault(t, ids, codec, eventId, location, date, init, p);
      var (t1, r1) := InsertBuckets(t, ids, codec, eventId, location, date, init, p);
      InsertBucketNoFault(t1, ids, codec, eventId, location, date, buckets[|buckets| - 1], r1.value);
    }
  }

  /** The binary forms of the tags of every bucket that is not stored. */
  function Rejected(companies: seq<Company>, products: seq<Product>, codec: Codec, eventId: string,
                    buckets: seq<(Key, seq<Sgtin96Tag>)>): set<string>
  {
    if |buckets| == 0 then {}
    else
      var last := buckets[|buckets| - 1];
      Rejected(companies, products, codec, eventId, buckets[..|buckets| - 1])
        + if OutcomeOf(companies, products, codec, eventId, last.1) == Stored then {} else BinarySet(last.1)
  }

  /** The number of tags in the buckets that are stored. */
  function StoredSizes(companies: seq<Company>, products: seq<Product>, codec: Codec, eventId: string,
                       buckets: seq<(Key, seq<Sgtin96Tag>)>): nat
  {
    if |buckets| == 0 then 0
    else
      var last := buckets[|buckets| - 1];
      StoredSizes(companies, products, codec, eventId, buckets[..|buckets| - 1])
        + if OutcomeOf(companies, products, codec, eventId, last.1) == Stored then |last.1| else 0
  }

  /** Some bucket ends with outcome `o`. */
  predicate SomeBucketEnds(companies: seq<Company>, products: seq<Product>, codec: Codec, eventId: string,
                           buckets: seq<(Key, seq<Sgtin96Tag>)>, o: BucketOutcome)
  {
    exists i :: 0 <= i < |buckets| && OutcomeOf(companies, products, codec, eventId, buckets[i].1) == o
  }

  lemma SomeBucketEndsStep(companies: seq<Company>, products: seq<Product>, codec: Codec, eventId: string,
                           buckets: seq<(Key, seq<Sgtin96Tag>)>, o: BucketOutcome)
    requires |buckets| > 0
    ensures SomeBucketEnds(companies, products, codec, eventId, buckets, o) <==>
      SomeBucketEnds(companies, products, codec, eventId, buckets[..|buckets| - 1], o)
      || OutcomeOf(companies, products, codec, eventId, buckets[|buckets| - 1].1) == o
  {
    var init := buckets[..|buckets| - 1];
    if SomeBucketEnds(companies, products, codec, eventId, buckets, o) {
      var i :| 0 <= i < |buckets| && OutcomeOf(companies, products, codec, eventId, buckets[i].1) == o;
      if i < |init| {
        assert init[i] == buckets[i];
      }
    }
    if SomeBucketEnds(companies, products, codec, eventId, init, o) {
      var i :| 0 <= i < |init| && OutcomeOf(companies, products, codec, eventId, init[i].1) == o;
      assert buckets[i] == init[i];
    }
  }

  /**
   * The bucket loop over buckets none of which escapes: the succeeded count
   * grows by exactly the sizes of the buckets that are stored, the failed tags
   * grow by exactly the binary forms of the buckets that are not stored, and each
   * flag is raised exactly when some bucket ends with its outcome.
   */
  lemma {:induction false} InsertBucketsReport(t: Tables, ids: nat -> string, codec: Codec, eventId: string, location: string,
                                               date: UtcDateTime, buckets: seq<(Key, seq<Sgtin96Tag>)>, p: Progress)
    requires !SomeBucketEnds(t.companies, t.products, codec, eventId, buckets, Escapes)
    ensures var r := InsertBuckets(t, ids, codec, eventId, location, date, buckets, p).1;
      && r.Success?
      && r.value.succeeded == p.succeeded + StoredSizes(t.companies, t.products, codec, eventId, buckets)
      && r.value.failed == p.failed + Rejected(t.companies, t.products, codec, eventId, buckets)
      && r.value.companyNotFound == (p.companyNotFound || SomeBucketEnds(t.companies, t.products, codec, eventId, buckets, NoCompany))
      && r.value.productNotFound == (p.productNotFound || SomeBucketEnds(t.companies, t.products, codec, eventId, buckets, NoProduct))
      && r.value.tagsInvalid == (p.tagsInvalid || SomeBucketEnds(t.companies, t.products, codec, eventId, buckets, MixedTags))
  {
    if |buckets| > 0 {
      var init, last := buckets[..|buckets| - 1], buckets[|buckets| - 1];
      SomeBucketEndsStep(t.companies, t.products, codec, eventId, buckets, Escapes);
      SomeBucketEndsStep(t.companies, t.products, codec, eventId, buckets, NoCompany);
      SomeBucketEndsStep(t.companies, t.products, codec, eventId, buckets, NoProduct);
      SomeBucketEndsStep(t.companies, t.products, codec, eventId, buckets, MixedTags);
      InsertBucketsReport(t, ids, codec, eventId, location, date, init, p);
      InsertBucketsEffect(t, ids, codec, eventId, location, date, init, p);
      var (t1, r1) := InsertBuckets(t, ids, codec, eventId, location, date, init, p);
      InsertBucketOutcome(t1, ids, codec, eventId, location, date, last, r1.value);
    }
  }

  /** After the decoding loop: the undecodable strings are failed, and flagged if there are any. */
  function DecodingProgress(codec: Codec, strings: seq<string>): Progress
  {
    var undecodable := Undecodable(codec, strings);
    Progress(undecodable, undecodable != {}, false, false, 0)
  }

  /** The response built from the final progress: the failed tags are listed only when there are some. */
  function Finish(p: Progress): CreateInventoryResp
  {
    CreateInventoryResp(false, false, false, p.tagsInvalid, if p.failed == {} then None else Some(p.failed),
                        p.companyNotFound, p.productNotFound, p.succeeded, p.failed == {})
  }

  /** `TryConvertUTCStringToDateTime`, which fails on a null string. */
  function ParseDate(s: Option<string>): Option<UtcDateTime>
  {
    if s.None? then None else TryConvertUTCStringToDateTime(s.value)
  }

  /**
   * `CreateInventory`. A null event id makes the pattern match throw; an
   * event id that does not match, a date that does not parse, or a null or
   * empty tag list rejects the whole request with one flag and leaves the
   * store alone. Otherwise every bucket is inserted.
   */
  function CreateInventorySpec(t: Tables, ids: nat -> string, codec: Codec, request: CreateInventoryReq): (r: (Tables, Reply<CreateInventoryResp>))
    ensures r.1.Ok? && (r.1.result.invalidInventoryEventId || r.1.result.invalidDateOfInventory || r.1.result.emptyTags) ==>
      r.0 == t && r.1.result.succeededTags == 0 && !r.1.result.completed
  {
    match request.inventoryEventId
    case None => (t, BadRequest(ArgumentNull))
    case Some(eventId) =>
      if !MatchesEventIdPattern(eventId) then (t, Ok(NoInventoryFlags.(invalidInventoryEventId := true)))
      else
        match ParseDate(request.dateOfInventory)
        case None => (t, Ok(NoInventoryFlags.(invalidDateOfInventory := true)))
        case Some(date) =>
          if request.itemTags.None? || |request.itemTags.value| == 0 then (t, Ok(NoInventoryFlags.(emptyTags := true)))
          else
            var strings := request.itemTags.value;
            var (t', out) := InsertBuckets(t, ids, codec, eventId, request.location, date,
                                           Buckets(codec, strings), DecodingProgress(codec, strings));
            match out
            case Failure(e) => (t', BadRequest(e))
            case Success(p) => (t', Ok(Finish(p)))
  }

  /** The request passes the three whole-request checks. */
  predicate Accepted(request: CreateInventoryReq)
  {
    && request.inventoryEventId.Some? && MatchesEventIdPattern(request.inventoryEventId.value)
    && ParseDate(request.dateOfInventory).Some?
    && request.itemTags.Some? && |request.itemTags.value| > 0
  }

  /**
   * `CreateInventory` answers with a bad request only when the event id is
   * null: every exception the insertion can raise on a bucket is caught.
   */
  lemma CreateInventoryBadRequestIff(t: Tables, ids: nat -> string, codec: Codec, request: CreateInventoryReq)
    ensures CreateInventorySpec(t, ids, codec, request).1.BadRequest? <==> request.inventoryEventId.None?
  {
    if Accepted(request) {
      var strings := request.itemTags.value;
      BucketsShape(codec, strings);
      InsertBucketsNoFault(t, ids, codec, request.inventoryEventId.value, request.location,
                           ParseDate(request.dateOfInventory).value, Buckets(codec, strings), DecodingProgress(codec, strings));
    }
  }

  /**
   * What an accepted request does to the store: companies and products stay
   * as they are, inventory rows are only appended, every new row records the
   * request's event id, location and date, and the number of succeeded tags
   * is the sum of the new rows' product counts.
   */
  lemma CreateInventoryStores(t: Tables, ids: nat -> string, codec: Codec, request: CreateInventoryReq)
    requires Accepted(request)
    ensures var (t', reply) := CreateInventorySpec(t, ids, codec, request);
      && reply.Ok?
      && t'.companies == t.companies && t'.products == t.products
      && t.inventories <= t'.inventories
      && (forall i :: |t.inventories| <= i < |t'.inventories| ==>
            FromRequest(t'.inventories[i], request.inventoryEventId.value, request.location, ParseDate(request.dateOfInventory).value))
      && reply.result.succeededTags == StoredCount(t'.inventories[|t.inventories|..])
  {
    var strings := request.itemTags.value;
    CreateInventoryBadRequestIff(t, ids, codec, request);
    InsertBucketsEffect(t, ids, codec, request.inventoryEventId.value, request.location,
                        ParseDate(request.dateOfInventory).value, Buckets(codec, strings), DecodingProgress(codec, strings));
  }

  /**
   * The report of an accepted request: it is `Completed` exactly when no tag
   * failed, and then every tag string was stored; every string that does not
   * decode is among the failed tags and raises the invalid-tags flag.
   */
  lemma CreateInventoryReport(t: Tables, ids: nat -> string, codec: Codec, request: CreateInventoryReq)
    requires Accepted(request)
    ensures var reply := CreateInventorySpec(t, ids, codec, request).1;
      var strings := request.itemTags.value;
      && reply.Ok?
      && (reply.result.completed <==> reply.result.failedTags.None?)
      && (reply.result.completed ==> reply.result.succeededTags == |strings|)
      && (reply.result.failedTags.Some? ==> Undecodable(codec, strings) <= reply.result.failedTags.value)
      && (reply.result.failedTags.None? ==> Undecodable(codec, strings) == {})
      && (Undecodable(codec, strings) != {} ==> reply.result.oneOrMoreTagsAreInvalid)
  {
    var strings := request.itemTags.value;
    var buckets := Buckets(codec, strings);
    CreateInventoryBadRequestIff(t, ids, codec, request);
    BucketsShape(codec, strings);
    InsertBucketsEffect(t, ids, codec, request.inventoryEventId.value, request.location,
                        ParseDate(request.dateOfInventory).value, buckets, DecodingProgress(codec, strings));
    InsertBucketsAllStored(t, ids, codec, request.inventoryEventId.value, request.location,
                           ParseDate(request.dateOfInventory).value, buckets, DecodingProgress(codec, strings));
    var reply := CreateInventorySpec(t, ids, codec, request).1;
    if reply.result.completed {
      DecodedCount(codec, strings);
    }
  }

  /**
   * The three whole-request checks, in order: an event id that does not
   * match the pattern, then a date that does not parse, then a null or empty
   * tag list; each sets its own flag alone and leaves the store as it was.
   * An OK reply carries one of these flags exactly when the event id is
   * present and the request is not accepted.
   */
  lemma CreateInventoryRejects(t: Tables, ids: nat -> string, codec: Codec, request: CreateInventoryReq)
    ensures var (t', reply) := CreateInventorySpec(t, ids, codec, request);
      var id := request.inventoryEventId;
      var date := ParseDate(request.dateOfInventory);
      var noTags := request.itemTags.None? || |request.itemTags.value| == 0;
      && (id.Some? && !MatchesEventIdPattern(id.value) ==>
            t' == t && reply == Ok(NoInventoryFlags.(invalidInventoryEventId := true)))
      && (id.Some? && MatchesEventIdPattern(id.value) && date.None? ==>
            t' == t && reply == Ok(NoInventoryFlags.(invalidDateOfInventory := true)))
      && (id.Some? && MatchesEventIdPattern(id.value) && date.Some? && noTags ==>
            t' == t && reply == Ok(NoInventoryFlags.(emptyTags := true)))
      && ((reply.Ok? && (reply.result.invalidInventoryEventId || reply.result.invalidDateOfInventory || reply.result.emptyTags))
            <==> id.Some? && !Accepted(request))
  {
    if Accepted(request) {
      CreateInventoryBadRequestIff(t, ids, codec, request);
    }
  }

  /**
   * What an accepted request reports: the succeeded count is the number of
   * tags in the stored buckets; the failed tags are exactly the
   * undecodable strings and the binary forms of the buckets not stored (none
   * listed when there are none, and then the reply is `Completed`); the
   * company and product flags are raised exactly when some bucket's prefix or
   * reference is unknown, and the invalid-tags flag exactly when some string
   * does not decode or some bucket mixes tag texts.
   */
  lemma CreateInventoryFailures(t: Tables, ids: nat -> string, codec: Codec, request: CreateInventoryReq)
    requires Accepted(request)
    ensures var reply := CreateInventorySpec(t, ids, codec, request).1;
      var strings := request.itemTags.value;
      var eventId := request.inventoryEventId.value;
      var bs := Buckets(codec, strings);
      var failed := Undecodable(codec, strings) + Rejected(t.companies, t.products, codec, eventId, bs);
      && reply.Ok?
      && reply.result.succeededTags == StoredSizes(t.companies, t.products, codec, eventId, bs)
      && reply.result.failedTags == (if failed == {} then None else Some(failed))
      && reply.result.completed == (failed == {})
      && reply.result.oneOrMoreCompanyPrefixNotFound == SomeBucketEnds(t.companies, t.products, codec, eventId, bs, NoCompany)
      && reply.result.oneOrMoreProductReferenceNotFound == SomeBucketEnds(t.companies, t.products, codec, eventId, bs, NoProduct)
      && reply.result.oneOrMoreTagsAreInvalid ==
           (Undecodable(codec, strings) != {} || SomeBucketEnds(t.companies, t.products, codec, eventId, bs, MixedTags))
  {
    var strings := request.itemTags.value;
    var eventId := request.inventoryEventId.value;
    var bs := Buckets(codec, strings);
    BucketsShape(codec, strings);
    NoBucketEscapes(t, codec, eventId, bs);
    InsertBucketsReport(t, ids, codec, eventId, request.location, ParseDate(request.dateOfInventory).value,
                        bs, DecodingProgress(codec, strings));
  }

  /** Non-empty buckets of parsable tags under a valid event id: none escapes. */
  lemma NoBucketEscapes(t: Tables, codec: Codec, eventId: string, bs: seq<(Key, seq<Sgtin96Tag>)>)
    requires MatchesEventIdPattern(eventId)
    requires forall i :: 0 <= i < |bs| ==> |bs[i].1| > 0
    requires forall i, j :: 0 <= i < |bs| && 0 <= j < |bs[i].1| ==> ParsedKey(codec, bs[i].1[j]) == Some(bs[i].0)
    ensures !SomeBucketEnds(t.companies, t.products, codec, eventId, bs, Escapes)
  {
    forall i | 0 <= i < |bs|
      ensures OutcomeOf(t.companies, t.products, codec, eventId, bs[i].1) != Escapes
    {
      assert ParsedKey(codec, bs[i].1[0]) == Some(bs[i].0);
    }
  }

  /** `CreateInventory` keeps the store invariant. */
  lemma CreateInventoryPreservesValid(t: Tables, ids: nat -> string, codec: Codec, request: CreateInventoryReq)
    requires TablesValid(t)
    ensures TablesValid(CreateInventorySpec(t, ids, codec, request).0)
  {
    if Accepted(request) {
      var strings := request.itemTags.value;
      InsertBucketsPreservesValid(t, ids, codec, request.inventoryEventId.value, request.location,
                                  ParseDate(request.dateOfInventory).value, Buckets(codec, strings), DecodingProgress(codec, strings));
    }
  }
}
