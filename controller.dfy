/**
 * The inventory controller: the HTTP handlers of the back end, each a
 * method over the store it was given. The write handlers are proved to do
 * what the functions of `Bucketing` say; the three read handlers group the
 * stored inventory rows and sum their product counts.
 */
module Controller {
  import opened Wrappers
  import opened Exceptions
  import opened Epc
  import opened DataLayer
  import opened Utilities
  import opened Store
  import opened Grouping
  import opened ApiComm
  import opened Bucketing

  // ----- Grouped counts over the inventory rows -----

  /**
   * The rows that have a key, each as its key with its product count, in
   * row order; `key` returns None for a row the handler skips.
   */
  function KeyedCounts<K>(rows: seq<Inventory>, key: Inventory --> Option<K>): seq<(K, nat)>
    requires forall i :: 0 <= i < |rows| ==> key.requires(rows[i])
  {
    if |rows| == 0 then []
    else
      var init := KeyedCounts(rows[..|rows| - 1], key);
      var last := rows[|rows| - 1];
      match key(last)
      case None => init
      case Some(k) => init + [(k, last.productCount)]
  }

  /** The sum of the product counts of the rows whose key is `k`. */
  function CountFor<K(==)>(rows: seq<Inventory>, key: Inventory --> Option<K>, k: K): nat
    requires forall i :: 0 <= i < |rows| ==> key.requires(rows[i])
  {
    if |rows| == 0 then 0
    else CountFor(rows[..|rows| - 1], key, k) + if key(rows[|rows| - 1]) == Some(k) then rows[|rows| - 1].productCount else 0
  }

  /** The keyed counts of `k` add up to `CountFor`. */
  lemma {:induction false} KeyedCountsTotal<K>(rows: seq<Inventory>, key: Inventory --> Option<K>, k: K)
    requires forall i :: 0 <= i < |rows| ==> key.requires(rows[i])
    ensures SumOf(KeyedCounts(rows, key), k) == CountFor(rows, key, k)
  {
    if |rows| > 0 {
      var init, last := rows[..|rows| - 1], rows[|rows| - 1];
      KeyedCountsTotal(init, key, k);
      var entries := KeyedCounts(init, key);
      if key(last).Some? {
        var e := (key(last).value, last.productCount);
        assert (entries + [e])[..|entries|] == entries;
      }
    }
  }

  /** `k` occurs among the keyed counts exactly when some row has it as key. */
  lemma {:induction false} KeyedCountsHasKey<K>(rows: seq<Inventory>, key: Inventory --> Option<K>, k: K)
    requires forall i :: 0 <= i < |rows| ==> key.requires(rows[i])
    ensures HasKey(KeyedCounts(rows, key), k) <==> exists i :: 0 <= i < |rows| && key(rows[i]) == Some(k)
  {
    if |rows| > 0 {
      var init, last := rows[..|rows| - 1], rows[|rows| - 1];
      KeyedCountsHasKey(init, key, k);
      var entries := KeyedCounts(init, key);
      assert forall i :: 0 <= i < |init| ==> rows[i] == init[i];
      if key(last).Some? {
        var e := (key(last).value, last.productCount);
        assert KeyedCounts(rows, key) == entries + [e];
        assert forall i :: 0 <= i < |entries| ==> (entries + [e])[i] == entries[i];
        assert (entries + [e])[|entries|] == e;
      }
    }
  }

  /**
   * What a grouped count returns: every key once, exactly the keys some row
   * has, each with the sum of the product counts of its rows.
   */
  lemma GroupedCountsMeaning<K(!new)>(rows: seq<Inventory>, key: Inventory --> Option<K>)
    requires forall i :: 0 <= i < |rows| ==> key.requires(rows[i])
    ensures var res := SumsByKey(KeyedCounts(rows, key));
      && (forall i, j :: 0 <= i < j < |res| ==> res[i].0 != res[j].0)
      && (forall k :: (exists i :: 0 <= i < |res| && res[i].0 == k) <==> exists n :: 0 <= n < |rows| && key(rows[n]) == Some(k))
      && (forall i :: 0 <= i < |res| ==> res[i].1 == CountFor(rows, key, res[i].0))
  {
    var res := SumsByKey(KeyedCounts(rows, key));
    SumsByKeyMeaning(KeyedCounts(rows, key));
    forall k ensures HasKey(KeyedCounts(rows, key), k) <==> exists n :: 0 <= n < |rows| && key(rows[n]) == Some(k) {
      KeyedCountsHasKey(rows, key, k);
    }
    forall i | 0 <= i < |res| ensures res[i].1 == CountFor(rows, key, res[i].0) {
      KeyedCountsTotal(rows, key, res[i].0);
    }
  }

  /**
   * The dictionary loop of the three read handlers: each row with a key adds
   * its product count to that key's entry, created at zero on first sight;
   * then the entries are listed in the order they were created.
   */
  method SumCountsByKey<K(==,!new)>(rows: seq<Inventory>, key: Inventory --> Option<K>) returns (res: seq<(K, nat)>)
    requires forall i :: 0 <= i < |rows| ==> key.requires(rows[i])
    ensures res == SumsByKey(KeyedCounts(rows, key))
  {
    var order, sums := AccumulateCounts(rows, key);
    res := ListSums(order, sums);
  }

  /** The accumulating loop: a dictionary of sums tracking the keyed counts. */
  method AccumulateCounts<K(==,!new)>(rows: seq<Inventory>, key: Inventory --> Option<K>)
    returns (order: seq<K>, sums: map<K, nat>)
    requires forall i :: 0 <= i < |rows| ==> key.requires(rows[i])
    ensures TracksSums(order, sums, KeyedCounts(rows, key))
  {
    order, sums := [], map[];
    for i := 0 to |rows|
      invariant TracksSums(order, sums, KeyedCounts(rows[..i], key))
    {
      var row := rows[i];
      assert rows[..i + 1][..i] == rows[..i];
      var k := key(row);
      if k.Some? {
        ghost var order0, sums0 := order, sums;
        if k.value !in sums {
          sums := sums[k.value := 0];
          order := order + [k.value];
        }
        sums := sums[k.value := sums[k.value] + row.productCount];
        TracksSumsAppend(order0, sums0, KeyedCounts(rows[..i], key), k.value, row.productCount, order, sums);
      }
    }
    assert rows[..|rows|] == rows;
  }

  /** The listing loop: the dictionary's entries in key order. */
  method ListSums<K(==)>(order: seq<K>, sums: map<K, nat>) returns (res: seq<(K, nat)>)
    requires forall k :: k in order ==> k in sums
    ensures |res| == |order| && forall i :: 0 <= i < |order| ==> res[i] == (order[i], sums[order[i]])
  {
    res := [];
    for j := 0 to |order|
      invariant |res| == j && forall i :: 0 <= i < j ==> res[i] == (order[i], sums[order[i]])
    {
      res := res + [(order[j], sums[order[j]])];
    }
  }

  /** The product key of `InventoriedItemsCountGroupedByProduct`: rows of the queried event only. */
  function ByProductKey(inventoryEventId: Option<string>): Inventory -> Option<string>
  {
    (row: Inventory) => if inventoryEventId == Some(row.inventoryEventId) then Some(row.productId) else None
  }

  /** The key of `InventoriedItemsCountGroupedByProductPerDay`: the product and the first eight characters of the date. */
  function DayKey(row: Inventory): Option<(string, string)>
    requires |row.dateOfInventory| >= 8
  {
    Some((row.productId, row.dateOfInventory[..8]))
  }

  /** The key of `InventoriedItemsCountGroupedByCompanies`: the company of every row. */
  function CompanyKey(row: Inventory): Option<string>
  {
    Some(row.companyId)
  }

  /**
   * For rows whose dates were written by `ConvertDateTimeToUTCString`, two
   * rows share a per-day key exactly when they name the same product on the
   * same calendar day.
   */
  lemma DayKeyIsProductAndDay(r1: Inventory, r2: Inventory, d1: UtcDateTime, d2: UtcDateTime)
    requires r1.dateOfInventory == ConvertDateTimeToUTCString(d1) && r2.dateOfInventory == ConvertDateTimeToUTCString(d2)
    ensures DayKey(r1) == DayKey(r2) <==>
      r1.productId == r2.productId && (d1.year, d1.month, d1.day) == (d2.year, d2.month, d2.day)
  {
    SameDayKeyIffSameDay(d1, d2);
  }

  /** The per-company counts add up to the product counts of all rows. */
  lemma {:induction false} CompanyCountsCoverAllRows(rows: seq<Inventory>)
    ensures EntryTotal(SumsByKey(KeyedCounts(rows, CompanyKey)), Natural) == StoredCount(rows)
  {
    SumsByKeyTotal(KeyedCounts(rows, CompanyKey));
    KeyedCountsAll(rows);
  }

  lemma {:induction false} KeyedCountsAll(rows: seq<Inventory>)
    ensures EntryTotal(KeyedCounts(rows, CompanyKey), Natural) == StoredCount(rows)
  {
    if |rows| > 0 {
      KeyedCountsAll(rows[..|rows| - 1]);
    }
  }

  /** `foreach (var tag in bucket.Value) failedTags.Add(tag.ToBinary())`. */
  method AddBinaries(failed: set<string>, tags: seq<Sgtin96Tag>) returns (r: set<string>)
    ensures r == failed + BinarySet(tags)
  {
    r := failed;
    for i := 0 to |tags|
      invariant r == failed + BinarySet(tags[..i])
    {
      assert BinarySet(tags[..i + 1]) == BinarySet(tags[..i]) + {tags[i].binary} by {
        assert forall n :: 0 <= n < i ==> tags[..i + 1][n] == tags[..i][n];
      }
      r := r + {tags[i].binary};
    }
    assert tags[..|tags|] == tags;
  }

  /** The `catch` clauses of the bucket loop, as `Caught` says. */
  method CatchFault(fault: Option<Fault>, tags: seq<Sgtin96Tag>, p: Progress) returns (out: Result<Progress, Fault>)
    ensures out == Caught(fault, tags, p)
  {
    if fault.None? {
      return Success(p.(succeeded := p.succeeded + |tags|));
    }
    var next := p;
    if fault.value == CompanyNotFound {
      next := p.(companyNotFound := true);
    } else if fault.value == ProductNotFound {
      next := p.(productNotFound := true);
    } else if fault.value == InvalidSGTIN96Tag {
      next := p.(tagsInvalid := true);
    } else {
      return Failure(fault.value);
    }
    var failed := AddBinaries(next.failed, tags);
    out := Success(next.(failed := failed));
  }

  /** An exception that escapes a bucket ends the loop: the later buckets are not inserted. */
  lemma {:induction false} InsertBucketsStopsAtFault(t: Tables, ids: nat -> string, codec: Codec, eventId: string, location: string,
                                                     date: UtcDateTime, buckets: seq<(Key, seq<Sgtin96Tag>)>, j: nat, p: Progress)
    requires j <= |buckets|
    requires InsertBuckets(t, ids, codec, eventId, location, date, buckets[..j], p).1.Failure?
    ensures InsertBuckets(t, ids, codec, eventId, location, date, buckets, p) ==
            InsertBuckets(t, ids, codec, eventId, location, date, buckets[..j], p)
  {
    if j < |buckets| {
      var init := buckets[..|buckets| - 1];
      assert init[..j] == buckets[..j];
      InsertBucketsStopsAtFault(t, ids, codec, eventId, location, date, init, j, p);
    } else {
      assert buckets[..j] == buckets;
    }
  }

  class InventoryController {
    /** The store the handlers work on. */
    const cdbService: CosmosDBService
    /** The tag decoder and the number parsers. */
    const codec: Codec

    constructor (cdbService: CosmosDBService, codec: Codec)
      ensures this.cdbService == cdbService && this.codec == codec
    {
      this.cdbService := cdbService;
      this.codec := codec;
    }

    /** `CreateProduct`: what `CreateProductSpec` says, on the store. */
    method CreateProduct(request: CreateProductReq) returns (reply: Reply<CreateProductResp>)
      requires cdbService.Valid()
      modifies cdbService
      ensures cdbService.Valid()
      ensures (cdbService.State(), reply) == CreateProductSpec(old(cdbService.State()), cdbService.ids, request)
    {
      if request.companyName.None? || request.companyName.value == "" {
        return Ok(NoProductFlags.(invalidCompanyName := true));
      }
      if request.itemName.None? || request.itemName.value == "" {
        return Ok(NoProductFlags.(invalidItemName := true));
      }
      var companyDTO := new CompanyDTO();
      companyDTO.companyName := request.companyName.value;
      companyDTO.companyPrefix := request.companyPrefix;
      var productDTO := new ProductDTO();
      productDTO.productName := request.itemName.value;
      productDTO.productReference := request.itemReference;
      var dtos := cdbService.UpsertCompanyAndProductTuple(companyDTO, productDTO);
      match dtos
      case Success(_) =>
        reply := Ok(NoProductFlags.(completed := true));
      case Failure(InvalidSGTIN96CompanyProductCombination) =>
        reply := Ok(NoProductFlags.(invalidPrefixCombination := true));
      case Failure(e) =>
        reply := BadRequest(e);
    }

    /** The body of the decoding `try`: the tag from its binary form, then its two numbers. */
    method DecodeString(s: string) returns (decoded: Option<(Key, Sgtin96Tag)>)
      ensures decoded == DecodeTag(codec, s)
    {
      var tag := codec.fromBinary(s);
      if tag.None? {
        return None;
      }
      var prefix := codec.parseULong(tag.value.companyPrefix);
      var reference := codec.parseUInt(tag.value.indicatorAndItemReference);
      if prefix.None? || reference.None? {
        return None;
      }
      decoded := Some(((prefix.value, reference.value), tag.value));
    }

    /** One pass of the decoding loop: `s` is recorded as failed, or added to its bucket. */
    method SortOne(s: string, ghost done: seq<string>, failed: set<string>, invalid: bool, order: seq<Key>,
                   buckets: map<Key, seq<Sgtin96Tag>>)
      returns (failed': set<string>, invalid': bool, order': seq<Key>, buckets': map<Key, seq<Sgtin96Tag>>)
      requires failed == Undecodable(codec, done) && invalid == (failed != {})
      requires Tracks(order, buckets, Decoded(codec, done))
      ensures failed' == Undecodable(codec, done + [s]) && invalid' == (failed' != {})
      ensures Tracks(order', buckets', Decoded(codec, done + [s]))
    {
      DecodedAppend(codec, done, s);
      failed', invalid', order', buckets' := failed, invalid, order, buckets;
      var decoded := DecodeString(s);
      if decoded.None? {
        invalid' := true;
        failed' := failed' + {s};
      } else {
        var (key, tag) := decoded.value;
        if key !in buckets' {
          buckets' := buckets'[key := []];
          order' := order' + [key];
        }
        buckets' := buckets'[key := buckets'[key] + [tag]];
        TracksAppend(order, buckets, Decoded(codec, done), key, tag, order', buckets');
      }
    }

    /**
     * The decoding loop of `CreateInventory`: the strings that do not decode
     * are collected as failed, the others are appended to the bucket of
     * their key, a bucket being created when its key is first seen.
     */
    method SortIntoBuckets(strings: seq<string>)
      returns (failed: set<string>, invalid: bool, order: seq<Key>, buckets: map<Key, seq<Sgtin96Tag>>)
      ensures failed == Undecodable(codec, strings) && invalid == (failed != {})
      ensures var bs := Buckets(codec, strings);
        |order| == |bs| && forall j :: 0 <= j < |bs| ==> order[j] in buckets && bs[j] == (order[j], buckets[order[j]])
    {
      failed, invalid, order, buckets := {}, false, [], map[];
      for i := 0 to |strings|
        invariant failed == Undecodable(codec, strings[..i]) && invalid == (failed != {})
        invariant Tracks(order, buckets, Decoded(codec, strings[..i]))
      {
        assert strings[..i + 1] == strings[..i] + [strings[i]];
        failed, invalid, order, buckets := SortOne(strings[i], strings[..i], failed, invalid, order, buckets);
      }
      assert strings[..|strings|] == strings;
    }

    /** The body of the bucket loop: one insertion and its `catch` clauses. */
    method InsertOne(eventId: string, location: string, date: UtcDateTime, key: Key, tags: seq<Sgtin96Tag>, p: Progress)
      returns (out: Result<Progress, Fault>)
      requires cdbService.Valid()
      modifies cdbService
      ensures cdbService.Valid()
      ensures (cdbService.State(), out) == InsertBucket(old(cdbService.State()), cdbService.ids, codec, eventId, location, date, (key, tags), p)
    {
      var r := cdbService.InsertInventoryWithSGTIN96Tags(codec, eventId, location, date, tags);
      out := CatchFault(if r.Success? then None else Some(r.error), tags, p);
    }

    /**
     * The bucket loop of `CreateInventory`: each bucket is inserted; a
     * not-found or invalid-tag exception is caught, flagged and its tags
     * recorded as failed, any other exception ends the loop.
     */
    method InsertAll(eventId: string, location: string, date: UtcDateTime, order: seq<Key>,
                     buckets: map<Key, seq<Sgtin96Tag>>, ghost bs: seq<(Key, seq<Sgtin96Tag>)>, p0: Progress)
      returns (out: Result<Progress, Fault>)
      requires cdbService.Valid()
      requires |order| == |bs| && forall j :: 0 <= j < |bs| ==> order[j] in buckets && bs[j] == (order[j], buckets[order[j]])
      modifies cdbService
      ensures cdbService.Valid()
      ensures (cdbService.State(), out) == InsertBuckets(old(cdbService.State()), cdbService.ids, codec, eventId, location, date, bs, p0)
    {
      ghost var t0 := cdbService.State();
      var p := p0;
      for j := 0 to |order|
        invariant cdbService.Valid()
        invariant (cdbService.State(), Success(p)) == InsertBuckets(t0, cdbService.ids, codec, eventId, location, date, bs[..j], p0)
      {
        assert bs[..j + 1][..j] == bs[..j];
        var r := InsertOne(eventId, location, date, order[j], buckets[order[j]], p);
        if r.Failure? {
          InsertBucketsStopsAtFault(t0, cdbService.ids, codec, eventId, location, date, bs, j + 1, p0);
          return r;
        }
        p := r.value;
      }
      assert bs[..|order|] == bs;
      out := Success(p);
    }

    /** `CreateInventory`: what `CreateInventorySpec` says, on the store. */
    method CreateInventory(request: CreateInventoryReq) returns (reply: Reply<CreateInventoryResp>)
      requires cdbService.Valid()
      modifies cdbService
      ensures cdbService.Valid()
      ensures (cdbService.State(), reply) == CreateInventorySpec(old(cdbService.State()), cdbService.ids, codec, request)
    {
      if request.inventoryEventId.None? {
        return BadRequest(ArgumentNull);
      }
      var eventId := request.inventoryEventId.value;
      if !MatchesEventIdPattern(eventId) {
        return Ok(NoInventoryFlags.(invalidInventoryEventId := true));
      }
      var date := ParseDate(request.dateOfInventory);
      if date.None? {
        return Ok(NoInventoryFlags.(invalidDateOfInventory := true));
      }
      if request.itemTags.None? || |request.itemTags.value| == 0 {
        return Ok(NoInventoryFlags.(emptyTags := true));
      }
      var strings := request.itemTags.value;
      var failed, invalid, order, buckets := SortIntoBuckets(strings);
      var out := InsertAll(eventId, request.location, date.value, order, buckets, Buckets(codec, strings),
                           Progress(failed, invalid, false, false, 0));
      if out.Failure? {
        return BadRequest(out.error);
      }
      var p := out.value;
      var ret := NoInventoryFlags.(oneOrMoreTagsAreInvalid := p.tagsInvalid, oneOrMoreCompanyPrefixNotFound := p.companyNotFound,
                                   oneOrMoreProductReferenceNotFound := p.productNotFound, succeededTags := p.succeeded);
      if |p.failed| > 0 {
        ret := ret.(failedTags := Some(p.failed));
      } else {
        ret := ret.(completed := true);
      }
      reply := Ok(ret);
    }

    /** `InventoriedItemsCountGroupedByProduct`: per product, the items counted under the queried event. */
    method InventoriedItemsCountGroupedByProduct(inventoryEventId: Option<string>)
      returns (resp: InventoriedItemsCountGroupedByProductResp)
      ensures resp.completed
      ensures resp.res == SumsByKey(KeyedCounts(cdbService.inventories, ByProductKey(inventoryEventId)))
    {
      var res := SumCountsByKey(cdbService.inventories, ByProductKey(inventoryEventId));
      resp := InventoriedItemsCountGroupedByProductResp(res, true);
    }

    /** `InventoriedItemsCountGroupedByProductPerDay`: per product and day, the items counted. */
    method InventoriedItemsCountGroupedByProductPerDay() returns (resp: InventoriedItemsCountGroupedByProductPerDayResp)
      requires cdbService.Valid()
      ensures resp.completed
      ensures forall i :: 0 <= i < |cdbService.inventories| ==> |cdbService.inventories[i].dateOfInventory| >= 8
      ensures var sums := SumsByKey(KeyedCounts(cdbService.inventories, DayKey));
        |resp.res| == |sums| && forall i :: 0 <= i < |sums| ==> resp.res[i] == (sums[i].0.0, sums[i].0.1, sums[i].1)
    {
      var sums := SumCountsByKey(cdbService.inventories, DayKey);
      var res := seq(|sums|, i requires 0 <= i < |sums| => (sums[i].0.0, sums[i].0.1, sums[i].1));
      resp := InventoriedItemsCountGroupedByProductPerDayResp(res, true);
    }

    /** `InventoriedItemsCountGroupedByCompanies`: per company, the items counted. */
    method InventoriedItemsCountGroupedByCompanies() returns (resp: InventoriedItemsCountGroupedByCompaniesResp)
      ensures resp.completed
      ensures resp.res == SumsByKey(KeyedCounts(cdbService.inventories, CompanyKey))
    {
      var res := SumCountsByKey(cdbService.inventories, CompanyKey);
      resp := InventoriedItemsCountGroupedByCompaniesResp(res, true);
    }
  }
}
