/**
 * The request and response records of the inventory API. A nullable request
 * string is an `Option`, `None` standing for null. A `bool?` response flag
 * is a `bool`, `false` standing for a flag left unset. The flags every
 * response inherits and this core never sets (network, authorization and
 * concurrency errors) are not represented.
 */
module ApiComm {
  import opened Wrappers
  import opened Partition
  import opened Exceptions

  /** What a handler returns: an OK result, or a bad request naming the exception that reached it. */
  datatype Reply<+R> = Ok(result: R) | BadRequest(fault: Fault)

  datatype CreateProductReq = CreateProductReq(
    itemReference: UInt,
    itemName: Option<string>,
    companyPrefix: ULong,
    companyName: Option<string>)

  datatype CreateProductResp = CreateProductResp(
    invalidCompanyName: bool,
    invalidPrefixCombination: bool,
    invalidItemName: bool,
    completed: bool)

  /** A `CreateProductResp` with no flag set. */
  const NoProductFlags := CreateProductResp(false, false, false, false)

  datatype CreateInventoryReq = CreateInventoryReq(
    inventoryEventId: Option<string>,
    location: string,
    dateOfInventory: Option<string>,
    itemTags: Option<seq<string>>)

  /**
   * The failed tags form a set: the handler collects them in a hash set, and
   * the order in which it lists them is not specified.
   */
  datatype CreateInventoryResp = CreateInventoryResp(
    invalidInventoryEventId: bool,
    invalidDateOfInventory: bool,
    emptyTags: bool,
    oneOrMoreTagsAreInvalid: bool,
    failedTags: Option<set<string>>,
    oneOrMoreCompanyPrefixNotFound: bool,
    oneOrMoreProductReferenceNotFound: bool,
    succeededTags: nat,
    completed: bool)

  /** A `CreateInventoryResp` with no flag set, no failed tags and no tag counted. */
  const NoInventoryFlags := CreateInventoryResp(false, false, false, false, None, false, false, 0, false)

  datatype InventoriedItemsCountGroupedByProductResp = InventoriedItemsCountGroupedByProductResp(
    res: seq<(string, nat)>, completed: bool)

  datatype InventoriedItemsCountGroupedByProductPerDayResp = InventoriedItemsCountGroupedByProductPerDayResp(
    res: seq<(string, string, nat)>, completed: bool)

  datatype InventoriedItemsCountGroupedByCompaniesResp = InventoriedItemsCountGroupedByCompaniesResp(
    res: seq<(string, nat)>, completed: bool)
}
