/**
 * The records kept by the store. Each record exists twice: as a class with
 * settable fields, the way the back end passes records around, and as an
 * immutable value (`Value()`), the way the store keeps its rows. String
 * fields left unset (null) are the empty string here.
 */
module DataLayer {
  import opened Partition

  datatype Company = Company(companyId: string, companyId2: string, companyName: string, companyPrefix: ULong)

  datatype Product = Product(productId: string, companyId: string, productName: string, productReference: UInt)

  datatype Inventory = Inventory(
    inventoryId: string,
    companyId: string,
    productId: string,
    productCount: nat,
    inventoryEventId: string,
    tagsId: string,
    inventoryLocation: string,
    dateOfInventory: string)

  datatype TagSet = TagSet(tagsId: string, companyId: string, productId: string, inventoryId: string, tags: seq<string>)

  class CompanyDTO {
    var companyId: string
    var companyId2: string
    var companyName: string
    var companyPrefix: ULong

    function Value(): Company
      reads this
    {
      Company(companyId, companyId2, companyName, companyPrefix)
    }

    constructor ()
      ensures Value() == Company("", "", "", 0)
    {
      companyId, companyId2, companyName, companyPrefix := "", "", "", 0;
    }

    constructor FromRow(row: Company)
      ensures Value() == row
    {
      companyId, companyId2, companyName, companyPrefix := row.companyId, row.companyId2, row.companyName, row.companyPrefix;
    }

    /** A fresh object with the same four fields; the original is left as it is. */
    method DeepCopy() returns (clone: CompanyDTO)
      ensures fresh(clone)
      ensures clone.Value() == Value()
    {
      clone := new CompanyDTO.FromRow(Value());
    }
  }

  class ProductDTO {
    var productId: string
    var companyId: string
    var productName: string
    var productReference: UInt

    function Value(): Product
      reads this
    {
      Product(productId, companyId, productName, productReference)
    }

    constructor ()
      ensures Value() == Product("", "", "", 0)
    {
      productId, companyId, productName, productReference := "", "", "", 0;
    }

    constructor FromRow(row: Product)
      ensures Value() == row
    {
      productId, companyId, productName, productReference := row.productId, row.companyId, row.productName, row.productReference;
    }

    /** A fresh object with the same four fields; the original is left as it is. */
    method DeepCopy() returns (clone: ProductDTO)
      ensures fresh(clone)
      ensures clone.Value() == Value()
    {
      clone := new ProductDTO.FromRow(Value());
    }
  }

  class InventoryDTO {
    var inventoryId: string
    var companyId: string
    var productId: string
    var productCount: nat
    var inventoryEventId: string
    var tagsId: string
    var inventoryLocation: string
    var dateOfInventory: string

    function Value(): Inventory
      reads this
    {
      Inventory(inventoryId, companyId, productId, productCount, inventoryEventId, tagsId, inventoryLocation, dateOfInventory)
    }

    constructor FromRow(row: Inventory)
      ensures Value() == row
    {
      inventoryId, companyId, productId, productCount := row.inventoryId, row.companyId, row.productId, row.productCount;
      inventoryEventId, tagsId, inventoryLocation, dateOfInventory := row.inventoryEventId, row.tagsId, row.inventoryLocation, row.dateOfInventory;
    }

    /** A fresh object with all eight fields equal to the original's. */
    method DeepCopy() returns (clone: InventoryDTO)
      ensures fresh(clone)
      ensures clone.Value() == Value()
    {
      clone := new InventoryDTO.FromRow(Value());
    }
  }

  /** `List<string>`: a list object that several records could share. */
  class StringList {
    var items: seq<string>

    constructor (items: seq<string>)
      ensures this.items == items
    {
      this.items := items;
    }

    method Add(item: string)
      modifies this
      ensures items == old(items) + [item]
    {
      items := items + [item];
    }
  }

  class TagsSgtin96DTO {
    var tagsId: string
    var companyId: string
    var productId: string
    var inventoryId: string
    var tags: StringList?

    /** The row this record describes; a null tag list reads as empty. */
    function Value(): TagSet
      reads this, tags
    {
      TagSet(tagsId, companyId, productId, inventoryId, if tags == null then [] else tags.items)
    }

    /** A new record starts with its own, empty tag list. */
    constructor ()
      ensures tags != null && fresh(tags) && tags.items == []
      ensures Value() == TagSet("", "", "", "", [])
    {
      tagsId, companyId, productId, inventoryId := "", "", "", "";
      tags := new StringList([]);
    }

    /** A new record with the given ids and its own, empty tag list. */
    constructor WithIds(tagsId: string, companyId: string, productId: string, inventoryId: string)
      ensures tags != null && fresh(tags)
      ensures Value() == TagSet(tagsId, companyId, productId, inventoryId, [])
    {
      this.tagsId, this.companyId, this.productId, this.inventoryId := tagsId, companyId, productId, inventoryId;
      tags := new StringList([]);
    }

    /**
     * A fresh record with the same ids and a fresh list holding the same
     * tags in the same order (an empty one if the original's list is null).
     */
    method DeepCopy() returns (clone: TagsSgtin96DTO)
      ensures fresh(clone) && clone.tags != null && fresh(clone.tags)
      ensures clone.Value() == Value()
    {
      clone := new TagsSgtin96DTO();
      clone.tagsId, clone.companyId, clone.productId, clone.inventoryId := tagsId, companyId, productId, inventoryId;
      clone.tags := new StringList(if tags == null then [] else tags.items);
    }
  }

  /**
   * A copy and its original do not share their tag lists: adding a tag to
   * the copy leaves the original's record and list as they were.
   */
  method CopyThenAdd(original: TagsSgtin96DTO, tag: string) returns (clone: TagsSgtin96DTO)
    ensures fresh(clone) && clone.tags != null
    ensures clone.Value().tags == original.Value().tags + [tag]
    ensures original.Value() == old(original.Value())
  {
    clone := original.DeepCopy();
    clone.tags.Add(tag);
  }
}
