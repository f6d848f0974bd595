/**
 * The in-memory data store (CosmosDBService): four lists of rows and the two
 * write operations the controller uses. The store keeps every row as a value;
 * the operations take and hand out record objects.
 *
 * `Guid.NewGuid()` is modelled by a fixed sequence of draws: the k-th call of
 * `GetGUID()` since the store was created returns `ids(k)`. Nothing
 * is assumed about the draws; facts that need two draws to differ say so.
 */
module Store {
  import opened Wrappers
  import opened Partition
  import opened Utilities
  import opened Exceptions
  import opened Epc
  import opened DataLayer

  /** The store's contents, and how many identifiers it has handed out. */
  datatype Tables = Tables(
    companies: seq<Company>,
    products: seq<Product>,
    inventories: seq<Inventory>,
    tagSets: seq<TagSet>,
    minted: nat)

  /**
   * The identifiers `GetGUID()` hands out, in order, when its k-th call draws
   * the GUID `draws(k)`.
   */
  function GuidIds(draws: nat -> Guid): (ids: nat -> string)
    ensures forall k :: ids(k) == GetGUID(draws(k), "")
  {
    (k: nat) => GetGUID(draws(k), "")
  }

  /** Each identifier is 32 hexadecimal digits, and different draws give different identifiers. */
  lemma GuidIdsDiffer(draws: nat -> Guid, k1: nat, k2: nat)
    ensures |GuidIds(draws)(k1)| == 32
    ensures draws(k1) != draws(k2) ==> GuidIds(draws)(k1) != GuidIds(draws)(k2)
  {
    if GuidIds(draws)(k1) == GuidIds(draws)(k2) {
      GetGUIDInjective(draws(k1), draws(k2), "");
    }
  }

  // ----- Case-insensitive name comparison -----

  function FoldChar(c: char): char
  {
    if 'A' <= c <= 'Z' then (c as int + 32) as char else c
  }

  /** The name with every ASCII capital replaced by its small letter. */
  function Fold(s: string): (f: string)
    ensures |f| == |s|
    ensures forall i :: 0 <= i < |s| ==> f[i] == FoldChar(s[i])
  {
    seq(|s|, i requires 0 <= i < |s| => FoldChar(s[i]))
  }

  /** `Equals(other, StringComparison.InvariantCultureIgnoreCase)`, over ASCII letters. */
  predicate EqualsIgnoreCase(a: string, b: string)
  {
    Fold(a) == Fold(b)
  }

  /** Comparing without case is an equivalence relation. */
  lemma EqualsIgnoreCaseEquivalence(a: string, b: string, c: string)
    ensures EqualsIgnoreCase(a, a)
    ensures EqualsIgnoreCase(a, b) ==> EqualsIgnoreCase(b, a)
    ensures EqualsIgnoreCase(a, b) && EqualsIgnoreCase(b, c) ==> EqualsIgnoreCase(a, c)
  {
  }

  /**
   * Two characters are the same up to case: equal, or the capital and the
   * small form of one ASCII letter.
   */
  predicate SameUpToCase(x: char, y: char)
  {
    || x == y
    || ('A' <= x <= 'Z' && y as int == x as int + 32)
    || ('A' <= y <= 'Z' && x as int == y as int + 32)
  }

  /**
   * Two names compare equal without case exactly when they have the same
   * length and agree position by position up to the case of letters; so a
   * position holding two different non-letters, or two different letters,
   * makes them unequal.
   */
  lemma EqualsIgnoreCaseIff(a: string, b: string)
    ensures EqualsIgnoreCase(a, b) <==> |a| == |b| && forall i :: 0 <= i < |a| ==> SameUpToCase(a[i], b[i])
  {
    if |a| == |b| && forall i :: 0 <= i < |a| ==> SameUpToCase(a[i], b[i]) {
      assert forall i :: 0 <= i < |a| ==> Fold(a)[i] == Fold(b)[i];
    }
    if EqualsIgnoreCase(a, b) {
      forall i | 0 <= i < |a| ensures SameUpToCase(a[i], b[i]) {
        assert Fold(a)[i] == Fold(b)[i];
      }
    }
  }

  /** Two sample names: one differing only in case, one in a letter. */
  lemma CaseDoesNotMatter()
    ensures EqualsIgnoreCase("Acme Corp", "ACME corp")
    ensures !EqualsIgnoreCase("Acme", "Acne")
  {
    assert Fold("Acme Corp") == "acme corp";
    assert Fold("ACME corp") == "acme corp";
    assert Fold("Acme")[2] == 'm' && Fold("Acne")[2] == 'n';
  }

  // ----- First match of a query -----

  /**
   * `(from x in s where key(x) == k select x).FirstOrDefault()`, as an index:
   * the position of the first element whose key is `k`, or none.
   */
  function FirstIndex<T, K(==)>(s: seq<T>, key: T -> K, k: K): (r: Option<nat>)
    ensures r.Some? ==> r.value < |s| && key(s[r.value]) == k
    ensures r.Some? ==> forall j :: 0 <= j < r.value ==> key(s[j]) != k
    ensures r.None? <==> forall j :: 0 <= j < |s| ==> key(s[j]) != k
  {
    if |s| == 0 then None
    else if key(s[0]) == k then Some(0)
    else match FirstIndex(s[1..], key, k)
      case None => None
      case Some(j) => Some(j + 1)
  }

  /** Appending a row never changes an existing first match. */
  lemma {:induction false} FirstIndexAppend<T, K>(s: seq<T>, x: T, key: T -> K, k: K)
    ensures FirstIndex(s + [x], key, k) ==
      if FirstIndex(s, key, k).Some? then FirstIndex(s, key, k)
      else if key(x) == k then Some(|s|)
      else None
  {
    if |s| == 0 {
      assert s + [x] == [x];
    } else {
      assert (s + [x])[1..] == s[1..] + [x];
      FirstIndexAppend(s[1..], x, key, k);
    }
  }

  function CompanyNameKey(c: Company): string { Fold(c.companyName) }
  function ProductNameKey(p: Product): string { Fold(p.productName) }
  function CompanyPrefixKey(c: Company): ULong { c.companyPrefix }
  function ProductReferenceKey(p: Product): UInt { p.productReference }

  /** The first company whose name equals `name` up to case. */
  function CompanyByName(companies: seq<Company>, name: string): Option<nat>
  {
    FirstIndex(companies, CompanyNameKey, Fold(name))
  }

  /** The first product whose name equals `name` up to case. */
  function ProductByName(products: seq<Product>, name: string): Option<nat>
  {
    FirstIndex(products, ProductNameKey, Fold(name))
  }

  /** The first company with the given SGTIN-96 company prefix. */
  function CompanyByPrefix(companies: seq<Company>, prefix: ULong): Option<nat>
  {
    FirstIndex(companies, CompanyPrefixKey, prefix)
  }

  /** The first product with the given SGTIN-96 item reference. */
  function ProductByReference(products: seq<Product>, reference: UInt): Option<nat>
  {
    FirstIndex(products, ProductReferenceKey, reference)
  }

  // ----- Store invariant -----

  function CompanyIds(t: Tables): set<string>
  {
    set c | c in t.companies :: c.companyId
  }

  function ProductIds(t: Tables): set<string>
  {
    set p | p in t.products :: p.productId
  }

  /**
   * What the two write operations keep true of the store: no two companies and
   * no two products have names equal up to case; a company's two ids
   * agree; every product names a stored company; inventories and tag sets come
   * in pairs that name the same stored company and product, the inventory
   * counting the tags of its tag set (at least one) and carrying an
   * 18-character date.
   */
  predicate TablesValid(t: Tables)
  {
    CompanyNamesDistinct(t.companies)
    && ProductNamesDistinct(t.products)
    && (forall c :: c in t.companies ==> c.companyId2 == c.companyId)
    && (forall p :: p in t.products ==> p.companyId in CompanyIds(t))
    && |t.inventories| == |t.tagSets|
    && forall i :: 0 <= i < |t.inventories| ==> PairValid(t, t.inventories[i], t.tagSets[i])
  }

  predicate CompanyNamesDistinct(companies: seq<Company>)
  {
    forall i, j :: 0 <= i < j < |companies| ==> !EqualsIgnoreCase(companies[i].companyName, companies[j].companyName)
  }

  predicate ProductNamesDistinct(products: seq<Product>)
  {
    forall i, j :: 0 <= i < j < |products| ==> !EqualsIgnoreCase(products[i].productName, products[j].productName)
  }

  /** Appending a company whose name no stored company has keeps the names distinct. */
  lemma CompanyNamesAppend(companies: seq<Company>, c: Company)
    requires CompanyNamesDistinct(companies) && CompanyByName(companies, c.companyName).None?
    ensures CompanyNamesDistinct(companies + [c])
  {
    forall i | 0 <= i < |companies|
      ensures !EqualsIgnoreCase(companies[i].companyName, c.companyName)
    {
      assert CompanyNameKey(companies[i]) != Fold(c.companyName);
    }
  }

  /** Appending a product whose name no stored product has keeps the names distinct. */
  lemma ProductNamesAppend(products: seq<Product>, p: Product)
    requires ProductNamesDistinct(products) && ProductByName(products, p.productName).None?
    ensures ProductNamesDistinct(products + [p])
  {
    forall i | 0 <= i < |products|
      ensures !EqualsIgnoreCase(products[i].productName, p.productName)
    {
      assert ProductNameKey(products[i]) != Fold(p.productName);
    }
  }

  predicate PairValid(t: Tables, inventory: Inventory, tagSet: TagSet)
  {
    inventory.companyId == tagSet.companyId
    && inventory.productId == tagSet.productId
    && inventory.companyId in CompanyIds(t)
    && inventory.productId in ProductIds(t)
    && inventory.productCount == |tagSet.tags| > 0
    && |inventory.dateOfInventory| == 18
  }

  /** A pair stays valid when the store only gains companies and products. */
  lemma PairValidGrows(t: Tables, u: Tables, inventory: Inventory, tagSet: TagSet)
    requires PairValid(t, inventory, tagSet)
    requires forall c :: c in t.companies ==> c in u.companies
    requires forall p :: p in t.products ==> p in u.products
    ensures PairValid(u, inventory, tagSet)
  {
    var c :| c in t.companies && c.companyId == inventory.companyId;
    assert c in u.companies;
    var p :| p in t.products && p.productId == inventory.productId;
    assert p in u.products;
  }

  // ----- UpsertCompanyAndProductTuple -----

  /**
   * The company of an upsert: the first stored one with the requested name
   * (up to case), or else the requested one under a new id, which is also its
   * second id.
   */
  function UpsertCompany(t: Tables, ids: nat -> string, company: Company): (r: (Tables, Company))
  {
    match CompanyByName(t.companies, company.companyName)
    case Some(i) => (t, t.companies[i])
    case None =>
      var id := ids(t.minted);
      var created := company.(companyId := id, companyId2 := id);
      (t.(companies := t.companies + [created], minted := t.minted + 1), created)
  }

  /**
   * The product of an upsert: the first stored one with the requested name
   * (up to case), or else the requested one under a new id, linked to `owner`.
   */
  function UpsertProduct(t: Tables, ids: nat -> string, owner: Company, product: Product): (r: (Tables, Product))
  {
    match ProductByName(t.products, product.productName)
    case Some(i) => (t, t.products[i])
    case None =>
      var created := product.(productId := ids(t.minted), companyId := owner.companyId);
      (t.(products := t.products + [created], minted := t.minted + 1), created)
  }

  /**
   * `UpsertCompanyAndProductTuple` on the store's contents: the new contents
   * and either the company and product rows it hands back or the exception.
   * The check on an existing product compares its reference with itself,
   * so it never fails.
   */
  function UpsertSpec(t: Tables, ids: nat -> string, company: Company, product: Product): (r: (Tables, Result<(Company, Product), Fault>))
    ensures r.1.Failure? ==> r.0 == t
    ensures r.1.Failure? ==> r.1.error in {InvalidSGTIN96CompanyProductCombination, ValueMismatch}
    ensures r.1.Success? ==>
      var (c, p) := r.1.value;
      && EqualsIgnoreCase(c.companyName, company.companyName)
      && c.companyPrefix == company.companyPrefix
      && EqualsIgnoreCase(p.productName, product.productName)
      && c in r.0.companies && p in r.0.products
      && (r.0.companies == t.companies || r.0.companies == t.companies + [c])
      && (r.0.products == t.products || r.0.products == t.products + [p])
      && r.0.inventories == t.inventories && r.0.tagSets == t.tagSets
    ensures r.1.Success? ==>
      var (c, p) := r.1.value;
      var ci := CompanyByName(t.companies, company.companyName);
      var pi := ProductByName(t.products, product.productName);
      var m := if ci.Some? then t.minted else t.minted + 1;
      && (ci.Some? ==> c == t.companies[ci.value] && r.0.companies == t.companies)
      && (ci.None? ==> c == company.(companyId := ids(t.minted), companyId2 := ids(t.minted))
                       && r.0.companies == t.companies + [c])
      && (pi.Some? ==> p == t.products[pi.value] && r.0.products == t.products && r.0.minted == m)
      && (pi.None? ==> p == product.(productId := ids(m), companyId := c.companyId)
                       && r.0.products == t.products + [p] && r.0.minted == m + 1)
  {
    if !CanRepresentValidSGTIN96Tag(company.companyPrefix, product.productReference) then
      (t, Failure(InvalidSGTIN96CompanyProductCombination))
    else
      var ci := CompanyByName(t.companies, company.companyName);
      if ci.Some? && t.companies[ci.value].companyPrefix != company.companyPrefix then
        (t, Failure(ValueMismatch))
      else
        var pi := ProductByName(t.products, product.productName);
        if pi.Some? && t.products[pi.value].productReference != t.products[pi.value].productReference then
          (t, Failure(ValueMismatch))
        else
          var (t1, c) := UpsertCompany(t, ids, company);
          var (t2, p) := UpsertProduct(t1, ids, c, product);
          (t2, Success((c, p)))
  }

  /**
   * An upsert fails exactly when the prefix and reference cannot form an
   * SGTIN-96 tag, or when the first company of that name has another prefix;
   * a product of the same name but another reference is never a conflict.
   */
  lemma UpsertFailsIff(t: Tables, ids: nat -> string, company: Company, product: Product)
    ensures UpsertSpec(t, ids, company, product).1.Failure? <==>
      || !CanRepresentValidSGTIN96Tag(company.companyPrefix, product.productReference)
      || exists i :: 0 <= i < |t.companies| && EqualsIgnoreCase(t.companies[i].companyName, company.companyName)
           && t.companies[i].companyPrefix != company.companyPrefix
           && forall j :: 0 <= j < i ==> !EqualsIgnoreCase(t.companies[j].companyName, company.companyName)
  {
    var ci := CompanyByName(t.companies, company.companyName);
    if ci.Some? {
      forall i | 0 <= i < |t.companies| && EqualsIgnoreCase(t.companies[i].companyName, company.companyName)
          && forall j :: 0 <= j < i ==> !EqualsIgnoreCase(t.companies[j].companyName, company.companyName)
        ensures i == ci.value
      {
        assert CompanyNameKey(t.companies[i]) == Fold(company.companyName);
        assert CompanyNameKey(t.companies[ci.value]) == Fold(company.companyName);
      }
    } else {
      forall i | 0 <= i < |t.companies|
        ensures !EqualsIgnoreCase(t.companies[i].companyName, company.companyName)
      {
        assert CompanyNameKey(t.companies[i]) != Fold(company.companyName);
      }
    }
  }

  /**
   * The product check compares the stored reference with itself: whenever the
   * company passes, an existing product of the same name is handed back even
   * when its reference differs from the requested one, no new product is
   * stored, and only a new company draws an identifier.
   */
  lemma UpsertKeepsExistingProduct(t: Tables, ids: nat -> string, company: Company, product: Product, i: nat)
    requires CanRepresentValidSGTIN96Tag(company.companyPrefix, product.productReference)
    requires CompanyByName(t.companies, company.companyName).None?
          || t.companies[CompanyByName(t.companies, company.companyName).value].companyPrefix == company.companyPrefix
    requires ProductByName(t.products, product.productName) == Some(i)
    ensures var r := UpsertSpec(t, ids, company, product);
      && r.1.Success?
      && r.1.value.1 == t.products[i]
      && r.0.products == t.products
      && r.0.minted == t.minted + (if CompanyByName(t.companies, company.companyName).None? then 1 else 0)
  {
  }

  /**
   * Repeating a successful upsert with names equal up to case and the same
   * prefix changes nothing and hands back the same company and product.
   */
  lemma {:induction false} UpsertIdempotent(t: Tables, ids: nat -> string, company: Company, product: Product, company': Company, product': Product)
    requires UpsertSpec(t, ids, company, product).1.Success?
    requires EqualsIgnoreCase(company'.companyName, company.companyName)
    requires EqualsIgnoreCase(product'.productName, product.productName)
    requires company'.companyPrefix == company.companyPrefix
    requires CanRepresentValidSGTIN96Tag(company'.companyPrefix, product'.productReference)
    ensures var first := UpsertSpec(t, ids, company, product);
      UpsertSpec(first.0, ids, company', product') == (first.0, first.1)
  {
    var first := UpsertSpec(t, ids, company, product);
    var (c, p) := first.1.value;
    var t1 := UpsertCompany(t, ids, company).0;
    var ci := CompanyByName(t.companies, company.companyName);
    assert CompanyByName(t1.companies, company'.companyName) == Some(if ci.Some? then ci.value else |t.companies|) by {
      if ci.None? {
        FirstIndexAppend(t.companies, c, CompanyNameKey, Fold(company.companyName));
      }
    }
    var pi := ProductByName(t1.products, product.productName);
    assert ProductByName(first.0.products, product'.productName) == Some(if pi.Some? then pi.value else |t1.products|) by {
      if pi.None? {
        FirstIndexAppend(t1.products, p, ProductNameKey, Fold(product.productName));
      }
    }
  }

  /** An upsert keeps the store invariant. */
  lemma UpsertPreservesValid(t: Tables, ids: nat -> string, company: Company, product: Product)
    requires TablesValid(t)
    ensures TablesValid(UpsertSpec(t, ids, company, product).0)
  {
    var r := UpsertSpec(t, ids, company, product);
    if r.1.Success? {
      var (t1, c) := UpsertCompany(t, ids, company);
      if CompanyByName(t.companies, company.companyName).None? {
        CompanyNamesAppend(t.companies, r.1.value.0);
      }
      if ProductByName(t.products, product.productName).None? {
        ProductNamesAppend(t.products, r.1.value.1);
      }
      assert c in t1.companies;
      assert forall x :: x in t.companies ==> x in t1.companies;
      assert forall x :: x in t1.companies ==> x in r.0.companies;
      assert forall x :: x in t.products ==> x in r.0.products;
      forall i | 0 <= i < |r.0.inventories|
        ensures PairValid(r.0, r.0.inventories[i], r.0.tagSets[i])
      {
        PairValidGrows(t, r.0, t.inventories[i], t.tagSets[i]);
      }
    }
  }

  // ----- InsertInventoryWithSGTIN96Tags -----

  predicate IsAsciiAlphaNum(c: char)
  {
    'a' <= c <= 'z' || 'A' <= c <= 'Z' || '0' <= c <= '9'
  }

  predicate AlphaNumRun(s: string)
  {
    1 <= |s| <= 32 && forall i :: 0 <= i < |s| ==> IsAsciiAlphaNum(s[i])
  }

  /**
   * The regular expression `^[a-zA-Z0-9]{1,32}$` of .NET: its `$` also
   * matches just before a final line feed.
   */
  predicate MatchesEventIdPattern(s: string)
  {
    AlphaNumRun(s) || (|s| >= 2 && s[|s| - 1] == '\n' && AlphaNumRun(s[..|s| - 1]))
  }

  /** What the pattern accepts and refuses. */
  lemma EventIdPatternExamples()
    ensures MatchesEventIdPattern("abcd")
    ensures MatchesEventIdPattern("abcd\n")
    ensures !MatchesEventIdPattern("")
    ensures !MatchesEventIdPattern("ab-cd")
    ensures !MatchesEventIdPattern("\n")
  {
    assert "abcd\n"[..4] == "abcd";
    assert !IsAsciiAlphaNum("ab-cd"[2]);
    assert !IsAsciiAlphaNum("\n"[0]);
  }

  /** Every tag has the same two text fields as the first one. */
  predicate SameProductTexts(tags: seq<Sgtin96Tag>)
    requires |tags| > 0
  {
    forall i :: 0 <= i < |tags| ==>
      tags[i].companyPrefix == tags[0].companyPrefix && tags[i].indicatorAndItemReference == tags[0].indicatorAndItemReference
  }

  /** The tags' `ToBinary()` forms, in order. */
  function Binaries(tags: seq<Sgtin96Tag>): (bs: seq<string>)
    ensures |bs| == |tags|
    ensures forall i :: 0 <= i < |tags| ==> bs[i] == tags[i].binary
  {
    if |tags| == 0 then [] else Binaries(tags[..|tags| - 1]) + [tags[|tags| - 1].binary]
  }

  /**
   * `InsertInventoryWithSGTIN96Tags` on the store's contents. The first tag's
   * two text fields are parsed into the prefix and reference that select the
   * company and the product; three identifiers are drawn before the tags are
   * checked against the first one, and a fourth after. The inventory and the
   * tag set are cross-linked through the first draw (tag set to inventory) and
   * the second (inventory to tag set), while the rows themselves carry the
   * fourth and the third.
   */
  function InsertSpec(t: Tables, ids: nat -> string, codec: Codec, eventId: string, location: string,
                      date: UtcDateTime, tags: seq<Sgtin96Tag>): (r: (Tables, Result<(Inventory, TagSet), Fault>))
    ensures r.1.Failure? ==>
      r.0 == t.(minted := r.0.minted) && t.minted <= r.0.minted <= t.minted + 3
    ensures r.1.Success? ==>
      var (inventory, tagSet) := r.1.value;
      && r.0 == t.(inventories := t.inventories + [inventory], tagSets := t.tagSets + [tagSet], minted := t.minted + 4)
      && inventory.productCount == |tags| > 0
      && tagSet.tags == Binaries(tags)
      && inventory.inventoryEventId == eventId
      && inventory.inventoryLocation == location
      && inventory.dateOfInventory == ConvertDateTimeToUTCString(date)
      && inventory.companyId == tagSet.companyId
      && inventory.productId == tagSet.productId
  {
    if !MatchesEventIdPattern(eventId) then (t, Failure(InvalidID))
    else if |tags| == 0 then (t, Failure(ArgumentOutOfRange))
    else
      match ResolveFirstTag(t, codec, tags[0])
      case Failure(e) => (t, Failure(e))
      case Success((company, product)) =>
        if !SameProductTexts(tags) then (t.(minted := t.minted + 3), Failure(InvalidSGTIN96Tag))
        else
          var (inventory, tagSet) := InsertedRows(t.minted, ids, eventId, location, date, tags, company, product);
          (t.(inventories := t.inventories + [inventory], tagSets := t.tagSets + [tagSet], minted := t.minted + 4),
           Success((inventory, tagSet)))
  }

  /**
   * The company and product the first tag names: its two text fields parsed
   * as numbers, then the first company with that prefix and the first
   * product with that reference.
   */
  function ResolveFirstTag(t: Tables, codec: Codec, first: Sgtin96Tag): (r: Result<(Company, Product), Fault>)
    ensures r.Success? ==> r.value.0 in t.companies && r.value.1 in t.products
    ensures r.Success? ==> ParsedKey(codec, first) == Some((r.value.0.companyPrefix, r.value.1.productReference))
    ensures r.Failure? ==> r.error in {NumberFormat, CompanyNotFound, ProductNotFound}
  {
    match (codec.parseULong(first.companyPrefix), codec.parseUInt(first.indicatorAndItemReference))
    case (None, _) => Failure(NumberFormat)
    case (_, None) => Failure(NumberFormat)
    case (Some(prefix), Some(reference)) =>
      match CompanyByPrefix(t.companies, prefix)
      case None => Failure(CompanyNotFound)
      case Some(ci) =>
        match ProductByReference(t.products, reference)
        case None => Failure(ProductNotFound)
        case Some(pi) => Success((t.companies[ci], t.products[pi]))
  }

  /**
   * The two rows a successful insertion stores, when the first of its four
   * draws is the m-th.
   */
  function InsertedRows(m: nat, ids: nat -> string, eventId: string, location: string, date: UtcDateTime,
                        tags: seq<Sgtin96Tag>, company: Company, product: Product): (Inventory, TagSet)
  {
    (Inventory(ids(m + 3), company.companyId, product.productId, |tags|,
               eventId, ids(m + 1), location, ConvertDateTimeToUTCString(date)),
     TagSet(ids(m + 2), company.companyId, product.productId, ids(m), Binaries(tags)))
  }

  /** The first tag's prefix and reference, when both parse. */
  function ParsedKey(codec: Codec, tag: Sgtin96Tag): Option<(ULong, UInt)>
  {
    match (codec.parseULong(tag.companyPrefix), codec.parseUInt(tag.indicatorAndItemReference))
    case (Some(prefix), Some(reference)) => Some((prefix, reference))
    case _ => None
  }

  /**
   * The exceptions of an insertion, in the order the checks are made: the
   * event id, the first tag, the company, the product, then the tags' texts.
   * It succeeds exactly when all five checks pass.
   */
  lemma InsertOutcome(t: Tables, ids: nat -> string, codec: Codec, eventId: string, location: string,
                      date: UtcDateTime, tags: seq<Sgtin96Tag>)
    ensures var r := InsertSpec(t, ids, codec, eventId, location, date, tags).1;
      && (!MatchesEventIdPattern(eventId) ==> r == Failure(InvalidID))
      && (MatchesEventIdPattern(eventId) && |tags| == 0 ==> r == Failure(ArgumentOutOfRange))
      && (MatchesEventIdPattern(eventId) && |tags| > 0 && ParsedKey(codec, tags[0]).None? ==> r == Failure(NumberFormat))
      && (MatchesEventIdPattern(eventId) && |tags| > 0 && ParsedKey(codec, tags[0]).Some? ==>
           var (prefix, reference) := ParsedKey(codec, tags[0]).value;
           && ((forall c :: c in t.companies ==> c.companyPrefix != prefix) ==> r == Failure(CompanyNotFound))
           && (((exists c :: c in t.companies && c.companyPrefix == prefix) &&
                (forall p :: p in t.products ==> p.productReference != reference)) ==> r == Failure(ProductNotFound))
           && (((exists c :: c in t.companies && c.companyPrefix == prefix) &&
                (exists p :: p in t.products && p.productReference == reference)) ==>
                 (r.Success? <==> SameProductTexts(tags)) && (r.Failure? ==> r == Failure(InvalidSGTIN96Tag))))
  {
    if MatchesEventIdPattern(eventId) && |tags| > 0 && ParsedKey(codec, tags[0]).Some? {
      var (prefix, reference) := ParsedKey(codec, tags[0]).value;
      if exists c :: c in t.companies && c.companyPrefix == prefix {
        var c :| c in t.companies && c.companyPrefix == prefix;
        var i :| 0 <= i < |t.companies| && t.companies[i] == c;
        assert CompanyPrefixKey(t.companies[i]) == prefix;
      } else {
        forall i | 0 <= i < |t.companies| ensures CompanyPrefixKey(t.companies[i]) != prefix {
          assert t.companies[i] in t.companies;
        }
      }
      if exists p :: p in t.products && p.productReference == reference {
        var p :| p in t.products && p.productReference == reference;
        var i :| 0 <= i < |t.products| && t.products[i] == p;
        assert ProductReferenceKey(t.products[i]) == reference;
      } else {
        forall i | 0 <= i < |t.products| ensures ProductReferenceKey(t.products[i]) != reference {
          assert t.products[i] in t.products;
        }
      }
    }
  }

  /**
   * A successful insertion links its rows to the first company with the
   * first tag's prefix and to the first product with its reference.
   */
  lemma InsertUsesFirstMatches(t: Tables, ids: nat -> string, codec: Codec, eventId: string, location: string,
                               date: UtcDateTime, tags: seq<Sgtin96Tag>)
    requires InsertSpec(t, ids, codec, eventId, location, date, tags).1.Success?
    ensures |tags| > 0 && ParsedKey(codec, tags[0]).Some?
    ensures var inventory := InsertSpec(t, ids, codec, eventId, location, date, tags).1.value.0;
      var (prefix, reference) := ParsedKey(codec, tags[0]).value;
      && CompanyByPrefix(t.companies, prefix).Some?
      && inventory.companyId == t.companies[CompanyByPrefix(t.companies, prefix).value].companyId
      && ProductByReference(t.products, reference).Some?
      && inventory.productId == t.products[ProductByReference(t.products, reference).value].productId
  {
  }

  /**
   * The identifiers of a successful insertion come from the four draws in
   * this order: the tag set's link to its inventory, the inventory's link to
   * its tag set, the tag set's own id, and the inventory's own id.
   */
  lemma InsertDraws(t: Tables, ids: nat -> string, codec: Codec, eventId: string, location: string,
                    date: UtcDateTime, tags: seq<Sgtin96Tag>)
    requires InsertSpec(t, ids, codec, eventId, location, date, tags).1.Success?
    ensures var (inventory, tagSet) := InsertSpec(t, ids, codec, eventId, location, date, tags).1.value;
      var m := t.minted;
      && tagSet.inventoryId == ids(m)
      && inventory.tagsId == ids(m + 1)
      && tagSet.tagsId == ids(m + 2)
      && inventory.inventoryId == ids(m + 3)
  {
  }

  /**
   * So when the identifiers drawn differ (as they do when the GUIDs differ,
   * by `GuidIdsDiffer`), the stored tag set does not point at the inventory
   * stored with it, nor the inventory at that tag set.
   */
  lemma InsertCrossLinksMismatch(t: Tables, ids: nat -> string, codec: Codec, eventId: string, location: string,
                                 date: UtcDateTime, tags: seq<Sgtin96Tag>)
    requires InsertSpec(t, ids, codec, eventId, location, date, tags).1.Success?
    requires ids(t.minted) != ids(t.minted + 3) && ids(t.minted + 1) != ids(t.minted + 2)
    ensures var (inventory, tagSet) := InsertSpec(t, ids, codec, eventId, location, date, tags).1.value;
      && tagSet.inventoryId != inventory.inventoryId
      && inventory.tagsId != tagSet.tagsId
  {
    InsertDraws(t, ids, codec, eventId, location, date, tags);
  }

  /** An insertion keeps the store invariant. */
  lemma InsertPreservesValid(t: Tables, ids: nat -> string, codec: Codec, eventId: string, location: string,
                             date: UtcDateTime, tags: seq<Sgtin96Tag>)
    requires TablesValid(t)
    ensures TablesValid(InsertSpec(t, ids, codec, eventId, location, date, tags).0)
  {
    var r := InsertSpec(t, ids, codec, eventId, location, date, tags);
    if r.1.Success? {
      var (inventory, tagSet) := r.1.value;
      var (prefix, reference) := ParsedKey(codec, tags[0]).value;
      var c := t.companies[CompanyByPrefix(t.companies, prefix).value];
      var p := t.products[ProductByReference(t.products, reference).value];
      assert c in t.companies && p in t.products;
      assert inventory.companyId == c.companyId && inventory.productId == p.productId;
      assert |inventory.dateOfInventory| == 18;
      forall i | 0 <= i < |r.0.inventories|
        ensures PairValid(r.0, r.0.inventories[i], r.0.tagSets[i])
      {
        if i < |t.inventories| {
          PairValidGrows(t, r.0, t.inventories[i], t.tagSets[i]);
        }
      }
    }
  }

  /** The outcome of an insertion that gets past the lookups, as two cases. */
  lemma InsertSpecPastLookups(t: Tables, ids: nat -> string, codec: Codec, eventId: string, location: string,
                              date: UtcDateTime, tags: seq<Sgtin96Tag>, company: Company, product: Product)
    requires MatchesEventIdPattern(eventId) && |tags| > 0
    requires ResolveFirstTag(t, codec, tags[0]) == Success((company, product))
    ensures !SameProductTexts(tags) ==>
      InsertSpec(t, ids, codec, eventId, location, date, tags) == (t.(minted := t.minted + 3), Failure(InvalidSGTIN96Tag))
    ensures SameProductTexts(tags) ==>
      var rows := InsertedRows(t.minted, ids, eventId, location, date, tags, company, product);
      InsertSpec(t, ids, codec, eventId, location, date, tags) ==
        (t.(inventories := t.inventories + [rows.0], tagSets := t.tagSets + [rows.1], minted := t.minted + 4), Success(rows))
  {
  }

  /** The invariant does not depend on how many identifiers were drawn. */
  lemma ValidIgnoresMinted(t: Tables, minted: nat)
    requires TablesValid(t)
    ensures TablesValid(t.(minted := minted))
  {
    var u := t.(minted := minted);
    assert CompanyIds(u) == CompanyIds(t) && ProductIds(u) == ProductIds(t);
    forall i | 0 <= i < |u.inventories| ensures PairValid(u, u.inventories[i], u.tagSets[i]) {
      assert PairValid(t, t.inventories[i], t.tagSets[i]);
    }
  }

  /**
   * The loop of an insertion: every tag must repeat the first tag's two text
   * fields; the binary form of each is appended to the list until one does
   * not.
   */
  method CollectTags(tagList: StringList, tags: seq<Sgtin96Tag>) returns (ok: bool)
    requires |tags| > 0
    modifies tagList
    ensures ok == SameProductTexts(tags)
    ensures ok ==> tagList.items == old(tagList.items) + Binaries(tags)
  {
    var i := 0;
    while i < |tags|
      invariant 0 <= i <= |tags|
      invariant tagList.items == old(tagList.items) + Binaries(tags[..i])
      invariant forall j :: 0 <= j < i ==>
        tags[j].companyPrefix == tags[0].companyPrefix && tags[j].indicatorAndItemReference == tags[0].indicatorAndItemReference
    {
      if tags[i].companyPrefix != tags[0].companyPrefix || tags[i].indicatorAndItemReference != tags[0].indicatorAndItemReference {
        return false;
      }
      tagList.Add(tags[i].binary);
      assert tags[..i + 1] == tags[..i] + [tags[i]];
      i := i + 1;
    }
    assert tags[..i] == tags;
    return true;
  }

  // ----- The store object -----

  class CosmosDBService {
    var companies: seq<Company>
    var products: seq<Product>
    var inventories: seq<Inventory>
    var tagSets: seq<TagSet>
    var minted: nat
    /** What the calls of `GetGUID()` return, in order. */
    const ids: nat -> string

    function State(): Tables
      reads this
    {
      Tables(companies, products, inventories, tagSets, minted)
    }

    predicate Valid()
      reads this
    {
      TablesValid(State())
    }

    /** A new store is empty. */
    constructor (draws: nat -> Guid)
      ensures State() == Tables([], [], [], [], 0) && ids == GuidIds(draws)
      ensures Valid()
    {
      companies, products, inventories, tagSets, minted := [], [], [], [], 0;
      ids := GuidIds(draws);
    }

    /** `Utils.GetGUID()`: the next identifier of the draw. */
    method NextGuid() returns (id: string)
      modifies this
      ensures id == ids(old(minted)) && minted == old(minted) + 1
      ensures companies == old(companies) && products == old(products)
      ensures inventories == old(inventories) && tagSets == old(tagSets)
    {
      id := ids(minted);
      minted := minted + 1;
    }

    /** The company half of an upsert: the stored row of that name, or a new one. */
    method UpsertCompanyRow(companyDTO: CompanyDTO) returns (company: CompanyDTO)
      modifies this
      ensures fresh(company)
      ensures (State(), company.Value()) == UpsertCompany(old(State()), ids, companyDTO.Value())
    {
      var ci := CompanyByName(companies, companyDTO.companyName);
      if ci.None? {
        company := companyDTO.DeepCopy();
        var id := NextGuid();
        company.companyId := id;
        company.companyId2 := company.companyId;
        companies := companies + [company.Value()];
      } else {
        company := new CompanyDTO.FromRow(companies[ci.value]);
      }
    }

    /** The product half of an upsert: the stored row of that name, or a new one owned by `owner`. */
    method UpsertProductRow(productDTO: ProductDTO, owner: CompanyDTO) returns (product: ProductDTO)
      modifies this
      ensures fresh(product)
      ensures (State(), product.Value()) == UpsertProduct(old(State()), ids, owner.Value(), productDTO.Value())
    {
      var pi := ProductByName(products, productDTO.productName);
      if pi.None? {
        product := productDTO.DeepCopy();
        var id := NextGuid();
        product.productId := id;
        product.companyId := owner.companyId;
        products := products + [product.Value()];
      } else {
        product := new ProductDTO.FromRow(products[pi.value]);
      }
    }

    /**
     * Stores the company and the product unless a row of the same name (up to
     * case) exists already, and hands back fresh copies of the two rows.
     */
    method UpsertCompanyAndProductTuple(companyDTO: CompanyDTO, productDTO: ProductDTO)
      returns (r: Result<(CompanyDTO, ProductDTO), Fault>)
      requires Valid()
      modifies this
      ensures Valid()
      ensures var spec := UpsertSpec(old(State()), ids, companyDTO.Value(), productDTO.Value());
        && State() == spec.0
        && r.Failure? == spec.1.Failure?
        && (r.Failure? ==> r.error == spec.1.error)
        && (r.Success? ==> fresh(r.value.0) && fresh(r.value.1)
                           && r.value.0.Value() == spec.1.value.0 && r.value.1.Value() == spec.1.value.1)
    {
      ghost var t := State();
      UpsertPreservesValid(t, ids, companyDTO.Value(), productDTO.Value());
      if !CanRepresentValidSGTIN96Tag(companyDTO.companyPrefix, productDTO.productReference) {
        return Failure(InvalidSGTIN96CompanyProductCombination);
      }
      var ci := CompanyByName(companies, companyDTO.companyName);
      if ci.Some? && companies[ci.value].companyPrefix != companyDTO.companyPrefix {
        return Failure(ValueMismatch);
      }
      var pi := ProductByName(products, productDTO.productName);
      if pi.Some? && products[pi.value].productReference != products[pi.value].productReference {
        return Failure(ValueMismatch);
      }
      var company := UpsertCompanyRow(companyDTO);
      var product := UpsertProductRow(productDTO, company);
      var companyCopy := company.DeepCopy();
      var productCopy := product.DeepCopy();
      r := Success((companyCopy, productCopy));
    }

    /**
     * Draws the inventory's and the tag set's identifiers and the tag row's
     * own, then fills the tag row's list from the tags.
     */
    method DrawTagSet(companyId: string, productId: string, tags: seq<Sgtin96Tag>)
      returns (ok: bool, inventoryID: string, tagsID: string, tagsDTO: TagsSgtin96DTO)
      requires |tags| > 0
      modifies this
      ensures companies == old(companies) && products == old(products)
      ensures inventories == old(inventories) && tagSets == old(tagSets) && minted == old(minted) + 3
      ensures inventoryID == ids(old(minted)) && tagsID == ids(old(minted) + 1)
      ensures fresh(tagsDTO) && tagsDTO.tags != null && fresh(tagsDTO.tags)
      ensures ok == SameProductTexts(tags)
      ensures ok ==> tagsDTO.Value() == TagSet(ids(old(minted) + 2), companyId, productId, inventoryID, Binaries(tags))
    {
      inventoryID := NextGuid();
      tagsID := NextGuid();
      var ownTagsID := NextGuid();
      tagsDTO := new TagsSgtin96DTO.WithIds(ownTagsID, companyId, productId, inventoryID);
      ok := CollectTags(tagsDTO.tags, tags);
    }

    /**
     * The part of an insertion after the lookups: draws the identifiers,
     * fills the tag list and, when every tag names the same company and
     * product, appends the two rows.
     */
    method AppendTaggedInventory(company: Company, product: Product, eventId: string, location: string,
                                 date: UtcDateTime, tags: seq<Sgtin96Tag>)
      returns (ok: bool, inventoryDTO: InventoryDTO?, tagsDTO: TagsSgtin96DTO?)
      requires |tags| > 0
      modifies this
      ensures companies == old(companies) && products == old(products)
      ensures ok == SameProductTexts(tags)
      ensures !ok ==> inventories == old(inventories) && tagSets == old(tagSets) && minted == old(minted) + 3
      ensures ok ==>
        var rows := InsertedRows(old(minted), ids, eventId, location, date, tags, company, product);
        && inventoryDTO != null && tagsDTO != null && fresh(inventoryDTO) && fresh(tagsDTO)
        && inventoryDTO.Value() == rows.0 && tagsDTO.Value() == rows.1
        && inventories == old(inventories) + [rows.0] && tagSets == old(tagSets) + [rows.1]
        && minted == old(minted) + 4
    {
      var inventoryID, tagsID;
      ok, inventoryID, tagsID, tagsDTO := DrawTagSet(company.companyId, product.productId, tags);
      if !ok {
        inventoryDTO := null;
        return;
      }
      var ownInventoryID := NextGuid();
      inventoryDTO := new InventoryDTO.FromRow(Inventory(ownInventoryID, company.companyId, product.productId, |tags|,
        eventId, tagsID, location, ConvertDateTimeToUTCString(date)));
      tagSets := tagSets + [tagsDTO.Value()];
      inventories := inventories + [inventoryDTO.Value()];
    }

    /**
     * Stores one inventory and its tag set, all tags naming the same company
     * and product, and hands back the two records.
     */
    method InsertInventoryWithSGTIN96Tags(codec: Codec, inventoryEventID: string, inventoryLocation: string,
                                          dateOfInventory: UtcDateTime, tags: seq<Sgtin96Tag>)
      returns (r: Result<(InventoryDTO, TagsSgtin96DTO), Fault>)
      requires Valid()
      modifies this
      ensures Valid()
      ensures var spec := InsertSpec(old(State()), ids, codec, inventoryEventID, inventoryLocation, dateOfInventory, tags);
        && State() == spec.0
        && r.Failure? == spec.1.Failure?
        && (r.Failure? ==> r.error == spec.1.error)
        && (r.Success? ==> fresh(r.value.0) && fresh(r.value.1)
                           && r.value.0.Value() == spec.1.value.0 && r.value.1.Value() == spec.1.value.1)
    {
      ghost var t := State();
      if !MatchesEventIdPattern(inventoryEventID) {
        return Failure(InvalidID);
      }
      if |tags| == 0 {
        return Failure(ArgumentOutOfRange);
      }
      var resolved := ResolveFirstTag(State(), codec, tags[0]);
      if resolved.Failure? {
        return Failure(resolved.error);
      }
      var (company, product) := resolved.value;
      InsertSpecPastLookups(t, ids, codec, inventoryEventID, inventoryLocation, dateOfInventory, tags, company, product);
      var ok, inventoryDTO, tagsDTO := AppendTaggedInventory(company, product, inventoryEventID, inventoryLocation,
                                                             dateOfInventory, tags);
      if !ok {
        ValidIgnoresMinted(t, t.minted + 3);
        return Failure(InvalidSGTIN96Tag);
      }
      InsertPreservesValid(t, ids, codec, inventoryEventID, inventoryLocation, dateOfInventory, tags);
      r := Success((inventoryDTO, tagsDTO));
    }
  }
}
