/**
 * The mock items API (src/api/items.ts): the fixture list and detail table,
 * `fetchItems` and `fetchItemDetail`, with the response envelope of
 * src/types/api.ts. The simulated delay, the timestamp and the request id are
 * left out.
 */
module ItemsCatalog {
  import opened Wrappers
  import opened JsString

  datatype Item = Item(id: int, title: string, description: string, price: int, category: string, image: string)

  /** One row of an item's specifications; `labelText` is the source's `label` field (`label` is a Dafny keyword). */
  datatype Specification = Specification(labelText: string, value: string)

  /** An item with its specifications (`Item & { specifications }`). */
  datatype ItemDetail = ItemDetail(id: int, title: string, description: string, price: int, category: string,
                                   image: string, specifications: seq<Specification>)

  /** The `meta` field: `null`, or the list's paging information. */
  datatype Meta = NullMeta | PageMeta(page: int, limit: int)

  /** The response envelope shared by every endpoint. */
  datatype ApiResponse<T> = ApiResponse(success: bool, statusCode: int, message: string, data: T, meta: Meta)

  datatype ItemsListResponse = ItemsListResponse(items: seq<Item>, total: int)

  /** The detail payload; the not-found response carries an empty object, written `None`. */
  datatype ItemDetailResponse = ItemDetailResponse(item: Option<ItemDetail>)

  const MockItems: seq<Item> := [
    Item(1, "Laptop", "High-performance laptop for work and gaming", 12000000, "Electronics",
         "https://source.unsplash.com/400x300/?sig=1&fm=webp"),
    Item(2, "Smartphone", "Latest smartphone with advanced features", 8000000, "Electronics",
         "https://source.unsplash.com/400x300/?sig=2&fm=webp"),
    Item(3, "Headphones", "Wireless noise-cancelling headphones", 2500000, "Audio",
         "https://source.unsplash.com/400x300/?sig=3&fm=webp"),
    Item(4, "Keyboard", "Mechanical keyboard for typing enthusiasts", 1500000, "Accessories",
         "https://source.unsplash.com/400x300/?sig=4&fm=webp"),
    Item(5, "Monitor", "4K monitor for professional work", 5000000, "Electronics",
         "https://source.unsplash.com/400x300/?sig=5&fm=webp")
  ]

  const MockItemDetails: map<int, ItemDetail> := map[
    1 := ItemDetail(1, "Laptop", "High-performance laptop for work and gaming", 12000000, "Electronics",
                    "https://source.unsplash.com/800x600/?sig=1&fm=webp",
                    [Specification("Processor", "Intel Core i7"), Specification("RAM", "16GB"),
                     Specification("Storage", "512GB SSD"), Specification("Display", "15.6 inch FHD")]),
    2 := ItemDetail(2, "Smartphone", "Latest smartphone with advanced features", 8000000, "Electronics",
                    "https://source.unsplash.com/800x600/?sig=2&fm=webp",
                    [Specification("Screen", "6.5 inch AMOLED"), Specification("RAM", "8GB"),
                     Specification("Storage", "128GB"), Specification("Camera", "48MP + 12MP")]),
    3 := ItemDetail(3, "Headphones", "Wireless noise-cancelling headphones", 2500000, "Audio",
                    "https://source.unsplash.com/800x600/?sig=3&fm=webp",
                    [Specification("Type", "Over-ear"), Specification("Connectivity", "Bluetooth 5.0"),
                     Specification("Battery", "30 hours"), Specification("Noise Cancelling", "Active")]),
    4 := ItemDetail(4, "Keyboard", "Mechanical keyboard for typing enthusiasts", 1500000, "Accessories",
                    "https://source.unsplash.com/800x600/?sig=4&fm=webp",
                    [Specification("Type", "Mechanical"), Specification("Switch", "Cherry MX Blue"),
                     Specification("Layout", "Full-size"), Specification("Backlight", "RGB")]),
    5 := ItemDetail(5, "Monitor", "4K monitor for professional work", 5000000, "Electronics",
                    "https://source.unsplash.com/800x600/?sig=5&fm=webp",
                    [Specification("Size", "27 inch"), Specification("Resolution", "4K UHD (3840x2160)"),
                     Specification("Panel", "IPS"), Specification("Refresh Rate", "60Hz")])
  ]

  /** A detail entry describes the list item with the same id: same title, description, price and category. */
  predicate DescribesItem(d: ItemDetail, item: Item)
  {
    d.id == item.id && d.title == item.title && d.description == item.description
    && d.price == item.price && d.category == item.category
  }

  /**
   * The fixtures agree: the detail table's keys are exactly the list's ids,
   * every entry's id is its key, and it describes the list item with that id.
   */
  lemma FixturesAgree()
    ensures MockItemDetails.Keys == set i | 0 <= i < |MockItems| :: MockItems[i].id
    ensures forall k :: k in MockItemDetails ==> MockItemDetails[k].id == k
    ensures forall i :: 0 <= i < |MockItems| ==>
      MockItems[i].id in MockItemDetails && DescribesItem(MockItemDetails[MockItems[i].id], MockItems[i])
  {
    var ids := set i | 0 <= i < |MockItems| :: MockItems[i].id;
    assert MockItems[0].id == 1 && MockItems[1].id == 2 && MockItems[2].id == 3;
    assert MockItems[3].id == 4 && MockItems[4].id == 5;
    assert ids == {1, 2, 3, 4, 5};
  }

  /** `fetchItems()`: every mock item, with the count and the paging meta. */
  function FetchItems(): (r: ApiResponse<ItemsListResponse>)
    ensures r.success && r.statusCode == 200
    ensures r.data.items == MockItems && r.data.total == |r.data.items| == 5
  {
    ApiResponse(true, 200, "Items fetched successfully", ItemsListResponse(MockItems, |MockItems|), PageMeta(1, 10))
  }

  /** The envelope for a parsed key: the table entry under it, or a 404. */
  function DetailForKey(key: Option<int>): (r: ApiResponse<ItemDetailResponse>)
    ensures r.meta == NullMeta
    ensures r.success <==> key.Some? && key.value in MockItemDetails
    ensures r.success ==> r.statusCode == 200 && r.data.item == Some(MockItemDetails[key.value])
    ensures !r.success ==> r.statusCode == 404 && r.message == "Item not found" && r.data.item == None
  {
    if key.Some? && key.value in MockItemDetails then
      ApiResponse(true, 200, "Item detail fetched successfully", ItemDetailResponse(Some(MockItemDetails[key.value])), NullMeta)
    else
      ApiResponse(false, 404, "Item not found", ItemDetailResponse(None), NullMeta)
  }

  /** `fetchItemDetail(itemId)`: the entry under `parseInt(itemId, 10)`, or a 404 envelope. */
  function FetchItemDetail(itemId: string): ApiResponse<ItemDetailResponse>
  {
    DetailForKey(ParseInt(itemId))
  }

  /** Only the leading digits decide the key: "3" and "3abc" fetch the same item. */
  lemma TrailingTextIgnored(id: nat, rest: string)
    requires |rest| > 0 ==> !IsDigit(rest[0])
    ensures FetchItemDetail(NatToString(id) + rest) == FetchItemDetail(NatToString(id))
  {
    ParseIntOfNatString(id, rest);
    ParseIntOfNatString(id, "");
    assert NatToString(id) + "" == NatToString(id);
  }

  /**
   * Every item of the list response can be opened: asking for the decimal
   * form of its id succeeds with a detail that describes that item.
   */
  lemma ListedItemsHaveDetails(i: nat)
    requires i < |FetchItems().data.items|
    ensures var item := FetchItems().data.items[i];
      var r := FetchItemDetail(NatToString(item.id as nat));
      r.success && r.data.item.Some? && DescribesItem(r.data.item.value, item)
  {
    FixturesAgree();
    var item := MockItems[i];
    ParseIntOfNatString(item.id as nat, "");
    assert NatToString(item.id as nat) + "" == NatToString(item.id as nat);
  }

  /** Ids outside the table, whatever suffix follows them, get the 404 envelope. */
  lemma UnknownIdNotFound(id: nat, rest: string)
    requires id !in MockItemDetails
    requires |rest| > 0 ==> !IsDigit(rest[0])
    ensures FetchItemDetail(NatToString(id) + rest).statusCode == 404
  {
    ParseIntOfNatString(id, rest);
  }

  /** A string that starts with a letter is `NaN` to `parseInt`, and gets the 404 envelope. */
  lemma NonNumericIdNotFound(itemId: string)
    requires |itemId| > 0 && ('a' <= itemId[0] <= 'z' || 'A' <= itemId[0] <= 'Z')
    ensures FetchItemDetail(itemId).statusCode == 404
  {
    assert TrimStart(itemId) == itemId;
  }
}
