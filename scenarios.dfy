/**
 Concrete schemas worked through the model: an order with a customer and an
 array of line items, each line item naming a product; an optional record
 written as a union with null; and a record referenced by two fields.
 */
module Scenarios {
  import opened Schemas
  import opened Extraction
  import opened Collection
  import opened Rendering

  const Product: Schema := Record("com.acme.Product", [Field("sku", Other("string"), None)])
  const LineItem: Schema := Record("com.acme.LineItem",
    [Field("product", Product, None), Field("quantity", Other("int"), Some("How many units"))])
  const Customer: Schema := Record("com.acme.Customer", [Field("name", Other("string"), Some("Full name"))])
  const Order: Schema := Record("com.acme.Order",
    [Field("customer", Customer, None), Field("items", Array(LineItem), None)])

  lemma FieldsStep(f: Field, fs: seq<Field>, acc: seq<Schema>)
    ensures CollectFields([f] + fs, acc)
         == CollectFields(fs, CollectExtracted(f.schema, Found(CheckForRecord(f.schema)), acc))
  {
    assert ([f] + fs)[1..] == fs;
  }

  lemma ExtractedOne(t: Schema, x: Schema, acc: seq<Schema>)
    requires x.Record? && Size(x) <= Size(t)
    ensures CollectExtracted(t, [x], acc) == Collect(x, Remember(x, acc))
  {
    assert [x][1..] == [];
  }

  /** A record whose only field has a primitive type adds nothing. */
  lemma LeafRecord(name: string, field: string, prim: string, doc: Option<string>, acc: seq<Schema>)
    ensures Collect(Record(name, [Field(field, Other(prim), doc)]), acc) == acc
  {
    FieldsStep(Field(field, Other(prim), doc), [], acc);
    assert [Field(field, Other(prim), doc)] + [] == [Field(field, Other(prim), doc)];
  }

  /**
   Discovery is depth-first in field order: the customer, then the line item,
   then the product found beneath it; the document has one block per record
   in that order, and a field without documentation shows the placeholder.
   */
  lemma OrderDocument()
    ensures Collect(Order, []) == [Customer, LineItem, Product]
    ensures var blocks := Render([Customer, LineItem, Product]);
      && [blocks[0].heading, blocks[1].heading, blocks[2].heading]
         == ["com.acme.Customer", "com.acme.LineItem", "com.acme.Product"]
      && blocks[1].rows == [Row("Field Name", "Field Type", "Documentation"),
                            Row("product", "com.acme.Product", "None provided."),
                            Row("quantity", "int", "How many units")]
  {
    OrderDiscovery();
    OrderBlocks();
  }

  lemma OrderBlocks()
    ensures var blocks := Render([Customer, LineItem, Product]);
      && [blocks[0].heading, blocks[1].heading, blocks[2].heading]
         == ["com.acme.Customer", "com.acme.LineItem", "com.acme.Product"]
      && blocks[1].rows == [Row("Field Name", "Field Type", "Documentation"),
                            Row("product", "com.acme.Product", "None provided."),
                            Row("quantity", "int", "How many units")]
  {
  }

  lemma DistinctRecords()
    ensures Customer != LineItem && Customer != Product && LineItem != Product
  {
    assert Customer.fullName[9] == 'C' && LineItem.fullName[9] == 'L' && Product.fullName[9] == 'P';
  }

  /** The line item, walked after it was appended, appends the product. */
  lemma LineItemWalk()
    ensures Collect(LineItem, [Customer, LineItem]) == [Customer, LineItem, Product]
  {
    DistinctRecords();
    var productField := Field("product", Product, None);
    var quantityField := Field("quantity", Other("int"), Some("How many units"));
    LeafRecord("com.acme.Product", "sku", "string", None, [Customer, LineItem, Product]);
    ExtractedOne(Product, Product, [Customer, LineItem]);
    assert Remember(Product, [Customer, LineItem]) == [Customer, LineItem, Product];
    FieldsStep(productField, [quantityField], [Customer, LineItem]);
    FieldsStep(quantityField, [], [Customer, LineItem, Product]);
    assert LineItem.fields == [productField] + [quantityField];
  }

  /** The items field, an array of line items, appends the line item and then the product. */
  lemma ItemsField()
    ensures CollectExtracted(Array(LineItem), [LineItem], [Customer]) == [Customer, LineItem, Product]
  {
    DistinctRecords();
    LineItemWalk();
    ExtractedOne(Array(LineItem), LineItem, [Customer]);
    assert Remember(LineItem, [Customer]) == [Customer, LineItem];
  }

  /** The customer field appends the customer, which adds nothing beneath it. */
  lemma CustomerField()
    ensures CollectExtracted(Customer, [Customer], []) == [Customer]
  {
    LeafRecord("com.acme.Customer", "name", "string", Some("Full name"), [Customer]);
    ExtractedOne(Customer, Customer, []);
  }

  lemma OrderDiscovery()
    ensures Collect(Order, []) == [Customer, LineItem, Product]
  {
    var customerField := Field("customer", Customer, None);
    var itemsField := Field("items", Array(LineItem), None);
    CustomerField();
    ItemsField();
    FieldsStep(customerField, [itemsField], []);
    FieldsStep(itemsField, [], [Customer]);
    assert Order.fields == [customerField] + [itemsField];
    assert [itemsField] + [] == [itemsField];
  }

  /** An optional record, a union of null and the record, yields the record once. */
  lemma OptionalRecord()
    ensures CheckForRecord(Union([Other("null"), Customer])) == Some([Customer])
  {
    var members := [Other("null"), Customer];
    assert members[1..] == [Customer];
    assert CheckForRecord(Customer) == Some([Customer]);
    assert JoinMembers([Customer]) == [Customer] + JoinMembers([]);
    assert JoinMembers(members) == [] + JoinMembers([Customer]);
    assert JoinMembers(members) == [Customer];
    var u := Union(members);
    assert CheckForRecord(u) == Some(JoinMembers(u.types));
  }

  /** A record referenced by two fields is listed once, though it is walked twice. */
  lemma SharedReference()
    ensures Collect(Record("com.acme.Pair", [Field("left", Customer, None), Field("right", Customer, None)]), [])
         == [Customer]
  {
    var left := Field("left", Customer, None);
    var right := Field("right", Customer, None);
    LeafRecord("com.acme.Customer", "name", "string", Some("Full name"), [Customer]);
    ExtractedOne(Customer, Customer, []);
    ExtractedOne(Customer, Customer, [Customer]);
    FieldsStep(left, [right], []);
    FieldsStep(right, [], [Customer]);
    assert [right] + [] == [right];
  }
}
