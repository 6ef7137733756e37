/**
 The logical content of the generated document (App.convertRecordToHtml and
 the list-to-blocks step of App.main): one block per collected record, with
 the record's full name as heading and a table whose first row holds the
 column labels and whose other rows describe the fields. The HTML markup is
 not modelled.
 */
module Rendering {
  import opened Schemas
  import opened Collection

  /** One table row: field name, field type, documentation. */
  datatype Row = Row(name: string, typeName: string, documentation: string)

  /** One record's block: a heading and its table rows. */
  datatype Block = Block(heading: string, rows: seq<Row>)

  const HeaderRow: Row := Row("Field Name", "Field Type", "Documentation")
  const MissingDoc: string := "None provided."

  /**
   The documentation cell: the doc text when there is one, the placeholder
   otherwise; a doc that reads "None provided." cannot be told apart from a
   missing one.
   */
  function DocText(doc: Option<string>): (text: string)
    ensures doc.Some? ==> text == doc.value
    ensures text == "None provided." <==> doc.None? || doc == Some("None provided.")
  {
    match doc
    case Some(text) => text
    case None => MissingDoc
  }

  function FieldRow(f: Field): (row: Row)
    ensures row.name == f.name && row.typeName == FullName(f.schema)
    ensures f.doc.Some? ==> row.documentation == f.doc.value
    ensures row.documentation == MissingDoc <==> f.doc.None? || f.doc == Some(MissingDoc)
  {
    Row(f.name, FullName(f.schema), DocText(f.doc))
  }

  /** One row per field, in declared order. */
  function FieldRows(fs: seq<Field>): (rows: seq<Row>)
    ensures |rows| == |fs|
    ensures forall i :: 0 <= i < |fs| ==> rows[i] == FieldRow(fs[i])
  {
    if fs == [] then [] else [FieldRow(fs[0])] + FieldRows(fs[1..])
  }

  /**
   The block of a record: headed by its full name; a header row with the
   three column labels; then, field by field in declared order, the field
   name, the full name of the field's schema, and the doc text or the
   placeholder when there is none.
   */
  function RecordBlock(r: Schema): (b: Block)
    requires r.Record?
    ensures b.heading == r.fullName
    ensures |b.rows| == |r.fields| + 1
    ensures b.rows[0] == Row("Field Name", "Field Type", "Documentation")
    ensures forall i :: 0 <= i < |r.fields| ==>
      && b.rows[i + 1].name == r.fields[i].name
      && b.rows[i + 1].typeName == FullName(r.fields[i].schema)
      && b.rows[i + 1].documentation == (if r.fields[i].doc.Some? then r.fields[i].doc.value else "None provided.")
  {
    var rows := FieldRows(r.fields);
    assert forall i :: 0 <= i < |r.fields| ==> ([HeaderRow] + rows)[i + 1] == rows[i];
    Block(r.fullName, [HeaderRow] + rows)
  }

  /** The blocks of the records, one each, in list order. */
  function Render(records: seq<Schema>): (blocks: seq<Block>)
    requires forall x :: x in records ==> x.Record?
    ensures |blocks| == |records|
    ensures forall i :: 0 <= i < |records| ==> blocks[i] == RecordBlock(records[i])
  {
    if records == [] then [] else [RecordBlock(records[0])] + Render(records[1..])
  }

  /**
   From a parsed record schema to the document's blocks: a fresh list is
   filled by the walk and then rendered. The records documented are exactly
   those reachable from the root, each once, never the root itself, and the
   blocks follow the list.
   */
  method DocumentRecords(parsed: Schema) returns (records: seq<Schema>, blocks: seq<Block>)
    requires parsed.Record?
    ensures records == Collect(parsed, [])
    ensures NoDuplicates(records)
    ensures forall y :: y in records <==> Reaches(parsed, y)
    ensures parsed !in records
    ensures forall x :: x in records ==> x.Record?
    ensures |blocks| == |records|
    ensures forall i :: 0 <= i < |records| ==> blocks[i] == RecordBlock(records[i])
    ensures NameConsistent(parsed) ==>
      forall i, j :: 0 <= i < j < |blocks| ==> blocks[i].heading != blocks[j].heading
  {
    var referencedRecords := new RecordList();
    GetReferencedRecords(parsed, referencedRecords);
    records := referencedRecords.elems;
    CollectSpec(parsed, []);
    forall y | y in records ensures y.Record? {
      CollectContents(parsed, [], y);
      ReachesSmaller(parsed, y);
    }
    blocks := Render(records);
    if NameConsistent(parsed) {
      UniqueFullNames(parsed);
    }
  }
}
