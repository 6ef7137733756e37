# avro-documenter core, modelled in Dafny

avro-documenter turns an Avro schema into an HTML page. For every record
type the root record refers to, the page shows a heading and a table of that
record's fields. A referring field may name the record directly, or through an
array, a map or a union. This project models the three pieces of logic in
`App.java`:

- **Record extraction** (`checkForRecord`), in module `Extraction`. One
  field's type yields the records it denotes:
  - a record yields itself;
  - an array or map whose element or value is a record yields that record;
  - a union yields what its members yield, joined in member order;
  - anything else yields nothing.

  An absent result (`Optional.empty()`) means "nothing found". A present
  result is never empty.
- **Reference collection** (`getReferencedRecords`), in module `Collection`.
  The walk goes through a record's fields in declared order. It appends each
  extracted record to one caller-owned list, unless the list already contains
  it. It then always walks that record's fields too. The list is a class
  (`RecordList`) that the method `GetReferencedRecords` changes in place. Its
  nested loops and the recursion are the source's. The functions
  `Collect`/`CollectFields`/`CollectExtracted` specify the same walk over an
  immutable list. The lemmas about them state the properties of the walk.
  Reachability is defined on its own terms, as paths in the reference graph
  (`RefersTo`, `IsPath`, `Reaches`).
- **Per-record tables** (`convertRecordToHtml`), in module `Rendering`. Each
  record gives a heading and rows of string triples, not HTML.
  `DocumentRecords` is the part of `main` that fills a fresh list and maps it
  to blocks.

Module `Schemas` holds the data model. A schema is an inductive datatype:
`Record`, `Array`, `Map`, `Union`, or `Other` for primitives, enums and fixed
types. A field holds a name, a schema and an optional doc string. `Size`
counts schema nodes and fields and is the termination measure of every traversal.

Module `Revisits` compares the walk as written with the usual visited-set
traversal, which enters only records not seen before. It proves that, started
from an empty list as the program starts, both produce the same list. From a
non-empty start they can differ: a record already listed is walked by the
program but skipped by the visited-set traversal.

Module `Scenarios` works through concrete schemas. The main one is an order
with a customer and an array of line items, each line item naming a product.
It yields `[Customer, LineItem, Product]`.

The program's walk differs from a visited-set traversal in three ways, and
the model follows the program:
- A visited-set traversal usually deduplicates by full name. The program uses
  `List.contains`, that is `Schema.equals`, and the model uses datatype
  equality. `Collection.UniqueFullNames` shows that full names are
  nevertheless distinct in the list, as long as no two reachable records share
  a full name, which Avro's parser guarantees.
- A visited-set traversal descends only into records not seen before. The
  program always descends (`App.java:77`), and so does the model.
  `Revisits.RevisitsAddNothing` shows that, started from an empty list, this
  changes nothing on acyclic schemas.
- A visited-set traversal terminates on cyclic schemas. On them the program
  recurses until the stack overflows (`StackOverflowError`) and writes no
  document; the model has no cyclic schemas.

## Model

| member | source | states |
|---|---|---|
| `Extraction.CheckForRecord` | src/main/java/org/apache/avro/documentation/App.java:41-65 | a present result is never an empty list; every schema yielded is a RECORD no larger than the field type, by `Size` (`CheckForRecordDenotes` says exactly which records) |
| `Extraction.JoinMembers` | src/main/java/org/apache/avro/documentation/App.java:50-59 | what the union members yield, joined: only records, none larger than the members together, by `MembersSize` |
| `Extraction.Found` | src/main/java/org/apache/avro/documentation/App.java:56-57 | the records of a result (`isPresent`/`get`): the result's list when present; empty exactly when the result is absent or holds an empty list |
| `Extraction.CheckForRecordDenotes` | src/main/java/org/apache/avro/documentation/App.java:41-65 | a record is yielded exactly when the field type denotes it: it is the type itself, an array's element, a map's value, or denoted by a union member; nothing is unwrapped deeper |
| `Extraction.JoinMembersDenote` | src/main/java/org/apache/avro/documentation/App.java:49-61 | a record is in the union's joined result exactly when some member denotes it |
| `Extraction.DirectCases` | src/main/java/org/apache/avro/documentation/App.java:42-64 | a field type that is not a union yields at most one record, and yields just `x` exactly when it denotes `x` (itself if a record, an array's element or a map's value if a record; never deeper) |
| `Extraction.UnionJoinsInOrder` | src/main/java/org/apache/avro/documentation/App.java:49-61 | the result of a union of `ms1 + ms2` is the result for `ms1` followed by the result for `ms2`: members are joined in declared order |
| `Extraction.JoinMembersAppend` | src/main/java/org/apache/avro/documentation/App.java:52-59 | joining over concatenated member lists concatenates the joined results |
| `Extraction.UnionOfOne` | src/main/java/org/apache/avro/documentation/App.java:52-59 | a one-member union yields what its member yields |
| `Extraction.UnionEmptyIff` | src/main/java/org/apache/avro/documentation/App.java:61 | a union yields nothing exactly when no member yields anything |
| `Extraction.JoinMembersEmptyIff` | src/main/java/org/apache/avro/documentation/App.java:51-61 | the joined list is empty exactly when every member yields nothing |
| `Collection.Remember` | src/main/java/org/apache/avro/documentation/App.java:73-75 | the dedup step: an `x` already listed leaves the list unchanged, a new `x` is appended at the end; either way the list afterwards holds exactly its old entries plus `x` |
| `Collection.Collect` | src/main/java/org/apache/avro/documentation/App.java:67-81 | the walk over a record's fields as a function of the list; its result keeps the initial list as a prefix |
| `Collection.CollectFields` | src/main/java/org/apache/avro/documentation/App.java:68-80 | the walk over a run of fields, in order; keeps the initial list as a prefix |
| `Collection.CollectExtracted` | src/main/java/org/apache/avro/documentation/App.java:72-78 | handling one field's extracted records in order, each remembered then always walked; keeps the initial list as a prefix |
| `Collection.RefersToSmaller` | src/main/java/org/apache/avro/documentation/App.java:69-77 | a record a field refers to is a strictly smaller tree than the record holding the field |
| `Collection.ReachesSmaller` | src/main/java/org/apache/avro/documentation/App.java:77 | every record reachable from a record is strictly smaller than it, so the recursion terminates and no record reaches itself |
| `Collection.ReachesUnfold` | src/main/java/org/apache/avro/documentation/App.java:68-77 | reachable means referred to directly, or reachable from a record referred to directly |
| `Collection.RememberAppendsFresh` | src/main/java/org/apache/avro/documentation/App.java:73-75 | the dedup step only appends, appends only an entry not already listed, and leaves `x` listed |
| `Collection.CollectAppendsFresh` | src/main/java/org/apache/avro/documentation/App.java:67-81 | the walk only appends: the initial list is a prefix of the final one, and each appended entry differs from every entry before it |
| `Collection.FieldsAppendFresh` | src/main/java/org/apache/avro/documentation/App.java:68-80 | the same for walking a run of fields |
| `Collection.ExtractedAppendFresh` | src/main/java/org/apache/avro/documentation/App.java:72-78 | the same for handling the records extracted from one field |
| `Collection.CollectContents` | src/main/java/org/apache/avro/documentation/App.java:67-81 | a record is in the final list exactly when it was in the initial list or is reachable from the root |
| `Collection.FieldsContents` | src/main/java/org/apache/avro/documentation/App.java:68-80 | a record is in the list after a run of fields exactly when it was there before or is reachable through one of those fields |
| `Collection.ExtractedContents` | src/main/java/org/apache/avro/documentation/App.java:72-78 | after the extracted records are handled, a record is listed exactly when it was before, is one of them, or is reachable from one of them |
| `Collection.CollectSpec` | src/main/java/org/apache/avro/documentation/App.java:67-81 | the final list is the initial list followed by every reachable record not already present, each exactly once; a duplicate-free list stays duplicate-free; the root is never added |
| `Collection.UniqueFullNames` | src/main/java/org/apache/avro/documentation/App.java:67-81 | from an empty list, when no two reachable records share a full name, the listed records have pairwise distinct full names |
| `Collection.CollectClosed` | src/main/java/org/apache/avro/documentation/App.java:73-77 | when every reachable record is already listed, the walk leaves the list unchanged |
| `Collection.CollectIdempotent` | src/main/java/org/apache/avro/documentation/App.java:67-81 | re-running the walk on the list it produced changes nothing |
| `Collection.FieldsInOrder` | src/main/java/org/apache/avro/documentation/App.java:68-80 | fields are walked in declared order: one field's whole walk completes before the next field starts |
| `Collection.DiscoveredBeforeDescendants` | src/main/java/org/apache/avro/documentation/App.java:72-78 | pre-order: a newly found record is appended before anything found beneath it; what follows it is exactly the records it reaches that were not listed yet, and its walk completes before the next extracted record is handled |
| `Collection.RecordList.constructor` | src/main/java/org/apache/avro/documentation/App.java:125 | a new list is empty |
| `Collection.RecordList.Contains` | src/main/java/org/apache/avro/documentation/App.java:73 | true exactly when an equal schema is in the list |
| `Collection.RecordList.Add` | src/main/java/org/apache/avro/documentation/App.java:74 | the schema is appended at the end; nothing else changes |
| `Collection.GetReferencedRecords` | src/main/java/org/apache/avro/documentation/App.java:67-81 | the list becomes `Collect(schema, old list)`: it only grows, by new entries, and gains exactly the reachable records it lacked |
| `Revisits.ListedIsClosed` | src/main/java/org/apache/avro/documentation/App.java:73-77 | during the walk, an already listed record that the current record refers to already has everything it reaches listed |
| `Revisits.SettledAfterVisit` | src/main/java/org/apache/avro/documentation/App.java:74-77 | after a referred record's walk, every listed record either has all it reaches listed or leads to the current record |
| `Revisits.CollectAgrees` | src/main/java/org/apache/avro/documentation/App.java:67-81 | on such a list, the walk as written (always re-entering) and the walk entering only new records give the same list |
| `Revisits.FieldsAgree` | src/main/java/org/apache/avro/documentation/App.java:68-80 | the same for a run of the record's fields |
| `Revisits.ExtractedAgree` | src/main/java/org/apache/avro/documentation/App.java:72-78 | the same for the extracted records of one field, and the list stays in that condition |
| `Revisits.RevisitsAddNothing` | src/main/java/org/apache/avro/documentation/App.java:125-126 | started from the empty list the program passes, re-entering listed records never changes the result (from a non-empty start it can) |
| `Schemas.FullName` | src/main/java/org/apache/avro/documentation/App.java:95 | stand-in for Avro's `getFullName`: a record's full name, a primitive's, enum's or fixed's name, and "array", "map" or "union" for an array, a map or a union |
| `Rendering.DocText` | src/main/java/org/apache/avro/documentation/App.java:96 | the doc text when present, "None provided." otherwise; the cell reads "None provided." exactly when the doc is absent or is that very text |
| `Rendering.FieldRow` | src/main/java/org/apache/avro/documentation/App.java:94-96 | one field's row: its name, its schema's full name, and a documentation cell holding the doc text when there is one, reading "None provided." exactly when the doc is absent or is that very text |
| `Rendering.FieldRows` | src/main/java/org/apache/avro/documentation/App.java:93-97 | one row per field, in declared order, each describing that field |
| `Rendering.RecordBlock` | src/main/java/org/apache/avro/documentation/App.java:83-103 | heading = the record's full name; first row = ("Field Name", "Field Type", "Documentation"); then per field, in order: its name, its schema's full name, its doc or "None provided." |
| `Rendering.Render` | src/main/java/org/apache/avro/documentation/App.java:130-133 | one block per record, in list order |
| `Rendering.DocumentRecords` | src/main/java/org/apache/avro/documentation/App.java:124-133 | the documented records are the walk's list from an empty start: duplicate-free, exactly the records reachable from the root, never the root; one block each, in that order; distinct headings when full names identify records |
| `Scenarios.OrderDocument` | src/main/java/org/apache/avro/documentation/App.java:67-103 | Order{customer: Customer, items: array<LineItem{product: Product}>} yields [Customer, LineItem, Product]; the blocks carry those headings and an undocumented field shows "None provided." |
| `Scenarios.OrderDiscovery` | src/main/java/org/apache/avro/documentation/App.java:67-81 | the order schema's walk from an empty list yields [Customer, LineItem, Product] |
| `Scenarios.LineItemWalk` | src/main/java/org/apache/avro/documentation/App.java:72-78 | walking the line item right after appending it appends the product |
| `Scenarios.OrderBlocks` | src/main/java/org/apache/avro/documentation/App.java:83-103 | the three blocks carry the records' full names as headings; the line item's rows are the header row, then "product" with "None provided.", then "quantity" with its doc |
| `Scenarios.OptionalRecord` | src/main/java/org/apache/avro/documentation/App.java:49-61 | a union of null and a record yields that record once, not the union |
| `Scenarios.SharedReference` | src/main/java/org/apache/avro/documentation/App.java:73-77 | a record referenced by two fields is listed once, though it is walked twice |

## Left out

- `parseArguments` (App.java:25-39) is left out: it is command-line parsing done by Apache Commons CLI.
- The I/O in `main` is left out: the existence check with its message and `System.exit(1)`, `FileInputStream`, `Schema.Parser`, the "Extracted %d record schemas" message, `FileWriter` and the `.html` suffix. The parsed root schema is a parameter of `DocumentRecords`.
- The HTML markup is left out: the j2html tags in `convertRecordToHtml`, the two `br()` elements, `createBody` and `renderFormatted`. A block is a heading and a sequence of rows.
- Cyclic schemas are not modelled. The schema datatype is inductive, so no record can refer back to itself. On such schemas the source recurses at App.java:77 until the stack overflows (`StackOverflowError`), because its recursive call is outside the dedup check, and no document is written.
- `Schema.getFullName` is a library method. `FullName` stands in for it: a record's full name, the name of a primitive, enum or fixed, and "array", "map" or "union" for unnamed composites.
- `Schema.equals` is modelled as structural equality of the datatype. Avro's `Schema.equals` and `Field.equals` ignore field docs and aliases; the datatype's equality compares field docs. The difference cannot show on a parsed schema: one full name has one definition there (the `NameConsistent` line below), so two records that differ only in a field doc do not both occur. The model has no aliases, properties or default values.
- `getFields()` on a non-record throws an Avro runtime exception. Instead, `Collect`, `GetReferencedRecords`, `RecordBlock` and `DocumentRecords` require a record. The program only calls them on the parsed root and on records that extraction produced.
- Enum, fixed and the primitive kinds are one case, `Other`, since extraction and the walk treat them alike.
- Avro's parser refuses a schema that defines two different types under one full name. The model does not enforce this on `Schema` values. `Collection.UniqueFullNames` and the distinct-headings clause of `Rendering.DocumentRecords` take it as the hypothesis `NameConsistent` instead.
