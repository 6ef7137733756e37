/**
 Reference collection (App.getReferencedRecords): walk a record's fields in
 declared order, extract the records each field type yields, append each one
 to a caller-owned list unless the list already contains it, and always walk
 that record's fields in turn, appending into the same list.
 */
module Collection {
  import opened Schemas
  import opened Extraction

  /*
   * Specification: the walk as functions that thread the list through.
   */

  /** The list after the dedup step: `x` appended unless already present. */
  function Remember(x: Schema, acc: seq<Schema>): (r: seq<Schema>)
    ensures |acc| <= |r| <= |acc| + 1 && r[..|acc|] == acc
    ensures forall y :: y in r <==> y in acc || y == x
    ensures x in acc ==> r == acc
    ensures x !in acc ==> r == acc + [x]
  {
    if x in acc then acc else acc + [x]
  }

  /** The list after walking the fields of record `s`, starting from `acc`. */
  function Collect(s: Schema, acc: seq<Schema>): (r: seq<Schema>)
    requires s.Record?
    ensures acc <= r
    decreases Size(s), 0
  {
    CollectFields(s.fields, acc)
  }

  /** The list after walking fields `fs` in order, starting from `acc`. */
  function CollectFields(fs: seq<Field>, acc: seq<Schema>): (r: seq<Schema>)
    ensures acc <= r
    decreases FieldsSize(fs), 2
  {
    if fs == [] then acc
    else
      var t := fs[0].schema;
      CollectFields(fs[1..], CollectExtracted(t, Found(CheckForRecord(t)), acc))
  }

  /** Records extracted from field type `t`: records no larger than `t`. */
  predicate Extractable(t: Schema, xs: seq<Schema>)
  {
    forall x :: x in xs ==> x.Record? && Size(x) <= Size(t)
  }

  /**
   The list after handling, in order, the records `xs` extracted from field
   type `t`: each is remembered and then always walked. `t` bounds the size
   of the records, which is what makes the walk terminate.
   */
  function CollectExtracted(t: Schema, xs: seq<Schema>, acc: seq<Schema>): (r: seq<Schema>)
    requires Extractable(t, xs)
    ensures acc <= r
    decreases Size(t), 1, |xs|
  {
    if xs == [] then acc
    else CollectExtracted(t, xs[1..], Collect(xs[0], Remember(xs[0], acc)))
  }

  /*
   * Reference definitions: the reference graph and reachability in it.
   */

  /** Record `a` has a field whose type denotes record `b`. */
  ghost predicate RefersTo(a: Schema, b: Schema)
  {
    a.Record? && exists i :: 0 <= i < |a.fields| && DenotesRecord(a.fields[i].schema, b)
  }

  /** Consecutive entries of `p` are joined by references. */
  ghost predicate IsPath(p: seq<Schema>)
  {
    forall j :: 0 <= j < |p| - 1 ==> RefersTo(p[j], p[j + 1])
  }

  /** `y` is reachable from `s` by one or more references. */
  ghost predicate Reaches(s: Schema, y: Schema)
  {
    exists p :: |p| >= 2 && p[0] == s && p[|p| - 1] == y && IsPath(p)
  }

  /** Each appended entry differs from every entry before it. */
  ghost predicate AppendsFresh(acc: seq<Schema>, out: seq<Schema>)
  {
    |acc| <= |out| && out[..|acc|] == acc &&
    forall i, j :: |acc| <= i < |out| && 0 <= j < i ==> out[i] != out[j]
  }

  ghost predicate NoDuplicates(s: seq<Schema>)
  {
    forall i, j :: 0 <= i < j < |s| ==> s[i] != s[j]
  }

  /*
   * Lemmas about the reference graph.
   */

  /** A reference leads to a strictly smaller schema tree. */
  lemma RefersToSmaller(a: Schema, b: Schema)
    requires RefersTo(a, b)
    ensures b.Record? && Size(b) < Size(a)
  {
    var i :| 0 <= i < |a.fields| && DenotesRecord(a.fields[i].schema, b);
    CheckForRecordDenotes(a.fields[i].schema, b);
  }

  /** Everything reachable is a record strictly smaller than the start. */
  lemma {:induction false} ReachesSmaller(s: Schema, y: Schema)
    requires Reaches(s, y)
    ensures y.Record? && Size(y) < Size(s)
  {
    var p: seq<Schema> :| |p| >= 2 && p[0] == s && p[|p| - 1] == y && IsPath(p);
    var k := 1;
    RefersToSmaller(p[0], p[1]);
    while k < |p| - 1
      invariant 1 <= k <= |p| - 1
      invariant p[k].Record? && Size(p[k]) < Size(s)
    {
      RefersToSmaller(p[k], p[k + 1]);
      k := k + 1;
    }
  }

  /** Reachability unfolded by one reference. */
  lemma ReachesUnfold(s: Schema, y: Schema)
    ensures Reaches(s, y) <==> exists x :: RefersTo(s, x) && (x == y || Reaches(x, y))
  {
    if Reaches(s, y) {
      var p: seq<Schema> :| |p| >= 2 && p[0] == s && p[|p| - 1] == y && IsPath(p);
      assert RefersTo(s, p[1]);
      if |p| > 2 {
        var q := p[1..];
        assert IsPath(q) by {
          forall j | 0 <= j < |q| - 1 ensures RefersTo(q[j], q[j + 1]) {
            assert q[j] == p[j + 1] && q[j + 1] == p[j + 2];
          }
        }
        assert Reaches(p[1], y);
      }
    }
    if x :| RefersTo(s, x) && (x == y || Reaches(x, y)) {
      if x == y {
        assert IsPath([s, y]);
      } else {
        var q: seq<Schema> :| |q| >= 2 && q[0] == x && q[|q| - 1] == y && IsPath(q);
        var p := [s] + q;
        assert IsPath(p) by {
          forall j | 0 <= j < |p| - 1 ensures RefersTo(p[j], p[j + 1]) {
            if j > 0 {
              assert p[j] == q[j - 1] && p[j + 1] == q[j];
            }
          }
        }
        assert p[|p| - 1] == y;
      }
    }
  }

  /** `y` is reachable through field type `t`: denoted by it, or reachable from what it denotes. */
  ghost predicate TypeReaches(t: Schema, y: Schema)
  {
    exists x :: DenotesRecord(t, x) && (x == y || Reaches(x, y))
  }

  /** `y` is reachable through one of the fields `fs`. */
  ghost predicate FieldsReach(fs: seq<Field>, y: Schema)
  {
    exists i :: 0 <= i < |fs| && TypeReaches(fs[i].schema, y)
  }

  /** `y` is one of `xs` or reachable from one of them. */
  ghost predicate AnyReaches(xs: seq<Schema>, y: Schema)
  {
    exists j :: 0 <= j < |xs| && (xs[j] == y || Reaches(xs[j], y))
  }

  lemma ReachesViaFields(s: Schema, y: Schema)
    requires s.Record?
    ensures Reaches(s, y) <==> FieldsReach(s.fields, y)
  {
    ReachesUnfold(s, y);
    if Reaches(s, y) {
      var x :| RefersTo(s, x) && (x == y || Reaches(x, y));
      var i :| 0 <= i < |s.fields| && DenotesRecord(s.fields[i].schema, x);
      assert TypeReaches(s.fields[i].schema, y);
    }
    if FieldsReach(s.fields, y) {
      var i :| 0 <= i < |s.fields| && TypeReaches(s.fields[i].schema, y);
      var x :| DenotesRecord(s.fields[i].schema, x) && (x == y || Reaches(x, y));
      assert RefersTo(s, x);
    }
  }

  lemma FieldsReachSplit(fs: seq<Field>, y: Schema)
    requires fs != []
    ensures FieldsReach(fs, y) <==> TypeReaches(fs[0].schema, y) || FieldsReach(fs[1..], y)
  {
    if FieldsReach(fs, y) {
      var i :| 0 <= i < |fs| && TypeReaches(fs[i].schema, y);
      if i > 0 {
        assert TypeReaches(fs[1..][i - 1].schema, y);
      }
    }
    if FieldsReach(fs[1..], y) {
      var i :| 0 <= i < |fs[1..]| && TypeReaches(fs[1..][i].schema, y);
      assert TypeReaches(fs[i + 1].schema, y);
    }
  }

  lemma AnyReachesSplit(xs: seq<Schema>, y: Schema)
    requires xs != []
    ensures AnyReaches(xs, y) <==> xs[0] == y || Reaches(xs[0], y) || AnyReaches(xs[1..], y)
  {
    if AnyReaches(xs, y) {
      var j :| 0 <= j < |xs| && (xs[j] == y || Reaches(xs[j], y));
      if j > 0 {
        assert xs[1..][j - 1] == xs[j];
      }
    }
    if AnyReaches(xs[1..], y) {
      var j :| 0 <= j < |xs[1..]| && (xs[1..][j] == y || Reaches(xs[1..][j], y));
      assert xs[j + 1] == xs[1..][j];
    }
  }

  /** What the extracted records of a field type reach is what the field type reaches. */
  lemma ExtractedReach(t: Schema, y: Schema)
    ensures AnyReaches(Found(CheckForRecord(t)), y) <==> TypeReaches(t, y)
  {
    var xs := Found(CheckForRecord(t));
    if AnyReaches(xs, y) {
      var j :| 0 <= j < |xs| && (xs[j] == y || Reaches(xs[j], y));
      CheckForRecordDenotes(t, xs[j]);
    }
    if TypeReaches(t, y) {
      var x :| DenotesRecord(t, x) && (x == y || Reaches(x, y));
      CheckForRecordDenotes(t, x);
      var j :| 0 <= j < |xs| && xs[j] == x;
    }
  }

  /*
   * Lemmas about the walk.
   */

  lemma AppendsFreshTransitive(a: seq<Schema>, b: seq<Schema>, c: seq<Schema>)
    requires AppendsFresh(a, b) && AppendsFresh(b, c)
    ensures AppendsFresh(a, c)
  {
    assert c[..|a|] == c[..|b|][..|a|];
  }

  lemma RememberAppendsFresh(x: Schema, acc: seq<Schema>)
    ensures AppendsFresh(acc, Remember(x, acc))
    ensures x in Remember(x, acc)
  {
    if x !in acc {
      var out := acc + [x];
      assert out[..|acc|] == acc;
      forall j | 0 <= j < |acc| ensures out[|acc|] != out[j] {
        assert out[j] == acc[j];
      }
    }
  }

  /** The walk only appends, and appends only entries not present before. */
  lemma {:induction false} CollectAppendsFresh(s: Schema, acc: seq<Schema>)
    requires s.Record?
    ensures AppendsFresh(acc, Collect(s, acc))
    decreases Size(s), 0
  {
    FieldsAppendFresh(s.fields, acc);
  }

  lemma {:induction false} FieldsAppendFresh(fs: seq<Field>, acc: seq<Schema>)
    ensures AppendsFresh(acc, CollectFields(fs, acc))
    decreases FieldsSize(fs), 2
  {
    if fs == [] {
      assert acc[..|acc|] == acc;
    } else {
      var t := fs[0].schema;
      var mid := CollectExtracted(t, Found(CheckForRecord(t)), acc);
      ExtractedAppendFresh(t, Found(CheckForRecord(t)), acc);
      FieldsAppendFresh(fs[1..], mid);
      AppendsFreshTransitive(acc, mid, CollectFields(fs[1..], mid));
    }
  }

  lemma {:induction false} ExtractedAppendFresh(t: Schema, xs: seq<Schema>, acc: seq<Schema>)
    requires Extractable(t, xs)
    ensures AppendsFresh(acc, CollectExtracted(t, xs, acc))
    decreases Size(t), 1, |xs|
  {
    if xs == [] {
      assert acc[..|acc|] == acc;
    } else {
      var marked := Remember(xs[0], acc);
      var walked := Collect(xs[0], marked);
      RememberAppendsFresh(xs[0], acc);
      CollectAppendsFresh(xs[0], marked);
      ExtractedAppendFresh(t, xs[1..], walked);
      AppendsFreshTransitive(acc, marked, walked);
      AppendsFreshTransitive(acc, walked, CollectExtracted(t, xs[1..], walked));
    }
  }

  /** An entry is in the final list exactly when it was in the initial list or is reachable. */
  lemma {:induction false} CollectContents(s: Schema, acc: seq<Schema>, y: Schema)
    requires s.Record?
    ensures y in Collect(s, acc) <==> y in acc || Reaches(s, y)
    decreases Size(s), 0
  {
    FieldsContents(s.fields, acc, y);
    ReachesViaFields(s, y);
  }

  lemma {:induction false} FieldsContents(fs: seq<Field>, acc: seq<Schema>, y: Schema)
    ensures y in CollectFields(fs, acc) <==> y in acc || FieldsReach(fs, y)
    decreases FieldsSize(fs), 2
  {
    if fs != [] {
      var t := fs[0].schema;
      var xs := Found(CheckForRecord(t));
      ExtractedContents(t, xs, acc, y);
      FieldsContents(fs[1..], CollectExtracted(t, xs, acc), y);
      ExtractedReach(t, y);
      FieldsReachSplit(fs, y);
    }
  }

  lemma {:induction false} ExtractedContents(t: Schema, xs: seq<Schema>, acc: seq<Schema>, y: Schema)
    requires Extractable(t, xs)
    ensures y in CollectExtracted(t, xs, acc) <==> y in acc || AnyReaches(xs, y)
    decreases Size(t), 1, |xs|
  {
    if xs != [] {
      var marked := Remember(xs[0], acc);
      var walked := Collect(xs[0], marked);
      CollectContents(xs[0], marked, y);
      ExtractedContents(t, xs[1..], walked, y);
      AnyReachesSplit(xs, y);
    }
  }

  /**
   The whole contract of the walk on a record `s`: the initial list is kept
   as a prefix; every appended entry is new and appears once; the appended
   entries are exactly the records reachable from `s` not already present;
   a duplicate-free list stays duplicate-free; the root itself is not added.
   */
  lemma CollectSpec(s: Schema, acc: seq<Schema>)
    requires s.Record?
    ensures var out := Collect(s, acc);
      && |acc| <= |out| && out[..|acc|] == acc
      && (forall i, j :: |acc| <= i < |out| && 0 <= j < i ==> out[i] != out[j])
      && (forall y :: y in out[|acc|..] <==> Reaches(s, y) && y !in acc)
      && (NoDuplicates(acc) ==> NoDuplicates(out))
      && (s !in acc ==> s !in out)
  {
    var out := Collect(s, acc);
    CollectAppendsFresh(s, acc);
    forall y ensures y in out[|acc|..] <==> Reaches(s, y) && y !in acc {
      CollectContents(s, acc, y);
      if y in out[|acc|..] {
        var i :| 0 <= i < |out[|acc|..]| && out[|acc|..][i] == y;
        assert out[|acc| + i] == y;
        forall j | 0 <= j < |acc| ensures acc[j] != y {
          assert out[j] == acc[j];
        }
      }
      if Reaches(s, y) && y !in acc {
        var i :| 0 <= i < |out| && out[i] == y;
        assert forall k :: 0 <= k < |acc| ==> out[k] == out[..|acc|][k];
        assert out[|acc|..][i - |acc|] == y;
      }
    }
    if NoDuplicates(acc) {
      forall i, j | 0 <= i < j < |out| ensures out[i] != out[j] {
        if j < |acc| {
          assert out[i] == acc[i] && out[j] == acc[j];
        }
      }
    }
    if s !in acc {
      CollectContents(s, acc, s);
      if Reaches(s, s) {
        ReachesSmaller(s, s);
      }
    }
  }

  lemma IndexedIsMember(s: seq<Schema>, i: nat)
    requires i < |s|
    ensures s[i] in s
  {
  }

  lemma EmptyWithoutMembers(s: seq<Schema>)
    requires forall y :: y !in s
    ensures |s| == 0
  {
    if |s| > 0 {
      IndexedIsMember(s, 0);
      assert false;
    }
  }

  /**
   Avro's parser gives each full name at most one definition, so two
   records reachable from the root that share a full name are the same record.
   */
  ghost predicate NameConsistent(root: Schema)
  {
    forall a, b :: Reaches(root, a) && Reaches(root, b) && a.Record? && b.Record? && a.fullName == b.fullName ==> a == b
  }

  /**
   Started from an empty list, the walk lists records whose full names are
   pairwise distinct, provided full names identify records.
   */
  lemma UniqueFullNames(root: Schema)
    requires root.Record? && NameConsistent(root)
    ensures var out := Collect(root, []);
      && (forall x :: x in out ==> x.Record?)
      && forall i, j :: 0 <= i < j < |out| ==> out[i].fullName != out[j].fullName
  {
    var out := Collect(root, []);
    CollectSpec(root, []);
    forall x | x in out ensures Reaches(root, x) && x.Record? {
      CollectContents(root, [], x);
      ReachesSmaller(root, x);
    }
    forall i, j | 0 <= i < j < |out| ensures out[i].fullName != out[j].fullName {
      assert out[i] in out && out[j] in out;
      assert out[i] != out[j];
    }
  }

  /** When everything reachable is already present, the walk adds nothing. */
  lemma CollectClosed(s: Schema, acc: seq<Schema>)
    requires s.Record?
    requires forall y :: Reaches(s, y) ==> y in acc
    ensures Collect(s, acc) == acc
  {
    var out := Collect(s, acc);
    CollectSpec(s, acc);
    var tail := out[|acc|..];
    forall y ensures y !in tail {
      if y in tail {
        CollectContents(s, acc, y);
      }
    }
    EmptyWithoutMembers(tail);
    assert out == out[..|acc|] + tail;
  }

  /** Re-running the walk on the list it produced changes nothing. */
  lemma CollectIdempotent(s: Schema, acc: seq<Schema>)
    requires s.Record?
    ensures Collect(s, Collect(s, acc)) == Collect(s, acc)
  {
    forall y | Reaches(s, y) ensures y in Collect(s, acc) {
      CollectContents(s, acc, y);
    }
    CollectClosed(s, Collect(s, acc));
  }

  /** Fields are walked one after another: each field's whole walk precedes the next. */
  lemma {:induction false} FieldsInOrder(fs1: seq<Field>, fs2: seq<Field>, acc: seq<Schema>)
    ensures CollectFields(fs1 + fs2, acc) == CollectFields(fs2, CollectFields(fs1, acc))
    decreases |fs1|
  {
    if fs1 == [] {
      assert fs1 + fs2 == fs2;
    } else {
      var t := fs1[0].schema;
      assert (fs1 + fs2)[1..] == fs1[1..] + fs2;
      FieldsInOrder(fs1[1..], fs2, CollectExtracted(t, Found(CheckForRecord(t)), acc));
    }
  }

  /**
   A record found for the first time is appended at once, and everything
   its own walk appends comes right after it, before the next extracted
   record is handled.
   */
  lemma DiscoveredBeforeDescendants(t: Schema, xs: seq<Schema>, acc: seq<Schema>)
    requires Extractable(t, xs)
    requires xs != [] && xs[0] !in acc
    ensures var walked := Collect(xs[0], acc + [xs[0]]);
      && |walked| > |acc| && walked[..|acc| + 1] == acc + [xs[0]]
      && CollectExtracted(t, xs, acc) == CollectExtracted(t, xs[1..], walked)
      && forall z :: z in walked[|acc| + 1..] <==> Reaches(xs[0], z) && z !in acc + [xs[0]]
  {
    CollectAppendsFresh(xs[0], acc + [xs[0]]);
    CollectSpec(xs[0], acc + [xs[0]]);
  }

  /*
   * The walk as the source runs it: a list changed in place.
   */

  /** The caller-owned list of referenced records, changed in place. */
  class RecordList {
    var elems: seq<Schema>

    constructor ()
      ensures elems == []
    {
      elems := [];
    }

    /** Membership by structural equality of schemas. */
    method Contains(x: Schema) returns (b: bool)
      ensures b <==> x in elems
    {
      b := x in elems;
    }

    method Add(x: Schema)
      modifies this
      ensures elems == old(elems) + [x]
    {
      elems := elems + [x];
    }
  }

  /** One step of the walk over fields, at position `i`. */
  lemma FieldsStepAt(fs: seq<Field>, i: nat, acc: seq<Schema>)
    requires i < |fs|
    ensures CollectFields(fs[i..], acc)
         == CollectFields(fs[i + 1..], CollectExtracted(fs[i].schema, Found(CheckForRecord(fs[i].schema)), acc))
  {
    assert fs[i..][1..] == fs[i + 1..];
  }

  /** One step over the extracted records, at position `j`. */
  lemma ExtractedStepAt(t: Schema, xs: seq<Schema>, j: nat, acc: seq<Schema>)
    requires Extractable(t, xs)
    requires j < |xs|
    ensures CollectExtracted(t, xs[j..], acc) == CollectExtracted(t, xs[j + 1..], Collect(xs[j], Remember(xs[j], acc)))
  {
    assert xs[j..][1..] == xs[j + 1..];
  }

  /**
   Walks the fields of `schema`, appending every record found to
   `referencedRecords` unless it is already there and always walking the
   record found. The list only grows by new entries; what it gains is exactly
   the records reachable from `schema` that it lacked.
   */
  method GetReferencedRecords(schema: Schema, referencedRecords: RecordList)
    requires schema.Record?
    modifies referencedRecords
    ensures referencedRecords.elems == Collect(schema, old(referencedRecords.elems))
    ensures AppendsFresh(old(referencedRecords.elems), referencedRecords.elems)
    ensures forall y :: y in referencedRecords.elems <==> y in old(referencedRecords.elems) || Reaches(schema, y)
    decreases Size(schema)
  {
    ghost var start := referencedRecords.elems;
    ghost var goal := CollectFields(schema.fields, start);
    var fields := schema.fields;
    var i := 0;
    while i < |fields|
      invariant 0 <= i <= |fields|
      invariant CollectFields(fields[i..], referencedRecords.elems) == goal
    {
      var fieldType := fields[i].schema;
      var result := CheckForRecord(fieldType);
      ghost var before := referencedRecords.elems;
      ghost var after := CollectExtracted(fieldType, Found(result), before);
      FieldsStepAt(fields, i, before);
      if result.Some? {
        var extracted := result.value;
        assert extracted == Found(result);
        assert Size(fieldType) < Size(schema);
        var j := 0;
        while j < |extracted|
          invariant 0 <= j <= |extracted|
          invariant CollectExtracted(fieldType, extracted[j..], referencedRecords.elems) == after
        {
          var extractedSchema := extracted[j];
          ghost var seen := referencedRecords.elems;
          ExtractedStepAt(fieldType, extracted, j, seen);
          var present := referencedRecords.Contains(extractedSchema);
          if !present {
            referencedRecords.Add(extractedSchema);
          }
          assert referencedRecords.elems == Remember(extractedSchema, seen);
          assert Size(extractedSchema) < Size(schema);
          GetReferencedRecords(extractedSchema, referencedRecords);
          assert referencedRecords.elems == Collect(extractedSchema, Remember(extractedSchema, seen));
          j := j + 1;
        }
        assert extracted[j..] == [];
      } else {
        assert Found(result) == [];
      }
      assert referencedRecords.elems == after;
      i := i + 1;
    }
    assert fields[i..] == [];
    CollectAppendsFresh(schema, start);
    forall y ensures y in referencedRecords.elems <==> y in start || Reaches(schema, y) {
      CollectContents(schema, start, y);
    }
  }
}
