/**
 The walk re-enters every extracted record, even one already listed. This
 module defines the walk that skips such records (append, then walk, only
 what is new) and proves that on an acyclic schema both walks, started from
 an empty list, produce the same list: re-entering a listed record adds
 nothing, because everything that record reaches is already listed.
 */
module Revisits {
  import opened Schemas
  import opened Extraction
  import opened Collection

  /** The walk that enters only records not listed yet. */
  function DiscoverOnce(s: Schema, acc: seq<Schema>): seq<Schema>
    requires s.Record?
    decreases Size(s), 0
  {
    DiscoverFields(s.fields, acc)
  }

  function DiscoverFields(fs: seq<Field>, acc: seq<Schema>): seq<Schema>
    decreases FieldsSize(fs), 2
  {
    if fs == [] then acc
    else
      var t := fs[0].schema;
      DiscoverFields(fs[1..], DiscoverExtracted(t, Found(CheckForRecord(t)), acc))
  }

  function DiscoverExtracted(t: Schema, xs: seq<Schema>, acc: seq<Schema>): seq<Schema>
    requires Extractable(t, xs)
    decreases Size(t), 1, |xs|
  {
    if xs == [] then acc
    else if xs[0] in acc then DiscoverExtracted(t, xs[1..], acc)
    else DiscoverExtracted(t, xs[1..], DiscoverOnce(xs[0], acc + [xs[0]]))
  }

  /** Everything `a` reaches is listed. */
  ghost predicate Closed(a: Schema, acc: seq<Schema>)
  {
    forall y :: Reaches(a, y) ==> y in acc
  }

  /**
   While record `s` is being walked, each listed record is closed, or is `s`
   itself, or is one of the records whose walk led to `s`.
   */
  ghost predicate Settled(acc: seq<Schema>, s: Schema)
  {
    forall a :: a in acc ==> Closed(a, acc) || a == s || Reaches(a, s)
  }

  lemma ReachesStep(a: Schema, b: Schema)
    requires RefersTo(a, b)
    ensures Reaches(a, b)
  {
    assert IsPath([a, b]);
  }

  lemma {:induction false} ReachesTransitive(a: Schema, b: Schema, c: Schema)
    requires Reaches(a, b) && Reaches(b, c)
    ensures Reaches(a, c)
  {
    var p: seq<Schema> :| |p| >= 2 && p[0] == a && p[|p| - 1] == b && IsPath(p);
    var q: seq<Schema> :| |q| >= 2 && q[0] == b && q[|q| - 1] == c && IsPath(q);
    var r := p + q[1..];
    assert IsPath(r) by {
      forall j | 0 <= j < |r| - 1 ensures RefersTo(r[j], r[j + 1]) {
        if j < |p| - 1 {
          assert r[j] == p[j] && r[j + 1] == p[j + 1];
        } else {
          assert r[j] == q[j - |p| + 1] && r[j + 1] == q[j - |p| + 2];
        }
      }
    }
    assert r[|r| - 1] == c;
  }

  /** A record referred to by `s` that is already listed is closed. */
  lemma ListedIsClosed(s: Schema, x: Schema, acc: seq<Schema>)
    requires Settled(acc, s) && RefersTo(s, x) && x in acc
    ensures Closed(x, acc)
  {
    RefersToSmaller(s, x);
    if Reaches(x, s) {
      ReachesStep(s, x);
      ReachesTransitive(x, s, x);
      ReachesSmaller(x, x);
    }
  }

  /** Entering a new record `x` that `s` refers to keeps the list settled for `x`. */
  lemma SettledForNew(s: Schema, x: Schema, acc: seq<Schema>)
    requires Settled(acc, s) && RefersTo(s, x)
    ensures Settled(acc + [x], x)
  {
    ReachesStep(s, x);
    forall a | a in acc + [x] ensures Closed(a, acc + [x]) || a == x || Reaches(a, x) {
      if a in acc && !Closed(a, acc) && a != x {
        if a != s {
          ReachesTransitive(a, s, x);
        }
      }
    }
  }

  /** After the walk of a record `x` that `s` refers to, the list is settled for `s` again. */
  lemma SettledAfterVisit(s: Schema, x: Schema, acc: seq<Schema>)
    requires Settled(acc, s) && RefersTo(s, x) && x.Record?
    ensures Settled(Collect(x, Remember(x, acc)), s)
  {
    var marked := Remember(x, acc);
    var out := Collect(x, marked);
    forall y ensures y in out <==> y in marked || Reaches(x, y) {
      CollectContents(x, marked, y);
    }
    forall a | a in out ensures Closed(a, out) || a == s || Reaches(a, s) {
      if a in acc {
        if Closed(a, acc) {
          assert Closed(a, out);
        }
      } else {
        forall y | Reaches(a, y) ensures y in out {
          if a != x {
            ReachesTransitive(x, a, y);
          }
        }
      }
    }
  }

  /**
   On a settled list, the walk as written and the walk that enters only new
   records produce the same list.
   */
  lemma {:induction false} CollectAgrees(s: Schema, acc: seq<Schema>)
    requires s.Record? && Settled(acc, s)
    ensures Collect(s, acc) == DiscoverOnce(s, acc)
    decreases Size(s), 0
  {
    FieldsAgree(s, s.fields, acc);
  }

  lemma {:induction false} FieldsAgree(s: Schema, fs: seq<Field>, acc: seq<Schema>)
    requires s.Record? && Settled(acc, s)
    requires forall i :: 0 <= i < |fs| ==> fs[i] in s.fields
    ensures CollectFields(fs, acc) == DiscoverFields(fs, acc)
    decreases FieldsSize(fs), 2
  {
    if fs != [] {
      var t := fs[0].schema;
      var xs := Found(CheckForRecord(t));
      forall x | x in xs ensures RefersTo(s, x) {
        CheckForRecordDenotes(t, x);
        var j :| 0 <= j < |s.fields| && s.fields[j] == fs[0];
      }
      ExtractedAgree(s, t, xs, acc);
      FieldsAgree(s, fs[1..], CollectExtracted(t, xs, acc));
    }
  }

  lemma {:induction false} ExtractedAgree(s: Schema, t: Schema, xs: seq<Schema>, acc: seq<Schema>)
    requires s.Record? && Settled(acc, s)
    requires forall x :: x in xs ==> x.Record? && Size(x) <= Size(t) && RefersTo(s, x)
    ensures CollectExtracted(t, xs, acc) == DiscoverExtracted(t, xs, acc)
    ensures Settled(CollectExtracted(t, xs, acc), s)
    decreases Size(t), 1, |xs|
  {
    if xs != [] {
      var x := xs[0];
      if x in acc {
        ListedIsClosed(s, x, acc);
        CollectClosed(x, acc);
        ExtractedAgree(s, t, xs[1..], acc);
      } else {
        SettledForNew(s, x, acc);
        CollectAgrees(x, acc + [x]);
        SettledAfterVisit(s, x, acc);
        ExtractedAgree(s, t, xs[1..], Collect(x, acc + [x]));
      }
    }
  }

  /**
   Started from an empty list, as the program does, the walk as written
   yields the same list as the walk that enters only new records.
   */
  lemma RevisitsAddNothing(root: Schema)
    requires root.Record?
    ensures Collect(root, []) == DiscoverOnce(root, [])
  {
    CollectAgrees(root, []);
  }
}
