/**
 Record extraction from one field type (App.checkForRecord): which record
 schemas a field's declared type denotes, directly or through one level of
 array, map or union unwrapping.
 */
module Extraction {
  import opened Schemas

  /** The records of an optional result; an absent result means none. */
  function Found(r: Option<seq<Schema>>): (xs: seq<Schema>)
    ensures r.Some? ==> xs == r.value
    ensures xs == [] <==> r.None? || r.value == []
  {
    match r
    case Some(xs) => xs
    case None => []
  }

  /**
   The records a field type yields. A present result is never empty, holds
   only records, and none of them is larger than the field type (see
   CheckForRecordDenotes for exactly which records they are).
   */
  function CheckForRecord(s: Schema): (r: Option<seq<Schema>>)
    ensures r.Some? ==> r.value != []
    ensures forall x :: x in Found(r) ==> x.Record? && Size(x) <= Size(s)
    decreases Size(s), 1
  {
    match s
    case Record(_, _) => Some([s])
    case Array(e) => if e.Record? then Some([e]) else None
    case Map(v) => if v.Record? then Some([v]) else None
    case Union(ms) =>
      var joined := JoinMembers(ms);
      if |joined| > 0 then Some(joined) else None
    case Other(_) => None
  }

  /** The records yielded by the members of a union, joined in member order. */
  function JoinMembers(ms: seq<Schema>): (r: seq<Schema>)
    ensures forall x :: x in r ==> x.Record? && Size(x) <= MembersSize(ms)
    decreases MembersSize(ms), 2
  {
    if ms == [] then [] else Found(CheckForRecord(ms[0])) + JoinMembers(ms[1..])
  }

  /**
   Reference definition, independent of the order of the result: the field
   type `t` denotes record `x` when `x` is `t` itself, the element type of an
   array or the value type of a map, or is denoted by some member of a union.
   Nothing is unwrapped further.
   */
  ghost predicate DenotesRecord(t: Schema, x: Schema)
    decreases t
  {
    x.Record? &&
    match t
    case Record(_, _) => x == t
    case Array(e) => x == e
    case Map(v) => x == v
    case Union(ms) => exists i :: 0 <= i < |ms| && DenotesRecord(ms[i], x)
    case Other(_) => false
  }

  /** CheckForRecord yields exactly the records the field type denotes. */
  lemma {:induction false} CheckForRecordDenotes(t: Schema, x: Schema)
    ensures x in Found(CheckForRecord(t)) <==> DenotesRecord(t, x)
    decreases Size(t), 1
  {
    if t.Union? {
      JoinMembersDenote(t.types, x);
    }
  }

  lemma {:induction false} JoinMembersDenote(ms: seq<Schema>, x: Schema)
    ensures x in JoinMembers(ms) <==> exists i :: 0 <= i < |ms| && DenotesRecord(ms[i], x)
    decreases MembersSize(ms), 2
  {
    if ms != [] {
      CheckForRecordDenotes(ms[0], x);
      JoinMembersDenote(ms[1..], x);
      if x in JoinMembers(ms[1..]) {
        var i :| 0 <= i < |ms[1..]| && DenotesRecord(ms[1..][i], x);
        assert DenotesRecord(ms[i + 1], x);
      }
      if i :| 0 <= i < |ms| && DenotesRecord(ms[i], x) {
        if i > 0 {
          assert DenotesRecord(ms[1..][i - 1], x);
        }
      }
    }
  }

  /**
   Without a union there is no joining: a field type yields at most one
   record, and it yields just `x` exactly when it denotes `x`. So a record
   yields itself, an array or map yields its element or value type when that
   is a record, and an array of arrays or of unions, like every other kind,
   yields nothing.
   */
  lemma DirectCases(t: Schema, x: Schema)
    requires !t.Union?
    ensures |Found(CheckForRecord(t))| <= 1
    ensures Found(CheckForRecord(t)) == [x] <==> DenotesRecord(t, x)
  {
    CheckForRecordDenotes(t, x);
  }

  /** A union's result is the concatenation, in member order, of its members' results. */
  lemma {:induction false} UnionJoinsInOrder(ms1: seq<Schema>, ms2: seq<Schema>)
    ensures Found(CheckForRecord(Union(ms1 + ms2)))
         == Found(CheckForRecord(Union(ms1))) + Found(CheckForRecord(Union(ms2)))
  {
    JoinMembersAppend(ms1, ms2);
  }

  lemma {:induction false} JoinMembersAppend(ms1: seq<Schema>, ms2: seq<Schema>)
    ensures JoinMembers(ms1 + ms2) == JoinMembers(ms1) + JoinMembers(ms2)
    decreases |ms1|
  {
    if ms1 == [] {
      assert ms1 + ms2 == ms2;
    } else {
      assert (ms1 + ms2)[1..] == ms1[1..] + ms2;
      JoinMembersAppend(ms1[1..], ms2);
    }
  }

  /** A one-member union yields what its member yields. */
  lemma UnionOfOne(m: Schema)
    ensures Found(CheckForRecord(Union([m]))) == Found(CheckForRecord(m))
  {
    assert JoinMembers([m]) == Found(CheckForRecord(m)) + JoinMembers([]);
  }

  /** A union yields nothing exactly when none of its members yields anything. */
  lemma {:induction false} UnionEmptyIff(ms: seq<Schema>)
    ensures CheckForRecord(Union(ms)).None? <==> forall i :: 0 <= i < |ms| ==> CheckForRecord(ms[i]).None?
  {
    JoinMembersEmptyIff(ms);
  }

  lemma {:induction false} JoinMembersEmptyIff(ms: seq<Schema>)
    ensures JoinMembers(ms) == [] <==> forall i :: 0 <= i < |ms| ==> CheckForRecord(ms[i]).None?
    decreases |ms|
  {
    if ms != [] {
      JoinMembersEmptyIff(ms[1..]);
      assert forall i :: 1 <= i < |ms| ==> ms[i] == ms[1..][i - 1];
    }
  }
}
