/** Aggregates as finite trees (pkg/errors/aggregate.go). Every error that is not an aggregate,
wrapper or not, is a plain one here: none of these functions looks inside it. An Aggregate may
come from elsewhere, so empty ones and nil members are allowed. */
module AggregateErrors {

  datatype Err = Nil | Plain(id: nat) | Agg(errs: seq<Err>)

  type Matcher = nat -> bool

  function NonNil(list: seq<Err>): seq<Err> {
    if list == [] then []
    else NonNil(list[..|list| - 1]) + (if list[|list| - 1].Nil? then [] else [list[|list| - 1]])
  }

  /** The aggregate of the non-nil members of a list, or nil if there are none. */
  function Bundle(list: seq<Err>): Err {
    if NonNil(list) == [] then Nil else Agg(NonNil(list))
  }

  method NewAggregate(list: seq<Err>) returns (r: Err)
    ensures r == Bundle(list)
  {
    if |list| == 0 {
      return Nil;
    }
    var errs := [];
    for i := 0 to |list|
      invariant errs == NonNil(list[..i])
    {
      assert list[..i + 1][..i] == list[..i];
      if !list[i].Nil? {
        errs := errs + [list[i]];
      }
    }
    assert list[..|list|] == list;
    return if |errs| == 0 then Nil else Agg(errs);
  }

  /** The plain errors of a tree, left to right. */
  function Leaves(e: Err): seq<nat>
    decreases e, 1
  {
    match e
    case Nil => []
    case Plain(id) => [id]
    case Agg(errs) => LeavesOfAll(errs)
  }

  function LeavesOfAll(es: seq<Err>): seq<nat>
    decreases es, 0
  {
    if es == [] then [] else LeavesOfAll(es[..|es| - 1]) + Leaves(es[|es| - 1])
  }

  function Plains(ids: seq<nat>): (es: seq<Err>)
    ensures |es| == |ids| && forall i :: 0 <= i < |es| ==> es[i] == Plain(ids[i])
  {
    seq(|ids|, i requires 0 <= i < |ids| => Plain(ids[i]))
  }

  lemma {:induction false} NoNils(es: seq<Err>)
    requires forall i :: 0 <= i < |es| ==> !es[i].Nil?
    ensures NonNil(es) == es
  {
    if es != [] {
      NoNils(es[..|es| - 1]);
    }
  }

  lemma {:induction false} LeavesOfPlains(ids: seq<nat>)
    ensures LeavesOfAll(Plains(ids)) == ids
  {
    if ids != [] {
      var n := |ids| - 1;
      assert Plains(ids)[..n] == Plains(ids[..n]);
      LeavesOfPlains(ids[..n]);
    }
  }

  /** The leaves of a list are those of its parts, one after the other, at any place it is cut; with
      the cases of one member this is all there is to know about them. */
  lemma {:induction false} LeavesSplit(a: seq<Err>, b: seq<Err>)
    ensures Leaves(Agg(a + b)) == Leaves(Agg(a)) + Leaves(Agg(b))
    decreases |b|
  {
    if b == [] {
      assert a + b == a;
    } else {
      var n := |b| - 1;
      assert (a + b)[..|a + b| - 1] == a + b[..n];
      LeavesSplit(a, b[..n]);
    }
  }

  lemma LeavesOfOne(e: Err)
    ensures Leaves(Agg([e])) == match e case Nil => [] case Plain(id) => [id] case Agg(errs) => Leaves(Agg(errs))
  {
    assert LeavesOfAll([e]) == LeavesOfAll([e][..0]) + Leaves(e);
  }

  // ---------------------------------------------------------------- Flatten

  /** One aggregate holding the plain errors of the tree in order, or nil if there are none. */
  function Flat(e: Err): Err {
    Bundle(Plains(Leaves(e)))
  }

  ghost predicate IsFlat(e: Err) {
    e.Agg? ==> forall i :: 0 <= i < |e.errs| ==> e.errs[i].Plain?
  }

  lemma FlatContents(e: Err)
    ensures Flat(e) == if Leaves(e) == [] then Nil else Agg(Plains(Leaves(e)))
  {
    NoNils(Plains(Leaves(e)));
  }

  lemma LeavesSnoc(es: seq<Err>, i: nat)
    requires i < |es|
    ensures Plains(LeavesOfAll(es[..i + 1])) == Plains(LeavesOfAll(es[..i])) + Plains(Leaves(es[i]))
  {
    assert es[..i + 1][..i] == es[..i];
  }

  method Flatten(agg: Err) returns (r: Err)
    requires !agg.Plain?
    ensures r == Flat(agg)
    decreases agg
  {
    var result: seq<Err> := [];
    if agg.Nil? {
      return Nil;
    }
    for i := 0 to |agg.errs|
      invariant result == Plains(LeavesOfAll(agg.errs[..i]))
    {
      LeavesSnoc(agg.errs, i);
      FlatContents(agg.errs[i]);
      if agg.errs[i].Agg? {
        var nested := Flatten(agg.errs[i]);
        if !nested.Nil? {
          result := result + nested.errs;
        }
      } else if !agg.errs[i].Nil? {
        result := result + [agg.errs[i]];
      }
    }
    assert agg.errs[..|agg.errs|] == agg.errs;
    r := NewAggregate(result);
  }

  /** Flattening keeps the sequence of plain errors, leaves no aggregate inside, and gives nil
      exactly when there was no plain error; so flattening again changes nothing. */
  lemma FlatKeepsLeaves(e: Err)
    ensures Leaves(Flat(e)) == Leaves(e)
    ensures IsFlat(Flat(e)) && !Flat(e).Plain?
    ensures Flat(e).Nil? <==> Leaves(e) == []
    ensures Flat(Flat(e)) == Flat(e)
  {
    FlatContents(e);
    LeavesOfPlains(Leaves(e));
    FlatContents(Flat(e));
  }

  // ---------------------------------------------------------------- FilterOut

  ghost predicate Matches(fns: seq<Matcher>, id: nat) {
    exists i :: 0 <= i < |fns| && fns[i](id)
  }

  method MatchesError(id: nat, fns: seq<Matcher>) returns (ok: bool)
    ensures ok <==> Matches(fns, id)
  {
    for i := 0 to |fns|
      invariant forall j :: 0 <= j < i ==> !fns[j](id)
    {
      if fns[i](id) {
        return true;
      }
    }
    return false;
  }

  /** The ids that no matcher matches, in order. */
  ghost function Keep(ids: seq<nat>, fns: seq<Matcher>): seq<nat> {
    if ids == [] then []
    else Keep(ids[..|ids| - 1], fns) + (if Matches(fns, ids[|ids| - 1]) then [] else [ids[|ids| - 1]])
  }

  ghost function Prune(e: Err, fns: seq<Matcher>): Err
    decreases e, 1
  {
    match e
    case Nil => Nil
    case Plain(id) => if Matches(fns, id) then Nil else e
    case Agg(errs) => Bundle(PruneAll(errs, fns))
  }

  ghost function PruneAll(es: seq<Err>, fns: seq<Matcher>): (r: seq<Err>)
    ensures forall i :: 0 <= i < |r| ==> !r[i].Nil?
    decreases es, 0
  {
    if es == [] then []
    else
      var last := Prune(es[|es| - 1], fns);
      PruneAll(es[..|es| - 1], fns) + (if last.Nil? then [] else [last])
  }

  method FilterOut(err: Err, fns: seq<Matcher>) returns (r: Err)
    ensures r == Prune(err, fns)
    decreases err, 1
  {
    if err.Nil? {
      return Nil;
    }
    if err.Agg? {
      var kept := FilterErrors(err.errs, fns);
      r := NewAggregate(kept);
      return;
    }
    var matched := MatchesError(err.id, fns);
    return if !matched then err else Nil;
  }

  method FilterErrors(list: seq<Err>, fns: seq<Matcher>) returns (result: seq<Err>)
    ensures result == PruneAll(list, fns)
    decreases list, 0
  {
    result := [];
    for i := 0 to |list|
      invariant result == PruneAll(list[..i], fns)
    {
      assert list[..i + 1][..i] == list[..i];
      var r := FilterOut(list[i], fns);
      if !r.Nil? {
        result := result + [r];
      }
    }
    assert list[..|list|] == list;
  }

  /** No aggregate of the tree is empty or holds nil. */
  ghost predicate Tidy(e: Err)
    decreases e
  {
    e.Agg? ==> e.errs != [] && forall i :: 0 <= i < |e.errs| ==> !e.errs[i].Nil? && Tidy(e.errs[i])
  }

  lemma {:induction false} KeepConcat(a: seq<nat>, b: seq<nat>, fns: seq<Matcher>)
    ensures Keep(a + b, fns) == Keep(a, fns) + Keep(b, fns)
    decreases |b|
  {
    if b == [] {
      assert a + b == a;
    } else {
      var n := |b| - 1;
      assert (a + b)[..|a + b| - 1] == a + b[..n];
      KeepConcat(a, b[..n], fns);
    }
  }

  /** FilterOut keeps exactly the unmatched plain errors, in order, and leaves no empty aggregate;
      it gives nil exactly when every plain error matched. */
  lemma {:induction false} PruneKeepsUnmatched(e: Err, fns: seq<Matcher>)
    ensures Leaves(Prune(e, fns)) == Keep(Leaves(e), fns)
    ensures Tidy(Prune(e, fns))
    ensures Prune(e, fns).Nil? <==> Keep(Leaves(e), fns) == []
    decreases e, 1
  {
    match e
    case Nil =>
    case Plain(id) =>
      assert Leaves(e)[..0] == [];
    case Agg(errs) =>
      PruneAllKeepsUnmatched(errs, fns);
      NoNils(PruneAll(errs, fns));
  }

  lemma {:induction false} PruneAllKeepsUnmatched(es: seq<Err>, fns: seq<Matcher>)
    ensures LeavesOfAll(PruneAll(es, fns)) == Keep(LeavesOfAll(es), fns)
    ensures forall i :: 0 <= i < |PruneAll(es, fns)| ==> Tidy(PruneAll(es, fns)[i])
    ensures PruneAll(es, fns) == [] <==> Keep(LeavesOfAll(es), fns) == []
    decreases es, 0
  {
    if es != [] {
      var n := |es| - 1;
      PruneAllKeepsUnmatched(es[..n], fns);
      PruneKeepsUnmatched(es[n], fns);
      KeepConcat(LeavesOfAll(es[..n]), Leaves(es[n]), fns);
      var last := Prune(es[n], fns);
      var before := PruneAll(es[..n], fns);
      assert (before + [last])[..|before|] == before && before + [] == before;
      assert LeavesOfAll(before + [last]) == LeavesOfAll(before) + Leaves(last);
    }
  }

  ghost predicate NoneMatch(ids: seq<nat>, fns: seq<Matcher>) {
    forall i :: 0 <= i < |ids| ==> !Matches(fns, ids[i])
  }

  lemma {:induction false} KeptDoNotMatch(ids: seq<nat>, fns: seq<Matcher>)
    ensures NoneMatch(Keep(ids, fns), fns)
    ensures NoneMatch(ids, fns) ==> Keep(ids, fns) == ids
  {
    if ids != [] {
      KeptDoNotMatch(ids[..|ids| - 1], fns);
      assert ids == ids[..|ids| - 1] + [ids[|ids| - 1]];
    }
  }

  lemma {:induction false} KeptIff(ids: seq<nat>, fns: seq<Matcher>, id: nat)
    ensures id in Keep(ids, fns) <==> id in ids && forall i :: 0 <= i < |fns| ==> !fns[i](id)
  {
    if ids != [] {
      KeptIff(ids[..|ids| - 1], fns, id);
      assert ids == ids[..|ids| - 1] + [ids[|ids| - 1]];
    }
  }

  /** A plain error survives exactly when it was there and each of the matchers rejects it. */
  lemma SurvivesIff(e: Err, fns: seq<Matcher>, id: nat)
    ensures id in Leaves(Prune(e, fns)) <==> id in Leaves(e) && forall i :: 0 <= i < |fns| ==> !fns[i](id)
  {
    PruneKeepsUnmatched(e, fns);
    KeptIff(Leaves(e), fns, id);
  }

  /** A tidy tree without a match is left as it is. */
  lemma {:induction false} PruneIsIdentity(e: Err, fns: seq<Matcher>)
    requires Tidy(e) && NoneMatch(Leaves(e), fns)
    ensures Prune(e, fns) == e
    decreases e, 1
  {
    match e
    case Nil =>
    case Plain(id) =>
      assert Leaves(e)[0] == id;
    case Agg(errs) =>
      PruneAllIsIdentity(errs, fns);
      NoNils(errs);
  }

  lemma {:induction false} PruneAllIsIdentity(es: seq<Err>, fns: seq<Matcher>)
    requires forall i :: 0 <= i < |es| ==> !es[i].Nil? && Tidy(es[i])
    requires NoneMatch(LeavesOfAll(es), fns)
    ensures PruneAll(es, fns) == es
    decreases es, 0
  {
    if es != [] {
      var n := |es| - 1;
      var before, last := LeavesOfAll(es[..n]), Leaves(es[n]);
      assert forall i :: 0 <= i < |before| ==> before[i] == LeavesOfAll(es)[i];
      forall i | 0 <= i < |last| ensures !Matches(fns, last[i]) {
        assert last[i] == LeavesOfAll(es)[|before| + i];
      }
      PruneAllIsIdentity(es[..n], fns);
      PruneIsIdentity(es[n], fns);
      assert es == es[..n] + [es[n]];
    }
  }

  /** Filtering twice is filtering once. */
  lemma PruneIsIdempotent(e: Err, fns: seq<Matcher>)
    ensures Prune(Prune(e, fns), fns) == Prune(e, fns)
  {
    PruneKeepsUnmatched(e, fns);
    KeptDoNotMatch(Leaves(e), fns);
    PruneIsIdentity(Prune(e, fns), fns);
  }

  lemma {:induction false} PruneAllPlains(ids: seq<nat>, fns: seq<Matcher>)
    ensures PruneAll(Plains(ids), fns) == Plains(Keep(ids, fns))
  {
    if ids != [] {
      var n := |ids| - 1;
      assert Plains(ids)[..n] == Plains(ids[..n]);
      PruneAllPlains(ids[..n], fns);
    }
  }

  /** Filtering and flattening an aggregate commute. */
  lemma FlattenAndFilterCommute(agg: Err, fns: seq<Matcher>)
    requires !agg.Plain?
    ensures Flat(Prune(agg, fns)) == Prune(Flat(agg), fns)
  {
    PruneKeepsUnmatched(agg, fns);
    NoNils(Plains(Leaves(agg)));
    PruneAllPlains(Leaves(agg), fns);
    assert Plains([]) == [];
  }

  // ---------------------------------------------------------------- filtering does not flatten

  lemma {:induction false} PrunedMember(es: seq<Err>, fns: seq<Matcher>, e: Err)
    ensures e in PruneAll(es, fns) <==> !e.Nil? && exists i :: 0 <= i < |es| && Prune(es[i], fns) == e
  {
    if es != [] {
      var n := |es| - 1;
      PrunedMember(es[..n], fns, e);
    }
  }

  ghost predicate NestedAllMatched(errs: seq<Err>, fns: seq<Matcher>) {
    forall i :: 0 <= i < |errs| && errs[i].Agg? ==> Keep(Leaves(errs[i]), fns) == []
  }

  lemma FlatIfNestedMatched(errs: seq<Err>, fns: seq<Matcher>)
    requires NestedAllMatched(errs, fns)
    ensures IsFlat(Prune(Agg(errs), fns))
  {
    var pruned := PruneAll(errs, fns);
    NoNils(pruned);
    forall k | 0 <= k < |pruned| ensures pruned[k].Plain? {
      PrunedMember(errs, fns, pruned[k]);
      var i :| 0 <= i < |errs| && Prune(errs[i], fns) == pruned[k];
      PruneKeepsUnmatched(errs[i], fns);
    }
  }

  lemma NestedMatchedIfFlat(errs: seq<Err>, fns: seq<Matcher>)
    requires IsFlat(Prune(Agg(errs), fns))
    ensures NestedAllMatched(errs, fns)
  {
    NoNils(PruneAll(errs, fns));
    forall i | 0 <= i < |errs| && errs[i].Agg? ensures Keep(Leaves(errs[i]), fns) == [] {
      PrunedMember(errs, fns, Prune(errs[i], fns));
      PruneKeepsUnmatched(errs[i], fns);
    }
  }

  /** The comment in the source says that filtering flattens nested lists. The result is flat
      exactly when no member that is itself an aggregate holds an unmatched error. */
  lemma FilterFlattensIff(errs: seq<Err>, fns: seq<Matcher>)
    ensures IsFlat(Prune(Agg(errs), fns)) <==> NestedAllMatched(errs, fns)
  {
    if NestedAllMatched(errs, fns) {
      FlatIfNestedMatched(errs, fns);
    }
    if IsFlat(Prune(Agg(errs), fns)) {
      NestedMatchedIfFlat(errs, fns);
    }
  }

  /** A nested aggregate with one unmatched error stays nested. */
  lemma FilterKeepsNesting(id: nat)
    ensures Prune(Agg([Agg([Plain(id)])]), []) == Agg([Agg([Plain(id)])])
    ensures !IsFlat(Prune(Agg([Agg([Plain(id)])]), []))
  {
    var inner := Agg([Plain(id)]);
    LeavesOfPlains([id]);
    assert Plains([id]) == [Plain(id)];
    assert LeavesOfAll([inner]) == LeavesOfAll([inner][..0]) + Leaves(inner);
    PruneIsIdentity(Agg([inner]), []);
  }
}
