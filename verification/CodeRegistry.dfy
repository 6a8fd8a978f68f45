/** The process-wide registry of error codes (pkg/errors/code.go). A panic is modelled as an
operation that answers false and leaves the registry as it was at that point. */
module CodeRegistry {
  import opened ErrorGraph

  const KINDS: set<string> := {
    "invalid_argument", "unauthenticated", "permission_denied", "not_found", "conflict",
    "rate_limited", "unavailable", "timeout", "internal"
  }

  predicate ValidSpec(spec: Spec) {
    spec.code > 0 && spec.kind in KINDS && spec.message != ""
  }

  /** The two coder types of the package; callers see them only through their four accessors. */
  datatype Coder = DefaultCoder(c: int, k: string, ext: string, ref: string) | SpecCoder(spec: Spec) {
    function Code(): int { match this case DefaultCoder(c, _, _, _) => c case SpecCoder(s) => s.code }
    function Kind(): string { match this case DefaultCoder(_, k, _, _) => k case SpecCoder(s) => s.kind }
    function Text(): string { match this case DefaultCoder(_, _, ext, _) => ext case SpecCoder(s) => s.message }
    function Reference(): string { match this case DefaultCoder(_, _, _, ref) => ref case SpecCoder(s) => s.reference }

    function Contract(): Spec {
      Spec(Code(), Kind(), Text(), Reference())
    }
  }

  const UnknownCoder: Coder :=
    DefaultCoder(1, "internal", "An internal server error occurred", "http://goshop/pkg/errors/README.md")

  predicate SameCoder(left: Coder, right: Coder) {
    && left.Code() == right.Code()
    && left.Kind() == right.Kind()
    && left.Text() == right.Text()
    && left.Reference() == right.Reference()
  }

  type Codes = map<int, Coder>
  type Catalog = seq<Spec>

  const InitialCodes: Codes := map[UnknownCoder.Code() := UnknownCoder]

  ghost predicate ValidCatalog(catalog: Catalog) {
    && (forall i :: 0 <= i < |catalog| ==> ValidSpec(catalog[i]))
    && (forall i, j :: 0 <= i < j < |catalog| ==> catalog[i].code != catalog[j].code)
  }

  // ---------------------------------------------------------------- registration as functions

  function Register(codes: Codes, spec: Spec): (r: (Codes, bool)) {
    if !ValidSpec(spec) then (codes, false)
    else if spec.code in codes then (codes, SameCoder(codes[spec.code], SpecCoder(spec)))
    else (codes[spec.code := SpecCoder(spec)], true)
  }

  function RegisterEach(codes: Codes, catalog: Catalog): (r: (Codes, bool))
    decreases |catalog|
  {
    if catalog == [] then (codes, true)
    else
      var (codes', ok) := Register(codes, catalog[0]);
      if ok then RegisterEach(codes', catalog[1..]) else (codes', false)
  }

  ghost function RegisterCatalog(codes: Codes, catalog: Catalog): (r: (Codes, bool)) {
    if ValidCatalog(catalog) then RegisterEach(codes, catalog) else (codes, false)
  }

  /** The registry object: the package variable `codes` behind its lock. */
  class Registry {
    var codes: Codes

    constructor ()
      ensures codes == InitialCodes
    {
      codes := InitialCodes;
    }

    method MustRegister(spec: Spec) returns (ok: bool)
      modifies this
      ensures (codes, ok) == Register(old(codes), spec)
    {
      if !ValidSpec(spec) {
        return false;
      }
      var coder := SpecCoder(spec);
      if coder.Code() in codes {
        ok := SameCoder(codes[coder.Code()], coder);
        return;
      }
      codes := codes[coder.Code() := coder];
      return true;
    }

    method RegisterAll(catalog: Catalog) returns (ok: bool)
      modifies this
      ensures (codes, ok) == RegisterCatalog(old(codes), catalog)
    {
      ok := Validate(catalog);
      if !ok {
        return;
      }
      for i := 0 to |catalog|
        invariant RegisterEach(old(codes), catalog) == RegisterEach(codes, catalog[i..])
      {
        assert catalog[i..][1..] == catalog[i + 1..];
        ok := MustRegister(catalog[i]);
        if !ok {
          return;
        }
      }
      return true;
    }
  }

  method Validate(catalog: Catalog) returns (ok: bool)
    ensures ok <==> ValidCatalog(catalog)
  {
    var seen: map<int, Spec> := map[];
    for i := 0 to |catalog|
      invariant ValidCatalog(catalog[..i])
      invariant forall code :: code in seen <==> exists j :: 0 <= j < i && catalog[j].code == code
    {
      if !ValidSpec(catalog[i]) || catalog[i].code in seen {
        return false;
      }
      seen := seen[catalog[i].code := catalog[i]];
    }
    assert catalog[..|catalog|] == catalog;
    return true;
  }

  // ---------------------------------------------------------------- what registration keeps

  ghost predicate WellFormed(codes: Codes) {
    && 1 in codes && codes[1] == UnknownCoder
    && forall code :: code in codes ==> codes[code].Code() == code && ValidSpec(codes[code].Contract())
  }

  ghost predicate Extends(before: Codes, after: Codes) {
    forall code :: code in before ==> code in after && after[code] == before[code]
  }

  lemma SameEntries(a: Codes, b: Codes)
    requires Extends(a, b) && forall code :: code in b ==> code in a
    ensures a == b
  {
    forall code | code in a.Keys ensures code in b.Keys && a[code] == b[code] {}
    forall code | code in b.Keys ensures code in a.Keys {}
    assert a.Keys == b.Keys;
  }

  lemma {:induction false} RegisterEachKeeps(codes: Codes, catalog: Catalog)
    requires WellFormed(codes)
    ensures WellFormed(RegisterEach(codes, catalog).0)
    ensures Extends(codes, RegisterEach(codes, catalog).0)
    decreases |catalog|
  {
    if catalog != [] {
      var (codes', ok) := Register(codes, catalog[0]);
      if ok {
        RegisterEachKeeps(codes', catalog[1..]);
      }
    }
  }

  /** Every registration, whether it returns or panics, keeps the registry well formed (each key
      is its coder's code, key 1 is the unknown coder) and never changes an entry. */
  lemma RegistrationKeeps(codes: Codes, catalog: Catalog)
    requires WellFormed(codes)
    ensures WellFormed(RegisterCatalog(codes, catalog).0)
    ensures Extends(codes, RegisterCatalog(codes, catalog).0)
  {
    RegisterEachKeeps(codes, catalog);
  }

  /** MustRegister succeeds exactly for a positive code, one of the nine kinds and a message, unless
      the code is registered with another contract; only that code is ever added. */
  lemma RegisterSucceedsIff(codes: Codes, spec: Spec)
    requires WellFormed(codes)
    ensures var (after, ok) := Register(codes, spec);
            && (ok <==>
                  && spec.code > 0 && spec.message != ""
                  && spec.kind in {"invalid_argument", "unauthenticated", "permission_denied", "not_found", "conflict",
                                   "rate_limited", "unavailable", "timeout", "internal"}
                  && (spec.code in codes ==> codes[spec.code].Contract() == spec))
            && (ok ==> spec.code in after && after[spec.code].Contract() == spec)
            && forall code :: code in after && !(ok && code == spec.code) ==> code in codes && after[code] == codes[code]
  {
  }

  // ---------------------------------------------------------------- when registration succeeds

  /** The catalog contradicts no entry of the registry. */
  ghost predicate Agrees(codes: Codes, catalog: Catalog) {
    forall i :: 0 <= i < |catalog| && catalog[i].code in codes ==> codes[catalog[i].code].Contract() == catalog[i]
  }

  ghost predicate Mentions(catalog: Catalog, code: int) {
    exists i :: 0 <= i < |catalog| && catalog[i].code == code
  }

  /** `after` is `before` with exactly the catalog's new codes added. */
  ghost predicate IsMerge(before: Codes, catalog: Catalog, after: Codes) {
    && Extends(before, after)
    && (forall code :: code in after <==> code in before || Mentions(catalog, code))
    && (forall i :: 0 <= i < |catalog| && catalog[i].code in after && catalog[i].code !in before ==>
          after[catalog[i].code] == SpecCoder(catalog[i]))
  }

  lemma {:induction false} RegisterEachSucceedsIff(codes: Codes, catalog: Catalog)
    requires ValidCatalog(catalog)
    ensures RegisterEach(codes, catalog).1 <==> Agrees(codes, catalog)
    decreases |catalog|
  {
    if catalog != [] {
      var rest := catalog[1..];
      assert forall i :: 0 <= i < |rest| ==> rest[i] == catalog[i + 1];
      var (codes', ok) := Register(codes, catalog[0]);
      if ok {
        RegisterEachSucceedsIff(codes', rest);
        assert Agrees(codes', rest) <==> Agrees(codes, catalog);
      }
    }
  }

  lemma {:induction false} RegisterEachMerges(codes: Codes, catalog: Catalog)
    requires ValidCatalog(catalog)
    requires RegisterEach(codes, catalog).1
    ensures IsMerge(codes, catalog, RegisterEach(codes, catalog).0)
    decreases |catalog|
  {
    if catalog != [] {
      var rest := catalog[1..];
      assert forall i :: 0 <= i < |rest| ==> rest[i] == catalog[i + 1];
      var codes' := Register(codes, catalog[0]).0;
      RegisterEachMerges(codes', rest);
      forall code ensures Mentions(catalog, code) <==> catalog[0].code == code || Mentions(rest, code) {
        if Mentions(rest, code) {
          var i :| 0 <= i < |rest| && rest[i].code == code;
          assert catalog[i + 1].code == code;
        }
      }
    }
  }

  /** A catalog is registered exactly when it is valid and contradicts no entry, and then the
      registry gains exactly its new codes. */
  lemma RegistrationSucceedsIff(codes: Codes, catalog: Catalog)
    ensures var (after, ok) := RegisterCatalog(codes, catalog);
            && (ok <==> ValidCatalog(catalog) && Agrees(codes, catalog))
            && (ok ==> IsMerge(codes, catalog, after))
  {
    if ValidCatalog(catalog) {
      RegisterEachSucceedsIff(codes, catalog);
      if Agrees(codes, catalog) {
        RegisterEachMerges(codes, catalog);
      }
    }
  }

  lemma {:induction false} RegisterEachStops(codes: Codes, catalog: Catalog) returns (i: nat)
    requires ValidCatalog(catalog) && !RegisterEach(codes, catalog).1
    ensures i < |catalog| && RegisterEach(codes, catalog[..i]) == (RegisterEach(codes, catalog).0, true)
    ensures catalog[i].code in codes && codes[catalog[i].code].Contract() != catalog[i]
    decreases |catalog|
  {
    var (codes', ok) := Register(codes, catalog[0]);
    if !ok {
      i := 0;
    } else {
      var rest := catalog[1..];
      assert forall k :: 0 <= k < |rest| ==> rest[k] == catalog[k + 1];
      var k := RegisterEachStops(codes', rest);
      i := k + 1;
      assert catalog[..i][1..] == rest[..k];
      assert rest[k] == catalog[i];
    }
  }

  /** A valid catalog that is refused is refused at its first specification that contradicts an entry,
      and what stood before that one stays registered. */
  lemma RefusedAtFirstConflict(codes: Codes, catalog: Catalog) returns (i: nat)
    requires ValidCatalog(catalog) && !RegisterCatalog(codes, catalog).1
    ensures i < |catalog| && Agrees(codes, catalog[..i]) && !Agrees(codes, catalog[..i + 1])
    ensures IsMerge(codes, catalog[..i], RegisterCatalog(codes, catalog).0)
  {
    i := RegisterEachStops(codes, catalog);
    RegisterEachSucceedsIff(codes, catalog[..i]);
    RegisterEachMerges(codes, catalog[..i]);
    assert catalog[..i + 1][i] == catalog[i];
  }

  ghost function RegisterBoth(codes: Codes, first: Catalog, second: Catalog): (Codes, bool) {
    var (codes', ok) := RegisterCatalog(codes, first);
    if ok then RegisterCatalog(codes', second) else (codes', false)
  }

  ghost predicate AgreeTogether(a: Catalog, b: Catalog) {
    forall i, j :: 0 <= i < |a| && 0 <= j < |b| && a[i].code == b[j].code ==> a[i] == b[j]
  }

  lemma BothSucceedIff(codes: Codes, a: Catalog, b: Catalog)
    ensures RegisterBoth(codes, a, b).1 <==>
            ValidCatalog(a) && ValidCatalog(b) && Agrees(codes, a) && Agrees(codes, b) && AgreeTogether(a, b)
    ensures RegisterBoth(codes, a, b).1 ==>
            var after := RegisterBoth(codes, a, b).0;
            && Extends(codes, after)
            && (forall code :: code in after <==> code in codes || Mentions(a, code) || Mentions(b, code))
            && (forall i :: 0 <= i < |a| && a[i].code !in codes ==> a[i].code in after && after[a[i].code] == SpecCoder(a[i]))
            && (forall i :: 0 <= i < |b| && b[i].code !in codes ==> b[i].code in after && after[b[i].code] == SpecCoder(b[i]))
  {
    RegistrationSucceedsIff(codes, a);
    var (codes', ok) := RegisterCatalog(codes, a);
    if ok {
      RegistrationSucceedsIff(codes', b);
      forall i | 0 <= i < |a| ensures a[i].code in codes' && codes'[a[i].code].Contract() == a[i] {
        assert Mentions(a, a[i].code);
      }
      assert Agrees(codes', b) <==> Agrees(codes, b) && AgreeTogether(a, b);
      forall i | 0 <= i < |b| ensures Mentions(b, b[i].code) {}
    }
  }

  /** Confluence: two catalogs can be registered one after the other exactly when they can be in
      the other order, and the resulting registries are equal. */
  lemma RegistrationCommutes(codes: Codes, a: Catalog, b: Catalog)
    ensures RegisterBoth(codes, a, b).1 <==> RegisterBoth(codes, b, a).1
    ensures RegisterBoth(codes, a, b).1 ==> RegisterBoth(codes, a, b).0 == RegisterBoth(codes, b, a).0
  {
    BothSucceedIff(codes, a, b);
    BothSucceedIff(codes, b, a);
    assert AgreeTogether(a, b) <==> AgreeTogether(b, a);
    if RegisterBoth(codes, a, b).1 {
      var ab, ba := RegisterBoth(codes, a, b).0, RegisterBoth(codes, b, a).0;
      forall code | code in ab ensures code in ba && ab[code] == ba[code] {
        if code !in codes {
          if Mentions(a, code) {
            var i :| 0 <= i < |a| && a[i].code == code;
          } else {
            var i :| 0 <= i < |b| && b[i].code == code;
          }
        }
      }
      SameEntries(ab, ba);
    }
  }

  /** Two registrations that take turns, one MustRegister at a time. `turns` says whose turn it is,
      as far as there is a choice; a panic ends it all. */
  function TakeTurns(codes: Codes, a: Catalog, b: Catalog, turns: seq<bool>): (Codes, bool)
    decreases |a| + |b|
  {
    if a == [] && b == [] then (codes, true)
    else
      var left := b == [] || (a != [] && turns != [] && turns[0]);
      var (codes', ok) := Register(codes, if left then a[0] else b[0]);
      if !ok then (codes', false)
      else TakeTurns(codes', if left then a[1..] else a, if left then b else b[1..], if turns == [] then [] else turns[1..])
  }

  /** Two concurrent RegisterAll calls: a catalog that is not valid registers nothing and panics. */
  ghost function RegisterConcurrently(codes: Codes, a: Catalog, b: Catalog, turns: seq<bool>): (Codes, bool) {
    var (codes', ok) := TakeTurns(codes, if ValidCatalog(a) then a else [], if ValidCatalog(b) then b else [], turns);
    (codes', ok && ValidCatalog(a) && ValidCatalog(b))
  }

  ghost predicate SameResult(x: (Codes, bool), y: (Codes, bool)) {
    x.1 == y.1 && (x.1 ==> x.0 == y.0)
  }

  /** Whoever registers its first specification, the rest of the work is the same. */
  lemma FirstTurn(codes: Codes, a: Catalog, b: Catalog)
    requires ValidCatalog(a) && ValidCatalog(b) && a != []
    ensures var (codes', ok) := Register(codes, a[0]);
            ValidCatalog(a[1..]) && SameResult(RegisterBoth(codes, a, b), if ok then RegisterBoth(codes', a[1..], b) else (codes', false))
  {
  }

  lemma {:induction false} TurnsAgree(codes: Codes, a: Catalog, b: Catalog, turns: seq<bool>)
    requires ValidCatalog(a) && ValidCatalog(b)
    ensures SameResult(TakeTurns(codes, a, b, turns), RegisterBoth(codes, a, b))
    decreases |a| + |b|
  {
    if a != [] || b != [] {
      var left := b == [] || (a != [] && turns != [] && turns[0]);
      var (codes', ok) := Register(codes, if left then a[0] else b[0]);
      var rest := if turns == [] then [] else turns[1..];
      if left {
        FirstTurn(codes, a, b);
        if ok {
          TurnsAgree(codes', a[1..], b, rest);
        }
      } else {
        RegistrationCommutes(codes, a, b);
        FirstTurn(codes, b, a);
        if ok {
          RegistrationCommutes(codes', a, b[1..]);
          TurnsAgree(codes', a, b[1..], rest);
        }
      }
    }
  }

  /** However two concurrent registrations interleave, both succeed exactly when they would one after
      the other, and then the registry is the same. */
  lemma InterleavingsAgree(codes: Codes, a: Catalog, b: Catalog, turns: seq<bool>)
    ensures SameResult(RegisterConcurrently(codes, a, b, turns), RegisterBoth(codes, a, b))
  {
    if ValidCatalog(a) && ValidCatalog(b) {
      TurnsAgree(codes, a, b, turns);
    }
  }

  /** Registering a catalog again succeeds and changes nothing, whatever was registered since. */
  lemma RegistrationIsIdempotent(codes: Codes, catalog: Catalog, later: Codes)
    requires RegisterCatalog(codes, catalog).1
    requires Extends(RegisterCatalog(codes, catalog).0, later)
    ensures RegisterCatalog(later, catalog) == (later, true)
  {
    RegistrationSucceedsIff(codes, catalog);
    var after := RegisterCatalog(codes, catalog).0;
    forall i | 0 <= i < |catalog|
      ensures catalog[i].code in later && later[catalog[i].code].Contract() == catalog[i]
    {
      assert Mentions(catalog, catalog[i].code);
    }
    RegistrationSucceedsIff(later, catalog);
    var again := RegisterCatalog(later, catalog).0;
    SameEntries(again, later);
  }
}
