/** SetIfAbsent, ConsumeIfValue and DeleteIfValue (pkg/storage/redis_helpers.go) as a lock: a
client holds a key from the moment it set its value until it consumes it or the key expires. */
module TokenLock {
  import opened Options
  import opened Keyspace

  type Db = map<string, Entry<string>>

  /** A ttl of zero sets no deadline. */
  function Deadline(clock: int, ttl: nat): Option<int> {
    if ttl == 0 then None else Some(clock + ttl)
  }

  /** The keys that are past their deadline at a given time. */
  function Lapsed(db: Db, clock: int): set<string> {
    set k | k in db && Expired(db[k], clock)
  }

  // ---------------------------------------------------------------- what an operation does

  datatype Op = Acquire(key: string, token: string, ttl: nat) | Release(key: string, token: string) | Tick(delta: nat)

  /** What an operation did; a tick reports the keys that expired. */
  datatype Event = Acquired | Refused | Released | Mismatch | NotFound | Ticked(lapsed: set<string>)

  function Effect(db: Db, clock: int, op: Op): (Db, Event) {
    match op
    case Acquire(key, token, ttl) =>
      if key in db then (db, Refused) else (db[key := Entry(token, Deadline(clock, ttl))], Acquired)
    case Release(key, token) =>
      if key !in db then (db, NotFound)
      else if db[key].value != token then (db, Mismatch)
      else (db - {key}, Released)
    case Tick(delta) =>
      (db - Lapsed(db, clock + delta), Ticked(Lapsed(db, clock + delta)))
  }

  // ---------------------------------------------------------------- the calls as methods

  /** The facade over a store whose expired keys are removed as the clock advances. */
  class LockStore {
    var db: Db
    var clock: int

    constructor (clock: int)
      ensures db == map[] && this.clock == clock
    {
      db, this.clock := map[], clock;
    }

    method Advance(delta: nat)
      modifies this
      ensures clock == old(clock) + delta
      ensures db == Effect(old(db), old(clock), Tick(delta)).0
    {
      clock := clock + delta;
      db := db - Lapsed(db, clock);
    }

    method SetIfAbsent(up: bool, key: string, value: string, ttl: nat) returns (stored: bool, status: Status)
      modifies this`db
      ensures status == if up then OK else RedisDown
      ensures up ==> (db, if stored then Acquired else Refused) == Effect(old(db), clock, Acquire(key, value, ttl))
      ensures !up ==> !stored && db == old(db)
    {
      if !up {
        return false, RedisDown;
      }
      if key in db {
        return false, OK;
      }
      db := db[key := Entry(value, Deadline(clock, ttl))];
      return true, OK;
    }

    /** The script: 0 for a missing key, -1 for another value, 1 after the deletion. */
    method CompareAndDelete(key: string, value: string) returns (code: int)
      modifies this`db
      ensures code == if key !in old(db) then 0 else if old(db)[key].value != value then -1 else 1
      ensures db == if code == 1 then old(db) - {key} else old(db)
    {
      if key !in db {
        return 0;
      }
      var current := db[key].value;
      if current != value {
        return -1;
      }
      db := db - {key};
      return 1;
    }

    method ConsumeIfValue(up: bool, key: string, value: string) returns (status: Status)
      modifies this`db
      ensures !up ==> status == RedisDown && db == old(db)
      ensures up ==>
                && status != RedisDown
                && (db, match status case KeyNotFound => NotFound case ValueMismatch => Mismatch case _ => Released)
                   == Effect(old(db), clock, Release(key, value))
    {
      if !up {
        return RedisDown;
      }
      var result := CompareAndDelete(key, value);
      match result {
        case 1 => return OK;
        case -1 => return ValueMismatch;
        case _ => return KeyNotFound;
      }
    }

    method DeleteIfValue(up: bool, key: string, value: string) returns (deleted: bool, status: Status)
      modifies this`db
      ensures status == if up then OK else RedisDown
      ensures up ==> db == Effect(old(db), clock, Release(key, value)).0
      ensures deleted <==> up && Effect(old(db), clock, Release(key, value)).1 == Released
      ensures !deleted ==> db == old(db)
    {
      var consumed := ConsumeIfValue(up, key, value);
      if consumed == OK {
        return true, OK;
      }
      if consumed == KeyNotFound || consumed == ValueMismatch {
        return false, OK;
      }
      return false, consumed;
    }
  }

  // ---------------------------------------------------------------- every run

  datatype Record = Record(op: Op, event: Event, clock: int)

  /** The store together with the history of the run. */
  datatype State = State(db: Db, clock: int, past: seq<Record>)

  function Step(s: State, op: Op): State {
    var (db, event) := Effect(s.db, s.clock, op);
    var clock := if op.Tick? then s.clock + op.delta else s.clock;
    State(db, clock, s.past + [Record(op, event, clock)])
  }

  /** The operations are those of all clients, in the order in which Redis executed them. */
  function Run(start: int, ops: seq<Op>): (s: State)
    ensures |s.past| == |ops|
  {
    if ops == [] then State(map[], start, []) else Step(Run(start, ops[..|ops| - 1]), ops[|ops| - 1])
  }

  predicate AcquiresKey(r: Record, key: string) {
    r.op.Acquire? && r.op.key == key && r.event == Acquired
  }

  predicate ReleasesKey(r: Record, key: string) {
    r.op.Release? && r.op.key == key && r.event == Released
  }

  predicate LapsesKey(r: Record, key: string) {
    r.event.Ticked? && key in r.event.lapsed
  }

  predicate EndsKey(r: Record, key: string) {
    ReleasesKey(r, key) || LapsesKey(r, key)
  }

  /** The acquisition of a key that nothing in the history has ended yet. */
  function Holder(past: seq<Record>, key: string): (r: Option<nat>)
    ensures r.Some? ==> r.value < |past| && AcquiresKey(past[r.value], key)
    ensures r.Some? ==> forall m :: r.value < m < |past| ==> !EndsKey(past[m], key)
  {
    if past == [] then None
    else
      var last := |past| - 1;
      if AcquiresKey(past[last], key) then Some(last)
      else if EndsKey(past[last], key) then None
      else Holder(past[..last], key)
  }

  /** The store holds a key exactly when it has a holder, with the holder's token and deadline. */
  ghost predicate KeyInv(s: State, key: string) {
    match Holder(s.past, key)
    case None => key !in s.db
    case Some(i) =>
      && key in s.db
      && s.db[key] == Entry(s.past[i].op.token, Deadline(s.past[i].clock, s.past[i].op.ttl))
  }

  ghost predicate Inv(s: State) {
    && Lapsed(s.db, s.clock) == {}
    && forall key :: KeyInv(s, key)
  }

  lemma HolderAfter(past: seq<Record>, r: Record, key: string)
    ensures Holder(past + [r], key) ==
            if AcquiresKey(r, key) then Some(|past|) else if EndsKey(r, key) then None else Holder(past, key)
  {
    assert (past + [r])[..|past|] == past;
  }

  lemma StepKeepsKeyInv(s: State, op: Op, key: string)
    requires KeyInv(s, key)
    ensures KeyInv(Step(s, op), key)
  {
    var s' := Step(s, op);
    HolderAfter(s.past, s'.past[|s.past|], key);
  }

  lemma StepLeavesNoneLapsed(s: State, op: Op)
    requires Lapsed(s.db, s.clock) == {}
    ensures Lapsed(Step(s, op).db, Step(s, op).clock) == {}
  {
    var s' := Step(s, op);
    forall key | key in s'.db ensures !Expired(s'.db[key], s'.clock) {
      assert key in s.db && Expired(s.db[key], s.clock) ==> key in Lapsed(s.db, s.clock);
      assert key in s.db && Expired(s.db[key], s'.clock) ==> key in Lapsed(s.db, s'.clock);
    }
  }

  lemma StepKeepsInv(s: State, op: Op)
    requires Inv(s)
    ensures Inv(Step(s, op))
  {
    StepLeavesNoneLapsed(s, op);
    forall key ensures KeyInv(Step(s, op), key) {
      StepKeepsKeyInv(s, op, key);
    }
  }

  lemma {:induction false} RunKeepsInv(start: int, ops: seq<Op>)
    ensures Inv(Run(start, ops))
    ensures forall j :: 0 <= j < |ops| ==> Run(start, ops).past[j].op == ops[j]
  {
    if ops != [] {
      RunKeepsInv(start, ops[..|ops| - 1]);
      StepKeepsInv(Run(start, ops[..|ops| - 1]), ops[|ops| - 1]);
    }
  }

  lemma {:induction false} PastIsPrefix(start: int, ops: seq<Op>, j: nat)
    requires j <= |ops|
    ensures Run(start, ops[..j]).past == Run(start, ops).past[..j]
    ensures j < |ops| ==> Run(start, ops).past[j] == Step(Run(start, ops[..j]), ops[j]).past[j]
  {
    RunKeepsInv(start, ops);
    RunKeepsInv(start, ops[..j]);
    if j == |ops| {
      assert ops[..j] == ops;
    } else {
      var n := |ops| - 1;
      RunKeepsInv(start, ops[..n]);
      assert ops[..n][..j] == ops[..j];
      PastIsPrefix(start, ops[..n], j);
    }
  }

  /** An acquisition that has no holder left was ended somewhere. */
  lemma {:induction false} EndedSince(past: seq<Record>, key: string, i: nat)
    requires i < |past| && AcquiresKey(past[i], key)
    requires Holder(past, key).None?
    ensures exists m :: i < m < |past| && EndsKey(past[m], key)
  {
    var last := |past| - 1;
    if !EndsKey(past[last], key) {
      EndedSince(past[..last], key, i);
    }
  }

  /** Mutual exclusion, for any clients, values and timing: between two successful sets of a key
      the earlier one was consumed or expired. So at most one client holds a key at any time. */
  lemma AcquisitionsExclude(start: int, ops: seq<Op>, key: string, i: nat, j: nat)
    requires i < j < |ops|
    requires AcquiresKey(Run(start, ops).past[i], key)
    requires AcquiresKey(Run(start, ops).past[j], key)
    ensures exists m :: i < m < j && EndsKey(Run(start, ops).past[m], key)
  {
    var past := Run(start, ops).past;
    PastIsPrefix(start, ops, j);
    RunKeepsInv(start, ops[..j]);
    assert KeyInv(Run(start, ops[..j]), key);
    EndedSince(past[..j], key, i);
    var m :| i < m < j && EndsKey(past[..j][m], key);
    assert EndsKey(past[m], key);
  }

  /** A successful consume ends the latest acquisition of its key, made with the very same value,
      and nothing has ended that acquisition before. */
  lemma ReleaseEndsMatching(start: int, ops: seq<Op>, key: string, j: nat) returns (i: nat)
    requires j < |ops|
    requires ReleasesKey(Run(start, ops).past[j], key)
    ensures var past := Run(start, ops).past;
            && i < j && AcquiresKey(past[i], key)
            && past[i].op.token == past[j].op.token
            && forall m :: i < m < j ==> !EndsKey(past[m], key)
  {
    var past := Run(start, ops).past;
    PastIsPrefix(start, ops, j);
    RunKeepsInv(start, ops[..j]);
    assert KeyInv(Run(start, ops[..j]), key);
    i := Holder(past[..j], key).value;
    forall m | i < m < j ensures !EndsKey(past[m], key) {
      assert past[..j][m] == past[m];
    }
  }

  /** No lease is cut short: a key expires only after its holder's whole ttl, and a lease without
      a ttl never does. */
  lemma LeaseLapsesOnTime(start: int, ops: seq<Op>, key: string, j: nat) returns (i: nat)
    requires j < |ops|
    requires LapsesKey(Run(start, ops).past[j], key)
    ensures var past := Run(start, ops).past;
            && i < j && AcquiresKey(past[i], key)
            && (forall m :: i < m < j ==> !EndsKey(past[m], key))
            && past[i].op.ttl > 0
            && past[j].clock > past[i].clock + past[i].op.ttl
  {
    var past := Run(start, ops).past;
    PastIsPrefix(start, ops, j);
    RunKeepsInv(start, ops[..j]);
    assert KeyInv(Run(start, ops[..j]), key);
    i := Holder(past[..j], key).value;
    forall m | i < m < j ensures !EndsKey(past[m], key) {
      assert past[..j][m] == past[m];
    }
  }

  /** Nor is one prolonged: in every state a key is stored exactly while it has a holder, under the
      holder's value, and the holder's ttl, if any, has not passed. */
  lemma HolderIsCurrent(start: int, ops: seq<Op>, key: string)
    ensures var s := Run(start, ops);
            match Holder(s.past, key)
            case None => key !in s.db
            case Some(i) =>
              && key in s.db && s.db[key].value == s.past[i].op.token
              && (s.past[i].op.ttl > 0 ==> s.clock <= s.past[i].clock + s.past[i].op.ttl)
  {
    var s := Run(start, ops);
    RunKeepsInv(start, ops);
    assert KeyInv(s, key);
    assert key in s.db && Expired(s.db[key], s.clock) ==> key in Lapsed(s.db, s.clock);
  }

  /** No two successful sets of the key used the same value. Refused attempts, with any value, and
      other keys do not matter. */
  ghost predicate DistinctTokens(past: seq<Record>, key: string) {
    forall i, j :: 0 <= i < j < |past| && AcquiresKey(past[i], key) && AcquiresKey(past[j], key) ==>
      past[i].op.token != past[j].op.token
  }

  /** A set succeeds exactly when the key has no holder at that time, whatever else is stored;
      otherwise it is refused and changes nothing. */
  lemma AcquireSucceedsIff(start: int, ops: seq<Op>, key: string, token: string, ttl: nat, j: nat)
    requires j < |ops| && ops[j] == Acquire(key, token, ttl)
    ensures var past := Run(start, ops).past;
            && (AcquiresKey(past[j], key) <==> Holder(past[..j], key).None?)
            && (!AcquiresKey(past[j], key) ==>
                  past[j].event == Refused && Run(start, ops[..j + 1]).db == Run(start, ops[..j]).db)
  {
    PastIsPrefix(start, ops, j);
    RunKeepsInv(start, ops[..j]);
    assert KeyInv(Run(start, ops[..j]), key);
    assert ops[..j + 1][..j] == ops[..j];
    assert Run(start, ops[..j + 1]) == Step(Run(start, ops[..j]), ops[j]);
  }

  /** A release succeeds exactly when the key has a holder at that time and the holder's value is
      the one given; otherwise it answers not-found or mismatch and changes nothing. */
  lemma ReleaseSucceedsIff(start: int, ops: seq<Op>, key: string, token: string, j: nat)
    requires j < |ops| && ops[j] == Release(key, token)
    ensures var past := Run(start, ops).past;
            var holder := Holder(past[..j], key);
            && (ReleasesKey(past[j], key) <==> holder.Some? && past[holder.value].op.token == token)
            && (!ReleasesKey(past[j], key) ==>
                  && past[j].event == (if holder.None? then NotFound else Mismatch)
                  && Run(start, ops[..j + 1]).db == Run(start, ops[..j]).db)
  {
    PastIsPrefix(start, ops, j);
    RunKeepsInv(start, ops[..j]);
    assert KeyInv(Run(start, ops[..j]), key);
    assert ops[..j + 1][..j] == ops[..j];
    assert Run(start, ops[..j + 1]) == Step(Run(start, ops[..j]), ops[j]);
  }

  /** So with distinct values a stale holder is harmless: once its acquisition has ended, its release
      cannot succeed, and in particular cannot remove a successor's entry or consume twice. */
  lemma StaleReleaseIsHarmless(start: int, ops: seq<Op>, key: string, i: nat, m: nat, j: nat)
    requires DistinctTokens(Run(start, ops).past, key)
    requires i < m < j < |ops|
    requires AcquiresKey(Run(start, ops).past[i], key) && EndsKey(Run(start, ops).past[m], key)
    requires ops[j] == Release(key, Run(start, ops).past[i].op.token)
    ensures Run(start, ops).past[j].event in {NotFound, Mismatch}
    ensures Run(start, ops[..j + 1]).db == Run(start, ops[..j]).db
  {
    var past := Run(start, ops).past;
    ReleaseSucceedsIff(start, ops, key, past[i].op.token, j);
    var holder := Holder(past[..j], key);
    if holder.Some? {
      var h := holder.value;
      assert past[..j][h] == past[h] && past[..j][m] == past[m];
      assert h != i;
    }
  }

  /** Each successful set is consumed successfully at most once. */
  lemma SetIsConsumedOnce(start: int, ops: seq<Op>, key: string, j: nat, k: nat)
    requires DistinctTokens(Run(start, ops).past, key)
    requires j < k < |ops|
    requires ReleasesKey(Run(start, ops).past[j], key) && ReleasesKey(Run(start, ops).past[k], key)
    ensures Run(start, ops).past[j].op.token != Run(start, ops).past[k].op.token
  {
    var past := Run(start, ops).past;
    var i := ReleaseEndsMatching(start, ops, key, j);
    var h := ReleaseEndsMatching(start, ops, key, k);
    assert h > j by { assert EndsKey(past[j], key); }
  }

  /** A release with the value of acquisition `i`, made right after the first `j` operations. */
  function LateRelease(start: int, ops: seq<Op>, key: string, i: nat, j: nat): Event
    requires i < j <= |ops| && AcquiresKey(Run(start, ops).past[i], key)
  {
    Effect(Run(start, ops[..j]).db, Run(start, ops[..j]).clock, Release(key, Run(start, ops).past[i].op.token)).1
  }

  /** No client whose acquisition has ended could release the key at any point of the run. */
  ghost predicate NoLateRelease(start: int, ops: seq<Op>, key: string) {
    forall i, m, j | 0 <= i < m < j <= |ops| && AcquiresKey(Run(start, ops).past[i], key) && EndsKey(Run(start, ops).past[m], key) ::
      LateRelease(start, ops, key, i, j) != Released
  }

  lemma LateReleaseSucceedsIff(start: int, ops: seq<Op>, key: string, i: nat, j: nat)
    requires i < j <= |ops| && AcquiresKey(Run(start, ops).past[i], key)
    ensures var past := Run(start, ops).past;
            var holder := Holder(past[..j], key);
            LateRelease(start, ops, key, i, j) == Released <==> holder.Some? && past[holder.value].op.token == past[i].op.token
  {
    PastIsPrefix(start, ops, j);
    RunKeepsInv(start, ops[..j]);
    assert KeyInv(Run(start, ops[..j]), key);
  }

  lemma DistinctBlocksLate(start: int, ops: seq<Op>, key: string, i: nat, m: nat, j: nat)
    requires DistinctTokens(Run(start, ops).past, key)
    requires i < m < j <= |ops| && AcquiresKey(Run(start, ops).past[i], key) && EndsKey(Run(start, ops).past[m], key)
    ensures LateRelease(start, ops, key, i, j) != Released
  {
    var past := Run(start, ops).past;
    LateReleaseSucceedsIff(start, ops, key, i, j);
    var holder := Holder(past[..j], key);
    if holder.Some? {
      var h := holder.value;
      assert past[..j][h] == past[h] && past[..j][m] == past[m];
      assert h != i;
    }
  }

  lemma RepeatedAllowsLate(start: int, ops: seq<Op>, key: string, i: nat, j: nat) returns (m: nat)
    requires i < j < |ops| && AcquiresKey(Run(start, ops).past[i], key) && AcquiresKey(Run(start, ops).past[j], key)
    requires Run(start, ops).past[i].op.token == Run(start, ops).past[j].op.token
    ensures i < m < j + 1 && EndsKey(Run(start, ops).past[m], key)
    ensures LateRelease(start, ops, key, i, j + 1) == Released
  {
    var past := Run(start, ops).past;
    AcquisitionsExclude(start, ops, key, i, j);
    m :| i < m < j && EndsKey(past[m], key);
    LateReleaseSucceedsIff(start, ops, key, i, j + 1);
    HolderAfter(past[..j], past[j], key);
    assert past[..j + 1] == past[..j] + [past[j]];
  }

  /** In every run, stale releases of a key are harmless at all times if and only if no two successful
      sets of that key used the same value. */
  lemma NoLateReleaseIff(start: int, ops: seq<Op>, key: string)
    ensures NoLateRelease(start, ops, key) <==> DistinctTokens(Run(start, ops).past, key)
  {
    var past := Run(start, ops).past;
    if DistinctTokens(past, key) {
      forall i, m, j | 0 <= i < m < j <= |ops| && AcquiresKey(past[i], key) && EndsKey(past[m], key)
        ensures LateRelease(start, ops, key, i, j) != Released
      {
        DistinctBlocksLate(start, ops, key, i, m, j);
      }
    } else {
      var i, j :| 0 <= i < j < |past| && AcquiresKey(past[i], key) && AcquiresKey(past[j], key)
                  && past[i].op.token == past[j].op.token;
      var m := RepeatedAllowsLate(start, ops, key, i, j);
      assert LateRelease(start, ops, key, i, j + 1) == Released;
    }
  }

  /** With a value used twice it is not: here the first client's lease expires, the second client
      sets the same value, and the first client's late release takes the second one's key. */
  lemma SharedValueIsNotSafe(key: string, value: string)
    ensures var ops := [Acquire(key, value, 1), Tick(2), Acquire(key, value, 0), Release(key, value)];
            var past := Run(0, ops).past;
            && |past| == 4
            && AcquiresKey(past[0], key) && LapsesKey(past[1], key) && AcquiresKey(past[2], key)
            && ReleasesKey(past[3], key) && key !in Run(0, ops).db
  {
    var ops := [Acquire(key, value, 1), Tick(2), Acquire(key, value, 0), Release(key, value)];
    assert ops[..3][..2] == ops[..2] && ops[..2][..1] == ops[..1] && ops[..1][..0] == [];
    var s1 := Run(0, ops[..1]);
    assert Run(0, []) == State(map[], 0, []);
    assert s1 == Step(Run(0, []), ops[0]);
    var s2 := Run(0, ops[..2]);
    assert s2 == Step(s1, ops[1]);
    assert key in Lapsed(s1.db, 2);
    assert s2.past[0] == s1.past[0];
    var s3 := Run(0, ops[..3]);
    assert s3 == Step(s2, ops[2]);
    assert s3.past[..2] == s2.past;
    var s4 := Run(0, ops);
    assert s4 == Step(s3, ops[3]);
    assert s4.past[..3] == s3.past;
  }
}
