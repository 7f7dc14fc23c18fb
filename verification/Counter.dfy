/** INCRBY on top of the optimistic-locking loop: no increment is lost. */
module Counter {
  import opened Bytes
  import opened Values
  import opened Decimal
  import opened Cas

  function StoredText(n: int, expiresAtMs: Option<int>): StoredValue {
    StoredValue(String(ToDec(n)), expiresAtMs)
  }

  /** INCRBY's closure: parse, checked addition, write back with the expiry kept. */
  function IncrBy(delta: int): Update<int> {
    (entry: Option<StoredValue>) =>
      match entry
      case None => Add(0, delta, None)
      case Some(StoredValue(String(data), expiresAtMs)) =>
        (match ParseI64(data)
         case None => Err(Parse)
         case Some(n) => Add(n, delta, expiresAtMs))
      case Some(_) => Err(WrongType)
  }

  function Add(n: int, delta: int, expiresAtMs: Option<int>): Computed<int> {
    if IsI64(n + delta) then Ok(Write(StoredText(n + delta, expiresAtMs), n + delta)) else Err(Parse)
  }

  /** The integer a key holds; a missing key counts as zero. */
  function CounterValue(entry: Option<StoredValue>): Option<int> {
    match entry
    case None => Some(0)
    case Some(StoredValue(String(data), _)) => ParseI64(data)
    case Some(_) => None
  }

  lemma IncrByAdds(delta: int, before: Option<StoredValue>)
    requires CounterValue(before).Some?
    ensures
      var n := CounterValue(before).value;
      var (after, outcome) := Apply(IncrBy(delta), before);
      && (outcome.Returned? <==> -0x8000_0000_0000_0000 <= n + delta < 0x8000_0000_0000_0000)
      && (outcome.Returned? ==> outcome.reply == n + delta && CounterValue(after) == Some(n + delta))
      && (outcome.Returned? ==>
            var expires := if before.Some? then before.value.expiresAtMs else None;
            after == Some(StoredValue(String(ToDec(n + delta)), expires)))
      && (!outcome.Returned? ==> outcome == Rejected(Parse) && after == before)
  {
    var n := CounterValue(before).value;
    if IsI64(n + delta) {
      ParseToDec(n + delta);
    }
  }

  /** What holds no integer is refused and left alone. */
  lemma NoIntegerIsRefused(delta: int, before: Option<StoredValue>)
    requires before.Some? && (before.value.value.String? ==> ParseI64(before.value.value.data).None?)
    ensures Apply(IncrBy(delta), before) == (before, Rejected(if before.value.value.String? then Parse else WrongType))
  {
  }

  /** Sum of the deltas of a set of calls. */
  ghost function SumOver(ids: set<nat>, delta: nat -> int): int
    decreases |ids|
  {
    if ids == {} then 0
    else
      var id :| id in ids;
      delta(id) + SumOver(ids - {id}, delta)
  }

  lemma {:induction false} SumRemove(ids: set<nat>, id: nat, delta: nat -> int)
    requires id in ids
    ensures SumOver(ids, delta) == delta(id) + SumOver(ids - {id}, delta)
    decreases |ids|
  {
    var first :| first in ids && SumOver(ids, delta) == delta(first) + SumOver(ids - {first}, delta);
    if first != id {
      SumRemove(ids - {first}, id, delta);
      SumRemove(ids - {id}, first, delta);
      assert ids - {first} - {id} == ids - {id} - {first};
    }
  }

  /** The calls whose increment of `key` is in the log. */
  ghost function Committed(log: seq<Event<int>>, key: Key): set<nat> {
    set i | 0 <= i < |log| && IsCommit(log[i], key) :: log[i].id
  }

  predicate IsCommit(e: Event<int>, key: Key) {
    e.Applied? && e.key == key && e.outcome.Returned?
  }

  ghost predicate OnlyIncrements(log: seq<Event<int>>, key: Key, delta: nat -> int) {
    forall i :: 0 <= i < |log| && log[i].key == key ==>
      log[i].Applied? && log[i].update == IncrBy(delta(log[i].id))
  }

  ghost predicate LoggedOnce(log: seq<Event<int>>) {
    forall i, j :: 0 <= i < j < |log| && log[i].Applied? ==> !IsBy(log[j], log[i].id)
  }

  lemma CommittedSnoc(log: seq<Event<int>>, e: Event<int>, key: Key)
    ensures Committed(log + [e], key) == Committed(log, key) + if IsCommit(e, key) then {e.id} else {}
  {
    var whole := log + [e];
    forall id
      ensures id in Committed(whole, key) <==> id in Committed(log, key) + if IsCommit(e, key) then {e.id} else {}
    {
      if id in Committed(log, key) {
        var i :| 0 <= i < |log| && IsCommit(log[i], key) && log[i].id == id;
        assert whole[i] == log[i];
      }
      if IsCommit(e, key) && id == e.id {
        assert whole[|log|] == e;
      }
      if id in Committed(whole, key) {
        var i :| 0 <= i < |whole| && IsCommit(whole[i], key) && whole[i].id == id;
        assert i < |log| ==> whole[i] == log[i];
      }
    }
  }

  lemma FrontOk(m: Contents, front: seq<Event<int>>, e: Event<int>, key: Key, delta: nat -> int)
    requires OnlyIncrements(front + [e], key, delta) && LoggedOnce(front + [e]) && RepliesAgree(m, front + [e])
    ensures OnlyIncrements(front, key, delta) && LoggedOnce(front) && RepliesAgree(m, front)
    ensures e.Applied? ==> e.outcome == Apply(e.update, Get(Replay(m, front), e.key)).1
    ensures e.key == key ==> e.Applied? && e.update == IncrBy(delta(e.id))
    ensures IsCommit(e, key) ==> e.id !in Committed(front, key)
  {
    hide Replay, Apply, IncrBy;
    var log := front + [e];
    assert log[..|front|] == front && log[|front|] == e;
    assert forall i :: 0 <= i < |front| ==> log[i] == front[i] && log[..i] == front[..i];
    forall i | 0 <= i < |front| && IsCommit(front[i], key)
      ensures IsCommit(e, key) ==> front[i].id != e.id
    {
      assert log[i] == front[i] && !IsBy(log[|front|], log[i].id);
    }
  }

  /** One more event adds its delta if it is a committed increment of the key, and else nothing. */
  lemma EventAddsUp(before: Contents, e: Event<int>, key: Key, delta: nat -> int)
    requires e.key == key ==> e.Applied? && e.update == IncrBy(delta(e.id))
    requires e.Applied? ==> e.outcome == Apply(e.update, Get(before, e.key)).1
    requires CounterValue(Get(before, key)).Some?
    ensures CounterValue(Get(ApplyEvent(before, e), key)) ==
            Some(CounterValue(Get(before, key)).value + if IsCommit(e, key) then delta(e.id) else 0)
  {
    if e.key == key {
      IncrByAdds(delta(e.id), Get(before, key));
      hide IncrBy, CounterValue;
      var after := Apply(e.update, Get(before, key)).0;
      assert Get(Overwrite(before, key, after), key) == after;
    } else {
      assert Get(ApplyEvent(before, e), key) == Get(before, key);
    }
  }

  lemma SumInsert(ids: set<nat>, id: nat, delta: nat -> int)
    requires id !in ids
    ensures SumOver(ids + {id}, delta) == SumOver(ids, delta) + delta(id)
  {
    SumRemove(ids + {id}, id, delta);
    assert ids + {id} - {id} == ids;
  }

  lemma CommittedSum(front: seq<Event<int>>, e: Event<int>, key: Key, delta: nat -> int)
    requires IsCommit(e, key) ==> e.id !in Committed(front, key)
    ensures SumOver(Committed(front + [e], key), delta) ==
            SumOver(Committed(front, key), delta) + if IsCommit(e, key) then delta(e.id) else 0
  {
    hide Committed, SumOver;
    CommittedSnoc(front, e, key);
    if IsCommit(e, key) {
      SumInsert(Committed(front, key), e.id, delta);
    } else {
      assert Committed(front, key) + {} == Committed(front, key);
    }
  }

  lemma EmptySum(key: Key, delta: nat -> int)
    ensures SumOver(Committed([], key), delta) == 0
  {
  }

  /** Replaying a log in which the key only sees increments adds up the committed deltas. */
  lemma {:induction false} ReplayAddsUp(m: Contents, log: seq<Event<int>>, key: Key, delta: nat -> int)
    requires CounterValue(Get(m, key)).Some?
    requires OnlyIncrements(log, key, delta) && LoggedOnce(log) && RepliesAgree(m, log)
    ensures CounterValue(Get(Replay(m, log), key)) ==
            Some(CounterValue(Get(m, key)).value + SumOver(Committed(log, key), delta))
    decreases |log|
  {
    hide OnlyIncrements, LoggedOnce, RepliesAgree, CounterValue, Committed, SumOver, ApplyEvent, Get, Replay, Apply, IncrBy;
    if log == [] {
      EmptySum(key, delta);
      NothingReplayed(m);
    } else {
      var n := |log| - 1;
      var front, e := log[..n], log[n];
      assert log == front + [e];
      FrontOk(m, front, e, key, delta);
      ReplayAddsUp(m, front, key, delta);
      AddsOne(m, front, e, key, delta);
    }
  }

  lemma NothingReplayed(m: Contents)
    ensures Replay<int>(m, []) == m
  {
  }

  /** One more event, and the sum still adds up. */
  lemma AddsOne(m: Contents, front: seq<Event<int>>, e: Event<int>, key: Key, delta: nat -> int)
    requires CounterValue(Get(m, key)).Some?
    requires CounterValue(Get(Replay(m, front), key)) ==
             Some(CounterValue(Get(m, key)).value + SumOver(Committed(front, key), delta))
    requires e.Applied? ==> e.outcome == Apply(e.update, Get(Replay(m, front), e.key)).1
    requires e.key == key ==> e.Applied? && e.update == IncrBy(delta(e.id))
    requires IsCommit(e, key) ==> e.id !in Committed(front, key)
    ensures CounterValue(Get(Replay(m, front + [e]), key)) ==
            Some(CounterValue(Get(m, key)).value + SumOver(Committed(front + [e], key), delta))
  {
    hide CounterValue, Committed, SumOver, ApplyEvent, Get, Replay, Apply, IncrBy;
    ReplaySnoc(m, front, e);
    CommittedSum(front, e, key, delta);
    EventAddsUp(Replay(m, front), e, key, delta);
  }

  /** The calls on `key` that got a reply. */
  ghost function RepliedCalls(s: State<int>, key: Key): set<nat> {
    set id | id in s.calls && s.calls[id].key == key && s.calls[id].phase.Done? && s.calls[id].phase.outcome.Returned?
  }

  /** The calls on `key` that were told of a backend failure, which may hide a write that landed. */
  ghost function FailedCalls(s: State<int>, key: Key): set<nat> {
    set id | id in s.calls && s.calls[id].key == key && s.calls[id].phase == Done(BackendFailed)
  }

  lemma CommittedAreReplied(m: Contents, s: State<int>, key: Key)
    requires Explained(m, s)
    ensures RepliedCalls(s, key) <= Committed(s.log, key) <= RepliedCalls(s, key) + FailedCalls(s, key)
  {
    hide TokensAreMinted, RepliesAgree, CommitsAreReal;
    forall id | id in RepliedCalls(s, key)
      ensures id in Committed(s.log, key)
    {
      RepliedIsCommitted(m, s, key, id);
    }
    forall id | id in Committed(s.log, key)
      ensures id in RepliedCalls(s, key) + FailedCalls(s, key)
    {
      CommittedIsReplied(m, s, key, id);
    }
  }

  lemma RepliedIsCommitted(m: Contents, s: State<int>, key: Key, id: nat)
    requires Explained(m, s) && id in RepliedCalls(s, key)
    ensures id in Committed(s.log, key)
  {
    hide LogInv, WindowsOk;
    assert CallInv(s, id);
    var i :| 0 <= i < |s.log| && IsBy(s.log[i], id) && s.log[i].outcome == s.calls[id].phase.outcome;
    assert IsCommit(s.log[i], key);
  }

  lemma CommittedIsReplied(m: Contents, s: State<int>, key: Key, id: nat)
    requires Explained(m, s) && id in Committed(s.log, key)
    ensures id in RepliedCalls(s, key) + FailedCalls(s, key)
  {
    hide WindowsOk, RepliesAgree, CommitsAreReal, TokensAreMinted;
    var i :| 0 <= i < |s.log| && IsCommit(s.log[i], key) && s.log[i].id == id;
    assert IsBy(s.log[i], id) && id in s.calls && CallInv(s, id);
  }

  lemma LogOnlyIncrements(m: Contents, s: State<int>, key: Key, delta: nat -> int)
    requires Explained(m, s)
    requires forall id :: id in s.calls && s.calls[id].key == key ==> s.calls[id].update == IncrBy(delta(id))
    requires forall i :: 0 <= i < |s.log| && s.log[i].key == key ==> s.log[i].Applied?
    ensures OnlyIncrements(s.log, key, delta)
  {
  }

  /** Nothing but INCRBY calls has been applied to the key. */
  ghost predicate OnlyCounted(s: State<int>, key: Key, delta: nat -> int) {
    && (forall id :: id in s.calls && s.calls[id].key == key ==> s.calls[id].update == IncrBy(delta(id)))
    && (forall i :: 0 <= i < |s.log| && s.log[i].key == key ==> s.log[i].Applied?)
  }

  ghost function CounterAt(s: State<int>, key: Key): Option<int> {
    CounterValue(Get(ContentsOf(s.store), key))
  }

  /** The sum of the deltas of exactly these calls separates the counter now from the counter then. */
  ghost predicate AddedUp(s0: State<int>, s: State<int>, key: Key, delta: nat -> int, ids: set<nat>) {
    && CounterAt(s0, key).Some?
    && CounterAt(s, key) == Some(CounterAt(s0, key).value + SumOver(ids, delta))
  }

  /** A counter that only INCRBY calls touch ends, in every interleaving, at its start plus the
    * deltas of all the calls that got a reply and of those calls told of a backend failure whose
    * write had landed. Calls rejected for overflow, refused for contention or still running
    * contribute nothing.
    */
  lemma NoIncrementIsLost(s0: State<int>, steps: seq<Step<int>>, key: Key, delta: nat -> int) returns (ids: set<nat>)
    requires Initial(s0) && Possible(s0, steps)
    requires CounterAt(s0, key).Some? && OnlyCounted(Run(s0, steps), key, delta)
    ensures RepliedCalls(Run(s0, steps), key) <= ids <= RepliedCalls(Run(s0, steps), key) + FailedCalls(Run(s0, steps), key)
    ensures AddedUp(s0, Run(s0, steps), key, delta, ids)
  {
    hide CounterAt, OnlyCounted, Explained, RepliedCalls, FailedCalls, SumOver, Run, Possible, Initial, ContentsOf, AddedUp;
    InitiallyExplained(s0);
    ExplainedThroughout(ContentsOf(s0.store), s0, steps);
    CommittedAreReplied(ContentsOf(s0.store), Run(s0, steps), key);
    ExplainedCounts(s0, Run(s0, steps), key, delta);
    ids := Committed(Run(s0, steps).log, key);
  }

  lemma ExplainedCounts(s0: State<int>, s: State<int>, key: Key, delta: nat -> int)
    requires Explained(ContentsOf(s0.store), s) && CounterAt(s0, key).Some?
    requires OnlyCounted(s, key, delta)
    ensures AddedUp(s0, s, key, delta, Committed(s.log, key))
  {
    var m := ContentsOf(s0.store);
    hide CallInv, IncrBy, CounterValue, TokensAreMinted, RepliesAgree, CommitsAreReal, Replay, Committed, Get, SumOver;
    LogOnlyIncrements(m, s, key, delta);
    ExplainedLoggedOnce(m, s);
    ReplayAddsUp(m, s.log, key, delta);
  }

  lemma ExplainedLoggedOnce(m: Contents, s: State<int>)
    requires Explained(m, s)
    ensures LoggedOnce(s.log)
  {
  }
}
