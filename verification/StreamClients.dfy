/** Stream commands sent by concurrent clients: the optimistic-locking loop makes every interleaving
  * one sequence of commands, so what holds of all command sequences holds of all interleavings.
  */
module StreamClients {
  import opened Bytes
  import opened Values
  import opened Ordered
  import opened StreamTypes
  import opened Stream
  import opened Cas
  import StreamLog
  import StreamOps
  import StreamEffects
  import opened ConsumerGroup

  /** Whether a command's closure asks for a write. */
  predicate Writes(c: Command, reply: Reply) {
    !reply.Nothing? && !((c.XDel? || c.XTrim? || c.XAck?) && reply == Count(0))
  }

  function Respond(stored: Stored, expires: Option<int>, c: Command): Computed<Reply> {
    var (after, reply) := Execute(stored, c);
    if reply.Failed? then Err(Parse)
    else if Writes(c, reply) && after.Some? then Ok(Write(StoredValue(Value.Stream(after.value), expires), reply))
    else Ok(NoOp(reply))
  }

  /** A stream command's closure, as handed to the optimistic-locking loop. */
  function StreamUpdate(c: Command): Update<Reply> {
    (entry: Option<StoredValue>) =>
      match entry
      case None => Respond(None, None, c)
      case Some(StoredValue(Stream(s), expires)) => Respond(Some(s), expires, c)
      case Some(_) => Err(WrongType)
  }

  /** The stream a key holds, if it holds nothing else. */
  function StreamAt(entry: Option<StoredValue>): Option<Stored> {
    match entry
    case None => Some(None)
    case Some(StoredValue(Stream(s), _)) => Some(Some(s))
    case Some(_) => None
  }

  // ---------------------------------------------------------------------------
  // One command
  // ---------------------------------------------------------------------------

  lemma {:induction false} NothingDropped(entries: seq<Entry>, ids: seq<StreamId>, max: StreamId)
    ensures |Without(entries, ids)| <= |entries|
    ensures |Without(entries, ids)| == |entries| ==> Without(entries, ids) == entries && MaxDropped(entries, ids, max) == max
  {
    if entries != [] {
      NothingDropped(entries[..|entries| - 1], ids, max);
      assert entries == entries[..|entries| - 1] + [entries[|entries| - 1]];
    }
  }

  /** A closure that asks for no write has nothing to write. */
  lemma NoWriteNoChange(stored: Stored, c: Command)
    ensures
      var (after, reply) := Execute(stored, c);
      (reply.Failed? || !Writes(c, reply) || after.None?) ==> after == stored
  {
    if stored.Some? && c.XDel? {
      NothingDropped(stored.value.entries, c.ids, stored.value.maxDeleted);
    }
    if stored.Some? && c.XAck? && c.group in stored.value.groups {
      StreamOps.NothingRemoved(stored.value, c.group, ToSet(c.ids));
    }
    hide ReadNew, ReadPending, ClaimAll, AutoClaimPage, ApplyGroupOp, ToSet, Without, MaxDropped;
  }

  /** The closure run alone does to the key what the command does to the stream, and replies alike. */
  lemma UpdateIsExecute(c: Command, before: Option<StoredValue>)
    requires StreamAt(before).Some?
    ensures
      var (after, outcome) := Apply(StreamUpdate(c), before);
      var (stored, reply) := Execute(StreamAt(before).value, c);
      && StreamAt(after) == Some(stored)
      && outcome == (if reply.Failed? then Rejected(Parse) else Returned(reply))
      && (after.Some? ==> after.value.expiresAtMs == if before.Some? then before.value.expiresAtMs else None)
  {
    var stored := StreamAt(before).value;
    NoWriteNoChange(stored, c);
    var expires := if before.Some? then before.value.expiresAtMs else None;
    assert StreamUpdate(c)(before) == Respond(stored, expires, c);
    hide Execute, Writes, StreamUpdate;
  }

  /** A closure asks for a write unless it has nothing to answer or counted nothing removed, trimmed or
    * acknowledged.
    */
  lemma QuietCommands(c: Command, before: Option<StoredValue>)
    requires StreamAt(before).Some? && !Execute(StreamAt(before).value, c).1.Failed?
    ensures
      var reply, asked := Execute(StreamAt(before).value, c).1, StreamUpdate(c)(before);
      && asked.Ok?
      && (asked.action.NoOp? <==> reply.Nothing? || ((c.XDel? || c.XTrim? || c.XAck?) && reply == Count(0)))
      && !asked.action.Delete?
  {
    hide Execute;
    var stored := StreamAt(before).value;
    AlwaysThere(stored, c);
    var expires := if before.Some? then before.value.expiresAtMs else None;
    assert StreamUpdate(c)(before) == Respond(stored, expires, c);
    hide StreamUpdate;
  }

  /** What is to be written is there. */
  lemma AlwaysThere(stored: Stored, c: Command)
    ensures
      var (after, reply) := Execute(stored, c);
      !reply.Failed? && !reply.Nothing? && !((c.XDel? || c.XTrim? || c.XAck?) && reply == Count(0)) ==> after.Some?
  {
    hide ReadNew, ReadPending, ClaimAll, AutoClaimPage, ApplyGroupOp, ToSet, Without, MaxDropped, Trim, Append, ResolveAddId, Bodies, SortById;
  }

  /** A key of another kind is left alone. */
  lemma OtherKindIsRefused(c: Command, before: Option<StoredValue>)
    requires before.Some? && !before.value.value.Stream?
    ensures Apply(StreamUpdate(c), before) == (before, Rejected(WrongType))
  {
  }

  // ---------------------------------------------------------------------------
  // All interleavings
  // ---------------------------------------------------------------------------

  /** Each call on the key runs the command given to it, and nothing else has touched the key. */
  ghost predicate OnlyStreamCommands(s: State<Reply>, key: Key, command: nat -> Command) {
    && (forall id :: id in s.calls && s.calls[id].key == key ==> s.calls[id].update == StreamUpdate(command(id)))
    && (forall i :: 0 <= i < |s.log| && s.log[i].key == key ==> s.log[i].Applied?)
  }

  ghost predicate LogOfCommands(log: seq<Event<Reply>>, key: Key, command: nat -> Command) {
    forall i :: 0 <= i < |log| && log[i].key == key ==>
      log[i].Applied? && log[i].update == StreamUpdate(command(log[i].id))
  }

  /** The commands that took effect on the key, in the order they did. */
  function CommandsOf(log: seq<Event<Reply>>, key: Key, command: nat -> Command): seq<Command> {
    if log == [] then []
    else
      var before, e := CommandsOf(log[..|log| - 1], key, command), log[|log| - 1];
      if e.Applied? && e.key == key then before + [command(e.id)] else before
  }

  /** One more event on the key is one more command. */
  lemma EventIsCommand(before: Contents, e: Event<Reply>, key: Key, c: Command)
    requires e.key == key ==> e.Applied? && e.update == StreamUpdate(c)
    requires StreamAt(Get(before, key)).Some?
    ensures StreamAt(Get(ApplyEvent(before, e), key)) ==
      if e.key == key then Some(Execute(StreamAt(Get(before, key)).value, c).0) else StreamAt(Get(before, key))
  {
    if e.key == key {
      UpdateIsExecute(c, Get(before, key));
      hide StreamUpdate, Execute, StreamAt;
      var after := Apply(e.update, Get(before, key)).0;
      assert Get(Overwrite(before, key, after), key) == after;
    } else {
      hide StreamAt;
      assert Get(ApplyEvent(before, e), key) == Get(before, key);
    }
  }

  lemma {:induction false} ReplayIsRun(m: Contents, log: seq<Event<Reply>>, key: Key, command: nat -> Command)
    requires key !in m && LogOfCommands(log, key, command)
    ensures StreamAt(Get(Replay(m, log), key)) == Some(StreamLog.Run(StreamLog.Beginning, CommandsOf(log, key, command)).stored)
    decreases |log|
  {
    if log != [] {
      var front, e := log[..|log| - 1], log[|log| - 1];
      assert log == front + [e];
      assert LogOfCommands(front, key, command);
      var c := if e.Applied? then command(e.id) else XDel([]);
      assert e.key == key ==> e.Applied? && e.update == StreamUpdate(c);
      assert CommandsOf(log, key, command) == CommandsOf(front, key, command) + if e.key == key then [c] else [];
      hide Replay, StreamAt, Execute, StreamUpdate, ApplyEvent, Get, CommandsOf, LogOfCommands;
      ReplayIsRun(m, front, key, command);
      ReplaySnoc(m, front, e);
      EventIsCommand(Replay(m, front), e, key, c);
      if e.key == key {
        StreamLog.RunAppend(StreamLog.Beginning, CommandsOf(front, key, command), c);
      } else {
        assert CommandsOf(front, key, command) + [] == CommandsOf(front, key, command);
      }
    }
  }

  lemma ExplainedLog(m: Contents, s: State<Reply>, key: Key, command: nat -> Command)
    requires Explained(m, s) && OnlyStreamCommands(s, key, command)
    ensures LogOfCommands(s.log, key, command) && ContentsOf(s.store) == Replay(m, s.log)
  {
    hide TokensAreMinted, RepliesAgree, CommitsAreReal, StreamUpdate, Replay;
    forall i | 0 <= i < |s.log| && s.log[i].key == key
      ensures s.log[i].Applied? && s.log[i].update == StreamUpdate(command(s.log[i].id))
    {
      assert IsBy(s.log[i], s.log[i].id) && CallInv(s, s.log[i].id);
    }
  }

  /** Any number of clients send stream commands to a key that starts out missing. In every
    * interleaving, with retries, contention and lost answers, the key ends up holding what one
    * sequence of those commands leaves, run one at a time from a missing key; and unless one of them
    * adds at the largest id, all that `StreamLog` says of command sequences holds of it.
    */
  lemma ConcurrentStreamIsSound(s0: State<Reply>, steps: seq<Step<Reply>>, key: Key, command: nat -> Command)
    requires Initial(s0) && Possible(s0, steps) && key !in s0.store
    requires OnlyStreamCommands(Run(s0, steps), key, command)
    ensures
      var s := Run(s0, steps);
      var commands := CommandsOf(s.log, key, command);
      var h := StreamLog.Run(StreamLog.Beginning, commands);
      && StreamAt(Get(ContentsOf(s.store), key)) == Some(h.stored)
      && (StreamLog.NeverFull(StreamLog.Beginning, commands) ==> StreamLog.Sound(h))
  {
    var m, s := ContentsOf(s0.store), Run(s0, steps);
    var commands := CommandsOf(s.log, key, command);
    InitiallyExplained(s0);
    ExplainedThroughout(m, s0, steps);
    ExplainedLog(m, s, key, command);
    hide Explained, Run, Possible, Initial, OnlyStreamCommands, LogOfCommands, StreamAt, Replay, CommandsOf, StreamLog.Run, StreamLog.Sound;
    assert key !in m;
    ReplayIsRun(m, s.log, key, command);
    if StreamLog.NeverFull(StreamLog.Beginning, commands) {
      StreamLog.StreamStaysSound(commands);
    }
  }

  /** At position i of the log a call's command was the next of the sequence, with this outcome. */
  ghost predicate RepliedInSequence(log: seq<Event<Reply>>, i: nat, id: nat, key: Key, command: nat -> Command, outcome: Outcome<Reply>) {
    i < |log| && IsBy(log[i], id) && log[i].key == key &&
    var before := StreamLog.Run(StreamLog.Beginning, CommandsOf(log[..i], key, command)).stored;
    var reply := Execute(before, command(id)).1;
    outcome == if reply.Failed? then Rejected(Parse) else Returned(reply)
  }

  lemma LoggedInSequence(m: Contents, log: seq<Event<Reply>>, i: nat, key: Key, command: nat -> Command)
    requires key !in m && LogOfCommands(log, key, command) && RepliesAgree(m, log)
    requires i < |log| && log[i].key == key
    ensures RepliedInSequence(log, i, log[i].id, key, command, log[i].outcome)
  {
    assert LogOfCommands(log[..i], key, command);
    ReplayIsRun(m, log[..i], key, command);
    var entry := Get(Replay(m, log[..i]), key);
    assert log[i].outcome == Apply(StreamUpdate(command(log[i].id)), entry).1;
    hide Replay, StreamUpdate, Execute, CommandsOf, RepliesAgree;
    UpdateIsExecute(command(log[i].id), entry);
  }

  /** In every run, the reply a client gets is the one its command gives at its place in the sequence
    * that `ConcurrentStreamIsSound` speaks of, a place after the call began.
    */
  lemma ReplyIsSequential(s0: State<Reply>, steps: seq<Step<Reply>>, key: Key, command: nat -> Command, id: nat) returns (i: nat)
    requires Initial(s0) && Possible(s0, steps) && key !in s0.store
    requires OnlyStreamCommands(Run(s0, steps), key, command)
    requires
      var s := Run(s0, steps);
      id in s.calls && s.calls[id].key == key && Replied(s.calls[id])
    ensures
      var s := Run(s0, steps);
      s.calls[id].began <= i && RepliedInSequence(s.log, i, id, key, command, s.calls[id].phase.outcome)
  {
    var m, s := ContentsOf(s0.store), Run(s0, steps);
    InitiallyExplained(s0);
    ExplainedThroughout(m, s0, steps);
    ExplainedLog(m, s, key, command);
    assert RepliesAgree(m, s.log) && CallInv(s, id) && key !in m;
    hide Run, Possible, Initial, Explained, RepliesAgree, LogOfCommands, WindowsOk, RepliedInSequence;
    i :| 0 <= i < |s.log| && IsBy(s.log[i], id) && s.log[i].outcome == s.calls[id].phase.outcome;
    LoggedInSequence(m, s.log, i, key, command);
  }

  // ---------------------------------------------------------------------------
  // From writers to readers
  // ---------------------------------------------------------------------------

  /** At position k of the log an XADD with the fields of e took effect on the key and was answered
    * the id of e.
    */
  ghost predicate AddLogged(log: seq<Event<Reply>>, k: nat, key: Key, command: nat -> Command, e: Entry) {
    && k < |log| && log[k].Applied? && log[k].key == key
    && var c := command(log[k].id);
       c.XAdd? && c.fields == e.fields && log[k].outcome == Returned(Added(e.id))
  }

  lemma LogPrefix(m: Contents, log: seq<Event<Reply>>, i: nat, key: Key, command: nat -> Command)
    requires LogOfCommands(log, key, command) && RepliesAgree(m, log) && i <= |log|
    ensures LogOfCommands(log[..i], key, command) && RepliesAgree(m, log[..i])
  {
    hide Replay, Apply;
    assert forall j :: 0 <= j < i ==> log[..i][..j] == log[..j] && log[..i][j] == log[j];
  }

  /** The entry an event puts into the stream is the one its XADD was answered for. */
  lemma EventAddsEntry(m: Contents, log: seq<Event<Reply>>, i: nat, key: Key, command: nat -> Command, e: Entry)
    requires LogOfCommands(log, key, command) && RepliesAgree(m, log) && i < |log| && log[i].key == key
    requires StreamAt(Get(Replay(m, log[..i]), key)).Some?
    requires
      var before := StreamAt(Get(Replay(m, log[..i]), key)).value;
      e in OrEmpty(Execute(before, command(log[i].id)).0).entries && e !in OrEmpty(before).entries
    ensures AddLogged(log, i, key, command, e)
  {
    var entry := Get(Replay(m, log[..i]), key);
    StreamEffects.NewEntriesAreAdded(StreamAt(entry).value, command(log[i].id), e);
    hide Replay, StreamUpdate, Execute;
    UpdateIsExecute(command(log[i].id), entry);
  }

  lemma {:induction false} EntryWasLogged(m: Contents, log: seq<Event<Reply>>, key: Key, command: nat -> Command, e: Entry) returns (k: nat)
    requires key !in m && LogOfCommands(log, key, command) && RepliesAgree(m, log)
    requires
      var stored := StreamAt(Get(Replay(m, log), key));
      stored.Some? && e in OrEmpty(stored.value).entries
    ensures AddLogged(log, k, key, command, e)
    decreases |log|
  {
    if log == [] {
      assert false;
    } else {
      var front, last := log[..|log| - 1], log[|log| - 1];
      assert log == front + [last];
      LogPrefix(m, log, |front|, key, command);
      var c := if last.Applied? then command(last.id) else XDel([]);
      assert last.key == key ==> last.Applied? && last.update == StreamUpdate(c);
      hide Replay, StreamAt, Execute, StreamUpdate, ApplyEvent, Get, LogOfCommands, RepliesAgree;
      ReplayIsRun(m, front, key, command);
      ReplaySnoc(m, front, last);
      EventIsCommand(Replay(m, front), last, key, c);
      var before := StreamAt(Get(Replay(m, front), key)).value;
      if e in OrEmpty(before).entries {
        k := EntryWasLogged(m, front, key, command, e);
      } else {
        EventAddsEntry(m, log, |front|, key, command, e);
        k := |front|;
      }
    }
  }

  lemma HandedOutWasLogged(m: Contents, log: seq<Event<Reply>>, i: nat, key: Key, command: nat -> Command, reply: Reply, e: Entry) returns (k: nat)
    requires key !in m && LogOfCommands(log, key, command) && RepliesAgree(m, log)
    requires i < |log| && log[i].key == key && log[i].outcome == Returned(reply) && StreamEffects.HandsOut(reply, e)
    ensures k < i && AddLogged(log, k, key, command, e)
  {
    LogPrefix(m, log, i, key, command);
    ReplayIsRun(m, log[..i], key, command);
    var entry := Get(Replay(m, log[..i]), key);
    assert log[i].outcome == Apply(log[i].update, entry).1;
    hide Replay, StreamUpdate, Execute, CommandsOf, RepliesAgree, StreamEffects.HandsOut;
    UpdateIsExecute(command(log[i].id), entry);
    StreamEffects.HandedOutIsStored(StreamAt(entry).value, command(log[i].id), e);
    k := EntryWasLogged(m, log[..i], key, command, e);
  }

  /** In every interleaving, whatever a client is handed by a read or a claim, another client's XADD
    * put there: that XADD took effect first, was answered this id and brought these fields.
    */
  lemma ReadersGetWhatWritersAdded(s0: State<Reply>, steps: seq<Step<Reply>>, key: Key, command: nat -> Command, id: nat, reply: Reply, e: Entry) returns (k: nat, i: nat)
    requires Initial(s0) && Possible(s0, steps) && key !in s0.store
    requires OnlyStreamCommands(Run(s0, steps), key, command)
    requires
      var s := Run(s0, steps);
      id in s.calls && s.calls[id].key == key && s.calls[id].phase == Done(Returned(reply))
    requires StreamEffects.HandsOut(reply, e)
    ensures
      var s := Run(s0, steps);
      && i < |s.log| && s.calls[id].began <= i && IsBy(s.log[i], id) && s.log[i].outcome == Returned(reply)
      && k < i && AddLogged(s.log, k, key, command, e)
  {
    var m, s := ContentsOf(s0.store), Run(s0, steps);
    InitiallyExplained(s0);
    ExplainedThroughout(m, s0, steps);
    ExplainedLog(m, s, key, command);
    assert RepliesAgree(m, s.log) && CallInv(s, id) && key !in m;
    hide Run, Possible, Initial, Explained, RepliesAgree, LogOfCommands, WindowsOk, AddLogged, StreamEffects.HandsOut;
    i :| 0 <= i < |s.log| && s.calls[id].began <= i && IsBy(s.log[i], id) && s.log[i].key == key && s.log[i].outcome == Returned(reply);
    k := HandedOutWasLogged(m, s.log, i, key, command, reply, e);
  }

  lemma {:induction false} RunConcat(h: StreamLog.History, a: seq<Command>, b: seq<Command>)
    ensures StreamLog.Run(h, a + b) == StreamLog.Run(StreamLog.Run(h, a), b)
    decreases |a|
  {
    if a == [] {
      assert a + b == b;
    } else {
      hide StreamLog.After;
      assert (a + b)[0] == a[0] && (a + b)[1..] == a[1..] + b;
      RunConcat(StreamLog.After(h, a[0]), a[1..], b);
    }
  }

  lemma {:induction false} TrackIsRun(t: Tracked, commands: seq<Command>)
    ensures Track(t, commands).history == StreamLog.Run(t.history, commands)
    decreases |commands|
  {
    if commands != [] {
      ObservedHistory(t, commands[0]);
      hide Observe, StreamLog.After;
      TrackIsRun(Observe(t, commands[0]), commands[1..]);
    }
  }

  /** Consumers in a group race each other and the writers: the ids handed out across all of them
    * still ascend with none skipped, and each delivered id is in exactly one place at the end.
    */
  lemma ConcurrentGroupIsOrdered(s0: State<Reply>, steps: seq<Step<Reply>>, key: Key, command: nat -> Command,
                                 before: seq<Command>, create: Command, after: seq<Command>)
    requires Initial(s0) && Possible(s0, steps) && key !in s0.store
    requires OnlyStreamCommands(Run(s0, steps), key, command)
    requires CommandsOf(Run(s0, steps).log, key, command) == before + ([create] + after)
    requires StreamLog.NeverFull(StreamLog.Beginning, before)
    requires Creates(StreamLog.Run(StreamLog.Beginning, before), create)
    requires AllRegular(after, create.group)
    requires StreamLog.NeverFull(StreamLog.After(StreamLog.Run(StreamLog.Beginning, before), create), after)
    ensures
      var t := Track(Opened(StreamLog.Run(StreamLog.Beginning, before), create), after);
      && StreamAt(Get(ContentsOf(Run(s0, steps).store), key)) == Some(t.history.stored)
      && Ascending(t.delivered, Before)
      && NoneSkipped(OrEmpty(t.history.stored).entries, t.start, GroupOf(t).lastDelivered, t.delivered)
      && Partitioned(ToSet(t.delivered), GroupOf(t).pending.Keys, t.acked, t.dropped, t.purged)
  {
    var h := StreamLog.Run(StreamLog.Beginning, before);
    var t := Opened(h, create);
    ConcurrentStreamIsSound(s0, steps, key, command);
    assert AllKeep(after, create.group);
    hide Run, Possible, Initial, OnlyStreamCommands, StreamAt, CommandsOf, AllRegular, AllKeep, StreamLog.NeverFull, StreamLog.Sound;
    DeliveredInOrder(before, create, after);
    PendingIsConserved(before, create, after);
    hide Partitioned, NoneSkipped, Ascending, Creates;
    RunConcat(StreamLog.Beginning, before, [create] + after);
    assert ([create] + after)[1..] == after && StreamLog.Run(h, [create] + after) == StreamLog.Run(StreamLog.After(h, create), after);
    TrackIsRun(t, after);
  }
}
