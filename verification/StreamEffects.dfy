/** What each stream command does to a stored stream, in terms of the entries, rows and ids alone:
  * none of these statements mentions the functions that compute the result.
  */
module StreamEffects {
  import opened Bytes
  import opened Ordered
  import opened StreamTypes
  import opened Stream
  import opened StreamLog
  import ConsumerGroup
  import AutoClaim

  // ---------------------------------------------------------------------------
  // Adding
  // ---------------------------------------------------------------------------

  /** The order of ids is that of 128-bit numbers with the milliseconds on top. */
  lemma BeforeIsNumeric(a: StreamId, b: StreamId)
    ensures Before(a, b) <==> a.ms * U64 + a.number < b.ms * U64 + b.number
  {
    if a.ms < b.ms {
      assert (b.ms - a.ms) * U64 >= U64;
    } else if b.ms < a.ms {
      assert (a.ms - b.ms) * U64 >= U64;
    }
  }

  /** Whether an XADD at a given clock may use an id. */
  predicate Asked(spec: AddId, clock: u64, id: StreamId) {
    match spec
    case Auto => clock <= id.ms
    case PartialMs(ms) => ms <= id.ms
    case Concrete(asked) => id == asked
  }

  function LastId(stored: Stored): StreamId {
    if stored.Some? then stored.value.lastGenerated else StreamId(0, 0)
  }

  /** An XADD below the largest id is answered with the least id above the last one that it asks for,
    * and fails exactly when it names a millisecond or an id that is not late enough. At the largest id
    * the next one is 0-0.
    */
  lemma AddTakesLeastId(stored: Stored, c: Command)
    requires c.XAdd? && (stored.Some? || !c.nomkstream)
    ensures
      var last, reply := LastId(stored), Execute(stored, c).1;
      && (reply.Added? || reply.Failed?)
      && (reply.Failed? <==>
            || (c.spec.PartialMs? && c.spec.ms < last.ms)
            || (c.spec.Concrete? && !Before(last, c.spec.id)))
      && (reply.Added? && last != MAX ==>
            && Asked(c.spec, c.clock, reply.id) && Before(last, reply.id)
            && forall x :: Asked(c.spec, c.clock, x) && Before(last, x) ==> x == reply.id || Before(reply.id, x))
      && (reply.Added? && last == MAX ==> reply.id == StreamId(0, 0))
  {
    var last := LastId(stored);
    NextIsSuccessor(last);
    hide Trim, Append;
  }

  /** Trimming takes an entry if it exceeds MAXLEN, or lies below MINID with all before it, and LIMIT
    * has not been reached.
    */
  ghost predicate Goes(entries: seq<Entry>, bound: Bound, limit: Option<nat>, i: nat)
    requires i < |entries|
  {
    && (limit.Some? ==> i < limit.value)
    && match bound
       case MaxLen(max) => |entries| - i > max
       case MinId(min) => forall j :: 0 <= j <= i ==> Before(entries[j].id, min)
  }

  ghost predicate Cuts(entries: seq<Entry>, bound: Bound, limit: Option<nat>, cut: nat) {
    cut <= |entries| && forall i: nat :: i < |entries| ==> (i < cut <==> Goes(entries, bound, limit, i))
  }

  lemma TrimCuts(s: StreamValue, bound: Bound, limit: Option<nat>)
    ensures Cuts(s.entries, bound, limit, TrimCount(s, bound, limit))
  {
  }

  lemma TrimmedBy(s: StreamValue, bound: Bound, limit: Option<nat>)
    ensures
      var k := TrimCount(s, bound, limit);
      && Trim(s, bound, limit) == s.(entries := s.entries[k..], maxDeleted := Trim(s, bound, limit).maxDeleted)
  {
    assert s.entries[0..] == s.entries;
    hide TrimCount;
  }

  /** The entries an XADD leaves: those it found with one more at the end, less what it trims. */
  lemma AddAppends(stored: Stored, c: Command) returns (cut: nat)
    requires c.XAdd? && Execute(stored, c).1.Added?
    ensures
      var (stored', reply) := Execute(stored, c);
      var s := if stored.Some? then stored.value else StreamValue([], StreamId(0, 0), StreamId(0, 0), 0, map[]);
      var longer := s.entries + [Entry(reply.id, c.fields)];
      && (if c.trim.Some? then Cuts(longer, c.trim.value.0, c.trim.value.1, cut) else cut == 0)
      && stored'.Some?
      && stored'.value == StreamValue(
           longer[cut..], reply.id, stored'.value.maxDeleted,
           if s.entriesAdded < 0xFFFF_FFFF_FFFF_FFFF then s.entriesAdded + 1 else s.entriesAdded, s.groups)
      && (c.trim.None? ==> stored'.value.maxDeleted == s.maxDeleted)
  {
    var s, id := OrEmpty(stored), Execute(stored, c).1.id;
    var longer := Append(s, id, c.fields);
    hide ResolveAddId;
    if c.trim.Some? {
      cut := TrimCount(longer, c.trim.value.0, c.trim.value.1);
      TrimCuts(longer, c.trim.value.0, c.trim.value.1);
      TrimmedBy(longer, c.trim.value.0, c.trim.value.1);
      hide TrimCount, Trim, Cuts;
    } else {
      cut := 0;
      assert longer.entries[0..] == longer.entries;
    }
  }

  /** An XADD that adds nothing changes nothing; NOMKSTREAM on a missing key is answered with nothing. */
  lemma AddOrNothing(stored: Stored, c: Command)
    requires c.XAdd? && !Execute(stored, c).1.Added?
    ensures Execute(stored, c) == (stored, if stored.None? && c.nomkstream then Nothing else Failed)
  {
    hide ResolveAddId;
  }

  /** XTRIM cuts and counts; XDEL removes the listed entries, each counted once, and keeps the order. */
  lemma RemovalsAreExact(s: StreamValue, c: Command) returns (cut: nat)
    requires AscendingIds(s.entries) && (c.XTrim? || c.XDel?)
    ensures
      var (stored', reply) := Execute(Some(s), c);
      && stored'.Some? && AscendingIds(stored'.value.entries)
      && stored'.value == s.(entries := stored'.value.entries, maxDeleted := stored'.value.maxDeleted)
      && (c.XTrim? ==>
            Cuts(s.entries, c.bound, c.limit, cut) && stored'.value.entries == s.entries[cut..] && reply == Count(cut))
      && (c.XDel? ==>
            && (forall e :: e in stored'.value.entries <==> e in s.entries && e.id !in c.ids)
            && reply == Count(|set e | e in s.entries && e.id in c.ids :: e.id|))
  {
    if c.XTrim? {
      cut := TrimCount(s, c.bound, c.limit);
      TrimCuts(s, c.bound, c.limit);
      TrimmedBy(s, c.bound, c.limit);
      hide TrimCount, Trim, Cuts;
    } else {
      cut := 0;
      DropShrinks(s, c.ids);
      hide Without, MaxDropped;
      DropCounts(s.entries, Drop(s, c.ids).entries, c.ids);
    }
  }

  lemma EntriesSize(entries: seq<Entry>)
    requires AscendingIds(entries)
    ensures |IdSet(entries)| == |entries|
  {
    AscendingSize(IdsOf(entries));
    EntryIds(entries);
    hide IdSet, ToSet;
  }

  lemma DropCounts(entries: seq<Entry>, kept: seq<Entry>, ids: seq<StreamId>)
    requires AscendingIds(entries) && AscendingIds(kept)
    requires forall e :: e in kept <==> e in entries && e.id !in ids
    ensures |entries| - |kept| == |set e | e in entries && e.id in ids :: e.id|
  {
    var gone := set e | e in entries && e.id in ids :: e.id;
    EntriesSize(entries);
    EntriesSize(kept);
    assert IdSet(entries) == IdSet(kept) + gone && IdSet(kept) !! gone;
    hide AscendingIds;
    assert |IdSet(kept) + gone| == |IdSet(kept)| + |gone|;
  }

  // ---------------------------------------------------------------------------
  // Where every entry comes from
  // ---------------------------------------------------------------------------

  /** The i-th command of a sequence added an entry with the id and fields of e. */
  ghost predicate AddedAt(commands: seq<Command>, i: nat, e: Entry) {
    && i < |commands| && commands[i].XAdd? && commands[i].fields == e.fields
    && Execute(Run(Beginning, commands[..i]).stored, commands[i]).1 == Added(e.id)
  }

  /** A command adds the entry it replies, or none. */
  lemma NewEntriesAreAdded(stored: Stored, c: Command, e: Entry)
    requires e in OrEmpty(Execute(stored, c).0).entries && e !in OrEmpty(stored).entries
    ensures c.XAdd? && Execute(stored, c).1 == Added(e.id) && c.fields == e.fields
  {
    if !ChangesLog(c) {
      GroupCommandsKeepLog(stored, c);
    } else if c.XAdd? {
      if Execute(stored, c).1.Added? {
        var cut := AddAppends(stored, c);
      } else {
        AddOrNothing(stored, c);
      }
    } else if c.XDel? && stored.Some? {
      WithoutIsSubset(stored.value.entries, c.ids);
    }
    hide Trim, Append;
  }

  lemma {:induction false} WithoutIsSubset(entries: seq<Entry>, ids: seq<StreamId>)
    ensures forall e :: e in Without(entries, ids) ==> e in entries
  {
    if entries != [] {
      WithoutIsSubset(entries[..|entries| - 1], ids);
    }
  }

  /** In every run from a missing key each entry has the id and the fields of an XADD of that run
    * which replied that id.
    */
  lemma {:induction false} EntriesWereAdded(commands: seq<Command>, e: Entry) returns (i: nat)
    requires e in OrEmpty(Run(Beginning, commands).stored).entries
    ensures AddedAt(commands, i, e)
  {
    if commands == [] {
      assert false;
    } else {
      var front, last := commands[..|commands| - 1], commands[|commands| - 1];
      assert commands == front + [last];
      RunAppend(Beginning, front, last);
      var before := Run(Beginning, front);
      assert Run(Beginning, commands).stored == Execute(before.stored, last).0;
      hide Run, Execute;
      if e in OrEmpty(before.stored).entries {
        i := EntriesWereAdded(front, e);
        assert commands[..i] == front[..i];
      } else {
        NewEntriesAreAdded(before.stored, last, e);
        i := |front|;
        assert commands[..i] == front;
      }
    }
  }

  lemma {:induction false} NeverFullPrefix(h: History, commands: seq<Command>, j: nat)
    requires NeverFull(h, commands) && j < |commands|
    ensures NeverFull(h, commands[..j])
    ensures commands[j].XAdd? ==> OrEmpty(Run(h, commands[..j]).stored).lastGenerated != MAX
    decreases j
  {
    if j > 0 {
      hide After;
      NeverFullPrefix(After(h, commands[0]), commands[1..], j - 1);
      assert commands[..j][1..] == commands[1..][..j - 1] && commands[..j][0] == commands[0];
    } else {
      assert commands[..0] == [];
    }
  }

  lemma {:induction false} AddedIsRecorded(commands: seq<Command>, i: nat, e: Entry)
    requires AddedAt(commands, i, e)
    ensures e.id in Run(Beginning, commands).added
    decreases |commands|
  {
    var front, last := commands[..|commands| - 1], commands[|commands| - 1];
    assert commands == front + [last];
    RunAppend(Beginning, front, last);
    hide Run, Execute;
    if i < |front| {
      assert commands[..i] == front[..i];
      AddedIsRecorded(front, i, e);
    } else {
      assert commands[..i] == front;
    }
  }

  lemma LaterAddDiffers(commands: seq<Command>, i: nat, j: nat, e: Entry, f: Entry)
    requires NeverFull(Beginning, commands) && i < j
    requires AddedAt(commands, i, e) && AddedAt(commands, j, f)
    ensures e.id != f.id
  {
    var front := commands[..j];
    assert commands[..i] == front[..i];
    assert AddedAt(front, i, e);
    AddedIsRecorded(front, i, e);
    NeverFullPrefix(Beginning, commands, j);
    assert Sound(Beginning);
    RunSound(Beginning, front);
    AddIsLater(Run(Beginning, front), commands[j], f.id);
  }

  lemma AddIsLater(h: History, c: Command, id: StreamId)
    requires Sound(h) && c.XAdd? && OrEmpty(h.stored).lastGenerated != MAX && Execute(h.stored, c).1 == Added(id)
    ensures id !in h.added
  {
    AddedAtMostLast(OrEmpty(h.stored), h.added);
    NewIdIsAbove(c.spec, OrEmpty(h.stored).lastGenerated, c.clock);
    hide ResolveAddId, Trim, Append;
  }

  /** No two XADDs of a run reply the same id, so an id stands for one XADD and its fields, unless one
    * of them met the largest id.
    */
  lemma AddedOnce(commands: seq<Command>, i: nat, j: nat, e: Entry, f: Entry)
    requires NeverFull(Beginning, commands)
    requires AddedAt(commands, i, e) && AddedAt(commands, j, f) && e.id == f.id
    ensures i == j && e == f
  {
    hide AddedAt, NeverFull;
    if i < j {
      LaterAddDiffers(commands, i, j, e, f);
    } else if j < i {
      LaterAddDiffers(commands, j, i, f, e);
    } else {
      assert e.fields == f.fields by { SameAdd(commands, i, e, f); }
    }
  }

  lemma SameAdd(commands: seq<Command>, i: nat, e: Entry, f: Entry)
    requires AddedAt(commands, i, e) && AddedAt(commands, i, f)
    ensures e.fields == f.fields
  {
  }

  // ---------------------------------------------------------------------------
  // What is handed out
  // ---------------------------------------------------------------------------

  /** The entries a reply hands to its caller. */
  ghost predicate HandsOut(reply: Reply, e: Entry) {
    match reply
    case Entries(entries) => e in entries
    case Claimed(results) => Claim(e.id, Some(e.fields)) in results
    case Swept(_, claimed, _) => Claim(e.id, Some(e.fields)) in claimed
    case _ => false
  }

  lemma {:induction false} NewerThanIsSubset(entries: seq<Entry>, last: StreamId)
    ensures forall e :: e in NewerThan(entries, last) ==> e in entries
  {
    if entries != [] {
      NewerThanIsSubset(entries[..|entries| - 1], last);
    }
  }

  lemma {:induction false} EntriesOfIsSubset(entries: seq<Entry>, ids: seq<StreamId>)
    ensures forall e :: e in EntriesOf(entries, ids) ==> e in entries
  {
    if ids != [] {
      EntriesOfIsSubset(entries, ids[..|ids| - 1]);
    }
  }

  lemma {:induction false} InsertKeeps(e: Entry, entries: seq<Entry>)
    ensures multiset(InsertById(e, entries)) == multiset([e] + entries)
  {
    if entries != [] {
      InsertKeeps(e, entries[1..]);
      assert entries == [entries[0]] + entries[1..];
    }
  }

  /** Sorting by id rearranges. */
  lemma {:induction false} SortKeeps(entries: seq<Entry>)
    ensures multiset(SortById(entries)) == multiset(entries)
  {
    if entries != [] {
      SortKeeps(entries[1..]);
      InsertKeeps(entries[0], SortById(entries[1..]));
      assert entries == [entries[0]] + entries[1..];
    }
  }

  lemma ReadHandsOutStored(stored: Stored, c: Command, e: Entry)
    requires c.XReadGroup? && HandsOut(Execute(stored, c).1, e)
    ensures e in OrEmpty(stored).entries
  {
    var s := stored.value;
    var entries := if c.id.NewEntries? then ReadNew(s, c.group, c.consumer, c.count, c.noack, c.now).1
                   else ReadPending(s, c.group, c.consumer, c.id.after, c.count, c.now).1;
    SortKeeps(entries);
    assert e in multiset(SortById(entries));
    assert e in multiset(entries);
    hide SortById, EntriesOf, NewerThan;
    if c.id.NewEntries? {
      NewerThanIsSubset(s.entries, s.groups[c.group].lastDelivered);
    } else {
      EntriesOfIsSubset(s.entries, Capped(OwnRows(s.groups[c.group].pending, c.consumer, c.id.after), c.count));
    }
  }

  lemma BodiesAreStored(entries: seq<Entry>, ids: seq<StreamId>, justId: bool, e: Entry)
    requires Claim(e.id, Some(e.fields)) in Bodies(entries, ids, justId)
    ensures !justId && e in entries
  {
    var i :| 0 <= i < |ids| && Bodies(entries, ids, justId)[i] == Claim(e.id, Some(e.fields));
    assert Body(entries, ids[i], justId) == Claim(e.id, Some(e.fields));
  }

  /** A read or a claim hands out only entries that are in the stream, id and fields alike. */
  lemma HandedOutIsStored(stored: Stored, c: Command, e: Entry)
    requires HandsOut(Execute(stored, c).1, e)
    ensures e in OrEmpty(stored).entries
  {
    if c.XReadGroup? {
      ReadHandsOutStored(stored, c, e);
    } else if c.XClaim? {
      var s := stored.value;
      BodiesAreStored(s.entries, ClaimAll(s.groups[c.group], c.ids, c.consumer, c.minIdle, c.opts).1, c.opts.justId, e);
    } else if c.XAutoClaim? {
      var s := stored.value;
      hide AutoClaimPage;
      BodiesAreStored(s.entries, AutoClaim.PageOf(s, c).claimed, c.justId, e);
    } else {
      assert false;
    }
  }

  /** Everything a consumer is handed, by reading or by claiming, is what an earlier XADD of the run
    * put there under that id.
    */
  lemma HandedOutWasAdded(commands: seq<Command>, c: Command, e: Entry) returns (i: nat)
    requires HandsOut(Execute(Run(Beginning, commands).stored, c).1, e)
    ensures AddedAt(commands, i, e)
  {
    HandedOutIsStored(Run(Beginning, commands).stored, c, e);
    i := EntriesWereAdded(commands, e);
  }

  // ---------------------------------------------------------------------------
  // Group administration
  // ---------------------------------------------------------------------------

  /** A new group starts at the id given, or with `$` at the last id the stream generated, and starts
    * empty; SETID moves the cursor and nothing else.
    */
  lemma GroupStartsWhereAsked(stored: Stored, c: Command)
    requires c.XGroup? && (c.op.Create? || c.op.SetId?)
    ensures
      var (stored', reply) := Execute(stored, c);
      var s := if stored.Some? then stored.value else StreamValue([], StreamId(0, 0), StreamId(0, 0), 0, map[]);
      var cursor := if c.op.start.At? then c.op.start.id else s.lastGenerated;
      var fails := if c.op.Create? then (stored.None? && !c.op.mkstream) || c.group in s.groups
                   else c.group !in s.groups;
      if fails then stored' == stored && reply == Failed
      else
        && reply == Count(1)
        && stored' == Some(s.(groups := s.groups[c.group :=
             if c.op.Create? then Group(cursor, map[], map[]) else s.groups[c.group].(lastDelivered := cursor)]))
  {
  }

  /** DESTROY and CREATECONSUMER count what they remove or add. */
  lemma GroupsComeAndGo(stored: Stored, c: Command)
    requires c.XGroup? && (c.op.Destroy? || c.op.CreateConsumer?)
    ensures
      var (stored', reply) := Execute(stored, c);
      var s := if stored.Some? then stored.value else StreamValue([], StreamId(0, 0), StreamId(0, 0), 0, map[]);
      var here := c.group in s.groups;
      && (c.op.Destroy? ==> stored' == Some(s.(groups := s.groups - {c.group})) && reply == Count(if here then 1 else 0))
      && (c.op.CreateConsumer? && !here ==> stored' == stored && reply == Failed)
      && (c.op.CreateConsumer? && here ==>
            var g, name := s.groups[c.group], c.op.consumer;
            var consumers := if name in g.consumers then g.consumers else g.consumers[name := 0];
            && stored' == Some(s.(groups := s.groups[c.group := g.(consumers := consumers)]))
            && reply == Count(if name in g.consumers then 0 else 1))
  {
    if c.op.CreateConsumer? && stored.Some? && c.group in stored.value.groups {
      var s, g := stored.value, stored.value.groups[c.group];
      assert s.groups[c.group := g] == s.groups;
      assert g.(consumers := g.consumers) == g;
    }
  }

  /** DELCONSUMER takes the consumer and exactly its own pending rows out of the group and answers how
    * many those were.
    */
  lemma DelConsumerTakesOwnRows(s: StreamValue, c: Command)
    requires c.XGroup? && c.op.DelConsumer? && c.group in s.groups
    ensures
      var g, name := s.groups[c.group], c.op.consumer;
      var pending := map id | id in g.pending && g.pending[id].consumer != name :: g.pending[id];
      && Execute(Some(s), c).0 == Some(s.(groups := s.groups[c.group :=
           Group(g.lastDelivered, map k | k in g.consumers && k != name :: g.consumers[k], pending)]))
      && Execute(Some(s), c).1 == Count(|set id | id in g.pending && g.pending[id].consumer == name|)
  {
    var g, name := s.groups[c.group], c.op.consumer;
    var pending := map id | id in g.pending && g.pending[id].consumer != name :: g.pending[id];
    assert g.pending - OwnedBy(g.pending, name) == pending;
    assert g.consumers - {name} == map k | k in g.consumers && k != name :: g.consumers[k];
    assert OwnedBy(g.pending, name) == set id | id in g.pending && g.pending[id].consumer == name;
  }

  lemma NoGroupNoEffect(stored: Stored, c: Command)
    requires c.XReadGroup? || c.XClaim? || c.XAutoClaim? || c.XAck? || (c.XGroup? && c.op.DelConsumer?)
    requires stored.None? || c.group !in stored.value.groups
    ensures Execute(stored, c) == (stored, if c.XAck? then Count(0) else Failed)
  {
  }

  /** XACK takes the listed rows out and counts each pending id once. */
  lemma AckTakesListedRows(s: StreamValue, c: Command)
    requires c.XAck? && c.group in s.groups
    ensures
      var g := s.groups[c.group];
      var pending := map id | id in g.pending && id !in c.ids :: g.pending[id];
      && Execute(Some(s), c).0 == Some(s.(groups := s.groups[c.group := g.(pending := pending)]))
      && Execute(Some(s), c).1 == Count(|set id | id in g.pending && id in c.ids|)
  {
    RowsWithout(s.groups[c.group].pending, c.ids);
    hide ToSet;
  }

  lemma RowsWithout(pending: PendingList, ids: seq<StreamId>)
    ensures
      var kept := map id | id in pending && id !in ids :: pending[id];
      && pending - ToSet(ids) == kept
      && |pending| - |kept| == |set id | id in pending && id in ids|
  {
    var kept := map id | id in pending && id !in ids :: pending[id];
    var gone := set id | id in pending && id in ids;
    assert pending.Keys == kept.Keys + gone && kept.Keys !! gone;
    KeysAdd(pending, kept, gone);
  }

  lemma KeysAdd(all: PendingList, kept: PendingList, gone: set<StreamId>)
    requires all.Keys == kept.Keys + gone && kept.Keys !! gone
    ensures |all| == |kept| + |gone|
  {
    assert |kept.Keys + gone| == |kept.Keys| + |gone|;
    assert |all| == |all.Keys| && |kept| == |kept.Keys|;
  }

  // ---------------------------------------------------------------------------
  // Reading
  // ---------------------------------------------------------------------------

  /** A read of new entries hands out the oldest entries above the cursor, COUNT of them or all there
    * are.
    */
  lemma ReadHandsOutNext(s: StreamValue, c: Command)
    requires AscendingIds(s.entries) && c.XReadGroup? && c.id.NewEntries? && c.group in s.groups
    ensures
      var reply := Execute(Some(s), c).1;
      var newer := set e | e in s.entries && Before(s.groups[c.group].lastDelivered, e.id);
      reply.Entries? &&
      var batch := reply.entries;
      && AscendingIds(batch) && (forall e :: e in batch ==> e in newer)
      && |batch| == (if c.count.Some? && c.count.value < |newer| then c.count.value else |newer|)
      && (forall e, f :: e in batch && f in newer && f !in batch ==> Before(e.id, f.id))
  {
    var last := s.groups[c.group].lastDelivered;
    ConsumerGroup.ReadEffect(s, c);
    ConsumerGroup.NewerThanIsFilter(s.entries, last);
    var all := NewerThan(s.entries, last);
    var newer := set e | e in s.entries && Before(last, e.id);
    hide Execute, Furthest, NewerThan, Delivered, SetGroup, ConsumerGroup.NextBatch;
    SizeOfMembers(all, newer);
    var n := |Capped(all, c.count)|;
    assert Capped(all, c.count) == all[..n];
    hide AscendingIds;
    PrefixIsOldest(all, newer, n);
  }

  /** The cursor moves to the last entry handed out, and unless NOACK each becomes a row of the
    * consumer, delivered now and once. The consumer is seen now, and nothing else changes.
    */
  lemma ReadRecordsBatch(s: StreamValue, c: Command)
    requires AscendingIds(s.entries) && c.XReadGroup? && c.id.NewEntries? && c.group in s.groups
    ensures
      var (stored', reply) := Execute(Some(s), c);
      var g := s.groups[c.group];
      reply.Entries? && stored'.Some? && c.group in stored'.value.groups &&
      var batch, g' := reply.entries, stored'.value.groups[c.group];
      var ids := if c.noack then {} else set e | e in batch :: e.id;
      && stored'.value == s.(groups := s.groups[c.group := g'])
      && g'.lastDelivered == (if batch == [] then g.lastDelivered else batch[|batch| - 1].id)
      && g'.consumers == g.consumers[c.consumer := c.now]
      && g'.pending.Keys == g.pending.Keys + ids
      && (forall id :: id in g'.pending ==>
            g'.pending[id] == if id in ids then Pending(c.consumer, c.now, 1) else g.pending[id])
  {
    ConsumerGroup.ReadEffect(s, c);
    hide Execute, Furthest, NewerThan, Capped;
  }

  lemma {:induction false} SizeOfMembers<T>(xs: seq<T>, members: set<T>)
    requires forall i, j :: 0 <= i < j < |xs| ==> xs[i] != xs[j]
    requires forall x :: x in xs <==> x in members
    ensures |xs| == |members|
  {
    if xs != [] {
      var front, last := xs[..|xs| - 1], xs[|xs| - 1];
      assert xs == front + [last];
      assert last !in front;
      SizeOfMembers(front, members - {last});
    } else {
      assert members == {};
    }
  }

  lemma PrefixIsOldest(all: seq<Entry>, newer: set<Entry>, n: nat)
    requires AscendingIds(all) && (forall e :: e in all <==> e in newer) && n <= |all|
    ensures AscendingIds(all[..n]) && forall e :: e in all[..n] ==> e in newer
    ensures forall e, f :: e in all[..n] && f in newer && f !in all[..n] ==> Before(e.id, f.id)
  {
    forall k | 0 <= k < n
      ensures all[k] in all[..n]
    {
      assert all[..n][k] == all[k];
    }
    forall e, f | e in all[..n] && f in newer && f !in all[..n]
      ensures Before(e.id, f.id)
    {
      var i :| 0 <= i < n && all[i] == e;
      var j :| 0 <= j < |all| && all[j] == f;
    }
  }

  /** Reading one's own rows above an id: the oldest of them, COUNT or all there are, are delivered once
    * more and now; those whose entry is still in the stream are answered. Nothing else changes.
    */
  lemma RereadHandsOutOwnRows(s: StreamValue, c: Command) returns (read: set<StreamId>)
    requires AscendingIds(s.entries) && c.XReadGroup? && c.id.PendingAfter? && c.group in s.groups
    ensures
      var g := s.groups[c.group];
      var own := set id | id in g.pending && g.pending[id].consumer == c.consumer && Before(c.id.after, id);
      && read <= own && |read| == (if c.count.Some? && c.count.value < |own| then c.count.value else |own|)
      && (forall a, b :: a in read && b in own && b !in read ==> Before(a, b))
    ensures
      var reply := Execute(Some(s), c).1;
      && reply.Entries? && AscendingIds(reply.entries)
      && (forall e :: e in reply.entries <==> e in s.entries && e.id in read)
    ensures
      var g, stored := s.groups[c.group], Execute(Some(s), c).0;
      stored.Some? && c.group in stored.value.groups &&
      var g' := stored.value.groups[c.group];
      && stored.value == s.(groups := s.groups[c.group := g.(pending := g'.pending)])
      && g'.pending.Keys == g.pending.Keys
      && (forall id :: id in g.pending ==>
            var n := g.pending[id].deliveries;
            g'.pending[id] ==
            if id in read then Pending(c.consumer, c.now, if n < 0xFFFF_FFFF_FFFF_FFFF then n + 1 else n)
            else g.pending[id])
  {
    var g := s.groups[c.group];
    var rows := Capped(OwnRows(g.pending, c.consumer, c.id.after), c.count);
    ConsumerGroup.RereadIsExact(s, c, c.id.after);
    RereadReply(s, c);
    AscendingSize(rows);
    hide ReadPending, OwnRows, Capped, Execute, AscendingIds, Ascending;
    read := ToSet(rows);
    OldestRows(rows, OwnAfter(g.pending, c.consumer, c.id.after));
    OwnAfterIs(g.pending, c.consumer, c.id.after);
    hide OwnAfter;
  }

  lemma RereadReply(s: StreamValue, c: Command)
    requires AscendingIds(s.entries) && c.XReadGroup? && c.id.PendingAfter? && c.group in s.groups
    ensures
      var (s', entries) := ReadPending(s, c.group, c.consumer, c.id.after, c.count, c.now);
      Execute(Some(s), c) == (Some(s'), Entries(entries))
  {
    var entries := ReadPending(s, c.group, c.consumer, c.id.after, c.count, c.now).1;
    assert AscendingIds(entries) by {
      hide ReadPending, OwnRows, Capped;
      ConsumerGroup.RereadIsExact(s, c, c.id.after);
    }
    SortedAlready(entries);
    hide ReadPending, AscendingIds, SortById;
  }

  lemma OwnAfterIs(pending: PendingList, consumer: string, after: StreamId)
    ensures OwnAfter(pending, consumer, after) == set id | id in pending && pending[id].consumer == consumer && Before(after, id)
  {
  }

  lemma OldestRows(rows: seq<StreamId>, own: set<StreamId>)
    requires forall id, i :: id in own && 0 <= i < |rows| && Before(id, rows[i]) ==> id in rows
    ensures forall a, b :: a in rows && b in own && b !in rows ==> Before(a, b)
  {
  }

  // ---------------------------------------------------------------------------
  // Claiming
  // ---------------------------------------------------------------------------

  /** The fields a claim returns are those of the stream's entry with that id; there are none with
    * JUSTID or when the entry is gone.
    */
  ghost predicate CarriesFields(entries: seq<Entry>, claims: seq<Claim>, justId: bool) {
    forall claim :: claim in claims ==>
      && (claim.fields.None? <==> justId || forall e :: e in entries ==> e.id != claim.id)
      && (claim.fields.Some? ==> Entry(claim.id, claim.fields.value) in entries)
  }

  lemma BodiesCarryFields(entries: seq<Entry>, ids: seq<StreamId>, justId: bool)
    ensures CarriesFields(entries, Bodies(entries, ids, justId), justId)
  {
    forall claim | claim in Bodies(entries, ids, justId)
      ensures claim.fields.None? <==> justId || forall e :: e in entries ==> e.id != claim.id
      ensures claim.fields.Some? ==> Entry(claim.id, claim.fields.value) in entries
    {
      var i :| 0 <= i < |ids| && Bodies(entries, ids, justId)[i] == claim;
      assert claim == Body(entries, ids[i], justId);
      assert forall e :: e in entries ==> e.id in IdSet(entries);
    }
  }

  /** Claimed ids come in the order in which they were listed. */
  lemma {:induction false} ClaimsKeepOrder(g: Group, ids: seq<StreamId>, consumer: string, minIdle: int, opts: ClaimOptions) returns (at: seq<nat>)
    ensures
      var taken := ClaimAll(g, ids, consumer, minIdle, opts).1;
      && |at| == |taken| && (forall i, j :: 0 <= i < j < |at| ==> at[i] < at[j])
      && (forall i :: 0 <= i < |at| ==> at[i] < |ids| && ids[at[i]] == taken[i])
  {
    if ids == [] {
      at := [];
    } else {
      var front := ids[..|ids| - 1];
      at := ClaimsKeepOrder(g, front, consumer, minIdle, opts);
      if |ClaimAll(g, ids, consumer, minIdle, opts).1| > |at| {
        at := at + [|ids| - 1];
      }
    }
  }

  lemma {:induction false} ClaimSeesConsumer(g: Group, ids: seq<StreamId>, consumer: string, minIdle: int, opts: ClaimOptions)
    ensures
      var (g', taken) := ClaimAll(g, ids, consumer, minIdle, opts);
      && g'.consumers == (if taken == [] then g.consumers else g.consumers[consumer := opts.now])
      && g'.lastDelivered == g.lastDelivered
  {
    if ids != [] {
      ClaimSeesConsumer(g, ids[..|ids| - 1], consumer, minIdle, opts);
    }
  }

  /** XCLAIM: which of the listed ids are taken, and with what fields. */
  lemma ClaimTakesIdleRows(s: StreamValue, c: Command) returns (at: seq<nat>)
    requires c.XClaim? && c.group in s.groups
    ensures
      var g, reply := s.groups[c.group], Execute(Some(s), c).1;
      reply.Claimed? &&
      var claims := reply.results;
      && (set claim | claim in claims :: claim.id) == (set id | id in c.ids &&
            if id in g.pending then c.opts.now - g.pending[id].deliveredAt >= c.minIdle || c.minIdle <= 0
            else c.opts.force)
      && |at| == |claims| && (forall i, j :: 0 <= i < j < |at| ==> at[i] < at[j])
      && (forall i :: 0 <= i < |at| ==> at[i] < |c.ids| && c.ids[at[i]] == claims[i].id)
      && CarriesFields(s.entries, claims, c.opts.justId)
  {
    var g := s.groups[c.group];
    at := ClaimsKeepOrder(g, c.ids, c.consumer, c.minIdle, c.opts);
    ConsumerGroup.ClaimTakesIdleIds(g, c.ids, c.consumer, c.minIdle, c.opts);
    ClaimParts(s, c);
    hide ClaimAll, Execute, CarriesFields, Bodies;
    var taken := ClaimAll(g, c.ids, c.consumer, c.minIdle, c.opts).1;
    BodiesCarryFields(s.entries, taken, c.opts.justId);
    ClaimedIdsOfBodies(s.entries, taken, c.opts.justId);
    assert ToSet(taken) == set id | id in c.ids &&
      if id in g.pending then c.opts.now - g.pending[id].deliveredAt >= c.minIdle || c.minIdle <= 0 else c.opts.force;
  }

  lemma ClaimParts(s: StreamValue, c: Command)
    requires c.XClaim? && c.group in s.groups
    ensures
      var (g', taken) := ClaimAll(s.groups[c.group], c.ids, c.consumer, c.minIdle, c.opts);
      Execute(Some(s), c) == (Some(SetGroup(s, c.group, g')), Claimed(Bodies(s.entries, taken, c.opts.justId)))
  {
    hide ClaimAll, Bodies;
  }

  lemma ClaimedIdsOfBodies(entries: seq<Entry>, ids: seq<StreamId>, justId: bool)
    ensures (set claim | claim in Bodies(entries, ids, justId) :: claim.id) == ToSet(ids)
  {
    var claims := Bodies(entries, ids, justId);
    forall id | id in ids
      ensures id in (set claim | claim in claims :: claim.id)
    {
      var i :| 0 <= i < |ids| && ids[i] == id;
      assert claims[i] in claims;
    }
  }

  /** The rows an XCLAIM leaves: those taken belong to the caller, with the delivery time TIME gives, or
    * IDLE milliseconds before now, or now, and with RETRYCOUNT deliveries if that is given, else (for an
    * id listed once) one more than before. The others are untouched.
    */
  lemma ClaimRewritesTakenRows(s: StreamValue, c: Command)
    requires c.XClaim? && c.group in s.groups
    ensures
      var (stored', reply) := Execute(Some(s), c);
      reply.Claimed? && stored'.Some? && c.group in stored'.value.groups &&
      var g, g' := s.groups[c.group], stored'.value.groups[c.group];
      var taken := set claim | claim in reply.results :: claim.id;
      && stored'.value == s.(groups := s.groups[c.group := g'])
      && g'.lastDelivered == g.lastDelivered
      && g'.consumers == (if taken == {} then g.consumers else g.consumers[c.consumer := c.opts.now])
      && g'.pending.Keys == g.pending.Keys + taken
      && (forall id :: id in g'.pending && id !in taken ==> g'.pending[id] == g.pending[id])
      && (forall id :: id in taken ==>
            && g'.pending[id].consumer == c.consumer
            && g'.pending[id].deliveredAt == (
                 if c.opts.timeMs.Some? then c.opts.timeMs.value
                 else if c.opts.idleMs.Some? then c.opts.now - c.opts.idleMs.value
                 else c.opts.now)
            && (c.opts.retryCount.Some? ==> g'.pending[id].deliveries == c.opts.retryCount.value)
            && (c.opts.retryCount.None? && multiset(c.ids)[id] == 1 ==>
                  var n := if id in g.pending then g.pending[id].deliveries else 0;
                  g'.pending[id].deliveries == if n < 0xFFFF_FFFF_FFFF_FFFF then n + 1 else n))
  {
    var g := s.groups[c.group];
    ConsumerGroup.ClaimTakesIdleIds(g, c.ids, c.consumer, c.minIdle, c.opts);
    ClaimSeesConsumer(g, c.ids, c.consumer, c.minIdle, c.opts);
    ClaimParts(s, c);
    hide ClaimAll, Execute, Bodies;
    var (g', taken) := ClaimAll(g, c.ids, c.consumer, c.minIdle, c.opts);
    ClaimedIdsOfBodies(s.entries, taken, c.opts.justId);
    assert taken == [] <==> ToSet(taken) == {} by { assert taken != [] ==> taken[0] in ToSet(taken); }
    forall id | id in ToSet(taken)
      ensures ConsumerGroup.OwnedRow(g, g'.pending[id], id, c.ids, c.consumer, c.opts)
    {
    }
  }

  /** The ids a page deals with: those it claims and those it reports as deleted. */
  ghost function Handled(reply: Reply): set<StreamId>
    requires reply.Swept?
  {
    ClaimedIds(reply.claimed) + set id | id in reply.deleted
  }

  ghost function ClaimedIds(claims: seq<Claim>): set<StreamId> {
    set claim | claim in claims :: claim.id
  }

  /** The ids an XAUTOCLAIM is about: pending, from START on and idle for long enough. */
  ghost function Idle(s: StreamValue, c: Command): set<StreamId>
    requires c.XAutoClaim? && c.group in s.groups
  {
    var pending := s.groups[c.group].pending;
    set id | id in pending && !Before(id, c.start) && (c.now - pending[id].deliveredAt >= c.minIdle || c.minIdle <= 0)
  }

  /** The page in terms of the ascending list of those ids, of which it handles the first k. */
  ghost predicate HandlesFirst(s: StreamValue, c: Command, ids: seq<StreamId>, k: nat)
    requires c.XAutoClaim? && c.group in s.groups
  {
    var reply, live := Execute(Some(s), c).1, IdSet(s.entries);
    && Ascending(ids, Before) && ToSet(ids) == Idle(s, c) && k <= |ids|
    && reply.Swept? && reply.next == (if k < |ids| then ids[k] else MIN)
    && Ascending(AutoClaim.ClaimIds(reply.claimed), Before) && Ascending(reply.deleted, Before)
    && ClaimedIds(reply.claimed) == ToSet(ids[..k]) * live
    && ToSet(reply.deleted) == ToSet(ids[..k]) - live
    && |reply.claimed| <= c.page && (k < |ids| ==> |reply.claimed| == c.page)
    && (0 < k < |ids| ==> ids[k - 1] in live)
    && CarriesFields(s.entries, reply.claimed, c.justId)
  }

  lemma PageHandlesFirst(s: StreamValue, c: Command) returns (ids: seq<StreamId>, k: nat)
    requires c.XAutoClaim? && c.group in s.groups
    ensures HandlesFirst(s, c, ids, k)
  {
    var g, live := s.groups[c.group], IdSet(s.entries);
    ids := AutoClaim.CandidatesOf(s, c);
    k := PageEnd(ids, live, c.page);
    IdleList(s, c);
    AutoClaim.PageIsCapped(ids, live, c.page);
    SelectIsSet(ids, k, live);
    PageReply(s, c);
    hide Select, PageEnd, IdSet, AutoClaim.CandidatesOf, Ascending, Execute, AutoClaim.PageOf, CarriesFields, ToSet, Idle, ClaimedIds;
  }

  lemma IdleList(s: StreamValue, c: Command)
    requires c.XAutoClaim? && c.group in s.groups
    ensures Ascending(AutoClaim.CandidatesOf(s, c), Before) && ToSet(AutoClaim.CandidatesOf(s, c)) == Idle(s, c)
  {
    AutoClaim.CandidatesAscend(s, c);
    AutoClaim.IdleFromIs(s.groups[c.group].pending, c.start, c.minIdle, c.now);
    hide AutoClaim.CandidatesOf, IdleFrom;
  }

  lemma SelectIsSet(ids: seq<StreamId>, k: nat, live: set<StreamId>)
    requires Ascending(ids, Before) && k <= |ids|
    ensures Ascending(Select(ids[..k], live, true), Before) && Ascending(Select(ids[..k], live, false), Before)
    ensures ToSet(Select(ids[..k], live, true)) == ToSet(ids[..k]) * live
    ensures ToSet(Select(ids[..k], live, false)) == ToSet(ids[..k]) - live
  {
    AutoClaim.SelectIsFilter(ids[..k], live, true);
    AutoClaim.SelectIsFilter(ids[..k], live, false);
    hide Select;
  }

  /** What one page replies. */
  lemma PageReply(s: StreamValue, c: Command)
    requires c.XAutoClaim? && c.group in s.groups
    ensures
      var reply, live, ids := Execute(Some(s), c).1, IdSet(s.entries), AutoClaim.CandidatesOf(s, c);
      var k := PageEnd(ids, live, c.page);
      && reply.Swept? && reply.next == (if k < |ids| then ids[k] else MIN)
      && AutoClaim.ClaimIds(reply.claimed) == Select(ids[..k], live, true)
      && ClaimedIds(reply.claimed) == ToSet(Select(ids[..k], live, true))
      && reply.deleted == Select(ids[..k], live, false)
      && CarriesFields(s.entries, reply.claimed, c.justId)
  {
    var page := AutoClaim.PageOf(s, c);
    BodiesCarryFields(s.entries, page.claimed, c.justId);
    ClaimedIdsOfBodies(s.entries, page.claimed, c.justId);
    AutoClaim.PageIsSweep(s, c);
    AutoClaim.ExecutePage(s, c);
    PageParts(s, c);
    hide Execute, AutoClaim.PageOf, Bodies, Select, PageEnd, AutoClaim.CandidatesOf, CarriesFields, IdSet, ClaimedIds, ToSet;
  }

  lemma PageParts(s: StreamValue, c: Command)
    requires c.XAutoClaim? && c.group in s.groups
    ensures
      var page, ids := AutoClaim.PageOf(s, c), AutoClaim.CandidatesOf(s, c);
      var k := PageEnd(ids, IdSet(s.entries), c.page);
      && Execute(Some(s), c) ==
         (Some(SetGroup(s, c.group, page.group)), Swept(page.next, Bodies(s.entries, page.claimed, c.justId), page.deleted))
      && page.next == if k < |ids| then ids[k] else MIN
  {
    hide Candidates, PageEnd, Select, Bodies, IdSet, TakenOver;
  }

  lemma HandledIsPrefix(s: StreamValue, c: Command, ids: seq<StreamId>, k: nat)
    requires c.XAutoClaim? && c.group in s.groups && HandlesFirst(s, c, ids, k)
    ensures Handled(Execute(Some(s), c).1) == ToSet(ids[..k])
  {
    hide Execute, CarriesFields, Idle, ClaimedIds;
  }

  lemma FirstAreOldest(ids: seq<StreamId>, idle: set<StreamId>, k: nat)
    requires Ascending(ids, Before) && k <= |ids| && ToSet(ids) == idle
    ensures
      var handled := ToSet(ids[..k]);
      && handled <= idle && (forall a, b :: a in handled && b in idle && b !in handled ==> Before(a, b))
      && (handled == idle <==> k == |ids|)
      && (k < |ids| ==>
            && ids[k] in idle && ids[k] !in handled
            && (forall b :: b in idle && b !in handled ==> b == ids[k] || Before(ids[k], b)))
  {
    assert forall i :: 0 <= i < |ids| ==> ids[i] in ToSet(ids);
    assert ids[..|ids|] == ids;
    assert k < |ids| ==> ids[k] in idle && ids[k] !in ids[..k];
  }

  /** XAUTOCLAIM handles the oldest of the ids it is about: those whose entry exists are claimed, with
    * their fields, and the others are reported as deleted, both in ascending order.
    */
  lemma PageHandlesOldest(s: StreamValue, c: Command)
    requires c.XAutoClaim? && c.group in s.groups
    ensures
      var reply, live := Execute(Some(s), c).1, set e | e in s.entries :: e.id;
      reply.Swept? &&
      var handled := Handled(reply);
      && handled <= Idle(s, c) && (forall a, b :: a in handled && b in Idle(s, c) && b !in handled ==> Before(a, b))
      && (forall claim :: claim in reply.claimed ==> claim.id in live)
      && (forall id :: id in reply.deleted ==> id !in live)
      && Ascending(AutoClaim.ClaimIds(reply.claimed), Before) && Ascending(reply.deleted, Before)
      && CarriesFields(s.entries, reply.claimed, c.justId)
  {
    var ids, k := PageHandlesFirst(s, c);
    HandledIsPrefix(s, c, ids, k);
    FirstAreOldest(ids, Idle(s, c), k);
    hide Execute, CarriesFields, Idle, Handled, Ascending;
    var reply := Execute(Some(s), c).1;
    assert forall claim :: claim in reply.claimed ==> claim.id in ClaimedIds(reply.claimed);
    assert forall id :: id in reply.deleted ==> id in ToSet(reply.deleted);
  }

  /** It claims at most COUNT. If that leaves ids over, it has claimed exactly COUNT, ending with an id
    * it claims, and the cursor is the first one left; if not, the cursor is 0-0.
    */
  lemma PageStopsAtCount(s: StreamValue, c: Command)
    requires c.XAutoClaim? && c.group in s.groups
    ensures
      var reply, live := Execute(Some(s), c).1, set e | e in s.entries :: e.id;
      reply.Swept? && |reply.claimed| <= c.page &&
      var left := Idle(s, c) - Handled(reply);
      if left == {} then reply.next == StreamId(0, 0)
      else
        && |reply.claimed| == c.page
        && reply.next in left && (forall b :: b in left ==> b == reply.next || Before(reply.next, b))
        && (forall a :: a in Handled(reply) && a !in live ==> exists b :: b in Handled(reply) && Before(a, b))
  {
    var ids, k := PageHandlesFirst(s, c);
    HandledIsPrefix(s, c, ids, k);
    FirstAreOldest(ids, Idle(s, c), k);
    LastIsLive(ids, k, IdSet(s.entries));
    hide Execute, CarriesFields, Idle, Handled, Ascending, ToSet;
    var left := Idle(s, c) - Handled(Execute(Some(s), c).1);
    assert k < |ids| ==> ids[k] in left;
  }

  lemma LastIsLive(ids: seq<StreamId>, k: nat, live: set<StreamId>)
    requires Ascending(ids, Before) && k <= |ids| && (0 < k < |ids| ==> ids[k - 1] in live)
    ensures k < |ids| ==>
      forall a :: a in ToSet(ids[..k]) && a !in live ==> exists b :: b in ToSet(ids[..k]) && Before(a, b)
  {
    if k < |ids| {
      forall a | a in ToSet(ids[..k]) && a !in live
        ensures exists b :: b in ToSet(ids[..k]) && Before(a, b)
      {
        var i :| 0 <= i < k && ids[..k][i] == a;
        assert ids[..k][k - 1] in ToSet(ids[..k]);
        assert Before(a, ids[k - 1]);
      }
    }
  }

  /** The rows it leaves: those reported as deleted are gone, those claimed belong to the caller, now and
    * with one more delivery, and the others are untouched. The caller is seen now.
    */
  lemma PageRewritesHandledRows(s: StreamValue, c: Command)
    requires c.XAutoClaim? && c.group in s.groups
    ensures
      var (stored', reply) := Execute(Some(s), c);
      reply.Swept? && stored'.Some? && c.group in stored'.value.groups &&
      var g, g' := s.groups[c.group], stored'.value.groups[c.group];
      var claimed := ClaimedIds(reply.claimed);
      && stored'.value == s.(groups := s.groups[c.group := g'])
      && g'.lastDelivered == g.lastDelivered && g'.consumers == g.consumers[c.consumer := c.now]
      && (forall id :: id in g'.pending <==> id in g.pending && id !in reply.deleted)
      && (forall id :: id in g'.pending ==>
            var n := g.pending[id].deliveries;
            g'.pending[id] ==
            if id in claimed then Pending(c.consumer, c.now, if n < 0xFFFF_FFFF_FFFF_FFFF then n + 1 else n)
            else g.pending[id])
  {
    var page := AutoClaim.PageOf(s, c);
    ClaimedIdsOfBodies(s.entries, page.claimed, c.justId);
    AutoClaim.PageIsSweep(s, c);
    PageParts(s, c);
    hide Execute, AutoClaim.PageOf, AutoClaim.CandidatesOf, Bodies, Select, PageEnd, IdSet, MIN;
  }
}
