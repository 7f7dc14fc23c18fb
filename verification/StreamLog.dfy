/** What every stream command keeps: ids ascend, counters and the largest deleted id account for
  * every entry ever added.
  */
module StreamLog {
  import opened Bytes
  import opened Ordered
  import opened StreamTypes
  import opened Stream

  /** A stored stream together with every id added and every id removed since the key was created. */
  datatype History = History(stored: Stored, added: seq<StreamId>, removed: set<StreamId>)

  const Beginning: History := History(None, [], {})

  function PresentIds(stored: Stored): set<StreamId> {
    IdSet(OrEmpty(stored).entries)
  }

  function AddedBy(reply: Reply): set<StreamId> {
    if reply.Added? then {reply.id} else {}
  }

  function After(h: History, c: Command): History {
    var (stored, reply) := Execute(h.stored, c);
    History(
      stored,
      if reply.Added? then h.added + [reply.id] else h.added,
      h.removed + (PresentIds(h.stored) + AddedBy(reply) - PresentIds(stored)))
  }

  function Run(h: History, commands: seq<Command>): History
    decreases |commands|
  {
    if commands == [] then h else Run(After(h, commands[0]), commands[1..])
  }

  lemma {:induction false} RunAppend(h: History, commands: seq<Command>, c: Command)
    ensures Run(h, commands + [c]) == After(Run(h, commands), c)
    decreases |commands|
  {
    if commands == [] {
      assert [c][1..] == [];
    } else {
      hide After;
      var whole := commands + [c];
      assert whole[0] == commands[0] && whole[1..] == commands[1..] + [c];
      RunAppend(After(h, commands[0]), commands[1..], c);
    }
  }

  /** No XADD meets a stream whose last id is the largest one. */
  predicate NeverFull(h: History, commands: seq<Command>)
    decreases |commands|
  {
    commands == [] ||
    (&& (commands[0].XAdd? ==> OrEmpty(h.stored).lastGenerated != MAX)
     && NeverFull(After(h, commands[0]), commands[1..]))
  }

  // ---------------------------------------------------------------------------
  // The invariant
  // ---------------------------------------------------------------------------

  /** New ids only ever grew, and the last one is remembered. */
  ghost predicate AddedInOrder(s: StreamValue, added: seq<StreamId>) {
    && Ascending(added, Before) && MIN !in added
    && s.lastGenerated == (if added == [] then MIN else added[|added| - 1])
    && s.entriesAdded == (if |added| <= U64_MAX then |added| else U64_MAX)
  }

  /** Everything added is either still there or removed, and the largest removed id is remembered. */
  ghost predicate Accounted(s: StreamValue, added: seq<StreamId>, removed: set<StreamId>) {
    && IdSet(s.entries) !! removed
    && IdSet(s.entries) + removed == ToSet(added)
    && IsMaximum(s.maxDeleted, removed)
  }

  ghost predicate IsMaximum(max: StreamId, ids: set<StreamId>) {
    && (forall id :: id in ids ==> AtMost(id, max))
    && (if ids == {} then max == MIN else max in ids)
  }

  ghost predicate SoundStream(s: StreamValue, added: seq<StreamId>, removed: set<StreamId>) {
    AscendingIds(s.entries) && AddedInOrder(s, added) && Accounted(s, added, removed)
  }

  ghost predicate Sound(h: History) {
    SoundStream(OrEmpty(h.stored), h.added, h.removed)
  }

  // ---------------------------------------------------------------------------
  // Adding
  // ---------------------------------------------------------------------------

  lemma AddedAtMostLast(s: StreamValue, added: seq<StreamId>)
    requires AddedInOrder(s, added)
    ensures forall id :: id in added ==> AtMost(id, s.lastGenerated)
  {
  }

  lemma EntriesAtMostLast(s: StreamValue, added: seq<StreamId>, removed: set<StreamId>)
    requires SoundStream(s, added, removed)
    ensures forall e :: e in s.entries ==> AtMost(e.id, s.lastGenerated)
  {
    AddedAtMostLast(s, added);
    forall e | e in s.entries
      ensures AtMost(e.id, s.lastGenerated)
    {
      assert e.id in IdSet(s.entries);
      assert e.id in ToSet(added);
    }
  }

  lemma AppendIds(s: StreamValue, id: StreamId, fields: seq<(string, Values.bytes)>)
    ensures IdSet(Append(s, id, fields).entries) == IdSet(s.entries) + {id}
  {
  }

  lemma AppendSound(s: StreamValue, added: seq<StreamId>, removed: set<StreamId>, id: StreamId, fields: seq<(string, Values.bytes)>)
    requires SoundStream(s, added, removed) && Before(s.lastGenerated, id)
    ensures SoundStream(Append(s, id, fields), added + [id], removed)
  {
    AddedAtMostLast(s, added);
    EntriesAtMostLast(s, added, removed);
    AppendIds(s, id, fields);
    var longer := Append(s, id, fields);
    assert AscendingIds(longer.entries) by {
      forall i, j | 0 <= i < j < |longer.entries|
        ensures Before(longer.entries[i].id, longer.entries[j].id)
      {
        assert longer.entries[i] == s.entries[i] && s.entries[i] in s.entries;
      }
    }
    assert AddedInOrder(longer, added + [id]) by {
      assert forall i :: 0 <= i < |added| ==> added[i] in added;
    }
    assert id !in added;
    assert removed <= ToSet(added);
    assert ToSet(added + [id]) == ToSet(added) + {id};
  }

  // ---------------------------------------------------------------------------
  // Removing
  // ---------------------------------------------------------------------------

  /** A later value that kept some of the entries, in order, and remembers the largest one gone. */
  ghost predicate Shrinks(s: StreamValue, s': StreamValue) {
    && s'.lastGenerated == s.lastGenerated && s'.entriesAdded == s.entriesAdded
    && AscendingIds(s'.entries) && IdSet(s'.entries) <= IdSet(s.entries)
    && (s'.maxDeleted == s.maxDeleted || s'.maxDeleted in IdSet(s.entries) - IdSet(s'.entries))
    && AtMost(s.maxDeleted, s'.maxDeleted)
    && (forall id :: id in IdSet(s.entries) - IdSet(s'.entries) ==> AtMost(id, s'.maxDeleted))
  }

  lemma ShrinkSound(s: StreamValue, s': StreamValue, added: seq<StreamId>, removed: set<StreamId>)
    requires SoundStream(s, added, removed) && Shrinks(s, s')
    ensures SoundStream(s', added, removed + (IdSet(s.entries) - IdSet(s'.entries)))
  {
  }

  lemma TrimShrinks(s: StreamValue, k: nat)
    requires AscendingIds(s.entries) && k <= |s.entries|
    ensures Shrinks(s, TrimFront(s, k))
  {
  }

  /** What deleting by id keeps, for a prefix of the entries. */
  lemma {:induction false} WithoutKeeps(entries: seq<Entry>, ids: seq<StreamId>)
    requires AscendingIds(entries)
    ensures AscendingIds(Without(entries, ids))
    ensures forall e :: e in Without(entries, ids) <==> e in entries && e.id !in ids
  {
    if entries != [] {
      var front, last := entries[..|entries| - 1], entries[|entries| - 1];
      WithoutKeeps(front, ids);
      assert entries == front + [last];
      var rest := Without(front, ids);
      forall i, j | 0 <= i < j < |rest + [last]|
        ensures Before((rest + [last])[i].id, (rest + [last])[j].id)
      {
        assert rest[i] in front;
        var k :| 0 <= k < |front| && front[k] == rest[i];
        assert Before(entries[k].id, entries[|entries| - 1].id);
      }
    }
  }

  lemma {:induction false} MaxDroppedIsMaximum(entries: seq<Entry>, ids: seq<StreamId>, max: StreamId)
    ensures
      var m := MaxDropped(entries, ids, max);
      && AtMost(max, m)
      && (forall e :: e in entries && e.id in ids ==> AtMost(e.id, m))
      && (m == max || exists e :: e in entries && e.id in ids && e.id == m)
  {
    if entries != [] {
      var front, last := entries[..|entries| - 1], entries[|entries| - 1];
      MaxDroppedIsMaximum(front, ids, max);
      assert entries == front + [last];
    }
  }

  lemma DropShrinks(s: StreamValue, ids: seq<StreamId>)
    requires AscendingIds(s.entries)
    ensures Shrinks(s, Drop(s, ids))
    ensures forall e :: e in Drop(s, ids).entries <==> e in s.entries && e.id !in ids
    ensures IdSet(Drop(s, ids).entries) == IdSet(s.entries) - ToSet(ids)
  {
    WithoutKeeps(s.entries, ids);
    MaxDroppedIsMaximum(s.entries, ids, s.maxDeleted);
  }

  // ---------------------------------------------------------------------------
  // Every command
  // ---------------------------------------------------------------------------

  predicate ChangesLog(c: Command) {
    c.XAdd? || c.XDel? || c.XTrim?
  }

  /** The group commands leave the log alone. */
  lemma GroupCommandsKeepLog(stored: Stored, c: Command)
    requires !ChangesLog(c)
    ensures
      var s, s' := OrEmpty(stored), OrEmpty(Execute(stored, c).0);
      s' == s.(groups := s'.groups)
    ensures !Execute(stored, c).1.Added?
  {
  }

  lemma AddSound(h: History, c: Command)
    requires Sound(h) && c.XAdd? && OrEmpty(h.stored).lastGenerated != MAX
    ensures Sound(After(h, c))
  {
    var s := OrEmpty(h.stored);
    var (stored, reply) := Execute(h.stored, c);
    if reply.Added? {
      NewIdIsAbove(c.spec, s.lastGenerated, c.clock);
      AppendSound(s, h.added, h.removed, reply.id, c.fields);
      AppendIds(s, reply.id, c.fields);
      var longer := Append(s, reply.id, c.fields);
      hide SoundStream, Append, ResolveAddId;
      if c.trim.Some? {
        assert AscendingIds(longer.entries) by { SoundAscends(longer, h.added + [reply.id], h.removed); }
        TrimShrinks(longer, TrimCount(longer, c.trim.value.0, c.trim.value.1));
        ShrinkSound(longer, stored.value, h.added + [reply.id], h.removed);
      } else {
        assert h.removed + (PresentIds(h.stored) + {reply.id} - PresentIds(stored)) == h.removed;
      }
    } else {
      assert stored == h.stored;
      assert h.removed + (PresentIds(h.stored) - PresentIds(stored)) == h.removed;
    }
  }

  lemma SoundAscends(s: StreamValue, added: seq<StreamId>, removed: set<StreamId>)
    requires SoundStream(s, added, removed)
    ensures AscendingIds(s.entries)
  {
  }

  lemma StepSound(h: History, c: Command)
    requires Sound(h)
    requires c.XAdd? ==> OrEmpty(h.stored).lastGenerated != MAX
    ensures Sound(After(h, c))
  {
    if c.XAdd? {
      AddSound(h, c);
    } else if ChangesLog(c) && h.stored.Some? {
      RemovalSound(h, c);
    } else {
      UnchangedLog(h, c);
    }
  }

  lemma RemovalSound(h: History, c: Command)
    requires Sound(h) && (c.XDel? || c.XTrim?) && h.stored.Some?
    ensures Sound(After(h, c))
  {
    var s, s' := h.stored.value, if c.XDel? then Drop(h.stored.value, c.ids) else Trim(h.stored.value, c.bound, c.limit);
    SoundAscends(s, h.added, h.removed);
    hide SoundStream, Shrinks;
    if c.XDel? {
      DropShrinks(s, c.ids);
    } else {
      TrimShrinks(s, TrimCount(s, c.bound, c.limit));
    }
    ShrinkSound(s, s', h.added, h.removed);
    RemovalAfter(h, c);
    hide Drop, Trim, After;
  }

  lemma RemovalAfter(h: History, c: Command)
    requires (c.XDel? || c.XTrim?) && h.stored.Some?
    ensures
      var s, s' := h.stored.value, if c.XDel? then Drop(h.stored.value, c.ids) else Trim(h.stored.value, c.bound, c.limit);
      After(h, c) == History(Some(s'), h.added, h.removed + (IdSet(s.entries) - IdSet(s'.entries)))
  {
    hide Drop, Trim, IdSet;
    assert forall x: set<StreamId> :: x + {} == x;
  }

  lemma NotAdded(stored: Stored, c: Command)
    requires !c.XAdd?
    ensures !Execute(stored, c).1.Added?
  {
  }

  lemma UnchangedLog(h: History, c: Command)
    requires Sound(h)
    requires !ChangesLog(c) || (h.stored.None? && !c.XAdd?)
    ensures Sound(After(h, c))
  {
    if !ChangesLog(c) {
      GroupCommandsKeepLog(h.stored, c);
    }
    hide ExecuteAdd, ExecuteGroup, ExecuteRead, ExecuteClaim, ExecuteAutoClaim, ExecuteAck, Trim, Drop;
    var stored := Execute(h.stored, c).0;
    assert PresentIds(stored) == PresentIds(h.stored);
    assert h.removed + (PresentIds(h.stored) - PresentIds(stored)) == h.removed;
  }

  lemma {:induction false} RunSound(h: History, commands: seq<Command>)
    requires Sound(h) && NeverFull(h, commands)
    ensures Sound(Run(h, commands))
    decreases |commands|
  {
    if commands != [] {
      StepSound(h, commands[0]);
      hide Sound, After;
      RunSound(After(h, commands[0]), commands[1..]);
    }
  }

  /** In every run from a missing key in which no XADD meets the largest id: entries and added ids
    * strictly ascend, no entry is above the last generated id, the ids present are the ids added
    * minus the ids removed, and the remembered deleted id is the largest one removed.
    */
  lemma StreamStaysSound(commands: seq<Command>)
    requires NeverFull(Beginning, commands)
    ensures
      var h := Run(Beginning, commands);
      var s := OrEmpty(h.stored);
      && Sound(h)
      && (forall e :: e in s.entries ==> AtMost(e.id, s.lastGenerated))
      && (|h.added| <= U64_MAX ==> s.entriesAdded - |s.entries| == |h.removed|)
  {
    assert Sound(Beginning);
    RunSound(Beginning, commands);
    var h := Run(Beginning, commands);
    var s := OrEmpty(h.stored);
    EntriesAtMostLast(s, h.added, h.removed);
    Tally(s, h.added, h.removed);
  }

  /** Ascending lists have no repetitions, so lengths are set sizes. */
  lemma {:induction false} AscendingSize(ids: seq<StreamId>)
    requires Ascending(ids, Before)
    ensures |ToSet(ids)| == |ids|
  {
    if ids != [] {
      var front, last := ids[..|ids| - 1], ids[|ids| - 1];
      AscendingSize(front);
      assert ids == front + [last];
      assert ToSet(ids) == ToSet(front) + {last};
      assert last !in front;
    }
  }

  lemma EntryIds(entries: seq<Entry>)
    ensures ToSet(IdsOf(entries)) == IdSet(entries)
  {
    forall id | id in IdSet(entries)
      ensures id in IdsOf(entries)
    {
      var i :| 0 <= i < |entries| && entries[i].id == id;
      assert IdsOf(entries)[i] == id;
    }
  }

  lemma Tally(s: StreamValue, added: seq<StreamId>, removed: set<StreamId>)
    requires SoundStream(s, added, removed)
    ensures |s.entries| + |removed| == |added|
  {
    AscendingSize(added);
    AscendingSize(IdsOf(s.entries));
    EntryIds(s.entries);
    assert IdSet(s.entries) !! removed && IdSet(s.entries) + removed == ToSet(added);
    hide SoundStream, ToSet, IdSet;
    assert |IdSet(s.entries) + removed| == |IdSet(s.entries)| + |removed|;
  }

  // ---------------------------------------------------------------------------
  // The one way to break it
  // ---------------------------------------------------------------------------

  /** An XADD that adds an entry keeps a sound stream sound exactly when the last id is not the
    * largest: there the next id wraps around.
    */
  lemma SoundExactlyBelowMax(h: History, c: Command)
    requires Sound(h) && Execute(h.stored, c).1.Added?
    ensures Sound(After(h, c)) <==> OrEmpty(h.stored).lastGenerated != MAX
  {
    if !c.XAdd? {
      NotAdded(h.stored, c);
    } else if OrEmpty(h.stored).lastGenerated != MAX {
      AddSound(h, c);
    } else {
      var h' := After(h, c);
      var id := Execute(h.stored, c).1.id;
      NewIdIsAbove(c.spec, MAX, c.clock);
      assert h.added != [] && h.added[|h.added| - 1] == MAX;
      assert h'.added[|h.added| - 1] == MAX && h'.added[|h.added|] == id;
    }
  }

  /** Adding at the largest id and then asking for the next one files an entry in the wrong place. */
  lemma WrapBreaksOrder(clock: u64)
    ensures
      var first := XAdd(Concrete(MAX), [], false, None, clock);
      var second := XAdd(Auto, [], false, None, clock);
      var s := OrEmpty(Run(Beginning, [first, second]).stored);
      IdsOf(s.entries) == [MAX, MIN] && !AscendingIds(s.entries)
  {
    var first := XAdd(Concrete(MAX), [], false, None, clock);
    var second := XAdd(Auto, [], false, None, clock);
    var one := After(Beginning, first);
    var two := After(one, second);
    assert one.stored == Some(Append(Empty, MAX, []));
    assert two.stored == Some(Append(one.stored.value, MIN, []));
    assert Run(Beginning, [first, second]) == Run(one, [second]) == Run(two, []) == two;
    var entries := two.stored.value.entries;
    assert entries[0].id == MAX && entries[1].id == MIN;
    assert Before(MIN, MAX);
  }

  // ---------------------------------------------------------------------------
  // Trimming by id
  // ---------------------------------------------------------------------------

  predicate Within(i: nat, limit: Option<nat>) {
    limit.Some? ==> i < limit.value
  }

  /** On an ascending stream MINID removes exactly the entries below the bound, oldest first, as
    * many as LIMIT allows, and nothing else.
    */
  lemma TrimByIdIsExact(s: StreamValue, min: StreamId, limit: Option<nat>)
    requires AscendingIds(s.entries)
    ensures
      var k := TrimCount(s, MinId(min), limit);
      && Trim(s, MinId(min), limit).entries == s.entries[k..]
      && (forall i: nat :: i < |s.entries| ==> (i < k <==> Before(s.entries[i].id, min) && Within(i, limit)))
  {
  }

  /** MAXLEN removes exactly the excess, oldest first, as much of it as LIMIT allows. */
  lemma TrimByLengthIsExact(s: StreamValue, max: nat, limit: Option<nat>)
    ensures
      var k := TrimCount(s, MaxLen(max), limit);
      var s' := Trim(s, MaxLen(max), limit);
      && s'.entries == s.entries[k..]
      && (forall i: nat :: i < |s.entries| ==> (i < k <==> max < |s.entries| - i && Within(i, limit)))
      && (limit.None? ==> |s'.entries| == if |s.entries| > max then max else |s.entries|)
  {
  }
}
