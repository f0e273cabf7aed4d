/** The checkout pool as the interleaved steps of any number of callers: a mutex around the table of
    entries, a once per entry, and a close that cleans what was checked out. */
module CheckoutPool {
  import opened Common

  type Key = string
  type Caller = nat
  type EntryId = nat

  /** What `materialize` returned. */
  datatype Outcome = Outcome(tree: string, cleanable: bool, error: Option<string>)

  datatype Result = Got(tree: string) | Refused(error: string)

  /** A `sync.Once`, whose function stores the outcome, freezes the tree and only then is done. */
  datatype Once = Fresh | Running(runner: Caller) | Stored(runner: Caller) | Done

  /** An entry, with how often its `materialize` and its cleanup ran. `swept` marks one a close has
      come to, and `retired` one a close has dropped from the table. */
  datatype Entry = Entry(key: Key, creator: Caller, once: Once, outcome: Option<Outcome>, frozen: bool,
                         runs: nat, cleans: nat, swept: bool, retired: bool)

  datatype Phase =
    | Asking(key: Key)
    | Locked(key: Key)
    | Missed(key: Key)
    | Holding(key: Key, entry: EntryId)
    | Waiting(key: Key, entry: EntryId)
    | Working(key: Key, entry: EntryId)
    | Freezing(key: Key, entry: EntryId)
    | Returned(key: Key, entry: EntryId, result: Result)
    | CloseAsking
    | Closing(todo: set<EntryId>)
    | Closed
  {
    predicate HoldsMutex() { Locked? || Missed? || Holding? || Closing? }
    predicate HasEntry() { Holding? || Waiting? || Working? || Freezing? || Returned? }
  }

  datatype State = State(callers: map<Caller, Phase>, mutex: Option<Caller>, table: map<Key, EntryId>,
    entries: map<EntryId, Entry>)

  const INITIAL := State(map[], None, map[], map[])

  /** One atomic step of one caller. */
  datatype Step =
    | Call(c: Caller, key: Key)
    | Lock(c: Caller)
    | Look(c: Caller)
    | Insert(c: Caller, id: EntryId)
    | Unlock(c: Caller)
    | Begin(c: Caller)
    | Store(c: Caller, outcome: Outcome)
    | Freeze(c: Caller)
    | Return(c: Caller)
    | CallClose(c: Caller)
    | LockClose(c: Caller)
    | CleanOne(c: Caller, e: EntryId)
    | EndClose(c: Caller)

  predicate Enabled(s: State, step: Step) {
    var c := step.c;
    match step
    case Call(_, _) => c !in s.callers
    case CallClose(_) => c !in s.callers
    case Lock(_) => c in s.callers && s.callers[c].Asking? && s.mutex == None
    case Look(_) => c in s.callers && s.callers[c].Locked?
    case Insert(_, id) => c in s.callers && s.callers[c].Missed? && id !in s.entries
    case Unlock(_) => c in s.callers && s.callers[c].Holding?
    case Begin(_) =>
      c in s.callers && s.callers[c].Waiting? && s.callers[c].entry in s.entries &&
      s.entries[s.callers[c].entry].once.Fresh?
    case Store(_, _) => c in s.callers && s.callers[c].Working? && s.callers[c].entry in s.entries
    case Freeze(_) =>
      c in s.callers && s.callers[c].Freezing? && s.callers[c].entry in s.entries &&
      s.entries[s.callers[c].entry].outcome.Some?
    case Return(_) => c in s.callers && s.callers[c].Waiting? && s.callers[c].entry in s.entries
      && s.entries[s.callers[c].entry].once.Done? && s.entries[s.callers[c].entry].outcome.Some?
    case LockClose(_) => c in s.callers && s.callers[c].CloseAsking? && s.mutex == None
    case CleanOne(_, e) => c in s.callers && s.callers[c].Closing? && e in s.callers[c].todo && e in s.entries
    case EndClose(_) => c in s.callers && s.callers[c].Closing? && s.callers[c].todo == {}
  }

  function ResultOf(o: Outcome): Result {
    if o.error.Some? then Refused(o.error.value) else Got(o.tree)
  }

  function Apply(s: State, step: Step): State
    requires Enabled(s, step)
  {
    var c := step.c;
    match step
    case Call(_, key) => s.(callers := s.callers[c := Asking(key)])
    case CallClose(_) => s.(callers := s.callers[c := CloseAsking])
    case Lock(_) => s.(callers := s.callers[c := Locked(s.callers[c].key)], mutex := Some(c))
    case Look(_) =>
      var key := s.callers[c].key;
      s.(callers := s.callers[c := if key in s.table then Holding(key, s.table[key]) else Missed(key)])
    case Insert(_, id) =>
      var key := s.callers[c].key;
      s.(callers := s.callers[c := Holding(key, id)],
         table := s.table[key := id],
         entries := s.entries[id := Entry(key, c, Fresh, None, false, 0, 0, false, false)])
    case Unlock(_) =>
      s.(callers := s.callers[c := Waiting(s.callers[c].key, s.callers[c].entry)], mutex := None)
    case Begin(_) =>
      var id := s.callers[c].entry;
      s.(callers := s.callers[c := Working(s.callers[c].key, id)],
         entries := s.entries[id := s.entries[id].(once := Running(c), runs := s.entries[id].runs + 1)])
    case Store(_, outcome) =>
      var id := s.callers[c].entry;
      s.(callers := s.callers[c := Freezing(s.callers[c].key, id)],
         entries := s.entries[id := s.entries[id].(once := Stored(c), outcome := Some(outcome))])
    case Freeze(_) =>
      var id := s.callers[c].entry;
      s.(callers := s.callers[c := Waiting(s.callers[c].key, id)],
         entries := s.entries[id := s.entries[id].(once := Done, frozen := s.entries[id].outcome.value.error.None?)])
    case Return(_) =>
      var id := s.callers[c].entry;
      s.(callers := s.callers[c := Returned(s.callers[c].key, id, ResultOf(s.entries[id].outcome.value))])
    case LockClose(_) =>
      s.(callers := s.callers[c := Closing(s.table.Values)], mutex := Some(c))
    case CleanOne(_, e) =>
      var was := s.entries[e];
      var cleans := was.outcome.Some? && was.outcome.value.cleanable;
      s.(callers := s.callers[c := Closing(s.callers[c].todo - {e})],
         entries := s.entries[e := was.(swept := true, frozen := was.frozen && !cleans,
                                        cleans := was.cleans + if cleans then 1 else 0)])
    case EndClose(_) =>
      s.(callers := s.callers[c := Closed], mutex := None, table := map[],
         entries := map e | e in s.entries :: s.entries[e].(retired := s.entries[e].retired || e in s.table.Values))
  }

  ghost predicate ValidRun(s: State, steps: seq<Step>)
    decreases |steps|
  {
    steps == [] || (Enabled(s, steps[0]) && ValidRun(Apply(s, steps[0]), steps[1..]))
  }

  ghost function Run(s: State, steps: seq<Step>): State
    requires ValidRun(s, steps)
    decreases |steps|
  {
    if steps == [] then s else Run(Apply(s, steps[0]), steps[1..])
  }

  // ---- what every step keeps ----

  /** The mutex is held by exactly the caller inside its section. */
  ghost predicate MutexInv(s: State) {
    forall c :: (c in s.callers && s.callers[c].HoldsMutex()) <==> s.mutex == Some(c)
  }

  /** The table names each live entry under its key, and names nothing else. */
  ghost predicate TableInv(s: State) {
    && (forall k :: k in s.table ==>
         s.table[k] in s.entries && s.entries[s.table[k]].key == k && !s.entries[s.table[k]].retired)
    && (forall e :: e in s.entries && !s.entries[e].retired ==>
         s.entries[e].key in s.table && s.table[s.entries[e].key] == e)
  }

  /** A caller and the entry it has agree about where it is. */
  ghost predicate CallerOk(s: State, c: Caller)
    requires c in s.callers
  {
    var p := s.callers[c];
    && (p.Missed? ==> p.key !in s.table)
    && (p.HasEntry() ==>
          p.entry in s.entries &&
          var e := s.entries[p.entry];
          && e.key == p.key
          && (p.Working? ==> e.once == Running(c))
          && (p.Freezing? ==> e.once == Stored(c))
          && (p.Returned? ==> e.once.Done? && e.outcome.Some? && p.result == ResultOf(e.outcome.value)))
  }

  ghost predicate CallerInv(s: State) { forall c :: c in s.callers ==> CallerOk(s, c) }

  /** An entry's once, its counts and what is stored in it tell one story. */
  ghost predicate EntryOk(s: State, id: EntryId)
    requires id in s.entries
  {
    var e := s.entries[id];
    && e.creator in s.callers && s.callers[e.creator].HasEntry() && s.callers[e.creator].entry == id
    && e.runs == (if e.once.Fresh? then 0 else 1)
    && (e.outcome.Some? <==> e.once.Stored? || e.once.Done?)
    && (e.once.Running? ==> e.once.runner in s.callers && s.callers[e.once.runner] == Working(e.key, id))
    && (e.once.Stored? ==> e.once.runner in s.callers && s.callers[e.once.runner] == Freezing(e.key, id))
    && (e.once.Done? && !e.swept && e.outcome.value.error.None? ==> e.frozen)
    && (!e.swept ==> e.cleans == 0 && !e.retired)
    && e.cleans <= 1
  }

  ghost predicate EntryInv(s: State) { forall id :: id in s.entries ==> EntryOk(s, id) }

  /** A close is inside its section. */
  predicate HeldByClose(s: State) {
    s.mutex.Some? && s.mutex.value in s.callers && s.callers[s.mutex.value].Closing?
  }

  /** A close still has to come to exactly the entries it has not swept. */
  ghost predicate CloseInv(s: State) {
    && (forall c :: c in s.callers && s.callers[c].Closing? ==>
          s.callers[c].todo <= s.table.Values &&
          forall e :: e in s.table.Values && e in s.entries ==> (s.entries[e].swept <==> e !in s.callers[c].todo))
    && (!HeldByClose(s) ==> forall e :: e in s.entries && !s.entries[e].retired ==> !s.entries[e].swept)
  }

  ghost predicate Inv(s: State) {
    MutexInv(s) && TableInv(s) && CallerInv(s) && EntryInv(s) && CloseInv(s)
  }

  lemma {:induction false} LiveAreValues(s: State)
    requires TableInv(s)
    ensures forall e :: e in s.table.Values <==> e in s.entries && !s.entries[e].retired
  {
    forall e | e in s.entries && !s.entries[e].retired ensures e in s.table.Values {
      assert s.table[s.entries[e].key] == e;
    }
  }

  lemma {:induction false} StepKeepsMutex(s: State, step: Step)
    requires MutexInv(s) && Enabled(s, step)
    ensures MutexInv(Apply(s, step))
  {
  }

  /** A step other than an insertion or the end of a close leaves the table, and every entry's key and
      standing in it, alone. */
  lemma {:induction false} TableUntouched(s: State, step: Step)
    requires Enabled(s, step) && !step.Insert? && !step.EndClose?
    ensures var t := Apply(s, step);
            t.table == s.table && t.entries.Keys == s.entries.Keys
            && forall e :: e in s.entries ==>
                 t.entries[e].key == s.entries[e].key && t.entries[e].retired == s.entries[e].retired
  {
  }

  lemma {:induction false} StepKeepsTable(s: State, step: Step)
    requires TableInv(s) && Enabled(s, step) && (step.c in s.callers ==> CallerOk(s, step.c))
    ensures TableInv(Apply(s, step))
  {
    if step.Insert? {
      InsertKeepsTable(s, step);
    } else if step.EndClose? {
      LiveAreValues(s);
    } else {
      TableUntouched(s, step);
      hide Apply;
    }
  }

  lemma {:induction false} InsertKeepsTable(s: State, step: Step)
    requires step.Insert? && TableInv(s) && Enabled(s, step) && CallerOk(s, step.c)
    ensures TableInv(Apply(s, step))
  {
  }

  lemma {:induction false} OtherCallerKept(s: State, step: Step, c: Caller)
    requires Enabled(s, step) && c != step.c && c in s.callers && MutexInv(s) && CallerOk(s, c)
    requires step.c in s.callers ==> CallerOk(s, step.c)
    requires s.callers[c].HasEntry() ==> EntryOk(s, s.callers[c].entry)
    ensures CallerOk(Apply(s, step), c)
  {
  }

  lemma {:induction false} OwnCallerKept(s: State, step: Step)
    requires Enabled(s, step) && TableInv(s) && (step.c in s.callers ==> CallerOk(s, step.c))
    ensures CallerOk(Apply(s, step), step.c)
  {
  }

  lemma {:induction false} StepKeepsCallers(s: State, step: Step)
    requires Inv(s) && Enabled(s, step)
    ensures CallerInv(Apply(s, step))
  {
    hide CallerOk, EntryOk, TableInv, MutexInv, CloseInv;
    var t := Apply(s, step);
    forall c | c in t.callers ensures CallerOk(t, c) {
      if c != step.c {
        assert CallerOk(s, c);
        if s.callers[c].HasEntry() { HasItsEntry(s, c); }
        OtherCallerKept(s, step, c);
      } else {
        OwnCallerKept(s, step);
      }
    }
  }

  lemma {:induction false} HasItsEntry(s: State, c: Caller)
    requires c in s.callers && CallerOk(s, c) && s.callers[c].HasEntry()
    ensures s.callers[c].entry in s.entries
  {
  }

  lemma {:induction false} EntryKept(s: State, step: Step, id: EntryId)
    requires Enabled(s, step) && id in s.entries && EntryOk(s, id) && (step.c in s.callers ==> CallerOk(s, step.c))
    requires step.CleanOne? && step.e == id ==> !s.entries[id].swept
    requires step.EndClose? && !s.entries[id].retired && id in s.table.Values ==> s.entries[id].swept
    ensures EntryOk(Apply(s, step), id)
  {
    if step.Begin? || step.Store? || step.Freeze? {
      RunnerStepKeepsEntry(s, step, id);
    } else {
      QuietStepKeepsEntry(s, step, id);
    }
  }

  lemma {:induction false} RunnerStepKeepsEntry(s: State, step: Step, id: EntryId)
    requires Enabled(s, step) && id in s.entries && EntryOk(s, id) && step.c in s.callers && CallerOk(s, step.c)
    requires step.Begin? || step.Store? || step.Freeze?
    ensures EntryOk(Apply(s, step), id)
  {
  }

  lemma {:induction false} QuietStepKeepsEntry(s: State, step: Step, id: EntryId)
    requires Enabled(s, step) && id in s.entries && EntryOk(s, id) && (step.c in s.callers ==> CallerOk(s, step.c))
    requires !step.Begin? && !step.Store? && !step.Freeze?
    requires step.CleanOne? && step.e == id ==> !s.entries[id].swept
    requires step.EndClose? && !s.entries[id].retired && id in s.table.Values ==> s.entries[id].swept
    ensures EntryOk(Apply(s, step), id)
  {
  }

  lemma {:induction false} StepKeepsEntries(s: State, step: Step)
    requires Inv(s) && Enabled(s, step)
    ensures EntryInv(Apply(s, step))
  {
    LiveAreValues(s);
    hide CallerOk, EntryOk, TableInv, MutexInv;
    var t := Apply(s, step);
    forall id | id in t.entries ensures EntryOk(t, id) {
      if id in s.entries {
        EntryKept(s, step, id);
      } else {
        NewEntryOk(s, step);
      }
    }
  }

  lemma {:induction false} NewEntryOk(s: State, step: Step)
    requires Enabled(s, step) && step.Insert?
    ensures EntryOk(Apply(s, step), step.id)
  {
  }

  lemma {:induction false} StepKeepsClose(s: State, step: Step)
    requires MutexInv(s) && TableInv(s) && EntryInv(s) && CloseInv(s) && Enabled(s, step)
    ensures CloseInv(Apply(s, step))
  {
    if step.Insert? || step.LockClose? || step.CleanOne? || step.EndClose? {
      CloseStepKeepsClose(s, step);
    } else {
      TableUntouched(s, step);
      NothingSwept(s, step);
      NoCloseMoves(s, step);
      LiveAreValues(s);
      hide Apply, EntryInv, Enabled, TableInv, MutexInv;
    }
  }

  lemma {:induction false} NothingSwept(s: State, step: Step)
    requires Enabled(s, step) && !step.Insert? && !step.CleanOne?
    ensures var t := Apply(s, step);
            t.entries.Keys == s.entries.Keys && forall e :: e in s.entries ==> t.entries[e].swept == s.entries[e].swept
  {
    if step.Begin? || step.Store? || step.Freeze? {
      var id := s.callers[step.c].entry;
      assert Apply(s, step).entries == s.entries[id := Apply(s, step).entries[id]];
    }
  }


  /** No close starts, moves on or ends, and the mutex is as much a close's as it was. */
  lemma {:induction false} NoCloseMoves(s: State, step: Step)
    requires MutexInv(s) && Enabled(s, step)
    requires !step.LockClose? && !step.CleanOne? && !step.EndClose?
    ensures var t := Apply(s, step);
            && (forall c :: c in t.callers && t.callers[c].Closing? ==> c in s.callers && s.callers[c] == t.callers[c])
            && (HeldByClose(t) <==> HeldByClose(s))
  {
  }


  lemma {:induction false} CloseStepKeepsClose(s: State, step: Step)
    requires MutexInv(s) && TableInv(s) && CloseInv(s) && Enabled(s, step)
    requires step.Insert? || step.LockClose? || step.CleanOne? || step.EndClose?
    ensures CloseInv(Apply(s, step))
  {
    LiveAreValues(s);
  }

  lemma {:induction false} StepKeepsInv(s: State, step: Step)
    requires Inv(s) && Enabled(s, step)
    ensures Inv(Apply(s, step))
  {
    hide CallerOk, EntryOk, TableInv, MutexInv, CloseInv;
    StepKeepsMutex(s, step);
    StepKeepsTable(s, step);
    StepKeepsCallers(s, step);
    StepKeepsEntries(s, step);
    StepKeepsClose(s, step);
  }

  lemma {:induction false} RunKeepsInv(s: State, steps: seq<Step>)
    requires Inv(s) && ValidRun(s, steps)
    ensures Inv(Run(s, steps))
    decreases |steps|
  {
    hide Inv, Enabled, Apply;
    if steps != [] {
      StepKeepsInv(s, steps[0]);
      RunKeepsInv(Apply(s, steps[0]), steps[1..]);
    }
  }

  lemma {:induction false} Reachable(steps: seq<Step>)
    requires ValidRun(INITIAL, steps)
    ensures Inv(Run(INITIAL, steps))
  {
    RunKeepsInv(INITIAL, steps);
  }

  /** However the callers interleave, no two are inside the mutex's section at once, every caller's key and the key of
      its entry agree, and no entry is materialized or cleaned twice. */
  lemma {:induction false} AtMostOnceEach(steps: seq<Step>)
    requires ValidRun(INITIAL, steps)
    ensures var s := Run(INITIAL, steps);
            && (forall c, d ::
                  c in s.callers && d in s.callers && s.callers[c].HoldsMutex() && s.callers[d].HoldsMutex() ==> c == d)
            && (forall c :: c in s.callers && s.callers[c].HasEntry() ==>
                  s.callers[c].entry in s.entries && s.entries[s.callers[c].entry].key == s.callers[c].key)
            && (forall id :: id in s.entries ==> s.entries[id].runs <= 1 && s.entries[id].cleans <= 1)
  {
    Reachable(steps);
    var s := Run(INITIAL, steps);
    forall c | c in s.callers && s.callers[c].HasEntry()
      ensures s.callers[c].entry in s.entries && s.entries[s.callers[c].entry].key == s.callers[c].key
    {
      assert CallerOk(s, c);
    }
    forall id | id in s.entries ensures s.entries[id].runs <= 1 && s.entries[id].cleans <= 1 {
      assert EntryOk(s, id);
    }
  }

  // ---- once per key ----

  /** How often a run starts `materialize` for a key. */
  ghost function Begins(s: State, steps: seq<Step>, key: Key): nat
    requires ValidRun(s, steps)
    decreases |steps|
  {
    if steps == [] then 0
    else
      (if steps[0].Begin? && s.callers[steps[0].c].key == key then 1 else 0) +
      Begins(Apply(s, steps[0]), steps[1..], key)
  }

  ghost function LiveRuns(s: State, key: Key): nat {
    if key in s.table && s.table[key] in s.entries then s.entries[s.table[key]].runs else 0
  }

  lemma {:induction false} StepCountsBegins(s: State, step: Step, key: Key)
    requires TableInv(s) && Enabled(s, step) && !step.EndClose? && (step.c in s.callers ==> CallerOk(s, step.c))
    requires EntryInv(s)
    ensures LiveRuns(Apply(s, step), key) == LiveRuns(s, key) +
      if step.Begin? && s.callers[step.c].key == key && !s.entries[s.callers[step.c].entry].retired then 1 else 0
  {
  }

  /** No caller still working on an entry has had it retired by a close; with no close finished there
      is none. */
  ghost predicate NoneRetired(s: State) { forall e :: e in s.entries ==> !s.entries[e].retired }

  lemma {:induction false} StepRetiresNone(s: State, step: Step)
    requires NoneRetired(s) && Enabled(s, step) && !step.EndClose?
    ensures NoneRetired(Apply(s, step))
  {
  }

  lemma {:induction false} RunCountsBegins(s: State, steps: seq<Step>, key: Key)
    requires Inv(s) && NoneRetired(s) && ValidRun(s, steps) && forall i :: 0 <= i < |steps| ==> !steps[i].EndClose?
    ensures LiveRuns(Run(s, steps), key) == LiveRuns(s, key) + Begins(s, steps, key)
    decreases |steps|
  {
    if steps != [] {
      hide EntryOk, CallerOk, Apply, MutexInv, CloseInv, TableInv;
      StepKeepsInv(s, steps[0]);
      StepRetiresNone(s, steps[0]);
      if steps[0].c in s.callers {
        assert CallerOk(s, steps[0].c);
      }
      StepCountsBegins(s, steps[0], key);
      RunCountsBegins(Apply(s, steps[0]), steps[1..], key);
    }
  }

  /** However the callers interleave, `materialize` starts at most once for a key while no close has
      ended. */
  lemma {:induction false} OncePerKey(steps: seq<Step>, key: Key)
    requires ValidRun(INITIAL, steps) && forall i :: 0 <= i < |steps| ==> !steps[i].EndClose?
    ensures Begins(INITIAL, steps, key) <= 1
  {
    Reachable(steps);
    RunCountsBegins(INITIAL, steps, key);
    var s := Run(INITIAL, steps);
    if key in s.table { assert EntryOk(s, s.table[key]); }
  }

  // ---- over runs with closes in them ----

  /** How many closes have ended. */
  function Closes(steps: seq<Step>): nat {
    if steps == [] then 0 else (if steps[0].EndClose? then 1 else 0) + Closes(steps[1..])
  }

  /** The entries ever made for a key, and those whose `materialize` has started. */
  function EntriesOf(s: State, key: Key): set<EntryId> { set e | e in s.entries && s.entries[e].key == key }

  function StartedOf(s: State, key: Key): set<EntryId> {
    set e | e in s.entries && s.entries[e].key == key && s.entries[e].runs > 0
  }

  function InTable(s: State, key: Key): nat { if key in s.table then 1 else 0 }

  /** An entry is made for a key only while the table holds none, and only a close empties the table. */
  lemma {:induction false} StepCountsEntries(s: State, step: Step, key: Key)
    requires TableInv(s) && Enabled(s, step) && (step.c in s.callers ==> CallerOk(s, step.c))
    ensures var t := Apply(s, step);
            |EntriesOf(t, key)| - InTable(t, key) <= |EntriesOf(s, key)| - InTable(s, key) +
              if step.EndClose? then 1 else 0
  {
    if step.Insert? {
      InsertCounts(s, step, key);
    } else {
      KeysStay(s, step);
      hide Apply, TableInv, CallerOk;
      assert EntriesOf(Apply(s, step), key) == EntriesOf(s, key);
    }
  }

  lemma {:induction false} InsertCounts(s: State, step: Step, key: Key)
    requires step.Insert? && Enabled(s, step) && CallerOk(s, step.c)
    ensures var t := Apply(s, step);
            |EntriesOf(t, key)| - InTable(t, key) == |EntriesOf(s, key)| - InTable(s, key)
  {
    InsertMakesOne(s, step);
    hide Apply, Enabled, CallerOk;
    OneMore(s, Apply(s, step), step.id, s.callers[step.c].key, key);
  }

  ghost predicate MakesOne(s: State, t: State, id: EntryId, mine: Key) {
    && mine !in s.table && id !in s.entries && t.table.Keys == s.table.Keys + {mine}
    && t.entries.Keys == s.entries.Keys + {id} && t.entries[id].key == mine
    && forall e :: e in s.entries ==> t.entries[e].key == s.entries[e].key
  }

  lemma {:induction false} InsertMakesOne(s: State, step: Step)
    requires step.Insert? && Enabled(s, step) && CallerOk(s, step.c)
    ensures MakesOne(s, Apply(s, step), step.id, s.callers[step.c].key)
  {
    var t, mine := Apply(s, step), s.callers[step.c].key;
    hide CallerOk;
    assert mine !in s.table by { MissedIsAbsent(s, step.c); }
    assert t.table == s.table[mine := step.id];
  }

  lemma {:induction false} MissedIsAbsent(s: State, c: Caller)
    requires c in s.callers && CallerOk(s, c) && s.callers[c].Missed?
    ensures s.callers[c].key !in s.table
  {
  }

  lemma {:induction false} OneMore(s: State, t: State, id: EntryId, mine: Key, key: Key)
    requires MakesOne(s, t, id, mine)
    ensures |EntriesOf(t, key)| - InTable(t, key) == |EntriesOf(s, key)| - InTable(s, key)
  {
    EntriesWithOne(s, t, id, mine, key);
    TableWithOne(s, t, id, mine, key);
    hide *;
    SizeWithOne(EntriesOf(s, key), EntriesOf(t, key), id, mine == key);
  }

  lemma {:induction false} EntriesWithOne(s: State, t: State, id: EntryId, mine: Key, key: Key)
    requires MakesOne(s, t, id, mine)
    ensures id !in EntriesOf(s, key)
    ensures forall e :: e in EntriesOf(t, key) <==> e in EntriesOf(s, key) || (e == id && mine == key)
  {
    forall e ensures e in EntriesOf(t, key) <==> e in EntriesOf(s, key) || (e == id && mine == key) {
      assert e in t.entries.Keys <==> e in s.entries.Keys || e == id;
    }
  }

  lemma {:induction false} TableWithOne(s: State, t: State, id: EntryId, mine: Key, key: Key)
    requires MakesOne(s, t, id, mine)
    ensures InTable(t, key) == InTable(s, key) + if mine == key then 1 else 0
  {
    assert key in t.table.Keys <==> key in s.table.Keys + {mine};
  }

  lemma {:induction false} SizeWithOne(was: set<EntryId>, now: set<EntryId>, id: EntryId, added: bool)
    requires id !in was && forall e :: e in now <==> e in was || (e == id && added)
    ensures |now| == |was| + if added then 1 else 0
  {
    assert now == if added then was + {id} else was;
  }

  lemma {:induction false} KeysStay(s: State, step: Step)
    requires Enabled(s, step) && !step.Insert?
    ensures var t := Apply(s, step);
            t.entries.Keys == s.entries.Keys && (forall e :: e in s.entries ==> t.entries[e].key == s.entries[e].key)
            && (!step.EndClose? ==> t.table == s.table)
  {
    if !step.EndClose? {
      TableUntouched(s, step);
      hide Apply;
    }
  }

  /** Each start is the first of its entry. */
  lemma {:induction false} StepCountsStarts(s: State, step: Step, key: Key)
    requires EntryInv(s) && Enabled(s, step) && (step.c in s.callers ==> CallerOk(s, step.c))
    ensures var t := Apply(s, step);
            |StartedOf(t, key)| == |StartedOf(s, key)| + if step.Begin? && s.callers[step.c].key == key then 1 else 0
  {
    if step.Begin? {
      BeginStartsOne(s, step, key);
    } else if step.Insert? {
      InsertStartsNone(s, step, key);
    } else {
      RunsStay(s, step);
      hide Apply, EntryInv, CallerOk;
      assert StartedOf(Apply(s, step), key) == StartedOf(s, key);
    }
  }

  lemma {:induction false} BeginStartsOne(s: State, step: Step, key: Key)
    requires EntryInv(s) && Enabled(s, step) && step.Begin? && CallerOk(s, step.c)
    ensures |StartedOf(Apply(s, step), key)| == |StartedOf(s, key)| + if s.callers[step.c].key == key then 1 else 0
  {
    var t, id := Apply(s, step), s.callers[step.c].entry;
    BeginIsFirst(s, step);
    assert t.entries == s.entries[id := t.entries[id]];
    hide Apply, EntryInv, CallerOk;
    SizeWithOne(StartedOf(s, key), StartedOf(t, key), id, s.callers[step.c].key == key);
  }

  lemma {:induction false} BeginIsFirst(s: State, step: Step)
    requires EntryInv(s) && Enabled(s, step) && step.Begin? && CallerOk(s, step.c)
    ensures var id := s.callers[step.c].entry;
            && s.entries[id].runs == 0 && s.entries[id].key == s.callers[step.c].key
            && Apply(s, step).entries[id].runs == 1 && Apply(s, step).entries[id].key == s.callers[step.c].key
  {
    assert EntryOk(s, s.callers[step.c].entry);
  }

  lemma {:induction false} InsertStartsNone(s: State, step: Step, key: Key)
    requires Enabled(s, step) && step.Insert?
    ensures StartedOf(Apply(s, step), key) == StartedOf(s, key)
  {
    var t := Apply(s, step);
    assert t.entries == s.entries[step.id := t.entries[step.id]] && t.entries[step.id].runs == 0;
    hide Apply;
    assert StartedOf(t, key) == StartedOf(s, key);
  }

  lemma {:induction false} RunsStay(s: State, step: Step)
    requires Enabled(s, step) && !step.Insert? && !step.Begin?
    ensures var t := Apply(s, step);
            t.entries.Keys == s.entries.Keys &&
            forall e :: e in s.entries ==>
              t.entries[e].key == s.entries[e].key && t.entries[e].runs == s.entries[e].runs
  {
  }

  lemma {:induction false} RunCountsStarts(s: State, steps: seq<Step>, key: Key)
    requires Inv(s) && ValidRun(s, steps)
    ensures var t := Run(s, steps);
            && |StartedOf(t, key)| == |StartedOf(s, key)| + Begins(s, steps, key)
            && |EntriesOf(t, key)| - InTable(t, key) <= |EntriesOf(s, key)| - InTable(s, key) + Closes(steps)
    decreases |steps|
  {
    if steps != [] {
      hide EntryOk, CallerOk, Apply, MutexInv, CloseInv, TableInv, EntriesOf, StartedOf;
      StepKeepsInv(s, steps[0]);
      if steps[0].c in s.callers { assert CallerOk(s, steps[0].c); }
      StepCountsStarts(s, steps[0], key);
      StepCountsEntries(s, steps[0], key);
      RunCountsStarts(Apply(s, steps[0]), steps[1..], key);
    }
  }

  /** However callers and closes interleave, `materialize` starts at most once for a key and once more for
      each close that has ended. */
  lemma {:induction false} OncePerKeyAndClose(steps: seq<Step>, key: Key)
    requires ValidRun(INITIAL, steps)
    ensures Begins(INITIAL, steps, key) <= 1 + Closes(steps)
  {
    RunCountsStarts(INITIAL, steps, key);
    var t := Run(INITIAL, steps);
    assert StartedOf(INITIAL, key) == {} && EntriesOf(INITIAL, key) == {};
    Subset(StartedOf(t, key), EntriesOf(t, key));
  }

  lemma {:induction false} Subset(a: set<EntryId>, b: set<EntryId>)
    requires a <= b
    ensures |a| <= |b|
  {
    if a != {} {
      var e :| e in a;
      Subset(a - {e}, b - {e});
    }
  }

  /** A caller that has returned did so after its entry's one `materialize` had finished, with what it
      answered; a tree it got stays frozen until a close comes to it. */
  lemma {:induction false} ReturnsWhatWasMaterialized(steps: seq<Step>, c: Caller)
    requires ValidRun(INITIAL, steps) && c in Run(INITIAL, steps).callers && Run(INITIAL, steps).callers[c].Returned?
    ensures var s := Run(INITIAL, steps);
            s.callers[c].entry in s.entries &&
            var e := s.entries[s.callers[c].entry];
            && e.key == s.callers[c].key && e.once.Done? && e.runs == 1 && e.outcome.Some?
            && s.callers[c].result == ResultOf(e.outcome.value)
            && (s.callers[c].result.Got? && !e.swept ==> e.frozen)
  {
    Reachable(steps);
    var s := Run(INITIAL, steps);
    assert CallerOk(s, c);
    assert EntryOk(s, s.callers[c].entry);
  }

  /** Callers of one key, none of whose checkouts a close has dropped, all get the same tree or the
      same error. */
  lemma {:induction false} CallersAgree(steps: seq<Step>, c: Caller, d: Caller)
    requires ValidRun(INITIAL, steps)
    requires var s := Run(INITIAL, steps);
             && c in s.callers && s.callers[c].Returned? && s.callers[c].entry in s.entries &&
                  !s.entries[s.callers[c].entry].retired
             && d in s.callers && s.callers[d].Returned? && s.callers[d].entry in s.entries &&
                  !s.entries[s.callers[d].entry].retired
             && s.callers[c].key == s.callers[d].key
    ensures Run(INITIAL, steps).callers[c].result == Run(INITIAL, steps).callers[d].result
  {
    Reachable(steps);
    var s := Run(INITIAL, steps);
    assert CallerOk(s, c) && CallerOk(s, d);
  }

  // ---- nobody waits for ever ----

  predicate Finished(p: Phase) { p.Returned? || p.Closed? }

  lemma {:induction false} Bounded(ids: set<EntryId>) returns (n: EntryId)
    ensures forall id :: id in ids ==> id < n
  {
    n := 0;
    if ids != {} {
      var id :| id in ids;
      var m := Bounded(ids - {id});
      assert forall j :: j in ids ==> j == id || j in ids - {id};
      n := if m > id then m else id + 1;
    }
  }

  /** The step the holder of the mutex can take. */
  lemma {:induction false} HolderMoves(s: State, c: Caller) returns (step: Step)
    requires Inv(s) && s.mutex == Some(c)
    ensures Enabled(s, step) && step.c == c && c in s.callers
  {
    LiveAreValues(s);
    hide TableInv, EntryInv;
    var p := s.callers[c];
    if p.Locked? {
      step := Look(c);
    } else if p.Missed? {
      var id := Bounded(s.entries.Keys);
      step := Insert(c, id);
    } else if p.Holding? {
      step := Unlock(c);
    } else if p.todo == {} {
      step := EndClose(c);
    } else {
      var e :| e in p.todo;
      step := CleanOne(c, e);
    }
  }

  /** The step a caller's entry lets somebody take: its own, or that of the caller it waits for. */
  lemma {:induction false} EntryMoves(s: State, c: Caller) returns (step: Step)
    requires Inv(s) && c in s.callers && (s.callers[c].Waiting? || s.callers[c].Working? || s.callers[c].Freezing?)
    ensures Enabled(s, step) && step.c in s.callers
  {
    hide TableInv, MutexInv, CloseInv;
    assert CallerOk(s, c);
    var p := s.callers[c];
    assert EntryOk(s, p.entry);
    match s.entries[p.entry].once {
      case Fresh =>
        step := Begin(c);
      case Running(r) =>
        step := Store(r, Outcome("", false, None));
      case Stored(r) =>
        step := Step.Freeze(r);
      case Done =>
        step := Return(c);
    }
  }

  /** However callers and closes interleave, as long as one has not finished, one of them can take a step:
      the mutex and the onces never lock each other out. */
  lemma {:induction false} NeverStuck(steps: seq<Step>, c: Caller)
    requires ValidRun(INITIAL, steps) && c in Run(INITIAL, steps).callers && !Finished(Run(INITIAL, steps).callers[c])
    ensures exists step :: Enabled(Run(INITIAL, steps), step) && step.c in Run(INITIAL, steps).callers
  {
    var s := Run(INITIAL, steps);
    Reachable(steps);
    hide Inv, Enabled, Run;
    if s.mutex.Some? {
      var step := HolderMoves(s, s.mutex.value);
      assert Enabled(s, step);
    } else {
      var p := s.callers[c];
      assert !p.HoldsMutex() by { FreeMutex(s, c); }
      if p.Asking? || p.CloseAsking? {
        var step := if p.Asking? then Lock(c) else LockClose(c);
        assert Enabled(s, step) by { CanLock(s, c, step); }
      } else {
        var step := EntryMoves(s, c);
        assert Enabled(s, step);
      }
    }
  }

  lemma {:induction false} FreeMutex(s: State, c: Caller)
    requires Inv(s) && s.mutex == None && c in s.callers
    ensures !s.callers[c].HoldsMutex()
  {
  }

  lemma {:induction false} CanLock(s: State, c: Caller, step: Step)
    requires c in s.callers && s.mutex == None && (s.callers[c].Asking? || s.callers[c].CloseAsking?)
    requires step == if s.callers[c].Asking? then Lock(c) else LockClose(c)
    ensures Enabled(s, step)
  {
  }

  // ---- close ----

  /** Every caller that has come as far as the table has returned. */
  ghost predicate AllReturned(s: State) {
    forall c :: c in s.callers && s.callers[c].HasEntry() ==> s.callers[c].Returned?
  }

  /** Mid-close by `c`: the live entries are still `live`, all of them done, and the ones already swept
      were cleaned exactly once where there was anything to clean. */
  ghost predicate Sweeping(s: State, c: Caller, live: set<EntryId>) {
    && c in s.callers && s.callers[c].Closing? && s.table.Values == live
    && forall e :: e in live ==>
         e in s.entries && s.entries[e].once.Done? && s.entries[e].outcome.Some?
         && (s.entries[e].swept ==> SweptRight(s.entries[e]))
  }

  ghost predicate SweptRight(e: Entry)
    requires e.outcome.Some?
  {
    && e.cleans == (if e.outcome.value.cleanable then 1 else 0)
    && (e.outcome.value.cleanable ==> !e.frozen)
  }

  lemma {:induction false} LockCloseStartsSweeping(s: State, step: Step)
    requires Inv(s) && Enabled(s, step) && step.LockClose? && AllReturned(s)
    ensures Sweeping(Apply(s, step), step.c, s.table.Values)
  {
    LiveAreValues(s);
    forall e | e in s.table.Values
      ensures e in s.entries && s.entries[e].once.Done? && s.entries[e].outcome.Some? && !s.entries[e].swept
    {
      assert EntryOk(s, e);
      assert CallerOk(s, s.entries[e].creator);
    }
  }

  lemma {:induction false} StepKeepsSweeping(s: State, step: Step, c: Caller, live: set<EntryId>)
    requires Inv(s) && Enabled(s, step) && Sweeping(s, c, live) && !(step.EndClose? && step.c == c)
    ensures Sweeping(Apply(s, step), c, live)
  {
    assert c in s.callers && s.callers[c].Closing?;
    assert step.c in s.callers ==> CallerOk(s, step.c);
    hide CallerOk, Sweeping, TableInv, Apply, Enabled;
    OnlyTheCloseIsInside(s, step, c);
    if step.CleanOne? {
      CleanKeepsSweeping(s, step, c, live);
    } else {
      QuietKeepsSweeping(s, step, c, live);
    }
  }

  lemma {:induction false} QuietKeepsSweeping(s: State, step: Step, c: Caller, live: set<EntryId>)
    requires Enabled(s, step) && Sweeping(s, c, live) && !step.Insert? && !step.EndClose? && !step.CleanOne?
    requires step.c in s.callers ==> CallerOk(s, step.c)
    requires c in Apply(s, step).callers && Apply(s, step).callers[c].Closing?
    ensures Sweeping(Apply(s, step), c, live)
  {
    TableUntouched(s, step);
    forall e | e in live ensures Apply(s, step).entries[e] == s.entries[e] {
      DoneStaysDone(s, step, e);
    }
    hide Apply, CallerOk, SweptRight;
  }


  /** While a close is inside its section no other caller inserts, sweeps or ends a close. */
  lemma {:induction false} OnlyTheCloseIsInside(s: State, step: Step, c: Caller)
    requires MutexInv(s) && Enabled(s, step) && c in s.callers && s.callers[c].Closing?
    requires !(step.EndClose? && step.c == c)
    ensures !step.Insert? && !step.EndClose? && (step.CleanOne? ==> step.c == c)
    ensures c in Apply(s, step).callers && Apply(s, step).callers[c].Closing?
  {
    assert s.mutex == Some(c);
  }

  lemma {:induction false} CleanKeepsSweeping(s: State, step: Step, c: Caller, live: set<EntryId>)
    requires step.CleanOne? && step.c == c && Enabled(s, step) && Sweeping(s, c, live) && CloseInv(s) && EntryInv(s)
    ensures Sweeping(Apply(s, step), c, live)
  {
    assert EntryOk(s, step.e);
    hide EntryInv;
  }

  lemma {:induction false} DoneStaysDone(s: State, step: Step, e: EntryId)
    requires Enabled(s, step) && !step.Insert? && !step.EndClose? && !step.CleanOne?
    requires step.c in s.callers ==> CallerOk(s, step.c)
    requires e in s.entries && s.entries[e].once.Done?
    ensures Apply(s, step).entries[e] == s.entries[e]
  {
  }


  lemma {:induction false} RunKeepsSweeping(s: State, steps: seq<Step>, c: Caller, live: set<EntryId>)
    requires Inv(s) && Sweeping(s, c, live) && ValidRun(s, steps)
    requires forall i :: 0 <= i < |steps| ==> steps[i] != EndClose(c)
    ensures Sweeping(Run(s, steps), c, live)
    decreases |steps|
  {
    if steps != [] {
      hide Inv, Sweeping, Apply, Enabled;
      StepKeepsInv(s, steps[0]);
      StepKeepsSweeping(s, steps[0], c, live);
      RunKeepsSweeping(Apply(s, steps[0]), steps[1..], c, live);
    }
  }

  /** A close that takes the mutex once every caller has returned, however others interleave with it,
      has by its end run the cleanup of every checkout in the pool exactly once (none where there is
      nothing to clean), thawing it first, and dropped it. */
  lemma {:induction false} CloseCleansOnce(before: seq<Step>, c: Caller, during: seq<Step>)
    requires ValidRun(INITIAL, before) && AllReturned(Run(INITIAL, before)) &&
      Enabled(Run(INITIAL, before), LockClose(c))
    requires var begun := Apply(Run(INITIAL, before), LockClose(c));
             && ValidRun(begun, during) && (forall i :: 0 <= i < |during| ==> during[i] != EndClose(c))
             && Enabled(Run(begun, during), EndClose(c))
    ensures var s := Run(INITIAL, before);
            var t := Apply(Run(Apply(s, LockClose(c)), during), EndClose(c));
            t.table == map[] && forall e :: e in s.entries && !s.entries[e].retired ==>
              e in t.entries && t.entries[e].retired && t.entries[e].outcome.Some? && SweptRight(t.entries[e])
  {
    var s := Run(INITIAL, before);
    Reachable(before);
    LiveAreValues(s);
    StepKeepsInv(s, LockClose(c));
    LockCloseStartsSweeping(s, LockClose(c));
    var begun := Apply(s, LockClose(c));
    RunKeepsInv(begun, during);
    RunKeepsSweeping(begun, during, c, s.table.Values);
    EndCloseRetires(Run(begun, during), c, s.table.Values);
  }

  lemma {:induction false} EndCloseRetires(s: State, c: Caller, live: set<EntryId>)
    requires Inv(s) && Sweeping(s, c, live) && Enabled(s, EndClose(c))
    ensures var t := Apply(s, EndClose(c));
            t.table == map[] && forall e :: e in live ==>
              e in t.entries && t.entries[e].retired && t.entries[e].outcome.Some? && SweptRight(t.entries[e])
  {
  }

  // ---- a close that comes too early ----

  /** There is something to clean, and a close can see it. */
  predicate Cleanable(e: Entry) { e.outcome.Some? && e.outcome.value.cleanable }

  lemma {:induction false} SweptIsNotToDo(s: State, c: Caller, e: EntryId)
    requires TableInv(s) && CloseInv(s) && c in s.callers && s.callers[c].Closing?
    requires e in s.entries && s.entries[e].swept
    ensures e !in s.callers[c].todo
  {
    LiveAreValues(s);
  }

  lemma {:induction false} SweptStep(s: State, step: Step, e: EntryId)
    requires Inv(s) && Enabled(s, step) && e in s.entries && s.entries[e].swept
    ensures var t := Apply(s, step);
            e in t.entries && t.entries[e].swept && t.entries[e].cleans == s.entries[e].cleans
  {
    if step.CleanOne? { SweptIsNotToDo(s, step.c, e); }
    hide Inv;
    OnlyCleaningCleans(s, step, e);
  }

  lemma {:induction false} OnlyCleaningCleans(s: State, step: Step, e: EntryId)
    requires Enabled(s, step) && e in s.entries && !(step.CleanOne? && step.e == e)
    ensures var t := Apply(s, step);
            e in t.entries && t.entries[e].swept == s.entries[e].swept && t.entries[e].cleans == s.entries[e].cleans
  {
    if step.Begin? || step.Store? || step.Freeze? {
      var id := s.callers[step.c].entry;
      assert Apply(s, step).entries == s.entries[id := Apply(s, step).entries[id]];
    }
  }

  lemma {:induction false} SweptStays(s: State, steps: seq<Step>, e: EntryId)
    requires Inv(s) && ValidRun(s, steps) && e in s.entries && s.entries[e].swept
    ensures var t := Run(s, steps);
            e in t.entries && t.entries[e].swept && t.entries[e].cleans == s.entries[e].cleans
    decreases |steps|
  {
    if steps != [] {
      SweptStep(s, steps[0], e);
      StepKeepsInv(s, steps[0]);
      hide Inv, Apply, Enabled;
      SweptStays(Apply(s, steps[0]), steps[1..], e);
    }
  }

  /** The step that sweeps an entry cleans it exactly if there is something to clean. */
  lemma {:induction false} SweepingStep(s: State, step: Step, e: EntryId)
    requires EntryInv(s) && Enabled(s, step) && (e in s.entries ==> !s.entries[e].swept)
    requires e in Apply(s, step).entries && Apply(s, step).entries[e].swept
    ensures step.CleanOne? && step.e == e && e in s.entries
    ensures Apply(s, step).entries[e].cleans == if Cleanable(s.entries[e]) then 1 else 0
  {
    if e in s.entries { assert EntryOk(s, e); }
    hide EntryInv;
  }

  /** In every run, an entry a close has come to was cleaned, once, exactly if its outcome was stored and
      cleanable when the close came: one whose `materialize` still ran is dropped uncleaned. */
  lemma {:induction false} CleanedAsFound(s: State, steps: seq<Step>, e: EntryId) returns (i: nat)
    requires Inv(s) && ValidRun(s, steps) && (e in s.entries ==> !s.entries[e].swept)
    requires e in Run(s, steps).entries && Run(s, steps).entries[e].swept
    ensures i < |steps| && steps[i].CleanOne? && steps[i].e == e && ValidRun(s, steps[..i])
    ensures var found := Run(s, steps[..i]).entries;
            e in found && Run(s, steps).entries[e].cleans == if Cleanable(found[e]) then 1 else 0
    decreases |steps|
  {
    hide Inv, Apply, Enabled;
    var t := Apply(s, steps[0]);
    StepKeepsInv(s, steps[0]);
    if e in t.entries && t.entries[e].swept {
      i := 0;
      assert EntryInv(s) by { EntriesAreSound(s); }
      SweepingStep(s, steps[0], e);
      SweptStays(t, steps[1..], e);
      assert steps[..0] == [];
    } else {
      i := CleanedAsFound(t, steps[1..], e);
      i := i + 1;
      assert steps[..i][1..] == steps[1..][..i - 1] && steps[..i][0] == steps[0];
    }
  }

  lemma {:induction false} EntriesAreSound(s: State)
    requires Inv(s)
    ensures EntryInv(s)
  {
  }

  /** A run is told by its states. */
  lemma {:induction false} RunsThrough(states: seq<State>, steps: seq<Step>, k: nat)
    requires |states| == |steps| + 1 && k <= |steps|
    requires forall j :: 0 <= j < |steps| ==>
      Enabled(states[j], steps[j]) && Apply(states[j], steps[j]) == states[j + 1]
    ensures ValidRun(states[k], steps[k..]) && Run(states[k], steps[k..]) == states[|steps|]
    decreases |steps| - k
  {
    hide Enabled, Apply;
    if k < |steps| {
      RunsThrough(states, steps, k + 1);
      assert steps[k..][1..] == steps[k + 1..];
    }
  }

  lemma {:induction false} RunConcat(s: State, a: seq<Step>, b: seq<Step>)
    requires ValidRun(s, a) && ValidRun(Run(s, a), b)
    ensures ValidRun(s, a + b) && Run(s, a + b) == Run(Run(s, a), b)
    decreases |a|
  {
    hide Enabled, Apply;
    if a == [] {
      assert a + b == b;
    } else {
      assert (a + b)[0] == a[0] && (a + b)[1..] == a[1..] + b;
      RunConcat(Apply(s, a[0]), a[1..], b);
    }
  }

  const CHECKED_OUT := Outcome("tree", true, None)

  /** A run in which a close comes while `materialize` still runs: a caller has it started, a close drops the
      entry, and the caller ends. */
  const STARTED: seq<Step> := [Call(0, "k"), Lock(0), Look(0), Insert(0, 0), Unlock(0), Begin(0)]
  const CLOSED_EARLY: seq<Step> := [CallClose(1), LockClose(1), CleanOne(1, 0), EndClose(1)]
  const ENDED: seq<Step> := [Store(0, CHECKED_OUT), Step.Freeze(0), Return(0)]

  const RUNNING := Entry("k", 0, Running(0), None, false, 1, 0, false, false)
  const DROPPED := RUNNING.(swept := true, retired := true)
  const LEFT := DROPPED.(once := Done, outcome := Some(CHECKED_OUT), frozen := true)

  lemma {:induction false} Starts()
    ensures ValidRun(INITIAL, STARTED)
    ensures Run(INITIAL, STARTED) == State(map[0 := Working("k", 0)], None, map["k" := 0], map[0 := RUNNING])
  {
    var made := RUNNING.(once := Fresh, runs := 0);
    RunsThrough([
      INITIAL,
      State(map[0 := Asking("k")], None, map[], map[]),
      State(map[0 := Locked("k")], Some(0), map[], map[]),
      State(map[0 := Missed("k")], Some(0), map[], map[]),
      State(map[0 := Holding("k", 0)], Some(0), map["k" := 0], map[0 := made]),
      State(map[0 := Waiting("k", 0)], None, map["k" := 0], map[0 := made]),
      State(map[0 := Working("k", 0)], None, map["k" := 0], map[0 := RUNNING])], STARTED, 0);
    assert STARTED[0..] == STARTED;
  }

  lemma {:induction false} CloseLocks(s: State)
    requires s == State(map[0 := Working("k", 0)], None, map["k" := 0], map[0 := RUNNING])
    ensures ValidRun(s, CLOSED_EARLY[..2])
    ensures Run(s, CLOSED_EARLY[..2]) ==
      State(map[0 := Working("k", 0), 1 := Closing({0})], Some(1), map["k" := 0], map[0 := RUNNING])
  {
    assert s.table["k"] == 0 && s.table.Values == {0};
    var asking := State(map[0 := Working("k", 0), 1 := CloseAsking], None, s.table, s.entries);
    var closing := State(map[0 := Working("k", 0), 1 := Closing({0})], Some(1), s.table, s.entries);
    RunsThrough([s, asking, closing], CLOSED_EARLY[..2], 0);
    assert CLOSED_EARLY[..2][0..] == CLOSED_EARLY[..2];
  }

  lemma {:induction false} CloseDrops(s: State)
    requires s == State(map[0 := Working("k", 0), 1 := Closing({0})], Some(1), map["k" := 0], map[0 := RUNNING])
    ensures ValidRun(s, CLOSED_EARLY[2..])
    ensures Run(s, CLOSED_EARLY[2..]) == State(map[0 := Working("k", 0), 1 := Closed], None, map[], map[0 := DROPPED])
  {
    assert s.table["k"] == 0 && s.table.Values == {0};
    var entries: map<EntryId, Entry> := map[0 := RUNNING.(swept := true)];
    var swept := State(map[0 := Working("k", 0), 1 := Closing({})], Some(1), s.table, entries);
    var ended := State(map[0 := Working("k", 0), 1 := Closed], None, map[], map[0 := DROPPED]);
    assert {0} - {0} == {} && Apply(s, CleanOne(1, 0)) == swept;
    assert Apply(swept, EndClose(1)).entries == map[0 := DROPPED];
    assert Apply(swept, EndClose(1)) == ended;
    hide Apply;
    RunsThrough([s, swept, ended], CLOSED_EARLY[2..], 0);
    assert CLOSED_EARLY[2..][0..] == CLOSED_EARLY[2..];
  }

  lemma {:induction false} ClosesEarly(s: State)
    requires s == State(map[0 := Working("k", 0)], None, map["k" := 0], map[0 := RUNNING])
    ensures ValidRun(s, CLOSED_EARLY)
    ensures Run(s, CLOSED_EARLY) == State(map[0 := Working("k", 0), 1 := Closed], None, map[], map[0 := DROPPED])
  {
    hide Run, ValidRun, Enabled, Apply;
    CloseLocks(s);
    var t := Run(s, CLOSED_EARLY[..2]);
    CloseDrops(t);
    RunConcat(s, CLOSED_EARLY[..2], CLOSED_EARLY[2..]);
    assert CLOSED_EARLY[..2] + CLOSED_EARLY[2..] == CLOSED_EARLY;
  }

  lemma {:induction false} Ends(s: State)
    requires s == State(map[0 := Working("k", 0), 1 := Closed], None, map[], map[0 := DROPPED])
    ensures ValidRun(s, ENDED)
    ensures Run(s, ENDED) ==
      State(map[0 := Returned("k", 0, Got("tree")), 1 := Closed], None, map[], map[0 := LEFT])
  {
    var stored := DROPPED.(once := Stored(0), outcome := Some(CHECKED_OUT));
    RunsThrough([
      s,
      State(map[0 := Freezing("k", 0), 1 := Closed], None, map[], map[0 := stored]),
      State(map[0 := Waiting("k", 0), 1 := Closed], None, map[], map[0 := LEFT]),
      State(map[0 := Returned("k", 0, Got("tree")), 1 := Closed], None, map[], map[0 := LEFT])], ENDED, 0);
    assert ENDED[0..] == ENDED;
  }

  /** Its caller gets a tree that no close will clean: the entry is out of the table, and was never cleaned. */
  lemma {:induction false} EarlyCloseLeavesATree()
    ensures ValidRun(INITIAL, STARTED + CLOSED_EARLY + ENDED)
    ensures var t := Run(INITIAL, STARTED + CLOSED_EARLY + ENDED);
            && 0 in t.callers && t.callers[0] == Returned("k", 0, Got("tree"))
            && 0 in t.entries && t.entries[0].retired && t.entries[0].cleans == 0 && Cleanable(t.entries[0])
  {
    hide Run, ValidRun, Enabled, Apply;
    Starts();
    var s := Run(INITIAL, STARTED);
    ClosesEarly(s);
    RunConcat(INITIAL, STARTED, CLOSED_EARLY);
    Ends(Run(s, CLOSED_EARLY));
    RunConcat(INITIAL, STARTED + CLOSED_EARLY, ENDED);
  }

  /** A later close, or anything else, never cleans what one close has dropped a second time. */
  lemma {:induction false} RetiredIsNeverCleanedAgain(s: State, steps: seq<Step>, e: EntryId)
    requires Inv(s) && ValidRun(s, steps) && e in s.entries && s.entries[e].retired
    ensures var t := Run(s, steps); e in t.entries && t.entries[e].retired && t.entries[e].cleans == s.entries[e].cleans
    decreases |steps|
  {
    if steps != [] {
      RetiredStep(s, steps[0], e);
      StepKeepsInv(s, steps[0]);
      hide Inv, Apply, Enabled;
      RetiredIsNeverCleanedAgain(Apply(s, steps[0]), steps[1..], e);
    }
  }

  lemma {:induction false} RetiredStep(s: State, step: Step, e: EntryId)
    requires Inv(s) && Enabled(s, step) && e in s.entries && s.entries[e].retired
    ensures var t := Apply(s, step);
      e in t.entries && t.entries[e].retired && t.entries[e].cleans == s.entries[e].cleans
  {
    LiveAreValues(s);
    assert step.CleanOne? ==> step.e != e;
    hide EntryInv, CallerInv, MutexInv, TableInv;
  }
}
