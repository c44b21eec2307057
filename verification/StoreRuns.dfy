/** The states and events of the engine (db/db_impl.cc): group writes, memtable rotation, flushes,
    compactions, snapshots, reads, and the deletion of obsolete files. */
module StoreRuns {
  import opened InternalKeys
  import opened Options
  import opened Stores

  datatype Op = Op(key: UserKey, cell: Cell)

  /** The group the head of the writer queue is logging and inserting. */
  datatype Write = Write(ops: seq<Op>, logged: bool, inserted: nat)

  /** A read in progress has pinned two memtables and a version. */
  datatype Reader = Reader(snapshot: nat, mem: nat, imm: Option<nat>, version: set<File>)

  /** A flush is writing its table with the mutex released, or waiting for LogAndApply. */
  datatype Flush = Building(number: nat) | Installing(number: nat, level: int, logNumber: nat)

  datatype Output = Output(number: nat, table: Table)

  /** `base` holds the keys for which IsBaseLevelForKey answers true on the input version. */
  datatype Compaction = Compaction(level: int, inputs: set<File>, base: set<UserKey>, smallestSnapshot: nat,
                                   version: set<File>, done: set<InternalKey>, outputs: set<Output>,
                                   building: Option<Output>)

  /** A memtable is named by the number of the log it is written to. `history` is every write that
      has reached a memtable; `lost` is what a failed sync may have left in the log; `horizon` is the
      largest smallest_snapshot of any installed compaction. */
  datatype Store = Store(history: Table, lost: Table, last: nat,
                         memtables: map<nat, Table>, logfile: nat, imm: Option<nat>,
                         current: set<File>, nextFile: nat, logNumber: nat,
                         logs: map<nat, Table>, disk: map<nat, Table>, pending: set<nat>,
                         write: Option<Write>, snapshots: seq<nat>, readers: map<nat, Reader>,
                         flush: Option<Flush>, compaction: Option<Compaction>,
                         bgError: bool, horizon: nat)

  function Memtable(memtables: map<nat, Table>, i: nat): Table
  {
    if i in memtables then memtables[i] else map[]
  }

  function Sources(memtables: map<nat, Table>, mem: nat, imm: Option<nat>, version: set<File>): set<File>
  {
    {File(mem, MEM_LEVEL, Memtable(memtables, mem))}
    + (if imm.Some? then {File(imm.value, IMM_LEVEL, Memtable(memtables, imm.value))} else {})
    + version
  }

  /** Where a read that starts now would look. */
  function Now(s: Store): set<File>
  {
    Sources(s.memtables, s.logfile, s.imm, s.current)
  }

  function Pinned(s: Store, r: Reader): set<File>
  {
    Sources(s.memtables, r.mem, r.imm, r.version)
  }

  /** What Get returns for a read in progress. */
  ghost function Result(s: Store, r: Reader, k: UserKey): Option<Value>
  {
    Get(Pinned(s, r), s.nextFile, k, r.snapshot)
  }

  function EntriesOf(ops: seq<Op>, first: nat): Table
  {
    map i | 0 <= i < |ops| :: (ops[i].key, first + i) := ops[i].cell
  }

  function Init(): Store
  {
    Store(map[], map[], 0, map[1 := map[]], 1, None, {}, 2, 1, map[1 := map[]], map[], {}, None, [], map[],
          None, None, false, 0)
  }

  // ----- Writes ------------------------------------------------------------------------

  predicate CanBeginWrite(s: Store)
  {
    s.write == None && !s.bgError
  }

  function BeginWrite(s: Store, ops: seq<Op>): Store
  {
    s.(write := Some(Write(ops, false, 0)))
  }

  predicate CanLogWrite(s: Store)
  {
    s.write.Some? && !s.write.value.logged && s.logfile in s.logs
  }

  function LogWrite(s: Store): Store
    requires CanLogWrite(s)
  {
    var w := s.write.value;
    s.(logs := s.logs[s.logfile := s.logs[s.logfile] + EntriesOf(w.ops, s.last + 1)],
       write := Some(w.(logged := true)))
  }

  predicate CanInsertNext(s: Store)
  {
    s.write.Some? && s.write.value.logged && s.write.value.inserted < |s.write.value.ops|
  }

  function InsertNext(s: Store): Store
    requires CanInsertNext(s)
  {
    var w := s.write.value;
    var p := (w.ops[w.inserted].key, s.last + 1 + w.inserted);
    var cell := w.ops[w.inserted].cell;
    s.(memtables := s.memtables[s.logfile := Memtable(s.memtables, s.logfile)[p := cell]],
       history := s.history[p := cell],
       write := Some(w.(inserted := w.inserted + 1)))
  }

  predicate CanEndWrite(s: Store)
  {
    s.write.Some? && s.write.value.logged && s.write.value.inserted == |s.write.value.ops|
  }

  function EndWrite(s: Store): Store
    requires s.write.Some?
  {
    s.(last := s.last + |s.write.value.ops|, write := None)
  }

  /** AddRecord failed: nothing is inserted, but LastSequence moves on all the same. */
  predicate CanFailLog(s: Store)
  {
    s.write.Some? && !s.write.value.logged
  }

  /** The sync failed: the record may or may not be in the log, and no later write is accepted. */
  predicate CanFailSync(s: Store)
  {
    s.write.Some? && s.write.value.logged && s.write.value.inserted == 0
  }

  function FailSync(s: Store): Store
    requires s.write.Some?
  {
    EndWrite(s).(lost := s.lost + EntriesOf(s.write.value.ops, s.last + 1), bgError := true)
  }

  predicate CanRotate(s: Store)
  {
    s.write == None && s.imm == None && !s.bgError
  }

  function Rotate(s: Store): Store
  {
    s.(imm := Some(s.logfile), logfile := s.nextFile, nextFile := s.nextFile + 1,
       memtables := s.memtables[s.nextFile := map[]], logs := s.logs[s.nextFile := map[]])
  }

  // ----- Snapshots and reads -----------------------------------------------------------

  function TakeSnapshot(s: Store): Store
  {
    s.(snapshots := s.snapshots + [s.last])
  }

  function ReleaseSnapshot(s: Store, i: nat): Store
    requires i < |s.snapshots|
  {
    s.(snapshots := s.snapshots[..i] + s.snapshots[i + 1..])
  }

  predicate CanBeginGet(s: Store, id: nat, snapshot: nat)
  {
    id !in s.readers && (snapshot == s.last || snapshot in s.snapshots)
  }

  function BeginGet(s: Store, id: nat, snapshot: nat): Store
  {
    s.(readers := s.readers[id := Reader(snapshot, s.logfile, s.imm, s.current)])
  }

  function EndGet(s: Store, id: nat): Store
  {
    s.(readers := s.readers - {id})
  }

  // ----- Deleting obsolete files -------------------------------------------------------

  ghost predicate IsLive(s: Store, f: File)
  {
    || f in s.current
    || (exists id :: id in s.readers && f in s.readers[id].version)
    || (s.compaction.Some? && f in s.compaction.value.version)
  }

  ghost function DeleteObsoleteFiles(s: Store): Store
  {
    if s.bgError then s
    else s.(disk := map n | n in s.disk && (n in s.pending || exists f :: IsLive(s, f) && f.number == n) :: s.disk[n],
            logs := map n | n in s.logs && n >= s.logNumber :: s.logs[n])
  }

  // ----- Flushing the immutable memtable -----------------------------------------------

  predicate CanBeginFlush(s: Store)
  {
    s.imm.Some? && s.flush == None
  }

  function BeginFlush(s: Store): Store
  {
    s.(flush := Some(Building(s.nextFile)), pending := s.pending + {s.nextFile}, nextFile := s.nextFile + 1)
  }

  ghost predicate MeetsLevel(version: set<File>, level: int, table: Table)
  {
    exists g :: g in version && g.level == level && RangesMeet(g.table, table)
  }

  /** PickLevelForMemTableOutput: below level 0 only if no file down to that level overlaps, and no deeper
      only for an overlap, in the next level or with too much of the one after it. */
  ghost predicate PlacementOk(version: set<File>, level: int, table: Table)
  {
    && 0 <= level <= 2 && (table == map[] ==> level == 0)
    && (level > 0 ==> forall g :: g in version && g.level <= level ==> !RangesMeet(g.table, table))
    && (level < 2 && table != map[] ==>
          MeetsLevel(version, 0, table) || MeetsLevel(version, level + 1, table)
            || MeetsLevel(version, level + 2, table))
  }

  ghost predicate CanWriteTable(s: Store, level: int)
  {
    && s.imm.Some? && s.flush.Some? && s.flush.value.Building?
    && PlacementOk(s.current, level, Memtable(s.memtables, s.imm.value))
  }

  /** The table is on disk and no longer pending; LogAndApply is about to run. */
  function WriteTable(s: Store, level: int): Store
    requires s.imm.Some? && s.flush.Some?
  {
    var n := s.flush.value.number;
    var table := Memtable(s.memtables, s.imm.value);
    s.(disk := if table == map[] then s.disk else s.disk[n := table],
       pending := s.pending - {n},
       flush := Some(Installing(n, level, s.logfile)))
  }

  predicate CanInstallFlush(s: Store)
  {
    s.imm.Some? && s.flush.Some? && s.flush.value.Installing?
  }

  function InstallFlush(s: Store): Store
    requires CanInstallFlush(s)
  {
    var table := Memtable(s.memtables, s.imm.value);
    s.(current := if table == map[] then s.current
      else s.current + {File(s.flush.value.number, s.flush.value.level, table)},
       logNumber := s.flush.value.logNumber, imm := None, flush := None)
  }

  function FailFlush(s: Store): Store
    requires s.flush.Some?
  {
    s.(pending := s.pending - {s.flush.value.number}, flush := None, bgError := true)
  }

  // ----- Compactions -------------------------------------------------------------------

  /** What the choice of inputs ensures at their own level and above it: whatever stays behind there is
      newer than every input. */
  ghost predicate InputsOk(version: set<File>, level: int, inputs: set<File>)
  {
    && 0 <= level < NUM_LEVELS - 1
    && inputs <= version
    && (forall f :: f in inputs ==> f.level == level || f.level == level + 1)
    && (forall f, g :: f in inputs && g in version && g !in inputs && g.level <= level ==> Above(g, f))
  }

  /** The user keys of the inputs from the upper level span a range that meets the table's. */
  ghost predicate Reaches(inputs: set<File>, level: int, u: Table)
  {
    && (exists f :: f in inputs && f.level == level && SomeUpTo(f.table, u))
    && (exists f :: f in inputs && f.level == level && SomeUpTo(u, f.table))
  }

  /** From the next level the inputs are the files that overlap those from the upper one. */
  ghost predicate TakesOverlapping(version: set<File>, level: int, inputs: set<File>)
  {
    forall g :: g in version && g.level == level + 1 ==> (g in inputs <==> Reaches(inputs, level, g.table))
  }

  /** IsBaseLevelForKey looks at the levels below the next one only. */
  ghost predicate BaseOk(version: set<File>, level: int, inputs: set<File>, base: set<UserKey>)
  {
    forall k, g, n: nat :: k in base && g in version && g.level > level + 1 && (k, n) in g.table ==>
      forall m: nat :: !Holds(inputs, k, m)
  }

  /** No deletion marker that the compaction drops lies over an older entry left in the next level. */
  ghost predicate MarkersOk(version: set<File>, level: int, inputs: set<File>, base: set<UserKey>,
      smallestSnapshot: nat)
  {
    forall f, g, k, m: nat, n: nat ::
      && f in inputs && (k, n) in f.table && f.table[(k, n)] == Del && n <= smallestSnapshot && k in base
      && g in version && g !in inputs && g.level == level + 1 && (k, m) in g.table
      ==> m >= n
  }

  ghost predicate CanBeginCompaction(s: Store, level: int, inputs: set<File>, base: set<UserKey>)
  {
    && s.compaction == None && s.flush == None && s.imm == None && !s.bgError
    && InputsOk(s.current, level, inputs) && TakesOverlapping(s.current, level, inputs)
    && BaseOk(s.current, level, inputs, base)
  }

  function SmallestSnapshot(s: Store): nat
  {
    if s.snapshots == [] then s.last else s.snapshots[0]
  }

  function BeginCompaction(s: Store, level: int, inputs: set<File>, base: set<UserKey>): Store
  {
    s.(compaction := Some(Compaction(level, inputs, base, SmallestSnapshot(s), s.current, {}, {}, None)))
  }

  /** The compaction thread is in its loop, with no nested flush under way. */
  predicate Compacting(s: Store)
  {
    s.compaction.Some? && s.flush == None
  }

  function OpenOutput(s: Store): Store
    requires Compacting(s)
  {
    s.(compaction := Some(s.compaction.value.(building := Some(Output(s.nextFile, map[])))),
       pending := s.pending + {s.nextFile}, nextFile := s.nextFile + 1)
  }

  /** Rule (A), or the rule for deletion markers at the base level. */
  ghost predicate Dropped(c: Compaction, k: UserKey, n: nat, cell: Cell)
  {
    || (exists m: nat :: n < m <= c.smallestSnapshot && Holds(c.inputs, k, m))
    || (cell == Del && n <= c.smallestSnapshot && k in c.base)
  }

  /** The merging iterator yields the entries of the inputs in order. */
  ghost predicate IsNext(c: Compaction, p: InternalKey)
  {
    && (exists f :: f in c.inputs && p in f.table) && p !in c.done
    && forall f, q :: f in c.inputs && q in f.table && q !in c.done ==> q == p || KeyBefore(p, q)
  }

  ghost predicate CanProcess(s: Store, f: File, k: UserKey, n: nat)
  {
    && Compacting(s)
    && f in s.compaction.value.inputs && (k, n) in f.table && IsNext(s.compaction.value, (k, n))
    && (Dropped(s.compaction.value, k, n, f.table[(k, n)]) || s.compaction.value.building.Some?)
  }

  ghost function Process(s: Store, f: File, k: UserKey, n: nat): Store
    requires CanProcess(s, f, k, n)
  {
    var c := s.compaction.value;
    var c' := c.(done := c.done + {(k, n)});
    s.(compaction := Some(
         if Dropped(c, k, n, f.table[(k, n)]) then c'
         else c'.(building := Some(c.building.value.(table := c.building.value.table[(k, n) := f.table[(k, n)]])))))
  }

  /** An output is opened for an entry, so none is empty. */
  predicate CanFinishOutput(s: Store)
  {
    Compacting(s) && s.compaction.value.building.Some? && s.compaction.value.building.value.table != map[]
  }

  function FinishOutput(s: Store): Store
    requires CanFinishOutput(s)
  {
    var c := s.compaction.value;
    s.(compaction := Some(c.(outputs := c.outputs + {c.building.value}, building := None)),
       disk := s.disk[c.building.value.number := c.building.value.table])
  }

  ghost predicate CanInstallCompaction(s: Store)
  {
    && Compacting(s) && s.compaction.value.building == None
    && forall f, p :: f in s.compaction.value.inputs && p in f.table ==> p in s.compaction.value.done
  }

  /** No file flushed to the next level while the compaction ran meets the range of one of its outputs. */
  ghost predicate NoGapFilled(s: Store)
    requires s.compaction.Some?
  {
    var c := s.compaction.value;
    forall f, o :: f in s.current && f !in c.version && f.level == c.level + 1 && o in c.outputs ==>
      !RangesMeet(f.table, o.table)
  }

  function OutputFiles(c: Compaction): set<File>
  {
    set o | o in c.outputs :: File(o.number, c.level + 1, o.table)
  }

  function OutputNumbers(c: Compaction): set<nat>
  {
    (set o | o in c.outputs :: o.number) + (if c.building.Some? then {c.building.value.number} else {})
  }

  function InstallCompaction(s: Store): Store
    requires s.compaction.Some?
  {
    var c := s.compaction.value;
    s.(current := s.current - c.inputs + OutputFiles(c), pending := s.pending - OutputNumbers(c),
       compaction := None, horizon := if s.horizon < c.smallestSnapshot then c.smallestSnapshot else s.horizon)
  }

  function FailCompaction(s: Store): Store
    requires s.compaction.Some?
  {
    s.(pending := s.pending - OutputNumbers(s.compaction.value), compaction := None, bgError := true)
  }

  ghost predicate CanTrivialMove(s: Store, f: File)
  {
    && s.compaction == None && s.flush == None && s.imm == None && !s.bgError
    && f in s.current && InputsOk(s.current, f.level, {f}) && TakesOverlapping(s.current, f.level, {f})
  }

  function TrivialMove(s: Store, f: File): Store
  {
    s.(current := s.current - {f} + {f.(level := f.level + 1)})
  }

  // ----- Runs --------------------------------------------------------------------------

  datatype Event =
    | BeginWriteEvent(ops: seq<Op>) | LogWriteEvent | InsertNextEvent | EndWriteEvent | FailLogEvent | FailSyncEvent
    | RotateEvent | TakeSnapshotEvent | ReleaseSnapshotEvent(i: nat)
    | BeginGetEvent(id: nat, snapshot: nat) | EndGetEvent(id: nat)
    | BeginFlushEvent | WriteTableEvent(to: int) | InstallFlushEvent | FailFlushEvent
    | BeginCompactionEvent(level: int, inputs: set<File>, base: set<UserKey>) | OpenOutputEvent
    | ProcessEvent(f: File, k: UserKey, n: nat) | FinishOutputEvent | InstallCompactionEvent | FailCompactionEvent
    | TrivialMoveEvent(f: File)

  /** What a compaction does before it is installed. */
  predicate CompactionWork(e: Event)
  {
    e.BeginCompactionEvent? || e.OpenOutputEvent? || e.ProcessEvent? || e.FinishOutputEvent? || e.FailCompactionEvent?
  }

  ghost predicate Enabled(s: Store, e: Event)
  {
    match e
    case BeginWriteEvent(_) => CanBeginWrite(s)
    case LogWriteEvent => CanLogWrite(s)
    case InsertNextEvent => CanInsertNext(s)
    case EndWriteEvent => CanEndWrite(s)
    case FailLogEvent => CanFailLog(s)
    case FailSyncEvent => CanFailSync(s)
    case RotateEvent => CanRotate(s)
    case TakeSnapshotEvent => true
    case ReleaseSnapshotEvent(i) => i < |s.snapshots|
    case BeginGetEvent(id, snapshot) => CanBeginGet(s, id, snapshot)
    case EndGetEvent(id) => id in s.readers
    case BeginFlushEvent => CanBeginFlush(s)
    case WriteTableEvent(to) => CanWriteTable(s, to)
    case InstallFlushEvent => CanInstallFlush(s)
    case FailFlushEvent => s.flush.Some?
    case BeginCompactionEvent(level, inputs, base) => CanBeginCompaction(s, level, inputs, base)
    case OpenOutputEvent => Compacting(s) && s.compaction.value.building == None
    case ProcessEvent(f, k, n) => CanProcess(s, f, k, n)
    case FinishOutputEvent => CanFinishOutput(s)
    case InstallCompactionEvent => CanInstallCompaction(s)
    case FailCompactionEvent => Compacting(s)
    case TrivialMoveEvent(f) => CanTrivialMove(s, f)
  }

  ghost function Step(s: Store, e: Event): Store
    requires Enabled(s, e)
  {
    match e
    case BeginWriteEvent(ops) => BeginWrite(s, ops)
    case LogWriteEvent => LogWrite(s)
    case InsertNextEvent => InsertNext(s)
    case EndWriteEvent => EndWrite(s)
    case FailLogEvent => EndWrite(s)
    case FailSyncEvent => FailSync(s)
    case RotateEvent => Rotate(s)
    case TakeSnapshotEvent => TakeSnapshot(s)
    case ReleaseSnapshotEvent(i) => ReleaseSnapshot(s, i)
    case BeginGetEvent(id, snapshot) => BeginGet(s, id, snapshot)
    case EndGetEvent(id) => EndGet(s, id)
    case BeginFlushEvent => BeginFlush(s)
    case WriteTableEvent(to) => WriteTable(s, to)
    case InstallFlushEvent => DeleteObsoleteFiles(InstallFlush(s))
    case FailFlushEvent => FailFlush(s)
    case BeginCompactionEvent(level, inputs, base) => BeginCompaction(s, level, inputs, base)
    case OpenOutputEvent => OpenOutput(s)
    case ProcessEvent(f, k, n) => Process(s, f, k, n)
    case FinishOutputEvent => FinishOutput(s)
    case InstallCompactionEvent => DeleteObsoleteFiles(InstallCompaction(s))
    case FailCompactionEvent => FailCompaction(s)
    case TrivialMoveEvent(f) => TrivialMove(s, f)
  }

  /** No compaction of the run may drop a marker over an older entry left in the next level. */
  ghost predicate MarkersKept(states: seq<Store>, events: seq<Event>)
    requires |states| == |events| + 1
  {
    forall i :: 0 <= i < |events| && events[i].BeginCompactionEvent? ==>
      MarkersOk(states[i].current, events[i].level, events[i].inputs, events[i].base, SmallestSnapshot(states[i]))
  }

  /** No compaction of the run closes over a file flushed into a gap between its inputs. */
  ghost predicate GapsKept(states: seq<Store>, events: seq<Event>)
    requires |states| == |events| + 1
  {
    forall i :: 0 <= i < |events| && events[i].InstallCompactionEvent? && states[i].compaction.Some? ==>
      NoGapFilled(states[i])
  }

  ghost predicate IsRun(states: seq<Store>, events: seq<Event>)
  {
    && |states| == |events| + 1
    && states[0] == Init()
    && forall i :: 0 <= i < |events| ==> Enabled(states[i], events[i]) && states[i + 1] == Step(states[i], events[i])
  }
}
