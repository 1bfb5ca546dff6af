/** The watch loop: watermarks, caches and saved state of many tables over one replica. */
module Watch {
  import opened Bytes
  import opened Changes
  import opened RecordScan
  import opened Express
  import opened Scan
  import opened ScanFacts
  import opened Replica
  import opened Sync

  /**
   The file as one cycle sees it: its size, its header's generation, the tables with a
   primary key, the tables whose catalog entries can be read, and the tables themselves.
   */
  datatype File = File(size: nat, headerGen: int, keyed: set<Name>, readable: set<Name>, tables: map<Name, TableFile>)

  /** What the program holds under a table's name: state, cache, and a snapshot still to be handed over. */
  datatype Tracked = Tracked(txn: int, keyed: bool, gens: Gens, cache: Option<Cache>, pending: Option<Snapshot>)
  {
    ghost predicate Valid(f: TableFile) {
      txn >= 0 && (cache.Some? ==> cache.value.Valid()) && f.schema.Valid() &&
      (pending.Some? ==> KeysOnly(pending.value, f.schema.pkByteLen, |f.schema.pk|))
    }

    function Snap(): Option<Snapshot> {
      if cache.None? then pending else None
    }

    /** The snapshot the next cycle is compared with, cached or still to be handed over. */
    function Prev(pkByteLen: nat): Snapshot {
      if cache.Some? then cache.value.prev else if pending.Some? && pkByteLen > 0 then pending.value else map[]
    }
  }

  const FRESH := Tracked(0, false, map[], None, None)

  /** How a table's turn in a cycle ended. */
  datatype Turn = Skipped | Unreadable | Failed | Done(stats: Stats)
  {
    function Result(): Option<Stats> {
      match this
      case Done(stats) => Some(stats)
      case _ => None
    }
  }

  /** A table's turn, from record `a` and replica table `t` to `a'` and `t'`. */
  ghost predicate IsTurn(file: File, n: Name, global: nat, fate: Fate, a: Tracked, t: Table, a': Tracked, t': Table,
      turn: Turn, out: ScanOutput)
    requires n in file.tables && a.txn >= 0
  {
    if !a.keyed && n !in file.keyed then turn == Skipped && a' == a && t' == t
    else if a.cache.None? && n !in file.readable then
      turn == Unreadable && a' == a.(keyed := true, pending := None) && t' == t
    else
      (turn.Done? || turn.Failed?) && a'.keyed && a'.pending == (if a.cache.None? then None else a.pending) &&
      IsSync(file.tables[n], Max(a.txn, global), a.Snap(), fate, Slice(a.gens, a.cache, t),
             Slice(a'.gens, a'.cache, t'), out, turn.Result()) &&
      a'.txn == if turn.Done? then turn.stats.maxTxn else a.txn
  }

  /** A table's own watermark never falls, and rises only with a turn that is done. */
  lemma TurnRises(file: File, n: Name, global: nat, fate: Fate, a: Tracked, t: Table, a': Tracked, t': Table,
      turn: Turn, out: ScanOutput)
    requires n in file.tables && a.Valid(file.tables[n]) && IsTurn(file, n, global, fate, a, t, a', t', turn, out)
    ensures a'.txn >= a.txn && a'.Valid(file.tables[n])
    ensures turn.Done? ==> a'.txn == turn.stats.maxTxn && a'.txn >= global
    ensures !turn.Done? ==> a'.txn == a.txn
  {
    hide IsSync, Cache.Valid, Schema.Valid, KeysOnly, NewCache;
    if turn.Done? || turn.Failed? {
      var f := file.tables[n];
      FirstCacheValid(f, a.Snap());
      var wm, s, s' := Max(a.txn, global), Slice(a.gens, a.cache, t), Slice(a'.gens, a'.cache, t');
      SyncKeepsValid(f, wm, a.Snap(), fate, s, s', out, turn.Result());
      if turn.Done? {
        WatermarkRises(f, wm, a.Snap(), fate, s, s', out, turn.Result());
      }
    }
  }

  /**
   A turn that is not done leaves the table's watermark, generations and cached snapshot
   alone, and its replica rows unless a commit took effect unanswered.
   */
  lemma UndoneTurnKeeps(file: File, n: Name, global: nat, fate: Fate, a: Tracked, t: Table, a': Tracked, t': Table,
      turn: Turn, out: ScanOutput)
    requires n in file.tables && a.txn >= 0 && IsTurn(file, n, global, fate, a, t, a', t', turn, out) && !turn.Done?
    ensures a'.txn == a.txn && a'.gens == a.gens && (!fate.Unanswered? ==> t' == t)
    ensures a.cache.Some? ==> a'.cache.Some? && a'.cache.value.prev == a.cache.value.prev
  {
    hide IsSync, NewCache;
    if turn.Failed? {
      FailureChangesNothing(file.tables[n], Max(a.txn, global), a.Snap(), fate, Slice(a.gens, a.cache, t),
                            Slice(a'.gens, a'.cache, t'), out);
    }
  }

  lemma FirstCacheValid(f: TableFile, snap: Option<Snapshot>)
    requires f.schema.Valid() && (snap.Some? ==> KeysOnly(snap.value, f.schema.pkByteLen, |f.schema.pk|))
    ensures NewCache(f, snap).Valid() && NewCache(f, snap).schema == f.schema
  {
    hide Schema.Valid, IsKey;
    NoKeys(f.schema.pkByteLen, |f.schema.pk|);
  }

  lemma NoKeys(stride: nat, n: nat)
    ensures KeysOnly(map[], stride, n)
  {
  }

  /** One table's turn: its watermark is the higher of its own and the global one. */
  method RunTable(file: File, sink: Database, name: Name, a: Tracked, global: nat, fate: Fate)
    returns (a': Tracked, turn: Turn, ghost out: ScanOutput)
    requires name in file.tables && name in sink.tables && a.Valid(file.tables[name])
    modifies sink
    ensures name in sink.tables && sink.tables == old(sink.tables)[name := sink.tables[name]]
    ensures IsTurn(file, name, global, fate, a, old(sink.tables)[name], a', sink.tables[name], turn, out)
  {
    hide IsSync, Cache.Valid, Schema.Valid, KeysOnly, NewCache;
    a', out := a, NO_SCAN;
    if !a.keyed {
      if name !in file.keyed { return a', Skipped, out; }
      a' := a'.(keyed := true);
    }
    var wm: nat := Max(a.txn, global);
    var snap: Option<Snapshot> := None;
    if a.cache == None {
      snap := a.pending;
      a' := a'.(pending := None);
      if name !in file.readable { return a', Unreadable, out; }
    }
    var f := file.tables[name];
    FirstCacheValid(f, snap);
    var g, cache, stats;
    g, cache, stats, out := SyncTable(f, sink, name, wm, a.gens, a.cache, snap, fate);
    a' := a'.(gens := g, cache := cache);
    if stats.Some? {
      a' := a'.(txn := stats.value.maxTxn);
      turn := Done(stats.value);
    } else {
      turn := Failed;
    }
  }

  // ── The loop over tables ──

  type Records = map<Name, Tracked>
  type Replicas = map<Name, Table>

  /** The running state: the global watermark, the records of all tables, and the replica. */
  datatype World = World(global: int, tables: Records, rows: Replicas)

  function RecordIn(m: Records, n: Name): Tracked {
    if n in m then m[n] else FRESH
  }

  /** A turn, the scan behind it, and the state it left. */
  datatype Step = Step(turn: Turn, out: ScanOutput, after: World)

  /** A turn is stored under its table's name and touches no other. */
  ghost predicate IsStep(file: File, n: Name, fate: Fate, w: World, s: Step) {
    n in file.tables && n in w.rows && RecordIn(w.tables, n).txn >= 0 && w.global >= 0 &&
    n in s.after.tables && n in s.after.rows &&
    s.after == World(w.global, w.tables[n := s.after.tables[n]], w.rows[n := s.after.rows[n]]) &&
    IsTurn(file, n, w.global, fate, RecordIn(w.tables, n), w.rows[n], s.after.tables[n], s.after.rows[n], s.turn, s.out)
  }

  ghost function After(w: World, steps: seq<Step>): World {
    if steps == [] then w else steps[|steps| - 1].after
  }

  /** The fates of a pass's deltas, by the table's place in the list; a delta not named works. */
  type Fates = map<nat, Fate>

  function FateOf(fates: Fates, i: nat): Fate {
    if i in fates then fates[i] else Works
  }

  /** A turn for each of the first tables, in order. */
  ghost predicate IsPass(file: File, names: seq<Name>, fates: Fates, w: World, steps: seq<Step>) {
    steps == [] ||
    (|steps| <= |names| &&
     var n := |steps| - 1;
     IsPass(file, names, fates, w, steps[..n]) &&
     IsStep(file, names[n], FateOf(fates, n), After(w, steps[..n]), steps[n]))
  }

  function MaxTxn(global: int, turns: seq<Turn>): int {
    if turns == [] then global else
    var m := MaxTxn(global, turns[..|turns| - 1]);
    var last := turns[|turns| - 1];
    if last.Done? && last.stats.maxTxn > m then last.stats.maxTxn else m
  }

  predicate HadDelta(turn: Turn) {
    turn.Done? && (turn.stats.upserts > 0 || turn.stats.deletes > 0)
  }

  predicate AnyDelta(turns: seq<Turn>) {
    turns != [] && (AnyDelta(turns[..|turns| - 1]) || HadDelta(turns[|turns| - 1]))
  }

  /** The global watermark moves only in a pass with some delta. */
  function NextGlobal(global: int, turns: seq<Turn>): int {
    if AnyDelta(turns) then MaxTxn(global, turns) else global
  }

  /**
   Without a delta the global watermark stays; with one it becomes the highest of itself and
   of the transactions of all turns that were done, those without a delta included.
   */
  lemma GlobalIs(global: int, turns: seq<Turn>)
    ensures (forall i :: 0 <= i < |turns| && turns[i].Done? ==>
              turns[i].stats.upserts == 0 && turns[i].stats.deletes == 0) ==> NextGlobal(global, turns) == global
    ensures !(forall i :: 0 <= i < |turns| && turns[i].Done? ==>
              turns[i].stats.upserts == 0 && turns[i].stats.deletes == 0) ==>
              var next := NextGlobal(global, turns);
              next >= global && (forall i :: 0 <= i < |turns| && turns[i].Done? ==> turns[i].stats.maxTxn <= next) &&
              (next == global || exists i :: 0 <= i < |turns| && turns[i].Done? && turns[i].stats.maxTxn == next)
  {
    hide MaxTxn, AnyDelta;
    DeltaIffSome(turns);
    MaxIs(global, turns);
  }

  lemma {:induction false} DeltaIffSome(turns: seq<Turn>)
    ensures AnyDelta(turns) <==> exists i :: 0 <= i < |turns| && HadDelta(turns[i])
  {
    if turns != [] {
      var n := |turns| - 1;
      DeltaIffSome(turns[..n]);
      assert forall i :: 0 <= i < n ==> turns[..n][i] == turns[i];
    }
  }

  lemma {:induction false} MaxIs(global: int, turns: seq<Turn>)
    ensures var m := MaxTxn(global, turns);
            m >= global && (forall i :: 0 <= i < |turns| && turns[i].Done? ==> turns[i].stats.maxTxn <= m) &&
            (m == global || exists i :: 0 <= i < |turns| && turns[i].Done? && turns[i].stats.maxTxn == m)
  {
    if turns != [] {
      var n := |turns| - 1;
      MaxIs(global, turns[..n]);
      assert forall i :: 0 <= i < n ==> turns[..n][i] == turns[i];
      var m := MaxTxn(global, turns[..n]);
      if i :| 0 <= i < n && turns[..n][i].Done? && turns[..n][i].stats.maxTxn == m { assert turns[i].Done?; }
    }
  }

  ghost function TurnsOf(steps: seq<Step>): (turns: seq<Turn>)
    ensures |turns| == |steps|
  {
    if steps == [] then [] else TurnsOf(steps[..|steps| - 1]) + [steps[|steps| - 1].turn]
  }

  // ── Watermarks over passes and runs ──

  /** No table's watermark fell. */
  ghost predicate Risen(m: Records, m': Records) {
    forall n :: n in m ==> n in m' && m'[n].txn >= m[n].txn
  }

  /** A global watermark is backed by some table's own. */
  ghost predicate Backed(m: Records, global: int) {
    global == 0 || exists n :: n in m && global <= m[n].txn
  }

  lemma StillBacked(m: Records, m': Records, global: int)
    requires Risen(m, m')
    ensures Backed(m, global) ==> Backed(m', global)
  {
    if n :| n in m && global <= m[n].txn { assert n in m'; }
  }

  lemma BackedBy(m: Records, n: Name)
    requires n in m
    ensures Backed(m, m[n].txn)
  {
  }

  /** What is held about every watched table is well formed. */
  ghost predicate AllValid(file: File, names: seq<Name>, m: Records) {
    forall n :: n in names ==> n in file.tables && RecordIn(m, n).Valid(file.tables[n])
  }

  lemma StepRises(file: File, names: seq<Name>, n: Name, fate: Fate, w: World, s: Step)
    requires IsStep(file, n, fate, w, s) && n in names && AllValid(file, names, w.tables)
    ensures Risen(w.tables, s.after.tables) && AllValid(file, names, s.after.tables) && s.after.global == w.global
    ensures s.turn.Done? ==> Backed(s.after.tables, s.turn.stats.maxTxn)
  {
    hide IsTurn, Tracked.Valid, Backed;
    TurnRises(file, n, w.global, fate, RecordIn(w.tables, n), w.rows[n], s.after.tables[n], s.after.rows[n], s.turn,
              s.out);
    RecordIsNatural(file, n, RecordIn(w.tables, n));
    if s.turn.Done? { BackedBy(s.after.tables, n); }
  }

  lemma RecordIsNatural(file: File, n: Name, a: Tracked)
    requires n in file.tables && a.Valid(file.tables[n])
    ensures a.txn >= 0
  {
  }

  lemma {:induction false} PassRises(file: File, names: seq<Name>, fates: Fates, w: World, steps: seq<Step>)
    requires IsPass(file, names, fates, w, steps) && AllValid(file, names, w.tables)
    ensures var w' := After(w, steps);
            var m := MaxTxn(w.global, TurnsOf(steps));
            Risen(w.tables, w'.tables) && AllValid(file, names, w'.tables) && w'.global == w.global &&
            m >= w.global && (m == w.global || Backed(w'.tables, m))
  {
    hide IsStep, AllValid, Backed;
    if steps != [] {
      var n := |steps| - 1;
      var init, s := steps[..n], steps[n];
      PassRises(file, names, fates, w, init);
      StepRises(file, names, names[n], FateOf(fates, n), After(w, init), s);
      assert TurnsOf(steps)[..n] == TurnsOf(init);
      StillBacked(After(w, init).tables, s.after.tables, MaxTxn(w.global, TurnsOf(init)));
    }
  }

  /** No turn of the table was done. */
  ghost predicate Undone(names: seq<Name>, steps: seq<Step>, n: Name)
    requires |steps| <= |names|
  {
    steps == [] ||
    (Undone(names, steps[..|steps| - 1], n) && (names[|steps| - 1] == n ==> !steps[|steps| - 1].turn.Done?))
  }

  /** No commit for the table took effect unanswered. */
  ghost predicate Answered(names: seq<Name>, fates: Fates, k: nat, n: Name)
    requires k <= |names|
  {
    forall i :: 0 <= i < k && names[i] == n ==> !FateOf(fates, i).Unanswered?
  }

  ghost predicate RecordKept(w: World, w': World, n: Name) {
    RecordIn(w'.tables, n).txn == RecordIn(w.tables, n).txn &&
    RecordIn(w'.tables, n).gens == RecordIn(w.tables, n).gens
  }

  ghost predicate RowsKept(w: World, w': World, n: Name) {
    (n in w.rows <==> n in w'.rows) && (n in w.rows ==> w'.rows[n] == w.rows[n])
  }

  lemma StepKeeps(file: File, name: Name, fate: Fate, w: World, s: Step, n: Name)
    requires IsStep(file, name, fate, w, s) && (name == n ==> !s.turn.Done?)
    ensures RecordKept(w, s.after, n)
    ensures (name == n ==> !fate.Unanswered?) ==> RowsKept(w, s.after, n)
  {
    hide IsTurn;
    if name == n {
      UndoneTurnKeeps(file, n, w.global, fate, RecordIn(w.tables, n), w.rows[n], s.after.tables[n], s.after.rows[n],
                      s.turn, s.out);
    }
  }

  /**
   A table none of whose turns was done keeps its watermark and its generations, and its
   rows too unless a commit of its own took effect unanswered.
   */
  lemma {:induction false} UndoneKeeps(file: File, names: seq<Name>, fates: Fates, w: World, steps: seq<Step>,
      n: Name)
    requires |steps| <= |names| && IsPass(file, names, fates, w, steps) && Undone(names, steps, n)
    ensures RecordKept(w, After(w, steps), n)
    ensures Answered(names, fates, |steps|, n) ==> RowsKept(w, After(w, steps), n)
  {
    hide IsStep;
    if steps != [] {
      var k := |steps| - 1;
      UndoneKeeps(file, names, fates, w, steps[..k], n);
      StepKeeps(file, names[k], FateOf(fates, k), After(w, steps[..k]), steps[k], n);
    }
  }

  function Uncached(m: Records): Records {
    map n | n in m :: m[n].(cache := None)
  }

  /** The state a pass starts from: a changed file size drops every cache, and its snapshot with it. */
  function Mapped(w: World, remapped: bool): World {
    if remapped then w.(tables := Uncached(w.tables)) else w
  }

  /**
   A changed file size costs a table its cached snapshot and nothing else: one that was not
   yet handed over to a cache is still there to be.
   */
  lemma RemapForgets(w: World, remapped: bool, n: Name, pkByteLen: nat)
    requires n in w.tables
    ensures var v := Mapped(w, remapped);
            v.global == w.global && v.rows == w.rows && v.tables.Keys == w.tables.Keys &&
            var a, b := w.tables[n], v.tables[n];
            b.txn == a.txn && b.keyed == a.keyed && b.gens == a.gens &&
            (!remapped || a.cache.None? ==> b == a) &&
            (remapped && a.cache.Some? && a.pending == None ==> b.cache == None && b.Prev(pkByteLen) == map[])
  {
  }

  /** One turn of the watch loop, with or without a pass over the tables. */
  ghost predicate IsRound(file: File, names: seq<Name>, fates: Fates, remapped: bool, w: World, w': World,
      steps: seq<Step>) {
    (steps == [] || |steps| == |names|) && IsPass(file, names, fates, Mapped(w, remapped), steps) &&
    w' == After(Mapped(w, remapped), steps).(global := NextGlobal(w.global, TurnsOf(steps)))
  }

  lemma UncachedKeeps(file: File, names: seq<Name>, w: World, remapped: bool)
    requires AllValid(file, names, w.tables)
    ensures Risen(w.tables, Mapped(w, remapped).tables) && AllValid(file, names, Mapped(w, remapped).tables)
  {
    hide Schema.Valid, KeysOnly, Cache.Valid;
  }

  /** Over one cycle, whatever fails: no watermark falls, and the global one stays backed by a table's. */
  lemma RoundRises(file: File, names: seq<Name>, fates: Fates, remapped: bool, w: World, w': World,
      steps: seq<Step>)
    requires IsRound(file, names, fates, remapped, w, w', steps) && AllValid(file, names, w.tables) && w.global >= 0
    ensures w'.global >= w.global && Risen(w.tables, w'.tables) && AllValid(file, names, w'.tables)
    ensures Backed(w.tables, w.global) ==> Backed(w'.tables, w'.global)
  {
    hide IsPass, AllValid, Backed, MaxTxn, AnyDelta;
    var v := Mapped(w, remapped);
    UncachedKeeps(file, names, w, remapped);
    PassRises(file, names, fates, v, steps);
    StillBacked(w.tables, w'.tables, w.global);
  }

  /**
   One table's delta raises the watermark of all: after the cycle every table, one whose own
   delta failed included, is scanned from at least that delta's highest transaction.
   */
  lemma OneDeltaRaisesAll(file: File, names: seq<Name>, fates: Fates, remapped: bool, w: World, w': World,
      steps: seq<Step>, i: nat, n: Name)
    requires IsRound(file, names, fates, remapped, w, w', steps)
    requires i < |steps| && HadDelta(TurnsOf(steps)[i])
    ensures Max(RecordIn(w'.tables, n).txn, w'.global) >= TurnsOf(steps)[i].stats.maxTxn
  {
    hide IsPass, RecordIn, TurnsOf, After;
    MaxIs(w.global, TurnsOf(steps));
    DeltaIffSome(TurnsOf(steps));
  }

  // ── What is saved ──

  /** The state file, and the snapshots beside it. */
  datatype Saved = Saved(lastTxn: int, tables: Records)

  /** What is written of a table: no cache, but the cached snapshot if it is of use. */
  function SavedTable(a: Tracked): Tracked {
    Tracked(a.txn, a.keyed, a.gens, None,
            if a.cache.Some? && a.cache.value.schema.pkByteLen > 0 &&
              a.cache.value.prev != map[] then Some(a.cache.value.prev) else None)
  }

  /** The state file is written first; if then the snapshot file cannot be, the old one stays. */
  function SavedOver(w: World, old': Saved, snapshots: bool): Saved {
    Saved(w.global, map n | n in w.tables ::
      if snapshots then SavedTable(w.tables[n])
      else SavedTable(w.tables[n]).(pending := RecordIn(old'.tables, n).pending))
  }

  /** A turn leaves something to save when it scanned a changed page or saw a newer transaction. */
  predicate Stirred(turn: Turn, wm: int) {
    turn.Done? && (turn.stats.pagesScanned > 0 || turn.stats.maxTxn > wm)
  }

  ghost predicate AnyStirred(names: seq<Name>, w: World, steps: seq<Step>)
    requires |steps| <= |names|
  {
    steps != [] &&
    var n := |steps| - 1;
    AnyStirred(names, w, steps[..n]) ||
    Stirred(steps[n].turn, Max(RecordIn(After(w, steps[..n]).tables, names[n]).txn, w.global))
  }

  ghost predicate IsDirty(names: seq<Name>, w: World, steps: seq<Step>)
    requires |steps| <= |names|
  {
    AnyDelta(TurnsOf(steps)) || AnyStirred(names, w, steps)
  }

  /** The record differs in a page's generation, or its watermark is above both it started from. */
  predicate IsNewer(a: Tracked, global: int, a': Tracked) {
    (exists p :: p in a'.gens && (p in a.gens ==> a'.gens[p] != a.gens[p])) || a'.txn > Max(a.txn, global)
  }

  /**
   A turn that is done leaves something to save if and only if some page has a generation
   that was not recorded, or the watermark rose above the table's own and the global one.
   Forgetting a page alone does not count.
   */
  lemma StirredIffNewer(file: File, n: Name, global: nat, fate: Fate, a: Tracked, t: Table, a': Tracked, t': Table,
      turn: Turn, out: ScanOutput)
    requires n in file.tables && a.Valid(file.tables[n]) && IsTurn(file, n, global, fate, a, t, a', t', turn, out)
    ensures Stirred(turn, Max(a.txn, global)) <==> turn.Done? && IsNewer(a, global, a')
  {
    hide IsSync, Cache.Valid, Schema.Valid, KeysOnly, NewCache;
    if turn.Done? {
      var f, wm := file.tables[n], Max(a.txn, global);
      var s, s' := Slice(a.gens, a.cache, t), Slice(a'.gens, a'.cache, t');
      FirstCacheValid(f, a.Snap());
      ScannedIffMoved(f, wm, a.Snap(), fate, s, s', out, turn.stats);
    }
  }

  /** Some turn of the pass was done and left a newer record. */
  ghost predicate SomeNewer(names: seq<Name>, w: World, steps: seq<Step>)
    requires |steps| <= |names|
  {
    steps != [] &&
    var n := |steps| - 1;
    SomeNewer(names, w, steps[..n]) ||
    (steps[n].turn.Done? &&
     IsNewer(RecordIn(After(w, steps[..n]).tables, names[n]), w.global, RecordIn(steps[n].after.tables, names[n])))
  }

  /** A pass is worth saving if and only if it had a delta or left a newer record. */
  lemma {:induction false} DirtyIffNewer(file: File, names: seq<Name>, fates: Fates, w: World, steps: seq<Step>)
    requires |steps| <= |names| && IsPass(file, names, fates, w, steps) && AllValid(file, names, w.tables)
    ensures AnyStirred(names, w, steps) <==> SomeNewer(names, w, steps)
    ensures IsDirty(names, w, steps) <==> AnyDelta(TurnsOf(steps)) || SomeNewer(names, w, steps)
  {
    hide IsTurn, Tracked.Valid, Stirred, IsNewer, AnyDelta, TurnsOf, Max;
    if steps != [] {
      var n := |steps| - 1;
      var init, s, v := steps[..n], steps[n], After(w, steps[..n]);
      DirtyIffNewer(file, names, fates, w, init);
      PassRises(file, names, fates, w, init);
      RecordIsNatural(file, names[n], RecordIn(v.tables, names[n]));
      StirredIffNewer(file, names[n], w.global, FateOf(fates, n), RecordIn(v.tables, names[n]), v.rows[names[n]],
                      s.after.tables[names[n]], s.after.rows[names[n]], s.turn, s.out);
    }
  }

  // ── Runs of the loop ──

  /** The running program and what it has on disk. */
  datatype Memory = Memory(w: World, saved: Saved)

  /** A snapshot file that cannot be read, or is not there, loads as no snapshots. */
  function LoadedTable(a: Tracked, found: bool): Tracked {
    if found then a else a.(pending := None)
  }

  /** A start: watermarks, generations and snapshots come from disk, the replica is as it was left. */
  function Started(saved: Saved, rows: Replicas, found: bool): World {
    World(saved.lastTxn, map n | n in saved.tables :: LoadedTable(saved.tables[n], found), rows)
  }

  /**
   A start after a save: every table has its watermark, its generations, and the snapshot
   that was cached. When only the state file could be written, the snapshot is the one of the
   save before; when the snapshot file cannot be read, there is none.
   */
  lemma SaveRestores(w: World, old': Saved, rows: Replicas, snapshots: bool, found: bool, n: Name, pkByteLen: nat)
    requires n in w.tables
    ensures var a, before := w.tables[n], RecordIn(old'.tables, n);
            var saved := SavedOver(w, old', snapshots);
            var start := Started(saved, rows, found);
            start.global == w.global && start.rows == rows && start.tables.Keys == w.tables.Keys &&
            var b := start.tables[n];
            b.txn == a.txn && b.keyed == a.keyed && b.gens == a.gens && b.cache == None &&
            (!found ==> b.Prev(pkByteLen) == map[]) &&
            (found && snapshots && a.cache.Some? && a.cache.value.schema.pkByteLen == pkByteLen > 0 ==>
              b.Prev(pkByteLen) == a.Prev(pkByteLen)) &&
            (found && snapshots && a.cache.None? ==> b.Prev(pkByteLen) == map[]) &&
            (found && !snapshots && before.cache.None? ==> b.Prev(pkByteLen) == before.Prev(pkByteLen))
  {
  }

  /**
   What happens to the program: a round of the loop, a crash anywhere in a round, or a stop.
   After a crash or a stop it is started again. `snapshots` tells whether the snapshot file
   could be written when the state file was, `found` whether it could be read at the start.
   */
  datatype Event =
    | Rounded(file: File, fates: Fates, remapped: bool, steps: seq<Step>, snapshots: bool)
    | Crashed(file: File, fates: Fates, remapped: bool, steps: seq<Step>, found: bool)
    | Stopped(snapshots: bool, found: bool)

  /** The round may be cut short by a crash only. */
  ghost predicate IsEvent(names: seq<Name>, m: Memory, e: Event) {
    match e
    case Rounded(file, fates, remapped, steps, _) =>
      AllValid(file, names, m.w.tables) && (steps == [] || |steps| == |names|) &&
      IsPass(file, names, fates, Mapped(m.w, remapped), steps)
    case Crashed(file, fates, remapped, steps, _) =>
      AllValid(file, names, m.w.tables) && |steps| <= |names| &&
      IsPass(file, names, fates, Mapped(m.w, remapped), steps)
    case Stopped(_, _) => true
  }

  ghost function Next(names: seq<Name>, m: Memory, e: Event): Memory
    requires IsEvent(names, m, e)
  {
    match e
    case Rounded(_, _, remapped, steps, snapshots) =>
      var start := Mapped(m.w, remapped);
      var w := After(start, steps).(global := NextGlobal(m.w.global, TurnsOf(steps)));
      Memory(w, if IsDirty(names, start, steps) then SavedOver(w, m.saved, snapshots) else m.saved)
    case Crashed(_, _, remapped, steps, found) =>
      Memory(Started(m.saved, After(Mapped(m.w, remapped), steps).rows, found), m.saved)
    case Stopped(snapshots, found) =>
      var saved := SavedOver(m.w, m.saved, snapshots);
      Memory(Started(saved, m.w.rows, found), saved)
  }

  /** A run: every event on any file, with any fates, crashes and failed saves. */
  ghost predicate IsRun(names: seq<Name>, m: Memory, events: seq<Event>)
    decreases |events|, 0
  {
    events == [] ||
    var k := |events| - 1;
    IsRun(names, m, events[..k]) && IsEvent(names, MemoryAfter(names, m, events[..k]), events[k])
  }

  ghost function MemoryAfter(names: seq<Name>, m: Memory, events: seq<Event>): Memory
    requires IsRun(names, m, events)
    decreases |events|, 1
  {
    if events == [] then m else
    var k := |events| - 1;
    Next(names, MemoryAfter(names, m, events[..k]), events[k])
  }

  /** No watermark in memory is below the one on disk, and the global ones are backed by tables' own. */
  ghost predicate Ahead(m: Memory) {
    0 <= m.saved.lastTxn <= m.w.global && Risen(m.saved.tables, m.w.tables) &&
    Backed(m.saved.tables, m.saved.lastTxn) && Backed(m.w.tables, m.w.global)
  }

  /** No watermark on disk fell. */
  ghost predicate SavedRisen(m: Memory, m': Memory) {
    m.saved.lastTxn <= m'.saved.lastTxn && Risen(m.saved.tables, m'.saved.tables)
  }

  lemma SavingKeeps(m: Memory, snapshots: bool)
    requires Ahead(m)
    ensures var saved := SavedOver(m.w, m.saved, snapshots);
            Risen(m.w.tables, saved.tables) && Risen(saved.tables, m.w.tables) && Risen(m.saved.tables, saved.tables) &&
            Backed(saved.tables, saved.lastTxn)
  {
    var saved := SavedOver(m.w, m.saved, snapshots);
    assert Risen(m.w.tables, saved.tables);
    StillBacked(m.w.tables, saved.tables, m.w.global);
  }

  lemma RisenTwice(m: Records, m': Records, m'': Records)
    requires Risen(m, m') && Risen(m', m'')
    ensures Risen(m, m'')
  {
  }

  lemma EventRises(names: seq<Name>, m: Memory, e: Event)
    requires Ahead(m) && IsEvent(names, m, e)
    ensures Ahead(Next(names, m, e)) && SavedRisen(m, Next(names, m, e))
    ensures e.Rounded? ==> Next(names, m, e).w.global >= m.w.global && Risen(m.w.tables, Next(names, m, e).w.tables)
  {
    hide IsPass, AllValid, Backed, Risen, SavedOver, IsDirty, NextGlobal, After, Mapped, Started;
    SelfRisen(m.saved.tables);
    match e
    case Rounded(file, fates, remapped, steps, snapshots) =>
      var w := Next(names, m, e).w;
      RoundRises(file, names, fates, remapped, m.w, w, steps);
      RisenTwice(m.saved.tables, m.w.tables, w.tables);
      SavingKeeps(Memory(w, m.saved), snapshots);
      assert SavedOver(w, m.saved, snapshots).lastTxn == w.global by { SavesGlobal(w, m.saved, snapshots); }
    case Crashed(_, _, remapped, steps, found) =>
      StartKeeps(m.saved, After(Mapped(m.w, remapped), steps).rows, found);
    case Stopped(snapshots, found) =>
      SavingKeeps(m, snapshots);
      SavesGlobal(m.w, m.saved, snapshots);
      StartKeeps(SavedOver(m.w, m.saved, snapshots), m.w.rows, found);
  }

  lemma StartKeeps(saved: Saved, rows: Replicas, found: bool)
    ensures var w := Started(saved, rows, found);
            w.global == saved.lastTxn && Risen(saved.tables, w.tables) &&
            (Backed(saved.tables, saved.lastTxn) ==> Backed(w.tables, w.global))
  {
    var w := Started(saved, rows, found);
    assert Risen(saved.tables, w.tables);
    StillBacked(saved.tables, w.tables, saved.lastTxn);
  }

  lemma SavesGlobal(w: World, old': Saved, snapshots: bool)
    ensures SavedOver(w, old', snapshots).lastTxn == w.global
  {
  }

  lemma SelfRisen(m: Records)
    ensures Risen(m, m)
  {
  }

  /**
   Watermarks over every run. On disk none ever falls; in memory none is ever below one
   saved earlier, however often the program crashes, and none falls while it runs; a global
   one never passes the largest of the tables'.
   */
  lemma {:induction false} RunRises(names: seq<Name>, m: Memory, events: seq<Event>, i: nat)
    requires IsRun(names, m, events) && Ahead(m) && i <= |events|
    ensures IsRun(names, m, events[..i])
    ensures var before, after := MemoryAfter(names, m, events[..i]), MemoryAfter(names, m, events);
            Ahead(before) && Ahead(after) && SavedRisen(before, after) &&
            before.saved.lastTxn <= after.w.global && Risen(before.saved.tables, after.w.tables) &&
            ((forall k :: i <= k < |events| ==> events[k].Rounded?) ==>
              before.w.global <= after.w.global && Risen(before.w.tables, after.w.tables))
    decreases |events|
  {
    hide IsEvent, Next, Ahead, Risen;
    if i == |events| {
      assert events[..i] == events;
      RunIsAhead(names, m, events);
      SelfRisen(MemoryAfter(names, m, events).saved.tables);
      SelfRisen(MemoryAfter(names, m, events).w.tables);
      AheadIs(MemoryAfter(names, m, events));
    } else {
      var k := |events| - 1;
      RunRises(names, m, events[..k], i);
      assert events[..k][..i] == events[..i];
      var before, last := MemoryAfter(names, m, events[..i]), MemoryAfter(names, m, events[..k]);
      var after := MemoryAfter(names, m, events);
      EventRises(names, last, events[k]);
      RisenTwice(before.saved.tables, last.saved.tables, after.saved.tables);
      AheadIs(after);
      RisenTwice(before.saved.tables, after.saved.tables, after.w.tables);
      if forall j :: i <= j < |events| ==> events[j].Rounded? {
        assert forall j :: i <= j < k ==> events[..k][j].Rounded?;
        RisenTwice(before.w.tables, last.w.tables, after.w.tables);
      }
    }
  }

  lemma AheadIs(m: Memory)
    requires Ahead(m)
    ensures m.saved.lastTxn <= m.w.global && Risen(m.saved.tables, m.w.tables)
  {
  }

  lemma {:induction false} RunIsAhead(names: seq<Name>, m: Memory, events: seq<Event>)
    requires IsRun(names, m, events) && Ahead(m)
    ensures Ahead(MemoryAfter(names, m, events))
    decreases |events|
  {
    hide IsEvent, Next, Ahead;
    if events != [] {
      var k := |events| - 1;
      RunIsAhead(names, m, events[..k]);
      EventRises(names, MemoryAfter(names, m, events[..k]), events[k]);
    }
  }

  // ── The watcher ──

  class Watcher {
    const sink: Database
    var lastTxn: int
    var tables: Records
    var fileSize: nat
    var lastHdrGen: Option<int>
    var saved: Saved

    /** A start or a restart: state and snapshots come from disk, no table is cached. */
    constructor (sink: Database, saved: Saved, fileSize: nat, found: bool)
      ensures this.sink == sink && this.saved == saved && this.fileSize == fileSize && lastHdrGen == None
      ensures State() == Started(saved, sink.tables, found)
    {
      this.sink, this.saved, this.fileSize, lastHdrGen := sink, saved, fileSize, None;
      lastTxn := saved.lastTxn;
      tables := map n | n in saved.tables :: LoadedTable(saved.tables[n], found);
    }

    ghost function State(): World
      reads this, sink
    {
      World(lastTxn, tables, sink.tables)
    }

    ghost function Held(): Memory
      reads this, sink
    {
      Memory(State(), saved)
    }

    /** Every table watched is in the file and the replica, and what is held about it is well formed. */
    ghost predicate Valid(file: File, names: seq<Name>)
      reads this, sink
    {
      lastTxn >= 0 && AllValid(file, names, tables) && forall n :: n in names ==> n in sink.tables
    }

    /** A table's turn, stored under its name. */
    method TakeTurn(file: File, names: seq<Name>, name: Name, fate: Fate) returns (turn: Turn, ghost s: Step)
      requires Valid(file, names) && name in names
      modifies this`tables, sink
      ensures Valid(file, names) && turn == s.turn && State() == s.after
      ensures IsStep(file, name, fate, old(State()), s)
    {
      hide Tracked.Valid, IsTurn;
      var a := RecordIn(tables, name);
      RecordIsNatural(file, name, a);
      ghost var w := State();
      var a';
      ghost var out;
      a', turn, out := RunTable(file, sink, name, a, lastTxn, fate);
      tables := tables[name := a'];
      s := Step(turn, out, State());
      StepRises(file, names, name, fate, w, s);
    }

    /**
     One round of the loop. If the header's generation moved every table has its turn; the
     global watermark follows when some delta was not empty; the state is saved if anything
     moved.
     */
    method Cycle(file: File, names: seq<Name>, fates: Fates, snapshots: bool)
      returns (turns: seq<Turn>, ghost steps: seq<Step>)
      requires Valid(file, names)
      modifies this, sink
      ensures Valid(file, names) && turns == TurnsOf(steps) && lastHdrGen == Some(file.headerGen) &&
              fileSize == file.size
      ensures IsRound(file, names, fates, old(fileSize) != file.size, old(State()), State(), steps)
      ensures steps != [] ==> old(lastHdrGen) != Some(file.headerGen)
      ensures old(lastHdrGen) != Some(file.headerGen) ==> |steps| == |names|
      ensures var e := Rounded(file, fates, old(fileSize) != file.size, steps, snapshots);
              IsEvent(names, old(Held()), e) && Held() == Next(names, old(Held()), e)
    {
      hide Tracked.Valid, IsTurn, IsStep, AllValid, MaxTxn, IsPass, AnyDelta, AnyStirred, SavedTable, After, TurnsOf,
           Uncached, Next, IsEvent, SavedOver, Stirred;
      turns, steps := [], [];
      ghost var m, remapped := Held(), fileSize != file.size;
      ghost var w := Mapped(State(), remapped);
      UncachedKeeps(file, names, State(), fileSize != file.size);
      if file.size != fileSize {
        fileSize := file.size;
        tables := Uncached(tables);
      }
      var changed := lastHdrGen != Some(file.headerGen);
      lastHdrGen := Some(file.headerGen);
      NoPass(file, names, fates, w);
      if !changed {
        RoundIsNext(names, m, Held(), file, fates, remapped, steps, snapshots);
        return;
      }
      var upserts, deletes, newMax, dirty;
      turns, newMax, upserts, deletes, dirty, steps := Pass(file, names, fates);
      if upserts > 0 || deletes > 0 {
        lastTxn := newMax;
        dirty := true;
      }
      if dirty { Save(snapshots); }
      PassRises(file, names, fates, w, steps);
      RoundIsNext(names, m, Held(), file, fates, remapped, steps, snapshots);
    }

    /** At a stop and after a dirty pass: the state file, then the snapshot file, whose failure only warns. */
    method Save(snapshots: bool)
      modifies this`saved
      ensures saved == SavedOver(State(), old(saved), snapshots)
    {
      var records := map n | n in tables :: SavedTable(tables[n]);
      if !snapshots {
        records := map n | n in tables :: records[n].(pending := RecordIn(saved.tables, n).pending);
      }
      saved := Saved(lastTxn, records);
    }

    /** Every table's turn, and the totals over them. */
    method Pass(file: File, names: seq<Name>, fates: Fates)
      returns (turns: seq<Turn>, newMax: int, upserts: nat, deletes: nat, dirty: bool, ghost steps: seq<Step>)
      requires Valid(file, names)
      modifies this`tables, sink
      ensures Valid(file, names) && turns == TurnsOf(steps) && |steps| == |names|
      ensures IsPass(file, names, fates, old(State()), steps) && State() == After(old(State()), steps)
      ensures newMax == MaxTxn(lastTxn, turns) && (upserts > 0 || deletes > 0 <==> AnyDelta(turns))
      ensures dirty <==> AnyStirred(names, old(State()), steps)
    {
      hide Tracked.Valid, IsTurn, IsStep, AllValid, IsPass, After, AnyStirred, TurnsOf, MaxTxn, AnyDelta;
      turns, newMax, upserts, deletes, dirty, steps := [], lastTxn, 0, 0, false, [];
      ghost var w := State();
      NoPass(file, names, fates, w);
      NoTurns(lastTxn);
      for i := 0 to |names|
        invariant Valid(file, names) && |steps| == i && turns == TurnsOf(steps)
        invariant IsPass(file, names, fates, w, steps) && State() == After(w, steps)
        invariant newMax == MaxTxn(lastTxn, turns) && (upserts > 0 || deletes > 0 <==> AnyDelta(turns))
        invariant dirty <==> AnyStirred(names, w, steps)
      {
        var wm := Max(RecordIn(tables, names[i]).txn, lastTxn);
        var turn;
        ghost var s;
        turn, s := TakeTurn(file, names, names[i], FateOf(fates, i));
        PassGrows(file, names, fates, w, steps, s);
        TurnsGrow(lastTxn, turns, turn);
        steps := steps + [s];
        turns := turns + [turn];
        if turn.Done? {
          if turn.stats.pagesScanned > 0 || turn.stats.maxTxn > wm { dirty := true; }
          upserts, deletes := upserts + turn.stats.upserts, deletes + turn.stats.deletes;
          if turn.stats.maxTxn > newMax { newMax := turn.stats.maxTxn; }
        }
      }
    }
  }

  lemma RoundIsNext(names: seq<Name>, m: Memory, m': Memory, file: File, fates: Fates, remapped: bool,
      steps: seq<Step>, snapshots: bool)
    requires AllValid(file, names, m.w.tables) && IsRound(file, names, fates, remapped, m.w, m'.w, steps)
    requires var dirty := AnyDelta(TurnsOf(steps)) || AnyStirred(names, Mapped(m.w, remapped), steps);
             m'.saved == if dirty then SavedOver(m'.w, m.saved, snapshots) else m.saved
    ensures var e := Rounded(file, fates, remapped, steps, snapshots);
            IsEvent(names, m, e) && m' == Next(names, m, e)
  {
    hide AllValid, IsPass, After, AnyDelta, AnyStirred, SavedOver, TurnsOf, Mapped, NextGlobal;
  }

  lemma NoPass(file: File, names: seq<Name>, fates: Fates, w: World)
    ensures IsPass(file, names, fates, w, []) && After(w, []) == w && TurnsOf([]) == []
    ensures !AnyDelta([]) && !AnyStirred(names, w, [])
  {
  }

  lemma NoTurns(global: int)
    ensures MaxTxn(global, []) == global
  {
  }

  lemma PassGrows(file: File, names: seq<Name>, fates: Fates, w: World, steps: seq<Step>, s: Step)
    requires |steps| < |names| && IsPass(file, names, fates, w, steps)
    requires IsStep(file, names[|steps|], FateOf(fates, |steps|), After(w, steps), s)
    ensures IsPass(file, names, fates, w, steps + [s]) && After(w, steps + [s]) == s.after
    ensures TurnsOf(steps + [s]) == TurnsOf(steps) + [s.turn]
    ensures AnyStirred(names, w, steps + [s]) <==>
            AnyStirred(names, w, steps) ||
              Stirred(s.turn, Max(RecordIn(After(w, steps).tables, names[|steps|]).txn, w.global))
  {
    hide IsStep, Stirred, RecordIn, Max;
    assert (steps + [s])[..|steps|] == steps;
  }

  lemma TurnsGrow(global: int, turns: seq<Turn>, turn: Turn)
    ensures MaxTxn(global, turns + [turn]) ==
            if turn.Done? && turn.stats.maxTxn > MaxTxn(global, turns) then turn.stats.maxTxn else MaxTxn(global, turns)
    ensures AnyDelta(turns + [turn]) <==> AnyDelta(turns) || HadDelta(turn)
  {
    assert (turns + [turn])[..|turns|] == turns;
  }
}
