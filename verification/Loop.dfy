/** Runs of the watch loop, seen by one of its tables, and their convergence. */
module Loop {
  import opened Changes
  import opened Replica
  import opened Watch
  import opened Live
  import opened OneCycle
  import opened Runs

  // ── The loop, seen by one table ──

  /** The table's share of the program's memory, disk and replica. */
  ghost predicate Projects(m: Memory, n: Name, s: Between) {
    s.a == RecordIn(m.w.tables, n) && s.saved == RecordIn(m.saved.tables, n) &&
    (n in m.w.rows ==> s.t == m.w.rows[n])
  }

  lemma EventAppends(n: Name, s: Between, events: seq<TableEvent>, e: TableEvent)
    requires IsTableRun(n, s, events) && IsMove(n, BetweenAfter(n, s, events), e)
    ensures IsTableRun(n, s, events + [e])
    ensures (e.Turned? ==> n in e.file.tables) &&
            BetweenAfter(n, s, events + [e]) == Following(n, BetweenAfter(n, s, events), e)
  {
    hide Following;
    assert (events + [e])[..|events|] == events;
  }

  /** The turns of the table in a pass. */
  ghost function PassEvents(file: File, names: seq<Name>, fates: Fates, w: World, steps: seq<Step>, n: Name)
    : seq<TableEvent>
    requires IsPass(file, names, fates, w, steps)
    decreases |steps|
  {
    if steps == [] then [] else
    var k := |steps| - 1;
    var st, global := steps[k], After(w, steps[..k]).global;
    PassEvents(file, names, fates, w, steps[..k], n) +
    if names[k] == n then
      [Turned(file, global, FateOf(fates, k), st.turn, st.out, st.after.tables[n], st.after.rows[n])]
    else []
  }

  function WhenRemapped(remapped: bool): seq<TableEvent> {
    if remapped then [Remapped] else []
  }

  /** What an event of the loop is for the table. */
  ghost function OwnEvents(names: seq<Name>, m: Memory, e: Event, n: Name): seq<TableEvent>
    requires IsEvent(names, m, e)
  {
    match e
    case Rounded(file, fates, remapped, steps, snapshots) =>
      var start := Mapped(m.w, remapped);
      WhenRemapped(remapped) + PassEvents(file, names, fates, start, steps, n) +
      if IsDirty(names, start, steps) then [Stored(snapshots)] else []
    case Crashed(file, fates, remapped, steps, found) =>
      WhenRemapped(remapped) + PassEvents(file, names, fates, Mapped(m.w, remapped), steps, n) + [Restarted(found)]
    case Stopped(snapshots, found) => [Stored(snapshots)] + [Restarted(found)]
  }

  /** What a run of the loop is for the table. */
  ghost function OwnRun(names: seq<Name>, m: Memory, events: seq<Event>, n: Name): seq<TableEvent>
    requires IsRun(names, m, events)
    decreases |events|
  {
    if events == [] then [] else
    var k := |events| - 1;
    OwnRun(names, m, events[..k], n) + OwnEvents(names, MemoryAfter(names, m, events[..k]), events[k], n)
  }

  /** The events run on from `before`, and end at the table's share of `m`. */
  ghost predicate LeadsTo(n: Name, s: Between, events: seq<TableEvent>, m: Memory) {
    IsTableRun(n, s, events) && Projects(m, n, BetweenAfter(n, s, events))
  }

  lemma {:induction false} PassProjects(file: File, names: seq<Name>, fates: Fates, m: Memory, steps: seq<Step>,
      n: Name, s: Between, before: seq<TableEvent>)
    requires IsPass(file, names, fates, m.w, steps) && LeadsTo(n, s, before, m)
    ensures LeadsTo(n, s, before + PassEvents(file, names, fates, m.w, steps, n), m.(w := After(m.w, steps)))
    decreases |steps|
  {
    hide IsTurn, IsTableRun, BetweenAfter, ListedPages, PagesOf;
    if steps == [] {
      assert before + [] == before;
    } else {
      var k := |steps| - 1;
      var st, earlier := steps[k], before + PassEvents(file, names, fates, m.w, steps[..k], n);
      PassProjects(file, names, fates, m, steps[..k], n, s, before);
      if names[k] == n {
        var e := Turned(file, After(m.w, steps[..k]).global, FateOf(fates, k), st.turn, st.out, st.after.tables[n],
                        st.after.rows[n]);
        EventAppends(n, s, earlier, e);
        assert before + PassEvents(file, names, fates, m.w, steps, n) == earlier + [e];
      } else {
        assert before + PassEvents(file, names, fates, m.w, steps, n) == earlier;
      }
    }
  }

  lemma MapProjects(m: Memory, remapped: bool, n: Name, s: Between, before: seq<TableEvent>)
    requires LeadsTo(n, s, before, m)
    ensures LeadsTo(n, s, before + WhenRemapped(remapped), m.(w := Mapped(m.w, remapped)))
  {
    hide IsTableRun, BetweenAfter;
    if remapped { EventAppends(n, s, before, Remapped); } else { assert before + [] == before; }
  }

  lemma StoreProjects(m: Memory, snapshots: bool, n: Name, s: Between, before: seq<TableEvent>)
    requires LeadsTo(n, s, before, m) && Risen(m.saved.tables, m.w.tables)
    ensures LeadsTo(n, s, before + [Stored(snapshots)], m.(saved := SavedOver(m.w, m.saved, snapshots)))
  {
    hide IsTableRun, BetweenAfter;
    EventAppends(n, s, before, Stored(snapshots));
  }

  lemma StartProjects(m: Memory, found: bool, n: Name, s: Between, before: seq<TableEvent>)
    requires LeadsTo(n, s, before, m)
    ensures LeadsTo(n, s, before + [Restarted(found)], m.(w := Started(m.saved, m.w.rows, found)))
  {
    hide IsTableRun, BetweenAfter;
    EventAppends(n, s, before, Restarted(found));
  }

  lemma EventProjects(names: seq<Name>, m: Memory, e: Event, n: Name, s: Between, before: seq<TableEvent>)
    requires Ahead(m) && IsEvent(names, m, e) && LeadsTo(n, s, before, m)
    ensures LeadsTo(n, s, before + OwnEvents(names, m, e, n), Next(names, m, e))
  {
    hide LeadsTo, IsPass, AllValid, Backed, Risen, SavedOver, NextGlobal, IsDirty, After, Mapped, Started, PassEvents,
         WhenRemapped;
    AheadIs(m);
    match e
    case Rounded(file, fates, remapped, steps, snapshots) =>
      var start, map' := m.(w := Mapped(m.w, remapped)), WhenRemapped(remapped);
      var turns := PassEvents(file, names, fates, start.w, steps, n);
      MapProjects(m, remapped, n, s, before);
      PassProjects(file, names, fates, start, steps, n, s, before + map');
      var done := Next(names, m, e).(saved := m.saved);
      GlobalIsNoShare(m.(w := After(start.w, steps)), done, n, s, before + map' + turns);
      if IsDirty(names, start.w, steps) {
        RoundRises(file, names, fates, remapped, m.w, done.w, steps);
        RisenTwice(m.saved.tables, m.w.tables, done.w.tables);
        StoreProjects(done, snapshots, n, s, before + map' + turns);
        assert before + OwnEvents(names, m, e, n) == before + map' + turns + [Stored(snapshots)];
      } else {
        assert before + OwnEvents(names, m, e, n) == before + map' + turns;
      }
    case Crashed(file, fates, remapped, steps, found) =>
      var start, map' := m.(w := Mapped(m.w, remapped)), WhenRemapped(remapped);
      var turns := PassEvents(file, names, fates, start.w, steps, n);
      MapProjects(m, remapped, n, s, before);
      PassProjects(file, names, fates, start, steps, n, s, before + map');
      StartProjects(m.(w := After(start.w, steps)), found, n, s, before + map' + turns);
      assert before + OwnEvents(names, m, e, n) == before + map' + turns + [Restarted(found)];
    case Stopped(snapshots, found) =>
      StoreProjects(m, snapshots, n, s, before);
      StartProjects(m.(saved := SavedOver(m.w, m.saved, snapshots)), found, n, s, before + [Stored(snapshots)]);
      assert before + OwnEvents(names, m, e, n) == before + [Stored(snapshots)] + [Restarted(found)];
  }

  lemma GlobalIsNoShare(m: Memory, m': Memory, n: Name, s: Between, events: seq<TableEvent>)
    requires LeadsTo(n, s, events, m) && m'.saved == m.saved && m'.w.tables == m.w.tables && m'.w.rows == m.w.rows
    ensures LeadsTo(n, s, events, m')
  {
  }

  /** Every run of the watch loop is, for each table, a run of that table. */
  lemma {:induction false} RunProjects(names: seq<Name>, m: Memory, events: seq<Event>, n: Name, s: Between)
    requires IsRun(names, m, events) && Ahead(m) && Projects(m, n, s)
    ensures IsTableRun(n, s, OwnRun(names, m, events, n))
    ensures Projects(MemoryAfter(names, m, events), n, BetweenAfter(n, s, OwnRun(names, m, events, n)))
    decreases |events|
  {
    hide IsTableRun, BetweenAfter, IsEvent, Next, Ahead, Projects, OwnEvents;
    NoEvents(n, s);
    if events != [] {
      var k := |events| - 1;
      RunProjects(names, m, events[..k], n, s);
      RunIsAhead(names, m, events[..k]);
      EventProjects(names, MemoryAfter(names, m, events[..k]), events[k], n, s, OwnRun(names, m, events[..k], n));
    }
  }

  // ── Convergence of the loop ──

  /** The table has this schema in the file of every event. */
  ghost predicate OneSchema(schema: Schema, events: seq<Event>, n: Name) {
    forall i :: 0 <= i < |events| && !events[i].Stopped? && n in events[i].file.tables ==>
      events[i].file.tables[n].schema == schema
  }

  ghost predicate TurnsOn(schema: Schema, n: Name, own: seq<TableEvent>) {
    forall j :: 0 <= j < |own| && own[j].Turned? && n in own[j].file.tables ==>
      own[j].file.tables[n].schema == schema
  }

  lemma {:induction false} PassIsOn(schema: Schema, file: File, names: seq<Name>, fates: Fates, w: World,
      steps: seq<Step>, n: Name)
    requires IsPass(file, names, fates, w, steps) && (n in file.tables ==> file.tables[n].schema == schema)
    ensures TurnsOn(schema, n, PassEvents(file, names, fates, w, steps, n))
    decreases |steps|
  {
    hide IsStep, After;
    if steps != [] { PassIsOn(schema, file, names, fates, w, steps[..|steps| - 1], n); }
  }

  lemma BothOn(schema: Schema, n: Name, own: seq<TableEvent>, more: seq<TableEvent>)
    requires TurnsOn(schema, n, own) && TurnsOn(schema, n, more)
    ensures TurnsOn(schema, n, own + more)
  {
  }

  lemma EventIsOn(schema: Schema, names: seq<Name>, m: Memory, e: Event, n: Name)
    requires IsEvent(names, m, e) && (!e.Stopped? && n in e.file.tables ==> e.file.tables[n].schema == schema)
    ensures TurnsOn(schema, n, OwnEvents(names, m, e, n))
  {
    hide IsPass, AllValid, PassEvents, IsDirty, Mapped;
    match e
    case Rounded(file, fates, remapped, steps, _) =>
      PassIsOn(schema, file, names, fates, Mapped(m.w, remapped), steps, n);
    case Crashed(file, fates, remapped, steps, _) =>
      PassIsOn(schema, file, names, fates, Mapped(m.w, remapped), steps, n);
    case Stopped(_, _) =>
  }

  lemma {:induction false} OwnRunIsOn(schema: Schema, names: seq<Name>, m: Memory, events: seq<Event>, n: Name)
    requires IsRun(names, m, events) && OneSchema(schema, events, n)
    ensures TurnsOn(schema, n, OwnRun(names, m, events, n))
    decreases |events|
  {
    hide IsEvent, Next, OwnEvents;
    if events != [] {
      var k := |events| - 1;
      var at := MemoryAfter(names, m, events[..k]);
      assert forall i :: 0 <= i < k ==> events[..k][i] == events[i];
      OwnRunIsOn(schema, names, m, events[..k], n);
      EventIsOn(schema, names, at, events[k], n);
      BothOn(schema, n, OwnRun(names, m, events[..k], n), OwnEvents(names, at, events[k], n));
    }
  }

  lemma {:induction false} TurnsOnSchema(schema: Schema, n: Name, s: Between, own: seq<TableEvent>)
    requires IsTableRun(n, s, own) && TurnsOn(schema, n, own)
    ensures AllOfSchema(schema, n, s, own)
    decreases |own|
  {
    hide IsMove, Following;
    if own != [] {
      assert forall j :: 0 <= j < |own| - 1 ==> own[..|own| - 1][j] == own[j];
      TurnsOnSchema(schema, n, s, own[..|own| - 1]);
    }
  }

  lemma OwnRunOfSchema(schema: Schema, names: seq<Name>, m: Memory, events: seq<Event>, n: Name, s: Between)
    requires IsRun(names, m, events) && Ahead(m) && Projects(m, n, s) && OneSchema(schema, events, n)
    ensures var own := OwnRun(names, m, events, n); IsTableRun(n, s, own) && AllOfSchema(schema, n, s, own)
  {
    hide IsRun, OwnRun, IsTableRun, AllOfSchema, Projects, Ahead, MemoryAfter, BetweenAfter;
    RunProjects(names, m, events, n, s);
    OwnRunIsOn(schema, names, m, events, n);
    TurnsOnSchema(schema, n, s, OwnRun(names, m, events, n));
  }

  /** Event `i` of the table did what `EventExact` says. */
  ghost predicate ExactAt(schema: Schema, n: Name, s: Between, own: seq<TableEvent>, i: nat)
    requires i < |own|
  {
    IsTableRun(n, s, own[..i]) && IsTableRun(n, s, own[..i + 1]) && Tracking(schema) &&
    BetweenAfter(n, s, own[..i]).a.txn >= 0 &&
    EventExact(schema, n, BetweenAfter(n, s, own[..i]), own[i], BetweenAfter(n, s, own[..i + 1]))
  }

  /**
   Every run of the watch loop, exactly: each event of each table does what `EventExact`
   says, on any files, and the replica table is where the last of them left it.
   */
  lemma LoopExact(schema: Schema, names: seq<Name>, m: Memory, events: seq<Event>, n: Name, s: Between)
    requires IsRun(names, m, events) && Ahead(m) && Projects(m, n, s) && OneSchema(schema, events, n)
    requires AllSound(schema, s)
    ensures var own, m' := OwnRun(names, m, events, n), MemoryAfter(names, m, events);
            IsTableRun(n, s, own) && Projects(m', n, BetweenAfter(n, s, own)) &&
            forall i :: 0 <= i < |own| ==> ExactAt(schema, n, s, own, i)
  {
    hide IsRun, OwnRun, IsTableRun, AllOfSchema, Projects, Ahead, MemoryAfter, BetweenAfter, EventExact, AllSound,
         Tracking;
    var own := OwnRun(names, m, events, n);
    RunProjects(names, m, events, n, s);
    OwnRunOfSchema(schema, names, m, events, n, s);
    forall i | 0 <= i < |own|
      ensures ExactAt(schema, n, s, own, i)
    {
      RunExact(schema, n, s, own, i);
    }
  }

  /** Whenever a turn of the table is done, the file keeps its promises to it. */
  ghost predicate LoopKeeps(schema: Schema, names: seq<Name>, m: Memory, events: seq<Event>, n: Name, s: Between)
    requires IsRun(names, m, events) && Ahead(m) && Projects(m, n, s) && OneSchema(schema, events, n)
    requires AllSound(schema, s)
  {
    OwnRunOfSchema(schema, names, m, events, n, s);
    AllKeep(schema, n, s, OwnRun(names, m, events, n))
  }

  /** Event `i` of the table did what `EventConverges` says. */
  ghost predicate ConvergesAt(schema: Schema, n: Name, s: Between, own: seq<TableEvent>, i: nat)
    requires i < |own|
  {
    IsTableRun(n, s, own[..i]) && IsTableRun(n, s, own[..i + 1]) && Tracking(schema) &&
    BetweenAfter(n, s, own[..i]).a.txn >= 0 &&
    EventConverges(schema, n, BetweenAfter(n, s, own[..i]), own[i], BetweenAfter(n, s, own[..i + 1]))
  }

  /**
   Convergence of the watch loop: over every run of it, with any failures, crashes, stops
   and half-written saves, each turn of each table does what `EventConverges` says, and the
   replica table is where the last of them left it.
   */
  lemma LoopConverges(schema: Schema, names: seq<Name>, m: Memory, events: seq<Event>, n: Name, s: Between)
    requires IsRun(names, m, events) && Ahead(m) && Projects(m, n, s) && OneSchema(schema, events, n)
    requires AllSound(schema, s) && Remembered(schema, s) && schema.pkByteLen <= 64
    requires LoopKeeps(schema, names, m, events, n, s)
    ensures var own, m' := OwnRun(names, m, events, n), MemoryAfter(names, m, events);
            IsTableRun(n, s, own) && Projects(m', n, BetweenAfter(n, s, own)) &&
            forall i :: 0 <= i < |own| ==> ConvergesAt(schema, n, s, own, i)
  {
    hide IsRun, OwnRun, IsTableRun, AllOfSchema, AllKeep, Projects, Ahead, MemoryAfter, BetweenAfter, EventConverges,
         AllSound, Remembered, Tracking;
    var own := OwnRun(names, m, events, n);
    RunProjects(names, m, events, n, s);
    OwnRunOfSchema(schema, names, m, events, n, s);
    forall i | 0 <= i < |own|
      ensures ConvergesAt(schema, n, s, own, i)
    {
      RunConverges(schema, n, s, own, i);
    }
  }
}
