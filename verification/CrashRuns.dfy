// Whole runs of the certificate authority in which saving is not one step: any operation of a commit can fail, and the
// process can stop before any of them.
module CrashRuns {
  import opened Prelude
  import opened RevInfo
  import opened CaDatabase
  import Ca = CaRuns
  import Commit
  import Hex
  import Serials

  // An index file: the rows that it was saved from, and which of their serials were taken from the serial file.
  datatype Index = Index(rows: seq<Row>, filed: seq<int>)

  // The table of a process, and the same of its serials.
  datatype Mem = Mem(db: Db, filed: seq<int>) {
    function ToIndex(): Index { Index(db.rows, filed) }
  }

  // The files with what the process is about to do to them, and its table.
  datatype Sys = Sys(commit: Commit.State<Index>, mem: Option<Mem>)

  // A phase of a process that is not committing; or the next operation of a commit works, fails or is not reached.
  datatype Event = Phase(step: Ca.Step) | Works | Fails | Dies

  predicate EventOk(env: Env, ev: Event)
  {
    ev.Phase? ==> Ca.StepOk(env, ev.step)
  }

  function Next(env: Env, configured: bool, sys: Sys, ev: Event): Sys
    requires EventOk(env, ev)
  {
    match ev
    case Phase(step) => if sys.commit.pc.At? then sys else NextPhase(env, configured, sys, step)
    case Works => Sys(Commit.Step(sys.commit, Commit.Works), AfterWards(sys, Commit.Works))
    case Fails => Sys(Commit.Step(sys.commit, Commit.Fails), AfterWards(sys, Commit.Fails))
    case Dies => Sys(Commit.Step(sys.commit, Commit.Dies), None)
  }

  // A process whose commit ends otherwise than by its last rename gives up.
  function AfterWards(sys: Sys, ev: Commit.Event<Index>): Option<Mem>
  {
    var pc := sys.commit.pc;
    if pc.At? && Commit.Step(sys.commit, ev).pc.Idle? && !(pc.op.AttrFromNew? && ev.Works?) then None else sys.mem
  }

  function NextPhase(env: Env, configured: bool, sys: Sys, step: Ca.Step): Sys
    requires Ca.StepOk(env, step)
  {
    var fs := sys.commit.fs;
    match step
    case Start =>
      sys.(mem := if fs.index.None? then None else Loaded(env, fs.index.value, Commit.Setting(configured, fs)))
    case Stop => sys.(mem := None)
    case _ =>
      if sys.mem.None? then sys
      else
        match Ca.Phase(env, sys.mem.value.db, fs.serial, step)
        case Ends => sys.(mem := None)
        case Continues(db) => sys.(mem := Some(sys.mem.value.(db := db)))
        case Saves(db, serial, certificates) =>
          var mem := SavedMem(sys.mem.value, fs.serial, step, db);
          Sys(Commit.Step(sys.commit, Commit.Begin(PlanOf(mem, serial, certificates))), Some(mem))
  }

  function Loaded(env: Env, index: Index, setting: bool): Option<Mem>
  {
    var db := Ca.Load(env, Ca.Save(index.rows), setting);
    if db.None? then None else Some(Mem(db.value, index.filed))
  }

  // The new table; the serials of its new rows are taken from the serial file if the step says so.
  function SavedMem(mem: Mem, serial: Option<int>, step: Ca.Step, db: Db): Mem
  {
    var k := |db.rows| - |mem.db.rows|;
    if step.Issue? && Serials.Filed(step.source) && Serials.First(serial, step.source).Some? && k > 0 then
      Mem(db, mem.filed + Serials.Range(Serials.First(serial, step.source).value, k))
    else Mem(db, mem.filed)
  }

  function PlanOf(mem: Mem, serial: Option<int>, certificates: bool): Commit.Plan<Index>
  {
    Commit.Plan(serial, mem.ToIndex(), certificates, mem.db.unique)
  }

  ghost predicate EventsOk(env: Env, events: seq<Event>)
  {
    forall i :: 0 <= i < |events| ==> EventOk(env, events[i])
  }

  ghost function Run(env: Env, configured: bool, sys: Sys, events: seq<Event>): Sys
    requires EventsOk(env, events)
    decreases |events|
  {
    if events == [] then sys
    else Next(env, configured, Run(env, configured, sys, events[..|events| - 1]), events[|events| - 1])
  }

  // -------------------------------------------------------------------------
  // The table of a process that is not committing is the one on disk.

  ghost predicate InSync(sys: Sys)
  {
    match sys.commit.pc
    case Idle => sys.mem.Some? ==> sys.commit.fs.index == Some(sys.mem.value.ToIndex())
    case At(op, plan) =>
      && sys.mem.Some? && plan.table == sys.mem.value.ToIndex()
      && exists before :: Commit.Placed(before, sys.commit)
  }

  lemma OperationInSync(sys: Sys, ev: Commit.Event<Index>)
    requires InSync(sys) && sys.commit.pc.At? && (ev.Works? || ev.Fails?)
    ensures InSync(Sys(Commit.Step(sys.commit, ev), AfterWards(sys, ev)))
  {
    var before :| Commit.Placed(before, sys.commit);
    Commit.StepPlaced(before, sys.commit, ev);
    Commit.PlanStays(sys.commit, ev);
    hide Commit.Step, Commit.Placed;
    if sys.commit.pc.op.AttrFromNew? && ev.Works? { Commit.LastRename(before, sys.commit); }
  }

  lemma PhaseInSync(env: Env, configured: bool, sys: Sys, step: Ca.Step)
    requires InSync(sys) && sys.commit.pc.Idle? && Ca.StepOk(env, step) && MemOk(sys)
    requires sys.commit.fs.index.Some? ==> Ca.TableOk(false, sys.commit.fs.index.value.rows)
    ensures InSync(NextPhase(env, configured, sys, step))
  {
    var fs := sys.commit.fs;
    hide Ca.Load, Ca.Save, Ca.Phase, Ca.AllGood, Ca.TableOk, Ca.StepOk, Db.Indexed, Evolves;
    if step.Start? {
      if fs.index.Some? && Loaded(env, fs.index.value, Commit.Setting(configured, fs)).Some? {
        LoadedRows(env, fs.index.value, Commit.Setting(configured, fs));
      }
    } else if !step.Stop? && sys.mem.Some? {
      Ca.OkIsPhase(env, step);
      Ca.PhaseKept(env, sys.mem.value.db, fs.serial, step);
      var out := Ca.Phase(env, sys.mem.value.db, fs.serial, step);
      if out.Saves? {
        var mem := SavedMem(sys.mem.value, fs.serial, step, out.db);
        var st := Commit.Step(sys.commit, Commit.Begin(PlanOf(mem, out.serial, out.certificates)));
        assert Commit.Placed(fs.index.value, st);
      }
    }
  }

  // A process has good rows, and right indexes.
  ghost predicate MemOk(sys: Sys)
  {
    sys.mem.Some? ==> sys.mem.value.db.Indexed() && Ca.AllGood(sys.mem.value.db.rows)
  }

  // What is loaded is what was saved, indexed.
  lemma LoadedRows(env: Env, index: Index, setting: bool)
    requires Ca.TableOk(false, index.rows) && Loaded(env, index, setting).Some?
    ensures var mem := Loaded(env, index, setting).value;
            && mem.ToIndex() == index && mem.db.unique == setting && mem.db.Indexed() && Ca.AllGood(mem.db.rows)
            && (setting ==> ValidSubjectsDistinct(index.rows))
  {
    Ca.SaveLoad(env, setting, index.rows);
    Ca.TableGood(false, index.rows);
    hide Ca.Load, Ca.Save, Ca.AllGood, Ca.AllLoadable;
    IndexOfIndexed(index.rows, setting);
  }

  // -------------------------------------------------------------------------
  // What holds of every table that is saved holds of the live index at every moment.

  type Property = Index -> bool

  ghost function Fitting(p: Property): Commit.Fit<Index>
  {
    (t, n) => p(t)
  }

  ghost predicate Holds(p: Property, sys: Sys)
  {
    Commit.Inv(Fitting(p), sys.commit) && (sys.mem.Some? ==> p(sys.mem.value.ToIndex()))
  }

  // The table that a phase is to save.
  function ToSave(env: Env, sys: Sys, step: Ca.Step): Option<Mem>
    requires sys.mem.Some? && Ca.IsPhase(step)
  {
    match Ca.Phase(env, sys.mem.value.db, sys.commit.fs.serial, step)
    case Saves(db, _, _) => Some(SavedMem(sys.mem.value, sys.commit.fs.serial, step, db))
    case _ => None
  }

  // What every phase keeps of the table: good rows, right indexes, the setting, and the permitted changes.
  lemma ToSaveKept(env: Env, sys: Sys, step: Ca.Step)
    requires MemOk(sys) && sys.mem.Some? && Ca.IsPhase(step) && Ca.StepOk(env, step)
    ensures var mem := ToSave(env, sys, step);
            mem.Some? ==>
              && mem.value.db.Indexed() && Ca.AllGood(mem.value.db.rows)
              && mem.value.db.unique == sys.mem.value.db.unique && Evolves(sys.mem.value.db.rows, mem.value.db.rows)
  {
    hide Ca.Phase, Ca.AllGood, Ca.StepOk, Db.Indexed, Evolves;
    Ca.PhaseKept(env, sys.mem.value.db, sys.commit.fs.serial, step);
  }

  lemma SavesHold(p: Property, sys: Sys, mem: Mem, plan: Commit.Plan<Index>)
    requires Holds(p, sys) && sys.commit.pc.Idle? && p(mem.ToIndex()) && plan.table == mem.ToIndex()
    ensures Holds(p, Sys(Commit.Step(sys.commit, Commit.Begin(plan)), Some(mem)))
  {
    hide Commit.Inv, Commit.Step;
    Commit.InvFits(Fitting(p), sys.commit);
    Commit.StepInv(Fitting(p), sys.commit, Commit.Begin(plan));
  }

  lemma PhaseHolds(env: Env, configured: bool, p: Property, sys: Sys, step: Ca.Step)
    requires Holds(p, sys) && sys.commit.pc.Idle? && MemOk(sys) && Ca.StepOk(env, step)
    requires sys.commit.fs.index.Some? ==> Ca.TableOk(false, sys.commit.fs.index.value.rows)
    requires Ca.IsPhase(step) && sys.mem.Some? && ToSave(env, sys, step).Some? ==>
               p(ToSave(env, sys, step).value.ToIndex())
    ensures Holds(p, NextPhase(env, configured, sys, step))
  {
    var fs := sys.commit.fs;
    hide Ca.Load, Ca.Save, Ca.Phase, Ca.AllGood, Ca.StepOk, Ca.TableOk, Db.Indexed, Commit.Inv, Commit.Step, Evolves;
    if step.Start? {
      Commit.InvFits(Fitting(p), sys.commit);
      if fs.index.Some? && Loaded(env, fs.index.value, Commit.Setting(configured, fs)).Some? {
        LoadedRows(env, fs.index.value, Commit.Setting(configured, fs));
      }
    } else if !step.Stop? && sys.mem.Some? {
      Ca.OkIsPhase(env, step);
      Ca.PhaseKept(env, sys.mem.value.db, fs.serial, step);
      var out := Ca.Phase(env, sys.mem.value.db, fs.serial, step);
      if out.Saves? {
        var mem := SavedMem(sys.mem.value, fs.serial, step, out.db);
        SavesHold(p, sys, mem, PlanOf(mem, out.serial, out.certificates));
      }
    }
  }

  lemma NextHolds(env: Env, configured: bool, p: Property, sys: Sys, ev: Event)
    requires Holds(p, sys) && MemOk(sys) && EventOk(env, ev)
    requires sys.commit.fs.index.Some? ==> Ca.TableOk(false, sys.commit.fs.index.value.rows)
    requires ev.Phase? && Ca.IsPhase(ev.step) && sys.mem.Some? && ToSave(env, sys, ev.step).Some? ==>
               p(ToSave(env, sys, ev.step).value.ToIndex())
    ensures Holds(p, Next(env, configured, sys, ev))
  {
    hide NextPhase, Commit.Inv, Commit.Step, MemOk, Ca.StepOk, ToSave;
    match ev {
      case Phase(step) => if sys.commit.pc.Idle? { PhaseHolds(env, configured, p, sys, step); }
      case Works => Commit.StepInv(Fitting(p), sys.commit, Commit.Works);
      case Fails => Commit.StepInv(Fitting(p), sys.commit, Commit.Fails);
      case Dies => Commit.StepInv(Fitting(p), sys.commit, Commit.Dies);
    }
  }

  // -------------------------------------------------------------------------
  // At every moment the index file is missing or a table that the tool built.

  ghost predicate HasNumber(rows: seq<Row>, n: int)
  {
    exists i :: 0 <= i < |rows| && Hex.SerialOk(rows[i].serial) && Hex.SerialValue(rows[i].serial) == n
  }

  // The serials taken from the serial file are serials of rows.
  ghost predicate FiledIn(t: Index)
  {
    forall i :: 0 <= i < |t.filed| ==> HasNumber(t.rows, t.filed[i])
  }

  ghost predicate GoodIndex(unique: bool, t: Index)
  {
    Ca.TableOk(unique, t.rows) && FiledIn(t)
  }

  ghost function Sound(unique: bool): Property
  {
    t => GoodIndex(unique, t)
  }

  ghost predicate Inv(unique: bool, sys: Sys)
  {
    && Holds(Sound(unique), sys) && MemOk(sys) && InSync(sys)
    && (sys.mem.Some? && unique ==> sys.mem.value.db.unique)
  }

  // Serials never change, so the numbers stay.
  lemma NumberStays(before: seq<Row>, after: seq<Row>, n: int)
    requires Evolves(before, after) && HasNumber(before, n)
    ensures HasNumber(after, n)
  {
    hide Hex.SerialOk, Hex.SerialValue;
    var i :| 0 <= i < |before| && Hex.SerialOk(before[i].serial) && Hex.SerialValue(before[i].serial) == n;
    assert RowStep(before[i], after[i]);
    assert after[i].serial == before[i].serial;
  }

  // The rows that an issue phase adds, and the number that it writes.
  lemma IssueSaves(env: Env, db: Db, serial: Option<int>, step: Ca.Step)
    requires db.Indexed() && step.Issue? && Ca.Phase(env, db, serial, step).Saves?
    ensures var out, g := Ca.Phase(env, db, serial, step), Granted(step.reqs);
            var first := Serials.First(serial, step.source);
            && first.Some? && g != [] && out.db.rows == db.rows + IssuedRows(first.value, g)
            && |IssuedRows(first.value, g)| == |g|
            && out.certificates && out.serial == if step.source.ByConfig? then None else Some(first.value + |g|)
  {
    var first := Serials.First(serial, step.source).value;
    BatchIssues(db, first, step.reqs);
    hide Batch, Db.Indexed, Granted, IssuedRows;
    Ca.IssuedSize(first, Granted(step.reqs));
  }

  lemma IssuedHaveNumbers(rows: seq<Row>, first: int, g: seq<Request>, n: int)
    requires (forall i :: 0 <= i < |g| ==> g[i].Wanted?) && first <= n < first + |g|
    ensures HasNumber(rows + IssuedRows(first, g), n)
  {
    Ca.IssuedNumbers(first, g);
    Ca.IssuedSize(first, g);
    hide Hex.SerialOk, Hex.SerialValue, IssuedRows;
    var i, new' := n - first, IssuedRows(first, g);
    assert Ca.Numbers(new')[i] == n;
    assert (rows + new')[|rows| + i] == new'[i];
  }

  // Every serial that counts as taken from the serial file is that of a row.
  lemma ToSaveFiled(env: Env, sys: Sys, step: Ca.Step)
    requires MemOk(sys) && sys.mem.Some? && Ca.IsPhase(step) && Ca.StepOk(env, step)
    requires FiledIn(sys.mem.value.ToIndex()) && ToSave(env, sys, step).Some?
    ensures FiledIn(ToSave(env, sys, step).value.ToIndex())
  {
    hide Ca.Phase, Ca.AllGood, Ca.StepOk, Db.Indexed, Evolves, HasNumber, Granted, IssuedRows;
    ToSaveKept(env, sys, step);
    var db, serial, mem := sys.mem.value.db, sys.commit.fs.serial, ToSave(env, sys, step).value;
    if step.Issue? { IssueSaves(env, db, serial, step); GrantedWanted(step.reqs); }
    forall i | 0 <= i < |mem.filed| ensures HasNumber(mem.db.rows, mem.filed[i]) {
      if i < |sys.mem.value.filed| {
        NumberStays(db.rows, mem.db.rows, sys.mem.value.filed[i]);
      } else {
        IssuedHaveNumbers(db.rows, Serials.First(serial, step.source).value, Granted(step.reqs), mem.filed[i]);
      }
    }
  }

  // Those of the rows that a step adds count, in their order, if the step takes them from the serial file or from the
  // number that it is created with; no others do.
  lemma FiledAreNew(env: Env, sys: Sys, step: Ca.Step)
    requires MemOk(sys) && sys.mem.Some? && Ca.IsPhase(step) && Ca.StepOk(env, step) && ToSave(env, sys, step).Some?
    ensures var rows' := ToSave(env, sys, step).value.db.rows;
            forall i :: 0 <= i < |rows'| ==> Hex.SerialOk(rows'[i].serial)
    ensures var mem, mem' := sys.mem.value, ToSave(env, sys, step).value;
            if step.Issue? && !step.source.ByOption? && !step.source.ByConfig? then
              && |mem.db.rows| < |mem'.db.rows|
              && mem'.filed == mem.filed + Ca.Numbers(mem'.db.rows[|mem.db.rows|..])
            else mem'.filed == mem.filed
  {
    ToSaveKept(env, sys, step);
    hide Ca.Phase, Ca.StepOk, Db.Indexed, Ca.Numbers, Granted, IssuedRows, Evolves;
    if step.Issue? {
      var db, serial := sys.mem.value.db, sys.commit.fs.serial;
      IssueSaves(env, db, serial, step);
      GrantedWanted(step.reqs);
      var first, g := Serials.First(serial, step.source).value, Granted(step.reqs);
      Ca.IssuedNumbers(first, g);
      assert (db.rows + IssuedRows(first, g))[|db.rows|..] == IssuedRows(first, g);
    }
  }

  lemma {:induction false} GrantedWanted(reqs: seq<Request>)
    ensures forall i :: 0 <= i < |Granted(reqs)| ==> Granted(reqs)[i].Wanted?
  {
    if reqs != [] { GrantedWanted(reqs[1..]); }
  }

  lemma LiveGood(unique: bool, sys: Sys)
    requires Holds(Sound(unique), sys)
    ensures sys.commit.fs.index.Some? ==> GoodIndex(unique, sys.commit.fs.index.value)
    ensures sys.commit.fs.index.Some? ==> Ca.TableOk(false, sys.commit.fs.index.value.rows)
  {
    Commit.InvFits(Fitting(Sound(unique)), sys.commit);
    hide FiledIn, Ca.AllGood;
  }

  lemma SavedGood(env: Env, unique: bool, sys: Sys, step: Ca.Step)
    requires Inv(unique, sys) && sys.mem.Some? && Ca.IsPhase(step) && Ca.StepOk(env, step)
    requires ToSave(env, sys, step).Some?
    ensures GoodIndex(unique, ToSave(env, sys, step).value.ToIndex())
  {
    assert FiledIn(sys.mem.value.ToIndex());
    hide Inv, MemOk, Ca.StepOk, ToSave, Ca.AllGood, FiledIn, Db.Indexed, Evolves;
    InvMem(unique, sys);
    ToSaveKept(env, sys, step);
    ToSaveFiled(env, sys, step);
    IndexedIsDistinct(ToSave(env, sys, step).value.db);
  }

  lemma InvMem(unique: bool, sys: Sys)
    requires Inv(unique, sys)
    ensures MemOk(sys) && (sys.mem.Some? && unique ==> sys.mem.value.db.unique)
  {
  }

  // The indexes of the table, and its setting.
  ghost predicate MemGood(unique: bool, sys: Sys)
  {
    MemOk(sys) && (sys.mem.Some? && unique ==> sys.mem.value.db.unique)
  }

  lemma PhaseMem(env: Env, configured: bool, unique: bool, sys: Sys, step: Ca.Step)
    requires MemGood(unique, sys) && sys.commit.pc.Idle? && Ca.StepOk(env, step)
    requires step.Start? && unique ==> Commit.Setting(configured, sys.commit.fs)
    requires sys.commit.fs.index.Some? ==> Ca.TableOk(false, sys.commit.fs.index.value.rows)
    ensures MemGood(unique, NextPhase(env, configured, sys, step))
  {
    var fs := sys.commit.fs;
    hide Commit.Step, Ca.Phase, Ca.StepOk, Ca.AllGood, Db.Indexed, Ca.TableOk, Loaded, Evolves;
    if step.Start? {
      if fs.index.Some? && Loaded(env, fs.index.value, Commit.Setting(configured, fs)).Some? {
        LoadedRows(env, fs.index.value, Commit.Setting(configured, fs));
      }
    } else if !step.Stop? && sys.mem.Some? {
      Ca.OkIsPhase(env, step);
      Ca.PhaseKept(env, sys.mem.value.db, fs.serial, step);
    }
  }

  lemma NextMem(env: Env, configured: bool, unique: bool, sys: Sys, ev: Event)
    requires MemGood(unique, sys) && EventOk(env, ev)
    requires ev == Phase(Ca.Start) && unique ==> Commit.Setting(configured, sys.commit.fs)
    requires sys.commit.fs.index.Some? ==> Ca.TableOk(false, sys.commit.fs.index.value.rows)
    ensures MemGood(unique, Next(env, configured, sys, ev))
  {
    hide Commit.Step, NextPhase, Ca.StepOk, Ca.AllGood, Db.Indexed, Ca.TableOk;
    if ev.Phase? && sys.commit.pc.Idle? { PhaseMem(env, configured, unique, sys, ev.step); }
  }

  lemma NextInSync(env: Env, configured: bool, unique: bool, sys: Sys, ev: Event)
    requires Inv(unique, sys) && EventOk(env, ev)
    ensures InSync(Next(env, configured, sys, ev))
  {
    InvMem(unique, sys);
    LiveGood(unique, sys);
    hide Inv, NextPhase, Ca.StepOk, MemOk, Ca.TableOk, GoodIndex;
    match ev {
      case Phase(step) => if sys.commit.pc.Idle? { PhaseInSync(env, configured, sys, step); }
      case Works => if sys.commit.pc.At? { OperationInSync(sys, Commit.Works); }
      case Fails => if sys.commit.pc.At? { OperationInSync(sys, Commit.Fails); }
      case Dies =>
    }
  }

  lemma NextInv(env: Env, configured: bool, unique: bool, sys: Sys, ev: Event)
    requires Inv(unique, sys) && EventOk(env, ev)
    requires ev == Phase(Ca.Start) && unique ==> Commit.Setting(configured, sys.commit.fs)
    ensures Inv(unique, Next(env, configured, sys, ev))
  {
    NextInSync(env, configured, unique, sys, ev);
    LiveGood(unique, sys);
    NextMem(env, configured, unique, sys, ev);
    hide Holds, MemOk, InSync, Next, EventOk, GoodIndex, Ca.TableOk, ToSave;
    if ev.Phase? && Ca.IsPhase(ev.step) && sys.mem.Some? && ToSave(env, sys, ev.step).Some? {
      assert Ca.StepOk(env, ev.step) by { PhaseOk(env, ev); }
      SavedGood(env, unique, sys, ev.step);
    }
    NextHolds(env, configured, Sound(unique), sys, ev);
  }

  lemma PhaseOk(env: Env, ev: Event)
    requires EventOk(env, ev) && ev.Phase?
    ensures Ca.StepOk(env, ev.step)
  {
  }

  // -------------------------------------------------------------------------
  // The setting, if the configured one is in force.

  predicate Settled(configured: bool, sys: Sys)
  {
    Commit.AgreedInv(configured, sys.commit) && (sys.mem.Some? ==> sys.mem.value.db.unique == configured)
  }

  lemma NextSettled(env: Env, configured: bool, sys: Sys, ev: Event)
    requires Settled(configured, sys) && Inv(false, sys) && EventOk(env, ev)
    ensures Settled(configured, Next(env, configured, sys, ev))
  {
    var fs := sys.commit.fs;
    InvMem(false, sys);
    hide Inv, Commit.Step, Ca.Phase, Ca.StepOk, Db.Indexed, Ca.AllGood, Evolves;
    match ev {
      case Works => Commit.StepAgreed(configured, sys.commit, Commit.Works);
      case Fails => Commit.StepAgreed(configured, sys.commit, Commit.Fails);
      case Dies => Commit.StepAgreed(configured, sys.commit, Commit.Dies);
      case Phase(step) =>
        if sys.commit.pc.Idle? && !step.Start? && !step.Stop? && sys.mem.Some? {
          Ca.OkIsPhase(env, step);
          Ca.PhaseKept(env, sys.mem.value.db, fs.serial, step);
          var out := Ca.Phase(env, sys.mem.value.db, fs.serial, step);
          if out.Saves? {
            var plan := PlanOf(SavedMem(sys.mem.value, fs.serial, step, out.db), out.serial, out.certificates);
            Commit.StepAgreed(configured, sys.commit, Commit.Begin(plan));
          }
        }
    }
  }

  lemma {:induction false} RunInv(env: Env, configured: bool, sys: Sys, events: seq<Event>)
    requires Inv(false, sys) && EventsOk(env, events)
    ensures Inv(false, Run(env, configured, sys, events))
    ensures Settled(configured, sys) && Inv(configured, sys) ==>
              var end := Run(env, configured, sys, events); Settled(configured, end) && Inv(configured, end)
    decreases |events|
  {
    if events != [] {
      hide Inv, Next, EventOk, Commit.AgreedInv;
      var before, last := events[..|events| - 1], events[|events| - 1];
      RunInv(env, configured, sys, before);
      var sys1 := Run(env, configured, sys, before);
      NextInv(env, configured, false, sys1, last);
      if Settled(configured, sys) && Inv(configured, sys) {
        SettledSetting(configured, sys1);
        NextInv(env, configured, configured, sys1, last);
        NextSettled(env, configured, sys1, last);
      }
    }
  }

  lemma SettledSetting(configured: bool, sys: Sys)
    requires Settled(configured, sys)
    ensures Commit.Setting(configured, sys.commit.fs) == configured
  {
  }

  // Before the first run: an index that the tool built under the setting in force, or none.
  ghost predicate Fresh(configured: bool, sys: Sys)
  {
    var fs := sys.commit.fs;
    && sys.commit.pc.Idle? && sys.mem.None?
    && (fs.index.Some? ==> GoodIndex(Commit.Setting(configured, fs), fs.index.value))
  }

  lemma FreshInv(configured: bool, sys: Sys)
    requires Fresh(configured, sys)
    ensures Inv(false, sys)
    ensures Commit.Agreed(configured, sys.commit.fs) ==> Settled(configured, sys) && Inv(configured, sys)
  {
    hide Ca.AllGood, FiledIn;
  }

  // At every moment of any runs, with any failures and stops, the live index is missing or the saved text of a table
  // with distinct serials.  If the configured setting is in force at first, it always is, and the valid subjects are
  // distinct if it asks for that.
  lemma EveryMomentIsSound(env: Env, configured: bool, sys: Sys, events: seq<Event>)
    requires Fresh(configured, sys) && EventsOk(env, events)
    ensures var fs := Run(env, configured, sys, events).commit.fs;
            && (fs.index.Some? ==> GoodIndex(false, fs.index.value))
            && (Commit.Agreed(configured, sys.commit.fs) ==>
                  && Commit.Setting(configured, fs) == configured
                  && (fs.index.Some? ==> GoodIndex(configured, fs.index.value)))
  {
    var end := Run(env, configured, sys, events);
    FreshInv(configured, sys);
    RunInv(env, configured, sys, events);
    hide Run, Ca.TableOk, FiledIn, Commit.Inv, InSync, MemOk;
    LiveGood(false, end);
    if Commit.Agreed(configured, sys.commit.fs) {
      LiveGood(configured, end);
      SettledSetting(configured, end);
    }
  }

  // -------------------------------------------------------------------------
  // How the rows change.

  ghost function From(rows: seq<Row>): Property
  {
    (t: Index) => Evolves(rows, t.rows)
  }

  lemma NextFrom(env: Env, configured: bool, rows: seq<Row>, sys: Sys, ev: Event)
    requires Inv(false, sys) && Holds(From(rows), sys) && EventOk(env, ev)
    ensures Holds(From(rows), Next(env, configured, sys, ev))
  {
    InvMem(false, sys);
    LiveGood(false, sys);
    if ev.Phase? && Ca.IsPhase(ev.step) && sys.mem.Some? && ToSave(env, sys, ev.step).Some? {
      ToSaveKept(env, sys, ev.step);
      EvolvesTransitive(rows, sys.mem.value.db.rows, ToSave(env, sys, ev.step).value.db.rows);
      hide Inv, Commit.Inv, Next, EventOk, MemOk, ToSave, Evolves, GoodIndex, Ca.TableOk;
      NextHolds(env, configured, From(rows), sys, ev);
    } else {
      hide Inv, Commit.Inv, Next, EventOk, MemOk, ToSave, Evolves, GoodIndex, Ca.TableOk;
      NextHolds(env, configured, From(rows), sys, ev);
    }
  }

  lemma {:induction false} RunFrom(env: Env, configured: bool, rows: seq<Row>, sys: Sys, events: seq<Event>)
    requires Inv(false, sys) && Holds(From(rows), sys) && EventsOk(env, events)
    ensures Holds(From(rows), Run(env, configured, sys, events))
    decreases |events|
  {
    if events != [] {
      hide Inv, Holds, Next, EventOk;
      var before, last := events[..|events| - 1], events[|events| - 1];
      RunInv(env, configured, sys, before);
      RunFrom(env, configured, rows, sys, before);
      NextFrom(env, configured, rows, Run(env, configured, sys, before), last);
    }
  }

  lemma {:induction false} RunConcat(env: Env, configured: bool, sys: Sys, a: seq<Event>, b: seq<Event>)
    requires EventsOk(env, a) && EventsOk(env, b)
    ensures EventsOk(env, a + b)
    ensures Run(env, configured, sys, a + b) == Run(env, configured, Run(env, configured, sys, a), b)
    decreases |b|
  {
    hide EventOk, Next;
    if b == [] {
      assert a + b == a;
    } else {
      var b' := b[..|b| - 1];
      RunConcat(env, configured, sys, a, b');
      assert (a + b)[..|a + b| - 1] == a + b';
    }
  }

  // From a moment without a commit to any later moment, whatever fails and stops in between, rows are not removed or
  // reordered, keep their serial, subject and expiry, and change only as permitted.
  lemma RowsEvolve(env: Env, configured: bool, sys: Sys, before: seq<Event>, after: seq<Event>)
    requires Fresh(configured, sys) && EventsOk(env, before) && EventsOk(env, after)
    ensures EventsOk(env, before + after)
    ensures var s1, s2 := Run(env, configured, sys, before), Run(env, configured, sys, before + after);
            s1.commit.pc.Idle? && s1.commit.fs.index.Some? && s2.commit.fs.index.Some? ==>
              Evolves(s1.commit.fs.index.value.rows, s2.commit.fs.index.value.rows)
  {
    FreshInv(configured, sys);
    RunInv(env, configured, sys, before);
    RunConcat(env, configured, sys, before, after);
    var s1, s2 := Run(env, configured, sys, before), Run(env, configured, sys, before + after);
    if s1.commit.pc.Idle? && s1.commit.fs.index.Some? {
      var rows := s1.commit.fs.index.value.rows;
      Ca.EvolvesRefl(rows);
      assert Holds(From(rows), s1) by { hide Run, Evolves; }
      hide Inv, Holds, Run, Evolves, EventOk;
      RunFrom(env, configured, rows, s1, after);
      FromLive(rows, s2);
    }
  }

  lemma FromLive(rows: seq<Row>, sys: Sys)
    requires Holds(From(rows), sys)
    ensures sys.commit.fs.index.Some? ==> Evolves(rows, sys.commit.fs.index.value.rows)
  {
    hide Evolves;
    Commit.InvFits(Fitting(From(rows)), sys.commit);
  }

  // -------------------------------------------------------------------------
  // The rows whose serial was taken from the serial file, against the number in it.

  const ORDERED: Commit.Fit<Index> := (t: Index, n) => Serials.Below(t.filed, n)

  // Steps that take no serials, or take them from the serial file, or use no serial file.
  predicate LiveStep(step: Ca.Step)
  {
    step.Issue? ==> step.source.Live? || step.source.ByConfig?
  }

  // The number that a step is to write is above every such serial; and if there is no serial file, so is the one kept
  // from before.
  predicate Advances(env: Env, sys: Sys, step: Ca.Step)
    requires Ca.IsPhase(step)
  {
    var fs := sys.commit.fs;
    sys.mem.Some? && fs.index.Some? ==>
      var out := Ca.Phase(env, sys.mem.value.db, fs.serial, step);
      out.Saves? && out.serial.Some? ==>
        Serials.Below(fs.index.value.filed, out.serial)
        && (fs.serial.None? ==> Serials.Below(fs.index.value.filed, fs.serialOld))
  }

  lemma LiveAdvances(env: Env, sys: Sys, step: Ca.Step)
    requires MemOk(sys) && Commit.Fits(ORDERED, sys.commit.fs) && Ca.IsPhase(step) && LiveStep(step)
    ensures Advances(env, sys, step)
  {
    hide Db.Indexed, Ca.AllGood, Batch, Granted, IssuedRows;
    if sys.mem.Some? && step.Issue? {
      var out := Ca.Phase(env, sys.mem.value.db, sys.commit.fs.serial, step);
      if out.Saves? { IssueSaves(env, sys.mem.value.db, sys.commit.fs.serial, step); }
    }
  }

  // A step that advances prepares the relation.
  lemma AdvancesIsPrepared(env: Env, sys: Sys, step: Ca.Step)
    requires MemOk(sys) && InSync(sys) && sys.commit.pc.Idle? && sys.mem.Some? && Commit.Fits(ORDERED, sys.commit.fs)
    requires Ca.IsPhase(step) && Advances(env, sys, step)
    ensures var out := Ca.Phase(env, sys.mem.value.db, sys.commit.fs.serial, step);
            out.Saves? ==>
              var mem := SavedMem(sys.mem.value, sys.commit.fs.serial, step, out.db);
              Commit.Prepared(ORDERED, sys.commit.fs, PlanOf(mem, out.serial, out.certificates))
  {
    var db, serial := sys.mem.value.db, sys.commit.fs.serial;
    var out := Ca.Phase(env, db, serial, step);
    if out.Saves? {
      NoNumber(env, db, serial, step);
      hide Ca.Phase, Db.Indexed, Ca.AllGood, Granted, IssuedRows;
      if step.Issue? { IssueSaves(env, db, serial, step); }
      var mem := SavedMem(sys.mem.value, serial, step, out.db);
      assert sys.commit.fs.index.value.filed == sys.mem.value.filed;
      if out.serial.Some? {
        forall i | 0 <= i < |mem.filed| ensures mem.filed[i] < out.serial.value {
          assert i < |sys.mem.value.filed| ==> mem.filed[i] == sys.mem.value.filed[i];
        }
      }
    }
  }

  // Only an issue phase writes a number, and certificates.
  lemma NoNumber(env: Env, db: Db, serial: Option<int>, step: Ca.Step)
    requires Ca.IsPhase(step) && Ca.Phase(env, db, serial, step).Saves?
    ensures !step.Issue? ==>
              Ca.Phase(env, db, serial, step).serial.None? && !Ca.Phase(env, db, serial, step).certificates
  {
    hide Batch, Update, Revoke;
  }

  lemma NextOrdered(env: Env, configured: bool, sys: Sys, ev: Event)
    requires Inv(false, sys) && Commit.Inv(ORDERED, sys.commit) && EventOk(env, ev)
    requires ev.Phase? && Ca.IsPhase(ev.step) && sys.commit.pc.Idle? ==>
               LiveStep(ev.step) || Advances(env, sys, ev.step)
    ensures Commit.Inv(ORDERED, Next(env, configured, sys, ev).commit)
  {
    InvMem(false, sys);
    Commit.InvFits(ORDERED, sys.commit);
    var fs := sys.commit.fs;
    hide Holds, MemOk, Commit.Inv, Commit.Step, Commit.Fits, Commit.Prepared, Ca.Phase, Ca.StepOk, LiveStep, Advances;
    match ev {
      case Works => Commit.StepInv(ORDERED, sys.commit, Commit.Works);
      case Fails => Commit.StepInv(ORDERED, sys.commit, Commit.Fails);
      case Dies => Commit.StepInv(ORDERED, sys.commit, Commit.Dies);
      case Phase(step) =>
        if sys.commit.pc.Idle? && !step.Start? && !step.Stop? && sys.mem.Some? {
          Ca.OkIsPhase(env, step);
          if LiveStep(step) { LiveAdvances(env, sys, step); }
          AdvancesIsPrepared(env, sys, step);
          var out := Ca.Phase(env, sys.mem.value.db, fs.serial, step);
          if out.Saves? {
            var plan := PlanOf(SavedMem(sys.mem.value, fs.serial, step, out.db), out.serial, out.certificates);
            Commit.StepInv(ORDERED, sys.commit, Commit.Begin(plan));
          }
        }
    }
  }

  // Every phase that begins takes its serials from the serial file or advances.
  ghost predicate AllAdvance(env: Env, configured: bool, sys: Sys, events: seq<Event>)
    requires EventsOk(env, events)
  {
    forall i :: 0 <= i < |events| && events[i].Phase? && Ca.IsPhase(events[i].step) ==>
      LiveStep(events[i].step) || Advances(env, Run(env, configured, sys, events[..i]), events[i].step)
  }

  lemma {:induction false} RunOrdered(env: Env, configured: bool, sys: Sys, events: seq<Event>)
    requires Inv(false, sys) && Commit.Inv(ORDERED, sys.commit) && EventsOk(env, events)
    requires AllAdvance(env, configured, sys, events)
    ensures Commit.Inv(ORDERED, Run(env, configured, sys, events).commit)
    decreases |events|
  {
    if events != [] {
      hide Inv, Commit.Inv, Next, EventOk, LiveStep, Advances;
      var n := |events| - 1;
      var before, last := events[..n], events[n];
      assert forall i :: 0 <= i < n ==> before[i] == events[i] && before[..i] == events[..i];
      RunInv(env, configured, sys, before);
      RunOrdered(env, configured, sys, before);
      NextOrdered(env, configured, Run(env, configured, sys, before), last);
    }
  }

  // At every moment of any runs, with any failures and stops, each row of the live index whose serial was taken from
  // the serial file has a serial below the number in the live serial file, so no later run takes it again.
  lemma EveryMomentIsOrdered(env: Env, configured: bool, sys: Sys, events: seq<Event>)
    requires Fresh(configured, sys) && Commit.Fits(ORDERED, sys.commit.fs) && EventsOk(env, events)
    requires AllAdvance(env, configured, sys, events)
    ensures var fs := Run(env, configured, sys, events).commit.fs;
            fs.index.Some? ==>
              && FiledIn(fs.index.value)
              && (fs.serial.Some? ==>
                    forall i :: 0 <= i < |fs.index.value.filed| ==> fs.index.value.filed[i] < fs.serial.value)
  {
    var end := Run(env, configured, sys, events);
    FreshInv(configured, sys);
    RunInv(env, configured, sys, events);
    RunOrdered(env, configured, sys, events);
    hide Run, Ca.TableOk, FiledIn, InSync, MemOk, AllAdvance, EventOk;
    LiveGood(false, end);
    Commit.InvFits(ORDERED, end.commit);
  }

  // -------------------------------------------------------------------------
  // What a changed setting does to the next load.

  // The next load fails exactly over an expiry date or revocation text that cannot be read, or over equal subjects of
  // valid rows if the setting then in force asks for distinct ones.
  lemma LoadFailsIff(env: Env, index: Index, setting: bool)
    requires GoodIndex(false, index)
    ensures Loaded(env, index, setting).None? <==>
            !Ca.AllLoadable(env, index.rows) || (setting && !ValidSubjectsDistinct(index.rows))
  {
    hide Ca.Load, Ca.Save, Ca.AllGood, Ca.AllLoadable, FiledIn;
    Ca.SaveLoad(env, setting, index.rows);
  }

  // If the setting in force is not the configured one, a stop between the two renames of the attribute file changes it.
  // If the new table has equal subjects of valid rows, and the configuration does not allow that, it cannot be loaded.
  lemma StopChangesSetting(env: Env, st: Commit.State<Index>, plan: Commit.Plan<Index>)
    requires st.pc.Idle? && st.fs.index.Some? && st.fs.attr == Some(false) && plan.unique == false
    requires GoodIndex(false, plan.table) && !ValidSubjectsDistinct(plan.table.rows)
    ensures var late := Commit.LeftAlone(Commit.Step(st, Commit.Begin(plan)), Commit.Steps(plan) - 1);
            var end := Commit.Step(late, Commit.Dies);
            && end.pc.Idle? && end.fs.index == Some(plan.table) && Commit.Setting(true, end.fs)
            && Loaded(env, plan.table, Commit.Setting(true, end.fs)).None?
  {
    LoadFailsIff(env, plan.table, true);
    hide Commit.LeftAlone, Loaded, GoodIndex;
    Commit.StopsBeforeLast(st, plan);
  }

  const EXPIRY := "491231235959Z"

  function Twin(n: int): Row
  {
    Certificate(n, "/CN=a", EXPIRY).NewRow()
  }

  function Twins(): Index
  {
    Index([Twin(1), Twin(2)], [])
  }

  lemma TwinGood(env: Env, n: int)
    ensures var r := Twin(n);
            && Ca.GoodRow(r) && r.Type() == TYPE_VAL && r.name == "/CN=a" && r.serial == Hex.SerialText(n)
            && (env.moment(EXPIRY).Some? ==> Ca.Loadable(env, r))
  {
    hide Ca.GoodRow, Ca.Loadable, Hex.SerialText;
    assert Ca.PlainField(EXPIRY) && '\n' !in "/CN=a";
    Ca.NewRowGood(Certificate(n, "/CN=a", EXPIRY));
    Ca.NewRowLoadable(env, Certificate(n, "/CN=a", EXPIRY));
  }

  lemma TwinsGood(env: Env)
    ensures GoodIndex(false, Twins()) && !ValidSubjectsDistinct(Twins().rows)
    ensures env.moment(EXPIRY).Some? ==> Ca.AllLoadable(env, Twins().rows)
  {
    hide Ca.GoodRow, Ca.Loadable, Hex.SerialText, Hex.Key, Twin;
    var rows := Twins().rows;
    TwinGood(env, 1);
    TwinGood(env, 2);
    if Hex.Key(Hex.SerialText(1)) == Hex.Key(Hex.SerialText(2)) { Hex.SerialKeysDiffer(1, 2); }
    assert rows[0].name == rows[1].name;
  }

  // Subjects need not be unique, but the configuration says that they must.  A second certificate for a subject is
  // issued, and the process stops just before its last rename: the index, which could be loaded, no longer can.
  lemma TwinsLockOut(env: Env, fs: Commit.Fs<Index>)
    requires env.moment(EXPIRY).Some? && fs.index == Some(Index([Twin(1)], [])) && fs.attr == Some(false)
    ensures var plan := Commit.Plan(Some(3), Twins(), true, false);
            var s0 := Commit.Step(Commit.State(fs, Commit.Idle), Commit.Begin(plan));
            var end := Commit.Step(Commit.LeftAlone(s0, Commit.Steps(plan) - 1), Commit.Dies);
            && end.fs.index == Some(Twins()) && Loaded(env, Twins(), false).Some?
            && Loaded(env, Twins(), Commit.Setting(true, end.fs)).None?
  {
    TwinsGood(env);
    hide GoodIndex, Loaded, Twins, Commit.LeftAlone, Commit.Step;
    LoadFailsIff(env, Twins(), false);
    StopChangesSetting(env, Commit.State(fs, Commit.Idle), Commit.Plan(Some(3), Twins(), true, false));
  }

  // -------------------------------------------------------------------------
  // A phase that nothing disturbs is the one step of the simple runs.

  function Alone(n: nat): (events: seq<Event>)
    ensures |events| == n && forall i :: 0 <= i < n ==> events[i] == Works
  {
    seq(n, _ => Works)
  }

  lemma {:induction false} RunAlone(env: Env, configured: bool, sys: Sys, n: nat)
    requires forall k :: 0 <= k < n ==> Commit.LeftAlone(sys.commit, k).pc.At?
    requires n > 0 ==> Commit.LeftAlone(sys.commit, n - 1).pc.op.AttrFromNew? || Commit.LeftAlone(sys.commit, n).pc.At?
    ensures EventsOk(env, Alone(n))
    ensures Run(env, configured, sys, Alone(n)) == Sys(Commit.LeftAlone(sys.commit, n), sys.mem)
  {
    hide Commit.Step, EventOk;
    assert EventOk(env, Works) by { EventIsOk(env); }
    if n > 0 {
      assert Alone(n)[..n - 1] == Alone(n - 1);
      assert n > 1 ==> Commit.LeftAlone(sys.commit, n - 1).pc.At?;
      RunAlone(env, configured, sys, n - 1);
    }
  }

  lemma EventIsOk(env: Env)
    ensures EventOk(env, Works)
  {
  }

  // The files of the simple runs.
  function Simple(sys: Sys): Ca.Sys
    requires sys.commit.fs.index.Some?
  {
    var mem := if sys.mem.Some? then Some(sys.mem.value.db) else None;
    Ca.Sys(sys.commit.fs.index.value.rows, sys.commit.fs.serial, mem)
  }

  // The operations of a phase.
  function Length(env: Env, sys: Sys, step: Ca.Step): nat
    requires sys.mem.Some? && Ca.IsPhase(step)
  {
    match Ca.Phase(env, sys.mem.value.db, sys.commit.fs.serial, step)
    case Saves(db, serial, certificates) =>
      Commit.Steps(PlanOf(SavedMem(sys.mem.value, sys.commit.fs.serial, step, db), serial, certificates))
    case _ => 0
  }

  lemma UndisturbedIsSimple(env: Env, configured: bool, unique: bool, sys: Sys, step: Ca.Step)
    requires sys.commit.pc.Idle? && sys.commit.fs.index.Some? && sys.mem.Some?
    requires Ca.IsPhase(step) && Ca.StepOk(env, step)
    ensures var n := Length(env, sys, step);
            && EventsOk(env, Alone(n))
            && var end := Run(env, configured, Next(env, configured, sys, Phase(step)), Alone(n));
               && end.commit.pc.Idle? && end.commit.fs.index.Some?
               && Simple(end) == Ca.Next(env, unique, Simple(sys), step)
  {
    hide Ca.Phase, Ca.Save, Ca.StepOk, Commit.Step, Commit.LeftAlone;
    var out := Ca.Phase(env, sys.mem.value.db, sys.commit.fs.serial, step);
    var sys1, n := Next(env, configured, sys, Phase(step)), Length(env, sys, step);
    assert Alone(0) == [];
    if out.Saves? {
      var plan := PlanOf(SavedMem(sys.mem.value, sys.commit.fs.serial, step, out.db), out.serial, out.certificates);
      forall k | 0 <= k < n ensures Commit.LeftAlone(sys1.commit, k).pc.At? {
        Commit.BusyUntilLast(sys.commit, plan, k);
      }
      Commit.StopsBeforeLast(sys.commit, plan);
      RunAlone(env, configured, sys1, n);
      Commit.UndisturbedCommit(sys.commit, plan);
    }
  }

  // The certificates of an issue phase are written once everything is saved, and before any live file is replaced; no
  // other phase writes certificates.
  lemma CertificatesFirst(env: Env, configured: bool, sys: Sys, step: Ca.Step)
    requires MemOk(sys) && sys.commit.pc.Idle? && sys.commit.fs.index.Some? && sys.mem.Some?
    requires Ca.IsPhase(step) && Ca.StepOk(env, step) && ToSave(env, sys, step).Some?
    ensures var saved := if step.Issue? && !step.source.ByConfig? then 3 else 2;
            var st := Commit.LeftAlone(Next(env, configured, sys, Phase(step)).commit, saved);
            && st.pc.At? && (st.pc.op == Commit.WriteCertificates <==> step.Issue?)
            && st.fs.indexNew == Some(ToSave(env, sys, step).value.ToIndex())
            && Commit.SameLive(sys.commit.fs, st.fs)
  {
    var fs := sys.commit.fs;
    var out := Ca.Phase(env, sys.mem.value.db, fs.serial, step);
    if step.Issue? { IssueSaves(env, sys.mem.value.db, fs.serial, step); }
    NoNumber(env, sys.mem.value.db, fs.serial, step);
    var plan := PlanOf(SavedMem(sys.mem.value, fs.serial, step, out.db), out.serial, out.certificates);
    hide Ca.Phase, Ca.StepOk, Commit.Step, Commit.LeftAlone, Db.Indexed, Ca.AllGood;
    Commit.BeforeCertificates(sys.commit, plan);
  }
}
