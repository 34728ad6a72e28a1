// How the certificate authority replaces its files (apps/ca.c): the serial file and the index file are each saved under
// a new name and then rotated into place (rotate_serial and rotate_index of apps/lib/apps.c).  Every rename is a step
// that can fail, and the process can stop at any step.
module Commit {
  import opened Prelude

  // The files, each under its live, new and old name: the serial file with the next serial, the index, and the
  // attribute file with the unique_subject setting.
  datatype Fs<T> = Fs(
    serial: Option<int>, serialNew: Option<int>, serialOld: Option<int>,
    index: Option<T>, indexNew: Option<T>, indexOld: Option<T>,
    attr: Option<bool>, attrNew: Option<bool>, attrOld: Option<bool>)

  // What a run is to leave: a number in the serial file, unless it does not touch that file, an index and a setting;
  // and whether it writes certificates in between.
  datatype Plan<T> = Plan(serial: Option<int>, table: T, certificates: bool, unique: bool)

  datatype Op =
    | SaveSerial | SaveIndex | SaveAttr | WriteCertificates
    | SerialToOld | SerialFromNew | SerialUndo
    | IndexToOld | IndexFromNew | IndexUndo
    | AttrToOld | AttrFromNew | AttrUndo | IndexBackToNew | IndexBackFromOld

  // Where the process is: before an operation, or not committing anything.
  datatype Pc<T> = Idle | At(op: Op, plan: Plan<T>)

  datatype State<T> = State(fs: Fs<T>, pc: Pc<T>)

  // What happens next: a commit starts; the pending operation works; it fails without effect; or the process stops.
  datatype Event<T> = Begin(plan: Plan<T>) | Works | Fails | Dies

  // rename(from, to): the new contents of the two files.  It fails if there is no file to rename.
  function Renamed<X>(from: Option<X>, to: Option<X>): (r: (Option<X>, Option<X>))
  {
    if from.Some? then (None, from) else (from, to)
  }

  // The first rename of a plan.
  function FirstRename<T>(plan: Plan<T>): Op
  {
    if plan.serial.Some? then SerialToOld else IndexToOld
  }

  function Step<T>(st: State<T>, ev: Event<T>): (st': State<T>)
  {
    if ev.Begin? then
      // a run needs an index to load
      if !st.pc.Idle? || st.fs.index.None? then st
      else st.(pc := At(if ev.plan.serial.Some? then SaveSerial else SaveIndex, ev.plan))
    else if ev.Dies? || st.pc.Idle? then st.(pc := Idle)
    else
      var fs := st.fs;
      match st.pc.op
      case SaveSerial | SaveIndex | SaveAttr | WriteCertificates => Save(fs, st.pc.op, st.pc.plan, ev.Works?)
      case SerialToOld | SerialFromNew | SerialUndo => RotateSerial(fs, st.pc.op, st.pc.plan, ev.Works?)
      case IndexToOld | IndexFromNew | IndexUndo => RotateIndex(fs, st.pc.op, st.pc.plan, ev.Works?)
      case _ => RotateAttr(fs, st.pc.op, st.pc.plan, ev.Works?)
  }

  // save_serial, save_index and the writing of the certificates.
  function Save<T>(fs: Fs<T>, op: Op, plan: Plan<T>, ok: bool): State<T>
  {
    if !ok then State(fs, Idle)
    else
      match op
      case SaveSerial => State(fs.(serialNew := plan.serial), At(SaveIndex, plan))
      case SaveIndex => State(fs.(indexNew := Some(plan.table)), At(SaveAttr, plan))
      case SaveAttr =>
        State(fs.(attrNew := Some(plan.unique)),
              At(if plan.certificates then WriteCertificates else FirstRename(plan), plan))
      case _ => State(fs, At(FirstRename(plan), plan))
  }

  // rotate_serial: a missing live file is tolerated.
  function RotateSerial<T>(fs: Fs<T>, op: Op, plan: Plan<T>, ok: bool): State<T>
  {
    match op
    case SerialToOld =>
      var (a, b) := Renamed(fs.serial, fs.serialOld);
      if fs.serial.None? then State(fs, At(SerialFromNew, plan))
      else if ok then State(fs.(serial := a, serialOld := b), At(SerialFromNew, plan))
      else State(fs, Idle)
    case SerialFromNew =>
      var (a, b) := Renamed(fs.serialNew, fs.serial);
      if ok && fs.serialNew.Some? then State(fs.(serialNew := a, serial := b), At(IndexToOld, plan))
      else State(fs, At(SerialUndo, plan))
    case _ =>
      var (a, b) := Renamed(fs.serialOld, fs.serial);
      State(if ok then fs.(serialOld := a, serial := b) else fs, Idle)
  }

  // rotate_index, the renames of the index.
  function RotateIndex<T>(fs: Fs<T>, op: Op, plan: Plan<T>, ok: bool): State<T>
  {
    match op
    case IndexToOld =>
      var (a, b) := Renamed(fs.index, fs.indexOld);
      if fs.index.None? then State(fs, At(IndexFromNew, plan))
      else if ok then State(fs.(index := a, indexOld := b), At(IndexFromNew, plan))
      else State(fs, Idle)
    case IndexFromNew =>
      var (a, b) := Renamed(fs.indexNew, fs.index);
      if ok && fs.indexNew.Some? then State(fs.(indexNew := a, index := b), At(AttrToOld, plan))
      else State(fs, At(IndexUndo, plan))
    case _ =>
      var (a, b) := Renamed(fs.indexOld, fs.index);
      State(if ok then fs.(indexOld := a, index := b) else fs, Idle)
  }

  // rotate_index, the renames of the attribute file and what undoes those of the index.
  function RotateAttr<T>(fs: Fs<T>, op: Op, plan: Plan<T>, ok: bool): State<T>
  {
    match op
    case AttrToOld =>
      var (a, b) := Renamed(fs.attr, fs.attrOld);
      if fs.attr.None? then State(fs, At(AttrFromNew, plan))
      else if ok then State(fs.(attr := a, attrOld := b), At(AttrFromNew, plan))
      else State(fs, At(IndexBackToNew, plan))
    case AttrFromNew =>
      var (a, b) := Renamed(fs.attrNew, fs.attr);
      if ok && fs.attrNew.Some? then State(fs.(attrNew := a, attr := b), Idle) else State(fs, At(AttrUndo, plan))
    case AttrUndo =>
      var (a, b) := Renamed(fs.attrOld, fs.attr);
      State(if ok then fs.(attrOld := a, attr := b) else fs, At(IndexBackToNew, plan))
    case IndexBackToNew =>
      var (a, b) := Renamed(fs.index, fs.indexNew);
      State(if ok then fs.(index := a, indexNew := b) else fs, At(IndexBackFromOld, plan))
    case _ =>
      var (a, b) := Renamed(fs.indexOld, fs.index);
      State(if ok then fs.(indexOld := a, index := b) else fs, Idle)
  }

  function Exec<T>(st: State<T>, events: seq<Event<T>>): (st': State<T>)
    decreases |events|
  {
    if events == [] then st else Step(Exec(st, events[..|events| - 1]), events[|events| - 1])
  }

  // -------------------------------------------------------------------------
  // Any relation between an index and the number in the serial file, which may be missing, holds at every moment if it
  // holds at first and every commit is prepared for it.

  type Fit<!T> = (T, Option<int>) -> bool

  ghost predicate Fits<T>(fit: Fit<T>, fs: Fs<T>)
  {
    fs.index.Some? ==> fit(fs.index.value, fs.serial)
  }

  // The pairs that can be live while the commit lasts or after it: the old index without a number and with the new one,
  // the new index with the new number, and, if there was no number, the old index with the one kept from before.
  ghost predicate Prepared<T>(fit: Fit<T>, fs: Fs<T>, plan: Plan<T>)
  {
    fs.index.Some? ==>
      if plan.serial.None? then fit(plan.table, fs.serial)
      else
        && fit(fs.index.value, None) && fit(fs.index.value, plan.serial) && fit(plan.table, plan.serial)
        && (fs.serial.None? ==> fit(fs.index.value, fs.serialOld))
  }

  ghost predicate OldFits<T>(fit: Fit<T>, fs: Fs<T>)
  {
    fs.indexOld.Some? ==> fit(fs.indexOld.value, fs.serial)
  }

  // What holds before each operation.
  ghost predicate Inv<T>(fit: Fit<T>, st: State<T>)
  {
    var fs := st.fs;
    && Fits(fit, fs)
    && (st.pc.At? ==>
          var plan := st.pc.plan;
          match st.pc.op
          case SaveSerial => Prepared(fit, fs, plan) && fs.index.Some? && plan.serial.Some?
          case SaveIndex => Prepared(fit, fs, plan) && fs.index.Some? && NumberSaved(fs, plan)
          case SaveAttr => Prepared(fit, fs, plan) && Saved(fs, plan)
          case WriteCertificates => Prepared(fit, fs, plan) && Saved(fs, plan)
          case SerialToOld => Prepared(fit, fs, plan) && Saved(fs, plan) && plan.serial.Some?
          case SerialFromNew => Prepared(fit, fs, plan) && Saved(fs, plan) && plan.serial.Some? && fs.serial.None?
          case SerialUndo => fs.serial.None? && fs.index.Some? && fit(fs.index.value, fs.serialOld)
          case IndexToOld => fs.index.Some? && fs.indexNew == Some(plan.table) && fit(plan.table, fs.serial)
          case IndexFromNew =>
            fs.index.None? && OldFits(fit, fs) && (fs.indexNew.Some? ==> fit(fs.indexNew.value, fs.serial))
          case IndexUndo => fs.index.None? && OldFits(fit, fs)
          case _ => OldFits(fit, fs))
  }

  predicate NumberSaved<T>(fs: Fs<T>, plan: Plan<T>)
  {
    plan.serial.Some? ==> fs.serialNew == plan.serial
  }

  ghost predicate Saved<T>(fs: Fs<T>, plan: Plan<T>)
  {
    NumberSaved(fs, plan) && fs.index.Some? && fs.indexNew == Some(plan.table)
  }

  lemma SaveInv<T>(fit: Fit<T>, st: State<T>, ok: bool)
    requires Inv(fit, st) && st.pc.At?
    requires st.pc.op.SaveSerial? || st.pc.op.SaveIndex? || st.pc.op.SaveAttr? || st.pc.op.WriteCertificates?
    ensures Inv(fit, Save(st.fs, st.pc.op, st.pc.plan, ok))
  {
  }

  lemma SerialInv<T>(fit: Fit<T>, st: State<T>, ok: bool)
    requires Inv(fit, st) && st.pc.At?
    requires st.pc.op.SerialToOld? || st.pc.op.SerialFromNew? || st.pc.op.SerialUndo?
    ensures Inv(fit, RotateSerial(st.fs, st.pc.op, st.pc.plan, ok))
  {
  }

  lemma IndexInv<T>(fit: Fit<T>, st: State<T>, ok: bool)
    requires Inv(fit, st) && st.pc.At?
    requires st.pc.op.IndexToOld? || st.pc.op.IndexFromNew? || st.pc.op.IndexUndo?
    ensures Inv(fit, RotateIndex(st.fs, st.pc.op, st.pc.plan, ok))
  {
  }

  lemma AttrInv<T>(fit: Fit<T>, st: State<T>, ok: bool)
    requires Inv(fit, st) && st.pc.At?
    requires || st.pc.op.AttrToOld? || st.pc.op.AttrFromNew? || st.pc.op.AttrUndo?
             || st.pc.op.IndexBackToNew? || st.pc.op.IndexBackFromOld?
    ensures Inv(fit, RotateAttr(st.fs, st.pc.op, st.pc.plan, ok))
  {
  }

  lemma StepInv<T>(fit: Fit<T>, st: State<T>, ev: Event<T>)
    requires Inv(fit, st) && (ev.Begin? && st.pc.Idle? ==> Prepared(fit, st.fs, ev.plan))
    ensures Inv(fit, Step(st, ev))
  {
    if !ev.Begin? && !ev.Dies? && st.pc.At? {
      hide Inv, Save, RotateSerial, RotateIndex, RotateAttr;
      match st.pc.op {
        case SaveSerial | SaveIndex | SaveAttr | WriteCertificates => SaveInv(fit, st, ev.Works?);
        case SerialToOld | SerialFromNew | SerialUndo => SerialInv(fit, st, ev.Works?);
        case IndexToOld | IndexFromNew | IndexUndo => IndexInv(fit, st, ev.Works?);
        case _ => AttrInv(fit, st, ev.Works?);
      }
    }
  }

  // Every commit of a sequence of events is prepared when it begins.
  ghost predicate AllPrepared<T>(fit: Fit<T>, st: State<T>, events: seq<Event<T>>)
  {
    forall i :: 0 <= i < |events| && events[i].Begin? && Exec(st, events[..i]).pc.Idle? ==>
      Prepared(fit, Exec(st, events[..i]).fs, events[i].plan)
  }

  // The relation holds at every moment of any number of commits, with any failures and stops.
  lemma {:induction false} ExecInv<T>(fit: Fit<T>, st: State<T>, events: seq<Event<T>>)
    requires Inv(fit, st) && AllPrepared(fit, st, events)
    ensures Inv(fit, Exec(st, events))
    decreases |events|
  {
    if events != [] {
      hide Inv, Step, Prepared;
      var n := |events| - 1;
      assert forall i :: 0 <= i < n ==> events[..n][i] == events[i] && events[..n][..i] == events[..i];
      ExecInv(fit, st, events[..n]);
      StepInv(fit, Exec(st, events[..n]), events[n]);
    }
  }

  // -------------------------------------------------------------------------
  // Where the index is during a commit: the one it began with under the live name or, once it was moved, the old one,
  // and the new one under the new name or, once it was put in place, the live one.

  ghost predicate Placed<T>(before: T, st: State<T>)
  {
    st.pc.At? ==>
      var fs, next := st.fs, st.pc.plan.table;
      match st.pc.op
      case SaveSerial | SaveIndex | SerialUndo => fs.index == Some(before)
      case SaveAttr | WriteCertificates | SerialToOld | SerialFromNew | IndexToOld =>
        fs.index == Some(before) && fs.indexNew == Some(next)
      case IndexFromNew => fs.index.None? && fs.indexOld == Some(before) && fs.indexNew == Some(next)
      case IndexUndo => fs.index.None? && fs.indexOld == Some(before)
      case AttrToOld | AttrFromNew | AttrUndo | IndexBackToNew =>
        fs.index == Some(next) && fs.indexOld == Some(before)
      case IndexBackFromOld => (fs.index.None? || fs.index == Some(next)) && fs.indexOld == Some(before)
  }

  lemma StepPlaced<T>(before: T, st: State<T>, ev: Event<T>)
    requires Placed(before, st) && !ev.Begin?
    ensures Placed(before, Step(st, ev))
  {
  }

  lemma PlanStays<T>(st: State<T>, ev: Event<T>)
    requires st.pc.At?
    ensures Step(st, ev).pc.At? ==> Step(st, ev).pc.plan == st.pc.plan
  {
  }

  lemma LastRename<T>(before: T, st: State<T>)
    requires Placed(before, st) && st.pc.At? && st.pc.op.AttrFromNew?
    ensures Step(st, Works).pc.Idle? ==> Step(st, Works).fs.index == Some(st.pc.plan.table)
  {
  }

  // -------------------------------------------------------------------------
  // A process that is left alone for n operations.

  function LeftAlone<T>(st: State<T>, n: nat): (st': State<T>)
  {
    if n == 0 then st else Step(LeftAlone(st, n - 1), Works)
  }

  lemma {:induction false} LeftAloneMore<T>(st: State<T>, m: nat, n: nat)
    ensures LeftAlone(st, m + n) == LeftAlone(LeftAlone(st, m), n)
  {
    if n > 0 { LeftAloneMore(st, m, n - 1); }
  }

  lemma TwoAlone<T>(st: State<T>)
    ensures LeftAlone(st, 1) == Step(st, Works) && LeftAlone(st, 2) == Step(Step(st, Works), Works)
  {
    assert LeftAlone(st, 0) == st;
  }

  // The number of operations before the first rename, and in all.
  function SavingSteps<T>(plan: Plan<T>): nat
  {
    2 + (if plan.serial.Some? then 1 else 0) + if plan.certificates then 1 else 0
  }

  function Steps<T>(plan: Plan<T>): nat
  {
    SavingSteps(plan) + (if plan.serial.Some? then 2 else 0) + 4
  }

  // What a rename of a live file that may be missing leaves under the old name.
  function Kept<X>(live: Option<X>, old': Option<X>): Option<X>
  {
    if live.Some? then live else old'
  }

  function SavedFs<T>(fs: Fs<T>, plan: Plan<T>): Fs<T>
  {
    fs.(serialNew := if plan.serial.Some? then plan.serial else fs.serialNew,
        indexNew := Some(plan.table), attrNew := Some(plan.unique))
  }

  lemma SavesAlone<T>(st: State<T>, plan: Plan<T>)
    requires st.pc.Idle? && st.fs.index.Some?
    ensures LeftAlone(Step(st, Begin(plan)), SavingSteps(plan))
         == State(SavedFs(st.fs, plan), At(FirstRename(plan), plan))
  {
    var s0 := Step(st, Begin(plan));
    var i := if plan.serial.Some? then 1 else 0;
    TwoAlone(s0);
    var s1 := LeftAlone(s0, i);
    assert s1.pc == At(SaveIndex, plan);
    LeftAloneMore(s0, i, 2);
    TwoAlone(s1);
    var s2 := LeftAlone(s1, 2);
    if plan.certificates {
      LeftAloneMore(s0, i + 2, 1);
      TwoAlone(s2);
    }
  }

  // Before the certificates are written, or after the last save if there are none.
  lemma BeforeCertificates<T>(st: State<T>, plan: Plan<T>)
    requires st.pc.Idle? && st.fs.index.Some?
    ensures var saved := if plan.serial.Some? then 3 else 2;
            LeftAlone(Step(st, Begin(plan)), saved) ==
            State(SavedFs(st.fs, plan), At(if plan.certificates then WriteCertificates else FirstRename(plan), plan))
  {
    var s0 := Step(st, Begin(plan));
    var i := if plan.serial.Some? then 1 else 0;
    TwoAlone(s0);
    LeftAloneMore(s0, i, 2);
    TwoAlone(LeftAlone(s0, i));
  }

  lemma SerialRotates<T>(fs: Fs<T>, plan: Plan<T>)
    requires fs.serialNew.Some?
    ensures var old', st := Kept(fs.serial, fs.serialOld), State(fs, At(SerialToOld, plan));
            && LeftAlone(st, 1) == State(fs.(serial := None, serialOld := old'), At(SerialFromNew, plan))
            && LeftAlone(st, 2)
               == State(fs.(serial := fs.serialNew, serialNew := None, serialOld := old'), At(IndexToOld, plan))
  {
    TwoAlone(State(fs, At(SerialToOld, plan)));
  }

  lemma IndexRotates<T>(fs: Fs<T>, plan: Plan<T>)
    requires fs.index.Some? && fs.indexNew.Some?
    ensures LeftAlone(State(fs, At(IndexToOld, plan)), 2)
         == State(fs.(index := fs.indexNew, indexNew := None, indexOld := fs.index), At(AttrToOld, plan))
  {
    TwoAlone(State(fs, At(IndexToOld, plan)));
  }

  lemma AttrRotates<T>(fs: Fs<T>, plan: Plan<T>)
    requires fs.attrNew.Some?
    ensures var old', st := Kept(fs.attr, fs.attrOld), State(fs, At(AttrToOld, plan));
            && LeftAlone(st, 1) == State(fs.(attr := None, attrOld := old'), At(AttrFromNew, plan))
            && LeftAlone(st, 2) == State(fs.(attr := fs.attrNew, attrNew := None, attrOld := old'), Idle)
  {
    TwoAlone(State(fs, At(AttrToOld, plan)));
  }

  // The files when the index is about to be rotated, and when the attributes are.
  function AtIndex<T>(fs: Fs<T>, plan: Plan<T>): Fs<T>
  {
    var saved := SavedFs(fs, plan);
    if plan.serial.None? then saved
    else saved.(serial := plan.serial, serialNew := None, serialOld := Kept(fs.serial, fs.serialOld))
  }

  function AtAttr<T>(fs: Fs<T>, plan: Plan<T>): Fs<T>
  {
    AtIndex(fs, plan).(index := Some(plan.table), indexNew := None, indexOld := fs.index)
  }

  lemma ReachesRenames<T>(st: State<T>, plan: Plan<T>)
    requires st.pc.Idle? && st.fs.index.Some?
    ensures var s0, m := Step(st, Begin(plan)), Steps(plan);
            && LeftAlone(s0, m - 4) == State(AtIndex(st.fs, plan), At(IndexToOld, plan))
            && LeftAlone(s0, m - 2) == State(AtAttr(st.fs, plan), At(AttrToOld, plan))
  {
    hide LeftAlone, Step;
    var s0, m := Step(st, Begin(plan)), Steps(plan);
    SavesAlone(st, plan);
    if plan.serial.Some? {
      SerialRotates(SavedFs(st.fs, plan), plan);
      LeftAloneMore(s0, m - 6, 2);
    }
    IndexRotates(AtIndex(st.fs, plan), plan);
    LeftAloneMore(s0, m - 4, 2);
  }

  // A commit that nothing disturbs leaves what it planned, and keeps the old files; a serial file or an attribute file
  // that was missing, as in the first run of a new authority, is created.
  lemma UndisturbedCommit<T>(st: State<T>, plan: Plan<T>)
    requires st.pc.Idle? && st.fs.index.Some?
    ensures var end, fs := LeftAlone(Step(st, Begin(plan)), Steps(plan)), st.fs;
            && end.pc.Idle? && end.fs.index == Some(plan.table) && end.fs.attr == Some(plan.unique)
            && end.fs.serial == (if plan.serial.Some? then plan.serial else fs.serial)
            && end.fs.serialOld == (if plan.serial.Some? then Kept(fs.serial, fs.serialOld) else fs.serialOld)
            && end.fs.indexOld == fs.index && end.fs.attrOld == Kept(fs.attr, fs.attrOld)
  {
    hide LeftAlone, Step;
    ReachesRenames(st, plan);
    AttrRotates(AtAttr(st.fs, plan), plan);
    LeftAloneMore(Step(st, Begin(plan)), Steps(plan) - 2, 2);
  }

  // A commit that stops between the two renames of the attribute file.
  lemma StopsBeforeLast<T>(st: State<T>, plan: Plan<T>)
    requires st.pc.Idle? && st.fs.index.Some?
    ensures var late, fs := LeftAlone(Step(st, Begin(plan)), Steps(plan) - 1), AtAttr(st.fs, plan);
            late == State(fs.(attr := None, attrOld := Kept(fs.attr, fs.attrOld)), At(AttrFromNew, plan))
  {
    hide LeftAlone, Step;
    ReachesRenames(st, plan);
    AttrRotates(AtAttr(st.fs, plan), plan);
    LeftAloneMore(Step(st, Begin(plan)), Steps(plan) - 2, 1);
  }

  // An undisturbed commit is not over before its last operation.
  lemma {:induction false} BusyUntilLast<T>(st: State<T>, plan: Plan<T>, k: nat)
    requires st.pc.Idle? && st.fs.index.Some? && k < Steps(plan)
    ensures LeftAlone(Step(st, Begin(plan)), k).pc.At?
    decreases Steps(plan) - k
  {
    if k == Steps(plan) - 1 {
      StopsBeforeLast(st, plan);
    } else {
      BusyUntilLast(st, plan, k + 1);
    }
  }

  // -------------------------------------------------------------------------
  // A commit in which one operation fails, and what undoes the ones before it works.

  predicate IsSave(op: Op)
  {
    op.SaveSerial? || op.SaveIndex? || op.SaveAttr? || op.WriteCertificates?
  }

  predicate SameLive<T(==)>(a: Fs<T>, b: Fs<T>)
  {
    a.serial == b.serial && a.index == b.index && a.attr == b.attr
  }

  // A step of saving comes after one of saving, and none touches a live file.
  lemma {:induction false} SavingIsSafe<T>(st: State<T>, plan: Plan<T>, n: nat)
    requires st.pc.Idle? && st.fs.index.Some? && n < SavingSteps(plan)
    ensures var s := LeftAlone(Step(st, Begin(plan)), n);
            s.pc.At? && s.pc.plan == plan && IsSave(s.pc.op) && SavesLeft(s.pc.op, plan) == SavingSteps(plan) - n
            && SameLive(st.fs, s.fs)
  {
    if n > 0 { SavingIsSafe(st, plan, n - 1); }
  }

  function SavesLeft<T>(op: Op, plan: Plan<T>): nat
  {
    var last := if plan.certificates then 1 else 0;
    match op
    case SaveSerial => 3 + last
    case SaveIndex => 2 + last
    case SaveAttr => 1 + last
    case _ => last
  }

  lemma ThreeAlone<T>(st: State<T>)
    ensures LeftAlone(st, 3) == Step(Step(Step(st, Works), Works), Works)
  {
    hide Step;
    TwoAlone(st);
  }

  // The live files after operation n of a commit failed: the index is the one from before.  So is the setting, or it
  // is what was kept of it.  The serial is the one from before, or what was kept of it, until it was rotated; that is
  // not undone.
  ghost predicate Undone<T>(fs: Fs<T>, plan: Plan<T>, n: nat, end: State<T>)
  {
    var m := Steps(plan);
    && end.pc.Idle? && end.fs.index == fs.index
    && end.fs.attr == (if n == m - 1 then Kept(fs.attr, fs.attrOld) else fs.attr)
    && end.fs.serial ==
       if plan.serial.None? || n < m - 5 then fs.serial
       else if n == m - 5 then Kept(fs.serial, fs.serialOld)
       else plan.serial
  }

  // The index and the setting that were saved are still there under their new names.
  ghost predicate StillSaved<T>(plan: Plan<T>, fs: Fs<T>)
  {
    fs.indexNew == Some(plan.table) && fs.attrNew == Some(plan.unique)
  }

  // The rename of a missing file does not count as a failure.
  lemma OneFailureUndone<T>(st: State<T>, plan: Plan<T>, n: nat)
    requires st.pc.Idle? && st.fs.index.Some? && n < Steps(plan)
    requires plan.serial.Some? && n == Steps(plan) - 6 ==> st.fs.serial.Some?
    requires n == Steps(plan) - 2 ==> st.fs.attr.Some?
    ensures var end := LeftAlone(Step(LeftAlone(Step(st, Begin(plan)), n), Fails), 3);
            Undone(st.fs, plan, n, end) && (n >= SavingSteps(plan) ==> StillSaved(plan, end.fs))
  {
    var s0, m := Step(st, Begin(plan)), Steps(plan);
    var failed := Step(LeftAlone(s0, n), Fails);
    ThreeAlone(failed);
    if n < SavingSteps(plan) {
      SavingIsSafe(st, plan, n);
    } else if n < m - 4 {
      SavesAlone(st, plan);
      SerialRotates(SavedFs(st.fs, plan), plan);
      LeftAloneMore(s0, m - 6, n - (m - 6));
      SerialFailure(SavedFs(st.fs, plan), plan, n - (m - 6));
    } else {
      ReachesRenames(st, plan);
      if n < m - 2 {
        LeftAloneMore(s0, m - 4, n - (m - 4));
        IndexFailure(AtIndex(st.fs, plan), plan, n - (m - 4));
      } else {
        LeftAloneMore(s0, m - 2, n - (m - 2));
        AttrFailure(AtAttr(st.fs, plan), plan, n - (m - 2));
      }
    }
  }

  lemma SerialFailure<T>(fs: Fs<T>, plan: Plan<T>, k: nat)
    requires k < 2 && (k == 0 ==> fs.serial.Some?)
    ensures var failed := Step(LeftAlone(State(fs, At(SerialToOld, plan)), k), Fails);
            var end := Step(Step(Step(failed, Works), Works), Works);
            && end.pc.Idle? && end.fs.index == fs.index && end.fs.attr == fs.attr
            && end.fs.indexNew == fs.indexNew && end.fs.attrNew == fs.attrNew
            && end.fs.serial == if k == 0 then fs.serial else Kept(fs.serial, fs.serialOld)
  {
    TwoAlone(State(fs, At(SerialToOld, plan)));
  }

  lemma IndexFailure<T>(fs: Fs<T>, plan: Plan<T>, k: nat)
    requires k < 2 && fs.index.Some?
    ensures var failed := Step(LeftAlone(State(fs, At(IndexToOld, plan)), k), Fails);
            var end := Step(Step(Step(failed, Works), Works), Works);
            end.pc.Idle? && SameLive(end.fs, fs) && end.fs.indexNew == fs.indexNew && end.fs.attrNew == fs.attrNew
  {
    TwoAlone(State(fs, At(IndexToOld, plan)));
  }

  lemma AttrFailure<T>(fs: Fs<T>, plan: Plan<T>, k: nat)
    requires k < 2 && (k == 0 ==> fs.attr.Some?) && fs.index.Some? && fs.indexOld.Some?
    ensures var failed := Step(LeftAlone(State(fs, At(AttrToOld, plan)), k), Fails);
            var end := Step(Step(Step(failed, Works), Works), Works);
            && end.pc.Idle? && end.fs.index == fs.indexOld && end.fs.serial == fs.serial
            && end.fs.indexNew == fs.index && end.fs.attrNew == fs.attrNew
            && end.fs.attr == if k == 0 then fs.attr else Kept(fs.attr, fs.attrOld)
  {
    var st := State(fs, At(AttrToOld, plan));
    TwoAlone(st);
    var failed := Step(LeftAlone(st, k), Fails);
    if k == 0 {
      assert failed == State(fs, At(IndexBackToNew, plan));
      hide LeftAlone;
      IndexBack(fs, plan);
    } else {
      var fs1 := fs.(attr := None, attrOld := Kept(fs.attr, fs.attrOld));
      assert failed == State(fs1, At(AttrUndo, plan));
      var fs2 := Step(failed, Works).fs;
      assert Step(failed, Works) == State(fs2, At(IndexBackToNew, plan));
      hide LeftAlone;
      IndexBack(fs2, plan);
    }
  }

  // The two renames that put the old index back, and no operation after them.
  lemma IndexBack<T>(fs: Fs<T>, plan: Plan<T>)
    requires fs.index.Some? && fs.indexOld.Some?
    ensures var end := State(fs.(index := fs.indexOld, indexNew := fs.index, indexOld := None), Idle);
            var two := Step(Step(State(fs, At(IndexBackToNew, plan)), Works), Works);
            two == end && Step(two, Works) == end
  {
  }

  // -------------------------------------------------------------------------
  // What one commit can do, whatever fails and wherever it stops.

  // The operations of one process: no other commit begins.
  predicate NoBegin<T(!new)>(ops: seq<Event<T>>)
  {
    forall i :: 0 <= i < |ops| ==> !ops[i].Begin?
  }

  ghost predicate AlwaysFits<T(!new)>(fit: Fit<T>, st: State<T>)
  {
    forall ops: seq<Event<T>> :: NoBegin(ops) ==> Fits(fit, Exec(st, ops).fs)
  }

  function Alone<T>(n: nat): (ops: seq<Event<T>>)
    ensures |ops| == n && forall i :: 0 <= i < n ==> ops[i] == Works
  {
    seq(n, _ => Works)
  }

  lemma {:induction false} ExecAlone<T(!new)>(st: State<T>, n: nat)
    ensures NoBegin(Alone<T>(n)) && Exec(st, Alone<T>(n)) == LeftAlone(st, n)
  {
    hide Step;
    if n > 0 {
      ExecAlone(st, n - 1);
      assert Alone<T>(n)[..n - 1] == Alone<T>(n - 1);
    }
  }

  // Then one operation fails and the next works.
  function FailsAfter<T>(n: nat): seq<Event<T>>
  {
    Alone<T>(n) + [Fails, Works]
  }

  lemma ExecFailsAfter<T(!new)>(st: State<T>, n: nat)
    ensures NoBegin(FailsAfter<T>(n)) && Exec(st, FailsAfter<T>(n)) == Step(Step(LeftAlone(st, n), Fails), Works)
  {
    hide Step;
    ExecAlone(st, n);
    var ops := Alone<T>(n);
    assert FailsAfter<T>(n)[..n + 1] == ops + [Fails] && (ops + [Fails])[..n] == ops;
    assert Exec(st, ops + [Fails]) == Step(LeftAlone(st, n), Fails);
  }

  lemma FitsAlone<T(!new)>(fit: Fit<T>, st: State<T>, n: nat)
    requires AlwaysFits(fit, st)
    ensures Fits(fit, LeftAlone(st, n).fs) && Fits(fit, Step(Step(LeftAlone(st, n), Fails), Works).fs)
  {
    hide Step, Fits, Exec;
    ExecAlone(st, n);
    ExecFailsAfter(st, n);
  }

  // A relation holds at every moment of a commit, whatever fails and wherever it stops, exactly if it is prepared.
  lemma CommitKeepsIff<T(!new)>(fit: Fit<T>, st: State<T>, plan: Plan<T>)
    requires st.pc.Idle? && st.fs.index.Some? && Fits(fit, st.fs)
    ensures AlwaysFits(fit, Step(st, Begin(plan))) <==> Prepared(fit, st.fs, plan)
  {
    if Prepared(fit, st.fs, plan) {
      forall ops: seq<Event<T>> | NoBegin(ops) ensures Fits(fit, Exec(Step(st, Begin(plan)), ops).fs) {
        PreparedFits(fit, st, plan, ops);
      }
    }
    if AlwaysFits(fit, Step(st, Begin(plan))) { AlwaysPrepared(fit, st, plan); }
  }

  lemma PreparedFits<T(!new)>(fit: Fit<T>, st: State<T>, plan: Plan<T>, ops: seq<Event<T>>)
    requires st.pc.Idle? && Fits(fit, st.fs) && Prepared(fit, st.fs, plan) && NoBegin(ops)
    ensures Fits(fit, Exec(Step(st, Begin(plan)), ops).fs)
  {
    StepInv(fit, st, Begin(plan));
    hide Step, Prepared, Fits, Inv;
    ExecInv(fit, Step(st, Begin(plan)), ops);
    InvFits(fit, Exec(Step(st, Begin(plan)), ops));
  }

  lemma InvFits<T>(fit: Fit<T>, st: State<T>)
    requires Inv(fit, st)
    ensures Fits(fit, st.fs)
  {
  }

  lemma AlwaysPrepared<T(!new)>(fit: Fit<T>, st: State<T>, plan: Plan<T>)
    requires st.pc.Idle? && st.fs.index.Some? && Fits(fit, st.fs) && AlwaysFits(fit, Step(st, Begin(plan)))
    ensures Prepared(fit, st.fs, plan)
  {
    hide LeftAlone, AlwaysFits;
    var s0, m, fs := Step(st, Begin(plan)), Steps(plan), st.fs;
    ReachesRenames(st, plan);
    FitsAlone(fit, s0, m - 2);
    if plan.serial.Some? {
      var saved := SavedFs(fs, plan);
      SavesAlone(st, plan);
      SerialRotates(saved, plan);
      LeftAloneMore(s0, m - 6, 1);
      FitsAlone(fit, s0, m - 4);
      FitsAlone(fit, s0, m - 5);
      assert Step(LeftAlone(s0, m - 5), Fails).pc == At(SerialUndo, plan);
    }
  }

  // -------------------------------------------------------------------------
  // When the new index was live and the one from before is live again.

  // The operation that puts the old index back works.
  predicate PutsBack<T>(st: State<T>, ev: Event<T>)
  {
    st.pc.At? && st.pc.op.IndexBackFromOld? && ev.Works?
  }

  ghost predicate PutBack<T>(st: State<T>, ops: seq<Event<T>>)
  {
    exists j :: 0 <= j < |ops| && PutsBack(Exec(st, ops[..j]), ops[j])
  }

  ghost predicate WasLive<T>(st: State<T>, ops: seq<Event<T>>, index: T)
  {
    exists i :: 0 <= i <= |ops| && Exec(st, ops[..i]).fs.index == Some(index)
  }

  predicate Late(op: Op)
  {
    op.AttrToOld? || op.AttrFromNew? || op.AttrUndo? || op.IndexBackToNew? || op.IndexBackFromOld?
  }

  // What is known of a commit whose old index was put back or not, and whose new one was live or not.
  ghost predicate Traced<T>(before: T, next: T, back: bool, was: bool, st: State<T>)
  {
    && Placed(before, st)
    && match st.pc
       case Idle => if back then was && st.fs.index == Some(before) else was ==> st.fs.index != Some(before)
       case At(op, plan) => plan.table == next && !back && (was <==> Late(op))
  }

  lemma StepTraced<T>(before: T, next: T, back: bool, was: bool, st: State<T>, ev: Event<T>)
    requires before != next && Traced(before, next, back, was, st) && !ev.Begin?
    ensures var st' := Step(st, ev);
            Traced(before, next, back || PutsBack(st, ev), was || st'.fs.index == Some(next), st')
  {
  }

  lemma {:induction false} ExecTraced<T(!new)>(before: T, next: T, st: State<T>, ops: seq<Event<T>>)
    requires before != next && Traced(before, next, false, false, st) && st.fs.index != Some(next) && NoBegin(ops)
    ensures Traced(before, next, PutBack(st, ops), WasLive(st, ops, next), Exec(st, ops))
    decreases |ops|
  {
    hide Traced, PutsBack, Step;
    if ops == [] {
      assert !PutBack(st, ops) && !WasLive(st, ops, next);
    } else {
      var n := |ops| - 1;
      ExecTraced(before, next, st, ops[..n]);
      StepTraced(before, next, PutBack(st, ops[..n]), WasLive(st, ops[..n], next), Exec(st, ops[..n]), ops[n]);
      TraceMore(st, ops, next);
    }
  }

  lemma TraceMore<T>(st: State<T>, ops: seq<Event<T>>, index: T)
    requires ops != []
    ensures var n := |ops| - 1;
            && (PutBack(st, ops) <==> PutBack(st, ops[..n]) || PutsBack(Exec(st, ops[..n]), ops[n]))
            && (WasLive(st, ops, index) <==> WasLive(st, ops[..n], index) || Exec(st, ops).fs.index == Some(index))
  {
    hide Step, PutsBack;
    var n := |ops| - 1;
    assert ops[..|ops|] == ops;
    assert forall i :: 0 <= i <= n ==> ops[..n][..i] == ops[..i];
    assert forall i :: 0 <= i < n ==> ops[..n][i] == ops[i];
  }

  // Once the new index was live, the one from before is live again exactly if the undo of the index renames put it
  // back, which it tries only after a rename of the attribute file failed.
  lemma LiveAgainIff<T(!new)>(st: State<T>, plan: Plan<T>, ops: seq<Event<T>>)
    requires st.pc.Idle? && st.fs.index.Some? && st.fs.index.value != plan.table && NoBegin(ops)
    ensures var s0 := Step(st, Begin(plan));
            WasLive(s0, ops, plan.table) && Exec(s0, ops).fs.index == st.fs.index <==> PutBack(s0, ops)
  {
    ExecTraced(st.fs.index.value, plan.table, Step(st, Begin(plan)), ops);
    hide Exec, WasLive, PutBack;
    BackIsIdle(Step(st, Begin(plan)), ops, st.fs.index.value, plan.table);
  }

  lemma BackIsIdle<T(!new)>(s0: State<T>, ops: seq<Event<T>>, before: T, next: T)
    requires before != next && Traced(before, next, PutBack(s0, ops), WasLive(s0, ops, next), Exec(s0, ops))
    ensures WasLive(s0, ops, next) && Exec(s0, ops).fs.index == Some(before) <==> PutBack(s0, ops)
  {
    hide Exec, WasLive, PutBack;
  }

  // -------------------------------------------------------------------------
  // The setting: what the attribute file says, and what is configured if it is missing.

  function Setting<T>(configured: bool, fs: Fs<T>): bool
  {
    if fs.attr.Some? then fs.attr.value else configured
  }

  // The configured setting is the one in force, and so is the one kept from before if there is no attribute file.
  predicate Agreed<T>(configured: bool, fs: Fs<T>)
  {
    && Setting(configured, fs) == configured
    && (fs.attr.None? && fs.attrOld.Some? ==> fs.attrOld.value == configured)
  }

  predicate AgreedInv<T>(configured: bool, st: State<T>)
  {
    && Agreed(configured, st.fs)
    && (st.pc.At? ==> st.pc.plan.unique == configured)
    && (st.pc.At? && (st.pc.op.AttrFromNew? || st.pc.op.AttrUndo?) ==> st.fs.attr.None?)
    && (st.pc.At? && !st.pc.op.SaveSerial? && !st.pc.op.SaveIndex? && !st.pc.op.SaveAttr? && st.fs.attrNew.Some? ==>
          st.fs.attrNew.value == configured)
  }

  lemma StepAgreed<T>(configured: bool, st: State<T>, ev: Event<T>)
    requires AgreedInv(configured, st) && (ev.Begin? ==> ev.plan.unique == configured)
    ensures AgreedInv(configured, Step(st, ev))
  {
  }

  lemma {:induction false} ExecAgreed<T>(configured: bool, st: State<T>, ops: seq<Event<T>>)
    requires AgreedInv(configured, st)
    requires forall i :: 0 <= i < |ops| && ops[i].Begin? ==> ops[i].plan.unique == configured
    ensures AgreedInv(configured, Exec(st, ops))
    decreases |ops|
  {
    if ops != [] {
      hide AgreedInv, Step;
      ExecAgreed(configured, st, ops[..|ops| - 1]);
      StepAgreed(configured, Exec(st, ops[..|ops| - 1]), ops[|ops| - 1]);
    }
  }

  ghost predicate SettingStays<T(!new)>(configured: bool, st: State<T>, unique: bool)
  {
    forall ops: seq<Event<T>> :: NoBegin(ops) ==> Setting(configured, Exec(st, ops).fs) == unique
  }

  // A commit keeps the setting in force, whatever fails and wherever it stops, exactly if that is the configured one,
  // and the one kept from before if the attribute file is missing.
  lemma SettingStaysIff<T(!new)>(configured: bool, st: State<T>, plan: Plan<T>)
    requires st.pc.Idle? && st.fs.index.Some? && plan.unique == Setting(configured, st.fs)
    ensures SettingStays(configured, Step(st, Begin(plan)), plan.unique) <==> Agreed(configured, st.fs)
  {
    var s0 := Step(st, Begin(plan));
    if Agreed(configured, st.fs) {
      forall ops: seq<Event<T>> | NoBegin(ops) ensures Setting(configured, Exec(s0, ops).fs) == plan.unique {
        ExecAgreed(configured, s0, ops);
      }
    }
    if SettingStays(configured, s0, plan.unique) { StaysAgreed(configured, st, plan); }
  }

  lemma StaysAgreed<T(!new)>(configured: bool, st: State<T>, plan: Plan<T>)
    requires st.pc.Idle? && st.fs.index.Some? && plan.unique == Setting(configured, st.fs)
    requires SettingStays(configured, Step(st, Begin(plan)), plan.unique)
    ensures Agreed(configured, st.fs)
  {
    hide LeftAlone;
    var s0, n, fs := Step(st, Begin(plan)), Steps(plan) - 1, AtAttr(st.fs, plan);
    StopsBeforeLast(st, plan);
    ExecAlone(s0, n);
    ExecFailsAfter(s0, n);
    hide Exec;
    assert Setting(configured, LeftAlone(s0, n).fs) == configured;
    assert Step(LeftAlone(s0, n), Fails).pc == At(AttrUndo, plan);
  }
}
