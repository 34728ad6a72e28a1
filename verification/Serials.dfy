// The serial numbers over the commits of many runs (apps/ca.c): those taken from the serial file against the number in
// that file.
module Serials {
  import opened Prelude
  import opened Commit

  // Where the first serial of a batch comes from: the serial file; the option -rand_serial; the option -create_serial,
  // which counts only if there is no serial file; or the rand_serial setting of the configuration, with which no serial
  // file is used.  With the option -rand_serial the serial file is still written.
  datatype Source = Live | ByOption(first: int) | Created(first: int) | ByConfig(first: int)

  // The first serial of a batch, given the number in the serial file, if there is one.
  function First(serial: Option<int>, source: Source): Option<int>
  {
    match source
    case Live => serial
    case Created(n) => if serial.Some? then serial else Some(n)
    case ByOption(n) => Some(n)
    case ByConfig(n) => Some(n)
  }

  // The serials of the batch are taken from the serial file, or from the number that it is created with.
  predicate Filed(source: Source)
  {
    source.Live? || source.Created?
  }

  // Of the index we keep the serials that were taken from the serial file.
  type Files = Fs<seq<int>>
  type Process = State<seq<int>>

  // A run that issues k certificates or only rewrites the index, as an update or a revocation does; and what can happen
  // to its operations.
  datatype Happening = Issues(source: Source, k: nat, unique: bool) | Rewrites(unique: bool) | Goes | Breaks | Stops

  function Range(lo: int, k: nat): (r: seq<int>)
    ensures |r| == k && forall i :: 0 <= i < k ==> r[i] == lo + i
  {
    seq(k, i requires 0 <= i => lo + i)
  }

  // The plan of a run; None if it fails for want of an index or a serial, or issues nothing.
  function PlanOf(fs: Files, h: Happening): Option<Plan<seq<int>>>
    requires h.Issues? || h.Rewrites?
  {
    if fs.index.None? then None
    else if h.Rewrites? then Some(Plan(None, fs.index.value, false, h.unique))
    else
      var first := First(fs.serial, h.source);
      if first.None? || h.k == 0 then None
      else
        var table := fs.index.value + if Filed(h.source) then Range(first.value, h.k) else [];
        Some(Plan(if h.source.ByConfig? then None else Some(first.value + h.k), table, true, h.unique))
  }

  function Next(st: Process, h: Happening): Process
  {
    match h
    case Goes => Step(st, Works)
    case Breaks => Step(st, Fails)
    case Stops => Step(st, Dies)
    case _ => if PlanOf(st.fs, h).None? then st else Step(st, Begin(PlanOf(st.fs, h).value))
  }

  function Run(st: Process, hs: seq<Happening>): Process
    decreases |hs|
  {
    if hs == [] then st else Next(Run(st, hs[..|hs| - 1]), hs[|hs| - 1])
  }

  predicate Below(t: seq<int>, n: Option<int>)
  {
    n.Some? ==> forall i :: 0 <= i < |t| ==> t[i] < n.value
  }

  const BELOW: Fit<seq<int>> := (t, n) => Below(t, n)

  // Every file-issued serial in the live index is below the live serial number.
  predicate Safe(fs: Files)
  {
    fs.index.Some? ==> Below(fs.index.value, fs.serial)
  }

  // The number that a run is to write is above every file-issued serial; and if there is no serial file, so is the one
  // kept from before, which comes back if the new one cannot be put in place.
  predicate Advances(fs: Files, h: Happening)
  {
    (h.Issues? || h.Rewrites?) && PlanOf(fs, h).Some? && PlanOf(fs, h).value.serial.Some? ==>
      Below(fs.index.value, PlanOf(fs, h).value.serial) && (fs.serial.None? ==> Below(fs.index.value, fs.serialOld))
  }

  // A run that takes its serials from the serial file always advances.
  lemma LiveAdvances(fs: Files, h: Happening)
    requires Safe(fs) && (h.Issues? ==> h.source.Live? || h.source.ByConfig?)
    ensures Advances(fs, h)
  {
  }

  lemma AdvancesIsPrepared(fs: Files, h: Happening)
    requires Safe(fs) && (h.Issues? || h.Rewrites?) && PlanOf(fs, h).Some?
    ensures Advances(fs, h) <==> Prepared(BELOW, fs, PlanOf(fs, h).value)
  {
    var plan := PlanOf(fs, h).value;
    if plan.serial.Some? && Advances(fs, h) {
      forall i | 0 <= i < |plan.table| ensures plan.table[i] < plan.serial.value {
        assert i < |fs.index.value| ==> plan.table[i] == fs.index.value[i];
      }
    }
  }

  lemma NextInv(st: Process, h: Happening)
    requires Inv(BELOW, st) && (st.pc.Idle? ==> Advances(st.fs, h))
    ensures Inv(BELOW, Next(st, h))
  {
    InvFits(BELOW, st);
    hide Inv, Step, PlanOf, Prepared;
    match h {
      case Goes => StepInv(BELOW, st, Works);
      case Breaks => StepInv(BELOW, st, Fails);
      case Stops => StepInv(BELOW, st, Dies);
      case _ =>
        if PlanOf(st.fs, h).Some? {
          AdvancesIsPrepared(st.fs, h);
          StepInv(BELOW, st, Begin(PlanOf(st.fs, h).value));
        }
    }
  }

  ghost predicate AllAdvance(st: Process, hs: seq<Happening>)
  {
    forall i :: 0 <= i < |hs| && Run(st, hs[..i]).pc.Idle? ==> Advances(Run(st, hs[..i]).fs, hs[i])
  }

  lemma {:induction false} RunInv(st: Process, hs: seq<Happening>)
    requires Inv(BELOW, st) && AllAdvance(st, hs)
    ensures Inv(BELOW, Run(st, hs))
    decreases |hs|
  {
    if hs != [] {
      hide Inv, Next, Advances;
      var n := |hs| - 1;
      assert forall i :: 0 <= i < n ==> hs[..n][i] == hs[i] && hs[..n][..i] == hs[..i];
      RunInv(st, hs[..n]);
      NextInv(Run(st, hs[..n]), hs[n]);
    }
  }

  // Through any number of runs, with any failures and stops, every file-issued serial in the live index stays below the
  // live serial number, if every run that begins advances.
  lemma CommitIsSafe(st: Process, hs: seq<Happening>)
    requires st.pc.Idle? && Safe(st.fs) && AllAdvance(st, hs)
    ensures Safe(Run(st, hs).fs)
  {
    RunInv(st, hs);
  }

  // Runs that take their serials from the serial file, or use none, are always safe.
  lemma {:induction false} LiveRunsAreSafe(st: Process, hs: seq<Happening>)
    requires st.pc.Idle? && Safe(st.fs)
    requires forall i :: 0 <= i < |hs| && hs[i].Issues? ==> hs[i].source.Live? || hs[i].source.ByConfig?
    ensures AllAdvance(st, hs) && Safe(Run(st, hs).fs)
    decreases |hs|
  {
    hide Run, Advances, Inv;
    forall i | 0 <= i < |hs| ensures Advances(Run(st, hs[..i]).fs, hs[i]) {
      LiveRunsAreSafe(st, hs[..i]);
      LiveAdvances(Run(st, hs[..i]).fs, hs[i]);
    }
    CommitIsSafe(st, hs);
  }

  // So the serials that a run takes from the serial file are in no row of the index it loaded.
  lemma NoLaterClash(st: Process, hs: seq<Happening>, k: nat, n: int)
    requires st.pc.Idle? && Safe(st.fs) && AllAdvance(st, hs)
    requires var fs := Run(st, hs).fs; fs.serial.Some? && fs.index.Some? && n in Range(fs.serial.value, k)
    ensures n !in Run(st, hs).fs.index.value
  {
    CommitIsSafe(st, hs);
    hide Run;
  }

  // A run is safe at every moment, whatever fails and wherever it stops, exactly if it advances.
  lemma RunIsSafeIff(st: Process, h: Happening)
    requires st.pc.Idle? && Safe(st.fs) && (h.Issues? || h.Rewrites?) && PlanOf(st.fs, h).Some?
    ensures AlwaysFits(BELOW, Next(st, h)) <==> Advances(st.fs, h)
  {
    AdvancesIsPrepared(st.fs, h);
    assert Fits(BELOW, st.fs);
    CommitKeepsIff(BELOW, st, PlanOf(st.fs, h).value);
  }

  // With the option -rand_serial this means: exactly if the number after the last certificate is above every serial
  // issued from the file (and there is a serial file, or the one kept from before is above them).
  lemma OptionIsSafeIff(st: Process, r: int, k: nat, unique: bool)
    requires st.pc.Idle? && Safe(st.fs) && st.fs.index.Some? && k > 0
    ensures AlwaysFits(BELOW, Next(st, Issues(ByOption(r), k, unique))) <==>
            Below(st.fs.index.value, Some(r + k)) && (st.fs.serial.None? ==> Below(st.fs.index.value, st.fs.serialOld))
  {
    hide AlwaysFits, Next;
    RunIsSafeIff(st, Issues(ByOption(r), k, unique));
  }

  // What an undisturbed run leaves.
  lemma UndisturbedRun(st: Process, h: Happening)
    requires st.pc.Idle? && (h.Issues? || h.Rewrites?) && PlanOf(st.fs, h).Some?
    ensures var plan := PlanOf(st.fs, h).value;
            var end := LeftAlone(Next(st, h), Steps(plan));
            && end.pc.Idle? && end.fs.index == Some(plan.table)
            && end.fs.serial == (if plan.serial.Some? then plan.serial else st.fs.serial)
  {
    hide LeftAlone, Step;
    UndisturbedCommit(st, PlanOf(st.fs, h).value);
  }

  // So k certificates take consecutive serials: from the number in the serial file; with the option -create_serial from
  // there too, or from the number that the file is created with; or from the random one.  The number after them is
  // written unless the configuration asks for random serials, and only those from the file count as issued from it.
  lemma RunTakes(st: Process, source: Source, k: nat, unique: bool)
    requires st.pc.Idle? && st.fs.index.Some? && k > 0 && (source.Live? ==> st.fs.serial.Some?)
    ensures var end := LeftAlone(Next(st, Issues(source, k, unique)), if source.ByConfig? then 7 else 10);
            var s :=
              if source.Live? || (source.Created? && st.fs.serial.Some?) then st.fs.serial.value else source.first;
            && end.pc.Idle? && end.fs.attr == Some(unique)
            && end.fs.serial == (if source.ByConfig? then st.fs.serial else Some(s + k))
            && end.fs.index ==
               Some(st.fs.index.value + if source.ByOption? || source.ByConfig? then [] else Range(s, k))
  {
    hide LeftAlone, Step;
    var h := Issues(source, k, unique);
    UndisturbedCommit(st, PlanOf(st.fs, h).value);
  }

  // A process that stops leaves the files as they are, wherever it was.
  lemma StopLeavesFiles(st: Process)
    ensures Next(st, Stops) == State(st.fs, Idle)
  {
  }

  // The next serial is 1000, and 999 was issued.  One certificate is issued with the option -rand_serial and the random
  // number 5.  Then the next serial is 6, and the 994th certificate after that would have serial 999 again.
  lemma OptionForgetsSerial(fs: Files)
    requires fs.serial == Some(1000) && fs.index == Some([999])
    ensures var st, h := State(fs, Idle), Issues(ByOption(5), 1, true);
            var end := LeftAlone(Next(st, h), Steps(PlanOf(fs, h).value));
            && Safe(fs) && end.pc.Idle? && end.fs.serial == Some(6) && end.fs.index == Some([999]) && !Safe(end.fs)
            && 999 in Range(6, 994)
  {
    hide LeftAlone, Next;
    var st, h := State(fs, Idle), Issues(ByOption(5), 1, true);
    assert [999] + [] == [999] && [999][0] == 999;
    UndisturbedRun(st, h);
    assert Range(6, 994)[993] == 999;
  }
}
