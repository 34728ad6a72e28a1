/**
 * The cms command reads its signers from an option stream: -signer and -inkey arguments are paired up as they come, and
 * every -keyopt argument is filed under a number computed from how much was read before it.  Here the loop that does
 * this, with its two pending file names and its list of numbered parameters, is shown to group the stream.
 */
module CmsOptions {
  import opened Prelude

  // The bit SMIME_SIGNERS is set in the numbers of the operations Sign and Resign only.
  datatype Operation = Encrypt | Sign | Resign | Other {
    predicate Signs() {
      Sign? || Resign?
    }
  }

  // The options that matter here.  For -recip the certificate file is read while encrypting, and may fail to load.
  datatype Opt =
    | Operate(op: Operation)
    | Signer(file: string)
    | Inkey(file: string)
    | Keyopt(param: string)
    | Recip(loads: bool)

  datatype KeyParam = KeyParam(idx: nat, param: seq<string>)

  // What is signed with: certificate file, key file, parameters for the key.
  datatype Job = Job(signer: string, key: string, param: Option<seq<string>>)

  // The reference: the stream falls into groups, each with at most one -signer and at most one -inkey in either order.
  // An option that the current group already has opens the next group; -keyopt belongs to the current group.
  datatype Group = Group(signer: Option<string>, key: Option<string>, param: seq<string>) {
    function KeyFile(): string
      requires signer.Some?
    {
      if key.Some? then key.value else signer.value
    }
  }

  function Grouped(gs: seq<Group>, o: Opt): (r: seq<Group>)
    ensures |gs| <= |r| <= |gs| + 1
  {
    var n := |gs| - 1;
    match o
    case Signer(f) =>
      if n < 0 || gs[n].signer.Some? then gs + [Group(Some(f), None, [])] else gs[n := gs[n].(signer := Some(f))]
    case Inkey(f) =>
      if n < 0 || gs[n].key.Some? then gs + [Group(None, Some(f), [])] else gs[n := gs[n].(key := Some(f))]
    case Keyopt(p) =>
      if n < 0 then gs else gs[n := gs[n].(param := gs[n].param + [p])]
    case _ => gs
  }

  function Groups(options: seq<Opt>): seq<Group> {
    if options == [] then [] else Grouped(Groups(options[..|options| - 1]), options[|options| - 1])
  }

  // The operation in force, and the number of recipients read, at the end of a stream.
  function Current(options: seq<Opt>): Operation {
    if options == [] then Other
    else
      var o := options[|options| - 1];
      if o.Operate? then o.op else Current(options[..|options| - 1])
  }

  function Recipients(options: seq<Opt>): nat {
    if options == [] then 0
    else
      var before := options[..|options| - 1];
      Recipients(before) + if options[|options| - 1].Recip? && Current(before).Encrypt? then 1 else 0
  }

  // The number under which a -keyopt that follows the stream is filed; negative if it is refused.
  function Index(options: seq<Opt>): int {
    (if Current(options).Encrypt? then Recipients(options) else |Groups(options)|) - 1
  }

  // The parameter list is extended at its end only.
  function Filed(params: seq<KeyParam>, idx: nat, p: string): seq<KeyParam> {
    var n := |params| - 1;
    if n < 0 || params[n].idx != idx then params + [KeyParam(idx, [p])]
    else params[n := KeyParam(idx, params[n].param + [p])]
  }

  function Params(options: seq<Opt>): seq<KeyParam> {
    if options == [] then []
    else
      var before, o := options[..|options| - 1], options[|options| - 1];
      if o.Keyopt? && Index(before) >= 0 then Filed(Params(before), Index(before), o.param) else Params(before)
  }

  // The first entry with the number wanted.
  function Lookup(params: seq<KeyParam>, i: nat): Option<seq<string>> {
    if params == [] then None
    else if params[0].idx == i then Some(params[0].param)
    else Lookup(params[1..], i)
  }

  ghost predicate Complete(gs: seq<Group>) {
    forall i :: 0 <= i < |gs| ==> gs[i].signer.Some?
  }

  // What an option needs from the stream before it.
  predicate Admissible(before: seq<Opt>, o: Opt) {
    && (o.Keyopt? ==> Index(before) >= 0)
    && (o.Recip? && Current(before).Encrypt? ==> o.loads)
  }

  // The streams that a signing operation takes.
  ghost predicate Accepts(options: seq<Opt>) {
    && Current(options).Signs()
    && Groups(options) != []
    && Complete(Groups(options))
    && forall k :: 0 <= k < |options| ==> Admissible(options[..k], options[k])
  }

  function SignerFiles(gs: seq<Group>): (r: seq<string>)
    requires Complete(gs)
  {
    seq(|gs|, i requires 0 <= i < |gs| => gs[i].signer.value)
  }

  function KeyFiles(gs: seq<Group>): (r: seq<string>)
    requires Complete(gs)
  {
    seq(|gs|, i requires 0 <= i < |gs| => gs[i].KeyFile())
  }

  lemma GroupsSnoc(options: seq<Opt>, k: nat)
    requires k < |options|
    ensures Groups(options[..k + 1]) == Grouped(Groups(options[..k]), options[k])
    ensures Current(options[..k + 1]) == if options[k].Operate? then options[k].op else Current(options[..k])
    ensures Recipients(options[..k + 1])
         == Recipients(options[..k]) + if options[k].Recip? && Current(options[..k]).Encrypt? then 1 else 0
    ensures Params(options[..k + 1]) == if options[k].Keyopt? && Index(options[..k]) >= 0
                                        then Filed(Params(options[..k]), Index(options[..k]), options[k].param)
                                        else Params(options[..k])
  {
    assert options[..k + 1][..k] == options[..k];
  }

  // A group is final once the next one is open.
  lemma {:induction false} ClosedGroups(options: seq<Opt>, k: nat)
    requires k <= |options|
    ensures |Groups(options[..k])| <= |Groups(options)|
    ensures forall j :: 0 <= j < |Groups(options[..k])| - 1 ==> Groups(options)[j] == Groups(options[..k])[j]
    decreases |options|
  {
    if k < |options| {
      var before := options[..|options| - 1];
      ClosedGroups(before, k);
      assert before[..k] == options[..k];
    } else {
      assert options[..k] == options;
    }
  }

  // The loop's two pending file names and its two lists: the last group, and the ones before it.
  datatype Files = Files(
    signerfile: Option<string>, keyfile: Option<string>, sksigners: seq<string>, skkeys: seq<string>)
  {
    ghost predicate Represents(gs: seq<Group>) {
      if gs == [] then this == Files(None, None, [], [])
      else
        var n := |gs| - 1;
        && signerfile == gs[n].signer && keyfile == gs[n].key && (signerfile.Some? || keyfile.Some?)
        && Complete(gs[..n]) && sksigners == SignerFiles(gs[..n]) && skkeys == KeyFiles(gs[..n])
    }
  }

  lemma FilesSnoc(gs: seq<Group>)
    requires gs != [] && Complete(gs)
    ensures Complete(gs[..|gs| - 1])
    ensures SignerFiles(gs) == SignerFiles(gs[..|gs| - 1]) + [gs[|gs| - 1].signer.value]
    ensures KeyFiles(gs) == KeyFiles(gs[..|gs| - 1]) + [gs[|gs| - 1].KeyFile()]
  {
  }

  lemma SamePrefix(gs: seq<Group>, g: Group)
    requires gs != []
    ensures gs[|gs| - 1 := g][..|gs| - 1] == gs[..|gs| - 1]
    ensures (gs + [g])[..|gs|] == gs
  {
  }

  // Pairing up the pending file names closes the last group.
  method Push(f: Files, ghost gs: seq<Group>) returns (r: Files)
    requires f.Represents(gs) && f.signerfile.Some?
    ensures Complete(gs) && r.sksigners == SignerFiles(gs) && r.skkeys == KeyFiles(gs)
  {
    var key := if f.keyfile.None? then f.signerfile.value else f.keyfile.value;
    r := Files(None, None, f.sksigners + [f.signerfile.value], f.skkeys + [key]);
    assert Complete(gs) by {
      forall i | 0 <= i < |gs| ensures gs[i].signer.Some? {
        assert i < |gs| - 1 ==> gs[i] == gs[..|gs| - 1][i];
      }
    }
    FilesSnoc(gs);
  }

  method AddSigner(f: Files, arg: string, ghost gs: seq<Group>) returns (r: Files)
    requires f.Represents(gs)
    ensures r.Represents(Grouped(gs, Signer(arg)))
  {
    hide SignerFiles, KeyFiles, Complete;
    r := f;
    if gs != [] { SamePrefix(gs, Grouped(gs, Signer(arg))[|Grouped(gs, Signer(arg))| - 1]); }
    if r.signerfile.Some? {
      r := Push(r, gs);
      r := r.(keyfile := None);
    }
    r := r.(signerfile := Some(arg));
    if gs == [] { NoFiles(); }
  }

  method AddInkey(f: Files, arg: string, ghost gs: seq<Group>) returns (ok: bool, r: Files)
    requires f.Represents(gs)
    ensures ok <==> gs == [] || gs[|gs| - 1].key.None? || gs[|gs| - 1].signer.Some?
    ensures ok ==> r.Represents(Grouped(gs, Inkey(arg)))
  {
    hide SignerFiles, KeyFiles, Complete;
    ok, r := false, f;
    if gs != [] { SamePrefix(gs, Grouped(gs, Inkey(arg))[|Grouped(gs, Inkey(arg))| - 1]); }
    if r.keyfile.Some? {
      if r.signerfile.None? { return; }
      r := Push(r, gs);
      r := r.(signerfile := None);
    }
    r := r.(keyfile := Some(arg));
    ok := true;
    if gs == [] { NoFiles(); }
  }

  lemma NoFiles()
    ensures Complete([]) && SignerFiles([]) == [] && KeyFiles([]) == []
    ensures forall g: Group :: [g][..0] == []
  {
  }

  lemma KeepsFiles(f: Files, gs: seq<Group>, o: Opt)
    requires f.Represents(gs) && !o.Signer? && !o.Inkey?
    ensures f.Represents(Grouped(gs, o))
  {
    hide SignerFiles, KeyFiles, Complete;
    if gs != [] { SamePrefix(gs, Grouped(gs, o)[|gs| - 1]); }
  }

  lemma PendingNumber(f: Files, gs: seq<Group>)
    requires f.Represents(gs)
    ensures |gs| == |f.skkeys| + if f.keyfile.Some? || f.signerfile.Some? then 1 else 0
  {
  }

  // A new entry is linked in behind the last one unless that has the number already.
  method File(params: seq<KeyParam>, keyidx: nat, arg: string) returns (params': seq<KeyParam>)
    ensures params' == Filed(params, keyidx, arg)
  {
    params' := params;
    if |params'| == 0 || params'[|params'| - 1].idx != keyidx {
      params' := params' + [KeyParam(keyidx, [])];
    }
    var last := |params'| - 1;
    assert [] + [arg] == [arg];
    params' := params'[last := params'[last].(param := params'[last].param + [arg])];
  }

  // An -inkey that finds a key but no certificate pending is an error.
  predicate Orphan(gs: seq<Group>, o: Opt) {
    o.Inkey? && gs != [] && gs[|gs| - 1].key.Some? && gs[|gs| - 1].signer.None?
  }

  lemma Refused(options: seq<Opt>, k: nat)
    requires k < |options|
    requires !Admissible(options[..k], options[k]) || Orphan(Groups(options[..k]), options[k])
    ensures !Accepts(options)
  {
    if !Admissible(options[..k], options[k]) { return; }
    var gs := Groups(options[..k]);
    GroupsSnoc(options, k);
    ClosedGroups(options, k + 1);
    assert Groups(options[..k + 1])[|gs| - 1] == gs[|gs| - 1];
    assert Groups(options)[|gs| - 1].signer.None?;
  }

  // The variables of the option loop.
  datatype State = State(operation: Operation, encerts: nat, files: Files, params: seq<KeyParam>) {
    ghost predicate After(options: seq<Opt>) {
      && operation == Current(options) && encerts == Recipients(options) && params == Params(options)
      && files.Represents(Groups(options))
    }
  }

  // One round of the loop.
  method ReadOption(s: State, o: Opt, ghost before: seq<Opt>) returns (ok: bool, r: State)
    requires s.After(before)
    ensures ok <==> Admissible(before, o) && !Orphan(Groups(before), o)
    ensures ok ==> r.After(before + [o])
  {
    hide Groups, Grouped, Current, Recipients, Params, Filed, Files.Represents;
    ghost var gs := Groups(before);
    assert (before + [o])[..|before|] == before && (before + [o])[..|before| + 1] == before + [o];
    GroupsSnoc(before + [o], |before|);
    if !o.Signer? && !o.Inkey? { KeepsFiles(s.files, gs, o); }
    ok, r := false, s;
    match o {
      case Operate(op) =>
        r := r.(operation := op);
      case Signer(arg) =>
        var f := AddSigner(r.files, arg, gs);
        r := r.(files := f);
      case Inkey(arg) =>
        var fine, f := AddInkey(r.files, arg, gs);
        if !fine { return; }
        r := r.(files := f);
      case Keyopt(arg) =>
        var keyidx := -1;
        if r.operation.Encrypt? {
          if r.encerts > 0 { keyidx := keyidx + r.encerts; }
        } else {
          if r.files.keyfile.Some? || r.files.signerfile.Some? { keyidx := keyidx + 1; }
          keyidx := keyidx + |r.files.skkeys|;
        }
        PendingNumber(r.files, gs);
        if keyidx < 0 { return; }
        var params := File(r.params, keyidx, arg);
        r := r.(params := params);
      case Recip(loads) =>
        if r.operation.Encrypt? {
          if !loads { return; }
          r := r.(encerts := r.encerts + 1);
        }
    }
    ok := true;
  }

  lemma NothingRead()
    ensures State(Other, 0, Files(None, None, [], []), []).After([])
  {
    NoFiles();
  }

  /** The option loop, and what follows it for the operations that sign. */
  method ParseOptions(options: seq<Opt>)
    returns (ok: bool, signers: seq<string>, keys: seq<string>, params: seq<KeyParam>)
    ensures ok <==> Accepts(options)
    ensures ok ==> signers == SignerFiles(Groups(options)) && keys == KeyFiles(Groups(options))
    ensures ok ==> params == Params(options)
  {
    ok, signers, keys, params := false, [], [], [];
    var s := State(Other, 0, Files(None, None, [], []), []);
    var i := 0;
    hide Groups, Current, Recipients, Params, SignerFiles, KeyFiles, Complete, Admissible, Orphan, Files.Represents;
    NothingRead();
    assert options[..0] == [];
    while i < |options|
      invariant 0 <= i <= |options|
      invariant s.After(options[..i])
      invariant forall k :: 0 <= k < i ==> Admissible(options[..k], options[k])
      invariant !ok
    {
      var fine;
      fine, s := ReadOption(s, options[i], options[..i]);
      if !fine {
        Refused(options, i);
        return;
      }
      assert options[..i] + [options[i]] == options[..i + 1];
      i := i + 1;
    }
    assert options[..i] == options;
    if !s.operation.Signs() { return; }
    var f;
    ok, f := Finish(s.files, Groups(options));
    signers, keys, params := f.sksigners, f.skkeys, s.params;
  }

  // The checks and the last append that follow the loop.
  method Finish(f: Files, ghost gs: seq<Group>) returns (ok: bool, r: Files)
    requires f.Represents(gs)
    ensures ok <==> gs != [] && Complete(gs)
    ensures ok ==> r.sksigners == SignerFiles(gs) && r.skkeys == KeyFiles(gs)
  {
    ok, r := false, f;
    if r.keyfile.Some? && r.signerfile.None? { return; }
    if r.signerfile.Some? { r := Push(r, gs); }
    ok := r.sksigners != [];
  }

  // The parameters filed under a number, in the order they were read.
  function ReadAt(options: seq<Opt>, i: nat): seq<string> {
    if options == [] then []
    else
      var before, o := options[..|options| - 1], options[|options| - 1];
      ReadAt(before, i) + if o.Keyopt? && Index(before) == i then [o.param] else []
  }

  // A property that the options of a stream have one by one, each seen with what was read before it.
  ghost predicate WellFiled(options: seq<Opt>) {
    forall k :: 0 <= k < |options| && options[k].Keyopt? ==> Index(options[..k]) == |Groups(options[..k])| - 1
  }

  ghost predicate Ascending(options: seq<Opt>) {
    forall j, k :: 0 <= j < k < |options| && options[j].Keyopt? && options[k].Keyopt? ==>
      Index(options[..j]) <= Index(options[..k])
  }

  ghost predicate Increasing(params: seq<KeyParam>) {
    forall i, j :: 0 <= i < j < |params| ==> params[i].idx < params[j].idx
  }

  function Found(param: seq<string>): Option<seq<string>> {
    if param == [] then None else Some(param)
  }

  lemma {:induction false} LookupAppend(params: seq<KeyParam>, e: KeyParam, i: nat)
    ensures Lookup(params + [e], i)
         == if Lookup(params, i).Some? then Lookup(params, i) else if e.idx == i then Some(e.param) else None
  {
    if params == [] {
      assert params + [e] == [e];
    } else {
      assert (params + [e])[1..] == params[1..] + [e];
      LookupAppend(params[1..], e, i);
    }
  }

  lemma {:induction false} LookupIn(params: seq<KeyParam>, i: nat)
    ensures Lookup(params, i).Some? ==> KeyParam(i, Lookup(params, i).value) in params
    ensures Lookup(params, i).None? ==> forall e :: e in params ==> e.idx != i
  {
    if params != [] && params[0].idx != i {
      LookupIn(params[1..], i);
      forall e | e in params && Lookup(params, i).None? ensures e.idx != i {
        assert e == params[0] || e in params[1..];
      }
    }
  }

  lemma IncreasingFiled(params: seq<KeyParam>, idx: nat, p: string)
    requires Increasing(params) && (params != [] ==> params[|params| - 1].idx <= idx)
    ensures Increasing(Filed(params, idx, p))
  {
  }

  lemma NotBelow(params: seq<KeyParam>, n: nat)
    requires Increasing(params) && n < |params|
    ensures forall i: nat :: i >= params[n].idx ==> Lookup(params[..n], i).None?
  {
    hide Lookup;
    assert forall e :: e in params[..n] ==> e.idx < params[n].idx;
    forall i: nat | i >= params[n].idx ensures Lookup(params[..n], i).None? { LookupIn(params[..n], i); }
  }

  lemma LookupFiled(params: seq<KeyParam>, idx: nat, p: string, i: nat)
    requires Increasing(params) && (params != [] ==> params[|params| - 1].idx <= idx)
    ensures Lookup(Filed(params, idx, p), i)
         == if i != idx then Lookup(params, i)
            else if Lookup(params, i).Some? then Some(Lookup(params, i).value + [p])
            else Some([p])
  {
    assert Lookup([], idx) == None;
    hide Lookup, Increasing;
    var n := |params| - 1;
    if n >= 0 && params[n].idx == idx {
      NotBelow(params, n);
      LookupAppend(params[..n], params[n], i);
      LookupAppend(params[..n], KeyParam(idx, params[n].param + [p]), i);
      assert params == params[..n] + [params[n]];
      assert Filed(params, idx, p) == params[..n] + [KeyParam(idx, params[n].param + [p])];
    } else {
      if n >= 0 {
        NotBelow(params, n);
        LookupAppend(params[..n], params[n], idx);
        assert params == params[..n] + [params[n]];
      }
      LookupAppend(params, KeyParam(idx, [p]), i);
    }
  }

  // The last entry was filed by some -keyopt.
  ghost predicate LastFrom(options: seq<Opt>, j: nat) {
    && j < |options| && options[j].Keyopt? && Params(options) != []
    && Index(options[..j]) == Params(options)[|Params(options)| - 1].idx
  }

  lemma {:induction false} LastOrigin(options: seq<Opt>)
    ensures Params(options) != [] ==> exists j: nat :: LastFrom(options, j)
    decreases |options|
  {
    if options != [] {
      hide Index;
      var n := |options| - 1;
      var before := options[..n];
      LastOrigin(before);
      if options[n].Keyopt? && Index(before) >= 0 {
        assert LastFrom(options, n);
      } else if Params(before) != [] {
        var j: nat :| LastFrom(before, j);
        assert before[..j] == options[..j];
        assert LastFrom(options, j);
      }
    }
  }

  lemma AscendingBefore(options: seq<Opt>)
    requires Ascending(options) && options != []
    ensures var before := options[..|options| - 1];
            && Ascending(before)
            && (options[|options| - 1].Keyopt? && Params(before) != [] ==>
                  Params(before)[|Params(before)| - 1].idx <= Index(before))
  {
    var n := |options| - 1;
    var before := options[..n];
    LastOrigin(before);
    hide Index, Params;
    assert forall k :: 0 <= k < n ==> before[k] == options[k] && before[..k] == options[..k];
  }

  lemma ReadAtLast(options: seq<Opt>, i: nat)
    requires options != []
    ensures var before, o := options[..|options| - 1], options[|options| - 1];
            if o.Keyopt? && Index(before) >= 0 then
              && Params(options) == Filed(Params(before), Index(before), o.param)
              && ReadAt(options, i) == ReadAt(before, i) + if i == Index(before) then [o.param] else []
            else Params(options) == Params(before) && ReadAt(options, i) == ReadAt(before, i)
  {
  }

  // If the numbers never go down, the list is strictly increasing and a look-up misses nothing.
  lemma {:induction false} LookupReads(options: seq<Opt>, i: nat)
    requires Ascending(options)
    ensures Increasing(Params(options))
    ensures Lookup(Params(options), i) == Found(ReadAt(options, i))
    decreases |options|
  {
    if options != [] {
      hide Lookup, Index, Ascending, Filed, Params, ReadAt, Increasing;
      var n := |options| - 1;
      var before, o := options[..n], options[n];
      AscendingBefore(options);
      LookupReads(before, i);
      ReadAtLast(options, i);
      if o.Keyopt? && Index(before) >= 0 {
        IncreasingFiled(Params(before), Index(before), o.param);
        LookupFiled(Params(before), Index(before), o.param, i);
        assert [] + [o.param] == [o.param];
        assert ReadAt(before, i) + [] == ReadAt(before, i);
        if i == Index(before) {
          assert ReadAt(options, i) == ReadAt(before, i) + [o.param];
        } else {
          assert ReadAt(options, i) == ReadAt(before, i);
        }
      }
    }
  }

  lemma GroupedParam(gs: seq<Group>, o: Opt, i: nat)
    requires i < |Grouped(gs, o)|
    ensures Grouped(gs, o)[i].param
         == (if i < |gs| then gs[i].param else []) + if o.Keyopt? && i == |gs| - 1 then [o.param] else []
  {
  }

  lemma {:induction false} WellFiledReads(options: seq<Opt>, i: nat)
    requires WellFiled(options) && i < |Groups(options)|
    requires forall k :: 0 <= k < |options| ==> Admissible(options[..k], options[k])
    ensures ReadAt(options, i) == Groups(options)[i].param
    decreases |options|
  {
    var n := |options| - 1;
    var before, o := options[..n], options[n];
    assert forall k :: 0 <= k < n ==> before[k] == options[k] && before[..k] == options[..k];
    GroupedParam(Groups(before), o, i);
    assert o.Keyopt? ==> Admissible(before, o) && Index(before) == |Groups(before)| - 1;
    hide Grouped, Index, Admissible;
    if i < |Groups(before)| {
      WellFiledReads(before, i);
    } else {
      NothingYet(before, i);
    }
  }

  lemma {:induction false} NothingYet(options: seq<Opt>, i: nat)
    requires WellFiled(options) && i >= |Groups(options)|
    ensures ReadAt(options, i) == []
    decreases |options|
  {
    if options != [] {
      var n := |options| - 1;
      assert forall k :: 0 <= k < n ==> options[..n][k] == options[k] && options[..n][..k] == options[..k];
      NothingYet(options[..n], i);
    }
  }

  lemma WellFiledAscends(options: seq<Opt>)
    requires WellFiled(options)
    ensures Ascending(options)
  {
    forall j, k | 0 <= j < k < |options| && options[j].Keyopt? && options[k].Keyopt?
      ensures Index(options[..j]) <= Index(options[..k])
    {
      ClosedGroups(options[..k], j);
      assert options[..k][..j] == options[..j];
    }
  }

  // What the signer loop does with the lists, and what the groups ask for.
  function Done(options: seq<Opt>): seq<Job>
    requires Complete(Groups(options))
  {
    var gs := Groups(options);
    seq(|gs|, i requires 0 <= i < |gs| => Job(gs[i].signer.value, gs[i].KeyFile(), Lookup(Params(options), i)))
  }

  function Wanted(gs: seq<Group>): seq<Job>
    requires Complete(gs)
  {
    seq(|gs|, i requires 0 <= i < |gs| => Job(gs[i].signer.value, gs[i].KeyFile(), Found(gs[i].param)))
  }

  // Every -keyopt comes after the opening of a group.
  ghost predicate Owned(options: seq<Opt>) {
    forall k :: 0 <= k < |options| && options[k].Keyopt? ==> Groups(options[..k]) != []
  }

  // Every -keyopt belongs to a group, and reaches the signer of its group and no other.
  ghost predicate Reaches(options: seq<Opt>)
    requires Complete(Groups(options))
  {
    Owned(options) && Done(options) == Wanted(Groups(options))
  }

  lemma WellFiledReaches(options: seq<Opt>)
    requires Accepts(options) && WellFiled(options)
    ensures Reaches(options) && Increasing(Params(options))
  {
    hide Groups, Params, Lookup, ReadAt;
    WellFiledAscends(options);
    LookupReads(options, 0);
    forall i | 0 <= i < |Groups(options)| ensures Done(options)[i] == Wanted(Groups(options))[i] {
      LookupReads(options, i);
      WellFiledReads(options, i);
    }
    assert forall k :: 0 <= k < |options| && options[k].Keyopt? ==>
                         Admissible(options[..k], options[k]) && Groups(options[..k]) != [];
  }

  ghost predicate DistinctKeyopts(options: seq<Opt>) {
    forall j, k :: 0 <= j < k < |options| && options[j].Keyopt? && options[k].Keyopt? ==>
      options[j].param != options[k].param
  }

  lemma {:induction false} EntryOrigin(options: seq<Opt>, e: KeyParam, p: string)
    requires e in Params(options) && p in e.param
    ensures exists j :: 0 <= j < |options| && options[j] == Keyopt(p) && Index(options[..j]) == e.idx
    decreases |options|
  {
    hide Index;
    var n := |options| - 1;
    var before, o := options[..n], options[n];
    assert forall k :: 0 <= k < n ==> before[k] == options[k] && before[..k] == options[..k];
    if e in Params(before) {
      EntryOrigin(before, e, p);
    } else {
      var ps := Params(before);
      if p != o.param {
        assert ps != [] && e == KeyParam(ps[|ps| - 1].idx, ps[|ps| - 1].param + [o.param]);
        EntryOrigin(before, ps[|ps| - 1], p);
      }
    }
  }

  lemma GroupedKeeps(gs: seq<Group>, o: Opt, j: nat, p: string)
    requires j < |gs| && p in gs[j].param
    ensures p in Grouped(gs, o)[j].param
  {
  }

  lemma {:induction false} KeyoptInGroup(options: seq<Opt>, k: nat)
    requires k < |options| && options[k].Keyopt? && Groups(options[..k]) != []
    ensures |Groups(options[..k])| <= |Groups(options)|
    ensures options[k].param in Groups(options)[|Groups(options[..k])| - 1].param
    decreases |options|
  {
    var n := |options| - 1;
    if k < n {
      hide Grouped;
      assert options[..n][..k] == options[..k];
      KeyoptInGroup(options[..n], k);
      GroupedKeeps(Groups(options[..n]), options[n], |Groups(options[..k])| - 1, options[k].param);
    }
  }

  /** Parameters reach the right signers exactly if no -keyopt is read while another operation numbers it otherwise. */
  lemma ReachesIffWellFiled(options: seq<Opt>)
    requires Accepts(options) && DistinctKeyopts(options)
    ensures Reaches(options) <==> WellFiled(options)
  {
    if WellFiled(options) { WellFiledReaches(options); }
    if Reaches(options) {
      hide Groups, Params, Lookup, Index;
      forall k | 0 <= k < |options| && options[k].Keyopt? ensures Index(options[..k]) == |Groups(options[..k])| - 1 {
        var n := |Groups(options[..k])| - 1;
        KeyoptInGroup(options, k);
        assert Done(options)[n] == Wanted(Groups(options))[n];
        LookupIn(Params(options), n);
        EntryOrigin(options, KeyParam(n, Lookup(Params(options), n).value), options[k].param);
      }
    }
  }

  // The same options with other -keyopt arguments.
  ghost predicate SameShape(a: seq<Opt>, b: seq<Opt>) {
    |a| == |b| && forall k :: 0 <= k < |a| ==> a[k] == b[k] || (a[k].Keyopt? && b[k].Keyopt?)
  }

  ghost predicate SameNames(gs: seq<Group>, hs: seq<Group>) {
    |gs| == |hs| && forall i :: 0 <= i < |gs| ==> gs[i].signer == hs[i].signer && gs[i].key == hs[i].key
  }

  lemma GroupedSameNames(gs: seq<Group>, hs: seq<Group>, o: Opt, p: Opt)
    requires SameNames(gs, hs) && (o == p || (o.Keyopt? && p.Keyopt?))
    ensures SameNames(Grouped(gs, o), Grouped(hs, p))
  {
  }

  // The numbers do not depend on the arguments.
  lemma {:induction false} ShapeDecides(a: seq<Opt>, b: seq<Opt>)
    requires SameShape(a, b)
    ensures SameNames(Groups(a), Groups(b)) && Current(a) == Current(b) && Recipients(a) == Recipients(b)
    ensures Index(a) == Index(b)
    decreases |a|
  {
    if a != [] {
      hide Grouped, SameNames;
      var n := |a| - 1;
      ShapeDecides(a[..n], b[..n]);
      GroupedSameNames(Groups(a[..n]), Groups(b[..n]), a[n], b[n]);
    }
    assert |Groups(a)| == |Groups(b)|;
  }

  lemma ShapeKeeps(a: seq<Opt>, b: seq<Opt>)
    requires SameShape(a, b)
    ensures WellFiled(a) <==> WellFiled(b)
    ensures Accepts(a) <==> Accepts(b)
  {
    hide Index, Groups, Current, Recipients;
    forall k | 0 <= k < |a|
      ensures Index(a[..k]) == Index(b[..k]) && |Groups(a[..k])| == |Groups(b[..k])|
      ensures Admissible(a[..k], a[k]) <==> Admissible(b[..k], b[k])
    {
      ShapeDecides(a[..k], b[..k]);
    }
    ShapeDecides(a, b);
    hide Admissible;
  }

  // Arguments that tell the options apart.
  function Tag(k: nat): (tag: string)
    ensures |tag| == k
  {
    seq(k, _ => 'x')
  }

  function Tagged(options: seq<Opt>): seq<Opt> {
    seq(|options|, k requires 0 <= k < |options| => if options[k].Keyopt? then Keyopt(Tag(k)) else options[k])
  }

  /** For any accepted stream: parameters reach the right signers, whatever they are, exactly if it is well filed. */
  lemma ReachesWhateverTheParameters(options: seq<Opt>)
    requires Accepts(options)
    ensures WellFiled(options) <==>
            forall other :: SameShape(options, other) ==> Complete(Groups(other)) && Reaches(other)
  {
    hide Groups, WellFiled, Reaches;
    if WellFiled(options) {
      forall other | SameShape(options, other) ensures Complete(Groups(other)) && Reaches(other) {
        ShapeKeeps(options, other);
        WellFiledReaches(other);
      }
    } else {
      var other := Tagged(options);
      assert SameShape(options, other);
      ShapeKeeps(options, other);
      assert DistinctKeyopts(other) by {
        forall j, k | 0 <= j < k < |other| && other[j].Keyopt? && other[k].Keyopt?
          ensures other[j].param != other[k].param
        {
          assert |other[j].param| == j && |other[k].param| == k;
        }
      }
      ReachesIffWellFiled(other);
    }
  }

  /** The search for the parameters of a signer or recipient. */
  method FindParam(params: seq<KeyParam>, i: nat) returns (r: Option<seq<string>>)
    ensures r == Lookup(params, i)
  {
    var k := 0;
    while k < |params| && params[k].idx != i
      invariant 0 <= k <= |params|
      invariant Lookup(params, i) == Lookup(params[k..], i)
    {
      assert params[k..][1..] == params[k + 1..];
      k := k + 1;
    }
    r := if k < |params| then Some(params[k].param) else None;
  }

  /** A signing command as a whole: the option stream is read, then one signature is made for each list entry. */
  method SignCommand(options: seq<Opt>) returns (ok: bool, jobs: seq<Job>)
    ensures ok <==> Accepts(options)
    ensures ok ==> jobs == Done(options)
    ensures ok && WellFiled(options) ==> jobs == Wanted(Groups(options))
  {
    var signers, keys, params;
    ok, signers, keys, params := ParseOptions(options);
    jobs := [];
    if !ok { return; }
    hide Groups, Params, Lookup;
    var i := 0;
    while i < |signers|
      invariant 0 <= i <= |signers|
      invariant jobs == Done(options)[..i]
    {
      var param := FindParam(params, i);
      jobs := jobs + [Job(signers[i], keys[i], param)];
      i := i + 1;
    }
    if WellFiled(options) { WellFiledReaches(options); }
  }

  // The operation is given by the first option, and not changed after it.
  ghost predicate FixedFirst(options: seq<Opt>, op: Operation) {
    options != [] && options[0] == Operate(op) && forall k :: 0 < k < |options| ==> !options[k].Operate?
  }

  lemma {:induction false} FixedOperation(options: seq<Opt>, op: Operation, k: nat)
    requires FixedFirst(options, op) && 0 < k <= |options|
    ensures Current(options[..k]) == op
  {
    GroupsSnoc(options, k - 1);
    if k > 1 { FixedOperation(options, op, k - 1); }
  }

  /**
   * With the operation fixed first, a stream is taken exactly if its groups are complete and no -keyopt precedes them;
   * it signs as grouped.
   */
  lemma FixedFirstReaches(options: seq<Opt>, op: Operation)
    requires FixedFirst(options, op) && op.Signs()
    ensures Accepts(options) <==> Groups(options) != [] && Complete(Groups(options)) && Owned(options)
    ensures WellFiled(options)
    ensures Accepts(options) ==> Reaches(options) && Increasing(Params(options))
  {
    hide Groups, Recipients, Params, Reaches;
    forall k | 0 < k < |options| ensures Current(options[..k]) == op { FixedOperation(options, op, k); }
    FixedOperation(options, op, |options|);
    assert options[..|options|] == options;
    forall k | 0 <= k < |options|
      ensures Admissible(options[..k], options[k]) <==> (options[k].Keyopt? ==> Groups(options[..k]) != [])
    {
      if k == 0 { assert options[0] == Operate(op); }
    }
    if Accepts(options) { WellFiledReaches(options); }
  }

  // The -keyopt arguments that come after a number of -recip options and before the next.
  function AfterRecips(options: seq<Opt>, n: nat): seq<string> {
    if options == [] then []
    else
      var before, o := options[..|options| - 1], options[|options| - 1];
      AfterRecips(before, n) + if o.Keyopt? && Recips(before) == n then [o.param] else []
  }

  function Recips(options: seq<Opt>): nat {
    if options == [] then 0 else Recips(options[..|options| - 1]) + if options[|options| - 1].Recip? then 1 else 0
  }

  lemma {:induction false} FixedRecipients(options: seq<Opt>, k: nat)
    requires FixedFirst(options, Encrypt) && k <= |options|
    ensures Recipients(options[..k]) == Recips(options[..k])
    ensures k > 0 ==> Index(options[..k]) == Recips(options[..k]) - 1
    ensures forall j :: 0 <= j < k ==> Recips(options[..j]) <= Recips(options[..k])
    decreases k
  {
    if k > 0 {
      FixedRecipients(options, k - 1);
      GroupsSnoc(options, k - 1);
      assert options[..k][..k - 1] == options[..k - 1];
      FixedOperation(options, Encrypt, k);
      if k > 1 { FixedOperation(options, Encrypt, k - 1); }
    }
  }

  lemma {:induction false} ReadAtRecips(options: seq<Opt>, k: nat, i: nat)
    requires FixedFirst(options, Encrypt) && k <= |options|
    ensures ReadAt(options[..k], i) == AfterRecips(options[..k], i + 1)
    decreases k
  {
    if k > 0 {
      assert options[..k][..k - 1] == options[..k - 1];
      ReadAtRecips(options, k - 1, i);
      FixedRecipients(options, k - 1);
    }
  }

  /** With encryption fixed first, a recipient gets the parameters that follow its -recip. */
  lemma EncryptionReaches(options: seq<Opt>, i: nat)
    requires FixedFirst(options, Encrypt)
    ensures Lookup(Params(options), i) == Found(AfterRecips(options, i + 1))
  {
    hide Index, Recips, Params, ReadAt, AfterRecips, Lookup;
    forall j, k | 0 <= j < k < |options| && options[j].Keyopt? && options[k].Keyopt?
      ensures Index(options[..j]) <= Index(options[..k])
    {
      FixedRecipients(options, k);
      FixedRecipients(options, j);
    }
    LookupReads(options, i);
    assert options[..|options|] == options;
    ReadAtRecips(options, |options|, i);
  }

  // Arguments by kind, in stream order.
  function Args(options: seq<Opt>, f: Opt -> Option<string>): seq<string> {
    if options == [] then []
    else
      var arg := f(options[|options| - 1]);
      Args(options[..|options| - 1], f) + if arg.Some? then [arg.value] else []
  }

  const SIGNERS := (o: Opt) => if o.Signer? then Some(o.file) else None
  const INKEYS := (o: Opt) => if o.Inkey? then Some(o.file) else None
  const KEYOPTS := (o: Opt) => if o.Keyopt? then Some(o.param) else None

  function GivenSigners(gs: seq<Group>): seq<string> {
    if gs == [] then []
    else GivenSigners(gs[..|gs| - 1]) + if gs[|gs| - 1].signer.Some? then [gs[|gs| - 1].signer.value] else []
  }

  function GivenKeys(gs: seq<Group>): seq<string> {
    if gs == [] then []
    else GivenKeys(gs[..|gs| - 1]) + if gs[|gs| - 1].key.Some? then [gs[|gs| - 1].key.value] else []
  }

  function GivenParams(gs: seq<Group>): seq<string> {
    if gs == [] then [] else GivenParams(gs[..|gs| - 1]) + gs[|gs| - 1].param
  }

  lemma GivenLast(gs: seq<Group>, g: Group)
    ensures GivenSigners(gs + [g]) == GivenSigners(gs) + if g.signer.Some? then [g.signer.value] else []
    ensures GivenKeys(gs + [g]) == GivenKeys(gs) + if g.key.Some? then [g.key.value] else []
    ensures GivenParams(gs + [g]) == GivenParams(gs) + g.param
  {
    assert (gs + [g])[..|gs|] == gs;
  }

  lemma GroupedGiven(gs: seq<Group>, o: Opt)
    ensures GivenSigners(Grouped(gs, o)) == GivenSigners(gs) + if o.Signer? then [o.file] else []
    ensures GivenKeys(Grouped(gs, o)) == GivenKeys(gs) + if o.Inkey? then [o.file] else []
    ensures GivenParams(Grouped(gs, o)) == GivenParams(gs) + if o.Keyopt? && gs != [] then [o.param] else []
  {
    hide GivenSigners, GivenKeys, GivenParams;
    var r := Grouped(gs, o);
    if |r| > |gs| {
      GivenLast(gs, r[|gs|]);
    } else if gs != [] {
      var n := |gs| - 1;
      assert gs == gs[..n] + [gs[n]] && r == gs[..n] + [r[n]];
      GivenLast(gs[..n], gs[n]);
      GivenLast(gs[..n], r[n]);
    }
  }

  /** Grouping keeps every argument once, and in order. */
  lemma {:induction false} GroupsKeepArguments(options: seq<Opt>)
    ensures GivenSigners(Groups(options)) == Args(options, SIGNERS)
    ensures GivenKeys(Groups(options)) == Args(options, INKEYS)
    ensures Owned(options) ==> GivenParams(Groups(options)) == Args(options, KEYOPTS)
    decreases |options|
  {
    if options != [] {
      hide GivenSigners, GivenKeys, GivenParams, Grouped, Groups;
      var n := |options| - 1;
      assert Groups(options) == Grouped(Groups(options[..n]), options[n]) by {
        GroupsSnoc(options, n);
        assert options[..n + 1] == options;
      }
      assert forall k :: 0 <= k < n ==> options[..n][k] == options[k] && options[..n][..k] == options[..k];
      GroupsKeepArguments(options[..n]);
      GroupedGiven(Groups(options[..n]), options[n]);
    }
  }

  lemma {:induction false} SignersOfComplete(gs: seq<Group>)
    requires Complete(gs)
    ensures GivenSigners(gs) == SignerFiles(gs)
  {
    if gs != [] {
      FilesSnoc(gs);
      SignersOfComplete(gs[..|gs| - 1]);
    }
  }

  /** An accepted stream has one signature per -signer, in order, and lists of the same length. */
  lemma SignaturePerSigner(options: seq<Opt>)
    requires Accepts(options)
    ensures SignerFiles(Groups(options)) == Args(options, SIGNERS)
    ensures |KeyFiles(Groups(options))| == |SignerFiles(Groups(options))|
  {
    GroupsKeepArguments(options);
    SignersOfComplete(Groups(options));
  }

  // -------------------------------------------------------------------------
  // The pairing, without the groups: a number for every option, so that options with the same number belong together.

  predicate Names(o: Opt) {
    o.Signer? || o.Inkey?
  }

  // Both are -signer options, or both -inkey options.
  predicate SameKind(o: Opt, p: Opt) {
    (o.Signer? && p.Signer?) || (o.Inkey? && p.Inkey?)
  }

  // Numbers do not go down; options of the same kind have different ones; and a number is left only for an option that
  // finds one of its kind there.
  ghost predicate Greedy(options: seq<Opt>, number: seq<int>) {
    |number| == |options| && Climbs(options, number) && Joins(options, number)
  }

  ghost predicate Climbs(options: seq<Opt>, number: seq<int>)
    requires |number| == |options|
  {
    forall j, k :: 0 <= j < k < |options| ==> Up(options[j], number[j], options[k], number[k])
  }

  predicate Up(p: Opt, m: int, o: Opt, n: int) {
    m <= n && (SameKind(p, o) ==> m < n)
  }

  ghost predicate Joins(options: seq<Opt>, number: seq<int>)
    requires |number| == |options|
  {
    forall k :: 0 <= k < |options| ==> JoinsAt(options, number, k)
  }

  // Option j has the number of option k, or the one before it and the kind of option k.
  ghost predicate Before(options: seq<Opt>, number: seq<int>, j: int, k: int)
    requires |number| == |options| && 0 <= k < |options|
  {
    && 0 <= j < k && Names(options[j])
    && (number[j] == number[k] || (number[j] == number[k] - 1 && SameKind(options[j], options[k])))
  }

  // The parameters with a number, in order.
  function KeyoptsOf(options: seq<Opt>, number: seq<int>, i: int): seq<string>
    requires |number| == |options|
  {
    if options == [] then []
    else
      var n := |options| - 1;
      KeyoptsOf(options[..n], number[..n], i)
      + if options[n].Keyopt? && number[n] == i then [options[n].param] else []
  }

  ghost predicate Has(options: seq<Opt>, number: seq<int>, i: int, kind: Opt)
    requires |number| == |options|
  {
    exists k :: 0 <= k < |options| && SameKind(options[k], kind) && number[k] == i
  }

  // The groups are the options by their numbers.
  ghost predicate Collects(options: seq<Opt>, number: seq<int>, gs: seq<Group>) {
    && |number| == |options|
    && (forall k :: 0 <= k < |options| ==> IsIn(options[k], number[k], gs))
    && (forall i :: 0 <= i < |gs| ==> IsOf(options, number, gs[i], i))
  }

  predicate IsIn(o: Opt, m: int, gs: seq<Group>) {
    && m < |gs|
    && (o.Signer? ==> 0 <= m && gs[m].signer == Some(o.file))
    && (o.Inkey? ==> 0 <= m && gs[m].key == Some(o.file))
  }

  ghost predicate IsOf(options: seq<Opt>, number: seq<int>, g: Group, i: int)
    requires |number| == |options|
  {
    && (g.signer.Some? ==> Has(options, number, i, Signer("")))
    && (g.key.Some? ==> Has(options, number, i, Inkey("")))
    && (g.signer.Some? || g.key.Some?)
    && g.param == KeyoptsOf(options, number, i)
  }

  lemma {:induction false} KeyoptsFresh(options: seq<Opt>, number: seq<int>, i: int)
    requires |number| == |options| && forall k :: 0 <= k < |options| ==> number[k] < i
    ensures KeyoptsOf(options, number, i) == []
  {
    if options != [] { KeyoptsFresh(options[..|options| - 1], number[..|options| - 1], i); }
  }

  lemma KeyoptsMore(options: seq<Opt>, number: seq<int>, o: Opt, m: int, i: int)
    requires |number| == |options|
    ensures KeyoptsOf(options + [o], number + [m], i)
         == KeyoptsOf(options, number, i) + if o.Keyopt? && m == i then [o.param] else []
  {
    assert (options + [o])[..|options|] == options && (number + [m])[..|options|] == number;
  }

  lemma HasMore(options: seq<Opt>, number: seq<int>, o: Opt, m: int, i: int, kind: Opt)
    requires |number| == |options|
    ensures Has(options + [o], number + [m], i, kind) <==>
            Has(options, number, i, kind) || (SameKind(o, kind) && m == i)
  {
    var os, ns := options + [o], number + [m];
    if Has(options, number, i, kind) {
      var k :| 0 <= k < |options| && SameKind(options[k], kind) && number[k] == i;
      assert os[k] == options[k] && ns[k] == number[k];
    }
    assert os[|options|] == o && ns[|options|] == m;
    if Has(os, ns, i, kind) {
      var k :| 0 <= k < |os| && SameKind(os[k], kind) && ns[k] == i;
      if k < |options| { assert os[k] == options[k] && ns[k] == number[k]; }
    }
  }

  lemma StaysIn(p: Opt, m: int, gs: seq<Group>, o: Opt)
    requires IsIn(p, m, gs)
    ensures IsIn(p, m, Grouped(gs, o))
  {
  }

  lemma ComesIn(gs: seq<Group>, o: Opt)
    ensures IsIn(o, |Grouped(gs, o)| - 1, Grouped(gs, o))
  {
  }

  // What a new option does to a group.
  lemma GroupedAt(gs: seq<Group>, o: Opt, i: nat)
    requires i < |Grouped(gs, o)|
    ensures var g, last := Grouped(gs, o)[i], i == |Grouped(gs, o)| - 1;
            if i < |gs| then
              && (g.signer.Some? ==> gs[i].signer.Some? || (last && o.Signer?))
              && (gs[i].signer.Some? ==> g.signer.Some?)
              && (g.key.Some? ==> gs[i].key.Some? || (last && o.Inkey?)) && (gs[i].key.Some? ==> g.key.Some?)
              && g.param == gs[i].param + if last && o.Keyopt? then [o.param] else []
            else
              && last && !o.Keyopt? && (g.signer.Some? ==> o.Signer?) && (g.key.Some? ==> o.Inkey?)
              && (g.signer.Some? || g.key.Some?) && g.param == []
  {
    if i < |gs| { assert gs[i].param + [] == gs[i].param; }
  }

  lemma IsOfMore(options: seq<Opt>, number: seq<int>, gs: seq<Group>, o: Opt, i: nat)
    requires Collects(options, number, gs) && i < |Grouped(gs, o)|
    ensures IsOf(options + [o], number + [|Grouped(gs, o)| - 1], Grouped(gs, o)[i], i)
  {
    var m := |Grouped(gs, o)| - 1;
    if i >= |gs| {
      assert forall k :: 0 <= k < |options| ==> IsIn(options[k], number[k], gs);
      KeyoptsFresh(options, number, i);
    } else {
      assert IsOf(options, number, gs[i], i);
    }
    hide Has, KeyoptsOf, IsIn, Collects, Grouped;
    GroupedAt(gs, o, i);
    HasMore(options, number, o, m, i, Signer(""));
    HasMore(options, number, o, m, i, Inkey(""));
    KeyoptsMore(options, number, o, m, i);
    assert i < |gs| ==> gs[i].param + [] == gs[i].param;
  }

  lemma CollectsMore(options: seq<Opt>, number: seq<int>, gs: seq<Group>, o: Opt)
    requires Collects(options, number, gs)
    ensures var gs' := Grouped(gs, o); Collects(options + [o], number + [|gs'| - 1], gs')
  {
    var gs' := Grouped(gs, o);
    var os, ns := options + [o], number + [|gs'| - 1];
    hide IsIn, IsOf, Grouped;
    forall k | 0 <= k < |os| ensures IsIn(os[k], ns[k], gs') {
      if k < |options| { StaysIn(options[k], number[k], gs, o); } else { ComesIn(gs, o); }
    }
    forall i | 0 <= i < |gs'| ensures IsOf(os, ns, gs'[i], i) { IsOfMore(options, number, gs, o, i); }
  }

  lemma NumberUp(p: Opt, m: int, gs: seq<Group>, o: Opt)
    requires IsIn(p, m, gs)
    ensures Up(p, m, o, |Grouped(gs, o)| - 1)
  {
  }

  lemma ClimbsMore(options: seq<Opt>, number: seq<int>, gs: seq<Group>, o: Opt)
    requires Collects(options, number, gs) && Climbs(options, number)
    ensures Climbs(options + [o], number + [|Grouped(gs, o)| - 1])
  {
    var m, n := |Grouped(gs, o)| - 1, |options|;
    var os, ns := options + [o], number + [m];
    assert |ns| == |os|;
    hide IsIn, IsOf, Grouped, Up;
    forall j, k | 0 <= j < k < |os| ensures Up(os[j], ns[j], os[k], ns[k]) {
      assert os[j] == options[j] && ns[j] == number[j];
      if k < n {
        assert os[k] == options[k] && ns[k] == number[k];
      } else {
        assert IsIn(options[j], number[j], gs);
        NumberUp(options[j], number[j], gs, o);
      }
    }
  }

  lemma BeforeStays(options: seq<Opt>, number: seq<int>, o: Opt, m: int, j: int, k: int)
    requires |number| == |options| && 0 <= k < |options| && Before(options, number, j, k)
    ensures Before(options + [o], number + [m], j, k)
  {
  }

  lemma BeforeLast(options: seq<Opt>, number: seq<int>, o: Opt, m: int, j: int)
    requires |number| == |options| && 0 <= j < |options| && Names(options[j])
    requires number[j] == m || (number[j] == m - 1 && SameKind(options[j], o))
    ensures Before(options + [o], number + [m], j, |options|)
  {
  }

  ghost predicate JoinsAt(options: seq<Opt>, number: seq<int>, k: int)
    requires |number| == |options| && 0 <= k < |options|
  {
    Names(options[k]) ==> number[k] == 0 || exists j :: Before(options, number, j, k)
  }

  lemma JoinsStays(options: seq<Opt>, number: seq<int>, o: Opt, m: int, k: int)
    requires |number| == |options| && 0 <= k < |options| && JoinsAt(options, number, k)
    ensures JoinsAt(options + [o], number + [m], k)
  {
    var os, ns := options + [o], number + [m];
    assert os[k] == options[k] && ns[k] == number[k];
    hide Before, Names;
    if Names(options[k]) && number[k] != 0 {
      var j :| Before(options, number, j, k);
      BeforeStays(options, number, o, m, j, k);
    }
  }

  lemma JoinsLast(options: seq<Opt>, number: seq<int>, gs: seq<Group>, o: Opt)
    requires Collects(options, number, gs)
    ensures |number| == |options| && JoinsAt(options + [o], number + [|Grouped(gs, o)| - 1], |options|)
  {
    var m := |Grouped(gs, o)| - 1;
    if Names(o) && m != 0 {
      SomeGroup(gs, o);
      var j := LastOfGroup(options, number, gs, o);
      hide Collects, Grouped, Before;
      BeforeLast(options, number, o, m, j);
    }
  }

  lemma JoinsMore(options: seq<Opt>, number: seq<int>, o: Opt, m: int)
    requires |number| == |options| && Joins(options, number) && JoinsAt(options + [o], number + [m], |options|)
    ensures Joins(options + [o], number + [m])
  {
    hide JoinsAt;
    forall k | 0 <= k < |options + [o]| ensures JoinsAt(options + [o], number + [m], k) {
      if k < |options| { JoinsStays(options, number, o, m, k); }
    }
  }

  lemma CollectStep(options: seq<Opt>, number: seq<int>, gs: seq<Group>, o: Opt)
    requires Collects(options, number, gs) && Greedy(options, number)
    ensures var gs' := Grouped(gs, o);
            Collects(options + [o], number + [|gs'| - 1], gs') && Greedy(options + [o], number + [|gs'| - 1])
  {
    hide Collects, Climbs, Joins, Grouped;
    CollectsMore(options, number, gs, o);
    ClimbsMore(options, number, gs, o);
    JoinsLast(options, number, gs, o);
    JoinsMore(options, number, o, |Grouped(gs, o)| - 1);
  }

  lemma SomeGroup(gs: seq<Group>, o: Opt)
    requires Names(o)
    ensures |Grouped(gs, o)| >= 1
  {
  }

  // An option of the last group that the new one joins, or that makes it open another.
  lemma LastOfGroup(options: seq<Opt>, number: seq<int>, gs: seq<Group>, o: Opt) returns (j: int)
    requires Collects(options, number, gs) && Names(o) && |Grouped(gs, o)| > 1
    ensures 0 <= j < |options| && Names(options[j])
    ensures var m := |Grouped(gs, o)| - 1; number[j] == m || (number[j] == m - 1 && SameKind(options[j], o))
  {
    var i := |gs| - 1;
    assert IsOf(options, number, gs[i], i);
    if gs[i].signer.Some? && (o.Signer? || |Grouped(gs, o)| == |gs|) {
      j :| 0 <= j < |options| && SameKind(options[j], Signer("")) && number[j] == i;
    } else {
      j :| 0 <= j < |options| && SameKind(options[j], Inkey("")) && number[j] == i;
    }
  }

  lemma NothingCollected()
    ensures Collects([], [], Groups([])) && Greedy([], [])
  {
  }

  lemma {:induction false} GroupsCollect(options: seq<Opt>) returns (number: seq<int>)
    ensures Collects(options, number, Groups(options)) && Greedy(options, number)
    decreases |options|
  {
    hide *;
    if options == [] {
      number := [];
      NothingCollected();
    } else {
      var n := |options| - 1;
      var first, o := options[..n], options[n];
      var before := GroupsCollect(first);
      GroupsSnoc(options, n);
      assert options[..n + 1] == options && first + [o] == options;
      number := before + [|Groups(options)| - 1];
      CollectStep(first, before, Groups(first), o);
    }
  }

  /**
   * What an accepted command signs with, said of the options alone: the file names are paired greedily, every -signer
   * is the certificate of its job, every -inkey the key of its job, and a job without an -inkey signs with the key in
   * its certificate file.  If every -keyopt is numbered by its group, the parameters of a job are those with its
   * number.
   */
  lemma SignsAsGiven(options: seq<Opt>) returns (number: seq<int>)
    requires Accepts(options)
    ensures Greedy(options, number)
    ensures var jobs := Done(options);
            && (forall k :: 0 <= k < |options| && Names(options[k]) ==> 0 <= number[k] < |jobs|)
            && (forall k :: 0 <= k < |options| && options[k].Signer? ==> jobs[number[k]].signer == options[k].file)
            && (forall k :: 0 <= k < |options| && options[k].Inkey? ==> jobs[number[k]].key == options[k].file)
            && (forall i :: 0 <= i < |jobs| ==> Has(options, number, i, Signer("")))
            && (forall i :: 0 <= i < |jobs| && !Has(options, number, i, Inkey("")) ==> jobs[i].key == jobs[i].signer)
            && (WellFiled(options) ==>
                  forall i :: 0 <= i < |jobs| ==>
                    var given := KeyoptsOf(options, number, i);
                    jobs[i].param == if given == [] then None else Some(given))
  {
    number := GroupsCollect(options);
    if WellFiled(options) { WellFiledReaches(options); }
    hide Groups, Climbs, Joins, Params, Lookup, WellFiled, KeyoptsOf, Has, Collects, SameKind;
    forall k | 0 <= k < |options| && Names(options[k])
      ensures 0 <= number[k] < |Done(options)|
      ensures options[k].Signer? ==> Done(options)[number[k]].signer == options[k].file
      ensures options[k].Inkey? ==> Done(options)[number[k]].key == options[k].file
    {
      OptionGiven(options, number, k);
    }
    forall i | 0 <= i < |Done(options)|
      ensures Has(options, number, i, Signer(""))
      ensures !Has(options, number, i, Inkey("")) ==> Done(options)[i].key == Done(options)[i].signer
      ensures var given := KeyoptsOf(options, number, i);
              Wanted(Groups(options))[i].param == if given == [] then None else Some(given)
    {
      JobGiven(options, number, i);
    }
  }

  lemma OptionGiven(options: seq<Opt>, number: seq<int>, k: nat)
    requires Complete(Groups(options)) && Collects(options, number, Groups(options)) && k < |options|
    requires Names(options[k])
    ensures 0 <= number[k] < |Done(options)|
    ensures options[k].Signer? ==> Done(options)[number[k]].signer == options[k].file
    ensures options[k].Inkey? ==> Done(options)[number[k]].key == options[k].file
  {
    assert IsIn(options[k], number[k], Groups(options));
    hide Groups, Params, Lookup, Collects;
  }

  lemma JobGiven(options: seq<Opt>, number: seq<int>, i: nat)
    requires Complete(Groups(options)) && Collects(options, number, Groups(options)) && i < |Groups(options)|
    ensures Has(options, number, i, Signer(""))
    ensures !Has(options, number, i, Inkey("")) ==> Done(options)[i].key == Done(options)[i].signer
    ensures var given := KeyoptsOf(options, number, i);
            Wanted(Groups(options))[i].param == if given == [] then None else Some(given)
  {
    assert IsOf(options, number, Groups(options)[i], i);
    hide Groups, Params, Lookup, Collects, Has, KeyoptsOf;
  }

  // -------------------------------------------------------------------------
  // The streams that are accepted, said of the options alone.

  // The last operation given before position k.
  ghost predicate InForce(options: seq<Opt>, k: int, op: Operation)
    requires 0 <= k <= |options|
  {
    exists j :: 0 <= j < k && options[j] == Operate(op) && NoneBetween(options, j, k)
  }

  ghost predicate NoneBetween(options: seq<Opt>, j: int, k: int)
    requires 0 <= j < k <= |options|
  {
    forall i :: j < i < k ==> !options[i].Operate?
  }

  lemma {:induction false} CurrentIsInForce(options: seq<Opt>, k: nat, op: Operation)
    requires k <= |options| && op != Other
    ensures Current(options[..k]) == op <==> InForce(options, k, op)
  {
    if k > 0 {
      CurrentIsInForce(options, k - 1, op);
      assert options[..k][..k - 1] == options[..k - 1];
      var o := options[k - 1];
      if o == Operate(op) {
        assert NoneBetween(options, k - 1, k);
      } else if !o.Operate? {
        if InForce(options, k - 1, op) {
          var j :| 0 <= j < k - 1 && options[j] == Operate(op) && NoneBetween(options, j, k - 1);
          assert NoneBetween(options, j, k);
        }
        if InForce(options, k, op) {
          var j :| 0 <= j < k && options[j] == Operate(op) && NoneBetween(options, j, k);
          assert NoneBetween(options, j, k - 1);
        }
      } else {
        forall j | 0 <= j < k && options[j] == Operate(op) ensures !NoneBetween(options, j, k) {
          assert j < k - 1;
        }
      }
    }
  }

  // A recipient, which is read only while encrypting.
  ghost predicate ReadsRecipient(options: seq<Opt>, j: int)
    requires 0 <= j < |options|
  {
    options[j].Recip? && InForce(options, j, Encrypt)
  }

  lemma {:induction false} SomeRecipient(options: seq<Opt>, k: nat)
    requires k <= |options|
    ensures Recipients(options[..k]) > 0 <==> exists j :: 0 <= j < k && ReadsRecipient(options, j)
  {
    hide InForce, Current;
    if k > 0 {
      SomeRecipient(options, k - 1);
      CurrentIsInForce(options, k - 1, Encrypt);
      assert options[..k][..k - 1] == options[..k - 1];
      var more := if ReadsRecipient(options, k - 1) then 1 else 0;
      assert Recipients(options[..k]) == Recipients(options[..k - 1]) + more;
    }
  }

  lemma {:induction false} SomeGroupGiven(options: seq<Opt>, k: nat)
    requires k <= |options|
    ensures Groups(options[..k]) != [] <==> exists j :: 0 <= j < k && Names(options[j])
  {
    if k > 0 {
      SomeGroupGiven(options, k - 1);
      assert options[..k][..k - 1] == options[..k - 1];
    }
  }

  // A -keyopt needs a recipient while encrypting, and otherwise a file name; a recipient must load.
  ghost predicate Follows(options: seq<Opt>, k: int)
    requires 0 <= k < |options|
  {
    && (options[k].Keyopt? ==>
          if InForce(options, k, Encrypt) then exists j :: 0 <= j < k && ReadsRecipient(options, j)
          else exists j :: 0 <= j < k && Names(options[j]))
    && (ReadsRecipient(options, k) ==> options[k].loads)
  }

  lemma FollowsIffAdmissible(options: seq<Opt>, k: nat)
    requires k < |options|
    ensures Admissible(options[..k], options[k]) <==> Follows(options, k)
  {
    hide Groups, Recipients, Current, InForce;
    CurrentIsInForce(options, k, Encrypt);
    SomeRecipient(options, k);
    SomeGroupGiven(options, k);
  }

  lemma CompleteIff(options: seq<Opt>, number: seq<int>)
    requires Collects(options, number, Groups(options))
    ensures Complete(Groups(options)) <==>
            forall k :: 0 <= k < |options| && options[k].Inkey? ==> Has(options, number, number[k], Signer(""))
  {
    hide Groups, KeyoptsOf;
    var gs := Groups(options);
    if Complete(gs) {
      forall k | 0 <= k < |options| && options[k].Inkey? ensures Has(options, number, number[k], Signer("")) {
        assert IsIn(options[k], number[k], gs) && IsOf(options, number, gs[number[k]], number[k]);
      }
    }
    if forall k :: 0 <= k < |options| && options[k].Inkey? ==> Has(options, number, number[k], Signer("")) {
      forall i | 0 <= i < |gs| ensures gs[i].signer.Some? {
        assert IsOf(options, number, gs[i], i);
        if gs[i].key.Some? {
          var k :| 0 <= k < |options| && SameKind(options[k], Inkey("")) && number[k] == i;
          var k' :| 0 <= k' < |options| && SameKind(options[k'], Signer("")) && number[k'] == number[k];
          assert IsIn(options[k'], number[k'], gs);
        }
      }
    }
  }

  /**
   * A stream is accepted exactly if it ends with a signing operation in force, names a file, pairs every -inkey with a
   * -signer, and every -keyopt and recipient follows what it needs.
   */
  lemma AcceptsIffGiven(options: seq<Opt>) returns (number: seq<int>)
    ensures Greedy(options, number)
    ensures Accepts(options) <==>
            && (InForce(options, |options|, Sign) || InForce(options, |options|, Resign))
            && (exists k :: 0 <= k < |options| && Names(options[k]))
            && (forall k :: 0 <= k < |options| && options[k].Inkey? ==> Has(options, number, number[k], Signer("")))
            && (forall k :: 0 <= k < |options| ==> Follows(options, k))
  {
    number := GroupsCollect(options);
    CompleteIff(options, number);
    assert options[..|options|] == options;
    CurrentIsInForce(options, |options|, Sign);
    CurrentIsInForce(options, |options|, Resign);
    SomeGroupGiven(options, |options|);
    forall k | 0 <= k < |options| ensures Admissible(options[..k], options[k]) <==> Follows(options, k) {
      FollowsIffAdmissible(options, k);
    }
    hide Groups, Current, InForce, Follows, Admissible, Has, Greedy, Complete, Collects;
  }

  const SWITCHED := [Signer("a"), Operate(Encrypt), Recip(true), Recip(true), Keyopt("p"), Operate(Sign)]

  lemma SwitchedHalf()
    ensures Groups(SWITCHED[..3]) == [Group(Some("a"), None, [])] && Params(SWITCHED[..3]) == []
    ensures Current(SWITCHED[..3]) == Current(SWITCHED[..2]) == Encrypt && Recipients(SWITCHED[..3]) == 1
  {
    assert SWITCHED[..0] == [];
    assert Groups(SWITCHED[..0]) == [] && Recipients(SWITCHED[..0]) == 0 && Params(SWITCHED[..0]) == [];
    hide Groups, Current, Recipients, Params;
    GroupsSnoc(SWITCHED, 0);
    GroupsSnoc(SWITCHED, 1);
    GroupsSnoc(SWITCHED, 2);
  }

  lemma SwitchedWhole()
    ensures Groups(SWITCHED) == [Group(Some("a"), None, ["p"])] && Params(SWITCHED) == [KeyParam(1, ["p"])]
    ensures Current(SWITCHED) == Sign && Index(SWITCHED[..4]) == 1 && |Groups(SWITCHED[..4])| == 1
  {
    hide Groups, Current, Recipients, Params;
    SwitchedHalf();
    GroupsSnoc(SWITCHED, 3);
    GroupsSnoc(SWITCHED, 4);
    GroupsSnoc(SWITCHED, 5);
    assert SWITCHED[..6] == SWITCHED;
    assert [] + ["p"] == ["p"];
  }

  /** Switching to encryption and back while options are read loses a parameter that was read for the signer. */
  lemma SwitchLosesParameter()
    ensures Accepts(SWITCHED) && !WellFiled(SWITCHED)
    ensures Wanted(Groups(SWITCHED)) == [Job("a", "a", Some(["p"]))]
    ensures Done(SWITCHED) == [Job("a", "a", None)]
  {
    hide Groups, Current, Recipients, Params, Index;
    SwitchedWhole();
    assert SWITCHED[4].Keyopt?;
    assert Lookup(Params(SWITCHED), 0) == None;
    assert forall k :: 0 <= k < |SWITCHED| ==> Admissible(SWITCHED[..k], SWITCHED[k]);
  }
}
