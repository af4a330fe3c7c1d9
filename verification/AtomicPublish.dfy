/** Write-once publication of the campaign result: a temporary file is written, synced and
    hard-linked to the output path.  Any number of callers run concurrently with foreign processes;
    every operation may raise, any process may be killed, and power may be lost at any point. */
module AtomicPublish {

  type Bytes = seq<bv8>

  /** `durable`: the contents are on stable storage. */
  datatype Inode = Inode(content: Bytes, durable: bool)

  /** What the output path names. */
  datatype Entry = Absent | Present(inode: nat)

  /** `survivors` holds every entry the output path may have after a power loss: those it had since
      the directory was last synced. */
  datatype Disk = Disk(inodes: seq<Inode>, output: Entry, survivors: set<Entry>)

  datatype Outcome = Published | Refused | Failed

  /** Where a call stands; `Cleaning` is its outer `finally` block. */
  datatype Point =
    | Begin
    | Checked
    | Opened
    | Written
    | Synced
    | Linked
    | Cleaning(outcome: Outcome)
    | Finished(outcome: Outcome)
    | Killed

  /** One call: the inode of its temporary file, whether the temporary name exists, and whether the
      call has linked that inode to the output path. */
  datatype Writer = Writer(point: Point, owns: bool, inode: nat, temporary: bool, linked: bool)

  const FRESH: Writer := Writer(Begin, false, 0, false, false)

  /** How an operation ends: normally, or by raising after part of its effect. */
  datatype Fault = Fine | Raises(amount: nat, effective: bool)

  datatype State = State(disk: Disk, writers: seq<Writer>, lost: bool)

  // ---- Steps of one call ------------------------------------------------------------------

  function SetInode(d: Disk, i: nat, inode: Inode): Disk
    requires i < |d.inodes|
  {
    d.(inodes := d.inodes[i := inode])
  }

  function Prefix(data: Bytes, amount: nat): Bytes {
    if amount <= |data| then data[..amount] else data
  }

  predicate Sound(d: Disk, w: Writer) {
    w.owns ==> w.inode < |d.inodes|
  }

  /** The next operation of a call, ending as `fault` says. */
  function Advance(d: Disk, w: Writer, data: Bytes, fault: Fault): (Disk, Writer)
    requires Sound(d, w)
  {
    match w.point
    case Begin =>
      if fault.Raises? then (d, w.(point := Finished(Failed)))
      else if d.output.Present? then (d, w.(point := Finished(Refused)))
      else (d, w.(point := Checked))
    case Checked =>
      if fault.Raises? then (d, w.(point := Finished(Failed)))
      else (d.(inodes := d.inodes + [Inode([], false)]), Writer(Opened, true, |d.inodes|, true, false))
    case Opened =>
      if !w.owns then (d, w)
      else if fault.Raises? then
        (SetInode(d, w.inode, Inode(Prefix(data, fault.amount), false)), w.(point := Cleaning(Failed)))
      else (SetInode(d, w.inode, Inode(data, false)), w.(point := Written))
    case Written =>
      if !w.owns then (d, w)
      else if fault.Raises? then
        (if fault.effective then SetInode(d, w.inode, d.inodes[w.inode].(durable := true)) else d,
         w.(point := Cleaning(Failed)))
      else (SetInode(d, w.inode, d.inodes[w.inode].(durable := true)), w.(point := Synced))
    case Synced =>
      if fault.Raises? then (d, w.(point := Cleaning(Failed)))
      else if d.output.Present? then (d, w.(point := Cleaning(Refused)))
      else (d.(output := Present(w.inode), survivors := d.survivors + {Present(w.inode)}),
            w.(point := Linked, linked := true))
    case Linked =>
      if fault.Raises? then
        (if fault.effective then d.(survivors := {d.output}) else d, w.(point := Cleaning(Failed)))
      else (d.(survivors := {d.output}), w.(point := Cleaning(Published)))
    case Cleaning(outcome) =>
      if fault.Raises? then (d, w.(point := Finished(Failed), temporary := !fault.effective))
      else (d, w.(point := Finished(outcome), temporary := false))
    case Finished(_) => (d, w)
    case Killed => (d, w)
  }

  // ---- The concurrent system --------------------------------------------------------------

  ghost predicate Owned(s: State, i: nat) {
    exists k :: 0 <= k < |s.writers| && s.writers[k].owns && s.writers[k].inode == i
  }

  /** An inode a foreign process can reach: not a private temporary file of a call. */
  ghost predicate Reachable(s: State, i: nat) {
    forall k | 0 <= k < |s.writers| && s.writers[k].owns && s.writers[k].inode == i :: s.writers[k].linked
  }

  /** Foreign processes may do anything except touch the calls' files under their temporary names
      or rewrite what a call has written. */
  ghost predicate Foreign(s: State, d: Disk) {
    && |s.disk.inodes| <= |d.inodes|
    && (forall i | 0 <= i < |s.disk.inodes| && Owned(s, i) :: d.inodes[i] == s.disk.inodes[i])
    && (d.output.Present? ==> d.output.inode < |d.inodes| && Reachable(s, d.output.inode))
    && (d.survivors == {d.output} || d.survivors == s.disk.survivors + {d.output})
  }

  /** Foreign writers that, like the calls themselves, only ever create the output path. */
  ghost predicate CreateOnly(s: State, d: Disk) {
    && Foreign(s, d)
    && (s.disk.output.Present? ==> d.output == s.disk.output)
    && (forall i | 0 <= i < |s.disk.inodes| && s.disk.inodes[i].durable :: d.inodes[i] == s.disk.inodes[i])
  }

  ghost predicate WriterStep(s: State, t: State, data: seq<Bytes>, k: nat, fault: Fault) {
    && |s.writers| == |data| && k < |data| && Sound(s.disk, s.writers[k])
    && var (d, w) := Advance(s.disk, s.writers[k], data[k], fault);
       t == State(d, s.writers[k := w], s.lost)
  }

  function Kill(w: Writer): Writer {
    if w.point.Finished? then w else w.(point := Killed)
  }

  ghost predicate KillStep(s: State, t: State, k: nat) {
    k < |s.writers| && t == s.(writers := s.writers[k := Kill(s.writers[k])])
  }

  /** A power loss kills every process, keeps durable inodes, garbles the others and leaves one of
      the surviving entries. */
  ghost predicate PowerLoss(s: State, t: State) {
    && t.lost && |t.writers| == |s.writers| && |t.disk.inodes| == |s.disk.inodes|
    && (forall k | 0 <= k < |s.writers| :: t.writers[k] == Kill(s.writers[k]))
    && (forall i | 0 <= i < |s.disk.inodes| && s.disk.inodes[i].durable :: t.disk.inodes[i] == s.disk.inodes[i])
    && t.disk.output in s.disk.survivors && t.disk.survivors == {t.disk.output}
  }

  ghost predicate Step(s: State, t: State, data: seq<Bytes>, createOnly: bool) {
    || (exists k, fault :: WriterStep(s, t, data, k, fault))
    || (exists k :: KillStep(s, t, k))
    || PowerLoss(s, t)
    || (t == s.(disk := t.disk) && (if createOnly then CreateOnly(s, t.disk) else Foreign(s, t.disk)))
  }

  ghost predicate Initial(s: State, data: seq<Bytes>) {
    && |s.writers| == |data| && (forall k | 0 <= k < |data| :: s.writers[k] == FRESH)
    && s.disk.output in s.disk.survivors
    && (forall e | e in s.disk.survivors && e.Present? :: e.inode < |s.disk.inodes|)
    && !s.lost
  }

  ghost predicate IsRun(run: seq<State>, data: seq<Bytes>, createOnly: bool) {
    && |run| > 0 && Initial(run[0], data)
    && (forall n | 0 <= n < |run| - 1 :: Step(run[n], run[n + 1], data, createOnly))
  }

  // ---- What every step keeps --------------------------------------------------------------

  ghost predicate WriterKept(d: Disk, w: Writer, data: Bytes) {
    && Sound(d, w)
    && (w.linked ==> w.owns && d.inodes[w.inode] == Inode(data, true))
    && match w.point
       case Begin => !w.owns && !w.linked && !w.temporary
       case Checked => !w.owns && !w.linked && !w.temporary
       case Opened => w.owns && !w.linked && w.temporary
       case Written => w.owns && !w.linked && w.temporary && d.inodes[w.inode].content == data
       case Synced => w.owns && !w.linked && w.temporary && d.inodes[w.inode] == Inode(data, true)
       case Linked => w.linked && w.temporary
       case Cleaning(o) => w.owns && w.temporary && (o.Published? ==> w.linked) && (o.Refused? ==> !w.linked)
       case Finished(o) => (o.Published? ==> w.linked) && (o.Refused? ==> !w.linked) && (!o.Failed? ==> !w.temporary)
       case Killed => true
  }

  ghost predicate EntryKept(s: State, e: Entry) {
    e.Present? ==> e.inode < |s.disk.inodes| && Reachable(s, e.inode)
  }

  ghost predicate Kept(s: State, data: seq<Bytes>) {
    && |s.writers| == |data|
    && (forall k | 0 <= k < |data| :: WriterKept(s.disk, s.writers[k], data[k]))
    && (forall k, l | 0 <= k < l < |data| && s.writers[k].owns && s.writers[l].owns ::
          s.writers[k].inode != s.writers[l].inode)
    && s.disk.output in s.disk.survivors
    && (forall e | e in s.disk.survivors :: EntryKept(s, e))
    && (s.lost ==> forall k | 0 <= k < |data| :: s.writers[k].point.Finished? || s.writers[k].point.Killed?)
  }

  /** One operation keeps its own writer's facts, extends the disk, changes at most the writer's
      own inode, keeps or newly allocates that inode, and leaves no new entry but its own link. */
  lemma AdvanceKeeps(d: Disk, w: Writer, data: Bytes, fault: Fault)
    requires WriterKept(d, w, data)
    ensures var (d', w') := Advance(d, w, data, fault);
            && WriterKept(d', w', data) && |d.inodes| <= |d'.inodes|
            && (forall i | 0 <= i < |d.inodes| && !(w.owns && w.inode == i) :: d'.inodes[i] == d.inodes[i])
            && (w.owns ==> w'.owns && w'.inode == w.inode)
            && (!w.owns && w'.owns ==> w'.inode == |d.inodes| && !w'.linked)
            && (w.linked ==> w'.linked)
            && d'.survivors <= d.survivors + {d'.output}
            && (d'.output in d'.survivors || (d'.output == d.output && d'.survivors == d.survivors))
            && (d'.output == d.output || (d'.output == Present(w'.inode) && w'.linked && d.output.Absent?))
            && ((w.point.Finished? || w.point.Killed?) ==> w' == w)
  {
  }

  lemma WriterStepKeeps(s: State, t: State, data: seq<Bytes>, k: nat, fault: Fault)
    requires Kept(s, data) && WriterStep(s, t, data, k, fault)
    ensures Kept(t, data)
  {
    hide Advance;
    assert WriterKept(s.disk, s.writers[k], data[k]);
    AdvanceKeeps(s.disk, s.writers[k], data[k], fault);
    forall l | 0 <= l < |data| && l != k
      ensures t.writers[l] == s.writers[l] && WriterKept(t.disk, t.writers[l], data[l])
    {
      assert WriterKept(s.disk, s.writers[l], data[l]);
    }
    forall e | e in t.disk.survivors
      ensures EntryKept(t, e)
    {
      if e in s.disk.survivors {
        assert EntryKept(s, e);
      }
    }
  }

  lemma KillStepKeeps(s: State, t: State, data: seq<Bytes>, k: nat)
    requires Kept(s, data) && KillStep(s, t, k)
    ensures Kept(t, data)
  {
    forall l | 0 <= l < |data|
      ensures WriterKept(t.disk, t.writers[l], data[l])
    {
      assert WriterKept(s.disk, s.writers[l], data[l]);
    }
    forall e | e in t.disk.survivors
      ensures EntryKept(t, e)
    {
      assert EntryKept(s, e);
    }
  }

  lemma PowerLossKeeps(s: State, t: State, data: seq<Bytes>)
    requires Kept(s, data) && PowerLoss(s, t)
    ensures Kept(t, data)
  {
    forall l | 0 <= l < |data|
      ensures WriterKept(t.disk, t.writers[l], data[l])
    {
      assert WriterKept(s.disk, s.writers[l], data[l]);
    }
    assert EntryKept(s, t.disk.output);
  }

  lemma ForeignKeeps(s: State, t: State, data: seq<Bytes>)
    requires Kept(s, data) && t == s.(disk := t.disk) && Foreign(s, t.disk)
    ensures Kept(t, data)
  {
    forall l | 0 <= l < |data|
      ensures WriterKept(t.disk, t.writers[l], data[l])
    {
      assert WriterKept(s.disk, s.writers[l], data[l]);
      if s.writers[l].owns {
        assert Owned(s, s.writers[l].inode);
      }
    }
    forall e | e in t.disk.survivors
      ensures EntryKept(t, e)
    {
      if e in s.disk.survivors {
        assert EntryKept(s, e);
      }
    }
  }

  lemma StepKeeps(s: State, t: State, data: seq<Bytes>, createOnly: bool)
    requires Kept(s, data) && Step(s, t, data, createOnly)
    ensures Kept(t, data)
  {
    hide Kept, WriterStep, KillStep, PowerLoss, Foreign;
    if k: nat, fault :| WriterStep(s, t, data, k, fault) {
      WriterStepKeeps(s, t, data, k, fault);
    } else if k: nat :| KillStep(s, t, k) {
      KillStepKeeps(s, t, data, k);
    } else if PowerLoss(s, t) {
      PowerLossKeeps(s, t, data);
    } else {
      ForeignKeeps(s, t, data);
    }
  }

  lemma {:induction false} RunKeeps(run: seq<State>, data: seq<Bytes>, createOnly: bool, n: nat)
    requires IsRun(run, data, createOnly) && n < |run|
    ensures Kept(run[n], data)
  {
    hide Step;
    if n == 0 {
      forall e | e in run[0].disk.survivors
        ensures EntryKept(run[0], e)
      {
      }
    } else {
      RunKeeps(run, data, createOnly, n - 1);
      assert Step(run[n - 1], run[n - 1 + 1], data, createOnly);
      StepKeeps(run[n - 1], run[n], data, createOnly);
    }
  }

  // ---- What the output path shows ---------------------------------------------------------

  datatype View = Nothing | Holds(content: Bytes)

  function Visible(d: Disk): View {
    if d.output.Present? && d.output.inode < |d.inodes| then Holds(d.inodes[d.output.inode].content) else Nothing
  }

  /** Under any interference, an operation of a call either leaves the output path and what it
      shows alone, or takes it from absent to the call's complete, durable data. */
  lemma OwnStepsPublishWhole(run: seq<State>, data: seq<Bytes>, n: nat, t: State, k: nat, fault: Fault)
    requires IsRun(run, data, false) && n < |run| && WriterStep(run[n], t, data, k, fault)
    ensures (t.disk.output == run[n].disk.output && Visible(t.disk) == Visible(run[n].disk))
            || (run[n].disk.output.Absent? && Visible(t.disk) == Holds(data[k]) && t.writers[k].linked
                && t.disk.inodes[t.disk.output.inode].durable)
  {
    hide IsRun;
    var s := run[n];
    RunKeeps(run, data, false, n);
    assert WriterKept(s.disk, s.writers[k], data[k]);
    assert EntryKept(s, s.disk.output);
  }

  /** Under any interference, kill and power loss: when the output path names a call's file, that
      call has linked it and the file is complete. */
  lemma NeverPartial(run: seq<State>, data: seq<Bytes>, n: nat, k: nat)
    requires IsRun(run, data, false) && n < |run| && k < |data| == |run[n].writers|
    requires run[n].writers[k].owns && run[n].disk.output == Present(run[n].writers[k].inode)
    ensures run[n].writers[k].linked && Visible(run[n].disk) == Holds(data[k])
  {
    hide IsRun;
    RunKeeps(run, data, false, n);
    assert EntryKept(run[n], run[n].disk.output);
    assert WriterKept(run[n].disk, run[n].writers[k], data[k]);
  }

  // ---- Create-only interference -----------------------------------------------------------

  /** The output path durably names one complete file. */
  ghost predicate Durably(d: Disk, i: nat, content: Bytes) {
    i < |d.inodes| && d.output == Present(i) && d.survivors == {Present(i)} && d.inodes[i] == Inode(content, true)
  }

  lemma DurablyIsStable(s: State, t: State, data: seq<Bytes>, i: nat, content: Bytes)
    requires Kept(s, data) && Step(s, t, data, true) && Durably(s.disk, i, content)
    ensures Durably(t.disk, i, content)
  {
    hide WriterStep, Kept;
    if k: nat, fault :| WriterStep(s, t, data, k, fault) {
      WriterStepLeavesFile(s, t, data, k, fault, i, content);
    }
  }

  lemma WriterStepLeavesFile(s: State, t: State, data: seq<Bytes>, k: nat, fault: Fault, i: nat, content: Bytes)
    requires Kept(s, data) && WriterStep(s, t, data, k, fault) && Durably(s.disk, i, content)
    ensures Durably(t.disk, i, content)
  {
    assert WriterKept(s.disk, s.writers[k], data[k]);
    assert EntryKept(s, s.disk.output);
  }

  /** A durable output file is never overwritten, removed or damaged, whatever the calls, the
      other writers, kills and power losses do. */
  lemma {:induction false} ExistingOutputIsKept(run: seq<State>, data: seq<Bytes>, m: nat, n: nat, i: nat, content: Bytes)
    requires IsRun(run, data, true) && m <= n < |run| && Durably(run[m].disk, i, content)
    ensures Durably(run[n].disk, i, content)
    decreases n
  {
    hide Step, Kept, Durably;
    if m < n {
      ExistingOutputIsKept(run, data, m, n - 1, i, content);
      RunKeeps(run, data, true, n - 1);
      assert Step(run[n - 1], run[n - 1 + 1], data, true);
      DurablyIsStable(run[n - 1], run[n], data, i, content);
    }
  }

  predicate ReportsPublished(w: Writer) {
    (w.point.Cleaning? || w.point.Finished?) && w.point.outcome.Published?
  }

  ghost predicate Settled(s: State, data: seq<Bytes>) {
    && |s.writers| == |data|
    && (forall k | 0 <= k < |data| && s.writers[k].linked && !s.lost :: s.disk.output == Present(s.writers[k].inode))
    && (forall k, l | 0 <= k < l < |data| :: !s.writers[k].linked || !s.writers[l].linked)
    && (forall k | 0 <= k < |data| && ReportsPublished(s.writers[k]) :: Durably(s.disk, s.writers[k].inode, data[k]))
  }

  lemma WriterStepSettles(s: State, t: State, data: seq<Bytes>, j: nat, fault: Fault)
    requires Kept(s, data) && Settled(s, data) && WriterStep(s, t, data, j, fault) && Kept(t, data)
    ensures Settled(t, data)
  {
    hide Advance, Durably, Foreign, CreateOnly, PowerLoss, KillStep;
    var w := s.writers[j];
    assert WriterKept(s.disk, w, data[j]);
    AdvanceKeeps(s.disk, w, data[j], fault);
    AdvanceReports(s.disk, w, data[j], fault);
    assert Step(s, t, data, true);
    forall k | 0 <= k < |data| && ReportsPublished(t.writers[k])
      ensures Durably(t.disk, t.writers[k].inode, data[k])
    {
      if ReportsPublished(s.writers[k]) {
        DurablyIsStable(s, t, data, s.writers[k].inode, data[k]);
      }
    }
  }

  /** A call links only an absent output, and starts to report success only with its own file at
      the output path of a synced directory. */
  lemma AdvanceReports(d: Disk, w: Writer, data: Bytes, fault: Fault)
    requires WriterKept(d, w, data)
    ensures var (d', w') := Advance(d, w, data, fault);
            && (w'.linked && !w.linked ==> d.output.Absent? && d'.output == Present(w'.inode))
            && (w.linked ==> d'.output == d.output)
            && (ReportsPublished(w') && !ReportsPublished(w) && d.output == Present(w.inode) ==>
                  w.linked && Durably(d', w'.inode, data))
            && (ReportsPublished(w') ==> w'.linked && w.linked)
  {
  }

  lemma OtherStepSettles(s: State, t: State, data: seq<Bytes>)
    requires Kept(s, data) && Settled(s, data) && Kept(t, data) && Step(s, t, data, true)
    requires (exists k :: KillStep(s, t, k)) || PowerLoss(s, t) || (t == s.(disk := t.disk) && CreateOnly(s, t.disk))
    ensures Settled(t, data)
  {
    hide Kept, Durably, Step, WriterStep, Foreign;
    forall k | 0 <= k < |data| && ReportsPublished(t.writers[k])
      ensures Durably(t.disk, t.writers[k].inode, data[k])
    {
      assert ReportsPublished(s.writers[k]);
      DurablyIsStable(s, t, data, s.writers[k].inode, data[k]);
    }
  }

  lemma {:induction false} RunSettles(run: seq<State>, data: seq<Bytes>, n: nat)
    requires IsRun(run, data, true) && n < |run|
    ensures Settled(run[n], data)
  {
    hide Step, Kept, WriterStep, Durably;
    if n > 0 {
      var s, t := run[n - 1], run[n];
      RunSettles(run, data, n - 1);
      RunKeeps(run, data, true, n - 1);
      RunKeeps(run, data, true, n);
      assert Step(run[n - 1], run[n - 1 + 1], data, true);
      StepSettles(s, t, data);
    }
  }

  lemma StepSettles(s: State, t: State, data: seq<Bytes>)
    requires Kept(s, data) && Settled(s, data) && Kept(t, data) && Step(s, t, data, true)
    ensures Settled(t, data)
  {
    hide Kept, Settled, WriterStep, KillStep, PowerLoss, CreateOnly;
    if j: nat, fault :| WriterStep(s, t, data, j, fault) {
      WriterStepSettles(s, t, data, j, fault);
    } else {
      OtherStepSettles(s, t, data);
    }
  }

  lemma {:induction false} LinkedIsStable(run: seq<State>, data: seq<Bytes>, m: nat, n: nat, k: nat)
    requires IsRun(run, data, true) && m <= n < |run| && k < |data|
    requires |run[m].writers| == |data| && run[m].writers[k].linked
    ensures |run[n].writers| == |data| && run[n].writers[k].linked && run[n].writers[k].inode == run[m].writers[k].inode
    decreases n
  {
    if m < n {
      LinkedIsStable(run, data, m, n - 1, k);
      RunKeeps(run, data, true, n - 1);
      assert WriterKept(run[n - 1].disk, run[n - 1].writers[k], data[k]);
      assert Step(run[n - 1], run[n - 1 + 1], data, true);
      LinkedStep(run[n - 1], run[n], data, k);
    }
  }

  lemma LinkedStep(s: State, t: State, data: seq<Bytes>, k: nat)
    requires Kept(s, data) && Step(s, t, data, true) && k < |data| && s.writers[k].linked
    ensures |t.writers| == |data| && t.writers[k].linked && t.writers[k].inode == s.writers[k].inode
  {
    assert WriterKept(s.disk, s.writers[k], data[k]);
  }

  /** Of all concurrent calls at most one ever links, and a call that reports success has made the
      output path show exactly its data from then on, through kills and power losses. */
  lemma AtMostOnePublisher(run: seq<State>, data: seq<Bytes>, m: nat, n: nat, k: nat, l: nat)
    requires IsRun(run, data, true) && m <= n < |run| && k < |data| && l < |data|
    requires |run[m].writers| == |data| && |run[n].writers| == |data|
    requires run[m].writers[k].linked
    ensures run[n].writers[l].linked ==> k == l
    ensures run[m].writers[k].point == Finished(Published) ==> Visible(run[n].disk) == Holds(data[k])
  {
    hide IsRun, Kept;
    LinkedIsStable(run, data, m, n, k);
    RunSettles(run, data, m);
    RunSettles(run, data, n);
    if run[m].writers[k].point == Finished(Published) {
      ExistingOutputIsKept(run, data, m, n, run[m].writers[k].inode, data[k]);
    }
  }

  /** Once a call has linked, whatever it raises afterwards, the output path shows its complete
      data for as long as power lasts. */
  lemma FailureAfterLinkKeepsData(run: seq<State>, data: seq<Bytes>, m: nat, n: nat, k: nat)
    requires IsRun(run, data, true) && m <= n < |run| && k < |data|
    requires |run[m].writers| == |data| && run[m].writers[k].linked && !run[n].lost
    ensures Visible(run[n].disk) == Holds(data[k])
  {
    hide IsRun;
    LinkedIsStable(run, data, m, n, k);
    RunSettles(run, data, n);
    RunKeeps(run, data, true, n);
    assert WriterKept(run[n].disk, run[n].writers[k], data[k]);
  }

  // ---- The call itself --------------------------------------------------------------------

  /** What the call does not control: the interference before its n-th operation, and how that
      operation ends. */
  datatype Environment = Environment(interfere: (nat, State) -> Disk, fault: nat -> Fault)

  ghost predicate Lawful(env: Environment, data: Bytes, createOnly: bool) {
    forall n: nat, s: State {:trigger env.interfere(n, s)} | Kept(s, [data]) ::
      if createOnly then CreateOnly(s, env.interfere(n, s)) else Foreign(s, env.interfere(n, s))
  }

  lemma ExtendRun(run: seq<State>, data: seq<Bytes>, createOnly: bool, t: State)
    requires IsRun(run, data, createOnly) && Step(run[|run| - 1], t, data, createOnly)
    ensures IsRun(run + [t], data, createOnly)
  {
    hide Step, Initial;
    var longer := run + [t];
    forall n | 0 <= n < |longer| - 1
      ensures Step(longer[n], longer[n + 1], data, createOnly)
    {
      if n < |run| - 1 {
        assert Step(run[n], run[n + 1], data, createOnly);
      }
    }
  }

  ghost predicate OutputSeen(run: seq<State>) {
    exists n :: 0 <= n < |run| && run[n].disk.output.Present?
  }

  class Publication {
    const data: Bytes
    const env: Environment
    ghost const createOnly: bool
    var disk: Disk
    var call: Writer
    var clock: nat
    ghost var run: seq<State>

    ghost predicate Valid()
      reads this
    {
      && Lawful(env, data, createOnly)
      && |run| > 0 && IsRun(run, [data], createOnly)
      && run[|run| - 1] == State(disk, [call], false)
    }

    ghost predicate NeverRaises() {
      forall n: nat :: env.fault(n).Fine?
    }

    constructor (disk: Disk, data: Bytes, env: Environment, ghost createOnly: bool)
      requires Lawful(env, data, createOnly) && Initial(State(disk, [FRESH], false), [data])
      ensures Valid() && call == FRESH && this.disk == disk && this.data == data && this.env == env
      ensures this.createOnly == createOnly && run == [State(disk, [FRESH], false)]
    {
      this.disk, this.data, this.env, this.createOnly := disk, data, env, createOnly;
      call, clock := FRESH, 0;
      run := [State(disk, [FRESH], false)];
    }

    /** Other processes act. */
    method Interfere()
      requires Valid()
      modifies this`disk, this`run
      ensures Valid() && old(run) <= run
    {
      hide IsRun, Kept, Foreign, CreateOnly;
      RunKeeps(run, [data], createOnly, |run| - 1);
      var s := State(disk, [call], false);
      disk := env.interfere(clock, s);
      var t := State(disk, [call], false);
      assert t == s.(disk := t.disk);
      assert Step(s, t, [data], createOnly);
      ExtendRun(run, [data], createOnly, t);
      run := run + [t];
    }

    /** One operation of the call takes effect. */
    method Conclude(d: Disk, w: Writer)
      requires Valid() && Sound(disk, call) && (d, w) == Advance(disk, call, data, env.fault(clock))
      modifies this`disk, this`call, this`clock, this`run
      ensures Valid() && old(run) <= run && disk == d && call == w
    {
      hide IsRun, Advance, Lawful;
      var s, t := State(disk, [call], false), State(d, [w], false);
      assert [call][0 := w] == [w];
      assert WriterStep(s, t, [data], 0, env.fault(clock));
      ExtendRun(run, [data], createOnly, t);
      disk, call, clock, run := d, w, clock + 1, run + [t];
    }

    lemma CallIsKept()
      requires Valid()
      ensures WriterKept(disk, call, data)
    {
      hide IsRun;
      RunKeeps(run, [data], createOnly, |run| - 1);
      var s := State(disk, [call], false);
      assert WriterKept(s.disk, s.writers[0], [data][0]);
    }

    /** The check that the output path neither exists nor is a symbolic link. */
    method CheckAbsent()
      requires Valid() && call.point == Begin
      modifies this`disk, this`call, this`clock, this`run
      ensures Valid() && old(run) <= run
      ensures call.point in {Checked, Finished(Refused), Finished(Failed)}
      ensures call.point == Finished(Failed) ==> !NeverRaises()
      ensures call.point == Finished(Refused) ==> OutputSeen(run)
    {
      hide IsRun, Lawful;
      Interfere();
      CallIsKept();
      if env.fault(clock).Raises? {
        Conclude(disk, call.(point := Finished(Failed)));
      } else if disk.output.Present? {
        Conclude(disk, call.(point := Finished(Refused)));
      } else {
        Conclude(disk, call.(point := Checked));
      }
    }

    /** A new empty file under a fresh temporary name. */
    method MakeTemporary()
      requires Valid() && call.point == Checked
      modifies this`disk, this`call, this`clock, this`run
      ensures Valid() && old(run) <= run
      ensures call.point in {Opened, Finished(Failed)}
      ensures call.point == Finished(Failed) ==> !NeverRaises()
    {
      hide IsRun, Lawful;
      Interfere();
      CallIsKept();
      if env.fault(clock).Raises? {
        Conclude(disk, call.(point := Finished(Failed)));
      } else {
        var created := disk.(inodes := disk.inodes + [Inode([], false)]);
        Conclude(created, Writer(Opened, true, |disk.inodes|, true, false));
      }
    }

    /** Write and flush the data; a raising write may leave any prefix. */
    method WriteData()
      requires Valid() && call.point == Opened
      modifies this`disk, this`call, this`clock, this`run
      ensures Valid() && old(run) <= run
      ensures call.point in {Written, Cleaning(Failed)}
      ensures call.point == Cleaning(Failed) ==> !NeverRaises()
    {
      hide IsRun, Lawful;
      Interfere();
      CallIsKept();
      var fault := env.fault(clock);
      if fault.Raises? {
        var partial := Inode(Prefix(data, fault.amount), false);
        Conclude(SetInode(disk, call.inode, partial), call.(point := Cleaning(Failed)));
      } else {
        Conclude(SetInode(disk, call.inode, Inode(data, false)), call.(point := Written));
      }
    }

    /** Sync and close the temporary file. */
    method SyncFile()
      requires Valid() && call.point == Written
      modifies this`disk, this`call, this`clock, this`run
      ensures Valid() && old(run) <= run
      ensures call.point in {Synced, Cleaning(Failed)}
      ensures call.point == Cleaning(Failed) ==> !NeverRaises()
    {
      hide IsRun, Lawful;
      Interfere();
      CallIsKept();
      var fault := env.fault(clock);
      var synced := SetInode(disk, call.inode, disk.inodes[call.inode].(durable := true));
      if fault.Raises? {
        Conclude(if fault.effective then synced else disk, call.(point := Cleaning(Failed)));
      } else {
        Conclude(synced, call.(point := Synced));
      }
    }

    /** Hard-link the temporary file to the output path; an existing path refuses the link. */
    method Link()
      requires Valid() && call.point == Synced
      modifies this`disk, this`call, this`clock, this`run
      ensures Valid() && old(run) <= run
      ensures call.point in {Linked, Cleaning(Refused), Cleaning(Failed)}
      ensures call.point == Cleaning(Failed) ==> !NeverRaises()
      ensures call.point == Cleaning(Refused) ==> OutputSeen(run)
    {
      hide IsRun, Lawful;
      Interfere();
      CallIsKept();
      var fault := env.fault(clock);
      if fault.Raises? {
        Conclude(disk, call.(point := Cleaning(Failed)));
      } else if disk.output.Present? {
        Conclude(disk, call.(point := Cleaning(Refused)));
      } else {
        var entry := Present(call.inode);
        Conclude(disk.(output := entry, survivors := disk.survivors + {entry}),
                 call.(point := Linked, linked := true));
      }
    }

    /** Open, sync and close the parent directory. */
    method SyncDirectory()
      requires Valid() && call.point == Linked
      modifies this`disk, this`call, this`clock, this`run
      ensures Valid() && old(run) <= run
      ensures call.point in {Cleaning(Published), Cleaning(Failed)}
      ensures call.point == Cleaning(Failed) ==> !NeverRaises()
    {
      hide IsRun, Lawful;
      Interfere();
      CallIsKept();
      var fault := env.fault(clock);
      var synced := disk.(survivors := {disk.output});
      if fault.Raises? {
        Conclude(if fault.effective then synced else disk, call.(point := Cleaning(Failed)));
      } else {
        Conclude(synced, call.(point := Cleaning(Published)));
      }
    }

    /** Remove the temporary name. */
    method Unlink()
      requires Valid() && call.point.Cleaning?
      modifies this`disk, this`call, this`clock, this`run
      ensures Valid() && old(run) <= run
      ensures call.point in {old(Finished(call.point.outcome)), Finished(Failed)}
      ensures call.point == old(Finished(call.point.outcome)) || !NeverRaises()
    {
      hide IsRun, Lawful;
      Interfere();
      CallIsKept();
      var fault := env.fault(clock);
      if fault.Raises? {
        Conclude(disk, call.(point := Finished(Failed), temporary := !fault.effective));
      } else {
        Conclude(disk, call.(point := Finished(call.point.outcome), temporary := false));
      }
    }

    /** The whole call.  Its operations and the interference form a run of the system above, so all
        results about runs apply to it; the last clauses are what they give its caller. */
    method AtomicWriteNew() returns (outcome: Outcome)
      requires Valid() && call == FRESH
      modifies this`disk, this`call, this`clock, this`run
      ensures Valid() && old(run) <= run && call.point == Finished(outcome)
      ensures createOnly && call.linked ==> Visible(disk) == Holds(data)
      ensures createOnly && outcome.Published? ==> call.linked && disk.survivors == {disk.output}
      ensures outcome.Refused? ==> !call.linked && OutputSeen(run)
      ensures outcome.Failed? ==> !NeverRaises()
      ensures !outcome.Failed? ==> !call.temporary
      ensures !call.linked && call.owns ==> disk.output != Present(call.inode)
    {
      hide Valid, IsRun, Lawful, Visible;
      CheckAbsent();
      if call.point == Checked {
        MakeTemporary();
        if call.point == Opened {
          FillAndLink();
          Unlink();
        }
      }
      outcome := call.point.outcome;
      Conclusions();
    }

    /** The body of the outer `try`. */
    method FillAndLink()
      requires Valid() && call.point == Opened
      modifies this`disk, this`call, this`clock, this`run
      ensures Valid() && old(run) <= run && call.point.Cleaning?
      ensures call.point == Cleaning(Failed) ==> !NeverRaises()
      ensures call.point == Cleaning(Refused) ==> OutputSeen(run)
    {
      hide Valid, IsRun, Lawful;
      WriteData();
      if call.point == Written {
        SyncFile();
      }
      if call.point == Synced {
        Link();
      }
      if call.point == Linked {
        SyncDirectory();
      }
    }

    lemma Conclusions()
      requires Valid() && call.point.Finished?
      ensures createOnly && call.linked ==> Visible(disk) == Holds(data)
      ensures createOnly && call.point.outcome.Published? ==> call.linked && disk.survivors == {disk.output}
      ensures call.point.outcome.Refused? ==> !call.linked
      ensures !call.point.outcome.Failed? ==> !call.temporary
      ensures !call.linked && call.owns ==> disk.output != Present(call.inode)
    {
      hide IsRun;
      var last := |run| - 1;
      RunKeeps(run, [data], createOnly, last);
      CallIsKept();
      assert EntryKept(run[last], run[last].disk.output);
      assert run[last].writers[0] == call;
      if createOnly {
        RunSettles(run, [data], last);
      }
    }
  }
}
