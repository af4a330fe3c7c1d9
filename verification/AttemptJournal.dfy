/** The append-only attempt journal: its writer, whose appends may raise at any point, and the
    verifier that replays the event files. */
module AttemptJournal {
  import FiniteSums

  const OCCURRENCES: nat := 15

  datatype Phase =
    | AuthorityChainConstruction
    | AttemptJournalOpen
    | CampaignExecution
    | CampaignComputationJournal
    | OutputPublication

  datatype Kind =
    | AttemptOpened
    | SourceReplayBound
    | OccurrenceStarted(ordinal: nat)
    | DirectCheckpointCompleted(ordinal: nat, direct: bool)
    | OccurrenceCompleted(ordinal: nat, count: nat)
    | CampaignComputationCompleted
    | OutputPublished
    | CaughtFailure(phase: Phase)

  datatype Previous = NoEvent | After(id: nat)

  /** `written` is the accounting of object bytes this event's append had to write. */
  datatype Event = Event(sequence: nat, previous: Previous, kind: Kind, refs: seq<nat>, written: nat)

  /** An event file: the number and identity in its name, the claimed identity and the event. */
  datatype File = File(number: nat, name: nat, claimed: nat, event: Event)

  /** The content identity of an event, an arbitrary function of it. */
  type Identify = Event -> nat

  // ---- The verifier -----------------------------------------------------------------------

  datatype Slot = Idle | Running(ordinal: nat)

  datatype Closure = UnclosedAbrupt | ClosedByOutput | ClosedByFailure

  datatype Progress = Progress(bound: bool, active: Slot, completed: nat, computed: bool, closure: Closure)

  const START: Progress := Progress(false, Idle, 0, false, UnclosedAbrupt)

  datatype Replay = Accepted(progress: Progress) | Refused

  /** One event of the replay, after `n` earlier ones. */
  function Admit(p: Progress, n: nat, e: Event): Replay {
    if p.closure != UnclosedAbrupt then Refused
    else if n == 0 then (if e.kind.AttemptOpened? && |e.refs| == 1 then Accepted(p) else Refused)
    else
      match e.kind
      case AttemptOpened => Refused
      case SourceReplayBound =>
        if n == 1 && e.refs == [] && !p.bound && p.active.Idle? && p.completed == 0
        then Accepted(p.(bound := true)) else Refused
      case OccurrenceStarted(ordinal) =>
        if p.bound && p.active.Idle? && ordinal == p.completed && p.completed < OCCURRENCES
        then Accepted(p.(active := Running(ordinal))) else Refused
      case DirectCheckpointCompleted(ordinal, direct) =>
        if p.active == Running(ordinal) && direct then Accepted(p) else Refused
      case OccurrenceCompleted(ordinal, count) =>
        if p.active == Running(ordinal) && count == p.completed + 1
        then Accepted(p.(active := Idle, completed := count)) else Refused
      case CampaignComputationCompleted =>
        if p.completed == OCCURRENCES && p.active.Idle? && !p.computed
        then Accepted(p.(computed := true)) else Refused
      case OutputPublished =>
        if p.computed then Accepted(p.(closure := ClosedByOutput)) else Refused
      case CaughtFailure(_) => Accepted(p.(closure := ClosedByFailure))
  }

  function Replayed(files: seq<File>): Replay {
    if |files| == 0 then Accepted(START)
    else
      var n := |files| - 1;
      match Replayed(files[..n])
      case Accepted(p) => Admit(p, n, files[n].event)
      case Refused => Refused
  }

  function PreviousOf(files: seq<File>, n: nat): Previous
    requires n <= |files|
  {
    if n == 0 then NoEvent else After(files[n - 1].claimed)
  }

  /** Gap-free numbering and an unbroken hash chain. */
  predicate Linked(id: Identify, files: seq<File>, n: nat)
    requires n < |files|
  {
    var f := files[n];
    && f.number == n && f.claimed == id(f.event) && f.claimed == f.name
    && f.event.sequence == n && f.event.previous == PreviousOf(files, n)
  }

  ghost predicate Chained(id: Identify, files: seq<File>) {
    forall n | 0 <= n < |files| :: Linked(id, files, n)
  }

  ghost function Referenced(files: seq<File>): set<nat> {
    set n, r | 0 <= n < |files| && r in files[n].event.refs :: r
  }

  datatype Verdict = Verified(completed: nat, closure: Closure) | Violation

  /** Event file names have four digits. */
  const MOST_EVENTS: nat := 10000

  /** What verification decides of a directory listing, the stored objects and whether a temporary
      file is left in the journal: its foreign name is refused, and so is the second link it gives
      to the file it was renamed for. */
  ghost predicate Verifiable(id: Identify, files: seq<File>, objects: set<nat>, leftover: bool) {
    && !leftover && 0 < |files| <= MOST_EVENTS
    && Chained(id, files) && Replayed(files).Accepted? && objects == Referenced(files)
  }

  lemma {:induction false} RefusedForever(files: seq<File>, n: nat)
    requires n <= |files| && Replayed(files[..n]).Refused?
    ensures Replayed(files).Refused?
    decreases |files|
  {
    if n < |files| {
      assert files[..|files| - 1][..n] == files[..n];
      RefusedForever(files[..|files| - 1], n);
    } else {
      assert files[..n] == files;
    }
  }

  method VerifyAttemptJournal(id: Identify, files: seq<File>, objects: set<nat>, leftover: bool) returns (verdict: Verdict)
    ensures verdict.Verified? <==> Verifiable(id, files, objects, leftover)
    ensures verdict.Verified? ==> verdict == Verified(Replayed(files).progress.completed, Replayed(files).progress.closure)
  {
    hide Admit;
    if |files| == 0 || leftover {
      return Violation;
    }
    var progress := START;
    var referenced: set<nat> := {};
    for n := 0 to |files|
      invariant Replayed(files[..n]) == Accepted(progress) && n <= MOST_EVENTS
      invariant forall m | 0 <= m < n :: Linked(id, files, m)
      invariant referenced == Referenced(files[..n])
    {
      assert files[..n + 1][..n] == files[..n];
      if n >= MOST_EVENTS || !Linked(id, files, n) {
        return Violation;
      }
      var e := files[n].event;
      referenced := referenced + set r | r in e.refs;
      ReferencedGrows(files, n);
      match Admit(progress, n, e) {
        case Refused =>
          RefusedForever(files, n + 1);
          return Violation;
        case Accepted(p) =>
          progress := p;
      }
    }
    assert files[..|files|] == files;
    if objects != referenced {
      return Violation;
    }
    return Verified(progress.completed, progress.closure);
  }

  lemma ReferencedGrows(files: seq<File>, n: nat)
    requires n < |files|
    ensures Referenced(files[..n + 1]) == Referenced(files[..n]) + set r | r in files[n].event.refs
  {
    var longer, shorter := files[..n + 1], files[..n];
    forall r | r in Referenced(shorter) || r in files[n].event.refs
      ensures r in Referenced(longer)
    {
      if r in Referenced(shorter) {
        var m :| 0 <= m < n && r in shorter[m].event.refs;
        assert longer[m] == shorter[m];
      } else {
        assert longer[n] == files[n];
      }
    }
    forall r | r in Referenced(longer)
      ensures r in Referenced(shorter) || r in files[n].event.refs
    {
      var m :| 0 <= m < |longer| && r in longer[m].event.refs;
      if m < n {
        assert shorter[m] == longer[m];
      }
    }
  }

  // ---- The chain --------------------------------------------------------------------------

  /** Two different events with one identity. */
  ghost predicate Forged(id: Identify, d: Event, e: Event) {
    d != e && id(d) == id(e)
  }

  /** The last identity commits to the whole journal: two chained journals that end with one
      identity are equal, file by file, or hold two different events with one identity. */
  lemma {:induction false} ChainIsBinding(id: Identify, f: seq<File>, g: seq<File>)
    requires Chained(id, f) && Chained(id, g) && |f| > 0 && |g| > 0
    requires f[|f| - 1].claimed == g[|g| - 1].claimed
    ensures f == g || exists m, n :: 0 <= m < |f| && 0 <= n < |g| && Forged(id, f[m].event, g[n].event)
    decreases |f|
  {
    var m, n := |f| - 1, |g| - 1;
    assert Linked(id, f, m) && Linked(id, g, n);
    if f[m].event != g[n].event {
      assert Forged(id, f[m].event, g[n].event);
    } else if m > 0 {
      ChainPrefix(id, f);
      ChainPrefix(id, g);
      ChainIsBinding(id, f[..m], g[..n]);
      if f[..m] == g[..n] {
        assert f == f[..m] + [f[m]] && g == g[..n] + [g[n]];
      } else {
        var i, j :| 0 <= i < m && 0 <= j < n && Forged(id, f[..m][i].event, g[..n][j].event);
        assert Forged(id, f[i].event, g[j].event);
      }
    }
  }

  lemma ChainPrefix(id: Identify, files: seq<File>)
    requires Chained(id, files) && |files| > 0
    ensures Chained(id, files[..|files| - 1])
  {
    var before := files[..|files| - 1];
    forall n | 0 <= n < |before|
      ensures Linked(id, before, n)
    {
      assert Linked(id, files, n);
    }
  }

  // ---- What an accepted journal says ------------------------------------------------------

  ghost function Starts(files: seq<File>): seq<nat> {
    if |files| == 0 then []
    else
      var n := |files| - 1;
      Starts(files[..n]) + match files[n].event.kind { case OccurrenceStarted(o) => [o] case _ => [] }
  }

  ghost function Completions(files: seq<File>): seq<nat> {
    if |files| == 0 then []
    else
      var n := |files| - 1;
      Completions(files[..n]) + match files[n].event.kind { case OccurrenceCompleted(o, _) => [o] case _ => [] }
  }

  ghost function Computations(files: seq<File>): nat {
    if |files| == 0 then 0
    else
      var n := |files| - 1;
      Computations(files[..n]) + if files[n].event.kind.CampaignComputationCompleted? then 1 else 0
  }

  ghost function Schedule(n: nat): (s: seq<nat>)
    ensures |s| == n
  {
    seq(n, i => i)
  }

  ghost predicate InOrder(files: seq<File>, p: Progress) {
    && Completions(files) == Schedule(p.completed) && p.completed <= OCCURRENCES
    && Starts(files) == Schedule(if p.active.Running? then p.completed + 1 else p.completed)
    && (p.active.Running? ==> p.active.ordinal == p.completed < OCCURRENCES && p.bound)
    && Computations(files) == (if p.computed then 1 else 0)
    && (p.computed ==> p.completed == OCCURRENCES && p.active.Idle?)
    && (p.closure.ClosedByOutput? ==> p.computed && files != [] && files[|files| - 1].event.kind.OutputPublished?)
    && (p.closure.ClosedByFailure? ==> files != [] && files[|files| - 1].event.kind.CaughtFailure?)
    && (files != [] ==> files[0].event.kind.AttemptOpened?)
    && (p.bound ==> |files| > 1 && files[1].event.kind.SourceReplayBound?)
  }

  lemma {:induction false} AcceptedInOrder(files: seq<File>)
    requires Replayed(files).Accepted?
    ensures InOrder(files, Replayed(files).progress)
  {
    if |files| > 0 {
      var n := |files| - 1;
      var before := files[..n];
      AcceptedInOrder(before);
      var p := Replayed(before).progress;
      assert Schedule(p.completed) + [p.completed] == Schedule(p.completed + 1);
      assert n > 0 ==> before[0] == files[0];
      assert n > 1 ==> before[1] == files[1];
    }
  }

  lemma {:induction false} PrefixAccepted(files: seq<File>, n: nat)
    requires n <= |files| && Replayed(files).Accepted?
    ensures Replayed(files[..n]).Accepted?
  {
    if Replayed(files[..n]).Refused? {
      RefusedForever(files, n);
    }
  }

  /** Every prefix of a verified journal has started exactly the registered ordinals in order, has
      completed all of them but possibly the last one, and has recorded the computation only after
      all occurrences; nothing follows a closing event. */
  lemma VerifiedJournalFollowsSchedule(id: Identify, files: seq<File>, objects: set<nat>, leftover: bool, n: nat)
    requires Verifiable(id, files, objects, leftover) && n <= |files|
    ensures exists done: nat, started: nat ::
              && done <= started <= done + 1 && started <= OCCURRENCES
              && Completions(files[..n]) == Schedule(done) && Starts(files[..n]) == Schedule(started)
              && (Computations(files[..n]) > 0 ==> done == started == OCCURRENCES)
    ensures n < |files| && n > 0 ==> !files[n - 1].event.kind.OutputPublished? && !files[n - 1].event.kind.CaughtFailure?
  {
    PrefixAccepted(files, n);
    AcceptedInOrder(files[..n]);
    var p := Replayed(files[..n]).progress;
    var done, started := p.completed, if p.active.Running? then p.completed + 1 else p.completed;
    assert Completions(files[..n]) == Schedule(done) && Starts(files[..n]) == Schedule(started);
    if 0 < n < |files| {
      PrefixAccepted(files, n + 1);
      assert files[..n + 1][..n] == files[..n];
      assert files[..n][..n - 1] == files[..n - 1];
    }
  }

  /** A journal verified as closed by its output holds all registered occurrences, each started
      and completed once and in order, exactly one computation record, and ends with publication. */
  lemma VerifiedOutputIsComplete(id: Identify, files: seq<File>, objects: set<nat>, leftover: bool)
    requires Verifiable(id, files, objects, leftover) && Replayed(files).progress.closure == ClosedByOutput
    ensures Starts(files) == Schedule(OCCURRENCES) == Completions(files) && Computations(files) == 1
    ensures files[|files| - 1].event.kind.OutputPublished?
    ensures files[0].event.kind.AttemptOpened? && |files| > 1 && files[1].event.kind.SourceReplayBound?
  {
    AcceptedInOrder(files);
    BoundFirst(files);
  }

  lemma {:induction false} BoundFirst(files: seq<File>)
    requires Replayed(files).Accepted? && (Replayed(files).progress.completed > 0 || Replayed(files).progress.active.Running?)
    ensures Replayed(files).progress.bound
  {
    if |files| > 0 {
      var p := Replayed(files[..|files| - 1]).progress;
      if p.completed > 0 || p.active.Running? {
        BoundFirst(files[..|files| - 1]);
      }
    }
  }

  // ---- Which journals are accepted --------------------------------------------------------

  ghost predicate Closing(kind: Kind) {
    kind.OutputPublished? || kind.CaughtFailure?
  }

  /** Event `n` may follow events that start and complete so many occurrences and record so many
      computations, the last of them closing the journal or not. */
  ghost predicate MayFollow(e: Event, n: nat, started: nat, completed: nat, computations: nat, closed: bool) {
    if n == 0 then e.kind.AttemptOpened? && |e.refs| == 1
    else
      && !closed
      && match e.kind
         case AttemptOpened => false
         case SourceReplayBound => n == 1 && e.refs == []
         case OccurrenceStarted(ordinal) => n > 1 && started == completed == ordinal < OCCURRENCES
         case DirectCheckpointCompleted(ordinal, direct) => direct && completed == ordinal && started == ordinal + 1
         case OccurrenceCompleted(ordinal, count) => completed == ordinal && started == count == ordinal + 1
         case CampaignComputationCompleted => completed == OCCURRENCES && computations == 0
         case OutputPublished => computations == 1
         case CaughtFailure(_) => true
  }

  /** Event `n` fits the events before it, told from those events alone. */
  ghost predicate Fits(files: seq<File>, n: nat)
    requires n < |files|
  {
    var before := files[..n];
    MayFollow(files[n].event, n, |Starts(before)|, |Completions(before)|, Computations(before),
              n > 0 && Closing(files[n - 1].event.kind))
  }

  /** The progress kept by the replay says what the events before say. */
  ghost predicate Tells(p: Progress, n: nat, started: nat, completed: nat, computations: nat, closed: bool) {
    && p.completed == completed <= OCCURRENCES
    && (if p.active.Running? then p.active.ordinal == completed < OCCURRENCES && started == completed + 1 else started == completed)
    && computations == (if p.computed then 1 else 0)
    && (closed <==> p.closure != UnclosedAbrupt)
    && (n > 0 && !closed ==> (p.bound <==> n > 1))
    && (n == 0 ==> p == START)
    && (!p.bound ==> completed == 0 && p.active.Idle?)
  }

  lemma AdmitIff(p: Progress, n: nat, e: Event, started: nat, completed: nat, computations: nat, closed: bool)
    requires Tells(p, n, started, completed, computations, closed)
    ensures Admit(p, n, e).Accepted? <==> MayFollow(e, n, started, completed, computations, closed)
  {
  }

  lemma ReplayTells(files: seq<File>)
    requires Replayed(files).Accepted?
    ensures Tells(Replayed(files).progress, |files|, |Starts(files)|, |Completions(files)|, Computations(files),
                  |files| > 0 && Closing(files[|files| - 1].event.kind))
  {
    hide Admit, Starts, Completions, Computations;
    AcceptedInOrder(files);
    BoundOrClosed(files);
    if !Replayed(files).progress.bound && (Replayed(files).progress.completed > 0 || Replayed(files).progress.active.Running?) {
      BoundFirst(files);
    }
    ClosureIs(files);
  }

  lemma OneMoreFits(files: seq<File>)
    requires |files| > 0 && Replayed(files[..|files| - 1]).Accepted?
    ensures Replayed(files).Accepted? <==> Fits(files, |files| - 1)
  {
    hide Admit, MayFollow, Tells, Starts, Completions, Computations;
    var n := |files| - 1;
    var before := files[..n];
    ReplayTells(before);
    assert n > 0 ==> before[n - 1] == files[n - 1];
    AdmitIff(Replayed(before).progress, n, files[n].event, |Starts(before)|, |Completions(before)|, Computations(before),
             n > 0 && Closing(files[n - 1].event.kind));
  }

  /** After its second event an accepted journal is bound or closed. */
  lemma {:induction false} BoundOrClosed(files: seq<File>)
    requires Replayed(files).Accepted?
    ensures !Replayed(files).progress.bound && Replayed(files).progress.closure == UnclosedAbrupt ==> |files| <= 1
  {
    if |files| > 1 {
      var before := files[..|files| - 1];
      BoundOrClosed(before);
      AcceptedInOrder(before);
      var p := Replayed(before).progress;
      if !p.bound && (p.completed > 0 || p.active.Running?) {
        BoundFirst(before);
      }
    }
  }

  lemma ClosureIs(files: seq<File>)
    requires Replayed(files).Accepted?
    ensures Replayed(files).progress.closure ==
            if files == [] then UnclosedAbrupt
            else match files[|files| - 1].event.kind
                 case OutputPublished => ClosedByOutput
                 case CaughtFailure(_) => ClosedByFailure
                 case _ => UnclosedAbrupt
  {
  }

  /** The replay accepts exactly the journals in which every event fits, and its result is read off
      the journal: the number of completed occurrences and the closing event, if the last one is. */
  lemma {:induction false} AcceptedIff(files: seq<File>)
    ensures Replayed(files).Accepted? <==> forall n | 0 <= n < |files| :: Fits(files, n)
    ensures Replayed(files).Accepted? ==> Replayed(files).progress.completed == |Completions(files)|
  {
    hide Admit, Fits;
    if |files| > 0 {
      var last := |files| - 1;
      var before := files[..last];
      AcceptedIff(before);
      forall n | 0 <= n < last
        ensures Fits(before, n) <==> Fits(files, n)
      {
        FitsPrefix(files, last, n);
      }
      if Replayed(before).Accepted? {
        OneMoreFits(files);
      } else {
        RefusedForever(files, last);
      }
    }
    if Replayed(files).Accepted? {
      AcceptedInOrder(files);
    }
  }

  lemma FitsPrefix(files: seq<File>, m: nat, n: nat)
    requires n < m <= |files|
    ensures Fits(files[..m], n) <==> Fits(files, n)
  {
    assert files[..m][..n] == files[..n];
  }

  // ---- The writer -------------------------------------------------------------------------

  /** How an append ends: normally, or by raising after storing some of its objects and, if
      `linked`, also after its event file has reached its final name; `leftover` when the removal
      of a temporary file itself raised. */
  datatype AppendFault = Fine | Raises(stored: nat, linked: bool, leftover: bool)

  ghost predicate Overlapping(files: seq<File>) {
    exists m, n :: 0 <= m < n < |files| && files[m].number == files[n].number
  }

  /** Two event files with one number are never verifiable. */
  lemma OverlapIsViolation(id: Identify, files: seq<File>, objects: set<nat>, leftover: bool)
    requires Overlapping(files)
    ensures !Chained(id, files) && !Verifiable(id, files, objects, leftover)
  {
    var m, n :| 0 <= m < n < |files| && files[m].number == files[n].number;
    assert !Linked(id, files, m) || !Linked(id, files, n);
  }

  lemma ChainExtends(id: Identify, files: seq<File>, e: Event)
    requires Chained(id, files) && e.sequence == |files| && e.previous == PreviousOf(files, |files|)
    ensures Chained(id, files + [File(|files|, id(e), id(e), e)])
  {
    var longer := files + [File(|files|, id(e), id(e), e)];
    forall n | 0 <= n < |longer|
      ensures Linked(id, longer, n)
    {
      if n < |files| {
        assert Linked(id, files, n);
      }
    }
  }

  lemma ReferencedAppend(files: seq<File>, f: File)
    ensures Referenced(files + [f]) == Referenced(files) + set r | r in f.event.refs
  {
    var longer := files + [f];
    assert longer[..|files|] == files && longer[..|files| + 1] == longer;
    ReferencedGrows(longer, |files|);
  }

  /** The bytes of those objects that are not stored yet, each written once. */
  function BytesToWrite(size: nat -> nat, objects: set<nat>, refs: seq<nat>): nat
    decreases |refs|
  {
    if |refs| == 0 then 0
    else (if refs[0] in objects then 0 else size(refs[0])) + BytesToWrite(size, objects + {refs[0]}, refs[1..])
  }

  ghost function Sizes(size: nat -> nat): nat -> real {
    (n: nat) => size(n) as real
  }

  /** That is the total size of the distinct referenced objects that are not stored. */
  lemma {:induction false} WritesMissingOnce(size: nat -> nat, objects: set<nat>, refs: seq<nat>)
    ensures BytesToWrite(size, objects, refs) as real
         == FiniteSums.SumOver((set r | r in refs) - objects, Sizes(size))
    decreases |refs|
  {
    hide FiniteSums.SumOver;
    var f := Sizes(size);
    var missing := (set r | r in refs) - objects;
    if |refs| == 0 {
      assert missing == {};
      FiniteSums.SumEmpty(f);
    } else {
      var first, rest := refs[0], refs[1..];
      WritesMissingOnce(size, objects + {first}, rest);
      assert refs == [first] + rest;
      assert (set r | r in rest) - (objects + {first}) == missing - {first};
      if first !in objects {
        FiniteSums.SumRemove(missing, f, first);
      } else {
        assert missing - {first} == missing;
      }
    }
  }

  /** A retry whose objects were all stored by an earlier attempt writes nothing. */
  lemma {:induction false} StoredNeedsNothing(size: nat -> nat, objects: set<nat>, refs: seq<nat>)
    requires forall i | 0 <= i < |refs| :: refs[i] in objects
    ensures BytesToWrite(size, objects, refs) == 0
    decreases |refs|
  {
    if |refs| > 0 {
      assert objects + {refs[0]} == objects;
      StoredNeedsNothing(size, objects, refs[1..]);
    }
  }

  function Stored(refs: seq<nat>, count: nat): set<nat> {
    set n | 0 <= n < |refs| && n < count :: refs[n]
  }

  lemma StoredGrows(refs: seq<nat>, count: nat)
    requires count <= |refs|
    ensures Stored(refs, count) <= Stored(refs, |refs|)
  {
  }

  function NewFile(id: Identify, e: Event): File {
    File(e.sequence, id(e), id(e), e)
  }

  class Journal {
    const id: Identify
    const size: nat -> nat
    var files: seq<File>
    var objects: set<nat>
    var next: nat
    var previous: Previous
    var bound: bool
    var current: Slot
    var direct: bool
    var completed: nat
    var computed: bool
    var terminal: bool
    var leftover: bool

    ghost predicate Mirrors(p: Progress)
      reads this
    {
      && p.bound == bound && p.active == current && p.completed == completed && p.computed == computed
      && (terminal <==> p.closure != UnclosedAbrupt)
    }

    /** The writer's fields are the verifier's progress over the first `next` files, and at most one
        file, left by an append that raised late, lies beyond them. */
    ghost predicate Aligned()
      reads this
    {
      && 0 < next <= |files| <= next + 1
      && Chained(id, files) && Replayed(files).Accepted?
      && previous == PreviousOf(files, next)
      && Replayed(files[..next]).Accepted? && Mirrors(Replayed(files[..next]).progress)
    }

    ghost predicate Valid()
      reads this
    {
      Referenced(files) <= objects && (Aligned() || Overlapping(files))
    }

    function Draft(kind: Kind, refs: seq<nat>): Event
      reads this
    {
      Event(next, previous, kind, refs, BytesToWrite(size, objects, refs))
    }

    /** The event file's name is already taken.  The identity covers the bytes written, so a retry
        after a late failure takes the old name only if it has to write the same bytes again. */
    predicate Clashes(kind: Kind, refs: seq<nat>)
      reads this
    {
      exists f :: f in files && f.number == next && f.name == id(Draft(kind, refs))
    }

    /** What the verifier would say of one more event. */
    ghost predicate Admissible(kind: Kind, refs: seq<nat>)
      reads this
    {
      Aligned() && !terminal ==> Admit(Replayed(files[..next]).progress, next, Draft(kind, refs)).Accepted?
    }

    /** Storing the objects and linking the event file. */
    method Append(kind: Kind, refs: seq<nat>, fault: AppendFault) returns (raised: bool)
      requires Valid() && Admissible(kind, refs)
      modifies this`files, this`objects, this`next, this`previous, this`terminal, this`leftover
      ensures raised <==> old(terminal || fault.Raises? || Clashes(kind, refs))
      ensures raised ==> Valid() && next == old(next) && previous == old(previous) && terminal == old(terminal)
      ensures raised ==> files == old(files) || (fault.Raises? && fault.linked && files == old(files + [NewFile(id, Draft(kind, refs))]))
      ensures old(terminal) ==> files == old(files) && objects == old(objects)
      ensures leftover <==> old(leftover) || (!old(terminal) && fault.Raises? && fault.leftover)
      ensures old(objects) <= objects <= old(objects) + Stored(refs, |refs|)
      ensures !raised ==> objects == old(objects) + Stored(refs, |refs|) && next == old(next) + 1
      ensures !raised ==> files == old(files + [NewFile(id, Draft(kind, refs))]) && previous == After(files[|files| - 1].claimed)
      ensures !raised ==> terminal == (kind.OutputPublished? || kind.CaughtFailure?)
      ensures !raised ==> Referenced(files) <= objects
      ensures !raised ==> (Overlapping(files) <==> old(!(Aligned() && |files| == next)))
      ensures !raised && !Overlapping(files) ==> Chained(id, files)
      ensures !raised && !Overlapping(files) ==>
                Replayed(files) == old(Admit(Replayed(files[..next]).progress, next, Draft(kind, refs)))
    {
      hide Admit, Chained, Replayed, Referenced, PreviousOf, Overlapping, Stored;
      if terminal {
        return true;
      }
      var clash, file := Clashes(kind, refs), NewFile(id, Draft(kind, refs));
      LinkingKeeps(file, kind, refs);
      var reached := fault.Fine? || fault.linked || fault.stored >= |refs|;
      var count := if reached then |refs| else fault.stored;
      StoredGrows(refs, count);
      leftover := leftover || (fault.Raises? && fault.leftover);
      objects := objects + Stored(refs, count);
      if !reached || clash || (fault.Raises? && !fault.linked) {
        return true;
      }
      files := files + [file];
      if fault.Raises? {
        return true;
      }
      next, previous := next + 1, After(file.claimed);
      terminal := kind.OutputPublished? || kind.CaughtFailure?;
      raised := false;
    }

    /** Linking one more event file extends an intact journal, and otherwise overlaps. */
    lemma LinkingKeeps(file: File, kind: Kind, refs: seq<nat>)
      requires Valid() && Admissible(kind, refs) && !terminal && file == NewFile(id, Draft(kind, refs))
      ensures Referenced(files + [file]) == Referenced(files) + Stored(refs, |refs|)
      ensures Aligned() && |files| == next ==>
                && Chained(id, files + [file]) && !Overlapping(files + [file]) && (files + [file])[..next] == files == files[..next]
                && Replayed(files + [file]) == Admit(Replayed(files[..next]).progress, next, Draft(kind, refs))
                && PreviousOf(files + [file], next) == previous
      ensures !(Aligned() && |files| == next) ==> Overlapping(files + [file])
    {
      hide Admit, Referenced;
      var longer := files + [file];
      ReferencedAppend(files, file);
      assert Stored(refs, |refs|) == set r | r in refs;
      if Overlapping(files) {
        OverlapIsViolation(id, files, objects, leftover);
        var m, n :| 0 <= m < n < |files| && files[m].number == files[n].number;
        assert longer[m].number == longer[n].number;
      } else if |files| == next {
        ChainExtends(id, files, file.event);
        if Overlapping(longer) {
          OverlapIsViolation(id, longer, objects, leftover);
        }
        assert longer[..next] == files == files[..next];
      } else {
        assert Linked(id, files, next);
        assert longer[next].number == longer[next + 1].number;
      }
    }

    /** The journal verifies exactly when no temporary file is left, there are no more event files
        than four-digit names, no two of them share a number and every stored object is referenced;
        without a file left by a late failure the verdict then mirrors the writer. */
    lemma VerifiesIff()
      requires Valid()
      ensures Verifiable(id, files, objects, leftover) <==>
              !leftover && |files| <= MOST_EVENTS && !Overlapping(files) && objects == Referenced(files)
      ensures !Overlapping(files) && |files| == next ==> Replayed(files).Accepted? && Mirrors(Replayed(files).progress)
    {
      hide Replayed, Chained, Referenced;
      if Overlapping(files) {
        OverlapIsViolation(id, files, objects, leftover);
      }
      assert files[..|files|] == files;
    }

    /** Retrying an append that raised after linking: its objects are stored, so it writes none, and
        unless the first attempt also wrote none it is another event.  It is then refused only if
        the two identities collide, and otherwise it repeats the number. */
    lemma RetryAfterLateFailure(kind: Kind, refs: seq<nat>)
      requires Aligned() && |files| == next + 1 && forall i | 0 <= i < |refs| :: refs[i] in objects
      ensures Draft(kind, refs).written == 0
      ensures files[next].event.written > 0 ==> Draft(kind, refs) != files[next].event
      ensures Clashes(kind, refs) <==> id(Draft(kind, refs)) == id(files[next].event)
    {
      hide BytesToWrite, Replayed;
      StoredNeedsNothing(size, objects, refs);
      assert Linked(id, files, next);
      assert files[next] in files;
      forall f | f in files && f.number == next
        ensures f == files[next]
      {
        var n :| 0 <= n < |files| && files[n] == f;
        assert Linked(id, files, n);
      }
    }

    /** A fresh journal holding its opening event. */
    constructor (id: Identify, size: nat -> nat, manifest: nat)
      ensures Valid() && Aligned() && |files| == next && this.id == id && this.size == size && objects == Referenced(files)
      ensures !terminal && !bound && current.Idle? && completed == 0 && !computed && !leftover
    {
      this.id, this.size := id, size;
      var e := Event(0, NoEvent, AttemptOpened, [manifest], size(manifest));
      files := [NewFile(id, e)];
      objects := {manifest};
      next, previous := 1, After(id(e));
      bound, current, direct, completed, computed, terminal := false, Idle, false, 0, false, false;
      leftover := false;
      new;
      assert files[..1] == files && files[..0] == [];
      assert Replayed(files[..0]) == Accepted(START);
      ReferencedAppend([], files[0]);
      assert [] + [files[0]] == files;
    }

    method BindSourceReplay(fault: AppendFault) returns (raised: bool)
      requires Valid()
      modifies this
      ensures Valid() && old(files) <= files && terminal == old(terminal)
      ensures leftover ==> old(leftover) || (raised && fault.Raises? && fault.leftover)
      ensures old(leftover) ==> leftover
      ensures raised <==> old(bound || next != 1 || terminal || fault.Raises? || Clashes(SourceReplayBound, []))
      ensures current == old(current) && completed == old(completed) && computed == old(computed)
      ensures bound == (old(bound) || !raised)
    {
      hide Replayed, Chained, Overlapping, Referenced;
      if bound || next != 1 {
        return true;
      }
      AdmitsBinding();
      raised := Append(SourceReplayBound, [], fault);
      if !raised {
        bound := true;
        WholeIsPrefix(files);
      }
    }

    lemma AdmitsBinding()
      requires Valid() && !bound && next == 1
      ensures Admissible(SourceReplayBound, [])
    {
      if Aligned() && !terminal {
        AcceptedInOrder(files[..next]);
        assert files[..next][..0] == [];
      }
    }

    method BeginOccurrence(ordinal: nat, isDirect: bool, plan: nat, fault: AppendFault) returns (raised: bool)
      requires Valid()
      modifies this
      ensures Valid() && old(files) <= files && terminal == old(terminal)
      ensures leftover ==> old(leftover) || (raised && fault.Raises? && fault.leftover)
      ensures old(leftover) ==> leftover
      ensures raised <==> old(!bound || current.Running? || completed >= OCCURRENCES || ordinal != completed
                              || terminal || fault.Raises? || Clashes(OccurrenceStarted(ordinal), [plan]))
      ensures bound == old(bound) && completed == old(completed) && computed == old(computed)
      ensures current == if raised then old(current) else Running(ordinal)
    {
      hide Replayed, Chained, Overlapping, Referenced;
      if !bound || current.Running? || completed >= OCCURRENCES || ordinal != completed {
        return true;
      }
      raised := Append(OccurrenceStarted(ordinal), [plan], fault);
      if !raised {
        current, direct := Running(ordinal), isDirect;
        WholeIsPrefix(files);
      }
    }

    method CommitDirectCheckpoint(refs: seq<nat>, fault: AppendFault) returns (raised: bool)
      requires Valid()
      modifies this
      ensures Valid() && old(files) <= files && terminal == old(terminal)
      ensures leftover ==> old(leftover) || (raised && fault.Raises? && fault.leftover)
      ensures old(leftover) ==> leftover
      ensures raised <==> old(current.Idle? || !direct || terminal || fault.Raises?
                              || Clashes(DirectCheckpointCompleted(current.ordinal, true), refs))
      ensures bound == old(bound) && current == old(current) && completed == old(completed) && computed == old(computed)
    {
      hide Replayed, Chained, Overlapping, Referenced;
      if current.Idle? || !direct {
        return true;
      }
      raised := Append(DirectCheckpointCompleted(current.ordinal, direct), refs, fault);
      if !raised {
        WholeIsPrefix(files);
      }
    }

    method CompleteOccurrence(ordinal: nat, refs: seq<nat>, fault: AppendFault) returns (raised: bool)
      requires Valid()
      modifies this
      ensures Valid() && old(files) <= files && terminal == old(terminal)
      ensures leftover ==> old(leftover) || (raised && fault.Raises? && fault.leftover)
      ensures old(leftover) ==> leftover
      ensures raised <==> old(current != Running(ordinal) || terminal || fault.Raises?
                              || Clashes(OccurrenceCompleted(ordinal, completed + 1), refs))
      ensures bound == old(bound) && computed == old(computed)
      ensures completed == if raised then old(completed) else old(completed) + 1
      ensures current == if raised then old(current) else Idle
    {
      hide Replayed, Chained, Overlapping, Referenced;
      if current != Running(ordinal) {
        return true;
      }
      raised := Append(OccurrenceCompleted(ordinal, completed + 1), refs, fault);
      if !raised {
        completed, current, direct := completed + 1, Idle, false;
        WholeIsPrefix(files);
      }
    }

    method CommitComputationResult(refs: seq<nat>, fault: AppendFault) returns (raised: bool)
      requires Valid()
      modifies this
      ensures Valid() && old(files) <= files && terminal == old(terminal)
      ensures leftover ==> old(leftover) || (raised && fault.Raises? && fault.leftover)
      ensures old(leftover) ==> leftover
      ensures raised <==> old(completed != OCCURRENCES || current.Running? || computed || terminal || fault.Raises?
                              || Clashes(CampaignComputationCompleted, refs))
      ensures bound == old(bound) && current == old(current) && completed == old(completed)
      ensures computed == (old(computed) || !raised)
      ensures !raised ==> Overlapping(files) || |files| == next
    {
      hide Replayed, Chained, Overlapping, Referenced;
      if completed != OCCURRENCES || current.Running? || computed {
        return true;
      }
      raised := Append(CampaignComputationCompleted, refs, fault);
      if !raised {
        computed := true;
        WholeIsPrefix(files);
      }
    }

    /** Closing by publication; `intact` is whether the output file read back as expected. */
    method CommitOutputPublished(intact: bool, fault: AppendFault) returns (raised: bool)
      requires Valid()
      modifies this
      ensures Valid() && old(files) <= files
      ensures leftover ==> old(leftover) || (raised && fault.Raises? && fault.leftover)
      ensures old(leftover) ==> leftover
      ensures raised <==> old(!computed || !intact || terminal || fault.Raises? || Clashes(OutputPublished, []))
      ensures bound == old(bound) && current == old(current) && completed == old(completed) && computed == old(computed)
      ensures terminal == (old(terminal) || !raised)
      ensures !raised ==> files != [] && files[|files| - 1].event.kind.OutputPublished?
      ensures !raised ==> Overlapping(files) || |files| == next
    {
      hide Replayed, Chained, Overlapping, Referenced;
      if !computed || !intact {
        return true;
      }
      raised := Append(OutputPublished, [], fault);
      if !raised {
        WholeIsPrefix(files);
      }
    }

    /** Closing by a caught failure; only an already terminal journal refuses it. */
    method CommitCaughtFailure(phase: Phase, diagnostic: nat, fault: AppendFault) returns (raised: bool)
      requires Valid()
      modifies this
      ensures Valid() && old(files) <= files
      ensures leftover ==> old(leftover) || (raised && fault.Raises? && fault.leftover)
      ensures old(leftover) ==> leftover
      ensures raised <==> old(terminal || fault.Raises? || Clashes(CaughtFailure(phase), [diagnostic]))
      ensures bound == old(bound) && current == old(current) && completed == old(completed) && computed == old(computed)
      ensures terminal == (old(terminal) || !raised)
      ensures !raised ==> files == old(files) + [files[|files| - 1]]
      ensures !raised ==> files[|files| - 1].event.kind == CaughtFailure(phase) && objects == old(objects) + {diagnostic}
      ensures !raised ==> (Overlapping(files) <==> old(!(Aligned() && |files| == next)))
    {
      hide Replayed, Chained, Referenced;
      raised := Append(CaughtFailure(phase), [diagnostic], fault);
      assert [diagnostic][0] in Stored([diagnostic], 1);
      if !raised {
        WholeIsPrefix(files);
      }
    }
  }

  lemma WholeIsPrefix(files: seq<File>)
    ensures files[..|files|] == files
  {
  }
}
