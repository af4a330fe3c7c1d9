/** The registered campaign runner: every operation may raise, and what the `except` and `finally`
    clauses then do. */
module Campaign {
  import opened AttemptJournal
  import AtomicPublish

  datatype Operation =
    | ConstructAuthorityChain
    | PrepareExecutionPlan
    | OpenJournal
    | BindSourceReplay
    | RunCampaign
    | CommitComputation
    | VerifyComputation
    | PublishOutput
    | CommitPublished
    | VerifyFinal
    | RecordFailure
    | CloseJournal
    | PrintResult

  /** The operations of the `try` body, in order. */
  const BODY: seq<Operation> := [
    ConstructAuthorityChain, PrepareExecutionPlan, OpenJournal, BindSourceReplay, RunCampaign,
    CommitComputation, VerifyComputation, PublishOutput, CommitPublished, VerifyFinal]

  /** The phase under which each operation of the body is accounted. */
  function PhaseOf(op: Operation): Phase {
    match op
    case ConstructAuthorityChain => AuthorityChainConstruction
    case PrepareExecutionPlan => AttemptJournalOpen
    case OpenJournal => AttemptJournalOpen
    case BindSourceReplay => AttemptJournalOpen
    case RunCampaign => CampaignExecution
    case CommitComputation => CampaignComputationJournal
    case VerifyComputation => CampaignComputationJournal
    case _ => OutputPublication
  }

  /** What the campaign itself asks of the journal while it runs. */
  datatype JournalCall =
    | Begin(ordinal: nat, direct: bool, plan: nat)
    | Checkpoint(refs: seq<nat>)
    | Complete(ordinal: nat, refs: seq<nat>)

  /** Everything the runner does not control. */
  datatype Script = Script(
    raises: Operation -> bool,
    fault: Operation -> AppendFault,
    calls: seq<(JournalCall, AppendFault)>,
    identify: Identify,
    size: nat -> nat,
    manifest: nat,
    computation: seq<nat>,
    diagnostic: nat)

  /** One performed operation, the value of the runner's phase variable, and how it ended. */
  datatype Step = Step(op: Operation, phase: Phase, raised: bool)

  ghost predicate BodyTrace(steps: seq<Step>) {
    && |steps| <= |BODY|
    && forall n | 0 <= n < |steps| ::
         && steps[n].op == BODY[n] && steps[n].phase == PhaseOf(BODY[n])
         && (steps[n].raised ==> n == |steps| - 1)
  }

  predicate Failed(steps: seq<Step>) {
    |steps| > 0 && steps[|steps| - 1].raised
  }

  /** The operation completed normally. */
  ghost predicate Did(steps: seq<Step>, op: Operation) {
    exists n :: 0 <= n < |steps| && steps[n].op == op && !steps[n].raised
  }

  lemma Performed(steps: seq<Step>, phase: Phase, raised: bool)
    requires BodyTrace(steps) && !Failed(steps) && |steps| < |BODY| && phase == PhaseOf(BODY[|steps|])
    ensures BodyTrace(steps + [Step(BODY[|steps|], phase, raised)])
    ensures Failed(steps + [Step(BODY[|steps|], phase, raised)]) <==> raised
  {
    if |steps| > 0 {
      assert !steps[|steps| - 1].raised;
    }
  }

  /** The campaign's own journal calls, each of which may raise. */
  method RunOccurrences(journal: Journal, calls: seq<(JournalCall, AppendFault)>)
    requires journal.Valid()
    modifies journal
    ensures journal.Valid() && old(journal.files) <= journal.files
    ensures journal.terminal == old(journal.terminal)
  {
    for n := 0 to |calls|
      invariant journal.Valid() && old(journal.files) <= journal.files && journal.terminal == old(journal.terminal)
    {
      var fault := calls[n].1;
      var raised;
      match calls[n].0 {
        case Begin(ordinal, direct, plan) => raised := journal.BeginOccurrence(ordinal, direct, plan, fault);
        case Checkpoint(refs) => raised := journal.CommitDirectCheckpoint(refs, fault);
        case Complete(ordinal, refs) => raised := journal.CompleteOccurrence(ordinal, refs, fault);
      }
    }
  }

  /** The journal verifies and records the whole registered schedule and its computation. */
  ghost predicate ComputationVerified(id: Identify, files: seq<File>, objects: set<nat>, leftover: bool) {
    && Verifiable(id, files, objects, leftover)
    && Starts(files) == Schedule(OCCURRENCES) == Completions(files) && Computations(files) == 1
  }

  /** The body up to the binding of the source replay; a raise returns early. */
  method Open(script: Script) returns (journal: Journal?, phase: Phase, steps: seq<Step>)
    ensures BodyTrace(steps) && 0 < |steps| <= 4 && (!Failed(steps) ==> |steps| == 4)
    ensures phase == steps[|steps| - 1].phase
    ensures journal != null <==> |steps| > 3
    ensures journal != null ==> fresh(journal) && journal.Valid() && !journal.terminal && journal.id == script.identify
  {
    hide BodyTrace, Failed, ComputationVerified, Verifiable, Replayed, Overlapping, Journal.Valid, Journal.Aligned, Journal.Clashes;
    journal, phase := null, AuthorityChainConstruction;
    steps := [];
    Begins();
    var raised := script.raises(ConstructAuthorityChain);
    steps := Perform(steps, ConstructAuthorityChain, phase, raised);
    if raised {
      return;
    }
    phase := AttemptJournalOpen;
    raised := script.raises(PrepareExecutionPlan);
    steps := Perform(steps, PrepareExecutionPlan, phase, raised);
    if raised {
      return;
    }
    raised := script.raises(OpenJournal);
    steps := Perform(steps, OpenJournal, phase, raised);
    if raised {
      return;
    }
    journal := new Journal(script.identify, script.size, script.manifest);
    raised := journal.BindSourceReplay(script.fault(BindSourceReplay));
    steps := Perform(steps, BindSourceReplay, phase, raised);
  }

  /** The campaign and its computation journal. */
  method Compute(script: Script, journal: Journal, opening: seq<Step>) returns (phase: Phase, steps: seq<Step>)
    requires BodyTrace(opening) && !Failed(opening) && |opening| == 4 && journal.Valid() && !journal.terminal
    modifies journal
    ensures BodyTrace(steps) && opening <= steps && 4 < |steps| <= 7 && (!Failed(steps) ==> |steps| == 7)
    ensures phase == steps[|steps| - 1].phase
    ensures journal.Valid() && !journal.terminal && old(journal.files) <= journal.files
    ensures !Failed(steps) ==> ComputationVerified(journal.id, journal.files, journal.objects, journal.leftover)
  {
    hide BodyTrace, Failed, ComputationVerified, Verifiable, Replayed, Overlapping, Journal.Valid, Journal.Aligned, Journal.Clashes;
    phase := CampaignExecution;
    RunOccurrences(journal, script.calls);
    var raised := script.raises(RunCampaign);
    steps := Perform(opening, RunCampaign, phase, raised);
    if raised {
      return;
    }
    phase := CampaignComputationJournal;
    raised := journal.CommitComputationResult(script.computation, script.fault(CommitComputation));
    steps := Perform(steps, CommitComputation, phase, raised);
    if raised {
      return;
    }
    var verdict := VerifyAttemptJournal(journal.id, journal.files, journal.objects, journal.leftover);
    raised := verdict.Violation? || script.raises(VerifyComputation);
    if !raised {
      ComputedJournalIsComplete(journal);
    }
    steps := Perform(steps, VerifyComputation, phase, raised);
  }

  lemma Begins()
    ensures BodyTrace([]) && !Failed([])
  {
  }

  /** Note one operation of the body and how it ended. */
  method Perform(steps: seq<Step>, op: Operation, phase: Phase, raised: bool) returns (after: seq<Step>)
    requires BodyTrace(steps) && !Failed(steps) && |steps| < |BODY| && op == BODY[|steps|] && phase == PhaseOf(op)
    ensures BodyTrace(after) && (Failed(after) <==> raised)
    ensures after == steps + [Step(op, phase, raised)]
  {
    Performed(steps, phase, raised);
    after := steps + [Step(op, phase, raised)];
  }

  lemma ComputedJournalIsComplete(journal: Journal)
    requires journal.Valid() && journal.computed && (Overlapping(journal.files) || |journal.files| == journal.next)
    requires Verifiable(journal.id, journal.files, journal.objects, journal.leftover)
    ensures ComputationVerified(journal.id, journal.files, journal.objects, journal.leftover)
  {
    journal.VerifiesIff();
    AcceptedInOrder(journal.files);
  }

  /** Publication of the output and its journal records. */
  method Publish(script: Script, journal: Journal, publication: AtomicPublish.Publication, computing: seq<Step>)
    returns (phase: Phase, steps: seq<Step>)
    requires BodyTrace(computing) && !Failed(computing) && |computing| == 7
    requires journal.Valid() && !journal.terminal && publication.Valid() && publication.call == AtomicPublish.FRESH
    modifies journal, publication
    ensures BodyTrace(steps) && computing <= steps && 7 < |steps| <= 10 && (!Failed(steps) ==> |steps| == 10)
    ensures phase == steps[|steps| - 1].phase
    ensures journal.Valid() && old(journal.files) <= journal.files && (journal.terminal <==> |steps| == 10)
    ensures publication.Valid() && publication.call.point.Finished?
    ensures publication.createOnly && publication.call.linked ==>
              AtomicPublish.Visible(publication.disk) == AtomicPublish.Holds(publication.data)
    ensures |steps| > 8 && publication.createOnly ==> publication.call.linked
    ensures !Failed(steps) ==> && Verifiable(journal.id, journal.files, journal.objects, journal.leftover)
                               && Replayed(journal.files).progress.closure == ClosedByOutput
  {
    hide BodyTrace, Failed, ComputationVerified, Verifiable, Replayed, Overlapping, Journal.Valid, Journal.Aligned,
      Journal.Clashes, AtomicPublish.Visible, AtomicPublish.OutputSeen, AtomicPublish.Publication.Valid,
      AtomicPublish.Publication.NeverRaises;
    phase := OutputPublication;
    var outcome := publication.AtomicWriteNew();
    var raised := !outcome.Published?;
    steps := Perform(computing, PublishOutput, phase, raised);
    if raised {
      return;
    }
    publication.Interfere();
    publication.Conclusions();
    var intact := AtomicPublish.Visible(publication.disk) == AtomicPublish.Holds(publication.data);
    phase, steps := CloseByOutput(script, journal, intact, phase, steps);
  }

  /** The journal's closing record and its last verification. */
  method CloseByOutput(script: Script, journal: Journal, intact: bool, before: Phase, published: seq<Step>)
    returns (phase: Phase, steps: seq<Step>)
    requires BodyTrace(published) && !Failed(published) && |published| == 8 && before == OutputPublication
    requires journal.Valid() && !journal.terminal
    modifies journal
    ensures BodyTrace(steps) && published <= steps && 8 < |steps| <= 10 && (!Failed(steps) ==> |steps| == 10)
    ensures phase == before == steps[|steps| - 1].phase
    ensures journal.Valid() && old(journal.files) <= journal.files && (journal.terminal <==> |steps| == 10)
    ensures !Failed(steps) ==> && Verifiable(journal.id, journal.files, journal.objects, journal.leftover)
                               && Replayed(journal.files).progress.closure == ClosedByOutput
  {
    hide BodyTrace, Failed, Verifiable, Replayed, Overlapping, Journal.Valid, Journal.Aligned, Journal.Clashes;
    phase := before;
    var raised := journal.CommitOutputPublished(intact, script.fault(CommitPublished));
    steps := Perform(published, CommitPublished, phase, raised);
    if raised {
      return;
    }
    var verdict := VerifyAttemptJournal(journal.id, journal.files, journal.objects, journal.leftover);
    raised := verdict.Violation? || script.raises(VerifyFinal);
    if !raised {
      PublishedJournalIsClosed(journal);
    }
    steps := Perform(steps, VerifyFinal, phase, raised);
  }

  lemma PublishedJournalIsClosed(journal: Journal)
    requires journal.Valid() && journal.files != [] && journal.files[|journal.files| - 1].event.kind.OutputPublished?
    requires Verifiable(journal.id, journal.files, journal.objects, journal.leftover)
    ensures Replayed(journal.files).progress.closure == ClosedByOutput
  {
  }

  lemma NothingLeft(journal: Journal)
    requires ComputationVerified(journal.id, journal.files, journal.objects, journal.leftover)
    ensures ComputationVerified(journal.id, journal.files, journal.objects, false)
  {
  }

  datatype Exit = Returned | Raised(source: Operation)

  /** What follows the body: at most one failure record, one close, and the printed result. */
  ghost predicate Aftermath(body: seq<Step>, tail: seq<Step>) {
    var record := Failed(body) && 3 < |body| < 10;
    && (record ==> |tail| == 2 && tail[0].op == RecordFailure && tail[0].phase == body[|body| - 1].phase
                   && tail[1].op == CloseJournal)
    && (!record && Failed(body) ==> if |body| > 3 then |tail| == 1 && tail[0].op == CloseJournal else tail == [])
    && (!Failed(body) ==> |tail| > 0 && tail[0].op == CloseJournal
                          && if tail[0].raised then |tail| == 1 else |tail| == 2 && tail[1].op == PrintResult)
  }

  ghost predicate NothingRaised(steps: seq<Step>) {
    forall n | 0 <= n < |steps| :: !steps[n].raised
  }

  ghost predicate LastRaised(steps: seq<Step>, op: Operation) {
    exists n :: 0 <= n < |steps| && steps[n].op == op && steps[n].raised && NothingRaised(steps[n + 1..])
  }

  /** The `except` and `finally` clauses and the printed result. */
  method Settle(script: Script, phase: Phase, journal: Journal?, body: seq<Step>) returns (exit: Exit, tail: seq<Step>)
    requires BodyTrace(body) && |body| > 0 && (!Failed(body) ==> |body| == 10) && phase == body[|body| - 1].phase
    requires journal != null <==> |body| > 3
    requires journal != null ==> journal.Valid() && (journal.terminal <==> |body| == 10)
    modifies journal
    ensures Aftermath(body, tail)
    ensures exit.Returned? <==> NothingRaised(body + tail)
    ensures exit.Raised? ==> LastRaised(body + tail, exit.source)
    ensures journal != null ==> journal.Valid() && old(journal.files) <= journal.files
    ensures journal != null && (!Failed(body) || |body| == 10) ==> unchanged(journal)
    ensures Failed(body) && 3 < |body| < 10 && !tail[0].raised ==>
              && journal.terminal && journal.files != []
              && journal.files[|journal.files| - 1].event.kind == CaughtFailure(PhaseOf(body[|body| - 1].op))
              && (Overlapping(journal.files) <==> old(!(journal.Aligned() && |journal.files| == journal.next)))
              && journal.leftover == old(journal.leftover) && journal.objects == old(journal.objects) + {script.diagnostic}
  {
    hide Verifiable, Replayed, Overlapping, Journal.Valid, Journal.Aligned, Journal.Clashes;
    tail := [];
    exit := if Failed(body) then Raised(body[|body| - 1].op) else Returned;
    if Failed(body) && journal != null && !journal.terminal {
      var raised := journal.CommitCaughtFailure(phase, script.diagnostic, script.fault(RecordFailure));
      tail := [Step(RecordFailure, phase, raised)];
      exit := if raised then Raised(RecordFailure) else exit;
    }
    if journal != null {
      var raised := script.raises(CloseJournal);
      tail := tail + [Step(CloseJournal, phase, raised)];
      exit := if raised then Raised(CloseJournal) else exit;
    }
    if exit.Returned? {
      var raised := script.raises(PrintResult);
      tail := tail + [Step(PrintResult, phase, raised)];
      exit := if raised then Raised(PrintResult) else exit;
    }
    ExitIsLast(body, tail, exit);
  }

  ghost function FinalExit(body: seq<Step>, tail: seq<Step>): Exit {
    if |tail| > 0 && tail[|tail| - 1].raised then Raised(tail[|tail| - 1].op)
    else if |tail| > 1 && tail[|tail| - 2].raised then Raised(tail[|tail| - 2].op)
    else if Failed(body) then Raised(body[|body| - 1].op)
    else Returned
  }

  lemma ExitIsLast(body: seq<Step>, tail: seq<Step>, exit: Exit)
    requires BodyTrace(body) && |tail| <= 2 && exit == FinalExit(body, tail)
    ensures exit.Returned? <==> NothingRaised(body + tail)
    ensures exit.Raised? ==> LastRaised(body + tail, exit.source)
  {
    var steps := body + tail;
    if |tail| > 0 && tail[|tail| - 1].raised {
      RaisedAt(steps, |steps| - 1);
    } else if |tail| > 1 && tail[|tail| - 2].raised {
      RaisedAt(steps, |steps| - 2);
    } else if Failed(body) {
      RaisedAt(steps, |body| - 1);
    }
  }

  lemma RaisedAt(steps: seq<Step>, n: nat)
    requires n < |steps| && steps[n].raised && forall m | n < m < |steps| :: !steps[m].raised
    ensures LastRaised(steps, steps[n].op) && !NothingRaised(steps)
  {
    assert NothingRaised(steps[n + 1..]);
  }

  /** The whole run from the authority chain onward.  The propagated exception is the last one
      raised, and the run returns exactly when no operation raised. */
  method RunRegisteredCampaign(script: Script, publication: AtomicPublish.Publication)
    returns (exit: Exit, journal: Journal?, body: seq<Step>, tail: seq<Step>)
    requires publication.Valid() && publication.call == AtomicPublish.FRESH
    modifies publication
    ensures BodyTrace(body) && |body| > 0 && (!Failed(body) ==> |body| == 10) && Aftermath(body, tail)
    ensures exit.Returned? <==> NothingRaised(body + tail)
    ensures exit.Raised? ==> LastRaised(body + tail, exit.source)
    ensures journal != null <==> |body| > 3
    ensures journal != null ==> fresh(journal) && journal.Valid()
    ensures |body| <= 7 ==> publication.run == old(publication.run) && publication.disk == old(publication.disk)
    ensures publication.createOnly && publication.call.linked ==>
              AtomicPublish.Visible(publication.disk) == AtomicPublish.Holds(publication.data)
    ensures |body| > 8 && publication.createOnly ==> publication.call.linked
    ensures !Failed(body) ==> && Verifiable(journal.id, journal.files, journal.objects, journal.leftover)
                              && Replayed(journal.files).progress.closure == ClosedByOutput
    ensures Failed(body) && 3 < |body| < 10 && !tail[0].raised ==>
              && journal.files != []
              && journal.files[|journal.files| - 1].event.kind == CaughtFailure(PhaseOf(body[|body| - 1].op))
    ensures |body| > 7 ==> exists files, objects :: files <= journal.files && ComputationVerified(journal.id, files, objects, false)
  {
    hide BodyTrace, ComputationVerified, Verifiable, Replayed, Overlapping, Journal.Valid, Journal.Aligned,
      Journal.Clashes, AtomicPublish.Publication.Valid;
    var phase: Phase;
    journal, phase, body := Open(script);
    if !Failed(body) {
      phase, body := Compute(script, journal, body);
      if !Failed(body) {
        ghost var files, objects := journal.files, journal.objects;
        NothingLeft(journal);
        phase, body := Publish(script, journal, publication, body);
      }
    }
    exit, tail := Settle(script, phase, journal, body);
  }

  // ---- Laws of every run ------------------------------------------------------------------

  ghost function Occurrences(steps: seq<Step>, op: Operation): nat {
    if |steps| == 0 then 0 else Occurrences(steps[..|steps| - 1], op) + if steps[|steps| - 1].op == op then 1 else 0
  }

  lemma {:induction false} OccurrencesAppend(xs: seq<Step>, ys: seq<Step>, op: Operation)
    ensures Occurrences(xs + ys, op) == Occurrences(xs, op) + Occurrences(ys, op)
    decreases |ys|
  {
    if |ys| == 0 {
      assert xs + ys == xs;
    } else {
      var steps := xs + ys;
      assert steps[..|steps| - 1] == xs + ys[..|ys| - 1];
      OccurrencesAppend(xs, ys[..|ys| - 1], op);
    }
  }

  lemma {:induction false} AbsentFrom(steps: seq<Step>, op: Operation)
    requires forall n | 0 <= n < |steps| :: steps[n].op != op
    ensures Occurrences(steps, op) == 0
  {
    if |steps| > 0 {
      AbsentFrom(steps[..|steps| - 1], op);
    }
  }

  /** A run: the body as far as it went, and its aftermath. */
  ghost predicate IsRun(body: seq<Step>, tail: seq<Step>) {
    BodyTrace(body) && |body| > 0 && (!Failed(body) ==> |body| == 10) && Aftermath(body, tail)
  }

  /** An attempt to publish comes after a successful computation commit and then a successful
      journal verification. */
  lemma PublicationIsGuarded(body: seq<Step>, tail: seq<Step>, n: nat)
    requires IsRun(body, tail) && n < |body + tail| && (body + tail)[n].op == PublishOutput
    ensures exists i, j :: && 0 <= i < j < n && (body + tail)[i] == Step(CommitComputation, CampaignComputationJournal, false)
                           && (body + tail)[j] == Step(VerifyComputation, CampaignComputationJournal, false)
  {
    var steps := body + tail;
    assert n < |body| ==> steps[n] == body[n];
    assert n == 7;
    assert steps[5] == body[5] && steps[6] == body[6];
    assert 0 <= 5 < 6 < n;
  }

  /** The journal is closed exactly once if it was opened and never otherwise, after every other
      journal operation. */
  lemma ClosedOnceIffOpened(body: seq<Step>, tail: seq<Step>)
    requires IsRun(body, tail)
    ensures Occurrences(body + tail, CloseJournal) == (if Did(body + tail, OpenJournal) then 1 else 0)
    ensures forall n | 0 <= n < |body + tail| && (body + tail)[n].op == CloseJournal ::
              forall m | n < m < |body + tail| :: (body + tail)[m].op == PrintResult
  {
    OccurrencesAppend(body, tail, CloseJournal);
    AbsentFrom(body, CloseJournal);
    OpenedIff(body, tail);
    ShortCount(tail, CloseJournal);
  }

  lemma OpenedIff(body: seq<Step>, tail: seq<Step>)
    requires IsRun(body, tail)
    ensures Did(body + tail, OpenJournal) <==> |body| > 3
  {
    var steps := body + tail;
    if |body| > 3 {
      assert steps[2] == body[2];
    }
    if Did(steps, OpenJournal) {
      var n :| 0 <= n < |steps| && steps[n].op == OpenJournal && !steps[n].raised;
      assert n < |body| ==> steps[n] == body[n];
    }
  }

  lemma ShortCount(tail: seq<Step>, op: Operation)
    requires |tail| <= 2
    ensures Occurrences(tail, op) == (if |tail| > 0 && tail[0].op == op then 1 else 0)
                                     + (if |tail| > 1 && tail[1].op == op then 1 else 0)
  {
    if |tail| > 1 {
      assert tail[..1][..0] == [];
      assert Occurrences(tail[..1], op) == Occurrences(tail[..1][..0], op) + if tail[0].op == op then 1 else 0;
    }
  }

  /** At most one failure record is attempted; it is attempted exactly when the journal was opened,
      an operation of the body raised and publication was not yet recorded; and it carries the
      phase of the operation that raised. */
  lemma FailureRecordIsExact(body: seq<Step>, tail: seq<Step>)
    requires IsRun(body, tail)
    ensures Occurrences(body + tail, RecordFailure) ==
            if Did(body + tail, OpenJournal) && Failed(body) && !Did(body + tail, CommitPublished) then 1 else 0
    ensures forall n | 0 <= n < |body + tail| && (body + tail)[n].op == RecordFailure ::
              (body + tail)[n].phase == PhaseOf(body[|body| - 1].op) && body[|body| - 1].raised
  {
    OccurrencesAppend(body, tail, RecordFailure);
    AbsentFrom(body, RecordFailure);
    OpenedIff(body, tail);
    PublishedIff(body, tail);
    ShortCount(tail, RecordFailure);
  }

  lemma PublishedIff(body: seq<Step>, tail: seq<Step>)
    requires IsRun(body, tail)
    ensures Did(body + tail, CommitPublished) <==> |body| > 9
  {
    var steps := body + tail;
    if |body| > 9 {
      assert steps[8] == body[8];
    }
    if Did(steps, CommitPublished) {
      var n :| 0 <= n < |steps| && steps[n].op == CommitPublished && !steps[n].raised;
      assert n < |body| ==> steps[n] == body[n];
    }
  }
}
