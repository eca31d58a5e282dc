/** One resolution pass of the problem resolver (`apply_resolutions`): for
    each submitted problem id, in the order of the request map, look the
    problem up, skip it when it is unknown or no longer open, otherwise build
    its handler and apply the requested resolution; tally how many problems
    were processed and keep the last error message.

    The pass runs sequentially here; which pools the concurrent version would
    create is the business of module PoolPlanning. Whether building the
    handler or applying the resolution succeeds is decided by an oracle. */
module ProblemResolution {
  import opened Results

  type ProblemId = string
  type Resolution = string
  type DiskId = nat

  datatype ProblemType = MissingVm | InactiveDisk | UnresponsiveAgent | OtherProblem(name: string)

  datatype ProblemState = Open | Resolved | Ignored

  function StateName(st: ProblemState): string
  {
    match st
    case Open => "open"
    case Resolved => "resolved"
    case Ignored => "ignored"
  }

  /** A stored deployment problem: the resource it is about (an instance or a
      persistent disk), its type and its state. */
  datatype Problem = Problem(resourceId: nat, problemType: ProblemType, state: ProblemState)

  /** One entry of the request map: problem id => resolution name. */
  datatype Request = Request(id: ProblemId, resolution: Resolution)

  /** What happens when the resolver works on an open problem: the handler
      applies the resolution, or applying it raises `ProblemHandlerError`, or
      some other `StandardError` is raised, either while building the handler
      or during the resolution itself. The resolver treats that last case the
      same way in both places: the problem is not counted, and no handler
      call is recorded in `remediations`, even when the handler was entered. */
  datatype Outcome = Succeeded | HandlerFailed(message: string) | ConstructionFailed(message: string)

  type Oracle = (Problem, Resolution) -> Outcome

  /** A line given to `track_and_log`, or one given to `logger.error`. */
  datatype LogEntry = Tracked(text: string) | LoggedError(text: string)

  function SkipMessage(id: ProblemId, st: ProblemState): string
  {
    "Ignoring problem " + id + " (state is '" + StateName(st) + "')"
  }

  function ErrorMessage(id: ProblemId, message: string): string
  {
    "Error resolving problem '" + id + "': " + message
  }

  /** The effect of a successful resolution on the persistent disks:
      `delete_disk` on an inactive-disk problem removes that disk; every other
      resolution leaves the disks alone. */
  function Remedy(disks: set<DiskId>, p: Problem, resolution: Resolution): (r: set<DiskId>)
    ensures r <= disks && disks - r <= {p.resourceId}
    ensures p.resourceId !in r <==> p.resourceId !in disks || (p.problemType == InactiveDisk && resolution == "delete_disk")
  {
    if p.problemType == InactiveDisk && resolution == "delete_disk" then disks - {p.resourceId} else disks
  }

  /** What the resolver does with one request, given the problems as they are. */
  datatype Fate = Unknown | Skipped(state: ProblemState) | Attempted(outcome: Outcome)

  function FateOf(problems: map<ProblemId, Problem>, r: Request, oracle: Oracle): (f: Fate)
    ensures f.Unknown? <==> r.id !in problems
  {
    if r.id !in problems then Unknown
    else if problems[r.id].state != Open then Skipped(problems[r.id].state)
    else Attempted(oracle(problems[r.id], r.resolution))
  }

  /** A request is counted when its problem was open and its handler could be
      built, whether or not the resolution itself then failed. */
  predicate Counts(f: Fate)
  {
    f.Attempted? && !f.outcome.ConstructionFailed?
  }

  /** Everything one pass reads and writes: the problem table, the persistent
      disks, the log, the resolutions handed to handlers, the counter and the
      last error message. */
  datatype PassState = PassState(
    problems: map<ProblemId, Problem>,
    disks: set<DiskId>,
    log: seq<LogEntry>,
    remediations: seq<Request>,
    count: nat,
    error: Option<string>)

  /** The resolver's treatment of one request. */
  function Step(s: PassState, r: Request, oracle: Oracle): (t: PassState)
    ensures t.problems.Keys == s.problems.Keys
    ensures t == s <==> r.id !in s.problems
  {
    match FateOf(s.problems, r, oracle)
    case Unknown => s
    case Skipped(st) => s.(log := s.log + [Tracked(SkipMessage(r.id, st))])
    case Attempted(Succeeded) =>
      var p := s.problems[r.id];
      s.(problems := s.problems[r.id := p.(state := Resolved)],
         disks := Remedy(s.disks, p, r.resolution),
         remediations := s.remediations + [r],
         count := s.count + 1)
    case Attempted(HandlerFailed(m)) =>
      var p := s.problems[r.id];
      s.(problems := s.problems[r.id := p.(state := Resolved)],
         remediations := s.remediations + [r],
         count := s.count + 1,
         log := s.log + [LoggedError(ErrorMessage(r.id, m))],
         error := Some(ErrorMessage(r.id, m)))
    case Attempted(ConstructionFailed(m)) =>
      s.(log := s.log + [LoggedError(ErrorMessage(r.id, m))],
         error := Some(ErrorMessage(r.id, m)))
  }

  /** The state after treating `reqs` one after another. */
  function Pass(s: PassState, reqs: seq<Request>, oracle: Oracle): (t: PassState)
    ensures t.problems.Keys == s.problems.Keys
    ensures t.count <= s.count + |reqs|
    decreases |reqs|
  {
    if reqs == [] then s
    else Step(Pass(s, reqs[..|reqs| - 1], oracle), reqs[|reqs| - 1], oracle)
  }

  /** A pass over one more request is one more step. */
  lemma PassExtend(s: PassState, reqs: seq<Request>, i: nat, oracle: Oracle)
    requires i < |reqs|
    ensures Pass(s, reqs[..i + 1], oracle) == Step(Pass(s, reqs[..i], oracle), reqs[i], oracle)
  {
    assert reqs[..i + 1][..i] == reqs[..i];
  }

  /** The keys of a request map are distinct. */
  predicate DistinctIds(reqs: seq<Request>)
  {
    forall i, j :: 0 <= i < j < |reqs| ==> reqs[i].id != reqs[j].id
  }

  // Reference description of a pass, in terms of the problems as they were
  // before it started.

  /** The requests whose resolution is handed to a handler, in order. */
  function Attempts(p0: map<ProblemId, Problem>, reqs: seq<Request>, oracle: Oracle): (r: seq<Request>)
    ensures |r| <= |reqs|
    decreases |reqs|
  {
    if reqs == [] then []
    else
      var last := reqs[|reqs| - 1];
      Attempts(p0, reqs[..|reqs| - 1], oracle) + (if Counts(FateOf(p0, last, oracle)) then [last] else [])
  }

  /** Every handled request was submitted, and is one whose outcome counts. */
  lemma {:induction false} AttemptsAreCounted(p0: map<ProblemId, Problem>, reqs: seq<Request>, oracle: Oracle)
    ensures forall x :: x in Attempts(p0, reqs, oracle) ==> x in reqs && Counts(FateOf(p0, x, oracle))
    decreases |reqs|
  {
    if reqs != [] {
      var pre := reqs[..|reqs| - 1];
      AttemptsAreCounted(p0, pre, oracle);
      assert forall x :: x in pre ==> x in reqs;
    }
  }

  /** The message of the last request that failed, or `e0` when none did. */
  function LastError(p0: map<ProblemId, Problem>, reqs: seq<Request>, oracle: Oracle, e0: Option<string>): Option<string>
    decreases |reqs|
  {
    if reqs == [] then e0
    else
      var last := reqs[|reqs| - 1];
      match FateOf(p0, last, oracle)
      case Attempted(HandlerFailed(m)) => Some(ErrorMessage(last.id, m))
      case Attempted(ConstructionFailed(m)) => Some(ErrorMessage(last.id, m))
      case _ => LastError(p0, reqs[..|reqs| - 1], oracle, e0)
  }

  /** The log lines of a pass: a skip line per request whose problem was not
      open, an error line per failed request. */
  function LogOf(p0: map<ProblemId, Problem>, reqs: seq<Request>, oracle: Oracle): seq<LogEntry>
    decreases |reqs|
  {
    if reqs == [] then []
    else LogOf(p0, reqs[..|reqs| - 1], oracle) + LogLines(p0, reqs[|reqs| - 1], oracle)
  }

  /** The log lines of one request. */
  function LogLines(p0: map<ProblemId, Problem>, r: Request, oracle: Oracle): seq<LogEntry>
  {
    match FateOf(p0, r, oracle)
    case Skipped(st) => [Tracked(SkipMessage(r.id, st))]
    case Attempted(HandlerFailed(m)) => [LoggedError(ErrorMessage(r.id, m))]
    case Attempted(ConstructionFailed(m)) => [LoggedError(ErrorMessage(r.id, m))]
    case _ => []
  }

  /** The disks removed by successful `delete_disk` resolutions. */
  function DeletedDisks(p0: map<ProblemId, Problem>, reqs: seq<Request>, oracle: Oracle): set<DiskId>
    decreases |reqs|
  {
    if reqs == [] then {}
    else
      var last := reqs[|reqs| - 1];
      DeletedDisks(p0, reqs[..|reqs| - 1], oracle) +
      (if FateOf(p0, last, oracle) == Attempted(Succeeded)
          && p0[last.id].problemType == InactiveDisk && last.resolution == "delete_disk"
       then {p0[last.id].resourceId} else {})
  }

  /** Some request for `id` is counted. */
  predicate Processed(p0: map<ProblemId, Problem>, reqs: seq<Request>, oracle: Oracle, id: ProblemId)
  {
    exists i :: 0 <= i < |reqs| && reqs[i].id == id && Counts(FateOf(p0, reqs[i], oracle))
  }

  /** A stored problem after the pass: resolved when a request for it was
      counted, as it was otherwise. */
  function Settled(p0: map<ProblemId, Problem>, reqs: seq<Request>, oracle: Oracle, id: ProblemId): Problem
    requires id in p0
  {
    if Processed(p0, reqs, oracle, id) then p0[id].(state := Resolved) else p0[id]
  }

  lemma {:induction false} ProcessedPrefix(p0: map<ProblemId, Problem>, reqs: seq<Request>, oracle: Oracle, id: ProblemId)
    requires reqs != []
    ensures var pre := reqs[..|reqs| - 1];
            var last := reqs[|reqs| - 1];
            Processed(p0, reqs, oracle, id)
            <==> Processed(p0, pre, oracle, id) || (last.id == id && Counts(FateOf(p0, last, oracle)))
  {
    var pre := reqs[..|reqs| - 1];
    if Processed(p0, reqs, oracle, id) {
      var i :| 0 <= i < |reqs| && reqs[i].id == id && Counts(FateOf(p0, reqs[i], oracle));
      if i < |pre| {
        assert pre[i] == reqs[i];
      }
    }
    if Processed(p0, pre, oracle, id) {
      var i :| 0 <= i < |pre| && pre[i].id == id && Counts(FateOf(p0, pre[i], oracle));
      assert reqs[i] == pre[i];
    }
  }

  /** With distinct request ids, the last request meets its problem as it
      was before the pass began. */
  lemma {:induction false} LastSeesInitialProblem(s: PassState, reqs: seq<Request>, oracle: Oracle)
    requires DistinctIds(reqs) && reqs != []
    ensures FateOf(Pass(s, reqs[..|reqs| - 1], oracle).problems, reqs[|reqs| - 1], oracle)
         == FateOf(s.problems, reqs[|reqs| - 1], oracle)
    ensures reqs[|reqs| - 1].id in s.problems ==>
            Pass(s, reqs[..|reqs| - 1], oracle).problems[reqs[|reqs| - 1].id] == s.problems[reqs[|reqs| - 1].id]
    decreases |reqs|, 0
  {
    var pre := reqs[..|reqs| - 1];
    var last := reqs[|reqs| - 1];
    assert DistinctIds(pre);
    PassSettlesProblems(s, pre, oracle);
    assert !Processed(s.problems, pre, oracle, last.id);
  }

  /** With distinct request ids, a processed problem ends up resolved and
      every other problem is left as it was. */
  lemma {:induction false} PassSettlesProblems(s: PassState, reqs: seq<Request>, oracle: Oracle)
    requires DistinctIds(reqs)
    ensures forall id :: id in s.problems ==> Pass(s, reqs, oracle).problems[id] == Settled(s.problems, reqs, oracle, id)
    decreases |reqs|, 1
  {
    if reqs != [] {
      var pre := reqs[..|reqs| - 1];
      LastSeesInitialProblem(s, reqs, oracle);
      PassSettlesProblems(s, pre, oracle);
      forall id | id in s.problems
        ensures Pass(s, reqs, oracle).problems[id] == Settled(s.problems, reqs, oracle, id)
      {
        ProcessedPrefix(s.problems, reqs, oracle, id);
      }
    }
  }

  lemma DistinctPrefix(reqs: seq<Request>)
    requires DistinctIds(reqs) && reqs != []
    ensures DistinctIds(reqs[..|reqs| - 1])
  {
    var pre := reqs[..|reqs| - 1];
    assert forall i :: 0 <= i < |pre| ==> pre[i] == reqs[i];
  }

  /** With distinct request ids, the handler calls and the counter follow the
      reference description. */
  lemma {:induction false} PassCount(s: PassState, reqs: seq<Request>, oracle: Oracle)
    requires DistinctIds(reqs)
    ensures var after := Pass(s, reqs, oracle);
            && after.remediations == s.remediations + Attempts(s.problems, reqs, oracle)
            && after.count == s.count + |Attempts(s.problems, reqs, oracle)|
    decreases |reqs|
  {
    if reqs != [] {
      var pre := reqs[..|reqs| - 1];
      DistinctPrefix(reqs);
      LastSeesInitialProblem(s, reqs, oracle);
      PassCount(s, pre, oracle);
      StepCount(Pass(s, pre, oracle), reqs[|reqs| - 1], oracle);
    }
  }

  /** One request adds itself to the handler calls, and one to the counter,
      exactly when its outcome counts. */
  lemma StepCount(s: PassState, r: Request, oracle: Oracle)
    ensures var t := Step(s, r, oracle);
            && t.remediations == s.remediations + (if Counts(FateOf(s.problems, r, oracle)) then [r] else [])
            && t.count == s.count + (if Counts(FateOf(s.problems, r, oracle)) then 1 else 0)
  {
  }

  /** With distinct request ids, the error is the last failure's message. */
  lemma {:induction false} PassError(s: PassState, reqs: seq<Request>, oracle: Oracle)
    requires DistinctIds(reqs)
    ensures Pass(s, reqs, oracle).error == LastError(s.problems, reqs, oracle, s.error)
    decreases |reqs|
  {
    if reqs != [] {
      var pre := reqs[..|reqs| - 1];
      DistinctPrefix(reqs);
      LastSeesInitialProblem(s, reqs, oracle);
      PassError(s, pre, oracle);
    }
  }

  /** With distinct request ids, the counter, the handler calls and the error
      follow the reference description. */
  lemma PassTally(s: PassState, reqs: seq<Request>, oracle: Oracle)
    requires DistinctIds(reqs)
    ensures var after := Pass(s, reqs, oracle);
            && after.remediations == s.remediations + Attempts(s.problems, reqs, oracle)
            && after.count == s.count + |Attempts(s.problems, reqs, oracle)|
            && after.error == LastError(s.problems, reqs, oracle, s.error)
  {
    PassCount(s, reqs, oracle);
    PassError(s, reqs, oracle);
  }

  /** With distinct request ids, the log follows the reference description. */
  lemma {:induction false} PassLog(s: PassState, reqs: seq<Request>, oracle: Oracle)
    requires DistinctIds(reqs)
    ensures Pass(s, reqs, oracle).log == s.log + LogOf(s.problems, reqs, oracle)
    decreases |reqs|
  {
    if reqs != [] {
      var pre := reqs[..|reqs| - 1];
      DistinctPrefix(reqs);
      LastSeesInitialProblem(s, reqs, oracle);
      PassLog(s, pre, oracle);
      StepLog(Pass(s, pre, oracle), reqs[|reqs| - 1], oracle);
      assert s.log + LogOf(s.problems, reqs, oracle)
          == (s.log + LogOf(s.problems, pre, oracle)) + LogLines(s.problems, reqs[|reqs| - 1], oracle);
    }
  }

  /** One request appends its own log lines and no others. */
  lemma StepLog(s: PassState, r: Request, oracle: Oracle)
    ensures Step(s, r, oracle).log == s.log + LogLines(s.problems, r, oracle)
  {
  }

  /** With distinct request ids, the disks removed are those of the reference
      description. */
  lemma {:induction false} PassDisks(s: PassState, reqs: seq<Request>, oracle: Oracle)
    requires DistinctIds(reqs)
    ensures Pass(s, reqs, oracle).disks == s.disks - DeletedDisks(s.problems, reqs, oracle)
    decreases |reqs|
  {
    if reqs != [] {
      var pre := reqs[..|reqs| - 1];
      DistinctPrefix(reqs);
      LastSeesInitialProblem(s, reqs, oracle);
      PassDisks(s, pre, oracle);
    }
  }

  /** With distinct request ids, the log and the disks follow the reference
      description. */
  lemma PassLogAndDisks(s: PassState, reqs: seq<Request>, oracle: Oracle)
    requires DistinctIds(reqs)
    ensures var after := Pass(s, reqs, oracle);
            && after.log == s.log + LogOf(s.problems, reqs, oracle)
            && after.disks == s.disks - DeletedDisks(s.problems, reqs, oracle)
  {
    PassLog(s, reqs, oracle);
    PassDisks(s, reqs, oracle);
  }

  /** With distinct request ids, a pass does exactly what the reference
      description says, computed from the problems as they were at the start:
      the processed problems become resolved and nothing else in the table
      changes; the counter grows by the number of handled requests; the error
      is the last failure's message; the log, the handler calls and the disks
      follow the same requests. */
  lemma PassMatchesReference(s: PassState, reqs: seq<Request>, oracle: Oracle)
    requires DistinctIds(reqs)
    ensures var after := Pass(s, reqs, oracle);
            && after.problems.Keys == s.problems.Keys
            && (forall id :: id in s.problems ==> after.problems[id] == Settled(s.problems, reqs, oracle, id))
            && after.remediations == s.remediations + Attempts(s.problems, reqs, oracle)
            && after.count == s.count + |Attempts(s.problems, reqs, oracle)|
            && after.error == LastError(s.problems, reqs, oracle, s.error)
            && after.log == s.log + LogOf(s.problems, reqs, oracle)
            && after.disks == s.disks - DeletedDisks(s.problems, reqs, oracle)
  {
    PassSettlesProblems(s, reqs, oracle);
    PassTally(s, reqs, oracle);
    PassLogAndDisks(s, reqs, oracle);
  }

  /** Requests naming unknown problems or problems that are no longer open
      change nothing but the log: nothing is counted, no error is reported,
      no handler is called and the problem table is unchanged. */
  lemma {:induction false} NothingOpenIsNoOp(s: PassState, reqs: seq<Request>, oracle: Oracle)
    requires forall r :: r in reqs ==> r.id !in s.problems || s.problems[r.id].state != Open
    ensures var after := Pass(s, reqs, oracle);
            && after.count == s.count
            && after.error == s.error
            && after.problems == s.problems
            && after.disks == s.disks
            && after.remediations == s.remediations
            && after.log == s.log + LogOf(s.problems, reqs, oracle)
    decreases |reqs|
  {
    if reqs != [] {
      var pre := reqs[..|reqs| - 1];
      assert reqs[|reqs| - 1] in reqs;
      NothingOpenIsNoOp(s, pre, oracle);
    }
  }

  lemma AllSucceedAttempts(p0: map<ProblemId, Problem>, reqs: seq<Request>, oracle: Oracle, e0: Option<string>)
    requires forall r :: r in reqs ==> r.id in p0 && p0[r.id].state == Open && oracle(p0[r.id], r.resolution) == Succeeded
    ensures Attempts(p0, reqs, oracle) == reqs
    ensures LastError(p0, reqs, oracle, e0) == e0
  {
    assert forall i :: 0 <= i < |reqs| ==> reqs[i] in reqs;
    AllSucceedAttempted(p0, reqs, oracle);
    AllSucceedNoError(p0, reqs, oracle, e0);
  }

  lemma {:induction false} AllSucceedAttempted(p0: map<ProblemId, Problem>, reqs: seq<Request>, oracle: Oracle)
    requires forall i :: 0 <= i < |reqs| ==> FateOf(p0, reqs[i], oracle) == Attempted(Succeeded)
    ensures Attempts(p0, reqs, oracle) == reqs
    decreases |reqs|
  {
    if reqs != [] {
      var n := |reqs| - 1;
      var pre := reqs[..n];
      assert forall i :: 0 <= i < |pre| ==> FateOf(p0, pre[i], oracle) == Attempted(Succeeded) by {
        assert forall i :: 0 <= i < |pre| ==> pre[i] == reqs[i];
      }
      AllSucceedAttempted(p0, pre, oracle);
      SucceededIsAttempt(p0, reqs, oracle);
    }
  }

  /** A last request that succeeded extends the handled requests by itself. */
  lemma SucceededIsAttempt(p0: map<ProblemId, Problem>, reqs: seq<Request>, oracle: Oracle)
    requires reqs != [] && FateOf(p0, reqs[|reqs| - 1], oracle) == Attempted(Succeeded)
    requires Attempts(p0, reqs[..|reqs| - 1], oracle) == reqs[..|reqs| - 1]
    ensures Attempts(p0, reqs, oracle) == reqs
  {
    assert reqs == reqs[..|reqs| - 1] + [reqs[|reqs| - 1]];
  }

  lemma {:induction false} AllSucceedNoError(p0: map<ProblemId, Problem>, reqs: seq<Request>, oracle: Oracle, e0: Option<string>)
    requires forall r :: r in reqs ==> FateOf(p0, r, oracle) == Attempted(Succeeded)
    ensures LastError(p0, reqs, oracle, e0) == e0
    decreases |reqs|
  {
    if reqs != [] {
      var n := |reqs| - 1;
      assert reqs[n] in reqs;
      assert forall r :: r in reqs[..n] ==> r in reqs;
      AllSucceedNoError(p0, reqs[..n], oracle, e0);
    }
  }

  /** Every submitted problem open and every resolution succeeding: each
      resolution is handed to its handler exactly once, in request order, the
      count is the number of requests, no error is reported and none of the
      submitted problems is left open. */
  lemma SuccessfulPass(s: PassState, reqs: seq<Request>, oracle: Oracle)
    requires DistinctIds(reqs)
    requires forall r :: r in reqs ==>
      r.id in s.problems && s.problems[r.id].state == Open && oracle(s.problems[r.id], r.resolution) == Succeeded
    ensures var after := Pass(s, reqs, oracle);
            && after.remediations == s.remediations + reqs
            && after.count == s.count + |reqs|
            && after.error == s.error
            && after.problems.Keys == s.problems.Keys
            && forall r :: r in reqs ==> after.problems[r.id].state == Resolved
  {
    PassMatchesReference(s, reqs, oracle);
    AllSucceedAttempts(s.problems, reqs, oracle, s.error);
    forall r | r in reqs
      ensures Processed(s.problems, reqs, oracle, r.id)
    {
      var i :| 0 <= i < |reqs| && reqs[i] == r;
    }
  }

  /** A problem already resolved is skipped with the message
      "Ignoring problem <id> (state is 'resolved')": count 0, no error. */
  lemma AlreadyResolvedIsSkipped(id: ProblemId, p: Problem, resolution: Resolution, oracle: Oracle)
    requires p.state == Resolved
    ensures var after := Pass(PassState(map[id := p], {}, [], [], 0, None), [Request(id, resolution)], oracle);
            && after.count == 0
            && after.error == None
            && after.log == [Tracked("Ignoring problem " + id + " (state is 'resolved')")]
  {
    assert [Request(id, resolution)][..0] == [];
    assert SkipMessage(id, Resolved) == "Ignoring problem " + id + " (state is 'resolved')";
  }

  /** A `ProblemHandlerError` raised while applying the resolution still
      counts the problem, and reports "Error resolving problem '<id>': <msg>". */
  lemma HandlerErrorIsCounted(id: ProblemId, p: Problem, resolution: Resolution, oracle: Oracle, message: string)
    requires p.state == Open && oracle(p, resolution) == HandlerFailed(message)
    ensures var after := Pass(PassState(map[id := p], {}, [], [], 0, None), [Request(id, resolution)], oracle);
            && after.count == 1
            && after.error == Some("Error resolving problem '" + id + "': " + message)
  {
    assert [Request(id, resolution)][..0] == [];
  }

  /** An error raised while building the handler is reported the same way
      but does not count the problem, which stays open. */
  lemma ConstructionErrorIsNotCounted(id: ProblemId, p: Problem, resolution: Resolution, oracle: Oracle, message: string)
    requires p.state == Open && oracle(p, resolution) == ConstructionFailed(message)
    ensures var after := Pass(PassState(map[id := p], {}, [], [], 0, None), [Request(id, resolution)], oracle);
            && after.count == 0
            && after.error == Some("Error resolving problem '" + id + "': " + message)
            && id in after.problems && after.problems[id].state == Open
  {
    assert [Request(id, resolution)][..0] == [];
  }

  /** Two inactive-disk problems resolved with `delete_disk` and `ignore`:
      the first disk is gone, the second is kept, both problems are closed,
      the count is 2 and there is no error. */
  lemma TwoDiskProblems(d1: DiskId, d2: DiskId, oracle: Oracle)
    requires d1 != d2
    requires forall p, res :: oracle(p, res) == Succeeded
    ensures var problems := map["1" := Problem(d1, InactiveDisk, Open), "2" := Problem(d2, InactiveDisk, Open)];
            var after := Pass(PassState(problems, {d1, d2}, [], [], 0, None),
                              [Request("1", "delete_disk"), Request("2", "ignore")], oracle);
            && after.count == 2
            && after.error == None
            && d1 !in after.disks && d2 in after.disks
            && "1" in after.problems && "2" in after.problems
            && after.problems["1"].state != Open && after.problems["2"].state != Open
  {
    var reqs := [Request("1", "delete_disk"), Request("2", "ignore")];
    assert reqs[..1] == [Request("1", "delete_disk")];
    assert reqs[..1][..0] == [];
  }

  /** The problem table, as the resolver reads and updates it. */
  class ProblemStore {
    var problems: map<ProblemId, Problem>
    var disks: set<DiskId>

    constructor (problems: map<ProblemId, Problem>, disks: set<DiskId>)
      ensures this.problems == problems && this.disks == disks
    {
      this.problems := problems;
      this.disks := disks;
    }
  }

  class ProblemResolver {
    const store: ProblemStore
    var log: seq<LogEntry>
    var remediations: seq<Request>

    constructor (store: ProblemStore)
      ensures this.store == store && log == [] && remediations == []
    {
      this.store := store;
      log := [];
      remediations := [];
    }

    /** Applies the requested resolutions and returns the number of problems
        processed and the last error message. */
    method ApplyResolutions(requests: seq<Request>, oracle: Oracle) returns (count: nat, error: Option<string>)
      modifies this, store
      ensures var after := Pass(PassState(old(store.problems), old(store.disks), old(log), old(remediations), 0, None),
                                requests, oracle);
              && store.problems == after.problems
              && store.disks == after.disks
              && log == after.log
              && remediations == after.remediations
              && count == after.count
              && error == after.error
    {
      ghost var s0 := PassState(store.problems, store.disks, log, remediations, 0, None);
      count, error := 0, None;
      var i := 0;
      while i < |requests|
        invariant 0 <= i <= |requests|
        invariant PassState(store.problems, store.disks, log, remediations, count, error) == Pass(s0, requests[..i], oracle)
      {
        var r := requests[i];
        if r.id in store.problems {
          var problem := store.problems[r.id];
          if problem.state != Open {
            log := log + [Tracked(SkipMessage(r.id, problem.state))];
          } else {
            match oracle(problem, r.resolution)
            case Succeeded =>
              remediations := remediations + [r];
              store.disks := Remedy(store.disks, problem, r.resolution);
              store.problems := store.problems[r.id := problem.(state := Resolved)];
              count := count + 1;
            case HandlerFailed(m) =>
              remediations := remediations + [r];
              log := log + [LoggedError(ErrorMessage(r.id, m))];
              error := Some(ErrorMessage(r.id, m));
              store.problems := store.problems[r.id := problem.(state := Resolved)];
              count := count + 1;
            case ConstructionFailed(m) =>
              log := log + [LoggedError(ErrorMessage(r.id, m))];
              error := Some(ErrorMessage(r.id, m));
          }
        }
        PassExtend(s0, requests, i, oracle);
        i := i + 1;
      }
      assert requests[..i] == requests;
    }
  }
}
