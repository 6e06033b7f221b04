/** Driving a chain of query phases.

    A continuation is the graph of the closure that makes the next phase from the
    rows of the one before; outside its domain it counts as failing.  The executor
    may answer by everything it has been asked so far.
 */
module Runtime {
  import opened Prelude

  type BindingRow = map<string, Option<string>>
  type Rows = seq<BindingRow>

  datatype Error = Failed(message: string) | CannotDriveWrite
  datatype Output =
    | Complete(sparql: string)
    | Continuation(phase1: Output, next: imap<Rows, Result<Output, string>>)
    | Write(updates: seq<string>)

  // The answer to a query asked after the given ones.
  type Executor = (seq<string>, string) -> Result<Rows, string>

  // What was asked in all, and what came of it.
  datatype Outcome = Outcome(asked: seq<string>, result: Result<Rows, Error>)

  ghost function Apply(next: imap<Rows, Result<Output, string>>, rows: Rows): Result<Output, string> {
    if rows in next then next[rows] else Err("no continuation")
  }

  ghost function Drive(output: Output, executor: Executor, asked: seq<string>): Outcome {
    match output
    case Complete(q) =>
      var answer := executor(asked, q);
      Outcome(asked + [q], if answer.Ok? then Ok(answer.value) else Err(Failed(answer.error)))
    case Continuation(phase1, next) =>
      var first := Drive(phase1, executor, asked);
      if first.result.Err? then first
      else
        var phase2 := Apply(next, first.result.value);
        if phase2.Err? then Outcome(first.asked, Err(Failed(phase2.error)))
        else
          assert output decreases to phase2.value by { assert phase2 == next[first.result.value]; }
          Drive(phase2.value, executor, first.asked)
    case Write(_) => Outcome(asked, Err(CannotDriveWrite))
  }

  // rows => Continuation(f(rows), g)
  ghost function Then(f: imap<Rows, Result<Output, string>>, g: imap<Rows, Result<Output, string>>): imap<Rows, Result<Output, string>> {
    imap rows | rows in f :: if f[rows].Ok? then Ok(Continuation(f[rows].value, g)) else f[rows]
  }

  // Phases associate: the same queries in the same order, and the same rows or error.
  lemma DriveAssociates(p: Output, f: imap<Rows, Result<Output, string>>, g: imap<Rows, Result<Output, string>>, executor: Executor, asked: seq<string>)
    ensures Drive(Continuation(Continuation(p, f), g), executor, asked) == Drive(Continuation(p, Then(f, g)), executor, asked)
  {
    var first := Drive(p, executor, asked);
    if first.result.Ok? {
      var rows := first.result.value;
      var phase2 := Apply(f, rows);
      assert Apply(Then(f, g), rows) == if phase2.Ok? then Ok(Continuation(phase2.value, g)) else phase2;
      if phase2.Ok? {
        assert Drive(Continuation(p, f), executor, asked) == Drive(phase2.value, executor, first.asked);
        assert Drive(Continuation(p, Then(f, g)), executor, asked) == Drive(Continuation(phase2.value, g), executor, first.asked);
      }
    }
  }

  // The output regrouped so that its first phase is a single query or a Write.
  ghost function Regrouped(p: Output, f: imap<Rows, Result<Output, string>>): (o: Output)
    ensures o.Continuation? && !o.phase1.Continuation?
  {
    match p
    case Continuation(p0, g) => Regrouped(p0, Then(g, f))
    case _ => Continuation(p, f)
  }

  // However deeply phases are nested to the left, the regrouped output, which can be
  // driven one phase at a time, asks the same queries and comes to the same end.
  lemma {:induction false} RegroupedDrivesAlike(p: Output, f: imap<Rows, Result<Output, string>>, executor: Executor, asked: seq<string>)
    ensures Drive(Regrouped(p, f), executor, asked) == Drive(Continuation(p, f), executor, asked)
  {
    if p.Continuation? {
      RegroupedDrivesAlike(p.phase1, Then(p.next, f), executor, asked);
      DriveAssociates(p.phase1, p.next, f, executor, asked);
    }
  }

  // Every query but the last was answered; if the last one failed, so did the run.
  ghost predicate StopsAtError(executor: Executor, asked: seq<string>, o: Outcome) {
    && |asked| <= |o.asked|
    && o.asked[..|asked|] == asked
    && (forall i :: |asked| <= i < |o.asked| - 1 ==> executor(o.asked[..i], o.asked[i]).Ok?)
    && (|o.asked| > |asked| ==>
          var last := |o.asked| - 1;
          var answer := executor(o.asked[..last], o.asked[last]);
          answer.Err? ==> o.result == Err(Failed(answer.error)))
  }

  // Nothing is asked after the first error.
  lemma {:induction false} NothingAfterError(output: Output, executor: Executor, asked: seq<string>)
    ensures StopsAtError(executor, asked, Drive(output, executor, asked))
  {
    match output {
      case Complete(q) =>
        assert (asked + [q])[..|asked|] == asked;
      case Continuation(phase1, next) =>
        var first := Drive(phase1, executor, asked);
        NothingAfterError(phase1, executor, asked);
        if first.result.Ok? {
          var phase2 := Apply(next, first.result.value);
          if phase2.Ok? {
            assert phase2 == next[first.result.value];
            NothingAfterError(phase2.value, executor, first.asked);
            StopsJoin(executor, asked, first, Drive(phase2.value, executor, first.asked));
          }
        }
      case Write(_) =>
    }
  }

  lemma StopsJoin(executor: Executor, asked: seq<string>, first: Outcome, second: Outcome)
    requires StopsAtError(executor, asked, first) && StopsAtError(executor, first.asked, second) && first.result.Ok?
    ensures StopsAtError(executor, asked, second)
  {
    var n, all := |first.asked|, second.asked;
    assert all[..|asked|] == first.asked[..|asked|];
    forall i | |asked| <= i < |all| && i < n
      ensures executor(all[..i], all[i]).Ok?
    {
      assert all[..i] == first.asked[..i] && all[i] == first.asked[i];
    }
  }

  lemma {:induction false} AskedGrows(output: Output, executor: Executor, asked: seq<string>)
    ensures var o := Drive(output, executor, asked); |asked| <= |o.asked| && asked == o.asked[..|asked|]
  {
    NothingAfterError(output, executor, asked);
  }

  // The rows returned are those of the last answer.
  lemma {:induction false} RowsAreOfLastAnswer(output: Output, executor: Executor, asked: seq<string>)
    ensures var o := Drive(output, executor, asked);
            o.result.Ok? ==> |o.asked| > |asked| && executor(o.asked[..|o.asked| - 1], o.asked[|o.asked| - 1]) == Ok(o.result.value)
  {
    match output {
      case Complete(q) =>
        var o := Drive(output, executor, asked);
        assert o.asked[..|o.asked| - 1] == asked;
      case Continuation(phase1, next) =>
        var first := Drive(phase1, executor, asked);
        if first.result.Ok? && first.result.value in next && next[first.result.value].Ok? {
          AskedGrows(phase1, executor, asked);
          RowsAreOfLastAnswer(next[first.result.value].value, executor, first.asked);
        }
      case Write(_) =>
    }
  }

  // The first query is that of the first phase.
  lemma {:induction false} FirstQueryIsAsked(output: Output, executor: Executor, asked: seq<string>)
    ensures var o := Drive(output, executor, asked);
            match FirstQuery(output)
            case Some(q) => |o.asked| > |asked| && o.asked[|asked|] == q
            case None => o.asked == asked
  {
    match output {
      case Complete(_) =>
      case Continuation(phase1, next) =>
        var first := Drive(phase1, executor, asked);
        FirstQueryIsAsked(phase1, executor, asked);
        FirstMayFail(phase1, executor, asked);
        if first.result.Ok? && first.result.value in next && next[first.result.value].Ok? {
          AskedGrows(next[first.result.value].value, executor, first.asked);
        }
      case Write(_) =>
    }
  }

  // A run that asks nothing has come to a Write.
  lemma {:induction false} FirstMayFail(output: Output, executor: Executor, asked: seq<string>)
    ensures FirstQuery(output).None? ==> Drive(output, executor, asked) == Outcome(asked, Err(CannotDriveWrite))
  {
    if output.Continuation? {
      FirstMayFail(output.phase1, executor, asked);
    }
  }

  // The query of the leftmost phase, None for a Write.
  ghost function FirstQuery(output: Output): Option<string> {
    match output
    case Complete(q) => Some(q)
    case Continuation(phase1, _) => FirstQuery(phase1)
    case Write(_) => None
  }

  // A phase is made from the rows of the one before and driven after it.
  lemma NextPhaseSeesRows(phase1: Output, next: imap<Rows, Result<Output, string>>, executor: Executor, asked: seq<string>)
    ensures var first, o := Drive(phase1, executor, asked), Drive(Continuation(phase1, next), executor, asked);
            && (first.result.Err? ==> o == first)
            && (first.result.Ok? && first.result.value in next ==>
                  match next[first.result.value]
                  case Ok(phase2) => o == Drive(phase2, executor, first.asked)
                  case Err(message) => o == Outcome(first.asked, Err(Failed(message))))
  {
  }

  // The run arrives at a Write phase.
  ghost predicate ReachesWrite(output: Output, executor: Executor, asked: seq<string>) {
    match output
    case Complete(_) => false
    case Write(_) => true
    case Continuation(phase1, next) =>
      var first := Drive(phase1, executor, asked);
      || ReachesWrite(phase1, executor, asked)
      || (first.result.Ok? && first.result.value in next && next[first.result.value].Ok?
          && ReachesWrite(next[first.result.value].value, executor, first.asked))
  }

  // A run fails for a Write exactly when it reaches one; it never returns rows then.
  lemma {:induction false} WriteIffReached(output: Output, executor: Executor, asked: seq<string>)
    ensures Drive(output, executor, asked).result == Err(CannotDriveWrite) <==> ReachesWrite(output, executor, asked)
  {
    match output {
      case Continuation(phase1, next) =>
        var first := Drive(phase1, executor, asked);
        WriteIffReached(phase1, executor, asked);
        if first.result.Ok? && first.result.value in next && next[first.result.value].Ok? {
          WriteIffReached(next[first.result.value].value, executor, first.asked);
        }
      case _ =>
    }
  }
}
