/**
 What a whole scenario leaves in the log: exactly the events of its committing steps, in their order and at their
 times, and answers that are statements about the log at each step.
 */
module ScenarioTheorems {
  import opened Prelude
  import opened Ledger
  import opened LedgerTheorems
  import opened LeaseTheorems
  import opened ScenarioEngine

  /** The time that has passed: the sum of the ticks. */
  function Elapsed(steps: seq<Step>): int {
    if steps == [] then 0
    else
      var last := steps[|steps| - 1];
      Elapsed(steps[..|steps| - 1]) + if last.Tick? && last.n > 0 then last.n else 0
  }

  /** The step before which the world is `w` commits its event at index `k` of the log. */
  ghost predicate CommitsAt(env: string, steps: seq<Step>, i: int, log: seq<Event>, k: int)
    requires 1 <= i <= |steps|
  {
    var w := Play(env, steps[..i - 1]);
    && Commits(steps[i - 1], Answer(env, w, steps[i - 1]))
    && 0 <= k < |log| && log[..k] == w.log && log[k] == NextEvent(env, w, steps[i - 1].req)
    && log[k].req == steps[i - 1].req && log[k].env == env && log[k].time == Elapsed(steps[..i - 1])
  }

  ghost predicate StepCommits(env: string, steps: seq<Step>, i: int)
    requires 1 <= i <= |steps|
  {
    Commits(steps[i - 1], Answer(env, Play(env, steps[..i - 1]), steps[i - 1]))
  }

  ghost predicate HasStep(w: World, k: int) {
    exists i :: i in w.stepEvents && w.stepEvents[i] == k
  }

  /** Every recorded event is the one its step committed. */
  ghost predicate EachIsCommitted(env: string, steps: seq<Step>, w: World) {
    forall i :: i in w.stepEvents ==> 1 <= i <= |steps| && CommitsAt(env, steps, i, w.log, w.stepEvents[i])
  }

  /** Every committing step has an event. */
  ghost predicate EachHasEvent(env: string, steps: seq<Step>, w: World) {
    forall i :: 1 <= i <= |steps| && StepCommits(env, steps, i) ==> i in w.stepEvents
  }

  /** Every event has a step, and the events come in the order of their steps. */
  ghost predicate InStepOrder(w: World) {
    && (forall i :: i in w.stepEvents ==> 0 <= w.stepEvents[i] < |w.log|)
    && (forall k :: 0 <= k < |w.log| ==> HasStep(w, k))
    && (forall i, j :: i in w.stepEvents && j in w.stepEvents && i < j ==> w.stepEvents[i] < w.stepEvents[j])
  }

  /** The log and the steps correspond: each committing step has its event, each event its step, in the same order. */
  ghost predicate Corresponds(env: string, steps: seq<Step>, w: World) {
    EachIsCommitted(env, steps, w) && EachHasEvent(env, steps, w) && InStepOrder(w)
  }

  lemma {:induction false} ClockIsElapsed(env: string, steps: seq<Step>)
    ensures Play(env, steps).clock == Elapsed(steps)
  {
    hide Answer;
    if steps != [] { ClockIsElapsed(env, steps[..|steps| - 1]); }
  }

  lemma EarlierStepsStay(env: string, steps: seq<Step>, past: seq<Step>, i: int, log: seq<Event>, log': seq<Event>,
                         k: int)
    requires |past| < |steps| && past == steps[..|past|] && 1 <= i <= |past| && log <= log'
    requires CommitsAt(env, past, i, log, k)
    ensures CommitsAt(env, steps, i, log', k)
  {
    hide Answer, Play, NextEvent, Elapsed;
    assert past[..i - 1] == steps[..i - 1] && past[i - 1] == steps[i - 1];
    assert log'[..k] == log[..k];
  }

  /**
   After any scenario the log holds exactly the events its steps committed: the events and the committing steps
   correspond one to one and in order, and each event is the one its step asked for, stamped with the heads of the
   log before it and with the sum of the ticks before it.
   */
  lemma {:induction false} LogIsTheScenario(env: string, steps: seq<Step>)
    ensures Corresponds(env, steps, Play(env, steps))
    decreases |steps|
  {
    if steps != [] {
      hide *;
      LogIsTheScenario(env, steps[..|steps| - 1]);
      LastStepCorresponds(env, steps);
    }
  }

  lemma LastStepCorresponds(env: string, steps: seq<Step>)
    requires steps != [] && Corresponds(env, steps[..|steps| - 1], Play(env, steps[..|steps| - 1]))
    ensures Corresponds(env, steps, Play(env, steps))
  {
    var past := steps[..|steps| - 1];
    var w, w' := Play(env, past), Play(env, steps);
    LastStep(env, steps);
    PlayedSteps(env, past);
    hide *;
    StillCommitted(env, steps, past, w, w');
    StillHasEvent(env, steps, past, w, w');
    StillInOrder(|steps|, w, w');
    CorrespondsParts(env, steps, w');
  }

  lemma CorrespondsParts(env: string, steps: seq<Step>, w: World)
    requires EachIsCommitted(env, steps, w) && EachHasEvent(env, steps, w) && InStepOrder(w)
    ensures Corresponds(env, steps, w)
  {
  }

  /** How the world after the last step extends the one before it. */
  ghost predicate Extends(env: string, steps: seq<Step>, w: World, w': World)
    requires steps != []
  {
    if StepCommits(env, steps, |steps|) then
      && |w'.log| == |w.log| + 1 && w.log <= w'.log && w'.stepEvents == w.stepEvents[|steps| := |w.log|]
      && CommitsAt(env, steps, |steps|, w'.log, |w.log|)
    else w'.log == w.log && w'.stepEvents == w.stepEvents
  }

  lemma StillCommitted(env: string, steps: seq<Step>, past: seq<Step>, w: World, w': World)
    requires steps != [] && past == steps[..|steps| - 1] && Extends(env, steps, w, w')
    requires Corresponds(env, past, w)
    ensures EachIsCommitted(env, steps, w')
  {
    hide StepCommits, CommitsAt, EachHasEvent, InStepOrder;
    forall i | i in w'.stepEvents
      ensures 1 <= i <= |steps| && CommitsAt(env, steps, i, w'.log, w'.stepEvents[i])
    {
      if i < |steps| && i in w.stepEvents {
        EarlierStepsStay(env, steps, past, i, w.log, w'.log, w.stepEvents[i]);
      }
    }
  }

  lemma StillHasEvent(env: string, steps: seq<Step>, past: seq<Step>, w: World, w': World)
    requires steps != [] && past == steps[..|steps| - 1] && Extends(env, steps, w, w')
    requires Corresponds(env, past, w)
    ensures EachHasEvent(env, steps, w')
  {
    hide StepCommits, CommitsAt, EachIsCommitted, InStepOrder;
    forall i | 1 <= i <= |steps| && StepCommits(env, steps, i)
      ensures i in w'.stepEvents
    {
      if i < |steps| { SameStep(env, steps, past, i); }
    }
  }

  lemma SameStep(env: string, steps: seq<Step>, past: seq<Step>, i: int)
    requires steps != [] && past == steps[..|steps| - 1] && 1 <= i < |steps|
    ensures StepCommits(env, steps, i) <==> StepCommits(env, past, i)
  {
    hide Answer, Play;
    assert past[..i - 1] == steps[..i - 1] && past[i - 1] == steps[i - 1];
  }

  lemma StillInOrder(n: int, w: World, w': World)
    requires InStepOrder(w) && (forall i :: i in w.stepEvents ==> i < n)
    requires (|w'.log| == |w.log| + 1 && w'.stepEvents == w.stepEvents[n := |w.log|])
      || (w'.log == w.log && w'.stepEvents == w.stepEvents)
    ensures InStepOrder(w')
  {
    forall k | 0 <= k < |w'.log|
      ensures HasStep(w', k)
    {
      if k < |w.log| {
        assert HasStep(w, k);
        var i :| i in w.stepEvents && w.stepEvents[i] == k;
        assert i in w'.stepEvents && w'.stepEvents[i] == k;
      } else {
        assert n in w'.stepEvents && w'.stepEvents[n] == k;
      }
    }
  }

  lemma LastStep(env: string, steps: seq<Step>)
    requires steps != []
    ensures Extends(env, steps, Play(env, steps[..|steps| - 1]), Play(env, steps))
  {
    hide Answer;
    ClockIsElapsed(env, steps[..|steps| - 1]);
  }

  /** The log of a scenario is lawful, and no event is ahead of the clock. */
  lemma {:induction false} PlayIsLawful(env: string, steps: seq<Step>)
    ensures var w := Play(env, steps);
      Lawful(w.log) && (w.log != [] ==> w.log[|w.log| - 1].time <= w.clock)
    decreases |steps|
  {
    hide HashOf, Commit, Fault, Fold, CasAnswer, CheckAnswer;
    if steps != [] {
      var past := steps[..|steps| - 1];
      PlayIsLawful(env, past);
      var w, step := Play(env, past), steps[|steps| - 1];
      if Commits(step, Answer(env, w, step)) {
        CommitIsLegal(env, w, step);
        LogGrows(w.log, NextEvent(env, w, step.req));
      }
    }
  }

  lemma CommitIsLegal(env: string, w: World, step: Step)
    requires Commits(step, Answer(env, w, step))
    ensures Legal(Fold(w.log), NextEvent(env, w, step.req))
  {
    hide HashOf, Fault, Fold, CasAnswer;
  }

  lemma {:induction false} CasIsConflict(w: World, expected: map<string, Ref>, caps: seq<string>)
    requires forall c :: c in caps ==> !Dangling(w, ExpectedOn(expected, c))
    ensures CasAnswer(w, expected, caps) ==
      if forall c :: c in caps ==> Names(w, Listing, ExpectedOn(expected, c), c) then Match else Mismatch
  {
    hide Names, ExpectedOn;
    if caps != [] {
      assert caps == [caps[0]] + caps[1..];
      CasIsConflict(w, expected, caps[1..]);
    }
  }

  /** A well-formed append whose references all resolve conflicts exactly when some expected head is not the newest
      event on its capability, genesis standing for a capability without events. */
  lemma ConflictIffMoved(env: string, w: World, req: Request, expected: map<string, Ref>)
    requires WellFormed(req) && forall c :: c in req.caps ==> !Dangling(w, ExpectedOn(expected, c))
    ensures AppendAnswer(env, w, req, Some(expected)) == Conflict <==>
      exists c :: c in req.caps && !Names(w, Listing, ExpectedOn(expected, c), c)
  {
    hide Fault, HashOf, Names, ExpectedOn, Fold, NextToken, Dangling;
    CasIsConflict(w, expected, req.caps);
  }

  /** The capability at `i` is the first whose expected head cannot be resolved or is not the newest event. */
  ghost predicate DecidesAt(w: World, expected: map<string, Ref>, caps: seq<string>, i: int) {
    && 0 <= i < |caps|
    && (Dangling(w, ExpectedOn(expected, caps[i])) || !Names(w, Listing, ExpectedOn(expected, caps[i]), caps[i]))
    && forall j :: 0 <= j < i ==>
      !Dangling(w, ExpectedOn(expected, caps[j])) && Names(w, Listing, ExpectedOn(expected, caps[j]), caps[j])
  }

  /** The comparison goes by the first capability in the way: a reference that does not resolve there raises, and a head
      that moved there is a conflict, whatever comes after. */
  lemma {:induction false} FirstDifferenceDecides(w: World, expected: map<string, Ref>, caps: seq<string>)
    ensures CasAnswer(w, expected, caps) == Match <==> forall i :: !DecidesAt(w, expected, caps, i)
    ensures forall i :: DecidesAt(w, expected, caps, i) ==>
      CasAnswer(w, expected, caps) == if Dangling(w, ExpectedOn(expected, caps[i])) then BadRef else Mismatch
  {
    hide Names, ExpectedOn, Dangling;
    if caps != [] {
      var rest := caps[1..];
      FirstDifferenceDecides(w, expected, rest);
      var ref := ExpectedOn(expected, caps[0]);
      if Dangling(w, ref) || !Names(w, Listing, ref, caps[0]) {
        assert DecidesAt(w, expected, caps, 0);
      } else {
        forall i
          ensures DecidesAt(w, expected, caps, i) <==> i > 0 && DecidesAt(w, expected, rest, i - 1)
        {
          assert forall j :: 0 < j < |caps| ==> caps[j] == rest[j - 1];
          assert forall j :: 0 <= j < |rest| ==> rest[j] == caps[j + 1];
        }
        if i :| DecidesAt(w, expected, rest, i) { assert DecidesAt(w, expected, caps, i + 1); }
      }
    }
  }

  /** A writer that expects nothing expects genesis: its append conflicts exactly when one of its capabilities already
      has an event. */
  lemma ExpectingNothing(env: string, w: World, req: Request)
    requires Lawful(w.log) && WellFormed(req)
    ensures AppendAnswer(env, w, req, Some(map[])) == Conflict <==>
      exists c, i :: c in req.caps && 0 <= i < |w.log| && w.log[i].Lists(c)
  {
    hide Fault, HashOf, Fold, NextToken, Lawful;
    ConflictIffMoved(env, w, req, map[]);
    forall c
      ensures Names(w, Listing, ExpectedOn(map[], c), c) <==> forall i :: 0 <= i < |w.log| ==> !w.log[i].Lists(c)
    {
      GenesisMeansNoEvent(w, c);
    }
  }

  lemma GenesisMeansNoEvent(w: World, c: string)
    requires Lawful(w.log)
    ensures Names(w, Listing, ExpectedOn(map[], c), c) <==> forall i :: 0 <= i < |w.log| ==> !w.log[i].Lists(c)
  {
    hide HashOf, Lawful;
    var k := Latest(Listing, w.log, c);
    if k >= 0 { HashExists(w.log, k); }
    forall i | 0 <= i < |w.log|
      ensures On(Listing, w.log[i], c) <==> w.log[i].Lists(c)
    {
    }
  }

  /** A check of heads is answered by the newest events, a check of decision heads by the newest decisions: an error for
      a step without an event, fresh where every head is as named, and stale otherwise. */
  lemma ChecksReadTheirHeads(env: string, w: World, want: map<string, Ref>, decisions: bool)
    requires forall i :: i in w.stepEvents ==> 0 <= w.stepEvents[i] < |w.log|
    ensures var r := Answer(env, w, if decisions then CheckDecisionHeads(want) else CheckHeads(want));
      var topic := if decisions then Deciding else Listing;
      && (r == Raised <==> exists c :: c in want && want[c].At? && want[c].step !in w.stepEvents)
      && (r == Stale <==>
            (forall c :: c in want && want[c].At? ==> want[c].step in w.stepEvents)
            && exists c :: c in want && match want[c]
              case Literal(h) => h != HeadAt(topic, w.log, c)
              case At(n) => Latest(topic, w.log, c) != w.stepEvents[n])
      && (r == Raised || r == Stale || r == Fresh)
  {
    hide HeadAt, Latest;
  }

  /** A malformed append raises: it lists no capability, has no actor, or carries a token below 1. */
  lemma MalformedRaises(env: string, w: World, req: Request, expected: Option<map<string, Ref>>)
    requires req.caps == [] || req.actor.id == "" || (req.token.Some? && req.token.value < 1)
    ensures AppendAnswer(env, w, req, expected) == Raised
  {
    hide Fault, HashOf, Fold, CasAnswer;
  }

  /** A well-formed append with nothing to compare, or all of it as expected, is refused exactly for the fault the rules
      find, and otherwise raises exactly where its event has no canonical form; a lease is granted, anything else
      done. */
  lemma RefusedForItsFault(env: string, w: World, req: Request, expected: Option<map<string, Ref>>)
    requires req.caps != [] && req.actor.id != "" && (req.token.Some? ==> req.token.value >= 1)
    requires expected.Some? ==> forall c :: c in req.caps ==>
      !Dangling(w, ExpectedOn(expected.value, c)) && Names(w, Listing, ExpectedOn(expected.value, c), c)
    ensures var r, fault := AppendAnswer(env, w, req, expected), Fault(Fold(w.log), req, w.clock);
      && (forall reason :: r == Rejected(reason) <==> fault == Some(reason))
      && (r == Raised <==> fault.None? && HashOf(NextEvent(env, w, req)).None?)
      && (r.Granted? <==> req.typ == LeaseAcquired && fault.None? && HashOf(NextEvent(env, w, req)).Some?)
      && (r == Done <==> req.typ != LeaseAcquired && fault.None? && HashOf(NextEvent(env, w, req)).Some?)
  {
    hide Fault, HashOf, Names, ExpectedOn, Fold, NextToken, Dangling;
    if expected.Some? { CasIsConflict(w, expected.value, req.caps); }
  }

  /** The token a step is granted is the one the log issues at its event. */
  lemma GrantIsIssued(env: string, steps: seq<Step>, i: int)
    requires i in Play(env, steps).stepEvents && 1 <= i <= |steps|
    requires Answer(env, Play(env, steps[..i - 1]), steps[i - 1]).Granted?
    ensures var w := Play(env, steps);
      && 0 <= w.stepEvents[i] < |w.log| && w.log[w.stepEvents[i]].Typ().LeaseAcquired?
      && Answer(env, Play(env, steps[..i - 1]), steps[i - 1]).token == Issued(w.log, w.stepEvents[i])
  {
    LogIsTheScenario(env, steps);
    hide Play, Fault, HashOf, CasAnswer, Elapsed, Fold, NextToken, CheckAnswer;
    assert EachIsCommitted(env, steps, Play(env, steps));
  }
}
