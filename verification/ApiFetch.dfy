/**
 * `apiFetch` and `getCsrfToken` of `src/hooks/useApiQuery.ts`: the client half of the idempotency
 * protocol.  The server is a script of answers, so every server is covered.
 */
module ApiFetch {
  import opened Text
  import Idempotency

  /** One mutation or read as it goes out; reads carry neither header. */
  datatype Sent = Sent(key: Option<string>, csrfToken: Option<string>)

  /** `code` is what `normalizeApiError` extracts from the body; `Rejected` is a `fetch` that throws. */
  datatype Answer = Answer(status: int, code: string) | Rejected

  datatype Result = Success(status: int) | ApiError(code: string) | NetworkError

  predicate OkStatus(status: int) { 200 <= status <= 299 }

  /** The server asks for a fresh CSRF token. */
  predicate CsrfRefused(a: Answer) { a == Answer(403, "CSRF_INVALID") }

  /** What minting a token answers, and what is left to answer. */
  function Minted(mints: seq<Option<string>>): Option<string> { if mints == [] then None else mints[0] }

  function Rest(mints: seq<Option<string>>): seq<Option<string>> { if mints == [] then [] else mints[1..] }

  /** An empty token is kept but not sent. */
  function Header(token: Option<string>): Option<string> { if token == Some("") then None else token }

  /** What `fetch` answers next; nothing left is a network that fails. */
  function NextAnswer(script: seq<Answer>): Answer { if script == [] then Rejected else script[0] }

  function AfterNext(script: seq<Answer>): seq<Answer> { if script == [] then [] else script[1..] }

  /** What one call appends to the log: one request, or two when the first was refused for its token. */
  predicate CallLog(isMutation: bool, key: Option<string>, sent: seq<Sent>, answers: seq<Answer>) {
    && 1 <= |sent| == |answers| <= 2
    && (forall i | 0 <= i < |sent| :: sent[i].key == key)
    && (|sent| == 2 ==> isMutation && CsrfRefused(answers[0]))
  }

  class Client {
    /** The resolved `csrfTokenPromise`; a failed mint is not kept. */
    var csrfToken: Option<string>
    /** Every request sent, oldest first, and what came back. */
    var sent: seq<Sent>
    var answers: seq<Answer>
    /** The server's future answers to requests and to GET /api/csrf. */
    var script: seq<Answer>
    var mints: seq<Option<string>>

    ghost predicate Valid()
      reads this
    {
      |sent| == |answers|
    }

    /** The kept token, or a newly minted one. */
    method GetCsrfToken() returns (token: Option<string>)
      modifies this`csrfToken, this`mints
      ensures token == csrfToken == if old(csrfToken).Some? then old(csrfToken) else Minted(old(mints))
      ensures old(csrfToken) == None && old(mints) != [] ==> token == old(mints)[0] && mints == old(mints)[1..]
      ensures mints == if old(csrfToken).Some? then old(mints) else Rest(old(mints))
    {
      if csrfToken.None? && mints != [] {
        csrfToken := mints[0];
        mints := mints[1..];
      }
      token := csrfToken;
    }

    method Fetch(request: Sent) returns (answer: Answer)
      requires Valid()
      modifies this`sent, this`answers, this`script
      ensures Valid()
      ensures sent == old(sent) + [request] && answers == old(answers) + [answer]
      ensures answer == NextAnswer(old(script)) && script == AfterNext(old(script))
    {
      answer := Rejected;
      if script != [] {
        answer := script[0];
        script := script[1..];
      }
      sent, answers := sent + [request], answers + [answer];
    }

    /**
     * One call: `supplied` is a caller's own `Idempotency-Key` header, `drawn` the key drawn
     * otherwise.  A refused mutation is sent again with the token minted after the refusal.
     */
    method Call(isMutation: bool, supplied: Option<string>, drawn: string) returns (result: Result)
      requires Valid()
      modifies this
      ensures Valid()
      ensures old(sent) <= sent && old(answers) <= answers
      ensures var key := if supplied.Some? then supplied else if isMutation then Some(drawn) else None;
              && CallLog(isMutation, key, sent[|old(sent)|..], answers[|old(answers)|..])
              && forall i :: |old(sent)| <= i < |sent| ==> sent[i].key == key
      ensures var n := |old(sent)|;
              var token := if !isMutation then None
                           else if old(csrfToken).Some? then old(csrfToken) else Minted(old(mints));
              var later := if isMutation && old(csrfToken).None? then Rest(old(mints)) else old(mints);
              var refused := isMutation && answers[n] == Answer(403, "CSRF_INVALID");
              && sent[n].csrfToken == (if token == Some("") then None else token)
              && (|sent| == n + 2 <==> refused && Minted(later) != None && Minted(later) != Some(""))
              && (|sent| == n + 2 ==> sent[n + 1].csrfToken == Minted(later))
              && csrfToken == (if refused then Minted(later) else if isMutation then token else old(csrfToken))
              && mints == (if refused then Rest(later) else later)
      ensures var n := |old(sent)|;
              && answers[n] == NextAnswer(old(script))
              && (|sent| == n + 2 ==> answers[n + 1] == NextAnswer(AfterNext(old(script))))
      ensures result == Read(answers[|answers| - 1])
      ensures match answers[|answers| - 1]
              case Rejected => result == NetworkError
              case Answer(status, code) =>
                result == if 200 <= status <= 299 then Success(status) else ApiError(code)
    {
      var key := supplied;
      var token: Option<string> := None;
      if isMutation {
        if key.None? { key := Some(drawn); }
        token := GetCsrfToken();
      }
      var answer := Fetch(Sent(key, Header(token)));
      if answer.Answer? && answer.status == 403 && isMutation {
        if answer.code == "CSRF_INVALID" {
          csrfToken := None;
          token := GetCsrfToken();
          if Header(token).Some? {
            answer := Fetch(Sent(key, token));
          }
        }
      }
      result := Read(answer);
    }
  }

  function Read(a: Answer): Result {
    match a
    case Rejected => NetworkError
    case Answer(status, code) => if OkStatus(status) then Success(status) else ApiError(code)
  }

  // ---------------------------------------------------------------- together with the server

  /**
   * The server is done with request `r` and has answered `a`: the route refused it before the claim,
   * or `withIdempotency` replied.
   */
  predicate Answered(s: Idempotency.State, r: Idempotency.Id, a: Answer) {
    a.Answer? &&
    match Idempotency.PhaseOf(s, r)
    case Fresh => !OkStatus(a.status)
    case Done(Own(response)) => a.status == response.status
    case Done(Replay(_)) => a.status == 409
    case Done(InProgress) => a.status == 409
    case Done(Thrown) => !OkStatus(a.status)
    case _ => false
  }

  /** A replayed or still running mutation reaches the caller as an error, not as a success. */
  lemma DuplicateIsReported(s: Idempotency.State, r: Idempotency.Id, a: Answer)
    requires Answered(s, r, a) && Idempotency.PhaseOf(s, r).Done?
    requires Idempotency.PhaseOf(s, r).reply.Replay? || Idempotency.PhaseOf(s, r).reply.InProgress?
    ensures a.Answer? && a.status == 409 && Read(a) == ApiError(a.code)
  {}

  /**
   * A run of the protocol for a log of requests with one key, request `i` being the `i`th of the log.
   * A request can reach the server only after the answers to those before it have been given, as far
   * as they were given at all: one whose `fetch` failed may still be on its way or running.
   */
  ghost predicate LogRun(s: Idempotency.State, steps: seq<Idempotency.Step>, t: Idempotency.State, answers: seq<Answer>)
    decreases |steps|
  {
    if steps == [] then s == t
    else
      && Idempotency.Enabled(s, steps[0])
      && (steps[0].Probe? ==> Arrives(s, steps[0].r, answers))
      && (steps[0].BrokerFails? && Idempotency.PhaseOf(s, steps[0].r).Fresh? ==> Arrives(s, steps[0].r, answers))
      && LogRun(Idempotency.Apply(s, steps[0]), steps[1..], t, answers)
  }

  ghost predicate Arrives(s: Idempotency.State, i: Idempotency.Id, answers: seq<Answer>) {
    && i < |answers|
    && (forall j: nat :: j < i && answers[j].Answer? ==> Answered(s, j, answers[j]))
    && (answers[i].Answer? ==> forall j: nat :: i < j ==> Idempotency.PhaseOf(s, j).Fresh?)
  }

  // ---------------------------------------------------------------- one call

  /** Once the second request is there, the first is over, and it was not committed. */
  ghost predicate OneCallInvariant(s: Idempotency.State, answers: seq<Answer>) {
    && (forall r: nat :: r >= |answers| ==> Idempotency.PhaseOf(s, r).Fresh?)
    && (!Idempotency.PhaseOf(s, 1).Fresh? ==> Idempotency.Idle(s, 0) && !Idempotency.Committed(s, 0))
  }

  lemma OneCallStep(s: Idempotency.State, step: Idempotency.Step, answers: seq<Answer>)
    requires OneCallInvariant(s, answers) && Idempotency.Enabled(s, step)
    requires 1 <= |answers| <= 2 && (|answers| == 2 ==> CsrfRefused(answers[0]))
    requires step.Probe? || (step.BrokerFails? && Idempotency.PhaseOf(s, step.r).Fresh?) ==> Arrives(s, step.r, answers)
    ensures OneCallInvariant(Idempotency.Apply(s, step), answers)
  {
    var t := Idempotency.Apply(s, step);
    if step.Tick? {
      assert forall r :: Idempotency.PhaseOf(t, r) == Idempotency.PhaseOf(s, r);
    } else {
      assert forall r | r != step.r :: Idempotency.PhaseOf(t, r) == Idempotency.PhaseOf(s, r);
      assert Idempotency.PhaseOf(s, step.r).Fresh? ==> step.Probe? || step.BrokerFails?;
    }
  }

  lemma {:induction false} OneCallRun(s: Idempotency.State, steps: seq<Idempotency.Step>, t: Idempotency.State,
                                      answers: seq<Answer>)
    requires OneCallInvariant(s, answers) && LogRun(s, steps, t, answers)
    requires 1 <= |answers| <= 2 && (|answers| == 2 ==> CsrfRefused(answers[0]))
    ensures OneCallInvariant(t, answers)
    decreases |steps|
  {
    if steps != [] {
      OneCallStep(s, steps[0], answers);
      OneCallRun(Idempotency.Apply(s, steps[0]), steps[1..], t, answers);
    }
  }

  /**
   * One call commits at most once, whatever the server and the broker do, broker failures, expired
   * leases and a first request that runs on after its `fetch` failed included; and a call that reports
   * success reports the commit.
   */
  lemma OneCallCommitsOnce(isMutation: bool, key: Option<string>, sent: seq<Sent>, answers: seq<Answer>,
                           steps: seq<Idempotency.Step>, t: Idempotency.State, p: Idempotency.Id, q: Idempotency.Id)
    requires CallLog(isMutation, key, sent, answers) && LogRun(Idempotency.Initial, steps, t, answers)
    ensures Idempotency.Committed(t, p) && Idempotency.Committed(t, q) ==> p == q
    ensures forall last: nat | last == |answers| - 1 ::
              Read(answers[last]).Success? && Answered(t, last, answers[last]) ==> Idempotency.Committed(t, last)
  {
    OneCallRun(Idempotency.Initial, steps, t, answers);
  }

  // ---------------------------------------------------------------- several calls with one key

  /** Every request but the last has an answer before the next one is sent. */
  predicate AnsweredInTurn(answers: seq<Answer>) {
    forall i :: 0 <= i < |answers| - 1 ==> answers[i].Answer?
  }

  /** A run in which the broker answers, successes have JSON bodies, and no response outlives its lifetime. */
  ghost predicate Calm(s: Idempotency.State, steps: seq<Idempotency.Step>)
    decreases |steps|
  {
    if steps == [] then true
    else
      && Idempotency.Enabled(s, steps[0])
      && !steps[0].BrokerFails?
      && (steps[0].Probe? ==> s.stored.Some? ==> Idempotency.Remembered(s))
      && (steps[0].Handle? && steps[0].outcome.Returned? ==> steps[0].outcome.json)
      && Calm(Idempotency.Apply(s, steps[0]), steps[1..])
  }

  ghost predicate NothingBeyond(s: Idempotency.State, answers: seq<Answer>) {
    forall r: nat :: r >= |answers| ==> Idempotency.PhaseOf(s, r).Fresh?
  }

  lemma NothingBeyondStep(s: Idempotency.State, step: Idempotency.Step, answers: seq<Answer>)
    requires NothingBeyond(s, answers) && Idempotency.Enabled(s, step) && !step.BrokerFails?
    requires step.Probe? ==> step.r < |answers|
    ensures NothingBeyond(Idempotency.Apply(s, step), answers)
  {
    var t := Idempotency.Apply(s, step);
    forall r: nat | r >= |answers| ensures Idempotency.PhaseOf(t, r).Fresh? {
      assert Idempotency.PhaseOf(s, r).Fresh?;
    }
  }

  lemma ArrivesToIdle(s: Idempotency.State, i: Idempotency.Id, answers: seq<Answer>)
    requires AnsweredInTurn(answers) && NothingBeyond(s, answers) && Arrives(s, i, answers)
    requires Idempotency.PhaseOf(s, i).Fresh?
    ensures forall r: Idempotency.Id :: Idempotency.Idle(s, r)
  {
    forall r: Idempotency.Id ensures Idempotency.Idle(s, r) {
      if r < i { assert Answered(s, r, answers[r]); }
    }
  }

  /** Requests that are sent one after an answer to the other reach the server one at a time. */
  lemma {:induction false} LogIsSerial(s: Idempotency.State, steps: seq<Idempotency.Step>, t: Idempotency.State,
                                       answers: seq<Answer>)
    requires AnsweredInTurn(answers) && NothingBeyond(s, answers) && LogRun(s, steps, t, answers) && Calm(s, steps)
    ensures Idempotency.Serial(s, steps, t)
    decreases |steps|
  {
    if steps != [] {
      if steps[0].Probe? { ArrivesToIdle(s, steps[0].r, answers); }
      NothingBeyondStep(s, steps[0], answers);
      LogIsSerial(Idempotency.Apply(s, steps[0]), steps[1..], t, answers);
    }
  }

  /** What one call has sent and what came back. */
  datatype Log = Log(sent: seq<Sent>, answers: seq<Answer>)

  /** Calls of one mutation with one key, each made after the one before it had ended with an answer. */
  predicate RetriedCalls(key: string, calls: seq<Log>) {
    && (forall i :: 0 <= i < |calls| ==> CallLog(true, Some(key), calls[i].sent, calls[i].answers))
    && (forall i :: 0 <= i < |calls| - 1 ==> EndsAnswered(calls[i].answers))
  }

  predicate EndsAnswered(answers: seq<Answer>) { answers != [] && answers[|answers| - 1].Answer? }

  /** The answers to all their requests, in the order in which these were sent. */
  function AllAnswers(calls: seq<Log>): seq<Answer> {
    if calls == [] then [] else calls[0].answers + AllAnswers(calls[1..])
  }

  lemma AnsweredThen(answers: seq<Answer>, later: seq<Answer>)
    requires AnsweredInTurn(answers) && EndsAnswered(answers) && AnsweredInTurn(later)
    ensures AnsweredInTurn(answers + later)
  {}

  /** Also within a call: a second request is sent only after the first was refused. */
  lemma {:induction false} RetriedCallsAnsweredInTurn(key: string, calls: seq<Log>)
    requires RetriedCalls(key, calls)
    ensures AnsweredInTurn(AllAnswers(calls))
  {
    if |calls| == 1 {
      assert AllAnswers(calls) == calls[0].answers + AllAnswers([]) == calls[0].answers;
    } else if |calls| > 1 {
      RetriedCallsAnsweredInTurn(key, calls[1..]);
      AnsweredThen(calls[0].answers, AllAnswers(calls[1..]));
    }
  }

  /** Calls repeated with one key commit at most once, if each but the last ended with an answer. */
  lemma RetriedCallsCommitOnce(key: string, calls: seq<Log>, steps: seq<Idempotency.Step>, t: Idempotency.State,
                               p: Idempotency.Id, q: Idempotency.Id)
    requires RetriedCalls(key, calls)
    requires LogRun(Idempotency.Initial, steps, t, AllAnswers(calls)) && Calm(Idempotency.Initial, steps)
    requires Idempotency.Committed(t, p) && Idempotency.Committed(t, q)
    ensures p == q
  {
    RetriedCallsAnsweredInTurn(key, calls);
    LogIsSerial(Idempotency.Initial, steps, t, AllAnswers(calls));
    Idempotency.SerialRetriesCommitOnce(steps, t, p, q);
  }

  lemma {:induction false} OrderlyLogRun(s: Idempotency.State, steps: seq<Idempotency.Step>, t: Idempotency.State,
                                         answers: seq<Answer>)
    requires Idempotency.Orderly(s, steps, t) && Idempotency.ProbesBelow(steps, 2)
    requires |answers| == 2 && answers[0].Rejected? && NothingBeyond(s, answers)
    ensures LogRun(s, steps, t, answers)
    decreases |steps|
  {
    if steps != [] {
      NothingBeyondStep(s, steps[0], answers);
      OrderlyLogRun(Idempotency.Apply(s, steps[0]), steps[1..], t, answers);
    }
  }

  /**
   * The condition is needed: a call whose request got no answer, repeated with the same key, can
   * commit twice although the broker answers and every lease outlasts its handler.
   */
  lemma RetryWithoutAnswerCommitsTwice(first: Idempotency.Response, second: Idempotency.Response)
    requires Idempotency.Ok(first) && Idempotency.Ok(second)
    ensures exists steps, t ::
              && LogRun(Idempotency.Initial, steps, t, [Rejected, Answer(second.status, "")])
              && Idempotency.Committed(t, 0) && Idempotency.Committed(t, 1)
  {
    Idempotency.TwoCommitsWithOneKey(first, second);
    var steps, t :|
      && Idempotency.Orderly(Idempotency.Initial, steps, t) && Idempotency.ProbesBelow(steps, 2)
      && Idempotency.Committed(t, 0) && Idempotency.Committed(t, 1)
      && t.stored.Some? && t.stored.value.response == second;
    OrderlyLogRun(Idempotency.Initial, steps, t, [Rejected, Answer(second.status, "")]);
  }
}
