/**
 * The decision logic of `main`'s `while True` loop. Each round hears one
 * utterance and picks an intent by substring tests on its lower-cased text,
 * `create task` first, then `retrieve tasks`, then `exit`. For the first two
 * it hears one more utterance, the request that goes to the language model:
 * a task extracted from a create request is saved with `save_task`, and the
 * reply to a retrieve request passes `ensure_valid_query` before it is run.
 * Neither call is inside a `try`, so when `save_task` fails on an unresolved
 * due date, or the gate rejects the reply's type, the exception ends `main`.
 *
 * The recogniser's results are a stream of inputs, where `None` stands for
 * speech that was not understood; the two language-model chains are
 * functions of the request text.
 */
module Dispatch {
  import opened Wrappers
  import opened Text
  import opened Query
  import opened DueDate
  import opened TaskRow

  datatype Intent = CreateTask | RetrieveTasks | Exit | NotUnderstood

  /** `create_chain` (request to extracted task) and `retrieve_chain` (request
      to the model's reply). */
  datatype Chains = Chains(create: string -> Task, retrieve: string -> Message)

  /** What one round of the loop does. */
  datatype Action =
    | Unheard                        // the intent was not recognised: `continue`
    | RequestUnheard(intent: Intent) // the follow-up request was not recognised: `continue`
    | Saved(row: Row)                // `save_task` inserted this row
    | SaveFailed(request: string)    // `save_task` raised: `main` ends
    | Retrieved(query: string)       // the statement handed to `retrieve_tasks`
    | QueryRejected(request: string) // `ensure_valid_query` raised: `main` ends
    | Quit                           // `break`
    | Apologize                      // "Sorry, I didn't understand."

  /** The actions after which `main` is over. */
  predicate Ends(a: Action) {
    a.Quit? || a.SaveFailed? || a.QueryRejected?
  }

  /** The prioritised substring classifier of `main`. */
  function ClassifyIntent(u: string): (r: Intent)
    ensures r == CreateTask <==> Contains(u, "create task")
    ensures r == RetrieveTasks <==> !Contains(u, "create task") && Contains(u, "retrieve tasks")
    ensures r == Exit <==>
      !Contains(u, "create task") && !Contains(u, "retrieve tasks") && Contains(u, "exit")
    ensures r == NotUnderstood <==>
      !Contains(u, "create task") && !Contains(u, "retrieve tasks") && !Contains(u, "exit")
  {
    if Contains(u, "create task") then CreateTask
    else if Contains(u, "retrieve tasks") then RetrieveTasks
    else if Contains(u, "exit") then Exit
    else NotUnderstood
  }

  /** Lower-casing the text does not change an occurrence test. */
  lemma ContainsLower(s: string, w: string)
    ensures Contains(Lower(s), w) <==> Contains(s, w)
  {
    ContainsIff(Lower(s), w);
    ContainsIff(s, w);
    if Contains(s, w) {
      var i :| MatchesAt(s, i, w);
      MatchesAtLower(s, i, w);
    }
    if Contains(Lower(s), w) {
      var i :| MatchesAt(Lower(s), i, w);
      MatchesAtLower(s, i, w);
    }
  }

  /** The classifier ignores ASCII case. */
  lemma ClassifyIgnoresCase(u: string)
    ensures ClassifyIntent(Lower(u)) == ClassifyIntent(u)
  {
    ContainsLower(u, "create task");
    ContainsLower(u, "retrieve tasks");
    ContainsLower(u, "exit");
  }

  /** A word without capital letters occurs in itself. */
  lemma ContainsItself(w: string)
    requires forall k :: 0 <= k < |w| ==> !('A' <= w[k] <= 'Z')
    ensures Contains(w, w)
  {
    MatchesAtChars(w, 0, w);
    ContainsIff(w, w);
  }

  /** `create task` anywhere in the utterance selects task creation, whatever
      else it says (even `exit` or `retrieve tasks`). */
  lemma CreateTaskWins(a: string, b: string)
    ensures ClassifyIntent(a + "create task" + b) == CreateTask
  {
    ContainsItself("create task");
    ContainsInContext(a, "create task", b, "create task");
  }

  /** `retrieve tasks` anywhere selects retrieval unless `create task` occurs too. */
  lemma RetrieveTasksWins(a: string, b: string)
    requires !Contains(a + "retrieve tasks" + b, "create task")
    ensures ClassifyIntent(a + "retrieve tasks" + b) == RetrieveTasks
  {
    ContainsItself("retrieve tasks");
    ContainsInContext(a, "retrieve tasks", b, "retrieve tasks");
  }

  /** What a heard request leads to: for a create request, the row `save_task`
      inserts for the extracted task, or its failure; for a retrieve request,
      the statement the gate lets through, or its rejection. */
  function Handle(intent: Intent, request: string, chains: Chains): (a: Action)
    ensures intent == CreateTask ==> a.Saved? || a == SaveFailed(request)
    ensures intent != CreateTask ==> a.Retrieved? || a == QueryRejected(request)
    ensures a.Saved? ==> SaveTaskRow(chains.create(request)) == Success(a.row)
    ensures a.SaveFailed? <==> intent == CreateTask && ParseDueDateAndTime(chains.create(request)).None?
    ensures a.Retrieved? ==> EnsureValidQuery(chains.retrieve(request)) == Success(a.query)
    ensures a.QueryRejected? <==> intent != CreateTask && chains.retrieve(request).OtherValue?
  {
    if intent == CreateTask then
      match SaveTaskRow(chains.create(request))
      case Success(row) => Saved(row)
      case Failure(_) => SaveFailed(request)
    else
      match EnsureValidQuery(chains.retrieve(request))
      case Success(query) => Retrieved(query)
      case Failure(_) => QueryRejected(request)
  }

  /** How the body of a `create task` or `retrieve tasks` branch answers a
      heard request. */
  type Responder = (Intent, string) -> Action

  function Respond(chains: Chains): Responder {
    (intent: Intent, request: string) => Handle(intent, request, chains)
  }

  /** The actions of the rounds that start at input `i`, with `respond`
      answering the requests. The loop stops after `exit` or an uncaught
      exception, or when the inputs run out (also in the middle of a round). */
  function SessionFrom(inputs: seq<Option<string>>, respond: Responder, i: nat): (r: seq<Action>)
    requires i <= |inputs|
    ensures |r| <= |inputs| - i
    decreases |inputs| - i
  {
    if i == |inputs| then []
    else match inputs[i]
      case None => [Unheard] + SessionFrom(inputs, respond, i + 1)
      case Some(u) =>
        match ClassifyIntent(u)
        case Exit => [Quit]
        case NotUnderstood => [Apologize] + SessionFrom(inputs, respond, i + 1)
        case intent =>
          if i + 1 == |inputs| then []
          else match inputs[i + 1]
            case None => [RequestUnheard(intent)] + SessionFrom(inputs, respond, i + 2)
            case Some(f) =>
              var a := respond(intent, f);
              if Ends(a) then [a] else [a] + SessionFrom(inputs, respond, i + 2)
  }

  /** The actions of a whole run of `main`. */
  function Session(inputs: seq<Option<string>>, chains: Chains): (r: seq<Action>)
    ensures |r| <= |inputs|
  {
    SessionFrom(inputs, Respond(chains), 0)
  }

  /** The loop of `main`, run over a finite stream of recognised utterances. */
  method RunSession(inputs: seq<Option<string>>, chains: Chains) returns (actions: seq<Action>)
    ensures actions == Session(inputs, chains)
  {
    actions := RunLoop(inputs, Respond(chains));
  }

  /** The `while True` loop itself, with `respond` for the request handling. */
  method RunLoop(inputs: seq<Option<string>>, respond: Responder) returns (actions: seq<Action>)
    ensures actions == SessionFrom(inputs, respond, 0)
  {
    actions := [];
    var i := 0;
    while i < |inputs|
      invariant i <= |inputs|
      invariant actions + SessionFrom(inputs, respond, i) == SessionFrom(inputs, respond, 0)
      decreases |inputs| - i
    {
      var heard := inputs[i];
      if heard.None? {
        Regroup(actions, Unheard, SessionFrom(inputs, respond, i + 1), SessionFrom(inputs, respond, 0));
        actions := actions + [Unheard];
        i := i + 1;
      } else {
        var intent := ClassifyIntent(heard.value);
        if intent == Exit {
          actions := actions + [Quit];
          return;
        } else if intent == NotUnderstood {
          Regroup(actions, Apologize, SessionFrom(inputs, respond, i + 1), SessionFrom(inputs, respond, 0));
          actions := actions + [Apologize];
          i := i + 1;
        } else if i + 1 == |inputs| {
          return;
        } else {
          var request := inputs[i + 1];
          if request.None? {
            Regroup(actions, RequestUnheard(intent), SessionFrom(inputs, respond, i + 2), SessionFrom(inputs, respond, 0));
            actions := actions + [RequestUnheard(intent)];
            i := i + 2;
          } else {
            var act := respond(intent, request.value);
            if Ends(act) {
              actions := actions + [act];
              return;
            }
            Regroup(actions, act, SessionFrom(inputs, respond, i + 2), SessionFrom(inputs, respond, 0));
            actions := actions + [act];
            i := i + 2;
          }
        }
      }
    }
  }

  /** Moving one action from the rest of the session to the actions done so far. */
  lemma Regroup(done: seq<Action>, a: Action, rest: seq<Action>, total: seq<Action>)
    requires done + ([a] + rest) == total
    ensures (done + [a]) + rest == total
  {
    assert (done + [a]) + rest == done + ([a] + rest);
  }

  /** The session is over after `exit` or an exception: such an action can
      only be the last one. */
  lemma {:induction false} EndIsLast(inputs: seq<Option<string>>, respond: Responder, i: nat)
    requires i <= |inputs|
    ensures forall k :: 0 <= k < |SessionFrom(inputs, respond, i)| - 1 ==> !Ends(SessionFrom(inputs, respond, i)[k])
    decreases |inputs| - i
  {
    if i < |inputs| {
      var r := SessionFrom(inputs, respond, i);
      var next := if inputs[i].None? || ClassifyIntent(inputs[i].value) == NotUnderstood then i + 1 else i + 2;
      if |r| > 1 {
        EndIsLast(inputs, respond, next);
        var rest := SessionFrom(inputs, respond, next);
        assert r == [r[0]] + rest && !Ends(r[0]);
        forall k | 0 <= k < |r| - 1 ensures !Ends(r[k]) {
          if k > 0 {
            assert r[k] == rest[k - 1];
          }
        }
      }
    }
  }

  /** Every action of a session is a fixed reaction of the loop or the answer
      to some request. */
  lemma {:induction false} ActionsAnswer(inputs: seq<Option<string>>, respond: Responder, i: nat)
    requires i <= |inputs|
    ensures forall a :: a in SessionFrom(inputs, respond, i) ==>
      a in [Unheard, Quit, Apologize] || a.RequestUnheard? || exists intent, f :: a == respond(intent, f)
    decreases |inputs| - i
  {
    if i < |inputs| {
      var r := SessionFrom(inputs, respond, i);
      var next := if inputs[i].None? || ClassifyIntent(inputs[i].value) == NotUnderstood then i + 1 else i + 2;
      if |r| > 0 {
        if |r| > 1 {
          ActionsAnswer(inputs, respond, next);
          assert r == [r[0]] + SessionFrom(inputs, respond, next);
        }
        if inputs[i].Some? && ClassifyIntent(inputs[i].value) !in {Exit, NotUnderstood} && inputs[i + 1].Some? {
          assert r[0] == respond(ClassifyIntent(inputs[i].value), inputs[i + 1].value);
        }
      }
    }
  }

  /** Every statement a run of `main` executes passed the gate: it starts with
      `select` and ends with `;`; and every row it saves holds a due date that
      reads back as a date and time. */
  lemma ActionsWellFormed(inputs: seq<Option<string>>, chains: Chains)
    ensures forall a :: a in Session(inputs, chains) && a.Retrieved? ==> IsTerminatedSelect(a.query)
    ensures forall a :: a in Session(inputs, chains) && a.Saved? ==>
      |a.row.dueDate| == 19 && Calendar.ParseTimestamp(a.row.dueDate).Some?
  {
    ActionsAnswer(inputs, Respond(chains), 0);
    forall a | a in Session(inputs, chains) && (a.Retrieved? || a.Saved?)
      ensures a.Retrieved? ==> IsTerminatedSelect(a.query)
      ensures a.Saved? ==> |a.row.dueDate| == 19 && Calendar.ParseTimestamp(a.row.dueDate).Some?
    {
      var intent, f :| a == Respond(chains)(intent, f);
      assert a == Handle(intent, f, chains);
    }
  }

  /** The session from input `i` depends only on the inputs from `i` on. */
  lemma {:induction false} SessionFromSuffix(inputs: seq<Option<string>>, respond: Responder, i: nat)
    requires i <= |inputs|
    ensures SessionFrom(inputs, respond, i) == SessionFrom(inputs[i..], respond, 0)
    decreases |inputs| - i
  {
    var t := inputs[i..];
    if i < |inputs| {
      assert t[0] == inputs[i];
      if i + 1 < |inputs| {
        assert t[1] == inputs[i + 1];
      }
      SessionFromSuffix(inputs, respond, i + 1);
      SessionFromSuffix(t, respond, 1);
      assert t[1..] == inputs[i + 1..];
      if i + 2 <= |inputs| {
        SessionFromSuffix(inputs, respond, i + 2);
        SessionFromSuffix(t, respond, 2);
        assert t[2..] == inputs[i + 2..];
      }
    }
  }

  /** An utterance that was not recognised is skipped: the loop starts over. */
  lemma UnheardSkipped(rest: seq<Option<string>>, chains: Chains)
    ensures Session([None] + rest, chains) == [Unheard] + Session(rest, chains)
  {
    SessionFromSuffix([None] + rest, Respond(chains), 1);
    assert ([None] + rest)[1..] == rest;
  }

  /** An utterance classified `exit` ends the run: nothing after it is heard. */
  lemma ExitQuits(u: string, rest: seq<Option<string>>, chains: Chains)
    requires ClassifyIntent(u) == Exit
    ensures Session([Some(u)] + rest, chains) == [Quit]
  {
    assert ([Some(u)] + rest)[0] == Some(u);
  }

  /** An utterance that names no command is apologised for, and the loop
      starts over with the next utterance. */
  lemma NotUnderstoodApologizes(u: string, rest: seq<Option<string>>, chains: Chains)
    requires ClassifyIntent(u) == NotUnderstood
    ensures Session([Some(u)] + rest, chains) == [Apologize] + Session(rest, chains)
  {
    var s := [Some(u)] + rest;
    SessionFromSuffix(s, Respond(chains), 1);
    assert s[1..] == rest;
  }

  /** A follow-up request that was not recognised skips the command: nothing
      is saved or retrieved, and the loop starts over. */
  lemma FollowUpUnheard(u: string, rest: seq<Option<string>>, chains: Chains)
    requires ClassifyIntent(u) == CreateTask || ClassifyIntent(u) == RetrieveTasks
    ensures Session([Some(u), None] + rest, chains) == [RequestUnheard(ClassifyIntent(u))] + Session(rest, chains)
  {
    var s := [Some(u), None] + rest;
    SessionFromSuffix(s, Respond(chains), 2);
    assert s[2..] == rest;
  }

  /** The request after `create task` or `retrieve tasks` is handed to the
      language model as it is, never classified, even when it says `exit`;
      the session goes on unless handling it raised. */
  lemma RequestNotClassified(u: string, f: string, rest: seq<Option<string>>, chains: Chains)
    requires ClassifyIntent(u) == CreateTask || ClassifyIntent(u) == RetrieveTasks
    ensures var a := Handle(ClassifyIntent(u), f, chains);
      Session([Some(u), Some(f)] + rest, chains) == if Ends(a) then [a] else [a] + Session(rest, chains)
  {
    var s := [Some(u), Some(f)] + rest;
    SessionFromSuffix(s, Respond(chains), 2);
    assert s[2..] == rest;
  }

  /** A created task whose due date does not resolve ends the program: the
      failing `save_task` writes nothing, and later utterances are never heard. */
  lemma UnresolvedDueDateEndsSession(u: string, f: string, rest: seq<Option<string>>, chains: Chains)
    requires ClassifyIntent(u) == CreateTask
    requires ParseDueDateAndTime(chains.create(f)).None?
    ensures Session([Some(u), Some(f)] + rest, chains) == [SaveFailed(f)]
  {
    var s := [Some(u), Some(f)] + rest;
    assert s[0] == Some(u) && s[1] == Some(f);
  }

  /** A created task whose due date resolves is saved, and the loop goes on. */
  lemma ResolvedTaskSaved(u: string, f: string, rest: seq<Option<string>>, chains: Chains)
    requires ClassifyIntent(u) == CreateTask
    requires ParseDueDateAndTime(chains.create(f)).Some?
    ensures Session([Some(u), Some(f)] + rest, chains)
         == [Saved(SaveTaskRow(chains.create(f)).value)] + Session(rest, chains)
  {
    RequestNotClassified(u, f, rest, chains);
  }

  /** After the session is over, later inputs change nothing. */
  lemma {:induction false} EndedSessionIgnoresMore(inputs: seq<Option<string>>, more: seq<Option<string>>, respond: Responder, i: nat)
    requires i <= |inputs|
    requires exists a :: a in SessionFrom(inputs, respond, i) && Ends(a)
    ensures SessionFrom(inputs + more, respond, i) == SessionFrom(inputs, respond, i)
    decreases |inputs| - i
  {
    var s := inputs + more;
    assert s[i] == inputs[i];
    if i + 1 < |inputs| {
      assert s[i + 1] == inputs[i + 1];
    }
    match inputs[i]
    case None =>
      EndedSessionIgnoresMore(inputs, more, respond, i + 1);
    case Some(u) =>
      match ClassifyIntent(u)
      case Exit =>
      case NotUnderstood =>
        EndedSessionIgnoresMore(inputs, more, respond, i + 1);
      case intent =>
        if inputs[i + 1].None? || !Ends(respond(intent, inputs[i + 1].value)) {
          EndedSessionIgnoresMore(inputs, more, respond, i + 2);
        }
  }
}
