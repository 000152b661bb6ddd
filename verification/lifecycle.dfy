/**
 The start/stop guard of the PostgreSQL Flexible-server runbooks: `FlexiAuto`
 in FlexiRunAs.py and in FlexiMID.py. They differ in how they obtain a token
 and in how their request URLs are laid out, and share the logic of
 `get_status`, `get_expected_state` and `perform_action`. Every call to the management API is replaced by its result, given
 as a parameter: the reply to each status read, and the outcome of the
 start/stop request.
 */
module Lifecycle {
  import opened Wrappers
  import opened Dicts
  import opened Json

  /** What one status read gave back. */
  datatype Reply =
    | Unreachable     // `requests.get` raised, or the body was not JSON
    | Body(json: Json)

  /** The `properties` entry of the reply body, when it is an object that the
      lookup of `state` can be made on. */
  function Properties(body: Json): Option<Dict<Json>> {
    if !body.Obj? then None
    else
      var props := Get(body.fields, "properties");
      if props.Some? && props.value.Obj? then Some(props.value.fields) else None
  }

  /** `get_status`: the `state` inside `properties`, Python's `None` (here `Null`)
      when there is no `state`. `None` of the Option stands for the exception that
      makes the runbook print and `sys.exit()`. */
  function GetStatus(reply: Reply): (r: Option<Json>)
    ensures r.Some? <==> reply.Body? && Properties(reply.json).Some?
  {
    match reply
    case Unreachable => None
    case Body(j) =>
      match Properties(j)
      case None => None
      case Some(props) => Some(Get(props, "state").GetOr(Null))
  }

  /** What a successful read gives, unless it is `None`, is the `state` found in
      `properties`. */
  lemma GetStatusReadsState(reply: Reply)
    ensures GetStatus(reply).Some? && GetStatus(reply).value != Null ==>
              ("state", GetStatus(reply).value) in Properties(reply.json).value
  {
  }

  /** A `state` present in `properties` is what the read gives. */
  lemma GetStatusReturnsState(fields: Dict<Json>, props: Dict<Json>, v: Json)
    requires Get(fields, "properties") == Some(Obj(props))
    requires DistinctKeys(props) && ("state", v) in props
    ensures GetStatus(Body(Obj(fields))) == Some(v)
  {
    var i :| 0 <= i < |props| && props[i] == ("state", v);
    GetAt(props, i);
  }

  /** A server whose `properties` carry no `state` reads as `None`. */
  lemma MissingStateReadsAsNone(fields: Dict<Json>, props: Dict<Json>)
    requires Get(fields, "properties") == Some(Obj(props))
    requires "state" !in Keys(props)
    ensures GetStatus(Body(Obj(fields))) == Some(Null)
  {
  }

  /** A body without `properties`, or one whose `properties` is not an object,
      makes the read fail. */
  lemma NoPropertiesFailsRead(fields: Dict<Json>)
    requires forall props :: Get(fields, "properties") != Some(Obj(props))
    ensures GetStatus(Body(Obj(fields))).None?
  {
  }

  /** The pair `get_expected_state` returns: the state the server must be in
      before the action, and the state it should reach. */
  datatype States = States(expected: string, desired: string)

  /** `get_expected_state`; `None` is the exception raised for any other action. */
  function ExpectedState(action: string): (r: Option<States>)
    ensures r.Some? <==> action == "start" || action == "stop"
    ensures r.Some? ==> r.value.expected != r.value.desired
    ensures r.Some? ==> r.value.expected in {"Stopped", "Ready"} && r.value.desired in {"Stopped", "Ready"}
  {
    if action == "start" then Some(States("Stopped", "Ready"))
    else if action == "stop" then Some(States("Ready", "Stopped"))
    else None
  }

  /** `start` goes from `Stopped` to `Ready`, and `stop` is its mirror image. */
  lemma ActionsAreOpposite()
    ensures ExpectedState("start") == Some(States("Stopped", "Ready"))
    ensures ExpectedState("stop") == Some(States(ExpectedState("start").value.desired,
                                                 ExpectedState("start").value.expected))
  {
  }

  datatype Decision = AlreadyThere | Request | Abort

  /** The `if`/`elif`/`else` of `perform_action` on the status read at start-up. */
  function Decide(current: Json, s: States): (d: Decision)
    ensures d == AlreadyThere <==> current == Str(s.desired)
    ensures d == Request <==> current == Str(s.expected) && current != Str(s.desired)
    ensures current.Null? ==> d == Abort
  {
    if current == Str(s.desired) then AlreadyThere
    else if current == Str(s.expected) then Request
    else Abort
  }

  /** The request is accepted only with status code 200 or 202. */
  predicate Accepted(code: int) {
    code == 200 || code == 202
  }

  /** How the wait loop ended. */
  datatype PollEnd =
    | Reached(count: nat)   // the `count`-th read gave the desired state
    | ReadFailed(at: nat)   // read number `at` (from 0) failed
    | Exhausted             // every given read came back with another state

  /** How many reads `p` passed over before it stopped. */
  function Passed(p: PollEnd, n: nat): nat {
    match p
    case Reached(k) => if k == 0 then 0 else k - 1
    case ReadFailed(a) => a
    case Exhausted => n
  }

  /** A read that succeeded with a state other than `desired`: the loop goes on. */
  predicate Unsettled(desired: string, reply: Reply) {
    GetStatus(reply).Some? && GetStatus(reply) != Some(Str(desired))
  }

  /** What `Poll` promises about the way it ended on `replies`. */
  predicate PollEndsWell(desired: string, replies: seq<Reply>, p: PollEnd) {
    (p.Reached? ==> 1 <= p.count <= |replies| && GetStatus(replies[p.count - 1]) == Some(Str(desired))) &&
    (p.ReadFailed? ==> p.at < |replies| && GetStatus(replies[p.at]).None?) &&
    Passed(p, |replies|) <= |replies| &&
    forall j :: 0 <= j < Passed(p, |replies|) ==> Unsettled(desired, replies[j])
  }

  /** The loop's result after one more unsettled read in front. */
  function Later(p: PollEnd): PollEnd {
    match p
    case Reached(k) => Reached(k + 1)
    case ReadFailed(a) => ReadFailed(a + 1)
    case Exhausted => Exhausted
  }

  lemma LaterEndsWell(desired: string, replies: seq<Reply>, rest: PollEnd)
    requires |replies| > 0 && Unsettled(desired, replies[0])
    requires PollEndsWell(desired, replies[1..], rest)
    ensures PollEndsWell(desired, replies, Later(rest))
  {
    var tail := replies[1..];
    assert Passed(Later(rest), |replies|) == Passed(rest, |tail|) + 1 by {
      if rest.Reached? { assert rest.count >= 1; }
    }
    forall j | 0 <= j < Passed(Later(rest), |replies|) ensures Unsettled(desired, replies[j]) {
      if j > 0 {
        assert replies[j] == tail[j - 1];
      }
    }
    if rest.Reached? {
      assert replies[rest.count] == tail[rest.count - 1];
    }
    if rest.ReadFailed? {
      assert replies[rest.at + 1] == tail[rest.at];
    }
  }

  /** The wait loop that follows an accepted request, entered with a status other
      than `desired`: read again until the status is `desired`. It ends on
      a read of `desired` after only unsettled reads, or on a failed read, or
      when the given reads run out. */
  function Poll(desired: string, replies: seq<Reply>): (p: PollEnd)
    ensures PollEndsWell(desired, replies, p)
  {
    if |replies| == 0 then Exhausted
    else match GetStatus(replies[0])
      case None => ReadFailed(0)
      case Some(st) =>
        if st == Str(desired) then Reached(1)
        else
          var rest := Poll(desired, replies[1..]);
          LaterEndsWell(desired, replies, rest);
          Later(rest)
  }

  /** The loop stops at the first read that gives the desired state, and not
      before. */
  lemma {:induction false} PollStopsAtFirstDesired(desired: string, replies: seq<Reply>, k: nat)
    requires k < |replies| && GetStatus(replies[k]) == Some(Str(desired))
    requires forall j :: 0 <= j < k ==> Unsettled(desired, replies[j])
    ensures Poll(desired, replies) == Reached(k + 1)
  {
    if k > 0 {
      assert Unsettled(desired, replies[0]);
      forall j | 0 <= j < k - 1 ensures Unsettled(desired, replies[1..][j]) {
        assert replies[1..][j] == replies[j + 1];
      }
      PollStopsAtFirstDesired(desired, replies[1..], k - 1);
    }
  }

  /** The result of the start/stop request. */
  datatype Post = Raised | Responded(code: int)

  /** How a run ends. Every end but `Done` is a `sys.exit()` or a raise. */
  datatype Outcome =
    | StartupReadFailed        // `get_status` failed inside `__init__`
    | InvalidAction            // `get_expected_state` raised
    | AlreadyInState           // quit: nothing to do
    | WrongState(current: Json) // quit: neither the desired nor the expected state
    | RequestRaised            // `requests.post` raised
    | Rejected(code: int)      // the request came back with another status code
    | PollReadFailed(at: nat)  // a status read in the wait loop failed
    | StillWaiting             // the given reads ran out before the desired state
    | Done(count: nat)         // `perform_action` returned `True`

  /** The outcomes reached only after the start/stop request was sent. */
  predicate Requested(o: Outcome) {
    o.RequestRaised? || o.Rejected? || o.PollReadFailed? || o.StillWaiting? || o.Done?
  }

  /** The rest of `perform_action` once the request was sent: the status-code test,
      then the wait loop for `desired`. */
  function AfterRequest(desired: string, post: Post, polls: seq<Reply>): (o: Outcome)
    ensures Requested(o)
    ensures o == RequestRaised <==> post.Raised?
    ensures o.Rejected? <==> post.Responded? && !Accepted(post.code)
    ensures o.Done? ==> post.Responded? && Accepted(post.code) && 1 <= o.count <= |polls| &&
                        GetStatus(polls[o.count - 1]) == Some(Str(desired))
  {
    match post
    case Raised => RequestRaised
    case Responded(code) =>
      if !Accepted(code) then Rejected(code)
      else match Poll(desired, polls)
        case Reached(n) => Done(n)
        case ReadFailed(a) => PollReadFailed(a)
        case Exhausted => StillWaiting
  }

  /** `FlexiAuto(...)` followed by `perform_action()`: `startup` is the read made
      in `__init__`, `post` the request's result, `polls` the reads made by the
      wait loop. */
  function Run(action: string, startup: Reply, post: Post, polls: seq<Reply>): (o: Outcome)
    ensures o == StartupReadFailed <==> GetStatus(startup).None?
    ensures GetStatus(startup).Some? && ExpectedState(action).None? ==> o == InvalidAction
    ensures Requested(o) ==> ExpectedState(action).Some? &&
                             GetStatus(startup) == Some(Str(ExpectedState(action).value.expected))
  {
    match GetStatus(startup)
    case None => StartupReadFailed
    case Some(current) =>
      match ExpectedState(action)
      case None => InvalidAction
      case Some(s) =>
        match Decide(current, s)
        case AlreadyThere => AlreadyInState
        case Abort => WrongState(current)
        case Request => AfterRequest(s.desired, post, polls)
  }

  /** When the start-up status is the expected one, the run goes on to the
      request, whatever comes after. */
  lemma RunSendsRequest(action: string, startup: Reply, post: Post, polls: seq<Reply>)
    requires ExpectedState(action).Some?
    requires GetStatus(startup) == Some(Str(ExpectedState(action).value.expected))
    ensures Run(action, startup, post, polls) == AfterRequest(ExpectedState(action).value.desired, post, polls)
  {
    var s := ExpectedState(action).value;
    assert Decide(GetStatus(startup).value, s) == Request;
  }

  /** Any action other than `start` or `stop` raises before the status is looked
      at, whatever it is. */
  lemma InvalidActionIgnoresStatus(action: string, startup: Reply, post: Post, polls: seq<Reply>)
    requires action != "start" && action != "stop"
    ensures Run(action, startup, post, polls) in {StartupReadFailed, InvalidAction}
  {
  }

  /** A server already in the desired state is left alone: the run quits
      whatever the request or later reads would have given. */
  lemma AlreadyInStateSendsNothing(action: string, startup: Reply, post: Post, polls: seq<Reply>)
    requires ExpectedState(action).Some?
    requires GetStatus(startup) == Some(Str(ExpectedState(action).value.desired))
    ensures Run(action, startup, post, polls) == AlreadyInState
  {
  }

  /** The request is sent if and only if the start-up status is the expected
      one; any other status, `None` included, aborts without a request. */
  lemma RequestOnlyFromExpected(action: string, startup: Reply, post: Post, polls: seq<Reply>)
    requires ExpectedState(action).Some?
    ensures Requested(Run(action, startup, post, polls)) <==>
            GetStatus(startup) == Some(Str(ExpectedState(action).value.expected))
    ensures GetStatus(startup) == Some(Null) ==> Run(action, startup, post, polls) == WrongState(Null)
  {
  }

  /** Once the request is accepted, the run succeeds right after the first read
      of the desired state, when every read before it succeeded. */
  lemma AcceptedRunEndsAtDesired(action: string, startup: Reply, code: int, polls: seq<Reply>, k: nat)
    requires ExpectedState(action).Some?
    requires GetStatus(startup) == Some(Str(ExpectedState(action).value.expected))
    requires Accepted(code)
    requires k < |polls| && GetStatus(polls[k]) == Some(Str(ExpectedState(action).value.desired))
    requires forall j :: 0 <= j < k ==> Unsettled(ExpectedState(action).value.desired, polls[j])
    ensures Run(action, startup, Responded(code), polls) == Done(k + 1)
  {
    var s := ExpectedState(action).value;
    RunSendsRequest(action, startup, Responded(code), polls);
    PollStopsAtFirstDesired(s.desired, polls, k);
  }
}
