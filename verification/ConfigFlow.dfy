/** The config-flow interpreter (`src/e2e.rs`): a walk over a flow's nodes that a visit budget cuts off. */
module ConfigFlow {
  import opened Wrappers
  import opened Json

  datatype Route = Next(nodeId: string) | End | Reply | Branch | Custom

  datatype Node = Node(component: string, mapping: Value, route: Route)

  type Nodes = map<string, Node>

  type Answers = map<string, Value>

  datatype FlowError =
    | InvalidNodeId(id: string)
    | MissingNode(id: string)
    | UnsupportedComponent(component: string)
    | FieldsMissing
    | FieldIdMissing
    | AnswerMissing(id: string)
    | TemplateFailed(message: string)
    | TerminatedEarly
    | UnsupportedRoute
    | TraversalLimit

  type Outcome = Result<Value, FlowError>

  /** What the interpreter calls and this model does not see: the check of node ids, and template rendering. */
  datatype Environment = Environment(validId: string -> bool, render: (Value, Answers, string) -> Result<Value, string>)

  // ---- The entry node ----

  datatype FlowDoc = FlowDoc(start: Option<string>, nodeIds: seq<string>)

  function ResolveEntry(doc: FlowDoc): string {
    if doc.start.Some? then doc.start.value
    else if "in" in doc.nodeIds then "in"
    else if doc.nodeIds != [] then doc.nodeIds[0]
    else "in"
  }

  // ---- Questions ----

  function FieldsOf(mapping: Value): Option<seq<Value>> {
    match mapping.Get("fields")
    case Some(Array(items)) => Some(items)
    case _ => None
  }

  function IdOf(field: Value): Option<string> {
    match field.Get("id")
    case Some(Str(id)) => Some(id)
    case _ => None
  }

  function Ask(field: Value, state: Answers): Result<Answers, FlowError> {
    match IdOf(field)
    case None => Err(FieldIdMissing)
    case Some(id) =>
      if id in state then Ok(state)
      else
        match field.Get("default")
        case Some(default) => Ok(state[id := default])
        case None => Err(AnswerMissing(id))
  }

  function AskAll(fields: seq<Value>, state: Answers): Result<Answers, FlowError> {
    if fields == [] then Ok(state)
    else
      match AskAll(fields[..|fields| - 1], state)
      case Err(error) => Err(error)
      case Ok(asked) => Ask(fields[|fields| - 1], asked)
  }

  function Questions(mapping: Value, state: Answers): Result<Answers, FlowError> {
    match FieldsOf(mapping)
    case None => Err(FieldsMissing)
    case Some(fields) => AskAll(fields, state)
  }

  method ApplyQuestions(mapping: Value, state: Answers) returns (asked: Result<Answers, FlowError>)
    ensures asked == Questions(mapping, state)
  {
    var fields := FieldsOf(mapping);
    if fields.None? {
      return Err(FieldsMissing);
    }
    var now := state;
    for i := 0 to |fields.value|
      invariant AskAll(fields.value[..i], state) == Ok(now)
    {
      assert fields.value[..i + 1][..i] == fields.value[..i];
      var field := fields.value[i];
      var id := IdOf(field);
      if id.None? {
        AskAllFails(fields.value, i + 1, state);
        return Err(FieldIdMissing);
      }
      if id.value in now {
        continue;
      }
      var default := field.Get("default");
      if default.None? {
        AskAllFails(fields.value, i + 1, state);
        return Err(AnswerMissing(id.value));
      }
      now := now[id.value := default.value];
    }
    assert fields.value[..|fields.value|] == fields.value;
    asked := Ok(now);
  }

  lemma {:induction false} AskAllFails(fields: seq<Value>, i: nat, state: Answers)
    requires i <= |fields| && AskAll(fields[..i], state).Err?
    ensures AskAll(fields, state) == AskAll(fields[..i], state)
    decreases |fields|
  {
    if i == |fields| {
      assert fields[..i] == fields;
    } else {
      assert fields[..|fields| - 1][..i] == fields[..i];
      AskAllFails(fields[..|fields| - 1], i, state);
    }
  }

  predicate Answered(mapping: Value, state: Answers) {
    && FieldsOf(mapping).Some?
    && forall i :: 0 <= i < |FieldsOf(mapping).value| ==>
         IdOf(FieldsOf(mapping).value[i]).Some? && IdOf(FieldsOf(mapping).value[i]).value in state
  }

  predicate Extends(state: Answers, later: Answers) {
    forall id :: id in state ==> id in later && later[id] == state[id]
  }

  /** Asking only adds answers, and leaves every field answered; asking again changes nothing. */
  lemma QuestionsSettle(mapping: Value, state: Answers)
    requires Questions(mapping, state).Ok?
    ensures var asked := Questions(mapping, state).value;
            Extends(state, asked) && Answered(mapping, asked) && Questions(mapping, asked) == Ok(asked)
  {
    AskAllSettles(FieldsOf(mapping).value, state);
    AskAgain(mapping, Questions(mapping, state).value);
  }

  lemma {:induction false} AskAllSettles(fields: seq<Value>, state: Answers)
    requires AskAll(fields, state).Ok?
    ensures Extends(state, AskAll(fields, state).value)
    ensures forall i :: 0 <= i < |fields| ==>
              IdOf(fields[i]).Some? && IdOf(fields[i]).value in AskAll(fields, state).value
  {
    if fields != [] {
      var n := |fields| - 1;
      AskAllSettles(fields[..n], state);
      assert forall i {:trigger fields[i]} :: 0 <= i < n ==> fields[i] == fields[..n][i];
    }
  }

  lemma AskAgain(mapping: Value, state: Answers)
    requires Answered(mapping, state)
    ensures Questions(mapping, state) == Ok(state)
  {
    AskAllAgain(FieldsOf(mapping).value, state);
  }

  lemma {:induction false} AskAllAgain(fields: seq<Value>, state: Answers)
    requires forall i :: 0 <= i < |fields| ==> IdOf(fields[i]).Some? && IdOf(fields[i]).value in state
    ensures AskAll(fields, state) == Ok(state)
  {
    if fields != [] {
      AskAllAgain(fields[..|fields| - 1], state);
    }
  }

  // ---- One visit ----

  datatype Visited = Halt(outcome: Outcome) | Continue(next: string, state: Answers)

  function Follow(route: Route, state: Answers): Visited {
    match route
    case Next(id) => Continue(id, state)
    case End => Halt(Err(TerminatedEarly))
    case Reply => Halt(Err(TerminatedEarly))
    case Branch => Halt(Err(UnsupportedRoute))
    case Custom => Halt(Err(UnsupportedRoute))
  }

  function Visit(nodes: Nodes, env: Environment, current: string, state: Answers): Visited {
    if !env.validId(current) then Halt(Err(InvalidNodeId(current)))
    else if current !in nodes then Halt(Err(MissingNode(current)))
    else
      var node := nodes[current];
      if node.component == "questions" then
        match Questions(node.mapping, state)
        case Err(error) => Halt(Err(error))
        case Ok(asked) => Follow(node.route, asked)
      else if node.component == "template" then
        match env.render(node.mapping, state, current)
        case Ok(payload) => Halt(Ok(payload))
        case Err(message) => Halt(Err(TemplateFailed(message)))
      else
        Halt(Err(UnsupportedComponent(node.component)))
  }

  type Stepper = (string, Answers) -> Visited

  function Visiting(nodes: Nodes, env: Environment): Stepper {
    (current, state) => Visit(nodes, env, current, state)
  }

  // ---- The walk without a limit, observed for n visits ----

  /** The outcome if the walk ends within n visits. */
  function Walk(step: Stepper, current: string, state: Answers, n: nat): Option<Outcome>
    decreases n
  {
    if n == 0 then None
    else
      match step(current, state)
      case Halt(outcome) => Some(outcome)
      case Continue(next, after) => Walk(step, next, after, n - 1)
  }

  /** The nodes visited, in order, within n visits. */
  function Trail(step: Stepper, current: string, state: Answers, n: nat): seq<string>
    decreases n
  {
    if n == 0 then []
    else
      [current] +
      match step(current, state)
      case Halt(_) => []
      case Continue(next, after) => Trail(step, next, after, n - 1)
  }

  ghost predicate NeverEnds(step: Stepper, current: string, state: Answers) {
    forall n: nat :: Walk(step, current, state, n) == None
  }

  /** Within n visits, visits i and j are to the same node. */
  predicate Revisits(step: Stepper, current: string, state: Answers, n: nat, i: nat, j: nat) {
    var trail := Trail(step, current, state, n);
    i < j < |trail| && trail[i] == trail[j]
  }

  predicate LostNode(outcome: Outcome) {
    outcome.Err? && (outcome.error.MissingNode? || outcome.error.InvalidNodeId?)
  }

  /** A walk that ends within n visits ends the same way with more to spare. */
  lemma {:induction false} WalkStable(step: Stepper, current: string, state: Answers, n: nat, more: nat)
    requires n <= more && Walk(step, current, state, n).Some?
    ensures Walk(step, current, state, more) == Walk(step, current, state, n)
    decreases n
  {
    match step(current, state)
    case Halt(_) =>
    case Continue(next, after) => WalkStable(step, next, after, n - 1, more - 1);
  }

  // ---- The interpreter as written ----

  const SLACK: nat := 4

  function StartState(answers: Option<Value>): Answers {
    match answers
    case Some(Object(fields)) => fields
    case _ => map[]
  }

  method RunConfigFlow(doc: FlowDoc, nodes: Nodes, env: Environment, answers: Option<Value>) returns (outcome: Outcome)
    ensures var walked := Walk(Visiting(nodes, env), ResolveEntry(doc), StartState(answers), |nodes| + SLACK);
            outcome == if walked.Some? then walked.value else Err(TraversalLimit)
    ensures outcome == Err(TraversalLimit) <==> NeverEnds(Visiting(nodes, env), ResolveEntry(doc), StartState(answers))
  {
    hide NeverEnds, Questions;
    var state := StartState(answers);
    var current := ResolveEntry(doc);
    LimitMeansNoEnd(nodes, env, current, state);
    ghost var whole := Walk(Visiting(nodes, env), current, state, |nodes| + SLACK);
    var visited := 0;
    while visited < |nodes| + SLACK
      invariant visited <= |nodes| + SLACK
      invariant whole == Walk(Visiting(nodes, env), current, state, |nodes| + SLACK - visited)
    {
      ghost var visit := Visiting(nodes, env)(current, state);
      visited := visited + 1;
      if !env.validId(current) {
        return Err(InvalidNodeId(current));
      }
      if current !in nodes {
        return Err(MissingNode(current));
      }
      var node := nodes[current];
      if node.component == "questions" {
        var asked := ApplyQuestions(node.mapping, state);
        if asked.Err? {
          return Err(asked.error);
        }
        state := asked.value;
      } else if node.component == "template" {
        var rendered := env.render(node.mapping, state, current);
        match rendered {
          case Ok(payload) => return Ok(payload);
          case Err(message) => return Err(TemplateFailed(message));
        }
      } else {
        return Err(UnsupportedComponent(node.component));
      }
      match node.route {
        case Next(id) => current := id;
        case End => return Err(TerminatedEarly);
        case Reply => return Err(TerminatedEarly);
        case Branch => return Err(UnsupportedRoute);
        case Custom => return Err(UnsupportedRoute);
      }
    }
    outcome := Err(TraversalLimit);
  }

  // ---- Why the limit never cuts a walk short ----

  /** A visit that goes on does the same when repeated. */
  predicate Repeatable(step: Stepper, c: string, s: Answers) {
    step(c, s).Continue? ==> step(c, step(c, s).state) == step(c, s)
  }

  /** If visiting d changes nothing now, it changes nothing and leads to the same place after visiting c. */
  predicate Unaffected(step: Stepper, d: string, c: string, s: Answers) {
    step(c, s).Continue? && step(d, s).Continue? && step(d, s).state == s ==>
      step(d, step(c, s).state) == Continue(step(d, s).next, step(c, s).state)
  }

  /** What the argument needs of a visit: only nodes of the flow go on, and going on settles them. */
  ghost predicate Settling(step: Stepper, domain: set<string>) {
    && (forall c, s {:trigger step(c, s)} :: c !in domain ==> step(c, s).Halt? && LostNode(step(c, s).outcome))
    && (forall c, s :: Repeatable(step, c, s))
    && (forall d, c, s :: Unaffected(step, d, c, s))
  }

  lemma VisitsSettle(nodes: Nodes, env: Environment)
    ensures Settling(Visiting(nodes, env), nodes.Keys)
  {
    var step := Visiting(nodes, env);
    forall c, s ensures Repeatable(step, c, s) {
      if step(c, s).Continue? {
        VisitSettles(nodes, env, c, s);
      }
    }
    forall d, c, s ensures Unaffected(step, d, c, s) {
      if step(c, s).Continue? && step(d, s).Continue? && step(d, s).state == s {
        VisitSettles(nodes, env, c, s);
        VisitUnaffected(nodes, env, d, s, step(c, s).state);
      }
    }
  }

  lemma VisitSettles(nodes: Nodes, env: Environment, current: string, state: Answers)
    requires Visit(nodes, env, current, state).Continue?
    ensures var after := Visit(nodes, env, current, state).state;
            Extends(state, after) && Visit(nodes, env, current, after) == Visit(nodes, env, current, state)
  {
    QuestionsSettle(nodes[current].mapping, state);
  }

  lemma VisitUnaffected(nodes: Nodes, env: Environment, current: string, state: Answers, later: Answers)
    requires Visit(nodes, env, current, state).Continue? && Visit(nodes, env, current, state).state == state
    requires Extends(state, later)
    ensures Visit(nodes, env, current, later) == Continue(Visit(nodes, env, current, state).next, later)
  {
    QuestionsSettle(nodes[current].mapping, state);
    AskAgain(nodes[current].mapping, later);
  }

  /** Nodes the walk has been through: they change nothing any more, and lead to one another or to the
      node the walk is at. */
  ghost predicate Settled(step: Stepper, seen: set<string>, current: string, state: Answers) {
    forall d :: d in seen ==>
      && step(d, state).Continue? && step(d, state).state == state
      && (step(d, state).next in seen || step(d, state).next == current)
  }

  /** Back at a settled node, the walk goes round for ever. */
  lemma {:induction false} SettledLoops(step: Stepper, seen: set<string>, current: string, state: Answers, n: nat)
    requires Settled(step, seen, current, state) && current in seen
    ensures Walk(step, current, state, n) == None
    decreases n
  {
    if n > 0 {
      SettledLoops(step, seen, step(current, state).next, state, n - 1);
    }
  }

  lemma SettledNeverEnds(step: Stepper, seen: set<string>, current: string, state: Answers)
    requires Settled(step, seen, current, state) && current in seen
    ensures NeverEnds(step, current, state)
  {
    forall n: nat ensures Walk(step, current, state, n) == None {
      SettledLoops(step, seen, current, state, n);
    }
  }

  /** A visit that goes on settles its node and leaves the others settled. */
  lemma VisitExtendsSettled(step: Stepper, domain: set<string>, seen: set<string>, current: string, state: Answers)
    requires Settling(step, domain) && Settled(step, seen, current, state) && step(current, state).Continue?
    ensures current in domain
    ensures Settled(step, seen + {current}, step(current, state).next, step(current, state).state)
  {
    var visit := step(current, state);
    assert Repeatable(step, current, state);
    forall d | d in seen + {current}
      ensures step(d, visit.state).Continue? && step(d, visit.state).state == visit.state
      ensures step(d, visit.state).next in seen + {current} || step(d, visit.state).next == visit.next
    {
      assert Unaffected(step, d, current, state);
    }
  }

  lemma NeverEndsBack(step: Stepper, current: string, state: Answers)
    requires step(current, state).Continue?
    requires NeverEnds(step, step(current, state).next, step(current, state).state)
    ensures NeverEnds(step, current, state)
  {
    var visit := step(current, state);
    forall n: nat ensures Walk(step, current, state, n) == None {
      if n > 0 {
        assert Walk(step, visit.next, visit.state, n - 1) == None;
      }
    }
  }

  lemma SeenAll(domain: set<string>, seen: set<string>)
    requires seen <= domain
    ensures |seen| <= |domain|
    ensures |seen| == |domain| ==> seen == domain
  {
    assert domain == seen + (domain - seen);
    assert |domain| == |seen| + |domain - seen|;
  }

  predicate LostNext(walked: Option<Outcome>) { walked.Some? && LostNode(walked.value) }

  ghost predicate LoopsOrLost(step: Stepper, current: string, state: Answers, n: nat) {
    NeverEnds(step, current, state) || LostNext(Walk(step, current, state, n + 1))
  }

  /** By then every node has been visited: a walk still going after as many visits as there are nodes
      goes on for ever, or fails at once because the node it is sent to does not exist. */
  lemma {:induction false} Pigeonhole(
    step: Stepper, domain: set<string>, seen: set<string>, current: string, state: Answers, n: nat)
    requires Settling(step, domain) && Settled(step, seen, current, state)
    requires seen <= domain && |seen| + n == |domain|
    requires Walk(step, current, state, n) == None
    ensures LoopsOrLost(step, current, state, n)
    decreases n
  {
    hide Settled, NeverEnds;
    SeenAll(domain, seen);
    if current in seen {
      SettledNeverEnds(step, seen, current, state);
    } else if n == 0 {
      assert step(current, state).Halt?;
    } else {
      var visit := step(current, state);
      VisitExtendsSettled(step, domain, seen, current, state);
      Pigeonhole(step, domain, seen + {current}, visit.next, visit.state, n - 1);
      if NeverEnds(step, visit.next, visit.state) {
        NeverEndsBack(step, current, state);
      }
    }
  }

  /** The budget changes no result: a walk that ends at all ends within one visit per node, or one
      more if it is sent to a node that does not exist. */
  lemma BudgetSuffices(nodes: Nodes, env: Environment, entry: string, state: Answers, n: nat)
    requires Walk(Visiting(nodes, env), entry, state, n).Some?
    ensures var step := Visiting(nodes, env);
            var outcome := Walk(step, entry, state, n);
            && Walk(step, entry, state, |nodes| + SLACK) == outcome
            && Walk(step, entry, state, |nodes| + 1) == outcome
            && (!LostNode(outcome.value) ==> Walk(step, entry, state, |nodes|) == outcome)
  {
    var step := Visiting(nodes, env);
    var m := |nodes|;
    if Walk(step, entry, state, m) == None {
      VisitsSettle(nodes, env);
      assert |nodes.Keys| == m;
      Pigeonhole(step, nodes.Keys, {}, entry, state, m);
      assert !NeverEnds(step, entry, state);
    } else {
      WalkStable(step, entry, state, m, m + 1);
      WalkStable(step, entry, state, m, n + m + 1);
    }
    WalkStable(step, entry, state, m + 1, m + SLACK);
    WalkStable(step, entry, state, m + 1, n + m + 1);
    WalkStable(step, entry, state, n, n + m + 1);
  }

  /** One visit per node is not always enough, so some slack is needed. */
  lemma LostNodeNeedsOneMore(env: Environment)
    requires env.validId("a") && env.validId("b")
    ensures var nodes := map["a" := Node("questions", Object(map["fields" := Array([])]), Next("b"))];
            var step := Visiting(nodes, env);
            && Walk(step, "a", map[], |nodes|) == None
            && Walk(step, "a", map[], |nodes| + 1) == Some(Err(MissingNode("b")))
  {
    var nodes := map["a" := Node("questions", Object(map["fields" := Array([])]), Next("b"))];
    var step := Visiting(nodes, env);
    assert step("a", map[]) == Continue("b", map[]);
    assert "b" !in nodes;
    assert Walk(step, "b", map[], 1) == Some(Err(MissingNode("b")));
  }

  function NodesOf(trail: seq<string>): set<string> {
    set id | id in trail
  }

  lemma {:induction false} NodesCount(trail: seq<string>)
    ensures |NodesOf(trail)| <= |trail|
  {
    if trail != [] {
      NodesCount(trail[1..]);
      assert NodesOf(trail) == NodesOf(trail[1..]) + {trail[0]};
    }
  }

  lemma NodesStep(step: Stepper, current: string, state: Answers, n: nat, seen: set<string>)
    ensures var visit, nodes := step(current, state), NodesOf(Trail(step, current, state, n + 1));
            && current in nodes
            && (visit.Continue? ==>
                  seen + {current} + NodesOf(Trail(step, visit.next, visit.state, n)) == seen + nodes)
  {
    var trail := Trail(step, current, state, n + 1);
    assert trail[0] == current;
    var rest := trail[1..];
    assert trail == [current] + rest;
    assert NodesOf(trail) == {current} + NodesOf(rest);
  }

  lemma LargerSet(a: set<string>, b: set<string>)
    requires a < b
    ensures |a| < |b|
  {
    assert b == a + (b - a);
    assert |b| == |a| + |b - a|;
  }

  lemma {:induction false} EndedTrail(step: Stepper, current: string, state: Answers, n: nat)
    requires Walk(step, current, state, n).Some?
    ensures |Trail(step, current, state, n + 1)| <= n
    decreases n
  {
    if step(current, state).Continue? {
      EndedTrail(step, step(current, state).next, step(current, state).state, n - 1);
    }
  }

  /** A walk that ends, but not within one visit for each node not seen, goes through all of those and
      then to a node outside the flow. */
  lemma {:induction false} EveryNodeThenLost(
    step: Stepper, domain: set<string>, seen: set<string>, current: string, state: Answers, n: nat)
    requires Settling(step, domain) && Settled(step, seen, current, state)
    requires seen <= domain && |seen| + n == |domain|
    requires Walk(step, current, state, n) == None && !NeverEnds(step, current, state)
    ensures domain < seen + NodesOf(Trail(step, current, state, n + 1))
    decreases n
  {
    hide Settling, Settled, NeverEnds, NodesOf, Trail;
    SeenAll(domain, seen);
    NodesStep(step, current, state, n, seen);
    if current in seen {
      SettledNeverEnds(step, seen, current, state);
      assert false;
    }
    if n > 0 {
      var visit := step(current, state);
      VisitExtendsSettled(step, domain, seen, current, state);
      if NeverEnds(step, visit.next, visit.state) {
        NeverEndsBack(step, current, state);
        assert false;
      }
      EveryNodeThenLost(step, domain, seen + {current}, visit.next, visit.state, n - 1);
    }
  }

  /** Of the walks that end, exactly those need one visit more than there are nodes that go through
      every node and on to one that is not there. */
  lemma ExtraVisitIff(nodes: Nodes, env: Environment, entry: string, state: Answers)
    requires !NeverEnds(Visiting(nodes, env), entry, state)
    ensures Walk(Visiting(nodes, env), entry, state, |nodes|) == None
       <==> nodes.Keys < NodesOf(Trail(Visiting(nodes, env), entry, state, |nodes| + 1))
  {
    var step := Visiting(nodes, env);
    var trail := Trail(step, entry, state, |nodes| + 1);
    assert |nodes.Keys| == |nodes|;
    if Walk(step, entry, state, |nodes|) == None {
      VisitsSettle(nodes, env);
      EveryNodeThenLost(step, nodes.Keys, {}, entry, state, |nodes|);
      assert {} + NodesOf(trail) == NodesOf(trail);
    } else {
      EndedTrail(step, entry, state, |nodes|);
      NodesCount(trail);
      if nodes.Keys < NodesOf(trail) {
        LargerSet(nodes.Keys, NodesOf(trail));
        assert false;
      }
    }
  }

  // ---- When the limit is reported ----

  ghost predicate Repeats(trail: seq<string>, seen: set<string>) {
    || (exists i :: 0 <= i < |trail| && trail[i] in seen)
    || (exists i, j :: 0 <= i < j < |trail| && trail[i] == trail[j])
  }

  lemma RepeatsCons(current: string, rest: seq<string>, seen: set<string>)
    requires current !in seen
    ensures Repeats([current] + rest, seen) <==> Repeats(rest, seen + {current})
  {
    var trail := [current] + rest;
    if Repeats(trail, seen) {
      if i :| 0 <= i < |trail| && trail[i] in seen {
        assert rest[i - 1] in seen + {current};
      } else {
        var i, j :| 0 <= i < j < |trail| && trail[i] == trail[j];
        if i == 0 {
          assert rest[j - 1] in seen + {current};
        } else {
          assert rest[i - 1] == rest[j - 1];
        }
      }
    }
    if Repeats(rest, seen + {current}) {
      if i :| 0 <= i < |rest| && rest[i] in seen + {current} {
        assert trail[i + 1] == rest[i] && trail[0] == current;
      } else {
        var i, j :| 0 <= i < j < |rest| && rest[i] == rest[j];
        assert trail[i + 1] == trail[j + 1];
      }
    }
  }

  /** Within n visits the walk comes to a node of `seen`, or to one of its own again. */
  predicate ComesBack(step: Stepper, seen: set<string>, current: string, state: Answers, n: nat)
    decreases n
  {
    n > 0 && (current in seen ||
      match step(current, state)
      case Halt(_) => false
      case Continue(next, after) => ComesBack(step, seen + {current}, next, after, n - 1))
  }

  lemma {:induction false} ComesBackIffRepeats(
    step: Stepper, seen: set<string>, current: string, state: Answers, n: nat)
    ensures ComesBack(step, seen, current, state, n) <==> Repeats(Trail(step, current, state, n), seen)
    decreases n
  {
    if n > 0 {
      var trail := Trail(step, current, state, n);
      if current in seen {
        assert trail[0] in seen;
      } else if step(current, state).Continue? {
        var visit := step(current, state);
        ComesBackIffRepeats(step, seen + {current}, visit.next, visit.state, n - 1);
        RepeatsCons(current, Trail(step, visit.next, visit.state, n - 1), seen);
      } else {
        assert trail == [current];
      }
    }
  }

  /** A walk that comes back to a node never ends. */
  lemma {:induction false} ComesBackLoops(
    step: Stepper, domain: set<string>, seen: set<string>, current: string, state: Answers, n: nat)
    requires Settling(step, domain) && Settled(step, seen, current, state)
    requires ComesBack(step, seen, current, state, n)
    ensures NeverEnds(step, current, state)
    decreases n
  {
    if current in seen {
      SettledNeverEnds(step, seen, current, state);
    } else {
      VisitExtendsSettled(step, domain, seen, current, state);
      ComesBackLoops(step, domain, seen + {current}, step(current, state).next, step(current, state).state, n - 1);
      NeverEndsBack(step, current, state);
    }
  }

  /** A walk longer than the number of nodes has come back to one of them. */
  lemma {:induction false} LongWalkComesBack(
    step: Stepper, domain: set<string>, seen: set<string>, current: string, state: Answers, n: nat)
    requires Settling(step, domain)
    requires seen <= domain && |seen| + n == |domain| + 1
    requires Walk(step, current, state, n) == None
    ensures ComesBack(step, seen, current, state, n)
    decreases n
  {
    SeenAll(domain, seen);
    if current !in seen {
      var visit := step(current, state);
      assert visit.Continue?;
      SeenAll(domain, seen + {current});
      LongWalkComesBack(step, domain, seen + {current}, visit.next, visit.state, n - 1);
    }
  }

  /** The interpreter reports its limit exactly when the walk without a limit never ends, and that is
      exactly when it comes back to a node. */
  lemma LimitIffRevisit(nodes: Nodes, env: Environment, entry: string, state: Answers)
    ensures Walk(Visiting(nodes, env), entry, state, |nodes| + SLACK) == None <==>
              NeverEnds(Visiting(nodes, env), entry, state)
    ensures NeverEnds(Visiting(nodes, env), entry, state) <==>
            exists n: nat, i: nat, j: nat :: Revisits(Visiting(nodes, env), entry, state, n, i, j)
  {
    var step := Visiting(nodes, env);
    VisitsSettle(nodes, env);
    if Walk(step, entry, state, |nodes| + SLACK) == None {
      LimitNeverEnds(nodes, env, entry, state);
    }
    if NeverEnds(step, entry, state) {
      assert Walk(step, entry, state, |nodes| + SLACK) == None;
      var i, j := NeverEndsRevisits(step, nodes.Keys, entry, state);
      assert Revisits(step, entry, state, |nodes.Keys| + 1, i, j);
    }
    forall n: nat, i: nat, j: nat | Revisits(step, entry, state, n, i, j) ensures NeverEnds(step, entry, state) {
      assert Repeats(Trail(step, entry, state, n), {});
      ComesBackIffRepeats(step, {}, entry, state, n);
      ComesBackLoops(step, nodes.Keys, {}, entry, state, n);
    }
  }

  lemma LimitNeverEnds(nodes: Nodes, env: Environment, entry: string, state: Answers)
    requires Walk(Visiting(nodes, env), entry, state, |nodes| + SLACK) == None
    ensures NeverEnds(Visiting(nodes, env), entry, state)
  {
    forall n: nat ensures Walk(Visiting(nodes, env), entry, state, n) == None {
      if Walk(Visiting(nodes, env), entry, state, n).Some? {
        BudgetSuffices(nodes, env, entry, state, n);
      }
    }
  }

  lemma NeverEndsRevisits(step: Stepper, domain: set<string>, entry: string, state: Answers) returns (i: nat, j: nat)
    requires Settling(step, domain) && NeverEnds(step, entry, state)
    ensures Revisits(step, entry, state, |domain| + 1, i, j)
  {
    var trail := Trail(step, entry, state, |domain| + 1);
    LongWalkComesBack(step, domain, {}, entry, state, |domain| + 1);
    ComesBackIffRepeats(step, {}, entry, state, |domain| + 1);
    i, j :| i < j < |trail| && trail[i] == trail[j];
  }

  lemma {:induction false} WalkNotLimit(step: Stepper, entry: string, state: Answers, n: nat)
    requires forall c, s {:trigger step(c, s)} :: step(c, s) != Halt(Err(TraversalLimit))
    ensures Walk(step, entry, state, n) != Some(Err(TraversalLimit))
    decreases n
  {
    if n > 0 && step(entry, state).Continue? {
      WalkNotLimit(step, step(entry, state).next, step(entry, state).state, n - 1);
    }
  }

  /** The limit is not an outcome a walk can have of its own. */
  lemma LimitMeansNoEnd(nodes: Nodes, env: Environment, entry: string, state: Answers)
    ensures var walked := Walk(Visiting(nodes, env), entry, state, |nodes| + SLACK);
            && (walked == None <==> NeverEnds(Visiting(nodes, env), entry, state))
            && walked != Some(Err(TraversalLimit))
  {
    LimitIffRevisit(nodes, env, entry, state);
    VisitNotLimit(nodes, env);
    WalkNotLimit(Visiting(nodes, env), entry, state, |nodes| + SLACK);
  }

  lemma VisitNotLimit(nodes: Nodes, env: Environment)
    ensures forall c, s {:trigger Visiting(nodes, env)(c, s)} :: Visiting(nodes, env)(c, s) != Halt(Err(TraversalLimit))
  {
    forall c, s ensures Visiting(nodes, env)(c, s) != Halt(Err(TraversalLimit)) {
      if c in nodes && FieldsOf(nodes[c].mapping).Some? {
        AskAllNotLimit(FieldsOf(nodes[c].mapping).value, s);
      }
    }
  }

  lemma {:induction false} AskAllNotLimit(fields: seq<Value>, state: Answers)
    ensures AskAll(fields, state) != Err(TraversalLimit)
  {
    if fields != [] {
      AskAllNotLimit(fields[..|fields| - 1], state);
    }
  }

  // ---- The limit, foretold from the flow and the answers ----

  /** A node that the walk can only leave for the next one. */
  predicate Hop(nodes: Nodes, env: Environment, id: string) {
    && env.validId(id) && id in nodes
    && nodes[id].component == "questions" && FieldsOf(nodes[id].mapping).Some? && nodes[id].route.Next?
  }

  /** The chain of routes from a node is n hops long at least. No answer has a say in it. */
  predicate Chain(nodes: Nodes, env: Environment, id: string, n: nat)
    decreases n
  {
    n == 0 || (Hop(nodes, env, id) && Chain(nodes, env, nodes[id].route.nodeId, n - 1))
  }

  function ChainEnd(nodes: Nodes, env: Environment, id: string, n: nat): string
    requires Chain(nodes, env, id, n)
    decreases n
  {
    if n == 0 then id else ChainEnd(nodes, env, nodes[id].route.nodeId, n - 1)
  }

  /** Every field asked along the chain, in order. */
  function ChainFields(nodes: Nodes, env: Environment, id: string, n: nat): seq<Value>
    requires Chain(nodes, env, id, n)
    decreases n
  {
    if n == 0 then []
    else FieldsOf(nodes[id].mapping).value + ChainFields(nodes, env, nodes[id].route.nodeId, n - 1)
  }

  /** A field is answered, has a default, or is asked before with a default. */
  predicate Supplied(fields: seq<Value>, k: nat, state: Answers)
    requires k < |fields|
  {
    && IdOf(fields[k]).Some?
    && var id := IdOf(fields[k]).value;
       id in state || exists j :: 0 <= j <= k && IdOf(fields[j]) == Some(id) && fields[j].Get("default").Some?
  }

  predicate AllSupplied(fields: seq<Value>, state: Answers) {
    forall k :: 0 <= k < |fields| ==> Supplied(fields, k, state)
  }

  ghost predicate KnownAfter(fields: seq<Value>, state: Answers, id: string) {
    id in state || exists j :: 0 <= j < |fields| && IdOf(fields[j]) == Some(id) && fields[j].Get("default").Some?
  }

  lemma SuppliedPrefix(fields: seq<Value>, n: nat, state: Answers)
    requires n < |fields|
    ensures forall k :: 0 <= k < n ==> (Supplied(fields[..n], k, state) <==> Supplied(fields, k, state))
    ensures Supplied(fields, n, state) <==>
              && IdOf(fields[n]).Some?
              && (KnownAfter(fields[..n], state, IdOf(fields[n]).value) || fields[n].Get("default").Some?)
  {
    var before := fields[..n];
    assert forall j {:trigger fields[j]} {:trigger before[j]} :: 0 <= j < n ==> before[j] == fields[j];
  }

  /** Asking succeeds iff every field is supplied, and then what is known is what was or had a default. */
  lemma {:induction false} AskAllIff(fields: seq<Value>, state: Answers)
    ensures AskAll(fields, state).Ok? <==> AllSupplied(fields, state)
    ensures AskAll(fields, state).Ok? ==>
              forall id :: id in AskAll(fields, state).value <==> KnownAfter(fields, state, id)
  {
    if fields != [] {
      var n := |fields| - 1;
      AskAllIff(fields[..n], state);
      SuppliedPrefix(fields, n, state);
      assert AllSupplied(fields, state) <==> AllSupplied(fields[..n], state) && Supplied(fields, n, state);
      forall id ensures KnownAfter(fields, state, id) <==>
          KnownAfter(fields[..n], state, id) || (IdOf(fields[n]) == Some(id) && fields[n].Get("default").Some?)
      {
        KnownStep(fields, n, state, id);
      }
    }
  }

  lemma KnownStep(fields: seq<Value>, n: nat, state: Answers, id: string)
    requires n == |fields| - 1
    ensures KnownAfter(fields, state, id) <==>
              KnownAfter(fields[..n], state, id) || (IdOf(fields[n]) == Some(id) && fields[n].Get("default").Some?)
  {
    var before := fields[..n];
    assert forall j {:trigger fields[j]} {:trigger before[j]} :: 0 <= j < n ==> before[j] == fields[j];
  }

  lemma {:induction false} AskAllConcat(first: seq<Value>, second: seq<Value>, state: Answers)
    ensures AskAll(first + second, state) ==
            if AskAll(first, state).Ok? then AskAll(second, AskAll(first, state).value) else AskAll(first, state)
    decreases |second|
  {
    hide Ask;
    if second == [] {
      assert first + second == first;
    } else {
      var n := |second| - 1;
      AskAllConcat(first, second[..n], state);
      assert (first + second)[..|first| + n] == first + second[..n];
    }
  }

  /** A walk goes on for n visits iff the chain does and all that it asks for is supplied; then it stands
      at the end of the chain. */
  lemma {:induction false} WalkIffChain(nodes: Nodes, env: Environment, id: string, state: Answers, n: nat)
    ensures Walk(Visiting(nodes, env), id, state, n) == None <==>
              Chain(nodes, env, id, n) && AskAll(ChainFields(nodes, env, id, n), state).Ok?
    ensures Walk(Visiting(nodes, env), id, state, n) == None ==>
              Walk(Visiting(nodes, env), id, state, n + 1)
                == Walk(Visiting(nodes, env), ChainEnd(nodes, env, id, n),
                        AskAll(ChainFields(nodes, env, id, n), state).value, 1)
    decreases n
  {
    if n > 0 && Hop(nodes, env, id) {
      var next, fields := nodes[id].route.nodeId, FieldsOf(nodes[id].mapping).value;
      if AskAll(fields, state).Ok? {
        WalkIffChain(nodes, env, next, AskAll(fields, state).value, n - 1);
      }
      if Chain(nodes, env, next, n - 1) {
        AskAllConcat(fields, ChainFields(nodes, env, next, n - 1), state);
      }
    }
  }

  /** The limit is reported exactly when the chain of routes from the entry is longer than there are
      nodes and every field on it is answered, has a default, or is asked before with one. */
  lemma LimitIffChain(nodes: Nodes, env: Environment, entry: string, state: Answers)
    ensures NeverEnds(Visiting(nodes, env), entry, state) <==>
              && Chain(nodes, env, entry, |nodes| + 1)
              && AllSupplied(ChainFields(nodes, env, entry, |nodes| + 1), state)
  {
    var step := Visiting(nodes, env);
    var n := |nodes| + 1;
    WalkIffChain(nodes, env, entry, state, n);
    if Chain(nodes, env, entry, n) {
      AskAllIff(ChainFields(nodes, env, entry, n), state);
    }
    if Walk(step, entry, state, n) == None {
      forall k: nat ensures Walk(step, entry, state, k) == None {
        if Walk(step, entry, state, k).Some? {
          BudgetSuffices(nodes, env, entry, state, k);
          assert false;
        }
      }
    }
  }

  predicate Lost(nodes: Nodes, env: Environment, id: string) {
    !env.validId(id) || id !in nodes
  }

  /** A walk needs, and has, one visit more than there are nodes exactly when the chain of routes goes
      through as many nodes as there are and on to a lost one, and every field on it is supplied. */
  lemma ExtraVisitIffChain(nodes: Nodes, env: Environment, entry: string, state: Answers)
    ensures Walk(Visiting(nodes, env), entry, state, |nodes|) == None && !NeverEnds(Visiting(nodes, env), entry, state)
       <==> && Chain(nodes, env, entry, |nodes|)
            && AllSupplied(ChainFields(nodes, env, entry, |nodes|), state)
            && Lost(nodes, env, ChainEnd(nodes, env, entry, |nodes|))
  {
    var step, n := Visiting(nodes, env), |nodes|;
    WalkIffChain(nodes, env, entry, state, n);
    if Chain(nodes, env, entry, n) {
      AskAllIff(ChainFields(nodes, env, entry, n), state);
    }
    if Walk(step, entry, state, n) == None {
      var end, after := ChainEnd(nodes, env, entry, n), AskAll(ChainFields(nodes, env, entry, n), state).value;
      assert Walk(step, entry, state, n + 1) == Walk(step, end, after, 1);
      LostWalk(nodes, env, end, after);
      if NeverEnds(step, entry, state) {
        assert Walk(step, entry, state, n + 1) == None;
      } else {
        VisitsSettle(nodes, env);
        assert |nodes.Keys| == n;
        Pigeonhole(step, nodes.Keys, {}, entry, state, n);
      }
    }
  }

  /** A visit fails for a lost node exactly there. */
  lemma LostWalk(nodes: Nodes, env: Environment, id: string, state: Answers)
    ensures LostNext(Walk(Visiting(nodes, env), id, state, 1)) <==> Lost(nodes, env, id)
  {
    if id in nodes && FieldsOf(nodes[id].mapping).Some? {
      AskAllNotLost(FieldsOf(nodes[id].mapping).value, state);
    }
  }

  lemma {:induction false} AskAllNotLost(fields: seq<Value>, state: Answers)
    ensures AskAll(fields, state).Err? ==> !LostNode(Err(AskAll(fields, state).error))
  {
    if fields != [] {
      AskAllNotLost(fields[..|fields| - 1], state);
    }
  }

  // ---- What an outcome says about the flow ----

  /** A field of a questions node asks for an answer. */
  predicate AsksFor(field: Value, id: string) {
    field.Object? && "id" in field.fields && field.fields["id"] == Str(id)
  }

  predicate HasDefault(field: Value, default: Value) {
    field.Object? && "default" in field.fields && field.fields["default"] == default
  }

  ghost predicate Asks(field: Value) { exists id :: AsksFor(field, id) }

  /** An answer comes from the answers given, or else is the default of the first field that asks for it. */
  ghost predicate Sourced(fields: seq<Value>, given: Answers, id: string, answer: Value) {
    if id in given then answer == given[id]
    else exists j :: 0 <= j < |fields| && AsksFor(fields[j], id) && HasDefault(fields[j], answer)
                  && forall i :: 0 <= i < j ==> !AsksFor(fields[i], id)
  }

  lemma AsksForIff(field: Value, id: string)
    ensures IdOf(field) == Some(id) <==> AsksFor(field, id)
    ensures forall default :: field.Get("default") == Some(default) <==> HasDefault(field, default)
  {}

  lemma {:induction false} AskAllSourced(fields: seq<Value>, given: Answers)
    requires AskAll(fields, given).Ok?
    ensures forall id :: id in given ==> id in AskAll(fields, given).value
    ensures forall id :: id in AskAll(fields, given).value ==>
              Sourced(fields, given, id, AskAll(fields, given).value[id])
    ensures forall i, id :: 0 <= i < |fields| && AsksFor(fields[i], id) ==> id in AskAll(fields, given).value
  {
    if fields != [] {
      var n := |fields| - 1;
      var before, after := AskAll(fields[..n], given).value, AskAll(fields, given).value;
      AskAllSourced(fields[..n], given);
      assert forall i {:trigger fields[i]} {:trigger fields[..n][i]} :: 0 <= i < n ==> fields[..n][i] == fields[i];
      forall id | id in after ensures Sourced(fields, given, id, after[id]) {
        AsksForIff(fields[n], id);
        if id in before {
          assert Sourced(fields[..n], given, id, before[id]);
          SourcedLonger(fields, n, given, id, before[id]);
        } else {
          assert forall i :: 0 <= i < n ==> !AsksFor(fields[..n][i], id);
          assert AsksFor(fields[n], id) && HasDefault(fields[n], after[id]);
        }
      }
      forall i, id | 0 <= i < |fields| && AsksFor(fields[i], id) ensures id in after {
        AsksForIff(fields[n], id);
        if i < n {
          assert AsksFor(fields[..n][i], id);
        }
      }
    }
  }

  lemma SourcedLonger(fields: seq<Value>, n: nat, given: Answers, id: string, answer: Value)
    requires n <= |fields| && Sourced(fields[..n], given, id, answer)
    ensures Sourced(fields, given, id, answer)
  {
    if id !in given {
      var j :| 0 <= j < n && AsksFor(fields[..n][j], id) && HasDefault(fields[..n][j], answer)
            && forall i :: 0 <= i < j ==> !AsksFor(fields[..n][i], id);
      assert forall i {:trigger fields[i]} :: 0 <= i < n ==> fields[i] == fields[..n][i];
    }
  }

  /** Why a walk that has come to a node with these answers ends there, and with what. */
  ghost predicate Ends(nodes: Nodes, env: Environment, id: string, state: Answers, outcome: Outcome) {
    if !env.validId(id) then outcome == Err(InvalidNodeId(id))
    else if id !in nodes then outcome == Err(MissingNode(id))
    else
      var node := nodes[id];
      if node.component == "template" then
        match env.render(node.mapping, state, id)
        case Ok(payload) => outcome == Ok(payload)
        case Err(message) => outcome == Err(TemplateFailed(message))
      else if node.component != "questions" then outcome == Err(UnsupportedComponent(node.component))
      else QuestionsEnd(node.mapping, node.route, state, outcome)
  }

  /** A questions node ends a walk for its fields, in order, or else for its route. */
  ghost predicate QuestionsEnd(mapping: Value, route: Route, state: Answers, outcome: Outcome) {
    if !(mapping.Object? && "fields" in mapping.fields && mapping.fields["fields"].Array?) then
      outcome == Err(FieldsMissing)
    else
      var fields := mapping.fields["fields"].items;
      || (exists k :: 0 <= k < |fields| && FirstUnsupplied(fields, k, state)
                   && if Asks(fields[k]) then exists id :: AsksFor(fields[k], id) && outcome == Err(AnswerMissing(id))
                      else outcome == Err(FieldIdMissing))
      || (AllSupplied(fields, state) && (route.End? || route.Reply?) && outcome == Err(TerminatedEarly))
      || (AllSupplied(fields, state) && (route.Branch? || route.Custom?) && outcome == Err(UnsupportedRoute))
  }

  ghost predicate FirstUnsupplied(fields: seq<Value>, k: nat, state: Answers)
    requires k < |fields|
  {
    !Supplied(fields, k, state) && forall i :: 0 <= i < k ==> Supplied(fields, i, state)
  }

  lemma {:induction false} AskAllErrs(fields: seq<Value>, state: Answers) returns (k: nat)
    requires AskAll(fields, state).Err?
    ensures k < |fields| && FirstUnsupplied(fields, k, state)
    ensures (AskAll(fields, state).error.FieldIdMissing? && !Asks(fields[k]))
            || exists id :: AsksFor(fields[k], id) && AskAll(fields, state) == Err(AnswerMissing(id))
  {
    var n := |fields| - 1;
    SuppliedPrefix(fields, n, state);
    AskAllIff(fields[..n], state);
    if AskAll(fields[..n], state).Err? {
      k := AskAllErrs(fields[..n], state);
      assert fields[..n][k] == fields[k];
    } else {
      k := n;
      if IdOf(fields[n]).Some? {
        AsksForIff(fields[n], IdOf(fields[n]).value);
      }
      forall id ensures IdOf(fields[n]) == Some(id) <==> AsksFor(fields[n], id) {
        AsksForIff(fields[n], id);
      }
    }
  }

  lemma VisitEnds(nodes: Nodes, env: Environment, id: string, state: Answers)
    requires Visit(nodes, env, id, state).Halt?
    ensures Ends(nodes, env, id, state, Visit(nodes, env, id, state).outcome)
  {
    if env.validId(id) && id in nodes && nodes[id].component == "questions" && FieldsOf(nodes[id].mapping).Some? {
      var fields := FieldsOf(nodes[id].mapping).value;
      AskAllIff(fields, state);
      if AskAll(fields, state).Err? {
        var k := AskAllErrs(fields, state);
      }
    }
  }

  /** What is known are the answers given and the defaults of the fields asked, each from its source. */
  ghost predicate Knows(fields: seq<Value>, given: Answers, state: Answers) {
    && (forall id :: id in state <==> KnownAfter(fields, given, id))
    && (forall id :: id in state ==> Sourced(fields, given, id, state[id]))
  }

  lemma AskedKnows(fields: seq<Value>, given: Answers)
    requires AskAll(fields, given).Ok?
    ensures AllSupplied(fields, given) && Knows(fields, given, AskAll(fields, given).value)
  {
    AskAllIff(fields, given);
    AskAllSourced(fields, given);
  }

  /** Where the chain of routes from the entry has come to after k nodes, what is known there, and that
      the walk ends there. */
  ghost predicate EndsAt(nodes: Nodes, env: Environment, entry: string, given: Answers, outcome: Outcome, k: nat) {
    && Chain(nodes, env, entry, k)
    && var fields := ChainFields(nodes, env, entry, k);
       && AllSupplied(fields, given)
       && exists state ::
            && Knows(fields, given, state)
            && Ends(nodes, env, ChainEnd(nodes, env, entry, k), state, outcome)
  }

  ghost predicate Explained(nodes: Nodes, env: Environment, entry: string, given: Answers, outcome: Outcome) {
    exists k: nat :: EndsAt(nodes, env, entry, given, outcome, k)
  }

  /** A walk ends where the chain of routes first cannot be left, for the reason found there, knowing
      exactly the answers given and the defaults of the fields asked on the way. */
  lemma {:induction false} OutcomeExplained(nodes: Nodes, env: Environment, entry: string, given: Answers, n: nat)
    requires Walk(Visiting(nodes, env), entry, given, n).Some?
    ensures Explained(nodes, env, entry, given, Walk(Visiting(nodes, env), entry, given, n).value)
  {
    hide Knows, Ends, AllSupplied, AskAll, Chain, ChainFields, ChainEnd;
    var step := Visiting(nodes, env);
    if Walk(step, entry, given, n - 1).Some? {
      OutcomeExplained(nodes, env, entry, given, n - 1);
      WalkStable(step, entry, given, n - 1, n);
    } else {
      WalkIffChain(nodes, env, entry, given, n - 1);
      var fields := ChainFields(nodes, env, entry, n - 1);
      var id, state := ChainEnd(nodes, env, entry, n - 1), AskAll(fields, given).value;
      AskedKnows(fields, given);
      assert Walk(step, id, state, 1) == Walk(step, entry, given, n);
      assert step(id, state).Halt?;
      VisitEnds(nodes, env, id, state);
      assert EndsAt(nodes, env, entry, given, Walk(step, entry, given, n).value, n - 1);
    }
  }

  /** What `RunConfigFlow` comes to, from its own inputs: it starts at the flow's start node, at a node
      named "in" or at the first one, and with the answers if they are an object. */
  lemma FlowExplained(doc: FlowDoc, nodes: Nodes, env: Environment, answers: Option<Value>)
    ensures var given := if answers.Some? && answers.value.Object? then answers.value.fields else map[];
            var entry := if doc.start.Some? then doc.start.value
                         else if "in" in doc.nodeIds || doc.nodeIds == [] then "in" else doc.nodeIds[0];
            var walked := Walk(Visiting(nodes, env), ResolveEntry(doc), StartState(answers), |nodes| + SLACK);
            && (walked.Some? ==> Explained(nodes, env, entry, given, walked.value))
            && (walked == None <==>
                  && Chain(nodes, env, entry, |nodes| + 1)
                  && AllSupplied(ChainFields(nodes, env, entry, |nodes| + 1), given))
  {
    hide Explained, AllSupplied;
    var entry, given := ResolveEntry(doc), StartState(answers);
    LimitMeansNoEnd(nodes, env, entry, given);
    LimitIffChain(nodes, env, entry, given);
    if Walk(Visiting(nodes, env), entry, given, |nodes| + SLACK).Some? {
      OutcomeExplained(nodes, env, entry, given, |nodes| + SLACK);
    }
  }

  predicate Renders(nodes: Nodes, env: Environment, id: string, state: Answers, payload: Value) {
    id in nodes && nodes[id].component == "template" && env.render(nodes[id].mapping, state, id) == Ok(payload)
  }

  /** A supplied answer counts: it is never reported missing, and the template is rendered with it. */
  lemma SuppliedAnswerCounts(nodes: Nodes, env: Environment, entry: string, given: Answers, outcome: Outcome)
    requires Explained(nodes, env, entry, given, outcome)
    ensures outcome.Err? && outcome.error.AnswerMissing? ==> outcome.error.id !in given
    ensures outcome.Ok? ==> exists id, state :: Extends(given, state) && Renders(nodes, env, id, state, outcome.value)
  {
    hide Knows, QuestionsEnd;
    var k: nat :| EndsAt(nodes, env, entry, given, outcome, k);
    var fields, id := ChainFields(nodes, env, entry, k), ChainEnd(nodes, env, entry, k);
    var state :| Knows(fields, given, state) && Ends(nodes, env, id, state, outcome);
    KnowsGiven(fields, given, state);
    assert outcome.Ok? ==> Renders(nodes, env, id, state, outcome.value) by {
      PayloadRendered(nodes, env, id, state, outcome);
    }
    if outcome.Err? && outcome.error.AnswerMissing? {
      MissingUnknown(nodes[id].mapping, nodes[id].route, state, outcome.error.id);
    }
  }

  lemma KnowsGiven(fields: seq<Value>, given: Answers, state: Answers)
    requires Knows(fields, given, state)
    ensures Extends(given, state)
  {
    forall id | id in given ensures id in state && state[id] == given[id] {
      assert KnownAfter(fields, given, id);
    }
  }

  lemma PayloadRendered(nodes: Nodes, env: Environment, id: string, state: Answers, outcome: Outcome)
    requires Ends(nodes, env, id, state, outcome)
    ensures outcome.Ok? ==> Renders(nodes, env, id, state, outcome.value)
  {}

  lemma MissingUnknown(mapping: Value, route: Route, state: Answers, id: string)
    requires QuestionsEnd(mapping, route, state, Err(AnswerMissing(id)))
    ensures id !in state
  {
    var fields := mapping.fields["fields"].items;
    var k :| 0 <= k < |fields| && FirstUnsupplied(fields, k, state) && AsksFor(fields[k], id);
    AsksForIff(fields[k], id);
  }
}
