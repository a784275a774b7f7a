/**
 * The tree builder of cutil/yaml2.c as a machine over parser events: a bounded
 * stack of open containers, a flag that tells keys from values, and nodes that
 * are linked into their parent when they are pushed.  Pointers to nodes are
 * positions in `nodes`, in the order of their creation.
 */
module YamlEvents {
  import opened Wrappers

  const LIMIT := 100

  // A document; children of a mapping have keys, those of a sequence have none.
  datatype Tree = Leaf(text: string) | Branch(mapping: bool, children: Forest)

  datatype Forest = Nil | Cons(key: Option<string>, child: Tree, rest: Forest)

  predicate Proper(t: Tree) {
    t.Branch? ==> ProperForest(t.children, t.mapping)
  }

  predicate ProperForest(f: Forest, mapping: bool) {
    f.Cons? ==> f.key.Some? == mapping && Proper(f.child) && ProperForest(f.rest, mapping)
  }

  datatype Event =
    | SequenceStart | MappingStart | SequenceEnd | MappingEnd
    | Scalar(text: string) | DocumentEnd | StreamEnd | Other

  function First(mapping: bool): Event {
    if mapping then MappingStart else SequenceStart
  }

  function Last(mapping: bool): Event {
    if mapping then MappingEnd else SequenceEnd
  }

  // The events in front of a child: its key, in a mapping.
  function Naming(key: Option<string>): seq<Event> {
    if key.Some? then [Scalar(key.value)] else []
  }

  function Events(t: Tree): seq<Event> {
    match t
    case Leaf(text) => [Scalar(text)]
    case Branch(mapping, f) =>
      [First(mapping)] + ForestEvents(f) + [Last(mapping)]
  }

  function ForestEvents(f: Forest): seq<Event> {
    match f
    case Nil => []
    case Cons(key, child, rest) =>
      Naming(key) + Events(child) + ForestEvents(rest)
  }

  // ----- the machine

  datatype Node = LeafNode(text: string) | BranchNode(mapping: bool, children: seq<(Option<string>, nat)>)

  // `dropped` records that a push met a full stack; the program has no such flag.
  datatype State = State(
    stack: seq<nat>, nodes: seq<Node>, key: bool, keyname: Option<string>, yamlw: Option<nat>, dropped: bool)

  const INITIAL := State([], [], false, None, None, false)

  ghost predicate InBounds(s: State) {
    forall i :: 0 <= i < |s.stack| ==> s.stack[i] < |s.nodes|
  }

  function Head(s: State): nat
    requires s.stack != []
  {
    s.stack[|s.stack| - 1]
  }

  // The new node linked into the container on top of the stack; None when a
  // mapping entry has no name.
  function Linked(s: State): Option<seq<Node>>
    requires InBounds(s)
  {
    if s.stack == [] then Some(s.nodes)
    else
      match s.nodes[Head(s)]
      case LeafNode(_) => Some(s.nodes)
      case BranchNode(mapping, children) =>
        if mapping && s.keyname.None? then None
        else
          var name := if mapping then s.keyname else None;
          Some(s.nodes[Head(s) := BranchNode(mapping, children + [(name, |s.nodes|)])])
  }

  // parser_stack_push: a push on a full stack is ignored.
  function Push(s: State, node: Node): (r: Option<State>)
    requires InBounds(s) && |s.stack| <= LIMIT
    ensures r.Some? ==> InBounds(r.value) && |r.value.stack| <= LIMIT && r.value.stack != []
  {
    match Linked(s)
    case None => None
    case Some(nodes) =>
      Some(s.(stack := if |s.stack| == LIMIT then s.stack else s.stack + [|s.nodes|],
              nodes := nodes + [node],
              dropped := s.dropped || |s.stack| == LIMIT))
  }

  function Pop(s: State): (r: State)
    ensures InBounds(s) ==> InBounds(r)
  {
    if s.stack == [] then s else s.(stack := s.stack[..|s.stack| - 1])
  }

  // `*yamlw = stack_pop`
  function PopResult(s: State): (r: State)
    ensures InBounds(s) ==> InBounds(r)
  {
    Pop(s).(yamlw := if s.stack == [] then None else Some(Head(s)))
  }

  ghost predicate Valid(s: State) {
    InBounds(s) && |s.stack| <= LIMIT
  }

  function StepScalar(s: State, text: string): (r: Option<State>)
    requires Valid(s)
    ensures r.Some? ==> Valid(r.value)
  {
    if s.stack == [] then Push(s, LeafNode(text))
    else
      match s.nodes[Head(s)]
      case LeafNode(_) => None     // the assertion that the head is a sequence
      case BranchNode(true, _) =>
        if !s.key then Some(s.(keyname := Some(text), key := true))
        else
          (match Push(s, LeafNode(text))
           case None => None
           case Some(s') => Some(Pop(s').(keyname := None, key := false)))
      case BranchNode(false, _) =>
        if s.keyname.Some? then None     // the name is freed here, and used again later
        else
          match Push(s, LeafNode(text))
          case None => None
          case Some(s') => Some(Pop(s'))
  }

  // One event; None stands for a crash.
  function Step(s: State, e: Event): (r: Option<State>)
    requires Valid(s)
    ensures r.Some? ==> Valid(r.value)
  {
    match e
    case SequenceStart =>
      (match Push(s, BranchNode(false, []))
       case None => None
       case Some(s') => Some(s'.(keyname := None)))
    case MappingStart =>
      (match Push(s.(key := false), BranchNode(true, []))
       case None => None
       case Some(s') => Some(s'.(keyname := None)))
    case SequenceEnd => Some(PopResult(s))
    case MappingEnd => Some(PopResult(s))
    case Scalar(text) => StepScalar(s, text)
    case DocumentEnd => Some(if s.stack == [] then s else PopResult(s))
    case StreamEnd => Some(s)
    case Other => Some(s)
  }

  function Run(s: State, es: seq<Event>): (r: Option<State>)
    requires Valid(s)
    ensures r.Some? ==> Valid(r.value)
    decreases |es|
  {
    if es == [] then Some(s)
    else
      match Step(s, es[0])
      case None => None
      case Some(s') => Run(s', es[1..])
  }

  // ----- the effect of each event

  predicate InMapping(s: State)
    requires s.stack != [] ==> Head(s) < |s.nodes|
  {
    s.stack != [] && s.nodes[Head(s)].BranchNode? && s.nodes[Head(s)].mapping
  }

  predicate InSequence(s: State)
    requires s.stack != [] ==> Head(s) < |s.nodes|
  {
    s.stack != [] && s.nodes[Head(s)].BranchNode? && !s.nodes[Head(s)].mapping
  }

  // t has node as its newest, a child of the open container, named in a mapping.
  predicate Linking(s: State, t: State, node: Node)
    requires s.stack != [] ==> Head(s) < |s.nodes|
  {
    && |t.nodes| == |s.nodes| + 1 && t.nodes[|s.nodes|] == node
    && forall i :: 0 <= i < |s.nodes| ==>
         t.nodes[i] ==
           if s.stack != [] && i == Head(s) && s.nodes[i].BranchNode? then
             var name := if s.nodes[i].mapping then s.keyname else None;
             BranchNode(s.nodes[i].mapping, s.nodes[i].children + [(name, |s.nodes|)])
           else s.nodes[i]
  }

  // A push: it crashes on a mapping entry without a name, and on a full stack the node
  // is linked all the same, but cannot be entered.
  lemma PushIs(s: State, node: Node)
    requires Valid(s)
    ensures Push(s, node).None? <==> InMapping(s) && s.keyname.None?
    ensures Push(s, node).Some? ==>
              var t := Push(s, node).value;
              && Linking(s, t, node)
              && t.stack == (if |s.stack| >= 100 then s.stack else s.stack + [|s.nodes|])
              && t.key == s.key && t.keyname == s.keyname && t.yamlw == s.yamlw
  {
  }

  // The ends: what is taken off the stack is the result so far.
  lemma EndIs(s: State, e: Event)
    requires Valid(s) && (e == SequenceEnd || e == MappingEnd || e == DocumentEnd || e == StreamEnd || e == Other)
    ensures Step(s, e).Some?
    ensures var t := Step(s, e).value;
            && t.nodes == s.nodes && t.key == s.key && t.keyname == s.keyname
            && (if e == StreamEnd || e == Other || (e == DocumentEnd && s.stack == []) then t == s
                else if s.stack == [] then t.stack == [] && t.yamlw == None
                else s.stack == t.stack + [Head(s)] && t.yamlw == Some(Head(s)))
  {
    if s.stack != [] {
      assert s.stack == s.stack[..|s.stack| - 1] + [Head(s)];
    }
  }

  // A scalar: in a mapping by turns a name and a value, else a value; it crashes below
  // a scalar, or in a sequence while a name is left over.
  lemma ScalarIs(s: State, text: string)
    requires Valid(s)
    ensures Step(s, Scalar(text)).None? <==>
              || (s.stack != [] && !InMapping(s) && !InSequence(s))
              || (InSequence(s) && s.keyname.Some?)
              || (InMapping(s) && s.key && s.keyname.None?)
    ensures InMapping(s) && !s.key ==>
              Step(s, Scalar(text)) == Some(s.(keyname := Some(text), key := true))
    ensures Step(s, Scalar(text)).Some? && !(InMapping(s) && !s.key) ==>
              var t := Step(s, Scalar(text)).value;
              && Linking(s, t, LeafNode(text)) && t.yamlw == s.yamlw
              && t.keyname == (if InMapping(s) then None else s.keyname)
              && t.key == (s.key && !InMapping(s))
              && t.stack == if s.stack == [] then [|s.nodes|]
                            else if |s.stack| >= 100 then s.stack[..|s.stack| - 1] else s.stack
  {
    PushIs(s, LeafNode(text));
    hide Push, Linking;
  }

  // A container: it is entered, no name is left, and a mapping starts with a key.
  lemma StartIs(s: State, mapping: bool)
    requires Valid(s)
    ensures Step(s, First(mapping)).None? <==> InMapping(s) && s.keyname.None?
    ensures Step(s, First(mapping)).Some? ==>
              var t := Step(s, First(mapping)).value;
              && Linking(s, t, BranchNode(mapping, []))
              && t.stack == (if |s.stack| >= 100 then s.stack else s.stack + [|s.nodes|])
              && t.keyname == None && t.key == (s.key && !mapping) && t.yamlw == s.yamlw
  {
    PushIs(s, BranchNode(mapping, []));
    PushIs(s.(key := false), BranchNode(mapping, []));
    hide Push;
  }

  datatype Outcome = Crashed | ParseError | Done(state: State)

  // The event loop; the event source fails when no document end comes.
  function Parse(s: State, es: seq<Event>): Outcome
    requires Valid(s)
    decreases |es|
  {
    if es == [] then ParseError
    else
      match Step(s, es[0])
      case None => Crashed
      case Some(s') => if es[0] == DocumentEnd || es[0] == StreamEnd then Done(s') else Parse(s', es[1..])
  }

  lemma {:induction false} RunAppend(s: State, a: seq<Event>, b: seq<Event>)
    requires Valid(s)
    ensures Run(s, a + b) == match Run(s, a) case None => None case Some(s') => Run(s', b)
    decreases |a|
  {
    if a == [] {
      assert a + b == b;
    } else {
      assert (a + b)[0] == a[0] && (a + b)[1..] == a[1..] + b;
      match Step(s, a[0])
      case None =>
      case Some(s') => RunAppend(s', a[1..], b);
    }
  }

  // ----- the tree a node holds

  ghost predicate Holds(nodes: seq<Node>, id: nat, t: Tree)
    decreases t
  {
    && id < |nodes|
    && match t
       case Leaf(text) => nodes[id] == LeafNode(text)
       case Branch(mapping, f) =>
         nodes[id].BranchNode? && nodes[id].mapping == mapping && HoldsForest(nodes, id, nodes[id].children, f)
  }

  ghost predicate HoldsForest(nodes: seq<Node>, above: nat, cs: seq<(Option<string>, nat)>, f: Forest)
    decreases f
  {
    match f
    case Nil => cs == []
    case Cons(key, child, rest) =>
      && cs != [] && cs[0].0 == key && above < cs[0].1
      && Holds(nodes, cs[0].1, child) && HoldsForest(nodes, above, cs[1..], rest)
  }

  // A node holds one tree.
  lemma {:induction false} HoldsUnique(nodes: seq<Node>, id: nat, t: Tree, t': Tree)
    requires Holds(nodes, id, t) && Holds(nodes, id, t')
    ensures t == t'
    decreases t
  {
    if t.Branch? {
      HoldsUniqueForest(nodes, id, nodes[id].children, t.children, t'.children);
    }
  }

  lemma {:induction false} HoldsUniqueForest(nodes: seq<Node>, above: nat, cs: seq<(Option<string>, nat)>, f: Forest,
                                             f': Forest)
    requires HoldsForest(nodes, above, cs, f) && HoldsForest(nodes, above, cs, f')
    ensures f == f'
    decreases f
  {
    if f.Cons? {
      HoldsUnique(nodes, cs[0].1, f.child, f'.child);
      HoldsUniqueForest(nodes, above, cs[1..], f.rest, f'.rest);
    }
  }

  // The nodes from lo on are untouched, and others may follow.
  ghost predicate KeptFrom(nodes: seq<Node>, nodes': seq<Node>, lo: nat) {
    |nodes| <= |nodes'| && forall i :: lo <= i < |nodes| ==> nodes'[i] == nodes[i]
  }

  lemma {:induction false} HoldsKept(nodes: seq<Node>, nodes': seq<Node>, lo: nat, id: nat, t: Tree)
    requires KeptFrom(nodes, nodes', lo) && lo <= id && Holds(nodes, id, t)
    ensures Holds(nodes', id, t)
    decreases t
  {
    if t.Branch? {
      HoldsForestKept(nodes, nodes', lo, id, nodes[id].children, t.children);
    }
  }

  lemma {:induction false} HoldsForestKept(
      nodes: seq<Node>, nodes': seq<Node>, lo: nat, above: nat, cs: seq<(Option<string>, nat)>, f: Forest)
    requires KeptFrom(nodes, nodes', lo) && lo <= above + 1 && HoldsForest(nodes, above, cs, f)
    ensures HoldsForest(nodes', above, cs, f)
    decreases f
  {
    if f.Cons? {
      HoldsKept(nodes, nodes', lo, cs[0].1, f.child);
      HoldsForestKept(nodes, nodes', lo, above, cs[1..], f.rest);
    }
  }

  // ----- when the machine is right

  // Levels of the stack a tree needs; a scalar is pushed too.
  function Height(t: Tree): nat {
    match t
    case Leaf(_) => 1
    case Branch(_, f) => 1 + ForestHeight(f)
  }

  function ForestHeight(f: Forest): nat {
    match f
    case Nil => 0
    case Cons(_, child, rest) => if Height(child) > ForestHeight(rest) then Height(child) else ForestHeight(rest)
  }

  // The key flag after a tree, given the flag before it: a mapping starts it
  // anew, a sequence does not clear it.
  function KeyAfter(t: Tree, inMapping: bool, key: bool): bool {
    match t
    case Leaf(_) => key && !inMapping
    case Branch(mapping, f) => ForestKey(f, mapping, key && !mapping)
  }

  function ForestKey(f: Forest, mapping: bool, key: bool): bool {
    match f
    case Nil => key
    case Cons(_, child, rest) => ForestKey(rest, mapping, KeyAfter(child, mapping, key || mapping))
  }

  // No key of a mapping comes while the flag is still set by the value before.
  predicate WellKeyed(t: Tree) {
    t.Branch? ==> ForestWellKeyed(t.children, t.mapping, false)
  }

  predicate ForestWellKeyed(f: Forest, mapping: bool, key: bool) {
    match f
    case Nil => true
    case Cons(_, child, rest) =>
      && !(mapping && key)
      && WellKeyed(child)
      && ForestWellKeyed(rest, mapping, KeyAfter(child, mapping, key || mapping))
  }

  lemma {:induction false} SequenceKeys(f: Forest, key: bool, key': bool)
    ensures ForestWellKeyed(f, false, key) == ForestWellKeyed(f, false, key')
    decreases f
  {
    if f.Cons? {
      SequenceKeys(f.rest, KeyAfter(f.child, false, key), KeyAfter(f.child, false, key'));
    }
  }

  // The head is an open container that waits for a value with this name.
  ghost predicate Ready(s: State, name: Option<string>) {
    && Valid(s) && s.stack != [] && s.nodes[Head(s)].BranchNode?
    && s.keyname == name
    && name.Some? == s.nodes[Head(s)].mapping
    && (name.Some? ==> s.key)
  }

  // Some children were added to the head, and nothing else changed but newer nodes.
  ghost predicate Extended(s: State, s': State, cs: seq<(Option<string>, nat)>)
    requires Valid(s) && s.stack != [] && s.nodes[Head(s)].BranchNode?
  {
    && Valid(s') && s'.stack == s.stack && s'.dropped == s.dropped && s'.keyname == None
    && |s.nodes| <= |s'.nodes|
    && (forall i :: 0 <= i < |s.nodes| && i != Head(s) ==> s'.nodes[i] == s.nodes[i])
    && s'.nodes[Head(s)] == BranchNode(s.nodes[Head(s)].mapping, s.nodes[Head(s)].children + cs)
  }

  // ----- trees that fit

  lemma LeafStep(s: State, text: string, name: Option<string>)
    requires Ready(s, name) && |s.stack| < LIMIT
    ensures Step(s, Scalar(text)).Some?
    ensures var s' := Step(s, Scalar(text)).value;
            && Extended(s, s', [(name, |s.nodes|)]) && s'.nodes[|s.nodes|..] == [LeafNode(text)]
            && s'.key == (s.key && !s.nodes[Head(s)].mapping)
  {
    var s1 := Push(s, LeafNode(text)).value;
    assert Pop(s1).stack == s.stack;
  }

  lemma StartStep(s: State, mapping: bool, name: Option<string>)
    requires Ready(s, name) && |s.stack| < LIMIT
    ensures Step(s, First(mapping)).Some?
    ensures var s' := Step(s, First(mapping)).value;
            && Extended(s, Pop(s'), [(name, |s.nodes|)]) && s'.stack == s.stack + [|s.nodes|]
            && s'.nodes[|s.nodes|..] == [BranchNode(mapping, [])]
            && s'.key == (s.key && !mapping)
  {
    var s' := Step(s, First(mapping)).value;
    assert Pop(s').stack == s.stack;
  }

  lemma RunOne(s: State, e: Event)
    requires Valid(s)
    ensures Run(s, [e]) == Step(s, e)
  {
    match Step(s, e)
    case None =>
    case Some(s') => assert Run(s', []) == Some(s');
  }

  // The head is an open container between two values.
  ghost predicate Between(s: State) {
    Valid(s) && s.stack != [] && s.nodes[Head(s)].BranchNode? && s.keyname == None
  }

  // What a run over the events of a value has done, if it has not crashed.
  ghost predicate Built(s: State, r: Option<State>, name: Option<string>, t: Tree)
    requires Ready(s, name)
  {
    && r.Some? && Extended(s, r.value, [(name, |s.nodes|)]) && |s.nodes| < |r.value.nodes|
    && Holds(r.value.nodes, |s.nodes|, t)
    && r.value.key == KeyAfter(t, name.Some?, s.key)
  }

  ghost predicate BuiltForest(s: State, r: Option<State>, cs: seq<(Option<string>, nat)>, f: Forest)
    requires Between(s)
  {
    && r.Some? && Extended(s, r.value, cs)
    && HoldsForest(r.value.nodes, Head(s), cs, f)
    && r.value.key == ForestKey(f, s.nodes[Head(s)].mapping, s.key)
  }

  function Then(r: Option<State>, es: seq<Event>): Option<State>
    requires r.Some? ==> Valid(r.value)
  {
    match r
    case None => None
    case Some(s) => Run(s, es)
  }

  lemma RunThree(s: State, a: seq<Event>, b: seq<Event>, c: seq<Event>)
    requires Valid(s)
    ensures Run(s, a + b + c) == Then(Then(Run(s, a), b), c)
  {
    RunAppend(s, a + b, c);
    RunAppend(s, a, b);
  }

  // The container node, pushed as s1 and filled as s2, is closed.
  lemma CloseBranch(s: State, s1: State, s2: State, name: Option<string>, cs: seq<(Option<string>, nat)>,
                    mapping: bool, f: Forest)
    requires Ready(s, name) && |s.stack| < LIMIT && Step(s, First(mapping)) == Some(s1)
    requires Between(s1) && BuiltForest(s1, Some(s2), cs, f)
    ensures Built(s, Some(PopResult(s2)), name, Branch(mapping, f))
  {
    StartStep(s, mapping, name);
    hide Step, HoldsForest;
    assert s1.nodes[|s.nodes|] == s1.nodes[|s.nodes|..][0];
    var s3 := PopResult(s2);
    assert s3.stack == s.stack;
    assert s3.nodes[|s.nodes|] == BranchNode(mapping, cs) by {
      assert [] + cs == cs;
    }
  }

  lemma OpenBranch(s: State, mapping: bool, name: Option<string>)
    requires Ready(s, name) && |s.stack| < LIMIT
    ensures Step(s, First(mapping)).Some?
    ensures var s1 := Step(s, First(mapping)).value;
            && Between(s1) && s1.key == (s.key && !mapping)
            && |s1.stack| == |s.stack| + 1 && s1.nodes[Head(s1)].mapping == mapping
  {
    StartStep(s, mapping, name);
    hide Step;
    var s1 := Step(s, First(mapping)).value;
    assert s1.nodes[|s.nodes|] == s1.nodes[|s.nodes|..][0];
  }

  lemma {:induction false} BuildTree(s: State, t: Tree, name: Option<string>)
    requires Ready(s, name) && Proper(t) && |s.stack| + Height(t) <= LIMIT
    ensures if WellKeyed(t) then Built(s, Run(s, Events(t)), name, t) else Run(s, Events(t)) == None
    decreases t
  {
    match t {
      case Leaf(text) =>
        RunOne(s, Scalar(text));
        LeafStep(s, text, name);
        hide Step, Run;
        var s' := Step(s, Scalar(text)).value;
        assert s'.nodes[|s.nodes|] == s'.nodes[|s.nodes|..][0];
      case Branch(mapping, f) =>
        OpenBranch(s, mapping, name);
        RunOne(s, First(mapping));
        var s1 := Step(s, First(mapping)).value;
        hide Step, Run, Built, BuiltForest, Between, Ready;
        RunThree(s, [First(mapping)], ForestEvents(f), [Last(mapping)]);
        SequenceKeys(f, false, s1.key);
        var cs := BuildForest(s1, f);
        if WellKeyed(t) {
          var s2 := Run(s1, ForestEvents(f)).value;
          CloseBranch(s, s1, s2, name, cs, mapping, f);
          RunLast(s2, mapping);
        }
    }
  }

  lemma RunLast(s: State, mapping: bool)
    requires Valid(s)
    ensures Run(s, [Last(mapping)]) == Some(PopResult(s))
  {
    RunOne(s, Last(mapping));
  }

  // A key cannot be read while the flag is set: the missing name crashes.
  lemma NameStep(s: State, key: Option<string>)
    requires Between(s) && key.Some? == s.nodes[Head(s)].mapping
    ensures Run(s, Naming(key)) ==
              if key.Some? && s.key then None else Some(s.(keyname := key, key := s.key || key.Some?))
    ensures Run(s, Naming(key)).Some? ==> Ready(Run(s, Naming(key)).value, key)
  {
    if key.Some? {
      RunOne(s, Scalar(key.value));
    }
  }

  // The first child, built as s2, and the others, built as s3.
  lemma JoinChildren(s: State, s1: State, s2: State, s3: State, key: Option<string>, child: Tree,
                     more: seq<(Option<string>, nat)>, rest: Forest)
    requires Between(s) && s1 == s.(keyname := key, key := s.key || key.Some?) && Ready(s1, key)
    requires Built(s1, Some(s2), key, child)
    requires Between(s2) && BuiltForest(s2, Some(s3), more, rest)
    ensures BuiltForest(s, Some(s3), [(key, |s.nodes|)] + more, Cons(key, child, rest))
  {
    var cs := [(key, |s.nodes|)] + more;
    HoldsKept(s2.nodes, s3.nodes, Head(s) + 1, |s.nodes|, child);
    hide Holds;
    assert cs[1..] == more;
    assert s.nodes[Head(s)].children + [(key, |s.nodes|)] + more == s.nodes[Head(s)].children + cs;
  }

  lemma BuiltBetween(s: State, s': State, name: Option<string>, t: Tree)
    requires Ready(s, name) && Built(s, Some(s'), name, t)
    ensures Between(s') && s'.stack == s.stack && s'.nodes[Head(s')].mapping == s.nodes[Head(s)].mapping
    ensures s'.key == KeyAfter(t, name.Some?, s.key)
  {
    hide Holds;
  }

  lemma BuiltNothing(s: State)
    requires Between(s)
    ensures BuiltForest(s, Some(s), [], Nil)
  {
    assert s.nodes[Head(s)].children + [] == s.nodes[Head(s)].children;
  }

  lemma {:induction false} BuildForest(s: State, f: Forest) returns (cs: seq<(Option<string>, nat)>)
    requires Between(s) && ProperForest(f, s.nodes[Head(s)].mapping) && |s.stack| + ForestHeight(f) <= LIMIT
    ensures if ForestWellKeyed(f, s.nodes[Head(s)].mapping, s.key) then BuiltForest(s, Run(s, ForestEvents(f)), cs, f)
            else Run(s, ForestEvents(f)) == None
    decreases f
  {
    var mapping := s.nodes[Head(s)].mapping;
    cs := [];
    match f {
      case Nil =>
        BuiltNothing(s);
      case Cons(key, child, rest) =>
        RunThree(s, Naming(key), Events(child), ForestEvents(rest));
        NameStep(s, key);
        hide Run, Events, ForestEvents, Built, BuiltForest, Ready;
        if !(mapping && s.key) {
          var s1 := Run(s, Naming(key)).value;
          BuildTree(s1, child, key);
          if WellKeyed(child) {
            var s2 := Run(s1, Events(child)).value;
            BuiltBetween(s1, s2, key, child);
            var more := BuildForest(s2, rest);
            cs := [(key, |s.nodes|)] + more;
            if ForestWellKeyed(rest, mapping, s2.key) {
              JoinChildren(s, s1, s2, Run(s2, ForestEvents(rest)).value, key, child, more, rest);
            }
          }
        }
    }
  }

  // ----- trees that do not fit

  lemma {:induction false} DroppedStays(s: State, es: seq<Event>)
    requires Valid(s) && s.dropped && Run(s, es).Some?
    ensures Run(s, es).value.dropped
    decreases |es|
  {
    if es != [] {
      StepDropped(s, es[0]);
      DroppedStays(Step(s, es[0]).value, es[1..]);
    }
  }

  lemma StepDropped(s: State, e: Event)
    requires Valid(s) && Step(s, e).Some?
    ensures s.dropped ==> Step(s, e).value.dropped
  {
  }

  ghost predicate CrashedOrDropped(r: Option<State>) {
    r.Some? ==> r.value.dropped
  }

  lemma ThenDropped(r: Option<State>, es: seq<Event>)
    requires (r.Some? ==> Valid(r.value)) && CrashedOrDropped(r)
    ensures CrashedOrDropped(Then(r, es))
  {
    if r.Some? && Run(r.value, es).Some? {
      DroppedStays(r.value, es);
    }
  }

  lemma PushOnFull(s: State, e: Event, name: Option<string>)
    requires Ready(s, name) && |s.stack| == LIMIT && (e.Scalar? || e.MappingStart? || e.SequenceStart?)
    ensures CrashedOrDropped(Step(s, e))
  {
  }

  // A tree too high for what is left of the stack makes it crash or drop a node.
  lemma {:induction false} TallTree(s: State, t: Tree, name: Option<string>)
    requires Ready(s, name) && Proper(t) && |s.stack| + Height(t) > LIMIT
    ensures CrashedOrDropped(Run(s, Events(t)))
    decreases t
  {
    match t {
      case Leaf(text) =>
        RunOne(s, Scalar(text));
        PushOnFull(s, Scalar(text), name);
      case Branch(mapping, f) =>
        RunOne(s, First(mapping));
        RunThree(s, [First(mapping)], ForestEvents(f), [Last(mapping)]);
        if |s.stack| == LIMIT {
          PushOnFull(s, First(mapping), name);
          hide Step, Run, Ready;
          ThenDropped(Step(s, First(mapping)), ForestEvents(f));
        } else {
          OpenBranch(s, mapping, name);
          hide Step, Run, Ready, Between;
          TallForest(Step(s, First(mapping)).value, f);
        }
        ThenDropped(Then(Step(s, First(mapping)), ForestEvents(f)), [Last(mapping)]);
    }
  }

  lemma {:induction false} TallForest(s: State, f: Forest)
    requires Between(s) && ProperForest(f, s.nodes[Head(s)].mapping) && |s.stack| + ForestHeight(f) > LIMIT
    ensures CrashedOrDropped(Run(s, ForestEvents(f)))
    decreases f
  {
    match f {
      case Nil =>
        assert false;
      case Cons(key, child, rest) =>
        RunThree(s, Naming(key), Events(child), ForestEvents(rest));
        NameStep(s, key);
        hide Run, Events, ForestEvents, Built, BuiltForest, Ready;
        if Run(s, Naming(key)).Some? {
          var s1 := Run(s, Naming(key)).value;
          if |s.stack| + Height(child) > LIMIT {
            TallTree(s1, child, key);
            ThenDropped(Run(s1, Events(child)), ForestEvents(rest));
          } else {
            BuildTree(s1, child, key);
            if WellKeyed(child) {
              BuiltBetween(s1, Run(s1, Events(child)).value, key, child);
              TallForest(Run(s1, Events(child)).value, rest);
            }
          }
        }
    }
  }

  // Containers opened less containers closed.
  function Opened(es: seq<Event>): int {
    if es == [] then 0 else Delta(es[0]) + Opened(es[1..])
  }

  function Delta(e: Event): int {
    match e
    case MappingStart => 1 case SequenceStart => 1
    case MappingEnd => -1 case SequenceEnd => -1
    case _ => 0
  }

  lemma {:induction false} OpenedAppend(a: seq<Event>, b: seq<Event>)
    ensures Opened(a + b) == Opened(a) + Opened(b)
    decreases |a|
  {
    if a == [] {
      assert a + b == b;
    } else {
      assert (a + b)[0] == a[0] && (a + b)[1..] == a[1..] + b;
      OpenedAppend(a[1..], b);
    }
  }

  predicate Ending(e: Event) {
    e == DocumentEnd || e == StreamEnd
  }

  // The events of a tree are balanced, and do not end the document.
  lemma {:induction false} TreeBalanced(t: Tree)
    ensures Opened(Events(t)) == 0
    ensures forall i :: 0 <= i < |Events(t)| ==> !Ending(Events(t)[i])
    decreases t
  {
    if t.Branch? {
      var a, b, c := [First(t.mapping)], ForestEvents(t.children), [Last(t.mapping)];
      ForestBalanced(t.children);
      OpenedAppend(a + b, c);
      OpenedAppend(a, b);
      assert Opened(a) == 1 && Opened(c) == -1;
    }
  }

  lemma {:induction false} ForestBalanced(f: Forest)
    ensures Opened(ForestEvents(f)) == 0
    ensures forall i :: 0 <= i < |ForestEvents(f)| ==> !Ending(ForestEvents(f)[i])
    decreases f
  {
    if f.Cons? {
      TreeBalanced(f.child);
      ForestBalanced(f.rest);
      OpenedAppend(Naming(f.key) + Events(f.child), ForestEvents(f.rest));
      OpenedAppend(Naming(f.key), Events(f.child));
    }
  }

  // While the root is on the stack, the stack is no higher than the number of
  // open containers, and lower once a node was dropped.
  ghost predicate Tracked(s: State, depth: int) {
    && Valid(s) && s.nodes != []
    && (forall i :: 1 <= i < |s.stack| ==> s.stack[i] != 0)
    && (s.stack != [] && s.stack[0] == 0 ==> |s.stack| <= depth - if s.dropped then 1 else 0)
  }

  lemma TrackPush(s: State, node: Node, depth: int)
    requires Tracked(s, depth) && Push(s, node).Some?
    ensures Tracked(Push(s, node).value, depth + 1)
    ensures Tracked(Pop(Push(s, node).value), depth)
  {
  }

  lemma TrackPop(s: State, depth: int)
    requires Tracked(s, depth)
    ensures Tracked(PopResult(s), depth - 1) && Tracked(PopResult(s), depth)
  {
  }

  // Only the stack, the nodes and the dropping matter.
  lemma TrackSame(s: State, t: State, depth: int)
    requires Tracked(s, depth) && t.stack == s.stack && t.nodes == s.nodes && t.dropped == s.dropped
    ensures Tracked(t, depth)
  {
  }

  lemma TrackStep(s: State, e: Event, depth: int)
    requires Tracked(s, depth) && Step(s, e).Some?
    ensures Tracked(Step(s, e).value, depth + Delta(e))
  {
    var t := Step(s, e).value;
    match e {
      case SequenceStart =>
        TrackPush(s, BranchNode(false, []), depth);
        hide Push;
        TrackSame(Push(s, BranchNode(false, [])).value, t, depth + 1);
      case MappingStart =>
        TrackSame(s, s.(key := false), depth);
        TrackPush(s.(key := false), BranchNode(true, []), depth);
        hide Push;
        TrackSame(Push(s.(key := false), BranchNode(true, [])).value, t, depth + 1);
      case Scalar(text) =>
        TrackScalar(s, text, depth);
      case SequenceEnd => TrackPop(s, depth);
      case MappingEnd => TrackPop(s, depth);
      case DocumentEnd => TrackPop(s, depth);
      case StreamEnd =>
      case Other =>
    }
  }

  // A scalar is a name, or is pushed, and taken off the stack again unless it is
  // the whole document.
  lemma ScalarCases(s: State, text: string)
    requires Valid(s) && StepScalar(s, text).Some?
    ensures var t := StepScalar(s, text).value;
            || (t.stack == s.stack && t.nodes == s.nodes && t.dropped == s.dropped)
            || (s.stack == [] && Push(s, LeafNode(text)) == Some(t))
            || (Push(s, LeafNode(text)).Some?
                && var u := Pop(Push(s, LeafNode(text)).value);
                t.stack == u.stack && t.nodes == u.nodes && t.dropped == u.dropped)
  {
    hide Push;
  }

  lemma TrackRootPush(s: State, text: string, depth: int)
    requires Tracked(s, depth) && s.stack == [] && Push(s, LeafNode(text)).Some?
    ensures Tracked(Push(s, LeafNode(text)).value, depth)
  {
  }

  lemma TrackScalar(s: State, text: string, depth: int)
    requires Tracked(s, depth) && StepScalar(s, text).Some?
    ensures Tracked(StepScalar(s, text).value, depth)
  {
    var t := StepScalar(s, text).value;
    ScalarCases(s, text);
    hide Push, Pop, StepScalar;
    if t.stack == s.stack && t.nodes == s.nodes && t.dropped == s.dropped {
      TrackSame(s, t, depth);
    } else {
      TrackPush(s, LeafNode(text), depth);
      if s.stack == [] && Push(s, LeafNode(text)) == Some(t) {
        TrackRootPush(s, text, depth);
      } else {
        TrackSame(Pop(Push(s, LeafNode(text)).value), t, depth);
      }
    }
  }

  lemma {:induction false} TrackRun(s: State, es: seq<Event>, depth: int)
    requires Tracked(s, depth) && Run(s, es).Some?
    ensures Tracked(Run(s, es).value, depth + Opened(es))
    decreases |es|
  {
    if es != [] {
      TrackStep(s, es[0], depth);
      TrackRun(Step(s, es[0]).value, es[1..], depth + Delta(es[0]));
    }
  }

  // ----- whole documents

  lemma {:induction false} ParseRun(s: State, es: seq<Event>, after: seq<Event>)
    requires Valid(s) && forall i :: 0 <= i < |es| ==> !Ending(es[i])
    ensures Parse(s, es + after) == match Run(s, es) case None => Crashed case Some(s') => Parse(s', after)
    decreases |es|
  {
    if es == [] {
      assert es + after == after;
    } else {
      assert (es + after)[0] == es[0] && (es + after)[1..] == es[1..] + after;
      match Step(s, es[0])
      case None =>
      case Some(s') => ParseRun(s', es[1..], after);
    }
  }

  // The root is returned, it holds the tree, and the stack is empty.
  // Event i is the first that ends a document or the stream.
  predicate FirstEnd(es: seq<Event>, i: nat) {
    i < |es| && (es[i] == DocumentEnd || es[i] == StreamEnd)
    && forall j :: 0 <= j < i ==> es[j] != DocumentEnd && es[j] != StreamEnd
  }

  /**
   * The event loop runs the machine up to the first end of a document or of the
   * stream, and fails if there is none.
   */
  lemma ParseIs(es: seq<Event>)
    ensures Parse(INITIAL, es) == ParseError <==> (forall i: nat :: !FirstEnd(es, i)) && Run(INITIAL, es).Some?
    ensures forall i: nat :: FirstEnd(es, i) ==>
              match Run(INITIAL, es[..i + 1])
              case None => Parse(INITIAL, es) == Crashed
              case Some(s) => Parse(INITIAL, es) == Done(s)
  {
    forall i: nat | FirstEnd(es, i)
      ensures Parse(INITIAL, es) == match Run(INITIAL, es[..i + 1]) case None => Crashed case Some(s) => Done(s)
    {
      ParseUpTo(es, i);
    }
    if forall i: nat :: !FirstEnd(es, i) {
      NoFirstEnd(es, |es|);
      ParseRun(INITIAL, es, []);
      assert es + [] == es;
    }
  }

  lemma ParseUpTo(es: seq<Event>, i: nat)
    requires FirstEnd(es, i)
    ensures Parse(INITIAL, es) == match Run(INITIAL, es[..i + 1]) case None => Crashed case Some(s) => Done(s)
  {
    ParseRun(INITIAL, es[..i], es[i..]);
    assert es == es[..i] + es[i..] && es[..i + 1] == es[..i] + [es[i]];
    RunAppend(INITIAL, es[..i], [es[i]]);
    var r := Run(INITIAL, es[..i]);
    if r.Some? {
      RunOne(r.value, es[i]);
      assert es[i..][0] == es[i];
    }
  }

  lemma {:induction false} NoFirstEnd(es: seq<Event>, n: nat)
    requires n <= |es| && forall i: nat :: !FirstEnd(es, i)
    ensures forall j :: 0 <= j < n ==> es[j] != DocumentEnd && es[j] != StreamEnd
  {
    if n > 0 {
      NoFirstEnd(es, n - 1);
      assert !FirstEnd(es, n - 1);
    }
  }

  // A stream without a document leaves nothing and is no error.
  lemma EmptyStream(starts: nat, after: seq<Event>)
    ensures Parse(INITIAL, seq(starts, _ => Other) + ([StreamEnd] + after)) == Done(INITIAL)
  {
    StartsIgnored(starts, [StreamEnd] + after);
    assert ([StreamEnd] + after)[0] == StreamEnd;
  }

  /**
   * A document of at most a hundred levels whose keys do not all come while the key
   * flag is clear makes the parser crash.
   */
  lemma CrashIff(starts: nat, t: Tree, after: seq<Event>)
    requires Proper(t) && Height(t) <= 100
    ensures Parse(INITIAL, FileEvents(starts, t, after)).Crashed? <==> !WellKeyed(t)
  {
    StartsIgnored(starts, Events(t) + ([DocumentEnd] + after));
    TreeBalanced(t);
    ParseRun(INITIAL, Events(t), [DocumentEnd] + after);
    match t {
      case Leaf(text) => LeafRun(text);
      case Branch(mapping, f) => RootRun(mapping, f);
    }
    var r := Run(INITIAL, Events(t));
    hide Run, Events, Proper, Holds, Parse;
    if r.Some? {
      ParseEnd(r.value, after);
    }
  }

  ghost predicate Returned(r: Outcome, t: Tree) {
    r.Done? && r.state.yamlw == Some(0) && r.state.stack == [] && Holds(r.state.nodes, 0, t)
  }

  // The root container, just opened.
  function Root(mapping: bool): State {
    State([0], [BranchNode(mapping, [])], false, None, None, false)
  }

  lemma RootStep(mapping: bool)
    ensures Step(INITIAL, First(mapping)) == Some(Root(mapping)) && Between(Root(mapping)) && Tracked(Root(mapping), 1)
  {
    assert [] + [0] == [0];
    assert [] + [BranchNode(mapping, [])] == [BranchNode(mapping, [])];
  }

  // The root is closed: it is what is returned, unless a node was dropped.
  lemma CloseRoot(s: State, mapping: bool, f: Forest, cs: seq<(Option<string>, nat)>)
    requires Between(Root(mapping)) && BuiltForest(Root(mapping), Some(s), cs, f)
    ensures var r := PopResult(s);
            r.yamlw == Some(0) && r.stack == [] && Holds(r.nodes, 0, Branch(mapping, f))
  {
    assert [] + cs == cs;
  }

  lemma LoseRoot(s: State)
    requires Tracked(s, 1) && s.dropped
    ensures PopResult(s).yamlw != Some(0) && 0 !in PopResult(s).stack
  {
  }

  // A container as the root, up to its end.
  lemma RootRun(mapping: bool, f: Forest)
    requires ProperForest(f, mapping)
    ensures var r := Run(INITIAL, Events(Branch(mapping, f)));
            if 1 + ForestHeight(f) > LIMIT then r.Some? ==> r.value.yamlw != Some(0) && 0 !in r.value.stack
            else if !ForestWellKeyed(f, mapping, false) then r == None
            else
              r.Some? && r.value.yamlw == Some(0) && r.value.stack == [] && Holds(r.value.nodes, 0, Branch(mapping, f))
  {
    var s1 := Root(mapping);
    RunThree(INITIAL, [First(mapping)], ForestEvents(f), [Last(mapping)]);
    RunOne(INITIAL, First(mapping));
    RootStep(mapping);
    hide Step, Run, Events, ForestEvents;
    var r := Run(s1, ForestEvents(f));
    if 1 + ForestHeight(f) > LIMIT {
      TallForest(s1, f);
      if r.Some? {
        TrackRun(s1, ForestEvents(f), 1);
        ForestBalanced(f);
        RunLast(r.value, mapping);
        LoseRoot(r.value);
      }
    } else {
      var cs := BuildForest(s1, f);
      if ForestWellKeyed(f, mapping, false) {
        RunLast(r.value, mapping);
        CloseRoot(r.value, mapping, f, cs);
      }
    }
  }

  // The events of a file that holds the document t: stream and document starts in
  // front, whatever follows the document behind.
  function FileEvents(starts: nat, t: Tree, after: seq<Event>): seq<Event> {
    seq(starts, _ => Other) + (Events(t) + ([DocumentEnd] + after))
  }

  lemma StartIgnored(es: seq<Event>)
    requires es != [] && es[0] == Other
    ensures Parse(INITIAL, es) == Parse(INITIAL, es[1..])
  {
  }

  lemma {:induction false} StartsIgnored(starts: nat, es: seq<Event>)
    ensures Parse(INITIAL, seq(starts, _ => Other) + es) == Parse(INITIAL, es)
  {
    hide Parse;
    var all := seq(starts, _ => Other) + es;
    if starts == 0 {
      assert all == es;
    } else {
      StartsIgnored(starts - 1, es);
      StartIgnored(all);
      assert all[1..] == seq(starts - 1, _ => Other) + es;
    }
  }

  // The parser returns a document's tree exactly when every key comes while the
  // flag is clear and at most a hundred levels are open, scalars included.
  lemma ParseIff(starts: nat, t: Tree, after: seq<Event>)
    requires Proper(t)
    ensures Returned(Parse(INITIAL, FileEvents(starts, t, after)), t) <==> WellKeyed(t) && Height(t) <= 100
  {
    StartsIgnored(starts, Events(t) + ([DocumentEnd] + after));
    ParseDocumentIff(t, after);
    hide Parse, Returned, Events;
  }

  lemma ParseDocumentIff(t: Tree, after: seq<Event>)
    requires Proper(t)
    ensures Returned(Parse(INITIAL, Events(t) + ([DocumentEnd] + after)), t) <==> WellKeyed(t) && Height(t) <= LIMIT
  {
    TreeBalanced(t);
    ParseRun(INITIAL, Events(t), [DocumentEnd] + after);
    var r := Run(INITIAL, Events(t));
    if r.Some? {
      ParseEnd(r.value, after);
    }
    match t {
      case Leaf(text) =>
        LeafRun(text);
      case Branch(mapping, f) =>
        RootRun(mapping, f);
    }
    hide Run, Events, Parse, Proper, Holds;
  }

  lemma ParseEnd(s: State, after: seq<Event>)
    requires Valid(s)
    ensures Parse(s, [DocumentEnd] + after) == Done(if s.stack == [] then s else PopResult(s))
  {
    assert ([DocumentEnd] + after)[0] == DocumentEnd;
  }

  // A document that is one scalar.
  lemma LeafRun(text: string)
    ensures Run(INITIAL, Events(Leaf(text))).Some?
    ensures var s := Run(INITIAL, Events(Leaf(text))).value;
            s.stack == [0] && PopResult(s).stack == [] && Holds(PopResult(s).nodes, 0, Leaf(text))
  {
    RunOne(INITIAL, Scalar(text));
  }

  // No sequence is directly the value of a mapping.
  predicate NoSequenceValue(t: Tree) {
    t.Branch? ==> NoSequenceIn(t.children, t.mapping)
  }

  predicate NoSequenceIn(f: Forest, mapping: bool) {
    match f
    case Nil => true
    case Cons(_, child, rest) =>
      && !(mapping && child.Branch? && !child.mapping)
      && NoSequenceValue(child) && NoSequenceIn(rest, mapping)
  }

  // Such trees never meet the flag still set, so a hundred levels are all that
  // is asked of them.
  lemma {:induction false} ValuesClearKey(t: Tree)
    requires NoSequenceValue(t)
    ensures WellKeyed(t)
    ensures !(t.Branch? && !t.mapping) ==> !KeyAfter(t, true, true)
    decreases t
  {
    if t.Branch? {
      ChildrenClearKey(t.children, t.mapping);
    }
  }

  lemma {:induction false} ChildrenClearKey(f: Forest, mapping: bool)
    requires NoSequenceIn(f, mapping)
    ensures ForestWellKeyed(f, mapping, false) && (mapping ==> !ForestKey(f, mapping, false))
    decreases f
  {
    if f.Cons? {
      ValuesClearKey(f.child);
      ChildrenClearKey(f.rest, mapping);
      if !mapping {
        SequenceKeys(f.rest, false, KeyAfter(f.child, false, false));
      }
    }
  }

  lemma PlainTreesParse(starts: nat, t: Tree, after: seq<Event>)
    requires Proper(t) && NoSequenceValue(t) && Height(t) <= 100
    ensures Returned(Parse(INITIAL, FileEvents(starts, t, after)), t)
  {
    ValuesClearKey(t);
    ParseIff(starts, t, after);
  }

  // A mapping with a sequence as a value that is not its last: {a: [], b: 2}.
  lemma SequenceAsValueFails(starts: nat, after: seq<Event>)
    ensures var t := Branch(true, Cons(Some("a"), Branch(false, Nil), Cons(Some("b"), Leaf("2"), Nil)));
            Proper(t) && !Returned(Parse(INITIAL, FileEvents(starts, t, after)), t)
  {
    var rest := Cons(Some("b"), Leaf("2"), Nil);
    var t := Branch(true, Cons(Some("a"), Branch(false, Nil), rest));
    assert ProperForest(rest, true);
    assert KeyAfter(Branch(false, Nil), true, true);
    assert !ForestWellKeyed(rest, true, true);
    ParseIff(starts, t, after);
  }
}
