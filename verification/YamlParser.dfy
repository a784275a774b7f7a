/**
 * The bounded stack of cutil/stack.c and the event loop of cutil/yaml2.c, in
 * place, against the machine of YamlEvents.
 */
module YamlParser {
  import opened Wrappers
  import opened YamlEvents

  // How a call of yaml2_parse_file ends.
  datatype Ending = Return(code: int) | Crash

  class Stack {
    var head: int
    const bufferSize: nat
    const buf: array<nat>

    ghost predicate Valid()
      reads this
    {
      buf.Length == bufferSize && -1 <= head < bufferSize
    }

    ghost function Contents(): (s: seq<nat>)
      requires Valid()
      reads this, buf
      ensures |s| == head + 1
    {
      buf[..head + 1]
    }

    constructor (bufferSize: nat)
      ensures Valid() && fresh(buf) && this.bufferSize == bufferSize && Contents() == []
    {
      this.head, this.bufferSize := -1, bufferSize;
      this.buf := new nat[bufferSize](_ => 0);
    }

    function Size(): (n: nat)
      requires Valid()
      reads this, buf
      ensures n == |Contents()|
    {
      head + 1
    }

    predicate IsEmpty()
      requires Valid()
      reads this, buf
      ensures IsEmpty() == (Contents() == [])
    {
      head == -1
    }

    predicate IsFull()
      requires Valid()
      reads this, buf
      ensures IsFull() == (|Contents()| == bufferSize)
    {
      head == bufferSize - 1
    }

    // A push on a full stack does nothing.
    method Push(element: nat)
      requires Valid()
      modifies this`head, buf
      ensures Valid()
      ensures Contents() == if |old(Contents())| == bufferSize then old(Contents()) else old(Contents()) + [element]
    {
      if !IsFull() {
        head := head + 1;
        buf[head] := element;
      }
    }

    method Peek() returns (element: nat)
      requires Valid() && !IsEmpty()
      ensures element == Contents()[|Contents()| - 1]
    {
      element := buf[head];
    }

    // None stands for the NULL of an empty stack.
    method Pop() returns (element: Option<nat>)
      requires Valid()
      modifies this`head
      ensures Valid()
      ensures if old(Contents()) == [] then element == None && Contents() == []
              else element.Some? && old(Contents()) == Contents() + [element.value]
    {
      element := None;
      if !IsEmpty() {
        element := Some(buf[head]);
        head := head - 1;
      }
    }
  }

  class Parser {
    const stack: Stack
    var nodes: seq<Node>
    var key: bool
    var keyname: Option<string>
    var yamlw: Option<nat>
    ghost var dropped: bool

    ghost predicate Sound()
      reads this, stack, stack.buf
    {
      stack.Valid() && stack.bufferSize == LIMIT && YamlEvents.Valid(Abstract())
    }

    ghost function Abstract(): State
      requires stack.Valid()
      reads this, stack, stack.buf
    {
      State(stack.Contents(), nodes, key, keyname, yamlw, dropped)
    }

    constructor ()
      ensures Sound() && fresh(stack) && fresh(stack.buf) && Abstract() == INITIAL
    {
      stack := new Stack(LIMIT);
      nodes, key, keyname, yamlw, dropped := [], false, None, None, false;
    }

    // parser_stack_push: !ok stands for the crash on a missing name.
    method ParserStackPush(node: Node) returns (ok: bool)
      requires Sound()
      modifies this`nodes, this`dropped, stack, stack.buf
      ensures ok == Push(old(Abstract()), node).Some?
      ensures ok ==> Sound() && Some(Abstract()) == Push(old(Abstract()), node)
    {
      var id := |nodes|;
      hide Stack.Contents;
      if stack.Size() > 0 {
        var head := stack.Peek();
        match nodes[head] {
          case BranchNode(true, children) =>
            if keyname.None? {
              return false;
            }
            nodes := nodes[head := BranchNode(true, children + [(keyname, id)])];
          case BranchNode(false, children) =>
            nodes := nodes[head := BranchNode(false, children + [(None, id)])];
          case LeafNode(_) =>
        }
      }
      dropped := dropped || |stack.Contents()| == LIMIT;
      nodes := nodes + [node];
      stack.Push(id);
      ok := true;
    }

    method PopStack() returns (element: Option<nat>)
      requires Sound()
      modifies stack`head
      ensures Sound() && Abstract() == Pop(old(Abstract()))
      ensures element == if old(Abstract()).stack == [] then None else Some(Head(old(Abstract())))
    {
      element := stack.Pop();
      assert old(stack.Contents()) != [] ==> stack.Contents() == old(stack.Contents())[..|old(stack.Contents())| - 1];
    }

    method HandleScalar(text: string) returns (ok: bool)
      requires Sound()
      modifies this, stack, stack.buf
      ensures ok == StepScalar(old(Abstract()), text).Some?
      ensures ok ==> Sound() && Some(Abstract()) == StepScalar(old(Abstract()), text)
    {
      hide Linked, Push;
      ok := true;
      if stack.Size() == 0 {
        ok := ParserStackPush(LeafNode(text));
        return;
      }
      var head := stack.Peek();
      match nodes[head] {
        case LeafNode(_) =>
          ok := false;
        case BranchNode(true, _) =>
          if !key {
            keyname, key := Some(text), true;
          } else {
            ok := ParserStackPush(LeafNode(text));
            if ok {
              keyname := None;
              var element := PopStack();
              key := false;
            }
          }
        case BranchNode(false, _) =>
          if keyname.Some? {
            return false;
          }
          ok := ParserStackPush(LeafNode(text));
          if ok {
            var element := PopStack();
          }
      }
    }

    method HandleStart(mapping: bool) returns (ok: bool)
      requires Sound()
      modifies this, stack, stack.buf
      ensures ok == Step(old(Abstract()), First(mapping)).Some?
      ensures ok ==> Sound() && Some(Abstract()) == Step(old(Abstract()), First(mapping))
    {
      if mapping {
        key := false;
      }
      ok := ParserStackPush(BranchNode(mapping, []));
      if ok {
        keyname := None;
      }
    }

    // One round of the event loop.
    method Handle(e: Event) returns (ok: bool)
      requires Sound()
      modifies this, stack, stack.buf
      ensures ok == Step(old(Abstract()), e).Some?
      ensures ok ==> Sound() && Some(Abstract()) == Step(old(Abstract()), e)
    {
      ok := true;
      match e {
        case DocumentEnd =>
          if stack.Size() > 0 {
            yamlw := PopStack();
          }
        case SequenceStart =>
          ok := HandleStart(false);
        case MappingStart =>
          ok := HandleStart(true);
        case MappingEnd =>
          yamlw := PopStack();
        case SequenceEnd =>
          yamlw := PopStack();
        case Scalar(text) =>
          ok := HandleScalar(text);
        case StreamEnd =>
        case Other =>
      }
    }

    // One round of the event loop, in the machine.
    static lemma ParseRound(s: State, es: seq<Event>)
      requires YamlEvents.Valid(s)
      ensures Parse(s, es) ==
                if es == [] then ParseError
                else
                  match Step(s, es[0])
                  case None => Crashed
                  case Some(s') => if es[0] == DocumentEnd || es[0] == StreamEnd then Done(s') else Parse(s', es[1..])
    {
    }

    // yaml2_parse_file over the events of a file. It returns -1 only when the event
    // source fails; a crash does not return at all.
    method ParseFile(events: seq<Event>) returns (ending: Ending)
      requires Sound() && Abstract() == INITIAL
      modifies this, stack, stack.buf
      ensures ending.Crash? <==> Parse(INITIAL, events).Crashed?
      ensures ending == Return(-1) <==> Parse(INITIAL, events).ParseError?
      ensures ending == Return(0) <==> Parse(INITIAL, events).Done?
      ensures ending == Return(0) ==> Sound() && Done(Abstract()) == Parse(INITIAL, events)
      ensures ending == Return(-1) <==> (forall i: nat :: !FirstEnd(events, i)) && Run(INITIAL, events).Some?
      ensures forall i: nat :: FirstEnd(events, i) ==>
                match Run(INITIAL, events[..i + 1])
                case None => ending == Crash
                case Some(s) => ending == Return(0) && Abstract() == s
    {
      ParseIs(events);
      hide FirstEnd, Run, Parse, Step, Stack.Contents, YamlEvents.Valid;
      assert events[0..] == events;
      var i, done := 0, false;
      while !done
        invariant Sound() && i <= |events|
        invariant (if done then Done(Abstract()) else Parse(Abstract(), events[i..])) == Parse(INITIAL, events)
        decreases |events| - i, !done
      {
        ParseRound(Abstract(), events[i..]);
        if i == |events| {
          return Return(-1);
        }
        var ok := Handle(events[i]);
        if !ok {
          return Crash;
        }
        assert events[i..][1..] == events[i + 1..];
        done := events[i] == DocumentEnd || events[i] == StreamEnd;
        i := i + 1;
      }
      ending := Return(0);
    }
  }
}
