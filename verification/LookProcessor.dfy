/**
 * The imperative side of look queries: the request the client builds up
 * (client_java/rz/LookRequest.java) and the tracker's processors, which replace
 * the list of files by a filtered one for every criterion (tracker/protocol.c).
 */
module LookProcessor {
  import opened Wrappers
  import opened CursorList
  import opened Reversal
  import opened StringSplit
  import opened LookQuery

  class LookRequest {
    var criterions: seq<Criterion>

    constructor ()
      ensures criterions == []
    {
      criterions := [];
    }

    method AddFilename(filename: string)
      modifies this
      ensures criterions == old(criterions) + [Filename(filename)]
    {
      criterions := criterions + [Filename(filename)];
    }

    method AddKey(key: string)
      modifies this
      ensures criterions == old(criterions) + [Key(key)]
    {
      criterions := criterions + [Key(key)];
    }

    method AddSizeCriterion(op: Operator, size: int)
      modifies this
      ensures criterions == old(criterions) + [Size(op, size)]
    {
      criterions := criterions + [Size(op, size)];
    }

    method MapToString() returns (list: seq<string>)
      ensures list == Prints(criterions)
    {
      list := [];
      for i := 0 to |criterions|
        invariant list == Prints(criterions)[..i]
      {
        list := list + [Print(criterions[i])];
      }
    }

    method ToString() returns (text: string)
      ensures text == Join(Prints(criterions), " ")
    {
      var list := MapToString();
      text := Join(list, " ");
    }
  }

  lemma {:induction false} FilterAppend(t: Test, l: seq<FileInfo>, f: FileInfo)
    ensures Filter(t, l + [f]) == Filter(t, l) + if Passes(t, f) then [f] else []
  {
    hide Passes;
    if l == [] {
      assert l + [f] == [f] && [f][1..] == [];
    } else {
      assert (l + [f])[0] == l[0] && (l + [f])[1..] == l[1..] + [f];
      FilterAppend(t, l[1..], f);
      var first, rest := if Passes(t, l[0]) then [l[0]] else [], Filter(t, l[1..]);
      var last := if Passes(t, f) then [f] else [];
      assert first + (rest + last) == (first + rest) + last;
    }
  }

  // What the first k files leave in the new list.
  function Passed(t: Test, l: seq<FileInfo>, k: nat): seq<FileInfo>
    requires k <= |l|
  {
    Rev(Filter(t, l[..k]))
  }

  lemma PassedNext(t: Test, l: seq<FileInfo>, k: nat)
    requires k < |l|
    ensures Passed(t, l, k + 1) == if Passes(t, l[k]) then [l[k]] + Passed(t, l, k) else Passed(t, l, k)
  {
    assert l[..k + 1] == l[..k] + [l[k]];
    FilterAppend(t, l[..k], l[k]);
    RevAppend(Filter(t, l[..k]), l[k]);
    assert Filter(t, l[..k]) + [] == Filter(t, l[..k]);
  }

  lemma PassedEnds(t: Test, l: seq<FileInfo>)
    ensures Passed(t, l, 0) == [] && Passed(t, l, |l|) == Rev(Filter(t, l))
  {
    assert l[..|l|] == l;
  }

  // Both lists of PROCESS_LIST, after k files.
  ghost predicate Filtering(test: Test, li: List<FileInfo>, newList: List<FileInfo>, k: nat)
    reads li, li.Repr, newList, newList.Repr
  {
    && li.Valid() && newList.Valid() && li.Repr !! newList.Repr
    && k <= li.size == |li.contents|
    && newList.contents == Passed(test, li.contents, k)
  }

  // One round of PROCESS_LIST.
  method ProcessNode(test: Test, li: List<FileInfo>, i: nat, newList: List<FileInfo>)
    requires 1 <= i <= li.size && Filtering(test, li, newList, i - 1)
    modifies li`cursor, li`curpos, li`hops, newList.Repr
    ensures li.Repr == old(li.Repr) && li.contents == old(li.contents) && li.size == old(li.size)
    ensures fresh(newList.Repr - old(newList.Repr))
    ensures Filtering(test, li, newList, i)
  {
    hide List.Valid, Passed, Passes;
    var f := li.Get(i);
    PassedNext(test, li.contents, i - 1);
    if Passes(test, f.value) {
      newList.Add(f.value);
    }
  }

  // The loop of PROCESS_LIST: list_add reverses what passes.
  method FilterInto(test: Test, li: List<FileInfo>, newList: List<FileInfo>)
    requires Filtering(test, li, newList, 0)
    modifies li`cursor, li`curpos, li`hops, newList.Repr
    ensures li.Repr == old(li.Repr) && li.contents == old(li.contents) && li.size == old(li.size)
    ensures fresh(newList.Repr - old(newList.Repr))
    ensures Filtering(test, li, newList, li.size)
  {
    hide Filtering;
    for i := 1 to li.size + 1
      invariant li.Repr == old(li.Repr) && li.contents == old(li.contents) && li.size == old(li.size)
      invariant fresh(newList.Repr - old(newList.Repr))
      invariant Filtering(test, li, newList, i - 1)
    {
      ProcessNode(test, li, i, newList);
    }
  }

  method ProcessList(test: Test, li: List<FileInfo>) returns (newList: List<FileInfo>)
    requires li.Valid()
    modifies li`cursor, li`curpos, li`hops
    ensures li.Valid() && li.contents == old(li.contents)
    ensures newList.Valid() && fresh(newList.Repr)
    ensures newList.contents == Rev(Filter(test, li.contents))
  {
    hide List.Valid, Filter, Rev, Passed;
    newList := new List<FileInfo>();
    PassedEnds(test, li.contents);
    var len := li.Size();
    FilterInto(test, li, newList);
  }

  // process_criterion_*: !ok stands for the read outside an empty value.
  method RunProcessor(op: Operator, criterion: string, l: List<FileInfo>) returns (ok: bool, l': List<FileInfo>)
    requires l.Valid()
    modifies l`cursor, l`curpos, l`hops
    ensures l'.Valid() && (l' == l || fresh(l'.Repr))
    ensures l.contents == old(l.contents)
    ensures ok == Perform(Processor(op, criterion), l.contents).Some?
    ensures ok ==> Some(l'.contents) == Perform(Processor(op, criterion), l.contents)
  {
    ok, l' := true, l;
    hide TestOf, Filter, Rev, Pieces, List.Valid;
    assert OpText(op) + "\"" != "";
    var spl := Split2(Some(criterion), OpText(op) + "\"");
    hide OpText;
    ghost var pieces := spl[..];
    if spl.Length != 2 {
      assert Processor(op, criterion) == Ignore;
      return;
    }
    var value := StripC(spl[1], '"');
    if value.None? {
      assert Processor(op, criterion) == Crash;
      ok := false;
      return;
    }
    var test := TestOf(op, spl[0], value.value);
    if test.Some? {
      assert Processor(op, criterion) == Apply(test.value);
      l' := ProcessList(test.value, l);
    }
  }

  // What remains to be done before the k-th processor; None after a crash.
  ghost function Pending(ok: bool, k: nat, criterion: string, l: seq<FileInfo>): Option<seq<FileInfo>>
    requires k <= 6
  {
    if ok then ProcessFrom(k, criterion, l) else None
  }

  // The k-th processor, if none before it crashed.
  method RunNext(ok: bool, op: Operator, ghost k: nat, criterion: string, l: List<FileInfo>)
    returns (ok': bool, l': List<FileInfo>)
    requires l.Valid() && k < 6 && op == ORDER[k]
    modifies l`cursor, l`curpos, l`hops
    ensures l'.Valid() && (l' == l || fresh(l'.Repr))
    ensures Pending(ok', k + 1, criterion, l'.contents) == Pending(ok, k, criterion, old(l.contents))
  {
    ok', l' := ok, l;
    hide List.Valid, Perform, Processor;
    if ok {
      ok', l' := RunProcessor(op, criterion, l);
    }
  }

  method ProcessCriterion(criterion: string, l: List<FileInfo>) returns (ok: bool, l': List<FileInfo>)
    requires l.Valid()
    modifies l`cursor, l`curpos, l`hops
    ensures l'.Valid() && (l' == l || fresh(l'.Repr))
    ensures ok == Process(criterion, old(l.contents)).Some?
    ensures ok ==> Some(l'.contents) == Process(criterion, old(l.contents))
  {
    LastPending(criterion);
    hide List.Valid, ProcessFrom, Pending;
    ok, l' := RunNext(true, NE, 0, criterion, l);
    ok, l' := RunNext(ok, GE, 1, criterion, l');
    ok, l' := RunNext(ok, LE, 2, criterion, l');
    ok, l' := RunNext(ok, EQ, 3, criterion, l');
    ok, l' := RunNext(ok, LT, 4, criterion, l');
    ok, l' := RunNext(ok, GT, 5, criterion, l');
  }

  lemma LastPending(criterion: string)
    ensures forall ok, l :: Pending(ok, 6, criterion, l) == if ok then Some(l) else None
    ensures forall l :: Pending(true, 0, criterion, l) == Process(criterion, l)
  {
  }

  // prot_look_process_criterions, started from the list of the registered files.
  method ProcessCriterions(text: string, files: List<FileInfo>) returns (ok: bool, l: List<FileInfo>)
    requires files.Valid()
    modifies files`cursor, files`curpos, files`hops
    ensures l.Valid()
    ensures ok == Look(text, old(files.contents)).Some?
    ensures ok ==> Some(l.contents) == Look(text, old(files.contents))
  {
    var criterions := Split(Some(text), " ");
    ok, l := true, files;
    for i := 0 to criterions.Length
      invariant ok && l.Valid() && (l == files || fresh(l.Repr))
      invariant ProcessAll(criterions[..][i..], l.contents) == Look(text, old(files.contents))
    {
      assert criterions[..][i..][1..] == criterions[..][i + 1..];
      ok, l := ProcessCriterion(criterions[i], l);
      if !ok {
        return;
      }
    }
  }
}
