/**
 * Look queries: the criterion printer of the Java client
 * (client_java/rz/Criterion.java, LookRequest.java) and the tracker's six
 * criterion processors (tracker/protocol.c).  Every criterion passes through
 * all six.
 */
module LookQuery {
  import opened Wrappers
  import opened CursorList
  import opened Decimal
  import opened Reversal
  import opened StringSplit

  datatype FileInfo = FileInfo(filename: string, length: nat, pieceSize: nat, key: string)

  datatype Operator = EQ | NE | LT | LE | GT | GE

  function OpText(op: Operator): string {
    match op
    case EQ => "=" case NE => "!=" case LT => "<" case LE => "<=" case GT => ">" case GE => ">="
  }

  // What the client can ask for; sizes are Java ints.
  datatype Criterion = Filename(text: string) | Key(text: string) | Size(op: Operator, size: int)

  function Print(c: Criterion): string {
    match c
    case Filename(text) => "filename" + OpText(EQ) + "\"" + text + "\""
    case Key(text) => "key" + OpText(EQ) + "\"" + text + "\""
    case Size(op, size) => "filesize" + OpText(op) + "\"" + PrintInt(size) + "\""
  }

  function Prints(cs: seq<Criterion>): seq<string> {
    seq(|cs|, i requires 0 <= i < |cs| => Print(cs[i]))
  }

  // ----- the tracker's side

  const LONG_MIN := -0x8000_0000_0000_0000
  const LONG_MAX := 0x7fff_ffff_ffff_ffff
  const WORD := 0x1_0000_0000_0000_0000

  // atol: blanks are skipped and the value saturates.
  function AtolSaturating(s: string): int {
    var v := Atol(SkipDelims(s, " \t\n\U{000B}\U{000C}\r"));
    if v < LONG_MIN then LONG_MIN else if v > LONG_MAX then LONG_MAX else v
  }

  // Comparing a uint64_t with a long converts the long.
  function AsUnsigned(v: int): (u: nat)
    ensures u < WORD
  {
    v % WORD
  }

  // The number of 64 bits with the same low bits.
  lemma UnsignedIs(v: int, u: int)
    ensures u == AsUnsigned(v) <==> 0 <= u < WORD && (v - u) % WORD == 0
  {
    var q := v / WORD;
    assert v == q * WORD + v % WORD;
    assert v - AsUnsigned(v) == q * WORD;
  }

  // atol of blanks, a sign and digits, whatever follows them: the value, or the end of
  // the range of a long.
  lemma SaturatingIs(blanks: string, sign: string, digits: string, rest: string)
    requires OnlyDelims(blanks, " \t\n\U{000B}\U{000C}\r") && IsSign(sign) && AllDigits(digits)
    requires sign + digits != "" && (rest != [] ==> !IsDigit(rest[0]))
    ensures var v := Signed(sign, Positional(digits));
            AtolSaturating(blanks + (sign + digits + rest)) ==
              if v < LONG_MIN then LONG_MIN else if v > LONG_MAX then LONG_MAX else v
  {
    hide Positional, ReadDigits;
    var s := sign + digits + rest;
    assert s[0] == (sign + digits)[0];
    SkipIs(blanks, s, " \t\n\U{000B}\U{000C}\r");
    AtolIs(sign, digits, rest);
    hide Atol;
  }

  datatype Test = NameIs(name: string) | NameIsNot(name: string) | SizeTest(op: Operator, bound: nat)

  predicate Compare(op: Operator, a: int, b: int) {
    match op
    case EQ => a == b case NE => a != b case LT => a < b case LE => a <= b case GT => a > b case GE => a >= b
  }

  predicate Passes(t: Test, f: FileInfo) {
    match t
    case NameIs(name) => f.filename == name
    case NameIsNot(name) => f.filename != name
    case SizeTest(op, bound) => Compare(op, f.length, bound)
  }

  // The CODE of each processor: None when it handles no such field.
  function TestOf(op: Operator, field: string, value: string): Option<Test> {
    if field == "filename" && op == EQ then Some(NameIs(value))
    else if field == "filename" && op == NE then Some(NameIsNot(value))
    else if field == "filesize" then Some(SizeTest(op, AsUnsigned(AtolSaturating(value))))
    else None
  }

  function Filter(t: Test, l: seq<FileInfo>): seq<FileInfo> {
    if l == [] then []
    else (if Passes(t, l[0]) then [l[0]] else []) + Filter(t, l[1..])
  }

  // What processor op does with a criterion.
  datatype Effect = Crash | Ignore | Apply(test: Test)

  function Processor(op: Operator, criterion: string): Effect {
    var spl := Pieces(criterion, OpText(op) + "\"");
    if |spl| != 2 then Ignore
    else
      match StripC(spl[1], '"')
      case None => Crash
      case Some(value) =>
        match TestOf(op, spl[0], value)
        case None => Ignore
        case Some(test) => Apply(test)
  }

  function Perform(e: Effect, l: seq<FileInfo>): Option<seq<FileInfo>> {
    match e
    case Crash => None
    case Ignore => Some(l)
    case Apply(test) => Some(Rev(Filter(test, l)))
  }

  const ORDER := [NE, GE, LE, EQ, LT, GT]

  // The processors from the k-th on.
  function ProcessFrom(k: nat, criterion: string, l: seq<FileInfo>): Option<seq<FileInfo>>
    requires k <= 6
    decreases 6 - k
  {
    if k == 6 then Some(l)
    else
      match Perform(Processor(ORDER[k], criterion), l)
      case None => None
      case Some(l') => ProcessFrom(k + 1, criterion, l')
  }

  function Process(criterion: string, l: seq<FileInfo>): Option<seq<FileInfo>> {
    ProcessFrom(0, criterion, l)
  }

  function ProcessAll(criterions: seq<string>, l: seq<FileInfo>): Option<seq<FileInfo>> {
    if criterions == [] then Some(l)
    else
      match Process(criterions[0], l)
      case None => None
      case Some(l') => ProcessAll(criterions[1..], l')
  }

  function Look(text: string, files: seq<FileInfo>): Option<seq<FileInfo>> {
    ProcessAll(Tokens(text, " "), files)
  }

  // A criterion in which op and a quote occur once, behind field and before value.
  predicate Halves(criterion: string, op: Operator, field: string, value: string) {
    Leftmost([field, value], OpText(op) + "\"") && criterion == Join([field, value], OpText(op) + "\"")
  }

  // What the tracker is to do with it; its value loses a closing quote.
  function Meant(op: Operator, field: string, value: string): Effect {
    var v := if value != "" && value[|value| - 1] == '"' then value[..|value| - 1] else value;
    if value == "" then Crash
    else if field == "filename" && op == EQ then Apply(NameIs(v))
    else if field == "filename" && op == NE then Apply(NameIsNot(v))
    else if field == "filesize" then Apply(SizeTest(op, AsUnsigned(AtolSaturating(v))))
    else Ignore
  }

  /**
   * On any text at all a processor does what is meant if its separator occurs once,
   * and nothing otherwise.
   */
  lemma ProcessorIs(op: Operator, criterion: string)
    ensures forall field, value :: Halves(criterion, op, field, value) ==>
              Processor(op, criterion) == Meant(op, field, value)
    ensures (forall field, value :: !Halves(criterion, op, field, value)) ==> Processor(op, criterion) == Ignore
  {
    var sep := OpText(op) + "\"";
    hide OpText, Leftmost, Pieces, AtolSaturating, Join;
    forall field, value
      ensures Halves(criterion, op, field, value) <==> Pieces(criterion, sep) == [field, value]
    {
      SplitIff(criterion, sep, [field, value]);
    }
    if |Pieces(criterion, sep)| == 2 {
      assert Pieces(criterion, sep) == [Pieces(criterion, sep)[0], Pieces(criterion, sep)[1]];
      assert Halves(criterion, op, Pieces(criterion, sep)[0], Pieces(criterion, sep)[1]);
    }
  }

  // ----- one processor on one printed criterion

  predicate EndsWith(s: string, e: string) {
    |e| <= |s| && s[|s| - |e|..] == e
  }

  predicate OperatorChar(c: char) {
    c in "=!<>"
  }

  // An operator's separator ends in its only quote.
  lemma SeparatorShape(op: Operator)
    ensures var d := OpText(op) + "\"";
            && |d| >= 2 && d[|d| - 1] == '"' && (forall k :: 0 <= k < |d| - 1 ==> OperatorChar(d[k]))
            && d[..|d| - 1] == OpText(op)
  {
    var e := OpText(op);
    assert 1 <= |e| <= 2 && OperatorChar(e[0]) && OperatorChar(e[|e| - 1]);
    hide OpText, OperatorChar;
    assert (e + "\"")[..|e|] == e;
  }

  // Splitting behind a quote-free beginning a: the separator is found at the
  // quote exactly when a ends with the operator, else the split is that of q.
  lemma {:induction false} QuotedSplit(a: string, q: string, op: Operator)
    requires '"' !in a
    ensures var d := OpText(op) + "\"";
            Pieces(a + "\"" + q, d) ==
              if EndsWith(a, OpText(op)) then [a[..|a| - |OpText(op)|]] + Pieces(q, d)
              else [a + "\"" + Pieces(q, d)[0]] + Pieces(q, d)[1..]
  {
    var d, s := OpText(op) + "\"", a + "\"" + q;
    SeparatorShape(op);
    hide At, Find, Pieces, OpText;
    forall j: nat | At(s, d, j)
      ensures (j + |d| == |a| + 1 && EndsWith(a, OpText(op))) || (j > |a| && At(q, d, j - |a| - 1))
    {
      OccurrenceInQuoted(a, q, op, j);
    }
    if EndsWith(a, OpText(op)) {
      var i: nat := |a| - |OpText(op)|;
      OccurrenceInQuoted(a, q, op, i);
      FindIs(s, d, i);
      PiecesStep(s, d);
      assert s[i + |d|..] == q;
      assert s[..i] == a[..i];
    } else {
      if Find(q, d).Some? {
        OccurrenceInQuoted(a, q, op, |a| + 1 + Find(q, d).value);
      }
      SplitLater(a + "\"", q, d);
    }
  }

  // No separator starts in front of q.
  lemma SplitLater(b: string, q: string, d: string)
    requires d != ""
    requires forall j: nat :: At(b + q, d, j) ==> j >= |b| && At(q, d, j - |b|)
    requires Find(q, d).Some? ==> At(b + q, d, |b| + Find(q, d).value)
    ensures Pieces(b + q, d) == [b + Pieces(q, d)[0]] + Pieces(q, d)[1..]
  {
    hide At, Find, Pieces;
    PiecesStep(q, d);
    match Find(q, d) {
      case None =>
        PiecesStep(b + q, d);
      case Some(i) =>
        FindIs(b + q, d, |b| + i);
        PrependPieces(b, q, d, i);
    }
  }

  lemma PrependPieces(b: string, q: string, d: string, i: nat)
    requires d != "" && Find(q, d) == Some(i) && Find(b + q, d) == Some(|b| + i)
    ensures Pieces(b + q, d) == [b + Pieces(q, d)[0]] + Pieces(q, d)[1..]
  {
    hide At, Find, Pieces;
    PiecesStep(q, d);
    var p, more := q[..i], Pieces(q[i + |d|..], d);
    assert Pieces(q, d)[0] == p && Pieces(q, d)[1..] == more;
    PrependCut(b, q, i, |d|);
    PiecesStep(b + q, d);
  }

  lemma PrependCut(b: string, q: string, i: nat, n: nat)
    requires i + n <= |q|
    ensures (b + q)[..|b| + i] == b + q[..i]
    ensures (b + q)[|b| + i + n..] == q[i + n..]
  {
  }

  lemma AtChar(s: string, d: string, j: nat, k: nat)
    requires At(s, d, j) && k < |d|
    ensures j + k < |s| && s[j + k] == d[k]
  {
    assert s[j..j + |d|][k] == s[j + k];
  }

  // A separator that starts at j covers, ends at, or follows the first quote.
  lemma OccurrenceInQuoted(a: string, q: string, op: Operator, j: nat)
    requires '"' !in a
    ensures var d, s := OpText(op) + "\"", a + "\"" + q;
            At(s, d, j) <==> (j + |d| == |a| + 1 && EndsWith(a, OpText(op))) || (j > |a| && At(q, d, j - |a| - 1))
  {
    var d, s := OpText(op) + "\"", a + "\"" + q;
    SeparatorShape(op);
    hide OpText;
    assert s[|a|] == '"' && forall k :: 0 <= k < |a| ==> s[k] == a[k];
    var last: nat := |d| - 1;
    if j > |a| {
      if j + |d| <= |s| {
        assert s[j..j + |d|] == q[j - |a| - 1..j - |a| - 1 + |d|];
      }
    } else if j + |d| == |a| + 1 {
      assert s[j..j + |d|] == a[j..] + "\"";
      assert d == OpText(op) + "\"";
      assert EndsWith(a, OpText(op)) <==> a[j..] == OpText(op);
      assert d[..|d| - 1] == OpText(op) && (a[j..] + "\"")[..|d| - 1] == a[j..];
    } else if At(s, d, j) {
      if j + |d| > |a| + 1 {
        AtChar(s, d, j, |a| - j);
      } else {
        AtChar(s, d, j, last);
      }
    }
  }

  // A text q ending in its only quote, none of op's characters before it, is
  // not split.
  lemma NumberIsWhole(n: int, op: Operator)
    ensures Pieces(PrintInt(n) + "\"", OpText(op) + "\"") == [PrintInt(n) + "\""]
  {
    var q, d := PrintInt(n) + "\"", OpText(op) + "\"";
    PrintedFirst(n);
    SeparatorShape(op);
    assert forall j :: 0 <= j < |q| ==> IsDigit(q[j]) || q[j] in "-\"";
    forall j: nat
      ensures !At(q, d, j)
    {
      assert j + |d| <= |q| ==> q[j..j + |d|][0] == q[j];
    }
  }

  predicate IsField(field: string) {
    field == "filename" || field == "key" || field == "filesize"
  }

  // Whether separator x is found where operator op is printed: "=" ends the
  // two-character operators.
  predicate SeenAs(x: Operator, op: Operator) {
    x == op || (x == EQ && (op == NE || op == LE || op == GE))
  }

  lemma EndsWithChars(a: string, e: string)
    ensures |e| == 1 ==> (EndsWith(a, e) <==> |a| >= 1 && a[|a| - 1] == e[0])
    ensures |e| == 2 ==> (EndsWith(a, e) <==> |a| >= 2 && a[|a| - 2] == e[0] && a[|a| - 1] == e[1])
  {
    if |e| == 1 && |a| >= 1 {
      assert a[|a| - 1..] == [a[|a| - 1]] && e == [e[0]];
    } else if |e| == 2 && |a| >= 2 {
      assert a[|a| - 2..] == [a[|a| - 2], a[|a| - 1]] && e == [e[0], e[1]];
    }
  }

  // The text in front of separator x, when field is followed by operator op.
  lemma SuffixSeen(field: string, op: Operator, x: Operator)
    requires field != "" && !OperatorChar(field[|field| - 1])
    ensures var a := field + OpText(op);
            && (EndsWith(a, OpText(x)) <==> SeenAs(x, op))
            && (x == op ==> a[..|a| - |OpText(x)|] == field)
            && (SeenAs(x, op) && x != op ==> OperatorChar(a[..|a| - |OpText(x)|][|field|]))
  {
    var e, a := OpText(op), field + OpText(op);
    EndsWithChars(a, OpText(x));
    assert 1 <= |e| <= 2 && a[|field|] == e[0] && a[|a| - 1] == e[|e| - 1];
    assert |e| == 1 ==> a[|a| - 1] == e[0] && (|a| >= 2 ==> a[|a| - 2] == field[|field| - 1]);
    assert |e| == 2 ==> a[|a| - 2] == e[0];
    hide EndsWith;
  }

  // The field that processor x sees in front of operator op.
  lemma FieldSeen(field: string, op: Operator, x: Operator, value: string)
    requires IsField(field)
    ensures var a := field + OpText(op);
            && (EndsWith(a, OpText(x)) <==> SeenAs(x, op))
            && (EndsWith(a, OpText(x)) ==>
                  TestOf(x, a[..|a| - |OpText(x)|], value) == if x == op then TestOf(op, field, value) else None)
  {
    assert !OperatorChar(field[|field| - 1]);
    SuffixSeen(field, op, x);
    hide OpText, EndsWith;
  }

  // What a processor does once it has found its separator where the operator is
  // printed: the rest is the quoted value.
  lemma ProcessorHere(x: Operator, criterion: string, before: string, text: string, more: seq<string>)
    requires Pieces(criterion, OpText(x) + "\"") == [before] + more && (|more| == 1 ==> more[0] == text + "\"")
    ensures Processor(x, criterion) ==
              if |more| == 1 && TestOf(x, before, text).Some? then Apply(TestOf(x, before, text).value) else Ignore
  {
    hide Pieces, TestOf, OpText;
    assert (text + "\"")[..|text + "\""| - 1] == text;
  }

  // What it does when it finds its separator only behind the first quote.
  lemma ProcessorLater(x: Operator, criterion: string, before: string, more: seq<string>)
    requires Pieces(criterion, OpText(x) + "\"") == [before] + more && '"' in before
    ensures Processor(x, criterion) == if more == [""] then Crash else Ignore
  {
    if |more| == 1 && more[0] != "" {
      QuoteInField(x, before, StripC(more[0], '"').value);
    }
    hide Pieces, TestOf, OpText;
  }

  // One processor on a criterion whose quoted part is text.
  lemma ProcessorOn(field: string, op: Operator, text: string, x: Operator)
    requires IsField(field)
    ensures var ps := Pieces(text + "\"", OpText(x) + "\"");
            Processor(x, field + OpText(op) + "\"" + (text + "\"")) ==
              if SeenAs(x, op) then
                if |ps| == 1 && x == op && TestOf(op, field, text).Some? then Apply(TestOf(op, field, text).value)
                else Ignore
              else if ps[1..] == [""] then Crash
              else Ignore
  {
    var a, q, d := field + OpText(op), text + "\"", OpText(x) + "\"";
    var ps := Pieces(q, d);
    NoQuote(field, op);
    FieldSeen(field, op, x, text);
    hide Pieces, OpText, TestOf, EndsWith, IsField, SeenAs, Processor;
    QuotedSplit(a, q, x);
    OnePiece(q, d);
    if EndsWith(a, OpText(x)) {
      ProcessorHere(x, a + "\"" + q, a[..|a| - |OpText(x)|], text, ps);
    } else {
      assert (a + "\"" + ps[0])[|a|] == '"';
      ProcessorLater(x, a + "\"" + q, a + "\"" + ps[0], ps[1..]);
    }
  }

  lemma NoQuote(field: string, op: Operator)
    requires IsField(field)
    ensures '"' !in field + OpText(op)
  {
  }

  lemma QuoteInField(x: Operator, field: string, value: string)
    requires '"' in field
    ensures TestOf(x, field, value) == None
  {
  }

  lemma OnePiece(q: string, d: string)
    requires d != ""
    ensures |Pieces(q, d)| == 1 ==> Pieces(q, d) == [q]
  {
  }

  // ----- one criterion through all six processors

  // No processor but that of "=" finds its separator once, at the very end of
  // the text: that would leave it an empty value.
  ghost predicate Harmless(text: string) {
    forall x :: x != EQ ==> Pieces(text + "\"", OpText(x) + "\"")[1..] != [""]
  }

  // When a criterion does what it says.
  ghost predicate Clear(c: Criterion) {
    match c
    case Filename(text) => |Pieces(text + "\"", OpText(EQ) + "\"")| == 1 && Harmless(text)
    case Key(text) => Harmless(text)
    case Size(op, size) => true
  }

  // What the tracker makes of a criterion; keys are not looked at.
  function Honoured(c: Criterion): Effect {
    match c
    case Filename(text) => Apply(NameIs(text))
    case Key(text) => Ignore
    case Size(op, size) => Apply(SizeTest(op, AsUnsigned(size)))
  }

  // The processor that is to take the criterion.
  function Addressed(c: Criterion): Operator {
    if c.Size? then c.op else EQ
  }

  predicate IsInt(c: Criterion) {
    c.Size? ==> INT_MIN <= c.size <= INT_MAX
  }

  lemma SizeValue(op: Operator, size: int)
    requires INT_MIN <= size <= INT_MAX
    ensures TestOf(op, "filesize", PrintInt(size)) == Some(SizeTest(op, AsUnsigned(size)))
  {
    PrintedFirst(size);
    AtolPrinted(size);
    assert SkipDelims(PrintInt(size), " \t\n\U{000B}\U{000C}\r") == PrintInt(size);
  }

  function FieldText(c: Criterion): string {
    match c case Filename(_) => "filename" case Key(_) => "key" case Size(_, _) => "filesize"
  }

  function ValueText(c: Criterion): string {
    if c.Size? then PrintInt(c.size) else c.text
  }

  lemma PrintParts(c: Criterion)
    ensures IsField(FieldText(c))
    ensures Print(c) == FieldText(c) + OpText(Addressed(c)) + "\"" + (ValueText(c) + "\"")
  {
  }

  // The pieces that separator x cuts the value of c into, with its closing quote.
  ghost function ValuePieces(c: Criterion, x: Operator): seq<string> {
    Pieces(ValueText(c) + "\"", OpText(x) + "\"")
  }

  // What each of the six does with a printed criterion.
  lemma ProcessorOnPrinted(c: Criterion, x: Operator)
    requires IsInt(c)
    ensures Processor(x, Print(c)) ==
              if x == Addressed(c) then (if |ValuePieces(c, x)| == 1 then Honoured(c) else Ignore)
              else if !c.Size? && ValuePieces(c, x)[1..] == [""] then Crash
              else Ignore
    ensures c.Size? ==> |ValuePieces(c, x)| == 1
  {
    hide Processor, Pieces, Print, OpText, AsUnsigned;
    PrintParts(c);
    ProcessorOn(FieldText(c), Addressed(c), ValueText(c), x);
    if c.Size? {
      hide TestOf;
      SizeValue(c.op, c.size);
      NumberIsWhole(c.size, x);
    }
  }

  // No processor comes twice.
  lemma OnlyOnce(k: nat)
    requires k < 6
    ensures ORDER[k] !in ORDER[k + 1..]
  {
  }

  lemma {:induction false} SixFrom(criterion: string, op: Operator, l: seq<FileInfo>, k: nat)
    requires k <= 6 && forall x :: x != op ==> Processor(x, criterion) == Ignore
    ensures ProcessFrom(k, criterion, l) == if op in ORDER[k..] then Perform(Processor(op, criterion), l) else Some(l)
    decreases 6 - k
  {
    hide Processor, Filter, Rev;
    if k < 6 {
      OnlyOnce(k);
      assert ORDER[k..] == [ORDER[k]] + ORDER[k + 1..];
      match Perform(Processor(ORDER[k], criterion), l)
      case None =>
      case Some(l') => SixFrom(criterion, op, l', k + 1);
    }
  }

  lemma {:induction false} CrashFrom(criterion: string, x: Operator, l: seq<FileInfo>, k: nat)
    requires k <= 6 && x in ORDER[k..] && Processor(x, criterion) == Crash
    ensures ProcessFrom(k, criterion, l) == None
    decreases 6 - k
  {
    hide Processor;
    assert ORDER[k..] == [ORDER[k]] + ORDER[k + 1..];
    if ORDER[k] != x {
      match Perform(Processor(ORDER[k], criterion), l)
      case None =>
      case Some(l') => CrashFrom(criterion, x, l', k + 1);
    }
  }

  lemma InOrder(x: Operator)
    ensures x in ORDER
  {
    assert ORDER[0] == NE && ORDER[1] == GE && ORDER[2] == LE && ORDER[3] == EQ && ORDER[4] == LT && ORDER[5] == GT;
  }

  // A printed criterion has the effect of its own processor and no other, on every
  // list of files, exactly when its text is clear.
  lemma HonouredIff(c: Criterion)
    requires IsInt(c)
    ensures (forall l :: Process(Print(c), l) == Perform(Honoured(c), l)) <==> Clear(c)
  {
    if Clear(c) {
      forall l
        ensures Process(Print(c), l) == Perform(Honoured(c), l)
      {
        ClearIsHonoured(c, l);
      }
    } else {
      var l := UnclearWitness(c);
      assert Process(Print(c), l) != Perform(Honoured(c), l);
    }
  }

  lemma ClearIsHonoured(c: Criterion, l: seq<FileInfo>)
    requires IsInt(c) && Clear(c)
    ensures Process(Print(c), l) == Perform(Honoured(c), l)
  {
    var op := Addressed(c);
    forall x
      ensures Processor(x, Print(c)) == if x == op && !(c.Key? && |ValuePieces(c, x)| != 1) then Honoured(c) else Ignore
    {
      ProcessorOnPrinted(c, x);
      assert c.Size? || x == EQ || ValuePieces(c, x)[1..] != [""];
    }
    InOrder(op);
    SixFrom(Print(c), op, l, 0);
    assert ORDER[0..] == ORDER;
  }

  // A list of files on which an unclear criterion is not honoured.
  lemma UnclearWitness(c: Criterion) returns (l: seq<FileInfo>)
    requires !Clear(c)
    ensures Process(Print(c), l) != Perform(Honoured(c), l)
  {
    assert ORDER[0..] == ORDER;
    l := [FileInfo(c.text + "x", 0, 1, "")];
    assert Filter(NameIs(c.text), l) == [] by {
      assert l[0].filename != c.text;
    }
    hide ProcessFrom, Processor, Pieces, Print, Filter, OpText;
    if !Harmless(c.text) {
      var x :| x != EQ && Pieces(c.text + "\"", OpText(x) + "\"")[1..] == [""];
      ProcessorOnPrinted(c, x);
      InOrder(x);
      CrashFrom(Print(c), x, l, 0);
    } else {
      forall x
        ensures Processor(x, Print(c)) == Ignore
      {
        ProcessorOnPrinted(c, x);
        assert x == EQ || ValuePieces(c, x)[1..] != [""];
      }
      SixFrom(Print(c), EQ, l, 0);
    }
  }

  // The text of each criterion, as it goes over the wire.
  lemma PrintedForm(text: string, size: int)
    ensures Print(Filename(text)) == "filename=\"" + text + "\"" && Print(Key(text)) == "key=\"" + text + "\""
    ensures Print(Size(EQ, size)) == "filesize=\"" + PrintInt(size) + "\""
    ensures Print(Size(NE, size)) == "filesize!=\"" + PrintInt(size) + "\""
    ensures Print(Size(LT, size)) == "filesize<\"" + PrintInt(size) + "\""
    ensures Print(Size(LE, size)) == "filesize<=\"" + PrintInt(size) + "\""
    ensures Print(Size(GT, size)) == "filesize>\"" + PrintInt(size) + "\""
    ensures Print(Size(GE, size)) == "filesize>=\"" + PrintInt(size) + "\""
  {
    PrintedHeads();
    hide PrintInt, OpText;
  }

  lemma PrintedHeads()
    ensures "filename" + OpText(EQ) + "\"" == "filename=\"" && "key" + OpText(EQ) + "\"" == "key=\""
    ensures "filesize" + OpText(EQ) + "\"" == "filesize=\"" && "filesize" + OpText(NE) + "\"" == "filesize!=\""
    ensures "filesize" + OpText(LT) + "\"" == "filesize<\"" && "filesize" + OpText(LE) + "\"" == "filesize<=\""
    ensures "filesize" + OpText(GT) + "\"" == "filesize>\"" && "filesize" + OpText(GE) + "\"" == "filesize>=\""
    ensures "filename" + OpText(NE) + "\"" == "filename!=\""
  {
  }

  // No criterion the client prints asks for other names, but the tracker knows that.
  function OtherName(text: string): string {
    "filename!=\"" + text + "\""
  }

  // When it does what it says.
  ghost predicate ClearOther(text: string) {
    && |Pieces(text + "\"", OpText(NE) + "\"")| == 1
    && forall x :: x != NE && x != EQ ==> Pieces(text + "\"", OpText(x) + "\"")[1..] != [""]
  }

  // What processor x makes of it.
  ghost function OtherEffect(text: string, x: Operator): Effect {
    var ps := Pieces(text + "\"", OpText(x) + "\"");
    if x == NE then if |ps| == 1 then Apply(NameIsNot(text)) else Ignore
    else if x != EQ && ps[1..] == [""] then Crash
    else Ignore
  }

  lemma OtherNameOn(text: string, x: Operator)
    ensures Processor(x, OtherName(text)) == OtherEffect(text, x)
  {
    PrintedHeads();
    ProcessorOn("filename", NE, text, x);
    hide Pieces, Processor, OpText;
    assert "filename" + OpText(NE) + "\"" + (text + "\"") == OtherName(text);
    assert TestOf(NE, "filename", text) == Some(NameIsNot(text));
    hide TestOf;
  }

  /**
   * The criterion for other names keeps, of every list, exactly the files with another
   * name, reversed, if and only if its text is clear.
   */
  lemma OtherNameIff(text: string)
    ensures (forall l :: Process(OtherName(text), l) == Perform(Apply(NameIsNot(text)), l)) <==> ClearOther(text)
  {
    hide *;
    if ClearOther(text) {
      forall l
        ensures Process(OtherName(text), l) == Perform(Apply(NameIsNot(text)), l)
      {
        ClearOtherHolds(text, l);
      }
    } else {
      var l := UnclearOther(text);
    }
  }

  lemma ClearOtherHolds(text: string, l: seq<FileInfo>)
    requires ClearOther(text)
    ensures Process(OtherName(text), l) == Perform(Apply(NameIsNot(text)), l)
  {
    ClearOtherIff(text);
    OtherIgnored(text);
    hide ProcessFrom, Processor, Perform, OtherName, OtherEffect, ClearOther;
    forall x
      ensures Processor(x, OtherName(text)) == OtherEffect(text, x)
    {
      OtherNameOn(text, x);
    }
    InOrder(NE);
    SixFrom(OtherName(text), NE, l, 0);
    assert ORDER[0..] == ORDER;
  }

  lemma NoneOther(text: string, l: seq<FileInfo>)
    requires l == [FileInfo(text, 0, 1, "")]
    ensures Perform(Apply(NameIsNot(text)), l) == Some([]) && Perform(Ignore, l) == Some(l)
  {
    assert !Passes(NameIsNot(text), l[0]) && l[1..] == [];
    assert Filter(NameIsNot(text), l) == [];
  }

  lemma UnclearOther(text: string) returns (l: seq<FileInfo>)
    requires !ClearOther(text)
    ensures Process(OtherName(text), l) != Perform(Apply(NameIsNot(text)), l)
  {
    l := [FileInfo(text, 0, 1, "")];
    NoneOther(text, l);
    ClearOtherIff(text);
    hide ProcessFrom, Processor, Perform, OtherName, OtherEffect, ClearOther;
    assert ORDER[0..] == ORDER;
    if x: Operator :| OtherEffect(text, x) == Crash {
      OtherNameOn(text, x);
      InOrder(x);
      CrashFrom(OtherName(text), x, l, 0);
    } else {
      OtherIgnored(text);
      forall x
        ensures Processor(x, OtherName(text)) == OtherEffect(text, x)
      {
        OtherNameOn(text, x);
      }
      InOrder(NE);
      SixFrom(OtherName(text), NE, l, 0);
    }
  }

  lemma ClearOtherIff(text: string)
    ensures ClearOther(text) <==>
              OtherEffect(text, NE) == Apply(NameIsNot(text)) && forall x :: OtherEffect(text, x) != Crash
    ensures OtherEffect(text, NE) == Apply(NameIsNot(text)) || OtherEffect(text, NE) == Ignore
  {
    hide Pieces, OpText;
    forall x
      ensures OtherEffect(text, x) == Crash
              <==> x != NE && x != EQ && Pieces(text + "\"", OpText(x) + "\"")[1..] == [""]
    {
    }
  }

  lemma OtherIgnored(text: string)
    requires forall x :: OtherEffect(text, x) != Crash
    ensures forall x :: x != NE ==> OtherEffect(text, x) == Ignore
  {
    hide Pieces, OpText;
  }

  // Ordinary names are clear here too: the result has the files with other names.
  lemma OtherNameKeeps(text: string, l: seq<FileInfo>)
    requires PlainText(text)
    ensures Process(OtherName(text), l).Some?
    ensures forall f ::
              multiset(Process(OtherName(text), l).value)[f] == if f.filename != text then multiset(l)[f] else 0
  {
    forall op
      ensures Pieces(text + "\"", OpText(op) + "\"") == [text + "\""]
    {
      PlainTextIsWhole(text, op);
    }
    hide Pieces;
    OtherNameIff(text);
    hide Process, OtherName;
    RevMultiset(Filter(NameIsNot(text), l));
    FilterCounts(NameIsNot(text), l);
  }

  lemma {:induction false} FilterCounts(t: Test, l: seq<FileInfo>)
    ensures forall f :: multiset(Filter(t, l))[f] == if Passes(t, f) then multiset(l)[f] else 0
  {
    hide Passes;
    if l != [] {
      FilterCounts(t, l[1..]);
      assert l == [l[0]] + l[1..];
    }
  }

  // A text without quotes and operator characters.
  predicate PlainText(text: string) {
    forall i :: 0 <= i < |text| ==> text[i] != '"' && !OperatorChar(text[i])
  }

  // Its only quote is the closing one, and no operator stands in front of it.
  lemma PlainTextIsWhole(text: string, op: Operator)
    requires PlainText(text)
    ensures Pieces(text + "\"", OpText(op) + "\"") == [text + "\""]
  {
    var q, d := text + "\"", OpText(op) + "\"";
    SeparatorShape(op);
    hide OpText;
    assert !OperatorChar('"');
    forall j: nat
      ensures !At(q, d, j)
    {
      if At(q, d, j) {
        AtChar(q, d, j, 0);
      }
    }
  }

  // Ordinary texts are clear, so what the client asks for is what it gets.
  lemma PlainTextIsClear(text: string)
    requires PlainText(text)
    ensures Clear(Filename(text)) && Clear(Key(text))
  {
    forall op
      ensures Pieces(text + "\"", OpText(op) + "\"") == [text + "\""]
    {
      PlainTextIsWhole(text, op);
    }
  }

  /**
   * A key criterion keeps exactly the files with that key if and only if all files
   * of the list have it.
   */
  lemma KeyMeansIff(c: Criterion, l: seq<FileInfo>)
    requires c.Key? && Clear(c)
    ensures Process(Print(c), l).Some?
    ensures (forall f :: multiset(Process(Print(c), l).value)[f] == if f.key == c.text then multiset(l)[f] else 0)
            <==> forall f :: f in l ==> f.key == c.text
  {
    hide Clear, Process, Print;
    ClearIsHonoured(c, l);
    forall f | f in l
      ensures multiset(l)[f] > 0
    {
    }
  }

  // The comparison of the tracker is the intended one, for every file, exactly
  // for sizes that are not negative, or under "=" and "!=".
  lemma SizeMeansIff(op: Operator, size: int)
    requires INT_MIN <= size <= INT_MAX
    ensures (forall f: FileInfo :: f.length < 0x1_0000_0000 ==>
               (Passes(SizeTest(op, AsUnsigned(size)), f) <==> Compare(op, f.length, size)))
            <==> size >= 0 || op == EQ || op == NE
  {
    if size < 0 {
      assert AsUnsigned(size) == WORD + size;
      var f := FileInfo("", 0, 1, "");
      assert Passes(SizeTest(op, AsUnsigned(size)), f) <==> Compare(op, 0, WORD + size);
    } else {
      assert AsUnsigned(size) == size;
    }
  }

  // ----- whole requests

  // What a criterion asks for.
  predicate Satisfies(c: Criterion, f: FileInfo) {
    match c
    case Filename(text) => f.filename == text
    case Key(text) => f.key == text
    case Size(op, size) => Compare(op, f.length, size)
  }

  predicate SatisfiesAll(cs: seq<Criterion>, f: FileInfo) {
    forall i :: 0 <= i < |cs| ==> Satisfies(cs[i], f)
  }

  // The files that the tracker keeps for it: keys are not looked at.
  predicate Admits(c: Criterion, f: FileInfo) {
    c.Key? || Satisfies(c, f)
  }

  predicate AdmitsAll(cs: seq<Criterion>, f: FileInfo) {
    forall i :: 0 <= i < |cs| ==> Admits(cs[i], f)
  }

  function Selected(cs: seq<Criterion>, l: seq<FileInfo>): seq<FileInfo> {
    if l == [] then []
    else (if AdmitsAll(cs, l[0]) then [l[0]] else []) + Selected(cs, l[1..])
  }

  // Each criterion that is not a key reverses the list.
  function Reversals(cs: seq<Criterion>): nat {
    if cs == [] then 0 else (if cs[0].Key? then 0 else 1) + Reversals(cs[1..])
  }

  function Turned(n: nat, l: seq<FileInfo>): seq<FileInfo> {
    if n % 2 == 0 then l else Rev(l)
  }

  // Whether the tracker understands c as it was meant.
  ghost predicate Understood(c: Criterion) {
    && IsInt(c) && Clear(c)
    && (c.Size? ==> c.size >= 0 || c.op == EQ || c.op == NE)
    && (!c.Size? ==> ' ' !in c.text)
  }

  predicate Registered(l: seq<FileInfo>) {
    forall i :: 0 <= i < |l| ==> l[i].length < 0x1_0000_0000
  }

  lemma {:induction false} SelectedSnoc(cs: seq<Criterion>, l: seq<FileInfo>, f: FileInfo)
    ensures Selected(cs, l + [f]) == Selected(cs, l) + if AdmitsAll(cs, f) then [f] else []
  {
    if l == [] {
      assert l + [f] == [f] && [f][1..] == [];
    } else {
      assert (l + [f])[1..] == l[1..] + [f];
      SelectedSnoc(cs, l[1..], f);
    }
  }

  lemma {:induction false} SelectedRev(cs: seq<Criterion>, l: seq<FileInfo>)
    ensures Selected(cs, Rev(l)) == Rev(Selected(cs, l))
  {
    if l != [] {
      SelectedRev(cs, l[1..]);
      SelectedSnoc(cs, Rev(l[1..]), l[0]);
      if AdmitsAll(cs, l[0]) {
        RevPrepend(l[0], Selected(cs, l[1..]));
      } else {
        assert Selected(cs, l) == Selected(cs, l[1..]);
      }
    }
  }

  lemma AdmitsSplit(cs: seq<Criterion>, f: FileInfo)
    requires cs != []
    ensures AdmitsAll(cs, f) <==> Admits(cs[0], f) && AdmitsAll(cs[1..], f)
  {
    if Admits(cs[0], f) && AdmitsAll(cs[1..], f) {
      forall i | 0 <= i < |cs|
        ensures Admits(cs[i], f)
      {
        assert i > 0 ==> cs[i] == cs[1..][i - 1];
      }
    }
    if AdmitsAll(cs, f) {
      forall i | 0 <= i < |cs| - 1
        ensures Admits(cs[1..][i], f)
      {
        assert cs[1..][i] == cs[i + 1];
      }
    }
  }

  // Filtering by the first criterion, then by the others.
  lemma {:induction false} SelectedFilter(cs: seq<Criterion>, t: Test, l: seq<FileInfo>)
    requires cs != []
    requires forall i :: 0 <= i < |l| ==> (Passes(t, l[i]) <==> Admits(cs[0], l[i]))
    ensures Selected(cs[1..], Filter(t, l)) == Selected(cs, l)
  {
    hide Passes, Admits, AdmitsAll;
    if l != [] {
      assert forall i :: 0 <= i < |l[1..]| ==> l[1..][i] == l[i + 1];
      SelectedFilter(cs, t, l[1..]);
      AdmitsSplit(cs, l[0]);
      assert Passes(t, l[0]) <==> Admits(cs[0], l[0]);
      if Passes(t, l[0]) {
        assert Filter(t, l)[0] == l[0] && Filter(t, l)[1..] == Filter(t, l[1..]);
      } else {
        assert Filter(t, l) == Filter(t, l[1..]);
      }
    }
  }

  lemma {:induction false} SelectedKey(cs: seq<Criterion>, l: seq<FileInfo>)
    requires cs != [] && cs[0].Key?
    ensures Selected(cs[1..], l) == Selected(cs, l)
  {
    if l != [] {
      SelectedKey(cs, l[1..]);
      AdmitsSplit(cs, l[0]);
    }
  }

  lemma {:induction false} FilterRegistered(t: Test, l: seq<FileInfo>)
    requires Registered(l)
    ensures Registered(Filter(t, l))
  {
    if l != [] {
      FilterRegistered(t, l[1..]);
    }
  }

  lemma RevRegistered(l: seq<FileInfo>)
    requires Registered(l)
    ensures Registered(Rev(l))
  {
    forall i | 0 <= i < |l|
      ensures Rev(l)[i].length < 0x1_0000_0000
    {
      RevAt(l, i);
    }
  }

  // One understood criterion leaves the files that it admits, reversed.
  lemma UnderstoodStep(cs: seq<Criterion>, l: seq<FileInfo>)
    requires cs != [] && Understood(cs[0]) && Registered(l)
    ensures Process(Print(cs[0]), l).Some?
    ensures var l' := Process(Print(cs[0]), l).value;
            Registered(l') && Selected(cs[1..], l') == if cs[0].Key? then Selected(cs, l) else Rev(Selected(cs, l))
  {
    var c := cs[0];
    ClearIsHonoured(c, l);
    hide Process, Print, Clear;
    match Honoured(c) {
      case Apply(t) =>
        if c.Size? {
          SizeMeansIff(c.op, c.size);
        }
        assert forall i :: 0 <= i < |l| ==> (Passes(t, l[i]) <==> Admits(c, l[i]));
        hide Rev, Passes, Admits;
        SelectedFilter(cs, t, l);
        SelectedRev(cs[1..], Filter(t, l));
        FilterRegistered(t, l);
        RevRegistered(Filter(t, l));
      case Ignore =>
        SelectedKey(cs, l);
    }
  }

  lemma {:induction false} UnderstoodAll(cs: seq<Criterion>, l: seq<FileInfo>)
    requires (forall i :: 0 <= i < |cs| ==> Understood(cs[i])) && Registered(l)
    ensures ProcessAll(Prints(cs), l) == Some(Turned(Reversals(cs), Selected(cs, l)))
  {
    hide Process, Print, Selected, Rev, Understood, Registered;
    if cs == [] {
      SelectedNone(l);
    } else {
      UnderstoodStep(cs, l);
      var l' := Process(Print(cs[0]), l).value;
      UnderstoodAll(cs[1..], l');
      assert Prints(cs)[1..] == Prints(cs[1..]);
      RevTwice(Selected(cs, l));
    }
  }

  lemma {:induction false} SelectedNone(l: seq<FileInfo>)
    ensures Selected([], l) == l
  {
    if l != [] {
      SelectedNone(l[1..]);
    }
  }

  lemma PrintedWord(c: Criterion)
    requires Understood(c)
    ensures IsWord(Print(c), " ")
  {
    PrintParts(c);
    NoSpace(c);
    assert forall i :: 0 <= i < |ValueText(c)| ==> ValueText(c)[i] != ' ' by {
      if c.Size? {
        PrintedFirst(c.size);
      }
    }
    hide Print, OpText, FieldText, ValueText;
    var a := FieldText(c) + OpText(Addressed(c)) + "\"";
    assert a + (ValueText(c) + "\"") == Print(c);
    forall i | 0 <= i < |Print(c)|
      ensures Print(c)[i] != ' '
    {
      assert Print(c)[i] == if i < |a| then a[i] else (ValueText(c) + "\"")[i - |a|];
    }
  }

  lemma NoSpace(c: Criterion)
    ensures ' ' !in FieldText(c) + OpText(Addressed(c)) + "\""
  {
  }

  // A request as the client prints it finds exactly the registered files that
  // all of its criteria admit, in the order of the table or its reverse.
  lemma {:induction false} LookIsExact(cs: seq<Criterion>, files: seq<FileInfo>)
    requires (forall i :: 0 <= i < |cs| ==> Understood(cs[i])) && Registered(files)
    ensures Look(Join(Prints(cs), " "), files) == Some(Turned(Reversals(cs), Selected(cs, files)))
  {
    forall i | 0 <= i < |cs|
      ensures IsWord(Prints(cs)[i], " ")
    {
      PrintedWord(cs[i]);
    }
    JoinedTokensIff(Prints(cs), ' ', " ");
    UnderstoodAll(cs, files);
  }

  lemma {:induction false} SelectedMultiset(cs: seq<Criterion>, l: seq<FileInfo>, f: FileInfo)
    ensures multiset(Selected(cs, l))[f] == if AdmitsAll(cs, f) then multiset(l)[f] else 0
  {
    if l != [] {
      SelectedMultiset(cs, l[1..], f);
      assert l == [l[0]] + l[1..];
    }
  }

  // Whatever the order of the criteria, each file is found as often as it is
  // registered if they all admit it, and not otherwise.
  lemma LookInAnyOrder(cs: seq<Criterion>, cs': seq<Criterion>, files: seq<FileInfo>)
    requires (forall i :: 0 <= i < |cs| ==> Understood(cs[i])) && Registered(files)
    requires multiset(cs) == multiset(cs')
    ensures Look(Join(Prints(cs), " "), files).Some? && Look(Join(Prints(cs'), " "), files).Some?
    ensures multiset(Look(Join(Prints(cs), " "), files).value) == multiset(Look(Join(Prints(cs'), " "), files).value)
    ensures forall f ::
              multiset(Look(Join(Prints(cs), " "), files).value)[f]
              == if AdmitsAll(cs, f) then multiset(files)[f] else 0
  {
    forall i | 0 <= i < |cs'|
      ensures Understood(cs'[i]) && cs'[i] in cs
    {
      assert cs'[i] in multiset(cs');
    }
    LookIsExact(cs, files);
    LookIsExact(cs', files);
    RevMultiset(Selected(cs, files));
    RevMultiset(Selected(cs', files));
    forall f
      ensures multiset(Selected(cs, files))[f] == multiset(Selected(cs', files))[f]
      ensures multiset(Selected(cs, files))[f] == if AdmitsAll(cs, f) then multiset(files)[f] else 0
    {
      SelectedMultiset(cs, files, f);
      SelectedMultiset(cs', files, f);
      SameCriteria(cs, cs', f);
    }
  }

  // The keys a request names are all the file's own.
  predicate KeysMatch(cs: seq<Criterion>, f: FileInfo) {
    forall i :: 0 <= i < |cs| && cs[i].Key? ==> f.key == cs[i].text
  }

  lemma SatisfiesParts(cs: seq<Criterion>, f: FileInfo)
    ensures SatisfiesAll(cs, f) <==> AdmitsAll(cs, f) && KeysMatch(cs, f)
  {
  }

  /**
   * A request finds each file that satisfies all of its criteria as often as it is
   * registered and no other, if and only if every registered file that satisfies
   * the criteria other than keys has the keys asked for.
   */
  lemma LookIsMeantIff(cs: seq<Criterion>, files: seq<FileInfo>)
    requires (forall i :: 0 <= i < |cs| ==> Understood(cs[i])) && Registered(files)
    ensures Look(Join(Prints(cs), " "), files).Some?
    ensures (forall f :: multiset(Look(Join(Prints(cs), " "), files).value)[f] ==
                           if SatisfiesAll(cs, f) then multiset(files)[f] else 0)
            <==> forall f :: f in files && AdmitsAll(cs, f) ==> KeysMatch(cs, f)
  {
    hide Look, Understood, Registered, SatisfiesAll, AdmitsAll, KeysMatch;
    LookIsExact(cs, files);
    RevMultiset(Selected(cs, files));
    forall f
      ensures multiset(Selected(cs, files))[f] == if AdmitsAll(cs, f) then multiset(files)[f] else 0
      ensures SatisfiesAll(cs, f) <==> AdmitsAll(cs, f) && KeysMatch(cs, f)
      ensures f in files <==> multiset(files)[f] > 0
    {
      SelectedMultiset(cs, files, f);
      SatisfiesParts(cs, f);
    }
  }

  lemma SameCriteria(cs: seq<Criterion>, cs': seq<Criterion>, f: FileInfo)
    requires multiset(cs) == multiset(cs')
    ensures AdmitsAll(cs, f) <==> AdmitsAll(cs', f)
  {
    if AdmitsAll(cs, f) {
      SameMembers(cs, cs', f);
    }
    if AdmitsAll(cs', f) {
      SameMembers(cs', cs, f);
    }
  }

  lemma SameMembers(cs: seq<Criterion>, cs': seq<Criterion>, f: FileInfo)
    requires multiset(cs) == multiset(cs') && AdmitsAll(cs, f)
    ensures AdmitsAll(cs', f)
  {
    forall i | 0 <= i < |cs'|
      ensures Admits(cs'[i], f)
    {
      assert cs'[i] in multiset(cs);
      var j :| 0 <= j < |cs| && cs[j] == cs'[i];
    }
  }
}
