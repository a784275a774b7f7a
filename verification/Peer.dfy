/**
 * The data and getpieces exchanges of client_java/rz/Peer.java as they run:
 * loops that consume and produce a stream and write pieces into a file.  Each
 * is tied to the decoding and encoding functions of the wire format.  One file
 * is registered with the peer; any other key is unknown.
 */
module Peers {
  import opened Wrappers
  import opened BitSets
  import opened Decimal
  import opened PieceFile
  import opened Wire

  datatype Outcome = Done | UnknownKey | Thrown

  // The non-negative piece numbers of a list of writes.
  function Indices(ws: seq<Write>): set<int> {
    set i | 0 <= i < |ws| && ws[i].0 >= 0 :: ws[i].0
  }

  predicate Accepted(bytes: nat, pieceSize: nat, w: Write) {
    Offset(pieceSize, w.0) >= 0 && 0 <= JavaDiv(w.0, 8) < bytes
  }

  predicate AllAccepted(bytes: nat, pieceSize: nat, ws: seq<Write>) {
    forall w :: w in ws ==> Accepted(bytes, pieceSize, w)
  }

  // The writes in front of the first that is not accepted.
  function Leading(bytes: nat, pieceSize: nat, ws: seq<Write>): (n: nat)
    ensures n <= |ws|
  {
    if ws == [] || !Accepted(bytes, pieceSize, ws[0]) then 0 else 1 + Leading(bytes, pieceSize, ws[1..])
  }

  // Those that reach the disk, the first that is not accepted included.
  function Tried(bytes: nat, pieceSize: nat, ws: seq<Write>): (n: nat)
    ensures n <= |ws|
  {
    var n := Leading(bytes, pieceSize, ws);
    if n < |ws| then n + 1 else n
  }

  lemma {:induction false} LeadingIs(bytes: nat, pieceSize: nat, ws: seq<Write>, n: nat)
    requires n <= |ws| && AllAccepted(bytes, pieceSize, ws[..n])
    requires n < |ws| ==> !Accepted(bytes, pieceSize, ws[n])
    ensures Leading(bytes, pieceSize, ws) == n
  {
    hide Accepted;
    if n > 0 {
      assert ws[..n][0] == ws[0] && ws[..n][1..] == ws[1..][..n - 1];
      LeadingIs(bytes, pieceSize, ws[1..], n - 1);
    }
  }

  lemma WriteAllSnoc(content: seq<byte>, length: nat, pieceSize: nat, ws: seq<Write>, w: Write)
    requires pieceSize >= 1
    ensures WriteAll(content, length, pieceSize, ws + [w])
         == AfterWrite(WriteAll(content, length, pieceSize, ws), length, pieceSize, w.0, w.1)
    ensures Indices(ws + [w]) == Indices(ws) + if w.0 >= 0 then {w.0} else {}
  {
    assert (ws + [w])[..|ws|] == ws;
    assert forall i :: 0 <= i < |ws| ==> (ws + [w])[i] == ws[i];
    assert (ws + [w])[|ws|] == w;
    forall x
      ensures x in Indices(ws + [w]) <==> x in Indices(ws) + if w.0 >= 0 then {w.0} else {}
    {
      if x in Indices(ws) {
        var i :| 0 <= i < |ws| && ws[i].0 >= 0 && ws[i].0 == x;
        assert (ws + [w])[i].0 == x;
      }
    }
  }

  // The bitmap made for a file has room for every piece.
  lemma ByteOfIndex(i: nat, n: nat)
    requires i < n
    ensures 0 <= JavaDiv(i, 8) < (n + 7) / 8
  {
  }

  lemma PieceAccepted(source: seq<byte>, pieceSize: nat, i: nat)
    requires FitsInt(|source|, pieceSize) && i < TruePieceCount(|source|, pieceSize)
    ensures Accepted((PieceCount(|source|, pieceSize) + 7) / 8, pieceSize, (i, Piece(source, pieceSize, i)))
  {
    hide PieceCount, TruePieceCount, Offset, JavaDiv, FitsInt, Piece;
    CountBounds(|source|, pieceSize);
    PieceOffset(|source|, pieceSize, i);
    MultiplyOrder(pieceSize, 0, i);
    ByteOfIndex(i, PieceCount(|source|, pieceSize));
  }

  lemma InRangeAccepted(source: seq<byte>, pieceSize: nat, order: seq<nat>)
    requires FitsInt(|source|, pieceSize)
    requires forall i :: i in order ==> i < TruePieceCount(|source|, pieceSize)
    ensures PieceCount(|source|, pieceSize) >= 0
    ensures AllAccepted((PieceCount(|source|, pieceSize) + 7) / 8, pieceSize, PieceWrites(source, pieceSize, order))
  {
    CountBounds(|source|, pieceSize);
    hide PieceCount, TruePieceCount, Accepted, FitsInt, Piece;
    var ws := PieceWrites(source, pieceSize, order);
    forall w | w in ws
      ensures Accepted((PieceCount(|source|, pieceSize) + 7) / 8, pieceSize, w)
    {
      var k :| 0 <= k < |order| && ws[k] == w;
      assert order[k] in order;
      PieceAccepted(source, pieceSize, order[k]);
    }
  }

  // What receiveData reads: the key, and the pieces behind the bracket.
  function TakeMessage(input: string, pieceSize: nat): (string, Decoded) {
    var (key, afterKey) := TakeWord(input);
    (key, DecodePieces(TakeExactly(afterKey, 1).1, pieceSize))
  }

  // The message of sendData behind its protocol word, as receiveData takes it apart.
  lemma MessageTaken(key: string, pieces: string)
    requires |key| < MAX_BUFFER_SIZE && forall i :: 0 <= i < |key| ==> key[i] != ' ' && key[i] != '\n'
    ensures forall pieceSize :: TakeMessage(key + " [" + pieces, pieceSize) == (key, DecodePieces(pieces, pieceSize))
  {
    hide DecodePieces;
    assert ("[" + pieces)[1..] == pieces;
    WordRoundTripIff(key, "[" + pieces);
    assert key + " " + ("[" + pieces) == key + " [" + pieces;
  }

  lemma IndicesOf(source: seq<byte>, pieceSize: nat, order: seq<nat>)
    ensures forall i :: i in Indices(PieceWrites(source, pieceSize, order)) <==> i >= 0 && i in order
  {
    var ws := PieceWrites(source, pieceSize, order);
    forall i
      ensures i in Indices(ws) <==> i >= 0 && i in order
    {
      if i >= 0 && i in order {
        var k :| 0 <= k < |order| && order[k] == i;
        assert ws[k].0 == i;
      }
    }
  }

  // End to end: what sendData prints for owned pieces that together cover the
  // file makes receiveData end normally, behind the whole message, with the
  // sender's content and every piece marked, whatever was on disk before.
  lemma ExchangeIsExact(source: seq<byte>, pieceSize: nat, members: set<int>, bytes: nat, order: seq<nat>,
                        key: string, onDisk: seq<byte>, rest: string)
    requires FitsInt(|source|, pieceSize)
    requires forall i: nat :: i in order <==> i < TruePieceCount(|source|, pieceSize)
    requires forall i :: i in order ==> i in members && i < 8 * bytes
    requires |key| < MAX_BUFFER_SIZE && forall i :: 0 <= i < |key| ==> key[i] != ' ' && key[i] != '\n'
    ensures var (text, sent) := ServeText(source, pieceSize, members, bytes, order);
            var (name, decoded) := TakeMessage(key + " [" + (text + "] " + rest), pieceSize);
            && sent && name == key && decoded.rest == Some(rest)
            && AllAccepted((PieceCount(|source|, pieceSize) + 7) / 8, pieceSize, decoded.writes)
            && WriteAll(onDisk, |source|, pieceSize, decoded.writes) == source
            && (forall i :: i in Indices(decoded.writes) <==> 0 <= i < TruePieceCount(|source|, pieceSize))
  {
    hide ServeText, TakeMessage, DecodePieces, WriteAll, TruePieceCount, PieceCount, AllAccepted, Indices;
    forall i | 0 <= i < |order|
      ensures order[i] < TruePieceCount(|source|, pieceSize) && order[i] in members && order[i] < 8 * bytes
    {
      assert order[i] in order;
    }
    OwnedAreServed(source, pieceSize, members, bytes, order);
    MessageTaken(key, EncodePieces(PieceWrites(source, pieceSize, order)) + "] " + rest);
    TransferIsExact(source, onDisk, pieceSize, order, rest);
    InRangeAccepted(source, pieceSize, order);
    IndicesOf(source, pieceSize, order);
  }

  class Peer {
    const socket: Socket
    const file: File

    constructor (socket: Socket, file: File)
      ensures this.socket == socket && this.file == file
    {
      this.socket, this.file := socket, file;
    }

    // One round of sendData.
    method SendPiece(i: int) returns (ok: bool)
      requires file.Valid()
      modifies socket`output
      ensures var (text, served) := PieceText(file.content, file.pieceSize, file.bufferMap.Members(),
                                                   file.bufferMap.bits.Length, i);
              ok == served && socket.output == old(socket.output) + text
    {
      hide PrintInt, BytesToChars, Serve;
      socket.Send(PrintInt(i) + ":");
      var piece := file.ReadPiece(i);
      ok := true;
      match piece {
        case Ok(data) => socket.SendByte(data);
        case Err(NoPart) => socket.Send("error\n");
        case Err(Failure) => ok := false;
      }
    }

    // sendData; false when a read failed other than for a missing piece.
    method SendData(index: seq<int>) returns (ok: bool)
      requires file.Valid()
      modifies socket`output
      ensures var (text, served) := ServeText(file.content, file.pieceSize, file.bufferMap.Members(),
                                              file.bufferMap.bits.Length, index);
              && ok == served
              && socket.output == old(socket.output) + "data " + file.key + " [" + text + if ok then "] " else ""
    {
      hide PieceText, ServeText;
      socket.Send("data " + file.key + " [");
      ghost var start := socket.output;
      SendStarts(index);
      ok := SendPieces(index, start);
      if ok {
        socket.Send("] ");
      }
    }

    // What sendData has printed of its pieces, then what is still to be printed.
    ghost function Sending(done: string, index: seq<int>, i: nat): (string, bool)
      requires file.Valid() && i <= |index|
      reads file, file.bufferMap, file.bufferMap.bits
    {
      AfterText(
        done, ServeText(file.content, file.pieceSize, file.bufferMap.Members(), file.bufferMap.bits.Length, index[i..]))
    }

    lemma SendStarts(index: seq<int>)
      requires file.Valid()
      ensures Sending("", index, 0)
           == ServeText(file.content, file.pieceSize, file.bufferMap.Members(), file.bufferMap.bits.Length, index)
    {
      assert index[0..] == index;
      PrefixedText(
        "", ServeText(file.content, file.pieceSize, file.bufferMap.Members(), file.bufferMap.bits.Length, index));
    }

    // The loop of sendData.
    method SendPieces(index: seq<int>, ghost start: string) returns (ok: bool)
      requires file.Valid() && socket.output == start
      modifies socket`output
      ensures (socket.output, ok) == (start + Sending("", index, 0).0, Sending("", index, 0).1)
    {
      hide PieceText, ServeText, AfterText;
      ghost var done, members, bytes := "", file.bufferMap.Members(), file.bufferMap.bits.Length;
      ghost var goal := Sending("", index, 0);
      for i := 0 to |index|
        invariant socket.output == start + done
        invariant goal == Sending("", index, 0) == Sending(done, index, i)
      {
        ServeStep(file.content, file.pieceSize, members, bytes, index, i, done);
        ok := SendPiece(index[i]);
        done := done + PieceText(file.content, file.pieceSize, members, bytes, index[i]).0;
        assert socket.output == start + done;
        if !ok {
          assert goal == (done, false);
          return;
        }
      }
      NothingServed(file.content, file.pieceSize, members, bytes, index, done);
      ok := true;
    }

    // What one round of sendData leaves to be sent.
    static lemma ServeStep(content: seq<byte>, pieceSize: nat, members: set<int>, bytes: nat, index: seq<int>, i: nat,
                           done: string)
      requires i < |index|
      ensures var (text, ok) := PieceText(content, pieceSize, members, bytes, index[i]);
              AfterText(done, ServeText(content, pieceSize, members, bytes, index[i..])) ==
                if ok then AfterText(done + text, ServeText(content, pieceSize, members, bytes, index[i + 1..]))
                else (done + text, false)
    {
      hide PieceText;
      assert index[i..][1..] == index[i + 1..];
      var (text, ok) := PieceText(content, pieceSize, members, bytes, index[i]);
      if ok {
        var more := ServeText(content, pieceSize, members, bytes, index[i + 1..]).0;
        assert done + (text + more) == (done + text) + more;
      }
    }

    static lemma NothingServed(content: seq<byte>, pieceSize: nat, members: set<int>, bytes: nat, index: seq<int>,
                               done: string)
      ensures AfterText(done, ServeText(content, pieceSize, members, bytes, index[|index|..])) == (done, true)
    {
      PrefixedText(done, ("", true));
    }

    static function AfterText(done: string, p: (string, bool)): (string, bool) {
      (done + p.0, p.1)
    }

    static lemma PrefixedText(done: string, p: (string, bool))
      ensures AfterText("", p) == p
      ensures p.0 == "" ==> AfterText(done, p) == (done, p.1)
    {
      assert "" + p.0 == p.0;
      assert done + "" == done;
    }

    // receiveData: the writes decoded from the stream, applied in order until
    // one throws.
    method ReceiveData() returns (outcome: Outcome)
      requires file.Valid()
      modifies socket, file`content, file.bufferMap.bits
      ensures var (key, decoded) := TakeMessage(old(socket.input), file.pieceSize);
              if key != file.key then
                && outcome == UnknownKey && file.content == old(file.content)
                && socket.output == old(socket.output) + "error\n"
              else
                Received(outcome, decoded, old(file.content), old(file.bufferMap.Members()))
    {
      var hash := socket.ReceiveWord();
      if hash != file.key {
        socket.Send("error\n");
        return UnknownKey;
      }
      var bracket := socket.ReceiveByte(1);
      outcome := ReceivePieces();
    }

    // Between two rounds of receiveData: `done` has been written to the file that
    // held `disk`, and the rest of `goal` is still in the stream.
    ghost predicate Receiving(goal: Decoded, disk: seq<byte>, had: set<int>, done: seq<Write>)
      requires file.Valid()
      reads socket, file, file.bufferMap, file.bufferMap.bits
    {
      && Continues(goal, done, DecodePieces(socket.input, file.pieceSize))
      && file.content == WriteAll(disk, file.length, file.pieceSize, done)
      && file.bufferMap.Members() == had + Indices(done)
      && AllAccepted(file.bufferMap.bits.Length, file.pieceSize, done)
    }

    // What receiveData leaves once it ends.
    ghost predicate Received(outcome: Outcome, goal: Decoded, disk: seq<byte>, had: set<int>)
      requires file.Valid()
      reads socket, file, file.bufferMap, file.bufferMap.bits
    {
      && (outcome == Done <==> goal.rest.Some? && AllAccepted(file.bufferMap.bits.Length, file.pieceSize, goal.writes))
      && (outcome == Done ==>
            && Some(socket.input) == goal.rest
            && file.content == WriteAll(disk, file.length, file.pieceSize, goal.writes)
            && file.bufferMap.Members() == had + Indices(goal.writes))
      && (outcome != Done ==>
            && outcome == Thrown
            && var n := Tried(file.bufferMap.bits.Length, file.pieceSize, goal.writes);
            && file.content == WriteAll(disk, file.length, file.pieceSize, goal.writes[..n])
            && file.bufferMap.Members()
               == had + Indices(goal.writes[..Leading(file.bufferMap.bits.Length, file.pieceSize, goal.writes)]))
    }

    // One round: a number up to a stop character, then a piece.
    method ReceiveRound(ghost goal: Decoded, ghost disk: seq<byte>, ghost had: set<int>, ghost done: seq<Write>)
      returns (outcome: Option<Outcome>, ghost done': seq<Write>)
      requires file.Valid() && Receiving(goal, disk, had, done)
      modifies socket`input, file`content, file.bufferMap.bits
      ensures outcome.None? ==> Receiving(goal, disk, had, done') && |socket.input| < |old(socket.input)|
      ensures outcome.Some? ==> Received(outcome.value, goal, disk, had)
    {
      hide DecodePieces, TakeUntil, ParseInt, WriteAll, AfterWrite, Offset, JavaDiv, Indices, ByteAfter, Head;
      hide Received, AllAccepted, BitSet.InBounds;
      done' := done;
      DecodeStep(socket.input, file.pieceSize);
      var str := socket.ReceiveUntil(": \n");
      if str == "]" {
        assert done + [] == done;
        ListEnds(goal, disk, had, done);
        return Some(Done), done;
      }
      var index := ParseInt(str);
      if index.None? {
        assert done + [] == done;
        BreaksOff(goal, disk, had, done);
        return Some(Thrown), done;
      }
      var piece := socket.ReceiveByte(file.pieceSize);
      ghost var w: Write := (index.value, piece);
      WriteAllSnoc(disk, file.length, file.pieceSize, done, w);
      ContinueWith(goal, done, w, DecodePieces(socket.input, file.pieceSize));
      AcceptedIff(w);
      var ok := file.WritePiece(index.value, piece);
      done' := done + [w];
      outcome := None;
      if ok {
        AcceptSnoc(file.bufferMap.bits.Length, file.pieceSize, done, w);
      } else {
        Refused(goal, disk, had, done, w);
        outcome := Some(Thrown);
      }
    }

    lemma AcceptedIff(w: Write)
      ensures Accepted(file.bufferMap.bits.Length, file.pieceSize, w)
              <==> Offset(file.pieceSize, w.0) >= 0 && file.bufferMap.InBounds(w.0)
    {
    }

    static lemma AcceptSnoc(bytes: nat, pieceSize: nat, done: seq<Write>, w: Write)
      requires AllAccepted(bytes, pieceSize, done) && Accepted(bytes, pieceSize, w)
      ensures AllAccepted(bytes, pieceSize, done + [w])
    {
      hide Accepted;
    }

    // The list has been read to its bracket.
    lemma ListEnds(goal: Decoded, disk: seq<byte>, had: set<int>, done: seq<Write>)
      requires file.Valid() && goal == Decoded(done, Some(socket.input))
      requires file.content == WriteAll(disk, file.length, file.pieceSize, done)
      requires file.bufferMap.Members() == had + Indices(done)
      requires AllAccepted(file.bufferMap.bits.Length, file.pieceSize, done)
      ensures Received(Done, goal, disk, had)
    {
      hide WriteAll, Indices, AllAccepted;
    }

    // No number was read.
    lemma BreaksOff(goal: Decoded, disk: seq<byte>, had: set<int>, done: seq<Write>)
      requires file.Valid() && goal == Decoded(done, None)
      requires file.content == WriteAll(disk, file.length, file.pieceSize, done)
      requires file.bufferMap.Members() == had + Indices(done)
      requires AllAccepted(file.bufferMap.bits.Length, file.pieceSize, done)
      ensures Received(Thrown, goal, disk, had)
    {
      assert done[..|done|] == done;
      LeadingIs(file.bufferMap.bits.Length, file.pieceSize, done, |done|);
      hide WriteAll, Indices, AllAccepted, Leading;
    }

    // A write was refused.
    lemma Refused(goal: Decoded, disk: seq<byte>, had: set<int>, done: seq<Write>, w: Write)
      requires file.Valid() && |done| < |goal.writes| && goal.writes[..|done + [w]|] == done + [w]
      requires file.content == WriteAll(disk, file.length, file.pieceSize, done + [w])
      requires file.bufferMap.Members() == had + Indices(done)
      requires AllAccepted(file.bufferMap.bits.Length, file.pieceSize, done)
      requires !Accepted(file.bufferMap.bits.Length, file.pieceSize, w)
      ensures Received(Thrown, goal, disk, had)
    {
      assert goal.writes[|done|] == (done + [w])[|done|] == w && goal.writes[..|done|] == done;
      LeadingIs(file.bufferMap.bits.Length, file.pieceSize, goal.writes, |done|);
      assert w in goal.writes;
      hide WriteAll, Indices, Leading, Accepted;
    }

    // The loop of receiveData.
    method ReceivePieces() returns (outcome: Outcome)
      requires file.Valid()
      modifies socket`input, file`content, file.bufferMap.bits
      ensures Received(outcome, DecodePieces(old(socket.input), file.pieceSize), old(file.content),
                       old(file.bufferMap.Members()))
    {
      ghost var disk, had, done: seq<Write> := file.content, file.bufferMap.Members(), [];
      ghost var goal := DecodePieces(socket.input, file.pieceSize);
      NothingWritten(disk, file.length, file.pieceSize);
      assert [] + goal.writes == goal.writes;
      assert Receiving(goal, disk, had, done);
      hide Receiving, Received, DecodePieces;
      while true
        invariant Receiving(goal, disk, had, done)
        decreases |socket.input|
      {
        var ended;
        ended, done := ReceiveRound(goal, disk, had, done);
        if ended.Some? {
          return ended.value;
        }
      }
    }

    // The decoding is what has been done followed by what the rest decodes to.
    static predicate Continues(goal: Decoded, done: seq<Write>, more: Decoded) {
      goal.writes == done + more.writes && goal.rest == more.rest
    }

    static lemma ContinueWith(goal: Decoded, done: seq<Write>, w: Write, more: Decoded)
      requires Continues(goal, done, more.(writes := [w] + more.writes))
      ensures Continues(goal, done + [w], more)
      ensures goal.writes[..|done + [w]|] == done + [w]
    {
    }

    // One round of receiveData.
    static lemma DecodeStep(input: string, pieceSize: nat)
      ensures var (text, rest) := TakeUntil(input, ": \n", MAX_BUFFER_SIZE);
              var decoded := DecodePieces(input, pieceSize);
              && (text == "]" ==> decoded == Decoded([], Some(rest)))
              && (text != "]" && ParseInt(text).None? ==> decoded == Decoded([], None))
              && (text != "]" && ParseInt(text).Some? ==>
                    var (chars, rest') := TakeExactly(rest, pieceSize);
                    var more := DecodePieces(rest', pieceSize);
                    |rest'| < |input| &&
                    decoded == more.(writes := [(ParseInt(text).value, CharsToBytes(chars))] + more.writes))
    {
      hide TakeUntil, ParseInt, CharsToBytes;
      TakeUntilShrinks(input, ": \n", MAX_BUFFER_SIZE);
      NoNumberAtEnd(": \n");
    }

    static lemma NothingWritten(disk: seq<byte>, length: nat, pieceSize: nat)
      requires pieceSize >= 1
      ensures WriteAll(disk, length, pieceSize, []) == disk && Indices([]) == {}
    {
    }

    // sendGetpieces
    method SendGetpieces(index: seq<int>)
      modifies socket`output
      ensures socket.output == old(socket.output) + "getpieces " + file.key + " [" + IndexString(index) + "] "
    {
      hide PrintInt;
      var out := "";
      assert index[0..] == index;
      for i := 0 to |index|
        invariant IndexString(index) == out + IndexString(index[i..])
      {
        assert index[i..][1..] == index[i + 1..];
        assert out + (PrintInt(index[i]) + " " + IndexString(index[i + 1..]))
               == (out + (PrintInt(index[i]) + " ")) + IndexString(index[i + 1..]);
        out := out + (PrintInt(index[i]) + " ");
      }
      assert index[|index|..] == [] && out + "" == out;
      socket.Send("getpieces " + file.key + " [" + out + "] ");
    }

    // receiveGetpieces: answers with the requested pieces.
    method ReceiveGetpieces() returns (outcome: Outcome)
      requires file.Valid()
      modifies socket
      ensures var (key, afterKey) := TakeWord(old(socket.input));
              if key != file.key then
                outcome == UnknownKey && socket.output == old(socket.output) + "error\n"
              else
                match DecodeIndices(TakeExactly(afterKey, 1).1)
                case None => outcome == Thrown && socket.output == old(socket.output)
                case Some((index, rest)) =>
                  var (text, served) := ServeText(file.content, file.pieceSize, file.bufferMap.Members(),
                                                    file.bufferMap.bits.Length, index);
                  && outcome == (if served then Done else Thrown)
                  && socket.input == rest
                  && socket.output
                     == old(socket.output) + "data " + file.key + " [" + text + if served then "] " else ""
    {
      var hash := socket.ReceiveWord();
      if hash != file.key {
        socket.Send("error\n");
        return UnknownKey;
      }
      var bracket := socket.ReceiveByte(1);
      var index := ReceiveIndices();
      if index.None? {
        return Thrown;
      }
      var ok := SendData(index.value);
      outcome := if ok then Done else Thrown;
    }

    // The loop of receiveGetpieces.
    method ReceiveIndices() returns (index: Option<seq<int>>)
      modifies socket`input
      ensures match DecodeIndices(old(socket.input))
              case None => index == None
              case Some((list, rest)) => index == Some(list) && socket.input == rest
    {
      hide TakeUntil, ParseInt;
      ghost var start := socket.input;
      var list: seq<int> := [];
      while true
        invariant DecodeIndices(start).Some? <==> DecodeIndices(socket.input).Some?
        invariant DecodeIndices(start).Some? ==>
                    && DecodeIndices(start).value.0 == list + DecodeIndices(socket.input).value.0
                    && DecodeIndices(start).value.1 == DecodeIndices(socket.input).value.1
        decreases |socket.input|
      {
        TakeUntilShrinks(socket.input, " \n", MAX_BUFFER_SIZE);
        NoNumberAtEnd(" \n");
        var str := socket.ReceiveWord();
        if str == "]" {
          assert list + [] == list;
          return Some(list);
        }
        var i := ParseInt(str);
        if i.None? {
          return None;
        }
        list := list + [i.value];
      }
    }
  }
}
