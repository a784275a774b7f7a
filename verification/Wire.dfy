/**
 * The peer protocol's binary framing (client_java/rz/Socket.java and
 * client_java/rz/Peer.java) over a character stream: words, fixed-length
 * pieces, and the data and getpieces messages.  A read at the end of the
 * stream leaves the zero characters of the Java buffer; otherwise reads are
 * complete.
 */
module Wire {
  import opened Wrappers
  import opened BitSets
  import opened Decimal
  import opened PieceFile

  const MAX_BUFFER_SIZE := 256
  const NUL: char := '\0'

  // (char) b, which sign-extends, and (byte) c
  function ByteToChar(b: byte): char {
    (if b >= 0 then b as int else 0x10000 + b as int) as char
  }

  function CharToByte(c: char): byte {
    var low := (c as int) % 256;
    (if low < 128 then low else low - 256) as byte
  }

  function BytesToChars(bs: seq<byte>): string {
    seq(|bs|, i requires 0 <= i < |bs| => ByteToChar(bs[i]))
  }

  function CharsToBytes(cs: string): seq<byte> {
    seq(|cs|, i requires 0 <= i < |cs| => CharToByte(cs[i]))
  }

  lemma BytesThroughChars(bs: seq<byte>)
    ensures CharsToBytes(BytesToChars(bs)) == bs
  {
  }

  // The casts keep the low sixteen and the low eight bits.
  lemma CastsKeepBits(b: byte, c: char)
    ensures c == ByteToChar(b) <==> (c as int - b as int) % 0x1_0000 == 0 && c as int < 0x1_0000
    ensures b == CharToByte(c) <==> (c as int - b as int) % 0x100 == 0
  {
    var up := c as int - b as int;
    assert up % 0x1_0000 == 0 && c as int < 0x1_0000 ==> up == 0 || up == 0x1_0000;
    LowByte(b, c);
    hide CharToByte;
  }

  lemma LowByte(b: byte, c: char)
    ensures b == CharToByte(c) <==> (c as int - b as int) % 0x100 == 0
  {
    var low, n := c as int % 0x100, c as int / 0x100;
    assert c as int - b as int == n * 0x100 + (low - b as int);
    assert (low - b as int) % 0x100 == 0 <==> low == b as int || low - 0x100 == b as int;
  }

  // receiveUntil with room for n more characters: the text before the first
  // stop character, which is eaten, and the rest of the stream.
  function TakeUntil(input: string, stops: string, n: nat): (string, string) {
    if n == 0 then ("", input)
    else if input == [] then
      if NUL in stops then ("", []) else
        var (text, rest) := TakeUntil(input, stops, n - 1);
        ([NUL] + text, rest)
    else if input[0] in stops then ("", input[1..])
    else
      var (text, rest) := TakeUntil(input[1..], stops, n - 1);
      ([input[0]] + text, rest)
  }

  function TakeWord(input: string): (string, string) {
    TakeUntil(input, " \n", MAX_BUFFER_SIZE)
  }

  // receiveByte, as characters
  function TakeExactly(input: string, n: nat): (r: (string, string))
    ensures |r.0| == n
  {
    if |input| >= n then (input[..n], input[n..])
    else (input + seq(n - |input|, _ => NUL), [])
  }

  // Character i of a stream that goes on with zeros.
  function CharAt(input: string, i: nat): char {
    if i < |input| then input[i] else NUL
  }

  function Behind(input: string, n: nat): string {
    if |input| > n then input[n..] else []
  }

  // receiveUntil reads what comes before the first stop character, which it drops,
  // or as much as its buffer holds.
  predicate Head(input: string, stops: string, n: nat, text: string, rest: string) {
    && |text| <= n
    && (forall i :: 0 <= i < |text| ==> text[i] == CharAt(input, i) && text[i] !in stops)
    && (|text| < n ==> CharAt(input, |text|) in stops)
    && rest == Behind(input, if |text| < n then |text| + 1 else n)
  }

  lemma {:induction false} TakeUntilIs(input: string, stops: string, n: nat)
    ensures Head(input, stops, n, TakeUntil(input, stops, n).0, TakeUntil(input, stops, n).1)
    decreases n
  {
    if n > 0 && CharAt(input, 0) !in stops {
      var behind := Behind(input, 1);
      TakeUntilIs(behind, stops, n - 1);
      var text := TakeUntil(behind, stops, n - 1).0;
      assert forall i :: 0 <= i <= |text| ==> CharAt(input, i + 1) == CharAt(behind, i);
    }
  }

  lemma Longest(input: string, stops: string, n: nat, text: string, text': string)
    requires exists rest :: Head(input, stops, n, text, rest)
    requires exists rest :: Head(input, stops, n, text', rest)
    ensures |text'| <= |text|
  {
    var i := |text|;
    assert forall j :: 0 <= j < |text'| ==> CharAt(input, j) !in stops;
  }

  // That determines what it reads.
  lemma HeadIs(input: string, stops: string, n: nat, text: string, rest: string)
    ensures Head(input, stops, n, text, rest) <==> TakeUntil(input, stops, n) == (text, rest)
  {
    TakeUntilIs(input, stops, n);
    if Head(input, stops, n, text, rest) {
      var text' := TakeUntil(input, stops, n).0;
      Longest(input, stops, n, text, text');
      Longest(input, stops, n, text', text);
      assert text == text';
    }
  }

  // receiveByte takes n characters of the stream.
  lemma TakeExactlyIs(input: string, n: nat)
    ensures forall i :: 0 <= i < n ==> TakeExactly(input, n).0[i] == CharAt(input, i)
    ensures TakeExactly(input, n).1 == Behind(input, n)
  {
  }

  // ----- messages

  // The pieces of a data message, between "[" and "] ".
  function EncodePieces(ws: seq<Write>): string {
    if ws == [] then ""
    else PrintInt(ws[0].0) + ":" + BytesToChars(ws[0].1) + EncodePieces(ws[1..])
  }

  // The loop of receiveData: None stands for NumberFormatException, after the
  // writes already decoded.
  datatype Decoded = Decoded(writes: seq<Write>, rest: Option<string>)

  function DecodePieces(input: string, pieceSize: nat): Decoded
    decreases |input|
  {
    var (text, rest) := TakeUntil(input, ": \n", MAX_BUFFER_SIZE);
    TakeUntilShrinks(input, ": \n", MAX_BUFFER_SIZE);
    NoNumberAtEnd(": \n");
    if text == "]" then Decoded([], Some(rest))
    else
      match ParseInt(text)
      case None => Decoded([], None)
      case Some(index) =>
        var (chars, rest') := TakeExactly(rest, pieceSize);
        var more := DecodePieces(rest', pieceSize);
        more.(writes := [(index, CharsToBytes(chars))] + more.writes)
  }

  lemma {:induction false} TakeUntilShrinks(input: string, stops: string, n: nat)
    ensures |TakeUntil(input, stops, n).1| <= |input|
    ensures n > 0 && input != [] ==> |TakeUntil(input, stops, n).1| < |input|
    ensures input == [] && NUL !in stops ==>
              |TakeUntil(input, stops, n).0| == n && forall i :: 0 <= i < n ==> TakeUntil(input, stops, n).0[i] == NUL
  {
    if n > 0 && input != [] && input[0] !in stops {
      TakeUntilShrinks(input[1..], stops, n - 1);
    } else if n > 0 && input == [] && NUL !in stops {
      TakeUntilShrinks(input, stops, n - 1);
    }
  }

  // At the end of the stream no number can be read.
  lemma NoNumberAtEnd(stops: string)
    requires NUL !in stops
    ensures ParseInt(TakeUntil([], stops, MAX_BUFFER_SIZE).0).None?
  {
    TakeUntilShrinks([], stops, MAX_BUFFER_SIZE);
    var text := TakeUntil([], stops, MAX_BUFFER_SIZE).0;
    assert text[0] == NUL && !IsDigit(text[0]);
  }

  // ----- what the loops accept

  // The list of pieces that receiveData makes of its input, and what it leaves: each
  // piece has its number, a stop character and pieceSize characters, and the list
  // ends at a bracket, or breaks off (None) where a number should be and is not.
  ghost predicate Spelled(input: string, pieceSize: nat, ws: seq<Write>, end: Option<string>)
    decreases |ws|, 1
  {
    exists text, rest ::
      Head(input, ": \n", MAX_BUFFER_SIZE, text, rest) && SpelledFrom(text, rest, pieceSize, ws, end)
  }

  // The same behind a number that has been read.
  ghost predicate SpelledFrom(text: string, rest: string, pieceSize: nat, ws: seq<Write>, end: Option<string>)
    decreases |ws|, 0
  {
    if ws == [] then
      if text == "]" then end == Some(rest) else end == None && ParseInt(text).None?
    else
      && text != "]" && ParseInt(text) == Some(ws[0].0)
      && |ws[0].1| == pieceSize
      && (forall i :: 0 <= i < pieceSize ==> ws[0].1[i] == CharToByte(CharAt(rest, i)))
      && Spelled(Behind(rest, pieceSize), pieceSize, ws[1..], end)
  }

  lemma SpelledHead(input: string, pieceSize: nat, ws: seq<Write>, end: Option<string>)
    ensures var (text, rest) := TakeUntil(input, ": \n", MAX_BUFFER_SIZE);
            Spelled(input, pieceSize, ws, end) <==> SpelledFrom(text, rest, pieceSize, ws, end)
  {
    hide Head, TakeUntil, SpelledFrom;
    HeadIs(input, ": \n", MAX_BUFFER_SIZE, TakeUntil(input, ": \n", MAX_BUFFER_SIZE).0,
           TakeUntil(input, ": \n", MAX_BUFFER_SIZE).1);
    forall text, rest
      ensures Head(input, ": \n", MAX_BUFFER_SIZE, text, rest)
              <==> TakeUntil(input, ": \n", MAX_BUFFER_SIZE) == (text, rest)
    {
      HeadIs(input, ": \n", MAX_BUFFER_SIZE, text, rest);
    }
  }

  // A piece read from the stream.
  lemma PieceRead(rest: string, pieceSize: nat, piece: seq<byte>)
    ensures piece == CharsToBytes(TakeExactly(rest, pieceSize).0) <==>
              |piece| == pieceSize && forall i :: 0 <= i < pieceSize ==> piece[i] == CharToByte(CharAt(rest, i))
  {
    hide CharToByte;
    TakeExactlyIs(rest, pieceSize);
  }

  /**
   * receiveData makes exactly that of any input.
   */
  lemma {:induction false} DecodeIff(input: string, pieceSize: nat, ws: seq<Write>, end: Option<string>)
    ensures DecodePieces(input, pieceSize) == Decoded(ws, end) <==> Spelled(input, pieceSize, ws, end)
    decreases |ws|
  {
    var (text, rest) := TakeUntil(input, ": \n", MAX_BUFFER_SIZE);
    SpelledHead(input, pieceSize, ws, end);
    DecodeOne(input, pieceSize);
    hide ParseInt, CharToByte, TakeUntil, DecodePieces, Spelled, CharsToBytes;
    if ws != [] && text != "]" && ParseInt(text).Some? {
      PieceRead(rest, pieceSize, ws[0].1);
      TakeExactlyIs(rest, pieceSize);
      DecodeIff(Behind(rest, pieceSize), pieceSize, ws[1..], end);
      assert ws == [ws[0]] + ws[1..];
    }
  }

  // One round of receiveData.
  lemma DecodeOne(input: string, pieceSize: nat)
    ensures var (text, rest) := TakeUntil(input, ": \n", MAX_BUFFER_SIZE);
            var decoded := DecodePieces(input, pieceSize);
            if text == "]" then decoded == Decoded([], Some(rest))
            else if ParseInt(text).None? then decoded == Decoded([], None)
            else
              var (chars, rest') := TakeExactly(rest, pieceSize);
              var more := DecodePieces(rest', pieceSize);
              |rest'| < |input| && decoded != Decoded([], decoded.rest) && decoded.rest == more.rest
              && decoded.writes[0] == (ParseInt(text).value, CharsToBytes(chars)) && decoded.writes[1..] == more.writes
  {
    hide TakeUntil, ParseInt, CharsToBytes;
    TakeUntilShrinks(input, ": \n", MAX_BUFFER_SIZE);
    NoNumberAtEnd(": \n");
  }

  // ----- round trips

  // A short text without stop characters is read back, and its stop eaten.
  lemma {:induction false} TakeUntilText(text: string, stop: char, rest: string, stops: string, n: nat)
    requires stop in stops && forall i :: 0 <= i < |text| ==> text[i] !in stops
    requires |text| < n
    ensures TakeUntil(text + [stop] + rest, stops, n) == (text, rest)
  {
    var input := text + [stop] + rest;
    if text != [] {
      assert text == [text[0]] + text[1..];
      assert input[1..] == text[1..] + [stop] + rest;
      TakeUntilText(text[1..], stop, rest, stops, n - 1);
    } else {
      assert input[1..] == rest;
    }
  }

  // receiveWord reads a word of stop-free characters back exactly when it is
  // shorter than its buffer.
  lemma WordRoundTripIff(word: string, rest: string)
    requires forall i :: 0 <= i < |word| ==> word[i] != ' ' && word[i] != '\n'
    ensures TakeWord(word + " " + rest) == (word, rest) <==> |word| < MAX_BUFFER_SIZE
  {
    if |word| < MAX_BUFFER_SIZE {
      TakeUntilText(word, ' ', rest, " \n", MAX_BUFFER_SIZE);
    } else {
      NoStopSeen(word + " " + rest, " \n", MAX_BUFFER_SIZE);
      assert |(word + " " + rest)[MAX_BUFFER_SIZE..]| > |rest|;
    }
  }

  lemma {:induction false} NoStopSeen(input: string, stops: string, n: nat)
    requires n <= |input| && forall i :: 0 <= i < n ==> input[i] !in stops
    ensures TakeUntil(input, stops, n) == (input[..n], input[n..])
  {
    if n > 0 {
      NoStopSeen(input[1..], stops, n - 1);
      assert input[..n] == [input[0]] + input[1..][..n - 1];
    }
  }

  predicate WellSized(ws: seq<Write>, pieceSize: nat) {
    forall i :: 0 <= i < |ws| ==> INT_MIN <= ws[i].0 <= INT_MAX && |ws[i].1| == pieceSize
  }

  // Whatever bytes the pieces hold, the decoder gives the writes back in order
  // and consumes the whole list.
  lemma {:induction false} PiecesRoundTrip(ws: seq<Write>, pieceSize: nat, rest: string)
    requires WellSized(ws, pieceSize)
    ensures DecodePieces(EncodePieces(ws) + "] " + rest, pieceSize) == Decoded(ws, Some(rest))
    decreases |ws|
  {
    hide ParseInt, PrintInt, PrintNat, TakeUntil, ByteToChar, CharToByte;
    var input := EncodePieces(ws) + "] " + rest;
    if ws == [] {
      assert EncodePieces(ws) == "";
      assert input == "]" + [' '] + rest;
      TakeUntilText("]", ' ', rest, ": \n", MAX_BUFFER_SIZE);
    } else {
      var (index, piece) := ws[0];
      var text, chars := PrintInt(index), BytesToChars(piece);
      var tail := EncodePieces(ws[1..]) + "] " + rest;
      assert input == text + [':'] + (chars + tail);
      PrintedFirst(index);
      IntTextIsShort(index);
      TakeUntilText(text, ':', chars + tail, ": \n", MAX_BUFFER_SIZE);
      ParsePrinted(index);
      assert TakeExactly(chars + tail, pieceSize) == (chars, tail);
      BytesThroughChars(piece);
      PiecesRoundTrip(ws[1..], pieceSize, rest);
      assert [ws[0]] + ws[1..] == ws;
      assert text != "]";
    }
  }

  // ----- getpieces

  function IndexString(index: seq<int>): string {
    if index == [] then "" else PrintInt(index[0]) + " " + IndexString(index[1..])
  }

  // The loop of receiveGetpieces: the indices and the rest of the stream.
  function DecodeIndices(input: string): Option<(seq<int>, string)>
    decreases |input|
  {
    var (text, rest) := TakeWord(input);
    TakeUntilShrinks(input, " \n", MAX_BUFFER_SIZE);
    NoNumberAtEnd(" \n");
    if text == "]" then Some(([], rest))
    else
      match ParseInt(text)
      case None => None
      case Some(i) =>
        match DecodeIndices(rest)
        case None => None
        case Some((more, rest')) => Some(([i] + more, rest'))
  }

  // An index list printed into a getpieces message is read back in order.
  lemma {:induction false} IndicesRoundTrip(index: seq<int>, rest: string)
    requires forall i :: 0 <= i < |index| ==> INT_MIN <= index[i] <= INT_MAX
    ensures DecodeIndices(IndexString(index) + "] " + rest) == Some((index, rest))
    decreases |index|
  {
    hide ParseInt, PrintInt, PrintNat, TakeUntil;
    var input := IndexString(index) + "] " + rest;
    if index == [] {
      assert input == "]" + [' '] + rest;
      TakeUntilText("]", ' ', rest, " \n", MAX_BUFFER_SIZE);
    } else {
      var text, tail := PrintInt(index[0]), IndexString(index[1..]) + "] " + rest;
      assert input == text + [' '] + tail;
      PrintedFirst(index[0]);
      IntTextIsShort(index[0]);
      TakeUntilText(text, ' ', tail, " \n", MAX_BUFFER_SIZE);
      ParsePrinted(index[0]);
      IndicesRoundTrip(index[1..], rest);
      assert [index[0]] + index[1..] == index;
    }
  }

  // The list of numbers that receiveGetpieces makes of its input, up to a bracket.
  ghost predicate Listed(input: string, index: seq<int>, end: string)
    decreases |index|, 1
  {
    exists text, rest :: Head(input, " \n", MAX_BUFFER_SIZE, text, rest) && ListedFrom(text, rest, index, end)
  }

  ghost predicate ListedFrom(text: string, rest: string, index: seq<int>, end: string)
    decreases |index|, 0
  {
    if index == [] then text == "]" && end == rest
    else text != "]" && ParseInt(text) == Some(index[0]) && Listed(rest, index[1..], end)
  }

  /**
   * receiveGetpieces accepts exactly the inputs that list numbers up to a bracket.
   */
  lemma {:induction false} DecodeIndicesIff(input: string, index: seq<int>, end: string)
    ensures DecodeIndices(input) == Some((index, end)) <==> Listed(input, index, end)
    decreases |index|
  {
    var (text, rest) := TakeWord(input);
    ListedHead(input, index, end);
    TakeUntilShrinks(input, " \n", MAX_BUFFER_SIZE);
    NoNumberAtEnd(" \n");
    hide ParseInt, TakeUntil, Listed;
    if index != [] {
      DecodeIndicesIff(rest, index[1..], end);
      assert index == [index[0]] + index[1..];
    }
  }

  lemma ListedHead(input: string, index: seq<int>, end: string)
    ensures var (text, rest) := TakeWord(input);
            Listed(input, index, end) <==> ListedFrom(text, rest, index, end)
  {
    hide Head, TakeUntil, ListedFrom;
    HeadIs(input, " \n", MAX_BUFFER_SIZE, TakeWord(input).0, TakeWord(input).1);
    forall text, rest
      ensures Head(input, " \n", MAX_BUFFER_SIZE, text, rest) <==> TakeWord(input) == (text, rest)
    {
      HeadIs(input, " \n", MAX_BUFFER_SIZE, text, rest);
    }
  }

  // ----- what sendData writes for a list of indices

  // One piece after its number; an unowned one is replaced by an error line, and
  // any other failure ends the message.
  function PieceText(content: seq<byte>, pieceSize: nat, members: set<int>, bytes: nat, i: int): (string, bool) {
    var start := PrintInt(i) + ":";
    match Serve(content, pieceSize, members, bytes, i)
    case Err(Failure) => (start, false)
    case Err(NoPart) => (start + "error\n", true)
    case Ok(piece) => (start + BytesToChars(piece), true)
  }

  function ServeText(content: seq<byte>, pieceSize: nat, members: set<int>, bytes: nat, index: seq<int>)
    : (string, bool)
  {
    if index == [] then ("", true)
    else
      var (text, ok) := PieceText(content, pieceSize, members, bytes, index[0]);
      if !ok then (text, false)
      else
        var (more, ok') := ServeText(content, pieceSize, members, bytes, index[1..]);
        (text + more, ok')
  }

  // A piece in a message: its number, and its bytes as they lie in the file, zeros
  // behind its end, or an error line if the file does not have it.
  predicate IsItem(content: seq<byte>, pieceSize: nat, members: set<int>, i: int, item: string) {
    if i in members then
      var head, pos := PrintInt(i) + ":", Wrap32(pieceSize * i);
      && |item| == |head| + pieceSize && item[..|head|] == head
      && var chars := item[|head|..];
      forall k :: 0 <= k < pieceSize ==>
        chars[k] == ByteToChar(if 0 <= pos + k < |content| then content[pos + k] else 0)
    else item == PrintInt(i) + ":error\n"
  }

  function Concat(items: seq<string>): string {
    if items == [] then "" else items[0] + Concat(items[1..])
  }

  // The indices the bitmap has room for, at offsets that are not negative.
  predicate Reachable(pieceSize: nat, bytes: nat, index: seq<int>) {
    forall j :: 0 <= j < |index| ==> 0 <= index[j] < 8 * bytes && 0 <= Wrap32(pieceSize * index[j])
  }

  lemma PieceIsItem(content: seq<byte>, pieceSize: nat, members: set<int>, bytes: nat, i: int)
    requires 0 <= i < 8 * bytes && 0 <= Wrap32(pieceSize * i)
    ensures PieceText(content, pieceSize, members, bytes, i).1
    ensures IsItem(content, pieceSize, members, i, PieceText(content, pieceSize, members, bytes, i).0)
  {
    hide PrintInt, Wrap32, ByteToChar;
    assert PrintInt(i) + ":" + "error\n" == PrintInt(i) + ":error\n";
  }

  lemma ItemIs(content: seq<byte>, pieceSize: nat, members: set<int>, i: int, item: string, item': string)
    requires IsItem(content, pieceSize, members, i, item) && IsItem(content, pieceSize, members, i, item')
    ensures item == item'
  {
    hide PrintInt, Wrap32, ByteToChar;
    if i in members {
      var n := |PrintInt(i) + ":"|;
      assert item[n..] == item'[n..];
      assert item == item[..n] + item[n..] && item' == item'[..n] + item'[n..];
    }
  }

  /**
   * The pieces of a message are those asked for, in order, owned or not.
   */
  lemma {:induction false} MessageIff(content: seq<byte>, pieceSize: nat, members: set<int>, bytes: nat,
                                      index: seq<int>, items: seq<string>)
    requires Reachable(pieceSize, bytes, index) && |items| == |index|
    requires forall j :: 0 <= j < |index| ==> IsItem(content, pieceSize, members, index[j], items[j])
    ensures ServeText(content, pieceSize, members, bytes, index) == (Concat(items), true)
  {
    hide PieceText, IsItem;
    if index != [] {
      PieceIsItem(content, pieceSize, members, bytes, index[0]);
      ItemIs(content, pieceSize, members, index[0], items[0],
             PieceText(content, pieceSize, members, bytes, index[0]).0);
      MessageIff(content, pieceSize, members, bytes, index[1..], items[1..]);
    }
  }

  lemma {:induction false} ServeAppend(content: seq<byte>, pieceSize: nat, members: set<int>, bytes: nat,
                                       index: seq<int>, tail: seq<int>)
    requires ServeText(content, pieceSize, members, bytes, index).1
    ensures var (text, ok) := ServeText(content, pieceSize, members, bytes, tail);
            ServeText(content, pieceSize, members, bytes, index + tail)
            == (ServeText(content, pieceSize, members, bytes, index).0 + text, ok)
  {
    hide PieceText;
    if index == [] {
      assert index + tail == tail;
      assert "" + ServeText(content, pieceSize, members, bytes, tail).0
             == ServeText(content, pieceSize, members, bytes, tail).0;
    } else {
      ServeAppend(content, pieceSize, members, bytes, index[1..], tail);
      assert (index + tail)[1..] == index[1..] + tail;
      var text := PieceText(content, pieceSize, members, bytes, index[0]).0;
      var more := ServeText(content, pieceSize, members, bytes, index[1..]).0;
      var last := ServeText(content, pieceSize, members, bytes, tail).0;
      assert text + (more + last) == (text + more) + last;
    }
  }

  lemma BreaksHere(content: seq<byte>, pieceSize: nat, members: set<int>, bytes: nat, i: int, more: seq<int>)
    requires i <= -8 || i >= 8 * bytes || (i in members && i >= 0 && Wrap32(pieceSize * i) < 0)
    ensures ServeText(content, pieceSize, members, bytes, [i] + more) == (PrintInt(i) + ":", false)
  {
    hide PrintInt, Wrap32;
    assert ([i] + more)[0] == i;
  }

  /**
   * An index out of the bitmap's reach, or at a negative offset, ends the message
   * behind its number.
   */
  lemma MessageBreaks(content: seq<byte>, pieceSize: nat, members: set<int>, bytes: nat,
                      index: seq<int>, items: seq<string>, i: int, more: seq<int>)
    requires Reachable(pieceSize, bytes, index) && |items| == |index|
    requires forall j :: 0 <= j < |index| ==> IsItem(content, pieceSize, members, index[j], items[j])
    requires i <= -8 || i >= 8 * bytes || (i in members && i >= 0 && Wrap32(pieceSize * i) < 0)
    ensures ServeText(content, pieceSize, members, bytes, index + ([i] + more))
         == (Concat(items) + (PrintInt(i) + ":"), false)
  {
    hide ServeText, Reachable, IsItem, Concat, PrintInt, Wrap32;
    MessageIff(content, pieceSize, members, bytes, index, items);
    BreaksHere(content, pieceSize, members, bytes, i, more);
    ServeAppend(content, pieceSize, members, bytes, index, [i] + more);
  }

  // For owned indices of a file whose sizes fit, the message is the encoding of
  // the corresponding pieces.
  lemma {:induction false} OwnedAreServed(content: seq<byte>, pieceSize: nat, members: set<int>, bytes: nat,
                                          order: seq<nat>)
    requires FitsInt(|content|, pieceSize)
    requires forall i :: 0 <= i < |order| ==>
               order[i] < TruePieceCount(|content|, pieceSize) && order[i] in members && order[i] < 8 * bytes
    ensures ServeText(content, pieceSize, members, bytes, order)
            == (EncodePieces(PieceWrites(content, pieceSize, order)), true)
  {
    hide TruePieceCount, Serve, BytesToChars, PrintInt, FitsInt;
    if order != [] {
      OwnedIsServed(content, pieceSize, members, bytes, order[0]);
      OwnedAreServed(content, pieceSize, members, bytes, order[1..]);
      var ws := PieceWrites(content, pieceSize, order);
      assert ws[0] == (order[0], Piece(content, pieceSize, order[0]));
      assert ws[1..] == PieceWrites(content, pieceSize, order[1..]);
    }
  }

  // An owned piece is served as it lies in the file.
  lemma OwnedIsServed(content: seq<byte>, pieceSize: nat, members: set<int>, bytes: nat, i: nat)
    requires FitsInt(|content|, pieceSize)
    requires i < TruePieceCount(|content|, pieceSize) && i in members && i < 8 * bytes
    ensures Serve(content, pieceSize, members, bytes, i) == Ok(Piece(content, pieceSize, i))
  {
    PieceOffset(|content|, pieceSize, i);
    hide TruePieceCount, Offset;
  }

  // Whatever the order of the pieces, once they cover the file their decoding is
  // the list itself, behind the whole message, and writing it gives the source.
  lemma {:induction false} TransferIsExact(source: seq<byte>, onDisk: seq<byte>, pieceSize: nat, order: seq<nat>,
                                           rest: string)
    requires FitsInt(|source|, pieceSize)
    requires forall i: nat :: i in order <==> i < TruePieceCount(|source|, pieceSize)
    ensures var decoded := DecodePieces(EncodePieces(PieceWrites(source, pieceSize, order)) + "] " + rest, pieceSize);
            && decoded == Decoded(PieceWrites(source, pieceSize, order), Some(rest))
            && WriteAll(onDisk, |source|, pieceSize, decoded.writes) == source
  {
    var ws := PieceWrites(source, pieceSize, order);
    forall i | 0 <= i < |ws|
      ensures INT_MIN <= ws[i].0 <= INT_MAX && |ws[i].1| == pieceSize
    {
      assert order[i] in order;
      PieceIndexFits(|source|, pieceSize, order[i]);
    }
    PiecesRoundTrip(ws, pieceSize, rest);
    Reassembled(onDisk, source, pieceSize, order);
  }

  lemma PieceIndexFits(length: nat, pieceSize: nat, i: nat)
    requires FitsInt(length, pieceSize) && i < TruePieceCount(length, pieceSize)
    ensures i <= INT_MAX
  {
    PieceOffset(length, pieceSize, i);
    MultiplyOrder(i, 1, pieceSize);
  }

  // ----- the classes

  function Prefixed(text: string, p: (string, string)): (string, string) {
    (text + p.0, p.1)
  }

  lemma PrefixedEmpty(text: string, p: (string, string))
    ensures Prefixed("", p) == p
    ensures p.0 == "" ==> Prefixed(text, p) == (text, p.1)
  {
    assert "" + p.0 == p.0;
    assert text + "" == text;
  }

  // One round of receiveUntil.
  lemma TakeUntilStep(text: string, input: string, c: char, rest: string, stops: string, n: nat)
    requires n > 0
    requires if input == [] then c == NUL && rest == [] else c == input[0] && rest == input[1..]
    ensures c in stops ==> Prefixed(text, TakeUntil(input, stops, n)) == (text, rest)
    ensures c !in stops ==>
              Prefixed(text, TakeUntil(input, stops, n)) == Prefixed(text + [c], TakeUntil(rest, stops, n - 1))
  {
    if c !in stops {
      var more := TakeUntil(rest, stops, n - 1).0;
      assert text + ([c] + more) == (text + [c]) + more;
    } else {
      assert text + "" == text;
    }
  }

  class Socket {
    var input: string     // what is still to be read
    var output: string    // what has been sent

    constructor (input: string)
      ensures this.input == input && output == ""
    {
      this.input, output := input, "";
    }

    method Send(text: string)
      modifies this`output
      ensures output == old(output) + text
    {
      output := output + text;
    }

    static method ArrayByteToChar(t: seq<byte>) returns (b: array<char>)
      ensures fresh(b) && b[..] == BytesToChars(t)
    {
      b := new char[|t|](_ => NUL);
      for i := 0 to |t|
        invariant forall j :: 0 <= j < i ==> b[j] == ByteToChar(t[j])
      {
        b[i] := ByteToChar(t[i]);
      }
    }

    static method ArrayCharToByte(t: seq<char>) returns (b: array<byte>)
      ensures fresh(b) && b[..] == CharsToBytes(t)
    {
      b := new byte[|t|](_ => 0);
      for i := 0 to |t|
        invariant forall j :: 0 <= j < i ==> b[j] == CharToByte(t[j])
      {
        b[i] := CharToByte(t[i]);
      }
    }

    method SendByte(bytes: seq<byte>)
      modifies this`output
      ensures output == old(output) + BytesToChars(bytes)
    {
      var t := ArrayByteToChar(bytes);
      output := output + t[..];
    }

    method ReceiveByte(length: nat) returns (bytes: seq<byte>)
      modifies this`input
      ensures (bytes, input) == (CharsToBytes(TakeExactly(old(input), length).0), TakeExactly(old(input), length).1)
      ensures |bytes| == length && input == Behind(old(input), length)
      ensures forall i :: 0 <= i < length ==> bytes[i] == CharToByte(CharAt(old(input), i))
    {
      var (t, rest) := TakeExactly(input, length);
      input := rest;
      var b := ArrayCharToByte(t);
      bytes := b[..];
    }

    method ReceiveUntil(stops: string) returns (text: string)
      modifies this`input
      ensures (text, input) == TakeUntil(old(input), stops, MAX_BUFFER_SIZE)
      ensures Head(old(input), stops, MAX_BUFFER_SIZE, text, input)
    {
      TakeUntilIs(input, stops, MAX_BUFFER_SIZE);
      hide Head;
      text := "";
      ghost var start := input;
      PrefixedEmpty("", TakeUntil(start, stops, MAX_BUFFER_SIZE));
      for i := 0 to MAX_BUFFER_SIZE
        invariant TakeUntil(start, stops, MAX_BUFFER_SIZE)
                  == Prefixed(text, TakeUntil(input, stops, MAX_BUFFER_SIZE - i))
      {
        var c, rest := NUL, [];
        if input != [] {
          c, rest := input[0], input[1..];
        }
        TakeUntilStep(text, input, c, rest, stops, MAX_BUFFER_SIZE - i);
        input := rest;
        if c in stops {
          return;
        }
        text := text + [c];
      }
      PrefixedEmpty(text, TakeUntil(input, stops, 0));
    }

    method ReceiveWord() returns (text: string)
      modifies this`input
      ensures (text, input) == TakeWord(old(input))
    {
      text := ReceiveUntil(" \n");
    }
  }
}
