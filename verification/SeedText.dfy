/**
 * File lists as text: the seed announcement printed by the Java client
 * (client_java/rz/Tracker.java, File.java) and read by the tracker, and the
 * list reply printed by the tracker (tracker/protocol.c) and read by the
 * client.  Both are words in groups of four.
 */
module SeedText {
  import opened Wrappers
  import opened CursorList
  import opened Decimal
  import opened StringSplit
  import opened LookQuery

  const BLANKS := " \t\n\U{000B}\U{000C}\r"
  const U32 := 0x1_0000_0000

  function Fields(f: FileInfo): (ws: seq<string>)
    ensures |ws| == 4
  {
    [f.filename, PrintNat(f.length), PrintNat(f.pieceSize), f.key]
  }

  function AllFields(files: seq<FileInfo>): (ws: seq<string>)
    ensures |ws| == 4 * |files|
  {
    if files == [] then [] else Fields(files[0]) + AllFields(files[1..])
  }

  function AnnounceSeed(f: FileInfo): string {
    f.filename + " " + PrintInt(f.length) + " " + PrintInt(f.pieceSize) + " " + f.key
  }

  // The announcement between its brackets.
  function SeedList(files: seq<FileInfo>): string {
    if files == [] then "" else AnnounceSeed(files[0]) + " " + SeedList(files[1..])
  }

  function FileText(f: FileInfo): string {
    f.filename + " " + PrintNat(f.length) + " " + PrintNat(f.pieceSize) + " " + f.key
  }

  // The reply between its brackets.
  function ReplyList(files: seq<FileInfo>): string {
    if files == [] then ""
    else if |files| == 1 then FileText(files[0])
    else FileText(files[0]) + " " + ReplyList(files[1..])
  }

  // ----- reading

  // A number as a uint32_t.
  function Word32(text: string): (n: nat)
    ensures n < U32
  {
    AtolSaturating(text) % U32
  }

  // The tracker keeps 32 bits of both numbers.
  function TrackerFile(tab: seq<string>): FileInfo
    requires |tab| >= 4
  {
    FileInfo(tab[0], Word32(tab[1]), Word32(tab[2]), tab[3])
  }

  function TrackerFiles(tab: seq<string>): seq<FileInfo> {
    if |tab| < 4 then [] else [TrackerFile(tab)] + TrackerFiles(tab[4..])
  }

  // A wrong number of words makes an empty list.
  function ReadSeed(text: string): seq<FileInfo> {
    var tab := Tokens(text, " ");
    if |tab| % 4 != 0 then [] else TrackerFiles(tab)
  }

  datatype LookError = NoFile | BadCount | NotANumber

  // String.split("\\s+"); a text that begins with a blank has an empty first word.
  function JavaSplit(text: string): seq<string> {
    if text == "" then [""]
    else if text[0] in BLANKS then [""] + Tokens(text, BLANKS)
    else Tokens(text, BLANKS)
  }

  // What Integer.parseInt accepts may be negative.
  datatype Quadruple = Quadruple(filename: string, length: int, pieceSize: int, key: string)

  function Quadruples(files: seq<FileInfo>): seq<Quadruple> {
    if files == [] then []
    else [Quadruple(files[0].filename, files[0].length, files[0].pieceSize, files[0].key)] + Quadruples(files[1..])
  }

  // parseLookFiles: None stands for NumberFormatException.
  function ClientFiles(tab: seq<string>): Option<seq<Quadruple>> {
    if |tab| < 4 then Some([])
    else
      match (ParseInt(tab[1]), ParseInt(tab[2]), ClientFiles(tab[4..]))
      case (Some(length), Some(pieceSize), Some(more)) => Some([Quadruple(tab[0], length, pieceSize, tab[3])] + more)
      case _ => None
  }

  predicate AllBlank(text: string) {
    forall i :: 0 <= i < |text| ==> text[i] in BLANKS
  }

  function ReadReply(text: string): Result<seq<Quadruple>, LookError> {
    if AllBlank(text) then Err(NoFile)
    else
      var tab := JavaSplit(text);
      if |tab| % 4 != 0 then Err(BadCount)
      else
        match ClientFiles(tab)
        case None => Err(NotANumber)
        case Some(files) => Ok(files)
  }

  // ----- round trips

  // Names and keys free of blanks, as words are.
  predicate Plain(f: FileInfo) {
    IsWord(f.filename, BLANKS) && IsWord(f.key, BLANKS)
  }

  predicate AllPlain(files: seq<FileInfo>) {
    forall i :: 0 <= i < |files| ==> Plain(files[i])
  }

  lemma FieldsAreWords(f: FileInfo, delims: string)
    requires Plain(f) && (delims == " " || delims == BLANKS)
    ensures AllWords(Fields(f), delims)
  {
    forall n: nat
      ensures IsWord(PrintNat(n), delims)
    {
      assert forall i :: 0 <= i < |PrintNat(n)| ==> IsDigit(PrintNat(n)[i]);
    }
  }

  lemma {:induction false} AllFieldsAreWords(files: seq<FileInfo>, delims: string)
    requires AllPlain(files) && (delims == " " || delims == BLANKS)
    ensures AllWords(AllFields(files), delims)
  {
    if files != [] {
      FieldsAreWords(files[0], delims);
      AllFieldsAreWords(files[1..], delims);
    }
  }

  lemma FileTextIsJoin(f: FileInfo)
    ensures FileText(f) == Join(Fields(f), " ") == AnnounceSeed(f)
  {
    var w := Fields(f);
    hide PrintNat;
    assert Join(w, " ") == w[0] + " " + (w[1] + " " + (w[2] + " " + w[3])) by {
      assert w[1..] == [w[1], w[2], w[3]];
      assert w[1..][1..] == [w[2], w[3]];
      assert Join([w[2], w[3]], " ") == w[2] + " " + w[3] by {
        assert [w[2], w[3]][1..] == [w[3]];
      }
    }
    assert FileText(f) == w[0] + " " + (w[1] + " " + (w[2] + " " + w[3]));
  }

  lemma {:induction false} JoinAppend(a: seq<string>, b: seq<string>, d: string)
    requires a != [] && b != []
    ensures Join(a + b, d) == Join(a, d) + d + Join(b, d)
    decreases |a|
  {
    if |a| == 1 {
      assert (a + b)[1..] == b;
    } else {
      assert (a + b)[1..] == a[1..] + b;
      JoinAppend(a[1..], b, d);
    }
  }

  lemma {:induction false} ReplyIsJoin(files: seq<FileInfo>)
    ensures ReplyList(files) == Join(AllFields(files), " ")
  {
    if files != [] {
      FileTextIsJoin(files[0]);
      if |files| == 1 {
        assert AllFields(files) == Fields(files[0]) + [] == Fields(files[0]);
      } else {
        ReplyIsJoin(files[1..]);
        JoinAppend(Fields(files[0]), AllFields(files[1..]), " ");
      }
    }
  }

  // Words in front of a text, each followed by a blank.
  lemma {:induction false} TokensOfJoin(ws: seq<string>, rest: string, delims: string)
    requires ws != [] && AllWords(ws, delims) && ' ' in delims
    ensures Tokens(Join(ws, " ") + " " + rest, delims) == ws + Tokens(rest, delims)
    decreases |ws|
  {
    hide Tokens, IsWord;
    if |ws| == 1 {
      TokensOfWord(ws[0], ' ', rest, delims);
      assert Join(ws, " ") + " " + rest == ws[0] + [' '] + rest;
    } else {
      var tail := Join(ws[1..], " ") + " " + rest;
      TokensOfJoin(ws[1..], rest, delims);
      TokensOfWord(ws[0], ' ', tail, delims);
      assert Join(ws, " ") + " " + rest == ws[0] + [' '] + tail;
      assert ws == [ws[0]] + ws[1..];
    }
  }

  lemma {:induction false} SeedTokens(files: seq<FileInfo>)
    requires AllPlain(files)
    ensures Tokens(SeedList(files), " ") == AllFields(files)
  {
    if files != [] {
      FileTextIsJoin(files[0]);
      FieldsAreWords(files[0], " ");
      SeedTokens(files[1..]);
      TokensOfJoin(Fields(files[0]), SeedList(files[1..]), " ");
    }
  }

  // Both numbers survive the tracker's 32 bits.
  predicate FitsTracker(f: FileInfo) {
    f.length < U32 && f.pieceSize < U32
  }

  predicate AllFitTracker(files: seq<FileInfo>) {
    forall i :: 0 <= i < |files| ==> FitsTracker(files[i])
  }

  lemma TrackerReads(n: nat)
    ensures Word32(PrintNat(n)) == n <==> n < U32
  {
    AtolPrinted(n);
    assert PrintInt(n) == PrintNat(n);
    assert IsDigit(PrintNat(n)[0]);
    assert SkipDelims(PrintNat(n), BLANKS) == PrintNat(n);
  }

  lemma {:induction false} TrackerFilesIff(files: seq<FileInfo>)
    ensures |TrackerFiles(AllFields(files))| == |files|
    ensures TrackerFiles(AllFields(files)) == files <==> AllFitTracker(files)
  {
    hide Word32;
    if files != [] {
      var tab, f := AllFields(files), files[0];
      assert tab[..4] == Fields(f) && tab[4..] == AllFields(files[1..]);
      TrackerFilesIff(files[1..]);
      TrackerReads(f.length);
      TrackerReads(f.pieceSize);
      assert TrackerFiles(tab) == [TrackerFile(tab)] + TrackerFiles(AllFields(files[1..]));
      assert TrackerFile(tab) == f <==> FitsTracker(f);
      assert files == [f] + files[1..];
      assert AllFitTracker(files) <==> FitsTracker(f) && AllFitTracker(files[1..]) by {
        assert forall i :: 0 < i < |files| ==> files[i] == files[1..][i - 1];
      }
    }
  }

  // The tracker reads an announcement as the client meant it exactly when all
  // sizes fit in 32 bits.
  lemma {:induction false} SeedRoundTripIff(files: seq<FileInfo>)
    requires AllPlain(files)
    ensures ReadSeed(SeedList(files)) == files <==> AllFitTracker(files)
  {
    hide Tokens, SeedList, AllFields, TrackerFiles, AllFitTracker, AllPlain;
    SeedTokens(files);
    TrackerFilesIff(files);
  }

  // ----- any text

  lemma {:induction false} TrackerFileAt(tab: seq<string>, i: nat)
    requires 4 * i + 4 <= |tab|
    ensures i < |TrackerFiles(tab)|
    ensures TrackerFiles(tab)[i]
         == FileInfo(tab[4 * i], Word32(tab[4 * i + 1]), Word32(tab[4 * i + 2]), tab[4 * i + 3])
  {
    hide Word32;
    if i > 0 {
      TrackerFileAt(tab[4..], i - 1);
      assert tab[4..][4 * (i - 1)] == tab[4 * i] && tab[4..][4 * (i - 1) + 1] == tab[4 * i + 1];
      assert tab[4..][4 * (i - 1) + 2] == tab[4 * i + 2] && tab[4..][4 * (i - 1) + 3] == tab[4 * i + 3];
    }
  }

  lemma {:induction false} TrackerFileCount(tab: seq<string>)
    ensures |TrackerFiles(tab)| == |tab| / 4
  {
    hide Word32;
    if |tab| >= 4 {
      TrackerFileCount(tab[4..]);
    }
  }

  // File f is made of the i-th four words, with the low 32 bits of both numbers.
  predicate TakenFrom(tab: seq<string>, i: nat, f: FileInfo)
    requires 4 * i + 4 <= |tab|
  {
    && f.filename == tab[4 * i] && f.key == tab[4 * i + 3] && f.length < U32 && f.pieceSize < U32
    && (AtolSaturating(tab[4 * i + 1]) - f.length) % U32 == 0
    && (AtolSaturating(tab[4 * i + 2]) - f.pieceSize) % U32 == 0
  }

  /**
   * The tracker takes the words of any announcement in groups of four, and drops a list
   * whose words do not come out even.
   */
  lemma ReadSeedIs(text: string)
    ensures |Tokens(text, " ")| % 4 != 0 ==> ReadSeed(text) == []
    ensures |Tokens(text, " ")| % 4 == 0 ==>
              && |ReadSeed(text)| == |Tokens(text, " ")| / 4
              && forall i :: 0 <= i < |ReadSeed(text)| ==> TakenFrom(Tokens(text, " "), i, ReadSeed(text)[i])
  {
    var tab, files := Tokens(text, " "), ReadSeed(text);
    hide Tokens, AtolSaturating, TrackerFiles;
    if |tab| % 4 == 0 {
      TrackerFileCount(tab);
      forall i | 0 <= i < |files|
        ensures TakenFrom(tab, i, files[i])
      {
        TrackerFileAt(tab, i);
        LowBits(AtolSaturating(tab[4 * i + 1]));
        LowBits(AtolSaturating(tab[4 * i + 2]));
      }
    }
  }

  lemma LowBits(v: int)
    ensures (v - v % U32) % U32 == 0
  {
    assert v - v % U32 == (v / U32) * U32;
  }

  // The numbers of the groups of four, two to a group.
  predicate NumberedAt(tab: seq<string>, i: nat)
    requires 4 * i + 4 <= |tab|
  {
    ParseInt(tab[4 * i + 1]).Some? && ParseInt(tab[4 * i + 2]).Some?
  }

  // Record r is made of the i-th four words.
  predicate RecordFrom(tab: seq<string>, i: nat, r: Quadruple)
    requires 4 * i + 4 <= |tab|
  {
    && r.filename == tab[4 * i] && r.key == tab[4 * i + 3]
    && ParseInt(tab[4 * i + 1]) == Some(r.length) && ParseInt(tab[4 * i + 2]) == Some(r.pieceSize)
  }

  lemma ShiftFour(tab: seq<string>, i: nat, r: Quadruple)
    requires |tab| >= 4 && 4 * i + 4 <= |tab[4..]|
    ensures NumberedAt(tab[4..], i) <==> NumberedAt(tab, i + 1)
    ensures RecordFrom(tab[4..], i, r) <==> RecordFrom(tab, i + 1, r)
  {
    hide ParseInt;
    assert tab[4..][4 * i] == tab[4 * (i + 1)] && tab[4..][4 * i + 3] == tab[4 * (i + 1) + 3];
    assert tab[4..][4 * i + 1] == tab[4 * (i + 1) + 1] && tab[4..][4 * i + 2] == tab[4 * (i + 1) + 2];
  }

  ghost predicate AllNumbered(tab: seq<string>) {
    forall i: nat :: 4 * i + 4 <= |tab| ==> NumberedAt(tab, i)
  }

  lemma AllNumberedTail(tab: seq<string>)
    requires |tab| >= 4
    ensures AllNumbered(tab) <==> NumberedAt(tab, 0) && AllNumbered(tab[4..])
  {
    hide NumberedAt;
    var rest, none := tab[4..], Quadruple("", 0, 0, "");
    forall i: nat | 4 * i + 4 <= |rest|
      ensures NumberedAt(rest, i) <==> NumberedAt(tab, i + 1)
    {
      ShiftFour(tab, i, none);
    }
    if NumberedAt(tab, 0) && AllNumbered(rest) {
      forall i: nat | 4 * i + 4 <= |tab|
        ensures NumberedAt(tab, i)
      {
        if i > 0 {
          assert NumberedAt(rest, i - 1);
        }
      }
    }
    if AllNumbered(tab) {
      assert forall i: nat :: 4 * i + 4 <= |rest| ==> NumberedAt(tab, i + 1);
    }
  }

  lemma {:induction false} ClientFilesIs(tab: seq<string>)
    requires |tab| % 4 == 0
    ensures ClientFiles(tab).Some? <==> AllNumbered(tab)
    ensures ClientFiles(tab).Some? ==>
              && |ClientFiles(tab).value| == |tab| / 4
              && forall i: nat :: 4 * i + 4 <= |tab| ==> RecordFrom(tab, i, ClientFiles(tab).value[i])
  {
    hide ParseInt, AllNumbered;
    if tab != [] {
      var rest := tab[4..];
      ClientFilesIs(rest);
      AllNumberedTail(tab);
      if ClientFiles(tab).Some? {
        var r := ClientFiles(tab).value;
        forall i: nat | 4 * i + 4 <= |tab|
          ensures RecordFrom(tab, i, r[i])
        {
          if i > 0 {
            ShiftFour(tab, i - 1, r[i]);
          }
        }
      }
    } else {
      EmptyNumbered();
    }
  }

  lemma EmptyNumbered()
    ensures AllNumbered([])
  {
  }

  /**
   * The client takes the words of any reply in groups of four: a blank one names no
   * file, one whose words do not come out even or hold a wrong number is an error.
   */
  lemma ReadReplyIs(text: string)
    ensures AllBlank(text) ==> ReadReply(text) == Err(NoFile)
    ensures !AllBlank(text) && text[0] in BLANKS ==>
              ReadReply(text) == ReadWords([""] + Tokens(text, BLANKS))
    ensures !AllBlank(text) && text[0] !in BLANKS ==> ReadReply(text) == ReadWords(Tokens(text, BLANKS))
  {
    hide Tokens, ClientFiles;
  }

  // What Java's "\\s" matches.
  lemma BlanksAre(c: char)
    ensures c in BLANKS <==> c == ' ' || '\t' <= c <= '\r'
  {
  }

  function ReadWords(tab: seq<string>): Result<seq<Quadruple>, LookError> {
    if |tab| % 4 != 0 then Err(BadCount)
    else
      match ClientFiles(tab)
      case None => Err(NotANumber)
      case Some(files) => Ok(files)
  }

  // A file as both are made of.
  lemma FileLine(f: FileInfo)
    ensures AnnounceSeed(f) == f.filename + " " + PrintNat(f.length) + " " + PrintNat(f.pieceSize) + " " + f.key
    ensures FileText(f) == AnnounceSeed(f)
  {
    hide PrintNat;
  }

  // How an announcement and a reply go on with one more file.
  lemma {:induction false} SeedListSnoc(files: seq<FileInfo>, f: FileInfo)
    ensures SeedList(files + [f]) == SeedList(files) + AnnounceSeed(f) + " "
  {
    hide AnnounceSeed;
    if files == [] {
      assert [f][1..] == [] && files + [f] == [f];
      assert SeedList([f]) == AnnounceSeed(f) + " " + "" == "" + AnnounceSeed(f) + " ";
    } else {
      SeedListSnoc(files[1..], f);
      assert (files + [f])[1..] == files[1..] + [f];
      var a, more, b := AnnounceSeed(files[0]), SeedList(files[1..]), AnnounceSeed(f);
      assert a + " " + (more + b + " ") == (a + " " + more) + b + " ";
    }
  }

  lemma {:induction false} ReplyListSnoc(files: seq<FileInfo>, f: FileInfo)
    ensures ReplyList(files + [f]) == (if files == [] then "" else ReplyList(files) + " ") + FileText(f)
  {
    hide FileText;
    if files == [] {
      assert files + [f] == [f] && "" + FileText(f) == FileText(f);
    } else {
      ReplyListSnoc(files[1..], f);
      assert (files + [f])[1..] == files[1..] + [f];
      if |files| > 1 {
        assert FileText(files[0]) + " " + (ReplyList(files[1..]) + " " + FileText(f))
               == (FileText(files[0]) + " " + ReplyList(files[1..])) + " " + FileText(f);
      } else {
        assert "" + FileText(f) == FileText(f);
      }
    }
  }

  // Both numbers survive Integer.parseInt.
  predicate FitsClient(f: FileInfo) {
    f.length <= INT_MAX && f.pieceSize <= INT_MAX
  }

  predicate AllFitClient(files: seq<FileInfo>) {
    forall i :: 0 <= i < |files| ==> FitsClient(files[i])
  }

  lemma ClientReads(n: nat)
    ensures ParseInt(PrintNat(n)) == if n <= INT_MAX then Some(n) else None
  {
    assert PrintInt(n) == PrintNat(n);
    PrintedFirst(n);
    ReadPrinted(n);
  }

  lemma {:induction false} ClientFilesIff(files: seq<FileInfo>)
    ensures ClientFiles(AllFields(files)) ==
              if AllFitClient(files) then Some(Quadruples(files)) else None
  {
    if files != [] {
      var tab, f := AllFields(files), files[0];
      assert tab[..4] == Fields(f) && tab[4..] == AllFields(files[1..]);
      ClientFilesIff(files[1..]);
      ClientReads(f.length);
      ClientReads(f.pieceSize);
      assert AllFitClient(files) <==> FitsClient(f) && AllFitClient(files[1..]) by {
        assert forall i :: 0 < i < |files| ==> files[i] == files[1..][i - 1];
      }
    }
  }

  // The client reads a reply that names a file exactly when all sizes are ints;
  // otherwise no file of it.
  lemma ReplyRoundTripIff(files: seq<FileInfo>)
    requires AllPlain(files)
    ensures ReadReply(ReplyList(files)) ==
              if files == [] then Err(NoFile)
              else if AllFitClient(files) then Ok(Quadruples(files))
              else Err(NotANumber)
  {
    hide ClientFiles, AllFitClient, Quadruples;
    if files == [] {
      assert AllBlank(ReplyList(files));
    } else {
      ReplySplit(files);
      hide JavaSplit, AllBlank, AllFields, ReplyList;
      ClientFilesIff(files);
    }
  }

  lemma ReplySplit(files: seq<FileInfo>)
    requires AllPlain(files) && files != []
    ensures !AllBlank(ReplyList(files)) && JavaSplit(ReplyList(files)) == AllFields(files)
  {
    var tab := AllFields(files);
    assert Plain(files[0]);
    assert tab[0] == files[0].filename && Join(tab, " ")[0] == files[0].filename[0];
    ReplyIsJoin(files);
    AllFieldsAreWords(files, BLANKS);
    hide Tokens, ReplyList, AllFields, Join, AllWords;
    JoinedTokensIff(tab, ' ', BLANKS);
  }

  // ----- the registry of files

  // file_get_or_create over a list: a known key gives the file registered under
  // it.  None stands for the division by a zero piece size of a new file.
  function Ingest(table: map<string, FileInfo>, files: seq<FileInfo>): Option<(seq<FileInfo>, map<string, FileInfo>)>
    decreases |files|
  {
    if files == [] then Some(([], table))
    else
      var f := files[0];
      if f.key !in table && f.pieceSize == 0 then None
      else
        var g := if f.key in table then table[f.key] else f;
        match Ingest(table[f.key := g], files[1..])
        case None => None
        case Some((more, table')) => Some(([g] + more, table'))
  }

  // Nothing registered is lost or replaced, and every announced key is answered
  // with the one file registered under it.
  lemma {:induction false} IngestKeeps(table: map<string, FileInfo>, files: seq<FileInfo>)
    requires Ingest(table, files).Some?
    ensures var (got, table') := Ingest(table, files).value;
            && |got| == |files|
            && (forall k :: k in table ==> k in table' && table'[k] == table[k])
            && (forall i :: 0 <= i < |files| ==> files[i].key in table' && got[i] == table'[files[i].key])
    decreases |files|
  {
    if files != [] {
      var f := files[0];
      var g := if f.key in table then table[f.key] else f;
      IngestKeeps(table[f.key := g], files[1..]);
    }
  }

  // Files announced for the first time are registered as they are.
  lemma {:induction false} IngestNew(table: map<string, FileInfo>, files: seq<FileInfo>)
    requires forall i :: 0 <= i < |files| ==> files[i].pieceSize > 0 && files[i].key !in table
    requires forall i, j :: 0 <= i < j < |files| ==> files[i].key != files[j].key
    ensures Ingest(table, files).Some? && Ingest(table, files).value.0 == files
    decreases |files|
  {
    if files != [] {
      var f := files[0];
      forall i | 0 <= i < |files[1..]|
        ensures files[1..][i].key !in table[f.key := f] && files[1..][i].pieceSize > 0
      {
        assert files[1..][i] == files[i + 1];
      }
      IngestNew(table[f.key := f], files[1..]);
    }
  }

  function Prefixed(got: seq<FileInfo>, r: Option<(seq<FileInfo>, map<string, FileInfo>)>)
    : Option<(seq<FileInfo>, map<string, FileInfo>)>
  {
    match r
    case None => None
    case Some((more, table)) => Some((got + more, table))
  }

  lemma PrefixedNone(r: Option<(seq<FileInfo>, map<string, FileInfo>)>)
    ensures Prefixed([], r) == r
  {
    assert r.Some? ==> [] + r.value.0 == r.value.0;
  }

  // Under a new key it is the first file announced with it that is registered.
  lemma {:induction false} IngestFirst(table: map<string, FileInfo>, files: seq<FileInfo>, i: nat)
    requires Ingest(table, files).Some? && i < |files| && files[i].key !in table
    requires forall j :: 0 <= j < i ==> files[j].key != files[i].key
    ensures files[i].key in Ingest(table, files).value.1
    ensures Ingest(table, files).value.1[files[i].key] == files[i]
    decreases |files|
  {
    var f := files[0];
    var g := if f.key in table then table[f.key] else f;
    if i > 0 {
      assert files[1..][i - 1] == files[i];
      IngestFirst(table[f.key := g], files[1..], i - 1);
    } else {
      IngestKeeps(table[f.key := g], files[1..]);
    }
  }

  // File i has a piece size of zero, and nothing is known under its key yet.
  predicate Divides(table: map<string, FileInfo>, files: seq<FileInfo>, i: nat)
    requires i < |files|
  {
    files[i].pieceSize == 0 && files[i].key !in table && forall j :: 0 <= j < i ==> files[j].key != files[i].key
  }

  // The tracker crashes exactly on a new file with a piece size of zero.
  lemma {:induction false} IngestCrashIff(table: map<string, FileInfo>, files: seq<FileInfo>)
    ensures Ingest(table, files).None? <==> exists i: nat :: i < |files| && Divides(table, files, i)
    decreases |files|
  {
    if files != [] {
      var f := files[0];
      var g := if f.key in table then table[f.key] else f;
      var table', rest := table[f.key := g], files[1..];
      IngestCrashIff(table', rest);
      assert Divides(table, files, 0) <==> f.pieceSize == 0 && f.key !in table;
      forall i: nat | i < |rest|
        ensures Divides(table', rest, i) <==> Divides(table, files, i + 1)
      {
        if Divides(table', rest, i) {
          forall j | 0 <= j < i + 1
            ensures files[j].key != files[i + 1].key
          {
            assert j > 0 ==> rest[j - 1] == files[j];
          }
        }
        if Divides(table, files, i + 1) {
          assert files[0].key != files[i + 1].key;
          assert forall j :: 0 <= j < i ==> rest[j] == files[j + 1];
        }
      }
      if i: nat :| i < |files| && Divides(table, files, i) && i > 0 {
        assert Divides(table', rest, i - 1);
      }
    }
  }

  lemma {:induction false} IngestAddsOnly(table: map<string, FileInfo>, files: seq<FileInfo>)
    requires Ingest(table, files).Some?
    ensures forall k :: k in Ingest(table, files).value.1 ==>
              k in table || exists i :: 0 <= i < |files| && files[i].key == k
    decreases |files|
  {
    if files != [] {
      var f := files[0];
      var g := if f.key in table then table[f.key] else f;
      IngestAddsOnly(table[f.key := g], files[1..]);
      forall k | k in Ingest(table, files).value.1 && k !in table
        ensures exists i :: 0 <= i < |files| && files[i].key == k
      {
        if k != f.key {
          var i :| 0 <= i < |files[1..]| && files[1..][i].key == k;
          assert files[i + 1].key == k;
        }
      }
    }
  }

  // End to end: new files announced by a client are registered under their keys as
  // they are, next to what was there, and a reply that lists them is read as them by
  // any client whose ints hold the sizes.
  lemma AnnouncedIsListed(table: map<string, FileInfo>, files: seq<FileInfo>)
    requires AllPlain(files) && AllFitTracker(files)
    requires forall i :: 0 <= i < |files| ==> files[i].pieceSize > 0 && files[i].key !in table
    requires forall i, j :: 0 <= i < j < |files| ==> files[i].key != files[j].key
    ensures Ingest(table, ReadSeed(SeedList(files))).Some?
    ensures var (got, table') := Ingest(table, ReadSeed(SeedList(files))).value;
            && got == files
            && (forall i :: 0 <= i < |files| ==> files[i].key in table' && table'[files[i].key] == files[i])
            && (forall k :: k in table ==> k in table' && table'[k] == table[k])
            && (forall k :: k in table' ==> k in table || exists i :: 0 <= i < |files| && files[i].key == k)
            && (files != [] && AllFitClient(files) ==> ReadReply(ReplyList(got)) == Ok(Quadruples(files)))
  {
    hide ReadSeed, SeedList, AllPlain, AllFitTracker, AllFitClient, Ingest, ReplyList, ReadReply, Quadruples;
    SeedRoundTripIff(files);
    IngestNew(table, files);
    IngestKeeps(table, files);
    IngestAddsOnly(table, files);
    ReplyRoundTripIff(files);
  }

  lemma NothingLeft(table: map<string, FileInfo>, got: seq<FileInfo>)
    ensures Prefixed(got, Ingest(table, TrackerFiles([]))) == Some((got, table))
  {
    assert got + [] == got;
  }

  // One round of the loop of get_seed_file_list over the words that are left.
  lemma IngestRound(table: map<string, FileInfo>, got: seq<FileInfo>, tab: seq<string>)
    requires |tab| >= 4
    ensures var f := TrackerFile(tab);
            Prefixed(got, Ingest(table, TrackerFiles(tab))) ==
              if f.key in table then Prefixed(got + [table[f.key]], Ingest(table, TrackerFiles(tab[4..])))
              else if f.pieceSize == 0 then None
              else Prefixed(got + [f], Ingest(table[f.key := f], TrackerFiles(tab[4..])))
  {
    var f, rest := TrackerFile(tab), TrackerFiles(tab[4..]);
    assert TrackerFiles(tab)[0] == f && TrackerFiles(tab)[1..] == rest;
    hide Word32, TrackerFiles;
    if f.key in table || f.pieceSize != 0 {
      var g := if f.key in table then table[f.key] else f;
      assert f.key in table ==> table[f.key := g] == table;
      match Ingest(table[f.key := g], rest)
      case None =>
      case Some((more, table')) => assert got + ([g] + more) == (got + [g]) + more;
    }
  }

  lemma IngestRoundAt(table: map<string, FileInfo>, got: seq<FileInfo>, tab: seq<string>, i: nat)
    requires i + 4 <= |tab|
    ensures var f := FileInfo(tab[i], Word32(tab[i + 1]), Word32(tab[i + 2]), tab[i + 3]);
            Prefixed(got, Ingest(table, TrackerFiles(tab[i..]))) ==
              if f.key in table then Prefixed(got + [table[f.key]], Ingest(table, TrackerFiles(tab[i + 4..])))
              else if f.pieceSize == 0 then None
              else Prefixed(got + [f], Ingest(table[f.key := f], TrackerFiles(tab[i + 4..])))
  {
    assert tab[i..][4..] == tab[i + 4..];
    IngestRound(table, got, tab[i..]);
  }

  class FileTable {
    var byHash: map<string, FileInfo>

    constructor ()
      ensures byHash == map[]
    {
      byHash := map[];
    }

    method GetOrCreate(filename: string, length: nat, pieceSize: nat, key: string) returns (f: Option<FileInfo>)
      modifies this
      ensures if key in old(byHash) then f == Some(old(byHash)[key]) && byHash == old(byHash)
              else if pieceSize == 0 then f == None && byHash == old(byHash)
              else f == Some(FileInfo(filename, length, pieceSize, key)) && byHash == old(byHash)[key := f.value]
    {
      if key in byHash {
        return Some(byHash[key]);
      }
      if pieceSize == 0 {
        return None;
      }
      f := Some(FileInfo(filename, length, pieceSize, key));
      byHash := byHash[key := f.value];
    }

    // What the words from position i on add to the list l; None after a crash.
    ghost function Outcome(l: List<FileInfo>, tab: seq<string>, i: nat): Option<(seq<FileInfo>, map<string, FileInfo>)>
      requires i <= |tab|
      reads this, l
    {
      Prefixed(l.contents, Ingest(byHash, TrackerFiles(tab[i..])))
    }

    // One round: four words make a file, which is appended to l.
    method RegisterNext(tab: seq<string>, i: nat, l: List<FileInfo>) returns (ok: bool)
      requires l.Valid() && this !in l.Repr && i + 4 <= |tab|
      modifies this, l.Repr
      ensures l.Valid() && fresh(l.Repr - old(l.Repr)) && this !in l.Repr
      ensures (if ok then Outcome(l, tab, i + 4) else None) == old(Outcome(l, tab, i))
    {
      hide TrackerFiles, Ingest, Word32, Prefixed, List.Valid;
      IngestRoundAt(byHash, l.contents, tab, i);
      var f := GetOrCreate(tab[i], Word32(tab[i + 1]), Word32(tab[i + 2]), tab[i + 3]);
      ok := f.Some?;
      if ok {
        l.Append(f.value);
      }
    }

    // get_seed_file_list; !ok stands for the division by zero.
    method GetSeedFileList(text: string) returns (ok: bool, l: List<FileInfo>)
      modifies this
      ensures l.Valid() && fresh(l.Repr)
      ensures ok == Ingest(old(byHash), ReadSeed(text)).Some?
      ensures ok ==> (l.contents, byHash) == Ingest(old(byHash), ReadSeed(text)).value
    {
      ok := true;
      l := new List<FileInfo>();
      var tab := Split(Some(text), " ");
      if tab.Length % 4 != 0 {
        assert ReadSeed(text) == [];
        return;
      }
      var words := tab[..];
      assert ReadSeed(text) == TrackerFiles(words);
      hide ReadSeed, Tokens, List.Valid;
      ok := RegisterAll(words, l);
    }

    // The loop of get_seed_file_list.
    method RegisterAll(words: seq<string>, l: List<FileInfo>) returns (ok: bool)
      requires l.Valid() && l.contents == [] && this !in l.Repr && |words| % 4 == 0
      modifies this, l.Repr
      ensures l.Valid() && fresh(l.Repr - old(l.Repr))
      ensures ok == Ingest(old(byHash), TrackerFiles(words)).Some?
      ensures ok ==> (l.contents, byHash) == Ingest(old(byHash), TrackerFiles(words)).value
    {
      ghost var k, n: nat := 0, |words| / 4;
      assert |words| == 4 * n && words[0..] == words;
      ghost var outcome := Ingest(byHash, TrackerFiles(words));
      PrefixedNone(outcome);
      assert Outcome(l, words, 0) == outcome;
      hide Outcome, List.Valid, Ingest, TrackerFiles;
      ok := true;
      var i := 0;
      while i < |words|
        invariant ok && l.Valid() && fresh(l.Repr - old(l.Repr)) && this !in l.Repr && k <= n && i == 4 * k
        invariant Outcome(l, words, i) == outcome
        decreases |words| - i
      {
        ok := RegisterNext(words, i, l);
        if !ok {
          return;
        }
        i, k := i + 4, k + 1;
      }
      AllRegistered(l, words);
    }

    lemma AllRegistered(l: List<FileInfo>, words: seq<string>)
      ensures Outcome(l, words, |words|) == Some((l.contents, byHash))
    {
      assert words[|words|..] == [];
      NothingLeft(byHash, l.contents);
    }
  }

  // ----- the printing loops

  // The files of a list that are complete.
  function SeededOnly(files: seq<(FileInfo, bool)>): seq<FileInfo> {
    if files == [] then []
    else (if files[0].1 then [files[0].0] else []) + SeededOnly(files[1..])
  }

  // A file is among them as often as it is listed as complete; the order is kept.
  lemma {:induction false} SeededOnlyIs(files: seq<(FileInfo, bool)>)
    ensures forall f :: multiset(SeededOnly(files))[f] == multiset(files)[(f, true)]
  {
    if files != [] {
      SeededOnlyIs(files[1..]);
      assert files == [files[0]] + files[1..];
    }
  }

  lemma {:induction false} SeededOnlySnoc(files: seq<(FileInfo, bool)>, f: FileInfo)
    ensures SeededOnly(files + [(f, true)]) == SeededOnly(files) + [f]
    ensures SeededOnly(files + [(f, false)]) == SeededOnly(files)
  {
    if files != [] {
      SeededOnlySnoc(files[1..], f);
      assert (files + [(f, true)])[1..] == files[1..] + [(f, true)];
      assert (files + [(f, false)])[1..] == files[1..] + [(f, false)];
    } else {
      assert files + [(f, true)] == [(f, true)] && files + [(f, false)] == [(f, false)];
    }
  }

  lemma {:induction false} SeedRound(files: seq<(FileInfo, bool)>)
    requires files != []
    ensures SeedList(SeededOnly(files)) ==
              (if files[0].1 then AnnounceSeed(files[0].0) + " " else "") + SeedList(SeededOnly(files[1..]))
  {
    var rest := SeededOnly(files[1..]);
    assert [files[0].0] + rest != [] && ([files[0].0] + rest)[1..] == rest;
    assert [] + rest == rest;
  }

  lemma NoSeeds(files: seq<(FileInfo, bool)>)
    requires files == []
    ensures SeedList(SeededOnly(files)) == ""
  {
  }

  // seedString
  method SeedString(files: seq<(FileInfo, bool)>) returns (text: string)
    ensures text == "seed [" + SeedList(SeededOnly(files)) + "]"
  {
    var seed := "";
    hide SeedList, SeededOnly, AnnounceSeed;
    for i := 0 to |files|
      invariant seed + SeedList(SeededOnly(files[i..])) == SeedList(SeededOnly(files))
    {
      SeedRound(files[i..]);
      assert files[i..][1..] == files[i + 1..];
      if files[i].1 {
        seed := seed + (AnnounceSeed(files[i].0) + " ");
      }
    }
    NoSeeds(files[|files|..]);
    text := "seed [" + seed + "]";
  }

  function Continued(found: seq<Quadruple>, r: Option<seq<Quadruple>>): Option<seq<Quadruple>> {
    if r.None? then None else Some(found + r.value)
  }

  // One round of the loop of parseLookFiles.
  lemma ClientRound(found: seq<Quadruple>, tab: seq<string>)
    requires |tab| >= 4
    ensures var (length, pieceSize) := (ParseInt(tab[1]), ParseInt(tab[2]));
            Continued(found, ClientFiles(tab)) ==
              if length.None? || pieceSize.None? then None
              else Continued(found + [Quadruple(tab[0], length.value, pieceSize.value, tab[3])], ClientFiles(tab[4..]))
  {
    hide ParseInt;
    var (length, pieceSize) := (ParseInt(tab[1]), ParseInt(tab[2]));
    match (length, pieceSize, ClientFiles(tab[4..]))
    case (Some(l), Some(p), Some(more)) =>
      assert found + ([Quadruple(tab[0], l, p, tab[3])] + more) == (found + [Quadruple(tab[0], l, p, tab[3])]) + more;
    case _ =>
  }

  // The records of the words from position i on.
  function FilesFrom(tab: seq<string>, i: nat): Option<seq<Quadruple>>
    requires i <= |tab|
  {
    ClientFiles(tab[i..])
  }

  lemma FilesFromStep(found: seq<Quadruple>, tab: seq<string>, i: nat)
    requires i + 4 <= |tab|
    ensures var (length, pieceSize) := (ParseInt(tab[i + 1]), ParseInt(tab[i + 2]));
            Continued(found, FilesFrom(tab, i)) ==
              if length.None? || pieceSize.None? then None
              else
                Continued(found + [Quadruple(tab[i], length.value, pieceSize.value, tab[i + 3])], FilesFrom(tab, i + 4))
  {
    assert tab[i..][4..] == tab[i + 4..];
    ClientRound(found, tab[i..]);
  }

  lemma FilesFromEnds(found: seq<Quadruple>, tab: seq<string>)
    ensures Continued([], FilesFrom(tab, 0)) == ClientFiles(tab)
    ensures Continued(found, FilesFrom(tab, |tab|)) == Some(found)
  {
    assert tab[0..] == tab;
    var all := ClientFiles(tab);
    assert all.Some? ==> [] + all.value == all.value;
    assert found + [] == found;
  }

  // parseLookFiles
  method ParseLookFiles(tab: seq<string>) returns (files: Option<seq<Quadruple>>)
    requires |tab| % 4 == 0
    ensures files == ClientFiles(tab)
  {
    hide ParseInt, ClientFiles, Continued, FilesFrom;
    var found: seq<Quadruple> := [];
    var i := 0;
    ghost var k, n: nat := 0, |tab| / 4;
    assert |tab| == 4 * n;
    FilesFromEnds([], tab);
    while i < |tab|
      invariant k <= n && i == 4 * k
      invariant ClientFiles(tab) == Continued(found, FilesFrom(tab, i))
      decreases |tab| - i
    {
      FilesFromStep(found, tab, i);
      var length, pieceSize := ParseInt(tab[i + 1]), ParseInt(tab[i + 2]);
      if length.None? || pieceSize.None? {
        return None;
      }
      found := found + [Quadruple(tab[i], length.value, pieceSize.value, tab[i + 3])];
      i, k := i + 4, k + 1;
    }
    FilesFromEnds(found, tab);
    files := Some(found);
  }

  lemma {:induction false} ReplySnoc(files: seq<FileInfo>, k: nat)
    requires k < |files|
    ensures ReplyList(files[..k + 1]) == ReplyList(files[..k]) + (if k > 0 then " " else "") + FileText(files[k])
    decreases k
  {
    hide FileText;
    if k > 0 {
      assert files[..k + 1][1..] == files[1..][..k] && files[..k][1..] == files[1..][..k - 1];
      ReplySnoc(files[1..], k - 1);
    }
  }

  // prot_look_build_file_list
  method BuildFileList(l: List<FileInfo>) returns (text: string)
    requires l.Valid()
    modifies l`cursor, l`curpos, l`hops
    ensures l.Valid() && text == ReplyList(l.contents)
  {
    text := "";
    var len := l.Size();
    assert l.contents[..0] == [] && ReplyList([]) == "";
    hide List.Valid, ReplyList, FileText;
    for i := 1 to len + 1
      invariant l.Valid() && text == ReplyList(l.contents[..i - 1])
    {
      ReplySnoc(l.contents, i - 1);
      var f := l.Get(i);
      text := text + (if i > 1 then " " else "") + FileText(f.value);
    }
    assert l.contents[..len] == l.contents;
  }
}
