/**
 * The text splitters of cutil/string2.c.  Both collect their pieces with
 * list_add, which reverses them, and fill the result array backwards.
 * Strings are those of C: no character is NUL.
 */
module StringSplit {
  import opened Wrappers
  import opened CursorList
  import opened Reversal

  function Join(ps: seq<string>, d: string): string {
    if ps == [] then ""
    else if |ps| == 1 then ps[0]
    else ps[0] + d + Join(ps[1..], d)
  }

  // ----- string_split2: separators are whole strings

  predicate At(s: string, d: string, i: nat) {
    i + |d| <= |s| && s[i..i + |d|] == d
  }

  // strstr: the first place where d occurs in s.
  function Find(s: string, d: string): (r: Option<nat>)
    ensures r.Some? ==> At(s, d, r.value) && forall j: nat :: j < r.value ==> !At(s, d, j)
    ensures r.None? ==> forall j: nat :: !At(s, d, j)
  {
    if d <= s then
      assert At(s, d, 0) by { assert s[0..|d|] == d; }
      Some(0)
    else if s == "" then
      None
    else
      var r := Find(s[1..], d);
      ShiftAt(s, d);
      match r
      case None => None
      case Some(i) => Some(i + 1)
  }

  lemma ShiftAt(s: string, d: string)
    requires s != "" && !(d <= s)
    ensures forall j: nat :: At(s, d, j) <==> j >= 1 && At(s[1..], d, j - 1)
  {
    forall j: nat
      ensures At(s, d, j) <==> j >= 1 && At(s[1..], d, j - 1)
    {
      if j >= 1 && j + |d| <= |s| {
        assert s[1..][j - 1..j - 1 + |d|] == s[j..j + |d|];
      }
    }
  }

  lemma FindIs(s: string, d: string, i: nat)
    requires At(s, d, i) && forall j: nat :: j < i ==> !At(s, d, j)
    ensures Find(s, d) == Some(i)
  {
  }

  function Pieces(s: string, d: string): (ps: seq<string>)
    requires d != ""
    ensures |ps| >= 1
    decreases |s|
  {
    match Find(s, d)
    case None => [s]
    case Some(i) => [s[..i]] + Pieces(s[i + |d|..], d)
  }

  // Every piece but the last is ended by the first separator that follows it.
  predicate Leftmost(ps: seq<string>, d: string) {
    && |ps| >= 1
    && (forall i :: 0 <= i < |ps| - 1 ==> Find(ps[i] + d, d) == Some(|ps[i]|))
    && Find(ps[|ps| - 1], d) == None
  }

  // What follows the first separator does not move it.
  lemma FindFirst(p: string, d: string, rest: string)
    requires d != ""
    ensures Find(p + d, d) == Some(|p|) <==> Find(p + d + rest, d) == Some(|p|)
  {
    forall j: nat | j <= |p|
      ensures At(p + d, d, j) <==> At(p + d + rest, d, j)
    {
      assert (p + d + rest)[j..j + |d|] == (p + d)[j..j + |d|];
    }
    assert At(p + d, d, |p|) by {
      assert (p + d)[|p|..|p| + |d|] == d;
    }
  }

  lemma LeftmostTail(ps: seq<string>, d: string)
    requires |ps| >= 2
    ensures Leftmost(ps, d) <==> Find(ps[0] + d, d) == Some(|ps[0]|) && Leftmost(ps[1..], d)
  {
    forall i | 0 <= i < |ps| - 2
      ensures ps[1..][i] == ps[i + 1]
    {
    }
    if Leftmost(ps[1..], d) && Find(ps[0] + d, d) == Some(|ps[0]|) {
      forall i | 0 <= i < |ps| - 1
        ensures Find(ps[i] + d, d) == Some(|ps[i]|)
      {
        assert i > 0 ==> ps[i] == ps[1..][i - 1];
      }
    }
  }

  lemma PiecesStep(s: string, d: string)
    requires d != ""
    ensures Find(s, d).None? ==> Pieces(s, d) == [s]
    ensures Find(s, d).Some? ==>
              var i := Find(s, d).value;
              i + |d| <= |s| && Pieces(s, d) == [s[..i]] + Pieces(s[i + |d|..], d)
  {
    hide Find;
  }

  lemma {:induction false} PiecesLeftmost(s: string, d: string)
    requires d != ""
    ensures Leftmost(Pieces(s, d), d) && Join(Pieces(s, d), d) == s
    decreases |s|
  {
    PiecesStep(s, d);
    hide Find, Pieces, Leftmost;
    match Find(s, d) {
      case None =>
        LeftmostOne(s, d);
      case Some(i) =>
        var rest := s[i + |d|..];
        assert s == s[..i] + d + rest;
        PiecesLeftmost(rest, d);
        FindFirst(s[..i], d, rest);
        var ps := Pieces(s, d);
        assert ps[1..] == Pieces(rest, d);
        LeftmostTail(ps, d);
    }
  }

  lemma LeftmostOne(s: string, d: string)
    ensures Leftmost([s], d) <==> Find(s, d) == None
  {
  }

  lemma {:induction false} LeftmostIsPieces(ps: seq<string>, d: string)
    requires d != "" && Leftmost(ps, d)
    ensures Pieces(Join(ps, d), d) == ps
  {
    hide Find, Pieces, Leftmost;
    PiecesStep(Join(ps, d), d);
    if |ps| >= 2 {
      var rest := Join(ps[1..], d);
      LeftmostTail(ps, d);
      LeftmostIsPieces(ps[1..], d);
      FindFirst(ps[0], d, rest);
      CutAt(ps[0], d, rest);
      assert ps == [ps[0]] + ps[1..];
    } else {
      LeftmostSingle(ps, d);
    }
  }

  lemma LeftmostSingle(ps: seq<string>, d: string)
    requires Leftmost(ps, d) && |ps| < 2
    ensures |ps| == 1 && ps == [ps[0]] && Find(ps[0], d) == None
  {
  }

  lemma CutAt(p: string, d: string, rest: string)
    ensures (p + d + rest)[..|p|] == p
    ensures (p + d + rest)[|p| + |d|..] == rest
  {
  }

  // The split is the one and only way to cut the text at leftmost separators;
  // joining the pieces restores the text.
  lemma SplitIff(s: string, d: string, ps: seq<string>)
    requires d != ""
    ensures ps == Pieces(s, d) <==> Leftmost(ps, d) && Join(ps, d) == s
  {
    PiecesLeftmost(s, d);
    if Leftmost(ps, d) {
      LeftmostIsPieces(ps, d);
    }
  }

  // ----- string_split: separators are single characters

  function SkipDelims(s: string, delims: string): (r: string)
    ensures |r| <= |s| && (r != "" ==> r[0] !in delims)
  {
    if s == "" || s[0] !in delims then s else SkipDelims(s[1..], delims)
  }

  // The characters before the first separator, and those behind it.
  function TakeToken(s: string, delims: string): (r: (string, string))
    ensures |r.0| + |r.1| <= |s|
    ensures s != "" && s[0] !in delims ==> r.0 != ""
  {
    if s == "" then ("", "")
    else if s[0] in delims then ("", s[1..])
    else
      var (token, rest) := TakeToken(s[1..], delims);
      ([s[0]] + token, rest)
  }

  // strtok_r: the next token and where to go on.
  function StrTok(s: string, delims: string): (r: Option<(string, string)>)
    ensures r.Some? ==> |r.value.1| < |s|
  {
    var t := SkipDelims(s, delims);
    if t == "" then None else Some(TakeToken(t, delims))
  }

  function Tokens(s: string, delims: string): seq<string>
    decreases |s|
  {
    match StrTok(s, delims)
    case None => []
    case Some((token, rest)) => [token] + Tokens(rest, delims)
  }

  lemma TokensStep(s: string, delims: string)
    ensures match StrTok(s, delims)
            case None => Tokens(s, delims) == []
            case Some((token, rest)) => Tokens(s, delims) == [token] + Tokens(rest, delims)
  {
  }

  predicate IsWord(w: string, delims: string) {
    w != "" && forall i :: 0 <= i < |w| ==> w[i] !in delims
  }

  predicate AllWords(ws: seq<string>, delims: string) {
    forall i :: 0 <= i < |ws| ==> IsWord(ws[i], delims)
  }

  // The characters of s that are no separators.
  function Kept(s: string, delims: string): string {
    if s == "" then "" else (if s[0] in delims then "" else [s[0]]) + Kept(s[1..], delims)
  }

  lemma {:induction false} SkipKeeps(s: string, delims: string)
    ensures Kept(SkipDelims(s, delims), delims) == Kept(s, delims)
  {
    if s != "" && s[0] in delims {
      SkipKeeps(s[1..], delims);
    }
  }

  lemma {:induction false} TokenKeeps(s: string, delims: string)
    ensures var (token, rest) := TakeToken(s, delims);
            token + Kept(rest, delims) == Kept(s, delims) && forall i :: 0 <= i < |token| ==> token[i] !in delims
  {
    if s != "" && s[0] !in delims {
      TokenKeeps(s[1..], delims);
    }
  }

  predicate OnlyDelims(gap: string, delims: string) {
    forall i :: 0 <= i < |gap| ==> gap[i] in delims
  }

  // The words with a gap before, between and behind them.
  function Weave(gaps: seq<string>, ws: seq<string>): string
    requires |gaps| == |ws| + 1
  {
    if ws == [] then gaps[0] else gaps[0] + ws[0] + Weave(gaps[1..], ws[1..])
  }

  // s is these words, apart from each other by separators and nothing else.
  predicate CutBy(s: string, delims: string, ws: seq<string>, gaps: seq<string>) {
    && |gaps| == |ws| + 1 && s == Weave(gaps, ws)
    && AllWords(ws, delims)
    && (forall i :: 0 <= i < |gaps| ==> OnlyDelims(gaps[i], delims))
    && (forall i :: 0 < i < |gaps| - 1 ==> gaps[i] != "")
  }

  lemma {:induction false} SkipIs(gap: string, rest: string, delims: string)
    requires OnlyDelims(gap, delims) && (rest != "" ==> rest[0] !in delims)
    ensures SkipDelims(gap + rest, delims) == rest
  {
    if gap == "" {
      assert gap + rest == rest;
    } else {
      assert (gap + rest)[1..] == gap[1..] + rest;
      SkipIs(gap[1..], rest, delims);
    }
  }

  lemma {:induction false} TakeIs(w: string, rest: string, delims: string)
    requires (forall i :: 0 <= i < |w| ==> w[i] !in delims) && (rest != "" ==> rest[0] in delims)
    ensures TakeToken(w + rest, delims) == (w, if rest == "" then "" else rest[1..])
  {
    if w == "" {
      assert w + rest == rest;
    } else {
      assert (w + rest)[1..] == w[1..] + rest;
      TakeIs(w[1..], rest, delims);
      assert w == [w[0]] + w[1..];
    }
  }

  lemma SkipStep(s: string, delims: string)
    ensures SkipDelims(s, delims) == if s != "" && s[0] in delims then SkipDelims(s[1..], delims) else s
  {
  }

  lemma PutInFront(c: char, a: string, b: string)
    ensures [c] + (a + b) == ([c] + a) + b
  {
  }

  lemma {:induction false} Skipped(s: string, delims: string) returns (gap: string)
    ensures OnlyDelims(gap, delims) && s == gap + SkipDelims(s, delims)
  {
    hide SkipDelims;
    SkipStep(s, delims);
    gap := "";
    if s != "" && s[0] in delims {
      var more := Skipped(s[1..], delims);
      gap := [s[0]] + more;
      PutInFront(s[0], more, SkipDelims(s[1..], delims));
      assert s == [s[0]] + s[1..];
    } else {
      assert "" + s == s;
    }
  }

  // The text behind the first word starts with a separator.
  lemma WeaveBehind(gaps: seq<string>, ws: seq<string>, delims: string)
    requires |gaps| == |ws| + 1 && ws != [] && AllWords(ws, delims)
    requires (forall i :: 0 <= i < |gaps| ==> OnlyDelims(gaps[i], delims))
    requires (forall i :: 0 < i < |gaps| - 1 ==> gaps[i] != "")
    ensures var rest := Weave(gaps[1..], ws[1..]); rest != "" ==> rest[0] in delims
  {
    assert OnlyDelims(gaps[1], delims);
  }

  // Words apart from each other are what tokenising gives.
  lemma {:induction false} CutIsTokens(s: string, delims: string, ws: seq<string>, gaps: seq<string>)
    requires CutBy(s, delims, ws, gaps)
    ensures Tokens(s, delims) == ws
    decreases |ws|
  {
    TokensStep(s, delims);
    assert OnlyDelims(gaps[0], delims);
    if ws == [] {
      SkipIs(gaps[0], "", delims);
      assert gaps[0] + "" == s;
    } else {
      var rest := Weave(gaps[1..], ws[1..]);
      assert IsWord(ws[0], delims);
      WeaveBehind(gaps, ws, delims);
      assert s == gaps[0] + (ws[0] + rest);
      SkipIs(gaps[0], ws[0] + rest, delims);
      TakeIs(ws[0], rest, delims);
      var rest' := if rest == "" then "" else rest[1..];
      CutBehind(delims, ws, gaps);
      CutIsTokens(rest', delims, ws[1..], [if gaps[1] == "" then "" else gaps[1][1..]] + gaps[2..]);
    }
  }

  // strtok drops the separator behind a word.
  lemma CutBehind(delims: string, ws: seq<string>, gaps: seq<string>)
    requires |gaps| == |ws| + 1 && ws != [] && AllWords(ws, delims)
    requires (forall i :: 0 <= i < |gaps| ==> OnlyDelims(gaps[i], delims))
    requires (forall i :: 0 < i < |gaps| - 1 ==> gaps[i] != "")
    ensures var rest := Weave(gaps[1..], ws[1..]);
            CutBy(if rest == "" then "" else rest[1..], delims, ws[1..],
                  [if gaps[1] == "" then "" else gaps[1][1..]] + gaps[2..])
  {
    var rest := Weave(gaps[1..], ws[1..]);
    var first := if gaps[1] == "" then "" else gaps[1][1..];
    var gaps' := [first] + gaps[2..];
    assert OnlyDelims(gaps[1], delims);
    assert gaps'[1..] == gaps[1..][1..];
    assert forall i :: 0 < i < |gaps'| ==> gaps'[i] == gaps[i + 1];
    assert forall i :: 0 <= i < |ws[1..]| ==> ws[1..][i] == ws[i + 1];
    if |ws| > 1 {
      assert gaps[1] == [gaps[1][0]] + first;
      assert rest == [gaps[1][0]] + Weave(gaps', ws[1..]);
    }
  }

  lemma {:induction false} TokensAreCut(s: string, delims: string) returns (gaps: seq<string>)
    ensures CutBy(s, delims, Tokens(s, delims), gaps)
    decreases |s|
  {
    TokensStep(s, delims);
    var gap := Skipped(s, delims);
    var t := SkipDelims(s, delims);
    if t == "" {
      gaps := [gap];
      assert gap + "" == gap;
    } else {
      var (w, rest) := TakeToken(t, delims);
      var sep := TokenCut(t, delims);
      var more := TokensAreCut(rest, delims);
      gaps := [gap] + ([sep + more[0]] + more[1..]);
      CutJoins(s, delims, gap, w, sep, rest, Tokens(rest, delims), more);
    }
  }

  lemma TakeStep(t: string, delims: string)
    ensures t == "" ==> TakeToken(t, delims) == ("", "")
    ensures t != "" && t[0] in delims ==> TakeToken(t, delims) == ("", t[1..])
    ensures t != "" && t[0] !in delims ==>
              TakeToken(t, delims) == ([t[0]] + TakeToken(t[1..], delims).0, TakeToken(t[1..], delims).1)
  {
  }

  // A text is the token, the separator behind it if any, and the rest.
  lemma {:induction false} TokenCut(t: string, delims: string) returns (sep: string)
    ensures var (w, rest) := TakeToken(t, delims);
            && t == w + sep + rest && (forall i :: 0 <= i < |w| ==> w[i] !in delims)
            && OnlyDelims(sep, delims) && (rest != "" ==> sep != "")
    ensures t != "" && t[0] !in delims ==> IsWord(TakeToken(t, delims).0, delims)
  {
    hide TakeToken;
    TakeStep(t, delims);
    sep := "";
    if t != "" {
      assert t == [t[0]] + t[1..];
      if t[0] in delims {
        sep := [t[0]];
        assert "" + sep == sep;
      } else {
        sep := TokenCut(t[1..], delims);
        var (w, rest) := TakeToken(t[1..], delims);
        PutInFront(t[0], w + sep, rest);
        PutInFront(t[0], w, sep);
      }
    } else {
      assert "" + sep + "" == "";
    }
  }

  lemma CutJoins(s: string, delims: string, gap: string, w: string, sep: string, rest: string,
                 ws: seq<string>, more: seq<string>)
    requires CutBy(rest, delims, ws, more) && IsWord(w, delims) && OnlyDelims(gap, delims) && OnlyDelims(sep, delims)
    requires s == gap + (w + sep + rest) && (rest != "" ==> sep != "")
    ensures CutBy(s, delims, [w] + ws, [gap] + ([sep + more[0]] + more[1..]))
  {
    var gaps := [gap] + ([sep + more[0]] + more[1..]);
    assert OnlyDelims(more[0], delims);
    assert gaps[1..] == [sep + more[0]] + more[1..];
    assert ([w] + ws)[1..] == ws;
    assert Weave(gaps[1..], ws) == sep + rest by {
      assert gaps[1..][1..] == more[1..];
      if ws != [] {
        var behind := Weave(more[1..], ws[1..]);
        assert sep + (more[0] + ws[0] + behind) == (sep + more[0]) + ws[0] + behind;
      }
    }
    assert gap + (w + sep + rest) == gap + w + (sep + rest);
    if ws != [] {
      assert IsWord(ws[0], delims);
      assert rest != "";
    }
    assert forall i :: 1 < i < |gaps| ==> gaps[i] == more[i - 1];
  }

  /**
   * The tokens of a text are the one and only way to cut it into words with nothing
   * but separators between, in front of and behind them.
   */
  lemma TokensIff(s: string, delims: string, ws: seq<string>)
    ensures ws == Tokens(s, delims) <==> exists gaps :: CutBy(s, delims, ws, gaps)
  {
    var gaps := TokensAreCut(s, delims);
    forall gaps | CutBy(s, delims, ws, gaps)
      ensures ws == Tokens(s, delims)
    {
      CutIsTokens(s, delims, ws, gaps);
    }
  }

  // Tokenising loses nothing but separators, and its tokens are words.
  lemma {:induction false} TokensKeep(s: string, delims: string)
    ensures AllWords(Tokens(s, delims), delims)
    ensures Join(Tokens(s, delims), "") == Kept(s, delims)
    decreases |s|
  {
    SkipKeeps(s, delims);
    var t := SkipDelims(s, delims);
    if t != "" {
      TokenKeeps(t, delims);
      var (token, rest) := TakeToken(t, delims);
      TokensKeep(rest, delims);
      var more := Tokens(rest, delims);
      assert Tokens(s, delims) == [token] + more;
      assert ([token] + more)[1..] == more;
      assert token + "" == token;
    }
  }

  lemma {:induction false} TakeWordToken(w: string, c: char, rest: string, delims: string)
    requires c in delims && forall i :: 0 <= i < |w| ==> w[i] !in delims
    ensures TakeToken(w + [c] + rest, delims) == (w, rest)
    ensures TakeToken(w, delims) == (w, "")
  {
    var s := w + [c] + rest;
    if w == "" {
      assert s[1..] == rest;
    } else {
      assert s[1..] == w[1..] + [c] + rest;
      TakeWordToken(w[1..], c, rest, delims);
      assert w == [w[0]] + w[1..];
    }
  }

  // A word in front, with or without something behind it.
  lemma TokensOfWord(w: string, c: char, rest: string, delims: string)
    requires IsWord(w, delims) && c in delims
    ensures Tokens(w + [c] + rest, delims) == [w] + Tokens(rest, delims)
    ensures Tokens(w, delims) == [w]
  {
    TakeWordToken(w, c, rest, delims);
    assert (w + [c] + rest)[0] == w[0];
    assert Tokens("", delims) == [];
  }

  // Joined by a separator, exactly the lists of words come back.
  lemma {:induction false} JoinedTokensIff(ws: seq<string>, c: char, delims: string)
    requires c in delims
    ensures Tokens(Join(ws, [c]), delims) == ws <==> AllWords(ws, delims)
  {
    TokensKeep(Join(ws, [c]), delims);
    if ws != [] && AllWords(ws, delims) {
      JoinedTokensIff(ws[1..], c, delims);
      TokensOfWord(ws[0], c, Join(ws[1..], [c]), delims);
      assert ws == [ws[0]] + ws[1..];
    }
  }

  // ----- the methods

  // The end of both functions: list_get from 1, filling the array backwards.
  method Unreverse(li: List<string>) returns (tab: array<string>)
    requires li.Valid()
    modifies li`cursor, li`curpos, li`hops
    ensures fresh(tab) && tab[..] == Rev(li.contents)
  {
    hide List.Valid, Rev;
    var s := li.Size();
    tab := new string[s](_ => "");
    for i := 1 to s + 1
      invariant li.Valid()
      invariant forall k :: s - i < k < s ==> tab[k] == li.contents[s - 1 - k]
    {
      var element := li.Get(i);
      tab[s - i] := element.value;
    }
    forall k | 0 <= k < s
      ensures tab[k] == Rev(li.contents)[k]
    {
      RevAt(li.contents, k);
    }
  }

  // The pieces put in a list by list_add so far, then those still to come.
  ghost function Assembled(added: seq<string>, rest: seq<string>): seq<string> {
    Rev(added) + rest
  }

  lemma AssembledStep(x: string, added: seq<string>, rest: seq<string>)
    ensures Assembled([x] + added, rest) == Assembled(added, [x] + rest)
  {
    RevStep(x, added, rest);
  }

  lemma AssembledEnds(added: seq<string>, rest: seq<string>)
    ensures Assembled([], rest) == rest && Assembled(added, []) == Rev(added)
  {
    assert [] + rest == rest;
    assert Rev(added) + [] == Rev(added);
  }

  // The strtok_r loop of string_split.
  method CollectTokens(str: string, delim: string) returns (li: List<string>)
    ensures li.Valid() && fresh(li.Repr) && Rev(li.contents) == Tokens(str, delim)
  {
    hide StrTok, Tokens, Rev, Assembled, List.Valid;
    li := new List<string>();
    var p := StrTok(str, delim);
    var saveptr := str;
    AssembledEnds([], Tokens(saveptr, delim));
    while p.Some?
      invariant li.Valid() && fresh(li.Repr)
      invariant p == StrTok(saveptr, delim)
      invariant Tokens(str, delim) == Assembled(li.contents, Tokens(saveptr, delim))
      decreases |saveptr|
    {
      TokensStep(saveptr, delim);
      AssembledStep(p.value.0, li.contents, Tokens(p.value.1, delim));
      li.Add(p.value.0);
      saveptr := p.value.1;
      p := StrTok(saveptr, delim);
    }
    TokensStep(saveptr, delim);
    AssembledEnds(li.contents, []);
  }

  // None stands for NULL.
  method Split(str: Option<string>, delim: string) returns (tab: array<string>)
    ensures fresh(tab)
    ensures tab[..] == if str.None? then [] else Tokens(str.value, delim)
  {
    if str.None? {
      tab := new string[0];
      return;
    }
    var li := CollectTokens(str.value, delim);
    hide Tokens, Rev, List.Valid;
    tab := Unreverse(li);
  }

  // The strstr loop of string_split2; an empty separator would never let it end.
  method CollectPieces(str: string, delim: string) returns (li: List<string>)
    requires delim != ""
    ensures li.Valid() && fresh(li.Repr) && Rev(li.contents) == Pieces(str, delim)
  {
    hide Find, Pieces, Rev, Assembled, List.Valid, At;
    li := new List<string>();
    var p := str;
    var q := Find(p, delim);
    AssembledEnds([], Pieces(p, delim));
    while q.Some?
      invariant li.Valid() && fresh(li.Repr)
      invariant q == Find(p, delim)
      invariant Pieces(str, delim) == Assembled(li.contents, Pieces(p, delim))
      decreases |p|
    {
      PiecesStep(p, delim);
      var piece, rest := p[..q.value], p[q.value + |delim|..];
      AssembledStep(piece, li.contents, Pieces(rest, delim));
      li.Add(piece);
      p := rest;
      q := Find(p, delim);
    }
    PiecesStep(p, delim);
    AssembledStep(p, li.contents, []);
    assert [p] + [] == [p];
    li.Add(p);
    AssembledEnds(li.contents, []);
  }

  method Split2(str: Option<string>, delim: string) returns (tab: array<string>)
    requires delim != ""
    ensures fresh(tab)
    ensures tab[..] == if str.None? then [] else Pieces(str.value, delim)
  {
    if str.None? {
      tab := new string[0];
      return;
    }
    var li := CollectPieces(str.value, delim);
    hide Pieces, Rev, List.Valid;
    tab := Unreverse(li);
  }

  // strstripc: None stands for the read before the start of an empty string.
  function StripC(s: string, c: char): Option<string> {
    if s == "" then None
    else if s[|s| - 1] == c then Some(s[..|s| - 1])
    else Some(s)
  }
}
