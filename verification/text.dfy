/**
 Text handling of the FAQ engine: the `strip()` applied to the incoming
 question, and `preprocess_text`, which lower-cases a string, tokenizes it,
 drops stopwords and punctuation and joins the surviving tokens with single
 spaces. The tokenizer (and its stopword / punctuation classification) is an
 external linguistic model, so it reaches this module as a function from a
 string to a sequence of classified tokens.
 */
module Text {

  /** The characters Python's `str.isspace()` accepts, which are exactly the
      characters `str.strip()` without arguments removes from either end. */
  predicate IsSpace(c: char) {
    || ('\t' <= c <= '\r')
    || ('\U{1C}' <= c <= '\U{1F}')
    || c == ' '
    || c == '\U{85}'
    || c == '\U{A0}'
    || c == '\U{1680}'
    || ('\U{2000}' <= c <= '\U{200A}')
    || c == '\U{2028}'
    || c == '\U{2029}'
    || c == '\U{202F}'
    || c == '\U{205F}'
    || c == '\U{3000}'
  }

  /** Every character of `s` is whitespace (vacuously so for the empty string). */
  predicate Blank(s: string) {
    forall k :: 0 <= k < |s| ==> IsSpace(s[k])
  }

  /** Every character of `s` at a position in `[lo, hi)` is whitespace. */
  predicate BlankBetween(s: string, lo: int, hi: int) {
    forall k :: lo <= k < hi && 0 <= k < |s| ==> IsSpace(s[k])
  }

  /** The first position at or after `i` that does not hold whitespace, or
      `|s|` if there is none. */
  function SkipSpaces(s: string, i: nat): (j: nat)
    requires i <= |s|
    ensures i <= j <= |s|
    ensures BlankBetween(s, i, j)
    ensures j == |s| || !IsSpace(s[j])
    decreases |s| - i
  {
    if i < |s| && IsSpace(s[i]) then SkipSpaces(s, i + 1) else i
  }

  /** The end of `s[lo..hi]` once its trailing whitespace is cut off. */
  function TrimEnd(s: string, lo: nat, hi: nat): (e: nat)
    requires lo <= hi <= |s|
    ensures lo <= e <= hi
    ensures BlankBetween(s, e, hi)
    ensures e == lo || !IsSpace(s[e - 1])
    decreases hi
  {
    if lo < hi && IsSpace(s[hi - 1]) then TrimEnd(s, lo, hi - 1) else hi
  }

  /** `r` is what is left of `s` after cutting `i` whitespace characters from
      the front and only whitespace from the back. */
  predicate TrimmedAt(s: string, r: string, i: int) {
    && 0 <= i <= |s| - |r|
    && r == s[i..i + |r|]
    && BlankBetween(s, 0, i)
    && BlankBetween(s, i + |r|, |s|)
  }

  /** Python's `s.strip()`: `s` with whitespace cut from both ends. */
  function Strip(s: string): (r: string)
    ensures r == [] <==> Blank(s)
    ensures r == [] || (!IsSpace(r[0]) && !IsSpace(r[|r| - 1]))
    ensures exists i :: TrimmedAt(s, r, i)
  {
    var i := SkipSpaces(s, 0);
    var j := TrimEnd(s, i, |s|);
    assert TrimmedAt(s, s[i..j], i);
    assert i < j ==> s[i..j][0] == s[i] && s[i..j][j - i - 1] == s[j - 1];
    s[i..j]
  }

  /** Stripping a stripped string changes nothing. */
  lemma StripIdempotent(s: string)
    ensures Strip(Strip(s)) == Strip(s)
  {
    var r := Strip(s);
    assert SkipSpaces(r, 0) == 0;
    assert TrimEnd(r, 0, |r|) == |r|;
    assert r[0..|r|] == r;
  }

  /** ASCII upper-case letters are mapped to lower case, all else is kept. */
  function LowerChar(c: char): (d: char)
    ensures !('A' <= d <= 'Z')
    ensures !('A' <= c <= 'Z') ==> d == c
    ensures 'A' <= c <= 'Z' ==> d as int - c as int == 'a' as int - 'A' as int
  {
    if 'A' <= c <= 'Z' then (c as int - 'A' as int + 'a' as int) as char else c
  }

  /** `s.lower()`, restricted to the ASCII alphabet. */
  function Lower(s: string): (r: string)
    ensures |r| == |s|
    ensures forall k :: 0 <= k < |r| ==> !('A' <= r[k] <= 'Z')
    ensures forall k :: 0 <= k < |s| && !('A' <= s[k] <= 'Z') ==> r[k] == s[k]
    ensures forall k :: 0 <= k < |s| && 'A' <= s[k] <= 'Z' ==>
              r[k] as int == s[k] as int + ('a' as int - 'A' as int)
  {
    seq(|s|, k requires 0 <= k < |s| => LowerChar(s[k]))
  }

  /** Lower-casing is idempotent. */
  lemma LowerIdempotent(s: string)
    ensures Lower(Lower(s)) == Lower(s)
  {
  }

  /** One token of the linguistic tokenizer together with the two flags the
      filter consults: `is_stop` and `is_punct`. */
  datatype Token = Token(text: string, isStop: bool, isPunct: bool)

  /** A token survives the filter when it is neither a stopword nor punctuation. */
  predicate Kept(t: Token) {
    !(t.isStop || t.isPunct)
  }

  /** The texts of the surviving tokens, in their original relative order. */
  function Surviving(ts: seq<Token>): (ws: seq<string>)
    ensures |ws| <= |ts|
    ensures ws == [] <==> forall i :: 0 <= i < |ts| ==> !Kept(ts[i])
    ensures (forall i :: 0 <= i < |ts| ==> Kept(ts[i])) ==>
              |ws| == |ts| && forall i :: 0 <= i < |ts| ==> ws[i] == ts[i].text
  {
    if ts == [] then []
    else
      var rest := Surviving(ts[1..]);
      assert forall i :: 1 <= i < |ts| ==> ts[i] == ts[1..][i - 1];
      if Kept(ts[0]) then [ts[0].text] + rest else rest
  }

  /** The filter distributes over concatenation: surviving tokens of an earlier
      stretch of text precede those of a later one, and the two stretches do
      not influence each other. Together with the one-token case this pins the
      filter down completely. */
  lemma {:induction false} SurvivingAppend(a: seq<Token>, b: seq<Token>)
    ensures Surviving(a + b) == Surviving(a) + Surviving(b)
    decreases |a|
  {
    if a == [] {
      assert a + b == b;
    } else {
      assert (a + b)[0] == a[0];
      assert (a + b)[1..] == a[1..] + b;
      SurvivingAppend(a[1..], b);
    }
  }

  /** Python's `" ".join(ws)`. */
  function Join(ws: seq<string>): string {
    if ws == [] then ""
    else if |ws| == 1 then ws[0]
    else ws[0] + " " + Join(ws[1..])
  }

  /** The first position at or after `i` that holds a space, or `|s|` if
      there is none. */
  function NextSpace(s: string, i: nat): (j: nat)
    requires i <= |s|
    ensures i <= j <= |s|
    ensures j < |s| ==> s[j] == ' '
    ensures forall k :: i <= k < j ==> s[k] != ' '
    decreases |s| - i
  {
    if i == |s| || s[i] == ' ' then i else NextSpace(s, i + 1)
  }

  /** The scan from the start finds a space exactly when there is one. */
  lemma SpaceFound(s: string)
    ensures NextSpace(s, 0) < |s| <==> ' ' in s
  {
  }

  /** Python's `s.split(" ")`: the pieces between single spaces, always at
      least one. It is the inverse of `Join` (see `SplitJoin` and `JoinSplit`). */
  function Split(s: string): (r: seq<string>)
    ensures |r| >= 1
    decreases |s|
  {
    var i := NextSpace(s, 0);
    if i == |s| then [s] else [s[..i]] + Split(s[i + 1..])
  }

  /** A space with no space before it is the first space. */
  lemma FirstSpaceAt(s: string, p: nat)
    requires p < |s| && s[p] == ' '
    requires forall j :: 0 <= j < p ==> s[j] != ' '
    ensures NextSpace(s, 0) == p
  {
    var i := NextSpace(s, 0);
    assert !(i < p) && !(p < i);
  }

  /** A word without spaces followed by a space splits off as one piece. */
  lemma SplitAfterWord(w: string, s: string)
    requires ' ' !in w
    ensures Split(w + " " + s) == [w] + Split(s)
  {
    var t := w + " " + s;
    assert forall j :: 0 <= j < |w| ==> t[j] == w[j];
    FirstSpaceAt(t, |w|);
    assert t[..|w|] == w && t[|w| + 1..] == s;
  }

  /** The first space of `w` is also the first space of `w + " " + s`, so the
      split of the longer string starts with the same piece. */
  lemma SplitBeforeSpace(w: string, s: string, h: nat)
    requires h == NextSpace(w, 0) < |w|
    ensures Split(w + " " + s) == [w[..h]] + Split(w[h + 1..] + " " + s)
  {
    var t := w + " " + s;
    assert forall j :: 0 <= j <= h ==> t[j] == w[j];
    FirstSpaceAt(t, h);
    assert t[..h] == w[..h];
    assert t[h + 1..] == w[h + 1..] + " " + s;
  }

  /** Concatenation of lists of words is associative. */
  lemma ConcatAssoc(a: seq<string>, b: seq<string>, c: seq<string>)
    ensures a + (b + c) == (a + b) + c
  {
  }

  /** The inductive step of `SplitGlue`: if the part of `w` after its first
      space glues, so does `w`. */
  lemma SplitGlueStep(w: string, s: string, h: nat)
    requires h == NextSpace(w, 0) < |w|
    requires Split(w[h + 1..] + " " + s) == Split(w[h + 1..]) + Split(s)
    ensures Split(w + " " + s) == Split(w) + Split(s)
  {
    var head, rest, tail := [w[..h]], Split(w[h + 1..]), Split(s);
    SplitBeforeSpace(w, s, h);
    assert Split(w) == head + rest;
    ConcatAssoc(head, rest, tail);
  }

  /** Splitting at a space splits both sides independently: the pieces of
      `w + " " + s` are the pieces of `w` followed by the pieces of `s`. */
  lemma {:induction false} SplitGlue(w: string, s: string)
    ensures Split(w + " " + s) == Split(w) + Split(s)
    decreases |w|
  {
    var h := NextSpace(w, 0);
    if h < |w| {
      SplitGlue(w[h + 1..], s);
      SplitGlueStep(w, s, h);
    } else {
      SpaceFound(w);
      SplitAfterWord(w, s);
      assert Split(w) == [w];
    }
  }

  /** The pieces of every word of `ws`, one word after the other. */
  function Pieces(ws: seq<string>): (ps: seq<string>)
    ensures |ps| >= |ws|
  {
    if ws == [] then [] else Split(ws[0]) + Pieces(ws[1..])
  }

  /** Splitting a join gives the pieces of every word, for every non-empty
      list of words: a space inside a word splits it further, and nothing
      else is lost or added. */
  lemma {:induction false} SplitJoinPieces(ws: seq<string>)
    requires |ws| > 0
    ensures Split(Join(ws)) == Pieces(ws)
    decreases |ws|
  {
    if |ws| == 1 {
      assert ws[1..] == [];
    } else {
      SplitGlue(ws[0], Join(ws[1..]));
      SplitJoinPieces(ws[1..]);
    }
  }

  /** Splitting a join gives back the words, provided there is at least one
      word and none contains a space. */
  lemma {:induction false} SplitJoin(ws: seq<string>)
    requires |ws| > 0
    requires forall k :: 0 <= k < |ws| ==> ' ' !in ws[k]
    ensures Split(Join(ws)) == ws
    decreases |ws|
  {
    if |ws| > 1 {
      SplitAfterWord(ws[0], Join(ws[1..]));
      SplitJoin(ws[1..]);
    }
  }

  /** Joining a word in front of at least one more word puts a space between. */
  lemma JoinCons(w: string, ws: seq<string>)
    requires |ws| > 0
    ensures Join([w] + ws) == w + " " + Join(ws)
  {
    assert ([w] + ws)[1..] == ws;
  }

  /** Joining two non-empty lists of words is joining each and putting one
      space between the two results. */
  lemma {:induction false} JoinAppend(a: seq<string>, b: seq<string>)
    requires |a| > 0 && |b| > 0
    ensures Join(a + b) == Join(a) + " " + Join(b)
    decreases |a|
  {
    if |a| == 1 {
      assert a + b == [a[0]] + b;
      JoinCons(a[0], b);
    } else {
      assert a + b == [a[0]] + (a[1..] + b);
      JoinCons(a[0], a[1..] + b);
      JoinAppend(a[1..], b);
      JoinCons(a[0], a[1..]);
      assert a == [a[0]] + a[1..];
    }
  }

  /** A string is the part before a space, the space and the part after it. */
  lemma CutAt(s: string, i: nat)
    requires i < |s| && s[i] == ' '
    ensures s == s[..i] + " " + s[i + 1..]
  {
  }

  /** Joining the pieces of a split gives back the string, for every string. */
  lemma {:induction false} JoinSplit(s: string)
    ensures Join(Split(s)) == s
    decreases |s|
  {
    var i := NextSpace(s, 0);
    if i < |s| {
      JoinSplit(s[i + 1..]);
      JoinCons(s[..i], Split(s[i + 1..]));
      CutAt(s, i);
    }
  }

  /** `preprocess_text(text)`: lower-case, tokenize, keep the tokens that are
      neither stopwords nor punctuation and join them with single spaces. */
  function Preprocess(text: string, tokenize: string -> seq<Token>): (r: string)
    ensures (forall i :: 0 <= i < |tokenize(Lower(text))| ==> !Kept(tokenize(Lower(text))[i]))
              ==> r == ""
    ensures var ws := Surviving(tokenize(Lower(text)));
            |ws| > 0 ==> Split(r) == Pieces(ws)
    ensures var ws := Surviving(tokenize(Lower(text)));
            |ws| > 0 && (forall k :: 0 <= k < |ws| ==> ' ' !in ws[k]) ==> Split(r) == ws
  {
    var ws := Surviving(tokenize(Lower(text)));
    if ws == [] then Join(ws)
    else
      SplitJoinPieces(ws);
      if forall k :: 0 <= k < |ws| ==> ' ' !in ws[k] then SplitJoin(ws); Join(ws)
      else Join(ws)
  }
}
