/** Splitting a line at blanks. */
module Words {

  const BLANK := ' '

  /** Where the first blank is, or the length. */
  function FirstBlank(s: string): (k: nat)
    ensures k <= |s| && (k < |s| ==> s[k] == BLANK)
    ensures forall i :: 0 <= i < k ==> s[i] != BLANK
  {
    if s == "" || s[0] == BLANK then 0 else 1 + FirstBlank(s[1..])
  }

  /** The words between blanks, none of them empty. */
  function WordsOf(s: string): seq<string>
    decreases |s|
  {
    if s == "" then []
    else
      var k := FirstBlank(s);
      if k == |s| then [s] else if k == 0 then WordsOf(s[1..]) else [s[..k]] + WordsOf(s[k + 1..])
  }

  predicate EndsInBlank(s: string) {
    s == "" || s[|s| - 1] == BLANK
  }

  lemma Assoc<T>(a: seq<T>, b: seq<T>, c: seq<T>)
    ensures (a + b) + c == a + (b + c)
  {
  }

  /** The words of the line; after a blank at the end, or for an empty line, one empty string more. */
  method Split(line: string) returns (v: seq<string>)
    ensures v == WordsOf(line) + if EndsInBlank(line) then [""] else []
  {
    hide WordsOf, FirstBlank;
    v := [];
    var s: nat := 0;
    var e := FirstBlank(line);
    assert line[0..] == line;
    while e != |line|
      invariant s <= e <= |line| && e == s + FirstBlank(line[s..])
      invariant v + WordsOf(line[s..]) == WordsOf(line)
      invariant s == 0 || line[s - 1] == BLANK
      decreases |line| - s
    {
      NextWordAt(line, s);
      Assoc(v, if s == e then [] else [line[s..e]], WordsOf(line[e + 1..]));
      if s != e {
        v := v + [line[s..e]];
      }
      s := e + 1;
      e := s + FirstBlank(line[s..]);
    }
    LastWordAt(line, s);
    v := v + [line[s..]];
  }

  lemma NextWordAt(line: string, s: nat)
    requires s <= |line| && s + FirstBlank(line[s..]) < |line|
    ensures var e := s + FirstBlank(line[s..]);
      && line[e] == BLANK
      && WordsOf(line[s..]) == (if s == e then [] else [line[s..e]]) + WordsOf(line[e + 1..])
  {
    hide WordsOf, FirstBlank;
    var e := s + FirstBlank(line[s..]);
    NextWord(line[s..]);
    assert line[s..][..e - s] == line[s..e] && line[s..][e - s + 1..] == line[e + 1..];
  }

  lemma LastWordAt(line: string, s: nat)
    requires s <= |line| && s + FirstBlank(line[s..]) == |line| && (s == 0 || line[s - 1] == BLANK)
    ensures WordsOf(line[s..]) == if line[s..] == "" then [] else [line[s..]]
    ensures EndsInBlank(line) <==> line[s..] == ""
  {
    hide WordsOf, FirstBlank;
    LastWord(line[s..]);
    if s < |line| {
      assert line[|line| - 1] == line[s..][|line| - 1 - s];
    }
  }

  lemma NextWord(s: string)
    requires FirstBlank(s) < |s|
    ensures var k := FirstBlank(s); WordsOf(s) == (if k == 0 then [] else [s[..k]]) + WordsOf(s[k + 1..])
  {
    hide FirstBlank;
    assert FirstBlank(s) == 0 ==> [] + WordsOf(s[1..]) == WordsOf(s[1..]);
  }

  lemma LastWord(s: string)
    requires FirstBlank(s) == |s|
    ensures WordsOf(s) == if s == "" then [] else [s]
  {
    assert s[..|s|] == s;
  }

  /** Words with one blank between each two. */
  function Joined(ws: seq<string>): string {
    if ws == [] then "" else if |ws| == 1 then ws[0] else ws[0] + ([BLANK] + Joined(ws[1..]))
  }

  predicate IsWord(w: string) {
    w != "" && FirstBlank(w) == |w|
  }

  predicate AllWords(ws: seq<string>) {
    forall i :: 0 <= i < |ws| ==> IsWord(ws[i])
  }

  lemma AllWordsConcat(ws: seq<string>, vs: seq<string>)
    requires AllWords(ws) && AllWords(vs)
    ensures AllWords(ws + vs)
  {
  }

  lemma {:induction false} FirstBlankIs(s: string, k: nat)
    requires k < |s| && s[k] == BLANK && forall i :: 0 <= i < k ==> s[i] != BLANK
    ensures FirstBlank(s) == k
  {
    if k != 0 {
      FirstBlankIs(s[1..], k - 1);
    }
  }

  lemma FirstBlankAfter(w: string, rest: string)
    requires FirstBlank(w) == |w|
    ensures FirstBlank(w + ([BLANK] + rest)) == |w|
  {
    var s := w + ([BLANK] + rest);
    assert forall i :: 0 <= i < |w| ==> s[i] == w[i];
    FirstBlankIs(s, |w|);
  }

  /** Joining words and splitting the line gives them back. */
  lemma {:induction false} SplitJoined(ws: seq<string>)
    requires ws != [] && AllWords(ws)
    ensures WordsOf(Joined(ws)) == ws && !EndsInBlank(Joined(ws))
  {
    hide WordsOf, FirstBlank;
    assert IsWord(ws[0]);
    if |ws| == 1 {
      LastWord(ws[0]);
    } else {
      var rest := Joined(ws[1..]);
      var s := ws[0] + ([BLANK] + rest);
      SplitJoined(ws[1..]);
      FirstBlankAfter(ws[0], rest);
      NextWord(s);
      assert s[..|ws[0]|] == ws[0] && s[|ws[0]| + 1..] == rest;
      assert s[|s| - 1] == rest[|rest| - 1];
    }
  }

  /** A word is a string, not empty, without a space. */
  lemma WordHasNoSpace(w: string)
    ensures IsWord(w) <==> w != "" && ' ' !in w
  {
  }

  lemma SplitPair(w: string, v: string)
    requires w != "" && v != "" && ' ' !in w && ' ' !in v
    ensures Joined([w, v]) == w + " " + v
    ensures WordsOf(w + " " + v) == [w, v] && !EndsInBlank(w + " " + v)
    ensures EndsInBlank(w + " ")
  {
    hide WordsOf, FirstBlank, IsWord;
    WordHasNoSpace(w);
    WordHasNoSpace(v);
    assert [w, v][1..] == [v];
    Assoc(w, " ", v);
    SplitJoined([w, v]);
  }
}
