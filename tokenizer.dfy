/** Splitting text into words: the maximal runs of characters other than ' '. */
module Tokenizer {

  /** No character of `w` is a space. */
  predicate SpaceFree(w: string) {
    forall k :: 0 <= k < |w| ==> w[k] != ' '
  }

  /** The longest suffix of `s` that holds no space. */
  function TrailingRun(s: string): (r: string)
    ensures |r| <= |s|
    ensures SpaceFree(r)
    ensures |r| < |s| ==> s[|s| - |r| - 1] == ' '
    ensures |r| > 0 <==> s != [] && s[|s| - 1] != ' '
    decreases |s|
  {
    if s == [] || s[|s| - 1] == ' ' then []
    else
      var init := s[..|s| - 1];
      TrailingRun(init) + [s[|s| - 1]]
  }

  /** The trailing run is a suffix: what precedes it, followed by it, is `s` again. */
  lemma {:induction false} TrailingRunIsSuffix(s: string)
    ensures s[..|s| - |TrailingRun(s)|] + TrailingRun(s) == s
    decreases |s|
  {
    if s != [] && s[|s| - 1] != ' ' {
      var init := s[..|s| - 1];
      TrailingRunIsSuffix(init);
      assert s[..|s| - |TrailingRun(s)|] == init[..|init| - |TrailingRun(init)|];
    }
  }

  /** The words of `s` from left to right. The last word is the longest
      space-free suffix of `s`; what comes before it is split the same way. */
  function Words(s: string): (ws: seq<string>)
    ensures forall k :: 0 <= k < |ws| ==> ws[k] != [] && SpaceFree(ws[k])
    decreases |s|
  {
    if s == [] then []
    else if s[|s| - 1] == ' ' then Words(s[..|s| - 1])
    else
      var r := TrailingRun(s);
      Words(s[..|s| - |r|]) + [r]
  }

  /** The words of `ws` written out one after another with a single space between two neighbours. */
  function Join(ws: seq<string>): string
  {
    if ws == [] then []
    else if |ws| == 1 then ws[0]
    else Join(ws[..|ws| - 1]) + [' '] + ws[|ws| - 1]
  }

  /** All the words of `ws` glued together. */
  function Concat(ws: seq<string>): string
  {
    if ws == [] then [] else Concat(ws[..|ws| - 1]) + ws[|ws| - 1]
  }

  /** `s` with every space removed. */
  function WithoutSpaces(s: string): string
  {
    if s == [] then []
    else if s[|s| - 1] == ' ' then WithoutSpaces(s[..|s| - 1])
    else WithoutSpaces(s[..|s| - 1]) + [s[|s| - 1]]
  }

  /** A space cuts the run: the trailing run of `a + " " + b` lies inside `b`. */
  lemma {:induction false} TrailingRunAfterSpace(a: string, b: string)
    ensures TrailingRun(a + [' '] + b) == TrailingRun(b)
    decreases |b|
  {
    var s := a + [' '] + b;
    if b != [] && b[|b| - 1] != ' ' {
      var b' := b[..|b| - 1];
      assert s[..|s| - 1] == a + [' '] + b';
      TrailingRunAfterSpace(a, b');
    }
  }

  /** A space-free word is its own trailing run. */
  lemma {:induction false} TrailingRunOfWord(w: string)
    requires SpaceFree(w)
    ensures TrailingRun(w) == w
    decreases |w|
  {
    if w != [] {
      TrailingRunOfWord(w[..|w| - 1]);
      assert w[..|w| - 1] + [w[|w| - 1]] == w;
    }
  }

  /** Text on the two sides of a space is split independently. */
  lemma {:induction false} WordsAroundSpace(a: string, b: string)
    ensures Words(a + [' '] + b) == Words(a) + Words(b)
    decreases |b|
  {
    var s := a + [' '] + b;
    if b == [] {
      assert s[..|s| - 1] == a;
    } else if b[|b| - 1] == ' ' {
      var b' := b[..|b| - 1];
      assert s[..|s| - 1] == a + [' '] + b';
      WordsAroundSpace(a, b');
    } else {
      var r := TrailingRun(s);
      TrailingRunAfterSpace(a, b);
      assert r == TrailingRun(b);
      var b' := b[..|b| - |r|];
      assert s[..|s| - |r|] == a + [' '] + b';
      WordsAroundSpace(a, b');
      assert Words(b) == Words(b') + [r];
    }
  }

  /** A non-empty space-free word splits into itself. */
  lemma WordsOfWord(w: string)
    requires w != [] && SpaceFree(w)
    ensures Words(w) == [w]
  {
    TrailingRunOfWord(w);
    assert w[..|w| - |w|] == [];
  }

  /** Round trip: joining non-empty space-free words with single spaces and
      splitting the result gives the words back. */
  lemma {:induction false} SplitJoin(ws: seq<string>)
    requires forall k :: 0 <= k < |ws| ==> ws[k] != [] && SpaceFree(ws[k])
    ensures Words(Join(ws)) == ws
  {
    if |ws| == 1 {
      WordsOfWord(ws[0]);
    } else if |ws| > 1 {
      var init, last := ws[..|ws| - 1], ws[|ws| - 1];
      assert Join(ws) == Join(init) + [' '] + last;
      SplitJoin(init);
      WordsAroundSpace(Join(init), last);
      WordsOfWord(last);
      assert init + [last] == ws;
    }
  }

  lemma {:induction false} WithoutSpacesOfWord(a: string, w: string)
    requires SpaceFree(w)
    ensures WithoutSpaces(a + w) == WithoutSpaces(a) + w
    decreases |w|
  {
    if w == [] {
      assert a + w == a;
    } else {
      var w' := w[..|w| - 1];
      assert (a + w)[..|a + w| - 1] == a + w';
      WithoutSpacesOfWord(a, w');
      assert w' + [w[|w| - 1]] == w;
    }
  }

  /** Splitting loses only the spaces: the words, glued together, are the
      text's other characters in their original order. */
  lemma {:induction false} WordsKeepEveryOtherCharacter(s: string)
    ensures Concat(Words(s)) == WithoutSpaces(s)
    decreases |s|
  {
    if s != [] {
      if s[|s| - 1] == ' ' {
        WordsKeepEveryOtherCharacter(s[..|s| - 1]);
      } else {
        var r := TrailingRun(s);
        var p := s[..|s| - |r|];
        WordsKeepEveryOtherCharacter(p);
        var ws := Words(p) + [r];
        assert ws[..|ws| - 1] == Words(p);
        TrailingRunIsSuffix(s);
        WithoutSpacesOfWord(p, r);
      }
    }
  }

  /** The words of `t` are the words before its trailing run, then that run if it is not empty. */
  lemma WordsBeforeRun(t: string)
    ensures Words(t) == Words(t[..|t| - |TrailingRun(t)|]) + (if TrailingRun(t) == [] then [] else [TrailingRun(t)])
  {
    if TrailingRun(t) == [] {
      assert t[..|t|] == t;
    }
  }

  /** Reading a space closes the current run: no run is left, and the words
      before it are those before the run followed by the run, if any. */
  lemma ReadSpace(t: string)
    ensures TrailingRun(t + [' ']) == []
    ensures Words((t + [' '])[..|t| + 1]) ==
      Words(t[..|t| - |TrailingRun(t)|]) + (if TrailingRun(t) == [] then [] else [TrailingRun(t)])
  {
    assert (t + [' '])[..|t|] == t;
    assert (t + [' '])[..|t| + 1] == t + [' '];
    WordsBeforeRun(t);
  }

  /** Reading any other character extends the current run and leaves what precedes it unchanged. */
  lemma ReadNonSpace(t: string, c: char)
    requires c != ' '
    ensures TrailingRun(t + [c]) == TrailingRun(t) + [c]
    ensures (t + [c])[..|t| + 1 - |TrailingRun(t + [c])|] == t[..|t| - |TrailingRun(t)|]
  {
    assert (t + [c])[..|t|] == t;
    TrailingRunIsSuffix(t);
  }

  /** SplitIntoWords: one pass over the text with a buffer for the current word. */
  method SplitIntoWords(text: string) returns (words: seq<string>)
    ensures words == Words(text)
  {
    words := [];
    var word: string := [];
    ghost var read: string := [];
    for i := 0 to |text|
      invariant read == text[..i]
      invariant word == TrailingRun(read)
      invariant words == Words(read[..|read| - |word|])
    {
      var c := text[i];
      assert text[..i + 1] == read + [c];
      if c == ' ' {
        ReadSpace(read);
        if word != [] {
          words := words + [word];
          word := [];
        }
      } else {
        ReadNonSpace(read, c);
        word := word + [c];
      }
      read := read + [c];
    }
    assert read == text;
    WordsBeforeRun(text);
    if word != [] {
      words := words + [word];
    }
  }
}
