/**
 The text of the first PDF page becomes one Word paragraph per line:
 `text.split("\n")`, each piece added as a paragraph in order.
 */
module Paragraphs {

  /** Python's `str.split("\n")`: the pieces between newlines, so the empty
      text gives one empty piece and a trailing newline a trailing empty
      piece. Defined by the last character, the way the text is read. */
  function Split(s: string): (pieces: seq<string>)
    ensures |pieces| >= 1
  {
    if s == [] then [[]]
    else
      var init := Split(s[..|s| - 1]);
      var c := s[|s| - 1];
      if c == '\n' then init + [[]]
      else init[..|init| - 1] + [init[|init| - 1] + [c]]
  }

  /** `"\n".join(pieces)`. */
  function Join(pieces: seq<string>): string
    requires |pieces| >= 1
  {
    if |pieces| == 1 then pieces[0]
    else Join(pieces[..|pieces| - 1]) + "\n" + pieces[|pieces| - 1]
  }

  predicate NoNewlines(pieces: seq<string>)
  {
    forall i :: 0 <= i < |pieces| ==> '\n' !in pieces[i]
  }

  function NewlineCount(s: string): nat
  {
    multiset(s)['\n']
  }

  /** Joining the paragraphs with newlines gives back the text. */
  lemma {:induction false} JoinSplit(s: string)
    ensures Join(Split(s)) == s
  {
    if s != [] {
      var t := s[..|s| - 1];
      var c := s[|s| - 1];
      var init := Split(t);
      JoinSplit(t);
      assert s == t + [c];
      if c != '\n' {
        var n := |init|;
        var pieces := init[..n - 1] + [init[n - 1] + [c]];
        assert pieces[..n - 1] == init[..n - 1];
        if n > 1 {
          assert Join(init) == Join(init[..n - 1]) + "\n" + init[n - 1];
        }
      }
    }
  }

  /** No paragraph holds a newline. */
  lemma {:induction false} SplitHasNoNewlines(s: string)
    ensures NoNewlines(Split(s))
  {
    if s != [] {
      var init := Split(s[..|s| - 1]);
      SplitHasNoNewlines(s[..|s| - 1]);
      var c := s[|s| - 1];
      if c != '\n' {
        var last := init[|init| - 1] + [c];
        assert '\n' !in init[|init| - 1];
        assert '\n' !in last;
      }
    }
  }

  /** There is one more paragraph than there are newlines. */
  lemma {:induction false} SplitCount(s: string)
    ensures |Split(s)| == NewlineCount(s) + 1
  {
    if s != [] {
      var t := s[..|s| - 1];
      SplitCount(t);
      assert s == t + [s[|s| - 1]];
      assert multiset(s) == multiset(t) + multiset{s[|s| - 1]};
    }
  }

  /** Text without newlines continues the last piece. */
  lemma {:induction false} SplitAppendLine(x: string, p: string)
    requires '\n' !in p
    ensures var init := Split(x);
            Split(x + p) == init[..|init| - 1] + [init[|init| - 1] + p]
  {
    var init := Split(x);
    if p == [] {
      assert x + p == x;
      assert init[|init| - 1] + p == init[|init| - 1];
      assert init[..|init| - 1] + [init[|init| - 1]] == init;
    } else {
      var q := p[..|p| - 1];
      var c := p[|p| - 1];
      assert p == q + [c];
      assert (x + p)[..|x + p| - 1] == x + q;
      assert c != '\n' && '\n' !in q by {
        assert c in p;
        assert forall d :: d in q ==> d in p;
      }
      SplitAppendLine(x, q);
      var mid := Split(x + q);
      assert mid[..|mid| - 1] == init[..|init| - 1];
      assert (init[|init| - 1] + q) + [c] == init[|init| - 1] + p;
    }
  }

  /** A newline followed by newline-free text adds that text as one more
      piece. */
  lemma SplitNewLine(x: string, p: string)
    requires '\n' !in p
    ensures Split(x + "\n" + p) == Split(x) + [p]
  {
    var y := x + "\n";
    assert Split(y) == Split(x) + [[]] by {
      assert y[..|x|] == x;
    }
    SplitAppendLine(y, p);
    assert (Split(x) + [[]])[..|Split(x)|] == Split(x);
    assert [] + p == p;
  }

  /** Splitting is the only way to cut the text into newline-free pieces:
      splitting the joined pieces gives back the pieces. */
  lemma {:induction false} SplitJoin(pieces: seq<string>)
    requires |pieces| >= 1 && NoNewlines(pieces)
    ensures Split(Join(pieces)) == pieces
  {
    var n := |pieces|;
    if n == 1 {
      assert '\n' !in pieces[0];
      SplitAppendLine([], pieces[0]);
      assert [] + pieces[0] == pieces[0];
    } else {
      var init := pieces[..n - 1];
      var last := pieces[n - 1];
      assert pieces == init + [last];
      assert NoNewlines(init) && '\n' !in last;
      SplitJoin(init);
      SplitNewLine(Join(init), last);
    }
  }

  /** The loop of `to_word` that adds each line of the page text to the new
      document as a paragraph, in order. */
  method CopyPageText(text: string) returns (paragraphs: seq<string>)
    ensures paragraphs == Split(text)
    ensures Join(paragraphs) == text
    ensures NoNewlines(paragraphs)
    ensures |paragraphs| == NewlineCount(text) + 1
  {
    var lines := Split(text);
    paragraphs := [];
    for i := 0 to |lines|
      invariant paragraphs == lines[..i]
    {
      paragraphs := paragraphs + [lines[i]];
    }
    JoinSplit(text);
    SplitHasNoNewlines(text);
    SplitCount(text);
  }
}
