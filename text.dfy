/** Line structure of source text, used to state how the preamble and a
    snippet are laid out in what the evaluator receives. */
module Text {

  predicate NoNewline(s: string)
  {
    '\n' !in s
  }

  /** Python's `s.split("\n")`: the lines of `s`, without their newlines. */
  function Lines(s: string): (ls: seq<string>)
    ensures |ls| >= 1
    decreases |s|
  {
    if s == [] then [""]
    else if s[0] == '\n' then [""] + Lines(s[1..])
    else
      var rest := Lines(s[1..]);
      [[s[0]] + rest[0]] + rest[1..]
  }

  /** Splitting at a newline splits the lines: the lines of the text before
      it, then the lines of the text after it. */
  lemma {:induction false} LinesAppend(a: string, b: string)
    ensures Lines(a + "\n" + b) == Lines(a) + Lines(b)
    decreases |a|
  {
    if a == [] {
      assert a + "\n" + b == "\n" + b;
      assert ("\n" + b)[1..] == b;
    } else {
      assert (a + "\n" + b)[0] == a[0];
      assert (a + "\n" + b)[1..] == a[1..] + "\n" + b;
      LinesAppend(a[1..], b);
    }
  }

  /** A text without a newline is one line. */
  lemma {:induction false} LinesSingle(a: string)
    requires NoNewline(a)
    ensures Lines(a) == [a]
    decreases |a|
  {
    if a != [] {
      LinesSingle(a[1..]);
      assert [a[0]] + a[1..] == a;
    }
  }

  /** Four single-line texts joined by newlines are four lines. */
  lemma {:induction false} JoinedLines(a: string, b: string, c: string, d: string)
    requires NoNewline(a) && NoNewline(b) && NoNewline(c) && NoNewline(d)
    ensures Lines(a + "\n" + b + "\n" + c + "\n" + d) == [a, b, c, d]
  {
    var ab := a + "\n" + b;
    var abc := ab + "\n" + c;
    LinesSingle(a);
    LinesSingle(b);
    LinesSingle(c);
    LinesSingle(d);
    LinesAppend(a, b);
    LinesAppend(ab, c);
    LinesAppend(abc, d);
  }
}
