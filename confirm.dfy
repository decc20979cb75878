/**
 * The confirmation gate consulted before an existing binding key is
 * overwritten or a binding file is deleted: `Always` approves, `Never`
 * declines, and `Console` prints the question and reads one line from
 * standard input, approving only "y" or "yes" (trimmed, any case).
 */
module Confirm {
  import opened Base

  datatype Confirmer = Console | Always | Never {

    /** The decision and the terminal afterwards, for the question `msg`. */
    function Decide(msg: string, t: Tty): (r: (bool, Tty))
      ensures Always? ==> r == (true, t)
      ensures Never? ==> r == (false, t)
      ensures Console? ==> r.0 == ConsoleAccepts(NextLine(t.input))
      ensures Console? ==> r.1 == Tty(Rest(t.input), t.output + [msg + " (yes or no)"])
    {
      match this
      case Always => (true, t)
      case Never => (false, t)
      case Console =>
        (ConsoleAccepts(NextLine(t.input)), Tty(Rest(t.input), t.output + [msg + " (yes or no)"]))
    }

    /** `BindingConfirmers::confirm`. */
    method Confirm(msg: string, term: Terminal) returns (yes: bool)
      modifies term
      ensures (yes, term.Snapshot()) == Decide(msg, old(term.Snapshot()))
    {
      match this
      case Always => yes := true;
      case Never => yes := false;
      case Console =>
        term.PrintLine(msg + " (yes or no)");
        var line := term.ReadLine();
        yes := ConsoleAccepts(line);
    }
  }

  /**
   * What the console confirmer answers for one `read_line` result: `None`
   * is a failed read; `Some(l)` is the text read, line terminator included.
   */
  function ConsoleAccepts(line: Option<string>): (yes: bool)
    ensures line.None? ==> !yes
  {
    line.Some? && (Lower(Trim(line.value)) == "y" || Lower(Trim(line.value)) == "yes")
  }

  /** "y" or "yes" in any mix of upper and lower case. */
  predicate YesWord(t: string) {
    || (|t| == 1 && t[0] in "yY")
    || (|t| == 3 && t[0] in "yY" && t[1] in "eE" && t[2] in "sS")
  }

  lemma LowerCharIs(c: char, l: char)
    requires 'a' <= l <= 'z'
    ensures LowerChar(c) == l <==> c == l || c as int == l as int - 32
  {
  }

  /** A text lower-cases to "y" or "yes" exactly when it is a case variant of one of them. */
  lemma {:induction false} LowerIsYes(t: string)
    ensures (Lower(t) == "y" || Lower(t) == "yes") <==> YesWord(t)
  {
    var l := Lower(t);
    if |t| == 1 {
      LowerCharIs(t[0], 'y');
      assert l == "y" <==> l[0] == 'y';
    } else if |t| == 3 {
      LowerCharIs(t[0], 'y');
      LowerCharIs(t[1], 'e');
      LowerCharIs(t[2], 's');
      assert l == "yes" <==> l[0] == 'y' && l[1] == 'e' && l[2] == 's';
    } else {
      assert l != "y" && l != "yes";
    }
  }

  /** The console approves exactly the lines whose trimmed text is a case variant of "y" or "yes". */
  lemma ConsoleAcceptsExactly(line: string)
    ensures ConsoleAccepts(Some(line)) <==> YesWord(Trim(line))
  {
    LowerIsYes(Trim(line));
  }

  /** Whitespace around the answer, including the line terminator, does not matter. */
  lemma ConsoleAcceptsPadded(w1: string, answer: string, w2: string)
    requires AllWhitespace(w1) && AllWhitespace(w2)
    requires YesWord(answer)
    ensures ConsoleAccepts(Some(w1 + answer + w2))
  {
    assert Trimmed(answer);
    TrimPadded(w1, answer, w2);
    ConsoleAcceptsExactly(w1 + answer + w2);
  }

  /** What a confirmer decides never depends on the question's text. */
  lemma DecisionIgnoresMessage(c: Confirmer, m1: string, m2: string, t: Tty)
    ensures c.Decide(m1, t).0 == c.Decide(m2, t).0
    ensures c.Decide(m1, t).1.input == c.Decide(m2, t).1.input
  {
  }

  /** The terminal: lines standard input will yield, and lines printed so far. */
  datatype Tty = Tty(input: seq<Option<string>>, output: seq<string>)

  /** The result of the next `read_line`: at end of input it is an empty line. */
  function NextLine(input: seq<Option<string>>): Option<string> {
    if input == [] then Some("") else input[0]
  }

  function Rest(input: seq<Option<string>>): seq<Option<string>> {
    if input == [] then [] else input[1..]
  }

  class Terminal {
    var input: seq<Option<string>>
    var output: seq<string>

    constructor (lines: seq<Option<string>>)
      ensures Snapshot() == Tty(lines, [])
    {
      input := lines;
      output := [];
    }

    function Snapshot(): Tty
      reads this
    {
      Tty(input, output)
    }

    method ReadLine() returns (line: Option<string>)
      modifies this
      ensures line == NextLine(old(input))
      ensures input == Rest(old(input)) && output == old(output)
    {
      line := NextLine(input);
      input := Rest(input);
    }

    method PrintLine(s: string)
      modifies this
      ensures input == old(input) && output == old(output) + [s]
    {
      output := output + [s];
    }
  }
}
