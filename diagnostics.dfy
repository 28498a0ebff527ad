/**
 * How the program ends: an exit status, the bytes written to standard output and the
 * text written to standard error, and the shape of its one-line diagnostics.
 */
module Diagnostics {
  import opened Wrappers
  import opened Stdio

  const ProgramName: string := "cathack"

  /** The usage line written to standard error when no file is named. */
  const Usage: string := ProgramName + " [options] file1 [file2...]\n"

  datatype Status = Success | Failure

  /** The observable result of one run of the program. */
  datatype Exit = Exit(status: Status, stdout: seq<byte>, stderr: string)

  /** `error(prefix, msg)`: the diagnostic line written to standard error. */
  function Error(prefix: Option<string>, msg: string): string {
    ProgramName + ": " + (if prefix.Some? then prefix.value + ": " else "") + msg + "\n"
  }

  /**
   * `fail(prefix, msg)`: the diagnostic goes to standard error and the run ends in
   * failure, keeping what was already written to standard output.
   */
  function Fail(out: seq<byte>, prefix: Option<string>, msg: string): Exit {
    Exit(Failure, out, Error(prefix, msg))
  }

  /**
   * The layout of a diagnostic: the program name, then the prefix when there is one,
   * each followed by ": ", then the message and a newline, and nothing else.
   */
  lemma ErrorLayout(prefix: Option<string>, msg: string)
    ensures var e := Error(prefix, msg);
      && |e| == |ProgramName| + 2 + (if prefix.Some? then |prefix.value| + 2 else 0) + |msg| + 1
      && e[..|ProgramName| + 2] == ProgramName + ": "
      && (prefix.Some? ==> e[|ProgramName| + 2..|ProgramName| + 4 + |prefix.value|] == prefix.value + ": ")
      && e[|e| - 1 - |msg|..] == msg + "\n"
  {
  }

  /** Under one prefix, different messages give different diagnostics. */
  lemma ErrorDeterminesMessage(prefix: Option<string>, m1: string, m2: string)
    requires Error(prefix, m1) == Error(prefix, m2)
    ensures m1 == m2
  {
    var e := Error(prefix, m1);
    ErrorLayout(prefix, m1);
    ErrorLayout(prefix, m2);
    assert |m1| == |m2|;
    assert m1 + "\n" == e[|e| - 1 - |m1|..] == m2 + "\n";
    assert m1 == (m1 + "\n")[..|m1|];
  }

  /** With one message, whether a prefix was given, and which, can be read off the diagnostic. */
  lemma ErrorDeterminesPrefix(p1: Option<string>, p2: Option<string>, msg: string)
    requires Error(p1, msg) == Error(p2, msg)
    ensures p1 == p2
  {
    var e := Error(p1, msg);
    var k := |ProgramName| + 2;
    ErrorLayout(p1, msg);
    ErrorLayout(p2, msg);
    if p1.Some? && p2.Some? {
      assert |p1.value| == |p2.value|;
      assert p1.value + ": " == e[k..k + 2 + |p1.value|] == p2.value + ": ";
      assert p1.value == (p1.value + ": ")[..|p1.value|];
    }
  }

  /** A diagnostic is one line: when neither part holds a newline, its only newline ends it. */
  lemma ErrorIsOneLine(prefix: Option<string>, msg: string)
    requires '\n' !in msg && (prefix.Some? ==> '\n' !in prefix.value)
    ensures var e := Error(prefix, msg); e[|e| - 1] == '\n' && '\n' !in e[..|e| - 1]
  {
    var e := Error(prefix, msg);
    var head := ProgramName + ": " + (if prefix.Some? then prefix.value + ": " else "");
    assert e == head + msg + "\n";
    assert e[..|e| - 1] == head + msg;
  }
}
