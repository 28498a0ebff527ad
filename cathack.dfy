/**
 * The program's entry point: the start-up checks and the keystroke-driven playback
 * loop. Every keystroke other than EOT (byte 4) or end of input copies the next
 * chunk of at most `factor` bytes of the current file to standard output; the
 * keystroke that finds a file exhausted is pushed back and replayed on the next file.
 */
module Cathack {
  import opened Wrappers
  import opened Stdio
  import opened Diagnostics

  /** Capacity of the transfer buffer; a chunk may use all of it but one byte. */
  const BufSize: nat := 256

  /** The chunk factor the program is built with. */
  const DefaultFactor: nat := 4

  /** What is written to standard error when the chunk factor exceeds BufSize - 1 == 255. */
  const FactorTooLarge: string := "Type factor cannot be >255\n"

  /** The byte (ASCII EOT, Ctrl-D) that ends playback like end of input does. */
  const Eot: int := 4

  /**
   * What a run depends on besides the keys typed: the argument vector (program name
   * first), the readable files by path, the error text reported when a file cannot
   * be opened, and the chunk factor.
   */
  datatype Invocation = Invocation(
    args: seq<string>,
    fs: map<string, seq<byte>>,
    strerror: string,
    factor: nat)

  /** The loop's state: the index of the current file in args, its open stream, standard input, output so far. */
  datatype Playback = Playback(current: nat, fp: OpenFile, stdin: InputStream, out: seq<byte>)

  /** The loop's state is consistent: `fp` reads the current file, which is one of args[1..]. */
  predicate Running(inv: Invocation, st: Playback) {
    && 1 <= st.current < |inv.args|
    && inv.args[st.current] in inv.fs
    && st.fp.data == inv.fs[inv.args[st.current]]
    && st.fp.Valid()
    && st.stdin.Valid()
  }

  /** One iteration of the playback loop either ends the run or yields the next state. */
  datatype Next = Continue(st: Playback) | Stop(exit: Exit)

  /**
   * One iteration of the loop: read a key; EOT or end of input stops with success;
   * otherwise read a chunk of at most `factor` bytes and write it, or, when nothing
   * was read, push the key back and open the next file (stopping with success after
   * the last one, with failure when it cannot be opened). A state that continues is
   * consistent and has moved on: to a later file, or further into the same one.
   */
  function Step(inv: Invocation, st: Playback): (r: Next)
    requires Running(inv, st)
    ensures r.Continue? ==>
      && Running(inv, r.st)
      && (r.st.current > st.current ||
          (r.st.current == st.current && r.st.fp.data == st.fp.data && r.st.fp.pos > st.fp.pos))
  {
    var (c, stdin) := GetChar(st.stdin);
    if c == EOF || c == Eot then
      Stop(Exit(Success, st.out, ""))
    else
      var (buf, fp) := FRead(st.fp, inv.factor);
      if |buf| == 0 then
        // the file is exhausted: push the keystroke back and move on to the next file
        var stdin' := UngetC(c as byte, stdin);
        var current := st.current + 1;
        if current == |inv.args| then
          Stop(Exit(Success, st.out, ""))
        else
          match FOpen(inv.fs, inv.args[current])
          case None =>
            // fatal(argv[current_file]): the error text is that of the failed open
            Stop(Fail(st.out, Some(inv.args[current]), inv.strerror))
          case Some(next) =>
            Continue(Playback(current, next, stdin', st.out))
      else
        Continue(Playback(st.current, fp, stdin, st.out + buf))  // fwrite
  }

  /** The playback loop from state `st` on, one Step at a time until one stops. */
  function Play(inv: Invocation, st: Playback): Exit
    requires Running(inv, st)
    decreases |inv.args| - st.current, |st.fp.data| - st.fp.pos
  {
    match Step(inv, st)
    case Stop(exit) => exit
    case Continue(st') => Play(inv, st')
  }

  /**
   * The whole program. With no file argument it prints the usage line and fails; with
   * a chunk factor above BufSize - 1 it fails with a message; a first file that cannot
   * be opened is fatal; otherwise the playback loop runs from the start of args[1],
   * reading keys from `typed`.
   */
  function Run(inv: Invocation, typed: seq<byte>): Exit
  {
    if |inv.args| <= 1 then
      Exit(Failure, [], Usage)
    else if inv.factor > BufSize - 1 then
      Exit(Failure, [], FactorTooLarge)
    else
      match FOpen(inv.fs, inv.args[1])
      case None => Fail([], Some(inv.args[1]), inv.strerror)
      case Some(fp) => Play(inv, Playback(1, fp, InputStream(typed, 0, None), []))
  }

  /** The program as written: start-up checks, then `while(1)` over keystrokes. */
  method Cathack(inv: Invocation, typed: seq<byte>) returns (r: Exit)
    ensures r == Run(inv, typed)
  {
    var args := inv.args;
    if |args| <= 1 {
      return Exit(Failure, [], Usage);
    }
    if inv.factor > BufSize - 1 {
      return Exit(Failure, [], FactorTooLarge);
    }
    var currentFile: nat := 1;
    var handle := FOpen(inv.fs, args[currentFile]);
    if handle.None? {
      return Fail([], Some(args[currentFile]), inv.strerror);
    }
    var fp := handle.value;
    var stdin := InputStream(typed, 0, None);
    var out: seq<byte> := [];
    while true
      invariant Running(inv, Playback(currentFile, fp, stdin, out))
      invariant Play(inv, Playback(currentFile, fp, stdin, out)) == Run(inv, typed)
      decreases |args| - currentFile, |fp.data| - fp.pos
    {
      ghost var st := Playback(currentFile, fp, stdin, out);
      var got := GetChar(stdin);
      var c := got.0;
      stdin := got.1;
      if c == EOF || c == Eot {
        r := Exit(Success, out, "");
        assert Step(inv, st) == Stop(r);
        break;
      }
      var read := FRead(fp, inv.factor);
      var buf := read.0;
      var nread := |buf|;
      if nread == 0 {
        stdin := UngetC(c as byte, stdin);
        // fclose(fp): the stream is dropped
        currentFile := currentFile + 1;
        if currentFile == |args| {
          r := Exit(Success, out, "");
          assert Step(inv, st) == Stop(r);
          break;
        }
        handle := FOpen(inv.fs, args[currentFile]);
        if handle.None? {
          r := Fail(out, Some(args[currentFile]), inv.strerror);
          assert Step(inv, st) == Stop(r);
          return;
        }
        fp := handle.value;
        assert Step(inv, st) == Continue(Playback(currentFile, fp, stdin, out));
        continue;
      }
      fp := read.1;
      out := out + buf;  // fwrite(buf, 1, nread, stdout)
      assert Step(inv, st) == Continue(Playback(currentFile, fp, stdin, out));
    }
  }
}
