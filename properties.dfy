/**
 * What the program promises, stated about the playback loop and the whole run:
 * the start-up checks, one chunk per keystroke, the two terminators, the pushed-back
 * keystroke at a file boundary, the end after the last file, and how many keystrokes
 * play a file.
 */
module CathackProperties {
  import opened Wrappers
  import opened Stdio
  import opened Diagnostics
  import opened Cathack

  // ---- The order in which file bytes reach standard output ----

  /** The concatenated bytes of paths[i..], up to the first path that cannot be opened. */
  function Stream(fs: map<string, seq<byte>>, paths: seq<string>, i: nat): seq<byte>
    decreases |paths| - i
  {
    if i >= |paths| || paths[i] !in fs then [] else fs[paths[i]] + Stream(fs, paths, i + 1)
  }

  /** The index of the first of paths[i..] that cannot be opened, or |paths| if all can. */
  function FirstMissing(fs: map<string, seq<byte>>, paths: seq<string>, i: nat): (k: nat)
    requires i <= |paths|
    ensures i <= k <= |paths|
    ensures k < |paths| ==> paths[k] !in fs
    decreases |paths| - i
  {
    if i == |paths| then |paths| else if paths[i] !in fs then i else FirstMissing(fs, paths, i + 1)
  }

  /** The bytes playback can still write: the rest of the current file, then the files after it. */
  function Rest(inv: Invocation, st: Playback): seq<byte>
    requires Running(inv, st)
  {
    st.fp.Remaining() + Stream(inv.fs, inv.args, st.current + 1)
  }

  /** Moving from an exhausted file to the next one leaves the bytes still to play unchanged. */
  lemma NextFileRest(inv: Invocation, st: Playback, st': Playback)
    requires Running(inv, st) && Running(inv, st')
    requires st'.current == st.current + 1 && st'.fp.pos == 0
    requires Min(inv.factor, |st.fp.Remaining()|) == 0
    ensures inv.factor > 0 ==> Rest(inv, st) == Rest(inv, st')
  {
    assert Stream(inv.fs, inv.args, st'.current) == inv.fs[inv.args[st'.current]] + Stream(inv.fs, inv.args, st'.current + 1);
  }

  /** Writing a chunk moves its bytes from what is still to play to what was written. */
  lemma ChunkRest(inv: Invocation, st: Playback, buf: seq<byte>, st': Playback)
    requires Running(inv, st) && Running(inv, st')
    requires st'.current == st.current && st'.out == st.out + buf
    requires buf + st'.fp.Remaining() == st.fp.Remaining()
    ensures st'.out + Rest(inv, st') == st.out + Rest(inv, st)
  {
  }

  /**
   * One iteration keeps the output in file order: a continuing state has written a
   * prefix-extension of what was written, taken from the front of what was left to
   * play (for a positive factor, exactly so; for factor 0, nothing), and still fails
   * on the same first unopenable file; a stop writes nothing more, and a failing stop
   * names the next file, which cannot be opened, once everything before it was written.
   */
  lemma StepKeepsOrder(inv: Invocation, st: Playback)
    requires Running(inv, st)
    ensures var r := Step(inv, st);
      r.Continue? ==>
        && FirstMissing(inv.fs, inv.args, r.st.current + 1) == FirstMissing(inv.fs, inv.args, st.current + 1)
        && st.out <= r.st.out
        && (inv.factor == 0 ==> r.st.out == st.out)
        && (inv.factor > 0 ==> r.st.out + Rest(inv, r.st) == st.out + Rest(inv, st))
    ensures var r := Step(inv, st);
      r.Stop? ==>
        && r.exit.stdout == st.out
        && (r.exit.status == Success <==> r.exit.stderr == "")
        && (r.exit.status == Failure ==>
              && st.current + 1 < |inv.args|
              && FirstMissing(inv.fs, inv.args, st.current + 1) == st.current + 1
              && r.exit.stderr == Error(Some(inv.args[st.current + 1]), inv.strerror)
              && (inv.factor > 0 ==> Rest(inv, st) == []))
  {
    var (c, stdin) := GetChar(st.stdin);
    if c != EOF && c != Eot {
      var (buf, fp) := FRead(st.fp, inv.factor);
      if |buf| == 0 {
        var current := st.current + 1;
        if current < |inv.args| && inv.args[current] in inv.fs {
          NextFileRest(inv, st, Playback(current, FOpen(inv.fs, inv.args[current]).value, UngetC(c as byte, stdin), st.out));
        }
      } else {
        ChunkRest(inv, st, buf, Playback(st.current, fp, stdin, st.out + buf));
      }
    }
  }

  /**
   * The playback loop writes the files' bytes in order: the output only grows, and
   * what it gains is a prefix of what was left to play. The run fails only when a
   * later file cannot be opened, the first such, and then (for a positive factor) all
   * the files before it have been written out in full. A factor of 0 reads nothing,
   * so every file looks exhausted and nothing is written.
   */
  lemma {:induction false} PlayWritesFilesInOrder(inv: Invocation, st: Playback)
    requires Running(inv, st)
    ensures var r := Play(inv, st);
      && st.out <= r.stdout <= st.out + Rest(inv, st)
      && (inv.factor == 0 ==> r.stdout == st.out)
      && (r.status == Success <==> r.stderr == "")
      && (r.status == Failure ==>
            var k := FirstMissing(inv.fs, inv.args, st.current + 1);
            && k < |inv.args|
            && r.stderr == Error(Some(inv.args[k]), inv.strerror)
            && (inv.factor > 0 ==> r.stdout == st.out + Rest(inv, st)))
    decreases |inv.args| - st.current, |st.fp.data| - st.fp.pos
  {
    StepKeepsOrder(inv, st);
    match Step(inv, st)
    case Stop(_) =>
    case Continue(next) =>
      PlayWritesFilesInOrder(inv, next);
  }

  /**
   * Standard output is always a prefix of the bytes of args[1..] in order (up to the
   * first file that cannot be opened); EOT, end of input and the last file all end
   * the run with success and nothing on standard error. A failure after the start-up
   * checks names the first file that could not be opened; for a positive factor,
   * everything before it was written, and a factor of 0 writes nothing at all.
   */
  lemma RunWritesFilesInOrder(inv: Invocation, typed: seq<byte>)
    ensures var r := Run(inv, typed);
      && r.stdout <= Stream(inv.fs, inv.args, 1)
      && (inv.factor == 0 ==> r.stdout == [])
      && (r.status == Success <==> r.stderr == "")
      && (r.status == Failure && 1 < |inv.args| && inv.factor <= BufSize - 1 ==>
            var k := FirstMissing(inv.fs, inv.args, 1);
            && k < |inv.args|
            && r.stderr == Error(Some(inv.args[k]), inv.strerror)
            && (inv.factor > 0 ==> r.stdout == Stream(inv.fs, inv.args, 1)))
  {
    if |inv.args| > 1 && inv.factor <= BufSize - 1 && inv.args[1] in inv.fs {
      var st := Playback(1, FOpen(inv.fs, inv.args[1]).value, InputStream(typed, 0, None), []);
      PlayWritesFilesInOrder(inv, st);
      assert Rest(inv, st) == Stream(inv.fs, inv.args, 1);
    }
  }

  // ---- Start-up checks, keystrokes and file boundaries ----

  /** With no file argument the usage line goes to standard error and the run fails, whatever the files are. */
  lemma NoFileArgumentsIsUsageError(inv: Invocation, typed: seq<byte>)
    requires |inv.args| <= 1
    ensures Run(inv, typed) == Exit(Failure, [], Usage)
    ensures Run(inv, typed) == Run(inv.(fs := map[]), typed)
  {
  }

  /** A chunk factor above BufSize - 1 fails before any file is opened: no file matters to the result. */
  lemma FactorAboveBufferRejected(inv: Invocation, typed: seq<byte>)
    requires |inv.args| > 1 && inv.factor > BufSize - 1
    ensures Run(inv, typed) == Exit(Failure, [], FactorTooLarge)
    ensures Run(inv, typed) == Run(inv.(fs := map[]), typed)
  {
  }

  /** A first file that cannot be opened is fatal, reported with its path as prefix, before anything is read. */
  lemma FirstFileUnopenable(inv: Invocation, typed: seq<byte>)
    requires |inv.args| > 1 && inv.factor <= BufSize - 1 && inv.args[1] !in inv.fs
    ensures Run(inv, typed) == Exit(Failure, [], Error(Some(inv.args[1]), inv.strerror))
  {
  }

  /**
   * A later file that cannot be opened is fatal too: the key that finds the current
   * file exhausted moves on to it, and the run fails with its path as prefix, keeping
   * what was written so far.
   */
  lemma LaterFileUnopenable(inv: Invocation, st: Playback)
    requires Running(inv, st) && Min(inv.factor, |st.fp.Remaining()|) == 0
    requires NextKey(st) != EOF && NextKey(st) != Eot
    requires st.current + 1 < |inv.args| && inv.args[st.current + 1] !in inv.fs
    ensures Play(inv, st) == Fail(st.out, Some(inv.args[st.current + 1]), inv.strerror)
  {
  }

  /** The key `getchar` delivers next in state `st` (EOF when there is none). */
  function NextKey(st: Playback): int
    requires st.stdin.Valid()
  {
    GetChar(st.stdin).0
  }

  /**
   * A keystroke other than EOT, with r > 0 bytes of the current file left, writes the
   * next min(factor, r) bytes of that file unchanged and advances the read position
   * by as many; playback then goes on with the next key.
   */
  lemma ChunkPerKeystroke(inv: Invocation, st: Playback)
    requires Running(inv, st) && inv.factor > 0
    requires NextKey(st) != EOF && NextKey(st) != Eot
    requires |st.fp.Remaining()| > 0
    ensures var n := Min(inv.factor, |st.fp.Remaining()|);
      && 0 < n <= inv.factor
      && Running(inv, st.(fp := st.fp.(pos := st.fp.pos + n)))
      && Step(inv, st) == Continue(Playback(
           st.current,
           st.fp.(pos := st.fp.pos + n),
           GetChar(st.stdin).1,
           st.out + st.fp.data[st.fp.pos..st.fp.pos + n]))
  {
  }

  /** EOT or end of input ends playback at once with success, writing nothing more, even mid-file. */
  lemma TerminatorEndsPlayback(inv: Invocation, st: Playback)
    requires Running(inv, st)
    requires NextKey(st) == EOF || NextKey(st) == Eot
    ensures Step(inv, st) == Stop(Exit(Success, st.out, ""))
    ensures Play(inv, st) == Exit(Success, st.out, "")
  {
  }

  /** Playback is the same when the typed bytes stop just before an EOT at k: nothing after it is read. */
  lemma {:induction false} PlayStopsAtEot(inv: Invocation, st: Playback, k: nat)
    requires Running(inv, st)
    requires st.stdin.next <= k < |st.stdin.typed| && st.stdin.typed[k] as int == Eot
    ensures Play(inv, st) == Play(inv, st.(stdin := st.stdin.(typed := st.stdin.typed[..k])))
    decreases |inv.args| - st.current, |st.fp.data| - st.fp.pos
  {
    var cut := st.(stdin := st.stdin.(typed := st.stdin.typed[..k]));
    if st.stdin.pushback.Some? || st.stdin.next < k {
      var (c, stdin) := GetChar(st.stdin);
      assert GetChar(cut.stdin) == (c, stdin.(typed := st.stdin.typed[..k]));
      match Step(inv, st)
      case Stop(_) =>
      case Continue(next) =>
        assert Step(inv, cut) == Continue(next.(stdin := next.stdin.(typed := st.stdin.typed[..k])));
        PlayStopsAtEot(inv, next, k);
    }
  }

  /** An EOT typed at position k ends the run exactly as end of input at k would. */
  lemma EotEndsRun(inv: Invocation, typed: seq<byte>, k: nat)
    requires k < |typed| && typed[k] as int == Eot
    ensures Run(inv, typed) == Run(inv, typed[..k])
  {
    if |inv.args| > 1 && inv.factor <= BufSize - 1 && inv.args[1] in inv.fs {
      var st := Playback(1, FOpen(inv.fs, inv.args[1]).value, InputStream(typed, 0, None), []);
      PlayStopsAtEot(inv, st, k);
    }
  }

  /**
   * The keystroke that finds the current file exhausted is pushed back and replays on
   * the next file; passing any run of empty files consumes no keystroke and writes
   * nothing. Playback goes on at the start of file j with that same key pending.
   */
  lemma {:induction false} ExhaustedFilesConsumeNoKeystroke(inv: Invocation, st: Playback, j: nat)
    requires Running(inv, st)
    requires st.fp.Remaining() == []
    requires NextKey(st) != EOF && NextKey(st) != Eot
    requires st.current < j < |inv.args|
    requires forall i | st.current < i <= j :: inv.args[i] in inv.fs
    requires forall i | st.current < i < j :: inv.fs[inv.args[i]] == []
    ensures var (c, stdin) := GetChar(st.stdin);
      && UngetC(c as byte, stdin).Pending() == st.stdin.Pending()
      && Play(inv, st) == Play(inv, Playback(j, OpenFile(inv.fs[inv.args[j]], 0), UngetC(c as byte, stdin), st.out))
    decreases j
  {
    var (c, stdin) := GetChar(st.stdin);
    var pending := UngetC(c as byte, stdin);
    if j > st.current + 1 {
      ExhaustedFilesConsumeNoKeystroke(inv, st, j - 1);
      var before := Playback(j - 1, OpenFile(inv.fs[inv.args[j - 1]], 0), pending, st.out);
      UngetThenGet(c as byte, stdin);
      assert Play(inv, before) == Play(inv, Playback(j, OpenFile(inv.fs[inv.args[j]], 0), pending, st.out));
    }
  }

  /**
   * There is no wrap-around: once the current file and every file after it are
   * exhausted, the next keystroke other than EOT ends the run with success and
   * writes nothing.
   */
  lemma {:induction false} NoWrapAround(inv: Invocation, st: Playback)
    requires Running(inv, st)
    requires st.fp.Remaining() == []
    requires NextKey(st) != EOF && NextKey(st) != Eot
    requires forall i | st.current < i < |inv.args| :: inv.args[i] in inv.fs && inv.fs[inv.args[i]] == []
    ensures Play(inv, st) == Exit(Success, st.out, "")
    decreases |inv.args| - st.current
  {
    var (c, stdin) := GetChar(st.stdin);
    var current := st.current + 1;
    if current < |inv.args| {
      var next := Playback(current, OpenFile(inv.fs[inv.args[current]], 0), UngetC(c as byte, stdin), st.out);
      UngetThenGet(c as byte, stdin);
      NoWrapAround(inv, next);
    }
  }

  /**
   * Where the read position of a file of `len` bytes ends after m keystrokes from
   * `pos`, each reading min(f, what is left).
   */
  function Reach(len: nat, pos: nat, m: nat, f: nat): (r: nat)
    requires pos <= len
    ensures pos <= r <= len
    decreases m
  {
    if m == 0 then pos else Reach(len, pos + Min(f, len - pos), m - 1, f)
  }

  /** m keystrokes of f bytes each reach min(len, pos + m * f). */
  lemma {:induction false} ReachIsMin(len: nat, pos: nat, m: nat, f: nat)
    requires pos <= len
    ensures Reach(len, pos, m, f) == Min(len, pos + m * f)
    decreases m
  {
    if m > 0 {
      var n := Min(f, len - pos);
      ReachIsMin(len, pos + n, m - 1, f);
      assert m * f == (m - 1) * f + f;
    }
  }

  /** The state of a single-file run after `pos` bytes were written and k keys read. */
  function SingleFileState(data: seq<byte>, pos: nat, typed: seq<byte>, k: nat): Playback
    requires pos <= |data|
  {
    Playback(1, OpenFile(data, pos), InputStream(typed, k, None), data[..pos])
  }

  /**
   * With a single file and the keys typed[k..] left, none of them EOT, playback after
   * `pos` bytes ends with success having written the file up to Reach(...): one chunk
   * per keystroke, and nothing for the keystroke that finds the file exhausted.
   */
  lemma {:induction false} SingleFileChunks(inv: Invocation, data: seq<byte>, pos: nat, typed: seq<byte>, k: nat)
    requires |inv.args| == 2 && inv.args[1] in inv.fs && inv.fs[inv.args[1]] == data && inv.factor > 0
    requires pos <= |data| && k <= |typed|
    requires forall i | k <= i < |typed| :: typed[i] as int != Eot
    ensures Play(inv, SingleFileState(data, pos, typed, k)) == Exit(Success, data[..Reach(|data|, pos, |typed| - k, inv.factor)], "")
    decreases |typed| - k
  {
    var m, f := |typed| - k, inv.factor;
    if m == 0 || pos == |data| {
      SingleFileEnds(inv, data, pos, typed, k);
      if m > 0 {
        ReachEnd(|data|, m, f);
      }
    } else {
      var n := Min(f, |data| - pos);
      var reached := Reach(|data|, pos + n, |typed| - (k + 1), f);
      assert Reach(|data|, pos, |typed| - k, f) == reached;
      SingleFileChunk(inv, data, pos, typed, k);
      SingleFileChunks(inv, data, pos + n, typed, k + 1);
      assert Play(inv, SingleFileState(data, pos + n, typed, k + 1)) == Exit(Success, data[..reached], "");
    }
  }

  /** In a single-file run, end of input, or a key other than EOT once the file is exhausted, ends the run. */
  lemma SingleFileEnds(inv: Invocation, data: seq<byte>, pos: nat, typed: seq<byte>, k: nat)
    requires |inv.args| == 2 && inv.args[1] in inv.fs && inv.fs[inv.args[1]] == data
    requires pos <= |data| && k <= |typed|
    requires k == |typed| || (pos == |data| && typed[k] as int != Eot)
    ensures Play(inv, SingleFileState(data, pos, typed, k)) == Exit(Success, data[..pos], "")
  {
    var st := SingleFileState(data, pos, typed, k);
    if k == |typed| {
      TerminatorEndsPlayback(inv, st);
    } else {
      assert NextKey(st) == typed[k] as int;
      NoWrapAround(inv, st);
    }
  }

  /** In a single-file run, a key other than EOT in the middle of the file writes the next chunk. */
  lemma SingleFileChunk(inv: Invocation, data: seq<byte>, pos: nat, typed: seq<byte>, k: nat)
    requires |inv.args| == 2 && inv.args[1] in inv.fs && inv.fs[inv.args[1]] == data && inv.factor > 0
    requires pos < |data| && k < |typed| && typed[k] as int != Eot
    ensures var n := Min(inv.factor, |data| - pos);
      Play(inv, SingleFileState(data, pos, typed, k)) == Play(inv, SingleFileState(data, pos + n, typed, k + 1))
  {
    var n := Min(inv.factor, |data| - pos);
    assert data[..pos] + data[pos..pos + n] == data[..pos + n];
    assert Step(inv, SingleFileState(data, pos, typed, k)) == Continue(SingleFileState(data, pos + n, typed, k + 1));
  }

  /** Once the end is reached, further keystrokes stay there. */
  lemma {:induction false} ReachEnd(len: nat, m: nat, f: nat)
    ensures Reach(len, len, m, f) == len
  {
    if m > 0 {
      ReachEnd(len, m - 1, f);
    }
  }

  /**
   * With one file and m keystrokes, none of them EOT, the run writes the first
   * min(length, m * factor) bytes of the file; it writes the whole file exactly when
   * m * factor reaches its length, that is when m is at least ceil(length / factor).
   */
  lemma KeystrokesToPlayFile(inv: Invocation, typed: seq<byte>)
    requires |inv.args| == 2 && inv.args[1] in inv.fs && 0 < inv.factor <= BufSize - 1
    requires forall i | 0 <= i < |typed| :: typed[i] as int != Eot
    ensures var data := inv.fs[inv.args[1]];
      Run(inv, typed) == Exit(Success, data[..Min(|data|, |typed| * inv.factor)], "")
    ensures Run(inv, typed).stdout == inv.fs[inv.args[1]] <==> |typed| * inv.factor >= |inv.fs[inv.args[1]]|
  {
    var data := inv.fs[inv.args[1]];
    SingleFileChunks(inv, data, 0, typed, 0);
    ReachIsMin(|data|, 0, |typed|, inv.factor);
    assert data[..|data|] == data;
  }

  /**
   * The program as built passes the factor check, and each key other than EOT plays
   * DefaultFactor more bytes of a single file.
   */
  lemma DefaultFactorPlaysFile(inv: Invocation, typed: seq<byte>)
    requires |inv.args| == 2 && inv.args[1] in inv.fs && inv.factor == DefaultFactor
    requires forall i | 0 <= i < |typed| :: typed[i] as int != Eot
    ensures DefaultFactor <= BufSize - 1
    ensures var data := inv.fs[inv.args[1]];
      Run(inv, typed) == Exit(Success, data[..Min(|data|, 4 * |typed|)], "")
  {
    KeystrokesToPlayFile(inv, typed);
  }
}
