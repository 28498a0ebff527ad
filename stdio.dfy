/**
 * The few C standard I/O calls the playback loop uses, as pure operations on values:
 * standard input is the sequence of bytes the user types plus a one-byte pushback
 * slot, and an open file is its contents plus a read position.
 */
module Stdio {
  import opened Wrappers

  newtype byte = x: int | 0 <= x < 256

  /** The value `getchar` returns at end of input. */
  const EOF: int := -1

  function Min(a: nat, b: nat): (r: nat)
    ensures r <= a && r <= b && (r == a || r == b)
  {
    if a <= b then a else b
  }

  /** Standard input: the typed bytes, how many were consumed, and what `ungetc` pushed back. */
  datatype InputStream = InputStream(typed: seq<byte>, next: nat, pushback: Option<byte>) {

    predicate Valid() {
      next <= |typed|
    }

    /** The bytes `getchar` will still deliver, in order, the pushed-back one first. */
    function Pending(): seq<byte>
      requires Valid()
    {
      (if pushback.Some? then [pushback.value] else []) + typed[next..]
    }
  }

  /** `getchar`: the pushed-back byte if there is one, else the next typed byte, else EOF. */
  function GetChar(s: InputStream): (r: (int, InputStream))
    requires s.Valid()
    ensures r.1.Valid() && r.1.typed == s.typed && r.1.pushback.None?
    ensures r.0 == EOF || 0 <= r.0 < 256
  {
    match s.pushback
    case Some(b) => (b as int, s.(pushback := None))
    case None =>
      if s.next < |s.typed| then (s.typed[s.next] as int, s.(next := s.next + 1))
      else (EOF, s)
  }

  /**
   * `getchar` delivers the pending bytes in order: EOF exactly when none is left (and
   * then nothing changes), otherwise the first of them, which is then no longer pending.
   */
  lemma GetCharTakesFirst(s: InputStream)
    requires s.Valid()
    ensures var (c, s') := GetChar(s);
      && (c == EOF <==> s.Pending() == [])
      && (c == EOF ==> s' == s)
      && (c != EOF ==> s.Pending() == [c as byte] + s'.Pending())
  {
    if s.pushback.None? && s.next < |s.typed| {
      assert s.typed[s.next..] == [s.typed[s.next]] + s.typed[s.next + 1..];
    }
  }

  /** `ungetc`: one byte of pushback, which the next `getchar` delivers first. */
  function UngetC(c: byte, s: InputStream): (r: InputStream)
    requires s.Valid() && s.pushback.None?
    ensures r.Valid() && r.typed == s.typed
  {
    s.(pushback := Some(c))
  }

  /** `ungetc` puts its byte in front of the pending ones. */
  lemma UngetCPrepends(c: byte, s: InputStream)
    requires s.Valid() && s.pushback.None?
    ensures UngetC(c, s).Pending() == [c] + s.Pending()
  {
  }

  /** A file opened for reading: its bytes and the read position. */
  datatype OpenFile = OpenFile(data: seq<byte>, pos: nat) {

    predicate Valid() {
      pos <= |data|
    }

    /** The bytes a sequence of reads will still return. */
    function Remaining(): seq<byte>
      requires Valid()
    {
      data[pos..]
    }
  }

  /** `fopen(path, "r")`: succeeds exactly for the readable paths, at the start of the file. */
  function FOpen(fs: map<string, seq<byte>>, path: string): (r: Option<OpenFile>)
    ensures r.Some? <==> path in fs
    ensures r.Some? ==> r.value.Valid() && r.value.data == fs[path] && r.value.pos == 0
  {
    if path in fs then Some(OpenFile(fs[path], 0)) else None
  }

  /**
   * `fread(buf, 1, count, fp)`: the next `count` bytes, or all that are left if fewer.
   * The bytes read followed by what is left afterwards are exactly what was left before.
   */
  function FRead(f: OpenFile, count: nat): (r: (seq<byte>, OpenFile))
    requires f.Valid()
    ensures r.1.Valid() && r.1.data == f.data
    ensures |r.0| == Min(count, |f.data| - f.pos) && r.1.pos == f.pos + |r.0|
  {
    var n := Min(count, |f.data| - f.pos);
    (f.data[f.pos..f.pos + n], f.(pos := f.pos + n))
  }

  /** The bytes `fread` returns, followed by what is left afterwards, are exactly what was left before. */
  lemma FReadKeepsOrder(f: OpenFile, count: nat)
    requires f.Valid()
    ensures var (buf, f') := FRead(f, count); buf + f'.Remaining() == f.Remaining()
  {
    var n := Min(count, |f.data| - f.pos);
    assert f.data[f.pos..] == f.data[f.pos..f.pos + n] + f.data[f.pos + n..];
  }

  /** A byte pushed back with `ungetc` is the next one `getchar` returns, and nothing else changes. */
  lemma UngetThenGet(c: byte, s: InputStream)
    requires s.Valid() && s.pushback.None?
    ensures GetChar(UngetC(c, s)) == (c as int, s)
  {
  }
}
