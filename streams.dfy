/** The two sides of a FILE*: an input stream is its contents and a read
    position, an output stream the characters written to it so far. */
module Streams {

  import opened CText

  /** VEC_MAXIMUM_LINE_LENGTH, the size of every line buffer handed to fgets. */
  const MAXIMUM_LINE_LENGTH: nat := 1024

  class Reader {
    const data: string
    var pos: nat

    ghost predicate Valid()
      reads this
    {
      pos <= |data|
    }

    /** What is still to be read. */
    function Rest(): string
      reads this
      requires Valid()
    {
      data[pos..]
    }

    constructor (data: string)
      ensures Valid() && this.data == data && pos == 0 && Rest() == data
    {
      this.data := data;
      pos := 0;
    }
  }

  class Writer {
    var out: string

    constructor ()
      ensures out == ""
    {
      out := "";
    }

    /** fputs / fprintf / fputc / fwrite: append to the stream. */
    method Put(s: string)
      modifies this
      ensures out == old(out) + s
    {
      out := out + s;
    }
  }

  /** The characters fgets(buff, max + 1, f) stores: up to `max` characters,
      stopping after the first newline. */
  function FgetsChunk(s: string, max: nat): (r: string)
    ensures |r| <= max && |r| <= |s|
    ensures s != [] && max > 0 ==> |r| > 0
  {
    var k := IndexOf(s, '\n');
    var n := if k < |s| then k + 1 else |s|;
    s[..if n < max then n else max]
  }

  /** The chunk is a prefix of the input that holds a newline only as its last
      character, and it stops short of `max` characters only at a newline or
      at the end of the input. */
  lemma FgetsChunkSpec(s: string, max: nat)
    ensures var r := FgetsChunk(s, max);
      && r == s[..|r|]
      && ('\n' in r ==> r[|r| - 1] == '\n' && '\n' !in r[..|r| - 1])
      && (|r| < max && |r| < |s| ==> |r| > 0 && r[|r| - 1] == '\n')
  {
    var r := FgetsChunk(s, max);
    var k := IndexOf(s, '\n');
    if '\n' in r {
      var j :| 0 <= j < |r| && r[j] == '\n';
      assert s[j] == '\n';
      assert r[..|r| - 1] == s[..k];
    }
  }

  /** A line shorter than the buffer is read whole, through its newline. */
  lemma FgetsWholeLine(line: string, rest: string, max: nat)
    requires '\n' !in line && |line| < max
    ensures FgetsChunk(line + "\n" + rest, max) == line + "\n"
  {
    var s := line + "\n" + rest;
    assert s[..|line|] == line;
    assert s[|line|] == '\n';
    assert IndexOf(s, '\n') == |line| by {
      IndexOfFirst(s, '\n', |line|);
    }
    assert s[..|line| + 1] == line + "\n";
  }

  /** fgets(buff, size, f), one fgetc at a time. */
  method Fgets(r: Reader, size: nat) returns (chunk: string)
    requires r.Valid() && size >= 2
    modifies r
    ensures r.Valid()
    ensures chunk == FgetsChunk(old(r.Rest()), size - 1)
    ensures r.Rest() == old(r.Rest())[|chunk|..]
  {
    var s := r.Rest();
    var i := 0;
    var done := false;
    while !done && i < size - 1 && i < |s|
      invariant i <= size - 1 && i <= |s| && r.pos + |s| == |r.data|
      invariant !done ==> '\n' !in s[..i]
      invariant done ==> 0 < i && s[i - 1] == '\n' && '\n' !in s[..i - 1]
      decreases |s| - i, if done then 0 else 1
    {
      assert s[..i + 1] == s[..i] + [s[i]];
      done := s[i] == '\n';
      i := i + 1;
    }
    if done {
      IndexOfFirst(s, '\n', i - 1);
    }
    chunk := s[..i];
    r.pos := r.pos + i;
  }

  /** fread(buff, 1, k, f): up to `k` characters. */
  method Fread(r: Reader, k: nat) returns (bytes: string)
    requires r.Valid()
    modifies r
    ensures r.Valid()
    ensures bytes == old(r.Rest())[..if k < |old(r.Rest())| then k else |old(r.Rest())|]
    ensures r.Rest() == old(r.Rest())[|bytes|..]
  {
    var n := if k < |r.data| - r.pos then k else |r.data| - r.pos;
    bytes := r.data[r.pos..r.pos + n];
    r.pos := r.pos + n;
  }
}
