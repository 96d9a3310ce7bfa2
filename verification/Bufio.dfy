/**
 * A growing file read through a fixed-size buffer: the parts of Go's bufio.Reader the tailer uses.
 *
 * `content` is everything the file will ever hold. Each read returns as much as `script` allows; an
 * entry 0 is an end of file met before more bytes were appended. With the script used up, reads take
 * all they can and end of file means the end of `content`.
 */
module Bufio {
  import opened Common

  const NL: Byte := 10
  const CR: Byte := 13

  predicate NoNewline(s: seq<Byte>) {
    forall i :: 0 <= i < |s| ==> s[i] != NL
  }

  /** Ends in its only newline. */
  predicate Terminated(line: seq<Byte>) {
    line != [] && line[|line| - 1] == NL && NoNewline(line[..|line| - 1])
  }

  lemma NoNewlineJoin(x: seq<Byte>, y: seq<Byte>)
    requires NoNewline(x)
    ensures NoNewline(y) ==> NoNewline(x + y)
    ensures Terminated(y) ==> Terminated(x + y)
  {
    if y != [] {
      assert (x + y)[..|x + y| - 1] == x + y[..|y| - 1];
    }
  }

  lemma SplitsOn(before: seq<Byte>, from: seq<Byte>, fragment: seq<Byte>, rest: seq<Byte>)
    requires from == fragment + rest
    ensures before + from == before + fragment + rest
  {
  }

  /** Index of the first newline, or the length if there is none. */
  function FirstNewline(s: seq<Byte>): (i: nat)
    ensures i <= |s| && NoNewline(s[..i]) && (i < |s| ==> s[i] == NL)
  {
    if s == [] || s[0] == NL then 0 else
      var i := FirstNewline(s[1..]);
      assert s[..i + 1] == [s[0]] + s[1..][..i];
      i + 1
  }

  /** How often the script meets end of file early. */
  function Stalls(script: seq<nat>): nat {
    if script == [] then 0 else (if script[0] == 0 then 1 else 0) + Stalls(script[1..])
  }

  class File {
    const content: seq<Byte>
    var pos: nat
    var script: seq<nat>

    constructor (content: seq<Byte>, pos: nat, script: seq<nat>)
      requires pos <= |content|
      ensures this.content == content && this.pos == pos && this.script == script
    {
      this.content, this.pos, this.script := content, pos, script;
    }

    /** An empty chunk is end of file. */
    method Read(max: nat) returns (chunk: seq<Byte>)
      requires max > 0 && pos <= |content|
      modifies this
      ensures old(pos) <= pos <= |content| && chunk == content[old(pos)..pos] && |chunk| <= max
      ensures script == if old(script) == [] then [] else old(script)[1..]
      ensures chunk == [] <==> old(pos) == |content| || (old(script) != [] && old(script)[0] == 0)
    {
      var n := max;
      if script != [] {
        n := if script[0] < max then script[0] else max;
        script := script[1..];
      }
      if n > |content| - pos {
        n := |content| - pos;
      }
      chunk := content[pos..pos + n];
      pos := pos + n;
    }
  }

  datatype End = Found | Full | Eof

  class Reader {
    const file: File
    const size: nat
    var buf: seq<Byte>  // bytes read from the file and not yet handed out

    constructor (file: File, size: nat)
      requires file.pos <= |file.content|
      ensures this.file == file && this.size == (if size < 16 then 16 else size) && buf == []
      ensures Valid()
    {
      this.file := file;
      this.size := if size < 16 then 16 else size;
      buf := [];
    }

    ghost predicate Valid()
      reads this, file
    {
      size >= 16 && |buf| <= size && file.pos <= |file.content|
    }

    /** Everything not yet handed out. */
    ghost function Pending(): seq<Byte>
      requires Valid()
      reads this, file
    {
      buf + file.content[file.pos..]
    }

    /** End of file is only met at the end of the content. */
    ghost predicate Steady()
      reads file
    {
      forall i :: 0 <= i < |file.script| ==> file.script[i] > 0
    }

    method ReadSlice() returns (line: seq<Byte>, end: End)
      requires Valid()
      modifies this, file
      ensures Valid() && old(Pending()) == line + Pending()
      ensures end.Found? ==> Terminated(line) && |line| <= size
      ensures end.Full? ==> |line| == size && NoNewline(line) && buf == []
      ensures end.Eof? ==> |line| < size && NoNewline(line) && buf == []
      ensures file.pos >= old(file.pos)
      ensures old(Steady()) ==> Steady() && (end.Eof? ==> file.pos == |file.content|)
      ensures Stalls(file.script) <= old(Stalls(file.script))
      ensures end.Eof? ==> file.pos == |file.content| || Stalls(file.script) < old(Stalls(file.script))
    {
      ghost var all := Pending();
      while true
        invariant Valid() && Pending() == all && file.pos >= old(file.pos)
        invariant old(Steady()) ==> Steady()
        invariant Stalls(file.script) <= old(Stalls(file.script))
        decreases |file.content| - file.pos
      {
        var i := FirstNewline(buf);
        if i < |buf| {
          line, buf := buf[..i + 1], buf[i + 1..];
          assert all == line + buf + file.content[file.pos..];
          return line, Found;
        }
        assert buf[..i] == buf;
        if |buf| >= size {
          line, buf := buf, [];
          return line, Full;
        }
        var chunk := Fill();
        if chunk == [] {
          line, buf := buf, [];
          return line, Eof;
        }
      }
    }

    /** One read into the free part of the buffer. */
    method Fill() returns (chunk: seq<Byte>)
      requires Valid() && |buf| < size
      modifies this, file
      ensures Valid() && Pending() == old(Pending()) && buf == old(buf) + chunk
      ensures file.pos == old(file.pos) + |chunk|
      ensures old(Steady()) ==> Steady() && (chunk == [] ==> file.pos == |file.content|)
      ensures Stalls(file.script) <= old(Stalls(file.script))
      ensures chunk == [] ==> file.pos == |file.content| || Stalls(file.script) < old(Stalls(file.script))
    {
      chunk := file.Read(size - |buf|);
      assert file.content[old(file.pos)..] == chunk + file.content[file.pos..];
      buf := buf + chunk;
    }

    /** Through the next newline, or what there is when end of file is met first. */
    method ReadString() returns (line: seq<Byte>, eof: bool)
      requires Valid()
      modifies this, file
      ensures Valid() && old(Pending()) == line + Pending()
      ensures !eof ==> Terminated(line)
      ensures eof ==> NoNewline(line) && buf == []
      ensures file.pos >= old(file.pos) && (line == [] ==> file.pos == old(file.pos))
      ensures Stalls(file.script) <= old(Stalls(file.script))
      ensures eof ==> file.pos == |file.content| || Stalls(file.script) < old(Stalls(file.script))
    {
      line := [];
      assert NoNewline([]);
      hide Stalls, NoNewline, Terminated, Pending;
      ghost var all := Pending();
      while true
        invariant Valid() && line + Pending() == all && NoNewline(line) && file.pos >= old(file.pos)
        invariant Stalls(file.script) <= old(Stalls(file.script))
        decreases |Pending()|
      {
        ghost var before, from := line, Pending();
        var fragment, end := ReadSlice();
        line := line + fragment;
        NoNewlineJoin(before, fragment);
        SplitsOn(before, from, fragment, Pending());
        if end.Found? {
          return line, false;
        }
        if end.Eof? {
          return line, true;
        }
      }
    }

    /** `isPrefix`: the buffer filled up before the line ended. `raw` is what was consumed. */
    method ReadLine() returns (chunk: seq<Byte>, isPrefix: bool, eof: bool, end: End, raw: seq<Byte>)
      requires Valid()
      modifies this, file
      ensures Valid() && old(Pending()) == raw + Pending()
      ensures isPrefix == end.Full? && eof == (end.Eof? && raw == [])
      ensures old(Steady()) ==> Steady() && (end.Eof? ==> Pending() == [])
      ensures end.Found? ==> Terminated(raw) && |raw| <= size && chunk == Strip(raw)
      ensures end.Full? ==> |old(Pending())| >= size && NoNewline(old(Pending())[..size])
      ensures end.Full? ==> chunk == raw == DropCr(old(Pending())[..size])
      ensures end.Eof? ==> |raw| < size && NoNewline(raw) && chunk == raw
    {
      ghost var all := Pending();
      var line;
      line, end := ReadSlice();
      raw := line;
      if end.Full? {
        ghost var rest := Pending();
        assert all[..size] == line;
        if line[|line| - 1] == CR {
          buf := [CR];
          raw := line[..|line| - 1];
          assert line == raw + [CR];
          assert Pending() == [CR] + rest;
        }
        return raw, true, false, end, raw;
      }
      if line == [] {
        return [], false, true, end, raw;
      }
      return Strip(line), false, false, end, raw;
    }
  }

  /** A full buffer gives back a final carriage return: it may be half of a line terminator. */
  function DropCr(w: seq<Byte>): seq<Byte> {
    if w != [] && w[|w| - 1] == CR then w[..|w| - 1] else w
  }

  /** A line without its terminator. */
  function Strip(raw: seq<Byte>): seq<Byte> {
    var n := |raw|;
    if n == 0 || raw[n - 1] != NL then raw
    else if n > 1 && raw[n - 2] == CR then raw[..n - 2]
    else raw[..n - 1]
  }
}
