/** The log tailer's two readers: following a growing file, and scanning a whole one line by line. */
module Tailer {
  import opened Common
  import opened Bufio

  const READ_BUFFER := 4096

  function Concat(chunks: seq<seq<Byte>>): seq<Byte> {
    if chunks == [] then [] else Concat(chunks[..|chunks| - 1]) + chunks[|chunks| - 1]
  }

  lemma ConcatSnoc(chunks: seq<seq<Byte>>, c: seq<Byte>)
    ensures Concat(chunks + [c]) == Concat(chunks) + c
  {
    assert (chunks + [c])[..|chunks|] == chunks;
  }

  lemma {:induction false} ConcatJoin(x: seq<seq<Byte>>, y: seq<seq<Byte>>)
    ensures Concat(x + y) == Concat(x) + Concat(y)
  {
    if y == [] {
      assert x + y == x;
    } else {
      var n := |y| - 1;
      assert (x + y)[..|x + y| - 1] == x + y[..n];
      ConcatJoin(x, y[..n]);
    }
  }

  lemma ConcatCons(c: seq<Byte>, chunks: seq<seq<Byte>>)
    ensures Concat([c] + chunks) == c + Concat(chunks)
  {
    ConcatJoin([c], chunks);
    ConcatSnoc([], c);
    assert [] + [c] == [c];
    assert Concat([]) + c == c;
  }

  // ---- following a file

  datatype Cursor = Cursor(inode: int, offset: nat)

  /** What the environment decides in each turn of the loop. */
  datatype Turn = Turn(cancelled: bool, throttled: bool, cancelledAsleep: bool)

  /**
   * What one turn did: the chunk it handed on (empty if none), whether it met end of file, how many bytes
   * it left in the read buffer, the cursors it saved, and whether it ended the run.
   */
  datatype Did = Did(chunk: seq<Byte>, eof: bool, buffered: nat, saves: seq<Cursor>, ended: bool)

  /** Where a first open starts: the saved offset if it fits this file, otherwise the end. */
  function StartOffset(inode: int, size: nat, saved: Option<Cursor>): (start: nat)
    ensures start <= size
    ensures saved.Some? && saved.value.inode == inode && saved.value.offset <= size ==> start == saved.value.offset
    ensures saved.None? || saved.value.inode != inode || saved.value.offset > size ==> start == size
  {
    if saved.Some? && saved.value.inode == inode && saved.value.offset <= size then saved.value.offset else size
  }

  /** The chunks handed to the line handler. */
  function Handed(log: seq<Did>): seq<seq<Byte>> {
    if log == [] then [] else
      var d := log[|log| - 1];
      Handed(log[..|log| - 1]) + if d.chunk == [] then [] else [d.chunk]
  }

  /** The bytes handed to the line handler. */
  function Delivered(log: seq<Did>): seq<Byte> {
    if log == [] then [] else Delivered(log[..|log| - 1]) + log[|log| - 1].chunk
  }

  lemma {:induction false} HandedJoin(log: seq<Did>)
    ensures Concat(Handed(log)) == Delivered(log)
  {
    if log != [] {
      var before, chunk := log[..|log| - 1], log[|log| - 1].chunk;
      HandedJoin(before);
      ConcatSnoc(Handed(before), chunk);
      assert Handed(before) + [] == Handed(before);
    }
  }

  function Lead(log: seq<Did>): nat {
    if log == [] then 0 else log[|log| - 1].buffered
  }

  /** The position the program records: it leads the delivered bytes by the buffered ones. */
  function Position(log: seq<Did>, start: nat): nat {
    start + |Delivered(log)| + Lead(log)
  }

  /** A chunk handed to the line handler ends at its only newline, or has none. */
  predicate LineShaped(chunk: seq<Byte>) {
    chunk != [] && NoNewline(chunk[..|chunk| - 1])
  }

  /** What the last turn of `log` did is what the program does in `turn`, and is true of the file. */
  ghost predicate TurnFits(log: seq<Did>, turn: Turn, content: seq<Byte>, inode: int, start: nat)
    requires log != []
  {
    var n := |log| - 1;
    var d, here := log[n], Cursor(inode, Position(log, start));
    && d.buffered <= READ_BUFFER && here.offset <= |content|
    && Delivered(log) == content[start..start + |Delivered(log)|]
    && if turn.cancelled then d == Did([], false, Lead(log[..n]), [here], true) else
         && (d.eof ==> d.buffered == 0 && NoNewline(d.chunk))
         && (!d.eof ==> Terminated(d.chunk))
         && d.saves == (if d.eof && !turn.throttled then [here] else []) + (if d.eof && turn.cancelledAsleep then [here] else [])
         && d.ended == (d.eof && turn.cancelledAsleep)
  }

  /** Every turn of the log fits, and only its last one may have ended the run. */
  ghost predicate Follows(log: seq<Did>, turns: seq<Turn>, content: seq<Byte>, inode: int, start: nat)
    requires |log| <= |turns|
  {
    log == [] ||
    (var n := |log| - 1;
     && Follows(log[..n], turns, content, inode, start)
     && (n > 0 ==> !log[n - 1].ended)
     && TurnFits(log, turns[n], content, inode, start))
  }

  /** How often a turn met end of file before the end of the content. */
  function EarlyEnds(log: seq<Did>, content: seq<Byte>, start: nat): nat {
    if log == [] then 0 else
      var n := |log| - 1;
      EarlyEnds(log[..n], content, start) + if log[n].eof && Position(log, start) < |content| then 1 else 0
  }

  /**
   * Follows one file that is neither rotated nor truncated. `size` is its length when it was opened.
   * The turns end with a cancellation or run out. `log` records what every turn did.
   */
  method Run(f: File, inode: int, size: nat, saved: Option<Cursor>, turns: seq<Turn>)
    returns (chunks: seq<seq<Byte>>, log: seq<Did>, start: nat)
    requires size <= |f.content|
    modifies f
    ensures if saved.Some? && saved.value.inode == inode && saved.value.offset <= size
            then start == saved.value.offset else start == size
    ensures |log| <= |turns| && (|log| < |turns| ==> log != [] && log[|log| - 1].ended)
    ensures Follows(log, turns, f.content, inode, start)
    ensures chunks == Handed(log) && f.pos == Position(log, start)
    ensures EarlyEnds(log, f.content, start) <= old(Stalls(f.script))
  {
    start := StartOffset(inode, size, saved);
    f.pos := start;
    hide Follows, Handed, Delivered, EarlyEnds, Stalls, Progress, StartOffset, Position, Lead, Terminated, NoNewline;
    var reader := new Reader(f, READ_BUFFER);
    var lastPos := start;
    chunks, log := [], [];
    NothingYet(turns, f.content, inode, start);
    for t := 0 to |turns|
      invariant reader.file == f && reader.size == READ_BUFFER && reader.Valid() && fresh(reader)
      invariant |log| == t && (t > 0 ==> !log[t - 1].ended)
      invariant Follows(log, turns, f.content, inode, start) && chunks == Handed(log)
      invariant f.pos == lastPos == Position(log, start) && Progress(f.content, start, Delivered(log), reader.buf, lastPos) && |reader.buf| == Lead(log)
      invariant EarlyEnds(log, f.content, start) + Stalls(f.script) <= old(Stalls(f.script))
    {
      var d: Did;
      if turns[t].cancelled {
        d := Did([], false, |reader.buf|, [Cursor(inode, lastPos)], true);
      } else {
        d, lastPos := ReadTurn(reader, inode, turns[t], lastPos, Delivered(log), start);
      }
      TurnFollows(log, d, turns, f.content, inode, start, reader.buf, lastPos);
      LogGrows(log, d, f.content, start);
      if d.chunk != [] {
        chunks := chunks + [d.chunk];
      }
      log := log + [d];
      if d.ended {
        return;
      }
    }
  }

  /** A turn that was not cancelled at its start. */
  method ReadTurn(reader: Reader, inode: int, turn: Turn, lastPos: nat, ghost delivered: seq<Byte>, ghost start: nat)
    returns (d: Did, pos: nat)
    requires reader.Valid() && lastPos == reader.file.pos && reader.size == READ_BUFFER
    requires Progress(reader.file.content, start, delivered, reader.buf, lastPos)
    modifies reader, reader.file
    ensures reader.Valid() && pos == reader.file.pos
    ensures Progress(reader.file.content, start, delivered + d.chunk, reader.buf, pos) && d.buffered == |reader.buf|
    ensures if d.eof then reader.buf == [] && NoNewline(d.chunk) else Terminated(d.chunk)
    ensures d.saves == (if d.eof && !turn.throttled then [Cursor(inode, pos)] else [])
                       + (if d.eof && turn.cancelledAsleep then [Cursor(inode, pos)] else [])
    ensures d.ended == (d.eof && turn.cancelledAsleep)
    ensures Stalls(reader.file.script) <= old(Stalls(reader.file.script))
    ensures d.eof && pos < |reader.file.content| ==> Stalls(reader.file.script) < old(Stalls(reader.file.script))
  {
    hide Progress, Stalls, NoNewline, Terminated;
    var line, eof := NextChunk(reader, delivered, start);
    pos := lastPos;
    if |line| > 0 {
      pos := reader.file.pos;
    }
    var saves: seq<Cursor> := [];
    if eof && !turn.throttled {
      saves := saves + [Cursor(inode, pos)];
    }
    if eof && turn.cancelledAsleep {
      saves := saves + [Cursor(inode, pos)];
    }
    d := Did(line, eof, |reader.buf|, saves, eof && turn.cancelledAsleep);
    NotPastEnd(reader.file.content, start, delivered + line, reader.buf, pos);
  }

  lemma NotPastEnd(content: seq<Byte>, start: nat, delivered: seq<Byte>, buf: seq<Byte>, pos: nat)
    requires Progress(content, start, delivered, buf, pos)
    ensures pos <= |content|
  {
  }

  /** The bytes up to `pos` are those delivered and those buffered. */
  ghost predicate Progress(content: seq<Byte>, start: nat, delivered: seq<Byte>, buf: seq<Byte>, pos: nat) {
    start <= pos <= |content| && content[start..pos] == delivered + buf
  }

  /** One `ReadString`: the account moves on by the line it returns. */
  method NextChunk(reader: Reader, ghost delivered: seq<Byte>, ghost start: nat) returns (line: seq<Byte>, eof: bool)
    requires reader.Valid() && Progress(reader.file.content, start, delivered, reader.buf, reader.file.pos)
    modifies reader, reader.file
    ensures reader.Valid() && Progress(reader.file.content, start, delivered + line, reader.buf, reader.file.pos)
    ensures line == [] ==> reader.file.pos == old(reader.file.pos)
    ensures if eof then reader.buf == [] && NoNewline(line) else Terminated(line)
    ensures Stalls(reader.file.script) <= old(Stalls(reader.file.script))
    ensures eof ==> reader.file.pos == |reader.file.content| || Stalls(reader.file.script) < old(Stalls(reader.file.script))
  {
    ghost var buffered, from := reader.buf, reader.file.pos;
    line, eof := reader.ReadString();
    ReadAdvances(reader.file.content, start, delivered, buffered, from, line, reader.buf, reader.file.pos);
  }

  /** Consuming `line` from buffer and file keeps the account of delivered and buffered bytes. */
  lemma ReadAdvances(content: seq<Byte>, start: nat, delivered: seq<Byte>, buf: seq<Byte>, pos: nat,
                     line: seq<Byte>, buf': seq<Byte>, pos': nat)
    requires Progress(content, start, delivered, buf, pos) && pos <= pos' <= |content|
    requires buf + content[pos..] == line + (buf' + content[pos'..])
    ensures Progress(content, start, delivered + line, buf', pos')
  {
    var whole := content[start..];
    assert whole == delivered + (buf + content[pos..]);
    assert whole == (delivered + line + buf') + content[pos'..];
    assert whole[..pos' - start] == content[start..pos'];
  }

  lemma NothingYet(turns: seq<Turn>, content: seq<Byte>, inode: int, start: nat)
    requires start <= |content|
    ensures Follows([], turns, content, inode, start) && Handed([]) == [] && Delivered([]) == []
    ensures Position([], start) == start && Lead([]) == EarlyEnds([], content, start) == 0 && Progress(content, start, [], [], start)
  {
  }

  lemma LogGrows(before: seq<Did>, d: Did, content: seq<Byte>, start: nat)
    ensures var log := before + [d];
            && Handed(log) == Handed(before) + (if d.chunk == [] then [] else [d.chunk])
            && Delivered(log) == Delivered(before) + d.chunk && Lead(log) == d.buffered
            && EarlyEnds(log, content, start)
               == EarlyEnds(before, content, start) + if d.eof && Position(log, start) < |content| then 1 else 0
  {
    assert (before + [d])[..|before|] == before;
  }

  lemma ProgressLength(content: seq<Byte>, start: nat, delivered: seq<Byte>, buf: seq<Byte>, pos: nat)
    requires Progress(content, start, delivered, buf, pos)
    ensures pos == start + |delivered| + |buf| && content[start..start + |delivered|] == delivered
  {
    assert |content[start..pos]| == pos - start;
    assert content[start..pos][..|delivered|] == content[start..start + |delivered|];
  }

  /** Adding what a turn did keeps the log right. */
  lemma TurnFollows(before: seq<Did>, d: Did, turns: seq<Turn>, content: seq<Byte>, inode: int, start: nat,
                    buf: seq<Byte>, pos: nat)
    requires |before| < |turns| && Follows(before, turns, content, inode, start)
    requires before != [] ==> !before[|before| - 1].ended
    requires Progress(content, start, Delivered(before) + d.chunk, buf, pos) && d.buffered == |buf| <= READ_BUFFER
    requires var turn := turns[|before|];
             if turn.cancelled then d == Did([], false, Lead(before), [Cursor(inode, pos)], true) else
               && (if d.eof then buf == [] && NoNewline(d.chunk) else Terminated(d.chunk))
               && d.saves == (if d.eof && !turn.throttled then [Cursor(inode, pos)] else [])
                             + (if d.eof && turn.cancelledAsleep then [Cursor(inode, pos)] else [])
               && d.ended == (d.eof && turn.cancelledAsleep)
    ensures Follows(before + [d], turns, content, inode, start) && Position(before + [d], start) == pos
  {
    hide Delivered, Progress, NoNewline, Terminated, Handed, EarlyEnds;
    var log := before + [d];
    assert log[..|before|] == before && log[|before|] == d;
    LogGrows(before, d, content, start);
    ProgressLength(content, start, Delivered(log), buf, pos);
    NotPastEnd(content, start, Delivered(log), buf, pos);
  }

  // ---- what every run delivers

  lemma {:induction false} FollowsPrefix(log: seq<Did>, turns: seq<Turn>, content: seq<Byte>, inode: int, start: nat, k: nat)
    requires k < |log| <= |turns| && Follows(log, turns, content, inode, start)
    ensures Follows(log[..k + 1], turns, content, inode, start) && TurnFits(log[..k + 1], turns[k], content, inode, start)
    decreases |log|
  {
    var n := |log| - 1;
    if k == n {
      assert log[..k + 1] == log;
    } else {
      FollowsPrefix(log[..n], turns, content, inode, start, k);
      assert log[..n][..k + 1] == log[..k + 1];
    }
  }

  /** Until everything is delivered, each turn delivers a byte or meets an early end of file. */
  lemma {:induction false} TurnsMakeProgress(log: seq<Did>, turns: seq<Turn>, content: seq<Byte>, inode: int, start: nat)
    requires |log| <= |turns| && Follows(log, turns, content, inode, start)
    requires forall i :: 0 <= i < |log| ==> !turns[i].cancelled
    requires start + |Delivered(log)| < |content|
    ensures |log| <= |Delivered(log)| + EarlyEnds(log, content, start)
  {
    if log != [] {
      TurnsMakeProgress(log[..|log| - 1], turns, content, inode, start);
      hide NoNewline;
    }
  }

  /** A run that goes on for enough turns delivers the file to its end. */
  lemma EnoughTurnsDeliverAll(log: seq<Did>, turns: seq<Turn>, content: seq<Byte>, inode: int, start: nat)
    requires |log| == |turns| && Follows(log, turns, content, inode, start)
    requires forall i :: 0 <= i < |turns| ==> !turns[i].cancelled
    requires start <= |content| && |turns| > |content| - start + EarlyEnds(log, content, start)
    ensures Concat(Handed(log)) == content[start..]
  {
    HandedJoin(log);
    if start + |Delivered(log)| < |content| {
      TurnsMakeProgress(log, turns, content, inode, start);
    }
  }

  /** At every turn the delivered bytes are the file's from the start, and a save names what was delivered and buffered. */
  lemma TurnMeaning(log: seq<Did>, turns: seq<Turn>, content: seq<Byte>, inode: int, start: nat, i: nat)
    requires i < |log| <= |turns| && Follows(log, turns, content, inode, start)
    ensures var done := Concat(Handed(log[..i + 1]));
            && start + |done| + log[i].buffered <= |content| && done == content[start..start + |done|]
            && log[i].buffered <= 4096 && (log[i].eof ==> log[i].buffered == 0)
            && forall c :: c in log[i].saves ==> c == Cursor(inode, start + |done| + log[i].buffered)
  {
    hide Follows, NoNewline, Terminated, Delivered, Handed, Concat;
    var upTo := log[..i + 1];
    FollowsPrefix(log, turns, content, inode, start, i);
    HandedJoin(upTo);
    assert upTo[i] == log[i] && Lead(upTo) == log[i].buffered;
  }

  /** When a cursor is saved, how often, and when the run ends: at a cancellation, or at end of file as throttle and sleep decide. */
  lemma SavesExactly(log: seq<Did>, turns: seq<Turn>, content: seq<Byte>, inode: int, start: nat, i: nat)
    requires i < |log| <= |turns| && Follows(log, turns, content, inode, start)
    ensures var d, turn := log[i], turns[i];
            if turn.cancelled then d.ended && |d.saves| == 1 && d.chunk == [] else
              && (d.ended <==> d.eof && turn.cancelledAsleep)
              && (!d.eof ==> d.chunk != [] && d.chunk[|d.chunk| - 1] == NL)
              && |d.saves| == (if d.eof && !turn.throttled then 1 else 0) + (if d.eof && turn.cancelledAsleep then 1 else 0)
  {
    FollowsPrefix(log, turns, content, inode, start, i);
    assert log[..i + 1][i] == log[i];
    hide NoNewline, Delivered, Follows;
  }

  /** A run that starts at the end of the file hands on only bytes appended later, in order and without a gap. */
  lemma FirstRunSkipsOldLines(log: seq<Did>, turns: seq<Turn>, content: seq<Byte>, inode: int, size: nat)
    requires 0 < |log| <= |turns| && Follows(log, turns, content, inode, size)
    ensures var n := |Concat(Handed(log))|;
            size + n <= |content| && Concat(Handed(log)) == content[size..size + n]
  {
    TurnMeaning(log, turns, content, inode, size, |log| - 1);
    assert log[..|log|] == log;
  }

  /** The save a run can make always fits the same file again, so the next run resumes from it. */
  lemma SavedCursorFits(log: seq<Did>, turns: seq<Turn>, content: seq<Byte>, inode: int, start: nat, i: nat, c: Cursor, size: nat)
    requires i < |log| <= |turns| && Follows(log, turns, content, inode, start) && c in log[i].saves
    requires c.offset <= size
    ensures c.inode == inode && StartOffset(inode, size, Some(c)) == c.offset
  {
    TurnMeaning(log, turns, content, inode, start, i);
  }

  lemma SlicesJoin(s: seq<Byte>, a: nat, b: nat, c: nat)
    requires a <= b <= c <= |s|
    ensures s[a..c] == s[a..b] + s[b..c]
  {
  }

  /**
   * A run that resumes from a save of an earlier one skips exactly the bytes buffered when that save was
   * written; after a save at end of file it continues right behind what had then been delivered.
   */
  lemma ResumeContinues(content: seq<Byte>, inode: int, start: nat, log1: seq<Did>, turns1: seq<Turn>, i: nat, c: Cursor,
                        log2: seq<Did>, turns2: seq<Turn>)
    requires i < |log1| <= |turns1| && Follows(log1, turns1, content, inode, start)
    requires c in log1[i].saves && 0 < |log2| <= |turns2| && Follows(log2, turns2, content, inode, c.offset)
    ensures var done, rest := Concat(Handed(log1[..i + 1])), Concat(Handed(log2));
            var d := start + |done|;
            var e := d + log1[i].buffered;
            && e + |rest| <= |content| && log1[i].buffered <= 4096
            && content[start..e + |rest|] == done + content[d..e] + rest
            && (log1[i].eof ==> content[start..d + |rest|] == done + rest)
  {
    hide Follows, Concat, Handed;
    TurnMeaning(log1, turns1, content, inode, start, i);
    assert c == Cursor(inode, c.offset);
    TurnMeaning(log2, turns2, content, inode, c.offset, |log2| - 1);
    assert log2[..|log2|] == log2;
    var done, rest := Concat(Handed(log1[..i + 1])), Concat(Handed(log2));
    SlicesJoin(content, start, start + |done|, c.offset);
    SlicesJoin(content, start, c.offset, c.offset + |rest|);
  }

  /** One process: what it did, and where it started. */
  datatype Stage = Stage(log: seq<Did>, turns: seq<Turn>, start: nat)

  ghost predicate Logged(s: Stage, content: seq<Byte>, inode: int) {
    0 < |s.log| <= |s.turns| && Follows(s.log, s.turns, content, inode, s.start)
  }

  /** The last turn of `prior` met end of file and saved the place where `next` starts. */
  ghost predicate Continues(prior: Stage, next: Stage, inode: int)
    requires prior.log != []
  {
    var last := prior.log[|prior.log| - 1];
    last.eof && Cursor(inode, next.start) in last.saves
  }

  ghost predicate Chained(stages: seq<Stage>, content: seq<Byte>, inode: int) {
    stages == [] ||
    (var n := |stages| - 1;
     && Chained(stages[..n], content, inode) && Logged(stages[n], content, inode)
     && (n > 0 ==> stages[n - 1].log != [] && Continues(stages[n - 1], stages[n], inode)))
  }

  function HandedByAll(stages: seq<Stage>): seq<seq<Byte>> {
    if stages == [] then [] else HandedByAll(stages[..|stages| - 1]) + Handed(stages[|stages| - 1].log)
  }

  lemma StageMeaning(s: Stage, content: seq<Byte>, inode: int)
    requires Logged(s, content, inode)
    ensures var done := Concat(Handed(s.log));
            && s.start + |done| <= |content| && done == content[s.start..s.start + |done|]
            && forall next: Stage :: Continues(s, next, inode) ==> next.start == s.start + |done|
  {
    hide Follows, Concat, Handed;
    TurnMeaning(s.log, s.turns, content, inode, s.start, |s.log| - 1);
    assert s.log[..|s.log|] == s.log;
  }

  /** However often the process restarts, the chunks of all its runs are the file, every byte once. */
  lemma {:induction false} RestartsDeliverOnce(stages: seq<Stage>, content: seq<Byte>, inode: int)
    requires stages != [] && Chained(stages, content, inode)
    ensures var last := stages[|stages| - 1];
            var end := last.start + |Concat(Handed(last.log))|;
            && stages[0].start <= last.start && end <= |content|
            && Concat(HandedByAll(stages)) == content[stages[0].start..end]
  {
    hide Follows, Concat, Handed;
    var n := |stages| - 1;
    var s := stages[n];
    StageMeaning(s, content, inode);
    ConcatJoin(HandedByAll(stages[..n]), Handed(s.log));
    if n == 0 {
      assert stages[..0] == [];
      assert HandedByAll([]) + Handed(s.log) == Handed(s.log);
    } else {
      var prior := stages[n - 1];
      assert stages[..n][n - 1] == prior && stages[..n][0] == stages[0];
      RestartsDeliverOnce(stages[..n], content, inode);
      StageMeaning(prior, content, inode);
      SlicesJoin(content, stages[0].start, s.start, s.start + |Concat(Handed(s.log))|);
    }
  }

  // ---- scanning a whole file

  /** The rest after the first newline, nothing if there is none. */
  function AfterLine(s: seq<Byte>): (rest: seq<Byte>)
    ensures |rest| <= |s| && (s != [] ==> |rest| < |s|)
  {
    var i := FirstNewline(s);
    if i < |s| then s[i + 1..] else []
  }

  /** The first line with its terminator. */
  function FirstRaw(s: seq<Byte>): seq<Byte> {
    s[..|s| - |AfterLine(s)|]
  }

  /** The lines of a file, each with its terminator. */
  function RawLines(s: seq<Byte>): seq<seq<Byte>>
    decreases |s|
  {
    if s == [] then [] else [FirstRaw(s)] + RawLines(AfterLine(s))
  }

  /** What a buffer of `size` bytes shows of a line. */
  function Cut(raw: seq<Byte>, size: nat): seq<Byte>
    requires size >= 16
  {
    if |raw| < size || (|raw| == size && raw[size - 1] == NL) then Strip(raw) else DropCr(raw[..size])
  }

  function Calls(raws: seq<seq<Byte>>, size: nat): seq<seq<Byte>>
    requires size >= 16
  {
    if raws == [] then [] else
      (if Cut(raws[0], size) == [] then [] else [Cut(raws[0], size)]) + Calls(raws[1..], size)
  }

  lemma FirstRawShape(s: seq<Byte>)
    requires s != []
    ensures var first, rest := FirstRaw(s), AfterLine(s);
            s == first + rest && LineShaped(first) && (rest != [] ==> first[|first| - 1] == NL)
  {
    var i := FirstNewline(s);
    hide FirstNewline;
    if i < |s| {
      assert s == s[..i + 1] + s[i + 1..];
      assert FirstRaw(s) == s[..i + 1] && s[..i + 1][..i] == s[..i];
    } else {
      assert s[..i] == s && FirstRaw(s) == s;
    }
  }

  /** The lines of a file put together are the file. */
  lemma {:induction false} RawLinesJoin(s: seq<Byte>)
    ensures Concat(RawLines(s)) == s
    decreases |s|
  {
    if s != [] {
      var first, rest := FirstRaw(s), AfterLine(s);
      FirstRawShape(s);
      RawLinesJoin(rest);
      ConcatCons(first, RawLines(rest));
      hide Concat, FirstRaw, AfterLine;
      assert RawLines(s) == [first] + RawLines(rest);
    }
  }

  /** Each line is line-shaped, and all but the last are terminated. */
  lemma {:induction false} RawLinesShape(s: seq<Byte>, k: nat)
    requires k < |RawLines(s)|
    ensures LineShaped(RawLines(s)[k])
    ensures k < |RawLines(s)| - 1 ==> RawLines(s)[k][|RawLines(s)[k]| - 1] == NL
    decreases |s|
  {
    FirstRawShape(s);
    if k > 0 {
      RawLinesShape(AfterLine(s), k - 1);
    }
    hide FirstRaw, AfterLine, NoNewline;
  }

  /**
   * Every line is shown from its beginning, whole if it fits and cut to the buffer otherwise (one byte
   * shorter when the cut would end in a carriage return); only an empty line is not shown.
   */
  lemma CutShowsLine(raw: seq<Byte>, size: nat)
    requires size >= 16 && LineShaped(raw)
    ensures var shown, text := Cut(raw, size), Strip(raw);
            && shown <= text
            && (if |raw| < size || (|raw| == size && raw[size - 1] == NL) then shown == text
                else |shown| == (if raw[size - 1] == CR then size - 1 else size))
            && (shown == [] <==> text == [])
  {
  }

  /** The text of a line is what stands before its terminator, a newline with or without a carriage return. */
  lemma StripMeaning(raw: seq<Byte>)
    requires LineShaped(raw)
    ensures var text := Strip(raw);
            if raw[|raw| - 1] != NL then text == raw
            else raw == text + [CR, NL] || (raw == text + [NL] && (text == [] || text[|text| - 1] != CR))
  {
  }

  /** The calls for some lines and for more lines are the calls for all of them. */
  lemma {:induction false} CallsJoin(x: seq<seq<Byte>>, y: seq<seq<Byte>>, size: nat)
    requires size >= 16
    ensures Calls(x + y, size) == Calls(x, size) + Calls(y, size)
    ensures forall raw :: Calls([raw], size) == if Cut(raw, size) == [] then [] else [Cut(raw, size)]
  {
    hide Cut;
    if x == [] {
      assert x + y == y;
    } else {
      assert (x + y)[1..] == x[1..] + y;
      CallsJoin(x[1..], y, size);
    }
  }

  lemma FirstNewlineIs(s: seq<Byte>, k: nat)
    requires k <= |s| && (forall j :: 0 <= j < k ==> s[j] != NL) && (k < |s| ==> s[k] == NL)
    ensures FirstNewline(s) == k
  {
  }

  lemma LineParts(s: seq<Byte>, line: seq<Byte>, rest: seq<Byte>)
    requires s == line + rest && Terminated(line)
    ensures FirstNewline(s) == |line| - 1 && FirstRaw(s) == line && AfterLine(s) == rest
  {
    assert forall j :: 0 <= j < |line| - 1 ==> s[j] == line[..|line| - 1][j];
    FirstNewlineIs(s, |line| - 1);
  }

  lemma Unterminated(s: seq<Byte>)
    requires NoNewline(s)
    ensures FirstNewline(s) == |s| && FirstRaw(s) == s && AfterLine(s) == []
  {
  }

  /** Consuming bytes that hold no newline does not change what follows the line. */
  lemma InsideLine(s: seq<Byte>, part: seq<Byte>, rest: seq<Byte>)
    requires s == part + rest && NoNewline(part)
    ensures AfterLine(s) == AfterLine(rest) && FirstNewline(s) == |part| + FirstNewline(rest)
  {
    var j := FirstNewline(rest);
    forall k | 0 <= k < |part| + j
      ensures s[k] != NL
    {
      if k < |part| {
        assert s[k] == part[k];
      } else {
        assert s[k] == rest[..j][k - |part|];
      }
    }
    FirstNewlineIs(s, |part| + j);
  }

  /** A line that does not fit the buffer shows its first part. */
  lemma LongLine(s: seq<Byte>, size: nat)
    requires size >= 16 && |s| >= size && NoNewline(s[..size])
    ensures Cut(FirstRaw(s), size) == DropCr(s[..size]) != []
  {
    assert s == s[..size] + s[size..];
    InsideLine(s, s[..size], s[size..]);
    var raw := FirstRaw(s);
    assert |raw| >= size && raw[..size] == s[..size];
    assert raw[size - 1] == s[..size][size - 1];
  }

  // ---- lines torn while following a file

  /** The bytes end where a line ends. */
  predicate AtLineEnd(s: seq<Byte>) {
    s == [] || s[|s| - 1] == NL
  }

  /** Some chunk continues a line that an end of file had torn. */
  predicate Torn(chunks: seq<seq<Byte>>) {
    exists i :: 0 <= i < |chunks| && !AtLineEnd(Concat(chunks[..i]))
  }

  /** A chunk after whole lines is a line of its own; after a torn one it only makes that line longer. */
  lemma {:induction false} LinesAfterChunk(x: seq<Byte>, c: seq<Byte>)
    requires LineShaped(c)
    ensures if AtLineEnd(x) then RawLines(x + c) == RawLines(x) + [c] else |RawLines(x + c)| == |RawLines(x)|
    decreases |x|
  {
    hide RawLines, FirstRaw, LineShaped, NoNewline, AtLineEnd;
    if x == [] {
      assert x + c == c;
      WholeChunk(c);
      NoLines();
    } else if AfterLine(x) == [] && x[|x| - 1] != NL {
      TornChunk(x, c);
    } else {
      var first, rest := FirstRaw(x), AfterLine(x);
      LineStays(x, c);
      LinesAfterChunk(rest, c);
      hide AfterLine;
      assert [first] + (RawLines(rest) + [c]) == [first] + RawLines(rest) + [c];
    }
  }

  lemma WholeChunk(c: seq<Byte>)
    requires LineShaped(c)
    ensures RawLines(c) == [c] && RawLines([]) == []
  {
    OneLine(c);
    NoLines();
    assert RawLines(c) == [FirstRaw(c)] + RawLines(AfterLine(c));
    hide RawLines, FirstRaw, AfterLine;
  }

  lemma OneLine(c: seq<Byte>)
    requires LineShaped(c)
    ensures AfterLine(c) == [] && FirstRaw(c) == c
  {
    var n := |c| - 1;
    assert forall j :: 0 <= j < n ==> c[j] == c[..n][j];
    FirstNewlineIs(c, if c[n] == NL then n else |c|);
    hide FirstNewline;
  }

  /** A first line that ends in a newline is not touched by appending. */
  lemma LineStays(x: seq<Byte>, c: seq<Byte>)
    requires x != [] && (AfterLine(x) != [] || x[|x| - 1] == NL)
    ensures RawLines(x + c) == [FirstRaw(x)] + RawLines(AfterLine(x) + c)
    ensures RawLines(x) == [FirstRaw(x)] + RawLines(AfterLine(x))
    ensures AtLineEnd(x) == AtLineEnd(AfterLine(x))
  {
    var first, rest := FirstRaw(x), AfterLine(x);
    FirstRawShape(x);
    assert rest == [] ==> x == first;
    assert x + c == first + (rest + c);
    LineParts(x + c, first, rest + c);
    hide FirstRaw, AfterLine, NoNewline;
  }

  /** `x` is part of one line: so is the chunk behind it. */
  lemma TornChunk(x: seq<Byte>, c: seq<Byte>)
    requires x != [] && LineShaped(c) && AfterLine(x) == [] && x[|x| - 1] != NL
    ensures !AtLineEnd(x) && |RawLines(x + c)| == |RawLines(x)|
  {
    FirstRawShape(x);
    PartOfLine(x, c);
    WholeChunk(x + c);
    WholeChunk(x);
    hide RawLines, FirstRaw, AfterLine, LineShaped;
  }

  lemma PartOfLine(x: seq<Byte>, c: seq<Byte>)
    requires LineShaped(x) && x[|x| - 1] != NL && LineShaped(c)
    ensures LineShaped(x + c)
  {
    var n := |x + c| - 1;
    assert x == x[..|x| - 1] + [x[|x| - 1]];
    assert (x + c)[..n] == x + c[..|c| - 1];
  }

  lemma TornLast(chunks: seq<seq<Byte>>)
    requires chunks != []
    ensures var n := |chunks| - 1;
            Torn(chunks) <==> Torn(chunks[..n]) || !AtLineEnd(Concat(chunks[..n]))
  {
    var n := |chunks| - 1;
    assert forall i :: 0 <= i < n ==> chunks[..n][..i] == chunks[..i];
    hide AtLineEnd, Concat;
  }

  /** Torn lines count as several chunks and as one line. */
  lemma {:induction false} FewerLinesThanChunks(chunks: seq<seq<Byte>>)
    requires forall i :: 0 <= i < |chunks| ==> LineShaped(chunks[i])
    ensures if Torn(chunks) then |RawLines(Concat(chunks))| < |chunks| else RawLines(Concat(chunks)) == chunks
  {
    hide Torn, RawLines, AtLineEnd, LineShaped;
    if chunks == [] {
      NoLines();
    } else {
      var n := |chunks| - 1;
      var x, c := Concat(chunks[..n]), chunks[n];
      assert Concat(chunks) == x + c && chunks == chunks[..n] + [c];
      FewerLinesThanChunks(chunks[..n]);
      TornLast(chunks);
      LinesAfterChunk(x, c);
      hide Concat;
    }
  }

  lemma NoLines()
    ensures RawLines([]) == [] && !Torn([]) && AtLineEnd([])
  {
  }

  /** Chunks are the lines that a scan of the same bytes finds if and only if no line was torn. */
  lemma ChunksAreLinesIff(chunks: seq<seq<Byte>>)
    requires forall i :: 0 <= i < |chunks| ==> LineShaped(chunks[i])
    ensures chunks == RawLines(Concat(chunks)) <==> !Torn(chunks)
  {
    FewerLinesThanChunks(chunks);
  }

  lemma {:induction false} HandedLineShaped(log: seq<Did>, turns: seq<Turn>, content: seq<Byte>, inode: int, start: nat)
    requires |log| <= |turns| && Follows(log, turns, content, inode, start)
    ensures forall i :: 0 <= i < |Handed(log)| ==> LineShaped(Handed(log)[i])
  {
    if log != [] {
      var c := log[|log| - 1].chunk;
      HandedLineShaped(log[..|log| - 1], turns, content, inode, start);
      if c != [] && !Terminated(c) {
        assert NoNewline(c);
        assert forall i :: 0 <= i < |c| - 1 ==> c[..|c| - 1][i] == c[i];
      }
    }
  }

  lemma {:induction false} AllLineShaped(stages: seq<Stage>, content: seq<Byte>, inode: int)
    requires Chained(stages, content, inode)
    ensures forall i :: 0 <= i < |HandedByAll(stages)| ==> LineShaped(HandedByAll(stages)[i])
  {
    if stages != [] {
      var s := stages[|stages| - 1];
      AllLineShaped(stages[..|stages| - 1], content, inode);
      HandedLineShaped(s.log, s.turns, content, inode, s.start);
      hide LineShaped, Handed, Follows;
    }
  }

  /** Over any number of processes the line handler is handed the lines of the file if and only if none was torn, by a pause or a restart. */
  lemma HandedLinesIff(stages: seq<Stage>, content: seq<Byte>, inode: int)
    requires stages != [] && Chained(stages, content, inode)
    ensures var last, handed := stages[|stages| - 1], HandedByAll(stages);
            var end := last.start + |Concat(Handed(last.log))|;
            && stages[0].start <= end <= |content|
            && (handed == RawLines(content[stages[0].start..end]) <==> !Torn(handed))
  {
    RestartsDeliverOnce(stages, content, inode);
    AllLineShaped(stages, content, inode);
    ChunksAreLinesIff(HandedByAll(stages));
    hide Torn, RawLines, LineShaped, Concat, Handed;
  }

  /** A line met half written, as two turns see it. */
  function HalfLine(): (log: seq<Did>) {
    [Did([97], true, 0, [], false), Did([98, NL], false, 0, [], false)]
  }

  lemma HalfLineFollows(inode: int)
    ensures var turn := Turn(false, true, false);
            Follows(HalfLine(), [turn, turn], [97, 98, NL], inode, 0) && Handed(HalfLine()) == [[97], [98, NL]]
  {
    hide Follows, Delivered, Handed, EarlyEnds;
    var content: seq<Byte> := [97, 98, NL];
    var turn := Turn(false, true, false);
    var turns, d0, d1 := [turn, turn], HalfLine()[0], HalfLine()[1];
    NothingYet(turns, content, inode, 0);
    LogGrows([], d0, content, 0);
    TurnFollows([], d0, turns, content, inode, 0, [], 1);
    assert [] + [d0] == [d0];
    LogGrows([d0], d1, content, 0);
    TurnFollows([d0], d1, turns, content, inode, 0, [], 3);
    assert [d0] + [d1] == HalfLine();
  }

  /** A line written in two pieces, the first of them met at end of file, is handed on as two. */
  lemma LineWrittenInTwoIsTorn(inode: int)
    ensures var content: seq<Byte> := [97, 98, NL];
            var turn := Turn(false, true, false);
            && Follows(HalfLine(), [turn, turn], content, inode, 0)
            && Handed(HalfLine()) == [[97], [98, NL]] && RawLines(content) == [content]
  {
    HalfLineFollows(inode);
    WholeChunk([97, 98, NL]);
    hide Follows, Handed, RawLines;
  }

  /** `scanLines`: `fn` is modelled by the list of its calls. */
  method ScanLines(f: File, bufferSize: nat) returns (calls: seq<seq<Byte>>)
    requires f.pos == 0 && forall i :: 0 <= i < |f.script| ==> f.script[i] > 0
    modifies f
    ensures calls == Calls(RawLines(f.content), if bufferSize < 16 then 16 else bufferSize)
  {
    var r := new Reader(f, bufferSize);
    calls := [];
    var skipping := false;
    assert r.Pending() == f.content;
    while true
      invariant r.file == f && r.Valid() && fresh(r) && r.Steady()
      invariant Remaining(calls, skipping, r.Pending(), r.size, Calls(RawLines(f.content), r.size))
      decreases |r.Pending()|
    {
      ghost var before, all := r.Pending(), Calls(RawLines(f.content), r.size);
      var chunk, isPrefix, eof, end, raw := r.ReadLine();
      ScanStep(calls, skipping, before, chunk, end, raw, r.Pending(), r.size, all);
      if |chunk| > 0 && !skipping {
        calls := calls + [chunk];
      }
      skipping := isPrefix;
      if eof {
        return;
      }
    }
  }

  /** Calls already made, plus those the unread bytes will cause, are all of them. */
  ghost predicate Remaining(calls: seq<seq<Byte>>, skipping: bool, pending: seq<Byte>, size: nat, all: seq<seq<Byte>>)
    requires size >= 16
  {
    all == calls + Calls(RawLines(if skipping then AfterLine(pending) else pending), size)
  }

  lemma ScanStep(calls: seq<seq<Byte>>, skipping: bool, before: seq<Byte>, chunk: seq<Byte>, end: End,
                 raw: seq<Byte>, after: seq<Byte>, size: nat, all: seq<seq<Byte>>)
    requires size >= 16 && Remaining(calls, skipping, before, size, all) && before == raw + after
    requires end.Found? ==> Terminated(raw) && |raw| <= size && chunk == Strip(raw)
    requires end.Full? ==> |before| >= size && NoNewline(before[..size]) && chunk == raw == DropCr(before[..size])
    requires end.Eof? ==> |raw| < size && NoNewline(raw) && chunk == raw && after == []
    ensures Remaining(if |chunk| > 0 && !skipping then calls + [chunk] else calls, end.Full?, after, size, all)
    ensures raw == [] ==> end.Eof?
  {
    hide Calls, RawLines, Cut, FirstRaw, FirstNewline, AfterLine;
    match end
    case Found =>
      LineParts(before, raw, after);
      FoundCut(raw, size);
      if !skipping {
        FirstCall(before, size);
        assert calls + ([chunk] + Calls(RawLines(after), size)) == calls + [chunk] + Calls(RawLines(after), size);
        assert calls + ([] + Calls(RawLines(after), size)) == calls + Calls(RawLines(after), size);
      }
    case Full =>
      LongLine(before, size);
      InsideLine(before, raw, after);
      if !skipping {
        FirstCall(before, size);
        var rest := Calls(RawLines(AfterLine(before)), size);
        assert calls + ([chunk] + rest) == calls + [chunk] + rest;
      }
    case Eof =>
      assert before == raw;
      Unterminated(raw);
      NothingLeft(size);
      if !skipping && before != [] {
        FirstCall(before, size);
        ShortCut(raw, size);
        assert calls + ([chunk] + []) == calls + [chunk] + [];
      }
  }

  lemma NothingLeft(size: nat)
    requires size >= 16
    ensures AfterLine([]) == [] && Calls(RawLines([]), size) == []
  {
  }

  lemma FoundCut(raw: seq<Byte>, size: nat)
    requires size >= 16 && raw != [] && raw[|raw| - 1] == NL && |raw| <= size
    ensures Cut(raw, size) == Strip(raw)
  {
  }

  lemma ShortCut(raw: seq<Byte>, size: nat)
    requires size >= 16 && raw != [] && NoNewline(raw) && |raw| < size
    ensures Cut(raw, size) == raw
  {
  }

  lemma FirstCall(s: seq<Byte>, size: nat)
    requires size >= 16 && s != []
    ensures Calls(RawLines(s), size) ==
              (if Cut(FirstRaw(s), size) == [] then [] else [Cut(FirstRaw(s), size)]) + Calls(RawLines(AfterLine(s)), size)
  {
    assert RawLines(s)[1..] == RawLines(AfterLine(s));
  }
}
