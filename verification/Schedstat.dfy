/** Reading /proc/schedstat through a 256-byte buffer that is filled by reads of any size, split
    into lines in place and compacted (linux_sysmon_update_schedstat). */
module Schedstat {
  import opened Bits
  import opened CpuLine

  const BUFFER_SIZE: nat := 256

  // ---------------------------------------------------------------- the lines of a file

  /** The index of the first newline, or the length. */
  function LineLength(s: seq<char>): (n: nat)
    ensures n <= |s|
  {
    if s == [] || s[0] == '\n' then 0 else 1 + LineLength(s[1..])
  }

  /** The newline-terminated lines before the first stretch of 256 characters without a newline. */
  function Lines(data: seq<char>): seq<seq<char>>
    decreases |data|
  {
    var n := LineLength(data);
    if n >= BUFFER_SIZE || n == |data| then [] else [data[..n]] + Lines(data[n + 1..])
  }

  ghost predicate IsLine(line: seq<char>) {
    |line| < BUFFER_SIZE && '\n' !in line
  }

  ghost predicate AllLines(lines: seq<seq<char>>) {
    forall i :: 0 <= i < |lines| ==> IsLine(lines[i])
  }

  function Joined(lines: seq<seq<char>>): seq<char> {
    if lines == [] then [] else lines[0] + ['\n'] + Joined(lines[1..])
  }

  /** No further line: the data ends, or 256 characters pass, before a newline. */
  ghost predicate NoLine(rest: seq<char>) {
    LineLength(rest) == |rest| || LineLength(rest) >= BUFFER_SIZE
  }

  lemma {:induction false} LineLengthOf(line: seq<char>, rest: seq<char>)
    requires '\n' !in line
    requires rest == [] || rest[0] == '\n'
    ensures LineLength(line + rest) == |line|
  {
    if line == [] {
      assert line + rest == rest;
    } else {
      assert line[0] in line;
      assert (line + rest)[1..] == line[1..] + rest;
      LineLengthOf(line[1..], rest);
    }
  }

  lemma {:induction false} LineLengthMeaning(s: seq<char>)
    ensures '\n' !in s[..LineLength(s)]
    ensures LineLength(s) < |s| ==> s[LineLength(s)] == '\n'
  {
    if s != [] && s[0] != '\n' {
      LineLengthMeaning(s[1..]);
      var n := LineLength(s);
      assert s[..n] == [s[0]] + s[1..][..n - 1];
    }
  }

  lemma NextLine(line: seq<char>, rest: seq<char>)
    requires IsLine(line)
    ensures Lines(line + ['\n'] + rest) == [line] + Lines(rest)
  {
    var data := line + ['\n'] + rest;
    assert data == line + (['\n'] + rest);
    LineLengthOf(line, ['\n'] + rest);
    assert data[..|line|] == line && data[|line| + 1..] == rest;
  }

  /** A line of up to 255 characters is taken; the first longer one ends the file. */
  lemma LineLimit(line: seq<char>, rest: seq<char>)
    requires '\n' !in line
    ensures Lines(line + ['\n'] + rest) == if |line| < 256 then [line] + Lines(rest) else []
  {
    if |line| < 256 {
      NextLine(line, rest);
    } else {
      assert line + ['\n'] + rest == line + (['\n'] + rest);
      LineLengthOf(line, ['\n'] + rest);
    }
  }

  /** The only way to cut data into short newline-terminated lines and a rest that has no further
      line is the one `Lines` finds. */
  lemma {:induction false} LinesUnique(lines: seq<seq<char>>, rest: seq<char>)
    requires AllLines(lines)
    requires NoLine(rest)
    ensures Lines(Joined(lines) + rest) == lines
    decreases |lines|
  {
    if lines == [] {
      assert Joined(lines) + rest == rest;
    } else {
      var tail := Joined(lines[1..]) + rest;
      LinesUnique(lines[1..], rest);
      NextLine(lines[0], tail);
      assert Joined(lines) + rest == lines[0] + ['\n'] + tail;
      assert [lines[0]] + lines[1..] == lines;
    }
  }

  lemma JoinedCons(line: seq<char>, lines: seq<seq<char>>, rest: seq<char>)
    ensures Joined([line] + lines) + rest == line + ['\n'] + (Joined(lines) + rest)
  {
    assert ([line] + lines)[1..] == lines;
    assert (line + ['\n'] + Joined(lines)) + rest == line + ['\n'] + (Joined(lines) + rest);
  }

  /** And that cut always exists. */
  lemma {:induction false} LinesCut(data: seq<char>) returns (rest: seq<char>)
    ensures data == Joined(Lines(data)) + rest && NoLine(rest)
    ensures AllLines(Lines(data))
    decreases |data|
  {
    var n := LineLength(data);
    if n >= BUFFER_SIZE || n == |data| {
      rest := data;
    } else {
      LineLengthMeaning(data);
      rest := LinesCut(data[n + 1..]);
      assert data == data[..n] + ['\n'] + data[n + 1..];
      JoinedCons(data[..n], Lines(data[n + 1..]), rest);
    }
  }

  // ---------------------------------------------------------------- what a line does

  datatype Core = Core(avgLoad: int, lastRunTime: uint64)

  datatype Table = Loads(cores: seq<Core>, highest: nat)

  /** The per-core table and the highest CPU number seen in this pass. */
  type Loads = t: Table | |t.cores| == MAX_CPUS witness Table.Loads(seq(MAX_CPUS, _ => Core(0, 0)), 0)

  /** How OSAL turns nanoseconds into milliseconds, narrowed to `unsigned int`. */
  type Milliseconds = uint64 -> uint32

  const CPU: seq<char> := "cpu"

  function Accounted(core: Core, runTime: uint64, elapsed: uint32, toMs: Milliseconds): Core {
    Core(Load(toMs((runTime - core.lastRunTime) % TWO64), elapsed), runTime)
  }

  function AfterFields(loads: Loads, f: Fields, elapsed: uint32, toMs: Milliseconds): Loads {
    if f.cpuNum < MAX_CPUS then
      Table.Loads(loads.cores[f.cpuNum := Accounted(loads.cores[f.cpuNum], f.runTime, elapsed, toMs)],
                  if f.cpuNum > loads.highest then f.cpuNum else loads.highest)
    else loads
  }

  /** The effect of one line on the per-core table. */
  function AfterLine(loads: Loads, line: seq<char>, elapsed: uint32, toMs: Milliseconds): Loads {
    if CPU <= line then AfterFields(loads, ParseFrom(line[3..], 0, Fields(0xFFFF_FFFF, 0)), elapsed, toMs)
    else loads
  }

  type LineEffect = (Loads, seq<char>) -> Loads

  function EffectOf(elapsed: uint32, toMs: Milliseconds): LineEffect {
    (loads, line) => AfterLine(loads, line, elapsed, toMs)
  }

  /** `effect` does to a table what a line does; stated so that it is used only where a line is. */
  ghost predicate Implements(effect: LineEffect, elapsed: uint32, toMs: Milliseconds) {
    forall loads, line {:trigger effect(loads, line), AfterLine(loads, line, elapsed, toMs)} ::
      effect(loads, line) == AfterLine(loads, line, elapsed, toMs)
  }

  /** The effect of a list of lines, first to last. */
  function AfterLines(effect: LineEffect, loads: Loads, lines: seq<seq<char>>): Loads
    decreases |lines|
  {
    if lines == [] then loads
    else effect(AfterLines(effect, loads, lines[..|lines| - 1]), lines[|lines| - 1])
  }

  // ---------------------------------------------------------------- the file

  /** An open file whose reads return any number of the bytes that are left, or fail. */
  class File {
    const content: seq<char>
    var pos: nat
    var failed: bool

    ghost predicate Valid()
      reads this
    {
      pos <= |content|
    }

    constructor (content: seq<char>)
      ensures Valid() && this.content == content && pos == 0 && !failed
    {
      this.content := content;
      pos, failed := 0, false;
    }

    /** What the reads can have delivered: everything, unless one failed. */
    ghost function Delivered(): seq<char>
      requires Valid()
      reads this
    {
      if failed then content[..pos] else content
    }

    method Rewind()
      modifies this
      ensures Valid() && pos == 0 && !failed
    {
      pos, failed := 0, false;
    }

    /** read(): the empty result stands for end of file and for an error. */
    method Read(limit: nat) returns (chunk: seq<char>)
      requires Valid() && 0 < limit
      modifies this
      ensures Valid() && pos == old(pos) + |chunk| && |chunk| <= limit
      ensures chunk == content[old(pos)..pos]
      ensures chunk == [] <==> failed || old(pos) == |content|
    {
      failed := *;
      if failed || pos == |content| {
        return [];
      }
      var n :| 1 <= n <= limit && n <= |content| - pos by {
        assert 1 <= limit && 1 <= |content| - pos;
      }
      chunk := content[pos..pos + n];
      pos := pos + n;
    }
  }

  // ---------------------------------------------------------------- the buffer

  ghost predicate IsFirstNewline(s: seq<char>, at: Option<nat>) {
    match at
    case None => '\n' !in s
    case Some(i) => i < |s| && s[i] == '\n' && '\n' !in s[..i]
  }

  /** memchr(&buffer[from], '\\n', to - from), as an offset from `from`. */
  method MemChr(buffer: array<char>, from: nat, to: nat) returns (offset: Option<nat>)
    requires from <= to <= buffer.Length
    ensures IsFirstNewline(buffer[from..to], offset)
  {
    ghost var s := buffer[from..to];
    for i := 0 to to - from
      invariant '\n' !in s[..i]
    {
      assert buffer[from + i] == s[i];
      if buffer[from + i] == '\n' {
        return Some(i);
      }
      assert s[..i + 1] == s[..i] + [s[i]];
    }
    assert s[..to - from] == s;
    offset := None;
  }

  /** The bytes a read stores. */
  method Fill(buffer: array<char>, at: nat, chunk: seq<char>)
    requires at + |chunk| <= buffer.Length
    modifies buffer
    ensures buffer[..at] == old(buffer[..at]) && buffer[at..at + |chunk|] == chunk
  {
    for i := 0 to |chunk|
      invariant buffer[..at] == old(buffer[..at])
      invariant buffer[at..at + i] == chunk[..i]
    {
      buffer[at + i] := chunk[i];
      assert buffer[at..at + i + 1] == buffer[at..at + i] + [chunk[i]];
    }
  }

  /** memmove() to the start of the buffer. */
  method MoveDown(buffer: array<char>, from: nat, to: nat)
    requires from <= to <= buffer.Length
    modifies buffer
    ensures buffer[..to - from] == old(buffer[from..to])
  {
    ghost var before := buffer[..];
    for i := 0 to to - from
      invariant buffer[..i] == before[from..from + i]
      invariant forall j :: i <= j < buffer.Length ==> buffer[j] == before[j]
    {
      buffer[i] := buffer[from + i];
      assert buffer[..i + 1] == buffer[..i] + [before[from + i]];
    }
  }

  // ---------------------------------------------------------------- the pass over the file

  lemma {:induction false} JoinedAppend(lines: seq<seq<char>>, line: seq<char>)
    ensures Joined(lines + [line]) == Joined(lines) + line + ['\n']
  {
    if lines == [] {
      assert lines + [line] == [line];
      assert [line][1..] == [];
    } else {
      assert (lines + [line])[1..] == lines[1..] + [line];
      JoinedAppend(lines[1..], line);
    }
  }

  lemma {:induction false} NewlineFree(s: seq<char>)
    requires '\n' !in s
    ensures LineLength(s) == |s|
  {
    LineLengthOf(s, []);
    assert s + [] == s;
  }

  lemma {:induction false} LongStretch(s: seq<char>, n: nat)
    requires n <= |s| && '\n' !in s[..n]
    ensures LineLength(s) >= n
    decreases n
  {
    if n > 0 {
      assert s[0] in s[..n];
      assert s[1..][..n - 1] == s[..n][1..];
      LongStretch(s[1..], n - 1);
    }
  }

  /** Comparing and parsing the C string in the buffer is comparing and parsing the line. */
  lemma LineInBuffer(buffer: seq<char>, line: seq<char>)
    requires |line| < |buffer| && 3 <= |buffer| && buffer[..|line|] == line && buffer[|line|] == '\0'
    ensures buffer[0] == 'c' && buffer[1] == 'p' && buffer[2] == 'u' <==> CPU <= line
    ensures CPU <= line ==>
      ParseFrom(buffer[3..], 0, Fields(0xFFFF_FFFF, 0)) == ParseFrom(line[3..], 0, Fields(0xFFFF_FFFF, 0))
  {
    assert forall i :: 0 <= i < |line| ==> buffer[i] == line[i] by {
      assert forall i :: 0 <= i < |line| ==> buffer[i] == buffer[..|line|][i];
    }
    if CPU <= line {
      assert line[0] == CPU[0] && line[1] == CPU[1] && line[2] == CPU[2];
      var tail := buffer[|line|..];
      assert buffer[3..] == line[3..] + tail;
      ParseStopsAtNul(line[3..], tail, 0, Fields(0xFFFF_FFFF, 0));
    }
  }

  class CpuLoadState {
    var numCpus: nat
    const perCore: array<Core>

    ghost predicate Valid() {
      perCore.Length == MAX_CPUS
    }

    /** The table, with the highest CPU number seen so far. */
    ghost function Here(highest: nat): Loads
      requires Valid()
      reads perCore
    {
      Table.Loads(perCore[..], highest)
    }

    constructor ()
      ensures Valid() && fresh(perCore)
      ensures numCpus == 0 && forall i :: 0 <= i < MAX_CPUS ==> perCore[i] == Core(0, 0)
    {
      numCpus := 0;
      perCore := new Core[MAX_CPUS](_ => Core(0, 0));
    }

    /** Updates the entry of the CPU a line is about, if there is one. */
    method Account(cpuNum: uint32, runTime: uint64, elapsed: uint32, toMs: Milliseconds, highest0: nat)
      returns (highest: nat)
      requires Valid()
      modifies perCore
      ensures Here(highest) ==
              AfterFields(old(Here(highest0)), Fields(cpuNum, runTime), elapsed, toMs)
      ensures highest <= highest0 || highest < MAX_CPUS
    {
      highest := highest0;
      if cpuNum < MAX_CPUS {
        if cpuNum > highest {
          highest := cpuNum;
        }
        var core := perCore[cpuNum];
        var cpuMs := toMs((runTime - core.lastRunTime) % TWO64);
        perCore[cpuNum] := Core(Load(cpuMs, elapsed), runTime);
      }
    }

    /** The treatment of one line, as a C string at the start of the buffer. */
    method TakeLine(buffer: array<char>, ghost line: seq<char>, elapsed: uint32, toMs: Milliseconds, highest0: nat)
      returns (highest: nat)
      requires Valid() && buffer.Length == BUFFER_SIZE
      requires |line| < BUFFER_SIZE && buffer[..|line|] == line && buffer[|line|] == '\0'
      modifies perCore
      ensures Here(highest) == AfterLine(old(Here(highest0)), line, elapsed, toMs)
      ensures highest <= highest0 || highest < MAX_CPUS
    {
      highest := highest0;
      LineInBuffer(buffer[..], line);
      if buffer[0] == 'c' && buffer[1] == 'p' && buffer[2] == 'u' {
        var cpuNum, runTime := ReadCpuuseLine(buffer[3..], 0xFFFF_FFFF, 0);
        assert buffer[3..] == buffer[..][3..];
        highest := Account(cpuNum, runTime, elapsed, toMs, highest0);
      }
    }

    /** One round of the inner loop: terminate, treat and drop the first line in the buffer. */
    method TakeFirstLine(buffer: array<char>, eol: nat, lineSize0: nat, elapsed: uint32, toMs: Milliseconds,
                         highest0: nat, ghost effect: LineEffect)
      returns (lineSize: nat, highest: nat)
      requires Valid() && buffer.Length == BUFFER_SIZE && Implements(effect, elapsed, toMs)
      requires eol < lineSize0 <= BUFFER_SIZE && buffer[eol] == '\n'
      modifies perCore, buffer
      ensures lineSize == lineSize0 - (eol + 1)
      ensures buffer[..lineSize] == old(buffer[eol + 1..lineSize0])
      ensures Here(highest) == effect(old(Here(highest0)), old(buffer[..eol]))
      ensures highest <= highest0 || highest < MAX_CPUS
    {
      ghost var line, rest := buffer[..eol], buffer[eol + 1..lineSize0];
      buffer[eol] := '\0';
      var next := eol + 1;
      highest := TakeLine(buffer, line, elapsed, toMs, highest0);
      assert buffer[next..lineSize0] == rest;
      if next < lineSize0 {
        MoveDown(buffer, next, lineSize0);
        lineSize := lineSize0 - next;
      } else {
        lineSize := 0;
      }
    }

    lemma PiecesOf(buffer: array<char>, n: nat, at: nat)
      requires at <= n <= buffer.Length
      ensures buffer[..n][..at] == buffer[..at] && buffer[..n][at..] == buffer[at..n]
      ensures at < n ==> buffer[..n][at + 1..] == buffer[at + 1..n]
    {
    }

    /** The inner loop: takes every complete line out of the buffer. */
    method TakeLines(buffer: array<char>, eol0: Option<nat>, lineSize0: nat, elapsed: uint32, toMs: Milliseconds,
                     highest0: nat, ghost effect: LineEffect)
      returns (lineSize: nat, highest: nat, ghost taken: seq<seq<char>>)
      requires Valid() && buffer.Length == BUFFER_SIZE && Implements(effect, elapsed, toMs)
      requires lineSize0 <= BUFFER_SIZE && highest0 < MAX_CPUS
      requires IsFirstNewline(buffer[..lineSize0], eol0)
      modifies perCore, buffer
      ensures lineSize <= lineSize0 && '\n' !in buffer[..lineSize]
      ensures Joined(taken) + buffer[..lineSize] == old(buffer[..lineSize0])
      ensures AllLines(taken)
      ensures Here(highest) == AfterLines(effect, old(Here(highest0)), taken)
      ensures highest < MAX_CPUS
    {
      var eol := eol0;
      lineSize, highest, taken := lineSize0, highest0, [];
      ghost var start, held, whole := Here(highest0), buffer[..lineSize0], buffer[..lineSize0];
      while eol.Some?
        invariant lineSize <= lineSize0 && held == buffer[..lineSize]
        invariant IsFirstNewline(held, eol)
        invariant Joined(taken) + held == whole
        invariant AllLines(taken)
        invariant highest < MAX_CPUS && Here(highest) == AfterLines(effect, start, taken)
        decreases lineSize
      {
        ghost var line, rest := held[..eol.value], held[eol.value + 1..];
        PiecesOf(buffer, lineSize, eol.value);
        lineSize, highest := TakeFirstLine(buffer, eol.value, lineSize, elapsed, toMs, highest, effect);
        TakenOne(taken, held, eol.value);
        AfterLinesAppend(effect, start, taken, line);
        held, taken := rest, taken + [line];
        eol := MemChr(buffer, 0, lineSize);
        PiecesOf(buffer, lineSize, 0);
      }
    }

    /** linux_sysmon_update_schedstat. Whatever sizes the reads have, the per-core table afterwards
        is a function of the file alone, or of the part delivered before a read failed. */
    method UpdateSchedstat(file: File, elapsedMs: int, toMs: Milliseconds)
      requires Valid()
      modifies this`numCpus, perCore, file
      ensures Valid() && file.Valid()
      ensures
        var after := AfterLines(EffectOf(Wrap32(elapsedMs), toMs), old(Here(0)), Lines(file.Delivered()));
        && perCore[..] == after.cores
        && numCpus == 1 + after.highest <= MAX_CPUS
    {
      var highest := ReadLines(file, Wrap32(elapsedMs), toMs, EffectOf(Wrap32(elapsedMs), toMs));
      numCpus := 1 + highest;
    }

    /** One read into the free end of the buffer, and the search for a newline in what was read. */
    method ReadChunk(file: File, buffer: array<char>, lineSize: nat) returns (chunk: seq<char>, eol: Option<nat>)
      requires file.Valid() && buffer.Length == BUFFER_SIZE
      requires lineSize < BUFFER_SIZE && '\n' !in buffer[..lineSize]
      modifies file, buffer
      ensures file.Valid() && lineSize + |chunk| <= BUFFER_SIZE
      ensures file.pos == old(file.pos) + |chunk| && chunk == file.content[old(file.pos)..file.pos]
      ensures chunk == [] <==> file.failed || old(file.pos) == |file.content|
      ensures chunk != [] ==>
        && buffer[..lineSize + |chunk|] == old(buffer[..lineSize]) + chunk
        && IsFirstNewline(buffer[..lineSize + |chunk|], eol)
    {
      ghost var before := buffer[..lineSize];
      chunk := file.Read(BUFFER_SIZE - lineSize);
      if chunk == [] {
        return [], None;
      }
      Fill(buffer, lineSize, chunk);
      var offset := MemChr(buffer, lineSize, lineSize + |chunk|);
      eol := if offset.Some? then Some(lineSize + offset.value) else None;
      NewlineInChunk(before, chunk, offset);
      assert buffer[..lineSize + |chunk|] == before + chunk;
    }

    /** The outer loop of linux_sysmon_update_schedstat. */
    method ReadLines(file: File, elapsed: uint32, toMs: Milliseconds, ghost effect: LineEffect) returns (highest: nat)
      requires Valid() && Implements(effect, elapsed, toMs)
      modifies perCore, file
      ensures file.Valid()
      ensures Here(highest) == AfterLines(effect, old(Here(0)), Lines(file.Delivered()))
      ensures highest < MAX_CPUS
    {
      var buffer := new char[BUFFER_SIZE];
      var lineSize: nat := 0;
      highest := 0;
      ghost var lines: seq<seq<char>>, start := [], Here(0);
      file.Rewind();
      while true
        invariant file.Valid() && !file.failed
        invariant lineSize < BUFFER_SIZE && '\n' !in buffer[..lineSize]
        invariant Joined(lines) + buffer[..lineSize] == file.content[..file.pos]
        invariant AllLines(lines)
        invariant highest < MAX_CPUS && Here(highest) == AfterLines(effect, start, lines)
        decreases |file.content| - file.pos
      {
        ghost var before, pos := buffer[..lineSize], file.pos;
        var chunk, eol := ReadChunk(file, buffer, lineSize);
        if chunk == [] {
          assert file.content[..file.pos] == file.content[..pos];
          Finished(file.content, file.pos, lines, before);
          break;
        }
        lineSize := lineSize + |chunk|;
        ghost var taken;
        lineSize, highest, taken := TakeLines(buffer, eol, lineSize, elapsed, toMs, highest, effect);
        Extend(file.content, pos, file.pos, lines, before, chunk, taken, buffer[..lineSize]);
        AfterLinesConcat(effect, start, lines, taken);
        lines := lines + taken;
        if lineSize >= BUFFER_SIZE {
          Overflowed(file.content, file.pos, lines, buffer[..lineSize]);
          break;
        }
      }
    }
  }

  lemma TakenOne(taken: seq<seq<char>>, held: seq<char>, eol: nat)
    requires AllLines(taken) && |held| <= BUFFER_SIZE && IsFirstNewline(held, Some(eol))
    ensures AllLines(taken + [held[..eol]])
    ensures Joined(taken + [held[..eol]]) + held[eol + 1..] == Joined(taken) + held
  {
    var line, rest := held[..eol], held[eol + 1..];
    JoinedAppend(taken, line);
    assert held == line + ['\n'] + rest;
    assert Joined(taken) + line + ['\n'] + rest == Joined(taken) + (line + ['\n'] + rest);
  }

  /** Searching only the new bytes finds the first newline of the whole buffer. */
  lemma NewlineInChunk(before: seq<char>, chunk: seq<char>, offset: Option<nat>)
    requires '\n' !in before && IsFirstNewline(chunk, offset)
    ensures IsFirstNewline(before + chunk, if offset.Some? then Some(|before| + offset.value) else None)
  {
    if offset.Some? {
      assert (before + chunk)[..|before| + offset.value] == before + chunk[..offset.value];
    }
  }

  lemma AfterLinesAppend(effect: LineEffect, loads: Loads, lines: seq<seq<char>>, line: seq<char>)
    ensures AfterLines(effect, loads, lines + [line]) == effect(AfterLines(effect, loads, lines), line)
  {
    assert (lines + [line])[..|lines|] == lines;
  }

  lemma {:induction false} AfterLinesConcat(effect: LineEffect, loads: Loads, lines: seq<seq<char>>,
                                            more: seq<seq<char>>)
    ensures AfterLines(effect, loads, lines + more) == AfterLines(effect, AfterLines(effect, loads, lines), more)
    decreases |more|
  {
    if more == [] {
      assert lines + more == lines;
    } else {
      var front, last := more[..|more| - 1], more[|more| - 1];
      AfterLinesConcat(effect, loads, lines, front);
      AfterLinesAppend(effect, loads, lines + front, last);
      assert lines + front + [last] == lines + more;
    }
  }

  lemma {:induction false} JoinedConcat(lines: seq<seq<char>>, more: seq<seq<char>>)
    ensures Joined(lines + more) == Joined(lines) + Joined(more)
    decreases |lines|
  {
    if lines == [] {
      assert lines + more == more;
    } else {
      assert (lines + more)[1..] == lines[1..] + more;
      JoinedConcat(lines[1..], more);
    }
  }

  /** The lines taken so far and what is left in the buffer make up what has been read. */
  lemma Extend(content: seq<char>, from: nat, to: nat, lines: seq<seq<char>>, before: seq<char>,
               chunk: seq<char>, taken: seq<seq<char>>, left: seq<char>)
    requires from <= to <= |content| && chunk == content[from..to]
    requires Joined(lines) + before == content[..from]
    requires Joined(taken) + left == before + chunk
    ensures Joined(lines + taken) + left == content[..to]
  {
    JoinedConcat(lines, taken);
    assert content[..to] == content[..from] + chunk;
    assert Joined(lines) + Joined(taken) + left == Joined(lines) + (Joined(taken) + left);
    assert Joined(lines) + before + chunk == Joined(lines) + (before + chunk);
  }

  lemma Finished(content: seq<char>, pos: nat, lines: seq<seq<char>>, left: seq<char>)
    requires pos <= |content| && Joined(lines) + left == content[..pos]
    requires AllLines(lines)
    requires '\n' !in left
    ensures lines == Lines(content[..pos])
    ensures pos == |content| ==> lines == Lines(content)
  {
    NewlineFree(left);
    LinesUnique(lines, left);
    assert content[..|content|] == content;
  }

  lemma Overflowed(content: seq<char>, pos: nat, lines: seq<seq<char>>, left: seq<char>)
    requires pos <= |content| && Joined(lines) + left == content[..pos]
    requires AllLines(lines)
    requires '\n' !in left && |left| >= BUFFER_SIZE
    ensures lines == Lines(content)
  {
    var rest := left + content[pos..];
    assert rest[..|left|] == left;
    LongStretch(rest, |left|);
    LinesUnique(lines, rest);
    Reassemble(Joined(lines), left, content, pos);
  }

  lemma Reassemble(front: seq<char>, left: seq<char>, content: seq<char>, pos: nat)
    requires pos <= |content| && front + left == content[..pos]
    ensures front + (left + content[pos..]) == content
  {
    assert front + (left + content[pos..]) == (front + left) + content[pos..];
  }
}
