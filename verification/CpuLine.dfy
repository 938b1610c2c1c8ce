/** Parsing one "cpu" line of /proc/schedstat and turning it into a load value
    (linux_sysmon_read_cpuuse_line and the body of linux_sysmon_update_schedstat). */
module CpuLine {
  import opened Bits

  const ULONG_MAX: nat := TWO64 - 1
  const MAX_CPUS: nat := 128
  const FULL_LOAD: nat := 0xFFFFFF

  // ---------------------------------------------------------------- C library behaviour

  /** isspace() in the "C" locale: space, and the five control characters from tab to return. */
  predicate IsSpace(c: char)
    ensures IsSpace(c) <==> c as int == 32 || 9 <= c as int <= 13
  {
    c == ' ' || ('\t' <= c <= '\r')
  }

  predicate IsDigit(c: char) {
    '0' <= c <= '9'
  }

  function SkipSpace(s: seq<char>): (rest: seq<char>)
    ensures |rest| <= |s|
  {
    if s != [] && IsSpace(s[0]) then SkipSpace(s[1..]) else s
  }

  lemma {:induction false} SkipSpaceStops(s: seq<char>)
    ensures SkipSpace(s) == [] || !IsSpace(SkipSpace(s)[0])
  {
    if s != [] && IsSpace(s[0]) {
      SkipSpaceStops(s[1..]);
    }
  }

  function DigitCount(s: seq<char>): (n: nat)
    ensures n <= |s|
  {
    if s != [] && IsDigit(s[0]) then 1 + DigitCount(s[1..]) else 0
  }

  function Digit(c: char): nat {
    if IsDigit(c) then c as int - '0' as int else 0
  }

  function DigitValue(digits: seq<char>): nat {
    if digits == [] then 0
    else 10 * DigitValue(digits[..|digits| - 1]) + Digit(digits[|digits| - 1])
  }

  /** What strtoul() stores for a run of digits after a sign: clamped at the largest number, and
      negated modulo 2^64 after a minus sign. */
  function Clamp(v: nat, negative: bool): (r: uint64)
    ensures v >= 0x1_0000_0000_0000_0000 ==> r == 0xFFFF_FFFF_FFFF_FFFF
    ensures v < 0x1_0000_0000_0000_0000 ==> if negative then v + r == 0 || v + r == 0x1_0000_0000_0000_0000 else r == v
  {
    if v > ULONG_MAX then ULONG_MAX
    else if negative && v > 0 then TWO64 - v
    else v
  }

  function SignLength(s: seq<char>): (n: nat)
    ensures n <= |s|
  {
    if s != [] && (s[0] == '-' || s[0] == '+') then 1 else 0
  }

  /** strtoul(s, &end, 10), section 7.22.1.4 of C11, on a string that does not start with white
      space: the value, and how many characters were consumed, 0 when there is no number. */
  function StrtoulHere(s: seq<char>): (r: (uint64, nat))
    ensures r.1 <= |s|
  {
    var sign := SignLength(s);
    var n := DigitCount(s[sign..]);
    if n == 0 then (0, 0)
    else (Clamp(DigitValue(s[sign..][..n]), s[0] == '-'), sign + n)
  }

  function Strtoul(s: seq<char>): (r: (uint64, nat))
    ensures r.1 <= |s|
  {
    var t := SkipSpace(s);
    var (value, used) := StrtoulHere(t);
    if used == 0 then (0, 0) else (value, |s| - |t| + used)
  }

  // ---------------------------------------------------------------- the fields of a line

  datatype Fields = Fields(cpuNum: uint32, runTime: uint64) {
    /** The effect of the `count`-th number of the line. */
    function With(count: nat, value: uint64): Fields {
      if count == 0 then this.(cpuNum := Wrap32(value))
      else if count == 7 then this.(runTime := value)
      else this
    }
  }

  /** The loop over fields, `count` of which have been read; `s` is what is left of the string,
      which ends at its first NUL or at the end of the sequence. */
  function ParseFrom(s: seq<char>, count: nat, f: Fields): Fields
    decreases if count < 10 then 10 - count else 0
  {
    if count >= 10 || s == [] || s[0] == '\0' then f
    else
      var t := SkipSpace(s);
      var (value, used) := Strtoul(t);
      if used == 0 then f else ParseFrom(t[used..], count + 1, f.With(count, value))
  }

  /** The inner loop of linux_sysmon_read_cpuuse_line. */
  method PassSpaces(line: seq<char>, start: nat) returns (at: nat)
    requires start <= |line|
    ensures start <= at <= |line| && line[at..] == SkipSpace(line[start..])
  {
    at := start;
    while at < |line| && IsSpace(line[at])
      invariant start <= at <= |line|
      invariant SkipSpace(line[at..]) == SkipSpace(line[start..])
    {
      assert line[at..][1..] == line[at + 1..];
      at := at + 1;
    }
  }

  /** linux_sysmon_read_cpuuse_line. */
  method ReadCpuuseLine(line: seq<char>, cpuNum0: uint32, runTime0: uint64)
    returns (cpuNum: uint32, runTime: uint64)
    ensures Fields(cpuNum, runTime) == ParseFrom(line, 0, Fields(cpuNum0, runTime0))
  {
    cpuNum, runTime := cpuNum0, runTime0;
    var at, count := 0, 0;
    ghost var rest, f := line, Fields(cpuNum, runTime);
    while count < 10 && at < |line| && line[at] != '\0'
      invariant at <= |line| && count <= 10
      invariant rest == line[at..] && f == Fields(cpuNum, runTime)
      invariant ParseFrom(rest, count, f) == ParseFrom(line, 0, Fields(cpuNum0, runTime0))
      decreases 10 - count
    {
      at := PassSpaces(line, at);
      var (value, used) := Strtoul(line[at..]);
      ParseStep(rest, count, f);
      rest := SkipSpace(rest);
      if used == 0 {
        return;
      }
      assert rest[used..] == line[at + used..];
      rest, f := rest[used..], f.With(count, value);
      at := at + used;
      if count == 0 {
        cpuNum := Wrap32(value);
      } else if count == 7 {
        runTime := value;
      }
      count := count + 1;
    }
  }

  lemma ParseStep(s: seq<char>, count: nat, f: Fields)
    requires count < 10 && s != [] && s[0] != '\0'
    ensures
      var t := SkipSpace(s);
      var r := Strtoul(t);
      ParseFrom(s, count, f) == if r.1 == 0 then f else ParseFrom(t[r.1..], count + 1, f.With(count, r.0))
  {
  }

  // ---------------------------------------------------------------- the parser stays in its line

  lemma {:induction false} SkipSpaceAppend(s: seq<char>, t: seq<char>)
    requires t == [] || !IsSpace(t[0])
    ensures SkipSpace(s + t) == SkipSpace(s) + t
  {
    if s == [] {
      assert s + t == t;
    } else {
      assert (s + t)[1..] == s[1..] + t;
      SkipSpaceAppend(s[1..], t);
    }
  }

  lemma {:induction false} DigitCountAppend(s: seq<char>, t: seq<char>)
    requires t == [] || !IsDigit(t[0])
    ensures DigitCount(s + t) == DigitCount(s)
  {
    if s == [] {
      assert s + t == t;
    } else {
      assert (s + t)[1..] == s[1..] + t;
      DigitCountAppend(s[1..], t);
    }
  }

  lemma StrtoulHereAppend(s: seq<char>, t: seq<char>)
    requires t != [] && t[0] == '\0'
    ensures StrtoulHere(s + t) == StrtoulHere(s)
  {
    if s == [] {
      assert s + t == t;
    } else {
      var sign := SignLength(s);
      assert (s + t)[sign..] == s[sign..] + t;
      DigitCountAppend(s[sign..], t);
      var n := DigitCount(s[sign..]);
      assert (s[sign..] + t)[..n] == s[sign..][..n];
    }
  }

  lemma StrtoulSkipped(s: seq<char>)
    requires s == [] || !IsSpace(s[0])
    ensures SkipSpace(s) == s && Strtoul(s) == StrtoulHere(s)
  {
  }

  lemma StepAppend(s: seq<char>, t: seq<char>)
    requires t != [] && t[0] == '\0'
    ensures SkipSpace(s + t) == SkipSpace(s) + t
    ensures Strtoul(SkipSpace(s) + t) == Strtoul(SkipSpace(s))
  {
    SkipSpaceAppend(s, t);
    SkipSpaceStops(s);
    var u := SkipSpace(s);
    StrtoulSkipped(u);
    StrtoulSkipped(u + t);
    StrtoulHereAppend(u, t);
  }

  /** Whatever follows the terminating NUL in the buffer has no influence on the parse. */
  lemma {:induction false} ParseStopsAtNul(s: seq<char>, tail: seq<char>, count: nat, f: Fields)
    requires tail != [] && tail[0] == '\0'
    ensures ParseFrom(s + tail, count, f) == ParseFrom(s, count, f)
    decreases if count < 10 then 10 - count else 0
  {
    if s == [] {
      assert s + tail == tail;
    } else if count < 10 && s[0] != '\0' {
      StepAppend(s, tail);
      var t := SkipSpace(s);
      var (value, used) := Strtoul(t);
      assert (t + tail)[used..] == t[used..] + tail;
      if used != 0 {
        ParseStopsAtNul(t[used..], tail, count + 1, f.With(count, value));
      }
    }
  }

  // ---------------------------------------------------------------- printing and parsing back

  /** Decimal notation, as "%u" prints it. */
  function Decimal(n: nat): (s: seq<char>)
    ensures s != []
  {
    var last := [('0' as int + n % 10) as char];
    if n < 10 then last else Decimal(n / 10) + last
  }

  lemma {:induction false} DecimalDigits(n: nat)
    ensures forall i :: 0 <= i < |Decimal(n)| ==> IsDigit(Decimal(n)[i])
    ensures DigitValue(Decimal(n)) == n
  {
    var s := Decimal(n);
    if n < 10 {
      assert s[..|s| - 1] == [];
    } else {
      DecimalDigits(n / 10);
      assert s[..|s| - 1] == Decimal(n / 10);
    }
  }

  lemma {:induction false} AllDigitsCount(s: seq<char>, t: seq<char>)
    requires forall i :: 0 <= i < |s| ==> IsDigit(s[i])
    requires t == [] || !IsDigit(t[0])
    ensures DigitCount(s + t) == |s|
  {
    if s == [] {
      assert s + t == t;
    } else {
      assert (s + t)[1..] == s[1..] + t;
      AllDigitsCount(s[1..], t);
    }
  }

  lemma StrtoulDecimal(n: uint64, t: seq<char>)
    requires t == [] || !IsDigit(t[0])
    ensures SkipSpace(Decimal(n) + t) == Decimal(n) + t
    ensures Strtoul(Decimal(n) + t) == (n, |Decimal(n)|)
  {
    var s := Decimal(n);
    DecimalDigits(n);
    AllDigitsCount(s, t);
    StrtoulSkipped(s + t);
    assert (s + t)[0..] == s + t && (s + t)[..|s|] == s;
  }

  /** Numbers separated by single spaces. */
  function Printed(numbers: seq<nat>): seq<char>
    decreases |numbers|, 0
  {
    if numbers == [] then [] else Decimal(numbers[0]) + Following(numbers[1..])
  }

  function Following(numbers: seq<nat>): seq<char>
    decreases |numbers|, 1
  {
    if numbers == [] then [] else [' '] + Printed(numbers)
  }

  /** The parser's effect on a list of numbers. */
  function Chosen(numbers: seq<uint64>, count: nat, f: Fields): Fields {
    if numbers == [] then f else Chosen(numbers[1..], count + 1, f.With(count, numbers[0]))
  }

  lemma ParseOne(gap: seq<char>, n: uint64, rest: seq<char>, count: nat, f: Fields)
    requires count < 10 && (gap == [] || gap == [' '])
    requires rest == [] || !IsDigit(rest[0])
    ensures ParseFrom(gap + (Decimal(n) + rest), count, f) == ParseFrom(rest, count + 1, f.With(count, n))
  {
    var s := Decimal(n) + rest;
    StrtoulDecimal(n, rest);
    DecimalDigits(n);
    assert IsDigit(s[0]);
    if gap == [] {
      assert gap + s == s;
    } else {
      assert (gap + s)[1..] == s;
    }
    assert s[|Decimal(n)|..] == rest;
  }

  /** Text that no number starts with. */
  predicate Junk(s: seq<char>) {
    s == [] || !(IsSpace(s[0]) || IsDigit(s[0]) || s[0] == '+' || s[0] == '-')
  }

  /** Where no number follows, the loop ends and keeps what it has. */
  lemma JunkStops(junk: seq<char>, count: nat, f: Fields)
    requires Junk(junk)
    ensures ParseFrom(junk, count, f) == f
  {
    if count < 10 && junk != [] && junk[0] != '\0' {
      assert junk[0..] == junk;
    }
  }

  /** Printed numbers are read back one by one, up to the first text that is no number. */
  lemma {:induction false} ParsePrinted(gap: seq<char>, numbers: seq<uint64>, junk: seq<char>, count: nat, f: Fields)
    requires numbers != [] && count + |numbers| <= 10
    requires (gap == [] || gap == [' ']) && Junk(junk)
    ensures ParseFrom(gap + (Printed(numbers) + junk), count, f) == Chosen(numbers, count, f)
    decreases |numbers|
  {
    var f' := f.With(count, numbers[0]);
    ParseHead(gap, numbers, junk, count, f);
    if |numbers| > 1 {
      Reassociate([' '], Printed(numbers[1..]), junk);
      ParsePrinted([' '], numbers[1..], junk, count + 1, f');
    } else {
      assert Following(numbers[1..]) + junk == junk;
      JunkStops(junk, count + 1, f');
    }
  }

  lemma ParseHead(gap: seq<char>, numbers: seq<uint64>, junk: seq<char>, count: nat, f: Fields)
    requires numbers != [] && count < 10
    requires (gap == [] || gap == [' ']) && Junk(junk)
    ensures ParseFrom(gap + (Printed(numbers) + junk), count, f) ==
            ParseFrom(Following(numbers[1..]) + junk, count + 1, f.With(count, numbers[0]))
  {
    var more := Following(numbers[1..]);
    Reassociate(Decimal(numbers[0]), more, junk);
    NotADigit(more, junk);
    ParseOne(gap, numbers[0], more + junk, count, f);
  }

  lemma NotADigit(more: seq<char>, junk: seq<char>)
    requires Junk(junk) && (more == [] || more[0] == ' ')
    ensures more + junk == [] || !IsDigit((more + junk)[0])
  {
  }

  lemma NothingAfter(s: seq<char>)
    ensures s + [] == s
  {
  }

  lemma Reassociate(a: seq<char>, b: seq<char>, c: seq<char>)
    ensures (a + b) + c == a + (b + c)
  {
  }

  lemma {:induction false} ChosenIsSeventh(numbers: seq<uint64>, count: nat, f: Fields)
    requires 1 <= count
    ensures Chosen(numbers, count, f) ==
      if count <= 7 < count + |numbers| then f.(runTime := numbers[7 - count]) else f
    decreases |numbers|
  {
    if numbers != [] {
      ChosenIsSeventh(numbers[1..], count + 1, f.With(count, numbers[0]));
    }
  }

  lemma ChosenFields(numbers: seq<uint64>, f: Fields)
    requires numbers != []
    ensures Chosen(numbers, 0, f) ==
            Fields(numbers[0] % 0x1_0000_0000, if |numbers| > 7 then numbers[7] else f.runTime)
  {
    ChosenIsSeventh(numbers[1..], 1, f.With(0, numbers[0]));
  }

  /** A line of up to ten numbers, whatever text follows them, gives the first number, as a 32-bit
      CPU number, and the seventh value after it if there is one. */
  lemma NumbersRead(numbers: seq<uint64>, junk: seq<char>, f: Fields)
    requires 1 <= |numbers| <= 10 && Junk(junk)
    ensures ParseFrom(Printed(numbers) + junk, 0, f) ==
            Fields(numbers[0] % 0x1_0000_0000, if |numbers| > 7 then numbers[7] else f.runTime)
  {
    var line := Printed(numbers) + junk;
    ParsePrinted([], numbers, junk, 0, f);
    assert [] + line == line;
    ChosenFields(numbers, f);
  }

  lemma WholeLineRead(numbers: seq<uint64>, f: Fields)
    requires 1 <= |numbers| <= 10
    ensures ParseFrom(Printed(numbers), 0, f) ==
            Fields(numbers[0] % 0x1_0000_0000, if |numbers| > 7 then numbers[7] else f.runTime)
  {
    NothingAfter(Printed(numbers));
    NumbersRead(numbers, [], f);
  }

  /** Reading a printed line gives back the CPU number and the seventh value. */
  lemma PrintedLineRoundTrip(numbers: seq<uint64>, f: Fields)
    requires |numbers| == 10 && numbers[0] < TWO32
    ensures ParseFrom(Printed(numbers), 0, f) == Fields(numbers[0], numbers[7])
  {
    var first, seventh := numbers[0], numbers[7];
    WholeLineRead(numbers, f);
    assert first % 0x1_0000_0000 == first;
  }

  // ---------------------------------------------------------------- what strtoul gives

  predicate AllSpace(s: seq<char>) {
    forall i :: 0 <= i < |s| ==> IsSpace(s[i])
  }

  predicate AllDigits(s: seq<char>) {
    forall i :: 0 <= i < |s| ==> IsDigit(s[i])
  }

  lemma {:induction false} SkipSpaceOf(space: seq<char>, s: seq<char>)
    requires AllSpace(space)
    requires s == [] || !IsSpace(s[0])
    ensures SkipSpace(space + s) == s
    decreases |space|
  {
    if space == [] {
      assert space + s == s;
    } else {
      assert (space + s)[1..] == space[1..] + s;
      SkipSpaceOf(space[1..], s);
    }
  }

  /** White space, an optional sign and digits are taken whole, and their value is clamped. */
  lemma StrtoulValue(space: seq<char>, sign: seq<char>, digits: seq<char>, rest: seq<char>)
    requires AllSpace(space)
    requires sign == [] || sign == ['+'] || sign == ['-']
    requires digits != [] && AllDigits(digits)
    requires rest == [] || !IsDigit(rest[0])
    ensures Strtoul(space + (sign + (digits + rest))) ==
            (Clamp(DigitValue(digits), sign == ['-']), |space| + |sign| + |digits|)
  {
    DigitsCounted(digits, rest);
    StrtoulClamped(space, sign, digits, rest);
  }

  lemma DigitsCounted(digits: seq<char>, rest: seq<char>)
    requires digits != [] && AllDigits(digits)
    requires rest == [] || !IsDigit(rest[0])
    ensures IsDigit(digits[0]) && DigitCount(digits + rest) == |digits|
  {
    AllDigitsCount(digits, rest);
  }

  lemma StrtoulClamped(space: seq<char>, sign: seq<char>, digits: seq<char>, rest: seq<char>)
    requires AllSpace(space)
    requires sign == [] || sign == ['+'] || sign == ['-']
    requires digits != [] && IsDigit(digits[0]) && DigitCount(digits + rest) == |digits|
    ensures Strtoul(space + (sign + (digits + rest))) ==
            (Clamp(DigitValue(digits), sign == ['-']), |space| + |sign| + |digits|)
  {
    var t := sign + (digits + rest);
    if sign == [] {
      assert t[0] == digits[0];
    } else {
      assert t[0] == sign[0] && (sign[0] == '+' || sign[0] == '-');
    }
    assert !IsSpace(t[0]);
    SignedHere(sign, digits, rest);
    StrtoulSkips(space, t);
  }

  lemma StrtoulSkips(space: seq<char>, t: seq<char>)
    requires AllSpace(space)
    requires t == [] || !IsSpace(t[0])
    ensures
      var r := StrtoulHere(t);
      Strtoul(space + t) == if r.1 == 0 then (0, 0) else (r.0, |space| + r.1)
  {
    SkipSpaceOf(space, t);
  }

  lemma SignedHere(sign: seq<char>, digits: seq<char>, rest: seq<char>)
    requires sign == [] || sign == ['+'] || sign == ['-']
    requires digits != [] && IsDigit(digits[0]) && DigitCount(digits + rest) == |digits|
    ensures StrtoulHere(sign + (digits + rest)) == (Clamp(DigitValue(digits), sign == ['-']), |sign| + |digits|)
  {
    var t := sign + (digits + rest);
    assert SignLength(t) == |sign|;
    assert t[|sign|..] == digits + rest;
    assert t[|sign|..][..|digits|] == digits;
  }

  /** Without a digit after white space and an optional sign there is no number. */
  lemma StrtoulNone(space: seq<char>, sign: seq<char>, rest: seq<char>)
    requires AllSpace(space)
    requires sign == [] || sign == ['+'] || sign == ['-']
    requires rest == [] || !IsDigit(rest[0])
    requires sign == [] ==> Junk(rest)
    ensures Strtoul(space + (sign + rest)) == (0, 0)
  {
    var t := sign + rest;
    StrtoulSkips(space, t);
    assert SignLength(t) == |sign|;
    assert t[|sign|..] == rest;
  }

  // ---------------------------------------------------------------- load values

  /** The stored load: `cpuMs` busy milliseconds out of `elapsed`, as a 12-bit fraction repeated
      in the upper and lower half of 24 bits. The source's middle branch cannot be reached. */
  function Load(cpuMs: uint32, elapsed: uint32): int {
    if cpuMs >= elapsed then FULL_LOAD
    else if elapsed == 0 then 0
    else
      Expand(Fraction(cpuMs, elapsed))
  }

  function Fraction(cpuMs: uint32, elapsed: uint32): nat
    requires elapsed > 0
  {
    Wrap32(0x1000 * cpuMs) / elapsed
  }

  function Expand(q: nat): nat {
    Or(q, q * 0x1000)
  }

  lemma ExpandTwelveBits(q: nat)
    requires q < 0x1000
    ensures Expand(q) == 0x1001 * q
  {
    assert Pow2(6) == 64;
    assert Pow2(12) == 64 * Pow2(6);
    OrDisjoint(q * 0x1000, q, 12);
    OrCommutes(q, q * 0x1000);
  }

  lemma FractionBelow(cpuMs: uint32, elapsed: uint32)
    requires cpuMs < elapsed
    ensures Fraction(cpuMs, elapsed) < 0x1000
  {
    var x := Wrap32(0x1000 * cpuMs);
    assert x <= 0x1000 * cpuMs;
    DivBelow(x, elapsed, 0x1000);
  }

  lemma LoadQuotient(cpuMs: uint32, elapsed: uint32)
    requires cpuMs < elapsed
    ensures Fraction(cpuMs, elapsed) < 0x1000
    ensures Load(cpuMs, elapsed) == 0x1001 * Fraction(cpuMs, elapsed)
  {
    FractionBelow(cpuMs, elapsed);
    ExpandTwelveBits(Fraction(cpuMs, elapsed));
  }

  /** Every load in full: all bits set when the whole interval was busy, otherwise the 12-bit
      quotient of the 32-bit product, twice. */
  lemma LoadValue(cpuMs: uint32, elapsed: uint32)
    ensures Load(cpuMs, elapsed) ==
      if cpuMs >= elapsed then 0xFF_FFFF else 0x1001 * (0x1000 * cpuMs % 0x1_0000_0000 / elapsed)
  {
    if cpuMs < elapsed {
      LoadQuotient(cpuMs, elapsed);
    }
  }

  /** A load always fits in 24 bits, even when the product wraps. */
  lemma LoadFits(cpuMs: uint32, elapsed: uint32)
    ensures 0 <= Load(cpuMs, elapsed) <= FULL_LOAD
  {
    if cpuMs < elapsed {
      LoadQuotient(cpuMs, elapsed);
    }
  }

  /** A load is the exact 12-bit fraction up to 2^20 - 1 busy milliseconds, and never beyond: there
      the 32-bit product has wrapped. */
  lemma LoadExactIff(cpuMs: uint32, elapsed: uint32)
    requires cpuMs < elapsed
    ensures Load(cpuMs, elapsed) == 0x1001 * (0x1000 * cpuMs / elapsed) <==> cpuMs < 0x10_0000
  {
    LoadQuotient(cpuMs, elapsed);
    FractionExactIff(cpuMs, elapsed);
  }

  lemma FractionExactIff(cpuMs: uint32, elapsed: uint32)
    requires cpuMs < elapsed
    ensures Fraction(cpuMs, elapsed) == 0x1000 * cpuMs / elapsed <==> cpuMs < 0x10_0000
  {
    if cpuMs >= 0x10_0000 {
      WrappedQuotient(0x1000 * cpuMs, elapsed);
    } else {
      assert Wrap32(0x1000 * cpuMs) == 0x1000 * cpuMs;
    }
  }

  /** A dividend that has wrapped gives a smaller quotient. */
  lemma WrappedQuotient(x: nat, n: uint32)
    requires n > 0 && x >= TWO32
    ensures Wrap32(x) / n < x / n
  {
    assert x >= Wrap32(x) + n;
    assert x - n == x + (-1) * n;
    ModAddMultiple(x, n, -1);
    DivMonotone(Wrap32(x), x - n, n);
  }
}
