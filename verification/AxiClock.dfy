/**
 The times of packets that are written and read back: what the reader's clock
 makes of the delay lines and of one period for each bus word.
 */
module AxiClock {
  import opened HexText
  import opened AxiText
  import opened Numbers

  /** Nanoseconds in seconds. */
  function Seconds(n: nat): real {
    n as real / BILLION
  }

  /** The words that `n` bytes take on a bus of `width` bytes. */
  function WordCount(n: nat, width: nat): nat
    requires width > 0
  {
    (n + width - 1) / width
  }

  /** When the last word of a packet has gone. */
  function EndOf(p: Source, width: nat, period: nat): nat
    requires width > 0
  {
    p.time + WordCount(|p.bytes|, width) * period
  }

  /** How long packets up to `k` began before the ones before them had ended, in all. */
  function Overlap(ps: seq<Source>, k: nat, width: nat, period: nat): nat
    requires width > 0 && k < |ps|
  {
    if k == 0 then 0
    else
      var end := EndOf(ps[k - 1], width, period);
      Overlap(ps, k - 1, width, period) + (if end > ps[k].time then end - ps[k].time else 0)
  }

  lemma OneWordLess(n: nat, width: nat)
    requires 0 < width < n
    ensures WordCount(n, width) == WordCount(n - width, width) + 1
  {
    var m := n - width + (width - 1);
    assert m == width * (m / width) + m % width;
    assert m + width == width * (m / width + 1) + m % width;
    QuotientIs(m + width, width, m / width + 1, m % width);
  }

  lemma NoWord(width: nat)
    requires width > 0
    ensures WordCount(0, width) == 0
  {
  }

  lemma OneWord(n: nat, width: nat)
    requires 0 < n <= width
    ensures WordCount(n, width) == 1
  {
  }

  lemma {:induction false} EndedIs(bytes: seq<Byte>, width: nat, period: nat, time: nat)
    requires width > 0
    ensures Ended(bytes, width, period, time) == time + WordCount(|bytes|, width) * period
    decreases |bytes|
  {
    if bytes == [] {
      NoWord(width);
    } else if |bytes| <= width {
      OneWord(|bytes|, width);
    } else {
      OneWordLess(|bytes|, width);
      EndedIs(bytes[width..], width, period, time + period);
      var n := WordCount(|bytes| - width, width);
      assert (n + 1) * period == n * period + period;
    }
  }

  lemma {:induction false} SecondsTimes(n: nat, period: nat)
    ensures Seconds(n * period) == n as real * Seconds(period)
  {
    if n > 0 {
      SecondsTimes(n - 1, period);
      assert n * period == (n - 1) * period + period;
      RealTimes(n - 1, Seconds(period));
    }
  }

  lemma RealTimes(n: nat, x: real)
    ensures (n + 1) as real * x == n as real * x + x
  {
  }

  // --- the clock over words, packets, files -----------------------------------------------------

  lemma {:induction false} ClockedOfSum(st: Reading, c: Clock, a: seq<string>, b: seq<string>, period: real)
    requires ReadLines(st, a).Some? && ReadLines(st, a + b).Some?
    ensures ReadLines(ReadLines(st, a).value, b).Some?
    ensures Clocked(st, c, a + b, period) == Clocked(ReadLines(st, a).value, Clocked(st, c, a, period), b, period)
    decreases |a|
  {
    if a == [] {
      assert a + b == b;
    } else {
      assert (a + b)[0] == a[0] && (a + b)[1..] == a[1..] + b;
      ClockedOfSum(ReadLine(st, a[0]).value, Ticked(c, st.data == [], a[0], period), a[1..], b, period);
    }
  }

  lemma ClockedFirst(st: Reading, c: Clock, line: string, rest: seq<string>, next: Reading, period: real)
    requires ReadLine(st, line) == Some(next) && ReadLines(next, rest).Some?
    ensures ReadLines(st, [line] + rest).Some?
    ensures Clocked(st, c, [line] + rest, period) == Clocked(next, Ticked(c, st.data == [], line, period), rest, period)
  {
    assert ([line] + rest)[1..] == rest;
  }

  lemma FieldsParsed(line: string, data: string, strb: string, tuser: string, bytes: seq<Byte>, n: nat, t: nat, last: bool)
    requires bytes != [] && Means(data, strb, tuser, bytes, n, t) && line == LineOf(data, strb, tuser, last)
    ensures ParseLine(line) == Data(data, strb, tuser, last)
  {
    FieldsRoundTrip(data, strb, tuser, last);
  }

  /** The clock after a bus word. */
  function AfterTick(c: Clock, between: bool, last: bool, period: real): Clock {
    var began := if between then c.time else c.began;
    Clock(c.time + period, began, if last then c.stamps + [began] else c.stamps)
  }

  lemma WordTicks(c: Clock, between: bool, word: seq<Byte>, width: nat, t: nat, last: bool, period: real)
    requires 0 < |word| <= width
    ensures Ticked(c, between, WordLine(word, width, t, last), period) == AfterTick(c, between, last, period)
  {
    var padded := word + Zeros(width - |word|);
    FieldsMeanWord(padded, |word|, width, t);
    FieldsParsed(WordLine(word, width, t, last), DataText(padded), StrbText(|word|, width), UserText(t), padded, |word|, t, last);
  }

  lemma WordClocked(st: Reading, c: Clock, word: seq<Byte>, width: nat, t: nat, last: bool, rest: seq<string>, period: real)
    requires 0 < |word| <= width && (last || |word| == width)
    requires st.digits < 0 || st.digits == Digits(width)
    requires ReadLines(AfterWord(st, word, width, t, last), rest).Some?
    ensures var lines := [WordLine(word, width, t, last)] + rest;
            && ReadLines(st, lines).Some?
            && Clocked(st, c, lines, period) ==
                 Clocked(AfterWord(st, word, width, t, last), AfterTick(c, st.data == [], last, period), rest, period)
  {
    WordIsRead(st, word, width, t, last);
    WordTicks(c, st.data == [], word, width, t, last, period);
    ClockedFirst(st, c, WordLine(word, width, t, last), rest, AfterWord(st, word, width, t, last), period);
  }

  /** The clock after the `n` words of a packet. */
  function AfterWords(c: Clock, between: bool, n: nat, period: real): Clock {
    var began := if between then c.time else c.began;
    Clock(c.time + n as real * period, began, c.stamps + [began])
  }

  lemma LastTick(c: Clock, between: bool, period: real)
    ensures AfterTick(c, between, true, period) == AfterWords(c, between, 1, period)
  {
  }

  lemma TickThenWords(c: Clock, between: bool, n: nat, period: real)
    ensures AfterWords(AfterTick(c, between, false, period), false, n, period) == AfterWords(c, between, n + 1, period)
  {
    RealTimes(n, period);
  }

  lemma LastClocked(st: Reading, c: Clock, word: seq<Byte>, width: nat, us: seq<nat>, period: real)
    requires 0 < |word| <= width
    requires st.digits < 0 || st.digits == Digits(width)
    ensures ReadLines(st, WordLines(word, width, us)).Some?
    ensures Clocked(st, c, WordLines(word, width, us), period) == AfterTick(c, st.data == [], true, period)
  {
    WordClocked(st, c, word, width, Head(us), true, [], period);
    assert [WordLine(word, width, Head(us), true)] + [] == WordLines(word, width, us);
  }

  lemma {:induction false} LineCount(bytes: seq<Byte>, width: nat, us: seq<nat>)
    requires width > 0
    ensures |WordLines(bytes, width, us)| == WordCount(|bytes|, width)
    decreases |bytes|
  {
    if bytes == [] {
      NoWord(width);
    } else if |bytes| <= width {
      OneWord(|bytes|, width);
    } else {
      OneWordLess(|bytes|, width);
      LineCount(bytes[width..], width, Tail(us));
    }
  }

  lemma FirstClocked(st: Reading, c: Clock, bytes: seq<Byte>, width: nat, us: seq<nat>, period: real)
    requires 0 < width < |bytes|
    requires st.digits < 0 || st.digits == Digits(width)
    requires ReadLines(AfterWord(st, bytes[..width], width, Head(us), false), WordLines(bytes[width..], width, Tail(us))).Some?
    ensures ReadLines(st, WordLines(bytes, width, us)).Some?
    ensures Clocked(st, c, WordLines(bytes, width, us), period) ==
      Clocked(AfterWord(st, bytes[..width], width, Head(us), false), AfterTick(c, st.data == [], false, period),
              WordLines(bytes[width..], width, Tail(us)), period)
    ensures |WordLines(bytes, width, us)| == |WordLines(bytes[width..], width, Tail(us))| + 1
  {
    WordClocked(st, c, bytes[..width], width, Head(us), false, WordLines(bytes[width..], width, Tail(us)), period);
  }

  /** A packet is stamped with the time of its first word, and each word takes one period. */
  lemma {:induction false} WordsClocked(st: Reading, c: Clock, bytes: seq<Byte>, width: nat, us: seq<nat>, period: real)
    requires width > 0 && bytes != []
    requires st.digits < 0 || st.digits == Digits(width)
    ensures ReadLines(st, WordLines(bytes, width, us)).Some?
    ensures Clocked(st, c, WordLines(bytes, width, us), period)
            == AfterWords(c, st.data == [], |WordLines(bytes, width, us)|, period)
    decreases |bytes|
  {
    if |bytes| <= width {
      LastClocked(st, c, bytes, width, us, period);
      LastTick(c, st.data == [], period);
    } else {
      var next, now := AfterWord(st, bytes[..width], width, Head(us), false), AfterTick(c, st.data == [], false, period);
      assert next.data != [] by {
        assert |next.data| == |st.data| + width;
      }
      WordsClocked(next, now, bytes[width..], width, Tail(us), period);
      FirstClocked(st, c, bytes, width, us, period);
      TickThenWords(c, st.data == [], |WordLines(bytes[width..], width, Tail(us))|, period);
    }
  }

  /** The clock after the delay line of a packet, if there is one. */
  function Delayed(time: nat, last: Option<nat>, now: real): real {
    if last.None? then time as real
    else if time > last.value then now + Seconds(time - last.value)
    else now
  }

  lemma DelayClocked(st: Reading, c: Clock, time: nat, last: Option<nat>, period: real)
    ensures ReadLines(st, DelayLines(time, last)) == Some(st)
    ensures Clocked(st, c, DelayLines(time, last), period) == c.(time := Delayed(time, last, c.time))
  {
    DelaysAreSkipped(st, time, last);
    var lines := DelayLines(time, last);
    if lines != [] {
      var mark, n := if last.None? then '@' else '+', if last.None? then time else time - last.value;
      DelayIsRead(mark, n);
      DelayIsSkipped(st, mark, n);
      ClockedFirst(st, c, lines[0], [], st, period);
      assert lines == [lines[0]] + [];
    }
  }

  lemma BlankClocked(st: Reading, c: Clock, period: real)
    ensures ReadLines(st, [""]) == Some(st) && Clocked(st, c, [""], period) == c
  {
    BlankIsSkipped(st);
    ClockedFirst(st, c, "", [], st, period);
    assert [""] + [] == [""];
  }

  /** The lines of a packet, from its first word on. */
  lemma LinesClocked(st: Reading, c: Clock, p: Source, width: nat, period: real)
    requires width > 0 && BetweenPackets(st, width) && p.bytes != []
    ensures ReadLines(st, PacketLines(p, width)) == Some(AfterBytes(st, p.bytes, width, Users(p)))
    ensures Clocked(st, c, PacketLines(p, width), period) == AfterWords(c, true, WordCount(|p.bytes|, width), period)
  {
    var words, next := WordLines(p.bytes, width, Users(p)), AfterBytes(st, p.bytes, width, Users(p));
    WordsOrNothing(st, p.bytes, width, Users(p));
    WordsClocked(st, c, p.bytes, width, Users(p), period);
    LineCount(p.bytes, width, Users(p));
    BlankClocked(next, Clocked(st, c, words, period), period);
    ReadBoth(st, words, next, [""], next);
    ClockedOfSum(st, c, words, [""], period);
  }

  lemma PacketClocked(st: Reading, c: Clock, p: Source, width: nat, last: Option<nat>, period: real)
    requires width > 0 && BetweenPackets(st, width) && p.bytes != []
    ensures ReadLines(st, PacketText(p, width, last)) == Some(AfterBytes(st, p.bytes, width, Users(p)))
    ensures Clocked(st, c, PacketText(p, width, last), period) ==
      AfterWords(c.(time := Delayed(p.time, last, c.time)), true, WordCount(|p.bytes|, width), period)
  {
    PacketIsRead(st, p, width, last);
    DelayClocked(st, c, p.time, last, period);
    LinesClocked(st, c.(time := Delayed(p.time, last, c.time)), p, width, period);
    ClockedOfSum(st, c, DelayLines(p.time, last), PacketLines(p, width), period);
  }

  // --- files -----------------------------------------------------------------------------------

  /**
   The time a packet is read back with: its own, later by what packets up to it
   overlapped, and shifted because the first delay is written in nanoseconds and
   read in seconds.
   */
  function ReadTime(ps: seq<Source>, k: nat, width: nat, period: nat): real
    requires width > 0 && k < |ps|
  {
    Seconds(ps[k].time) + Seconds(Overlap(ps, k, width, period)) + (ps[0].time as real - Seconds(ps[0].time))
  }

  /** The reader between packets, the first `i` of which it has stamped. */
  ghost predicate Stamped(c: Clock, ps: seq<Source>, i: nat, width: nat, period: nat)
    requires width > 0 && i <= |ps|
  {
    && |c.stamps| == i
    && (forall k :: 0 <= k < i ==> c.stamps[k] == ReadTime(ps, k, width, period))
    && (i > 0 ==> c.time == ReadTime(ps, i - 1, width, period) + Seconds(WordCount(|ps[i - 1].bytes|, width) * period))
  }

  /** When the packet before `i` ended, if there is one. */
  function LastEnd(ps: seq<Source>, i: nat, width: nat, period: nat): Option<nat>
    requires width > 0 && i <= |ps|
  {
    if i == 0 then None else Some(EndOf(ps[i - 1], width, period))
  }

  lemma DelayedIs(c: Clock, ps: seq<Source>, i: nat, width: nat, period: nat)
    requires width > 0 && i < |ps| && Stamped(c, ps, i, width, period)
    ensures Delayed(ps[i].time, LastEnd(ps, i, width, period), c.time) == ReadTime(ps, i, width, period)
  {
  }

  lemma StampedNext(c: Clock, ps: seq<Source>, i: nat, next: nat, width: nat, period: nat)
    requires width > 0 && i < |ps| && next == i + 1 && Stamped(c, ps, i, width, period)
    ensures Stamped(AfterWords(c.(time := ReadTime(ps, i, width, period)), true, WordCount(|ps[i].bytes|, width), Seconds(period)),
                    ps, next, width, period)
  {
    SecondsTimes(WordCount(|ps[i].bytes|, width), period);
  }

  lemma DumpNext(ps: seq<Source>, i: nat, next: nat, width: nat, period: nat)
    requires width > 0 && i < |ps| && next == i + 1
    ensures Dump(ps[i..], width, period, LastEnd(ps, i, width, period)) ==
      PacketText(ps[i], width, LastEnd(ps, i, width, period)) + Dump(ps[next..], width, period, LastEnd(ps, next, width, period))
  {
    EndedIs(ps[i].bytes, width, period, ps[i].time);
    assert ps[i..][1..] == ps[next..];
  }

  lemma {:induction false} FileClocked(st: Reading, c: Clock, ps: seq<Source>, i: nat, width: nat, period: nat)
    requires width > 0 && i <= |ps| && BetweenPackets(st, width) && Stamped(c, ps, i, width, period)
    requires forall k :: 0 <= k < |ps| ==> ps[k].bytes != []
    ensures ReadLines(st, Dump(ps[i..], width, period, LastEnd(ps, i, width, period))).Some?
    ensures Stamped(Clocked(st, c, Dump(ps[i..], width, period, LastEnd(ps, i, width, period)), Seconds(period)),
                    ps, |ps|, width, period)
    decreases |ps| - i
  {
    if i < |ps| {
      var p, last, next := ps[i], LastEnd(ps, i, width, period), i + 1;
      var mid := AfterBytes(st, p.bytes, width, Users(p));
      var now := AfterWords(c.(time := ReadTime(ps, i, width, period)), true, WordCount(|p.bytes|, width), Seconds(period));
      PacketClocked(st, c, p, width, last, Seconds(period));
      DelayedIs(c, ps, i, width, period);
      StampedNext(c, ps, i, next, width, period);
      StaysBetween(st, p.bytes, width, Users(p));
      FileClocked(mid, now, ps, next, width, period);
      DumpNext(ps, i, next, width, period);
      var rest := Dump(ps[next..], width, period, LastEnd(ps, next, width, period));
      ReadLinesOfSum(st, PacketText(p, width, last), rest);
      ClockedOfSum(st, c, PacketText(p, width, last), rest, Seconds(period));
    }
  }

  /** The times that a file of packets with bytes in them reads back with, at the period it was written with. */
  lemma TimesRead(ps: seq<Source>, width: nat, period: nat)
    requires width > 0 && forall k :: 0 <= k < |ps| ==> ps[k].bytes != []
    ensures Loads(Dump(ps, width, period, None)).Some?
    ensures var times := Times(Dump(ps, width, period, None), Seconds(period));
            |times| == |ps| && forall k :: 0 <= k < |ps| ==> times[k] == ReadTime(ps, k, width, period)
  {
    FileClocked(Start(), Clock(0.0, 0.0, []), ps, 0, width, period);
    assert ps[0..] == ps;
  }

  lemma {:induction false} NoOverlap(ps: seq<Source>, k: nat, width: nat, period: nat)
    requires width > 0 && k < |ps|
    ensures Overlap(ps, k, width, period) == 0 <==> forall j :: 0 < j <= k ==> EndOf(ps[j - 1], width, period) <= ps[j].time
  {
    if k > 0 {
      NoOverlap(ps, k - 1, width, period);
    }
  }

  /** All times are read back as they were given exactly if the first is 0 and no packet begins before the one before it has ended. */
  lemma TimesKept(ps: seq<Source>, width: nat, period: nat)
    requires width > 0 && ps != [] && forall k :: 0 <= k < |ps| ==> ps[k].bytes != []
    ensures Loads(Dump(ps, width, period, None)).Some?
    ensures var times := Times(Dump(ps, width, period, None), Seconds(period));
            && |times| == |ps|
            && ((forall k :: 0 <= k < |ps| ==> times[k] == Seconds(ps[k].time)) <==>
                  ps[0].time == 0 && forall k :: 0 < k < |ps| ==> EndOf(ps[k - 1], width, period) <= ps[k].time)
  {
    TimesRead(ps, width, period);
    KeptExactly(ps, width, period, Times(Dump(ps, width, period, None), Seconds(period)));
  }

  lemma KeptExactly(ps: seq<Source>, width: nat, period: nat, times: seq<real>)
    requires width > 0 && ps != [] && |times| == |ps|
    requires forall k :: 0 <= k < |ps| ==> times[k] == ReadTime(ps, k, width, period)
    ensures (forall k :: 0 <= k < |ps| ==> times[k] == Seconds(ps[k].time)) <==>
      ps[0].time == 0 && forall k :: 0 < k < |ps| ==> EndOf(ps[k - 1], width, period) <= ps[k].time
  {
    var n := |ps| - 1;
    NoOverlap(ps, n, width, period);
    if forall k :: 0 <= k < |ps| ==> times[k] == Seconds(ps[k].time) {
      assert times[0] == Seconds(ps[0].time);
      assert times[n] == Seconds(ps[n].time);
    }
    if ps[0].time == 0 && forall k :: 0 < k < |ps| ==> EndOf(ps[k - 1], width, period) <= ps[k].time {
      forall k | 0 <= k < |ps| ensures times[k] == Seconds(ps[k].time) {
        NoOverlap(ps, k, width, period);
      }
    }
  }
}
