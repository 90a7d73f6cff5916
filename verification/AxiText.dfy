/**
 Packets as AXI Stream text: one line per bus word, with TDATA, TSTRB and TUSER
 in hexadecimal. A file is the sequence of its lines. Times to be written are in nanoseconds.
 */
module AxiText {
  import opened HexText
  import opened Numbers

  type Byte = b: int | 0 <= b < 256

  /** A packet to be written; `tuser` supplies the TUSER words from the second on, and what of the first is not overridden. */
  datatype Source = Source(bytes: seq<Byte>, tuser: seq<nat>, sport: Option<Byte>, dport: Option<Byte>, time: nat)

  /** A packet as read back. */
  datatype Loaded = Loaded(bytes: seq<Byte>, tuser: seq<nat>)

  /** A TUSER word has 128 bits. */
  const WIDE: nat := 0x1_0000_0000_0000_0000_0000_0000_0000_0000

  // --- the first TUSER word ---------------------------------------------------------------

  function LengthOf(t: nat): nat { t % 0x1_0000 }
  function SportOf(t: nat): nat { t / 0x1_0000 % 0x100 }
  function DportOf(t: nat): nat { t / 0x100_0000 % 0x100 }

  /** Bitwise or. */
  function Or(a: nat, b: nat): nat {
    if a == 0 then b
    else if b == 0 then a
    else 2 * Or(a / 2, b / 2) + (if a % 2 == 1 || b % 2 == 1 then 1 else 0)
  }

  /** The low 16 bits cleared, then the length put in; one of 65536 and more spills into the ports. */
  function WithLength(t: nat, length: nat): nat {
    Or(t / 0x1_0000 * 0x1_0000, length)
  }

  function WithSport(t: nat, port: Byte): nat {
    t / 0x100_0000 * 0x100_0000 + port * 0x1_0000 + t % 0x1_0000
  }

  function WithDport(t: nat, port: Byte): nat {
    t / 0x1_0000_0000 * 0x1_0000_0000 + port * 0x100_0000 + t % 0x100_0000
  }

  /** The first TUSER word, with length and ports overridden. */
  function FirstWord(p: Source): nat {
    var t := Head(p.tuser) % WIDE;
    var a := WithLength(t, |p.bytes|);
    var b := if p.sport.Some? then WithSport(a, p.sport.value) else a;
    if p.dport.Some? then WithDport(b, p.dport.value) else b
  }

  lemma FirstWordFields(p: Source)
    ensures LengthOf(FirstWord(p)) == |p.bytes| <==> |p.bytes| < 0x1_0000
    ensures p.sport.Some? ==> SportOf(FirstWord(p)) == p.sport.value
    ensures p.dport.Some? ==> DportOf(FirstWord(p)) == p.dport.value
    ensures |p.bytes| < 0x1_0000 ==>
      && (p.sport.None? ==> FirstWord(p) / 0x1_0000 % 0x100 == Head(p.tuser) % WIDE / 0x1_0000 % 0x100)
      && (p.dport.None? ==> FirstWord(p) / 0x100_0000 % 0x100 == Head(p.tuser) % WIDE / 0x100_0000 % 0x100)
      && FirstWord(p) / 0x1_0000_0000 == Head(p.tuser) % WIDE / 0x1_0000_0000
  {
    var t := Head(p.tuser) % WIDE;
    if |p.bytes| < 0x1_0000 {
      LengthField(t, |p.bytes|);
    }
    var a := WithLength(t, |p.bytes|);
    if p.sport.Some? {
      SportField(a, p.sport.value);
    }
    var b := if p.sport.Some? then WithSport(a, p.sport.value) else a;
    if p.dport.Some? {
      DportField(b, p.dport.value);
    }
  }

  lemma LengthField(t: nat, length: nat)
    requires length < 0x1_0000
    ensures var w := WithLength(t, length);
            && LengthOf(w) == length && SportOf(w) == SportOf(t) && DportOf(w) == DportOf(t)
            && w / 0x1_0000_0000 == t / 0x1_0000_0000
  {
    var q := t / 0x1_0000;
    Shl16(q);
    Pow2Of16();
    OrBelow(q, 16, length);
    FieldsWord(t);
    WordFields(t / 0x1_0000_0000, DportOf(t), SportOf(t), length);
    assert WithLength(t, length) == Word(t / 0x1_0000_0000, DportOf(t), SportOf(t), length);
  }

  /** A bit is set in the result if it is set in either number. */
  lemma {:induction false} OrBits(a: nat, b: nat, i: nat)
    ensures Bit(Or(a, b), i) == if Bit(a, i) == 1 || Bit(b, i) == 1 then 1 else 0
  {
    if a == 0 || b == 0 {
      ZeroBit(i);
    } else if i > 0 {
      OrBits(a / 2, b / 2, i - 1);
      assert Or(a, b) / 2 == Or(a / 2, b / 2);
      ShrHalf(a, i - 1);
      ShrHalf(b, i - 1);
      ShrHalf(Or(a, b), i - 1);
    }
  }

  /** A length of any size: it replaces the low 16 bits, and its other bits are added to those supplied. */
  lemma LengthBits(t: nat, length: nat, i: nat)
    ensures Bit(WithLength(t, length), i) ==
      if i < 16 then Bit(length, i) else if Bit(t, i) == 1 || Bit(length, i) == 1 then 1 else 0
  {
    Shl16(Shr(t, 16));
    ShrIsQuotient(t, 16);
    Pow2Of16();
    OrBits(Shl(Shr(t, 16), 16), length, i);
    BitOfShl(Shr(t, 16), 16, i);
    if i >= 16 {
      BitOfShr(t, 16, i - 16);
    }
  }

  /** Where the bits do not overlap, or is addition. */
  lemma {:induction false} OrBelow(q: nat, n: nat, b: nat)
    requires b < Pow2(n)
    ensures Or(Shl(q, n), b) == Shl(q, n) + b
  {
    if n > 0 {
      OrBelow(q, n - 1, b / 2);
    }
  }

  /** A word put together from its fields, and `q` above them. */
  function Word(q: nat, dport: nat, sport: nat, length: nat): nat {
    ((q * 0x100 + dport) * 0x100 + sport) * 0x1_0000 + length
  }

  lemma WordFields(q: nat, dport: Byte, sport: Byte, length: nat)
    requires length < 0x1_0000
    ensures var w := Word(q, dport, sport, length);
            LengthOf(w) == length && SportOf(w) == sport && DportOf(w) == dport && w / 0x1_0000_0000 == q
  {
    var w := Word(q, dport, sport, length);
    var x := q * 0x100 + dport;
    assert w / 0x1_0000 == x * 0x100 + sport;
    assert w == x * 0x100_0000 + (sport * 0x1_0000 + length);
    assert w / 0x100_0000 == x;
  }

  lemma FieldsWord(t: nat)
    ensures t == Word(t / 0x1_0000_0000, DportOf(t), SportOf(t), LengthOf(t))
  {
    var a := t / 0x1_0000;
    var b := a / 0x100;
    assert b == t / 0x100_0000 && b / 0x100 == t / 0x1_0000_0000;
  }

  lemma SportField(t: nat, port: Byte)
    ensures LengthOf(WithSport(t, port)) == LengthOf(t) && SportOf(WithSport(t, port)) == port
    ensures DportOf(WithSport(t, port)) == DportOf(t) && WithSport(t, port) / 0x1_0000_0000 == t / 0x1_0000_0000
  {
    FieldsWord(t);
    WordFields(t / 0x1_0000_0000, DportOf(t), port, LengthOf(t));
    assert t / 0x100_0000 == t / 0x1_0000_0000 * 0x100 + DportOf(t);
    assert WithSport(t, port) == Word(t / 0x1_0000_0000, DportOf(t), port, LengthOf(t));
  }

  lemma DportField(t: nat, port: Byte)
    ensures LengthOf(WithDport(t, port)) == LengthOf(t)
    ensures SportOf(WithDport(t, port)) == SportOf(t)
    ensures DportOf(WithDport(t, port)) == port && WithDport(t, port) / 0x1_0000_0000 == t / 0x1_0000_0000
  {
    FieldsWord(t);
    WordFields(t / 0x1_0000_0000, port, SportOf(t), LengthOf(t));
    assert t % 0x100_0000 == SportOf(t) * 0x1_0000 + LengthOf(t);
    assert WithDport(t, port) == Word(t / 0x1_0000_0000, port, SportOf(t), LengthOf(t));
  }

  // --- one bus word ------------------------------------------------------------------------

  /** The exponent of the largest power of two up to `x`. */
  function Log2(x: nat): nat {
    if x < 2 then 0 else 1 + Log2(x / 2)
  }

  lemma {:induction false} Log2OfPow2(k: nat)
    ensures Log2(Pow2(k)) == k
  {
    if k > 0 {
      Log2OfPow2(k - 1);
    }
  }

  lemma {:induction false} ShrOnes(a: nat, b: nat)
    ensures Shr(Pow2(a + b) - 1, b) == Pow2(a) - 1
    decreases b
  {
    if b > 0 {
      ShrOnes(a + 1, b - 1);
      assert (Pow2(a + 1) - 1) / 2 == Pow2(a) - 1;
    }
  }

  function ByteText(b: Byte): (s: string)
    ensures |s| == 2
  {
    [Digit(b / 16), Digit(b % 16)]
  }

  /** TDATA: the bytes of the word, last byte first. */
  function DataText(word: seq<Byte>): (s: string)
    ensures |s| == 2 * |word|
  {
    if word == [] then [] else ByteText(word[|word| - 1]) + DataText(word[..|word| - 1])
  }

  /** The value of one or two digits. */
  function ByteOf(s: string): Option<Byte>
    requires 0 < |s| <= 2
  {
    if |s| == 1 then
      if Value(s[0]) >= 0 then Some(Value(s[0])) else None
    else if Value(s[0]) >= 0 && Value(s[1]) >= 0 then Some(16 * Value(s[0]) + Value(s[1]))
    else None
  }

  /** The bytes of TDATA, in packet order; nothing if a character is not a digit. */
  function DataBytes(s: string): Option<seq<Byte>> {
    if s == [] then Some([])
    else
      var n := if |s| == 1 then 1 else 2;
      var first, rest := ByteOf(s[..n]), DataBytes(s[n..]);
      if first.Some? && rest.Some? then Some(rest.value + [first.value]) else None
  }

  /** A TDATA field shorter than the bus stands for a word with zeros behind it. */
  lemma {:induction false} ShortField(data: string, k: nat)
    requires DataBytes(data).Some?
    ensures DataBytes(seq(2 * k, _ => '0') + data) == Some(DataBytes(data).value + Zeros(k))
  {
    var s := seq(2 * k, _ => '0') + data;
    if k == 0 {
      assert s == data;
      assert DataBytes(data).value + [] == DataBytes(data).value;
    } else {
      var rest := seq(2 * (k - 1), _ => '0') + data;
      ShortField(data, k - 1);
      assert s[..2] == ['0', '0'] && s[2..] == rest;
      assert ByteOf(s[..2]) == Some(0);
      assert (DataBytes(data).value + Zeros(k - 1)) + [0] == DataBytes(data).value + Zeros(k);
    }
  }

  /** Once the width of the bus is known, a shorter field is read as if the zeros were there. */
  lemma ShortFieldIsTaken(st: Reading, data: string, strb: string, tuser: string, last: bool, k: nat)
    requires st.digits == |data| + 2 * k && DataBytes(data).Some?
    ensures TakeData(st, data, strb, tuser, last) == TakeData(st, seq(2 * k, _ => '0') + data, strb, tuser, last)
  {
    ZFillPads(data, st.digits);
    ZFillPads(seq(2 * k, _ => '0') + data, st.digits);
    assert seq(0, _ => '0') + (seq(2 * k, _ => '0') + data) == seq(2 * k, _ => '0') + data;
  }

  lemma ByteRoundTrip(b: Byte)
    ensures ByteOf(ByteText(b)) == Some(b) && IsHex(ByteText(b))
  {
    DigitValue(b / 16);
    DigitValue(b % 16);
  }

  lemma {:induction false} DataRoundTrip(word: seq<Byte>)
    ensures DataBytes(DataText(word)) == Some(word) && IsHex(DataText(word))
  {
    if word != [] {
      var n := |word| - 1;
      var head, tail := ByteText(word[n]), DataText(word[..n]);
      DataRoundTrip(word[..n]);
      ByteRoundTrip(word[n]);
      assert (head + tail)[..2] == head && (head + tail)[2..] == tail;
      assert word == word[..n] + [word[n]];
    }
  }

  function Zeros(n: nat): (z: seq<Byte>)
    ensures |z| == n
  {
    seq(n, _ => 0)
  }

  /** The line for one word of a bus of `width` bytes. */
  function WordLine(word: seq<Byte>, width: nat, tuser: nat, last: bool): string
    requires 0 < |word| <= width
  {
    LineOf(DataText(word + Zeros(width - |word|)), StrbText(|word|, width), UserText(tuser), last)
  }

  // --- reading a line --------------------------------------------------------------------------

  datatype Line = Blank | Delay(mark: char, n: int) | Data(data: string, strb: string, tuser: string, last: bool) | Bad

  /** `s` without the characters `c` at its beginning. */
  function AfterAll(s: string, c: char): string {
    if s != [] && s[0] == c then AfterAll(s[1..], c) else s
  }

  function ParseLine(raw: string): Line {
    var line := Strip(Before(raw, '#'));
    if line == [] then Blank
    else if line[0] in {'@', '+', '*'} then
      var n := Integer(if line[0] == '@' then AfterAll(line, '@') else line[1..]);
      if n.None? then Bad else Delay(line[0], n.value)
    else
      var terminal := line[|line| - 1];
      var fields := Split(line[..|line| - 1], ',');
      if terminal != ',' && terminal != '.' then Bad
      else if |fields| != 3 then Bad
      else Data(Strip(fields[0]), Strip(fields[1]), Strip(fields[2]), terminal == '.')
  }

  lemma StripSame(s: string)
    requires s != [] && !IsSpace(s[0]) && !IsSpace(s[|s| - 1])
    ensures Strip(s) == s
  {
  }

  /** Three fields, as they stand in a line. */
  function Body(a: string, b: string, c: string): string {
    a + [','] + ([' '] + b + [','] + ([' '] + c))
  }

  function LineOf(a: string, b: string, c: string, last: bool): string {
    Body(a, b, c) + [if last then '.' else ',']
  }

  lemma BodySplit(a: string, b: string, c: string)
    requires IsHex(a) && IsHex(b) && IsHex(c)
    ensures Split(Body(a, b, c), ',') == [a, [' '] + b, [' '] + c]
  {
    HexIsPlain(a);
    HexIsPlain(b);
    HexIsPlain(c);
    SplitAt(a, ',', [' '] + b + [','] + ([' '] + c));
    SplitAt([' '] + b, ',', [' '] + c);
    SplitWithout([' '] + c, ',');
  }

  lemma BodyPlain(a: string, b: string, c: string)
    requires IsHex(a) && IsHex(b) && IsHex(c)
    ensures '#' !in Body(a, b, c)
  {
    HexIsPlain(a);
    HexIsPlain(b);
    HexIsPlain(c);
  }

  /** Stripping and looking for a comment leave a line of fields as it is. */
  lemma LineKept(a: string, b: string, c: string, last: bool)
    requires a != [] && IsHex(a) && IsHex(b) && IsHex(c)
    ensures var line := LineOf(a, b, c, last); Strip(Before(line, '#')) == line && line[0] == a[0]
  {
    var line := LineOf(a, b, c, last);
    BodyPlain(a, b, c);
    BeforeWithout(line, '#');
    assert line[0] == a[0] && Value(a[0]) >= 0;
    StripSame(line);
  }

  lemma FieldsRoundTrip(a: string, b: string, c: string, last: bool)
    requires a != [] && b != [] && c != [] && IsHex(a) && IsHex(b) && IsHex(c)
    ensures ParseLine(LineOf(a, b, c, last)) == Data(a, b, c, last)
  {
    var line := LineOf(a, b, c, last);
    LineKept(a, b, c, last);
    assert Value(line[0]) >= 0;
    assert line[..|line| - 1] == Body(a, b, c);
    BodySplit(a, b, c);
    HexIsPlain(a);
    HexIsPlain(b);
    HexIsPlain(c);
  }

  // --- reading a file --------------------------------------------------------------------------

  /** The loader between two lines: digits per TDATA field (-1 until known), the packet so far, the packets done. */
  datatype Reading = Reading(digits: int, data: seq<Byte>, tuser: seq<nat>, packets: seq<Loaded>)

  /** Drops the last `k` bytes. */
  function Trimmed(data: seq<Byte>, k: nat): seq<Byte> {
    if k <= |data| then data[..|data| - k] else []
  }

  /** One more bus word, of which the last of a packet has `count` bytes in use. */
  function Absorb(st: Reading, digits: nat, bytes: seq<Byte>, user: nat, count: nat, last: bool): Reading {
    var all, users := st.data + bytes, st.tuser + [user];
    if !last then Reading(digits, all, users, st.packets)
    else
      var kept := if count < digits / 2 then Trimmed(all, digits / 2 - count) else all;
      Reading(digits, [], [], st.packets + [Loaded(kept, users)])
  }

  /** A data line; nothing if a field that is used is not a number. */
  function TakeData(st: Reading, data: string, strb: string, tuser: string, last: bool): Option<Reading> {
    var digits := if st.digits < 0 then |data| else st.digits;
    var bytes, user, valid := DataBytes(ZFill(data, digits)), Parsed(tuser), Parsed(strb);
    if bytes.None? || user.None? || (last && valid.None?) then None
    else
      var count := if valid.Some? then Log2(valid.value + 1) else 0;
      Some(Absorb(st, digits, bytes.value, user.value, count, last))
  }

  function ReadLine(st: Reading, raw: string): Option<Reading> {
    match ParseLine(raw)
    case Blank => Some(st)
    case Delay(_, _) => Some(st)
    case Bad => None
    case Data(data, strb, tuser, last) => TakeData(st, data, strb, tuser, last)
  }

  function ReadLines(st: Reading, lines: seq<string>): Option<Reading>
    decreases |lines|
  {
    if lines == [] then Some(st)
    else
      var r := ReadLine(st, lines[0]);
      if r.None? then None else ReadLines(r.value, lines[1..])
  }

  lemma {:induction false} ReadLinesOfSum(st: Reading, a: seq<string>, b: seq<string>)
    requires ReadLines(st, a).Some?
    ensures ReadLines(st, a + b) == ReadLines(ReadLines(st, a).value, b)
    decreases |a|
  {
    if a == [] {
      assert a + b == b;
    } else {
      assert (a + b)[0] == a[0] && (a + b)[1..] == a[1..] + b;
      ReadLinesOfSum(ReadLine(st, a[0]).value, a[1..], b);
    }
  }

  function Start(): Reading {
    Reading(-1, [], [], [])
  }

  /** The packets of a file; nothing if a line is malformed. */
  function Loads(lines: seq<string>): Option<seq<Loaded>> {
    var r := ReadLines(Start(), lines);
    if r.None? then None else Some(r.value.packets)
  }

  /** The loader's clock in seconds, the time at which the packet so far began, the times of the packets done. */
  datatype Clock = Clock(time: real, began: real, stamps: seq<real>)

  const BILLION: real := 1000000000.0

  /** The clock after a line, read `between` packets or within one: `@` sets it to seconds, `+` adds nanoseconds, `*` periods. */
  function Ticked(c: Clock, between: bool, raw: string, period: real): Clock {
    match ParseLine(raw)
    case Delay(mark, n) =>
      c.(time := if mark == '@' then n as real
                 else if mark == '+' then c.time + n as real / BILLION
                 else c.time + period * n as real)
    case Data(_, _, _, last) =>
      var began := if between then c.time else c.began;
      Clock(c.time + period, began, if last then c.stamps + [began] else c.stamps)
    case _ => c
  }

  function Clocked(st: Reading, c: Clock, lines: seq<string>, period: real): Clock
    requires ReadLines(st, lines).Some?
    decreases |lines|
  {
    if lines == [] then c
    else Clocked(ReadLine(st, lines[0]).value, Ticked(c, st.data == [], lines[0], period), lines[1..], period)
  }

  /** The times of the packets of a file. */
  function Times(lines: seq<string>, period: real): seq<real>
    requires Loads(lines).Some?
  {
    Clocked(Start(), Clock(0.0, 0.0, []), lines, period).stamps
  }

  /** Nothing for a malformed file; else its packets, and their times. */
  method AxisLoad(lines: seq<string>, period: real) returns (packets: Option<seq<Loaded>>, times: seq<real>)
    ensures packets == Loads(lines)
    ensures packets.Some? ==> times == Times(lines, period)
  {
    var st, c := Start(), Clock(0.0, 0.0, []);
    for i := 0 to |lines|
      invariant ReadLines(Start(), lines) == ReadLines(st, lines[i..])
      invariant ReadLines(Start(), lines).Some? ==>
        Clocked(Start(), Clock(0.0, 0.0, []), lines, period) == Clocked(st, c, lines[i..], period)
    {
      assert lines[i..][1..] == lines[i + 1..];
      var r := ReadLine(st, lines[i]);
      if r.None? {
        return None, [];
      }
      c := Ticked(c, st.data == [], lines[i], period);
      st := r.value;
    }
    return Some(st.packets), c.stamps;
  }

  // --- writing a file --------------------------------------------------------------------------

  function Head(us: seq<nat>): nat { if us == [] then 0 else us[0] }
  function Tail(us: seq<nat>): seq<nat> { if us == [] then [] else us[1..] }

  /** The lines of a packet; its words take TUSER from `us`, then 0. */
  function WordLines(bytes: seq<Byte>, width: nat, us: seq<nat>): seq<string>
    requires width > 0
    decreases |bytes|
  {
    if bytes == [] then []
    else if |bytes| <= width then [WordLine(bytes, width, Head(us), true)]
    else [WordLine(bytes[..width], width, Head(us), false)] + WordLines(bytes[width..], width, Tail(us))
  }

  /** The TUSER words of a packet: `us` cut or padded with zeros to the number of bus words. */
  function UserWords(bytes: seq<Byte>, width: nat, us: seq<nat>): seq<nat>
    requires width > 0
    decreases |bytes|
  {
    if bytes == [] then []
    else if |bytes| <= width then [Head(us)]
    else [Head(us)] + UserWords(bytes[width..], width, Tail(us))
  }

  lemma {:induction false} UserWordsPadded(bytes: seq<Byte>, width: nat, us: seq<nat>, k: nat)
    requires width > 0 && k < |UserWords(bytes, width, us)|
    ensures UserWords(bytes, width, us)[k] == if k < |us| then us[k] else 0
    decreases k
  {
    if k > 0 {
      UserWordsPadded(bytes[width..], width, Tail(us), k - 1);
    }
  }

  /** One word for every `width` bytes or part of them. */
  lemma {:induction false} UserWordsCount(bytes: seq<Byte>, width: nat, us: seq<nat>)
    requires width > 0
    ensures var n := |UserWords(bytes, width, us)|; (n - 1) * width < |bytes| || n == 0
    ensures |bytes| <= |UserWords(bytes, width, us)| * width
    decreases |bytes|
  {
    if |bytes| > width {
      UserWordsCount(bytes[width..], width, Tail(us));
      var m := |UserWords(bytes[width..], width, Tail(us))|;
      assert (m + 1) * width == m * width + width && (m - 1) * width == m * width - width;
    }
  }

  /** A line that says how long to wait: '@' from the start, '+' from the packet before. */
  function DelayLine(mark: char, n: nat): string {
    [mark, ' '] + Decimal(n)
  }

  /** The TUSER words a packet supplies, the first with its fields overridden. */
  function Users(p: Source): seq<nat> {
    [FirstWord(p)] + Tail(p.tuser)
  }

  function PacketLines(p: Source, width: nat): seq<string>
    requires width > 0
  {
    WordLines(p.bytes, width, Users(p)) + [""]
  }

  /** The time after the words of a packet, one `period` each. */
  function Ended(bytes: seq<Byte>, width: nat, period: nat, time: nat): nat
    requires width > 0
    decreases |bytes|
  {
    if bytes == [] then time
    else if |bytes| <= width then time + period
    else Ended(bytes[width..], width, period, time + period)
  }

  /** The delay before a packet, when the one before it ended at `last`. */
  function DelayLines(time: nat, last: Option<nat>): seq<string> {
    if last.None? then [DelayLine('@', time)]
    else if time > last.value then [DelayLine('+', time - last.value)]
    else []
  }

  /** The text of packets that follow one that ended at `last`. */
  function Dump(ps: seq<Source>, width: nat, period: nat, last: Option<nat>): seq<string>
    requires width > 0
  {
    if ps == [] then []
    else
      var p := ps[0];
      PacketText(p, width, last) + Dump(ps[1..], width, period, Some(Ended(p.bytes, width, period, p.time)))
  }

  /** What the source pops from `tuser` once a zero is appended. */
  lemma PoppedPadding(us: seq<nat>)
    ensures (us + [0])[0] == Head(us)
    ensures (us + [0])[1..] == Tail(us) || (us + [0])[1..] == Tail(us) + [0]
  {
    if us != [] {
      assert (us + [0])[1..] == us[1..] + [0];
    }
  }

  lemma {:induction false} WordLinesPadded(bytes: seq<Byte>, width: nat, us: seq<nat>)
    requires width > 0
    ensures WordLines(bytes, width, us + [0]) == WordLines(bytes, width, us)
    decreases |bytes|
  {
    assert Head(us + [0]) == Head(us);
    if |bytes| > width {
      PoppedPadding(us);
      if Tail(us + [0]) == Tail(us) + [0] {
        WordLinesPadded(bytes[width..], width, Tail(us));
      }
    }
  }

  function Rest(bytes: seq<Byte>, i: nat): seq<Byte> {
    if i < |bytes| then bytes[i..] else []
  }

  function WordAt(bytes: seq<Byte>, width: nat, i: nat): (word: seq<Byte>)
    requires width > 0 && i < |bytes|
    ensures 0 < |word| <= width
  {
    if i + width >= |bytes| then bytes[i..] else bytes[i..i + width]
  }

  lemma WordLinesAt(bytes: seq<Byte>, i: nat, width: nat, us: seq<nat>)
    requires width > 0 && i < |bytes|
    ensures WordLines(Rest(bytes, i), width, us)
            == [WordLine(WordAt(bytes, width, i), width, Head(us), i + width >= |bytes|)]
               + WordLines(Rest(bytes, i + width), width, Tail(us))
  {
    if i + width < |bytes| {
      assert bytes[i..][..width] == bytes[i..i + width] && bytes[i..][width..] == bytes[i + width..];
    }
  }

  lemma EndedAt(bytes: seq<Byte>, i: nat, width: nat, period: nat, time: nat)
    requires width > 0 && i < |bytes|
    ensures Ended(Rest(bytes, i), width, period, time) == Ended(Rest(bytes, i + width), width, period, time + period)
  {
    if i + width < |bytes| {
      assert bytes[i..][width..] == bytes[i + width..];
    }
  }

  lemma WordLinesPopped(bytes: seq<Byte>, width: nat, us: seq<nat>)
    requires width > 0
    ensures WordLines(bytes, width, (us + [0])[1..]) == WordLines(bytes, width, Tail(us))
    ensures (us + [0])[0] == Head(us)
  {
    PoppedPadding(us);
    WordLinesPadded(bytes, width, Tail(us));
  }

  /** The inner loop at byte `i`: what it wrote and what is to come are the packet's lines. */
  ghost predicate Writing(bytes: seq<Byte>, width: nat, i: nat, us: seq<nat>, lines: seq<string>, all: seq<string>)
    requires width > 0
  {
    lines + WordLines(Rest(bytes, i), width, us) == all
  }

  lemma WordStep(bytes: seq<Byte>, width: nat, i: nat, next: nat, us: seq<nat>, lines: seq<string>, all: seq<string>)
    requires width > 0 && i < |bytes| && next == i + width
    ensures Writing(bytes, width, i, us, lines, all) ==>
      Writing(bytes, width, next, (us + [0])[1..],
              lines + [WordLine(WordAt(bytes, width, i), width, (us + [0])[0], next >= |bytes|)], all)
  {
    WordLinesAt(bytes, i, width, us);
    WordLinesPopped(Rest(bytes, next), width, us);
  }

  ghost predicate Ticking(bytes: seq<Byte>, width: nat, i: nat, period: nat, end: nat, ends: nat)
    requires width > 0
  {
    Ended(Rest(bytes, i), width, period, end) == ends
  }

  lemma TickStep(bytes: seq<Byte>, width: nat, i: nat, next: nat, period: nat, end: nat, tick: nat, ends: nat)
    requires width > 0 && i < |bytes| && next == i + width && tick == end + period
    requires Ticking(bytes, width, i, period, end, ends)
    ensures Ticking(bytes, width, next, period, tick, ends)
  {
    EndedAt(bytes, i, width, period, end);
  }

  lemma WritingStarts(bytes: seq<Byte>, width: nat, us: seq<nat>)
    requires width > 0
    ensures Writing(bytes, width, 0, us, [], WordLines(bytes, width, us))
  {
    assert Rest(bytes, 0) == bytes;
  }

  lemma WritingEnds(bytes: seq<Byte>, width: nat, i: nat, us: seq<nat>, lines: seq<string>, all: seq<string>)
    requires width > 0 && i >= |bytes| && Writing(bytes, width, i, us, lines, all)
    ensures lines == all
  {
  }

  lemma TickingStarts(bytes: seq<Byte>, width: nat, period: nat, time: nat)
    requires width > 0
    ensures Ticking(bytes, width, 0, period, time, Ended(bytes, width, period, time))
  {
    assert Rest(bytes, 0) == bytes;
  }

  /** The inner loop: one line for each bus word. */
  method DumpWords(bytes: seq<Byte>, width: nat, users: seq<nat>, period: nat, time: nat)
    returns (lines: seq<string>, end: nat)
    requires width > 0
    ensures lines == WordLines(bytes, width, users) && end == Ended(bytes, width, period, time)
  {
    lines, end := [], time;
    var tuser, i := users, 0;
    ghost var all, ends := WordLines(bytes, width, users), Ended(bytes, width, period, time);
    WritingStarts(bytes, width, users);
    TickingStarts(bytes, width, period, time);
    while i < |bytes|
      invariant 0 <= i
      invariant Writing(bytes, width, i, tuser, lines, all)
      invariant Ticking(bytes, width, i, period, end, ends)
      decreases |bytes| - i
    {
      var next, tick := i + width, end + period;
      WordStep(bytes, width, i, next, tuser, lines, all);
      TickStep(bytes, width, i, next, period, end, tick, ends);
      tuser := tuser + [0];
      lines := lines + [WordLine(WordAt(bytes, width, i), width, tuser[0], next >= |bytes|)];
      tuser, end, i := tuser[1..], tick, next;
    }
    WritingEnds(bytes, width, i, tuser, lines, all);
  }

  /** The text of one packet and the delay before it. */
  function PacketText(p: Source, width: nat, last: Option<nat>): seq<string>
    requires width > 0
  {
    DelayLines(p.time, last) + PacketLines(p, width)
  }

  lemma DumpAt(ps: seq<Source>, i: nat, next: nat, width: nat, period: nat, last: Option<nat>, lines: seq<string>)
    requires width > 0 && i < |ps| && next == i + 1
    ensures lines + Dump(ps[i..], width, period, last)
            == lines + PacketText(ps[i], width, last)
               + Dump(ps[next..], width, period, Some(Ended(ps[i].bytes, width, period, ps[i].time)))
  {
    assert ps[i..][1..] == ps[next..];
  }

  /** The outer loop: the packets one after another. */
  method DumpAll(packets: seq<Source>, width: nat, period: nat) returns (lines: seq<string>)
    requires width > 0
    ensures lines == Dump(packets, width, period, None)
  {
    ghost var all := Dump(packets, width, period, None);
    var last: Option<nat> := None;
    var i := 0;
    lines := [];
    assert packets[0..] == packets;
    while i < |packets|
      invariant 0 <= i <= |packets| && lines + Dump(packets[i..], width, period, last) == all
    {
      var p, next := packets[i], i + 1;
      DumpAt(packets, i, next, width, period, last, lines);
      var words, end := DumpWords(p.bytes, width, Users(p), period, p.time);
      lines := lines + (DelayLines(p.time, last) + (words + [""]));
      last, i := Some(end), next;
    }
  }

  /** Writes packets; a bus width in bits that is not a multiple of 8 writes nothing. */
  method AxisDump(packets: seq<Source>, busWidth: nat, period: nat) returns (lines: seq<string>)
    requires busWidth > 0
    ensures busWidth % 8 != 0 ==> lines == []
    ensures busWidth % 8 == 0 ==> lines == Dump(packets, busWidth / 8, period, None)
  {
    if busWidth % 8 != 0 {
      return [];
    }
    lines := DumpAll(packets, busWidth / 8, period);
  }

  /** What a packet reads back as. */
  function Expected(p: Source, width: nat): Loaded
    requires width > 0
  {
    Loaded(p.bytes, UserWords(p.bytes, width, Users(p)))
  }

  /** What a file of packets reads back as: packets without bytes have no lines and are lost. */
  function AllExpected(ps: seq<Source>, width: nat): seq<Loaded>
    requires width > 0
  {
    if ps == [] then []
    else if ps[0].bytes == [] then AllExpected(ps[1..], width)
    else [Expected(ps[0], width)] + AllExpected(ps[1..], width)
  }

  // --- the round trip ------------------------------------------------------------------------------

  lemma DelayKept(mark: char, s: string)
    requires mark in {'@', '+'} && IsDecimal(s)
    ensures var line := [mark, ' '] + s; Strip(Before(line, '#')) == line
  {
    var line := [mark, ' '] + s;
    assert '#' !in line;
    BeforeWithout(line, '#');
    StripSame(line);
  }

  lemma DelayIsRead(mark: char, n: nat)
    requires mark in {'@', '+'}
    ensures ParseLine(DelayLine(mark, n)) == Delay(mark, n)
  {
    var line := DelayLine(mark, n);
    DecimalRoundTrip(n);
    DelayKept(mark, Decimal(n));
    IntegerRead(n);
    assert line[1..] == [' '] + Decimal(n);
    assert AfterAll(line, mark) == AfterAll(line[1..], mark) == line[1..];
  }

  lemma DelayIsSkipped(st: Reading, mark: char, n: nat)
    requires mark in {'@', '+'}
    ensures ReadLine(st, DelayLine(mark, n)) == Some(st)
  {
    DelayIsRead(mark, n);
  }

  lemma ReadFirst(st: Reading, line: string, rest: seq<string>, next: Reading)
    requires ReadLine(st, line) == Some(next)
    ensures ReadLines(st, [line] + rest) == ReadLines(next, rest)
  {
    assert ([line] + rest)[1..] == rest;
  }

  /** One bit for each byte in use. */
  function Strobe(n: nat, width: nat): nat
    requires n <= width
  {
    Shr(Pow2(width) - 1, width - n)
  }

  lemma StrobeIsOnes(n: nat, width: nat)
    requires n <= width
    ensures Strobe(n, width) == Pow2(n) - 1
  {
    ShrOnes(n, width - n);
  }

  function StrbText(n: nat, width: nat): string
    requires n <= width
  {
    ZFill(Hex(Strobe(n, width)), width / 4)
  }

  function UserText(t: nat): string {
    ZFill(Hex(t), 32)
  }

  lemma UserRoundTrip(t: nat)
    ensures Parsed(UserText(t)) == Some(t)
  {
    HexRoundTrip(t, 32);
  }

  lemma StrbRoundTrip(n: nat, width: nat)
    requires n <= width
    ensures Parsed(StrbText(n, width)) == Some(Pow2(n) - 1)
  {
    StrobeIsOnes(n, width);
    HexRoundTrip(Strobe(n, width), width / 4);
  }

  /** Byte `k` of a word is printed at the `k`-th place from the right, high digit first. */
  lemma {:induction false} DataTextAt(word: seq<Byte>, k: nat)
    requires k < |word|
    ensures var at := 2 * (|word| - 1 - k);
            DataText(word)[at..at + 2] == ["0123456789abcdef"[word[k] / 16], "0123456789abcdef"[word[k] % 16]]
  {
    var n := |word| - 1;
    var head, tail := ByteText(word[n]), DataText(word[..n]);
    if k < n {
      var at := 2 * (n - 1 - k);
      DataTextAt(word[..n], k);
      assert (head + tail)[at + 2..at + 4] == tail[at..at + 2];
    } else {
      assert (head + tail)[0..2] == head;
    }
  }

  lemma LineText(a: string, b: string, c: string, last: bool)
    ensures LineOf(a, b, c, last) == a + ", " + b + ", " + c + (if last then "." else ",")
  {
  }

  /** The second and third field: a one for each byte in use, and the TUSER word, padded with zeros. */
  lemma FieldText(n: nat, width: nat, t: nat)
    requires n <= width
    ensures var strb := Hex(Pow2(n) - 1);
            StrbText(n, width) == seq(if |strb| < width / 4 then width / 4 - |strb| else 0, _ => '0') + strb
    ensures UserText(t) == seq(if |Hex(t)| < 32 then 32 - |Hex(t)| else 0, _ => '0') + Hex(t)
  {
    StrobeIsOnes(n, width);
    ZFillPads(Hex(Pow2(n) - 1), width / 4);
    ZFillPads(Hex(t), 32);
  }

  /** The digits of TDATA on a bus of `width` bytes. */
  function Digits(width: nat): nat {
    2 * width
  }

  /** The reading after a word of a packet. */
  function AfterWord(st: Reading, word: seq<Byte>, width: nat, t: nat, last: bool): Reading {
    if last then Reading(Digits(width), [], [], st.packets + [Loaded(st.data + word, st.tuser + [t])])
    else Reading(Digits(width), st.data + word, st.tuser + [t], st.packets)
  }

  lemma TrimPadding(data: seq<Byte>, word: seq<Byte>, k: nat)
    ensures Trimmed(data + (word + Zeros(k)), k) == data + word
  {
  }

  lemma PaddingIsDropped(st: Reading, word: seq<Byte>, width: nat, t: nat, last: bool)
    requires 0 < |word| <= width && (last || |word| == width)
    ensures Absorb(st, Digits(width), word + Zeros(width - |word|), t, |word|, last) == AfterWord(st, word, width, t, last)
  {
    TrimPadding(st.data, word, width - |word|);
    assert Zeros(0) == [];
    assert |word| == width ==> word + Zeros(width - |word|) == word;
  }

  /** Three fields that stand for the bytes of a word, `n` of them in use, and a TUSER word. */
  ghost predicate Means(data: string, strb: string, tuser: string, bytes: seq<Byte>, n: nat, t: nat) {
    && |data| == 2 * |bytes| && IsHex(data) && DataBytes(data) == Some(bytes)
    && Parsed(strb) == Some(Pow2(n) - 1)
    && Parsed(tuser) == Some(t)
  }

  lemma WordIsTaken(st: Reading, data: string, strb: string, tuser: string, bytes: seq<Byte>, n: nat, t: nat, last: bool, digits: nat)
    requires digits == 2 * |bytes| && (st.digits < 0 || st.digits == digits) && Means(data, strb, tuser, bytes, n, t)
    ensures TakeData(st, data, strb, tuser, last) == Some(Absorb(st, digits, bytes, t, n, last))
  {
    Log2OfPow2(n);
  }

  /** Fields that parse, put in a line, are read as one word. */
  lemma FieldsAreRead(st: Reading, data: string, strb: string, tuser: string, bytes: seq<Byte>, n: nat, t: nat, last: bool, digits: nat)
    requires bytes != [] && digits == 2 * |bytes| && (st.digits < 0 || st.digits == digits) && Means(data, strb, tuser, bytes, n, t)
    ensures ReadLine(st, LineOf(data, strb, tuser, last)) == Some(Absorb(st, digits, bytes, t, n, last))
  {
    FieldsRoundTrip(data, strb, tuser, last);
    WordIsTaken(st, data, strb, tuser, bytes, n, t, last, digits);
  }

  lemma FieldsMeanWord(bytes: seq<Byte>, n: nat, width: nat, t: nat)
    requires n <= width
    ensures Means(DataText(bytes), StrbText(n, width), UserText(t), bytes, n, t)
  {
    DataRoundTrip(bytes);
    StrbRoundTrip(n, width);
    UserRoundTrip(t);
  }

  /** Whatever line stands for a padded word is read as that word. */
  lemma LineIsRead(st: Reading, line: string, data: string, strb: string, tuser: string,
                   bytes: seq<Byte>, word: seq<Byte>, width: nat, t: nat, last: bool)
    requires 0 < |word| <= width && (last || |word| == width) && bytes == word + Zeros(width - |word|)
    requires st.digits < 0 || st.digits == Digits(width)
    requires line == LineOf(data, strb, tuser, last) && Means(data, strb, tuser, bytes, |word|, t)
    ensures ReadLine(st, line) == Some(AfterWord(st, word, width, t, last))
  {
    FieldsAreRead(st, data, strb, tuser, bytes, |word|, t, last, Digits(width));
    PaddingIsDropped(st, word, width, t, last);
  }

  /** One word, last or not, read back into the packet it belongs to. */
  lemma WordIsRead(st: Reading, word: seq<Byte>, width: nat, t: nat, last: bool)
    requires 0 < |word| <= width && (last || |word| == width)
    requires st.digits < 0 || st.digits == Digits(width)
    ensures ReadLine(st, WordLine(word, width, t, last)) == Some(AfterWord(st, word, width, t, last))
  {
    var padded := word + Zeros(width - |word|);
    var n, line := |word|, WordLine(word, width, t, last);
    var data, strb, tuser := DataText(padded), StrbText(n, width), UserText(t);
    FieldsMeanWord(padded, n, width, t);
    LineIsRead(st, line, data, strb, tuser, padded, word, width, t, last);
  }

  /** The reading after the words of a packet. */
  function AfterPacket(st: Reading, bytes: seq<Byte>, width: nat, users: seq<nat>): Reading {
    Reading(Digits(width), [], [], st.packets + [Loaded(st.data + bytes, st.tuser + users)])
  }

  lemma AfterMore(st: Reading, bytes: seq<Byte>, width: nat, t: nat, users: seq<nat>)
    requires 0 < width < |bytes|
    ensures AfterPacket(AfterWord(st, bytes[..width], width, t, false), bytes[width..], width, users)
            == AfterPacket(st, bytes, width, [t] + users)
  {
    assert (st.data + bytes[..width]) + bytes[width..] == st.data + bytes;
    assert (st.tuser + [t]) + users == st.tuser + ([t] + users);
  }

  lemma LastIsRead(st: Reading, bytes: seq<Byte>, width: nat, us: seq<nat>)
    requires 0 < |bytes| <= width
    requires st.digits < 0 || st.digits == Digits(width)
    ensures ReadLines(st, WordLines(bytes, width, us)) == Some(AfterPacket(st, bytes, width, UserWords(bytes, width, us)))
  {
    var line, next := WordLine(bytes, width, Head(us), true), AfterWord(st, bytes, width, Head(us), true);
    WordIsRead(st, bytes, width, Head(us), true);
    ReadFirst(st, line, [], next);
    assert [line] + [] == [line] == WordLines(bytes, width, us);
    assert UserWords(bytes, width, us) == [Head(us)];
  }

  lemma {:induction false} WordsAreRead(st: Reading, bytes: seq<Byte>, width: nat, us: seq<nat>)
    requires width > 0 && bytes != []
    requires st.digits < 0 || st.digits == Digits(width)
    ensures ReadLines(st, WordLines(bytes, width, us)) == Some(AfterPacket(st, bytes, width, UserWords(bytes, width, us)))
    decreases |bytes|
  {
    if |bytes| <= width {
      LastIsRead(st, bytes, width, us);
    } else {
      var word, rest, t := bytes[..width], bytes[width..], Head(us);
      var next, users := AfterWord(st, word, width, t, false), UserWords(rest, width, Tail(us));
      WordIsRead(st, word, width, t, false);
      ReadFirst(st, WordLine(word, width, t, false), WordLines(rest, width, Tail(us)), next);
      WordsAreRead(next, rest, width, Tail(us));
      AfterMore(st, bytes, width, t, users);
    }
  }

  lemma BlankIsSkipped(st: Reading)
    ensures ReadLine(st, "") == Some(st)
  {
  }

  lemma DelaysAreSkipped(st: Reading, time: nat, last: Option<nat>)
    ensures ReadLines(st, DelayLines(time, last)) == Some(st)
  {
    var lines := DelayLines(time, last);
    if lines != [] {
      DelayIsSkipped(st, if last.None? then '@' else '+', if last.None? then time else time - last.value);
      ReadFirst(st, lines[0], [], st);
      assert lines == [lines[0]] + [];
    }
  }

  /** The reading after a packet: one without bytes leaves no trace. */
  function AfterBytes(st: Reading, bytes: seq<Byte>, width: nat, us: seq<nat>): Reading
    requires width > 0
  {
    if bytes == [] then st else Reading(Digits(width), [], [], st.packets + [Loaded(bytes, UserWords(bytes, width, us))])
  }

  ghost predicate BetweenPackets(st: Reading, width: nat) {
    (st.digits < 0 || st.digits == Digits(width)) && st.data == [] && st.tuser == []
  }

  lemma ReadBoth(st: Reading, a: seq<string>, mid: Reading, b: seq<string>, end: Reading)
    requires ReadLines(st, a) == Some(mid) && ReadLines(mid, b) == Some(end)
    ensures ReadLines(st, a + b) == Some(end)
  {
    ReadLinesOfSum(st, a, b);
  }

  lemma WordsOrNothing(st: Reading, bytes: seq<Byte>, width: nat, us: seq<nat>)
    requires width > 0 && BetweenPackets(st, width)
    ensures ReadLines(st, WordLines(bytes, width, us)) == Some(AfterBytes(st, bytes, width, us))
  {
    if bytes != [] {
      WordsAreRead(st, bytes, width, us);
      AfterPacketFromStart(st, bytes, width, UserWords(bytes, width, us));
    }
  }

  lemma AfterPacketFromStart(st: Reading, bytes: seq<Byte>, width: nat, users: seq<nat>)
    requires BetweenPackets(st, width)
    ensures AfterPacket(st, bytes, width, users) == Reading(Digits(width), [], [], st.packets + [Loaded(bytes, users)])
  {
    assert [] + bytes == bytes && [] + users == users;
  }

  lemma BlanksAreSkipped(st: Reading)
    ensures ReadLines(st, [""]) == Some(st)
  {
    BlankIsSkipped(st);
    ReadFirst(st, "", [], st);
    assert [""] + [] == [""];
  }

  lemma PacketIsRead(st: Reading, p: Source, width: nat, last: Option<nat>)
    requires width > 0 && BetweenPackets(st, width)
    ensures ReadLines(st, PacketText(p, width, last)) == Some(AfterBytes(st, p.bytes, width, Users(p)))
  {
    var next := AfterBytes(st, p.bytes, width, Users(p));
    DelaysAreSkipped(st, p.time, last);
    WordsOrNothing(st, p.bytes, width, Users(p));
    BlanksAreSkipped(next);
    ReadBoth(st, WordLines(p.bytes, width, Users(p)), next, [""], next);
    ReadBoth(st, DelayLines(p.time, last), st, PacketLines(p, width), next);
  }

  lemma PacketAppended(st: Reading, p: Loaded, width: nat, rest: seq<Loaded>)
    ensures Reading(Digits(width), [], [], st.packets + [p]).packets + rest == st.packets + ([p] + rest)
  {
  }

  lemma {:induction false} ExpectedNext(st: Reading, ps: seq<Source>, width: nat)
    requires width > 0 && ps != [] && BetweenPackets(st, width)
    ensures AfterBytes(st, ps[0].bytes, width, Users(ps[0])).packets + AllExpected(ps[1..], width) == st.packets + AllExpected(ps, width)
  {
    PacketAppended(st, Expected(ps[0], width), width, AllExpected(ps[1..], width));
  }

  lemma StaysBetween(st: Reading, bytes: seq<Byte>, width: nat, us: seq<nat>)
    requires width > 0 && BetweenPackets(st, width)
    ensures BetweenPackets(AfterBytes(st, bytes, width, us), width)
  {
  }

  /** Reading what was written gives the packets back. */
  lemma {:induction false} DumpIsRead(st: Reading, ps: seq<Source>, width: nat, period: nat, last: Option<nat>) returns (end: Reading)
    requires width > 0 && BetweenPackets(st, width)
    ensures ReadLines(st, Dump(ps, width, period, last)) == Some(end)
    ensures end.packets == st.packets + AllExpected(ps, width)
    decreases |ps|
  {
    if ps == [] {
      end := st;
    } else {
      var p, mid := ps[0], AfterBytes(st, ps[0].bytes, width, Users(ps[0]));
      var time := Some(Ended(p.bytes, width, period, p.time));
      ExpectedNext(st, ps, width);
      StaysBetween(st, p.bytes, width, Users(p));
      end := DumpIsRead(mid, ps[1..], width, period, time);
      PacketIsRead(st, p, width, last);
      ReadBoth(st, PacketText(p, width, last), mid, Dump(ps[1..], width, period, time), end);
    }
  }

  lemma LoadsAll(lines: seq<string>, end: Reading, packets: seq<Loaded>)
    requires ReadLines(Start(), lines) == Some(end) && end.packets == [] + packets
    ensures Loads(lines) == Some(packets)
  {
    assert [] + packets == packets;
  }

  /** The file as a whole: every packet with bytes in it, in order. */
  lemma FileIsRead(ps: seq<Source>, width: nat, period: nat)
    requires width > 0
    ensures Loads(Dump(ps, width, period, None)) == Some(AllExpected(ps, width))
  {
    var end := DumpIsRead(Start(), ps, width, period, None);
    LoadsAll(Dump(ps, width, period, None), end, AllExpected(ps, width));
  }

  /** A file of packets with bytes in them reads back as the same packets, whatever their times. */
  method RoundTrip(packets: seq<Source>, busWidth: nat, period: nat, readPeriod: real)
    returns (loaded: Option<seq<Loaded>>, times: seq<real>)
    requires busWidth > 0 && busWidth % 8 == 0
    requires forall i :: 0 <= i < |packets| ==> packets[i].bytes != []
    ensures loaded.Some? && |loaded.value| == |packets|
    ensures forall i :: 0 <= i < |packets| ==> loaded.value[i] == Expected(packets[i], busWidth / 8)
    ensures var lines := Dump(packets, busWidth / 8, period, None); Loads(lines).Some? && times == Times(lines, readPeriod)
  {
    var lines := AxisDump(packets, busWidth, period);
    FileIsRead(packets, busWidth / 8, period);
    loaded, times := AxisLoad(lines, readPeriod);
    AllExpectedAt(packets, busWidth / 8);
  }

  lemma {:induction false} AllExpectedAt(ps: seq<Source>, width: nat)
    requires width > 0 && forall i :: 0 <= i < |ps| ==> ps[i].bytes != []
    ensures |AllExpected(ps, width)| == |ps|
    ensures forall i :: 0 <= i < |ps| ==> AllExpected(ps, width)[i] == Expected(ps[i], width)
  {
    if ps != [] {
      AllExpectedAt(ps[1..], width);
    }
  }

  /** What the loader reports of a packet that was written: its bytes, its length and ports, and TUSER padded with zeros. */
  lemma ExpectedFields(p: Source, width: nat, k: nat)
    requires width > 0 && p.bytes != []
    ensures var l := Expected(p, width);
            && l.bytes == p.bytes
            && l.tuser != []
            && (LengthOf(l.tuser[0]) == |p.bytes| <==> |p.bytes| < 0x1_0000)
            && (p.sport.Some? ==> SportOf(l.tuser[0]) == p.sport.value)
            && (p.dport.Some? ==> DportOf(l.tuser[0]) == p.dport.value)
            && (|p.bytes| < 0x1_0000 ==>
                  && (p.sport.None? ==> l.tuser[0] / 0x1_0000 % 0x100 == Head(p.tuser) % WIDE / 0x1_0000 % 0x100)
                  && (p.dport.None? ==> l.tuser[0] / 0x100_0000 % 0x100 == Head(p.tuser) % WIDE / 0x100_0000 % 0x100)
                  && l.tuser[0] / 0x1_0000_0000 == Head(p.tuser) % WIDE / 0x1_0000_0000)
            && (0 < k < |l.tuser| ==> l.tuser[k] == if k < |p.tuser| then p.tuser[k] else 0)
            && (|l.tuser| - 1) * width < |p.bytes| <= |l.tuser| * width
  {
    var l := Expected(p, width);
    FirstWordFields(p);
    UserWordsCount(p.bytes, width, Users(p));
    if 0 < k < |l.tuser| {
      UserWordsPadded(p.bytes, width, Users(p), k);
    }
  }
}
