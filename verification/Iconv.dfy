/** Conversion of text between character sets and newline conventions: src/common/iconv.c, without
    UTF-8, which is read and written by a library. */
module Iconv {

  type Byte = x: int | 0 <= x < 256

  datatype Charset = ISO8859_1 | CP1252 | UTF16

  const CR := 13
  const LF := 10
  const QUESTION := 63    // '?'

  /** __GUAC_RDP_CP1252_CODEPOINT: the codepoint of byte 0x80 + i. */
  function CodePoint(i: nat): (c: int)
    requires i < 32
    ensures c > 0xFF
  {
    match i
    case 0 => 0x20AC case 1 => 0xFFFD case 2 => 0x201A case 3 => 0x0192
    case 4 => 0x201E case 5 => 0x2026 case 6 => 0x2020 case 7 => 0x2021
    case 8 => 0x02C6 case 9 => 0x2030 case 10 => 0x0160 case 11 => 0x2039
    case 12 => 0x0152 case 13 => 0xFFFD case 14 => 0x017D case 15 => 0xFFFD
    case 16 => 0xFFFD case 17 => 0x2018 case 18 => 0x2019 case 19 => 0x201C
    case 20 => 0x201D case 21 => 0x2022 case 22 => 0x2013 case 23 => 0x2014
    case 24 => 0x02DC case 25 => 0x2122 case 26 => 0x0161 case 27 => 0x203A
    case 28 => 0x0153 case 29 => 0xFFFD case 30 => 0x017E case _ => 0x0178
  }

  /** The table holds the value, from entry k on. */
  predicate InTable(value: int, k: nat)
    requires k <= 32
    decreases 32 - k
  {
    k < 32 && (CodePoint(k) == value || InTable(value, k + 1))
  }

  /** The bytes of a character. */
  function Unit(charset: Charset): nat {
    if charset == UTF16 then 2 else 1
  }

  /** The byte 0x80 + i for the first table entry from k on that holds the value, or a question mark. */
  function Find(value: int, k: nat): (b: Byte)
    requires k <= 32
    decreases 32 - k
  {
    if k == 32 then QUESTION else if CodePoint(k) == value then 0x80 + k else Find(value, k + 1)
  }

  /** What a writer writes for a codepoint if there is enough room. */
  function Encode(charset: Charset, value: int): (bytes: seq<Byte>)
    requires value >= 0
    ensures |bytes| == Unit(charset)
  {
    match charset
    case ISO8859_1 => [if value > 0xFF then QUESTION else value]
    case CP1252 => [if 0x80 <= value <= 0x9F || value > 0xFF then Find(value, 0) else value]
    case UTF16 => [value % 256, value / 256 % 256]
  }

  /** What a reader makes of the bytes of one character. */
  function Decode(charset: Charset, bytes: seq<Byte>): (value: int)
    requires |bytes| >= Unit(charset)
    ensures value >= 0
  {
    match charset
    case ISO8859_1 => bytes[0]
    case CP1252 => if 0x80 <= bytes[0] <= 0x9F then CodePoint(bytes[0] - 0x80) else bytes[0]
    case UTF16 => (bytes[0] as int) + 256 * (bytes[1] as int)
  }

  /** The codepoints that a character set has. */
  predicate Representable(charset: Charset, value: int) {
    match charset
    case ISO8859_1 => 0 <= value <= 0xFF
    case CP1252 => 0 <= value < 0x80 || 0xA0 <= value <= 0xFF || (InTable(value, 0) && value != 0xFFFD)
    case UTF16 => 0 <= value <= 0xFFFF
  }

  lemma {:induction false} FindFinds(value: int, k: nat)
    requires k <= 32
    ensures if InTable(value, k) then 0x80 + k <= Find(value, k) <= 0x9F && CodePoint(Find(value, k) - 0x80) == value
            else Find(value, k) == QUESTION
    decreases 32 - k
  {
    if k < 32 {
      FindFinds(value, k + 1);
    }
  }

  /** A codepoint survives being written and read exactly if the character set has it; the one that
      stands for undefined bytes of CP-1252 does so as well. */
  lemma SurvivesIff(charset: Charset, value: int)
    requires value >= 0
    ensures Decode(charset, Encode(charset, value)) == value
       <==> Representable(charset, value) || (charset == CP1252 && value == 0xFFFD)
  {
    FindFinds(value, 0);
    if value == 0xFFFD {
      assert CodePoint(1) == value && InTable(value, 1);
    }
  }

  // Readers, writers and the loop between them.

  /** GUAC_WRITE_...: UTF-16 is not written at all if there is too little room. */
  function WriteOne(charset: Charset, room: int, value: int): (bytes: seq<Byte>)
    requires value >= 0
  {
    if charset == UTF16 && room < 2 then [] else Encode(charset, value)
  }

  /** guac_iconv_write_crlf, if `crlf` */
  function Write(charset: Charset, crlf: bool, room: int, value: int): (bytes: seq<Byte>)
    requires value >= 0
  {
    if !crlf || value != LF then WriteOne(charset, room, value)
    else
      var cr := WriteOne(charset, room, CR);
      if room - |cr| > 0 then cr + WriteOne(charset, room - |cr|, LF) else cr
  }

  /** GUAC_READ_...: the codepoint at a position, and how many bytes it takes. A reader of single
      bytes does not look at how many remain. */
  function ReadOne(charset: Charset, memory: seq<Byte>, at: nat, remaining: int): (r: (int, nat))
    requires at < |memory| && at + remaining <= |memory|
    ensures r.0 >= 0 && at + r.1 <= |memory| && (r.1 == 0 ==> r.0 == 0)
  {
    if charset == UTF16 && remaining < 2 then (0, 0) else (Decode(charset, memory[at..]), Unit(charset))
  }

  /** guac_iconv_read_normalized, if `normalized` */
  function Read(charset: Charset, normalized: bool, memory: seq<Byte>, at: nat, remaining: int): (r: (int, nat))
    requires remaining > 0 && at + remaining < |memory|
    ensures r.0 >= 0 && at + r.1 <= |memory| && (r.1 == 0 ==> r.0 == 0)
  {
    var (value, used) := ReadOne(charset, memory, at, remaining);
    if normalized && value == CR then
      var (next, more) := ReadOne(charset, memory, at + used, remaining - used);
      if next == LF then (LF, used + more) else (value, used)
    else (value, used)
  }

  datatype Mode = Mode(charset: Charset, newlines: bool)

  /** guac_iconv: what is written, and whether the null terminator has been reached. The byte behind
      the input can be read, too. */
  function Convert(reader: Mode, writer: Mode, memory: seq<Byte>, at: nat, remaining: int,
                   room: int): (r: (seq<Byte>, bool))
    requires at + remaining < |memory|
    decreases |memory| - at
  {
    if remaining <= 0 || room <= 0 then ([], false)
    else
      var (value, used) := Read(reader.charset, reader.newlines, memory, at, remaining);
      var bytes := Write(writer.charset, writer.newlines, room, value);
      if value == 0 then (bytes, true)
      else
        var (more, done) := Convert(reader, writer, memory, at + used, remaining - used, room - |bytes|);
        (bytes + more, done)
  }

  /** One iteration of the loop of guac_iconv. */
  lemma ConvertsOne(reader: Mode, writer: Mode, memory: seq<Byte>, at: nat, remaining: int, room: int, value: nat,
                    n: nat, bytes: seq<Byte>)
    requires remaining > 0 && at + remaining < |memory| && room > 0
    requires Read(reader.charset, reader.newlines, memory, at, remaining) == (value, n)
    requires Write(writer.charset, writer.newlines, room, value) == bytes
    ensures value == 0 ==> Convert(reader, writer, memory, at, remaining, room) == (bytes, true)
    ensures value != 0 ==>
              var more := Convert(reader, writer, memory, at + n, remaining - n, room - |bytes|);
              Convert(reader, writer, memory, at, remaining, room) == (bytes + more.0, more.1)
  {
  }

  /** Reads and writes one codepoint. */
  method ConvertNext(reader: Mode, writer: Mode, memory: seq<Byte>, input: nat, remaining: int, room: int)
      returns (value: nat, used: nat, bytes: seq<Byte>, ghost rest: (seq<Byte>, bool))
    requires remaining > 0 && input + remaining < |memory| && room > 0
    ensures input + used <= |memory| && (value != 0 ==> used > 0)
    ensures value == 0 ==> Convert(reader, writer, memory, input, remaining, room) == (bytes, true)
    ensures value != 0 ==> rest == Convert(reader, writer, memory, input + used, remaining - used, room - |bytes|)
    ensures value != 0 ==> Convert(reader, writer, memory, input, remaining, room) == (bytes + rest.0, rest.1)
  {
    var read := Read(reader.charset, reader.newlines, memory, input, remaining);
    value, used := read.0, read.1;
    bytes := Write(writer.charset, writer.newlines, room, value);
    ConvertsOne(reader, writer, memory, input, remaining, room, value, used, bytes);
    rest := if value == 0 then ([], true)
            else Convert(reader, writer, memory, input + used, remaining - used, room - |bytes|);
  }

  /** guac_iconv */
  method ConvertText(reader: Mode, writer: Mode, memory: seq<Byte>, inRemaining: nat, outRemaining: nat)
      returns (output: seq<Byte>, done: bool)
    requires inRemaining < |memory|
    ensures (output, done) == Convert(reader, writer, memory, 0, inRemaining, outRemaining)
  {
    output := [];
    var input: int, remaining: int, room: int := 0, inRemaining, outRemaining;
    ghost var total := Convert(reader, writer, memory, 0, inRemaining, outRemaining);
    ghost var rest := total;
    assert output + rest.0 == rest.0;
    while remaining > 0 && room > 0
      invariant 0 <= input <= |memory| && input + remaining == inRemaining
      invariant rest == Convert(reader, writer, memory, input, remaining, room)
      invariant total == (output + rest.0, rest.1)
      decreases remaining
    {
      var value, used, bytes, next := ConvertNext(reader, writer, memory, input, remaining, room);
      Regroup(output, bytes, next.0);
      output := output + bytes;
      if value == 0 {
        return output, true;
      }
      rest := next;
      input, remaining, room := input + used, remaining - used, room - |bytes|;
    }
    done := false;
    assert rest == ([], false) && output + [] == output;
  }

  lemma Regroup(a: seq<Byte>, b: seq<Byte>, c: seq<Byte>)
    ensures a + (b + c) == a + b + c
  {
  }

  // Round trips.

  /** The bytes of a codepoint, if newlines are CR LF in this mode. */
  function Bytes(mode: Mode, value: nat): (bytes: seq<Byte>)
    ensures |bytes| > 0
  {
    if mode.newlines && value == LF then Encode(mode.charset, CR) + Encode(mode.charset, LF)
    else Encode(mode.charset, value)
  }

  function Text(mode: Mode, values: seq<nat>): seq<Byte> {
    if values == [] then [] else Bytes(mode, values[0]) + Text(mode, values[1..])
  }

  ghost predicate HoldsAt(memory: seq<Byte>, at: nat, bytes: seq<Byte>) {
    at + |bytes| <= |memory| && memory[at..at + |bytes|] == bytes
  }

  lemma HoldsBoth(memory: seq<Byte>, at: nat, a: seq<Byte>, b: seq<Byte>)
    requires HoldsAt(memory, at, a + b)
    ensures HoldsAt(memory, at, a) && HoldsAt(memory, at + |a|, b)
  {
    assert memory[at..at + |a|] == (a + b)[..|a|] == a;
    assert memory[at + |a|..at + |a| + |b|] == (a + b)[|a|..] == b;
  }

  lemma ReadsOne(charset: Charset, memory: seq<Byte>, at: nat, remaining: int, value: nat)
    requires Representable(charset, value) && HoldsAt(memory, at, Encode(charset, value))
    requires remaining >= Unit(charset) && at + remaining <= |memory|
    ensures ReadOne(charset, memory, at, remaining) == (value, Unit(charset))
  {
    SurvivesIff(charset, value);
    var n := Unit(charset);
    assert forall k :: 0 <= k < n ==> memory[at..][k] == memory[at..at + n][k];
  }

  /** The codepoint that the bytes of a codepoint start with. */
  function Leading(mode: Mode, value: nat): nat {
    if mode.newlines && value == LF then CR else value
  }

  lemma LeadingHolds(mode: Mode, memory: seq<Byte>, at: nat, value: nat)
    requires HoldsAt(memory, at, Bytes(mode, value))
    ensures HoldsAt(memory, at, Encode(mode.charset, Leading(mode, value)))
  {
    if mode.newlines && value == LF {
      HoldsBoth(memory, at, Encode(mode.charset, CR), Encode(mode.charset, LF));
    }
  }

  /** Reading with a reader that normalizes newlines what has been written with CR LF for each of
      them gives each codepoint, even if that is a CR of its own: what follows is no LF then. */
  lemma ReadsFirst(mode: Mode, memory: seq<Byte>, at: nat, remaining: int, value: nat, next: nat)
    requires Representable(mode.charset, value) && Representable(mode.charset, next)
    requires HoldsAt(memory, at, Bytes(mode, value)) && remaining >= |Bytes(mode, value)| && at + remaining < |memory|
    requires value == CR ==> HoldsAt(memory, at + |Bytes(mode, value)|, Bytes(mode, next))
    requires value == CR ==> remaining >= |Bytes(mode, value)| + |Bytes(mode, next)|
    ensures Read(mode.charset, mode.newlines, memory, at, remaining) == (value, |Bytes(mode, value)|)
  {
    var cs := mode.charset;
    var n := Unit(cs);
    LeadingHolds(mode, memory, at, value);
    ReadsOne(cs, memory, at, remaining, Leading(mode, value));
    if mode.newlines && value == LF {
      HoldsBoth(memory, at, Encode(cs, CR), Encode(cs, LF));
      ReadsOne(cs, memory, at + n, remaining - n, LF);
    } else if mode.newlines && value == CR {
      LeadingHolds(mode, memory, at + n, next);
      ReadsOne(cs, memory, at + n, remaining - n, Leading(mode, next));
    }
  }

  lemma WritesFirst(mode: Mode, room: int, value: nat)
    requires room >= |Bytes(mode, value)|
    ensures Write(mode.charset, mode.newlines, room, value) == Bytes(mode, value)
  {
  }

  /** A text that ends with its first null terminator, all of it in the character set. */
  predicate IsText(charset: Charset, values: seq<nat>) {
    && values != [] && Representable(charset, values[0])
    && if values[0] == 0 then |values| == 1 else IsText(charset, values[1..])
  }

  lemma FirstHolds(mode: Mode, memory: seq<Byte>, at: nat, values: seq<nat>)
    requires values != [] && HoldsAt(memory, at, Text(mode, values))
    ensures var n := |Bytes(mode, values[0])|;
      && HoldsAt(memory, at, Bytes(mode, values[0])) && HoldsAt(memory, at + n, Text(mode, values[1..]))
      && |Text(mode, values)| == n + |Text(mode, values[1..])|
  {
    HoldsBoth(memory, at, Bytes(mode, values[0]), Text(mode, values[1..]));
  }

  lemma ReadsText(mode: Mode, memory: seq<Byte>, at: nat, remaining: int, values: seq<nat>)
    requires IsText(mode.charset, values)
    requires HoldsAt(memory, at, Text(mode, values)) && remaining >= |Text(mode, values)| && at + remaining < |memory|
    ensures Read(mode.charset, mode.newlines, memory, at, remaining) == (values[0], |Bytes(mode, values[0])|)
  {
    FirstHolds(mode, memory, at, values);
    if values[0] == 0 {
      ReadsFirst(mode, memory, at, remaining, 0, 0);
    } else {
      FirstHolds(mode, memory, at + |Bytes(mode, values[0])|, values[1..]);
      ReadsFirst(mode, memory, at, remaining, values[0], values[1]);
    }
  }

  lemma TextOfLast(mode: Mode, values: seq<nat>)
    requires |values| == 1
    ensures Text(mode, values) == Bytes(mode, values[0])
  {
    assert values[1..] == [] && Bytes(mode, values[0]) + [] == Bytes(mode, values[0]);
  }

  /** One iteration of the loop, on the first codepoint of a text. */
  lemma TranscodesFirst(reader: Mode, writer: Mode, memory: seq<Byte>, at: nat, remaining: int, room: int, value: nat,
                        n: nat, bytes: seq<Byte>, more: (seq<Byte>, bool))
    requires remaining > 0 && at + remaining < |memory| && room >= |bytes| && bytes == Bytes(writer, value)
    requires Read(reader.charset, reader.newlines, memory, at, remaining) == (value, n)
    requires value != 0 ==> more == Convert(reader, writer, memory, at + n, remaining - n, room - |bytes|)
    ensures Convert(reader, writer, memory, at, remaining, room)
         == if value == 0 then (bytes, true) else (bytes + more.0, more.1)
  {
    WritesFirst(writer, room, value);
    ConvertsOne(reader, writer, memory, at, remaining, room, value, n, bytes);
  }

  lemma TranscodesLast(reader: Mode, writer: Mode, memory: seq<Byte>, at: nat, remaining: int, room: int,
                       values: seq<nat>)
    requires IsText(reader.charset, values)
    requires HoldsAt(memory, at, Text(reader, values))
    requires remaining >= |Text(reader, values)| && at + remaining < |memory|
    requires room >= |Text(writer, values)|
    requires values[0] == 0
    ensures Convert(reader, writer, memory, at, remaining, room) == (Text(writer, values), true)
  {
    ReadsText(reader, memory, at, remaining, values);
    TextOfLast(writer, values);
    TranscodesFirst(reader, writer, memory, at, remaining, room, 0, |Bytes(reader, values[0])|, Bytes(writer, 0),
                    ([], true));
  }

  lemma ConvertsMore(reader: Mode, writer: Mode, memory: seq<Byte>, at: nat, remaining: int, room: int, value: nat,
                     n: nat, bytes: seq<Byte>, at': nat, remaining': int, room': int, more: seq<Byte>)
    requires remaining > 0 && at + remaining < |memory| && room > 0 && value != 0
    requires Read(reader.charset, reader.newlines, memory, at, remaining) == (value, n)
    requires Write(writer.charset, writer.newlines, room, value) == bytes
    requires at' == at + n && remaining' == remaining - n && room' == room - |bytes| && at' + remaining' < |memory|
    requires Convert(reader, writer, memory, at', remaining', room') == (more, true)
    ensures Convert(reader, writer, memory, at, remaining, room) == (bytes + more, true)
  {
    ConvertsOne(reader, writer, memory, at, remaining, room, value, n, bytes);
  }

  lemma TranscodesRead(reader: Mode, writer: Mode, memory: seq<Byte>, at: nat, remaining: int, room: int, value: nat,
                       n: nat, bytes: seq<Byte>, at': nat, remaining': int, room': int, more: seq<Byte>,
                       whole: seq<Byte>)
    requires remaining > 0 && at + remaining < |memory|
    requires room >= |bytes| && bytes == Bytes(writer, value) && value != 0
    requires Read(reader.charset, reader.newlines, memory, at, remaining) == (value, n) && whole == bytes + more
    requires at' == at + n && remaining' == remaining - n && room' == room - |bytes|
    requires at' + remaining' < |memory| && Convert(reader, writer, memory, at', remaining', room') == (more, true)
    ensures Convert(reader, writer, memory, at, remaining, room) == (whole, true)
  {
    WritesFirst(writer, room, value);
    ConvertsMore(reader, writer, memory, at, remaining, room, value, n, bytes, at', remaining', room', more);
  }

  lemma FirstOfMore(reader: Mode, memory: seq<Byte>, at: nat, remaining: int, values: seq<nat>, n: nat, at': nat,
                    remaining': int)
    requires IsText(reader.charset, values) && values[0] != 0 && HoldsAt(memory, at, Text(reader, values))
    requires remaining >= |Text(reader, values)| && at + remaining < |memory|
    requires n == |Bytes(reader, values[0])| && at' == at + n && remaining' == remaining - n
    ensures Read(reader.charset, reader.newlines, memory, at, remaining) == (values[0], n) && remaining > 0
    ensures IsText(reader.charset, values[1..]) && HoldsAt(memory, at', Text(reader, values[1..]))
    ensures remaining' >= |Text(reader, values[1..])| && at' + remaining' < |memory|
  {
    FirstHolds(reader, memory, at, values);
    ReadsText(reader, memory, at, remaining, values);
  }

  lemma FirstWritten(writer: Mode, room: int, values: seq<nat>, bytes: seq<Byte>, more: seq<Byte>)
    requires values != [] && room >= |Text(writer, values)|
    requires bytes == Bytes(writer, values[0]) && more == Text(writer, values[1..])
    ensures Text(writer, values) == bytes + more && room >= |bytes| && room - |bytes| >= |more|
  {
  }

  /** guac_iconv turns a text of one character set and newline convention into that of another. */
  lemma {:induction false} Transcodes(reader: Mode, writer: Mode, memory: seq<Byte>, at: nat, remaining: int,
                                      room: int, values: seq<nat>)
    requires IsText(reader.charset, values)
    requires HoldsAt(memory, at, Text(reader, values))
    requires remaining >= |Text(reader, values)| && at + remaining < |memory|
    requires room >= |Text(writer, values)|
    ensures Convert(reader, writer, memory, at, remaining, room) == (Text(writer, values), true)
    decreases |values|
  {
    if values[0] == 0 {
      TranscodesLast(reader, writer, memory, at, remaining, room, values);
    } else {
      var n, bytes, more := |Bytes(reader, values[0])|, Bytes(writer, values[0]), Text(writer, values[1..]);
      var at', remaining', room' := at + n, remaining - n, room - |bytes|;
      FirstOfMore(reader, memory, at, remaining, values, n, at', remaining');
      FirstWritten(writer, room, values, bytes, more);
      Transcodes(reader, writer, memory, at', remaining', room', values[1..]);
      TranscodesRead(reader, writer, memory, at, remaining, room, values[0], n, bytes, at', remaining', room', more,
                     Text(writer, values));
    }
  }

  /** There and back again: what guac_iconv writes with CR LF, whatever the character set, it turns
      back into the original with a reader that normalizes newlines. */
  lemma RoundTrip(from: Charset, to: Charset, values: seq<nat>, memory: seq<Byte>, behind: Byte, room: int)
    requires IsText(from, values) && IsText(to, values)
    requires memory == Text(Mode(from, false), values) + [behind]
    requires room >= 4 * |values|
    ensures var there := Convert(Mode(from, false), Mode(to, true), memory, 0, |memory| - 1, room);
      && there.1
      && Convert(Mode(to, true), Mode(from, false), there.0 + [behind], 0, |there.0|, room)
          == (memory[..|memory| - 1], true)
  {
    var plain, crlf := Mode(from, false), Mode(to, true);
    TextLength(plain, values);
    TextLength(crlf, values);
    Transcodes(plain, crlf, memory, 0, |memory| - 1, room, values);
    var there := Text(crlf, values);
    Transcodes(crlf, plain, there + [behind], 0, |there|, room, values);
  }

  lemma {:induction false} TextLength(mode: Mode, values: seq<nat>)
    ensures |Text(mode, values)| <= 4 * |values|
  {
    if values != [] {
      TextLength(mode, values[1..]);
    }
  }
}
