/** The CoAP message format (RFC 7252, section 3) as apps/er-coap/er-coap.c writes and reads it. */
module Coap {
  import opened Basics
  import opened Block2

  const COAP_OPTION_SIZE1 := 60
  const COAP_HEADER_LEN := 4
  const COAP_TOKEN_LEN := 8
  const COAP_ETAG_LEN := 8
  const COAP_MAX_HEADER_SIZE := 62

  const BAD_REQUEST_4_00 := 128
  const PROXYING_NOT_SUPPORTED_5_05 := 165

  const SLASH: byte := 0x2f
  const AMPERSAND: byte := 0x26

  // ----- Options -----

  /** How the value of an option is coded. The strings of a list option are kept joined by a
      separator, and each part is an option of its own in the message. */
  datatype Kind = Short | Long | Opaque | Empty | Plain | Multiple(separator: byte) | BlockKind | Proxy | Unknown

  function KindOf(number: nat): Kind {
    match number
    case 1 | 4 => Opaque
    case 3 => Plain
    case 5 => Empty
    case 6 | 14 | 28 | 60 => Long
    case 7 | 12 | 17 => Short
    case 8 | 11 => Multiple(SLASH)
    case 15 | 20 => Multiple(AMPERSAND)
    case 23 | 27 => BlockKind
    case 35 | 39 => Proxy
    case _ => Unknown
  }

  datatype Value = Number(n: uint32) | Octets(b: seq<byte>) | Flag | Text(s: seq<byte>) | BlockValue(block: Block)

  /** A value that the setters of the API can put into a packet. */
  predicate Settable(number: nat, v: Value) {
    match KindOf(number)
    case Short => v.Number? && v.n < 0x1_0000
    case Long => v.Number?
    case Opaque => v.Octets? && |v.b| <= COAP_ETAG_LEN
    case Empty => v.Flag?
    case Plain => v.Text? && |v.s| < 0x1_0000
    case Multiple(_) => v.Text? && |v.s| < 0x1_0000
    case BlockKind => v.BlockValue? && v.block.num <= MAX_BLOCK_NUM && 16 <= v.block.size <= 2048
    case _ => false
  }

  // ----- Option headers -----

  /** coap_option_nibble */
  function Nibble(value: nat): (n: nat)
    ensures n < 15
  {
    if value < 13 then value else if value <= 0xff + 13 then 13 else 14
  }

  function Extension(value: nat): seq<byte> {
    if value > 268 then [(value - 269) / 0x100 % 0x100, (value - 269) % 0x100]
    else if value > 12 then [value - 13]
    else []
  }

  function OptionHeader(delta: nat, length: nat): seq<byte> {
    [Nibble(delta) * 16 + Nibble(length)] + Extension(delta) + Extension(length)
  }

  /** A byte of the datagram; what is behind its end is taken as zero. */
  function At(data: seq<byte>, i: nat): byte {
    if i < |data| then data[i] else 0
  }

  predicate Contains(data: seq<byte>, at: nat, part: seq<byte>) {
    at + |part| <= |data| && data[at..at + |part|] == part
  }

  lemma ContainsParts(data: seq<byte>, at: nat, a: seq<byte>, b: seq<byte>)
    requires Contains(data, at, a + b)
    ensures Contains(data, at, a) && Contains(data, at + |a|, b)
  {
    assert data[at..at + |a|] == (a + b)[..|a|];
    assert data[at + |a|..at + |a| + |b|] == (a + b)[|a|..];
  }

  lemma ContainsByte(data: seq<byte>, at: nat, b: byte)
    requires Contains(data, at, [b])
    ensures at < |data| && data[at] == b
  {
    assert data[at] == data[at..at + 1][0];
  }

  /** A nibble and its extension: the value, and where the next byte is. */
  function ReadExtended(data: seq<byte>, nibble: nat, at: nat): (r: (nat, nat))
    ensures at <= r.1
  {
    if nibble == 13 then (13 + At(data, at), at + 1)
    else if nibble == 14 then (269 + At(data, at) * 0x100 + At(data, at + 1), at + 2)
    else (nibble, at)
  }

  lemma ExtensionRead(data: seq<byte>, value: nat, at: nat)
    requires value < 0x1_0000 && Contains(data, at, Extension(value))
    ensures ReadExtended(data, Nibble(value), at) == (value, at + |Extension(value)|)
  {
    if value > 12 {
      assert data[at] == data[at..at + |Extension(value)|][0];
      if value > 268 {
        assert data[at + 1] == data[at..at + |Extension(value)|][1];
      }
    }
  }

  /** The delta and the length of the option at a position, and where its value is. */
  function ReadHeader(data: seq<byte>, at: nat): (r: (nat, nat, nat))
    requires at < |data|
    ensures at < r.2
  {
    var (delta, at1) := ReadExtended(data, data[at] / 16, at + 1);
    var (length, at2) := ReadExtended(data, data[at] % 16, at1);
    (delta, length, at2)
  }

  lemma HeaderRead(data: seq<byte>, at: nat, delta: nat, length: nat)
    requires delta < 0x1_0000 && length < 0x1_0000 && Contains(data, at, OptionHeader(delta, length))
    ensures ReadHeader(data, at) == (delta, length, at + |OptionHeader(delta, length)|)
    ensures data[at] / 16 != 15
  {
    hide Extension, ReadExtended, Nibble, Contains;
    var first: seq<byte> := [Nibble(delta) * 16 + Nibble(length)];
    ContainsParts(data, at, first + Extension(delta), Extension(length));
    ContainsParts(data, at, first, Extension(delta));
    ContainsByte(data, at, first[0]);
    ExtensionRead(data, delta, at + 1);
    ExtensionRead(data, length, at + 1 + |Extension(delta)|);
  }

  // ----- Integers -----

  /** The bytes of an integer without leading zeros. */
  function IntBytes(v: uint32): (b: seq<byte>)
    ensures |b| <= 4
  {
    (if v >= 0x100_0000 then [v / 0x100_0000] else [])
    + (if v >= 0x1_0000 then [v / 0x1_0000 % 0x100] else [])
    + (if v >= 0x100 then [v / 0x100 % 0x100] else [])
    + (if v >= 1 then [v % 0x100] else [])
  }

  /** coap_parse_int_option */
  function IntOf(b: seq<byte>): uint32 {
    if b == [] then 0 else (IntOf(b[..|b| - 1]) * 0x100 + b[|b| - 1]) % 0x1_0000_0000
  }

  lemma IntOfNone()
    ensures IntOf([]) == 0
  {
  }

  lemma IntOfMore(b: seq<byte>, x: byte)
    ensures IntOf(b + [x]) == (IntOf(b) * 0x100 + x) % 0x1_0000_0000
    ensures IntOf(b) < 0x100_0000 ==> IntOf(b + [x]) == IntOf(b) * 0x100 + x
  {
    assert (b + [x])[..|b|] == b;
  }

  lemma IntOfFour(a: byte, b: byte, c: byte, d: byte)
    ensures IntOf([]) == 0 && IntOf([d]) == d && IntOf([c, d]) == c * 0x100 + d
    ensures IntOf([b, c, d]) == (b * 0x100 + c) * 0x100 + d
    ensures IntOf([a, b, c, d]) == ((a * 0x100 + b) * 0x100 + c) * 0x100 + d
  {
    hide IntOf;
    IntOfTwo(c, d);
    IntOfTwo(b, c);
    IntOfTwo(a, b);
    IntOfMore([b, c], d);
    IntOfMore([a, b], c);
    IntOfMore([a, b, c], d);
    assert [b, c] + [d] == [b, c, d] && [a, b] + [c] == [a, b, c] && [a, b, c] + [d] == [a, b, c, d];
  }

  lemma IntOfTwo(a: byte, b: byte)
    ensures IntOf([]) == 0 && IntOf([b]) == b && IntOf([a, b]) == a * 0x100 + b
  {
    hide IntOf;
    IntOfNone();
    IntOfMore([], a);
    IntOfMore([], b);
    IntOfMore([a], b);
    assert [] + [a] == [a] && [] + [b] == [b] && [a] + [b] == [a, b];
  }

  /** The four bytes of a number. */
  lemma FourBytes(v: uint32)
    ensures var a, b, c, d := v / 0x100_0000, v / 0x1_0000 % 0x100, v / 0x100 % 0x100, v % 0x100;
            && a < 0x100 && v == ((a * 0x100 + b) * 0x100 + c) * 0x100 + d
  {
    var v1, v2 := v / 0x100, v / 0x1_0000;
    assert v1 / 0x100 == v2 && v2 / 0x100 == v / 0x100_0000;
    assert v == v1 * 0x100 + v % 0x100;
    assert v1 == v2 * 0x100 + v1 % 0x100;
  }

  lemma IntRoundTrip(v: uint32)
    ensures IntOf(IntBytes(v)) == v
  {
    hide IntOf, IntBytes;
    FourBytes(v);
    var a, b, c, d := v / 0x100_0000, v / 0x1_0000 % 0x100, v / 0x100 % 0x100, v % 0x100;
    IntOfFour(a, b, c, d);
    IntBytesAre(v, a, b, c, d);
    SmallNumbers(v, a, b, c, d);
  }

  /** Leading zeros do not count. */
  lemma SmallNumbers(v: uint32, a: byte, b: byte, c: byte, d: byte)
    requires v == ((a * 0x100 + b) * 0x100 + c) * 0x100 + d
    ensures v < 0x100_0000 ==> v == (b * 0x100 + c) * 0x100 + d
    ensures v < 0x1_0000 ==> v == c * 0x100 + d
    ensures v < 0x100 ==> v == d
    ensures v < 1 ==> v == 0
  {
  }

  lemma IntBytesAre(v: uint32, a: byte, b: byte, c: byte, d: byte)
    requires a == v / 0x100_0000 && b == v / 0x1_0000 % 0x100 && c == v / 0x100 % 0x100 && d == v % 0x100
    ensures IntBytes(v) == if v >= 0x100_0000 then [a, b, c, d] else if v >= 0x1_0000 then [b, c, d]
                           else if v >= 0x100 then [c, d] else if v >= 1 then [d] else []
  {
  }

  // ----- Lists -----

  /** The parts of a list value from `start` on, as the loop of coap_serialize_array_option finds
      them. It goes on two characters behind a separator, so the character after a separator is
      never taken for one; and a separator at the end leaves no part behind it. */
  function Split(s: seq<byte>, separator: byte, start: nat, j: nat): (parts: seq<seq<byte>>)
    requires start <= |s| && start <= j <= |s| + 1
    ensures forall p <- parts :: |p| <= |s|
    decreases |s| + 1 - j
  {
    if j > |s| then []
    else if j == |s| then [s[start..]]
    else if s[j] == separator then [s[start..j]] + Split(s, separator, j + 1, j + 2)
    else Split(s, separator, start, j + 1)
  }

  /** coap_merge_multi_option */
  function Merge(before: seq<byte>, part: seq<byte>, separator: byte): seq<byte> {
    if before != [] then before + [separator] + part else part
  }

  function MergeAll(before: seq<byte>, parts: seq<seq<byte>>, separator: byte): seq<byte>
    decreases |parts|
  {
    if parts == [] then before else MergeAll(Merge(before, parts[0], separator), parts[1..], separator)
  }

  /** What is read back of a list value. */
  function Rejoined(s: seq<byte>, separator: byte): seq<byte> {
    MergeAll([], Split(s, separator, 0, 0), separator)
  }

  /** The loop meets the end of the string rather than stepping over it. */
  predicate MeetsEnd(s: seq<byte>, separator: byte, j: nat)
    requires j <= |s| + 1
    decreases |s| + 1 - j
  {
    if j >= |s| then j == |s| else MeetsEnd(s, separator, if s[j] == separator then j + 2 else j + 1)
  }

  function TrailingRun(s: seq<byte>, separator: byte): (n: nat)
    ensures n <= |s|
  {
    if s == [] || s[|s| - 1] != separator then 0 else 1 + TrailingRun(s[..|s| - 1], separator)
  }

  lemma MergeOne(before: seq<byte>, part: seq<byte>, parts: seq<seq<byte>>, separator: byte)
    ensures MergeAll(before, [part] + parts, separator) == MergeAll(Merge(before, part, separator), parts, separator)
  {
    assert ([part] + parts)[1..] == parts;
  }

  lemma JoinAt(before: seq<byte>, s: seq<byte>, separator: byte, start: nat, j: nat)
    requires start <= j < |s| && s[j] == separator
    ensures before + [separator] + s[start..j] + [separator] + s[j + 1..] == before + [separator] + s[start..]
    ensures s[start..j] + [separator] + s[j + 1..] == s[start..]
  {
    assert s[start..] == s[start..j] + [s[j]] + s[j + 1..];
  }

  /** The first part, its separator and the rest are the whole, and without the last byte as well. */
  lemma JoinFirst(s: seq<byte>, separator: byte, start: nat, j: nat)
    requires start <= j < |s| && s[j] == separator
    ensures var full := s[start..j] + [separator] + s[j + 1..];
            full == s[start..] && full[..|full| - 1] == s[start..|s| - 1]
  {
    JoinAt([], s, separator, start, j);
    assert s[start..][..|s| - start - 1] == s[start..|s| - 1];
  }

  lemma SplitStep(s: seq<byte>, separator: byte, start: nat, j: nat)
    requires start <= |s| && start <= j <= |s| + 1
    ensures j > |s| ==> Split(s, separator, start, j) == [] && !MeetsEnd(s, separator, j)
    ensures j == |s| ==> Split(s, separator, start, j) == [s[start..]] && MeetsEnd(s, separator, j)
    ensures j < |s| && s[j] == separator ==>
              && Split(s, separator, start, j) == [s[start..j]] + Split(s, separator, j + 1, j + 2)
              && MeetsEnd(s, separator, j) == MeetsEnd(s, separator, j + 2)
    ensures j < |s| && s[j] != separator ==>
              && Split(s, separator, start, j) == Split(s, separator, start, j + 1)
              && MeetsEnd(s, separator, j) == MeetsEnd(s, separator, j + 1)
  {
  }

  lemma {:induction false} MergeSplit(before: seq<byte>, s: seq<byte>, separator: byte, start: nat, j: nat)
    requires before != [] && start <= |s| && start <= j <= |s| + 1 && (j == |s| + 1 ==> start == |s|)
    ensures var full := before + [separator] + s[start..];
            MergeAll(before, Split(s, separator, start, j), separator)
              == if MeetsEnd(s, separator, j) then full else full[..|full| - 1]
    decreases |s| + 1 - j
  {
    hide MergeAll, Split, MeetsEnd;
    SplitStep(s, separator, start, j);
    if j > |s| {
      MergeNone(before, separator);
      assert (before + [separator] + s[start..])[..|before|] == before;
    } else if j == |s| {
      MergeOne(before, s[start..], [], separator);
      MergeNone(Merge(before, s[start..], separator), separator);
      assert [s[start..]] + [] == [s[start..]];
    } else if s[j] == separator {
      MergeOne(before, s[start..j], Split(s, separator, j + 1, j + 2), separator);
      MergeSplit(before + [separator] + s[start..j], s, separator, j + 1, j + 2);
      JoinAt(before, s, separator, start, j);
    } else {
      MergeSplit(before, s, separator, start, j + 1);
    }
  }

  lemma MergeNone(before: seq<byte>, separator: byte)
    ensures MergeAll(before, [], separator) == before
  {
  }

  lemma {:induction false} MergeSplitFirst(s: seq<byte>, separator: byte, start: nat, j: nat)
    requires start <= |s| && start <= j <= |s| + 1 && (j == |s| + 1 ==> start == |s|)
    ensures |MergeAll([], Split(s, separator, start, j), separator)| <= |s| - start
    ensures start < j ==>
              MergeAll([], Split(s, separator, start, j), separator) ==
                if j == |s| + 1 then [] else if MeetsEnd(s, separator, j) then s[start..] else s[start..|s| - 1]
    decreases |s| + 1 - j
  {
    hide MergeAll, Split, MeetsEnd;
    SplitStep(s, separator, start, j);
    MergeNone([], separator);
    if j == |s| {
      MergeOne([], s[start..], [], separator);
      MergeNone(s[start..], separator);
      assert [s[start..]] + [] == [s[start..]];
    } else if j < |s| {
      if s[j] == separator {
        MergeOne([], s[start..j], Split(s, separator, j + 1, j + 2), separator);
        assert Merge([], s[start..j], separator) == s[start..j];
        if start < j {
          MergeSplit(s[start..j], s, separator, j + 1, j + 2);
          JoinFirst(s, separator, start, j);
        } else {
          MergeSplitFirst(s, separator, j + 1, j + 2);
        }
      } else {
        MergeSplitFirst(s, separator, start, j + 1);
      }
    }
  }

  lemma {:induction false} MeetsEndByRun(s: seq<byte>, separator: byte, j: nat)
    requires j <= |s| + 1
    ensures MeetsEnd(s, separator, j) <==>
              if j <= |s| - TrailingRun(s, separator) then TrailingRun(s, separator) % 2 == 0 else (|s| + 1 - j) % 2 == 1
    decreases |s| + 1 - j
  {
    hide TrailingRun;
    RunIsSeparators(s, separator);
    if j < |s| {
      var next := if s[j] == separator then j + 2 else j + 1;
      MeetsEndByRun(s, separator, next);
    }
  }

  lemma {:induction false} RunIsSeparators(s: seq<byte>, separator: byte)
    ensures var k := |s| - TrailingRun(s, separator);
            && (forall i | k <= i < |s| :: s[i] == separator)
            && (k > 0 ==> s[k - 1] != separator)
  {
    if s != [] {
      RunIsSeparators(s[..|s| - 1], separator);
    }
  }

  /** A list value is read back unchanged exactly if it is empty, or does not start with a
      separator and ends with an even number of them. */
  lemma RejoinedIsSame(s: seq<byte>, separator: byte)
    ensures Rejoined(s, separator) == s <==> s == [] || (s[0] != separator && TrailingRun(s, separator) % 2 == 0)
  {
    hide Split, MergeAll, MeetsEnd, TrailingRun;
    SplitStep(s, separator, 0, 0);
    if s == [] {
      MergeOne([], [], [], separator);
      MergeNone([], separator);
      assert [s[0..]] == [[]] + [];
    } else if s[0] == separator {
      MergeOne([], [], Split(s, separator, 1, 2), separator);
      MergeSplitFirst(s, separator, 1, 2);
    } else {
      MergeSplitFirst(s, separator, 0, 1);
      MeetsEndByRun(s, separator, 1);
      RunIsSeparators(s, separator);
      assert s[0..] == s && s[0..|s| - 1] != s;
    }
  }
}
