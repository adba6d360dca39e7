/** The options of CoAP by their numbers (RFC 7252, section 5.10, and RFC 7959): how the value of each is
    written into a message, and what is made of the values in a message that arrives. */
module CoapByNumber {
  import opened Basics
  import opened Block2
  import opened Coap
  import opened CoapMessage

  // ----- Values -----

  /** The strings with a separator between them. */
  function Join(parts: seq<seq<byte>>, separator: byte): seq<byte> {
    if parts == [] then []
    else if |parts| == 1 then parts[0]
    else parts[0] + [separator] + Join(parts[1..], separator)
  }

  function SkipEmpty(parts: seq<seq<byte>>): seq<seq<byte>> {
    if parts == [] || parts[0] != [] then parts else SkipEmpty(parts[1..])
  }

  /** The number that bytes stand for, the most significant one first. */
  function BigEndian(b: seq<byte>): nat {
    if b == [] then 0 else BigEndian(b[..|b| - 1]) * 256 + b[|b| - 1]
  }

  predicate Shortest(b: seq<byte>, v: nat) {
    BigEndian(b) == v && (b != [] ==> b[0] != 0)
  }

  /** Nonempty strings without the separator. */
  predicate Segments(parts: seq<seq<byte>>, separator: byte) {
    parts != [] && forall p <- parts :: p != [] && separator !in p
  }

  /** The parts are those between the separators, as far as none of them is empty. */
  ghost predicate ListOf(s: seq<byte>, separator: byte, parts: seq<seq<byte>>) {
    && (forall ps | Segments(ps, separator) && s == Join(ps, separator) :: parts == ps)
    && (s == [] ==> parts == [[]])
  }

  /** The exponent of a block size: 0 for 16 bytes up to 7 for 2048. */
  function SizeCode(size: nat): nat {
    if size < 32 then 0 else if size < 64 then 1 else if size < 128 then 2 else if size < 256 then 3
    else if size < 512 then 4 else if size < 1024 then 5 else if size < 2048 then 6 else 7
  }

  /** The values in the message for an option that is set. */
  ghost predicate WrittenAs(n: nat, v: Value, parts: seq<seq<byte>>) {
    if n == 1 || n == 4 then v.Octets? && parts == [v.b]
    else if n == 3 then v.Text? && parts == [v.s]
    else if n == 5 then parts == [[]]
    else if n in {6, 7, 12, 14, 17, 28, 60} then v.Number? && |parts| == 1 && Shortest(parts[0], v.n)
    else if n == 8 || n == 11 then v.Text? && ListOf(v.s, 0x2f, parts)
    else if n == 15 || n == 20 then v.Text? && ListOf(v.s, 0x26, parts)
    else
      && (n == 23 || n == 27) && v.BlockValue? && |parts| == 1
      && Shortest(parts[0], v.block.num * 16 + (if v.block.more then 8 else 0) + SizeCode(v.block.size))
  }

  /** What the values of an option in a message are read as; all but lists are overwritten by later ones. */
  predicate ReadAs(n: nat, parts: seq<seq<byte>>, v: Value)
    requires parts != []
  {
    var last := parts[|parts| - 1];
    var number := BigEndian(last) % 0x1_0000_0000;
    if n == 1 || n == 4 then v == Octets(if |last| <= 8 then last else last[..8])
    else if n == 3 then v == Text(last)
    else if n == 5 then v == Flag
    else if n in {6, 14, 28, 60} then v == Number(number)
    else if n in {7, 12, 17} then v == Number(number % 0x1_0000)
    else if n == 8 || n == 11 then v == Text(Join(SkipEmpty(parts), 0x2f))
    else if n == 15 || n == 20 then v == Text(Join(SkipEmpty(parts), 0x26))
    else (n == 23 || n == 27) && v == BlockValue(Block(number / 16, number / 8 % 2 == 1, BLOCK_SIZES[number % 8]))
  }

  predicate Readably(n: nat) {
    n in {1, 3, 4, 5, 6, 7, 8, 11, 12, 14, 15, 17, 20, 23, 27, 28, 60}
  }

  /** An unknown number that is even stands for an option that may be ignored. */
  predicate Ignored(n: nat) {
    n <= 60 && n % 2 == 0 && !Readably(n)
  }

  /** What an option of a packet may be set to. */
  lemma SettableByNumber(n: nat, v: Value)
    ensures Settable(n, v) <==>
              if n == 1 || n == 4 then v.Octets? && |v.b| <= 8
              else if n == 5 then v.Flag?
              else if n in {6, 14, 28, 60} then v.Number?
              else if n in {7, 12, 17} then v.Number? && v.n <= 0xffff
              else if n in {3, 8, 11, 15, 20} then v.Text? && |v.s| <= 0xffff
              else n in {23, 27} && v.BlockValue? && v.block.num <= 0xf_ffff && 16 <= v.block.size <= 2048
  {
  }

  // ----- Datagrams -----

  /** The values of one option among all, in order. */
  function Of(items: seq<Item>, n: nat): seq<seq<byte>> {
    if items == [] then []
    else
      var k := |items| - 1;
      Of(items[..k], n) + if items[k].0 == n then [items[k].1] else []
  }

  /** A message with these options: version 1, type, token length, code and message id, the token, the
      options, and the payload behind its marker. */
  function Datagram(p: Packet, items: seq<Item>): seq<byte>
    requires p.kind < 4 && |p.token| <= 8 && Ascending(items, 0)
  {
    [0x40 + p.kind * 0x10 + |p.token|, p.code, p.mid / 0x100, p.mid % 0x100] + p.token + Lay(items, 0)
    + (if p.payload == [] then [] else [0xff] + p.payload)
  }

  // The header of an option: small numbers in a nibble, others in one or two more bytes.

  function NibbleFor(v: nat): nat {
    if v <= 12 then v else if v <= 268 then 13 else 14
  }

  function MoreFor(v: nat): seq<byte>
    requires v < 0x1_0000 + 269
  {
    if v <= 12 then [] else if v <= 268 then [v - 13] else [(v - 269) / 0x100, (v - 269) % 0x100]
  }

  lemma HeaderByNumber(delta: nat, length: nat)
    requires delta < 0x1_0000 && length < 0x1_0000
    ensures OptionHeader(delta, length) == [NibbleFor(delta) * 0x10 + NibbleFor(length)] + MoreFor(delta) + MoreFor(length)
  {
  }

  // ----- Writing -----

  /** Up to the next separator the scan only moves on. */
  lemma {:induction false} SplitSkips(s: seq<byte>, separator: byte, start: nat, j: nat, n: nat)
    requires start <= j <= n <= |s| && forall i | j <= i < n :: s[i] != separator
    ensures Split(s, separator, start, j) == Split(s, separator, start, n)
    decreases n - j
  {
    if j < n {
      SplitSkips(s, separator, start, j + 1, n);
    }
  }

  lemma {:induction false} SplitOfJoin(s: seq<byte>, separator: byte, start: nat, j: nat, parts: seq<seq<byte>>)
    requires parts != [] && Segments(parts, separator) && start <= |s| && s[start..] == Join(parts, separator)
    requires start <= j <= start + 1
    ensures Split(s, separator, start, j) == parts
    decreases |parts|
  {
    hide Join, Segments;
    var first, rest := parts[0], parts[1..];
    JoinSteps(parts, separator);
    var end := start + |first|;
    Begins(s, start, first);
    forall i | j <= i < end
      ensures s[i] != separator
    {
      assert s[i] == s[start..end][i - start] && s[i] in first;
    }
    SplitSkips(s, separator, start, j, end);
    if |parts| == 1 {
      assert parts == [first];
    } else {
      Located(s, start, first, separator, Join(rest, separator));
      SplitOfJoin(s, separator, end + 1, end + 2, rest);
      assert parts == [first] + rest;
    }
  }

  lemma Begins(s: seq<byte>, start: nat, a: seq<byte>)
    requires start <= |s| && a <= s[start..]
    ensures start + |a| <= |s| && s[start..start + |a|] == a
  {
    assert s[start..start + |a|] == s[start..][..|a|];
  }

  lemma JoinSteps(parts: seq<seq<byte>>, separator: byte)
    requires Segments(parts, separator)
    ensures parts[0] != [] && separator !in parts[0] && parts[0] <= Join(parts, separator)
    ensures if |parts| == 1 then Join(parts, separator) == parts[0]
            else Segments(parts[1..], separator) && Join(parts, separator) == parts[0] + [separator] + Join(parts[1..], separator)
  {
    assert parts[0] in parts;
    forall p <- parts[1..]
      ensures p != [] && separator !in p
    {
      assert p in parts;
    }
  }

  lemma Located(s: seq<byte>, start: nat, a: seq<byte>, c: byte, b: seq<byte>)
    requires start <= |s| && s[start..] == a + [c] + b
    ensures |s| == start + |a| + 1 + |b|
    ensures s[start..start + |a|] == a && s[start + |a|] == c && s[start + |a| + 1..] == b
  {
    var t := s[start..];
    assert s[start..start + |a|] == t[..|a|] && s[start + |a|] == t[|a|];
    assert s[start + |a| + 1..] == t[|a| + 1..];
  }

  lemma ListIsSplit(s: seq<byte>, separator: byte)
    ensures ListOf(s, separator, Split(s, separator, 0, 0))
  {
    forall ps | Segments(ps, separator) && s == Join(ps, separator)
      ensures Split(s, separator, 0, 0) == ps
    {
      SplitOfJoin(s, separator, 0, 0, ps);
    }
  }

  lemma IntIsShortest(v: uint32)
    ensures Shortest(IntBytes(v), v)
  {
    hide BigEndian;
    var a, b, c, d := v / 0x100_0000, v / 0x1_0000 % 0x100, v / 0x100 % 0x100, v % 0x100;
    Places(v);
    if v >= 0x100_0000 {
      FourBytes(a, b, c, d);
      assert IntBytes(v) == [a, b, c, d];
    } else if v >= 0x1_0000 {
      ThreeBytes(b, c, d);
      assert IntBytes(v) == [b, c, d];
    } else if v >= 0x100 {
      TwoBytes(c, d);
      assert IntBytes(v) == [c, d];
    } else if v >= 1 {
      OneByte(d);
      assert IntBytes(v) == [d];
    } else {
      BigEndianMore([], 0);
    }
  }

  lemma OneByte(d: byte)
    ensures BigEndian([d]) == d
  {
    BigEndianMore([], d);
    assert [] + [d] == [d];
  }

  lemma TwoBytes(c: byte, d: byte)
    ensures BigEndian([c, d]) == c * 0x100 + d
  {
    OneByte(c);
    BigEndianMore([c], d);
    assert [c] + [d] == [c, d];
  }

  lemma ThreeBytes(b: byte, c: byte, d: byte)
    ensures BigEndian([b, c, d]) == (b * 0x100 + c) * 0x100 + d
  {
    TwoBytes(b, c);
    BigEndianMore([b, c], d);
    assert [b, c] + [d] == [b, c, d];
  }

  lemma FourBytes(a: byte, b: byte, c: byte, d: byte)
    ensures BigEndian([a, b, c, d]) == ((a * 0x100 + b) * 0x100 + c) * 0x100 + d
  {
    ThreeBytes(a, b, c);
    BigEndianMore([a, b, c], d);
    assert [a, b, c] + [d] == [a, b, c, d];
  }

  lemma Places(v: uint32)
    ensures v == ((v / 0x100_0000 * 256 + v / 0x1_0000 % 0x100) * 256 + v / 0x100 % 0x100) * 256 + v % 0x100
    ensures v < 0x100_0000 ==> v / 0x100_0000 == 0
    ensures v < 0x1_0000 ==> v / 0x1_0000 == 0
    ensures v < 0x100 ==> v / 0x100 == 0
    ensures v >= 0x100_0000 ==> v / 0x100_0000 > 0
    ensures 0x1_0000 <= v < 0x100_0000 ==> v / 0x1_0000 % 0x100 > 0
    ensures 0x100 <= v < 0x1_0000 ==> v / 0x100 % 0x100 > 0
  {
  }

  lemma BigEndianMore(b: seq<byte>, x: byte)
    ensures BigEndian(b + [x]) == BigEndian(b) * 256 + x
    ensures BigEndian([]) == 0
  {
    assert (b + [x])[..|b|] == b;
  }

  lemma BlockCode(b: Block)
    requires b.num <= MAX_BLOCK_NUM && 16 <= b.size <= 2048
    ensures EncodeBlock(b) == b.num * 16 + (if b.more then 8 else 0) + SizeCode(b.size) < 0x100_0000
  {
    hide EncodeBlock;
    BlockRoundTrip(b);
    ExponentIs(b);
  }

  lemma ExponentIs(b: Block)
    requires b.num <= MAX_BLOCK_NUM && 16 <= b.size <= 2048
    ensures EncodeBlock(b) == b.num * 16 + (if b.more then 8 else 0) + SizeCode(b.size)
  {
    hide Log2, Pow2;
    Powers();
    PowerBounds(Log2(b.size / 16), b.size / 16);
  }

  /** The logarithm by the powers of two. */
  lemma PowerBounds(n: nat, v: nat)
    requires Pow2(n) <= v < 2 * Pow2(n) && 1 <= v <= 128
    ensures n == if v < 2 then 0 else if v < 4 then 1 else if v < 8 then 2 else if v < 16 then 3
                 else if v < 32 then 4 else if v < 64 then 5 else if v < 128 then 6 else 7
  {
    hide Pow2;
    Powers();
    if n >= 8 {
      PowersGrow(8, n);
    } else if n >= 4 {
      assert n == 4 || n == 5 || n == 6 || n == 7;
    } else {
      assert n == 0 || n == 1 || n == 2 || n == 3;
    }
  }

  /** Every value that can be set is written as its number demands. */
  lemma PartsByNumber(n: nat, v: Value)
    requires Settable(n, v)
    ensures Readably(n) && WrittenAs(n, v, Parts(n, v))
  {
    hide Split, IntBytes, EncodeBlock, Shortest, ListOf;
    if v.Number? {
      IntIsShortest(v.n);
    } else if v.Text? {
      ListIsSplit(v.s, 0x2f);
      ListIsSplit(v.s, 0x26);
    } else if v.BlockValue? {
      BlockCode(v.block);
      IntIsShortest(EncodeBlock(v.block));
    }
  }

  /** All items of the options in the given order belong to them. */
  lemma {:induction false} ItemsOf(options: Options, order: seq<nat>, n: nat)
    requires (forall m <- options :: Settable(m, options[m])) && forall i, j | 0 <= i < j < |order| :: order[i] != order[j]
    ensures Of(Items(options, order), n) == if n in order && n in options then Parts(n, options[n]) else []
    decreases |order|
  {
    hide Parts, Settable, Of;
    if order == [] {
      OfNothing(n);
    } else {
      var m := order[0];
      var first := if m in options then Tag(m, Parts(m, options[m])) else [];
      assert forall i, j | 0 <= i < j < |order[1..]| :: order[1..][i] != order[1..][j];
      assert n in order <==> n == m || n in order[1..];
      assert n == m ==> n !in order[1..];
      ItemsOf(options, order[1..], n);
      OfBoth(first, Items(options, order[1..]), n);
      if m in options {
        OfTag(m, Parts(m, options[m]), n);
      } else {
        OfNothing(n);
      }
      assert [] + Of(Items(options, order[1..]), n) == Of(Items(options, order[1..]), n);
    }
  }

  lemma OfNothing(n: nat)
    ensures Of([], n) == []
  {
  }

  lemma {:induction false} OfBoth(a: seq<Item>, b: seq<Item>, n: nat)
    ensures Of(a + b, n) == Of(a, n) + Of(b, n)
    decreases |b|
  {
    if b == [] {
      assert a + b == a && Of(a, n) + [] == Of(a, n);
    } else {
      var k := |b| - 1;
      OfBoth(a, b[..k], n);
      assert (a + b)[..|a| + k] == a + b[..k];
    }
  }

  lemma {:induction false} OfTag(m: nat, parts: seq<seq<byte>>, n: nat)
    ensures Of(Tag(m, parts), n) == if m == n then parts else []
    decreases |parts|
  {
    if parts != [] {
      var k := |parts| - 1;
      OfTag(m, parts[..k], n);
      assert Tag(m, parts)[..k] == Tag(m, parts[..k]);
    }
  }

  /** A message that is sent consists of its options in the order of their numbers, each written as its
      number demands, and has no others. It is not sent if more than 62 bytes come before the payload. */
  lemma SerializedByNumber(p: Packet, rest: ChunkSize) returns (items: seq<Item>)
    requires Proper(p, rest) && p.code != 0
    ensures Ascending(items, 0)
    ensures Serialize(p, rest) == if |Datagram(p.(payload := []), items)| <= 62 then Some(Datagram(p, items)) else None
    ensures forall n: nat :: if n in p.options then WrittenAs(n, p.options[n], Of(items, n)) else Of(items, n) == []
  {
    hide Settable, Lay, Items, Of, WrittenAs, Ascending, Rising;
    items := Items(p.options, ORDER);
    OrderRises();
    ItemsAscend(p.options, ORDER, 0);
    assert forall i | 0 < i < |ORDER| :: ORDER[i - 1] < ORDER[i];
    forall n: nat
      ensures if n in p.options then WrittenAs(n, p.options[n], Of(items, n)) else Of(items, n) == []
    {
      OrderDistinct();
      ItemsOf(p.options, ORDER, n);
      if n in p.options {
        KnownInOrder(n, p.options[n]);
        PartsByNumber(n, p.options[n]);
      }
    }
    HeadIs(p, items);
    WithPayload(Head(p, rest), p.payload);
  }

  lemma WithPayload(head: seq<byte>, payload: seq<byte>)
    ensures head + Marker(payload) + payload == head + if payload == [] then [] else [0xff] + payload
  {
  }

  lemma OrderDistinct()
    ensures forall i, j | 0 <= i < j < |ORDER| :: ORDER[i] != ORDER[j]
  {
    forall i, j | 0 <= i < j < |ORDER|
      ensures ORDER[i] < ORDER[j]
    {
      OrderGrows(i, j);
    }
  }

  lemma {:induction false} OrderGrows(i: nat, j: nat)
    requires i < j < |ORDER|
    ensures ORDER[i] < ORDER[j]
    decreases j
  {
    assert forall k | 0 < k < |ORDER| :: ORDER[k - 1] < ORDER[k];
    if i < j - 1 {
      OrderGrows(i, j - 1);
    }
  }

  // ----- Reading -----

  lemma {:induction false} IntIsBigEndian(b: seq<byte>)
    ensures IntOf(b) == BigEndian(b) % 0x1_0000_0000
  {
    if b != [] {
      var n := |b| - 1;
      IntIsBigEndian(b[..n]);
      LowOfSum(BigEndian(b[..n]), b[n]);
    }
  }

  lemma LowOfSum(x: nat, c: byte)
    ensures (x % 0x1_0000_0000 * 0x100 + c) % 0x1_0000_0000 == (x * 0x100 + c) % 0x1_0000_0000
  {
    var q, r := x / 0x1_0000_0000, x % 0x1_0000_0000;
    assert x * 0x100 + c == (r * 0x100 + c) + 0x1_0000_0000 * (q * 0x100);
    Multiple(r * 0x100 + c, q * 0x100);
  }

  lemma Multiple(x: nat, k: nat)
    ensures (x + 0x1_0000_0000 * k) % 0x1_0000_0000 == x % 0x1_0000_0000
  {
    assert (x + 0x1_0000_0000 * k) / 0x1_0000_0000 == x / 0x1_0000_0000 + k;
  }

  lemma {:induction false} JoinMore(parts: seq<seq<byte>>, b: seq<byte>, separator: byte)
    ensures Join(parts + [b], separator) == if parts == [] then b else Join(parts, separator) + [separator] + b
  {
    if |parts| > 1 {
      JoinMore(parts[1..], b, separator);
      assert (parts + [b])[1..] == parts[1..] + [b];
    } else if |parts| == 1 {
      assert (parts + [b])[1..] == [b];
    }
  }

  lemma {:induction false} SkipMore(parts: seq<seq<byte>>, b: seq<byte>)
    ensures var s := SkipEmpty(parts);
            SkipEmpty(parts + [b]) == if s != [] then s + [b] else if b == [] then [] else [b]
    ensures SkipEmpty(parts) != [] ==> SkipEmpty(parts)[0] != []
  {
    if parts != [] {
      assert (parts + [b])[1..] == parts[1..] + [b];
      SkipMore(parts[1..], b);
    } else {
      assert [b][1..] == [];
    }
  }

  lemma JoinedMore(parts: seq<seq<byte>>, b: seq<byte>, separator: byte)
    ensures Join(SkipEmpty(parts + [b]), separator) == Merge(Join(SkipEmpty(parts), separator), b, separator)
    ensures Join(SkipEmpty([]), separator) == []
  {
    SkipMore(parts, b);
    JoinMore(SkipEmpty(parts), b, separator);
  }

  lemma BlockByBytes(value: uint32)
    ensures DecodeBlock(value).0 == Block(value / 16, value / 8 % 2 == 1, BLOCK_SIZES[value % 8])
  {
    Powers();
  }

  /** One more value of an option that may have been read already. */
  lemma UpdateReads(options: Options, n: nat, parts: seq<seq<byte>>, b: seq<byte>)
    requires Readably(n) && (n in options <==> parts != []) && (parts != [] ==> ReadAs(n, parts, options[n]))
    ensures n in Update(options, n, b) && ReadAs(n, parts + [b], Update(options, n, b)[n])
    ensures forall m | m != n :: (m in Update(options, n, b) <==> m in options)
    ensures forall m | m != n && m in options :: Update(options, n, b)[m] == options[m]
  {
    hide Merge, Join, SkipEmpty, DecodeBlock, IntOf, BigEndian;
    IntIsBigEndian(b);
    JoinedMore(parts, b, 0x2f);
    JoinedMore(parts, b, 0x26);
    BlockByBytes(IntOf(b));
    assert |b| <= 8 ==> b[..|b|] == b;
  }

  lemma UpdateIgnores(options: Options, n: nat, b: seq<byte>)
    requires Ignored(n)
    ensures Update(options, n, b) == options
  {
  }

  /** The options of a message are those that occur in it, each read as its number demands. */
  ghost predicate OptionsRead(items: seq<Item>, options: Options) {
    forall n: nat ::
      && (n in options <==> Of(items, n) != [] && !Ignored(n))
      && (n in options ==> ReadAs(n, Of(items, n), options[n]))
  }

  lemma {:induction false} AllRead(items: seq<Item>)
    requires forall i <- items :: Readably(i.0) || Ignored(i.0)
    ensures OptionsRead(items, UpdateAll(map[], items))
    decreases |items|
  {
    hide Update, ReadAs, Readably, Ignored;
    if items == [] {
      assert UpdateAll(map[], items) == map[];
      assert forall n: nat :: Of(items, n) == [];
    } else {
      var k := |items| - 1;
      var init, n, b := items[..k], items[k].0, items[k].1;
      assert items == init + [items[k]] && items[k] in items;
      AllRead(init);
      var before := UpdateAll(map[], init);
      UpdateBoth(map[], init, [items[k]]);
      UpdateLast(before, items[k]);
      if Ignored(n) {
        UpdateIgnores(before, n, b);
      } else {
        UpdateReads(before, n, Of(init, n), b);
      }
      forall m: nat
        ensures Of(items, m) == if m == n then Of(init, m) + [b] else Of(init, m)
      {
        assert Of(init, m) + [] == Of(init, m);
      }
    }
  }

  lemma UpdateLast(options: Options, item: Item)
    ensures UpdateAll(options, [item]) == Update(options, item.0, item.1)
  {
    hide Update;
    assert [item][1..] == [];
  }

  /** A message with any options of known numbers, in the order of their numbers, is read with all its
      fields, and its options as their numbers demand; unknown options with even numbers are ignored. Of
      the payload, only as much is kept as fits into a chunk. */
  lemma ParsedByNumber(p: Packet, items: seq<Item>, rest: ChunkSize)
    requires p.kind < 4 && |p.token| <= 8 && Ascending(items, 0)
    requires forall i <- items :: (Readably(i.0) || Ignored(i.0)) && |i.1| < 0x1_0000
    ensures var parsed := Parse(Datagram(p, items), rest);
            && parsed.Ok? && OptionsRead(items, parsed.packet.options)
            && parsed.packet ==
                 p.(options := parsed.packet.options, payload := if |p.payload| <= rest then p.payload else p.payload[..rest])
  {
    hide Lay, ParseOptions, UpdateAll, Ascending, OptionsRead, Readably, Ignored;
    var data := Datagram(p, items);
    var start, laid := 4 + |p.token|, Lay(items, 0);
    assert Marker(p.payload) + p.payload == if p.payload == [] then [] else [0xff] + p.payload;
    LayoutOf(HeaderBytes(p), p.token, laid, Marker(p.payload), p.payload, data);
    ItemsAreReadable(items);
    ParseLaid(data, start, 0, map[], items, rest);
    ParseTail(data, start + |laid|, Last(items, 0), UpdateAll(map[], items), p.payload, rest);
    HeaderRoundTrip(p, data);
    AllRead(items);
  }

  lemma ItemsAreReadable(items: seq<Item>)
    requires forall i <- items :: (Readably(i.0) || Ignored(i.0)) && |i.1| < 0x1_0000
    ensures CoapMessage.Readable(items)
  {
  }

  /** Behind readable options the first one that is not decides: options for proxies are refused with 5.05,
      other unknown ones with an odd number with 4.02, and numbers above 60 with 4.00. */
  lemma RefusedByNumber(p: Packet, items: seq<Item>, bad: Item, more: seq<byte>, rest: ChunkSize)
    requires p.kind < 4 && |p.token| <= 8 && Ascending(items, 0) && Last(items, 0) <= bad.0 < Last(items, 0) + 0x1_0000
    requires (forall i <- items :: (Readably(i.0) || Ignored(i.0)) && |i.1| < 0x1_0000) && |bad.1| < 0x1_0000
    requires !Readably(bad.0) && !Ignored(bad.0)
    ensures var head := Datagram(p.(payload := []), items);
            Parse(head + OptionHeader(bad.0 - Last(items, 0), |bad.1|) + bad.1 + more, rest) ==
              Error(if bad.0 > 60 then 128 else if bad.0 == 35 || bad.0 == 39 then 165 else 130)
  {
    hide Lay, ParseOptions, UpdateAll, Ascending, Readably, OptionHeader, Parse, HeaderBytes;
    var header := OptionHeader(bad.0 - Last(items, 0), |bad.1|);
    var data := Datagram(p.(payload := []), items) + header + bad.1 + more;
    HeadIs(p, items);
    Assembled(HeaderBytes(p), p.token, Lay(items, 0), header, bad.1, more);
    RefusedData(data, p, items, bad, more, rest);
  }

  lemma HeadIs(p: Packet, items: seq<Item>)
    requires p.kind < 4 && |p.token| <= 8 && Ascending(items, 0)
    ensures Datagram(p.(payload := []), items) == HeaderBytes(p) + p.token + Lay(items, 0)
  {
    hide Lay;
  }

  lemma Assembled(first: seq<byte>, token: seq<byte>, laid: seq<byte>, header: seq<byte>, value: seq<byte>, more: seq<byte>)
    requires |first| == 4
    ensures var data := first + token + laid + header + value + more;
            && data[..4] == first && data[4..4 + |token|] == token && Contains(data, 4 + |token|, laid)
            && data[4 + |token| + |laid|..] == header + value + more
  {
  }

  lemma RefusedData(data: seq<byte>, p: Packet, items: seq<Item>, bad: Item, more: seq<byte>, rest: ChunkSize)
    requires p.kind < 4 && |p.token| <= 8 && Ascending(items, 0) && Last(items, 0) <= bad.0 < Last(items, 0) + 0x1_0000
    requires (forall i <- items :: (Readably(i.0) || Ignored(i.0)) && |i.1| < 0x1_0000) && |bad.1| < 0x1_0000
    requires !Readably(bad.0) && !Ignored(bad.0)
    requires var at := 4 + |p.token| + |Lay(items, 0)|;
             && at <= |data| && data[..4] == HeaderBytes(p) && data[4..4 + |p.token|] == p.token
             && Contains(data, 4 + |p.token|, Lay(items, 0))
             && data[at..] == OptionHeader(bad.0 - Last(items, 0), |bad.1|) + bad.1 + more
    ensures Parse(data, rest) == Error(if bad.0 > 60 then 128 else if bad.0 == 35 || bad.0 == 39 then 165 else 130)
  {
    hide Lay, ParseOptions, UpdateAll, Ascending, Readably, OptionHeader, Contains, ReadHeader;
    var number, at := Last(items, 0), 4 + |p.token| + |Lay(items, 0)|;
    ItemsAreReadable(items);
    ParseLaid(data, 4 + |p.token|, 0, map[], items, rest);
    TailContains(data, at, OptionHeader(bad.0 - number, |bad.1|), bad.1, more);
    HeaderRead(data, at, bad.0 - number, |bad.1|);
    HeaderInside(data, at, bad.0 - number, |bad.1|);
    BadStep(data, at, number, UpdateAll(map[], items), bad.0, |bad.1|, rest);
    HeaderRoundTrip(p, data);
  }

  lemma TailContains(data: seq<byte>, at: nat, header: seq<byte>, value: seq<byte>, more: seq<byte>)
    requires at <= |data| && data[at..] == header + value + more
    ensures Contains(data, at, header) && at + |header| + |value| <= |data|
  {
    assert data[at..][..|header|] == header;
  }

  lemma BadStep(data: seq<byte>, at: nat, number: nat, options: Options, n: nat, length: nat, rest: ChunkSize)
    requires at < |data| && data[at] / 16 != 15 && number <= n
    requires var (d, l, value) := ReadHeader(data, at); d == n - number && l == length && value + length <= |data|
    requires !Readably(n) && !Ignored(n)
    ensures ParseOptions(data, at, number, options, rest) ==
              Failed(if n > 60 then 128 else if n == 35 || n == 39 then 165 else 130)
  {
    hide ReadHeader;
  }

  // ----- Messages that cannot be read or sent -----

  /** A datagram of another version, or with a token of more than 8 bytes, is refused with 4.00. */
  lemma WrongHeaderRefused(data: seq<byte>, rest: ChunkSize)
    requires data == [] || data[0] < 0x40 || data[0] >= 0x80 || data[0] % 16 > 8
    ensures Parse(data, rest) == Error(128)
  {
  }

  /** So is one that ends within the value of an option. */
  lemma CutValueRefused(p: Packet, items: seq<Item>, n: nat, length: nat, b: seq<byte>, rest: ChunkSize)
    requires p.kind < 4 && |p.token| <= 8 && Ascending(items, 0) && Last(items, 0) <= n < Last(items, 0) + 0x1_0000
    requires (forall i <- items :: (Readably(i.0) || Ignored(i.0)) && |i.1| < 0x1_0000) && |b| < length < 0x1_0000
    ensures Parse(Datagram(p.(payload := []), items) + OptionHeader(n - Last(items, 0), length) + b, rest) == Error(128)
  {
    hide Lay, ParseOptions, UpdateAll, Ascending, Readably, OptionHeader, HeaderBytes, Contains, ReadHeader;
    var number, at := Last(items, 0), 4 + |p.token| + |Lay(items, 0)|;
    var header := OptionHeader(n - number, length);
    var data := Datagram(p.(payload := []), items) + header + b;
    HeadIs(p, items);
    assert data == data + [];
    Assembled(HeaderBytes(p), p.token, Lay(items, 0), header, b, []);
    ItemsAreReadable(items);
    ParseLaid(data, 4 + |p.token|, 0, map[], items, rest);
    TailContains(data, at, header, b, []);
    HeaderRead(data, at, n - number, length);
    HeaderInside(data, at, n - number, length);
    EndsWithin(data, at, number, UpdateAll(map[], items), rest);
    HeaderRoundTrip(p, data);
  }

  lemma EndsWithin(data: seq<byte>, at: nat, number: nat, options: Options, rest: ChunkSize)
    requires at < |data| && data[at] / 16 != 15 && (var (_, length, value) := ReadHeader(data, at); value + length > |data|)
    ensures ParseOptions(data, at, number, options, rest) == Failed(128)
  {
    hide ReadHeader;
  }

  /** A message with the code 0 is sent as its header alone. */
  lemma EmptyMessage(p: Packet, rest: ChunkSize)
    requires Proper(p, rest) && p.code == 0
    ensures Serialize(p, rest) == Some([0x40 + p.kind * 0x10 + |p.token|, 0, p.mid / 0x100, p.mid % 0x100])
  {
    hide Settable;
  }
}
