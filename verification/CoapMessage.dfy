/** Whole CoAP messages: coap_serialize_message and coap_parse_message as functions on bytes, and
    the proof that the second undoes the first. */
module CoapMessage {
  import opened Basics
  import opened Block2
  import opened Coap

  type Options = map<nat, Value>

  datatype Packet = Packet(kind: nat, code: byte, mid: uint16, token: seq<byte>, options: Options, payload: seq<byte>)

  /** A packet as the setters of the API leave it. A proxy option can be set but never be read back,
      so it is not among them. */
  predicate Proper(p: Packet, rest: ChunkSize) {
    && p.kind < 4 && |p.token| <= COAP_TOKEN_LEN && |p.payload| <= rest
    && forall n <- p.options :: Settable(n, p.options[n])
  }

  // ----- Serialization -----

  /** The options in the order in which they are written. */
  const ORDER: seq<nat> := [1, 3, 4, 5, 6, 7, 8, 11, 12, 14, 15, 17, 20, 23, 27, 28, 60]

  /** The values that an option takes in the message. */
  function Parts(number: nat, v: Value): (parts: seq<seq<byte>>)
    requires Settable(number, v)
    ensures forall b <- parts :: |b| < 0x1_0000
  {
    match KindOf(number)
    case Short | Long => [IntBytes(v.n)]
    case Opaque => [v.b]
    case Empty => [[]]
    case Plain => [v.s]
    case Multiple(separator) => Split(v.s, separator, 0, 0)
    case BlockKind =>
      BlockRoundTrip(v.block);
      [IntBytes(EncodeBlock(v.block))]
  }

  type Item = (nat, seq<byte>)

  function Tag(number: nat, parts: seq<seq<byte>>): (items: seq<Item>)
    ensures |items| == |parts|
  {
    seq(|parts|, i requires 0 <= i < |parts| => (number, parts[i]))
  }

  function Items(options: Options, order: seq<nat>): seq<Item>
    requires forall n <- options :: Settable(n, options[n])
    decreases |order|
  {
    if order == [] then []
    else (if order[0] in options then Tag(order[0], Parts(order[0], options[order[0]])) else []) + Items(options, order[1..])
  }

  /** The bytes of options; each header has the difference to the number before. */
  function Lay(items: seq<Item>, number: nat): seq<byte>
    requires Ascending(items, number)
    decreases |items|
  {
    if items == [] then []
    else OptionHeader(items[0].0 - number, |items[0].1|) + items[0].1 + Lay(items[1..], items[0].0)
  }

  predicate Ascending(items: seq<Item>, number: nat)
    decreases |items|
  {
    items == [] || (number <= items[0].0 && Ascending(items[1..], items[0].0))
  }

  predicate Rising(order: seq<nat>, number: nat)
    decreases |order|
  {
    order == [] || (number <= order[0] && Rising(order[1..], order[0] + 1))
  }

  lemma {:induction false} ItemsAscend(options: Options, order: seq<nat>, number: nat)
    requires Rising(order, number) && forall n <- options :: Settable(n, options[n])
    ensures Ascending(Items(options, order), number)
    decreases |order|
  {
    hide Settable, Parts;
    if order != [] {
      ItemsAscend(options, order[1..], order[0] + 1);
      AscendFromBelow(Items(options, order[1..]), order[0] + 1, order[0]);
      if order[0] in options {
        TagAscends(order[0], Parts(order[0], options[order[0]]), Items(options, order[1..]), number);
      } else {
        AscendFromBelow(Items(options, order[1..]), order[0], number);
        assert [] + Items(options, order[1..]) == Items(options, order[1..]);
      }
    }
  }

  lemma AscendFromBelow(items: seq<Item>, number: nat, below: nat)
    requires Ascending(items, number) && below <= number
    ensures Ascending(items, below)
  {
  }

  lemma {:induction false} TagAscends(n: nat, parts: seq<seq<byte>>, rest: seq<Item>, number: nat)
    requires number <= n && Ascending(rest, n)
    ensures Ascending(Tag(n, parts) + rest, number)
    decreases |parts|
  {
    if parts == [] {
      assert Tag(n, parts) + rest == rest;
      AscendFromBelow(rest, n, number);
    } else {
      TagAscends(n, parts[1..], rest, n);
      assert (Tag(n, parts) + rest)[1..] == Tag(n, parts[1..]) + rest;
    }
  }

  lemma OrderRises()
    ensures Rising(ORDER, 0)
  {
    assert forall i | 0 < i < |ORDER| :: ORDER[i - 1] < ORDER[i];
    var k := |ORDER|;
    while k > 0
      invariant 0 <= k <= |ORDER| && Rising(ORDER[k..], if k == 0 then 0 else ORDER[k - 1] + 1)
    {
      k := k - 1;
      assert ORDER[k..][1..] == ORDER[k + 1..];
    }
    assert ORDER[0..] == ORDER;
  }

  lemma {:induction false} RisingAbove(order: seq<nat>, number: nat)
    requires Rising(order, number)
    ensures forall n <- order :: number <= n
    decreases |order|
  {
    if order != [] {
      RisingAbove(order[1..], order[0] + 1);
      assert order == [order[0]] + order[1..];
    }
  }

  function HeaderBytes(p: Packet): seq<byte>
    requires p.kind < 4 && |p.token| <= COAP_TOKEN_LEN
  {
    [0x40 + p.kind * 16 + |p.token|, p.code, p.mid / 0x100, p.mid % 0x100]
  }

  /** Everything before the payload. */
  function Head(p: Packet, rest: ChunkSize): seq<byte>
    requires Proper(p, rest)
  {
    OrderRises();
    ItemsAscend(p.options, ORDER, 0);
    HeaderBytes(p) + p.token + Lay(Items(p.options, ORDER), 0)
  }

  function Marker(payload: seq<byte>): seq<byte> {
    if payload != [] then [0xff] else []
  }

  /** coap_serialize_message; None stands for the length 0 that reports a header too long. */
  function Serialize(p: Packet, rest: ChunkSize): Option<seq<byte>>
    requires Proper(p, rest)
  {
    if p.code == 0 then Some(HeaderBytes(p))
    else if |Head(p, rest)| <= COAP_MAX_HEADER_SIZE then Some(Head(p, rest) + Marker(p.payload) + p.payload)
    else None
  }

  // ----- Parsing -----

  datatype Outcome = Fields(options: Options, payload: seq<byte>) | Failed(code: nat)

  /** The options after one more with this number and value. */
  function Update(options: Options, number: nat, b: seq<byte>): Options {
    match KindOf(number)
    case Short => options[number := Number(IntOf(b) % 0x1_0000)]
    case Long => options[number := Number(IntOf(b))]
    case Opaque => options[number := Octets(b[..Min(|b|, COAP_ETAG_LEN)])]
    case Empty => options[number := Flag]
    case Plain => options[number := Text(b)]
    case Multiple(separator) =>
      var before := if number in options && options[number].Text? then options[number].s else [];
      options[number := Text(Merge(before, b, separator))]
    case BlockKind => options[number := BlockValue(DecodeBlock(IntOf(b)).0)]
    case _ => options
  }

  function Payload(data: seq<byte>, at: nat, rest: ChunkSize): seq<byte>
    requires at <= |data|
  {
    data[at..Min(|data|, at + rest)]
  }

  /** The loop of coap_parse_message. */
  function ParseOptions(data: seq<byte>, at: nat, number: nat, options: Options, rest: ChunkSize): Outcome
    decreases |data| - at
  {
    if at >= |data| then Fields(options, [])
    else if data[at] / 16 == 15 then Fields(options, Payload(data, at + 1, rest))
    else
      var (delta, length, value) := ReadHeader(data, at);
      var n := number + delta;
      if value + length > |data| || n > COAP_OPTION_SIZE1 then Failed(BAD_REQUEST_4_00)
      else if KindOf(n) == Proxy then Failed(PROXYING_NOT_SUPPORTED_5_05)
      else if KindOf(n) == Unknown && n % 2 == 1 then Failed(BAD_OPTION_4_02)
      else ParseOptions(data, value + length, n, Update(options, n, data[value..value + length]), rest)
  }

  datatype Parsed = Ok(packet: Packet) | Error(code: nat)

  /** coap_parse_message */
  function Parse(data: seq<byte>, rest: ChunkSize): Parsed {
    var first := At(data, 0);
    var tokenLength := first % 16;
    if first / 0x40 != 1 || tokenLength > COAP_TOKEN_LEN then Error(BAD_REQUEST_4_00)
    else
      match ParseOptions(data, COAP_HEADER_LEN + tokenLength, 0, map[], rest)
      case Failed(code) => Error(code)
      case Fields(options, payload) =>
        var second: int, third: int := At(data, 2), At(data, 3);
        Ok(Packet(first / 16 % 4, At(data, 1), second * 0x100 + third, Token(data, tokenLength), options, payload))
  }

  function Token(data: seq<byte>, length: nat): seq<byte> {
    seq<byte>(length, i requires 0 <= i < length => At(data, COAP_HEADER_LEN + i))
  }

  // ----- The round trip -----

  function UpdateAll(options: Options, items: seq<Item>): Options
    decreases |items|
  {
    if items == [] then options else UpdateAll(Update(options, items[0].0, items[0].1), items[1..])
  }

  predicate Readable(items: seq<Item>) {
    forall i <- items ::
      && i.0 <= COAP_OPTION_SIZE1 && KindOf(i.0) != Proxy && (KindOf(i.0) == Unknown ==> i.0 % 2 == 0) && |i.1| < 0x1_0000
  }

  function Last(items: seq<Item>, number: nat): nat {
    if items == [] then number else items[|items| - 1].0
  }

  /** Reading options that have been laid out updates the fields with each of them. */
  lemma {:induction false} ParseLaid(data: seq<byte>, at: nat, number: nat, options: Options, items: seq<Item>, rest: ChunkSize)
    requires Ascending(items, number) && Readable(items) && Contains(data, at, Lay(items, number))
    ensures ParseOptions(data, at, number, options, rest)
         == ParseOptions(data, at + |Lay(items, number)|, Last(items, number), UpdateAll(options, items), rest)
    decreases |items|
  {
    hide OptionHeader, ReadHeader, Contains, Update, KindOf, ParseOptions;
    if items != [] {
      var (n, b) := items[0];
      assert items[0] in items;
      var header := OptionHeader(n - number, |b|);
      ContainsParts(data, at, header + b, Lay(items[1..], n));
      ContainsParts(data, at, header, b);
      HeaderRead(data, at, n - number, |b|);
      ContainedSlice(data, at + |header|, b);
      HeaderInside(data, at, n - number, |b|);
      ParseStep(data, at, number, options, rest);
      ParseLaid(data, at + |header| + |b|, n, Update(options, n, b), items[1..], rest);
    }
  }

  lemma ParseStep(data: seq<byte>, at: nat, number: nat, options: Options, rest: ChunkSize)
    requires at < |data| && data[at] / 16 != 15
    ensures var (delta, length, value) := ReadHeader(data, at);
            var n := number + delta;
            && value + length <= |data| && n <= COAP_OPTION_SIZE1 && KindOf(n) != Proxy && (KindOf(n) == Unknown ==> n % 2 == 0) ==>
              ParseOptions(data, at, number, options, rest)
              == ParseOptions(data, value + length, n, Update(options, n, data[value..value + length]), rest)
  {
    hide ReadHeader, Update, KindOf;
  }

  lemma ContainedSlice(data: seq<byte>, at: nat, part: seq<byte>)
    requires Contains(data, at, part)
    ensures at + |part| <= |data| && data[at..at + |part|] == part
  {
  }

  lemma HeaderInside(data: seq<byte>, at: nat, delta: nat, length: nat)
    requires Contains(data, at, OptionHeader(delta, length))
    ensures at < |data|
  {
  }

  lemma {:induction false} UpdateBoth(options: Options, a: seq<Item>, b: seq<Item>)
    ensures UpdateAll(options, a + b) == UpdateAll(UpdateAll(options, a), b)
    decreases |a|
  {
    hide Update;
    if a == [] {
      assert a + b == b;
    } else {
      UpdateBoth(Update(options, a[0].0, a[0].1), a[1..], b);
      assert (a + b)[1..] == a[1..] + b;
    }
  }

  /** What is read back of an option. */
  function Normal(number: nat, v: Value): Value
    requires Settable(number, v)
  {
    match KindOf(number)
    case Multiple(separator) => Text(Rejoined(v.s, separator))
    case BlockKind => BlockValue(v.block.(size := MaxBlockSize(v.block.size)))
    case _ => v
  }

  lemma {:induction false} UpdateList(options: Options, number: nat, separator: byte, before: seq<byte>, parts: seq<seq<byte>>)
    requires KindOf(number) == Multiple(separator) && parts != []
    requires before == if number in options && options[number].Text? then options[number].s else []
    ensures UpdateAll(options, Tag(number, parts)) == options[number := Text(MergeAll(before, parts, separator))]
    decreases |parts|
  {
    hide KindOf;
    var merged := Merge(before, parts[0], separator);
    var options' := options[number := Text(merged)];
    assert Tag(number, parts)[1..] == Tag(number, parts[1..]);
    UpdateOne(options, number, parts[0], separator, before);
    if |parts| > 1 {
      UpdateList(options', number, separator, merged, parts[1..]);
    }
  }

  lemma UpdateOne(options: Options, number: nat, part: seq<byte>, separator: byte, before: seq<byte>)
    requires KindOf(number) == Multiple(separator)
    requires before == if number in options && options[number].Text? then options[number].s else []
    ensures Update(options, number, part) == options[number := Text(Merge(before, part, separator))]
  {
    hide KindOf;
  }

  lemma {:induction false} SplitNotEmpty(s: seq<byte>, separator: byte, start: nat, j: nat)
    requires start <= j <= |s|
    ensures Split(s, separator, start, j) != []
    decreases |s| - j
  {
    if j < |s| && s[j] != separator {
      SplitNotEmpty(s, separator, start, j + 1);
    }
  }

  /** Writing an option and reading its parts again sets it to its normal form. */
  lemma OptionRoundTrip(options: Options, number: nat, v: Value)
    requires Settable(number, v) && number !in options
    ensures UpdateAll(options, Tag(number, Parts(number, v))) == options[number := Normal(number, v)]
  {
    hide Split, MergeAll, IntBytes, IntOf, EncodeBlock, DecodeBlock, MaxBlockSize;
    var parts := Parts(number, v);
    var kind := KindOf(number);
    if kind.Multiple? {
      SplitNotEmpty(v.s, kind.separator, 0, 0);
      UpdateList(options, number, kind.separator, [], parts);
    } else {
      assert Tag(number, parts) == [(number, parts[0])];
      assert UpdateAll(options, [(number, parts[0])]) == Update(options, number, parts[0]);
      if v.Number? {
        IntRoundTrip(v.n);
      } else if v.Octets? {
        assert v.b[..Min(|v.b|, COAP_ETAG_LEN)] == v.b;
      } else if v.BlockValue? {
        BlockRoundTrip(v.block);
        IntRoundTrip(EncodeBlock(v.block));
      }
    }
  }

  function NormalOptions(options: Options): Options
    requires forall n <- options :: Settable(n, options[n])
  {
    map n | n in options :: Normal(n, options[n])
  }

  predicate NoneOf(options: Options, order: seq<nat>) {
    forall n <- order :: n !in options
  }

  function NormalIn(options: Options, order: seq<nat>): Options
    requires forall n <- options :: Settable(n, options[n])
  {
    map n | n in options && n in order :: Normal(n, options[n])
  }

  lemma NormalNone(options: Options)
    requires forall n <- options :: Settable(n, options[n])
    ensures NormalIn(options, []) == map[]
  {
  }

  lemma NormalMore(done: Options, options: Options, order: seq<nat>)
    requires (forall n <- options :: Settable(n, options[n])) && order != [] && order[0] in options
    ensures done[order[0] := Normal(order[0], options[order[0]])] + NormalIn(options, order[1..]) == done + NormalIn(options, order)
  {
    hide Settable, Normal;
    assert order == [order[0]] + order[1..];
  }

  lemma NormalSkip(options: Options, order: seq<nat>)
    requires (forall n <- options :: Settable(n, options[n])) && order != [] && order[0] !in options
    ensures NormalIn(options, order[1..]) == NormalIn(options, order)
  {
    hide Settable, Normal;
    assert order == [order[0]] + order[1..];
  }

  lemma {:induction false} ItemsRoundTrip(done: Options, options: Options, order: seq<nat>, number: nat)
    requires Rising(order, number) && (forall n <- options :: Settable(n, options[n])) && NoneOf(done, order)
    ensures UpdateAll(done, Items(options, order)) == done + NormalIn(options, order)
    decreases |order|
  {
    hide Settable, Normal, Parts, Update, NormalIn, Tag;
    if order == [] {
      NormalNone(options);
      assert done + NormalIn(options, order) == done;
    } else {
      var n, rest := order[0], order[1..];
      RisingAbove(rest, n + 1);
      assert order == [n] + rest;
      if n in options {
        var done' := done[n := Normal(n, options[n])];
        OptionRoundTrip(done, n, options[n]);
        UpdateBoth(done, Tag(n, Parts(n, options[n])), Items(options, rest));
        ItemsRoundTrip(done', options, rest, n + 1);
        NormalMore(done, options, order);
      } else {
        assert [] + Items(options, rest) == Items(options, rest);
        ItemsRoundTrip(done, options, rest, n + 1);
        NormalSkip(options, order);
      }
    }
  }

  lemma {:induction false} ItemsReadable(options: Options, order: seq<nat>)
    requires forall n <- options :: Settable(n, options[n])
    ensures Readable(Items(options, order))
    decreases |order|
  {
    hide Parts;
    if order != [] {
      ItemsReadable(options, order[1..]);
    }
  }

  lemma OrderIsComplete(options: Options)
    requires forall n <- options :: Settable(n, options[n])
    ensures NormalIn(options, ORDER) == NormalOptions(options)
  {
    hide Normal;
    forall n | n in options
      ensures n in ORDER
    {
      KnownInOrder(n, options[n]);
    }
  }

  lemma KnownInOrder(n: nat, v: Value)
    requires Settable(n, v)
    ensures n in ORDER
  {
    assert ORDER[0] == 1 && ORDER[1] == 3 && ORDER[2] == 4 && ORDER[3] == 5 && ORDER[4] == 6 && ORDER[5] == 7;
    assert ORDER[6] == 8 && ORDER[7] == 11 && ORDER[8] == 12 && ORDER[9] == 14 && ORDER[10] == 15 && ORDER[11] == 17;
    assert ORDER[12] == 20 && ORDER[13] == 23 && ORDER[14] == 27 && ORDER[15] == 28 && ORDER[16] == 60;
  }

  /** A packet as it comes back. */
  function Normalized(p: Packet): Packet
    requires forall n <- p.options :: Settable(n, p.options[n])
  {
    p.(options := NormalOptions(p.options))
  }

  /** Parsing undoes serialization up to the normal form of options, whenever serialization
      succeeds. */
  lemma ParseUndoesSerialize(p: Packet, rest: ChunkSize)
    requires Proper(p, rest) && p.code != 0 && Serialize(p, rest).Some?
    ensures Parse(Serialize(p, rest).value, rest) == Ok(Normalized(p))
  {
    hide Settable, Lay, Items, ParseOptions, UpdateAll, NormalOptions, NormalIn, Rising, Readable, Ascending;
    var data := Serialize(p, rest).value;
    OrderRises();
    ItemsAscend(p.options, ORDER, 0);
    ItemsReadable(p.options, ORDER);
    var items := Items(p.options, ORDER);
    var start := COAP_HEADER_LEN + |p.token|;
    var laid := Lay(items, 0);
    LayoutOf(HeaderBytes(p), p.token, laid, Marker(p.payload), p.payload, data);
    ParseLaid(data, start, 0, map[], items, rest);
    ParseTail(data, start + |laid|, Last(items, 0), UpdateAll(map[], items), p.payload, rest);
    ItemsRoundTrip(map[], p.options, ORDER, 0);
    OrderIsComplete(p.options);
    assert map[] + NormalOptions(p.options) == NormalOptions(p.options);
    HeaderRoundTrip(p, data);
  }

  lemma LayoutOf(header: seq<byte>, token: seq<byte>, laid: seq<byte>, marker: seq<byte>, payload: seq<byte>, data: seq<byte>)
    requires |header| == 4 && data == header + token + laid + marker + payload
    ensures data[..4] == header && data[4..4 + |token|] == token
    ensures Contains(data, 4 + |token|, laid)
    ensures data[4 + |token| + |laid|..] == marker + payload
  {
  }

  lemma ParseTail(data: seq<byte>, at: nat, number: nat, options: Options, payload: seq<byte>, rest: ChunkSize)
    requires at <= |data| && data[at..] == Marker(payload) + payload
    ensures ParseOptions(data, at, number, options, rest) == Fields(options, if |payload| <= rest then payload else payload[..rest])
  {
    if payload != [] {
      assert data[at] == data[at..][0] == 0xff;
      assert data[at + 1..] == data[at..][1..] == payload;
      assert |payload| > rest ==> data[at + 1..at + 1 + rest] == data[at + 1..][..rest];
    }
  }

  lemma HeaderRoundTrip(p: Packet, data: seq<byte>)
    requires p.kind < 4 && |p.token| <= COAP_TOKEN_LEN && 4 + |p.token| <= |data|
    requires data[..4] == HeaderBytes(p) && data[4..4 + |p.token|] == p.token
    ensures At(data, 0) / 0x40 == 1 && At(data, 0) % 16 == |p.token| && At(data, 0) / 16 % 4 == p.kind
    ensures At(data, 1) == p.code && (var high: int, low: int := At(data, 2), At(data, 3); high * 0x100 + low == p.mid)
    ensures Token(data, |p.token|) == p.token
  {
    var header := data[..4];
    assert data[0] == header[0] && data[1] == header[1] && data[2] == header[2] && data[3] == header[3];
    forall i | 0 <= i < |p.token|
      ensures Token(data, |p.token|)[i] == p.token[i]
    {
      assert At(data, COAP_HEADER_LEN + i) == data[4 + i] == data[4..4 + |p.token|][i];
    }
  }

  /** An option that comes back as it was. */
  predicate Faithful(number: nat, v: Value) {
    match KindOf(number)
    case Multiple(separator) => v.Text? ==> v.s == [] || (v.s[0] != separator && TrailingRun(v.s, separator) % 2 == 0)
    case BlockKind => v.BlockValue? && 16 <= v.block.size <= 2048 ==> v.block.size == MaxBlockSize(v.block.size)
    case _ => true
  }

  /** A packet comes back as it was exactly if each of its options does: no list starts with a
      separator or ends with an odd number of them, and block sizes are powers of two. */
  lemma NormalizedIsSame(p: Packet, rest: ChunkSize)
    requires Proper(p, rest)
    ensures Normalized(p) == p <==> forall n <- p.options :: Faithful(n, p.options[n])
  {
    hide Rejoined, TrailingRun, MaxBlockSize, KindOf;
    forall n | n in p.options
      ensures Normal(n, p.options[n]) == p.options[n] <==> Faithful(n, p.options[n])
    {
      if KindOf(n).Multiple? {
        RejoinedIsSame(p.options[n].s, KindOf(n).separator);
      }
    }
    if forall n <- p.options :: Faithful(n, p.options[n]) {
      assert NormalOptions(p.options) == p.options;
    } else {
      var n :| n in p.options && !Faithful(n, p.options[n]);
      assert NormalOptions(p.options)[n] != p.options[n];
    }
  }
}
