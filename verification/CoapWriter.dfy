/** coap_serialize_message as it writes into a packet buffer, which may hold the payload already. */
module CoapWriter {
  import opened Basics
  import opened Block2
  import opened Coap
  import opened CoapMessage

  /** Bytes have been written at a place, and the rest of the buffer is as before. */
  predicate Wrote(before: seq<byte>, after: seq<byte>, at: nat, b: seq<byte>) {
    at + |b| <= |before| && after == before[..at] + b + before[at + |b|..]
  }

  lemma WroteBoth(s0: seq<byte>, s1: seq<byte>, s2: seq<byte>, at: nat, a: seq<byte>, b: seq<byte>)
    requires Wrote(s0, s1, at, a) && Wrote(s1, s2, at + |a|, b)
    ensures Wrote(s0, s2, at, a + b)
  {
    assert s1[..at + |a|] == s0[..at] + a;
    assert s1[at + |a| + |b|..] == s0[at + |a| + |b|..];
    assert s2 == s0[..at] + a + b + s0[at + |a| + |b|..];
  }

  lemma WroteNothing(s: seq<byte>, at: nat)
    requires at <= |s|
    ensures Wrote(s, s, at, [])
  {
  }

  method Put(buffer: array<byte>, at: nat, b: byte)
    requires at < buffer.Length
    modifies buffer
    ensures Wrote(old(buffer[..]), buffer[..], at, [b])
  {
    buffer[at] := b;
  }

  /** memcpy */
  method PutAll(buffer: array<byte>, at: nat, b: seq<byte>)
    requires at + |b| <= buffer.Length
    modifies buffer
    ensures Wrote(old(buffer[..]), buffer[..], at, b)
  {
    forall i | 0 <= i < |b| {
      buffer[at + i] := b[i];
    }
  }

  /** The bytes after the first one of an option header for a delta or a length. */
  method PutExtension(value: nat, buffer: array<byte>, at: nat) returns (end: nat)
    requires at + |Extension(value)| <= buffer.Length
    modifies buffer
    ensures end == at + |Extension(value)| && Wrote(old(buffer[..]), buffer[..], at, Extension(value))
  {
    hide Wrote;
    end := at;
    ghost var s0 := buffer[..];
    WroteNothing(s0, at);
    if value > 268 {
      var high: byte, low: byte := (value - 269) / 0x100 % 0x100, (value - 269) % 0x100;
      Put(buffer, end, high);
      ghost var s1 := buffer[..];
      Put(buffer, end + 1, low);
      WroteBoth(s0, s1, buffer[..], at, [high], [low]);
      assert [high] + [low] == [high, low];
      end := end + 2;
    } else if value > 12 {
      Put(buffer, end, value - 13);
      end := end + 1;
    }
  }

  /** coap_set_option_header */
  method SetOptionHeader(delta: nat, length: nat, buffer: array<byte>, at: nat) returns (end: nat)
    requires at + |OptionHeader(delta, length)| <= buffer.Length
    modifies buffer
    ensures end == at + |OptionHeader(delta, length)| && Wrote(old(buffer[..]), buffer[..], at, OptionHeader(delta, length))
  {
    hide Wrote, Extension, Nibble;
    ghost var s0 := buffer[..];
    var first: byte := Nibble(delta) * 16 + Nibble(length);
    Put(buffer, at, first);
    ghost var s1 := buffer[..];
    end := PutExtension(delta, buffer, at + 1);
    ghost var s2 := buffer[..];
    end := PutExtension(length, buffer, end);
    WroteBoth(s0, s1, s2, at, [first], Extension(delta));
    WroteBoth(s0, s2, buffer[..], at, [first] + Extension(delta), Extension(length));
  }

  // ----- Options -----

  /** The bytes of the parts of one option. */
  function PartBytes(number: nat, current: nat, parts: seq<seq<byte>>): seq<byte>
    requires current <= number
    decreases |parts|
  {
    if parts == [] then []
    else OptionHeader(number - current, |parts[0]|) + parts[0] + PartBytes(number, number, parts[1..])
  }

  /** Options are laid out one after the other. */
  lemma {:induction false} LayParts(number: nat, current: nat, parts: seq<seq<byte>>, rest: seq<Item>)
    requires current <= number && parts != [] && Ascending(rest, number)
    ensures Ascending(Tag(number, parts) + rest, current)
    ensures Lay(Tag(number, parts) + rest, current) == PartBytes(number, current, parts) + Lay(rest, number)
    decreases |parts|
  {
    hide OptionHeader;
    TagAscends(number, parts, rest, current);
    var items := Tag(number, parts) + rest;
    assert items[0] == (number, parts[0]) && items[1..] == Tag(number, parts[1..]) + rest;
    if |parts| == 1 {
      assert Tag(number, parts[1..]) + rest == rest;
    } else {
      LayParts(number, number, parts[1..], rest);
    }
  }

  /** coap_serialize_array_option without a separator, and the last step of the integer options. */
  method SerializePart(number: nat, current: nat, buffer: array<byte>, at: nat, part: seq<byte>) returns (end: nat)
    requires current <= number && at + |OptionHeader(number - current, |part|)| + |part| <= buffer.Length
    modifies buffer
    ensures var b := OptionHeader(number - current, |part|) + part;
            end == at + |b| && Wrote(old(buffer[..]), buffer[..], at, b)
  {
    hide Wrote, OptionHeader;
    ghost var s0 := buffer[..];
    end := SetOptionHeader(number - current, |part|, buffer, at);
    ghost var s1 := buffer[..];
    PutAll(buffer, end, part);
    WroteBoth(s0, s1, buffer[..], at, OptionHeader(number - current, |part|), part);
    end := end + |part|;
  }

  /** coap_serialize_array_option for a list: the loop leaves the character behind a separator
      unseen, and what follows the end of the string is taken not to be a separator. */
  method SerializeList(number: nat, current: nat, buffer: array<byte>, at: nat, s: seq<byte>, separator: byte) returns (end: nat)
    requires current <= number && at + |PartBytes(number, current, Split(s, separator, 0, 0))| <= buffer.Length
    modifies buffer
    ensures var b := PartBytes(number, current, Split(s, separator, 0, 0));
            end == at + |b| && Wrote(old(buffer[..]), buffer[..], at, b)
  {
    hide Wrote, OptionHeader, Split, PartBytes, Remain;
    ghost var s0, all, done: seq<byte> := buffer[..], PartBytes(number, current, Split(s, separator, 0, 0)), [];
    WroteNothing(s0, at);
    AllRemains(all, number, current, s, separator);
    end := at;
    var j: nat, start: nat, from: nat := 0, 0, current;
    while j <= |s| + 1
      invariant start <= |s| && start <= j <= |s| + 2 && from <= number
      invariant Remain(all, done, number, from, s, separator, start, j)
      invariant end == at + |done| && Wrote(s0, buffer[..], at, done)
    {
      if j == |s| || (j < |s| && s[j] == separator) {
        var part := s[start..j];
        ghost var s1, b := buffer[..], OptionHeader(number - from, |part|) + part;
        NextPart(all, done, number, from, s, separator, start, j);
        end := SerializePart(number, from, buffer, end, part);
        WroteBoth(s0, s1, buffer[..], at, done, b);
        done := done + b;
        // Skip the separator.
        j := j + 1;
        from := number;
        start := if j <= |s| then j else |s|;
      } else {
        NoPart(all, done, number, from, s, separator, start, j);
      }
      j := j + 1;
    }
    NothingRemains(all, done, number, from, s, separator, start, j);
  }

  /** What is still to be written. */
  ghost predicate Remain(all: seq<byte>, done: seq<byte>, number: nat, current: nat, s: seq<byte>, separator: byte, start: nat, j: nat) {
    && start <= |s| && start <= j && current <= number
    && all == done + if j <= |s| + 1 then PartBytes(number, current, Split(s, separator, start, j)) else []
  }

  lemma AllRemains(all: seq<byte>, number: nat, current: nat, s: seq<byte>, separator: byte)
    requires current <= number && all == PartBytes(number, current, Split(s, separator, 0, 0))
    ensures Remain(all, [], number, current, s, separator, 0, 0)
  {
  }

  lemma NothingRemains(all: seq<byte>, done: seq<byte>, number: nat, current: nat, s: seq<byte>, separator: byte, start: nat, j: nat)
    requires Remain(all, done, number, current, s, separator, start, j) && j > |s| + 1
    ensures done == all
  {
  }

  lemma NextPart(all: seq<byte>, done: seq<byte>, number: nat, current: nat, s: seq<byte>, separator: byte, start: nat, j: nat)
    requires Remain(all, done, number, current, s, separator, start, j) && (j == |s| || (j < |s| && s[j] == separator))
    ensures var b := OptionHeader(number - current, |s[start..j]|) + s[start..j];
            && |done| + |b| <= |all|
            && Remain(all, done + b, number, number, s, separator, if j + 1 <= |s| then j + 1 else |s|, j + 2)
  {
    hide OptionHeader, Split, PartBytes;
    SplitStep(s, separator, start, j);
    NoParts(number, number);
    var part, rest := s[start..j], if j == |s| then [] else Split(s, separator, j + 1, j + 2);
    TakePart(number, current, part, rest);
    assert j == |s| ==> part == s[start..];
    Regroup(done, OptionHeader(number - current, |part|), part, PartBytes(number, number, rest));
  }

  lemma NoPart(all: seq<byte>, done: seq<byte>, number: nat, current: nat, s: seq<byte>, separator: byte, start: nat, j: nat)
    requires Remain(all, done, number, current, s, separator, start, j) && j <= |s| + 1 && !(j == |s| || (j < |s| && s[j] == separator))
    ensures Remain(all, done, number, current, s, separator, start, j + 1)
  {
    hide Split, PartBytes;
    SplitStep(s, separator, start, j);
    NoParts(number, current);
  }

  lemma Regroup(a: seq<byte>, b: seq<byte>, c: seq<byte>, d: seq<byte>)
    ensures a + (b + c + d) == a + (b + c) + d
    ensures |a + (b + c + d)| == |a| + |b + c| + |d|
  {
  }

  lemma NoParts(number: nat, current: nat)
    requires current <= number
    ensures PartBytes(number, current, []) == []
  {
  }

  lemma TakePart(number: nat, current: nat, part: seq<byte>, parts: seq<seq<byte>>)
    requires current <= number
    ensures PartBytes(number, current, [part] + parts)
         == OptionHeader(number - current, |part|) + part + PartBytes(number, number, parts)
    ensures [part] + [] == [part]
  {
    assert ([part] + parts)[1..] == parts;
  }

  /** One of the COAP_SERIALIZE macros. */
  method SerializeOption(number: nat, current: nat, buffer: array<byte>, at: nat, v: Value) returns (end: nat)
    requires current <= number && Settable(number, v) && at + |PartBytes(number, current, Parts(number, v))| <= buffer.Length
    modifies buffer
    ensures var b := PartBytes(number, current, Parts(number, v));
            end == at + |b| && Wrote(old(buffer[..]), buffer[..], at, b)
  {
    hide Wrote, OptionHeader, Split, IntBytes;
    var kind := KindOf(number);
    if kind.Multiple? {
      end := SerializeList(number, current, buffer, at, v.s, kind.separator);
    } else {
      var part: seq<byte> := [];
      if v.Number? {
        part := IntBytes(v.n);
      } else if v.Octets? {
        part := v.b;
      } else if v.Text? {
        part := v.s;
      } else if v.BlockValue? {
        BlockRoundTrip(v.block);
        part := IntBytes(EncodeBlock(v.block));
      }
      SinglePart(number, current, part);
      end := SerializePart(number, current, buffer, at, part);
    }
  }

  lemma SinglePart(number: nat, current: nat, part: seq<byte>)
    requires current <= number
    ensures PartBytes(number, current, [part]) == OptionHeader(number - current, |part|) + part
  {
    hide OptionHeader;
    TakePart(number, current, part, []);
    NoParts(number, number);
  }

  /** The options of a packet from the k-th known one on. */
  ghost predicate OptionsLeft(all: seq<byte>, done: seq<byte>, options: Options, k: nat, current: nat)
    requires (forall n <- options :: Settable(n, options[n])) && k <= |ORDER|
  {
    && Rising(ORDER[k..], current) && Ascending(Items(options, ORDER[k..]), current)
    && all == done + Lay(Items(options, ORDER[k..]), current)
  }

  lemma NextOption(all: seq<byte>, done: seq<byte>, options: Options, k: nat, current: nat)
    requires (forall n <- options :: Settable(n, options[n])) && k < |ORDER| && OptionsLeft(all, done, options, k, current)
    ensures var n := ORDER[k];
            && current <= n
            && if n in options then
                 var b := PartBytes(n, current, Parts(n, options[n]));
                 |done| + |b| <= |all| && OptionsLeft(all, done + b, options, k + 1, n)
               else OptionsLeft(all, done, options, k + 1, current)
  {
    hide PartBytes, Parts, Settable, Items, Lay, Ascending, Rising;
    var order, n := ORDER[k..], ORDER[k];
    assert order[1..] == ORDER[k + 1..] && order[0] == n;
    NextInOrder(options, order, current);
    if n in options {
      var b, rest := PartBytes(n, current, Parts(n, options[n])), Lay(Items(options, order[1..]), n);
      assert done + (b + rest) == done + b + rest;
    }
  }

  lemma NextInOrder(options: Options, order: seq<nat>, current: nat)
    requires (forall n <- options :: Settable(n, options[n])) && order != [] && Rising(order, current)
    ensures var n, rest := order[0], Items(options, order[1..]);
            && current <= n && Ascending(Items(options, order), current)
            && if n in options then
                 && Rising(order[1..], n) && Ascending(rest, n)
                 && Lay(Items(options, order), current) == PartBytes(n, current, Parts(n, options[n])) + Lay(rest, n)
               else Rising(order[1..], current) && Ascending(rest, current) && Items(options, order) == rest
  {
    hide PartBytes, Parts, Settable, Lay, Ascending;
    ItemsAscend(options, order, current);
    var n, rest := order[0], Items(options, order[1..]);
    ItemsAscend(options, order[1..], n + 1);
    AscendFromBelow(rest, n + 1, n);
    AscendFromBelow(rest, n, current);
    RiseFromBelow(order[1..], n + 1, n);
    RiseFromBelow(order[1..], n, current);
    if n in options {
      PartsNotEmpty(n, options[n]);
      LayParts(n, current, Parts(n, options[n]), rest);
    } else {
      assert [] + rest == rest;
    }
  }

  lemma PartsNotEmpty(n: nat, v: Value)
    requires Settable(n, v)
    ensures Parts(n, v) != []
  {
    hide Split;
    if KindOf(n).Multiple? {
      SplitNotEmpty(v.s, KindOf(n).separator, 0, 0);
    }
  }

  lemma RiseFromBelow(order: seq<nat>, number: nat, below: nat)
    requires Rising(order, number) && below <= number
    ensures Rising(order, below)
  {
  }

  /** The header, the token and the options. */
  method SerializeHead(p: Packet, rest: ChunkSize, buffer: array<byte>) returns (end: nat)
    requires Proper(p, rest) && |Head(p, rest)| <= buffer.Length
    modifies buffer
    ensures end == |Head(p, rest)| && Wrote(old(buffer[..]), buffer[..], 0, Head(p, rest))
  {
    hide Wrote, Items, Lay, Ascending, Rising, Settable, HeaderBytes, OptionsLeft, PartBytes, Parts;
    ghost var s0, all := buffer[..], Head(p, rest);
    HeadIs(p, rest);
    PutAll(buffer, 0, HeaderBytes(p));
    ghost var s1 := buffer[..];
    PutAll(buffer, 4, p.token);
    WroteBoth(s0, s1, buffer[..], 0, HeaderBytes(p), p.token);
    end := COAP_HEADER_LEN + |p.token|;
    ghost var done := HeaderBytes(p) + p.token;
    var current: nat := 0;
    for k := 0 to |ORDER|
      invariant OptionsLeft(all, done, p.options, k, current)
      invariant end == |done| && Wrote(s0, buffer[..], 0, done)
    {
      NextOption(all, done, p.options, k, current);
      if ORDER[k] in p.options {
        ghost var s2 := buffer[..];
        ghost var b := PartBytes(ORDER[k], current, Parts(ORDER[k], p.options[ORDER[k]]));
        end := SerializeOption(ORDER[k], current, buffer, end, p.options[ORDER[k]]);
        WroteBoth(s0, s2, buffer[..], 0, done, b);
        done := done + b;
        current := ORDER[k];
      }
    }
    NoOptions(all, done, p.options, current);
  }

  lemma HeadIs(p: Packet, rest: ChunkSize)
    requires Proper(p, rest)
    ensures |HeaderBytes(p)| == 4 && |HeaderBytes(p) + p.token| <= |Head(p, rest)|
    ensures OptionsLeft(Head(p, rest), HeaderBytes(p) + p.token, p.options, 0, 0)
  {
    hide Items, Lay, Settable;
    OrderRises();
    ItemsAscend(p.options, ORDER, 0);
    assert ORDER[0..] == ORDER;
  }

  lemma NoOptions(all: seq<byte>, done: seq<byte>, options: Options, current: nat)
    requires (forall n <- options :: Settable(n, options[n])) && OptionsLeft(all, done, options, |ORDER|, current)
    ensures all == done
  {
    hide Settable;
    assert Items(options, ORDER[|ORDER|..]) == [];
    assert all == done + [];
  }

  /** Where the payload of a packet is: in memory of its own, or in the packet buffer itself, behind
      the room for the largest header. */
  datatype Place = Elsewhere | InBuffer(at: nat)

  /** The payload that is sent. The marker is written before the payload is moved, and if the header
      fills its room it is written over the first byte of a payload in the buffer. */
  function Sent(payload: seq<byte>, head: nat, place: Place): seq<byte> {
    if place.InBuffer? && head == place.at && payload != [] then [0xff] + payload[1..] else payload
  }

  /** What coap_serialize_message leaves: the length of the message and its bytes, or the length 0
      if the header is too long. */
  ghost predicate Written(p: Packet, rest: ChunkSize, place: Place, length: nat, buffer: seq<byte>)
    requires Proper(p, rest)
  {
    match Serialize(p, rest)
    case None => length == 0
    case Some(bytes) =>
      && length == |bytes| > 0 && length <= |buffer|
      && buffer[..length] == if p.code == 0 then bytes else Head(p, rest) + Marker(p.payload) + Sent(p.payload, |Head(p, rest)|, place)
  }

  /** coap_serialize_message */
  method SerializeMessage(p: Packet, rest: ChunkSize, buffer: array<byte>, place: Place) returns (length: nat)
    requires Proper(p, rest) && |Head(p, rest)| + 1 + |p.payload| <= buffer.Length
    requires place.InBuffer? ==>
               && COAP_MAX_HEADER_SIZE <= place.at && place.at + |p.payload| <= buffer.Length
               && buffer[place.at..place.at + |p.payload|] == p.payload
    modifies buffer
    ensures Written(p, rest, place, length, buffer[..])
  {
    hide Head, Written, HeaderBytes, Proper, Wrote;
    ghost var s0, head := buffer[..], Head(p, rest);
    HeadNotEmpty(p, rest);
    if p.code == 0 {
      PutAll(buffer, 0, HeaderBytes(p));
      WrittenEmpty(p, rest, place, s0, buffer[..]);
      return 4;
    }
    length := SerializeHead(p, rest, buffer);
    ghost var s1 := buffer[..];
    if length > COAP_MAX_HEADER_SIZE {
      WrittenNothing(p, rest, place, buffer[..]);
      return 0;
    }
    if p.payload != [] {
      buffer[length] := 0xff;
      length := length + 1;
    }
    HeadWritten(s0, s1, head, place, p.payload);
    MovePayload(buffer, length, p.payload, place, s1, |head|);
    length := length + |p.payload|;
    WrittenWhole(p, rest, place, length, buffer[..]);
  }

  lemma HeadWritten(s0: seq<byte>, s1: seq<byte>, head: seq<byte>, place: Place, payload: seq<byte>)
    requires Wrote(s0, s1, 0, head)
    requires place.InBuffer? ==> place.at + |payload| <= |s0| && s0[place.at..place.at + |payload|] == payload
    ensures |s1| == |s0| && s1[..|head|] == head
    ensures place.InBuffer? && |head| <= place.at ==> s1[place.at..place.at + |payload|] == payload
  {
  }

  lemma WrittenEmpty(p: Packet, rest: ChunkSize, place: Place, s0: seq<byte>, s1: seq<byte>)
    requires Proper(p, rest) && p.code == 0 && Wrote(s0, s1, 0, HeaderBytes(p))
    ensures Written(p, rest, place, 4, s1)
  {
  }

  lemma WrittenNothing(p: Packet, rest: ChunkSize, place: Place, s: seq<byte>)
    requires Proper(p, rest) && p.code != 0 && |Head(p, rest)| > COAP_MAX_HEADER_SIZE
    ensures Written(p, rest, place, 0, s)
  {
    hide Head;
  }

  lemma WrittenWhole(p: Packet, rest: ChunkSize, place: Place, length: nat, s: seq<byte>)
    requires Proper(p, rest) && p.code != 0 && |Head(p, rest)| <= COAP_MAX_HEADER_SIZE && length <= |s|
    requires length == |Head(p, rest)| + |Marker(p.payload)| + |p.payload| > 0
    requires s[..length] == Head(p, rest) + Marker(p.payload) + Sent(p.payload, |Head(p, rest)|, place)
    ensures Written(p, rest, place, length, s)
  {
    hide Head;
  }

  lemma HeadNotEmpty(p: Packet, rest: ChunkSize)
    requires Proper(p, rest)
    ensures p.kind < 4 && |p.token| <= COAP_TOKEN_LEN && |Head(p, rest)| >= 4 == |HeaderBytes(p)|
  {
  }

  /** The marker has been written if there is a payload. */
  predicate Marked(before: seq<byte>, s: seq<byte>, head: nat, payload: seq<byte>)
    requires head < |before|
  {
    s == if payload != [] then before[head := 0xff] else before
  }

  /** The memmove of the payload. */
  method MovePayload(buffer: array<byte>, at: nat, payload: seq<byte>, place: Place, ghost before: seq<byte>, ghost head: nat)
    requires at + |payload| <= buffer.Length && head <= COAP_MAX_HEADER_SIZE && head < buffer.Length && at == head + |Marker(payload)|
    requires |before| == buffer.Length && Marked(before, buffer[..], head, payload)
    requires place.InBuffer? ==>
               && COAP_MAX_HEADER_SIZE <= place.at && place.at + |payload| <= buffer.Length
               && before[place.at..place.at + |payload|] == payload
    modifies buffer
    ensures buffer[..at + |payload|] == before[..head] + Marker(payload) + Sent(payload, head, place)
  {
    hide Wrote, Marker, Sent, Marked;
    ghost var s := buffer[..];
    PayloadThere(s, before, place, payload, head);
    if place.InBuffer? {
      Move(buffer, place.at, at, |payload|);
    } else {
      PutAll(buffer, at, payload);
    }
    AfterMove(before, s, buffer[..], head, payload, Sent(payload, head, place));
  }

  /** memmove */
  method Move(buffer: array<byte>, from: nat, to: nat, n: nat)
    requires from + n <= buffer.Length && to + n <= buffer.Length
    modifies buffer
    ensures Wrote(old(buffer[..]), buffer[..], to, old(buffer[..])[from..from + n])
  {
    forall k | 0 <= k < n {
      buffer[to + k] := buffer[from + k];
    }
  }

  lemma AfterMove(before: seq<byte>, s: seq<byte>, s': seq<byte>, head: nat, payload: seq<byte>, moved: seq<byte>)
    requires head < |before| && Marked(before, s, head, payload)
    requires Wrote(s, s', head + |Marker(payload)|, moved)
    ensures s'[..head + |Marker(payload)| + |moved|] == before[..head] + Marker(payload) + moved
  {
    assert s[..head + |Marker(payload)|] == before[..head] + Marker(payload);
  }

  lemma PayloadThere(s: seq<byte>, before: seq<byte>, place: Place, payload: seq<byte>, head: nat)
    requires head < |s| == |before| && Marked(before, s, head, payload)
    requires place.InBuffer? ==> head <= place.at && place.at + |payload| <= |s| && before[place.at..place.at + |payload|] == payload
    ensures |Sent(payload, head, place)| == |payload|
    ensures if place.InBuffer? then s[place.at..place.at + |payload|] == Sent(payload, head, place) else payload == Sent(payload, head, place)
  {
    if place.InBuffer? {
      forall k | 0 <= k < |payload|
        ensures s[place.at + k] == if place.at + k == head then 0xff else payload[k]
      {
        assert before[place.at + k] == before[place.at..place.at + |payload|][k];
      }
    }
  }

  /** A payload in the buffer is sent as it is exactly if the header leaves room before it, or the
      payload is empty or starts with the byte of the marker anyway. */
  lemma PayloadIsSent(p: Packet, rest: ChunkSize, place: nat)
    requires Proper(p, rest) && p.code != 0 && |Head(p, rest)| <= COAP_MAX_HEADER_SIZE <= place
    ensures Sent(p.payload, |Head(p, rest)|, InBuffer(place)) == p.payload <==>
              |Head(p, rest)| < place || p.payload == [] || p.payload[0] == 0xff
  {
    hide Head;
  }
}
