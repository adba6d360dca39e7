/** CoAP messages in their buffers: the parser joins the parts of a list inside the datagram, and
    the serializer writes in front of a payload that may already be in the buffer. */
module CoapBuffer {
  import opened Basics
  import opened Block2
  import opened Coap
  import opened CoapMessage

  // ----- Reading -----

  /** A string that is left in the datagram. */
  datatype Slice = Slice(start: nat, length: nat)

  type Slices = map<nat, Slice>

  function SliceEnd(s: Slice): nat { s.start + s.length }

  function Piece(data: seq<byte>, s: Slice): seq<byte>
    requires SliceEnd(s) <= |data|
  {
    data[s.start..s.start + s.length]
  }

  lemma PieceIs(data: seq<byte>, at: nat, size: nat)
    requires at + size <= |data|
    ensures Piece(data, Slice(at, size)) == data[at..at + size]
  {
  }

  lemma PieceKept(data: seq<byte>, data': seq<byte>, kept: nat, s: Slice)
    requires SliceEnd(s) <= kept <= |data| && kept <= |data'| && data'[..kept] == data[..kept]
    ensures Piece(data', s) == Piece(data, s)
  {
    assert Piece(data', s) == data'[..kept][s.start..s.start + s.length];
    assert Piece(data, s) == data[..kept][s.start..s.start + s.length];
  }

  predicate IsText(number: nat) {
    KindOf(number).Plain? || KindOf(number).Multiple?
  }

  /** The strings lie before the cursor in the order of their options, and do not overlap. */
  ghost predicate Laid(texts: Slices, number: nat, cursor: nat) {
    && (forall n <- texts :: n <= number && IsText(n) && SliceEnd(texts[n]) <= cursor)
    && forall m, n | m in texts && n in texts && m < n :: SliceEnd(texts[m]) <= texts[n].start
  }

  lemma LaidInside(texts: Slices, number: nat, cursor: nat, n: nat)
    requires Laid(texts, number, cursor)
    ensures forall k <- texts :: SliceEnd(texts[k]) <= cursor && IsText(k)
  {
  }

  lemma LaidOn(texts: Slices, number: nat, cursor: nat, number': nat, cursor': nat)
    requires Laid(texts, number, cursor) && number <= number' && cursor <= cursor'
    ensures Laid(texts, number', cursor')
  {
  }

  /** Setting the string of the option that is being read. */
  lemma LaidMore(texts: Slices, number: nat, cursor: nat, n: nat, s: Slice, cursor': nat)
    requires Laid(texts, number, cursor) && number <= n && IsText(n) && cursor <= cursor' && SliceEnd(s) <= cursor'
    requires cursor <= s.start || (n in texts && texts[n].start == s.start)
    ensures Laid(texts[n := s], n, cursor')
  {
    hide IsText;
  }

  lemma LaidKept(texts: Slices, number: nat, cursor: nat, n: nat, kept: nat)
    requires Laid(texts, number, cursor) && number <= n
    requires cursor <= kept || (n in texts && texts[n].start <= kept)
    ensures forall k <- texts :: k != n ==> SliceEnd(texts[k]) <= kept
  {
    hide IsText;
  }

  function TextsOf(texts: Slices, data: seq<byte>): Options
    requires forall n <- texts :: SliceEnd(texts[n]) <= |data|
  {
    map n | n in texts :: Text(Piece(data, texts[n]))
  }

  /** The options with the strings that the slices stand for. */
  function Resolve(values: Options, texts: Slices, data: seq<byte>): Options
    requires forall n <- texts :: SliceEnd(texts[n]) <= |data|
  {
    values + TextsOf(texts, data)
  }

  predicate NoTexts(values: Options) {
    forall n <- values :: !IsText(n)
  }

  /** What has been written leaves the strings alone if it is behind all of them. */
  lemma ResolveKept(values: Options, texts: Slices, number: nat, cursor: nat, data: seq<byte>, data': seq<byte>)
    requires Laid(texts, number, cursor) && cursor <= |data| && cursor <= |data'| && data'[..cursor] == data[..cursor]
    ensures Resolve(values, texts, data') == Resolve(values, texts, data)
  {
    hide IsText, Piece;
    forall n | n in texts
      ensures Piece(data', texts[n]) == Piece(data, texts[n])
    {
      PieceKept(data, data', cursor, texts[n]);
    }
    assert TextsOf(texts, data') == TextsOf(texts, data);
  }

  /** An option whose value is not a string. */
  lemma ResolveValue(values: Options, texts: Slices, data: seq<byte>, n: nat, v: Value)
    requires (forall k <- texts :: SliceEnd(texts[k]) <= |data| && IsText(k)) && !IsText(n)
    ensures Resolve(values[n := v], texts, data) == Resolve(values, texts, data)[n := v]
  {
    hide IsText;
  }

  /** A string that is set or extended, while nothing before `kept` changes and all strings of
      other options end there. */
  lemma ResolveText(values: Options, texts: Slices, data: seq<byte>, data': seq<byte>, kept: nat, n: nat, s: Slice)
    requires (forall k <- texts :: SliceEnd(texts[k]) <= |data|) && (forall k <- texts :: k != n ==> SliceEnd(texts[k]) <= kept)
    requires kept <= |data| == |data'| && data'[..kept] == data[..kept] && SliceEnd(s) <= |data'|
    ensures Resolve(values, texts[n := s], data') == Resolve(values, texts, data)[n := Text(Piece(data', s))]
  {
    hide Piece, TextsOf;
    TextsWith(texts, data, data', kept, n, s);
  }

  lemma TextsWith(texts: Slices, data: seq<byte>, data': seq<byte>, kept: nat, n: nat, s: Slice)
    requires (forall k <- texts :: SliceEnd(texts[k]) <= |data|) && (forall k <- texts :: k != n ==> SliceEnd(texts[k]) <= kept)
    requires kept <= |data| == |data'| && data'[..kept] == data[..kept] && SliceEnd(s) <= |data'|
    ensures TextsOf(texts[n := s], data') == TextsOf(texts, data)[n := Text(Piece(data', s))]
  {
    hide Piece;
    forall k | k in texts && k != n
      ensures Piece(data', texts[k]) == Piece(data, texts[k])
    {
      PieceKept(data, data', kept, texts[k]);
    }
  }

  lemma UpdateMultiple(values: Options, texts: Slices, data: seq<byte>, n: nat, separator: byte, part: seq<byte>)
    requires (forall k <- texts :: SliceEnd(texts[k]) <= |data|) && NoTexts(values) && KindOf(n) == Multiple(separator)
    ensures var before := if n in texts then Piece(data, texts[n]) else [];
            Update(Resolve(values, texts, data), n, part) == Resolve(values, texts, data)[n := Text(Merge(before, part, separator))]
  {
    hide KindOf;
  }

  /** What the method below leaves is what a list with one more part looks like. */
  lemma MergedIs(values: Options, texts: Slices, data: seq<byte>, data': seq<byte>, n: nat, separator: byte, part: seq<byte>, kept: nat, s: Slice)
    requires (forall k <- texts :: SliceEnd(texts[k]) <= |data|) && NoTexts(values) && KindOf(n) == Multiple(separator)
    requires (forall k <- texts :: k != n ==> SliceEnd(texts[k]) <= kept)
    requires kept <= |data| == |data'| && data'[..kept] == data[..kept] && SliceEnd(s) <= |data'|
    requires Piece(data', s) == Merge(if n in texts then Piece(data, texts[n]) else [], part, separator)
    ensures Resolve(values, texts[n := s], data') == Update(Resolve(values, texts, data), n, part)
  {
    hide KindOf, Update, Resolve, NoTexts, Piece;
    UpdateMultiple(values, texts, data, n, separator, part);
    ResolveText(values, texts, data, data', kept, n, s);
  }

  lemma EmptyPiece(data: seq<byte>, texts: Slices, n: nat)
    requires n in texts ==> texts[n].length == 0 && SliceEnd(texts[n]) <= |data|
    ensures n in texts ==> Piece(data, texts[n]) == []
  {
  }

  lemma MergeNothing(part: seq<byte>, separator: byte)
    ensures Merge([], part, separator) == part
  {
  }

  lemma MovedText(data: seq<byte>, data': seq<byte>, s: Slice, separator: byte, at: nat, size: nat)
    requires s.length > 0 && SliceEnd(s) < at && at + size <= |data|
    requires data' == data[..SliceEnd(s)] + [separator] + data[at..at + size] + data[SliceEnd(s) + 1 + size..]
    ensures |data'| == |data| && data'[..SliceEnd(s)] == data[..SliceEnd(s)] && data'[at + size..] == data[at + size..]
    ensures Piece(data', Slice(s.start, s.length + 1 + size)) == Merge(Piece(data, s), data[at..at + size], separator)
  {
  }

  /** The packet fields that the parser fills, and the datagram in which it does so. */
  class Parser {
    const data: array<byte>
    // The length of the datagram; the buffer has a byte more for the zero after the payload.
    const length: nat
    var cursor: nat
    var number: nat
    var values: Options
    var texts: Slices
    var payload: Slice

    constructor (data: array<byte>, length: nat)
      requires length < data.Length
      ensures this.data == data && this.length == length && number == 0 && cursor == 0 && Valid()
      ensures values == map[] && texts == map[] && payload == Slice(0, 0)
    {
      this.data, this.length := data, length;
      cursor, number, values, texts, payload := 0, 0, map[], map[], Slice(0, 0);
    }

    ghost predicate Valid()
      reads this`cursor, this`number, this`values, this`texts
    {
      length < data.Length && cursor <= length && Laid(texts, number, cursor) && NoTexts(values)
    }

    ghost function Found(): Options
      requires Valid()
      reads this`cursor, this`number, this`values, this`texts, data
    {
      Resolve(values, texts, data[..])
    }

    method ByteAt(i: nat) returns (b: byte)
      requires length < data.Length
      ensures b == At(data[..length], i)
    {
      b := if i < length then data[i] else 0;
    }

    /** The extension of a nibble. */
    method ReadNibble(nibble: nat, at: nat) returns (value: nat, next: nat)
      requires length < data.Length
      ensures (value, next) == ReadExtended(data[..length], nibble, at)
    {
      if nibble == 13 {
        var b := ByteAt(at);
        var low: int := b;
        return 13 + low, at + 1;
      }
      if nibble == 14 {
        var first := ByteAt(at);
        var second := ByteAt(at + 1);
        var high: int, low: int := first, second;
        return 269 + high * 0x100 + low, at + 2;
      }
      return nibble, at;
    }

    method ParseInt(at: nat, n: nat) returns (v: uint32)
      requires at + n <= data.Length
      ensures v == IntOf(data[at..at + n])
    {
      v := 0;
      for i := 0 to n
        invariant v == IntOf(data[at..at + i])
      {
        assert data[at..at + i + 1][..i] == data[at..at + i];
        v := (v * 0x100 + data[at + i]) % 0x1_0000_0000;
      }
    }

    /** coap_merge_multi_option: the part is moved up to the string collected so far, over the
        header of its own option. */
    method MergeMultiOption(n: nat, separator: byte, at: nat, size: nat)
      requires Valid() && cursor < at && at + size <= length && number <= n && KindOf(n) == Multiple(separator)
      modifies this`texts, this`number, this`cursor, data
      ensures Valid() && number == n && cursor == at + size
      ensures data[at + size..] == old(data[at + size..])
      ensures Found() == Update(old(Found()), n, old(data[at..at + size]))
    {
      hide Update, Resolve, KindOf, Merge, Laid, Piece;
      LaidInside(texts, number, cursor, n);
      ghost var before, part := data[..], data[at..at + size];
      MergeNothing(part, separator);
      var s := if n in texts then texts[n] else Slice(0, 0);
      var merged := Slice(at, size);
      ghost var kept := at;
      if s.length > 0 {
        kept := SliceEnd(s);
        MoveUp(SliceEnd(s), separator, at, size);
        merged := Slice(s.start, s.length + 1 + size);
        MovedText(before, data[..], s, separator, at, size);
      } else {
        PieceIs(data[..], at, size);
        EmptyPiece(before, texts, n);
      }
      LaidKept(texts, number, cursor, n, kept);
      MergedIs(values, texts, before, data[..], n, separator, part, kept, merged);
      LaidMore(texts, number, cursor, n, merged, at + size);
      texts, number, cursor := texts[n := merged], n, at + size;
    }

    /** The separator and the memmove. */
    method MoveUp(end: nat, separator: byte, at: nat, size: nat)
      requires end < at && at + size <= data.Length
      modifies data
      ensures data[..] == old(data[..end]) + [separator] + old(data[at..at + size]) + old(data[end + 1 + size..])
    {
      ghost var before := data[..];
      data[end] := separator;
      forall k | 0 <= k < size {
        data[end + 1 + k] := data[at + k];
      }
      assert data[end + 1..end + 1 + size] == before[at..at + size];
      MovedUp(before, end, separator, at, size, data[..]);
    }

    method SetValue(n: nat, v: Value, at: nat, size: nat)
      requires Valid() && cursor < at && at + size <= length && number <= n && !IsText(n)
      modifies this`values, this`number, this`cursor
      ensures Valid() && number == n && cursor == at + size && Found() == old(Found())[n := v]
    {
      hide Resolve, Laid, KindOf;
      LaidInside(texts, number, cursor, n);
      LaidOn(texts, number, cursor, n, at + size);
      ResolveValue(values, texts, data[..], n, v);
      values, number, cursor := values[n := v], n, at + size;
    }

    method SetText(n: nat, at: nat, size: nat)
      requires Valid() && cursor < at && at + size <= length && number <= n && KindOf(n).Plain?
      modifies this`texts, this`number, this`cursor
      ensures Valid() && number == n && cursor == at + size
      ensures Found() == old(Found())[n := Text(data[at..at + size])]
    {
      hide Resolve, Piece, Laid;
      LaidInside(texts, number, cursor, n);
      LaidKept(texts, number, cursor, n, at);
      LaidMore(texts, number, cursor, n, Slice(at, size), at + size);
      ResolveText(values, texts, data[..], data[..], at, n, Slice(at, size));
      PieceIs(data[..], at, size);
      assert data[..][at..at + size] == data[at..at + size];
      texts, number, cursor := texts[n := Slice(at, size)], n, at + size;
    }

    /** The switch over the option number; a status other than 0 rejects the message. */
    method TakeOption(n: nat, at: nat, size: nat) returns (status: nat)
      requires Valid() && cursor < at && at + size <= length && number <= n
      modifies this`texts, this`values, this`number, this`cursor, data
      ensures Valid() && cursor >= old(cursor)
      ensures status == if KindOf(n) == Proxy then PROXYING_NOT_SUPPORTED_5_05
                        else if KindOf(n) == Unknown && n % 2 == 1 then BAD_OPTION_4_02 else 0
      ensures status == 0 ==>
                && number == n && cursor == at + size && data[at + size..length] == old(data[at + size..length])
                && Found() == Update(old(Found()), n, old(data[at..at + size]))
    {
      hide Resolve, Laid;
      status := 0;
      ghost var after := data[at + size..];
      assert data[at + size..length] == after[..length - at - size];
      match KindOf(n) {
        case Short =>
          var v := ParseInt(at, size);
          SetValue(n, Number(v % 0x1_0000), at, size);
        case Long =>
          var v := ParseInt(at, size);
          SetValue(n, Number(v), at, size);
        case Opaque =>
          var kept := if size < COAP_ETAG_LEN then size else COAP_ETAG_LEN;
          SetValue(n, Octets(data[at..at + kept]), at, size);
          assert data[at..at + size][..kept] == data[at..at + kept];
        case Empty =>
          SetValue(n, Flag, at, size);
        case Plain =>
          SetText(n, at, size);
        case Multiple(separator) =>
          MergeMultiOption(n, separator, at, size);
          assert data[at + size..length] == data[at + size..][..length - at - size];
        case BlockKind =>
          var v := ParseInt(at, size);
          SetValue(n, BlockValue(DecodeBlock(v).0), at, size);
        case Proxy =>
          return PROXYING_NOT_SUPPORTED_5_05;
        case Unknown =>
          if n % 2 == 1 {
            return BAD_OPTION_4_02;
          }
          LaidOn(texts, number, cursor, n, at + size);
          number, cursor := n, at + size;
      }
    }

    /** The outcome for the part of the datagram that is left. */
    ghost predicate Settled(o: Outcome, status: nat)
      requires Valid()
      reads this, data
    {
      match o
      case Failed(code) => status == code && status != 0
      case Fields(options, bytes) =>
        status == 0 && Found() == options && SliceEnd(payload) < data.Length && Piece(data[..], payload) == bytes
    }

    /** One round of the parsing loop. */
    method ParseNext(rest: ChunkSize, ghost orig: seq<byte>) returns (more: bool, status: nat)
      requires Valid() && cursor < length == |orig| && data[cursor..length] == orig[cursor..]
      modifies this`cursor, this`number, this`values, this`texts, this`payload, data
      ensures Valid()
      ensures var all := ParseOptions(orig, old(cursor), old(number), old(Found()), rest);
              if more then
                && status == 0 && payload == old(payload) && cursor > old(cursor) && data[cursor..length] == orig[cursor..]
                && ParseOptions(orig, cursor, number, Found(), rest) == all
              else Settled(all, status)
    {
      hide ParseOptions, Update, Resolve, ReadHeader, ReadExtended, KindOf, Laid, Piece;
      var first: int := data[cursor];
      assert first == data[cursor..length][0] == orig[cursor..][0];
      ParseOnce(orig, cursor, number, Found(), rest);
      if first / 16 == 15 {
        TakePayload(rest, orig);
        return false, 0;
      }
      var delta, at := ReadNibbleOf(first / 16, cursor + 1, orig);
      var size: nat;
      size, at := ReadNibbleOf(first % 16, at, orig);
      var n := number + delta;
      if at + size > length || n > COAP_OPTION_SIZE1 {
        return false, BAD_REQUEST_4_00;
      }
      SameParts(data[..], length, orig, cursor, at, size);
      assert data[cursor..length] == data[..][cursor..length] && data[at..at + size] == data[..][at..at + size];
      assert data[at + size..length] == data[..][at + size..length];
      status := TakeOption(n, at, size);
      more := status == 0;
    }

    /** The parsing loop. Whatever has been moved, the bytes from the cursor on are still those of
        the datagram, so the outcome is that of reading it unchanged. */
    method ParseAll(rest: ChunkSize) returns (status: nat)
      requires Valid() && payload == Slice(0, 0)
      modifies this`cursor, this`number, this`values, this`texts, this`payload, data
      ensures Valid() && Settled(ParseOptions(old(data[..length]), old(cursor), old(number), old(Found()), rest), status)
    {
      hide ParseOptions, Resolve, Laid, Piece, Settled;
      ghost var orig, all := data[..length], ParseOptions(data[..length], cursor, number, Found(), rest);
      status := 0;
      var more := true;
      while more && cursor < length
        invariant Valid()
        invariant if more then
                    && status == 0 && payload == Slice(0, 0) && data[cursor..length] == orig[cursor..]
                    && ParseOptions(orig, cursor, number, Found(), rest) == all
                  else Settled(all, status)
        decreases more, length - cursor
      {
        more, status := ParseNext(rest, orig);
      }
      if more {
        ParseEnd(orig, cursor, number, Found(), rest);
        NoPayload(all);
      }
    }

    lemma NoPayload(o: Outcome)
      requires Valid() && payload == Slice(0, 0) && o == Fields(Found(), [])
      ensures Settled(o, 0)
    {
    }

    /** coap_parse_message: the fixed header, the token, and then the options and the payload. */
    method ParseMessage(rest: ChunkSize) returns (status: nat, kind: nat, code: byte, mid: uint16, token: seq<byte>)
      requires Valid() && payload == Slice(0, 0) && cursor == 0 && number == 0 && values == map[] && texts == map[]
      modifies this`cursor, this`number, this`values, this`texts, this`payload, data
      ensures Valid()
      ensures match Parse(old(data[..length]), rest)
              case Error(e) => status == e
              case Ok(p) =>
                && status == 0 && (kind, code, mid, token) == (p.kind, p.code, p.mid, p.token)
                && Found() == p.options && SliceEnd(payload) < data.Length && Piece(data[..], payload) == p.payload
    {
      hide ParseOptions, Resolve, Laid, Piece;
      NothingFound(data[..], 0);
      kind, code, mid, token := 0, 0, 0, [];
      ghost var orig := data[..length];
      var first := ByteAt(0);
      var tokenLength: nat := first % 16;
      if first / 0x40 != 1 || tokenLength > COAP_TOKEN_LEN {
        status := BAD_REQUEST_4_00;
        return;
      }
      kind := first / 16 % 4;
      code := ByteAt(1);
      var high := ByteAt(2);
      var low := ByteAt(3);
      var second: int, third: int := high, low;
      mid := second * 0x100 + third;
      for i := 0 to tokenLength
        invariant Valid() && unchanged(this) && data[..length] == orig && token == Token(orig, i)
      {
        var b := ByteAt(COAP_HEADER_LEN + i);
        token := token + [b];
      }
      var start := COAP_HEADER_LEN + tokenLength;
      cursor := if start < length then start else length;
      NothingFound(data[..], cursor);
      if start >= length {
        ParseEnd(orig, start, 0, map[], rest);
        ParseEnd(orig, cursor, 0, map[], rest);
      }
      status := ParseAll(rest);
    }

    /** ReadNibble in the part of the datagram that is unchanged. */
    method ReadNibbleOf(nibble: nat, at: nat, ghost orig: seq<byte>) returns (value: nat, next: nat)
      requires Valid() && cursor < at && |orig| == length && data[cursor..length] == orig[cursor..]
      ensures (value, next) == ReadExtended(orig, nibble, at)
    {
      SameBytes(data[..length], orig, cursor);
      value, next := ReadNibble(nibble, at);
    }

    /** The payload is cut to the chunk size, and a zero is put behind it. */
    method TakePayload(rest: ChunkSize, ghost orig: seq<byte>)
      requires Valid() && cursor < length == |orig| && data[cursor..length] == orig[cursor..]
      modifies this`payload, data
      ensures Valid() && Found() == old(Found()) && SliceEnd(payload) < data.Length
      ensures Piece(data[..], payload) == Payload(orig, cursor + 1, rest)
    {
      hide Resolve;
      ghost var before := data[..];
      var start := cursor + 1;
      var size := if length - start > rest then rest else length - start;
      payload := Slice(start, size);
      data[start + size] := 0;
      ResolveKept(values, texts, number, cursor, before, data[..]);
      SameParts(before, length, orig, cursor, start, size);
      assert data[start..start + size] == before[start..start + size];
    }
  }

  /** The part behind the cursor is as it was. */
  lemma SameParts(data: seq<byte>, length: nat, orig: seq<byte>, cursor: nat, at: nat, size: nat)
    requires cursor <= at && at + size <= length == |orig| <= |data| && data[cursor..length] == orig[cursor..]
    ensures data[at..at + size] == orig[at..at + size] && data[at + size..length] == orig[at + size..]
  {
    forall i | cursor <= i < length
      ensures data[i] == orig[i]
    {
      assert data[i] == data[cursor..length][i - cursor] && orig[i] == orig[cursor..][i - cursor];
    }
  }

  lemma NothingFound(data: seq<byte>, cursor: nat)
    ensures Resolve(map[], map[], data) == map[] && Laid(map[], 0, cursor)
  {
    assert TextsOf(map[], data) == map[];
  }

  lemma ParseOnce(data: seq<byte>, at: nat, number: nat, options: Options, rest: ChunkSize)
    requires at < |data|
    ensures data[at] / 16 == 15 ==> ParseOptions(data, at, number, options, rest) == Fields(options, Payload(data, at + 1, rest))
    ensures data[at] / 16 != 15 ==>
              var (delta, at1) := ReadExtended(data, data[at] / 16, at + 1);
              var (length, value) := ReadExtended(data, data[at] % 16, at1);
              var n := number + delta;
              ParseOptions(data, at, number, options, rest) ==
                if value + length > |data| || n > COAP_OPTION_SIZE1 then Failed(BAD_REQUEST_4_00)
                else if KindOf(n) == Proxy then Failed(PROXYING_NOT_SUPPORTED_5_05)
                else if KindOf(n) == Unknown && n % 2 == 1 then Failed(BAD_OPTION_4_02)
                else ParseOptions(data, value + length, n, Update(options, n, data[value..value + length]), rest)
  {
    hide Update, KindOf, ReadExtended;
  }

  lemma MovedUp(before: seq<byte>, end: nat, separator: byte, at: nat, size: nat, data: seq<byte>)
    requires end < at && at + size <= |before| == |data| && data[..end] == before[..end] && data[end] == separator
    requires data[end + 1..end + 1 + size] == before[at..at + size] && data[end + 1 + size..] == before[end + 1 + size..]
    ensures data == before[..end] + [separator] + before[at..at + size] + before[end + 1 + size..]
  {
    assert data == data[..end] + [data[end]] + data[end + 1..end + 1 + size] + data[end + 1 + size..];
  }

  lemma ParseEnd(data: seq<byte>, at: nat, number: nat, options: Options, rest: ChunkSize)
    requires at >= |data|
    ensures ParseOptions(data, at, number, options, rest) == Fields(options, [])
  {
  }

  lemma SameBytes(data: seq<byte>, orig: seq<byte>, from: nat)
    requires from <= |data| == |orig| && data[from..] == orig[from..]
    ensures forall i | from <= i :: At(data, i) == At(orig, i)
    ensures forall nibble: nat, at: nat | from <= at :: ReadExtended(data, nibble, at) == ReadExtended(orig, nibble, at)
  {
    forall i | from <= i < |data|
      ensures data[i] == orig[i]
    {
      assert data[i] == data[from..][i - from];
    }
  }
}
