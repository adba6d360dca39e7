/** Block-wise transfer of a representation (RFC 7959) between the server side of
    apps/er-coap/er-coap-engine.c and its blocking client, for any REST_MAX_CHUNK_SIZE from 16 to
    2048. */
module Block2 {
  import opened Basics

  type ChunkSize = n: nat | 16 <= n <= 2048 witness 16

  const COAP_MAX_ATTEMPTS := 4
  const MAX_BLOCK_NUM := 0xf_ffff

  // Response codes
  const CONTENT_2_05 := 69
  const BAD_OPTION_4_02 := 130
  const SERVICE_UNAVAILABLE_5_03 := 163

  /** COAP_MAX_BLOCK_SIZE for a value of REST_MAX_CHUNK_SIZE */
  function MaxBlockSize(rest: ChunkSize): ChunkSize {
    if rest < 32 then 16
    else if rest < 64 then 32
    else if rest < 128 then 64
    else if rest < 256 then 128
    else if rest < 512 then 256
    else if rest < 1024 then 512
    else if rest < 2048 then 1024
    else 2048
  }

  // ----- The option value -----

  function Log2(value: nat): (n: nat)
    ensures value > 0 ==> Pow2(n) <= value < 2 * Pow2(n)
  {
    if value < 2 then 0 else 1 + Log2(value / 2)
  }

  /** coap_log_2 */
  method CoapLog2(value: uint16) returns (result: nat)
    ensures result == Log2(value)
  {
    var rest: nat := value;
    result := 0;
    var more := true;
    while more
      invariant result + (if more then 1 + Log2(rest) else 0) == 1 + Log2(value)
      invariant !more ==> rest == 0
      decreases more, rest
    {
      rest := rest / 2;
      result := result + 1;
      more := rest != 0;
    }
    // The loop has run once at least, so the result is not zero.
    result := result - 1;
  }

  /** The Block2 fields of a packet. */
  datatype Block = Block(num: nat, more: bool, size: nat)

  /** COAP_SERIALIZE_BLOCK_OPTION: the number in the high bits, one bit for more, and the exponent
      of the size in the low three bits. */
  function EncodeBlock(b: Block): nat
    requires b.num <= MAX_BLOCK_NUM && 16 <= b.size <= 2048
  {
    b.num * 16 + (if b.more then 8 else 0) + Log2(b.size / 16) % 16
  }

  /** What coap_parse_message makes of an option value of 32 bits: the block and its offset. */
  function DecodeBlock(value: uint32): (r: (Block, nat))
    ensures r.1 < 0x1_0000_0000
  {
    var exponent := value % 8;
    (Block(value / 16, value / 8 % 2 == 1, 16 * Pow2(exponent)), (value / 16 * 16 * Pow2(exponent)) % 0x1_0000_0000)
  }

  lemma Powers()
    ensures Pow2(0) == 1 && Pow2(1) == 2 && Pow2(2) == 4 && Pow2(3) == 8
    ensures Pow2(4) == 16 && Pow2(5) == 32 && Pow2(6) == 64 && Pow2(7) == 128 && Pow2(8) == 256
  {
    assert Pow2(3) == 2 * Pow2(2);
    assert Pow2(5) == 2 * Pow2(4);
    assert Pow2(7) == 2 * Pow2(6);
  }

  /** The exponent of a size is that of the largest block size not above it. */
  lemma SizeExponent(size: ChunkSize)
    ensures Log2(size / 16) < 8 && 16 * Pow2(Log2(size / 16)) == MaxBlockSize(size)
  {
    Powers();
    var n := Log2(size / 16);
    if n >= 8 {
      PowersGrow(8, n);
    } else if n >= 4 {
      assert n == 4 || n == 5 || n == 6 || n == 7;
    } else {
      assert n == 0 || n == 1 || n == 2 || n == 3;
    }
  }

  lemma {:induction false} PowersGrow(a: nat, b: nat)
    requires a <= b
    ensures Pow2(a) <= Pow2(b)
  {
    if a < b {
      PowersGrow(a, b - 1);
    }
  }

  /** A block option comes back with its number and flag, and with a size that both sides take for
      the block size, whatever chunk size was given. */
  lemma BlockRoundTrip(b: Block)
    requires b.num <= MAX_BLOCK_NUM && 16 <= b.size <= 2048
    ensures EncodeBlock(b) < 0x100_0000
    ensures DecodeBlock(EncodeBlock(b)) == (b.(size := MaxBlockSize(b.size)), b.num * MaxBlockSize(b.size))
  {
    hide Pow2, Log2, MaxBlockSize, DecodeBlock, EncodeBlock;
    SizeExponent(b.size);
    Encoded(b);
    var exponent, value, size := Log2(b.size / 16), EncodeBlock(b), MaxBlockSize(b.size);
    Decoded(value, b.num, b.more, exponent);
    Times(b.num, 16, Pow2(exponent));
    SmallOffset(b.num, size);
  }

  lemma Encoded(b: Block)
    requires b.num <= MAX_BLOCK_NUM && 16 <= b.size <= 2048
    ensures var value := EncodeBlock(b);
            && value < 0x100_0000 && value / 16 == b.num && value % 8 == Log2(b.size / 16)
            && (value / 8 % 2 == 1 <==> b.more)
  {
    hide Pow2, Log2, MaxBlockSize;
    SizeExponent(b.size);
    Fields(b.num, if b.more then 8 else 0, Log2(b.size / 16));
  }

  lemma Decoded(value: uint32, num: nat, more: bool, exponent: nat)
    requires value / 16 == num && value % 8 == exponent && (value / 8 % 2 == 1 <==> more)
    ensures DecodeBlock(value) == (Block(num, more, 16 * Pow2(exponent)), (num * 16 * Pow2(exponent)) % 0x1_0000_0000)
  {
    hide Pow2;
  }

  lemma SmallOffset(num: nat, size: nat)
    requires num <= MAX_BLOCK_NUM && size <= 2048
    ensures num * size % 0x1_0000_0000 == num * size
  {
    Product(num, size, MAX_BLOCK_NUM, 2048);
    SmallRest(num * size);
  }

  lemma SmallRest(offset: nat)
    requires offset < 0x1_0000_0000
    ensures offset % 0x1_0000_0000 == offset
  {
  }

  lemma Fields(num: nat, more: nat, exponent: nat)
    requires (more == 0 || more == 8) && exponent < 8
    ensures var value := num * 16 + more + exponent % 16;
            value / 16 == num && value % 8 == exponent && (value / 8 % 2 == 1 <==> more == 8)
  {
  }

  lemma Times(a: nat, b: nat, c: nat)
    ensures a * b * c == a * (b * c)
  {
  }

  lemma Product(a: nat, b: nat, c: nat, d: nat)
    requires a <= c && b <= d
    ensures a * b <= c * d
  {
    calc {
      a * b;
    <=
      a * d;
    <=
      c * d;
    }
  }

  // ----- The server -----

  /** A resource and its representation: one that knows about offsets, or one that puts its whole
      representation into the payload. */
  datatype Resource = Aware(rep: seq<byte>) | Unaware(rep: seq<byte>)

  type Representation = r: seq<byte> | |r| < 0x8000_0000 witness []

  datatype Response = Response(code: byte, block: Option<Block>, payload: seq<byte>)

  // "BlockOutOfScope" and "NoFreeTraBuffer"
  const BLOCK_OUT_OF_SCOPE: seq<byte> := [66, 108, 111, 99, 107, 79, 117, 116, 79, 102, 83, 99, 111, 112, 101]
  const NO_FREE_TRA_BUFFER: seq<byte> := [78, 111, 70, 114, 101, 101, 84, 114, 97, 66, 117, 102, 102, 101, 114]

  predicate IsAscii(text: string) {
    forall i | 0 <= i < |text| :: text[i] < '\U{80}'
  }

  function Ascii(text: string): seq<byte>
    requires IsAscii(text)
  {
    seq(|text|, i requires 0 <= i < |text| => text[i] as int)
  }

  lemma ErrorTexts()
    ensures IsAscii("BlockOutOfScope") && Ascii("BlockOutOfScope") == BLOCK_OUT_OF_SCOPE
    ensures IsAscii("NoFreeTraBuffer") && Ascii("NoFreeTraBuffer") == NO_FREE_TRA_BUFFER
  {
  }

  /** What the handler of a resource does with the offset and the size it is offered. The offset
      that comes back is -1 after the last chunk, and unchanged if the resource ignores it. */
  function Handle(r: Resource, rest: ChunkSize, offset: nat, size: nat): (result: (Response, int)) {
    match r
    case Aware(rep) =>
      if offset > 0 && offset >= |rep| then (Response(BAD_OPTION_4_02, None, BLOCK_OUT_OF_SCOPE), offset)
      else
        var end := Min(offset + Min(size, rest), |rep|);
        (Response(CONTENT_2_05, None, rep[offset..end]), if offset + size >= |rep| then -1 else offset + size)
    case Unaware(rep) => (Response(CONTENT_2_05, None, rep[..Min(|rep|, rest)]), offset)
  }

  /** coap_set_header_block2 leaves the packet alone if the number is too large. */
  function SetBlock(before: Option<Block>, b: Block): Option<Block> {
    if b.size < 16 || b.size > 2048 || b.num > MAX_BLOCK_NUM then before else Some(b)
  }

  /** coap_receive for a GET, from the value of its Block2 option on. */
  function Receive(r: Resource, rest: ChunkSize, option: Option<uint32>): Response {
    var block := if option.Some? then Some(DecodeBlock(option.value)) else None;
    var max := MaxBlockSize(rest);
    var size := if block.Some? then Min(block.value.0.size, max) else max;
    var offset := if block.Some? then block.value.1 else 0;
    var (response, newOffset) := Handle(r, rest, offset, size);
    if block.Some? then
      var num := block.value.0.num;
      if newOffset == offset then
        if offset >= |response.payload| then Response(BAD_OPTION_4_02, None, BLOCK_OUT_OF_SCOPE)
        else
          var left := |response.payload| - offset;
          Response(response.code, SetBlock(None, Block(num, left > size, size)), response.payload[offset..offset + Min(left, size)])
      else
        Response(response.code,
                 SetBlock(None, Block(num, newOffset != -1 || |response.payload| > size, size)),
                 response.payload[..Min(|response.payload|, size)])
    else if newOffset != 0 then
      Response(response.code, SetBlock(None, Block(0, newOffset != -1, max)), response.payload[..Min(|response.payload|, max)])
    else response
  }

  // ----- What one exchange gives -----

  function Chunk(rep: seq<byte>, size: nat, num: nat): seq<byte>
    requires num * size <= |rep|
  {
    rep[num * size..Min(num * size + size, |rep|)]
  }

  /** The request for a block as the client makes it: none for the first one, and REST_MAX_CHUNK_SIZE
      as the size of all others. */
  function Request(rest: ChunkSize, num: nat): Option<uint32>
    requires num <= MAX_BLOCK_NUM
    ensures Request(rest, num).Some? <==> num > 0
  {
    BlockRoundTrip(Block(num, false, rest));
    if num == 0 then None else Some(EncodeBlock(Block(num, false, rest)))
  }

  /** The server answers the request for a block with just that part of the representation, and with
      the block size on which the client has counted. */
  lemma ServerAnswers(rep: Representation, rest: ChunkSize, num: nat)
    requires num <= MAX_BLOCK_NUM && (num == 0 || num * MaxBlockSize(rest) < |rep|)
    ensures var size := MaxBlockSize(rest);
            Receive(Aware(rep), rest, Request(rest, num)) ==
              Response(CONTENT_2_05, Some(Block(num, (num + 1) * size < |rep|, size)), Chunk(rep, size, num))
  {
    var size := MaxBlockSize(rest);
    BlockRoundTrip(Block(num, false, rest));
    assert (num + 1) * size == num * size + size;
  }

  /** The sizes that the three low bits of the option stand for. */
  const BLOCK_SIZES: seq<nat> := [16, 32, 64, 128, 256, 512, 1024, 2048]

  /** Whatever block a client asks for and of whatever size, the server answers with the part of the
      representation there, with 2.05, the number it was asked for, and a size that is not larger; behind
      the end it answers with 4.02. The offset has 32 bits. */
  lemma AnsweredByOption(rep: Representation, rest: ChunkSize, value: uint32)
    ensures var num, asked := value / 16, BLOCK_SIZES[value % 8];
            var size, offset := Min(asked, MaxBlockSize(rest)), num * asked % 0x1_0000_0000;
            Receive(Aware(rep), rest, Some(value)) ==
              if 0 < offset && |rep| <= offset then Response(130, None, Ascii("BlockOutOfScope"))
              else Response(69, if num < 0x10_0000 then Some(Block(num, offset + size < |rep|, size)) else None,
                            rep[offset..Min(offset + size, |rep|)])
  {
    hide DecodeBlock, MaxBlockSize;
    ErrorTexts();
    SizeFits(rest);
    DecodedAsked(value);
    var num, asked := value / 16, BLOCK_SIZES[value % 8];
    PartOffset(num, asked);
    var size, offset := Min(asked, MaxBlockSize(rest)), num * asked % 0x1_0000_0000;
    if offset == 0 || offset < |rep| {
      var part := rep[offset..Min(offset + size, |rep|)];
      assert Min(|part|, size) == |part| && part[..|part|] == part;
    }
  }

  lemma SizeFits(rest: ChunkSize)
    ensures MaxBlockSize(rest) <= rest
  {
  }

  lemma DecodedAsked(value: uint32)
    ensures var num, asked := value / 16, BLOCK_SIZES[value % 8];
            DecodeBlock(value) == (Block(num, value / 8 % 2 == 1, asked), num * asked % 0x1_0000_0000) && 16 <= asked <= 2048
  {
    Powers();
    var num, asked := value / 16, BLOCK_SIZES[value % 8];
    Decoded(value, num, value / 8 % 2 == 1, value % 8);
    Times(num, 16, Pow2(value % 8));
  }

  /** An offset is zero or at least the size. */
  lemma PartOffset(num: nat, asked: nat)
    requires asked in BLOCK_SIZES
    ensures num * asked % 0x1_0000_0000 == 0 || num * asked % 0x1_0000_0000 >= 16
  {
    var k := asked / 16;
    assert asked == 16 * k;
    assert num * asked == 16 * (num * k);
  }

  // ----- The client -----

  /** What becomes of a request: the server answers it, has no transaction left and answers with an
      error, or is not heard of until the transaction has timed out; or the client has none left. */
  datatype Fate = Answered | Busy | Unheard | NotSent

  datatype End = Complete | NotResponding | WrongBlocks | NoTransaction

  function Flatten(chunks: seq<seq<byte>>): seq<byte> {
    if chunks == [] then [] else Flatten(chunks[..|chunks| - 1]) + chunks[|chunks| - 1]
  }

  /** The number of chunks; an empty representation has one as well. */
  function Blocks(rep: seq<byte>, size: nat): nat
    requires size > 0
  {
    if rep == [] then 1 else (|rep| + size - 1) / size
  }

  function BusyCount(fate: nat -> Fate, n: nat): nat {
    if n == 0 then 0 else BusyCount(fate, n - 1) + if fate(n - 1) == Busy then 1 else 0
  }

  /** The chunks are the blocks of the representation from the first one on, each of them once. */
  predicate InOrder(chunks: seq<seq<byte>>, rep: seq<byte>, size: nat) {
    forall k | 0 <= k < |chunks| :: k * size <= |rep| && chunks[k] == Chunk(rep, size, k)
  }

  lemma {:induction false} FlattenInOrder(chunks: seq<seq<byte>>, rep: seq<byte>, size: nat)
    requires InOrder(chunks, rep, size)
    ensures Flatten(chunks) == rep[..Min(|chunks| * size, |rep|)]
  {
    if chunks != [] {
      var n := |chunks| - 1;
      InOrderParts(chunks, rep, size);
      FlattenInOrder(chunks[..n], rep, size);
    }
  }

  lemma InOrderParts(chunks: seq<seq<byte>>, rep: seq<byte>, size: nat)
    requires InOrder(chunks, rep, size) && chunks != []
    ensures var n := |chunks| - 1;
            && InOrder(chunks[..n], rep, size)
            && rep[..Min(n * size, |rep|)] + chunks[n] == rep[..Min(|chunks| * size, |rep|)]
  {
    var n := |chunks| - 1;
    assert chunks[n] == Chunk(rep, size, n);
    assert |chunks| * size == n * size + size;
  }

  lemma InOrderMore(chunks: seq<seq<byte>>, rep: seq<byte>, size: nat, chunk: seq<byte>)
    requires InOrder(chunks, rep, size) && |chunks| * size <= |rep| && chunk == Chunk(rep, size, |chunks|)
    ensures InOrder(chunks + [chunk], rep, size)
  {
  }

  /** Rounding up. */
  lemma Ceiling(total: nat, size: nat)
    requires size > 0 && total > 0
    ensures var m := (total + size - 1) / size;
            m > 0 && m * size >= total && (m - 1) * size < total
  {
    var x := total + size - 1;
    var m := x / size;
    assert x == m * size + x % size;
    Less(m, size);
  }

  lemma Less(m: int, size: int)
    ensures (m - 1) * size == m * size - size
  {
  }

  lemma BlocksReach(rep: seq<byte>, size: nat, n: nat)
    requires size > 0 && n > 0 && (n == 1 || (n - 1) * size < |rep|)
    ensures n * size >= |rep| <==> n == Blocks(rep, size)
    ensures n <= Blocks(rep, size)
  {
    var m := Blocks(rep, size);
    if rep != [] {
      Ceiling(|rep|, size);
      if n < m {
        Product(n, size, m - 1, size);
      } else if m < n {
        Product(m, size, n - 1, size);
      }
    }
  }

  /** Where the client stands after n blocks; `option` is the one in its last request. */
  ghost predicate Fetched(rep: Representation, rest: ChunkSize, n: nat, resBlock: nat, more: bool, option: Option<uint32>, chunks: seq<seq<byte>>)
  {
    var size := MaxBlockSize(rest);
    && InOrder(chunks, rep, size) && |chunks| == n <= MAX_BLOCK_NUM + 1
    && if n == 0 then resBlock == 0 && !more && option == None
       else
         && more == (n * size < |rep|) && resBlock == n - 1 && (n == 1 || resBlock * size < |rep|)
         && (n > MAX_BLOCK_NUM ==> option == Request(rest, MAX_BLOCK_NUM))
  }

  /** The next request, and what an answer to it brings. */
  function NextOption(rest: ChunkSize, n: nat, option: Option<uint32>): Option<uint32> {
    if 0 < n <= MAX_BLOCK_NUM then Request(rest, n) else option
  }

  lemma FetchNext(rep: Representation, rest: ChunkSize, n: nat, resBlock: nat, more: bool, option: Option<uint32>, chunks: seq<seq<byte>>)
    requires Fetched(rep, rest, n, resBlock, more, option, chunks) && (n == 0 || more)
    ensures var option' := NextOption(rest, n, option);
            var r := Receive(Aware(rep), rest, option');
            && r.block.Some?
            && (n <= MAX_BLOCK_NUM ==>
                  r.block.value.num == n && Fetched(rep, rest, n + 1, n, r.block.value.more, option', chunks + [r.payload]))
            && (n > MAX_BLOCK_NUM ==>
                  r.block.value.num == resBlock != n && Fetched(rep, rest, n, resBlock, r.block.value.more, option', chunks) && r.block.value.more)
            && (n > 0 ==> Fetched(rep, rest, n, resBlock, more, option', chunks))
  {
    hide MaxBlockSize, Receive, Chunk, InOrder;
    var asked := Min(n, MAX_BLOCK_NUM);
    ServerAnswers(rep, rest, asked);
    if n <= MAX_BLOCK_NUM {
      InOrderMore(chunks, rep, MaxBlockSize(rest), Receive(Aware(rep), rest, NextOption(rest, n, option)).payload);
    }
  }

  lemma FetchBounds(rep: Representation, rest: ChunkSize, n: nat, resBlock: nat, more: bool, option: Option<uint32>, chunks: seq<seq<byte>>)
    requires Fetched(rep, rest, n, resBlock, more, option, chunks)
    ensures InOrder(chunks, rep, MaxBlockSize(rest)) && |chunks| <= Blocks(rep, MaxBlockSize(rest))
    ensures more ==> |chunks| < Blocks(rep, MaxBlockSize(rest)) && n <= |rep|
    ensures !more && n > 0 ==> |chunks| == Blocks(rep, MaxBlockSize(rest)) && Flatten(chunks) == rep
    ensures n == 0 ==> |chunks| < Blocks(rep, MaxBlockSize(rest)) && chunks == [] && resBlock == 0 && !more
    ensures n > 0 ==> resBlock == n - 1
  {
    hide InOrder, Blocks;
    var size := MaxBlockSize(rest);
    if n > 0 {
      BlocksReach(rep, size, n);
      FlattenInOrder(chunks, rep, size);
    } else {
      BlocksReach(rep, size, 1);
    }
    if more {
      Product(n, 1, n, size);
    }
  }

  /** coap_blocking_request with a resource that knows blocks. The chunks are passed on in order and
      once each; if every request is answered the transfer ends with the whole representation,
      unless that has more blocks than a block number can count. But if the server is busy when the
      first request comes, its error message is passed on as the only chunk. */
  method BlockingRequest(rep: Representation, rest: ChunkSize, fate: nat -> Fate)
    returns (chunks: seq<seq<byte>>, end: End, attempts: nat)
    ensures attempts > 0
    ensures fate(0) == Busy ==> chunks == [Ascii("NoFreeTraBuffer")] && end == Complete && attempts == 1
    ensures fate(0) != Busy ==>
              && InOrder(chunks, rep, MaxBlockSize(rest)) && |chunks| <= Blocks(rep, MaxBlockSize(rest))
              && (end == Complete <==> |chunks| == Blocks(rep, MaxBlockSize(rest)))
              && (end == Complete ==> Flatten(chunks) == rep && |chunks| <= 0x10_0000)
    ensures end == NotResponding ==> fate(attempts - 1) == Unheard
    ensures end == NoTransaction ==> fate(attempts - 1) == NotSent
    ensures end == WrongBlocks ==>
              BusyCount(fate, attempts) == 4 || |chunks| == 0x10_0000 < Blocks(rep, MaxBlockSize(rest))
  {
    hide Fetched, Receive, Request, Blocks, Flatten, InOrder, EncodeBlock;
    var blockNum: nat, resBlock: nat, more, errors := 0, 0, false, 0;
    var option: Option<uint32> := None;
    chunks, attempts, end := [], 0, Complete;
    FetchNothing(rep, rest);
    ErrorTexts();
    var again := true;
    while again
      invariant fate(0) == Busy && attempts > 0 ==> chunks == [NO_FREE_TRA_BUFFER] && attempts == 1 && !more && !again
      invariant fate(0) != Busy || attempts == 0 ==>
                  && Fetched(rep, rest, blockNum, resBlock, more, option, chunks) && |chunks| == blockNum <= MAX_BLOCK_NUM + 1
                  && (blockNum <= MAX_BLOCK_NUM || !more ==> BusyCount(fate, attempts) == errors)
      invariant blockNum == 0 <==> attempts == 0
      invariant again <==> blockNum == 0 || (more && errors < COAP_MAX_ATTEMPTS)
      invariant errors <= COAP_MAX_ATTEMPTS && (blockNum == 0 ==> errors == 0)
      decreases again, |rep| + 1 - blockNum, COAP_MAX_ATTEMPTS - errors
    {
      FetchBounds(rep, rest, blockNum, resBlock, more, option, chunks);
      FetchNext(rep, rest, blockNum, resBlock, more, option, chunks);
      attempts := attempts + 1;
      if fate(attempts - 1) == NotSent {
        return chunks, NoTransaction, attempts;
      }
      if 0 < blockNum <= MAX_BLOCK_NUM {
        RequestIsBlock(rest, blockNum);
        option := Some(EncodeBlock(Block(blockNum, false, rest)));
      }
      if fate(attempts - 1) == Unheard {
        return chunks, NotResponding, attempts;
      }
      var response := if fate(attempts - 1) == Busy then Response(SERVICE_UNAVAILABLE_5_03, None, NO_FREE_TRA_BUFFER)
                      else Receive(Aware(rep), rest, option);
      if response.block.Some? {
        resBlock, more := response.block.value.num, response.block.value.more;
      }
      if resBlock == blockNum {
        chunks := chunks + [response.payload];
        blockNum := blockNum + 1;
      } else {
        errors := errors + 1;
      }
      again := more && errors < COAP_MAX_ATTEMPTS;
    }
    if fate(0) != Busy {
      FetchBounds(rep, rest, blockNum, resBlock, more, option, chunks);
    }
    end := if more then WrongBlocks else Complete;
  }

  lemma FetchNothing(rep: Representation, rest: ChunkSize)
    ensures Fetched(rep, rest, 0, 0, false, None, [])
  {
  }

  lemma RequestIsBlock(rest: ChunkSize, num: nat)
    requires 0 < num <= MAX_BLOCK_NUM
    ensures EncodeBlock(Block(num, false, rest)) < 0x100_0000
    ensures Request(rest, num) == Some(EncodeBlock(Block(num, false, rest)))
  {
    BlockRoundTrip(Block(num, false, rest));
  }

  // ----- Resources that do not know blocks -----

  /** A request without a block option to such a resource is answered with one payload of
      REST_MAX_CHUNK_SIZE at most and no sign that anything is missing: the representation arrives
      whole exactly if it is not longer than that. */
  lemma UnawareIsCut(rep: Representation, rest: ChunkSize)
    ensures var r := Receive(Unaware(rep), rest, None);
            r.block == None && r.code == CONTENT_2_05 && (r.payload == rep <==> |rep| <= rest)
  {
  }

  /** A client that asks for blocks itself gets them from such a resource too, as far as its payload
      goes. */
  lemma UnawareBlocks(rep: Representation, rest: ChunkSize, num: nat)
    requires 0 < num <= MAX_BLOCK_NUM
    ensures var size, kept := MaxBlockSize(rest), rep[..Min(|rep|, rest)];
            Receive(Unaware(rep), rest, Request(rest, num)) ==
              if num * size >= |kept| then Response(BAD_OPTION_4_02, None, BLOCK_OUT_OF_SCOPE)
              else Response(CONTENT_2_05, Some(Block(num, (num + 1) * size < |kept|, size)), Chunk(kept, size, num))
  {
    hide MaxBlockSize, EncodeBlock, DecodeBlock;
    BlockRoundTrip(Block(num, false, rest));
    assert (num + 1) * MaxBlockSize(rest) == num * MaxBlockSize(rest) + MaxBlockSize(rest);
  }
}
