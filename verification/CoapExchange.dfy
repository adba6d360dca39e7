/** An exchange of the block-wise transfer as it goes over the network: the request and the response are
    serialized into datagrams and parsed at the other end. */
module CoapExchange {
  import opened Basics
  import opened Block2
  import opened Coap
  import opened CoapMessage

  const COAP_OPTION_BLOCK2 := 23

  /** The packet with a Block2 option, if one is given. */
  function WithBlock(p: Packet, block: Option<Block>): Packet {
    if block.None? then p else p.(options := p.options[COAP_OPTION_BLOCK2 := BlockValue(block.value)])
  }

  function BlockOf(p: Packet): Option<Block> {
    if COAP_OPTION_BLOCK2 in p.options && p.options[COAP_OPTION_BLOCK2].BlockValue? then Some(p.options[COAP_OPTION_BLOCK2].block)
    else None
  }

  /** The option of the client's request for a block. */
  function AskedFor(rest: ChunkSize, num: nat): Option<Block> {
    if num == 0 then None else Some(Block(num, false, rest))
  }

  predicate Encodable(block: Option<Block>) {
    block.Some? ==> block.value.num <= MAX_BLOCK_NUM && 16 <= block.value.size <= 2048
  }

  /** The value of the option as the server sees it. */
  function Seen(block: Option<Block>): Option<uint32> {
    if block.None? || !Encodable(block) then None else (BlockRoundTrip(block.value); Some(EncodeBlock(block.value)))
  }

  /** The packet in which the server puts its answer. */
  function Answer(p: Packet, r: Response): Packet {
    WithBlock(p.(code := r.code, payload := r.payload), r.block)
  }

  function ReadAnswer(p: Packet): Response {
    Response(p.code, BlockOf(p), p.payload)
  }

  /** A packet that can be sent: its header is not too long. */
  predicate Sendable(p: Packet, rest: ChunkSize) {
    Proper(p, rest) && Serialize(p, rest).Some?
  }

  /** What arrives of a packet that is sent as a datagram. */
  function Arrives(p: Packet, rest: ChunkSize): Option<Packet> {
    if !Sendable(p, rest) then None
    else
      var parsed := Parse(Serialize(p, rest).value, rest);
      if parsed.Ok? then Some(parsed.packet) else None
  }

  /** The server's answer to a request. */
  function Served(rep: Representation, rest: ChunkSize, request: Packet): Response {
    Receive(Aware(rep), rest, Seen(BlockOf(request)))
  }

  /** The Block2 option arrives with its number and flag, and with the size that both sides count on. */
  lemma BlockArrives(p: Packet, rest: ChunkSize, block: Option<Block>)
    requires COAP_OPTION_BLOCK2 !in p.options && p.code != 0 && Encodable(block) && Sendable(WithBlock(p, block), rest)
    ensures var q := Arrives(WithBlock(p, block), rest);
            && q.Some? && q.value.code == p.code && q.value.payload == p.payload
            && BlockOf(q.value) == if block.None? then None else Some(block.value.(size := MaxBlockSize(block.value.size)))
  {
    hide Serialize, Parse, MaxBlockSize;
    ParseUndoesSerialize(WithBlock(p, block), rest);
  }

  lemma SizeIsBlockSize(rest: ChunkSize)
    ensures MaxBlockSize(MaxBlockSize(rest)) == MaxBlockSize(rest)
  {
  }

  /** The server answers by number and block size, and its answer fits a packet. */
  lemma ServedAlike(rep: Representation, rest: ChunkSize, num: nat)
    requires num <= MAX_BLOCK_NUM && (num == 0 || num * MaxBlockSize(rest) < |rep|)
    ensures var asked := if num == 0 then None else Some(Block(num, false, MaxBlockSize(rest)));
            Receive(Aware(rep), rest, Seen(asked)) == Receive(Aware(rep), rest, Request(rest, num))
    ensures var r := Receive(Aware(rep), rest, Request(rest, num));
            && r.code == CONTENT_2_05 && |r.payload| <= rest && r.block.Some? && Encodable(r.block)
            && r.block.value.size == MaxBlockSize(rest)
  {
    hide Receive, Chunk, MaxBlockSize, DecodeBlock, EncodeBlock;
    ServerAnswers(rep, rest, num);
    ChunkFits(rep, MaxBlockSize(rest), num);
    SizeIsBlockSize(rest);
    BlockSizeFits(rest);
    if num > 0 {
      BlockRoundTrip(Block(num, false, rest));
      BlockRoundTrip(Block(num, false, MaxBlockSize(rest)));
      SameReceived(Aware(rep), rest, EncodeBlock(Block(num, false, rest)), EncodeBlock(Block(num, false, MaxBlockSize(rest))));
    }
  }

  lemma ChunkFits(rep: seq<byte>, size: nat, num: nat)
    requires num * size <= |rep|
    ensures |Chunk(rep, size, num)| <= size
  {
  }

  lemma BlockSizeFits(rest: ChunkSize)
    ensures MaxBlockSize(rest) <= rest
  {
  }

  lemma SameReceived(r: Resource, rest: ChunkSize, a: uint32, b: uint32)
    requires DecodeBlock(a) == DecodeBlock(b)
    ensures Receive(r, rest, Some(a)) == Receive(r, rest, Some(b))
  {
    hide DecodeBlock;
  }

  /** A request for a block and its answer, each sent as a datagram, give what the blocking client
      counts on. */
  lemma ExchangeOverDatagrams(rep: Representation, rest: ChunkSize, num: nat, request: Packet, response: Packet)
    requires num <= MAX_BLOCK_NUM && (num == 0 || num * MaxBlockSize(rest) < |rep|)
    requires COAP_OPTION_BLOCK2 !in request.options && request.code != 0 && COAP_OPTION_BLOCK2 !in response.options
    requires Sendable(WithBlock(request, AskedFor(rest, num)), rest)
    requires Sendable(Answer(response, Receive(Aware(rep), rest, Request(rest, num))), rest)
    ensures var asked := Arrives(WithBlock(request, AskedFor(rest, num)), rest);
            && asked.Some? && Served(rep, rest, asked.value) == Receive(Aware(rep), rest, Request(rest, num))
            && var answer := Arrives(Answer(response, Served(rep, rest, asked.value)), rest);
               answer.Some? && ReadAnswer(answer.value) == Served(rep, rest, asked.value)
  {
    hide Serialize, Parse, Receive, MaxBlockSize, Request, EncodeBlock, Arrives, Sendable;
    var r := Receive(Aware(rep), rest, Request(rest, num));
    ServedAlike(rep, rest, num);
    BlockArrives(request, rest, AskedFor(rest, num));
    SizeIsBlockSize(rest);
    BlockArrives(response.(code := r.code, payload := r.payload), rest, r.block);
  }
}
