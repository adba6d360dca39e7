/** SLIP framing (RFC 1055) between the tun interface and the serial line (tools/tunslip6.c). */
module Slip {
  import opened Basics

  const SLIP_END: byte := 0xc0
  const SLIP_ESC: byte := 0xdb
  const SLIP_ESC_END: byte := 0xdc
  const SLIP_ESC_ESC: byte := 0xdd
  const SLIP_ESC_XON: byte := 0xde
  const SLIP_ESC_XOFF: byte := 0xdf
  const XON: byte := 17
  const XOFF: byte := 19

  const BUFSIZE := 2000

  // ----- Encoding -----

  function EncodeByte(c: byte, xonxoff: bool): (e: seq<byte>)
    ensures 1 <= |e| <= 2
  {
    if c == SLIP_END then [SLIP_ESC, SLIP_ESC_END]
    else if c == SLIP_ESC then [SLIP_ESC, SLIP_ESC_ESC]
    else if c == XON && xonxoff then [SLIP_ESC, SLIP_ESC_XON]
    else if c == XOFF && xonxoff then [SLIP_ESC, SLIP_ESC_XOFF]
    else [c]
  }

  function EncodeBytes(p: seq<byte>, xonxoff: bool): seq<byte> {
    if p == [] then [] else EncodeBytes(p[..|p| - 1], xonxoff) + EncodeByte(p[|p| - 1], xonxoff)
  }

  function Encode(p: seq<byte>, xonxoff: bool): seq<byte> {
    EncodeBytes(p, xonxoff) + [SLIP_END]
  }

  /** A stream of packets, each with or without escapes for flow control. */
  function Stream(packets: seq<seq<byte>>, xonxoff: seq<bool>): seq<byte>
    requires |packets| == |xonxoff|
  {
    if packets == [] then []
    else
      var n := |packets| - 1;
      Stream(packets[..n], xonxoff[..n]) + Encode(packets[n], xonxoff[n])
  }

  // ----- Decoding -----

  /** The bytes of the frame so far, whether an escape has been read, and the frames completed. */
  datatype Decoder = Decoder(frame: seq<byte>, escaped: bool, frames: seq<seq<byte>>)

  function Unescape(c: byte): byte {
    if c == SLIP_ESC_END then SLIP_END
    else if c == SLIP_ESC_ESC then SLIP_ESC
    else if c == SLIP_ESC_XON then XON
    else if c == SLIP_ESC_XOFF then XOFF
    else c
  }

  /** A frame that has filled the buffer is dropped before the next byte is read. */
  function Kept(frame: seq<byte>): (kept: seq<byte>)
    ensures |kept| < BUFSIZE
  {
    if |frame| >= BUFSIZE then [] else frame
  }

  /** One byte from the line. */
  function Step(d: Decoder, c: byte): Decoder {
    if d.escaped then Decoder(Kept(d.frame + [Unescape(c)]), false, d.frames)
    else if c == SLIP_END then Decoder([], false, if d.frame == [] then d.frames else d.frames + [d.frame])
    else if c == SLIP_ESC then Decoder(d.frame, true, d.frames)
    else Decoder(Kept(d.frame + [c]), false, d.frames)
  }

  function Feed(d: Decoder, input: seq<byte>): Decoder {
    if input == [] then d else Step(Feed(d, input[..|input| - 1]), input[|input| - 1])
  }

  function FeedAll(d: Decoder, chunks: seq<seq<byte>>): Decoder {
    if chunks == [] then d else Feed(FeedAll(d, chunks[..|chunks| - 1]), chunks[|chunks| - 1])
  }

  function Concat(chunks: seq<seq<byte>>): seq<byte> {
    if chunks == [] then [] else Concat(chunks[..|chunks| - 1]) + chunks[|chunks| - 1]
  }

  lemma {:induction false} FeedBoth(d: Decoder, a: seq<byte>, b: seq<byte>)
    ensures Feed(d, a + b) == Feed(Feed(d, a), b)
    decreases |b|
  {
    if b == [] {
      assert a + b == a;
    } else {
      var n := |b| - 1;
      FeedBoth(d, a, b[..n]);
      assert (a + b)[..|a + b| - 1] == a + b[..n];
    }
  }

  /** How the input is cut into chunks does not matter. */
  lemma {:induction false} ChunksDoNotMatter(d: Decoder, chunks: seq<seq<byte>>)
    ensures FeedAll(d, chunks) == Feed(d, Concat(chunks))
  {
    if chunks != [] {
      var n := |chunks| - 1;
      ChunksDoNotMatter(d, chunks[..n]);
      FeedBoth(d, Concat(chunks[..n]), chunks[n]);
    }
  }

  /** Between frames. */
  function Between(frames: seq<seq<byte>>): Decoder {
    Decoder([], false, frames)
  }

  lemma FeedOne(d: Decoder, c: byte)
    ensures Feed(d, [c]) == Step(d, c)
  {
    assert [c][..0] == [];
  }

  lemma DecodeByte(d: Decoder, c: byte, xonxoff: bool)
    requires !d.escaped
    ensures Feed(d, EncodeByte(c, xonxoff)) == d.(frame := Kept(d.frame + [c]))
  {
    var e := EncodeByte(c, xonxoff);
    FeedOne(d, e[0]);
    if |e| == 2 {
      FeedOne(Step(d, e[0]), e[1]);
      FeedBoth(d, [e[0]], [e[1]]);
      assert e == [e[0]] + [e[1]];
    } else {
      assert e == [e[0]];
    }
  }

  /** What is left of a packet: each time the buffer is full, what it holds is dropped. */
  function Tail(p: seq<byte>): seq<byte> {
    p[|p| - |p| % BUFSIZE..]
  }

  lemma TailMore(p: seq<byte>, c: byte)
    ensures Tail(p + [c]) == Kept(Tail(p) + [c])
  {
    var n, m := |p|, |p| % BUFSIZE;
    assert (n + 1) % BUFSIZE == if m + 1 == BUFSIZE then 0 else m + 1;
    assert m + 1 < BUFSIZE ==> (p + [c])[n - m..] == p[n - m..] + [c];
  }

  lemma {:induction false} DecodeBytes(p: seq<byte>, xonxoff: bool, frames: seq<seq<byte>>)
    ensures Feed(Between(frames), EncodeBytes(p, xonxoff)) == Decoder(Tail(p), false, frames)
  {
    hide EncodeByte, Step, Feed, Tail, Kept;
    if p == [] {
      FeedNothing(Between(frames));
      TailOfNothing();
    } else {
      var n := |p| - 1;
      DecodeBytes(p[..n], xonxoff, frames);
      FeedBoth(Between(frames), EncodeBytes(p[..n], xonxoff), EncodeByte(p[n], xonxoff));
      DecodeByte(Decoder(Tail(p[..n]), false, frames), p[n], xonxoff);
      TailMore(p[..n], p[n]);
      assert p == p[..n] + [p[n]];
    }
  }

  lemma TailOfNothing()
    ensures Tail([]) == []
  {
  }

  lemma FeedNothing(d: Decoder)
    ensures Feed(d, []) == d
  {
  }

  /** The frame that a packet becomes, if there is one. */
  function FrameOf(p: seq<byte>): (frame: seq<seq<byte>>)
    ensures |frame| <= 1
  {
    if Tail(p) == [] then [] else [Tail(p)]
  }

  /** A packet is decoded into a frame of its own: the whole packet if it fits the buffer, and otherwise
      what follows the last full buffer. Nothing at all leaves no trace. */
  lemma DecodePacket(p: seq<byte>, xonxoff: bool, frames: seq<seq<byte>>)
    ensures Feed(Between(frames), Encode(p, xonxoff)) == Between(frames + FrameOf(p))
    ensures |p| < BUFSIZE <==> Tail(p) == p
  {
    hide Feed, EncodeBytes;
    DecodeBytes(p, xonxoff, frames);
    FeedBoth(Between(frames), EncodeBytes(p, xonxoff), [SLIP_END]);
    FeedOne(Decoder(Tail(p), false, frames), SLIP_END);
    assert frames + [] == frames;
  }

  function Frames(packets: seq<seq<byte>>): (frames: seq<seq<byte>>)
    ensures |frames| <= |packets|
  {
    if packets == [] then []
    else
      var n := |packets| - 1;
      Frames(packets[..n]) + FrameOf(packets[n])
  }

  lemma {:induction false} DecodeStream(packets: seq<seq<byte>>, xonxoff: seq<bool>)
    requires |packets| == |xonxoff|
    ensures Feed(Between([]), Stream(packets, xonxoff)) == Between(Frames(packets))
  {
    hide Feed, Encode, FrameOf;
    if packets == [] {
      FeedNothing(Between([]));
    } else {
      var n := |packets| - 1;
      DecodeStream(packets[..n], xonxoff[..n]);
      FeedBoth(Between([]), Stream(packets[..n], xonxoff[..n]), Encode(packets[n], xonxoff[n]));
      DecodePacket(packets[n], xonxoff[n], Frames(packets[..n]));
    }
  }

  lemma {:induction false} SameFrames(packets: seq<seq<byte>>)
    ensures Frames(packets) == packets <==> forall p <- packets :: 0 < |p| < BUFSIZE
  {
    hide FrameOf;
    if packets != [] {
      var n := |packets| - 1;
      var done, p := packets[..n], packets[n];
      assert packets == done + [p];
      SameFrames(done);
      LastFrame(Frames(done), FrameOf(p), done, p);
      FrameIsPacket(p);
      assert forall q :: q in packets <==> q in done || q == p;
    }
  }

  lemma FrameIsPacket(p: seq<byte>)
    ensures FrameOf(p) == [p] <==> 0 < |p| < BUFSIZE
  {
    assert |Tail(p)| == |p| % BUFSIZE;
    assert Tail(p) == p ==> |p| % BUFSIZE == |p|;
    assert |p| < BUFSIZE ==> Tail(p) == p;
  }

  lemma LastFrame(frames: seq<seq<byte>>, frame: seq<seq<byte>>, done: seq<seq<byte>>, p: seq<byte>)
    requires |frames| <= |done| && |frame| <= 1
    ensures frames + frame == done + [p] <==> frames == done && frame == [p]
  {
    if frames + frame == done + [p] {
      assert |frames| == |done| && frames == (frames + frame)[..|done|] == done;
      assert frame == (frames + frame)[|done|..];
    }
  }

  /** Whatever chunks the line delivers a stream in, with or without flow control escapes, it becomes
      these frames; they are the packets exactly if none is empty or fills the buffer. */
  lemma FramesAreThePackets(packets: seq<seq<byte>>, xonxoff: seq<bool>, chunks: seq<seq<byte>>)
    requires |packets| == |xonxoff| && Concat(chunks) == Stream(packets, xonxoff)
    ensures FeedAll(Between([]), chunks) == Between(Frames(packets))
    ensures Frames(packets) == packets <==> forall p <- packets :: 0 < |p| < BUFSIZE
  {
    ChunksDoNotMatter(Between([]), chunks);
    DecodeStream(packets, xonxoff);
    SameFrames(packets);
  }

  // ----- What becomes of the frames -----

  /** What becomes of a frame: a command, a line to be shown, or a packet for the tun device. */
  datatype Use = Command | DebugLine | Text | Packet

  predicate Sensible(c: byte) {
    c == 0 || c == 13 || c == 10 || c == 9 || (32 <= c <= 126)
  }

  function UseOf(frame: seq<byte>): Use {
    if frame == [] then Text
    else if frame[0] == 0x21 || frame[0] == 0x3f then Command
    else if frame[0] == 13 then DebugLine
    else if forall i | 1 <= i < |frame| :: Sensible(frame[i]) then Text
    else Packet
  }

  /** The tests of serial_to_tun on a frame. */
  method UseFrame(frame: seq<byte>) returns (use: Use)
    requires frame != []
    ensures use == UseOf(frame)
  {
    if frame[0] == 0x21 || frame[0] == 0x3f {
      return Command;
    }
    if frame[0] == 13 {
      return DebugLine;
    }
    var sensible := IsSensibleString(frame);
    return if sensible then Text else Packet;
  }

  /** is_sensible_string does not look at the first byte. */
  method IsSensibleString(s: seq<byte>) returns (sensible: bool)
    requires s != []
    ensures s[0] !in {0x21, 0x3f, 13} ==> (sensible <==> UseOf(s) == Text)
  {
    for i := 1 to |s|
      invariant forall k | 1 <= k < i :: Sensible(s[k])
    {
      if !Sensible(s[i]) {
        return false;
      }
    }
    return true;
  }

  /** The frames with the given use, in order. */
  function Used(frames: seq<seq<byte>>, use: Use): (r: seq<seq<byte>>)
    ensures |r| <= |frames|
  {
    if frames == [] then []
    else
      var n := |frames| - 1;
      Used(frames[..n], use) + if UseOf(frames[n]) == use then [frames[n]] else []
  }

  /** What is printed: debug lines without their marker, and at verbosity 1 text as it is. */
  function Printed(frames: seq<seq<byte>>, verbose: bool): seq<seq<byte>> {
    if frames == [] then []
    else
      var n := |frames| - 1;
      var frame := frames[n];
      Printed(frames[..n], verbose) +
      match UseOf(frame)
      case DebugLine => [frame[1..]]
      case Text => if verbose then [frame] else []
      case _ => []
  }

  lemma UsedMore(frames: seq<seq<byte>>, frame: seq<byte>, use: Use)
    ensures Used(frames + [frame], use) == Used(frames, use) + if UseOf(frame) == use then [frame] else []
  {
    assert (frames + [frame])[..|frames|] == frames;
  }

  lemma PrintedMore(frames: seq<seq<byte>>, frame: seq<byte>, verbose: bool)
    requires frame != []
    ensures Printed(frames + [frame], verbose) ==
              Printed(frames, verbose) + if UseOf(frame) == DebugLine then [frame[1..]]
                                         else if UseOf(frame) == Text && verbose then [frame] else []
  {
    assert (frames + [frame])[..|frames|] == frames;
    assert Printed(frames, verbose) + [] == Printed(frames, verbose);
  }

  lemma {:induction false} UsedAll(frames: seq<seq<byte>>, use: Use)
    ensures Used(frames, use) == frames <==> forall f <- frames :: UseOf(f) == use
  {
    hide UseOf;
    if frames != [] {
      var n := |frames| - 1;
      var init, last := frames[..n], frames[n];
      assert frames == init + [last];
      UsedAll(init, use);
      LastFrame(Used(init, use), if UseOf(last) == use then [last] else [], init, last);
      assert forall f :: f in frames <==> f in init || f == last;
    }
  }

  // ----- The same by the bytes of the packets -----

  /** Nothing but printable characters, white space and zeros behind the first byte. */
  predicate LooksLikeText(p: seq<byte>) {
    forall i | 1 <= i < |p| :: p[i] in {0, 9, 10, 13} || 32 <= p[i] <= 126
  }

  /** The packet starts with '!' or '?'. */
  predicate IsCommand(p: seq<byte>) {
    p != [] && p[0] in {0x21, 0x3f}
  }

  predicate IsLine(p: seq<byte>) {
    p != [] && p[0] == 13
  }

  predicate ForTun(p: seq<byte>) {
    p != [] && p[0] !in {0x21, 0x3f, 13} && !LooksLikeText(p)
  }

  /** The packets of a kind, in order. */
  function Where(packets: seq<seq<byte>>, kind: seq<byte> -> bool): seq<seq<byte>> {
    if packets == [] then []
    else (if kind(packets[0]) then [packets[0]] else []) + Where(packets[1..], kind)
  }

  /** What is printed of the packets. */
  function Lines(packets: seq<seq<byte>>, verbose: bool): seq<seq<byte>> {
    if packets == [] then []
    else
      var p := packets[0];
      (if IsLine(p) then [p[1..]]
       else if verbose && p != [] && !IsCommand(p) && LooksLikeText(p) then [p]
       else []) + Lines(packets[1..], verbose)
  }

  lemma UseByBytes(p: seq<byte>)
    requires p != []
    ensures UseOf(p) == if IsCommand(p) then Command else if IsLine(p) then DebugLine else if ForTun(p) then Packet else Text
  {
    assert LooksLikeText(p) <==> forall i | 1 <= i < |p| :: Sensible(p[i]);
  }

  lemma {:induction false} WhereMore(packets: seq<seq<byte>>, p: seq<byte>, kind: seq<byte> -> bool)
    ensures Where(packets + [p], kind) == Where(packets, kind) + if kind(p) then [p] else []
  {
    if packets != [] {
      assert (packets + [p])[1..] == packets[1..] + [p];
      WhereMore(packets[1..], p, kind);
    }
  }

  lemma {:induction false} LinesMore(packets: seq<seq<byte>>, p: seq<byte>, verbose: bool)
    requires p != []
    ensures Lines(packets + [p], verbose) ==
              Lines(packets, verbose) + if IsLine(p) then [p[1..]]
                                        else if verbose && !IsCommand(p) && LooksLikeText(p) then [p] else []
  {
    hide IsLine, IsCommand, LooksLikeText;
    if packets != [] {
      assert (packets + [p])[1..] == packets[1..] + [p];
      LinesMore(packets[1..], p, verbose);
    }
  }

  lemma {:induction false} UsesByBytes(packets: seq<seq<byte>>, verbose: bool)
    requires forall p <- packets :: p != []
    ensures Used(packets, Packet) == Where(packets, p => ForTun(p))
    ensures Used(packets, Command) == Where(packets, p => IsCommand(p))
    ensures Printed(packets, verbose) == Lines(packets, verbose)
  {
    hide UseOf, ForTun, IsCommand, IsLine, LooksLikeText, Where, Lines;
    if packets == [] {
      NoneByBytes(verbose);
    } else {
      var n := |packets| - 1;
      var init, p := packets[..n], packets[n];
      assert packets == init + [p] && p in packets && forall q <- init :: q in packets;
      UsesByBytes(init, verbose);
      UsedMore(init, p, Packet);
      UsedMore(init, p, Command);
      PrintedMore(init, p, verbose);
      WhereMore(init, p, p => ForTun(p));
      WhereMore(init, p, p => IsCommand(p));
      LinesMore(init, p, verbose);
      UseByBytes(p);
      Exclusive(p);
    }
  }

  lemma NoneByBytes(verbose: bool)
    ensures Where([], p => ForTun(p)) == [] && Where([], p => IsCommand(p)) == [] && Lines([], verbose) == []
  {
  }

  lemma Exclusive(p: seq<byte>)
    requires p != []
    ensures ForTun(p) ==> !IsCommand(p) && !IsLine(p) && !LooksLikeText(p)
    ensures IsLine(p) ==> !IsCommand(p)
    ensures !IsCommand(p) && !IsLine(p) && !ForTun(p) ==> LooksLikeText(p)
  {
  }

  /** However a stream of packets that fit the buffer is cut: the tun device gets those packets that start
      neither like a command nor like a line and have an unprintable byte behind the first, commands are
      obeyed, and lines, and at verbosity 1 other text, are printed; all of it in order. */
  lemma PacketsAreSorted(packets: seq<seq<byte>>, xonxoff: seq<bool>, chunks: seq<seq<byte>>, verbose: bool)
    requires |packets| == |xonxoff| && Concat(chunks) == Stream(packets, xonxoff)
    requires forall p <- packets :: 0 < |p| < 2000
    ensures var frames := FeedAll(Between([]), chunks).frames;
            && Used(frames, Packet) == Where(packets, p => ForTun(p))
            && Used(frames, Command) == Where(packets, p => IsCommand(p))
            && Printed(frames, verbose) == Lines(packets, verbose)
  {
    hide FeedAll, Stream, Used, Where, Printed, Lines;
    FramesAreThePackets(packets, xonxoff, chunks);
    UsesByBytes(packets, verbose);
  }

  /** The packet is shorter than the buffer, starts with none of '!', '?' and carriage return, and has an
      unprintable byte behind that. */
  predicate ReachesTun(p: seq<byte>) {
    && 0 < |p| < 2000 && p[0] !in {0x21, 0x3f, 13}
    && exists i :: 1 <= i < |p| && p[i] !in {0, 9, 10, 13} && !(32 <= p[i] <= 126)
  }

  lemma ReachesByUse(p: seq<byte>)
    ensures ReachesTun(p) <==> 0 < |p| < BUFSIZE && UseOf(p) == Packet
  {
    if p != [] {
      UseByBytes(p);
    }
  }

  /** The tun device gets exactly the packets if and only if each of them is of this kind. */
  lemma PacketsReachTun(packets: seq<seq<byte>>, xonxoff: seq<bool>, chunks: seq<seq<byte>>)
    requires |packets| == |xonxoff| && Concat(chunks) == Stream(packets, xonxoff)
    ensures Used(FeedAll(Between([]), chunks).frames, Packet) == packets <==> forall p <- packets :: ReachesTun(p)
  {
    hide UseOf, FeedAll, Stream, ReachesTun;
    FramesAreThePackets(packets, xonxoff, chunks);
    UsedAll(Frames(packets), Packet);
    if Used(Frames(packets), Packet) == packets {
      UsedNone(Frames(packets), Packet);
    }
    forall p | p in packets
      ensures ReachesTun(p) <==> 0 < |p| < BUFSIZE && UseOf(p) == Packet
    {
      ReachesByUse(p);
    }
  }

  lemma {:induction false} UsedNone(frames: seq<seq<byte>>, use: Use)
    ensures |Used(frames, use)| == |frames| ==> Used(frames, use) == frames
  {
    hide UseOf;
    if frames != [] {
      UsedNone(frames[..|frames| - 1], use);
    }
  }

  // ----- The sender as it runs -----

  class Sender {
    const buf: array<byte>
    var begin: nat
    var end: nat
    const xonxoff: bool
    // What the serial device has accepted.
    ghost var written: seq<byte>

    constructor (xonxoff: bool)
      ensures Valid() && Output() == [] && this.xonxoff == xonxoff && fresh(buf)
    {
      buf := new byte[BUFSIZE](i => 0);
      begin, end, this.xonxoff, written := 0, 0, xonxoff, [];
    }

    ghost predicate Valid()
      reads this`begin, this`end
    {
      begin <= end <= BUFSIZE == buf.Length && (begin == end ==> end == 0)
    }

    /** Everything sent so far, on the line or still in the buffer. */
    ghost function Output(): seq<byte>
      requires Valid()
      reads this`begin, this`end, this`written, buf
    {
      written + buf[begin..end]
    }

    /** slip_send; running out of buffer ends the program. */
    method Send(c: byte) returns (ok: bool)
      requires Valid()
      modifies this`end, buf
      ensures Valid() && ok == (old(end) < BUFSIZE)
      ensures Output() == if ok then old(Output()) + [c] else old(Output())
      ensures end == old(end) + if ok then 1 else 0
    {
      ok := end < BUFSIZE;
      if ok {
        buf[end] := c;
        end := end + 1;
      }
    }

    /** slip_flushbuf: the device takes `n` of the bytes that are left. */
    method Flush(n: nat)
      requires Valid() && begin + n <= end
      modifies this`begin, this`end, this`written
      ensures Valid() && Output() == old(Output()) && end - begin == old(end - begin) - n
    {
      if end == 0 {
        return;
      }
      written := written + buf[begin..begin + n];
      begin := begin + n;
      if begin == end {
        begin, end := 0, 0;
      }
    }

    method SendPair(c: byte) returns (ok: bool)
      requires Valid()
      modifies this`end, buf
      ensures Valid() && ok == (old(end) + 2 <= BUFSIZE) && old(Output()) <= Output()
      ensures ok ==> Output() == old(Output()) + [SLIP_ESC, c] && end == old(end) + 2
    {
      ok := Send(SLIP_ESC);
      if ok {
        ok := Send(c);
      }
    }

    /** The switch over a byte of the packet. */
    method SendByte(c: byte) returns (ok: bool)
      requires Valid()
      modifies this`end, buf
      ensures Valid() && ok == (old(end) + |EncodeByte(c, xonxoff)| <= BUFSIZE)
      ensures ok ==> Output() == old(Output()) + EncodeByte(c, xonxoff) && end == old(end) + |EncodeByte(c, xonxoff)|
    {
      if c == SLIP_END {
        ok := SendPair(SLIP_ESC_END);
      } else if c == SLIP_ESC {
        ok := SendPair(SLIP_ESC_ESC);
      } else if c == XON && xonxoff {
        ok := SendPair(SLIP_ESC_XON);
      } else if c == XOFF && xonxoff {
        ok := SendPair(SLIP_ESC_XOFF);
      } else {
        ok := Send(c);
      }
    }

    /** write_to_serial */
    method WriteToSerial(p: seq<byte>) returns (ok: bool)
      requires Valid()
      modifies this`end, buf
      ensures Valid() && ok == (old(end) + |Encode(p, xonxoff)| <= BUFSIZE)
      ensures ok ==> Output() == old(Output()) + Encode(p, xonxoff)
    {
      hide Output, EncodeByte, EncodeBytes;
      ghost var out, end0 := Output(), end;
      EncodeNothing(p, xonxoff);
      ok := true;
      for i := 0 to |p|
        invariant Valid() && end == end0 + |EncodeBytes(p[..i], xonxoff)|
        invariant Output() == out + EncodeBytes(p[..i], xonxoff)
      {
        EncodeMore(p, xonxoff, i);
        ok := SendByte(p[i]);
        if !ok {
          return;
        }
        assert out + EncodeBytes(p[..i], xonxoff) + EncodeByte(p[i], xonxoff) == out + (EncodeBytes(p[..i], xonxoff) + EncodeByte(p[i], xonxoff));
      }
      ok := Send(SLIP_END);
      assert out + EncodeBytes(p, xonxoff) + [SLIP_END] == out + (EncodeBytes(p, xonxoff) + [SLIP_END]);
    }
  }

  lemma EncodeNothing(p: seq<byte>, xonxoff: bool)
    ensures EncodeBytes(p[..0], xonxoff) == [] && p[..|p|] == p
  {
  }

  lemma EncodeMore(p: seq<byte>, xonxoff: bool, i: nat)
    requires i < |p|
    ensures EncodeBytes(p[..i + 1], xonxoff) == EncodeBytes(p[..i], xonxoff) + EncodeByte(p[i], xonxoff)
    ensures |EncodeBytes(p[..i + 1], xonxoff)| <= |EncodeBytes(p, xonxoff)|
    decreases |p| - i
  {
    assert p[..i + 1][..i] == p[..i];
    if i + 1 < |p| {
      EncodeMore(p, xonxoff, i + 1);
    } else {
      assert p[..i + 1] == p;
    }
  }

  // ----- The receiver as it runs -----

  class Receiver {
    const inbuf: array<byte>
    var inbufptr: nat
    // An escape that was put back because the chunk ended behind it.
    var putBack: bool
    const verbose: bool
    // The frames so far, and what has become of them.
    ghost var frames: seq<seq<byte>>
    var tun: seq<seq<byte>>
    var commands: seq<seq<byte>>
    var printed: seq<seq<byte>>

    constructor (verbose: bool)
      ensures Valid() && Abstract() == Between([]) && this.verbose == verbose && fresh(inbuf)
    {
      inbuf := new byte[BUFSIZE](i => 0);
      inbufptr, putBack, this.verbose, frames := 0, false, verbose, [];
      tun, commands, printed := [], [], [];
    }

    /** Packets are written to the tun device, commands are obeyed, and lines are printed. */
    ghost predicate Valid()
      reads this`inbufptr, this`frames, this`tun, this`commands, this`printed
    {
      && inbuf.Length == BUFSIZE && inbufptr < BUFSIZE
      && tun == Used(frames, Packet) && commands == Used(frames, Command) && printed == Printed(frames, verbose)
    }

    ghost function Abstract(): Decoder
      requires Valid()
      reads this`inbufptr, this`putBack, this`frames, this`tun, this`commands, this`printed, inbuf
    {
      Decoder(inbuf[..inbufptr], putBack, frames)
    }

    /** A byte is stored, and the test at read_more follows. */
    method Append(c: byte)
      requires Valid()
      modifies this`inbufptr, inbuf
      ensures Valid() && inbuf[..inbufptr] == Kept(old(inbuf[..inbufptr]) + [c])
    {
      inbuf[inbufptr] := c;
      inbufptr := inbufptr + 1;
      if inbufptr >= BUFSIZE {
        inbufptr := 0;
      }
    }

    /** The bytes up to SLIP_END, if there are any, are used as what they look like. */
    method EndFrame()
      requires Valid()
      modifies this`inbufptr, this`frames, this`tun, this`commands, this`printed
      ensures Valid() && inbufptr == 0
      ensures frames == if old(inbufptr) > 0 then old(frames) + [old(inbuf[..inbufptr])] else old(frames)
    {
      hide UseOf, Used, Printed;
      if inbufptr > 0 {
        var frame := inbuf[..inbufptr];
        UsedMore(frames, frame, Packet);
        UsedMore(frames, frame, Command);
        PrintedMore(frames, frame, verbose);
        var use := UseFrame(frame);
        match use {
          case Command => commands := commands + [frame];
          case DebugLine => printed := printed + [frame[1..]];
          case Text => if verbose { printed := printed + [frame]; }
          case Packet => tun := tun + [frame];
        }
        frames := frames + [frame];
        inbufptr := 0;
      }
    }

    /** serial_to_tun for the bytes that the line has. If there is nothing to read, the program
        ends. */
    method SerialToTun(chunk: seq<byte>) returns (ok: bool)
      requires Valid()
      modifies this, inbuf
      ensures Valid() && ok == (old(putBack) || chunk != [])
      ensures Abstract() == Feed(old(Abstract()), chunk)
    {
      hide Feed, Kept, Unescape;
      ghost var d := Abstract();
      // The stream starts with an escape put back.
      var input := (if putBack then [SLIP_ESC] else []) + chunk;
      PutBackFirst(d, chunk);
      FeedStart(d.(escaped := false), input);
      ok := input != [];
      var i := 0;
      putBack := false;
      while i < |input|
        invariant Valid() && i <= |input| && !putBack
        invariant Abstract() == Feed(d.(escaped := false), input[..i])
        decreases |input| - i
      {
        FeedMore(d.(escaped := false), input, i);
        var c := input[i];
        i := i + 1;
        if c == SLIP_END {
          EndFrame();
        } else if c == SLIP_ESC {
          if i == |input| {
            putBack := true;
            return;
          }
          FeedMore(d.(escaped := false), input, i);
          c := Unescape(input[i]);
          i := i + 1;
          Append(c);
        } else {
          Append(c);
        }
      }
    }
  }

  /** Reading all chunks of a stream of packets: those that are for the tun device are written to it. */
  method ReadStream(chunks: seq<seq<byte>>, verbose: bool, ghost packets: seq<seq<byte>>, ghost xonxoff: seq<bool>)
    returns (tun: seq<seq<byte>>, commands: seq<seq<byte>>, printed: seq<seq<byte>>)
    requires |packets| == |xonxoff| && Concat(chunks) == Stream(packets, xonxoff) && [] !in chunks
    ensures (forall p <- packets :: 0 < |p| < 2000) ==>
              && tun == Where(packets, p => ForTun(p)) && commands == Where(packets, p => IsCommand(p))
              && printed == Lines(packets, verbose)
  {
    hide Feed, Concat, Stream, Used, Where, Lines, Printed;
    var receiver := new Receiver(verbose);
    FedNothing(chunks);
    for n := 0 to |chunks|
      invariant fresh(receiver) && fresh(receiver.inbuf) && receiver.Valid()
      invariant receiver.Abstract() == FeedAll(Between([]), chunks[..n])
    {
      assert chunks[..n + 1][..n] == chunks[..n];
      var _ := receiver.SerialToTun(chunks[n]);
    }
    assert chunks[..|chunks|] == chunks;
    if forall p <- packets :: 0 < |p| < 2000 {
      PacketsAreSorted(packets, xonxoff, chunks, verbose);
    }
    return receiver.tun, receiver.commands, receiver.printed;
  }

  lemma FedNothing(chunks: seq<seq<byte>>)
    ensures FeedAll(Between([]), chunks[..0]) == Between([])
  {
  }

  /** The bytes on the line as RFC 1055 has them, and the escapes for XON and XOFF. */
  lemma EncodeExample()
    ensures Encode([0x45, 0xc0, 0xdb, 0x11, 0x13], false) == [0x45, 0xdb, 0xdc, 0xdb, 0xdd, 0x11, 0x13, 0xc0]
    ensures Encode([0x45, 0xc0, 0xdb, 0x11, 0x13], true) ==
              [0x45, 0xdb, 0xdc, 0xdb, 0xdd, 0xdb, 0xde, 0xdb, 0xdf, 0xc0]
  {
    ExampleBytes(false);
    ExampleBytes(true);
  }

  lemma ExampleBytes(xonxoff: bool)
    ensures EncodeBytes([0x45, 0xc0, 0xdb, 0x11, 0x13], xonxoff) ==
              [0x45, 0xdb, 0xdc, 0xdb, 0xdd] + EncodeByte(0x11, xonxoff) + EncodeByte(0x13, xonxoff)
  {
    OneMore([], 0x45, xonxoff);
    OneMore([0x45], 0xc0, xonxoff);
    OneMore([0x45, 0xc0], 0xdb, xonxoff);
    OneMore([0x45, 0xc0, 0xdb], 0x11, xonxoff);
    OneMore([0x45, 0xc0, 0xdb, 0x11], 0x13, xonxoff);
    assert [] + [0x45] == [0x45] && [0x45] + [0xc0] == [0x45, 0xc0] && [0x45, 0xc0] + [0xdb] == [0x45, 0xc0, 0xdb];
    assert [0x45, 0xc0, 0xdb] + [0x11] == [0x45, 0xc0, 0xdb, 0x11];
    assert [0x45, 0xc0, 0xdb, 0x11] + [0x13] == [0x45, 0xc0, 0xdb, 0x11, 0x13];
    assert EncodeBytes([0x45], xonxoff) == [0x45];
    assert EncodeBytes([0x45, 0xc0], xonxoff) == [0x45, 0xdb, 0xdc];
    assert EncodeBytes([0x45, 0xc0, 0xdb], xonxoff) == [0x45, 0xdb, 0xdc, 0xdb, 0xdd];
  }

  lemma OneMore(p: seq<byte>, c: byte, xonxoff: bool)
    ensures EncodeBytes(p + [c], xonxoff) == EncodeBytes(p, xonxoff) + EncodeByte(c, xonxoff)
  {
    assert (p + [c])[..|p|] == p;
  }

  lemma FeedStart(d: Decoder, input: seq<byte>)
    ensures Feed(d, input[..0]) == d && input[..|input|] == input
  {
  }

  lemma FeedMore(d: Decoder, input: seq<byte>, i: nat)
    requires i < |input|
    ensures Feed(d, input[..i + 1]) == Step(Feed(d, input[..i]), input[i])
  {
    assert input[..i + 1][..i] == input[..i];
  }

  /** Reading an escape again that was put back. */
  lemma PutBackFirst(d: Decoder, chunk: seq<byte>)
    ensures Feed(d.(escaped := false), (if d.escaped then [SLIP_ESC] else []) + chunk) == Feed(d, chunk)
  {
    if d.escaped {
      FeedBoth(d.(escaped := false), [SLIP_ESC], chunk);
      FeedOne(d.(escaped := false), SLIP_ESC);
    } else {
      assert [] + chunk == chunk;
    }
  }
}
