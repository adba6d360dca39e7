/** The broadcast of a program image to any number of receivers over a network that loses,
    duplicates and reorders packets (apps/codeprop/codeprop.c). Each function below is one call of
    a protothread, from one point where it waits to the next. */
module CodeProp {
  import opened Basics

  const UDPDATASIZE := 32

  type Image = m: seq<byte> | |m| < 0x1_0000 witness []

  /** A packet. The sender of a NACK leaves the other fields as they were in its buffer and
      nobody reads them. */
  datatype Message = Data(id: uint16, addr: uint16, len: uint16, data: seq<byte>) | Nack(addr: uint16)

  // ----- The sender -----

  /** Where send_udpthread waits: for something to send, for a packet or the timer, or after it
      has looked at a packet. */
  datatype SenderPoint = Idle | Waiting | Yielded

  datatype Sender = Sender(point: SenderPoint, sending: bool, addr: nat, id: uint16, image: Image)
  {
    predicate Valid() { addr <= |image| }

    /** send_udpdata */
    function Packet(): Message
      requires addr < |image|
    {
      Data(id, addr, |image|, image[addr..Min(addr + UDPDATASIZE, |image|)])
    }

    /** The head of the loop over the image: the next packet, or the end. A packet that came with the same
        call is still seen as new, but it has been overwritten, so that it is no NACK. */
    function NextPacket(came: bool): (Sender, Option<Message>) {
      if addr < |image| then
        (this.(point := if came then Yielded else Waiting, addr := Min(addr + UDPDATASIZE, |image|)), Some(Packet()))
      else (this.(point := Idle, sending := false), None)
    }

    /** A NACK is accepted only if it points to a lower byte; whose NACK it is does not matter. */
    function Accept(packet: Message): Sender {
      if packet.Nack? && packet.addr <= addr then this.(point := Yielded, addr := packet.addr) else this.(point := Yielded)
    }

    /** send_udpthread, called with a packet or without one. */
    function Step(packet: Option<Message>, expired: bool): (Sender, Option<Message>) {
      match point
      case Idle => if sending then this.(addr := 0).NextPacket(packet.Some?) else (this, None)
      case Waiting =>
        if packet.Some? then (Accept(packet.value), None)
        else if expired then NextPacket(false)
        else (this, None)
      case Yielded =>
        if expired then NextPacket(packet.Some?)
        else if packet.Some? then (Accept(packet.value), None)
        else (this.(point := Waiting), None)
    }

    /** codeprop_start_broadcast, for an image that has been stored. */
    function Start(newImage: Image): Sender
      requires id < 0xffff
    {
      this.(sending := true, addr := 0, id := id + 1, image := newImage)
    }
  }

  // ----- The receiver -----

  /** A program that has been received whole and is started. */
  datatype Install = Install(id: uint16, program: seq<byte>, origin: uint16)

  /** `storage` is the EEPROM file. `origin` and `installed` are history: the address in the packet
      that opened the transfer, and the programs started so far. */
  datatype Receiver = Receiver(receiving: bool, addr: uint16, len: uint16, id: uint16, storage: seq<byte>,
                               origin: uint16, installed: seq<Install>)
  {
    predicate Valid() {
      |storage| >= 0x1_0000 + UDPDATASIZE && (receiving ==> addr < len)
    }

    function Stored(data: seq<byte>): seq<byte>
      requires addr + |data| <= |storage|
    {
      storage[..addr] + data + storage[addr + |data|..]
    }

    /** The end of the loop over the image. */
    function Continue(): Receiver
      requires len <= |storage|
    {
      if addr < len then this.(receiving := true)
      else this.(receiving := false, installed := installed + [Install(id, storage[..len], origin)])
    }

    /** The body of that loop for a packet with this address in the buffer. */
    function Take(packetAddr: uint16, data: seq<byte>): (Receiver, Option<Message>)
      requires Valid() && addr < len && |data| <= UDPDATASIZE
    {
      if packetAddr == addr then
        if data == [] then (Continue(), None)
        else (this.(storage := Stored(data), addr := (addr + |data|) % 0x1_0000).Continue(), None)
      else if packetAddr > addr then (Continue(), Some(Nack(addr)))
      else (Continue(), None)
    }

    /** A packet of a newer image opens a transfer. If it is not the first one of the image, a NACK
        is sent; but that overwrites the address in the shared packet buffer, so the test that
        follows sees the address 0, and the packet is taken for the first one. */
    function Open(p: Message): (Receiver, Option<Message>)
      requires Valid() && p.Data? && |p.data| <= UDPDATASIZE
    {
      var r := this.(addr := 0, id := p.id, len := p.len, origin := p.addr);
      var nack := if p.addr != 0 then Some(Nack(0)) else None;
      if 0 < p.len then (r.Take(0, p.data).0, nack) else (r.Continue(), nack)
    }

    /** recv_udpthread, called with a packet or without one. When the timer has expired a packet
        that comes with the call is lost. */
    function Step(packet: Option<Message>, expired: bool): (Receiver, Option<Message>)
      requires Valid() && (packet.Some? && packet.value.Data? ==> |packet.value.data| <= UDPDATASIZE)
    {
      if receiving && expired then (this, Some(Nack(addr)))
      else if packet.None? || packet.value.Nack? then (this, None)
      else if receiving then
        if packet.value.id == id then Take(packet.value.addr, packet.value.data) else (this, None)
      else if packet.value.id > id then Open(packet.value)
      else (this, None)
    }
  }

  /** What a receiver of an image does with a packet of it, as long as its timer has not expired: a packet
      at its address moves it on, one behind a gap is answered by a NACK for the address, and one from
      before is ignored. */
  lemma PacketAnswered(r: Receiver, p: Message)
    requires r.Valid() && r.receiving && p.Data? && |p.data| <= UDPDATASIZE && p.id == r.id
    ensures var (r', out) := r.Step(Some(p), false);
            && (p.addr > r.addr ==> r' == r && out == Some(Nack(r.addr)))
            && (p.addr < r.addr ==> r' == r && out == None)
            && (p.addr == r.addr ==> out == None && r'.id == r.id && r'.len == r.len && r'.origin == r.origin)
            && (p.addr == r.addr && r.addr + |p.data| < 0x1_0000 ==>
                  && r'.addr == r.addr + |p.data|
                  && r'.storage == r.storage[..r.addr] + p.data + r.storage[r.addr + |p.data|..]
                  && r'.receiving == (r'.addr < r.len)
                  && r'.installed == if r'.receiving then r.installed
                                     else r.installed + [Install(r.id, r'.storage[..r.len], r.origin)])
  {
    assert p.data == [] ==> r.storage == r.storage[..r.addr] + p.data + r.storage[r.addr + |p.data|..];
  }

  /** What it does otherwise: an expired timer asks for the address once more, whatever packet comes with
      the call; packets of other images and NACKs change nothing; and a receiver at rest is opened by a
      packet of a newer image only, and asks for address 0 if that is not the first one. */
  lemma OtherwiseAnswered(r: Receiver, packet: Option<Message>)
    requires r.Valid() && (packet.Some? && packet.value.Data? ==> |packet.value.data| <= UDPDATASIZE)
    ensures r.receiving ==> r.Step(packet, true) == (r, Some(Nack(r.addr)))
    ensures packet.None? || packet.value.Nack? ==> r.Step(packet, false) == (r, None)
    ensures packet.Some? && packet.value.Data? && (if r.receiving then packet.value.id != r.id else packet.value.id <= r.id) ==>
              r.Step(packet, false) == (r, None)
    ensures packet.Some? && packet.value.Data? && !r.receiving && packet.value.id > r.id ==>
              forall expired ::
                var p, (r', out) := packet.value, r.Step(packet, expired);
                && r'.id == p.id && r'.len == p.len && r'.origin == p.addr
                && out == (if p.addr == 0 then None else Some(Nack(0)))
                && (p.data == [] || p.len == 0 ==> r'.addr == 0)
                && (0 < |p.data| && 0 < p.len ==> r'.addr == |p.data| && r'.storage == p.data + r.storage[|p.data|..])
  {
  }

  // ----- The network -----

  /** `images` holds every image that was ever started; `sent` every packet ever sent, any of
      which may arrive at any time, any number of times, or never. */
  datatype System = System(images: map<uint16, Image>, sender: Sender, receivers: seq<Receiver>, sent: set<Message>)

  datatype Event =
    | Start(image: Image)
    | SenderRuns(packet: Option<Message>, expired: bool)
    | ReceiverRuns(r: nat, packet: Option<Message>, expired: bool)

  function Send(sent: set<Message>, m: Option<Message>): set<Message> {
    if m.Some? then sent + {m.value} else sent
  }

  predicate Enabled(s: System, e: Event) {
    match e
    case Start(_) => s.sender.id < 0xffff
    case SenderRuns(p, _) => p.Some? ==> p.value in s.sent
    case ReceiverRuns(r, p, _) => r < |s.receivers| && (p.Some? ==> p.value in s.sent)
  }

  predicate Wellformed(s: System) {
    && s.sender.Valid() && (forall r <- s.receivers :: r.Valid())
    && forall m <- s.sent :: m.Data? ==> |m.data| <= UDPDATASIZE
  }

  function Next(s: System, e: Event): System
    requires Enabled(s, e) && Wellformed(s)
  {
    match e
    case Start(image) =>
      var sender := s.sender.Start(image);
      s.(sender := sender, images := s.images[sender.id := image])
    case SenderRuns(p, expired) =>
      var (sender, m) := s.sender.Step(p, expired);
      s.(sender := sender, sent := Send(s.sent, m))
    case ReceiverRuns(r, p, expired) =>
      assert s.receivers[r] in s.receivers;
      var (receiver, m) := s.receivers[r].Step(p, expired);
      s.(receivers := s.receivers[r := receiver], sent := Send(s.sent, m))
  }

  // ----- What every step keeps -----

  /** A data packet carries the part of its image at its address. */
  predicate Genuine(images: map<uint16, Image>, m: Message) {
    m.Data? ==>
      && m.id in images && m.len == |images[m.id]| && m.addr < m.len
      && m.data == images[m.id][m.addr..Min(m.addr + UDPDATASIZE, m.len)]
  }

  /** The image as a receiver gets it whose transfer was opened by the packet at the given address:
      the data of that packet stands in the place of the first bytes. */
  function Received(image: seq<byte>, origin: nat): (program: seq<byte>)
    requires origin < |image|
    ensures |program| == |image|
  {
    var first := image[origin..Min(origin + UDPDATASIZE, |image|)];
    first + image[|first|..]
  }

  predicate InstallOk(images: map<uint16, Image>, i: Install) {
    i.id in images && i.origin < |images[i.id]| && i.program == Received(images[i.id], i.origin)
  }

  predicate Increasing(installed: seq<Install>, below: int) {
    && (forall i, j | 0 <= i < j < |installed| :: installed[i].id < installed[j].id)
    && forall i | 0 <= i < |installed| :: installed[i].id < below
  }

  predicate ReceiverOk(images: map<uint16, Image>, r: Receiver) {
    && r.Valid()
    && (forall i <- r.installed :: InstallOk(images, i))
    && Increasing(r.installed, if r.receiving then r.id else r.id + 1)
    && (r.receiving ==>
          && r.id in images && r.len == |images[r.id]| && r.origin < r.len
          && r.storage[..r.addr] == Received(images[r.id], r.origin)[..r.addr]
          && Min(UDPDATASIZE, r.len - r.origin) <= r.addr)
  }

  predicate SystemOk(s: System) {
    && s.sender.Valid() && (forall id <- s.images :: id <= s.sender.id)
    && (s.sender.image != [] ==> s.sender.id in s.images)
    && (s.sender.id in s.images ==> s.images[s.sender.id] == s.sender.image)
    && (forall m <- s.sent :: Genuine(s.images, m))
    && (forall r <- s.receivers :: ReceiverOk(s.images, r))
  }

  function Initial(receivers: seq<Receiver>): System {
    System(map[], Sender(Idle, false, 0, 0, []), receivers, {})
  }

  lemma Begins(receivers: seq<Receiver>)
    requires forall r <- receivers :: r.Valid() && !r.receiving && r.installed == []
    ensures SystemOk(Initial(receivers))
  {
  }

  lemma OkIsWellformed(s: System)
    requires SystemOk(s)
    ensures Wellformed(s)
  {
  }

  /** A new image takes a new id, so nothing said about the old ones changes. */
  lemma StartKeeps(s: System, image: Image)
    requires SystemOk(s) && Enabled(s, Start(image))
    ensures SystemOk(Next(s, Start(image)))
  {
    var s' := Next(s, Start(image));
    forall r | r in s'.receivers
      ensures ReceiverOk(s'.images, r)
    {
      assert forall i <- r.installed :: InstallOk(s.images, i);
    }
  }

  lemma SenderKeeps(s: System, p: Option<Message>, expired: bool)
    requires SystemOk(s) && Enabled(s, SenderRuns(p, expired))
    ensures SystemOk(Next(s, SenderRuns(p, expired)))
  {
    hide ReceiverOk;
  }

  lemma OpenKeeps(images: map<uint16, Image>, r: Receiver, p: Message)
    requires ReceiverOk(images, r) && Genuine(images, p) && p.Data? && p.id > r.id && !r.receiving
    ensures ReceiverOk(images, r.Open(p).0)
  {
    hide Received, Receiver.Stored;
    var r' := r.(addr := 0, id := p.id, len := p.len, origin := p.addr);
    StoredPart(r', p.data);
    ReceivedFirst(images[p.id], p.addr);
  }

  /** The first packet is the start of what is received. */
  lemma ReceivedFirst(image: Image, origin: nat)
    requires origin < |image|
    ensures var first := image[origin..Min(origin + UDPDATASIZE, |image|)];
            Received(image, origin)[..|first|] == first
  {
  }

  /** After the first packet the program received is the image. */
  lemma ReceivedPart(image: Image, origin: nat, from: nat, to: nat)
    requires origin < |image| && Min(UDPDATASIZE, |image| - origin) <= from <= to <= |image|
    ensures Received(image, origin)[..to] == Received(image, origin)[..from] + image[from..to]
  {
    var program, n := Received(image, origin), Min(UDPDATASIZE, |image| - origin);
    assert forall i | n <= i < |image| :: program[i] == image[i];
    assert program[from..to] == image[from..to];
    assert program[..to] == program[..from] + program[from..to];
  }

  lemma StoredPart(r: Receiver, data: seq<byte>)
    requires r.addr + |data| <= |r.storage|
    ensures r.Stored(data)[..r.addr + |data|] == r.storage[..r.addr] + data
    ensures |r.Stored(data)| == |r.storage|
  {
  }

  lemma TakeKeeps(images: map<uint16, Image>, r: Receiver, p: Message)
    requires ReceiverOk(images, r) && Genuine(images, p) && p.Data? && p.id == r.id && r.receiving
    ensures ReceiverOk(images, r.Take(p.addr, p.data).0)
  {
    hide Received, r.Stored;
    if p.addr == r.addr {
      ReceivedPart(images[r.id], r.origin, r.addr, r.addr + |p.data|);
      StoredPart(r, p.data);
    }
  }

  lemma ReceiverKeeps(s: System, k: nat, p: Option<Message>, expired: bool)
    requires SystemOk(s) && Enabled(s, ReceiverRuns(k, p, expired))
    ensures SystemOk(Next(s, ReceiverRuns(k, p, expired)))
  {
    hide ReceiverOk;
    var r := s.receivers[k];
    assert r in s.receivers;
    if p.Some? && p.value.Data? && !(r.receiving && expired) {
      if r.receiving && p.value.id == r.id {
        TakeKeeps(s.images, r, p.value);
      } else if !r.receiving && p.value.id > r.id {
        OpenKeeps(s.images, r, p.value);
      }
    }
  }

  // ----- Runs -----

  predicate AllEnabled(s: System, es: seq<Event>)
    requires Wellformed(s)
    decreases |es|
  {
    es == [] || (Enabled(s, es[0]) && Wellformed(Next(s, es[0])) && AllEnabled(Next(s, es[0]), es[1..]))
  }

  function Run(s: System, es: seq<Event>): System
    requires Wellformed(s) && AllEnabled(s, es)
    decreases |es|
  {
    if es == [] then s else Run(Next(s, es[0]), es[1..])
  }

  lemma NextKeeps(s: System, e: Event)
    requires SystemOk(s) && Enabled(s, e)
    ensures Wellformed(s) && SystemOk(Next(s, e)) && Wellformed(Next(s, e))
  {
    OkIsWellformed(s);
    match e
    case Start(image) => StartKeeps(s, image);
    case SenderRuns(p, expired) => SenderKeeps(s, p, expired);
    case ReceiverRuns(k, p, expired) => ReceiverKeeps(s, k, p, expired);
    OkIsWellformed(Next(s, e));
  }

  /** In every run, under any loss, duplication and reordering: a receiver holds the part of its
      program that it has counted, every program it has started is whole, and the ids of those
      programs increase. */
  lemma {:induction false} RunKeeps(s: System, es: seq<Event>)
    requires SystemOk(s) && Wellformed(s) && AllEnabled(s, es)
    ensures SystemOk(Run(s, es))
    decreases |es|
  {
    if es != [] {
      NextKeeps(s, es[0]);
      RunKeeps(Next(s, es[0]), es[1..]);
    }
  }

  /** The program of a transfer that was opened by the packet at `origin` is the image exactly if
      that packet has the same bytes as the first one; so always for address 0. */
  lemma ReceivedIsImage(image: Image, origin: nat)
    requires origin < |image|
    ensures var n := Min(UDPDATASIZE, |image| - origin);
            Received(image, origin) == image <==> image[origin..origin + n] == image[..n]
    ensures origin == 0 ==> Received(image, origin) == image
  {
    var n := Min(UDPDATASIZE, |image| - origin);
    assert image == image[..n] + image[n..];
    assert Received(image, origin)[..n] == image[origin..origin + n];
  }

  /** What a receiver has when the protocol is started without anything received. */
  lemma TransfersAreFaithful(receivers: seq<Receiver>, es: seq<Event>, k: nat)
    requires forall r <- receivers :: r.Valid() && !r.receiving && r.installed == []
    requires Wellformed(Initial(receivers)) && AllEnabled(Initial(receivers), es) && k < |Run(Initial(receivers), es).receivers|
    ensures var s := Run(Initial(receivers), es);
            var r := s.receivers[k];
            && (r.receiving && r.origin == 0 ==>
                  r.id in s.images && r.addr <= |s.images[r.id]| && r.addr <= |r.storage| && r.storage[..r.addr] == s.images[r.id][..r.addr])
            && (forall i <- r.installed :: i.id in s.images && i.origin < |s.images[i.id]|
                  && var n := Min(UDPDATASIZE, |s.images[i.id]| - i.origin);
                     i.program == s.images[i.id] <==> s.images[i.id][i.origin..i.origin + n] == s.images[i.id][..n])
            && forall i, j | 0 <= i < j < |r.installed| :: r.installed[i].id < r.installed[j].id
  {
    hide Received, Run, AllEnabled;
    Begins(receivers);
    RunKeeps(Initial(receivers), es);
    var s := Run(Initial(receivers), es);
    var r := s.receivers[k];
    assert r in s.receivers;
    if r.receiving {
      ReceivedIsImage(s.images[r.id], r.origin);
    }
    forall i | i in r.installed
      ensures InstallOk(s.images, i)
      ensures var n := Min(UDPDATASIZE, |s.images[i.id]| - i.origin);
              i.program == s.images[i.id] <==> s.images[i.id][i.origin..i.origin + n] == s.images[i.id][..n]
    {
      ReceivedIsImage(s.images[i.id], i.origin);
    }
  }

  // ----- Progress -----

  /** The image that the receiver waits for is still being sent. */
  predicate Served(s: System, k: nat) {
    && k < |s.receivers| && s.receivers[k].receiving && s.receivers[k].id == s.sender.id
    && s.receivers[k].id in s.images && s.sender.image == s.images[s.receivers[k].id]
    && (s.sender.point.Idle? ==> s.sender.sending)
  }

  /** In this run the receiver starts the program that it is waiting for. */
  ghost predicate Finishes(s: System, es: seq<Event>, k: nat)
    requires Wellformed(s) && k < |s.receivers|
  {
    && AllEnabled(s, es) && k < |Run(s, es).receivers|
    && var (r, r') := (s.receivers[k], Run(s, es).receivers[k]);
       !r'.receiving && Started(r, r')
  }

  /** One more program has been started, under the id and from the opening packet of the transfer. */
  predicate Started(r: Receiver, r': Receiver) {
    && |r'.installed| == |r.installed| + 1 && r'.installed[..|r.installed|] == r.installed
    && r'.installed[|r.installed|].id == r.id && r'.installed[|r.installed|].origin == r.origin
  }

  predicate NoStart(es: seq<Event>) {
    forall e <- es :: !e.Start?
  }

  /** Without a new image, images and receivers are the same ones throughout a run. */
  lemma {:induction false} SameImages(s: System, es: seq<Event>)
    requires SystemOk(s) && Wellformed(s) && AllEnabled(s, es) && NoStart(es)
    ensures Run(s, es).images == s.images && |Run(s, es).receivers| == |s.receivers|
    decreases |es|
  {
    hide SystemOk, Wellformed;
    if es != [] {
      assert es[0] in es;
      NextKeeps(s, es[0]);
      SameImages(Next(s, es[0]), es[1..]);
    }
  }

  /** As long as the sender has not finished, a receiver can still get the whole program, whatever
      has been lost so far: when its timer expires it asks for the next byte, and is sent it. */
  lemma {:induction false} CanFinish(s: System, k: nat) returns (es: seq<Event>)
    requires SystemOk(s) && Wellformed(s) && Served(s, k)
    ensures Finishes(s, es, k) && NoStart(es)
    decreases |s.sender.image| - s.receivers[k].addr, s.sender.point.Idle?, |s.sender.image| - s.sender.addr
  {
    hide SystemOk, Wellformed, AllEnabled, Run, Next;
    var r := s.receivers[k];
    var send, ask, answer := SenderRuns(None, true), ReceiverRuns(k, None, true), SenderRuns(Some(Nack(r.addr)), false);
    if s.sender.point.Idle? || s.sender.addr < r.addr {
      var s1 := Advance(s, k);
      var rest := CanFinish(s1, k);
      es := [send] + rest;
      FinishesLater(s, send, rest, k);
    } else {
      var s1 := Ask(s, k);
      var s2 := Answer(s1, k);
      var s3 := Resend(s2, k);
      var deliver := ReceiverRuns(k, Some(s2.sender.Packet()), false);
      var s4 := Deliver(s3, k, s2.sender.Packet());
      var rest: seq<Event> := [];
      if s4.receivers[k].receiving {
        rest := CanFinish(s4, k);
        FinishesLater(s3, deliver, rest, k);
      } else {
        FinishesNow(s3, deliver, k);
      }
      FinishesLater(s2, send, [deliver] + rest, k);
      FinishesLater(s1, answer, [send] + ([deliver] + rest), k);
      FinishesLater(s, ask, [answer] + ([send] + ([deliver] + rest)), k);
      es := [ask] + ([answer] + ([send] + ([deliver] + rest)));
    }
  }

  predicate NoTimer(es: seq<Event>) {
    forall e <- es :: e.ReceiverRuns? ==> !e.expired
  }

  /** A packet of the image from behind the receiver's address has been sent. */
  predicate LaterSent(s: System, k: nat, p: Message)
    requires k < |s.receivers|
  {
    p in s.sent && p.Data? && p.id == s.receivers[k].id && p.addr > s.receivers[k].addr
  }

  predicate InStep(s: System, k: nat)
    requires k < |s.receivers|
  {
    !s.sender.point.Idle? && s.sender.addr == s.receivers[k].addr
  }

  /** It does not need its timer for that, once a packet from behind its address has been sent: when that
      packet comes, it asks for its address, and from then on it is in step with the sender. */
  lemma {:induction false} CanFinishThroughGap(s: System, k: nat, p: Message) returns (es: seq<Event>)
    requires SystemOk(s) && Wellformed(s) && Served(s, k) && (InStep(s, k) || LaterSent(s, k, p))
    ensures Finishes(s, es, k) && NoStart(es) && NoTimer(es)
    decreases |s.sender.image| - s.receivers[k].addr, !InStep(s, k), s.sender.point.Idle?, |s.sender.image| - s.sender.addr
  {
    hide SystemOk, Wellformed, AllEnabled, Run, Next;
    var r := s.receivers[k];
    var send, gap, answer := SenderRuns(None, true), ReceiverRuns(k, Some(p), false), SenderRuns(Some(Nack(r.addr)), false);
    if InStep(s, k) {
      var packet := InStepPacket(s, k);
      var s1 := Resend(s, k);
      var deliver := ReceiverRuns(k, Some(packet), false);
      var s2 := Deliver(s1, k, packet);
      var rest: seq<Event> := [];
      if s2.receivers[k].receiving {
        rest := CanFinishThroughGap(s2, k, p);
        FinishesLater(s1, deliver, rest, k);
      } else {
        FinishesNow(s1, deliver, k);
      }
      FinishesLater(s, send, [deliver] + rest, k);
      es := [send] + ([deliver] + rest);
    } else if s.sender.point.Idle? || s.sender.addr < r.addr {
      var s1 := Advance(s, k);
      StaysSent(s, send, k, p);
      var rest := CanFinishThroughGap(s1, k, p);
      FinishesLater(s, send, rest, k);
      es := [send] + rest;
    } else {
      var s1 := AskThroughGap(s, k, p);
      var s2 := Answer(s1, k);
      var rest := CanFinishThroughGap(s2, k, p);
      FinishesLater(s1, answer, rest, k);
      FinishesLater(s, gap, [answer] + rest, k);
      es := [gap] + ([answer] + rest);
    }
  }

  /** The packet that the sender sends next, when it is in step. */
  lemma InStepPacket(s: System, k: nat) returns (p: Message)
    requires SystemOk(s) && Wellformed(s) && Served(s, k) && InStep(s, k)
    ensures s.sender.addr < |s.sender.image| && p == s.sender.Packet()
    ensures p.Data? && p.id == s.receivers[k].id && p.addr == s.receivers[k].addr
  {
    assert s.receivers[k] in s.receivers;
    p := s.sender.Packet();
  }

  lemma StaysSent(s: System, e: Event, k: nat, p: Message)
    requires Wellformed(s) && Enabled(s, e) && e.SenderRuns? && k < |s.receivers| && LaterSent(s, k, p)
    ensures k < |Next(s, e).receivers| && LaterSent(Next(s, e), k, p)
  {
  }

  /** The packet from behind the gap reaches the receiver. */
  lemma AskThroughGap(s: System, k: nat, p: Message) returns (s': System)
    requires SystemOk(s) && Wellformed(s) && Served(s, k) && LaterSent(s, k, p)
    ensures var e := ReceiverRuns(k, Some(p), false);
            Enabled(s, e) && s' == Next(s, e) && SystemOk(s') && Wellformed(s')
    ensures s'.receivers == s.receivers && s'.sender == s.sender && s'.images == s.images
    ensures Nack(s.receivers[k].addr) in s'.sent
  {
    var e := ReceiverRuns(k, Some(p), false);
    assert s.receivers[k] in s.receivers;
    NextKeeps(s, e);
    s' := Next(s, e);
    PacketAnswered(s.receivers[k], p);
  }

  /** The receiver finishes a step later if it does after the step, in the same transfer. */
  lemma FinishesLater(s: System, e: Event, rest: seq<Event>, k: nat)
    requires Wellformed(s) && Enabled(s, e) && Wellformed(Next(s, e)) && k < |s.receivers| && k < |Next(s, e).receivers|
    requires Finishes(Next(s, e), rest, k)
    requires var r, r' := s.receivers[k], Next(s, e).receivers[k];
             r'.installed == r.installed && r'.id == r.id && r'.origin == r.origin
    ensures Finishes(s, [e] + rest, k)
    ensures !e.Start? && NoStart(rest) ==> NoStart([e] + rest)
    ensures (e.ReceiverRuns? ==> !e.expired) && NoTimer(rest) ==> NoTimer([e] + rest)
  {
    hide AllEnabled, Run, Next, Wellformed, Enabled;
    Prepend(s, e, rest);
  }

  lemma FinishesNow(s: System, e: Event, k: nat)
    requires Wellformed(s) && Enabled(s, e) && Wellformed(Next(s, e)) && k < |s.receivers| && k < |Next(s, e).receivers|
    requires !Next(s, e).receivers[k].receiving && Started(s.receivers[k], Next(s, e).receivers[k])
    ensures Finishes(s, [e] + [], k)
    ensures !e.Start? ==> NoStart([e] + [])
    ensures (e.ReceiverRuns? ==> !e.expired) ==> NoTimer([e] + [])
  {
    hide AllEnabled, Run, Next, Wellformed, Enabled;
    NoEvents(Next(s, e));
    Prepend(s, e, []);
  }

  lemma NoEvents(s: System)
    requires Wellformed(s)
    ensures AllEnabled(s, []) && Run(s, []) == s
  {
  }

  lemma Prepend(s: System, e: Event, rest: seq<Event>)
    requires Wellformed(s) && Enabled(s, e) && Wellformed(Next(s, e)) && AllEnabled(Next(s, e), rest)
    ensures AllEnabled(s, [e] + rest) && Run(s, [e] + rest) == Run(Next(s, e), rest)
  {
    assert ([e] + rest)[1..] == rest;
  }

  /** The sender sends the next packet. */
  lemma Advance(s: System, k: nat) returns (s': System)
    requires SystemOk(s) && Wellformed(s) && Served(s, k) && (s.sender.point.Idle? || s.sender.addr < s.receivers[k].addr)
    ensures Enabled(s, SenderRuns(None, true)) && s' == Next(s, SenderRuns(None, true)) && SystemOk(s') && Wellformed(s')
    ensures Served(s', k) && s'.receivers == s.receivers && s'.sender.image == s.sender.image
    ensures !s'.sender.point.Idle? && (s.sender.point.Idle? || s.sender.addr < s'.sender.addr <= |s.sender.image|)
  {
    NextKeeps(s, SenderRuns(None, true));
    s' := Next(s, SenderRuns(None, true));
    assert s.receivers[k] in s.receivers;
  }

  /** The timer of the receiver expires. */
  lemma Ask(s: System, k: nat) returns (s': System)
    requires SystemOk(s) && Wellformed(s) && Served(s, k)
    ensures Enabled(s, ReceiverRuns(k, None, true)) && s' == Next(s, ReceiverRuns(k, None, true)) && SystemOk(s') && Wellformed(s')
    ensures s'.receivers == s.receivers && s'.sender == s.sender && s'.images == s.images
    ensures Nack(s.receivers[k].addr) in s'.sent
  {
    NextKeeps(s, ReceiverRuns(k, None, true));
    s' := Next(s, ReceiverRuns(k, None, true));
  }

  /** The NACK reaches the sender. */
  lemma Answer(s: System, k: nat) returns (s': System)
    requires SystemOk(s) && Wellformed(s) && Served(s, k) && Nack(s.receivers[k].addr) in s.sent
    requires !s.sender.point.Idle? && s.receivers[k].addr <= s.sender.addr
    ensures var e := SenderRuns(Some(Nack(s.receivers[k].addr)), false);
            Enabled(s, e) && s' == Next(s, e) && SystemOk(s') && Wellformed(s')
    ensures s'.receivers == s.receivers && s'.images == s.images && Served(s', k)
    ensures s'.sender.image == s.sender.image && s'.sender.addr == s.receivers[k].addr && !s'.sender.point.Idle?
  {
    var e := SenderRuns(Some(Nack(s.receivers[k].addr)), false);
    NextKeeps(s, e);
    s' := Next(s, e);
  }

  lemma Resend(s: System, k: nat) returns (s': System)
    requires SystemOk(s) && Wellformed(s) && Served(s, k) && s.sender.addr == s.receivers[k].addr && !s.sender.point.Idle?
    ensures Enabled(s, SenderRuns(None, true)) && s' == Next(s, SenderRuns(None, true)) && SystemOk(s') && Wellformed(s')
    ensures s'.receivers == s.receivers && s'.images == s.images && Served(s', k) && s'.sender.image == s.sender.image
    ensures s.sender.addr < |s.sender.image| == s.receivers[k].len && s.sender.Packet() in s'.sent
    ensures !s'.sender.point.Idle? && s'.sender.addr == Min(s.sender.addr + UDPDATASIZE, |s.sender.image|)
  {
    NextKeeps(s, SenderRuns(None, true));
    s' := Next(s, SenderRuns(None, true));
    assert s.receivers[k] in s.receivers;
  }

  lemma Deliver(s: System, k: nat, p: Message) returns (s': System)
    requires SystemOk(s) && Wellformed(s) && k < |s.receivers| && s.receivers[k].receiving && p in s.sent && p.Data?
    requires p.id == s.receivers[k].id && p.addr == s.receivers[k].addr
    ensures var e := ReceiverRuns(k, Some(p), false);
            Enabled(s, e) && s' == Next(s, e) && SystemOk(s') && Wellformed(s')
    ensures k < |s'.receivers| && s'.images == s.images && s'.sender == s.sender && s'.sent == s.sent
    ensures var r, r' := s.receivers[k], s'.receivers[k];
            && r'.addr == Min(r.addr + UDPDATASIZE, r.len) > r.addr && r'.len == r.len
            && if r'.receiving then r'.installed == r.installed && r'.id == r.id && r'.origin == r.origin else Started(r, r')
  {
    var e := ReceiverRuns(k, Some(p), false);
    NextKeeps(s, e);
    s' := Next(s, e);
    assert s.receivers[k] in s.receivers && s'.receivers[k] in s'.receivers;
    assert Genuine(s.images, p);
  }

  // ----- When the image is not sent any more -----

  /** The image that the receiver waits for will never be sent again: the sender has gone on to a newer
      one, or it is at rest, and then it reads no NACK. */
  predicate Abandoned(s: System, k: nat) {
    && k < |s.receivers| && s.receivers[k].receiving
    && (s.receivers[k].id == s.sender.id ==> s.sender.point.Idle? && !s.sender.sending)
  }

  /** A packet of the image at this address has been sent at some time. */
  predicate SentAt(sent: set<Message>, id: uint16, addr: nat) {
    exists m <- sent :: m.Data? && m.id == id && m.addr == addr
  }

  /** The packets that have been sent lead from the address to the end of the image, each one starting
      where the one before ends. */
  predicate Chained(sent: set<Message>, id: uint16, addr: nat, len: nat)
    decreases len - addr
  {
    addr >= len || (SentAt(sent, id, addr) && Chained(sent, id, Min(addr + UDPDATASIZE, len), len))
  }

  predicate ChainedFor(s: System, k: nat)
    requires k < |s.receivers|
  {
    Chained(s.sent, s.receivers[k].id, s.receivers[k].addr, s.receivers[k].len)
  }

  /** What has been sent of an abandoned image stays as it is. */
  lemma {:induction false} SameChain(sent: set<Message>, more: set<Message>, id: uint16, addr: nat, len: nat)
    requires forall m: Message :: m.Data? && m.id == id ==> (m in sent <==> m in more)
    ensures Chained(sent, id, addr, len) <==> Chained(more, id, addr, len)
    decreases len - addr
  {
    if addr < len {
      assert SentAt(sent, id, addr) <==> SentAt(more, id, addr);
      SameChain(sent, more, id, Min(addr + UDPDATASIZE, len), len);
    }
  }

  lemma StaysAbandoned(s: System, e: Event, k: nat)
    requires SystemOk(s) && Wellformed(s) && Enabled(s, e) && Abandoned(s, k)
    ensures k < |Next(s, e).receivers|
    ensures Next(s, e).receivers[k].receiving ==> Next(s, e).receivers[k].id == s.receivers[k].id && Abandoned(Next(s, e), k)
    ensures forall m: Message :: m.Data? && m.id == s.receivers[k].id ==> (m in s.sent <==> m in Next(s, e).sent)
  {
    assert s.receivers[k] in s.receivers;
  }

  /** A receiver has read the packet at its address and stands behind it. */
  predicate MovedOn(r: Receiver, r': Receiver) {
    r'.id == r.id && r'.len == r.len && r'.addr == Min(r.addr + UDPDATASIZE, r.len) && (r'.receiving <==> r'.addr < r.len)
  }

  lemma TakeMoves(images: map<uint16, Image>, r: Receiver, m: Message)
    requires ReceiverOk(images, r) && Genuine(images, m) && r.receiving && m.Data? && m.id == r.id
    ensures var r' := r.Take(m.addr, m.data).0;
            if m.addr == r.addr then MovedOn(r, r') else r' == r
  {
    hide r.Stored, Received, InstallOk, Increasing;
  }

  /** A receiver moves on in its image only along a packet that has been sent. */
  lemma MovesAlongChain(s: System, e: Event, k: nat)
    requires SystemOk(s) && Wellformed(s) && Enabled(s, e) && k < |s.receivers| && s.receivers[k].receiving
    ensures k < |Next(s, e).receivers|
    ensures var r, r' := s.receivers[k], Next(s, e).receivers[k];
            r' == r || (SentAt(s.sent, r.id, r.addr) && MovedOn(r, r'))
  {
    hide ReceiverOk, Receiver.Take, MovedOn, Genuine;
    var r := s.receivers[k];
    assert r in s.receivers;
    if e.ReceiverRuns? && e.r == k && e.packet.Some? && e.packet.value.Data? && e.packet.value.id == r.id {
      TakeMoves(s.images, r, e.packet.value);
    }
  }

  /** Without such a chain an abandoned receiver waits for ever. */
  lemma {:induction false} WaitsForEver(s: System, es: seq<Event>, k: nat)
    requires SystemOk(s) && Wellformed(s) && AllEnabled(s, es) && Abandoned(s, k) && !ChainedFor(s, k)
    ensures k < |Run(s, es).receivers| && Run(s, es).receivers[k].receiving
    decreases |es|
  {
    hide SystemOk, Wellformed, Enabled, Next, SentAt;
    if es != [] {
      var s' := Next(s, es[0]);
      NextKeeps(s, es[0]);
      StaysAbandoned(s, es[0], k);
      MovesAlongChain(s, es[0], k);
      SameChain(s.sent, s'.sent, s.receivers[k].id, s'.receivers[k].addr, s.receivers[k].len);
      WaitsForEver(s', es[1..], k);
    }
  }

  /** With it, the old packets may all arrive after all. */
  lemma {:induction false} OldPacketsSuffice(s: System, k: nat) returns (es: seq<Event>)
    requires SystemOk(s) && Wellformed(s) && k < |s.receivers| && s.receivers[k].receiving && ChainedFor(s, k)
    ensures Finishes(s, es, k)
    decreases s.receivers[k].len - s.receivers[k].addr
  {
    hide SystemOk, Wellformed, AllEnabled, Run, Next, Enabled;
    ReceiverIsValid(s, k);
    var r := s.receivers[k];
    var m :| m in s.sent && m.Data? && m.id == r.id && m.addr == r.addr;
    var deliver := ReceiverRuns(k, Some(m), false);
    var s' := Deliver(s, k, m);
    var rest: seq<Event> := [];
    if s'.receivers[k].receiving {
      rest := OldPacketsSuffice(s', k);
      FinishesLater(s, deliver, rest, k);
    } else {
      FinishesNow(s, deliver, k);
    }
    es := [deliver] + rest;
  }

  lemma ReceiverIsValid(s: System, k: nat)
    requires Wellformed(s) && k < |s.receivers|
    ensures s.receivers[k].Valid()
  {
    assert s.receivers[k] in s.receivers;
  }

  /** When a receiver can still get its program: while the image is being sent, and after that exactly
      if packets that have been sent lead from its address to the end. It listens to no other image
      before that. */
  lemma CanFinishExactly(s: System, k: nat)
    requires SystemOk(s) && Wellformed(s) && k < |s.receivers| && s.receivers[k].receiving
    ensures (exists es :: Finishes(s, es, k)) <==> !Abandoned(s, k) || ChainedFor(s, k)
  {
    hide Chained, Run, AllEnabled;
    if !Abandoned(s, k) {
      assert s.receivers[k] in s.receivers;
      var es := CanFinish(s, k);
      assert Finishes(s, es, k);
    } else if ChainedFor(s, k) {
      var es := OldPacketsSuffice(s, k);
      assert Finishes(s, es, k);
    } else if es :| Finishes(s, es, k) {
      WaitsForEver(s, es, k);
    }
  }

  // ----- What is broadcast -----

  /** What is sent in n calls of the sender's thread in which its timer has expired and no packet comes. */
  function Calls(s: Sender, n: nat): (Sender, seq<Message>)
    decreases n
  {
    if n == 0 then (s, [])
    else
      var (next, m) := s.Step(None, true);
      var (last, more) := Calls(next, n - 1);
      (last, (if m.Some? then [m.value] else []) + more)
  }

  /** The packets of an image from an address on: each has 32 bytes, but the last one may have less. */
  function PacketsFrom(id: uint16, image: Image, addr: nat): seq<Message>
    decreases |image| - addr
  {
    if addr >= |image| then []
    else [Data(id, addr, |image|, if addr + 32 <= |image| then image[addr..addr + 32] else image[addr..])]
         + PacketsFrom(id, image, addr + 32)
  }

  lemma {:induction false} SendsTheRest(s: Sender, n: nat)
    requires s.Valid() && !s.point.Idle? && n == |PacketsFrom(s.id, s.image, s.addr)| + 1
    ensures Calls(s, n) == (Sender(Idle, false, |s.image|, s.id, s.image), PacketsFrom(s.id, s.image, s.addr))
    decreases n
  {
    if s.addr < |s.image| {
      var next := s.Step(None, true).0;
      assert PacketsFrom(s.id, s.image, s.addr + 32) == PacketsFrom(s.id, s.image, next.addr);
      assert s.addr + 32 > |s.image| ==> s.image[s.addr..|s.image|] == s.image[s.addr..];
      SendsTheRest(next, n - 1);
    } else {
      var next := s.Step(None, true).0;
      assert next == Sender(Idle, false, |s.image|, s.id, s.image) && Calls(next, 0) == (next, []);
      assert n == 1 && Calls(s, n).1 == [] + [];
    }
  }

  /** Undisturbed, a broadcast sends all packets of the image, in order and once each, and then ends. */
  lemma BroadcastIsComplete(s: Sender, n: nat)
    requires s.Valid() && s.point.Idle? && s.sending && n == |PacketsFrom(s.id, s.image, 0)| + 1
    ensures Calls(s, n) == (Sender(Idle, false, |s.image|, s.id, s.image), PacketsFrom(s.id, s.image, 0))
  {
    SendsTheRest(s.(point := Waiting, addr := 0), n);
    assert s.Step(None, true) == s.(point := Waiting, addr := 0).Step(None, true);
    assert n > 0;
  }

  /** After a NACK it sends what is missing from there on, if that is not further than it has come. */
  lemma NackIsServed(s: Sender, addr: uint16, n: nat)
    requires s.Valid() && s.point.Waiting? && n == |PacketsFrom(s.id, s.image, Min(addr, s.addr))| + 1
    ensures var (s', m) := s.Step(Some(Nack(addr)), false);
            m == None && Calls(s', n).1 == PacketsFrom(s.id, s.image, Min(addr, s.addr))
  {
    SendsTheRest(s.Step(Some(Nack(addr)), false).0, n);
  }

  // ----- A program that is not the image -----

  /** For every image longer than a packet there is a run in which a receiver is opened by the second
      packet, and the data of that packet stands at the start of the program it starts. */
  lemma WrongProgram(receiver: Receiver, image: Image) returns (es: seq<Event>)
    requires receiver.Valid() && !receiver.receiving && receiver.installed == [] && receiver.id == 0 && |image| > UDPDATASIZE
    ensures Wellformed(Initial([receiver])) && AllEnabled(Initial([receiver]), es)
    ensures var s := Run(Initial([receiver]), es);
            && |s.receivers| == 1 && s.images == map[1 := image]
            && |s.receivers[0].installed| == 1 && s.receivers[0].installed[0].program == Received(image, UDPDATASIZE)
            && var n := Min(UDPDATASIZE, |image| - UDPDATASIZE);
               Received(image, UDPDATASIZE) == image <==> image[UDPDATASIZE..UDPDATASIZE + n] == image[..n]
  {
    hide SystemOk, AllEnabled, Run, Received, Next, Wellformed, Initial;
    var s0, send, next := Initial([receiver]), SenderRuns(None, false), SenderRuns(None, true);
    var s1, s2, s3 := TwoPackets(receiver, image);
    var open := ReceiverRuns(0, Some(s2.sender.Packet()), false);
    var s4 := OpenedBySecond(receiver, image, s2, s3);
    var rest := CanFinish(s4, 0);
    Prepend(s3, open, rest);
    Prepend(s2, next, [open] + rest);
    Prepend(s1, send, [next] + ([open] + rest));
    Prepend(s0, Start(image), [send] + ([next] + ([open] + rest)));
    es := [Start(image)] + ([send] + ([next] + ([open] + rest)));
    SameImages(s4, rest);
    RunKeeps(s4, rest);
    FirstInstall(Run(s4, rest), image);
    ReceivedIsImage(image, UDPDATASIZE);
  }

  /** A broadcast starts, and two packets are sent. */
  lemma TwoPackets(receiver: Receiver, image: Image) returns (s1: System, s2: System, s3: System)
    requires receiver.Valid() && !receiver.receiving && receiver.installed == [] && |image| > UDPDATASIZE
    ensures var s0, send, next := Initial([receiver]), SenderRuns(None, false), SenderRuns(None, true);
            && Wellformed(s0) && Enabled(s0, Start(image)) && s1 == Next(s0, Start(image)) && Wellformed(s1)
            && Enabled(s1, send) && s2 == Next(s1, send) && Wellformed(s2)
            && Enabled(s2, next) && s3 == Next(s2, next) && Wellformed(s3) && SystemOk(s3)
    ensures s2.sender == Sender(Waiting, true, UDPDATASIZE, 1, image)
    ensures s3.receivers == [receiver] && s3.images == map[1 := image] && s2.sender.Packet() in s3.sent
    ensures s3.sender == Sender(Waiting, true, Min(2 * UDPDATASIZE, |image|), 1, image)
  {
    hide SystemOk;
    Begins([receiver]);
    OkIsWellformed(Initial([receiver]));
    NextKeeps(Initial([receiver]), Start(image));
    s1 := Next(Initial([receiver]), Start(image));
    NextKeeps(s1, SenderRuns(None, false));
    s2 := Next(s1, SenderRuns(None, false));
    NextKeeps(s2, SenderRuns(None, true));
    s3 := Next(s2, SenderRuns(None, true));
  }

  lemma OpenedBySecond(receiver: Receiver, image: Image, s2: System, s3: System) returns (s4: System)
    requires receiver.Valid() && !receiver.receiving && receiver.installed == [] && receiver.id == 0 && |image| > UDPDATASIZE
    requires s2.sender == Sender(Waiting, true, UDPDATASIZE, 1, image) && SystemOk(s3) && Wellformed(s3)
    requires s3.receivers == [receiver] && s3.images == map[1 := image] && s2.sender.Packet() in s3.sent
    requires s3.sender == Sender(Waiting, true, Min(2 * UDPDATASIZE, |image|), 1, image)
    ensures var open := ReceiverRuns(0, Some(s2.sender.Packet()), false);
            Enabled(s3, open) && s4 == Next(s3, open) && Wellformed(s4) && SystemOk(s4)
    ensures Served(s4, 0) && s4.images == map[1 := image] && |s4.receivers| == 1
    ensures var r := s4.receivers[0]; r.installed == [] && r.id == 1 && r.origin == UDPDATASIZE
  {
    hide SystemOk;
    var open := ReceiverRuns(0, Some(s2.sender.Packet()), false);
    NextKeeps(s3, open);
    s4 := Next(s3, open);
  }

  lemma FirstInstall(s: System, image: Image)
    requires SystemOk(s) && s.images == map[1 := image] && |s.receivers| == 1 && |s.receivers[0].installed| == 1
    requires s.receivers[0].installed[0].id == 1 && s.receivers[0].installed[0].origin == UDPDATASIZE < |image|
    ensures s.receivers[0].installed[0].program == Received(image, UDPDATASIZE)
  {
    assert s.receivers[0] in s.receivers && s.receivers[0].installed[0] in s.receivers[0].installed;
  }

  // ----- The protothreads as they run -----

  /** The packet buffer that every handler reads from and sends from. */
  class Buffer {
    var nack: bool
    var id: uint16
    var addr: uint16
    var len: uint16
    var data: seq<byte>

    constructor (m: Message)
      ensures nack == m.Nack? && addr == m.addr && (m.Data? ==> Contents() == m)
    {
      nack, addr := m.Nack?, m.addr;
      id, len, data := 0, 0, [];
      if m.Data? {
        id, len, data := m.id, m.len, m.data;
      }
    }

    function Contents(): Message
      reads this
    {
      if nack then Nack(addr) else Data(id, addr, len, data)
    }
  }

  /** send_nack writes into the buffer that holds the packet just received. */
  method SendNack(uh: Buffer, addr: uint16) returns (sent: Message)
    modifies uh`nack, uh`addr
    ensures sent == Nack(addr) == uh.Contents() && uh.addr == addr
  {
    uh.nack, uh.addr := true, addr;
    return uh.Contents();
  }

  /** A node as a receiver; its EEPROM is written in place. */
  class ReceiverNode {
    var receiving: bool
    var addr: uint16
    var len: uint16
    var id: uint16
    const eeprom: array<byte>
    ghost var origin: uint16
    ghost var installed: seq<Install>

    ghost function Abstract(): Receiver
      reads this, eeprom
    {
      Receiver(receiving, addr, len, id, eeprom[..], origin, installed)
    }

    constructor ()
      ensures Abstract().Valid() && !receiving && id == 0 && installed == [] && fresh(eeprom)
    {
      eeprom := new byte[0x1_0000 + UDPDATASIZE](i => 0);
      receiving, addr, len, id, origin, installed := false, 0, 0, 0, 0, [];
    }

    /** eeprom_write at the current address */
    method Write(data: seq<byte>)
      requires addr + |data| <= eeprom.Length
      modifies eeprom
      ensures eeprom[..] == old(Abstract().Stored(data))
    {
      for k := 0 to |data|
        invariant eeprom[..] == old(eeprom[..addr]) + data[..k] + old(eeprom[addr + k..])
      {
        eeprom[addr + k] := data[k];
      }
      assert data[..|data|] == data;
    }

    /** The end of the loop over the image: wait for the next packet, or start the program. */
    method Continue()
      requires len <= eeprom.Length
      modifies this`receiving, this`installed
      ensures Abstract() == old(Abstract().Continue())
    {
      receiving := addr < len;
      if !receiving {
        assert eeprom[..][..len] == eeprom[..len];
        installed := installed + [Install(id, eeprom[..len], origin)];
      }
    }

    /** The body of that loop. */
    method Take(uh: Buffer) returns (out: Option<Message>)
      requires Abstract().Valid() && addr < len && |uh.data| <= UDPDATASIZE
      modifies this`addr, this`receiving, this`installed, eeprom, uh`nack, uh`addr
      ensures (Abstract(), out) == old(Abstract().Take(uh.addr, uh.data))
    {
      out := None;
      if uh.addr == addr {
        if |uh.data| > 0 {
          Write(uh.data);
          addr := (addr + |uh.data|) % 0x1_0000;
        }
      } else if uh.addr > addr {
        var nack := SendNack(uh, addr);
        out := Some(nack);
      }
      Continue();
    }

    /** recv_udpthread. The test after a NACK for byte 0 reads the address that the NACK has put
        into the buffer, so the loop around it is left. */
    method Run(uh: Buffer, newData: bool, expired: bool) returns (out: Option<Message>)
      requires Abstract().Valid() && |uh.data| <= UDPDATASIZE
      modifies this, eeprom, uh`nack, uh`addr
      ensures (Abstract(), out) == old(Abstract().Step(if newData then Some(uh.Contents()) else None, expired))
    {
      out := None;
      if receiving {
        if !(expired || (newData && !uh.nack && uh.id == id)) {
          return;
        }
        if expired {
          var nack := SendNack(uh, addr);
          return Some(nack);
        }
      } else {
        var again := true;
        while again
          invariant eeprom[..] == old(eeprom[..]) && uh.data == old(uh.data) && uh.len == old(uh.len) && uh.id == old(uh.id)
          invariant !receiving && installed == old(installed) && len == old(len) && id == old(id)
          invariant again ==> out == None && uh.nack == old(uh.nack) && uh.addr == old(uh.addr) && addr == old(addr)
          invariant !again ==>
                      && newData && !old(uh.nack) && uh.id > id && uh.addr == 0 && origin == old(uh.addr)
                      && out == if old(uh.addr) != 0 then Some(Nack(0)) else None
          invariant again ==> origin == old(origin)
          decreases again
        {
          if !(newData && !uh.nack && uh.id > id) {
            return;
          }
          origin := uh.addr;
          if uh.addr != 0 {
            addr := 0;
            var nack := SendNack(uh, 0);
            out := Some(nack);
          }
          again := uh.addr != 0;
        }
        addr, id, len := 0, uh.id, uh.len;
      }
      if addr < len {
        var nack := Take(uh);
        out := if nack.Some? then nack else out;
      } else {
        Continue();
      }
    }
  }

  /** The sending node. */
  class SenderNode {
    var point: SenderPoint
    var sending: bool
    var addr: nat
    var id: uint16
    var image: Image

    ghost function Abstract(): Sender
      reads this
    {
      Sender(point, sending, addr, id, image)
    }

    constructor ()
      ensures Abstract() == Initial([]).sender
    {
      point, sending, addr, id, image := Idle, false, 0, 0, [];
    }

    /** codeprop_start_broadcast */
    method StartBroadcast(newImage: Image)
      requires id < 0xffff
      modifies this
      ensures Abstract() == old(Abstract()).Start(newImage)
    {
      image := newImage;
      addr := 0;
      id := id + 1;
      sending := true;
    }

    /** send_udpdata */
    method SendData() returns (m: Message, n: nat)
      requires addr < |image|
      ensures m == Abstract().Packet() && n == |m.data| && n > 0
    {
      n := if |image| - addr > UDPDATASIZE then UDPDATASIZE else |image| - addr;
      m := Data(id, addr, |image|, image[addr..addr + n]);
    }

    method NextPacket(came: bool) returns (out: Option<Message>)
      requires addr <= |image|
      modifies this`point, this`addr, this`sending
      ensures (Abstract(), out) == old(Abstract()).NextPacket(came)
    {
      if addr < |image| {
        var m, n := SendData();
        addr := addr + n;
        point := if came then Yielded else Waiting;
        return Some(m);
      }
      sending, point := false, Idle;
      return None;
    }

    /** send_udpthread */
    method Run(packet: Option<Message>, expired: bool) returns (out: Option<Message>)
      requires Abstract().Valid()
      modifies this
      ensures (Abstract(), out) == old(Abstract()).Step(packet, expired)
    {
      out := None;
      if point == Idle {
        if sending {
          addr := 0;
          out := NextPacket(packet.Some?);
        }
        return;
      }
      if expired && (point == Yielded || packet.None?) {
        out := NextPacket(packet.Some?);
      } else if packet.Some? {
        if packet.value.Nack? && packet.value.addr <= addr {
          addr := packet.value.addr;
        }
        point := Yielded;
      } else {
        point := Waiting;
      }
    }
  }
}
