/** The list of all resources in link format (RFC 6690), generated a block at a time without ever
    being built as a whole (apps/er-coap/er-coap-res-well-known-core.c, without a filter). */
module WellKnown {
  import opened Basics
  import Block2

  const COMMA: byte := 0x2c
  const SEMICOLON: byte := 0x3b
  const LESS: byte := 0x3c
  const GREATER: byte := 0x3e
  const SLASH: byte := 0x2f

  datatype Link = Link(url: seq<byte>, attributes: Option<seq<byte>>)

  predicate HasAttributes(l: Link) {
    l.attributes.Some? && l.attributes.value != [] && l.attributes.value[0] != SEMICOLON
  }

  function LinkText(l: Link): seq<byte> {
    [LESS, SLASH] + l.url + [GREATER] + if HasAttributes(l) then [SEMICOLON] + l.attributes.value else []
  }

  /** The links after a first part, separated by commas. */
  function Links(links: seq<Link>, before: seq<byte>): (text: seq<byte>)
    ensures before <= text
    decreases |links|
  {
    if links == [] then before
    else Links(links[1..], before + (if before != [] then [COMMA] else []) + LinkText(links[0]))
  }

  /** The whole representation. */
  function LinkFormat(links: seq<Link>): seq<byte> {
    Links(links, [])
  }

  /** The part of a text that a block shows. */
  function Window(text: seq<byte>, offset: nat, size: nat): seq<byte> {
    text[Min(offset, |text|)..Min(offset + size, |text|)]
  }

  class Generator {
    const buffer: array<byte>
    const preferredSize: nat
    const offset: nat
    // The position in the whole text, and that in the buffer, which counts on past its end.
    var strpos: nat
    var bufpos: nat

    constructor (buffer: array<byte>, preferredSize: nat, offset: nat)
      requires 0 < preferredSize < buffer.Length
      ensures this.buffer == buffer && this.preferredSize == preferredSize && this.offset == offset
      ensures Shows([])
    {
      this.buffer, this.preferredSize, this.offset := buffer, preferredSize, offset;
      strpos, bufpos := 0, 0;
    }

    /** The buffer shows its part of the text generated so far. */
    ghost predicate Shows(text: seq<byte>)
      reads this`strpos, this`bufpos, buffer
    {
      && 0 < preferredSize < buffer.Length
      && strpos == |text| && bufpos == |Window(text, offset, preferredSize)|
      && buffer[..bufpos] == Window(text, offset, preferredSize)
    }

    /** The block is full, and the text goes on behind it for as far as it has been generated. */
    ghost predicate Full(text: seq<byte>)
      reads this`bufpos, buffer
    {
      && 0 < preferredSize < buffer.Length && bufpos >= preferredSize
      && |text| >= offset + preferredSize && buffer[..preferredSize] == Window(text, offset, preferredSize)
    }

    /** ADD_CHAR_IF_POSSIBLE */
    method AddChar(c: byte, ghost text: seq<byte>)
      requires Shows(text)
      modifies this`strpos, this`bufpos, buffer
      ensures Shows(text + [c])
    {
      if strpos >= offset && bufpos < preferredSize {
        buffer[bufpos] := c;
        bufpos := bufpos + 1;
      }
      strpos := strpos + 1;
    }

    /** snprintf with "%s" at the position in the buffer: what does not fit is dropped but counted,
        and a zero follows what was written. */
    method Print(s: seq<byte>)
      requires bufpos <= preferredSize < buffer.Length
      modifies this`bufpos, buffer
      ensures bufpos == old(bufpos) + |s|
      ensures var n := Min(|s|, preferredSize - old(bufpos));
              buffer[..old(bufpos) + n] == old(buffer[..bufpos]) + s[..n]
    {
      var n := if |s| < preferredSize - bufpos then |s| else preferredSize - bufpos;
      forall k | 0 <= k < n {
        buffer[bufpos + k] := s[k];
      }
      buffer[bufpos + n] := 0;
      bufpos := bufpos + |s|;
    }

    /** ADD_STRING_IF_POSSIBLE; it ends the loop when the buffer is full, or, if `strict`, only when
        it has run over. */
    method AddString(s: seq<byte>, strict: bool, ghost text: seq<byte>) returns (stop: bool)
      requires Shows(text) && (strict ==> s != [])
      modifies this`strpos, this`bufpos, buffer
      ensures if stop then Full(text + s) && (strict ==> |text + s| > offset + preferredSize)
              else Shows(text + s) && |text + s| <= offset + preferredSize && (!strict ==> |text + s| < offset + preferredSize)
    {
      if strpos + |s| > offset {
        var skip := if offset > strpos then offset - strpos else 0;
        Printed(text, s, offset, preferredSize, skip);
        Print(s[skip..]);
        if bufpos > preferredSize || (!strict && bufpos == preferredSize) {
          return true;
        }
      }
      strpos := strpos + |s|;
      return false;
    }

    /** One round of the loop over the resources. */
    method AddLink(l: Link, ghost text: seq<byte>) returns (stop: bool)
      requires Shows(text)
      modifies this`strpos, this`bufpos, buffer
      ensures var after := text + (if text != [] then [COMMA] else []) + LinkText(l);
              if stop then bufpos >= preferredSize && |after| > offset + preferredSize
                           && buffer[..preferredSize] == Window(after, offset, preferredSize)
              else Shows(after) && |after| <= offset + preferredSize
    {
      hide Shows, Window, LinkText;
      ghost var t := text;
      ShowsFacts(t);
      if strpos > 0 {
        AddChar(COMMA, t);
        t := t + [COMMA];
      }
      AddChar(LESS, t);
      t := t + [LESS];
      AddChar(SLASH, t);
      t := t + [SLASH];
      stop := AddString(l.url, false, t);
      LinkParts(text, l);
      t := t + l.url;
      if stop {
        StaysFull(t, [GREATER] + AttributeText(l));
        return;
      }
      AddChar(GREATER, t);
      t := t + [GREATER];
      if HasAttributes(l) {
        AddChar(SEMICOLON, t);
        t := t + [SEMICOLON];
        stop := AddString(l.attributes.value, true, t);
        t := t + l.attributes.value;
        if stop {
          StaysFull(t, []);
        }
      }
    }

    lemma ShowsFacts(text: seq<byte>)
      requires Shows(text)
      ensures strpos == |text| && 0 < preferredSize < buffer.Length
    {
    }

    /** More text does not change a full block. */
    lemma StaysFull(text: seq<byte>, more: seq<byte>)
      requires Full(text)
      ensures Full(text + more)
    {
    }
  }

  function AttributeText(l: Link): seq<byte> {
    if HasAttributes(l) then [SEMICOLON] + l.attributes.value else []
  }

  lemma LinkParts(text: seq<byte>, l: Link)
    ensures var t := text + if text != [] then [COMMA] else [];
            var head := t + [LESS] + [SLASH] + l.url;
            && (text == [] ==> t == text)
            && t + LinkText(l) == head + ([GREATER] + AttributeText(l))
            && (HasAttributes(l) ==> t + LinkText(l) == head + [GREATER] + [SEMICOLON] + l.attributes.value == t + LinkText(l) + [])
            && (!HasAttributes(l) ==> t + LinkText(l) == head + [GREATER])
  {
  }

  /** What AddString appends to the block. */
  lemma Printed(text: seq<byte>, s: seq<byte>, offset: nat, size: nat, skip: nat)
    requires |text| + |s| > offset && skip == (if offset > |text| then offset - |text| else 0)
    ensures skip <= |s| && |Window(text, offset, size)| <= size
    ensures var shown, rest := Window(text, offset, size), s[skip..];
            && Window(text + s, offset, size) == shown + rest[..Min(|rest|, size - |shown|)]
            && (|shown| + |rest| <= size && (s != [] || |shown| < size) ==> |shown| + |rest| == |text + s| - offset)
            && (|shown| + |rest| >= size ==> |text + s| >= offset + size)
            && (|shown| + |rest| > size ==> |text + s| > offset + size)
  {
  }

  /** The block of the resource list at an offset, as the payload and the new offset. The bytes of
      the payload after a full block are what else is in the buffer. */
  method GetHandler(links: seq<Link>, buffer: array<byte>, preferredSize: nat, offset: nat) returns (length: nat, newOffset: int)
    requires 0 < preferredSize < buffer.Length
    modifies buffer
    ensures var text := LinkFormat(links);
            && Min(length, preferredSize) == |Window(text, offset, preferredSize)|
            && buffer[..Min(length, preferredSize)] == Window(text, offset, preferredSize)
            && newOffset == (if offset + preferredSize >= |text| then -1 else offset + preferredSize)
            && (newOffset != -1 ==> length >= preferredSize)
  {
    var g := new Generator(buffer, preferredSize, offset);
    ghost var text: seq<byte> := [];
    var k, stop := 0, false;
    while k < |links| && !stop
      invariant k <= |links| && LinkFormat(links) == Links(links[k..], text)
      invariant g.buffer == buffer && g.preferredSize == preferredSize && g.offset == offset
      invariant if stop then g.bufpos >= preferredSize && |text| > offset + preferredSize
                             && buffer[..preferredSize] == Window(text, offset, preferredSize)
                else g.Shows(text) && |text| <= offset + preferredSize
      decreases |links| - k, !stop
    {
      ghost var before := text;
      stop := g.AddLink(links[k], text);
      text := text + (if text != [] then [COMMA] else []) + LinkText(links[k]);
      assert links[k..][1..] == links[k + 1..] && links[k..][0] == links[k];
      k := k + 1;
    }
    length := g.bufpos;
    newOffset := if stop then offset + preferredSize else -1;
    if stop {
      WindowKept(text, LinkFormat(links), offset, preferredSize);
    }
  }

  lemma WindowKept(text: seq<byte>, whole: seq<byte>, offset: nat, size: nat)
    requires text <= whole && |text| >= offset + size
    ensures Window(whole, offset, size) == Window(text, offset, size)
  {
  }

  /** Asking for block after block at the offset returned, until that is -1, gives the whole list and
      ends. */
  method ReadAll(links: seq<Link>, buffer: array<byte>, preferredSize: nat) returns (all: seq<byte>)
    requires 0 < preferredSize < buffer.Length
    modifies buffer
    ensures all == LinkFormat(links)
  {
    ghost var text := LinkFormat(links);
    all := [];
    var offset: int := 0;
    while offset != -1
      invariant if offset == -1 then all == text else 0 <= offset <= |text| && all == text[..offset]
      decreases offset != -1, |text| - offset
    {
      var length, next := GetHandler(links, buffer, preferredSize, offset);
      var shown := if length < preferredSize then length else preferredSize;
      all := all + buffer[..shown];
      offset := next;
    }
  }

  /** The response of the handler once the server has cut the payload to the block size. Up to the
      end of the list it is that of a resource that knows blocks; behind it, the error is the same
      but the new offset says that this was the last block. */
  method Respond(links: seq<Link>, buffer: array<byte>, rest: Block2.ChunkSize, offset: nat, size: nat)
    returns (r: Block2.Response, next: int)
    requires 0 < size <= rest && size < buffer.Length
    modifies buffer
    ensures var text := LinkFormat(links);
            var (response, newOffset) := Block2.Handle(Block2.Aware(text), rest, offset, size);
            && (text != [] || offset == 0 ==> r == response)
            && (next == newOffset <==> offset == 0 || offset < |text|)
            && (next != newOffset ==> next == -1)
  {
    hide LinkFormat, Window;
    var length, newOffset := GetHandler(links, buffer, size, offset);
    next := newOffset;
    InWindow(LinkFormat(links), offset, size);
    EmptyList(links);
    if length > 0 {
      r := Block2.Response(Block2.CONTENT_2_05, None, buffer[..if length < size then length else size]);
    } else if links != [] {
      r := Block2.Response(Block2.BAD_OPTION_4_02, None, Block2.BLOCK_OUT_OF_SCOPE);
    } else {
      r := Block2.Response(Block2.CONTENT_2_05, None, []);
    }
  }

  lemma InWindow(text: seq<byte>, offset: nat, size: nat)
    requires size > 0
    ensures Window(text, offset, size) == [] <==> offset >= |text|
    ensures offset <= |text| ==> Window(text, offset, size) == text[offset..Min(offset + size, |text|)]
  {
  }

  lemma EmptyList(links: seq<Link>)
    ensures LinkFormat(links) == [] <==> links == []
  {
    if links != [] {
      LinksNotEmpty(links, []);
    }
  }

  lemma {:induction false} LinksNotEmpty(links: seq<Link>, before: seq<byte>)
    requires links != []
    ensures Links(links, before) != []
  {
    var text := before + (if before != [] then [COMMA] else []) + LinkText(links[0]);
    assert text <= Links(links[1..], text);
  }
}
