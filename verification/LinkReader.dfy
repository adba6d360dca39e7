/** A reader of the link format (RFC 6690, section 2), for which the list of all resources is written
    (apps/er-coap/er-coap-res-well-known-core.c): it gets the URLs and the attributes back. */
module LinkReader {
  import opened Basics
  import opened WellKnown

  datatype Seen = Seen(target: seq<byte>, parameters: seq<byte>)

  datatype Quoting = Outside | Quoted | Escaped

  /** The next state in and out of quoted strings (34), where a backslash (92) takes a byte as it is. */
  function Next(q: Quoting, c: byte): Quoting {
    match q
    case Outside => if c == 34 then Quoted else Outside
    case Quoted => if c == 34 then Outside else if c == 92 then Escaped else Quoted
    case Escaped => Quoted
  }

  /** The position of the first comma (44) outside of quoted strings. */
  function LinkEnd(text: seq<byte>, q: Quoting): (n: nat)
    ensures n <= |text|
  {
    if text == [] || (text[0] == 44 && q == Outside) then 0
    else 1 + LinkEnd(text[1..], Next(q, text[0]))
  }

  /** The position of the first byte `>` (62). */
  function TargetEnd(text: seq<byte>): (n: nat)
    ensures n <= |text|
  {
    if text == [] || text[0] == 62 then 0 else 1 + TargetEnd(text[1..])
  }

  /** The links of a text: each is a target between `<` (60) and `>` and parameters that start with a
      semicolon (59). */
  function Read(text: seq<byte>): Option<seq<Seen>>
    decreases |text|
  {
    if text == [] then Some([])
    else if text[0] != 60 then None
    else
      var n := TargetEnd(text);
      if n == |text| then None
      else
        var rest := text[n + 1..];
        var m := LinkEnd(rest, Outside);
        if m > 0 && rest[0] != 59 then None
        else
          var link := Seen(text[1..n], rest[..m]);
          if m == |rest| then Some([link])
          else
            match Read(rest[m + 1..])
            case None => None
            case Some(more) => Some([link] + more)
  }

  /** All quoted strings of an attribute text end in it, and there is no comma outside of them. */
  predicate Enclosed(text: seq<byte>, q: Quoting) {
    if text == [] then q == Outside
    else !(text[0] == 44 && q == Outside) && Enclosed(text[1..], Next(q, text[0]))
  }

  /** What the reader is to see of a resource: its path, and its attributes if it has any and they do
      not start with a semicolon of their own. */
  function SeenOf(l: Link): Seen {
    Seen([47] + l.url, if l.attributes.Some? && l.attributes.value != [] && l.attributes.value[0] != 59
                       then [59] + l.attributes.value else [])
  }

  function SeenOfAll(links: seq<Link>): (seen: seq<Seen>)
    ensures |seen| == |links| && forall k | 0 <= k < |links| :: seen[k] == SeenOf(links[k])
  {
    seq(|links|, k requires 0 <= k < |links| => SeenOf(links[k]))
  }

  predicate Clean(l: Link) {
    && (forall k | 0 <= k < |l.url| :: l.url[k] != 62)
    && (l.attributes.Some? ==> Enclosed(l.attributes.value, Outside))
  }

  /** Every list of resources is read back, whatever their number and order. */
  lemma {:induction false} ListReadsBack(links: seq<Link>)
    requires forall l <- links :: Clean(l)
    ensures Read(LinkFormat(links)) == Some(SeenOfAll(links))
  {
    hide Read, Clean, LinkText;
    if links == [] {
      ReadsNothing();
    } else {
      var more := links[1..];
      NotEmpty(links[0]);
      LinksAppend(more, LinkText(links[0]));
      ListReadsBack(more);
      EmptyList(more);
      assert LinkFormat(links) == LinkText(links[0]) + Others(more);
      assert SeenOfAll(links) == [SeenOf(links[0])] + SeenOfAll(more);
      assert more == [] ==> SeenOfAll(links) == [SeenOf(links[0])];
      ReadsOne(links[0], LinkFormat(more), more == []);
    }
  }

  lemma ReadsNothing()
    ensures Read([]) == Some([])
  {
  }

  lemma NotEmpty(l: Link)
    ensures LinkText(l) != [] && [] + [] + LinkText(l) == LinkText(l)
  {
  }

  /** The list after a first part is the list itself, behind a comma. */
  lemma {:induction false} LinksAppend(links: seq<Link>, before: seq<byte>)
    requires before != []
    ensures Links(links, before) == before + Others(links)
    decreases |links|
  {
    hide LinkText, Links, LinkFormat;
    LinksStep(links, before);
    if links != [] {
      var text, more := LinkText(links[0]), links[1..];
      NotEmpty(links[0]);
      LinksStep(links, []);
      LinksAppend(more, before + [COMMA] + text);
      LinksAppend(more, text);
      Associative(before, [COMMA], text, Others(more));
    } else {
      assert before + Others(links) == before;
    }
  }

  function Others(links: seq<Link>): seq<byte> {
    if links == [] then [] else [COMMA] + LinkFormat(links)
  }

  lemma Associative(a: seq<byte>, b: seq<byte>, c: seq<byte>, d: seq<byte>)
    ensures a + b + c + d == a + (b + (c + d))
  {
  }

  lemma LinksStep(links: seq<Link>, before: seq<byte>)
    ensures LinkFormat(links) == Links(links, [])
    ensures if links == [] then Links(links, before) == before
            else Links(links, before) ==
                   Links(links[1..], if before == [] then LinkText(links[0]) else before + [COMMA] + LinkText(links[0]))
  {
    hide LinkText;
    if links != [] {
      NotEmpty(links[0]);
      assert before + [] == before;
    }
  }

  lemma ReadsOne(l: Link, more: seq<byte>, last: bool)
    requires Clean(l) && (last ==> more == []) && Read(more).Some?
    ensures Read(LinkText(l) + if last then [] else [COMMA] + more)
         == Some(if last then [SeenOf(l)] else [SeenOf(l)] + Read(more).value)
  {
    hide Read, Enclosed, LinkEnd, TargetEnd, Next;
    var tail: seq<byte> := if last then [] else [COMMA] + more;
    var parameters, head := SeenOf(l).parameters, [60, 47] + l.url;
    TextParts(l, tail);
    EndsTarget(head, parameters + tail);
    EnclosedParameters(l);
    EndsLink(parameters, tail, Outside);
    assert last || tail[1..] == more;
    assert head[1..] == [47] + l.url;
    ReadsFirst(head, parameters, tail);
  }

  lemma TextParts(l: Link, tail: seq<byte>)
    requires Clean(l)
    ensures var head := [60, 47] + l.url;
            && LinkText(l) + tail == head + [62] + (SeenOf(l).parameters + tail)
            && forall k | 0 <= k < |head| :: head[k] != 62
  {
    hide Enclosed;
    assert HasAttributes(l) ==> LinkText(l) == [60, 47] + l.url + [62] + ([59] + l.attributes.value);
    assert !HasAttributes(l) ==> LinkText(l) == [60, 47] + l.url + [62] + [];
  }

  lemma ReadsFirst(head: seq<byte>, parameters: seq<byte>, tail: seq<byte>)
    requires |head| >= 1 && head[0] == 60 && (parameters != [] ==> parameters[0] == 59)
    requires var text := head + [62] + (parameters + tail);
             TargetEnd(text) == |head| && LinkEnd(parameters + tail, Outside) == |parameters|
    requires tail == [] || Read(tail[1..]).Some?
    ensures Read(head + [62] + (parameters + tail))
         == Some(if tail == [] then [Seen(head[1..], parameters)] else [Seen(head[1..], parameters)] + Read(tail[1..]).value)
  {
    hide Read, TargetEnd, LinkEnd;
    var text, rest := head + [62] + (parameters + tail), parameters + tail;
    Cut(head, [62], rest);
    Cut(parameters, tail[..Min(1, |tail|)], tail[Min(1, |tail|)..]);
    Regrouped(parameters, tail);
    ReadUnfolds(text, |head|, |parameters|);
  }

  lemma Cut(a: seq<byte>, b: seq<byte>, c: seq<byte>)
    ensures var s := a + b + c;
            s[..|a|] == a && s[|a| + |b|..] == c && (a != [] ==> s[0] == a[0] && s[1..|a|] == a[1..])
  {
  }

  lemma Regrouped(a: seq<byte>, b: seq<byte>)
    ensures a + b[..Min(1, |b|)] + b[Min(1, |b|)..] == a + b
  {
  }

  lemma ReadUnfolds(text: seq<byte>, n: nat, m: nat)
    requires n < |text| && text[0] == 60 && n == TargetEnd(text) > 0 && m == LinkEnd(text[n + 1..], Outside)
    requires m > 0 ==> text[n + 1] == 59
    ensures var rest, link := text[n + 1..], Seen(text[1..n], text[n + 1..][..m]);
            && (m == |rest| ==> Read(text) == Some([link]))
            && (m < |rest| && Read(rest[m + 1..]).Some? ==> Read(text) == Some([link] + Read(rest[m + 1..]).value))
  {
    hide TargetEnd, LinkEnd;
  }

  lemma EnclosedParameters(l: Link)
    requires Clean(l)
    ensures Enclosed(SeenOf(l).parameters, Outside)
  {
    var parameters := SeenOf(l).parameters;
    if parameters != [] {
      assert parameters[1..] == l.attributes.value;
    }
  }

  lemma {:induction false} EndsTarget(head: seq<byte>, rest: seq<byte>)
    requires forall k | 0 <= k < |head| :: head[k] != 62
    ensures TargetEnd(head + [62] + rest) == |head|
  {
    if head != [] {
      assert (head + [62] + rest)[1..] == head[1..] + [62] + rest;
      EndsTarget(head[1..], rest);
    }
  }

  lemma {:induction false} EndsLink(a: seq<byte>, tail: seq<byte>, q: Quoting)
    requires Enclosed(a, q) && (tail != [] ==> tail[0] == 44)
    ensures LinkEnd(a + tail, q) == |a|
  {
    if a == [] {
      assert a + tail == tail;
    } else {
      assert (a + tail)[1..] == a[1..] + tail;
      EndsLink(a[1..], tail, Next(q, a[0]));
    }
  }
}
