/** The Internet checksum (RFC 1071) in tools/tunslip.c: the sum itself, the check of a packet, the
    new identification that is given to a packet, and the packets the DHCP relay builds. */
module Checksum {
  import opened Basics

  const ONES := 0xffff

  function Word(high: byte, low: byte): (w: uint16) {
    var h: int, l: int := high, low;
    h * 0x100 + l
  }

  function High(w: uint16): byte { w / 0x100 }

  function Low(w: uint16): byte { w % 0x100 }

  /** Addition with the carry brought round, as the source tests for it. */
  function AddWord(sum: uint16, t: uint16): (r: uint16)
    ensures r == if sum + t >= 0x1_0000 then sum + t - ONES else sum + t
  {
    var s := (sum + t) % 0x1_0000;
    if s < t then s + 1 else s
  }

  /** ip4sum as a function; an odd byte at the end counts as the high one of a word. */
  function Ip4Sum(sum: uint16, p: seq<byte>): uint16
    decreases |p|
  {
    if |p| >= 2 then Ip4Sum(AddWord(sum, Word(p[0], p[1])), p[2..])
    else if |p| == 1 then AddWord(sum, Word(p[0], 0))
    else sum
  }

  /** ip4sum */
  method ComputeSum(initial: uint16, p: seq<byte>) returns (sum: uint16)
    ensures sum == Ip4Sum(initial, p)
  {
    sum := initial;
    var i := 0;
    while i + 1 < |p|
      invariant 0 <= i <= |p| && Ip4Sum(sum, p[i..]) == Ip4Sum(initial, p)
    {
      sum := AddWord(sum, Word(p[i], p[i + 1]));
      assert p[i..][2..] == p[i + 2..];
      i := i + 2;
    }
    if i < |p| {
      sum := AddWord(sum, Word(p[i], 0));
    }
  }

  /** The sum of the 16-bit words, without any carry. */
  function Total(p: seq<byte>): nat
    decreases |p|
  {
    if |p| >= 2 then Word(p[0], p[1]) + Total(p[2..])
    else if |p| == 1 then Word(p[0], 0)
    else 0
  }

  ghost predicate Congruent(a: int, b: int) {
    exists k: int :: a - b == ONES * k
  }

  lemma CongruentStep(a: int, b: int, c: int, k: int)
    requires Congruent(a, b) && b - c == ONES * k
    ensures Congruent(a, c)
  {
    var m: int :| a - b == ONES * m;
    assert a - c == ONES * (m + k);
  }

  /** The sum is the total modulo 65535, and it is zero only if there is nothing but zeros. */
  lemma {:induction false} SumIsTotal(sum: uint16, p: seq<byte>)
    ensures Congruent(Ip4Sum(sum, p), sum + Total(p))
    ensures Ip4Sum(sum, p) == 0 <==> sum + Total(p) == 0
    decreases |p|
  {
    if |p| >= 2 {
      var w := Word(p[0], p[1]);
      var next := AddWord(sum, w);
      SumIsTotal(next, p[2..]);
      CongruentStep(Ip4Sum(sum, p), next + Total(p[2..]), sum + Total(p), if sum + w >= 0x1_0000 then -1 else 0);
    } else {
      var w: uint16 := if |p| == 1 then Word(p[0], 0) else 0;
      assert Ip4Sum(sum, p) - (sum + Total(p)) == ONES * if sum + w >= 0x1_0000 then -1 else 0;
    }
  }

  /** What the source takes for a good sum. */
  predicate Good(sum: uint16) { sum == ONES || sum == 0 }

  lemma MultipleInRange(r: uint16, total: int, m: int)
    requires r - total == ONES * m && Congruent(total, 0)
    ensures Good(r)
  {
    var k: int :| total - 0 == ONES * k;
    assert r == ONES * (k + m);
  }

  lemma GoodIsMultiple(sum: uint16, p: seq<byte>)
    ensures Good(Ip4Sum(sum, p)) <==> Congruent(sum + Total(p), 0)
  {
    SumIsTotal(sum, p);
    var r, total := Ip4Sum(sum, p), sum + Total(p);
    var m: int :| r - total == ONES * m;
    if Good(r) {
      var k := if r == 0 then -m else 1 - m;
      assert total - 0 == ONES * k;
    } else if Congruent(total, 0) {
      MultipleInRange(r, total, m);
    }
  }

  lemma CongruentSum(a: int, b: int, c: int, d: int)
    requires Congruent(a, b) && Congruent(c, d)
    ensures Congruent(a + c, b + d) && Congruent(b, a) && Congruent(a - c, b - d)
  {
    var k: int :| a - b == ONES * k;
    var m: int :| c - d == ONES * m;
    assert a + c - (b + d) == ONES * (k + m);
    assert b - a == ONES * (-k);
    assert a - c - (b - d) == ONES * (k - m);
  }

  lemma CongruentSame(a: int)
    ensures Congruent(a, a)
  {
    assert a - a == ONES * 0;
  }

  lemma CongruentTo(a: int, b: int, c: int)
    requires Congruent(a, b) && Congruent(b, c)
    ensures Congruent(a, c)
  {
    CongruentSum(a, b, b, c);
    var k: int :| a + b - (b + c) == ONES * k;
    assert a - c == ONES * k;
  }

  /** Parts with congruent totals are both good or both not. */
  lemma SameGood(sum: uint16, p: seq<byte>, q: seq<byte>)
    requires Congruent(Total(p), Total(q))
    ensures Good(Ip4Sum(sum, p)) == Good(Ip4Sum(sum, q))
  {
    hide Ip4Sum, Total, Congruent;
    GoodIsMultiple(sum, p);
    GoodIsMultiple(sum, q);
    CongruentSame(sum);
    CongruentSum(Total(p), Total(q), sum, sum);
    if Congruent(sum + Total(p), 0) {
      CongruentTo(sum + Total(q), sum + Total(p), 0);
    } else if Congruent(sum + Total(q), 0) {
      CongruentTo(sum + Total(p), sum + Total(q), 0);
    }
  }

  /** Changing one word. */
  lemma {:induction false} TotalSet(p: seq<byte>, k: nat, high: byte, low: byte)
    requires k % 2 == 0 && k + 1 < |p|
    ensures Total(p[k := high][k + 1 := low]) == Total(p) - Word(p[k], p[k + 1]) + Word(high, low)
    decreases k
  {
    var q := p[k := high][k + 1 := low];
    if k == 0 {
      assert q[2..] == p[2..];
    } else {
      TotalSet(p[2..], k - 2, high, low);
      assert q[2..] == p[2..][k - 2 := high][k - 1 := low];
    }
  }

  // ----- Checking a packet -----

  const TCP := 6
  const UDP := 17
  const ICMP := 1

  function HeaderLength(p: seq<byte>): nat
    requires p != []
  {
    4 * (p[0] % 16)
  }

  /** The source reads the fields of an IP header, and a header length within the packet. */
  predicate Readable(p: seq<byte>) {
    20 <= |p| < 0x1_0000 && HeaderLength(p) <= |p|
  }

  function PseudoSum(p: seq<byte>): uint16
    requires Readable(p)
  {
    var proto: int := p[9];
    Ip4Sum((proto + |p| - HeaderLength(p)) % 0x1_0000, p[12..20])
  }

  /** The UDP checksum at its place in a packet with a header of 20 bytes; what is behind the end of
      the packet is taken as zero. */
  predicate ChecksumDisabled(p: seq<byte>) {
    |p| <= 26 || (p[26] == 0 && (|p| == 27 || p[27] == 0))
  }

  /** check_ip as a function */
  function CheckIp(p: seq<byte>): int
    requires Readable(p)
  {
    var n, hl, proto := Word(p[2], p[3]), HeaderLength(p), p[9];
    if p[0] / 16 != 4 then -1
    else if n > |p| then -2
    else if n < |p| then -3
    else if !Good(Ip4Sum(0, p[..hl])) then -4
    else if proto == TCP || proto == UDP then
      if Good(Ip4Sum(PseudoSum(p), p[hl..])) then 0
      else if proto == TCP then -5
      else if ChecksumDisabled(p) then 0 else -6
    else if proto == ICMP && !Good(Ip4Sum(0, p[hl..])) then -7
    else 0
  }

  /** check_ip */
  method Check(p: array<byte>) returns (code: int)
    requires Readable(p[..])
    ensures code == CheckIp(p[..])
  {
    var len := p.Length;
    var hl: nat := 4 * (p[0] % 16);
    if p[0] / 16 != 4 {
      return -1;
    }
    if Word(p[2], p[3]) > len {
      return -2;
    }
    if Word(p[2], p[3]) < len {
      return -3;
    }
    assert p[..hl] == p[..][..hl] && p[hl..] == p[..][hl..] && p[12..20] == p[..][12..20];
    var sum := ComputeSum(0, p[..hl]);
    if sum != ONES && sum != 0 {
      return -4;
    }
    if p[9] == TCP || p[9] == UDP {
      var proto: int := p[9];
      sum := ComputeSum((proto + len - hl) % 0x1_0000, p[12..20]);
      sum := ComputeSum(sum, p[hl..]);
      if sum != ONES && sum != 0 {
        if p[9] == TCP {
          return -5;
        }
        var disabled := len <= 26 || (p[26] == 0 && (len == 27 || p[27] == 0));
        if !disabled {
          return -6;
        }
      }
    } else if p[9] == ICMP {
      sum := ComputeSum(0, p[hl..]);
      if sum != ONES && sum != 0 {
        return -7;
      }
    }
    return 0;
  }

  // ----- What the check is for (RFC 1071, RFC 791, RFC 793, RFC 792) -----

  /** The sum of the bytes, those at even places 256 times. */
  function Weighted(p: seq<byte>): nat {
    if p == [] then 0
    else
      var n, b: int := |p| - 1, p[|p| - 1];
      Weighted(p[..n]) + b * if n % 2 == 0 then 256 else 1
  }

  predicate Multiple(n: int) { n % 65535 == 0 }

  lemma {:induction false} TotalAppend(p: seq<byte>, b: byte)
    ensures Total(p + [b]) == Total(p) + b * if |p| % 2 == 0 then 256 else 1
    decreases |p|
  {
    if |p| >= 2 {
      assert (p + [b])[2..] == p[2..] + [b];
      TotalAppend(p[2..], b);
    } else if |p| == 1 {
      assert (p + [b])[2..] == [];
    }
  }

  lemma {:induction false} TotalIsWeighted(p: seq<byte>)
    ensures Total(p) == Weighted(p)
    decreases |p|
  {
    hide Total;
    if p == [] {
      NoTotal();
    } else {
      var n := |p| - 1;
      assert p == p[..n] + [p[n]];
      TotalAppend(p[..n], p[n]);
      TotalIsWeighted(p[..n]);
    }
  }

  lemma NoTotal()
    ensures Total([]) == 0
  {
  }

  lemma GoodIsMultipleOf(sum: uint16, p: seq<byte>)
    ensures Good(Ip4Sum(sum, p)) <==> Multiple(sum + Weighted(p))
  {
    hide Ip4Sum, Total, Weighted;
    GoodIsMultiple(sum, p);
    TotalIsWeighted(p);
    CongruentIsMultiple(sum + Total(p));
  }

  lemma CongruentIsMultiple(a: int)
    ensures Congruent(a, 0) <==> Multiple(a)
  {
    if Multiple(a) {
      assert a - 0 == ONES * (a / ONES);
    }
  }

  /** The sum over the addresses, the protocol, the length and all that is behind the header. */
  function TransportTotal(p: seq<byte>): int
    requires Readable(p)
  {
    var hl, proto: int := 4 * (p[0] % 16), p[9];
    (proto + |p| - hl) % 65536 + Weighted(p[12..20]) + Weighted(p[hl..])
  }

  lemma TransportGood(p: seq<byte>)
    requires Readable(p)
    ensures Good(Ip4Sum(PseudoSum(p), p[HeaderLength(p)..])) <==> Multiple(TransportTotal(p))
  {
    hide Ip4Sum, Total, Weighted, Good, Multiple;
    var hl, proto: int := HeaderLength(p), p[9];
    var first := (proto + |p| - hl) % 0x1_0000;
    GoodIsMultipleOf(PseudoSum(p), p[hl..]);
    SumIsTotal(first, p[12..20]);
    TotalIsWeighted(p[12..20]);
    var k: int :| PseudoSum(p) - (first + Weighted(p[12..20])) == ONES * k;
    SameMultiple(PseudoSum(p) + Weighted(p[hl..]), first + Weighted(p[12..20]) + Weighted(p[hl..]), k);
  }

  /** The check tells the faults apart in this order: the version, the length, and then sums that are not
      multiples of 65535. TCP and UDP are summed with the pseudo header, and a UDP packet without a
      checksum will do. */
  lemma FaultsInOrder(p: seq<byte>)
    requires Readable(p)
    ensures var hl := 4 * (p[0] % 16);
            CheckIp(p) ==
              if p[0] / 16 != 4 then -1
              else if p[2] as int * 256 + p[3] > |p| then -2
              else if p[2] as int * 256 + p[3] < |p| then -3
              else if !Multiple(Weighted(p[..hl])) then -4
              else if p[9] == 6 && !Multiple(TransportTotal(p)) then -5
              else if p[9] == 17 && !Multiple(TransportTotal(p)) && exists k :: 26 <= k < 28 && k < |p| && p[k] != 0 then -6
              else if p[9] == 1 && !Multiple(Weighted(p[hl..])) then -7
              else 0
  {
    hide Ip4Sum, Total, Weighted, Good, Multiple, PseudoSum, TransportTotal;
    GoodIsMultipleOf(0, p[..HeaderLength(p)]);
    GoodIsMultipleOf(0, p[HeaderLength(p)..]);
    TransportGood(p);
    assert ChecksumDisabled(p) <==> forall k | 26 <= k < 28 && k < |p| :: p[k] == 0;
  }

  lemma SameMultiple(a: int, b: int, k: int)
    requires a == b + ONES * k
    ensures Multiple(a) <==> Multiple(b)
  {
    assert a % ONES == b % ONES;
  }

  // ----- A new identification -----

  /** A field of two bytes as the host reads it. */
  function Raw(little: bool, first: byte, second: byte): uint16 {
    if little then Word(second, first) else Word(first, second)
  }

  /** The bytes that the host writes for a raw field. */
  function Bytes(little: bool, raw: uint16): (byte, byte) {
    if little then (Low(raw), High(raw)) else (High(raw), Low(raw))
  }

  /** The header checksum after the identification, which was zero, has become `id`. */
  function NewSum(little: bool, first: byte, second: byte, id: uint16): (byte, byte) {
    Bytes(little, AddWord(Raw(little, first, second), ONES - Raw(little, High(id), Low(id))))
  }

  /** Whatever the byte order of the host, the checksum goes down by the identification. */
  lemma NewSumIsLess(little: bool, first: byte, second: byte, id: uint16)
    ensures var (b0, b1) := NewSum(little, first, second, id);
            Congruent(Word(b0, b1) + id, Word(first, second))
  {
    var h: int, l: int := High(id), Low(id);
    var f: int, s: int := first, second;
    var raw := AddWord(Raw(little, first, second), ONES - Raw(little, High(id), Low(id)));
    var bh: int, bl: int := High(raw), Low(raw);
    if little {
      var before, nid := s * 0x100 + f, l * 0x100 + h;
      var k := if before + (ONES - nid) >= 0x1_0000 then 0 else 1;
      assert raw == before - nid + ONES * k;
      assert bl * 0x100 + bh + id - (f * 0x100 + s) == ONES * (s - l + 0x100 * k - bh);
    } else {
      var before, nid := f * 0x100 + s, h * 0x100 + l;
      var k := if before + (ONES - nid) >= 0x1_0000 then 0 else 1;
      assert raw == before - nid + ONES * k;
      assert bh * 0x100 + bl + id - (f * 0x100 + s) == ONES * k;
    }
  }

  function SetWord(p: seq<byte>, k: nat, high: byte, low: byte): (q: seq<byte>)
    requires k + 1 < |p|
    ensures |q| == |p|
  {
    p[k := high][k + 1 := low]
  }

  /** The packet with a new identification and the checksum that goes with it. */
  function Renumber(little: bool, p: seq<byte>, id: uint16): (q: seq<byte>)
    requires |p| >= 20
    ensures |q| == |p|
  {
    var (b0, b1) := NewSum(little, p[10], p[11], id);
    SetWord(SetWord(p, 4, High(id), Low(id)), 10, b0, b1)
  }

  lemma IdWord(id: uint16)
    ensures Word(High(id), Low(id)) == id
  {
  }

  /** A part of the packet with both fields keeps its total, and one with the identification alone
      gains it. */
  lemma PartsOfRenumbered(little: bool, p: seq<byte>, id: uint16, hl: nat)
    requires 20 <= |p| && p[4] == 0 && p[5] == 0 && hl <= |p| && hl % 4 == 0
    ensures var q := Renumber(little, p, id);
            && (hl <= 4 ==> q[..hl] == p[..hl] && Congruent(Total(q[hl..]), Total(p[hl..])))
            && (hl >= 12 ==> q[hl..] == p[hl..] && Congruent(Total(q[..hl]), Total(p[..hl])))
            && (hl == 8 ==> Total(q[..hl]) == Total(p[..hl]) + id && Congruent(Total(q[hl..]), Total(p[hl..]) - id))
            && q[12..20] == p[12..20] && q[0] == p[0] && q[2] == p[2] && q[3] == p[3] && q[9] == p[9]
            && q[12..] == p[12..]
  {
    hide Total, NewSum;
    var (b0, b1) := NewSum(little, p[10], p[11], id);
    NewSumIsLess(little, p[10], p[11], id);
    IdWord(id);
    var r := SetWord(p, 4, High(id), Low(id));
    var q := Renumber(little, p, id);
    if hl >= 12 {
      assert q[..hl] == SetWord(SetWord(p[..hl], 4, High(id), Low(id)), 10, b0, b1);
      TotalSet(p[..hl], 4, High(id), Low(id));
      TotalSet(SetWord(p[..hl], 4, High(id), Low(id)), 10, b0, b1);
      Shift(Total(q[..hl]), Total(p[..hl]), Word(b0, b1) + id, Word(p[10], p[11]));
    } else if hl == 8 {
      assert q[..hl] == SetWord(p[..hl], 4, High(id), Low(id));
      TotalSet(p[..hl], 4, High(id), Low(id));
      assert q[hl..] == SetWord(p[hl..], 2, b0, b1);
      TotalSet(p[hl..], 2, b0, b1);
      Shift(Total(q[hl..]), Total(p[hl..]) - id, Word(b0, b1) + id, Word(p[10], p[11]));
    } else {
      assert q[hl..] == SetWord(SetWord(p[hl..], 4 - hl, High(id), Low(id)), 10 - hl, b0, b1);
      TotalSet(p[hl..], 4 - hl, High(id), Low(id));
      TotalSet(SetWord(p[hl..], 4 - hl, High(id), Low(id)), 10 - hl, b0, b1);
      Shift(Total(q[hl..]), Total(p[hl..]), Word(b0, b1) + id, Word(p[10], p[11]));
    }
  }

  lemma Shift(a: int, b: int, x: int, y: int)
    requires a - b == x - y && Congruent(x, y)
    ensures Congruent(a, b)
  {
    var k: int :| x - y == ONES * k;
    assert a - b == ONES * k;
  }

  /** A packet with the identification zero gets the same verdict after it has been renumbered, unless
      its header length is 8, where the header ends between the two fields. Then a packet that was
      good stays so exactly if the identification counts for nothing in the sum. */
  lemma RenumberKeepsVerdict(little: bool, p: seq<byte>, id: uint16)
    requires Readable(p) && p[4] == 0 && p[5] == 0
    ensures Readable(Renumber(little, p, id))
    ensures HeaderLength(p) != 8 ==> CheckIp(Renumber(little, p, id)) == CheckIp(p)
    ensures HeaderLength(p) == 8 && CheckIp(p) == 0 ==> (CheckIp(Renumber(little, p, id)) == 0 <==> id == 0 || id == ONES)
  {
    hide Renumber, Ip4Sum, Total;
    var q, hl := Renumber(little, p, id), HeaderLength(p);
    PartsOfRenumbered(little, p, id, hl);
    assert ChecksumDisabled(q) == ChecksumDisabled(p) by {
      assert forall i | 12 <= i < |p| :: q[i] == q[12..][i - 12] && p[i] == p[12..][i - 12];
    }
    if hl != 8 {
      CongruentSame(Total(p[..hl]));
      CongruentSame(Total(p[hl..]));
      SameGood(0, q[..hl], p[..hl]);
      SameGood(0, q[hl..], p[hl..]);
      SameGood(PseudoSum(p), q[hl..], p[hl..]);
    } else if CheckIp(p) == 0 {
      HeaderOfEight(p, q, id);
    }
  }

  lemma NotBoth(total: int, k: int, id: uint16)
    requires total == ONES * k && Congruent(total + id, 0)
    ensures id == 0 || id == ONES
  {
    var n: int :| total + id - 0 == ONES * n;
    assert id == ONES * (n - k);
  }

  lemma HeaderOfEight(p: seq<byte>, q: seq<byte>, id: uint16)
    requires Readable(p) && Readable(q) && |p| == |q| && HeaderLength(p) == HeaderLength(q) == 8
    requires Total(q[..8]) == Total(p[..8]) + id && Congruent(Total(q[8..]), Total(p[8..]) - id)
    requires q[12..20] == p[12..20] && q[0] == p[0] && q[2] == p[2] && q[3] == p[3] && q[9] == p[9]
    requires ChecksumDisabled(q) == ChecksumDisabled(p) && CheckIp(p) == 0
    ensures CheckIp(q) == 0 <==> id == 0 || id == ONES
  {
    hide Ip4Sum, Total;
    GoodIsMultiple(0, q[..8]);
    GoodIsMultiple(0, p[..8]);
    var k: int :| Total(p[..8]) - 0 == ONES * k;
    if id == 0 || id == ONES {
      assert Total(q[..8]) - 0 == ONES * if id == 0 then k else k + 1;
      var m: int :| Total(q[8..]) - (Total(p[8..]) - id) == ONES * m;
      assert Total(q[8..]) - Total(p[8..]) == ONES * if id == 0 then m else m - 1;
      SameGood(0, q[8..], p[8..]);
      SameGood(PseudoSum(p), q[8..], p[8..]);
    } else if Congruent(Total(q[..8]), 0) {
      NotBoth(Total(p[..8]), k, id);
    }
  }

  /** write_to_serial before it sends: a packet that fails the check is dropped; one that must not be
      fragmented and has no identification gets one. The flag is looked for in the field as the host
      reads it. */
  method Prepare(p: array<byte>, little: bool, id: uint16) returns (send: bool, renumbered: bool)
    requires Readable(p[..])
    modifies p
    ensures Readable(p[..])
    ensures var before := old(p[..]);
            && send == (CheckIp(before) == 0 && (renumbered ==> CheckIp(p[..]) == 0))
            && renumbered == (CheckIp(before) == 0 && before[4] == 0 && before[5] == 0 && Raw(little, before[6], before[7]) / 0x4000 % 2 == 1)
            && p[..] == (if renumbered then Renumber(little, before, id) else before)
            && (CheckIp(before) == 0 && HeaderLength(before) >= 20 ==> send)
  {
    hide CheckIp, NewSum;
    ghost var before := p[..];
    var code := Check(p);
    renumbered := false;
    if code < 0 {
      CodesAreNegative(before);
      return false, false;
    }
    CodesAreNegative(before);
    if Raw(little, p[4], p[5]) == 0 && Raw(little, p[6], p[7]) / 0x4000 % 2 == 1 {
      var raw := Raw(little, High(id), Low(id));
      p[4], p[5] := High(id), Low(id);
      var sum := AddWord(Raw(little, p[10], p[11]), ONES - raw);
      var (b0, b1) := Bytes(little, sum);
      p[10], p[11] := b0, b1;
      renumbered := true;
      SumBytes(little, before[10], before[11], id, b0, b1);
      assert p[..] == Renumber(little, before, id);
      RenumberKeepsVerdict(little, before, id);
      code := Check(p);
      CodesAreNegative(p[..]);
      if code < 0 {
        return false, true;
      }
    }
    send := true;
  }

  /** The flag that the source looks for is the one of the packet only on a host with the byte order
      of the network; on the other kind it is a bit of the fragment offset. */
  lemma FlagAsRead(first: byte, second: byte)
    ensures Raw(false, first, second) / 0x4000 % 2 == first / 0x40 % 2
    ensures Raw(true, first, second) / 0x4000 % 2 == second / 0x40 % 2
  {
  }

  lemma CodesAreNegative(p: seq<byte>)
    requires Readable(p)
    ensures CheckIp(p) <= 0
  {
  }

  lemma SumBytes(little: bool, first: byte, second: byte, id: uint16, b0: byte, b1: byte)
    requires (b0, b1) == Bytes(little, AddWord(Raw(little, first, second), ONES - Raw(little, High(id), Low(id))))
    ensures (b0, b1) == NewSum(little, first, second, id)
  {
  }

  // ----- Packets of the DHCP relay -----

  function Not(w: uint16): uint16 { ONES - w }

  function WordBytes(w: uint16): seq<byte> { [High(w), Low(w)] }

  type Address = a: seq<byte> | |a| == 4 witness [0, 0, 0, 0]

  /** The IP header of relay_dhcp_to_client with a given checksum. */
  function RelayHeader(length: uint16, id: uint16, sum: uint16, src: Address, dst: Address): (h: seq<byte>)
    ensures |h| == 20
  {
    [0x45, 0] + WordBytes(length) + WordBytes(id) + [0, 0, 64, UDP] + WordBytes(sum) + src + dst
  }

  function UdpPart(length: uint16, sum: uint16, message: seq<byte>): seq<byte> {
    WordBytes(67) + WordBytes(68) + WordBytes(length) + WordBytes(sum) + message
  }

  /** The sums that go into the packet: that of the header, and that of the UDP part with the
      pseudo header, where a sum that would read as disabled is replaced. */
  function RelayPacket(id: uint16, src: Address, dst: Address, message: seq<byte>): (p: seq<byte>)
    requires |message| + 28 < 0x1_0000
    ensures |p| == |message| + 28
  {
    var udpLength := 8 + |message|;
    var length := 20 + udpLength;
    var headerSum := Not(Ip4Sum(0, RelayHeader(length, id, 0, src, dst)));
    var sum := Ip4Sum(Ip4Sum((UDP + udpLength) % 0x1_0000, src + dst), UdpPart(udpLength, 0, message));
    RelayHeader(length, id, headerSum, src, dst) + UdpPart(udpLength, if sum != ONES then Not(sum) else ONES, message)
  }

  lemma TotalWord(a: seq<byte>, w: uint16, b: seq<byte>)
    requires |a| % 2 == 0
    ensures Total(a + WordBytes(w) + b) == Total(a + WordBytes(0) + b) + w
  {
    var p: seq<byte> := a + WordBytes(0) + b;
    TotalSet(p, |a|, High(w), Low(w));
    IdWord(w);
    assert SetWord(p, |a|, High(w), Low(w)) == a + WordBytes(w) + b;
  }

  /** Putting the complement of a sum where there was a zero makes the sum good. */
  lemma ComplementIsGood(initial: uint16, a: seq<byte>, w: uint16, b: seq<byte>)
    requires |a| % 2 == 0
    requires w == Not(Ip4Sum(initial, a + WordBytes(0) + b)) || (w == ONES == Ip4Sum(initial, a + WordBytes(0) + b))
    ensures Good(Ip4Sum(initial, a + WordBytes(w) + b))
  {
    hide Ip4Sum, Total;
    var p: seq<byte>, q: seq<byte> := a + WordBytes(0) + b, a + WordBytes(w) + b;
    TotalWord(a, w, b);
    SumIsTotal(initial, p);
    var k: int :| Ip4Sum(initial, p) - (initial + Total(p)) == ONES * k;
    var m := if w == ONES && Ip4Sum(initial, p) == ONES then 2 - k else 1 - k;
    assert initial + Total(q) - 0 == ONES * m;
    GoodIsMultiple(initial, q);
  }

  /** Every packet that the relay builds passes the check, for all addresses and messages. */
  lemma RelayPacketPasses(id: uint16, src: Address, dst: Address, message: seq<byte>)
    requires |message| + 28 < 0x1_0000
    ensures Readable(RelayPacket(id, src, dst, message)) && CheckIp(RelayPacket(id, src, dst, message)) == 0
  {
    hide Ip4Sum;
    var udpLength, p := 8 + |message|, RelayPacket(id, src, dst, message);
    var length: uint16 := 20 + udpLength;
    var headerSum := Not(Ip4Sum(0, RelayHeader(length, id, 0, src, dst)));
    var before: seq<byte> := [0x45, 0] + WordBytes(length) + WordBytes(id) + [0, 0, 64, UDP];
    assert RelayHeader(length, id, 0, src, dst) == before + WordBytes(0) + (src + dst);
    assert RelayHeader(length, id, headerSum, src, dst) == before + WordBytes(headerSum) + (src + dst);
    ComplementIsGood(0, before, headerSum, src + dst);
    var initial := Ip4Sum((UDP + udpLength) % 0x1_0000, src + dst);
    var sum := Ip4Sum(initial, UdpPart(udpLength, 0, message));
    var w: uint16 := if sum != ONES then Not(sum) else ONES;
    var ports: seq<byte> := WordBytes(67) + WordBytes(68) + WordBytes(udpLength);
    assert UdpPart(udpLength, 0, message) == ports + WordBytes(0) + message;
    assert UdpPart(udpLength, w, message) == ports + WordBytes(w) + message;
    ComplementIsGood(initial, ports, w, message);
    assert p[..20] == RelayHeader(length, id, headerSum, src, dst) && p[20..] == UdpPart(udpLength, w, message);
    assert p[12..20] == src + dst;
    assert p[0] == 0x45 && p[9] == UDP && Word(p[2], p[3]) == length;
  }

  /** The fields of that packet at their places in the headers of IP and UDP. Its checksum is never zero,
      which would say that there is none. */
  lemma RelayFields(id: uint16, src: Address, dst: Address, message: seq<byte>)
    requires |message| + 28 < 0x1_0000
    ensures var p := RelayPacket(id, src, dst, message);
            && p[0] == 0x45 && p[1] == 0 && p[2] as int * 256 + p[3] == |p| && p[4] as int * 256 + p[5] == id
            && p[6..10] == [0, 0, 64, 17] && p[12..16] == src && p[16..20] == dst
            && p[20..24] == [0, 67, 0, 68] && p[24] as int * 256 + p[25] == |p| - 20
            && p[26..28] != [0, 0] && p[28..] == message
  {
    hide Ip4Sum;
    var p := RelayPacket(id, src, dst, message);
    var udpLength := 8 + |message|;
    var sum := Ip4Sum(Ip4Sum((UDP + udpLength) % 0x1_0000, src + dst), UdpPart(udpLength, 0, message));
    var w: uint16 := if sum != ONES then Not(sum) else ONES;
    assert p[26..28] == WordBytes(w);
    assert w > 0;
  }

  /** A packet of TCP or ICMP with a good header passes if its checksum was computed as for the relay: as
      the complement of the sum with a zero in its place, which is any even one. */
  lemma SegmentPasses(header: seq<byte>, a: seq<byte>, w: uint16, b: seq<byte>)
    requires var p, p0 := header + (a + WordBytes(w) + b), header + (a + WordBytes(0) + b);
             && 20 <= |header| == 4 * (header[0] % 16) && |p| < 0x1_0000 && |a| % 2 == 0
             && header[0] / 16 == 4 && header[2] as int * 256 + header[3] == |p| && Multiple(Weighted(header))
             && ((header[9] == 6 && w == Not(Ip4Sum(PseudoSum(p0), p0[|header|..])))
                 || (header[9] == 1 && w == Not(Ip4Sum(0, p0[|header|..]))))
    ensures CheckIp(header + (a + WordBytes(w) + b)) == 0
  {
    hide Ip4Sum, Total, Weighted, Good, Multiple;
    var p, p0 := header + (a + WordBytes(w) + b), header + (a + WordBytes(0) + b);
    assert p[12..20] == header[12..20] == p0[12..20];
    assert p[|header|..] == a + WordBytes(w) + b && p0[|header|..] == a + WordBytes(0) + b && p[..|header|] == header;
    GoodIsMultipleOf(0, header);
    ComplementIsGood(if header[9] == 6 then PseudoSum(p0) else 0, a, w, b);
  }
}
