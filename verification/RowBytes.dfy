/** The bytes of a row: db_value_to_phy and the record that relation_insert puts together
    (apps/antelope/result.c, relation.c), and the numbers that are read back from them. */
module RowBytes {
  import opened Basics
  import opened Relation
  import Insert

  /** The value of an attribute: a number, or the bytes from the address of a string on. */
  datatype Cell = IntCell(n: long) | LongCell(n: long) | StringCell(memory: seq<byte>)

  function DomainOf(c: Cell): Domain {
    match c
    case IntCell(_) => IntDomain
    case LongCell(_) => LongDomain
    case StringCell(_) => StringDomain
  }

  /** The cell has what is stored in a field of the attribute. */
  predicate Fits(a: Attribute, c: Cell) {
    Insert.DomainsMatch(a.domain, DomainOf(c)) &&
    match a.domain
    case IntDomain => a.size == 2
    case LongDomain => a.size == 4
    case StringDomain => 0 < a.size <= |c.memory|
  }

  /** A field: numbers have their most significant byte first, and strings end with a zero. */
  function Phy(a: Attribute, c: Cell): (b: seq<byte>)
    requires Fits(a, c)
    ensures |b| == a.size
  {
    match a.domain
    case StringDomain => c.memory[..a.size - 1] + [0]
    case IntDomain =>
      var low := c.n % 0x1_0000_0000;
      [low / 0x100 % 0x100, low % 0x100]
    case LongDomain =>
      var low := c.n % 0x1_0000_0000;
      [low / 0x100_0000, low / 0x1_0000 % 0x100, low / 0x100 % 0x100, low % 0x100]
  }

  predicate FitAll(attrs: seq<Attribute>, cells: seq<Cell>) {
    |cells| == |attrs| && forall k | 0 <= k < |attrs| :: Fits(attrs[k], cells[k])
  }

  /** Which given value an insertion has for a cell, as far as the indexes are concerned. */
  function GivenFor(c: Cell): Insert.Given {
    Insert.Given(DomainOf(c), if c.StringCell? then 0 else c.n)
  }

  /** A number that has been written is read back: all of a LONG, and the low 16 bits of an INT. */
  lemma NumberReadBack(attrs: seq<Attribute>, row: Row, k: nat, c: Cell)
    requires ProperSchema(attrs) && ProperRow(attrs, row) && k < |attrs| && Numeric(attrs[k]) && Fits(attrs[k], c)
    requires Field(attrs, row, k) == Phy(attrs[k], c)
    ensures Number(attrs, row, k) == if attrs[k].domain == LongDomain then c.n else c.n % 0x1_0000
    ensures Number(attrs, row, k) == Insert.Stored(attrs[k].domain, c.n)
  {
    hide Field, Offset;
    var low := c.n % 0x1_0000_0000;
    LowBytes(low);
    SignedLow(c.n);
  }

  lemma LowBytes(low: uint32)
    ensures low == low / 0x100_0000 * 0x100_0000 + low / 0x1_0000 % 0x100 * 0x1_0000 + low / 0x100 % 0x100 * 0x100 + low % 0x100
    ensures low / 0x100 % 0x100 * 0x100 + low % 0x100 == low % 0x1_0000
  {
    TwoBytes(low);
    ThreeBytes(low);
  }

  lemma TwoBytes(low: uint32)
    ensures low % 0x1_0000 == low / 0x100 % 0x100 * 0x100 + low % 0x100
  {
    var b := low / 0x100 / 0x100;
    var r := low / 0x100 % 0x100 * 0x100 + low % 0x100;
    assert low == b * 0x1_0000 + r;
  }

  lemma ThreeBytes(low: uint32)
    ensures low / 0x1_0000 == low / 0x100_0000 * 0x100 + low / 0x1_0000 % 0x100
  {
    var c := low / 0x1_0000 / 0x100;
    assert low == c * 0x100_0000 + low / 0x1_0000 % 0x100 * 0x1_0000 + low % 0x1_0000;
  }

  lemma SignedLow(n: long)
    ensures Wrap(n % 0x1_0000_0000) == n
    ensures n % 0x1_0000_0000 % 0x1_0000 == n % 0x1_0000
  {
  }

  /** The fields of the first n attributes. */
  function Laid(attrs: seq<Attribute>, cells: seq<Cell>, n: nat): (b: seq<byte>)
    requires FitAll(attrs, cells) && n <= |attrs|
    ensures |b| == Offset(attrs, n)
  {
    if n == 0 then [] else Laid(attrs, cells, n - 1) + Phy(attrs[n - 1], cells[n - 1])
  }

  lemma {:induction false} LaidPart(attrs: seq<Attribute>, cells: seq<Cell>, k: nat, n: nat)
    requires FitAll(attrs, cells) && k < n <= |attrs|
    ensures Offset(attrs, k + 1) <= Offset(attrs, n)
    ensures Laid(attrs, cells, n)[Offset(attrs, k)..Offset(attrs, k + 1)] == Phy(attrs[k], cells[k])
    decreases n
  {
    hide Phy, Fits, Offset, Laid;
    OffsetsGrow(attrs, k + 1, n);
    LaidStep(attrs, cells, n - 1);
    var before := Laid(attrs, cells, n - 1);
    if k < n - 1 {
      LaidPart(attrs, cells, k, n - 1);
      OffsetsGrow(attrs, k, k + 1);
      PartOfPrefix(before, Phy(attrs[n - 1], cells[n - 1]), Offset(attrs, k), Offset(attrs, k + 1));
    }
  }

  lemma LaidStep(attrs: seq<Attribute>, cells: seq<Cell>, n: nat)
    requires FitAll(attrs, cells) && n < |attrs|
    ensures Laid(attrs, cells, n + 1) == Laid(attrs, cells, n) + Phy(attrs[n], cells[n])
    ensures Offset(attrs, n + 1) == Offset(attrs, n) + attrs[n].size
  {
    hide Phy, Fits;
  }

  lemma PartOfPrefix(s: seq<byte>, t: seq<byte>, i: nat, j: nat)
    requires i <= j <= |s|
    ensures (s + t)[i..j] == s[i..j]
  {
  }

  /** The loop of relation_insert over the attributes. */
  method WriteRecord(attrs: seq<Attribute>, cells: seq<Cell>) returns (record: array<byte>)
    requires FitAll(attrs, cells)
    ensures fresh(record) && ProperRow(attrs, record[..])
    ensures forall k: nat | k < |attrs| :: Field(attrs, record[..], k) == Phy(attrs[k], cells[k])
  {
    hide Phy, Fits;
    record := new byte[Offset(attrs, |attrs|)](i => 0);
    var ptr := 0;
    for k := 0 to |attrs|
      invariant ptr == Offset(attrs, k) <= record.Length == Offset(attrs, |attrs|)
      invariant record[..ptr] == Laid(attrs, cells, k)
    {
      OffsetsGrow(attrs, k + 1, |attrs|);
      ValueToPhy(record, ptr, attrs[k], cells[k]);
      ptr := ptr + attrs[k].size;
    }
    assert record[..] == Laid(attrs, cells, |attrs|);
    forall k: nat | k < |attrs|
      ensures Field(attrs, record[..], k) == Phy(attrs[k], cells[k])
    {
      LaidPart(attrs, cells, k, |attrs|);
    }
  }

  /** db_value_to_phy */
  method ValueToPhy(record: array<byte>, ptr: nat, a: Attribute, c: Cell)
    requires Fits(a, c) && ptr + a.size <= record.Length
    modifies record
    ensures record[..ptr + a.size] == old(record[..ptr]) + Phy(a, c)
  {
    match a.domain {
      case StringDomain =>
        for i := 0 to a.size
          invariant record[..ptr + i] == old(record[..ptr]) + c.memory[..i]
        {
          record[ptr + i] := c.memory[i];
          assert c.memory[..i + 1] == c.memory[..i] + [c.memory[i]];
        }
        record[ptr + a.size - 1] := 0;
      case IntDomain =>
        LowBytesOf(c.n);
        record[ptr] := c.n / 0x100 % 0x100;
        record[ptr + 1] := c.n % 0x100;
      case LongDomain =>
        LowBytesOf(c.n);
        record[ptr] := c.n / 0x100_0000 % 0x100;
        record[ptr + 1] := c.n / 0x1_0000 % 0x100;
        record[ptr + 2] := c.n / 0x100 % 0x100;
        record[ptr + 3] := c.n % 0x100;
    }
  }

  /** Shifting a signed number and cutting it to a byte gives the byte of its low 32 bits. */
  lemma LowBytesOf(n: long)
    ensures var low := n % 0x1_0000_0000;
            && n % 0x100 == low % 0x100 && n / 0x100 % 0x100 == low / 0x100 % 0x100
            && n / 0x1_0000 % 0x100 == low / 0x1_0000 % 0x100 && n / 0x100_0000 % 0x100 == low / 0x100_0000
  {
    if n < 0 {
      FirstByte(n);
      SecondByte(n);
      ThirdByte(n);
      LastByte(n);
    }
  }

  lemma FirstByte(n: int)
    requires LONG_MIN <= n < 0
    ensures n % 0x1_0000_0000 == n + 0x1_0000_0000 && n % 0x100 == (n + 0x1_0000_0000) % 0x100
  {
  }

  lemma SecondByte(n: int)
    requires LONG_MIN <= n < 0
    ensures n / 0x100 % 0x100 == (n + 0x1_0000_0000) / 0x100 % 0x100
  {
    assert (n + 0x1_0000_0000) / 0x100 == n / 0x100 + 0x100_0000;
  }

  lemma ThirdByte(n: int)
    requires LONG_MIN <= n < 0
    ensures n / 0x1_0000 % 0x100 == (n + 0x1_0000_0000) / 0x1_0000 % 0x100
  {
    assert (n + 0x1_0000_0000) / 0x1_0000 == n / 0x1_0000 + 0x1_0000;
  }

  lemma LastByte(n: int)
    requires LONG_MIN <= n < 0
    ensures n / 0x100_0000 % 0x100 == (n + 0x1_0000_0000) / 0x100_0000
  {
    assert (n + 0x1_0000_0000) / 0x100_0000 == n / 0x100_0000 + 0x100;
  }

  /** The row that an insertion decodes is that of the bytes it stores. */
  lemma RecordIsRow(s: Insert.State, attrs: seq<Attribute>, cells: seq<Cell>, row: Row)
    requires ProperSchema(attrs) && ProperRow(attrs, row) && FitAll(attrs, cells)
    requires |s.domains| == |attrs| && forall k | 0 <= k < |attrs| :: s.domains[k] == attrs[k].domain
    requires forall k | 0 <= k < |attrs| :: Field(attrs, row, k) == Phy(attrs[k], cells[k])
    ensures var record := s.Record(seq(|cells|, k requires 0 <= k < |cells| => GivenFor(cells[k])), |cells|);
            forall k | 0 <= k < |attrs| && Numeric(attrs[k]) :: record[k] == Number(attrs, row, k)
  {
    hide Field, Offset, Number;
    forall k | 0 <= k < |attrs| && Numeric(attrs[k])
      ensures Insert.Stored(attrs[k].domain, cells[k].n) == Number(attrs, row, k)
    {
      NumberReadBack(attrs, row, k, cells[k]);
    }
  }

  /** For example: the most significant byte is first, and the string loses its last byte. */
  lemma RecordExample()
    ensures var attrs := [Attribute("a", IntDomain, 2), Attribute("b", LongDomain, 4), Attribute("c", StringDomain, 3)];
            var cells := [IntCell(0x1_0203), IntCell(-2), StringCell([65, 66, 67, 68])];
            FitAll(attrs, cells) && Laid(attrs, cells, 3) == [2, 3, 255, 255, 255, 254, 65, 66, 0]
  {
    var attrs := [Attribute("a", IntDomain, 2), Attribute("b", LongDomain, 4), Attribute("c", StringDomain, 3)];
    var cells := [IntCell(0x1_0203), IntCell(-2), StringCell([65, 66, 67, 68])];
    assert FitAll(attrs, cells);
    assert Laid(attrs, cells, 1) == [2, 3];
    assert Laid(attrs, cells, 2) == [2, 3, 255, 255, 255, 254];
  }
}
