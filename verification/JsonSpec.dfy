/** The pull parser of apps/json/jsonparse.c, and a printer for the JSON texts that it reads without
    error. Characters are bytes; behind the end of the text there is a zero. */
module JsonSpec {
  import opened Basics

  const JSONPARSE_MAX_DEPTH := 10

  const QUOTE: byte := 34
  const BACKSLASH: byte := 92
  const COMMA: byte := 44
  const COLON: byte := 58
  const LBRACKET: byte := 91
  const RBRACKET: byte := 93
  const LBRACE: byte := 123
  const RBRACE: byte := 125
  const SPACE: byte := 32
  const NEWLINE: byte := 10
  const MINUS: byte := 45
  const DOT: byte := 46

  // Types of values; a bracket or brace stands for itself.
  const PAIR_NAME: byte := 78
  const STRING: byte := 34
  const NUMBER: byte := 48
  const NULL: byte := 110
  const TRUE: byte := 116
  const FALSE: byte := 102

  const ERROR_SYNTAX: byte := 1
  const ERROR_UNEXPECTED_ARRAY: byte := 2
  const ERROR_UNEXPECTED_END_OF_ARRAY: byte := 3
  const ERROR_UNEXPECTED_OBJECT: byte := 4
  const ERROR_UNEXPECTED_END_OF_OBJECT: byte := 5
  const ERROR_UNEXPECTED_STRING: byte := 6

  const NULL_TEXT: seq<byte> := [110, 117, 108, 108]
  const TRUE_TEXT: seq<byte> := [116, 114, 117, 101]
  const FALSE_TEXT: seq<byte> := [102, 97, 108, 115, 101]

  function At(json: seq<byte>, i: nat): byte {
    if i < |json| then json[i] else 0
  }

  // ----- The parser as a function -----

  /** struct jsonparse_state; the stack is as long as the depth. */
  datatype State = State(pos: nat, stack: seq<byte>, vstart: nat, vlen: nat, vtype: byte, error: byte)

  const START := State(0, [], 0, 0, 0, 0)

  /** jsonparse_get_type */
  function Top(st: State): byte {
    if st.stack == [] then 0 else st.stack[|st.stack| - 1]
  }

  function Push(st: State, c: byte): State {
    st.(stack := st.stack + [c], vtype := 0)
  }

  function Modify(st: State, c: byte): State {
    if st.stack == [] then st else st.(stack := st.stack[|st.stack| - 1 := c])
  }

  function Pop(st: State): State {
    if st.stack == [] then st else st.(stack := st.stack[..|st.stack| - 1], vtype := Top(st))
  }

  function SkipSpace(json: seq<byte>, pos: nat): (p: nat)
    ensures pos <= p
    decreases |json| - pos
  {
    if pos < |json| && (json[pos] == SPACE || json[pos] == NEWLINE) then SkipSpace(json, pos + 1) else pos
  }

  /** The position behind the quote that ends a string, or behind the end of the text. */
  function ScanString(json: seq<byte>, pos: nat): (p: nat)
    ensures pos < p
    decreases |json| - pos
  {
    var c := At(json, pos);
    if c == 0 || c == QUOTE then pos + 1
    else if c == BACKSLASH then ScanString(json, pos + 2)
    else ScanString(json, pos + 1)
  }

  predicate InNumber(c: byte) { 48 <= c <= 57 || c == DOT }

  function ScanNumber(json: seq<byte>, pos: nat): (p: nat)
    ensures pos <= p
    decreases |json| - pos
  {
    if InNumber(At(json, pos)) then ScanNumber(json, pos + 1) else pos
  }

  predicate EndsLiteral(c: byte) { c == 0 || c == SPACE || c == COMMA || c == RBRACKET || c == RBRACE }

  function ScanLiteral(json: seq<byte>, pos: nat): (p: nat)
    ensures pos <= p
    decreases |json| - pos
  {
    if EndsLiteral(At(json, pos)) then pos else ScanLiteral(json, pos + 1)
  }

  function LiteralText(t: byte): seq<byte> {
    if t == NULL then NULL_TEXT else if t == TRUE then TRUE_TEXT else FALSE_TEXT
  }

  /** The text that a value of the given extent has. */
  function Extent(json: seq<byte>, start: nat, length: nat): seq<byte> {
    seq<byte>(length, i requires 0 <= i < length => At(json, start + i))
  }

  function Fail(st: State, error: byte): (State, byte) {
    (st.(error := error), 0)
  }

  /** atomic, with the first character already read */
  function Atomic(json: seq<byte>, st: State, t: byte): (State, byte)
    requires st.pos > 0
  {
    if t == STRING || t == PAIR_NAME then
      var end := ScanString(json, st.pos);
      var st' := st.(vstart := st.pos, pos := end);
      if At(json, end - 1) != QUOTE then Fail(st', ERROR_SYNTAX)
      else (st'.(vlen := end - st.pos - 1, vtype := t), t)
    else if t == NUMBER then
      var end := ScanNumber(json, st.pos);
      (st.(vstart := st.pos - 1, pos := end, vlen := end - (st.pos - 1), vtype := t), t)
    else
      var end := ScanLiteral(json, st.pos);
      var st' := st.(vstart := st.pos - 1, pos := end, vlen := end - (st.pos - 1));
      if Extent(json, st.pos - 1, end - (st.pos - 1)) != LiteralText(t) then Fail(st', ERROR_SYNTAX)
      else (st'.(vtype := t), t)
  }

  function AtomType(c: byte): byte {
    if c == MINUS || 48 <= c <= 57 then NUMBER
    else if c == NULL || c == TRUE || c == FALSE then c
    else 0
  }

  /** jsonparse_next: the state behind the next token, and its type; 0 stands for an error or the end
      of the text. A colon is not a token of its own. */
  function Next(json: seq<byte>, st0: State): (State, byte)
    decreases |json| - st0.pos
  {
    var at := SkipSpace(json, st0.pos);
    var c := At(json, at);
    var s, v := Top(st0), st0.vtype;
    var st := st0.(pos := at + 1);
    if c == LBRACE then
      if (s == 0 && v == 0) || s == LBRACKET || s == COLON then (Push(st, c), c) else Fail(st, ERROR_UNEXPECTED_OBJECT)
    else if c == RBRACE then
      if (s == COLON && v != COMMA && v != 0) || (s == LBRACE && v == 0) then (Pop(st), c)
      else Fail(st, ERROR_UNEXPECTED_END_OF_OBJECT)
    else if c == RBRACKET then
      if s == LBRACKET && v != COMMA then (Pop(st), c) else Fail(st, ERROR_UNEXPECTED_END_OF_ARRAY)
    else if c == COLON then
      if s == LBRACE && v == PAIR_NAME then Next(json, Modify(st, COLON).(vtype := 0)) else Fail(st, ERROR_SYNTAX)
    else if c == COMMA then
      if s == COLON && v != 0 then (Modify(st, LBRACE).(vtype := c), c)
      else if s == LBRACKET then (st.(vtype := c), c)
      else Fail(st, ERROR_SYNTAX)
    else if c == QUOTE then
      if (s == 0 && v == 0) || s == LBRACE || s == LBRACKET || s == COLON then
        Atomic(json, st, if s == LBRACE then PAIR_NAME else STRING)
      else Fail(st, ERROR_UNEXPECTED_STRING)
    else if c == LBRACKET then
      if (s == 0 && v == 0) || s == LBRACKET || s == COLON then (Push(st, c), c) else Fail(st, ERROR_UNEXPECTED_ARRAY)
    else if c == 0 then
      if v == 0 || st.stack != [] then Fail(st, ERROR_SYNTAX) else (st, 0)
    else if s == 0 || s == COLON || s == LBRACKET then
      if v != 0 && v != COMMA then Fail(st, ERROR_SYNTAX)
      else if AtomType(c) != 0 then Atomic(json, st, AtomType(c))
      else Fail(st, ERROR_SYNTAX)
    else if s == LBRACE then Fail(st, ERROR_SYNTAX)
    else (st, 0)
  }

  /** The character that an escape stands for, as far as the copy function knows it. */
  function Unescape(c: byte): seq<byte> {
    if c == QUOTE || c == BACKSLASH || c == 47 then [c]
    else if c == 98 then [8]
    else if c == 102 then [12]
    else if c == 110 then [10]
    else if c == 114 then [13]
    else if c == 116 then [9]
    else []
  }

  /** The text of a value with its escapes replaced. */
  function Decode(raw: seq<byte>): seq<byte>
    decreases |raw|
  {
    if raw == [] then []
    else if raw[0] == BACKSLASH then
      if |raw| == 1 then [] else Unescape(raw[1]) + Decode(raw[2..])
    else [raw[0]] + Decode(raw[1..])
  }

  predicate IsAtomic(t: byte) {
    t == PAIR_NAME || t == STRING || t == NUMBER || t == NULL || t == TRUE || t == FALSE
  }

  /** A token: its type and, if it is a value, the text that can be copied. */
  datatype Token = Token(t: byte, text: seq<byte>)

  function TokenOf(json: seq<byte>, st: State, t: byte): Token {
    Token(t, if IsAtomic(t) then Decode(Extent(json, st.vstart, st.vlen)) else [])
  }

  /** The tokens of n calls of jsonparse_next, and the greatest depth on the way. */
  function Run(json: seq<byte>, st: State, n: nat): (State, seq<Token>, nat)
    decreases n
  {
    if n == 0 then (st, [], |st.stack|)
    else
      var (st1, t) := Next(json, st);
      var (st2, rest, deep) := Run(json, st1, n - 1);
      (st2, [TokenOf(json, st1, t)] + rest, Max(|st.stack|, deep))
  }

  function Max(a: nat, b: nat): nat { if a >= b then a else b }

  lemma {:induction false} RunBoth(json: seq<byte>, st: State, m: nat, n: nat)
    ensures var (st1, ts1, d1) := Run(json, st, m);
            var (st2, ts2, d2) := Run(json, st1, n);
            Run(json, st, m + n) == (st2, ts1 + ts2, Max(d1, d2))
    decreases m
  {
    hide Next, TokenOf;
    if m == 0 {
      RunDeep(json, st, n);
      assert Run(json, st, 0) == (st, [], |st.stack|);
      assert [] + Run(json, st, n).1 == Run(json, st, n).1;
    } else {
      var (st1, t) := Next(json, st);
      var token := [TokenOf(json, st1, t)];
      RunBoth(json, st1, m - 1, n);
      var (st2, ts1, _) := Run(json, st1, m - 1);
      var (_, ts2, _) := Run(json, st2, n);
      assert token + (ts1 + ts2) == token + ts1 + ts2;
    }
  }

  lemma RunDeep(json: seq<byte>, st: State, n: nat)
    ensures |st.stack| <= Run(json, st, n).2
  {
    hide Next, TokenOf;
    if n > 0 {
      var (_, _, deep) := Run(json, Next(json, st).0, n - 1);
      assert Run(json, st, n).2 == Max(|st.stack|, deep);
    }
  }

  // ----- Trees and their texts -----

  /** A character of a string, and whether it is printed as an escape. */
  datatype Piece = Piece(c: byte, escaped: bool)

  type Pieces = seq<Piece>

  /** The letters of the escapes, in the order of the characters that they stand for: backspace, tab, line
      feed, form feed, carriage return, quote, slash and backslash. */
  const ESCAPED: seq<byte> := [8, 9, 10, 12, 13, 34, 47, 92]
  const LETTERS: seq<byte> := [98, 116, 110, 102, 114, 34, 47, 92]

  function LetterOf(c: byte, k: nat): (letter: byte)
    requires k <= |ESCAPED| && c in ESCAPED[k..]
    decreases |ESCAPED| - k
  {
    if ESCAPED[k] == c then LETTERS[k] else LetterOf(c, k + 1)
  }

  /** Any character but zero can be printed: a quote and a backslash as escapes only, and the others as they
      are or, if there is an escape, as that. */
  predicate ProperPiece(p: Piece) {
    p.c != 0 && if p.escaped then p.c in ESCAPED else p.c != 34 && p.c != 92
  }

  datatype Json =
    | Null
    | Bool(b: bool)
    | Num(negative: bool, digits: seq<byte>)
    | Str(pieces: Pieces)
    | Arr(items: Items)
    | Obj(fields: Fields)

  datatype Items = NoItems | Item(head: Json, tail: Items)
  datatype Fields = NoFields | Field(name: Pieces, value: Json, rest: Fields)

  predicate ProperNumber(negative: bool, digits: seq<byte>) {
    (forall i | 0 <= i < |digits| :: digits[i] == 46 || 48 <= digits[i] <= 57) && (!negative ==> digits != [] && digits[0] != 46)
  }

  predicate Proper(v: Json) {
    match v
    case Num(negative, digits) => ProperNumber(negative, digits)
    case Str(pieces) => forall p <- pieces :: ProperPiece(p)
    case Arr(items) => ProperItems(items)
    case Obj(fields) => ProperFields(fields)
    case _ => true
  }

  predicate ProperItems(items: Items) {
    items.Item? ==> Proper(items.head) && ProperItems(items.tail)
  }

  predicate ProperFields(fields: Fields) {
    fields.Field? ==> (forall p <- fields.name :: ProperPiece(p)) && Proper(fields.value) && ProperFields(fields.rest)
  }

  function PrintPiece(p: Piece): seq<byte> {
    if p.escaped && p.c in ESCAPED then [92, LetterOf(p.c, 0)] else [p.c]
  }

  function PrintPieces(pieces: Pieces): seq<byte> {
    if pieces == [] then [] else PrintPiece(pieces[0]) + PrintPieces(pieces[1..])
  }

  /** The string that is meant: its characters. */
  function Meaning(pieces: Pieces): seq<byte> {
    if pieces == [] then [] else [pieces[0].c] + Meaning(pieces[1..])
  }

  /** A way to print a string: only what must be is escaped. */
  function Written(text: seq<byte>): Pieces {
    if text == [] then [] else [Piece(text[0], text[0] == 34 || text[0] == 92)] + Written(text[1..])
  }

  lemma {:induction false} WrittenMeans(text: seq<byte>)
    requires 0 !in text
    ensures Meaning(Written(text)) == text && forall p <- Written(text) :: ProperPiece(p)
  {
    if text != [] {
      WrittenMeans(text[1..]);
      assert ESCAPED[5] == 34 && ESCAPED[7] == 92;
    }
  }

  function NumberText(negative: bool, digits: seq<byte>): seq<byte> {
    (if negative then [MINUS] else []) + digits
  }

  function Print(v: Json): seq<byte> {
    match v
    case Null => NULL_TEXT
    case Bool(b) => if b then TRUE_TEXT else FALSE_TEXT
    case Num(negative, digits) => NumberText(negative, digits)
    case Str(pieces) => [QUOTE] + PrintPieces(pieces) + [QUOTE]
    case Arr(items) => [LBRACKET] + PrintItems(items) + [RBRACKET]
    case Obj(fields) => [LBRACE] + PrintFields(fields) + [RBRACE]
  }

  function PrintItems(items: Items): seq<byte> {
    match items
    case NoItems => []
    case Item(head, NoItems) => Print(head)
    case Item(head, tail) => Print(head) + [COMMA] + PrintItems(tail)
  }

  function PrintFields(fields: Fields): seq<byte> {
    match fields
    case NoFields => []
    case Field(name, value, NoFields) => [QUOTE] + PrintPieces(name) + [QUOTE, COLON] + Print(value)
    case Field(name, value, rest) =>
      [QUOTE] + PrintPieces(name) + [QUOTE, COLON] + Print(value) + [COMMA] + PrintFields(rest)
  }

  /** The tokens of a tree. */
  function Tokens(v: Json): (ts: seq<Token>)
    ensures |ts| > 0
  {
    match v
    case Null => [Token(NULL, NULL_TEXT)]
    case Bool(b) => [if b then Token(TRUE, TRUE_TEXT) else Token(FALSE, FALSE_TEXT)]
    case Num(negative, digits) => [Token(NUMBER, NumberText(negative, digits))]
    case Str(pieces) => [Token(STRING, Meaning(pieces))]
    case Arr(items) => [Token(LBRACKET, [])] + ItemTokens(items) + [Token(RBRACKET, [])]
    case Obj(fields) => [Token(LBRACE, [])] + FieldTokens(fields) + [Token(RBRACE, [])]
  }

  function ItemTokens(items: Items): seq<Token> {
    match items
    case NoItems => []
    case Item(head, NoItems) => Tokens(head)
    case Item(head, tail) => Tokens(head) + [Token(COMMA, [])] + ItemTokens(tail)
  }

  function FieldTokens(fields: Fields): seq<Token> {
    match fields
    case NoFields => []
    case Field(name, value, NoFields) => [Token(PAIR_NAME, Meaning(name))] + Tokens(value)
    case Field(name, value, rest) =>
      [Token(PAIR_NAME, Meaning(name))] + Tokens(value) + [Token(COMMA, [])] + FieldTokens(rest)
  }

  function Depth(v: Json): nat {
    match v
    case Arr(items) => 1 + ItemsDepth(items)
    case Obj(fields) => 1 + FieldsDepth(fields)
    case _ => 0
  }

  function ItemsDepth(items: Items): nat {
    match items
    case NoItems => 0
    case Item(head, tail) => Max(Depth(head), ItemsDepth(tail))
  }

  function FieldsDepth(fields: Fields): nat {
    match fields
    case NoFields => 0
    case Field(_, value, rest) => Max(Depth(value), FieldsDepth(rest))
  }
}
