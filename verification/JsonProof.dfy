/** The parser reads what the printer prints. */
module JsonProof {
  import opened Basics
  import opened JsonSpec

  predicate Contains(json: seq<byte>, at: nat, part: seq<byte>) {
    at + |part| <= |json| && json[at..at + |part|] == part
  }

  lemma ContainsParts(json: seq<byte>, at: nat, a: seq<byte>, b: seq<byte>)
    requires Contains(json, at, a + b)
    ensures Contains(json, at, a) && Contains(json, at + |a|, b)
  {
    assert json[at..at + |a|] == (a + b)[..|a|];
    assert json[at + |a|..at + |a| + |b|] == (a + b)[|a|..];
  }

  lemma ContainsFirst(json: seq<byte>, at: nat, c: byte, rest: seq<byte>)
    requires Contains(json, at, [c] + rest)
    ensures At(json, at) == c && at < |json| && Contains(json, at + 1, rest)
  {
    ContainsParts(json, at, [c], rest);
    assert json[at] == json[at..at + 1][0];
  }

  lemma ExtentIs(json: seq<byte>, at: nat, part: seq<byte>)
    requires Contains(json, at, part)
    ensures Extent(json, at, |part|) == part
  {
    forall i | 0 <= i < |part|
      ensures At(json, at + i) == part[i]
    {
      assert part[i] == json[at..at + |part|][i];
    }
  }

  // ----- Atoms -----

  lemma {:induction false} ScanPieces(json: seq<byte>, at: nat, pieces: Pieces)
    requires (forall p <- pieces :: ProperPiece(p)) && Contains(json, at, PrintPieces(pieces) + [QUOTE])
    ensures ScanString(json, at) == at + |PrintPieces(pieces)| + 1
    decreases |pieces|
  {
    hide Contains, PrintPiece, ProperPiece;
    if pieces == [] {
      assert PrintPieces(pieces) + [QUOTE] == [QUOTE] + [];
      ContainsFirst(json, at, QUOTE, []);
    } else {
      var p, rest := pieces[0], pieces[1..];
      assert p in pieces;
      assert PrintPieces(pieces) + [QUOTE] == PrintPiece(p) + (PrintPieces(rest) + [QUOTE]);
      ContainsParts(json, at, PrintPiece(p), PrintPieces(rest) + [QUOTE]);
      ScanPieces(json, at + |PrintPiece(p)|, rest);
      ScanPiece(json, at, p);
    }
  }

  lemma ScanPiece(json: seq<byte>, at: nat, p: Piece)
    requires ProperPiece(p) && Contains(json, at, PrintPiece(p))
    ensures ScanString(json, at) == ScanString(json, at + |PrintPiece(p)|)
  {
    hide Contains;
    if p.escaped {
      var letter := LetterOf(p.c, 0);
      assert PrintPiece(p) == [BACKSLASH] + [letter];
      ContainsFirst(json, at, BACKSLASH, [letter]);
      ContainsFirst(json, at + 1, letter, []);
    } else {
      assert PrintPiece(p) == [p.c] + [];
      ContainsFirst(json, at, p.c, []);
    }
  }

  /** The copy function knows every escape that is printed. */
  lemma LetterRead(c: byte)
    requires c in ESCAPED
    ensures Unescape(LetterOf(c, 0)) == [c]
  {
    hide LetterOf, Unescape;
    var k :| 0 <= k < |ESCAPED| && ESCAPED[k] == c;
    LetterAt(c, 0, k);
    LetterMeans(k);
  }

  lemma LetterMeans(k: nat)
    requires k < 8
    ensures Unescape(LETTERS[k]) == [ESCAPED[k]]
  {
    assert k == 0 || k == 1 || k == 2 || k == 3 || k == 4 || k == 5 || k == 6 || k == 7;
  }

  lemma {:induction false} LetterAt(c: byte, from: nat, k: nat)
    requires from <= k < |ESCAPED| && ESCAPED[k] == c
    ensures c in ESCAPED[from..] && LetterOf(c, from) == LETTERS[k]
    decreases k - from
  {
    assert ESCAPED[from..][k - from] == c;
    assert forall i, j | 0 <= i < j < |ESCAPED| :: ESCAPED[i] < ESCAPED[j];
    if from < k {
      LetterAt(c, from + 1, k);
    }
  }

  lemma {:induction false} DecodePieces(pieces: Pieces)
    requires forall p <- pieces :: ProperPiece(p)
    ensures Decode(PrintPieces(pieces)) == Meaning(pieces)
    decreases |pieces|
  {
    if pieces != [] {
      var p, rest := pieces[0], pieces[1..];
      assert p in pieces;
      DecodePieces(rest);
      var raw := PrintPiece(p) + PrintPieces(rest);
      assert raw[|PrintPiece(p)|..] == PrintPieces(rest);
      if p.escaped {
        LetterRead(p.c);
      }
    }
  }

  lemma {:induction false} DecodeBoth(pieces: Pieces, more: seq<byte>)
    requires forall p <- pieces :: ProperPiece(p)
    ensures Decode(PrintPieces(pieces) + more) == Meaning(pieces) + Decode(more)
    decreases |pieces|
  {
    hide ProperPiece, Meaning, Decode, PrintPieces, PrintPiece;
    FirstPiece(pieces);
    if pieces == [] {
      assert [] + more == more && [] + Decode(more) == Decode(more);
    } else {
      var p, rest := pieces[0], pieces[1..];
      assert p in pieces;
      DecodeBoth(rest, more);
      Regroup(PrintPiece(p), PrintPieces(rest), more);
      DecodePiece(p, PrintPieces(rest) + more);
      Regroup([p.c], Meaning(rest), Decode(more));
    }
  }

  lemma Regroup(a: seq<byte>, b: seq<byte>, c: seq<byte>)
    ensures a + b + c == a + (b + c)
  {
  }

  lemma FirstPiece(pieces: Pieces)
    ensures Meaning(pieces) == if pieces == [] then [] else [pieces[0].c] + Meaning(pieces[1..])
    ensures PrintPieces(pieces) == if pieces == [] then [] else PrintPiece(pieces[0]) + PrintPieces(pieces[1..])
  {
    hide PrintPiece;
  }

  lemma DecodePiece(p: Piece, more: seq<byte>)
    requires ProperPiece(p)
    ensures Decode(PrintPiece(p) + more) == [p.c] + Decode(more)
  {
    hide LetterOf;
    var raw := PrintPiece(p) + more;
    if p.escaped {
      LetterRead(p.c);
      assert raw[2..] == more;
    } else {
      assert raw[1..] == more;
    }
  }

  /** An escape that is none of JSON is dropped from a string. */
  lemma UnknownEscapeIsDropped(first: Pieces, letter: byte, last: Pieces)
    requires (forall p <- first :: ProperPiece(p)) && (forall p <- last :: ProperPiece(p))
    requires letter !in {98, 116, 110, 102, 114, 34, 47, 92}
    ensures Decode(PrintPieces(first) + ([92, letter] + PrintPieces(last))) == Meaning(first) + Meaning(last)
  {
    hide Meaning, ProperPiece, Decode, PrintPieces;
    DecodeBoth(first, [92, letter] + PrintPieces(last));
    DecodePieces(last);
    DropsEscape(letter, PrintPieces(last));
  }

  lemma DropsEscape(letter: byte, more: seq<byte>)
    requires letter !in {98, 116, 110, 102, 114, 34, 47, 92}
    ensures Decode([92, letter] + more) == Decode(more)
  {
    var raw := [92, letter] + more;
    assert raw[2..] == more && [] + Decode(more) == Decode(more);
  }

  lemma {:induction false} DecodePlain(raw: seq<byte>)
    requires forall i | 0 <= i < |raw| :: raw[i] != BACKSLASH
    ensures Decode(raw) == raw
    decreases |raw|
  {
    if raw != [] {
      DecodePlain(raw[1..]);
    }
  }

  predicate EndsValue(c: byte) { c == 0 || c == COMMA || c == RBRACKET || c == RBRACE }

  lemma {:induction false} ScanDigits(json: seq<byte>, at: nat, digits: seq<byte>)
    requires Contains(json, at, digits) && EndsValue(At(json, at + |digits|))
    requires forall i | 0 <= i < |digits| :: InNumber(digits[i])
    ensures ScanNumber(json, at) == at + |digits|
    decreases |digits|
  {
    if digits != [] {
      assert digits == [digits[0]] + digits[1..];
      ContainsFirst(json, at, digits[0], digits[1..]);
      ScanDigits(json, at + 1, digits[1..]);
    }
  }

  lemma {:induction false} ScanLetters(json: seq<byte>, at: nat, letters: seq<byte>)
    requires Contains(json, at, letters) && EndsValue(At(json, at + |letters|))
    requires forall i | 0 <= i < |letters| :: !EndsLiteral(letters[i])
    ensures ScanLiteral(json, at) == at + |letters|
    decreases |letters|
  {
    if letters != [] {
      assert letters == [letters[0]] + letters[1..];
      ContainsFirst(json, at, letters[0], letters[1..]);
      ScanLetters(json, at + 1, letters[1..]);
    }
  }

  /** The parser stands where a value may begin. */
  predicate AtValue(st: State) {
    && st.error == 0
    && if st.stack == [] then st.vtype == 0
       else (Top(st) == LBRACKET || Top(st) == COLON) && (st.vtype == 0 || st.vtype == COMMA)
  }

  /** The next tokens are these, and the parser stands behind a value at the given position and with
      the given stack; its greatest depth was `deep`. */
  predicate Reads(json: seq<byte>, st: State, ts: seq<Token>, end: nat, stack: seq<byte>, deep: nat) {
    var (st', read, d) := Run(json, st, |ts|);
    read == ts && st'.pos == end && st'.stack == stack && st'.vtype != 0 && st'.vtype != COMMA && st'.error == 0 && d == deep
  }

  lemma OneToken(json: seq<byte>, st: State)
    ensures var (st', t) := Next(json, st);
            Run(json, st, 1) == (st', [TokenOf(json, st', t)], Max(|st.stack|, |st'.stack|))
  {
    hide Next, TokenOf;
    var (st', t) := Next(json, st);
    assert Run(json, st', 0) == (st', [], |st'.stack|);
    assert [TokenOf(json, st', t)] + [] == [TokenOf(json, st', t)];
  }

  lemma NextAtom(json: seq<byte>, st: State)
    requires AtValue(st) && AtomType(At(json, st.pos)) != 0
    ensures Next(json, st) == Atomic(json, st.(pos := st.pos + 1), AtomType(At(json, st.pos)))
  {
    hide Atomic;
  }

  lemma ReadLiteral(json: seq<byte>, st: State, t: byte)
    requires t == NULL || t == TRUE || t == FALSE
    requires AtValue(st) && Contains(json, st.pos, LiteralText(t)) && EndsValue(At(json, st.pos + |LiteralText(t)|))
    ensures Reads(json, st, [Token(t, LiteralText(t))], st.pos + |LiteralText(t)|, st.stack, |st.stack|)
  {
    hide Contains, ScanLiteral, Decode, Extent, Next;
    var text := LiteralText(t);
    assert text == [text[0]] + text[1..];
    ContainsFirst(json, st.pos, t, text[1..]);
    NextAtom(json, st);
    ScanLetters(json, st.pos + 1, text[1..]);
    ExtentIs(json, st.pos, text);
    DecodePlain(text);
    OneToken(json, st);
  }

  lemma ReadNumber(json: seq<byte>, st: State, negative: bool, digits: seq<byte>)
    requires ProperNumber(negative, digits)
    requires AtValue(st) && Contains(json, st.pos, NumberText(negative, digits))
    requires EndsValue(At(json, st.pos + |NumberText(negative, digits)|))
    ensures var text := NumberText(negative, digits);
            Reads(json, st, [Token(NUMBER, text)], st.pos + |text|, st.stack, |st.stack|)
  {
    hide Contains, ScanNumber, Decode, Extent, Next;
    var text := NumberText(negative, digits);
    assert text == [text[0]] + text[1..];
    ContainsFirst(json, st.pos, text[0], text[1..]);
    NextAtom(json, st);
    ScanDigits(json, st.pos + 1, text[1..]);
    ExtentIs(json, st.pos, text);
    DecodePlain(text);
    OneToken(json, st);
  }

  lemma NextString(json: seq<byte>, st: State)
    requires At(json, st.pos) == QUOTE && st.error == 0 && (AtValue(st) || Top(st) == LBRACE)
    ensures Next(json, st) == Atomic(json, st.(pos := st.pos + 1), if Top(st) == LBRACE then PAIR_NAME else STRING)
  {
    hide Atomic;
  }

  /** A string, as a value or as the name of a field. */
  lemma ReadString(json: seq<byte>, st: State, pieces: Pieces)
    requires (forall p <- pieces :: ProperPiece(p)) && Contains(json, st.pos, [QUOTE] + PrintPieces(pieces) + [QUOTE])
    requires st.error == 0 && (AtValue(st) || Top(st) == LBRACE)
    ensures var t := if Top(st) == LBRACE then PAIR_NAME else STRING;
            var (st', t') := Next(json, st);
            && t' == t && st'.vtype == t && st'.pos == st.pos + |PrintPieces(pieces)| + 2 && st'.stack == st.stack && st'.error == 0
            && TokenOf(json, st', t) == Token(t, Meaning(pieces))
  {
    hide Contains, ScanString, Decode, Extent, Next, PrintPieces, Meaning;
    var raw := PrintPieces(pieces);
    assert [QUOTE] + raw + [QUOTE] == [QUOTE] + (raw + [QUOTE]);
    ContainsFirst(json, st.pos, QUOTE, raw + [QUOTE]);
    NextString(json, st);
    ScanPieces(json, st.pos + 1, pieces);
    ContainsParts(json, st.pos + 1, raw, [QUOTE]);
    ContainsFirst(json, st.pos + 1 + |raw|, QUOTE, []);
    ExtentIs(json, st.pos + 1, raw);
    DecodePieces(pieces);
  }

  // ----- Composition -----

  /** One more token in front. */
  lemma ReadsMore(json: seq<byte>, st: State, ts: seq<Token>, end: nat, stack: seq<byte>, deep: nat)
    requires var (st', t) := Next(json, st);
             Reads(json, st', ts, end, stack, deep)
    ensures var (st', t) := Next(json, st);
            Reads(json, st, [TokenOf(json, st', t)] + ts, end, stack, Max(|st.stack|, deep))
  {
    hide Next, TokenOf;
    var (st', t) := Next(json, st);
    OneToken(json, st);
    RunBoth(json, st, 1, |ts|);
    RunDeep(json, st', |ts|);
  }

  /** The tokens of one value, and then others that follow from where it ends. */
  lemma ReadsThen(json: seq<byte>, st: State, a: seq<Token>, end: nat, stack: seq<byte>, deep: nat,
                  b: seq<Token>, end': nat, stack': seq<byte>, deep': nat)
    requires Reads(json, st, a, end, stack, deep)
    requires forall st1: State | st1.pos == end && st1.stack == stack && st1.vtype != 0 && st1.vtype != COMMA && st1.error == 0 ::
               Reads(json, st1, b, end', stack', deep')
    ensures Reads(json, st, a + b, end', stack', Max(deep, deep'))
  {
    hide Next, TokenOf;
    RunBoth(json, st, |a|, |b|);
    var (st1, _, _) := Run(json, st, |a|);
    assert Reads(json, st1, b, end', stack', deep');
  }

  /** At a colon that is expected, the parser reads on as if it stood behind it. */
  lemma PastColon(json: seq<byte>, st: State, n: nat)
    requires At(json, st.pos) == COLON && st.pos < |json| && Top(st) == LBRACE && st.vtype == PAIR_NAME && n > 0
    ensures var st' := Modify(st, COLON).(pos := st.pos + 1, vtype := 0);
            && Run(json, st, n).0 == Run(json, st', n).0 && Run(json, st, n).1 == Run(json, st', n).1
            && Run(json, st, n).2 == Run(json, st', n).2
  {
    var st' := Modify(st, COLON).(pos := st.pos + 1, vtype := 0);
    assert Next(json, st) == Next(json, st');
  }

  /** A comma between items, or between fields. */
  lemma ReadComma(json: seq<byte>, st: State)
    requires At(json, st.pos) == COMMA && st.pos < |json| && st.error == 0 && st.vtype != 0
    requires Top(st) == COLON || Top(st) == LBRACKET
    ensures var (st', t) := Next(json, st);
            && TokenOf(json, st', t) == Token(COMMA, []) && st'.pos == st.pos + 1 && st'.vtype == COMMA && st'.error == 0
            && st'.stack == if Top(st) == COLON then st.stack[|st.stack| - 1 := LBRACE] else st.stack
  {
  }

  lemma ReadOpen(json: seq<byte>, st: State, c: byte)
    requires c == LBRACKET || c == LBRACE
    requires AtValue(st) && At(json, st.pos) == c && st.pos < |json|
    ensures var (st', t) := Next(json, st);
            && TokenOf(json, st', t) == Token(c, []) && st'.pos == st.pos + 1 && st'.vtype == 0 && st'.error == 0
            && st'.stack == st.stack + [c]
  {
  }

  /** The end of an array or object. */
  lemma ReadClose(json: seq<byte>, st: State, c: byte)
    requires c == RBRACKET || c == RBRACE
    requires st.error == 0 && At(json, st.pos) == c && st.pos < |json| && st.stack != []
    requires if c == RBRACKET then Top(st) == LBRACKET && st.vtype != COMMA
             else (Top(st) == COLON && st.vtype != COMMA && st.vtype != 0) || (Top(st) == LBRACE && st.vtype == 0)
    ensures Reads(json, st, [Token(c, [])], st.pos + 1, st.stack[..|st.stack| - 1], |st.stack|)
  {
    OneToken(json, st);
  }

  // ----- Trees -----

  /** The parser reads a value as its tokens, and is no deeper for it afterwards. */
  lemma {:induction false} ReadValue(json: seq<byte>, st: State, v: Json)
    requires Proper(v) && AtValue(st) && Contains(json, st.pos, Print(v)) && EndsValue(At(json, st.pos + |Print(v)|))
    ensures Reads(json, st, Tokens(v), st.pos + |Print(v)|, st.stack, |st.stack| + Depth(v))
    decreases v, 1
  {
    hide Contains, Reads, Next, TokenOf, PrintPieces, Meaning, EndsValue, PrintItems, PrintFields, ItemTokens, FieldTokens, ItemsDepth,
      FieldsDepth, At, AtValue;
    match v
    case Null => ReadLiteral(json, st, NULL);
    case Bool(b) => ReadLiteral(json, st, if b then TRUE else FALSE);
    case Num(negative, digits) => ReadNumber(json, st, negative, digits);
    case Str(pieces) => StringReads(json, st, pieces);
    case Arr(items) => ReadArray(json, st, items);
    case Obj(fields) => ReadObject(json, st, fields);
  }

  lemma StringReads(json: seq<byte>, st: State, pieces: Pieces)
    requires (forall p <- pieces :: ProperPiece(p)) && AtValue(st)
    requires Contains(json, st.pos, [QUOTE] + PrintPieces(pieces) + [QUOTE])
    ensures Reads(json, st, [Token(STRING, Meaning(pieces))], st.pos + |PrintPieces(pieces)| + 2, st.stack, |st.stack|)
  {
    hide Contains, Next, TokenOf;
    ReadString(json, st, pieces);
    OneToken(json, st);
  }

  lemma ArrayParts(items: Items)
    ensures Print(Arr(items)) == [LBRACKET] + (PrintItems(items) + [RBRACKET])
    ensures Tokens(Arr(items)) == [Token(LBRACKET, [])] + (ItemTokens(items) + [Token(RBRACKET, [])])
    ensures items.NoItems? ==> PrintItems(items) == [] && ItemTokens(items) + [Token(RBRACKET, [])] == [Token(RBRACKET, [])]
  {
    hide PrintItems, ItemTokens;
    if items.NoItems? {
      NoItemParts();
    }
  }

  lemma NoItemParts()
    ensures PrintItems(NoItems) == [] && ItemTokens(NoItems) == [] && PrintFields(NoFields) == [] && FieldTokens(NoFields) == []
    ensures ItemsDepth(NoItems) == FieldsDepth(NoFields) == 0
  {
  }

  lemma ItemParts(items: Items)
    requires items.Item?
    ensures items.tail.NoItems? ==> PrintItems(items) == Print(items.head) && ItemTokens(items) == Tokens(items.head)
    ensures items.tail.Item? ==>
              && PrintItems(items) == Print(items.head) + ([COMMA] + PrintItems(items.tail))
              && ItemTokens(items) == Tokens(items.head) + ([Token(COMMA, [])] + ItemTokens(items.tail))
    ensures Depth(items.head) <= ItemsDepth(items) && ItemsDepth(items.tail) <= ItemsDepth(items)
    ensures ItemsDepth(items) == Max(Depth(items.head), ItemsDepth(items.tail))
  {
    hide Print, Tokens, Depth, ItemsDepth, PrintItems, ItemTokens;
    ItemDepths(items);
    ItemPrinted(items);
    ItemRead(items);
  }

  lemma ItemPrinted(items: Items)
    requires items.Item?
    ensures PrintItems(items) == Print(items.head) + if items.tail.NoItems? then [] else [COMMA] + PrintItems(items.tail)
  {
    hide Print;
  }

  lemma ItemRead(items: Items)
    requires items.Item?
    ensures ItemTokens(items) == Tokens(items.head) + if items.tail.NoItems? then [] else [Token(COMMA, [])] + ItemTokens(items.tail)
  {
    hide Tokens;
  }

  lemma ItemDepths(items: Items)
    requires items.Item?
    ensures Depth(items.head) <= ItemsDepth(items) && ItemsDepth(items.tail) <= ItemsDepth(items)
    ensures ItemsDepth(items) == Max(Depth(items.head), ItemsDepth(items.tail))
  {
    hide Depth;
  }

  lemma ObjectParts(fields: Fields)
    ensures Print(Obj(fields)) == [LBRACE] + (PrintFields(fields) + [RBRACE])
    ensures Tokens(Obj(fields)) == [Token(LBRACE, [])] + (FieldTokens(fields) + [Token(RBRACE, [])])
    ensures fields.NoFields? ==> PrintFields(fields) == [] && FieldTokens(fields) + [Token(RBRACE, [])] == [Token(RBRACE, [])]
  {
    hide PrintFields, FieldTokens;
    if fields.NoFields? {
      NoItemParts();
    }
  }

  /** The text and the tokens after the value of the first field. */
  function MoreText(rest: Fields): seq<byte> {
    if rest.NoFields? then [] else [COMMA] + PrintFields(rest)
  }

  function MoreTokens(rest: Fields): seq<Token> {
    if rest.NoFields? then [] else [Token(COMMA, [])] + FieldTokens(rest)
  }

  lemma FieldParts(fields: Fields)
    requires fields.Field?
    ensures PrintFields(fields)
         == [QUOTE] + PrintPieces(fields.name) + [QUOTE, COLON] + (Print(fields.value) + MoreText(fields.rest))
    ensures FieldTokens(fields) == [Token(PAIR_NAME, Meaning(fields.name))] + (Tokens(fields.value) + MoreTokens(fields.rest))
    ensures FieldsDepth(fields) == Max(Depth(fields.value), FieldsDepth(fields.rest))
  {
    hide Print, Tokens, PrintPieces, Meaning, Depth, FieldsDepth, PrintFields, FieldTokens, MoreText, MoreTokens;
    FieldDepths(fields);
    FieldPrinted(fields);
    FieldRead(fields);
  }

  lemma FieldPrinted(fields: Fields)
    requires fields.Field?
    ensures PrintFields(fields)
         == [QUOTE] + PrintPieces(fields.name) + [QUOTE, COLON] + (Print(fields.value) + MoreText(fields.rest))
  {
    hide Print, PrintPieces;
    FourParts([QUOTE] + PrintPieces(fields.name) + [QUOTE, COLON], Print(fields.value), [COMMA], PrintFields(fields.rest));
  }

  lemma FourParts<T>(a: seq<T>, b: seq<T>, c: seq<T>, d: seq<T>)
    ensures a + b + c + d == a + (b + (c + d)) && b + [] == b
  {
  }

  lemma FieldRead(fields: Fields)
    requires fields.Field?
    ensures FieldTokens(fields) == [Token(PAIR_NAME, Meaning(fields.name))] + (Tokens(fields.value) + MoreTokens(fields.rest))
  {
    hide Tokens, Meaning;
    FourParts([Token(PAIR_NAME, Meaning(fields.name))], Tokens(fields.value), [Token(COMMA, [])], FieldTokens(fields.rest));
  }

  lemma FieldDepths(fields: Fields)
    requires fields.Field?
    ensures FieldsDepth(fields) == Max(Depth(fields.value), FieldsDepth(fields.rest))
  {
    hide Depth;
  }

  lemma {:induction false} ReadArray(json: seq<byte>, st: State, items: Items)
    requires ProperItems(items) && AtValue(st) && Contains(json, st.pos, Print(Arr(items)))
    ensures Reads(json, st, Tokens(Arr(items)), st.pos + |Print(Arr(items))|, st.stack, |st.stack| + 1 + ItemsDepth(items))
    decreases items, 2
  {
    hide Contains, Reads, Next, TokenOf, Print, Tokens, PrintItems, ItemTokens, ItemsDepth;
    ArrayParts(items);
    var text := PrintItems(items);
    ContainsFirst(json, st.pos, LBRACKET, text + [RBRACKET]);
    ContainsParts(json, st.pos + 1, text, [RBRACKET]);
    ContainsFirst(json, st.pos + 1 + |text|, RBRACKET, []);
    ReadOpen(json, st, LBRACKET);
    var (st1, _) := Next(json, st);
    var close := [Token(RBRACKET, [])];
    assert st1.stack[..|st1.stack| - 1] == st.stack;
    if items.NoItems? {
      ReadClose(json, st1, RBRACKET);
      ReadsMore(json, st, close, st1.pos + 1, st.stack, |st1.stack|);
      NoItemParts();
    } else {
      ReadItems(json, st1, items);
      forall st2: State | st2.pos == st1.pos + |text| && st2.stack == st1.stack && st2.vtype != 0 && st2.vtype != COMMA && st2.error == 0
        ensures Reads(json, st2, close, st2.pos + 1, st.stack, |st1.stack|)
      {
        ReadClose(json, st2, RBRACKET);
      }
      ReadsThen(json, st1, ItemTokens(items), st1.pos + |text|, st1.stack, |st1.stack| + ItemsDepth(items),
                close, st1.pos + |text| + 1, st.stack, |st1.stack|);
      ReadsMore(json, st, ItemTokens(items) + close, st1.pos + |text| + 1, st.stack, |st1.stack| + ItemsDepth(items));
    }
  }

  lemma {:induction false} ReadItems(json: seq<byte>, st: State, items: Items)
    requires items.Item? && ProperItems(items) && st.stack != [] && Top(st) == LBRACKET && AtValue(st)
    requires Contains(json, st.pos, PrintItems(items)) && EndsValue(At(json, st.pos + |PrintItems(items)|))
    ensures Reads(json, st, ItemTokens(items), st.pos + |PrintItems(items)|, st.stack, |st.stack| + ItemsDepth(items))
    decreases items, 1
  {
    hide Contains, Reads, Next, TokenOf, Print, Tokens, PrintItems, ItemTokens, Depth, ItemsDepth;
    ItemParts(items);
    var head, tail := items.head, items.tail;
    if tail.NoItems? {
      ReadValue(json, st, head);
      NoItemParts();
    } else {
      var text, rest := Print(head), PrintItems(tail);
      ContainsParts(json, st.pos, text, [COMMA] + rest);
      ContainsFirst(json, st.pos + |text|, COMMA, rest);
      ReadValue(json, st, head);
      var end, deep := st.pos + |PrintItems(items)|, |st.stack| + ItemsDepth(tail);
      forall st1: State | st1.pos == st.pos + |text| && st1.stack == st.stack && st1.vtype != 0 && st1.vtype != COMMA && st1.error == 0
        ensures Reads(json, st1, [Token(COMMA, [])] + ItemTokens(tail), end, st.stack, deep)
      {
        ReadComma(json, st1);
        var (st2, _) := Next(json, st1);
        ReadItems(json, st2, tail);
        ReadsMore(json, st1, ItemTokens(tail), end, st.stack, deep);
      }
      ReadsThen(json, st, Tokens(head), st.pos + |text|, st.stack, |st.stack| + Depth(head),
                [Token(COMMA, [])] + ItemTokens(tail), end, st.stack, deep);
    }
  }

  lemma {:induction false} ReadObject(json: seq<byte>, st: State, fields: Fields)
    requires ProperFields(fields) && AtValue(st) && Contains(json, st.pos, Print(Obj(fields)))
    ensures Reads(json, st, Tokens(Obj(fields)), st.pos + |Print(Obj(fields))|, st.stack, |st.stack| + 1 + FieldsDepth(fields))
    decreases fields, 2
  {
    hide Contains, Reads, Next, TokenOf, Print, Tokens, PrintFields, FieldTokens, FieldsDepth;
    ObjectParts(fields);
    var text := PrintFields(fields);
    ContainsFirst(json, st.pos, LBRACE, text + [RBRACE]);
    ContainsParts(json, st.pos + 1, text, [RBRACE]);
    ContainsFirst(json, st.pos + 1 + |text|, RBRACE, []);
    ReadOpen(json, st, LBRACE);
    var (st1, _) := Next(json, st);
    var close := [Token(RBRACE, [])];
    assert st1.stack[..|st1.stack| - 1] == st.stack;
    if fields.NoFields? {
      ReadClose(json, st1, RBRACE);
      ReadsMore(json, st, close, st1.pos + 1, st.stack, |st1.stack|);
      NoItemParts();
    } else {
      var stack := st.stack + [COLON];
      assert st1.stack[|st1.stack| - 1 := COLON] == stack;
      assert stack[..|stack| - 1] == st.stack;
      ReadFields(json, st1, fields);
      forall st2: State | st2.pos == st1.pos + |text| && st2.stack == stack && st2.vtype != 0 && st2.vtype != COMMA && st2.error == 0
        ensures Reads(json, st2, close, st2.pos + 1, st.stack, |st1.stack|)
      {
        ReadClose(json, st2, RBRACE);
      }
      ReadsThen(json, st1, FieldTokens(fields), st1.pos + |text|, stack, |st1.stack| + FieldsDepth(fields),
                close, st1.pos + |text| + 1, st.stack, |st1.stack|);
      ReadsMore(json, st, FieldTokens(fields) + close, st1.pos + |text| + 1, st.stack, |st1.stack| + FieldsDepth(fields));
    }
  }

  /** The name of a field and its colon: what is read after them is read as if from behind the colon. */
  lemma ReadName(json: seq<byte>, st: State, name: Pieces, ts: seq<Token>, end: nat, stack: seq<byte>, deep: nat)
    requires (forall p <- name :: ProperPiece(p)) && Contains(json, st.pos, [QUOTE] + PrintPieces(name) + [QUOTE, COLON])
    requires st.stack != [] && Top(st) == LBRACE && st.error == 0 && ts != [] && |st.stack| <= deep
    requires forall st2: State | st2.pos == st.pos + |PrintPieces(name)| + 3 && st2.stack == st.stack[|st.stack| - 1 := COLON]
                                 && st2.vtype == 0 && st2.error == 0 ::
               Reads(json, st2, ts, end, stack, deep)
    ensures Reads(json, st, [Token(PAIR_NAME, Meaning(name))] + ts, end, stack, deep)
  {
    hide Contains, Next, TokenOf, Run;
    var text := [QUOTE] + PrintPieces(name) + [QUOTE];
    assert [QUOTE] + PrintPieces(name) + [QUOTE, COLON] == text + [COLON];
    ContainsParts(json, st.pos, text, [COLON]);
    ContainsFirst(json, st.pos + |text|, COLON, []);
    ReadString(json, st, name);
    var (st1, t) := Next(json, st);
    PastColon(json, st1, |ts|);
    var st2 := Modify(st1, COLON).(pos := st1.pos + 1, vtype := 0);
    assert Reads(json, st2, ts, end, stack, deep);
    assert Reads(json, st1, ts, end, stack, deep);
    ReadsMore(json, st, ts, end, stack, deep);
  }

  lemma {:induction false} ReadFields(json: seq<byte>, st: State, fields: Fields)
    requires fields.Field? && ProperFields(fields) && st.stack != [] && Top(st) == LBRACE && st.error == 0
    requires Contains(json, st.pos, PrintFields(fields)) && EndsValue(At(json, st.pos + |PrintFields(fields)|))
    ensures Reads(json, st, FieldTokens(fields), st.pos + |PrintFields(fields)|, st.stack[|st.stack| - 1 := COLON],
                  |st.stack| + FieldsDepth(fields))
    decreases fields, 1
  {
    hide Contains, Reads, Next, TokenOf, Print, Tokens, PrintFields, FieldTokens, FieldsDepth, Depth, PrintPieces, Meaning;
    FieldParts(fields);
    var name, value, rest := fields.name, fields.value, fields.rest;
    var head, text := [QUOTE] + PrintPieces(name) + [QUOTE, COLON], Print(value);
    var stack, end := st.stack[|st.stack| - 1 := COLON], st.pos + |PrintFields(fields)|;
    var deep := |st.stack| + FieldsDepth(fields);
    ContainsParts(json, st.pos, head, text + MoreText(rest));
    ContainsParts(json, st.pos + |head|, text, MoreText(rest));
    forall st2: State | st2.pos == st.pos + |PrintPieces(name)| + 3 && st2.stack == stack && st2.vtype == 0 && st2.error == 0
      ensures Reads(json, st2, Tokens(value) + MoreTokens(rest), end, stack, deep)
    {
      if rest.NoFields? {
        NoItemParts();
        ReadValue(json, st2, value);
        assert Tokens(value) + MoreTokens(rest) == Tokens(value);
      } else {
        ReadFieldThenMore(json, st2, fields, end);
      }
    }
    ReadName(json, st, name, Tokens(value) + MoreTokens(rest), end, stack, deep);
  }

  lemma MoreBegins(json: seq<byte>, at: nat, rest: Fields)
    requires rest.Field? && Contains(json, at, MoreText(rest))
    ensures At(json, at) == COMMA && at < |json| && Contains(json, at + 1, PrintFields(rest)) && EndsValue(At(json, at))
    ensures |MoreText(rest)| == 1 + |PrintFields(rest)|
  {
    hide Contains, PrintFields;
    ContainsFirst(json, at, COMMA, PrintFields(rest));
  }

  lemma MaxBeyond(a: nat, b: nat, c: nat)
    ensures Max(a + b, a + c) == a + Max(b, c)
  {
  }

  /** The value of a field, and the fields after it. */
  lemma {:induction false} ReadFieldThenMore(json: seq<byte>, st: State, fields: Fields, end: nat)
    requires fields.Field? && fields.rest.Field? && ProperFields(fields)
    requires st.stack != [] && Top(st) == COLON && st.vtype == 0 && st.error == 0
    requires Contains(json, st.pos, Print(fields.value)) && Contains(json, st.pos + |Print(fields.value)|, MoreText(fields.rest))
    requires end == st.pos + |Print(fields.value)| + |MoreText(fields.rest)| && EndsValue(At(json, end))
    ensures Reads(json, st, Tokens(fields.value) + MoreTokens(fields.rest), end, st.stack, |st.stack| + FieldsDepth(fields))
    decreases fields, 0
  {
    hide Contains, Reads, Next, TokenOf, Print, Tokens, PrintFields, FieldTokens, FieldsDepth, Depth, MoreText, MoreTokens,
      EndsValue, At, Max;
    var value, rest, text, stack := fields.value, fields.rest, Print(fields.value), st.stack;
    MoreBegins(json, st.pos + |text|, rest);
    ReadValue(json, st, value);
    var deep, deep' := |stack| + Depth(value), |stack| + FieldsDepth(rest);
    FieldDepths(fields);
    MaxBeyond(|stack|, Depth(value), FieldsDepth(rest));
    forall st3: State | st3.pos == st.pos + |text| && st3.stack == stack && st3.vtype != 0 && st3.vtype != COMMA && st3.error == 0
      ensures Reads(json, st3, MoreTokens(rest), end, stack, deep')
    {
      ReadMoreFields(json, st3, rest, end);
    }
    ReadsThen(json, st, Tokens(value), st.pos + |text|, stack, deep, MoreTokens(rest), end, stack, deep');
  }

  /** The comma, and the fields after it. */
  lemma {:induction false} ReadMoreFields(json: seq<byte>, st: State, rest: Fields, end: nat)
    requires rest.Field? && ProperFields(rest) && st.stack != [] && Top(st) == COLON
    requires st.vtype != 0 && st.vtype != COMMA && st.error == 0 && At(json, st.pos) == COMMA && st.pos < |json|
    requires Contains(json, st.pos + 1, PrintFields(rest)) && end == st.pos + 1 + |PrintFields(rest)| && EndsValue(At(json, end))
    ensures Reads(json, st, MoreTokens(rest), end, st.stack, |st.stack| + FieldsDepth(rest))
    decreases rest, 2
  {
    hide Contains, Reads, Next, TokenOf, Print, Tokens, PrintFields, FieldTokens, FieldsDepth, Depth;
    ReadComma(json, st);
    var (st1, _) := Next(json, st);
    assert st1.stack[|st1.stack| - 1 := COLON] == st.stack;
    ReadFields(json, st1, rest);
    ReadsMore(json, st, FieldTokens(rest), end, st.stack, |st.stack| + FieldsDepth(rest));
  }

  /** A text printed from a tree is read as the tokens of the tree, and then its end is reached
      without an error and at depth 0; the stack holds just as much as the tree is nested. */
  lemma ReadDocument(v: Json)
    requires Proper(v)
    ensures var (st, ts, deep) := Run(Print(v), START, |Tokens(v)|);
            && ts == Tokens(v) && st.pos == |Print(v)| && st.stack == [] && st.error == 0 && deep == Depth(v)
            && var (last, t) := Next(Print(v), st);
               t == 0 && last.error == 0 && last.stack == []
  {
    hide Run, Print, Tokens, Proper;
    var json := Print(v);
    assert Contains(json, 0, json);
    ReadValue(json, START, v);
  }
}
