/** The parser state as jsonparse_next updates it, and the copying of values. */
module JsonParser {
  import opened Basics
  import opened JsonSpec
  import opened JsonProof

  class Parser {
    const json: seq<byte>
    var pos: nat
    var depth: nat
    var vstart: nat
    var vlen: nat
    var vtype: byte
    var error: byte
    const stack: array<byte>

    ghost predicate Valid()
      reads this`depth
    {
      stack.Length == JSONPARSE_MAX_DEPTH && depth <= JSONPARSE_MAX_DEPTH
    }

    ghost function Abstract(): State
      requires Valid()
      reads this, stack
    {
      State(pos, stack[..depth], vstart, vlen, vtype, error)
    }

    /** jsonparse_setup */
    constructor (json: seq<byte>)
      ensures Valid() && this.json == json && Abstract() == START && fresh(stack)
    {
      this.json := json;
      stack := new byte[JSONPARSE_MAX_DEPTH](i => 0);
      pos, depth, error, vtype, vstart, vlen := 0, 0, 0, 0, 0, 0;
    }

    method CharAt(i: nat) returns (c: byte)
      ensures c == At(json, i)
    {
      c := if i < |json| then json[i] else 0;
    }

    method GetType() returns (t: byte)
      requires Valid()
      ensures t == Top(Abstract())
    {
      t := if depth == 0 then 0 else stack[depth - 1];
    }

    /** push: the result, which says whether there is room for more, is used by nobody. */
    method PushType(c: byte) returns (room: bool)
      requires Valid() && depth < JSONPARSE_MAX_DEPTH
      modifies this`depth, this`vtype, stack
      ensures Valid() && Abstract() == Push(old(Abstract()), c) && room == (depth < JSONPARSE_MAX_DEPTH)
    {
      stack[depth] := c;
      depth := depth + 1;
      vtype := 0;
      room := depth < JSONPARSE_MAX_DEPTH;
    }

    method ModifyType(c: byte)
      requires Valid()
      modifies stack
      ensures Valid() && Abstract() == Modify(old(Abstract()), c)
    {
      if depth > 0 {
        stack[depth - 1] := c;
      }
    }

    method PopType()
      requires Valid()
      modifies this`depth, this`vtype
      ensures Valid() && Abstract() == Pop(old(Abstract()))
    {
      if depth > 0 {
        depth := depth - 1;
        vtype := stack[depth];
      }
    }

    method SkipWhitespace()
      modifies this`pos
      ensures pos == SkipSpace(json, old(pos))
    {
      while pos < |json| && (json[pos] == SPACE || json[pos] == NEWLINE)
        invariant SkipSpace(json, pos) == SkipSpace(json, old(pos))
        decreases |json| - pos
      {
        pos := pos + 1;
      }
    }

    /** The loop of atomic over a string. */
    method PassString() returns (c: byte)
      modifies this`pos
      ensures pos == ScanString(json, old(pos)) && c == At(json, pos - 1)
    {
      c := CharAt(pos);
      pos := pos + 1;
      while c != 0 && c != QUOTE
        invariant pos > 0 && c == At(json, pos - 1) && ScanString(json, pos - 1) == ScanString(json, old(pos))
        decreases |json| + 1 - pos
      {
        if c == BACKSLASH {
          pos := pos + 1;
        }
        c := CharAt(pos);
        pos := pos + 1;
      }
    }

    method PassNumber()
      modifies this`pos
      ensures pos == ScanNumber(json, old(pos))
    {
      var c := CharAt(pos);
      while InNumber(c)
        invariant c == At(json, pos) && ScanNumber(json, pos) == ScanNumber(json, old(pos))
        decreases |json| - pos
      {
        pos := pos + 1;
        c := CharAt(pos);
      }
    }

    method PassLiteral()
      modifies this`pos
      ensures pos == ScanLiteral(json, old(pos))
    {
      var c := CharAt(pos);
      while !EndsLiteral(c)
        invariant c == At(json, pos) && ScanLiteral(json, pos) == ScanLiteral(json, old(pos))
        decreases |json| - pos
      {
        pos := pos + 1;
        c := CharAt(pos);
      }
    }

    /** The comparison by strncmp over the longer of the two. */
    method IsLiteral(t: byte) returns (same: bool)
      ensures same == (Extent(json, vstart, vlen) == LiteralText(t))
    {
      var text := LiteralText(t);
      if vlen != |text| {
        assert |Extent(json, vstart, vlen)| == vlen;
        return false;
      }
      for i := 0 to vlen
        invariant forall k | 0 <= k < i :: At(json, vstart + k) == text[k]
      {
        if At(json, vstart + i) != text[i] {
          assert Extent(json, vstart, vlen)[i] != text[i];
          return false;
        }
      }
      assert Extent(json, vstart, vlen) == text;
      return true;
    }

    /** atomic */
    method PassAtomic(kind: byte) returns (t: byte)
      requires Valid() && pos > 0
      modifies this`pos, this`vstart, this`vlen, this`vtype, this`error
      ensures Valid() && (Abstract(), t) == Atomic(json, old(Abstract()), kind)
    {
      vstart := pos;
      if kind == STRING || kind == PAIR_NAME {
        var c := PassString();
        if c != QUOTE {
          error := ERROR_SYNTAX;
          return 0;
        }
        vlen := pos - vstart - 1;
      } else if kind == NUMBER {
        PassNumber();
        vstart := vstart - 1;
        vlen := pos - vstart;
      } else {
        vstart := vstart - 1;
        PassLiteral();
        vlen := pos - vstart;
        var same := IsLiteral(kind);
        if !same {
          error := ERROR_SYNTAX;
          return 0;
        }
      }
      vtype := kind;
      return kind;
    }

    /** jsonparse_next. The caller has to know that the text is not nested too deeply for the stack. */
    method NextToken() returns (t: byte)
      requires Valid() && |Next(json, Abstract()).0.stack| <= JSONPARSE_MAX_DEPTH
      modifies this, stack
      ensures Valid() && (Abstract(), t) == Next(json, old(Abstract()))
      decreases |json| - pos
    {
      hide Atomic;
      SkipWhitespace();
      var c := CharAt(pos);
      var s := GetType();
      var v := vtype;
      pos := pos + 1;
      if c == LBRACE || c == LBRACKET {
        if (s == 0 && v == 0) || s == LBRACKET || s == COLON {
          var _ := PushType(c);
          return c;
        }
        error := if c == LBRACE then ERROR_UNEXPECTED_OBJECT else ERROR_UNEXPECTED_ARRAY;
        return 0;
      }
      if c == RBRACE || c == RBRACKET {
        if c == RBRACE && ((s == COLON && v != COMMA && v != 0) || (s == LBRACE && v == 0)) {
          PopType();
          return c;
        }
        if c == RBRACKET && s == LBRACKET && v != COMMA {
          PopType();
          return c;
        }
        error := if c == RBRACE then ERROR_UNEXPECTED_END_OF_OBJECT else ERROR_UNEXPECTED_END_OF_ARRAY;
        return 0;
      }
      if c == COLON {
        if s == LBRACE && v == PAIR_NAME {
          ModifyType(COLON);
          vtype := 0;
          t := NextToken();
          return;
        }
        error := ERROR_SYNTAX;
        return 0;
      }
      if c == COMMA {
        if s == COLON && v != 0 {
          ModifyType(LBRACE);
          vtype := c;
          return c;
        }
        if s == LBRACKET {
          vtype := c;
          return c;
        }
        error := ERROR_SYNTAX;
        return 0;
      }
      if c == QUOTE {
        if (s == 0 && v == 0) || s == LBRACE || s == LBRACKET || s == COLON {
          t := PassAtomic(if s == LBRACE then PAIR_NAME else STRING);
          return;
        }
        error := ERROR_UNEXPECTED_STRING;
        return 0;
      }
      t := OtherToken(c, s, v);
    }

    /** The end of the text, and the default case of the switch. */
    method OtherToken(c: byte, s: byte, v: byte) returns (t: byte)
      requires Valid() && pos > 0 && s == Top(Abstract()) && v == vtype
      modifies this`pos, this`vstart, this`vlen, this`vtype, this`error
      ensures Valid()
      ensures (Abstract(), t) ==
                var st := old(Abstract());
                if c == 0 then (if v == 0 || st.stack != [] then Fail(st, ERROR_SYNTAX) else (st, 0))
                else if s == 0 || s == COLON || s == LBRACKET then
                  if v != 0 && v != COMMA then Fail(st, ERROR_SYNTAX)
                  else if AtomType(c) != 0 then Atomic(json, st, AtomType(c))
                  else Fail(st, ERROR_SYNTAX)
                else if s == LBRACE then Fail(st, ERROR_SYNTAX)
                else (st, 0)
    {
      hide Atomic;
      t := 0;
      if c == 0 {
        if v == 0 || depth > 0 {
          error := ERROR_SYNTAX;
        }
      } else if s == 0 || s == COLON || s == LBRACKET {
        if v != 0 && v != COMMA {
          error := ERROR_SYNTAX;
        } else if AtomType(c) != 0 {
          t := PassAtomic(AtomType(c));
        } else {
          error := ERROR_SYNTAX;
        }
      } else if s == LBRACE {
        error := ERROR_SYNTAX;
      }
    }

    /** jsonparse_copy_value: the text without its escapes, as far as it fits with its zero. */
    method CopyValue(size: nat) returns (str: seq<byte>, t: byte)
      requires Valid() && size > 0 && Complete(Extent(json, vstart, vlen))
      ensures if !IsAtomic(vtype) then t == 0
              else t == vtype && var text := Decode(Extent(json, vstart, vlen)); str == text[..Min(|text|, size - 1)]
    {
      str, t := [], 0;
      if !IsAtomic(vtype) {
        return;
      }
      var raw := Extent(json, vstart, vlen);
      var i := 0;
      while i < vlen && |str| < size - 1
        invariant 0 <= i <= vlen && |str| <= size - 1
        invariant str + Decode(raw[i..]) == Decode(raw) && Complete(raw[i..])
        decreases vlen - i
      {
        var c := raw[i];
        DecodeStep(raw, i, str);
        if c == BACKSLASH {
          str := str + Unescape(raw[i + 1]);
          i := i + 2;
        } else {
          str := str + [c];
          i := i + 1;
        }
      }
      if i == vlen {
        assert raw[i..] == [] && str + [] == str;
      }
      t := vtype;
    }
  }

  /** No escape is cut off at the end of the text. */
  predicate Complete(raw: seq<byte>)
    decreases |raw|
  {
    raw == [] || if raw[0] == BACKSLASH then |raw| >= 2 && Complete(raw[2..]) else Complete(raw[1..])
  }

  lemma DecodeStep(raw: seq<byte>, i: nat, done: seq<byte>)
    requires i < |raw| && Complete(raw[i..])
    ensures raw[i] == BACKSLASH ==>
              i + 2 <= |raw| && Complete(raw[i + 2..]) && |Unescape(raw[i + 1])| <= 1
              && done + Decode(raw[i..]) == done + Unescape(raw[i + 1]) + Decode(raw[i + 2..])
    ensures raw[i] != BACKSLASH ==>
              Complete(raw[i + 1..]) && done + Decode(raw[i..]) == done + [raw[i]] + Decode(raw[i + 1..])
  {
    var rest := raw[i..];
    assert rest[1..] == raw[i + 1..];
    if raw[i] == BACKSLASH {
      assert rest[2..] == raw[i + 2..];
    }
  }

  lemma ExtentTail(json: seq<byte>, start: nat, length: nat, n: nat)
    requires n <= length
    ensures Extent(json, start, length)[n..] == Extent(json, start + n, length - n)
  {
  }

  lemma {:induction false} StringIsComplete(json: seq<byte>, at: nat)
    requires At(json, ScanString(json, at) - 1) == QUOTE
    ensures Complete(Extent(json, at, ScanString(json, at) - 1 - at))
    decreases |json| - at
  {
    var c := At(json, at);
    var length := ScanString(json, at) - 1 - at;
    if c == BACKSLASH {
      StringIsComplete(json, at + 2);
      ExtentTail(json, at, length, 2);
    } else if c != 0 && c != QUOTE {
      StringIsComplete(json, at + 1);
      ExtentTail(json, at, length, 1);
    }
  }

  lemma {:induction false} PlainIsComplete(raw: seq<byte>)
    requires forall i | 0 <= i < |raw| :: raw[i] != BACKSLASH
    ensures Complete(raw)
    decreases |raw|
  {
    if raw != [] {
      PlainIsComplete(raw[1..]);
    }
  }

  lemma {:induction false} DigitsScanned(json: seq<byte>, at: nat)
    ensures forall i | at <= i < ScanNumber(json, at) :: InNumber(At(json, i))
    decreases |json| - at
  {
    if InNumber(At(json, at)) {
      DigitsScanned(json, at + 1);
    }
  }

  /** Every value that the parser finds can be copied. */
  lemma ValuesAreComplete(json: seq<byte>, st: State, kind: byte)
    requires IsAtomic(kind) && st.pos > 0 && (kind == NUMBER ==> At(json, st.pos - 1) != BACKSLASH)
    ensures var (st', t) := Atomic(json, st, kind);
            t != 0 ==> Complete(Extent(json, st'.vstart, st'.vlen))
  {
    hide ScanString, ScanNumber, ScanLiteral, Complete;
    if kind == STRING || kind == PAIR_NAME {
      if At(json, ScanString(json, st.pos) - 1) == QUOTE {
        StringIsComplete(json, st.pos);
      }
    } else if kind == NUMBER {
      DigitsScanned(json, st.pos);
      PlainIsComplete(Extent(json, st.pos - 1, ScanNumber(json, st.pos) - (st.pos - 1)));
    } else {
      PlainIsComplete(LiteralText(kind));
    }
  }

  // ----- A whole text -----

  lemma {:induction false} DecodeShrinks(raw: seq<byte>)
    ensures |Decode(raw)| <= |raw|
    decreases |raw|
  {
    if raw != [] {
      if raw[0] != BACKSLASH {
        DecodeShrinks(raw[1..]);
      } else if |raw| > 1 {
        DecodeShrinks(raw[2..]);
      }
    }
  }

  lemma {:induction false} NextIsComplete(json: seq<byte>, st: State)
    ensures var (st', t) := Next(json, st);
            IsAtomic(t) ==> Complete(Extent(json, st'.vstart, st'.vlen)) && st'.vtype == t
    decreases |json| - st.pos
  {
    hide Complete, Extent, ScanString, ScanNumber, ScanLiteral;
    var at := SkipSpace(json, st.pos);
    var c := At(json, at);
    var st1 := st.(pos := at + 1);
    if c == COLON && Top(st) == LBRACE && st.vtype == PAIR_NAME {
      NextIsComplete(json, Modify(st1, COLON).(vtype := 0));
    } else if c == QUOTE {
      ValuesAreComplete(json, st1, if Top(st) == LBRACE then PAIR_NAME else STRING);
    } else if AtomType(c) != 0 {
      ValuesAreComplete(json, st1, AtomType(c));
    }
  }

  lemma {:induction false} TypesAreNotZero(v: Json, n: nat)
    requires n < |Tokens(v)|
    ensures Tokens(v)[n].t != 0
    decreases v
  {
    match v
    case Arr(items) =>
      if 0 < n <= |ItemTokens(items)| {
        ItemTypes(items, n - 1);
      }
    case Obj(fields) =>
      if 0 < n <= |FieldTokens(fields)| {
        FieldTypes(fields, n - 1);
      }
    case _ =>
  }

  lemma {:induction false} ItemTypes(items: Items, n: nat)
    requires n < |ItemTokens(items)|
    ensures ItemTokens(items)[n].t != 0
    decreases items
  {
    if n < |Tokens(items.head)| {
      TypesAreNotZero(items.head, n);
    } else if n > |Tokens(items.head)| {
      ItemTypes(items.tail, n - |Tokens(items.head)| - 1);
    }
  }

  lemma {:induction false} FieldTypes(fields: Fields, n: nat)
    requires n < |FieldTokens(fields)|
    ensures FieldTokens(fields)[n].t != 0
    decreases fields
  {
    var length := |Tokens(fields.value)|;
    if 1 <= n <= length {
      TypesAreNotZero(fields.value, n - 1);
    } else if n > length + 1 {
      FieldTypes(fields.rest, n - length - 2);
    }
  }

  /** A run goes through every state that its parts end in. */
  lemma RunPrefix(json: seq<byte>, st: State, m: nat, n: nat)
    requires m < n
    ensures var (st', ts, _) := Run(json, st, m);
            var (next, t) := Next(json, st');
            var (end, all, deep) := Run(json, st, n);
            && |all| == n && ts == all[..m] && TokenOf(json, next, t) == all[m]
            && Run(json, st, m + 1).0 == next && Run(json, st, m + 1).1 == all[..m + 1] && |next.stack| <= deep
  {
    hide Next, TokenOf, Run;
    var (st', _, _) := Run(json, st, m);
    RunLength(json, st, m);
    RunLength(json, st, n);
    RunBoth(json, st, m, 1);
    OneToken(json, st');
    RunBoth(json, st, m + 1, n - m - 1);
    RunDeep(json, Run(json, st, m + 1).0, n - m - 1);
  }

  lemma {:induction false} RunLength(json: seq<byte>, st: State, n: nat)
    ensures |Run(json, st, n).1| == n
    decreases n
  {
    hide Next, TokenOf;
    if n > 0 {
      RunLength(json, Next(json, st).0, n - 1);
    }
  }

  /** Reading a printed text to its end, with the text of each value copied, gives the tokens of its
      tree, if it is nested no deeper than the stack holds. */
  method ReadAll(json: seq<byte>, ghost v: Json) returns (tokens: seq<Token>, error: byte)
    requires Proper(v) && json == Print(v) && Depth(v) <= 10
    ensures tokens == Tokens(v) && error == 0
  {
    hide Next, Run, Tokens, Print, Proper, Depth, Decode, Extent, Complete;
    var parser := new Parser(json);
    ghost var all, n := Tokens(v), 0;
    ReadDocument(v);
    RunNone(json);
    tokens := [];
    var more := true;
    while more
      invariant parser.Valid() && parser.json == json && fresh(parser) && fresh(parser.stack)
      invariant n <= |all| && tokens == all[..n]
      invariant more ==> parser.Abstract() == Run(json, START, n).0
      invariant !more ==> n == |all| && parser.error == 0
      decreases more, |all| - n
    {
      ghost var st := parser.Abstract();
      if n < |all| {
        RunPrefix(json, START, n, |all|);
        TypesAreNotZero(v, n);
      }
      NextIsComplete(json, st);
      var t := parser.NextToken();
      more := t != 0;
      if more {
        var text: seq<byte> := [];
        if IsAtomic(t) {
          DecodeShrinks(Extent(json, parser.vstart, parser.vlen));
          ExtentLength(json, parser.vstart, parser.vlen);
          var kind: byte;
          text, kind := parser.CopyValue(parser.vlen + 1);
          assert text == Decode(Extent(json, parser.vstart, parser.vlen));
        }
        assert Token(t, text) == TokenOf(json, parser.Abstract(), t) == all[n];
        tokens := tokens + [Token(t, text)];
        n := n + 1;
      }
    }
    error := parser.error;
  }

  lemma RunNone(json: seq<byte>)
    ensures Run(json, START, 0) == (START, [], 0)
  {
  }

  lemma ExtentLength(json: seq<byte>, start: nat, length: nat)
    ensures |Extent(json, start, length)| == length
  {
  }
}
