/** Which token sequences the parser gives without an error: brackets match, and each token may follow the
    one before it (apps/json/jsonparse.c). The parser takes some texts that are not JSON. */
module JsonAccept {
  import opened Basics
  import opened JsonSpec
  import JsonProof
  import JsonParser

  // Tokens by their characters: { } [ ] , are 123 125 91 93 44, a name is 78, a string 34, a number 48,
  // and null, true and false are 110, 116 and 102.

  /** The brackets that are open after a token. */
  function OpenAfter(open: seq<byte>, t: byte): seq<byte> {
    if t == 123 || t == 91 then open + [t]
    else if (t == 125 || t == 93) && open != [] then open[..|open| - 1]
    else open
  }

  /** Which token may come in these brackets after the one before, which is zero at the start. In an array,
      a comma or a string may come anywhere, but a number or literal only at the start or after a comma.
      In an object, a name may follow a name, and a value other than a number or literal may follow a value. */
  predicate Permitted(open: seq<byte>, before: byte, t: byte) {
    if open == [] then before == 0 && t in {123, 91, 34, 48, 110, 116, 102}
    else if open[|open| - 1] == 91 then
      if t == 93 then before != 44
      else if t in {48, 110, 116, 102} then before in {91, 44}
      else t in {44, 34, 123, 91}
    else
      if t == 78 then before in {123, 44, 78}
      else if t == 125 then before !in {44, 78}
      else if t == 44 then before !in {123, 44, 78}
      else if t in {48, 110, 116, 102} then before == 78
      else t in {34, 123, 91} && before !in {123, 44}
  }

  /** The text that belongs to a token. */
  predicate TextFits(token: Token) {
    if token.t == 110 then token.text == [110, 117, 108, 108]
    else if token.t == 116 then token.text == [116, 114, 117, 101]
    else if token.t == 102 then token.text == [102, 97, 108, 115, 101]
    else if token.t == 48 then
      && token.text != [] && (token.text[0] == 45 || 48 <= token.text[0] <= 57)
      && forall i | 1 <= i < |token.text| :: token.text[i] == 46 || 48 <= token.text[i] <= 57
    else token.t == 34 || token.t == 78 || token.text == []
  }

  predicate Lawful(open: seq<byte>, before: byte, ts: seq<Token>)
    decreases |ts|
  {
    ts == [] ||
      (Permitted(open, before, ts[0].t) && TextFits(ts[0]) && Lawful(OpenAfter(open, ts[0].t), ts[0].t, ts[1..]))
  }

  /** The brackets that are open after all these tokens. */
  function OpenAtEnd(open: seq<byte>, ts: seq<Token>): seq<byte>
    decreases |ts|
  {
    if ts == [] then open else OpenAtEnd(OpenAfter(open, ts[0].t), ts[1..])
  }

  /** No call has ended with an error or at the end of the text. */
  predicate Given(ts: seq<Token>) {
    ts == [] || (ts[0].t != 0 && Given(ts[1..]))
  }

  // ----- The state behind the tokens -----

  function Bracket(c: byte): byte {
    if c == 91 then 91 else 123
  }

  /** The stack has the open brackets; a colon stands for an object in which a value is due or has been
      read. The type of the last value tells what came before. */
  predicate Linked(st: State, open: seq<byte>, before: byte) {
    && st.error == 0 && |open| == |st.stack|
    && (forall k | 0 <= k < |open| :: open[k] == Bracket(st.stack[k]) && st.stack[k] in {91, 123, 58})
    && (forall k | 0 <= k < |open| - 1 :: st.stack[k] in {91, 58})
    && if open == [] then (before == 0 <==> st.vtype == 0) && st.vtype != 44
       else if Top(st) == 91 then (st.vtype == 0 <==> before == 91) && (st.vtype == 44 <==> before == 44) && before != 0
       else if Top(st) == 123 then
         && (st.vtype == 0 <==> before == 123) && (st.vtype == 44 <==> before == 44) && (st.vtype == 78 <==> before == 78)
         && before in {123, 44, 78}
       else (st.vtype == 0 <==> before == 78) && st.vtype != 44 && before !in {0, 123, 44}
  }

  lemma PopLinked(st: State, open: seq<byte>, before: byte, t: byte)
    requires Linked(st, open, before) && open != [] && t in {125, 93}
    ensures Linked(Pop(st), OpenAfter(open, t), t)
  {
  }

  lemma PushLinked(st: State, open: seq<byte>, before: byte, t: byte)
    requires Linked(st, open, before) && t in {123, 91} && (open == [] || Top(st) in {91, 58})
    ensures Linked(Push(st, t), OpenAfter(open, t), t)
  {
  }

  lemma ColonLinked(st: State, open: seq<byte>)
    requires Linked(st, open, 78) && open != [] && Top(st) == 123
    ensures Linked(Modify(st, 58).(vtype := 0), open, 78) && Top(Modify(st, 58)) == 58
  {
  }

  lemma CommaLinked(st: State, open: seq<byte>, before: byte)
    requires Linked(st, open, before) && open != [] && Top(st) in {58, 91}
    ensures Top(st) == 58 ==> Linked(Modify(st, 123).(vtype := 44), OpenAfter(open, 44), 44)
    ensures Top(st) == 91 ==> Linked(st.(vtype := 44), OpenAfter(open, 44), 44)
  {
  }

  lemma ValueLinked(st: State, open: seq<byte>, before: byte, t: byte)
    requires Linked(st, open, before) && t in {34, 48, 110, 116, 102, 78}
    requires t == 78 <==> open != [] && Top(st) == 123
    requires open == [] ==> before == 0
    ensures Linked(st.(vtype := t), open, t)
  {
  }

  // ----- The texts of values -----

  lemma NumberFits(json: seq<byte>, st: State)
    requires st.pos > 0 && (At(json, st.pos - 1) == 45 || 48 <= At(json, st.pos - 1) <= 57)
    ensures var (st', t) := Atomic(json, st, 48); t == 48 && TextFits(TokenOf(json, st', t))
  {
    hide ScanNumber, ScanString, ScanLiteral, Decode;
    var end := ScanNumber(json, st.pos);
    JsonParser.DigitsScanned(json, st.pos);
    JsonProof.DecodePlain(Extent(json, st.pos - 1, end - (st.pos - 1)));
  }

  lemma LiteralFits(json: seq<byte>, st: State, kind: byte)
    requires st.pos > 0 && kind in {110, 116, 102}
    ensures var (st', t) := Atomic(json, st, kind); t != 0 ==> t == kind && TextFits(TokenOf(json, st', t))
  {
    hide ScanNumber, ScanString, ScanLiteral, Extent, Decode;
    JsonProof.DecodePlain(LiteralText(kind));
  }

  lemma AtomicKeeps(json: seq<byte>, st: State, kind: byte)
    requires st.pos > 0 && IsAtomic(kind)
    ensures var (st', t) := Atomic(json, st, kind);
            && (t != 0 ==> t == kind && st' == st.(pos := st'.pos, vstart := st'.vstart, vlen := st'.vlen, vtype := kind))
            && (t == 0 ==> st'.error == ERROR_SYNTAX)
  {
    hide ScanNumber, ScanString, ScanLiteral, Extent, LiteralText;
  }

  // ----- One token -----

  /** Whether the parser comes to the end of the text without an error. */
  predicate AtEnd(json: seq<byte>, st: State) {
    At(json, SkipSpace(json, st.pos)) == 0
  }

  /** The last bracket, and what came before, as the parser sees them. */
  lemma LastLinked(st: State, open: seq<byte>, before: byte)
    requires Linked(st, open, before)
    ensures st.error == 0 && (open == [] <==> st.stack == []) && (open == [] ==> Top(st) == 0)
    ensures open == [] ==> (before == 0 <==> st.vtype == 0) && st.vtype != 44
    ensures open != [] ==>
              var last := open[|open| - 1];
              && Top(st) in {91, 123, 58} && last == (if Top(st) == 91 then 91 else 123)
              && if Top(st) == 91 then (st.vtype == 0 <==> before == 91) && (st.vtype == 44 <==> before == 44)
                 else if Top(st) == 123 then
                   && (st.vtype == 0 <==> before == 123) && (st.vtype == 44 <==> before == 44)
                   && (st.vtype == 78 <==> before == 78) && before in {123, 44, 78}
                 else (st.vtype == 0 <==> before == 78) && st.vtype != 44 && before !in {0, 123, 44}
  {
  }

  lemma MovedLinked(st: State, open: seq<byte>, before: byte, pos: nat, vstart: nat, vlen: nat)
    requires Linked(st, open, before)
    ensures Linked(st.(pos := pos, vstart := vstart, vlen := vlen), open, before)
  {
  }

  lemma AtomLawful(json: seq<byte>, st: State, open: seq<byte>, before: byte, kind: byte)
    requires Linked(st, open, before) && st.pos > 0 && Permitted(open, before, kind)
    requires kind in {78, 34, 48, 110, 116, 102} && (kind == 78 <==> open != [] && Top(st) == 123)
    requires kind == 48 ==> At(json, st.pos - 1) == 45 || 48 <= At(json, st.pos - 1) <= 57
    ensures var (st', t) := Atomic(json, st, kind);
            if t == 0 then st'.error != 0 else t == kind && TextFits(TokenOf(json, st', t)) && Linked(st', OpenAfter(open, t), t)
  {
    hide Atomic, Linked, Permitted, TextFits, Decode, Extent;
    AtomicKeeps(json, st, kind);
    var (st', t) := Atomic(json, st, kind);
    if kind == 48 {
      NumberFits(json, st);
    } else if kind in {110, 116, 102} {
      LiteralFits(json, st, kind);
    } else {
      AnyText(json, st', kind);
    }
    NoneBefore(open, before, kind);
    ValueLinked(st, open, before, kind);
    MovedLinked(st.(vtype := kind), open, kind, st'.pos, st'.vstart, st'.vlen);
  }

  lemma AnyText(json: seq<byte>, st: State, kind: byte)
    requires kind in {34, 78}
    ensures TextFits(TokenOf(json, st, kind))
  {
  }

  lemma NoText(json: seq<byte>, st: State, kind: byte)
    requires kind in {123, 125, 91, 93, 44}
    ensures TextFits(TokenOf(json, st, kind))
  {
  }

  lemma NoneBefore(open: seq<byte>, before: byte, kind: byte)
    requires Permitted(open, before, kind)
    ensures open == [] ==> before == 0
  {
  }

  lemma NextLawful(json: seq<byte>, st0: State, open: seq<byte>, before: byte)
    requires Linked(st0, open, before)
    ensures var (st, t) := Next(json, st0);
            && (t != 0 && st.error == 0 ==>
                  Permitted(open, before, t) && TextFits(TokenOf(json, st, t)) && Linked(st, OpenAfter(open, t), t))
            && (t == 0 && st.error == 0 ==> open == [] && before != 0 && AtEnd(json, st0))
    decreases |json| - st0.pos
  {
    hide SkipSpace, Atomic, TextFits, TokenOf, OpenAfter, Pop, Push, Modify, Linked;
    var at := SkipSpace(json, st0.pos);
    var c, v := At(json, at), st0.vtype;
    var st := st0.(pos := at + 1);
    var s := Top(st0);
    MovedLinked(st0, open, before, at + 1, st0.vstart, st0.vlen);
    LastLinked(st0, open, before);
    if c == 123 || c == 91 {
      if (s == 0 && v == 0) || s == 91 || s == 58 {
        PushLinked(st, open, before, c);
        NoText(json, Push(st, c), c);
      }
    } else if c == 125 || c == 93 {
      if open != [] {
        PopLinked(st, open, before, c);
        NoText(json, Pop(st), c);
      }
    } else if c == 58 {
      if s == 123 && v == 78 {
        ColonLinked(st, open);
        ColonNext(json, Modify(st, 58).(vtype := 0), open);
      }
    } else if c == 44 {
      if (s == 58 && v != 0) || s == 91 {
        CommaLinked(st, open, before);
        NoText(json, Modify(st, 123).(vtype := 44), 44);
        NoText(json, st.(vtype := 44), 44);
      }
    } else if c == 34 {
      if (s == 0 && v == 0) || s == 123 || s == 91 || s == 58 {
        AtomLawful(json, st, open, before, if s == 123 then 78 else 34);
      }
    } else if c != 0 && AtomType(c) != 0 && (s == 0 || s == 58 || s == 91) && (v == 0 || v == 44) {
      AtomLawful(json, st, open, before, AtomType(c));
    }
  }

  /** The call behind a colon. */
  lemma ColonNext(json: seq<byte>, st: State, open: seq<byte>)
    requires Linked(st, open, 78) && open != [] && Top(st) == 58
    ensures var (st', t) := Next(json, st);
            if t != 0 && st'.error == 0 then
              Permitted(open, 78, t) && TextFits(TokenOf(json, st', t)) && Linked(st', OpenAfter(open, t), t)
            else st'.error != 0
  {
    hide SkipSpace, Atomic, TextFits, TokenOf, OpenAfter, Pop, Push, Modify, Linked;
    var at := SkipSpace(json, st.pos);
    var c, v := At(json, at), st.vtype;
    var st1 := st.(pos := at + 1);
    MovedLinked(st, open, 78, at + 1, st.vstart, st.vlen);
    LastLinked(st, open, 78);
    if c == 123 || c == 91 {
      PushLinked(st1, open, 78, c);
      NoText(json, Push(st1, c), c);
    } else if c == 34 {
      AtomLawful(json, st1, open, 78, 34);
    } else if c !in {125, 93, 58, 44, 0} && AtomType(c) != 0 {
      AtomLawful(json, st1, open, 78, AtomType(c));
    }
  }

  // ----- All tokens -----

  /** An error stays. */
  lemma ErrorStays(json: seq<byte>, st: State)
    ensures Next(json, st).0.error == 0 ==> st.error == 0
    decreases |json| - st.pos
  {
    hide SkipSpace, ScanNumber, ScanString, ScanLiteral, Extent;
    var at := SkipSpace(json, st.pos);
    if At(json, at) == COLON {
      ErrorStays(json, Modify(st.(pos := at + 1), COLON).(vtype := 0));
    }
  }

  lemma {:induction false} ErrorStaysLong(json: seq<byte>, st: State, n: nat)
    ensures Run(json, st, n).0.error == 0 ==> st.error == 0
    decreases n
  {
    hide Next, TokenOf;
    if n > 0 {
      ErrorStaysLong(json, Next(json, st).0, n - 1);
      ErrorStays(json, st);
    }
  }

  lemma {:induction false} RunLawful(json: seq<byte>, st: State, open: seq<byte>, before: byte, n: nat)
    requires Linked(st, open, before)
    requires var (st', ts, _) := Run(json, st, n); st'.error == 0 && Given(ts)
    ensures var (st', ts, _) := Run(json, st, n);
            && Lawful(open, before, ts)
            && Linked(st', OpenAtEnd(open, ts), if ts == [] then before else ts[|ts| - 1].t)
    decreases n
  {
    hide Run, Next, TokenOf, Linked, Permitted, TextFits;
    RunNone(json, st);
    if n > 0 {
      var (st1, t) := Next(json, st);
      var (_, rest, _) := Run(json, st1, n - 1);
      var ts := [TokenOf(json, st1, t)] + rest;
      RunFirst(json, st, n);
      TypeOf(json, st1, t);
      assert ts[0] == TokenOf(json, st1, t) && ts[1..] == rest;
      ErrorStaysLong(json, st1, n - 1);
      NextLawful(json, st, open, before);
      RunLawful(json, st1, OpenAfter(open, t), t, n - 1);
      assert rest != [] ==> rest[|rest| - 1] == ts[|ts| - 1];
    }
  }

  lemma RunNone(json: seq<byte>, st: State)
    ensures Run(json, st, 0) == (st, [], |st.stack|)
  {
  }

  lemma RunFirst(json: seq<byte>, st: State, n: nat)
    requires n > 0
    ensures var (st1, t) := Next(json, st);
            var (st2, rest, _) := Run(json, st1, n - 1);
            Run(json, st, n).0 == st2 && Run(json, st, n).1 == [TokenOf(json, st1, t)] + rest
  {
    hide Next, TokenOf;
  }

  lemma TypeOf(json: seq<byte>, st: State, t: byte)
    ensures TokenOf(json, st, t).t == t
  {
  }

  /** Whatever the text is: as long as the parser reports no error, the tokens it has given are lawful; and
      if it then comes to the end of the text without an error, there was one, and all brackets are closed. */
  lemma AcceptedIsLawful(json: seq<byte>, n: nat)
    requires var (st, ts, _) := Run(json, START, n); st.error == 0 && Given(ts)
    ensures var (st, ts, _) := Run(json, START, n);
            && Lawful([], 0, ts)
            && (Next(json, st).1 == 0 && Next(json, st).0.error == 0 ==>
                  ts != [] && OpenAtEnd([], ts) == [] && At(json, SkipSpace(json, st.pos)) == 0)
  {
    hide Next, TokenOf, Permitted, TextFits, SkipSpace;
    assert Linked(START, [], 0);
    RunLawful(json, START, [], 0, n);
    var (st, ts, _) := Run(json, START, n);
    NextLawful(json, st, OpenAtEnd([], ts), if ts == [] then 0 else ts[|ts| - 1].t);
  }

  // ----- Just which token is accepted -----

  /** The token that starts with a character, names apart. */
  function Starts(c: byte): byte {
    if c in {123, 125, 91, 93, 44, 34, 110, 116, 102} then c else if c == 45 || 48 <= c <= 57 then 48 else 0
  }

  function Literal(kind: byte): seq<byte> {
    if kind == 110 then [110, 117, 108, 108] else if kind == 116 then [116, 114, 117, 101] else [102, 97, 108, 115, 101]
  }

  /** A string has to end with a quote, and a literal has to be spelled right and be followed by a space,
      a comma, a closing bracket or the end of the text. */
  predicate WellSpelled(json: seq<byte>, at: nat, kind: byte) {
    if kind == 34 || kind == 78 then At(json, ScanString(json, at + 1) - 1) == 34
    else if kind in {110, 116, 102} then
      var text := Literal(kind);
      Extent(json, at, |text|) == text && At(json, at + |text|) in {0, 32, 44, 93, 125}
    else true
  }

  /** The token that is accepted at a position, or zero if there is none. Behind a name comes a colon with
      a value, or another name. */
  function Expected(json: seq<byte>, pos: nat, open: seq<byte>, before: byte): byte {
    var at := SkipSpace(json, pos);
    var c := At(json, at);
    if before == 78 && c == 58 then
      var then_ := SkipSpace(json, at + 1);
      var kind := Starts(At(json, then_));
      if kind in {123, 91, 34, 48, 110, 116, 102} && WellSpelled(json, then_, kind) then kind else 0
    else if before == 78 then if c == 34 && WellSpelled(json, at, 78) then 78 else 0
    else
      var kind := if c == 34 && open != [] && open[|open| - 1] == 123 && before in {123, 44} then 78 else Starts(c);
      if Permitted(open, before, kind) && WellSpelled(json, at, kind) then kind else 0
  }

  lemma {:induction false} LiteralScanned(json: seq<byte>, at: nat, end: nat)
    requires at <= end && forall i | at <= i < end :: !EndsLiteral(At(json, i))
    ensures ScanLiteral(json, at) == ScanLiteral(json, end)
    decreases end - at
  {
    if at < end {
      LiteralScanned(json, at + 1, end);
    }
  }

  lemma {:induction false} LiteralEnds(json: seq<byte>, at: nat)
    ensures EndsLiteral(At(json, ScanLiteral(json, at)))
    decreases |json| - at
  {
    if !EndsLiteral(At(json, at)) {
      LiteralEnds(json, at + 1);
    }
  }

  lemma AtomExactly(json: seq<byte>, st: State, kind: byte)
    requires st.pos > 0 && kind in {78, 34, 48, 110, 116, 102}
    requires kind in {110, 116, 102} ==> At(json, st.pos - 1) == kind
    ensures Atomic(json, st, kind).1 == if WellSpelled(json, st.pos - 1, kind) then kind else 0
  {
    hide ScanString, ScanNumber, ScanLiteral, Extent;
    if kind in {110, 116, 102} {
      LiteralExactly(json, st.pos - 1, kind);
    }
  }

  lemma LiteralExactly(json: seq<byte>, at: nat, kind: byte)
    requires kind in {110, 116, 102} && At(json, at) == kind
    ensures LiteralText(kind) == Literal(kind)
    ensures var end := ScanLiteral(json, at + 1);
            Extent(json, at, end - at) == Literal(kind) <==> WellSpelled(json, at, kind)
  {
    hide ScanString, ScanLiteral;
    var text, end := Literal(kind), ScanLiteral(json, at + 1);
    LiteralEnds(json, at + 1);
    if WellSpelled(json, at, kind) {
      forall i | at < i < at + |text|
        ensures !EndsLiteral(At(json, i))
      {
        assert Extent(json, at, |text|)[i - at] == text[i - at];
      }
      LiteralScanned(json, at + 1, at + |text|);
      EndsThere(json, at + |text|);
    }
  }

  lemma EndsThere(json: seq<byte>, at: nat)
    requires EndsLiteral(At(json, at))
    ensures ScanLiteral(json, at) == at
  {
  }

  /** The parser gives just the token that is expected; if there is none it reports an error, unless the
      text ends, all brackets are closed and there was a token before. */
  lemma NextExactly(json: seq<byte>, st0: State, open: seq<byte>, before: byte)
    requires Linked(st0, open, before) && (before == 78 ==> Top(st0) == 123)
    ensures var (st, t) := Next(json, st0);
            && t == Expected(json, st0.pos, open, before)
            && (t == 0 ==> (st.error == 0 <==> open == [] && before != 0 && At(json, SkipSpace(json, st0.pos)) == 0))
  {
    hide SkipSpace, Atomic, Pop, Push, Modify, Linked, WellSpelled;
    var at := SkipSpace(json, st0.pos);
    var c, v := At(json, at), st0.vtype;
    var st := st0.(pos := at + 1);
    var s := Top(st0);
    MovedLinked(st0, open, before, at + 1, st0.vstart, st0.vlen);
    LastLinked(st0, open, before);
    if c == 58 {
      if before == 78 {
        ColonLinked(st, open);
        ColonExactly(json, Modify(st, 58).(vtype := 0), open);
        PosKept(st);
      }
    } else if c == 34 {
      AtomExactly(json, st, if s == 123 then 78 else 34);
      AtomicKeeps(json, st, if s == 123 then 78 else 34);
    } else if c != 0 && AtomType(c) != 0 {
      AtomExactly(json, st, AtomType(c));
      AtomicKeeps(json, st, AtomType(c));
    }
    NothingToSpell(json, at);
  }

  lemma PosKept(st: State)
    ensures Modify(st, 58).pos == st.pos
  {
  }

  lemma NothingToSpell(json: seq<byte>, at: nat)
    ensures forall kind: byte | kind in {123, 125, 91, 93, 44, 48} :: WellSpelled(json, at, kind)
  {
  }

  lemma ColonExactly(json: seq<byte>, st0: State, open: seq<byte>)
    requires Linked(st0, open, 78) && open != [] && Top(st0) == 58
    ensures var (st, t) := Next(json, st0);
            var at := SkipSpace(json, st0.pos);
            var kind := Starts(At(json, at));
            && t == (if kind in {123, 91, 34, 48, 110, 116, 102} && WellSpelled(json, at, kind) then kind else 0)
            && (t == 0 ==> st.error != 0)
  {
    hide SkipSpace, Atomic, Pop, Push, Modify, Linked, WellSpelled;
    var at := SkipSpace(json, st0.pos);
    var c := At(json, at);
    var st := st0.(pos := at + 1);
    LastLinked(st0, open, 78);
    if c == 34 {
      AtomExactly(json, st, 34);
      AtomicKeeps(json, st, 34);
    } else if c !in {123, 91, 125, 93, 58, 44, 0} && AtomType(c) != 0 {
      AtomExactly(json, st, AtomType(c));
      AtomicKeeps(json, st, AtomType(c));
    }
    NothingToSpell(json, at);
  }

  /** The code of the error at a character: 1 for a syntax error, and others for brackets and strings. */
  function ErrorAt(c: byte): byte {
    if c == 91 then 2 else if c == 93 then 3 else if c == 123 then 4 else if c == 125 then 5 else 1
  }

  /** Which error is reported. A string where none may be has the code 6, one that does not end has 1. */
  lemma ErrorNamed(json: seq<byte>, st0: State, open: seq<byte>, before: byte)
    requires Linked(st0, open, before) && Next(json, st0).0.error != 0
    ensures var at := SkipSpace(json, st0.pos);
            Next(json, st0).0.error ==
              if At(json, at) == 58 && before == 78 && Top(st0) == 123 then ErrorAt(At(json, SkipSpace(json, at + 1)))
              else if At(json, at) == 34 && open == [] && before != 0 then 6
              else ErrorAt(At(json, at))
    decreases |json| - st0.pos
  {
    hide SkipSpace, Atomic, Pop, Push, Modify, Linked, Permitted;
    var at := SkipSpace(json, st0.pos);
    var c := At(json, at);
    var st := st0.(pos := at + 1);
    MovedLinked(st0, open, before, at + 1, st0.vstart, st0.vlen);
    LastLinked(st0, open, before);
    KeptByStack(st);
    if c == 58 && before == 78 && Top(st0) == 123 {
      ColonLinked(st, open);
      ErrorNamed(json, Modify(st, 58).(vtype := 0), open, 78);
    } else if c == 34 {
      AtomicKeeps(json, st, if Top(st0) == 123 then 78 else 34);
    } else if c != 0 && AtomType(c) != 0 {
      AtomicKeeps(json, st, AtomType(c));
    }
  }

  lemma KeptByStack(st: State)
    ensures Modify(st, 58).pos == st.pos && Modify(st, 58).error == Modify(st, 123).error == Pop(st).error == st.error
    ensures Push(st, 123).error == Push(st, 91).error == st.error
  {
  }

  /** Spaces and newlines in front of a token do not matter; tabs and carriage returns are errors. */
  lemma {:induction false} SpacesDoNotMatter(json: seq<byte>, st: State, n: nat)
    requires st.pos + n <= |json| && forall i | st.pos <= i < st.pos + n :: json[i] == 32 || json[i] == 10
    ensures Next(json, st) == Next(json, st.(pos := st.pos + n))
    decreases n
  {
    SpacesSkipped(json, st.pos, n);
    assert st.(pos := st.pos + n).(pos := SkipSpace(json, st.pos) + 1) == st.(pos := SkipSpace(json, st.pos) + 1);
  }

  lemma {:induction false} SpacesSkipped(json: seq<byte>, pos: nat, n: nat)
    requires pos + n <= |json| && forall i | pos <= i < pos + n :: json[i] == 32 || json[i] == 10
    ensures SkipSpace(json, pos) == SkipSpace(json, pos + n)
    decreases n
  {
    if n > 0 {
      SpacesSkipped(json, pos + 1, n - 1);
    }
  }

  lemma OtherSpaceIsError(json: seq<byte>, st: State, open: seq<byte>, before: byte)
    requires Linked(st, open, before) && At(json, st.pos) in {9, 13}
    ensures Next(json, st).1 == 0 && Next(json, st).0.error == 1
  {
  }
}
