/** The retransmission of confirmable messages (RFC 7252, section 4.2) by
    apps/er-coap/er-coap-transactions.c: a pool of transactions, and the list of those in use. */
module Transactions {
  import opened Basics

  const COAP_MAX_OPEN_TRANSACTIONS := 4
  const COAP_MAX_RETRANSMIT := 4

  /** What happens to one transaction: its packet is sent, the timer is started, its memory is
      freed, or a callback is called; that was registered for the transaction with this number. */
  datatype Event = Sent | Wait(ticks: nat) | Freed | Called(registeredFor: nat)

  /** A transaction in use. `serial` numbers all transactions ever created, and `base` is the random
      first interval. */
  datatype Trans = Trans(slot: nat, serial: nat, mid: uint16, confirmable: bool, started: bool,
                         counter: nat, interval: nat, base: nat)

  /** The list of transactions, the allocated slots, and the callback that each slot holds in its
      memory. `next` and `lives` are history. */
  datatype Layer = Layer(list: seq<Trans>, used: set<nat>, callbacks: seq<Option<nat>>, next: nat, lives: map<nat, seq<Event>>)

  function Initial(): Layer {
    Layer([], {}, [None, None, None, None], 0, map[])
  }

  predicate Sane(s: Layer) {
    |s.callbacks| == COAP_MAX_OPEN_TRANSACTIONS && forall t <- s.list :: t.slot < COAP_MAX_OPEN_TRANSACTIONS && t.serial in s.lives
  }

  /** memb_alloc takes the first free slot. */
  function FirstFree(used: set<nat>, from: nat): (slot: Option<nat>)
    ensures slot.Some? ==> slot.value !in used && from <= slot.value < COAP_MAX_OPEN_TRANSACTIONS
    ensures slot.None? ==> forall k | from <= k < COAP_MAX_OPEN_TRANSACTIONS :: k in used
    decreases COAP_MAX_OPEN_TRANSACTIONS - from
  {
    if from >= COAP_MAX_OPEN_TRANSACTIONS then None
    else if from !in used then Some(from)
    else FirstFree(used, from + 1)
  }

  function Log(s: Layer, serial: nat, events: seq<Event>): map<nat, seq<Event>>
    requires serial in s.lives
  {
    s.lives[serial := s.lives[serial] + events]
  }

  /** coap_new_transaction. The callback is not cleared, so the one of the last user of the slot
      stays in it. */
  function New(s: Layer, mid: uint16, confirmable: bool): Layer {
    var slot := FirstFree(s.used, 0);
    if slot.None? then s
    else s.(list := s.list + [Trans(slot.value, s.next, mid, confirmable, false, 0, 0, 0)],
            used := s.used + {slot.value}, next := s.next + 1, lives := s.lives[s.next := []])
  }

  /** coap_clear_transaction */
  function Clear(s: Layer, i: nat, then_: seq<Event>): Layer
    requires i < |s.list| && s.list[i].serial in s.lives
  {
    s.(list := s.list[..i] + s.list[i + 1..], used := s.used - {s.list[i].slot},
       lives := Log(s, s.list[i].serial, [Freed] + then_))
  }

  function Callback(s: Layer, slot: nat): seq<Event>
    requires slot < |s.callbacks|
  {
    match s.callbacks[slot]
    case Some(serial) => [Called(serial)]
    case None => []
  }

  /** coap_send_transaction; `base` is the first interval if it is the first time. */
  function Send(s: Layer, i: nat, base: nat): Layer
    requires i < |s.list| && s.list[i].serial in s.lives && s.list[i].slot < |s.callbacks|
  {
    var t := s.list[i];
    var s1 := s.(lives := Log(s, t.serial, [Sent]));
    if !t.confirmable then Clear(s1, i, [])
    else if t.counter < COAP_MAX_RETRANSMIT then
      var interval := if t.counter == 0 then base else 2 * t.interval;
      var t' := t.(started := true, interval := interval, base := if t.counter == 0 then base else t.base);
      s1.(list := s.list[i := t'], lives := Log(s1, t.serial, [Wait(interval)]))
    else Clear(s1, i, Callback(s, t.slot))
  }

  function Find(list: seq<Trans>, mid: uint16, from: nat): (i: Option<nat>)
    requires from <= |list|
    ensures i.Some? ==> from <= i.value < |list| && list[i.value].mid == mid && forall k | from <= k < i.value :: list[k].mid != mid
    ensures i.None? ==> forall k | from <= k < |list| :: list[k].mid != mid
    decreases |list| - from
  {
    if from == |list| then None else if list[from].mid == mid then Some(from) else Find(list, mid, from + 1)
  }

  /** What coap_receive does with a response: the transaction is freed before its callback is
      called. */
  function Answer(s: Layer, mid: uint16): Layer
    requires Sane(s)
  {
    var i := Find(s.list, mid, 0);
    if i.None? then s else Clear(s, i.value, Callback(s, s.list[i.value].slot))
  }

  /** The transaction at i sends again after its timer has expired. */
  function Expire(s: Layer, i: nat): (s': Layer)
    requires Sane(s) && i < |s.list|
    ensures Sane(s')
  {
    assert s.list[i] in s.list;
    Send(s.(list := s.list[i := s.list[i].(counter := s.list[i].counter + 1)]), i, 0)
  }

  /** coap_check_transactions from a list position on. Removing a transaction from the list clears
      its link, so the walk ends there. */
  function Check(s: Layer, expired: set<nat>, i: nat): Layer
    requires Sane(s)
    decreases |s.list| - i
  {
    if i >= |s.list| then s
    else if s.list[i].slot in expired then
      var s' := Expire(s, i);
      if |s'.list| < |s.list| then s' else Check(s', expired, i + 1)
    else Check(s, expired, i + 1)
  }

  // ----- What every operation keeps -----

  /** n times: the packet is sent, and twice as long is waited for as the time before. */
  function Rounds(base: nat, n: nat): seq<Event> {
    if n == 0 then [] else Rounds(base, n - 1) + [Sent, Wait(base * Pow2(n - 1))]
  }

  /** The callback that is left to be called when the memory is free. */
  predicate AtMostCall(events: seq<Event>) {
    events == [] || (|events| == 1 && events[0].Called?)
  }

  ghost predicate Answered(life: seq<Event>, base: nat, n: nat, rest: seq<Event>) {
    n <= COAP_MAX_RETRANSMIT && AtMostCall(rest) && life == Rounds(base, n) + ([Freed] + rest)
  }

  ghost predicate TimedOut(life: seq<Event>, base: nat, rest: seq<Event>) {
    AtMostCall(rest) && life == Rounds(base, COAP_MAX_RETRANSMIT) + [Sent] + ([Freed] + rest)
  }

  /** The life of a transaction that is over. */
  ghost predicate Over(life: seq<Event>) {
    || (exists base, n, rest :: Answered(life, base, n, rest))
    || (exists base, rest :: TimedOut(life, base, rest))
    || life == [Sent] + ([Freed] + [])
  }

  predicate Running(t: Trans, life: seq<Event>) {
    if t.started then
      t.confirmable && t.counter < COAP_MAX_RETRANSMIT && t.interval == t.base * Pow2(t.counter) && life == Rounds(t.base, t.counter + 1)
    else t.counter == 0 && life == []
  }

  predicate Separate(list: seq<Trans>) {
    forall i, j | 0 <= i < j < |list| :: list[i].slot != list[j].slot && list[i].serial != list[j].serial
  }

  function Slots(list: seq<Trans>): set<nat> {
    set t <- list :: t.slot
  }

  function Serials(list: seq<Trans>): set<nat> {
    set t <- list :: t.serial
  }

  /** The listed transactions are just the allocated slots, and each has had a proper life so far. */
  ghost predicate Ok(s: Layer) {
    && Sane(s) && Separate(s.list) && s.used == Slots(s.list)
    && (forall t <- s.list :: Running(t, s.lives[t.serial]))
    && (forall n <- s.lives :: n < s.next)
    && forall n <- s.lives :: n in Serials(s.list) || Over(s.lives[n])
  }

  lemma Appended(list: seq<Trans>, t: Trans)
    requires Separate(list) && t.slot !in Slots(list) && t.serial !in Serials(list)
    ensures Separate(list + [t])
    ensures Slots(list + [t]) == Slots(list) + {t.slot} && Serials(list + [t]) == Serials(list) + {t.serial}
  {
  }

  lemma Removed(list: seq<Trans>, i: nat)
    requires Separate(list) && i < |list|
    ensures var rest := list[..i] + list[i + 1..];
            && Separate(rest)
            && (forall t :: t in rest <==> t in list && t != list[i])
            && Slots(rest) == Slots(list) - {list[i].slot} && Serials(rest) == Serials(list) - {list[i].serial}
  {
    var rest := list[..i] + list[i + 1..];
    forall t | t in list && t != list[i]
      ensures t in rest && t.slot != list[i].slot && t.serial != list[i].serial
    {
      var j :| 0 <= j < |list| && list[j] == t;
      assert rest[if j < i then j else j - 1] == t;
    }
    assert list[i] !in rest;
  }

  /** Replacing a transaction by one with the same slot and number. */
  lemma Replaced(list: seq<Trans>, i: nat, t: Trans)
    requires Separate(list) && i < |list| && t.slot == list[i].slot && t.serial == list[i].serial
    ensures Separate(list[i := t]) && Slots(list[i := t]) == Slots(list) && Serials(list[i := t]) == Serials(list)
    ensures forall u :: u in list[i := t] <==> u == t || (u in list && u != list[i])
  {
    var list' := list[i := t];
    forall j | 0 <= j < |list|
      ensures list'[j].slot == list[j].slot && list'[j].serial == list[j].serial && list'[j] in list'
    {
    }
    forall u | u in list && u != list[i]
      ensures u in list'
    {
      var j :| 0 <= j < |list| && list[j] == u;
      assert list'[j] == u;
    }
    assert forall n <- Slots(list) :: n in Slots(list');
    assert forall n <- Serials(list) :: n in Serials(list');
  }

  lemma NewKeeps(s: Layer, mid: uint16, confirmable: bool)
    requires Ok(s)
    ensures Ok(New(s, mid, confirmable))
  {
    hide Over, Separate, Slots;
    var slot := FirstFree(s.used, 0);
    if slot.Some? {
      var t := Trans(slot.value, s.next, mid, confirmable, false, 0, 0, 0);
      Appended(s.list, t);
      assert forall u :: u in s.list + [t] <==> u in s.list || u == t;
    }
  }

  /** Freeing a transaction whose life is over with that. */
  lemma ClearKeeps(s: Layer, i: nat, rest: seq<Event>)
    requires Sane(s) && Separate(s.list) && s.used == Slots(s.list) && i < |s.list|
    requires forall t <- s.list :: t != s.list[i] ==> Running(t, s.lives[t.serial])
    requires forall n <- s.lives :: n < s.next && (n in Serials(s.list) || Over(s.lives[n]))
    requires s.list[i] in s.list && Over(s.lives[s.list[i].serial] + ([Freed] + rest))
    ensures Ok(Clear(s, i, rest)) && s.list[i].slot !in Clear(s, i, rest).used
  {
    hide Running, Over, Separate, Slots, Serials;
    Removed(s.list, i);
    SerialOf(s.list, i);
  }

  /** No other transaction has the number of the one at i. */
  lemma SerialOf(list: seq<Trans>, i: nat)
    requires Separate(list) && i < |list|
    ensures forall t <- list :: t != list[i] ==> t.serial != list[i].serial && t.slot != list[i].slot
    ensures list[i].serial in Serials(list)
  {
  }

  /** Sending: the packet goes out, and the transaction waits or is over. */
  lemma SendKeeps(s: Layer, i: nat, base: nat)
    requires Ok(s) && i < |s.list| && !s.list[i].started
    ensures Ok(Send(s, i, base))
  {
    hide Separate, Slots, Serials, Over;
    var t := s.list[i];
    assert t in s.list;
    var s1 := s.(lives := Log(s, t.serial, [Sent]));
    SerialOf(s.list, i);
    if !t.confirmable {
      OneShot();
      assert [] + [Sent] == [Sent];
      ClearKeeps(s1, i, []);
    } else {
      var t' := t.(started := true, interval := base, base := base);
      FirstRound(base);
      Replaced(s.list, i, t');
    }
  }

  lemma OneShot()
    ensures Over([Sent] + ([Freed] + []))
  {
  }

  lemma FirstRound(base: nat)
    ensures [] + [Sent] + [Wait(base)] == Rounds(base, 1) && base * Pow2(0) == base
  {
    assert Rounds(base, 1) == Rounds(base, 0) + [Sent, Wait(base * Pow2(0))];
  }

  /** Expiry of the timer of a transaction that is waiting. */
  lemma ExpireKeeps(s: Layer, i: nat)
    requires Ok(s) && i < |s.list| && s.list[i].started
    ensures Ok(Expire(s, i))
    ensures if s.list[i].counter == COAP_MAX_RETRANSMIT - 1
            then Expire(s, i).list == s.list[..i] + s.list[i + 1..] && s.list[i].slot !in Expire(s, i).used
            else |Expire(s, i).list| == |s.list| && (forall j | 0 <= j < |s.list| && j != i :: Expire(s, i).list[j] == s.list[j])
                 && Expire(s, i).list[i].started && Expire(s, i).list[i].slot == s.list[i].slot
                 && Expire(s, i).list[i].serial == s.list[i].serial
  {
    hide Separate, Slots, Serials, Over, Rounds;
    var t := s.list[i];
    assert t in s.list;
    var t1 := t.(counter := t.counter + 1);
    var s1 := s.(list := s.list[i := t1]);
    var s2 := s1.(lives := Log(s1, t.serial, [Sent]));
    SerialOf(s.list, i);
    Replaced(s.list, i, t1);
    SerialOf(s1.list, i);
    if t1.counter < COAP_MAX_RETRANSMIT {
      var t2 := t1.(interval := 2 * t.interval);
      NextRound(t.base, t1.counter, t.interval);
      Replaced(s1.list, i, t2);
      assert s1.list[i := t2] == s.list[i := t2];
    } else {
      LastRound(t.base, Callback(s1, t.slot));
      ClearKeeps(s2, i, Callback(s1, t.slot));
      assert s1.list[..i] + s1.list[i + 1..] == s.list[..i] + s.list[i + 1..];
    }
  }

  lemma NextRound(base: nat, counter: nat, interval: nat)
    requires counter > 0 && interval == base * Pow2(counter - 1)
    ensures 2 * interval == base * Pow2(counter)
    ensures Rounds(base, counter) + [Sent] + [Wait(2 * interval)] == Rounds(base, counter + 1)
  {
    var p := Pow2(counter - 1);
    assert Pow2(counter) == 2 * p;
    assert base * (2 * p) == 2 * (base * p);
  }

  lemma LastRound(base: nat, rest: seq<Event>)
    requires AtMostCall(rest)
    ensures Over(Rounds(base, COAP_MAX_RETRANSMIT) + [Sent] + ([Freed] + rest))
  {
    assert TimedOut(Rounds(base, COAP_MAX_RETRANSMIT) + [Sent] + ([Freed] + rest), base, rest);
  }

  lemma AnswerKeeps(s: Layer, mid: uint16)
    requires Ok(s)
    ensures Ok(Answer(s, mid))
  {
    hide Separate, Slots, Serials, Over, Rounds;
    var i := Find(s.list, mid, 0);
    if i.Some? {
      var t := s.list[i.value];
      assert t in s.list;
      AnsweredNow(s.lives[t.serial], t, Callback(s, t.slot));
      ClearKeeps(s, i.value, Callback(s, t.slot));
    }
  }

  lemma AnsweredNow(life: seq<Event>, t: Trans, rest: seq<Event>)
    requires Running(t, life) && AtMostCall(rest)
    ensures Over(life + ([Freed] + rest))
  {
    var n := if t.started then t.counter + 1 else 0;
    assert Answered(life + ([Freed] + rest), t.base, n, rest);
  }

  lemma {:induction false} CheckKeeps(s: Layer, expired: set<nat>, i: nat)
    requires Ok(s) && forall t <- s.list :: t.slot in expired ==> t.started
    ensures Ok(Check(s, expired, i))
    decreases |s.list| - i
  {
    hide Ok, Expire;
    OkIsSane(s);
    if i < |s.list| {
      assert s.list[i] in s.list;
      if s.list[i].slot in expired {
        ExpireKeeps(s, i);
        var s' := Expire(s, i);
        if |s'.list| == |s.list| {
          StillStarted(s, s', expired, i);
          CheckKeeps(s', expired, i + 1);
        }
      } else {
        CheckKeeps(s, expired, i + 1);
      }
    }
  }

  lemma OkIsSane(s: Layer)
    requires Ok(s)
    ensures Sane(s)
  {
  }

  // ----- Runs -----

  datatype Op =
    | DoNew(mid: uint16, confirmable: bool)
    | DoRegister(i: nat)
    | DoSend(i: nat, base: nat)
    | DoAnswer(mid: uint16)
    | DoClear(i: nat)
    | DoCheck(expired: set<nat>)

  /** What the callers keep to: a transaction is sent once, and only a timer that was started can
      expire. */
  predicate Enabled(s: Layer, op: Op) {
    match op
    case DoRegister(i) => i < |s.list|
    case DoSend(i, _) => i < |s.list| && !s.list[i].started
    case DoClear(i) => i < |s.list|
    case DoCheck(expired) => forall t <- s.list :: t.slot in expired ==> t.started
    case _ => true
  }

  function Register(s: Layer, i: nat): Layer
    requires i < |s.list| && s.list[i].slot < |s.callbacks|
  {
    s.(callbacks := s.callbacks[s.list[i].slot := Some(s.list[i].serial)])
  }

  function Next(s: Layer, op: Op): Layer
    requires Sane(s) && Enabled(s, op)
  {
    match op
    case DoNew(mid, confirmable) => New(s, mid, confirmable)
    case DoRegister(i) => assert s.list[i] in s.list; Register(s, i)
    case DoSend(i, base) => assert s.list[i] in s.list; Send(s, i, base)
    case DoAnswer(mid) => Answer(s, mid)
    case DoClear(i) => assert s.list[i] in s.list; Clear(s, i, [])
    case DoCheck(expired) => Check(s, expired, 0)
  }

  predicate AllEnabled(s: Layer, ops: seq<Op>)
    decreases |ops|
  {
    ops == [] || (Sane(s) && Enabled(s, ops[0]) && AllEnabled(Next(s, ops[0]), ops[1..]))
  }

  function Run(s: Layer, ops: seq<Op>): Layer
    requires AllEnabled(s, ops)
    decreases |ops|
  {
    if ops == [] then s else Run(Next(s, ops[0]), ops[1..])
  }

  lemma NextKeeps(s: Layer, op: Op)
    requires Ok(s) && Enabled(s, op)
    ensures Sane(s) && Ok(Next(s, op))
  {
    hide Ok, Separate, Slots, Serials, Over, Check;
    OkIsSane(s);
    match op
    case DoNew(mid, confirmable) => NewKeeps(s, mid, confirmable);
    case DoRegister(i) => RegisterKeeps(s, i);
    case DoSend(i, base) => SendKeeps(s, i, base);
    case DoAnswer(mid) => AnswerKeeps(s, mid);
    case DoClear(i) => DropKeeps(s, i);
    case DoCheck(expired) => CheckKeeps(s, expired, 0);
  }

  lemma RegisterKeeps(s: Layer, i: nat)
    requires Ok(s) && i < |s.list|
    ensures s.list[i] in s.list && Ok(Register(s, i))
  {
    hide Over;
  }

  lemma DropKeeps(s: Layer, i: nat)
    requires Ok(s) && i < |s.list|
    ensures s.list[i] in s.list && Ok(Clear(s, i, []))
  {
    hide Over, Separate, Slots, Serials;
    var t := s.list[i];
    assert t in s.list;
    AnsweredNow(s.lives[t.serial], t, []);
    ClearKeeps(s, i, []);
  }

  /** In every run the listed transactions are just the allocated slots. */
  lemma {:induction false} RunKeeps(s: Layer, ops: seq<Op>)
    requires Ok(s) && AllEnabled(s, ops)
    ensures Ok(Run(s, ops))
    decreases |ops|
  {
    hide Ok, Next, Enabled;
    if ops != [] {
      NextKeeps(s, ops[0]);
      RunKeeps(Next(s, ops[0]), ops[1..]);
    }
  }

  function Sends(life: seq<Event>): nat {
    if life == [] then 0 else Sends(life[..|life| - 1]) + if life[|life| - 1].Sent? then 1 else 0
  }

  function Waits(life: seq<Event>): seq<nat> {
    if life == [] then []
    else Waits(life[..|life| - 1]) + match life[|life| - 1] case Wait(n) => [n] case _ => []
  }

  function Frees(life: seq<Event>): nat {
    if life == [] then 0 else Frees(life[..|life| - 1]) + if life[|life| - 1].Freed? then 1 else 0
  }

  lemma OneMore(life: seq<Event>, e: Event)
    ensures Sends(life + [e]) == Sends(life) + (if e.Sent? then 1 else 0)
    ensures Frees(life + [e]) == Frees(life) + (if e.Freed? then 1 else 0)
    ensures Waits(life + [e]) == Waits(life) + (if e.Wait? then [e.ticks] else [])
  {
    assert (life + [e])[..|life|] == life;
  }

  lemma {:induction false} RoundsFacts(base: nat, n: nat)
    ensures var life := Rounds(base, n);
            && Sends(life) == n && Frees(life) == 0 && |Waits(life)| == n
            && forall k | 0 <= k < n :: Waits(life)[k] == base * Pow2(k)
  {
    if n > 0 {
      RoundsFacts(base, n - 1);
      var before, wait := Rounds(base, n - 1), Wait(base * Pow2(n - 1));
      OneMore(before, Sent);
      OneMore(before + [Sent], wait);
      assert Rounds(base, n) == before + [Sent] + [wait];
    }
  }

  /** A packet is sent at most once and again COAP_MAX_RETRANSMIT times. Each sending is followed by a
      wait but the last one of these, and that of a packet that is not confirmable; and each wait is
      twice the one before. */
  predicate Backoff(life: seq<Event>, base: nat) {
    && Sends(life) <= 1 + COAP_MAX_RETRANSMIT
    && (|Waits(life)| == Min(Sends(life), COAP_MAX_RETRANSMIT) || (Waits(life) == [] && Sends(life) == 1))
    && forall k | 0 <= k < |Waits(life)| :: Waits(life)[k] == base * Pow2(k)
  }

  /** The memory is freed once, and after that there is at most the callback. */
  ghost predicate EndsOnce(life: seq<Event>) {
    exists before, rest :: life == before + ([Freed] + rest) && Frees(before) == 0 && AtMostCall(rest)
  }

  lemma FreedLast(before: seq<Event>, rest: seq<Event>, base: nat)
    requires Frees(before) == 0 && AtMostCall(rest) && Backoff(before, base)
    ensures EndsOnce(before + ([Freed] + rest)) && Frees(before + ([Freed] + rest)) == 1 && Backoff(before + ([Freed] + rest), base)
  {
    OneMore(before, Freed);
    if rest == [] {
      assert before + ([Freed] + rest) == before + [Freed];
    } else {
      OneMore(before + [Freed], rest[0]);
      assert before + ([Freed] + rest) == before + [Freed] + [rest[0]];
    }
  }

  lemma OverFacts(life: seq<Event>) returns (base: nat)
    requires Over(life)
    ensures EndsOnce(life) && Frees(life) == 1 && Backoff(life, base)
  {
    hide Rounds, EndsOnce, Sends, Waits, Frees;
    if b: nat, n: nat, rest: seq<Event> :| Answered(life, b, n, rest) {
      base := b;
      RoundsFacts(b, n);
      FreedLast(Rounds(b, n), rest, b);
    } else if b: nat, rest: seq<Event> :| TimedOut(life, b, rest) {
      base := b;
      RoundsFacts(b, COAP_MAX_RETRANSMIT);
      OneMore(Rounds(b, COAP_MAX_RETRANSMIT), Sent);
      FreedLast(Rounds(b, COAP_MAX_RETRANSMIT) + [Sent], rest, b);
    } else {
      base := 0;
      NoEvents();
      OneMore([], Sent);
      assert [] + [Sent] == [Sent];
      FreedLast([Sent], [], 0);
    }
  }

  lemma NoEvents()
    ensures Sends([]) == 0 && Frees([]) == 0 && Waits([]) == []
  {
  }

  /** Every transaction of every run backs off, and has been freed, once, exactly if it is not listed
      any more. */
  lemma LivesAreProper(ops: seq<Op>, serial: nat) returns (base: nat)
    requires AllEnabled(Initial(), ops) && serial in Run(Initial(), ops).lives
    ensures var s := Run(Initial(), ops);
            var life := s.lives[serial];
            && Backoff(life, base)
            && s.used == Slots(s.list) && |s.used| <= COAP_MAX_OPEN_TRANSACTIONS
            && if serial in Serials(s.list) then Frees(life) == 0 else Frees(life) == 1 && EndsOnce(life)
  {
    hide Run, AllEnabled, Over, Sends, Waits, Frees, EndsOnce, Rounds, Separate;
    StartsOk();
    RunKeeps(Initial(), ops);
    var s := Run(Initial(), ops);
    FewSlots(s);
    if serial in Serials(s.list) {
      var t :| t in s.list && t.serial == serial;
      base := t.base;
      RoundsFacts(t.base, t.counter + 1);
      NoEvents();
    } else {
      base := OverFacts(s.lives[serial]);
    }
  }

  lemma StartsOk()
    ensures Ok(Initial())
  {
  }

  lemma FewSlots(s: Layer)
    requires Ok(s)
    ensures |s.used| <= COAP_MAX_OPEN_TRANSACTIONS
  {
    hide Over;
    assert s.used <= {0, 1, 2, 3};
    Subset(s.used, {0, 1, 2, 3});
  }

  lemma {:induction false} Subset(a: set<nat>, b: set<nat>)
    requires a <= b
    ensures |a| <= |b|
  {
    if a != {} {
      var x :| x in a;
      Subset(a - {x}, b - {x});
    }
  }

  // ----- Which timers the walk serves -----

  /** The timer at k has expired for the last time. */
  predicate LastTimeout(s: Layer, expired: set<nat>, k: nat)
    requires k < |s.list|
  {
    s.list[k].slot in expired && s.list[k].counter == COAP_MAX_RETRANSMIT - 1
  }

  /** A walk from i on gets to j. */
  predicate Reaches(s: Layer, expired: set<nat>, i: nat, j: nat)
    requires j < |s.list|
  {
    i <= j && forall k | i <= k < j :: !LastTimeout(s, expired, k)
  }

  /** The packet of a transaction has been sent between two states. */
  predicate SentBetween(s: Layer, s': Layer, serial: nat) {
    serial in s.lives && serial in s'.lives && s.lives[serial] + [Sent] <= s'.lives[serial]
  }

  predicate AsBefore(s: Layer, s': Layer, serial: nat) {
    serial in s.lives && serial in s'.lives && s'.lives[serial] == s.lives[serial]
  }

  lemma ExpireSends(s: Layer, i: nat, j: nat)
    requires Ok(s) && i < |s.list| && j < |s.list| && s.list[i].started
    ensures if j == i then SentBetween(s, Expire(s, i), s.list[j].serial) else AsBefore(s, Expire(s, i), s.list[j].serial)
  {
    hide Slots, Serials, Over, Rounds;
    var t := s.list[i];
    assert t in s.list && s.list[j] in s.list;
    assert Running(t, s.lives[t.serial]);
  }

  /** The walk sends the packets of the transactions with expired timers that it reaches, and nothing
      happens to the others. */
  lemma {:induction false} WalkSends(s: Layer, expired: set<nat>, i: nat, j: nat)
    requires Ok(s) && (forall t <- s.list :: t.slot in expired ==> t.started) && j < |s.list|
    ensures Sane(s)
    ensures var n, s' := s.list[j].serial, Check(s, expired, i);
            if s.list[j].slot in expired && Reaches(s, expired, i, j) then SentBetween(s, s', n) else AsBefore(s, s', n)
    decreases |s.list| - i
  {
    hide Ok, Expire;
    OkIsSane(s);
    assert s.list[j] in s.list;
    if i < |s.list| {
      assert s.list[i] in s.list;
      if s.list[i].slot !in expired {
        WalkSends(s, expired, i + 1, j);
      } else {
        ExpireKeeps(s, i);
        ExpireSends(s, i, j);
        assert LastTimeout(s, expired, i) <==> s.list[i].counter == COAP_MAX_RETRANSMIT - 1;
        if s.list[i].counter != COAP_MAX_RETRANSMIT - 1 {
          var s1 := Expire(s, i);
          StillStarted(s, s1, expired, i);
          WalkSends(s1, expired, i + 1, j);
          assert forall k | i < k < |s.list| :: LastTimeout(s1, expired, k) == LastTimeout(s, expired, k);
        }
      }
    }
  }

  lemma StillStarted(s: Layer, s1: Layer, expired: set<nat>, i: nat)
    requires i < |s.list| == |s1.list| && s1.list[i].started
    requires forall j | 0 <= j < |s.list| && j != i :: s1.list[j] == s.list[j]
    requires forall t <- s.list :: t.slot in expired ==> t.started
    ensures forall t <- s1.list :: t.slot in expired ==> t.started
  {
    forall t | t in s1.list && t.slot in expired
      ensures t.started
    {
      var j :| 0 <= j < |s1.list| && s1.list[j] == t;
      assert j != i ==> s.list[j] in s.list;
    }
  }

  /** All packets whose timers have expired are sent again exactly if no timer has expired for the
      last time in front of another expired one: the entry that is then removed loses its link, and
      the walk ends. */
  lemma CheckServesAll(s: Layer, expired: set<nat>)
    requires Ok(s) && forall t <- s.list :: t.slot in expired ==> t.started
    ensures Sane(s)
    ensures var s' := Check(s, expired, 0);
            (forall j | 0 <= j < |s.list| && s.list[j].slot in expired :: SentBetween(s, s', s.list[j].serial)) <==>
              forall i, j | 0 <= i < j < |s.list| && s.list[j].slot in expired :: !LastTimeout(s, expired, i)
  {
    hide Ok, Check;
    OkIsSane(s);
    var s' := Check(s, expired, 0);
    forall j: nat | j < |s.list| && s.list[j].slot in expired
      ensures SentBetween(s, s', s.list[j].serial) <==> Reaches(s, expired, 0, j)
    {
      WalkSends(s, expired, 0, j);
    }
  }

  // ----- Whose callback is called -----

  /** The transaction for which a callback is registered by an operation. */
  function Hit(s: Layer, op: Op): set<nat>
    requires Enabled(s, op)
  {
    if op.DoRegister? then {s.list[op.i].serial} else {}
  }

  /** The transactions for which a callback is registered in a run, while they are listed. */
  function Registrations(s: Layer, ops: seq<Op>): set<nat>
    requires AllEnabled(s, ops)
    decreases |ops|
  {
    if ops == [] then {} else Hit(s, ops[0]) + Registrations(Next(s, ops[0]), ops[1..])
  }

  predicate NoCall(life: seq<Event>) {
    forall e <- life :: !e.Called?
  }

  /** A callback that was called is the one registered for the transaction itself exactly if there
      is one, and otherwise that of an earlier one. */
  predicate OwnCalls(life: seq<Event>, serial: nat, own: bool) {
    forall e <- life :: e.Called? ==> e.registeredFor <= serial && (e.registeredFor == serial <==> own)
  }

  /** The callback in the slot of a transaction is its own, or that of an earlier one. */
  predicate Owns(s: Layer, t: Trans, own: bool)
    requires t.slot < |s.callbacks|
  {
    && (s.callbacks[t.slot] == Some(t.serial) <==> own)
    && (s.callbacks[t.slot].Some? ==> s.callbacks[t.slot].value <= t.serial)
  }

  /** What the slots hold is known from the registrations so far. */
  ghost predicate Known(s: Layer, registered: set<nat>) {
    && Sane(s) && (forall n <- registered :: n < s.next)
    && (forall t <- s.list :: NoCall(s.lives[t.serial]))
    && (forall t <- s.list :: Owns(s, t, t.serial in registered))
    && (forall k | 0 <= k < |s.callbacks| :: s.callbacks[k].Some? ==> s.callbacks[k].value < s.next)
    && forall n <- s.lives :: OwnCalls(s.lives[n], n, n in registered)
  }

  lemma RegisterKnows(s: Layer, i: nat, registered: set<nat>)
    requires Ok(s) && Known(s, registered) && i < |s.list|
    ensures s.list[i] in s.list && Known(Register(s, i), registered + {s.list[i].serial})
  {
    hide Over, Running, Slots, Serials;
    SerialOf(s.list, i);
    assert s.list[i] in s.list;
    forall n | n in s.lives
      ensures OwnCalls(s.lives[n], n, n in registered + {s.list[i].serial})
    {
      assert n == s.list[i].serial ==> NoCall(s.lives[n]);
    }
  }

  lemma NewKnows(s: Layer, mid: uint16, confirmable: bool, registered: set<nat>)
    requires Ok(s) && Known(s, registered)
    ensures Known(New(s, mid, confirmable), registered)
  {
    hide Over, Running, Slots, Serials, Separate;
    var slot := FirstFree(s.used, 0);
    if slot.Some? {
      var s' := New(s, mid, confirmable);
      assert s.callbacks[slot.value] != Some(s.next);
      forall n | n in s'.lives
        ensures OwnCalls(s'.lives[n], n, n in registered)
      {
        assert n != s.next ==> n in s.lives;
      }
      forall t | t in s'.list
        ensures NoCall(s'.lives[t.serial]) && t.slot < COAP_MAX_OPEN_TRANSACTIONS && t.serial in s'.lives
        ensures Owns(s', t, t.serial in registered)
      {
        assert t in s.list ==> t.serial < s.next;
      }
    }
  }

  /** The events of one step have been added to the life of one transaction. */
  lemma LogKnows(s: Layer, s': Layer, i: nat, events: seq<Event>, registered: set<nat>)
    requires Ok(s) && Known(s, registered) && i < |s.list| && s'.callbacks == s.callbacks && s'.next == s.next
    requires s.list[i].serial in s.lives && s'.lives == Log(s, s.list[i].serial, events)
    requires forall t <- s'.list :: exists u <- s.list :: u.slot == t.slot && u.serial == t.serial && (u == s.list[i] ==> NoCall(events))
    requires OwnCalls(events, s.list[i].serial, s.list[i].serial in registered)
    ensures Known(s', registered)
  {
    hide Over, Running, Slots, Serials;
    var n := s.list[i].serial;
    assert s.list[i] in s.list;
    SerialOf(s.list, i);
    forall t | t in s'.list
      ensures t.slot < COAP_MAX_OPEN_TRANSACTIONS && t.serial in s'.lives && NoCall(s'.lives[t.serial])
      ensures Owns(s', t, t.serial in registered)
    {
      var u :| u in s.list && u.slot == t.slot && u.serial == t.serial && (u == s.list[i] ==> NoCall(events));
      assert NoCall(s.lives[u.serial]);
    }
    assert OwnCalls(s.lives[n], n, n in registered);
  }

  lemma ClearKnows(s: Layer, s': Layer, i: nat, before: seq<Event>, rest: seq<Event>, registered: set<nat>)
    requires Ok(s) && Known(s, registered) && i < |s.list| && s.list[i].serial in s.lives && s.list[i].slot < |s.callbacks|
    requires NoCall(before) && rest in {[], Callback(s, s.list[i].slot)}
    requires s' == s.(list := s.list[..i] + s.list[i + 1..], used := s.used - {s.list[i].slot},
                      lives := Log(s, s.list[i].serial, before + ([Freed] + rest)))
    ensures Known(s', registered)
  {
    hide Over, Running, Slots, Serials, Separate;
    var t := s.list[i];
    assert t in s.list;
    Removed(s.list, i);
    assert OwnCalls(before + ([Freed] + rest), t.serial, t.serial in registered);
    LogKnows(s, s', i, before + ([Freed] + rest), registered);
  }

  lemma SendKnows(s: Layer, i: nat, base: nat, registered: set<nat>)
    requires Ok(s) && Known(s, registered) && i < |s.list| && s.list[i].counter <= COAP_MAX_RETRANSMIT
    ensures s.list[i] in s.list && Known(Send(s, i, base), registered)
  {
    hide Over, Running, Slots, Serials, Separate;
    var t, s' := s.list[i], Send(s, i, base);
    assert t in s.list;
    if t.confirmable && t.counter < COAP_MAX_RETRANSMIT {
      SendAgainKnows(s, i, base, registered);
    } else {
      var life, rest := s.lives[t.serial], if t.confirmable then Callback(s, t.slot) else [];
      assert life + [Sent] + ([Freed] + rest) == life + ([Sent] + ([Freed] + rest));
      ClearKnows(s, s', i, [Sent], rest, registered);
    }
  }

  lemma SendAgainKnows(s: Layer, i: nat, base: nat, registered: set<nat>)
    requires Ok(s) && Known(s, registered) && i < |s.list|
    requires s.list[i].confirmable && s.list[i].counter < COAP_MAX_RETRANSMIT
    ensures s.list[i] in s.list && Known(Send(s, i, base), registered)
  {
    hide Over, Running, Slots, Serials, Separate, Owns, OwnCalls;
    var t, s' := s.list[i], Send(s, i, base);
    assert t in s.list;
    var life, wait := s.lives[t.serial], Wait(s'.list[i].interval);
    assert life + [Sent] + [wait] == life + [Sent, wait];
    Replaced(s.list, i, s'.list[i]);
    NoCalls(wait, t.serial, registered);
    LogKnows(s, s', i, [Sent, wait], registered);
  }

  lemma NoCalls(wait: Event, serial: nat, registered: set<nat>)
    requires wait.Wait?
    ensures NoCall([Sent, wait]) && OwnCalls([Sent, wait], serial, serial in registered)
  {
  }

  lemma ClearedKnows(s: Layer, i: nat, rest: seq<Event>, registered: set<nat>)
    requires Ok(s) && Known(s, registered) && i < |s.list| && s.list[i].serial in s.lives && s.list[i].slot < |s.callbacks|
    requires rest in {[], Callback(s, s.list[i].slot)}
    ensures Known(Clear(s, i, rest), registered)
  {
    hide Ok, Known;
    assert [] + ([Freed] + rest) == [Freed] + rest;
    ClearKnows(s, Clear(s, i, rest), i, [], rest, registered);
  }

  /** A transaction that is about to send again is known as well. */
  lemma ExpireKnows(s: Layer, i: nat, registered: set<nat>)
    requires Ok(s) && Known(s, registered) && i < |s.list| && s.list[i].started
    ensures Known(Expire(s, i), registered)
  {
    hide Over, Slots, Serials, Separate, Rounds;
    var t := s.list[i];
    assert t in s.list && Running(t, s.lives[t.serial]);
    var s1 := s.(list := s.list[i := t.(counter := t.counter + 1)]);
    var s' := Expire(s, i);
    var life := s.lives[t.serial];
    SerialOf(s.list, i);
    if t.counter + 1 < COAP_MAX_RETRANSMIT {
      var wait := Wait(2 * t.interval);
      assert life + [Sent] + [wait] == life + [Sent, wait];
      assert s'.list == s.list[i := s'.list[i]];
      Replaced(s.list, i, s'.list[i]);
      LogKnows(s, s', i, [Sent, wait], registered);
    } else {
      var rest := Callback(s, t.slot);
      assert life + [Sent] + ([Freed] + rest) == life + ([Sent] + ([Freed] + rest));
      assert s1.list[..i] + s1.list[i + 1..] == s.list[..i] + s.list[i + 1..];
      ClearKnows(s, s', i, [Sent], rest, registered);
    }
  }

  lemma {:induction false} CheckKnows(s: Layer, expired: set<nat>, i: nat, registered: set<nat>)
    requires Ok(s) && Known(s, registered) && forall t <- s.list :: t.slot in expired ==> t.started
    ensures Known(Check(s, expired, i), registered)
    decreases |s.list| - i
  {
    hide Ok, Expire, Known;
    OkIsSane(s);
    if i < |s.list| {
      assert s.list[i] in s.list;
      if s.list[i].slot in expired {
        ExpireKeeps(s, i);
        ExpireKnows(s, i, registered);
        var s' := Expire(s, i);
        if |s'.list| == |s.list| {
          StillStarted(s, s', expired, i);
          CheckKnows(s', expired, i + 1, registered);
        }
      } else {
        CheckKnows(s, expired, i + 1, registered);
      }
    }
  }

  lemma NextKnows(s: Layer, op: Op, registered: set<nat>)
    requires Ok(s) && Enabled(s, op) && Known(s, registered)
    ensures Sane(s) && Known(Next(s, op), registered + Hit(s, op))
  {
    hide Ok, Known, Check;
    OkIsSane(s);
    assert registered + {} == registered;
    match op
    case DoNew(mid, confirmable) => NewKnows(s, mid, confirmable, registered);
    case DoRegister(i) => RegisterKnows(s, i, registered);
    case DoSend(i, base) =>
      NotStarted(s, i);
      SendKnows(s, i, base, registered);
    case DoAnswer(mid) =>
      var i := Find(s.list, mid, 0);
      if i.Some? {
        SaneFacts(s, i.value);
        ClearedKnows(s, i.value, Callback(s, s.list[i.value].slot), registered);
      }
    case DoClear(i) =>
      SaneFacts(s, i);
      ClearedKnows(s, i, [], registered);
    case DoCheck(expired) => CheckKnows(s, expired, 0, registered);
  }

  lemma NotStarted(s: Layer, i: nat)
    requires Ok(s) && i < |s.list| && !s.list[i].started
    ensures s.list[i].counter == 0
  {
    hide Over;
    assert s.list[i] in s.list;
  }

  lemma {:induction false} RunKnows(s: Layer, ops: seq<Op>, registered: set<nat>)
    requires Ok(s) && AllEnabled(s, ops) && Known(s, registered)
    ensures Known(Run(s, ops), registered + Registrations(s, ops))
    decreases |ops|
  {
    hide Ok, Next, Enabled, Known, Hit;
    if ops == [] {
      assert registered + {} == registered;
    } else {
      NextKeeps(s, ops[0]);
      NextKnows(s, ops[0], registered);
      var hit, later := Hit(s, ops[0]), Registrations(Next(s, ops[0]), ops[1..]);
      assert registered + hit + later == registered + (hit + later);
      RunKnows(Next(s, ops[0]), ops[1..], registered + hit);
    }
  }

  /** In every run, a callback that is called for a transaction is the one registered for it exactly
      if one was registered for it while it was listed. Otherwise it is that of an earlier
      transaction in the same slot, since a new transaction does not clear it. */
  lemma CallbackIsOwn(ops: seq<Op>, serial: nat, n: nat)
    requires AllEnabled(Initial(), ops) && serial in Run(Initial(), ops).lives
    requires Called(n) in Run(Initial(), ops).lives[serial]
    ensures if serial in Registrations(Initial(), ops) then n == serial else n < serial
  {
    hide Run, AllEnabled, Registrations, Ok;
    StartsOk();
    assert Known(Initial(), {});
    RunKnows(Initial(), ops, {});
    assert {} + Registrations(Initial(), ops) == Registrations(Initial(), ops);
  }

  /** That this happens: the second of two transactions in a slot is answered with the callback of
      the first. */
  lemma StaleCallback(mid: uint16, base: nat)
    ensures var first := [DoNew(mid, true), DoRegister(0), DoSend(0, base), DoAnswer(mid)];
            var second := [DoNew(mid, true), DoSend(0, base), DoAnswer(mid)];
            && AllEnabled(Initial(), first) && AllEnabled(Run(Initial(), first), second)
            && 1 in Run(Run(Initial(), first), second).lives
            && Run(Run(Initial(), first), second).lives[1] == [Sent, Wait(base), Freed, Called(0)]
  {
    hide AllEnabled, Run, Next, Sane, FirstFree;
    var slots := [Some(0), None, None, None];
    assert [None, None, None, None][0 := Some(0)] == slots;
    var life := [Sent, Wait(base), Freed, Called(0)];
    var s1 := Only(0, [None, None, None, None], map[], mid);
    var s2, s3 := Only(0, slots, map[], mid), Waiting(0, slots, map[], mid, base);
    var s4 := Layer([], {}, slots, 1, map[0 := life]);
    NewOnly(Initial(), mid);
    RegisterOnly([None, None, None, None], mid);
    SendOnly(0, slots, map[], mid, base);
    AnswerOnly(0, slots, map[], mid, base);
    FourSteps(Initial(), s1, s2, s3, s4, DoNew(mid, true), DoRegister(0), DoSend(0, base), DoAnswer(mid));
    NewOnly(s4, mid);
    SendOnly(1, slots, map[0 := life], mid, base);
    AnswerOnly(1, slots, map[0 := life], mid, base);
    ThreeSteps(s4, Only(1, slots, map[0 := life], mid), Waiting(1, slots, map[0 := life], mid, base),
               DoNew(mid, true), DoSend(0, base), DoAnswer(mid));
  }

  /** One transaction, in the first slot, that has not been sent. */
  function Only(serial: nat, callbacks: seq<Option<nat>>, lives: map<nat, seq<Event>>, mid: uint16): Layer {
    Layer([Trans(0, serial, mid, true, false, 0, 0, 0)], {0}, callbacks, serial + 1, lives[serial := []])
  }

  /** The same after it has been sent. */
  function Waiting(serial: nat, callbacks: seq<Option<nat>>, lives: map<nat, seq<Event>>, mid: uint16, base: nat): Layer {
    Layer([Trans(0, serial, mid, true, true, 0, base, base)], {0}, callbacks, serial + 1, lives[serial := [Sent, Wait(base)]])
  }

  lemma NewOnly(s: Layer, mid: uint16)
    requires s.list == [] && s.used == {} && |s.callbacks| == COAP_MAX_OPEN_TRANSACTIONS
    ensures Sane(s) && Next(s, DoNew(mid, true)) == Only(s.next, s.callbacks, s.lives, mid)
  {
    assert FirstFree(s.used, 0) == Some(0);
  }

  lemma RegisterOnly(callbacks: seq<Option<nat>>, mid: uint16)
    requires |callbacks| == COAP_MAX_OPEN_TRANSACTIONS
    ensures var s := Only(0, callbacks, map[], mid);
            Sane(s) && Enabled(s, DoRegister(0)) && Next(s, DoRegister(0)) == Only(0, callbacks[0 := Some(0)], map[], mid)
  {
  }

  lemma SendOnly(serial: nat, callbacks: seq<Option<nat>>, lives: map<nat, seq<Event>>, mid: uint16, base: nat)
    requires |callbacks| == COAP_MAX_OPEN_TRANSACTIONS
    ensures var s := Only(serial, callbacks, lives, mid);
            Sane(s) && Enabled(s, DoSend(0, base)) && Next(s, DoSend(0, base)) == Waiting(serial, callbacks, lives, mid, base)
  {
    assert [] + [Sent] == [Sent] && [Sent] + [Wait(base)] == [Sent, Wait(base)];
    var s := Only(serial, callbacks, lives, mid);
    assert Next(s, DoSend(0, base)).lives == Waiting(serial, callbacks, lives, mid, base).lives;
  }

  lemma AnswerOnly(serial: nat, callbacks: seq<Option<nat>>, lives: map<nat, seq<Event>>, mid: uint16, base: nat)
    requires |callbacks| == COAP_MAX_OPEN_TRANSACTIONS && callbacks[0] == Some(0)
    ensures var s := Waiting(serial, callbacks, lives, mid, base);
            && Sane(s) && Enabled(s, DoAnswer(mid))
            && Next(s, DoAnswer(mid)) == Layer([], {}, callbacks, serial + 1, lives[serial := [Sent, Wait(base), Freed, Called(0)]])
  {
    var s := Waiting(serial, callbacks, lives, mid, base);
    assert Find(s.list, mid, 0) == Some(0);
    assert [Sent, Wait(base)] + ([Freed] + [Called(0)]) == [Sent, Wait(base), Freed, Called(0)];
    assert s.list[..0] + s.list[1..] == [] && s.used - {0} == {};
    assert Next(s, DoAnswer(mid)).lives == lives[serial := [Sent, Wait(base), Freed, Called(0)]];
  }

  lemma ThreeSteps(s0: Layer, s1: Layer, s2: Layer, a: Op, b: Op, c: Op)
    requires Sane(s0) && Enabled(s0, a) && Next(s0, a) == s1 && Sane(s1) && Enabled(s1, b) && Next(s1, b) == s2
    requires Sane(s2) && Enabled(s2, c)
    ensures AllEnabled(s0, [a, b, c]) && Run(s0, [a, b, c]) == Next(s2, c)
  {
    hide Next, Enabled;
    assert [a, b, c][1..] == [b, c] && [b, c][1..] == [c] && [c][1..] == [];
    assert AllEnabled(Next(s2, c), []);
    assert AllEnabled(s2, [c]) && Run(s2, [c]) == Next(s2, c);
    assert AllEnabled(s1, [b, c]);
  }

  lemma FourSteps(s0: Layer, s1: Layer, s2: Layer, s3: Layer, s4: Layer, a: Op, b: Op, c: Op, d: Op)
    requires Sane(s0) && Enabled(s0, a) && Next(s0, a) == s1 && Sane(s1) && Enabled(s1, b) && Next(s1, b) == s2
    requires Sane(s2) && Enabled(s2, c) && Next(s2, c) == s3 && Sane(s3) && Enabled(s3, d) && Next(s3, d) == s4
    ensures AllEnabled(s0, [a, b, c, d]) && Run(s0, [a, b, c, d]) == s4
  {
    hide Next, Enabled;
    ThreeSteps(s1, s2, s3, b, c, d);
    assert [a, b, c, d][1..] == [b, c, d];
  }

  // ----- The pool -----

  class Pool {
    var list: seq<Trans>
    var used: set<nat>
    var callbacks: seq<Option<nat>>
    var next: nat
    ghost var lives: map<nat, seq<Event>>

    ghost function Abstract(): Layer
      reads this
    {
      Layer(list, used, callbacks, next, lives)
    }

    constructor ()
      ensures Abstract() == Initial()
    {
      list, used, callbacks, next, lives := [], {}, [None, None, None, None], 0, map[];
    }

    /** coap_new_transaction */
    method NewTransaction(mid: uint16, confirmable: bool) returns (slot: Option<nat>)
      modifies this
      ensures Abstract() == New(old(Abstract()), mid, confirmable) && slot == FirstFree(old(used), 0)
    {
      slot := None;
      var k := 0;
      while k < COAP_MAX_OPEN_TRANSACTIONS && slot == None
        invariant k <= COAP_MAX_OPEN_TRANSACTIONS
        invariant FirstFree(used, 0) == if slot == None then FirstFree(used, k) else slot
      {
        if k !in used {
          slot := Some(k);
        }
        k := k + 1;
      }
      if slot.Some? {
        used := used + {slot.value};
        list := list + [Trans(slot.value, next, mid, confirmable, false, 0, 0, 0)];
        lives := lives[next := []];
        next := next + 1;
      }
    }

    /** coap_clear_transaction */
    method ClearTransaction(i: nat)
      requires i < |list| && list[i].serial in lives
      modifies this`list, this`used, this`lives
      ensures Abstract() == Clear(old(Abstract()), i, [])
    {
      assert [Freed] + [] == [Freed];
      lives := lives[list[i].serial := lives[list[i].serial] + [Freed]];
      used := used - {list[i].slot};
      list := list[..i] + list[i + 1..];
    }

    /** The memory is freed, and the callback that is in it is called. */
    method ClearAndCall(i: nat)
      requires i < |list| && list[i].serial in lives && list[i].slot < |callbacks|
      modifies this`list, this`used, this`lives
      ensures Abstract() == Clear(old(Abstract()), i, Callback(old(Abstract()), old(list[i].slot)))
    {
      var t := list[i];
      var callback := callbacks[t.slot];
      ghost var life, before := lives[t.serial], lives;
      assert [Freed] + [] == [Freed];
      ClearTransaction(i);
      assert lives == before[t.serial := life + [Freed]];
      if callback.Some? {
        assert lives[t.serial] == life + [Freed];
        assert life + [Freed] + [Called(callback.value)] == life + ([Freed] + [Called(callback.value)]);
        lives := lives[t.serial := lives[t.serial] + [Called(callback.value)]];
      } else {
        assert [Freed] + [] == [Freed];
      }
    }

    /** coap_send_transaction */
    method SendTransaction(i: nat, base: nat)
      requires i < |list| && list[i].serial in lives && list[i].slot < |callbacks|
      modifies this`list, this`used, this`lives
      ensures Abstract() == Send(old(Abstract()), i, base)
    {
      var t := list[i];
      lives := lives[t.serial := lives[t.serial] + [Sent]];
      if t.confirmable {
        if t.counter < COAP_MAX_RETRANSMIT {
          var interval := if t.counter == 0 then base else 2 * t.interval;
          list := list[i := t.(started := true, interval := interval, base := if t.counter == 0 then base else t.base)];
          lives := lives[t.serial := lives[t.serial] + [Wait(interval)]];
        } else {
          ClearAndCall(i);
        }
      } else {
        ClearTransaction(i);
        assert [Freed] + [] == [Freed];
      }
    }

    /** The lookup by message id in coap_receive, and what follows it. */
    method AnswerTransaction(mid: uint16)
      requires Sane(Abstract())
      modifies this`list, this`used, this`lives
      ensures Abstract() == Answer(old(Abstract()), mid)
    {
      var i := 0;
      while i < |list| && list[i].mid != mid
        invariant i <= |list| && Find(list, mid, 0) == Find(list, mid, i)
      {
        i := i + 1;
      }
      if i < |list| {
        assert list[i] in list;
        ClearAndCall(i);
      }
    }

    /** coap_check_transactions: the walk along the list ends with an entry that has been removed. */
    method CheckTransactions(expired: set<nat>)
      requires Sane(Abstract())
      modifies this`list, this`used, this`lives
      ensures Abstract() == Check(old(Abstract()), expired, 0)
    {
      hide Sane;
      var i := 0;
      var more := true;
      while more && i < |list|
        invariant Sane(Abstract())
        invariant Check(old(Abstract()), expired, 0) == if more then Check(Abstract(), expired, i) else Abstract()
        decreases more, |list| - i
      {
        SaneFacts(Abstract(), i);
        if list[i].slot in expired {
          ghost var s := Abstract();
          var n := |list|;
          list := list[i := list[i].(counter := list[i].counter + 1)];
          SendTransaction(i, 0);
          assert Abstract() == Expire(s, i);
          more := |list| == n;
        }
        i := i + 1;
      }
    }
  }

  lemma SaneFacts(s: Layer, i: nat)
    requires Sane(s) && i < |s.list|
    ensures s.list[i].serial in s.lives && s.list[i].slot < |s.callbacks|
  {
    assert s.list[i] in s.list;
  }
}
