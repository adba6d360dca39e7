/** What each operation on the transactions of CoAP does in a run, to the one it is about and to all the
    others (apps/er-coap/er-coap-transactions.c and er-coap-engine.c). */
module TransactionSteps {
  import opened Basics
  import opened Transactions

  /** The state of a run, with what is known of it. */
  ghost predicate Reached(s: Layer, registered: set<nat>) {
    Ok(s) && Known(s, registered)
  }

  lemma RunReaches(ops: seq<Op>)
    requires AllEnabled(Initial(), ops)
    ensures Reached(Run(Initial(), ops), Registrations(Initial(), ops)) && Sane(Run(Initial(), ops))
  {
    hide Run, AllEnabled, Registrations, Ok;
    StartsOk();
    RunKeeps(Initial(), ops);
    assert Known(Initial(), {});
    RunKnows(Initial(), ops, {});
    assert {} + Registrations(Initial(), ops) == Registrations(Initial(), ops);
  }

  /** Nothing happens to the others. */
  ghost predicate Untouched(s: Layer, s': Layer, serial: nat) {
    forall n <- s.lives :: n != serial ==> n in s'.lives && s'.lives[n] == s.lives[n]
  }

  /** The end of a life with its callback: its own one if one was registered, and otherwise none or that
      of an earlier transaction. */
  ghost predicate EndsWith(life: seq<Event>, before: seq<Event>, serial: nat, own: bool) {
    if own then life == before + [Freed, Called(serial)]
    else life == before + [Freed] || exists n: nat :: n < serial && life == before + [Freed, Called(n)]
  }

  /** A transaction is created exactly if less than four are open, and it is the last one in the list. */
  lemma CreatesTransaction(ops: seq<Op>, mid: uint16, confirmable: bool)
    requires AllEnabled(Initial(), ops)
    ensures var s := Run(Initial(), ops);
            Sane(s) && var s' := Next(s, DoNew(mid, confirmable));
            if |s.list| < 4 then
              && |s'.list| == |s.list| + 1 && s'.list[..|s.list|] == s.list
              && var t := s'.list[|s.list|];
                 && t.mid == mid && t.confirmable == confirmable && !t.started
                 && t.serial !in s.lives && t.serial in s'.lives && s'.lives[t.serial] == []
                 && (forall u <- s.list :: u.slot != t.slot) && Untouched(s, s', t.serial)
            else s' == s
  {
    hide Run, AllEnabled, Ok, Known;
    RunReaches(ops);
    var s := Run(Initial(), ops);
    RoomForFour(s);
    NewSerial(s);
  }

  lemma NewSerial(s: Layer)
    requires Ok(s)
    ensures s.next !in s.lives && forall u <- s.list :: u.slot in s.used
  {
    hide Over, Running, Separate;
  }

  lemma RoomForFour(s: Layer)
    requires Ok(s)
    ensures FirstFree(s.used, 0).Some? <==> |s.list| < 4
  {
    hide Over, Running;
    SlotsUsed(s.list);
    RoomIn(s.used);
  }

  function Below(n: nat): (below: set<nat>)
    ensures forall x: nat :: x in below <==> x < n
  {
    if n == 0 then {} else Below(n - 1) + {n - 1}
  }

  lemma {:induction false} BelowCount(n: nat)
    ensures |Below(n)| == n
  {
    if n > 0 {
      BelowCount(n - 1);
    }
  }

  lemma RoomIn(used: set<nat>)
    requires forall x <- used :: x < 4
    ensures FirstFree(used, 0).Some? <==> |used| < 4
  {
    BelowCount(4);
    var slot := FirstFree(used, 0);
    if slot.None? {
      Subset(Below(4), used);
    } else {
      Subset(used, Below(4) - {slot.value});
    }
  }

  lemma {:induction false} SlotsUsed(list: seq<Trans>)
    requires Separate(list)
    ensures |Slots(list)| == |list|
  {
    if list != [] {
      var n := |list| - 1;
      SlotsUsed(list[..n]);
      assert list == list[..n] + [list[n]];
      Appended(list[..n], list[n]);
    }
  }

  /** The first sending: a packet that is not confirmable is sent and freed, and any other one waits for as
      long as the timer is set to. */
  lemma FirstSending(ops: seq<Op>, i: nat, base: nat)
    requires AllEnabled(Initial(), ops)
    requires i < |Run(Initial(), ops).list| && !Run(Initial(), ops).list[i].started
    ensures var s := Run(Initial(), ops);
            Sane(s) && s.list[i].serial in s.lives && var t, s' := s.list[i], Next(s, DoSend(i, base));
            && t.serial in s'.lives && Untouched(s, s', t.serial)
            && if t.confirmable then s'.lives[t.serial] == [Sent, Wait(base)] && Serials(s'.list) == Serials(s.list)
               else s'.lives[t.serial] == [Sent, Freed] && s'.list == s.list[..i] + s.list[i + 1..]
  {
    hide Run, AllEnabled, Over, Known, Separate, Slots, Serials;
    RunReaches(ops);
    var s := Run(Initial(), ops);
    var t := s.list[i];
    assert t in s.list && Running(t, s.lives[t.serial]);
    assert [] + [Sent] == [Sent] && [Sent] + [Wait(base)] == [Sent, Wait(base)] && [Sent] + ([Freed] + []) == [Sent, Freed];
    if t.confirmable {
      Replaced(s.list, i, t.(started := true, interval := base, base := base));
    }
  }

  /** An answer ends the first transaction with its message id, and the callback is called after that. An
      answer with a message id that is not in the list does nothing. */
  lemma AnswerEnds(ops: seq<Op>, mid: uint16, k: nat)
    requires AllEnabled(Initial(), ops) && k <= |Run(Initial(), ops).list|
    requires forall j | 0 <= j < k :: Run(Initial(), ops).list[j].mid != mid
    requires k < |Run(Initial(), ops).list| ==> Run(Initial(), ops).list[k].mid == mid
    ensures var s := Run(Initial(), ops);
            Sane(s) && var s' := Next(s, DoAnswer(mid));
            if k == |s.list| then s' == s
            else
              var n := s.list[k].serial;
              && n in s.lives && n in s'.lives && s'.list == s.list[..k] + s.list[k + 1..] && Untouched(s, s', n)
              && EndsWith(s'.lives[n], s.lives[n], n, n in Registrations(Initial(), ops))
  {
    hide Run, AllEnabled, Over, Separate, Slots, Serials, Registrations, Running;
    RunReaches(ops);
    var s := Run(Initial(), ops);
    if k < |s.list| {
      assert s.list[k] in s.list;
      EndsWithCallback(s, k, s.lives[s.list[k].serial], Registrations(Initial(), ops));
    }
  }

  lemma EndsWithCallback(s: Layer, k: nat, before: seq<Event>, registered: set<nat>)
    requires Reached(s, registered) && k < |s.list|
    ensures Sane(s) && s.list[k] in s.list
    ensures var n := s.list[k].serial;
            EndsWith(before + ([Freed] + Callback(s, s.list[k].slot)), before, n, n in registered)
  {
    hide Over, Separate, Slots, Serials, Running, NoCall, OwnCalls;
    var t := s.list[k];
    assert t in s.list;
    assert Owns(s, t, t.serial in registered);
    match s.callbacks[t.slot]
    case Some(n) => assert before + ([Freed] + [Called(n)]) == before + [Freed, Called(n)];
    case None => assert before + ([Freed] + []) == before + [Freed];
  }

  /** Clearing a transaction frees it, and calls nothing. */
  lemma ClearIsQuiet(ops: seq<Op>, k: nat)
    requires AllEnabled(Initial(), ops) && k < |Run(Initial(), ops).list|
    ensures var s := Run(Initial(), ops);
            Sane(s) && var n, s' := s.list[k].serial, Next(s, DoClear(k));
            && n in s.lives && n in s'.lives && s'.lives[n] == s.lives[n] + [Freed]
            && s'.list == s.list[..k] + s.list[k + 1..] && Untouched(s, s', n)
  {
    hide Run, AllEnabled, Ok, Known;
    RunReaches(ops);
    var s := Run(Initial(), ops);
    OkIsSane(s);
    assert s.list[k] in s.list;
    assert [Freed] + [] == [Freed];
  }

  /** What the expiry of a timer adds to the life of a transaction: the packet is sent again, and the next
      wait is twice as long; but after the fifth sending it is freed and the callback is called. */
  ghost predicate Served(s: Layer, s': Layer, t: Trans, own: bool)
    requires t.serial in s.lives
  {
    t.serial in s'.lives &&
    if t.counter < 3 then
      s'.lives[t.serial] == s.lives[t.serial] + [Sent, Wait(2 * t.interval)] && t.serial in Serials(s'.list)
    else
      EndsWith(s'.lives[t.serial], s.lives[t.serial] + [Sent], t.serial, own) && t.serial !in Serials(s'.list)
  }

  ghost predicate LeftAlone(s: Layer, s': Layer, serial: nat) {
    AsBefore(s, s', serial) && serial in Serials(s'.list)
  }

  lemma ExpireServes(s: Layer, i: nat, registered: set<nat>)
    requires Reached(s, registered) && i < |s.list| && s.list[i].started
    ensures s.list[i] in s.list && Served(s, Expire(s, i), s.list[i], s.list[i].serial in registered)
  {
    hide Over, Rounds, Slots, Separate, Callback, NoCall, OwnCalls;
    var t := s.list[i];
    assert t in s.list && Running(t, s.lives[t.serial]);
    var s1 := s.(list := s.list[i := t.(counter := t.counter + 1)]);
    var s' := Expire(s, i);
    var life := s.lives[t.serial];
    if t.counter < 3 {
      assert s'.list[i] in s'.list;
      assert life + [Sent] + [Wait(2 * t.interval)] == life + [Sent, Wait(2 * t.interval)];
    } else {
      EndsWithCallback(s, i, life + [Sent], registered);
      SameCallbacks(s, s1, t.slot);
      assert s'.list == s1.list[..i] + s1.list[i + 1..] == s.list[..i] + s.list[i + 1..];
      Removed(s.list, i);
    }
  }

  lemma ExpireLeaves(s: Layer, i: nat, j: nat)
    requires Ok(s) && i < |s.list| && s.list[i].started && j < |s.list| && j != i
    ensures LeftAlone(s, Expire(s, i), s.list[j].serial)
  {
    hide Over, Rounds, Callback;
    var t, s' := s.list[i], Expire(s, i);
    assert t in s.list && s.list[j] in s.list && Running(t, s.lives[t.serial]);
    if t.counter < 3 {
      assert s'.list[j] == s.list[j] && s'.list[j] in s'.list;
    } else {
      var s1 := s.(list := s.list[i := t.(counter := t.counter + 1)]);
      assert s'.list == s1.list[..i] + s1.list[i + 1..] == s.list[..i] + s.list[i + 1..];
      Removed(s.list, i);
    }
  }

  lemma SameCallbacks(s: Layer, s1: Layer, slot: nat)
    requires s1.callbacks == s.callbacks && slot < |s.callbacks|
    ensures Callback(s1, slot) == Callback(s, slot)
  {
  }

  /** The walk serves each transaction with an expired timer that it reaches and leaves the others alone. */
  lemma {:induction false} WalkServes(s: Layer, expired: set<nat>, i: nat, j: nat, registered: set<nat>)
    requires Reached(s, registered) && (forall t <- s.list :: t.slot in expired ==> t.started) && j < |s.list|
    ensures Sane(s) && s.list[j] in s.list
    ensures var t, s' := s.list[j], Check(s, expired, i);
            if t.slot in expired && Reaches(s, expired, i, j) then Served(s, s', t, t.serial in registered)
            else LeftAlone(s, s', t.serial)
    decreases |s.list| - i
  {
    hide Ok, Known, Expire, Served, LeftAlone;
    OkIsSane(s);
    assert s.list[j] in s.list;
    if i >= |s.list| || (s.list[i].slot !in expired && i != j) {
      NotListed(s, j);
    }
    if i < |s.list| {
      assert s.list[i] in s.list;
      if s.list[i].slot !in expired {
        WalkServes(s, expired, i + 1, j, registered);
      } else {
        ExpireKeeps(s, i);
        ExpireKnows(s, i, registered);
        ExpireServes(s, i, registered);
        if i != j {
          ExpireLeaves(s, i, j);
        }
        assert LastTimeout(s, expired, i) <==> s.list[i].counter == 3;
        var s1 := Expire(s, i);
        if s.list[i].counter != 3 {
          StillStarted(s, s1, expired, i);
          WalkServes(s1, expired, i + 1, j, registered);
          assert forall k | i < k < |s.list| :: LastTimeout(s1, expired, k) == LastTimeout(s, expired, k);
          var s2, n := Check(s1, expired, i + 1), s.list[j].serial;
          Composed(s, s1, s2, s.list[j], n in registered);
          if i == j {
            Listing(s1, s2, i);
            ServedOnly(s, s1, s2, s.list[i], n in registered);
          }
        }
      }
    }
  }

  lemma Listing(s1: Layer, s2: Layer, i: nat)
    requires i < |s1.list| && LeftAlone(s1, s2, s1.list[i].serial)
    ensures AsBefore(s1, s2, s1.list[i].serial) && s1.list[i].serial in Serials(s1.list) && s1.list[i].serial in Serials(s2.list)
  {
    assert s1.list[i] in s1.list;
  }

  lemma NotListed(s: Layer, j: nat)
    requires Ok(s) && j < |s.list|
    ensures LeftAlone(s, s, s.list[j].serial)
  {
    assert s.list[j] in s.list;
  }

  /** Two steps, one of which leaves the transaction alone. */
  lemma Composed(s: Layer, s1: Layer, s2: Layer, t: Trans, own: bool)
    requires t.serial in s.lives
    ensures LeftAlone(s, s1, t.serial) && LeftAlone(s1, s2, t.serial) ==> LeftAlone(s, s2, t.serial)
    ensures LeftAlone(s, s1, t.serial) && Served(s1, s2, t, own) ==> Served(s, s2, t, own)
  {
  }

  lemma ServedOnly(s: Layer, s1: Layer, s2: Layer, t: Trans, own: bool)
    requires t.serial in s.lives && Served(s, s1, t, own) && AsBefore(s1, s2, t.serial)
    requires t.serial in Serials(s1.list) <==> t.serial in Serials(s2.list)
    ensures Served(s, s2, t, own)
  {
  }

  /** A check of the timers in a run: the fifth expiry of a timer in front ends it for those behind. */
  lemma CheckServes(ops: seq<Op>, expired: set<nat>, j: nat)
    requires AllEnabled(Initial(), ops) && j < |Run(Initial(), ops).list|
    requires forall t <- Run(Initial(), ops).list :: t.slot in expired ==> t.started
    ensures var s := Run(Initial(), ops);
            Sane(s) && s.list[j] in s.list && var t, s' := s.list[j], Next(s, DoCheck(expired));
            if t.slot in expired && forall k | 0 <= k < j :: s.list[k].slot in expired ==> s.list[k].counter < 3
            then Served(s, s', t, t.serial in Registrations(Initial(), ops))
            else LeftAlone(s, s', t.serial)
  {
    hide Run, AllEnabled, Over, Separate, Slots, Serials, Registrations, Running, Served, LeftAlone, Check;
    RunReaches(ops);
    var s := Run(Initial(), ops);
    assert forall t <- s.list :: Running(t, s.lives[t.serial]);
    CountersBelow(s);
    assert forall k | 0 <= k < |s.list| :: LastTimeout(s, expired, k) <==> s.list[k].slot in expired && s.list[k].counter == 3;
    WalkServes(s, expired, 0, j, Registrations(Initial(), ops));
  }

  lemma CountersBelow(s: Layer)
    requires Ok(s)
    ensures forall k | 0 <= k < |s.list| :: s.list[k].counter <= 3
  {
    hide Over, Rounds;
    forall k | 0 <= k < |s.list|
      ensures s.list[k].counter <= 3
    {
      assert s.list[k] in s.list;
    }
  }
}
