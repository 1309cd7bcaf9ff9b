/**
 * The batch loop of the command-line program.
 *
 * The program takes lists of groups and addresses and sets every
 * (group, address) pair, groups outermost, to the same value.  After each
 * pair it pauses for 0.2 s unless the pair equals the last pair of the
 * batch, so no pause follows the final transmission (nor any earlier
 * duplicate of the last pair).  `Schedule` is the order of sends and pauses
 * as a plain sequence; `Render` is what that order does to the board.
 */
module Batch {
  import opened Wrappers
  import opened Pulses
  import Protocol
  import Control

  /** The pause between pairs, 0.2 s in microseconds. */
  const PairPause: int := 200000

  datatype Action = Send(group: int, address: int) | Pause

  /** The pairs of one group, in the order of the addresses. */
  function Row(group: int, addresses: seq<int>): (r: seq<(int, int)>)
    ensures |r| == |addresses|
  {
    seq(|addresses|, j requires 0 <= j < |addresses| => (group, addresses[j]))
  }

  /** All (group, address) pairs, groups outer and addresses inner. */
  function Pairs(groups: seq<int>, addresses: seq<int>): seq<(int, int)> {
    if groups == [] then []
    else Pairs(groups[..|groups| - 1], addresses) + Row(groups[|groups| - 1], addresses)
  }

  /** One pair of the loop: send it, then pause unless it equals the last pair. */
  function Step(pair: (int, int), last: (int, int)): (r: seq<Action>)
    ensures 1 <= |r| <= 2 && r[0] == Send(pair.0, pair.1)
    ensures |r| == 2 <==> pair != last
    ensures |r| == 2 ==> r[1] == Pause
  {
    [Send(pair.0, pair.1)] + (if pair != last then [Pause] else [])
  }

  /** Sends and pauses for a sequence of pairs, in order. */
  function Schedule(pairs: seq<(int, int)>, last: (int, int)): seq<Action> {
    if pairs == [] then [] else Schedule(pairs[..|pairs| - 1], last) + Step(pairs[|pairs| - 1], last)
  }

  /** The pairs that a sequence of actions sends, in order. */
  function Sends(actions: seq<Action>): seq<(int, int)> {
    if actions == [] then []
    else
      var a := actions[|actions| - 1];
      Sends(actions[..|actions| - 1]) + (if a.Send? then [(a.group, a.address)] else [])
  }

  function CountPauses(actions: seq<Action>): nat {
    if actions == [] then 0
    else CountPauses(actions[..|actions| - 1]) + (if actions[|actions| - 1].Pause? then 1 else 0)
  }

  /** How many of the pairs differ from the last pair. */
  function CountNotLast(pairs: seq<(int, int)>, last: (int, int)): nat {
    if pairs == [] then 0
    else CountNotLast(pairs[..|pairs| - 1], last) + (if pairs[|pairs| - 1] != last then 1 else 0)
  }

  /** What sending one pair does to the board: its frame, `retries` times. */
  function Sender(pin: int, on: bool, retries: int): (int, int) -> seq<Event> {
    (g, addr) => Transmission(pin, Protocol.Frame(g, on, addr), retries)
  }

  /** What one action does to the board, given what sending a pair does. */
  function ActionEvents(send: (int, int) -> seq<Event>, a: Action): seq<Event> {
    match a
    case Send(g, addr) => send(g, addr)
    case Pause => [Hold(PairPause)]
  }

  /** What a sequence of actions does to the board. */
  function Render(send: (int, int) -> seq<Event>, actions: seq<Action>): seq<Event> {
    if actions == [] then []
    else Render(send, actions[..|actions| - 1]) + ActionEvents(send, actions[|actions| - 1])
  }

  lemma {:induction false} PairsLength(groups: seq<int>, addresses: seq<int>)
    ensures |Pairs(groups, addresses)| == |groups| * |addresses|
  {
    if groups != [] {
      var n := |groups| - 1;
      PairsLength(groups[..n], addresses);
      assert |groups| * |addresses| == n * |addresses| + |addresses|;
    }
  }

  /** Pair number i * |addresses| + j is (groups[i], addresses[j]): row-major order. */
  lemma {:induction false} PairsAt(groups: seq<int>, addresses: seq<int>, i: int, j: int)
    requires 0 <= i < |groups| && 0 <= j < |addresses|
    ensures |Pairs(groups, addresses)| == |groups| * |addresses|
    ensures i * |addresses| + j < |Pairs(groups, addresses)|
    ensures Pairs(groups, addresses)[i * |addresses| + j] == (groups[i], addresses[j])
  {
    var n, m := |groups| - 1, |addresses|;
    var prefix, row := Pairs(groups[..n], addresses), Row(groups[n], addresses);
    assert Pairs(groups, addresses) == prefix + row;
    PairsLength(groups, addresses);
    PairsLength(groups[..n], addresses);
    RowMajor(i, j, n, m);
    var k := i * m + j;
    if i < n {
      PairsAt(groups[..n], addresses, i, j);
      assert (prefix + row)[k] == prefix[k];
    } else {
      assert (prefix + row)[k] == row[j];
    }
  }

  /** The arithmetic of row-major indexing, kept apart from the sequences. */
  lemma RowMajor(i: int, j: int, n: int, m: int)
    requires 0 <= i <= n && 0 <= j < m
    ensures (n + 1) * m == n * m + m
    ensures i < n ==> i * m + j < n * m
    ensures i == n ==> i * m + j == n * m + j
  {
    if i < n {
      assert i * m + j < (i + 1) * m;
      assert (i + 1) * m <= n * m;
    }
  }

  /** The last pair of the batch is (last group, last address). */
  lemma PairsLast(groups: seq<int>, addresses: seq<int>)
    requires |groups| > 0 && |addresses| > 0
    ensures |Pairs(groups, addresses)| > 0
    ensures Pairs(groups, addresses)[|Pairs(groups, addresses)| - 1]
         == (groups[|groups| - 1], addresses[|addresses| - 1])
  {
  }

  lemma {:induction false} ScheduleAppend(a: seq<(int, int)>, b: seq<(int, int)>, last: (int, int))
    ensures Schedule(a + b, last) == Schedule(a, last) + Schedule(b, last)
    decreases |b|
  {
    if b == [] {
      assert a + b == a;
    } else {
      var n := |b| - 1;
      assert (a + b)[..|a + b| - 1] == a + b[..n];
      ScheduleAppend(a, b[..n], last);
    }
  }

  lemma {:induction false} SendsAppend(a: seq<Action>, b: seq<Action>)
    ensures Sends(a + b) == Sends(a) + Sends(b)
    decreases |b|
  {
    if b == [] {
      assert a + b == a;
    } else {
      var n := |b| - 1;
      assert (a + b)[..|a + b| - 1] == a + b[..n];
      SendsAppend(a, b[..n]);
    }
  }

  lemma {:induction false} CountPausesAppend(a: seq<Action>, b: seq<Action>)
    ensures CountPauses(a + b) == CountPauses(a) + CountPauses(b)
    decreases |b|
  {
    if b == [] {
      assert a + b == a;
    } else {
      var n := |b| - 1;
      assert (a + b)[..|a + b| - 1] == a + b[..n];
      CountPausesAppend(a, b[..n]);
    }
  }

  lemma {:induction false} RenderAppend(send: (int, int) -> seq<Event>, a: seq<Action>, b: seq<Action>)
    ensures Render(send, a + b) == Render(send, a) + Render(send, b)
    decreases |b|
  {
    if b == [] {
      assert a + b == a;
    } else {
      var n := |b| - 1;
      assert (a + b)[..|a + b| - 1] == a + b[..n];
      RenderAppend(send, a, b[..n]);
    }
  }

  /** The schedule sends exactly the given pairs, in the given order. */
  lemma {:induction false} ScheduleSends(pairs: seq<(int, int)>, last: (int, int))
    ensures Sends(Schedule(pairs, last)) == pairs
  {
    if pairs != [] {
      var n := |pairs| - 1;
      var p := pairs[n];
      ScheduleSends(pairs[..n], last);
      SendsAppend(Schedule(pairs[..n], last), Step(p, last));
      SendsAppend([Send(p.0, p.1)], if p != last then [Pause] else []);
      assert Sends([Send(p.0, p.1)]) == [p] by {
        assert [Send(p.0, p.1)][..0] == [];
      }
      if p != last {
        assert Sends([Pause]) == [] by {
          assert [Pause][..0] == [];
        }
      }
      assert pairs == pairs[..n] + [p];
    }
  }

  /** There are as many pauses as pairs that differ from the last pair. */
  lemma {:induction false} SchedulePauses(pairs: seq<(int, int)>, last: (int, int))
    ensures CountPauses(Schedule(pairs, last)) == CountNotLast(pairs, last)
  {
    if pairs != [] {
      var n := |pairs| - 1;
      var p := pairs[n];
      SchedulePauses(pairs[..n], last);
      CountPausesAppend(Schedule(pairs[..n], last), Step(p, last));
      CountPausesAppend([Send(p.0, p.1)], if p != last then [Pause] else []);
      assert CountPauses([Send(p.0, p.1)]) == 0 by {
        assert [Send(p.0, p.1)][..0] == [];
      }
      if p != last {
        assert CountPauses([Pause]) == 1 by {
          assert [Pause][..0] == [];
        }
      }
    }
  }

  /**
   * Pair k is sent at offset |Schedule(pairs[..k])|, and the action right
   * after it is a pause exactly when pair k differs from the last pair.
   */
  lemma PauseAfter(pairs: seq<(int, int)>, last: (int, int), k: int)
    requires 0 <= k < |pairs|
    ensures var s, o := Schedule(pairs, last), |Schedule(pairs[..k], last)|;
            && o < |s| && s[o] == Send(pairs[k].0, pairs[k].1)
            && ((o + 1 < |s| && s[o + 1] == Pause) <==> pairs[k] != last)
  {
    var s, o := Schedule(pairs, last), |Schedule(pairs[..k], last)|;
    var rest := pairs[k + 1..];
    assert pairs == pairs[..k] + [pairs[k]] + rest;
    ScheduleAppend(pairs[..k] + [pairs[k]], rest, last);
    ScheduleAppend(pairs[..k], [pairs[k]], last);
    assert Schedule([pairs[k]], last) == Step(pairs[k], last) by {
      assert [pairs[k]][..0] == [];
    }
    var after := Schedule(rest, last);
    assert s == Schedule(pairs[..k], last) + Step(pairs[k], last) + after;
    if pairs[k] == last && after != [] {
      var m := |rest| - 1;
      assert rest == [rest[0]] + rest[1..];
      ScheduleAppend([rest[0]], rest[1..], last);
      assert Schedule([rest[0]], last) == Step(rest[0], last) by {
        assert [rest[0]][..0] == [];
      }
      assert s[o + 1] == after[0] == Send(rest[0].0, rest[0].1);
    }
  }

  /** A schedule whose final pair is the last pair ends with its send: no trailing pause. */
  lemma ScheduleEndsWithSend(pairs: seq<(int, int)>, last: (int, int))
    requires |pairs| > 0 && pairs[|pairs| - 1] == last
    ensures |Schedule(pairs, last)| > 0
    ensures Schedule(pairs, last)[|Schedule(pairs, last)| - 1] == Send(last.0, last.1)
  {
  }

  /**
   * Total time the batch holds the pin, in microseconds, when every pair is
   * in range: one in-range transmission per pair plus one pause per pair that
   * differs from the last pair.
   */
  lemma {:induction false} BatchHoldTime(pin: int, on: bool, retries: nat, pairs: seq<(int, int)>, last: (int, int))
    requires forall k :: 0 <= k < |pairs| ==> Protocol.InRange(pairs[k].0, pairs[k].1)
    ensures HoldTime(Render(Sender(pin, on, retries), Schedule(pairs, last)))
         == |pairs| * (retries * 45620) + CountNotLast(pairs, last) * PairPause
  {
    if pairs != [] {
      var send := Sender(pin, on, retries);
      var n := |pairs| - 1;
      var p := pairs[n];
      var prefix := Schedule(pairs[..n], last);
      BatchHoldTime(pin, on, retries, pairs[..n], last);
      RenderStep(send, prefix, p, last);
      HoldTimeAppend(Render(send, prefix), StepEvents(send, p, last));
      var tail: seq<Event> := if p != last then [Hold(PairPause)] else [];
      HoldTimeAppend(send(p.0, p.1), tail);
      if p != last {
        HoldTimeSingle(Hold(PairPause));
      }
      FrameTransmissionTime(pin, p.0, on, p.1, retries);
      MulStep(|pairs|, retries * 45620);
    }
  }

  /** The command-line example: groups 1,2 and address 3 send two frames with one pause between. */
  lemma TwoGroupsOneAddress()
    ensures Schedule(Pairs([1, 2], [3]), (2, 3)) == [Send(1, 3), Pause, Send(2, 3)]
  {
    assert Pairs([1, 2], [3]) == [(1, 3), (2, 3)] by {
      assert [1, 2][..1] == [1];
      assert [1][..0] == [];
    }
    assert [(1, 3), (2, 3)][..1] == [(1, 3)];
  }

  /** The events of one pair of the loop: its transmission, then the pause unless it is the last pair. */
  function StepEvents(send: (int, int) -> seq<Event>, pair: (int, int), last: (int, int)): seq<Event> {
    send(pair.0, pair.1) + (if pair != last then [Hold(PairPause)] else [])
  }

  lemma RenderStep(send: (int, int) -> seq<Event>, actions: seq<Action>, pair: (int, int), last: (int, int))
    ensures Render(send, actions + Step(pair, last)) == Render(send, actions) + StepEvents(send, pair, last)
  {
    RenderAppend(send, actions, Step(pair, last));
    RenderAppend(send, [Send(pair.0, pair.1)], if pair != last then [Pause] else []);
    assert Render(send, [Send(pair.0, pair.1)]) == send(pair.0, pair.1) by {
      assert [Send(pair.0, pair.1)][..0] == [];
    }
    if pair != last {
      assert Render(send, [Pause]) == [Hold(PairPause)] by {
        assert [Pause][..0] == [];
      }
    }
  }

  lemma ScheduleSnoc(pairs: seq<(int, int)>, pair: (int, int), last: (int, int))
    ensures Schedule(pairs + [pair], last) == Schedule(pairs, last) + Step(pair, last)
  {
    assert (pairs + [pair])[..|pairs|] == pairs;
  }

  lemma RowSnoc(group: int, addresses: seq<int>, k: int)
    requires 0 <= k < |addresses|
    ensures Row(group, addresses[..k + 1]) == Row(group, addresses[..k]) + [(group, addresses[k])]
  {
  }

  /** One pair of the batch loop: `set`, then the pause unless the pair is the last one. */
  method SendPair(wc: Control.Switch, board: Control.Board, group: int, addr: int, on: bool, retries: int,
                  last: (int, int))
    modifies board
    ensures board.log == old(board.log) + StepEvents(Sender(wc.pin, on, retries), (group, addr), last)
  {
    wc.Set(board, group, addr, on, retries);
    if (group, addr) != last {
      board.Sleep(PairPause);
    }
  }

  /**
   * The batch loop.  The controller for the pin is fetched (and set up if it
   * is new), then every pair is sent, each followed by the pause unless it
   * is the last pair.
   */
  method Run(reg: Control.Registry, board: Control.Board, pin: int, retries: int,
             groups: seq<int>, addresses: seq<int>, value: int)
    requires reg.Valid()
    requires |groups| > 0 && |addresses| > 0
    modifies reg, board
    ensures reg.Valid()
    ensures pin in reg.pins && reg.pins[pin].pin == pin
    ensures pin in old(reg.pins) ==> reg.pins == old(reg.pins)
    ensures pin !in old(reg.pins) ==> fresh(reg.pins[pin]) && reg.pins == old(reg.pins)[pin := reg.pins[pin]]
    ensures board.log == old(board.log)
              + (if pin in old(reg.pins) then [] else Control.InitEvents(pin))
              + Render(Sender(pin, value != 0, retries),
                       Schedule(Pairs(groups, addresses), (groups[|groups| - 1], addresses[|addresses| - 1])))
  {
    var last := (groups[|groups| - 1], addresses[|addresses| - 1]);
    var on := value != 0;
    var wc := reg.Lookup(board, Some(pin));
    ghost var send := Sender(pin, on, retries);
    assert wc.pin == pin;
    ghost var start := board.log;
    ghost var cached := reg.pins;
    assert wc == cached[pin];
    assert start == old(board.log) + (if pin in old(reg.pins) then [] else Control.InitEvents(pin));
    assert groups[..0] == [];
    for gi := 0 to |groups|
      invariant reg.pins == cached
      invariant board.log == start + Render(send, Schedule(Pairs(groups[..gi], addresses), last))
    {
      ghost var before := board.log;
      SendRow(wc, board, groups[gi], addresses, on, retries, last);
      GroupStep(send, groups, addresses, gi, last);
      Extend(start, before, board.log,
             Render(send, Schedule(Pairs(groups[..gi], addresses), last)),
             Render(send, Schedule(Pairs(groups[..gi + 1], addresses), last)),
             Render(send, Schedule(Row(groups[gi], addresses), last)));
    }
    assert groups[..|groups|] == groups;
  }

  /** Sending one more group extends the rendered batch by that group's row. */
  lemma GroupStep(send: (int, int) -> seq<Event>, groups: seq<int>, addresses: seq<int>, k: int, last: (int, int))
    requires 0 <= k < |groups|
    ensures Render(send, Schedule(Pairs(groups[..k + 1], addresses), last))
         == Render(send, Schedule(Pairs(groups[..k], addresses), last))
            + Render(send, Schedule(Row(groups[k], addresses), last))
  {
    assert groups[..k + 1][..k] == groups[..k];
    var done := Pairs(groups[..k], addresses);
    assert Pairs(groups[..k + 1], addresses) == done + Row(groups[k], addresses);
    ScheduleAppend(done, Row(groups[k], addresses), last);
    RenderAppend(send, Schedule(done, last), Schedule(Row(groups[k], addresses), last));
  }

  /** The inner loop of the batch: every address of one group, in order. */
  method SendRow(wc: Control.Switch, board: Control.Board, group: int, addresses: seq<int>, on: bool,
                 retries: int, last: (int, int))
    modifies board
    ensures board.log == old(board.log) + Render(Sender(wc.pin, on, retries), Schedule(Row(group, addresses), last))
  {
    ghost var send := Sender(wc.pin, on, retries);
    RowStart(send, group, addresses, last);
    for ai := 0 to |addresses|
      invariant board.log == old(board.log) + Render(send, Schedule(Row(group, addresses[..ai]), last))
    {
      ghost var before := board.log;
      SendPair(wc, board, group, addresses[ai], on, retries, last);
      RowStep(send, group, addresses, ai, last);
      Extend(old(board.log), before, board.log,
             Render(send, Schedule(Row(group, addresses[..ai]), last)),
             Render(send, Schedule(Row(group, addresses[..ai + 1]), last)),
             StepEvents(send, (group, addresses[ai]), last));
    }
    assert addresses[..|addresses|] == addresses;
  }

  lemma RowStart(send: (int, int) -> seq<Event>, group: int, addresses: seq<int>, last: (int, int))
    ensures Render(send, Schedule(Row(group, addresses[..0]), last)) == []
  {
    assert Row(group, addresses[..0]) == [];
  }

  /** Sending one more address extends the rendered row by that pair's events. */
  lemma RowStep(send: (int, int) -> seq<Event>, group: int, addresses: seq<int>, k: int, last: (int, int))
    requires 0 <= k < |addresses|
    ensures Render(send, Schedule(Row(group, addresses[..k + 1]), last))
         == Render(send, Schedule(Row(group, addresses[..k]), last)) + StepEvents(send, (group, addresses[k]), last)
  {
    RowSnoc(group, addresses, k);
    ScheduleSnoc(Row(group, addresses[..k]), (group, addresses[k]), last);
    RenderStep(send, Schedule(Row(group, addresses[..k]), last), (group, addresses[k]), last);
  }

  lemma Extend(base: seq<Event>, log0: seq<Event>, log1: seq<Event>, r0: seq<Event>, r1: seq<Event>, e: seq<Event>)
    requires log0 == base + r0 && log1 == log0 + e && r1 == r0 + e
    ensures log1 == base + r1
  {
  }
}
