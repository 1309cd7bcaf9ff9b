/**
 * What a transmission does to the outside world, as a sequence of events.
 *
 * The GPIO library calls and the sleeps of the controller are recorded as
 * `Event`s; a hold is the number of microseconds slept.  The functions here
 * are the specification of the pulse train that `Switch.Set` produces: every
 * symbol of the frame becomes "output 1, hold high, output 0, hold low",
 * every frame is followed by the inter-frame gap, and the frame is sent
 * `retries` times.
 */
module Pulses {
  import Timing
  import Protocol

  datatype Event =
    | Configure                  // setwarnings(False) and setmode(BCM)
    | SetupOutput(pin: int)      // setup(pin, OUT)
    | Out(pin: int, high: bool)  // output(pin, 1) or output(pin, 0)
    | Hold(us: int)              // sleep, in microseconds

  /** The pulse of one frame symbol: anything other than '1' gets the timing of a 0. */
  function BitPulse(pin: int, symbol: char): (e: seq<Event>)
    ensures |e| == 4 && e[0] == Out(pin, true) && e[2] == Out(pin, false)
    ensures e[1].Hold? && e[3].Hold? && e[1].us + e[3].us == Timing.BitHold
    ensures symbol == '1' <==> e[1].us < e[3].us
  {
    var d := Timing.Delay(symbol == '1');
    [Out(pin, true), Hold(d.high), Out(pin, false), Hold(d.low)]
  }

  /** The pulses of all symbols of a frame, in order. */
  function FramePulses(pin: int, frame: string): (e: seq<Event>)
    ensures |e| == 4 * |frame|
  {
    if frame == [] then [] else FramePulses(pin, frame[..|frame| - 1]) + BitPulse(pin, frame[|frame| - 1])
  }

  /** One copy of the frame followed by the inter-frame gap. */
  function Burst(pin: int, frame: string): (e: seq<Event>)
    ensures |e| == 4 * |frame| + 1 && e[|e| - 1] == Hold(Timing.MsgGap)
  {
    FramePulses(pin, frame) + [Hold(Timing.MsgGap)]
  }

  /** `retries` bursts one after the other; a count of zero or less sends nothing. */
  function Transmission(pin: int, frame: string, retries: int): seq<Event>
    decreases retries
  {
    if retries <= 0 then [] else Transmission(pin, frame, retries - 1) + Burst(pin, frame)
  }

  /** Total time slept over a sequence of events. */
  function HoldTime(events: seq<Event>): int {
    if events == [] then 0
    else
      var last := events[|events| - 1];
      HoldTime(events[..|events| - 1]) + (if last.Hold? then last.us else 0)
  }

  /** Python's `b == '1'` applied to every symbol: what the timing of each pulse encodes. */
  function Binarize(s: string): (t: string)
    ensures |t| == |s| && Protocol.IsBinary(t)
  {
    seq(|s|, i requires 0 <= i < |s| => if s[i] == '1' then '1' else '0')
  }

  /** A receiver's reading of one four-event pulse: a 1 has the shorter high phase. */
  function SymbolOf(pulse: seq<Event>): char
    requires |pulse| == 4
  {
    if pulse[1].Hold? && pulse[3].Hold? && pulse[1].us < pulse[3].us then '1' else '0'
  }

  /** A receiver's reading of a pulse train, four events per symbol. */
  function Demodulate(events: seq<Event>): seq<char> {
    if |events| < 4 then [] else Demodulate(events[..|events| - 4]) + [SymbolOf(events[|events| - 4..])]
  }

  lemma {:induction false} HoldTimeAppend(a: seq<Event>, b: seq<Event>)
    ensures HoldTime(a + b) == HoldTime(a) + HoldTime(b)
    decreases |b|
  {
    if b != [] {
      var n := |b| - 1;
      assert (a + b)[..|a + b| - 1] == a + b[..n];
      HoldTimeAppend(a, b[..n]);
    } else {
      assert a + b == a;
    }
  }

  lemma HoldTimeSingle(e: Event)
    ensures HoldTime([e]) == if e.Hold? then e.us else 0
  {
    assert [e][..0] == [];
  }

  /** Every symbol holds the line for the same 1028 us, whatever its value. */
  lemma {:induction false} FramePulsesHoldTime(pin: int, frame: string)
    ensures HoldTime(FramePulses(pin, frame)) == |frame| * Timing.BitHold
  {
    if frame != [] {
      var n := |frame| - 1;
      FramePulsesHoldTime(pin, frame[..n]);
      HoldTimeAppend(FramePulses(pin, frame[..n]), BitPulse(pin, frame[n]));
      var p := BitPulse(pin, frame[n]);
      assert p == [p[0]] + [p[1]] + [p[2]] + [p[3]];
      HoldTimeAppend([p[0]] + [p[1]] + [p[2]], [p[3]]);
      HoldTimeAppend([p[0]] + [p[1]], [p[2]]);
      HoldTimeAppend([p[0]], [p[1]]);
      HoldTimeSingle(p[0]);
      HoldTimeSingle(p[1]);
      HoldTimeSingle(p[2]);
      HoldTimeSingle(p[3]);
    }
  }

  /** The symbol at position k of the frame is sent as events 4k to 4k+3. */
  lemma {:induction false} FramePulsesAt(pin: int, frame: string, k: int)
    requires 0 <= k < |frame|
    ensures FramePulses(pin, frame)[4 * k..4 * k + 4] == BitPulse(pin, frame[k])
  {
    var n := |frame| - 1;
    var pre := FramePulses(pin, frame[..n]);
    if k < n {
      FramePulsesAt(pin, frame[..n], k);
      assert FramePulses(pin, frame)[4 * k..4 * k + 4] == pre[4 * k..4 * k + 4];
    } else {
      assert FramePulses(pin, frame)[4 * k..4 * k + 4] == BitPulse(pin, frame[n]);
    }
  }

  /** Reading the pulses of a frame back gives the frame as `set` saw it: '1' or not. */
  lemma {:induction false} DemodulatePulses(pin: int, frame: string)
    ensures Demodulate(FramePulses(pin, frame)) == Binarize(frame)
  {
    if frame != [] {
      var n := |frame| - 1;
      var prefix, pulse := FramePulses(pin, frame[..n]), BitPulse(pin, frame[n]);
      assert FramePulses(pin, frame) == prefix + pulse;
      DemodulatePulses(pin, frame[..n]);
      DemodulateSnoc(prefix, pulse);
      assert SymbolOf(pulse) == if frame[n] == '1' then '1' else '0';
      BinarizeSnoc(frame);
    }
  }

  lemma DemodulateSnoc(e: seq<Event>, p: seq<Event>)
    requires |p| == 4
    ensures Demodulate(e + p) == Demodulate(e) + [SymbolOf(p)]
  {
    var f := e + p;
    assert f[..|f| - 4] == e;
    assert f[|f| - 4..] == p;
  }

  lemma BinarizeSnoc(s: string)
    requires |s| > 0
    ensures Binarize(s) == Binarize(s[..|s| - 1]) + [if s[|s| - 1] == '1' then '1' else '0']
  {
  }

  /** A frame of bits is recovered exactly from its pulses: the pulse code loses nothing. */
  lemma DemodulateFrame(pin: int, frame: string)
    requires Protocol.IsBinary(frame)
    ensures Demodulate(FramePulses(pin, frame)) == frame
  {
    DemodulatePulses(pin, frame);
    assert Binarize(frame) == frame;
  }

  /** Frames that agree on where their '1's are produce the same pulses. */
  lemma {:induction false} SamePulses(pin: int, s: string, t: string)
    requires Binarize(s) == Binarize(t)
    ensures FramePulses(pin, s) == FramePulses(pin, t)
  {
    if s != [] {
      var n := |s| - 1;
      assert Binarize(s[..n]) == Binarize(s)[..n] == Binarize(t)[..n] == Binarize(t[..n]);
      SamePulses(pin, s[..n], t[..n]);
      assert (s[n] == '1') == (Binarize(s)[n] == '1') == (t[n] == '1');
    }
  }

  /** One transmission is `retries` bursts of 4 events per symbol plus the gap. */
  lemma {:induction false} TransmissionLength(pin: int, frame: string, retries: int)
    ensures |Transmission(pin, frame, retries)| == (if retries <= 0 then 0 else retries) * (4 * |frame| + 1)
    decreases retries
  {
    if retries > 0 {
      TransmissionLength(pin, frame, retries - 1);
    }
  }

  /** Burst i of a transmission sits at offset i * |burst|: every repetition is the same block. */
  lemma {:induction false} TransmissionAt(pin: int, frame: string, retries: int, i: int, j: int)
    requires 0 <= i < retries && 0 <= j < |Burst(pin, frame)|
    ensures i * |Burst(pin, frame)| + j < |Transmission(pin, frame, retries)|
    ensures Transmission(pin, frame, retries)[i * |Burst(pin, frame)| + j] == Burst(pin, frame)[j]
    decreases retries
  {
    var b := |Burst(pin, frame)|;
    var prev := Transmission(pin, frame, retries - 1);
    TransmissionLength(pin, frame, retries - 1);
    TransmissionLength(pin, frame, retries);
    assert |prev| == (retries - 1) * b;
    if i < retries - 1 {
      TransmissionAt(pin, frame, retries - 1, i, j);
    } else {
      assert i * b + j == |prev| + j;
    }
    assert i * b + j < retries * b by {
      assert i * b + j < i * b + b == (i + 1) * b;
      assert (i + 1) * b <= retries * b;
    }
  }

  /** Every burst, including the last, ends with the inter-frame gap. */
  lemma TransmissionEndsWithGap(pin: int, frame: string, retries: int)
    requires retries > 0
    ensures |Transmission(pin, frame, retries)| > 0
    ensures Transmission(pin, frame, retries)[|Transmission(pin, frame, retries)| - 1] == Hold(Timing.MsgGap)
  {
  }

  /** Time slept by a transmission: per burst, 1028 us per symbol plus the 19920 us gap. */
  lemma {:induction false} TransmissionHoldTime(pin: int, frame: string, retries: int)
    ensures HoldTime(Transmission(pin, frame, retries))
         == (if retries <= 0 then 0 else retries) * (|frame| * Timing.BitHold + Timing.MsgGap)
    decreases retries
  {
    if retries > 0 {
      var per := |frame| * Timing.BitHold + Timing.MsgGap;
      var prev, burst := Transmission(pin, frame, retries - 1), Burst(pin, frame);
      assert Transmission(pin, frame, retries) == prev + burst;
      TransmissionHoldTime(pin, frame, retries - 1);
      HoldTimeAppend(prev, burst);
      BurstHoldTime(pin, frame);
      MulStep(retries, per);
    }
  }

  lemma BurstHoldTime(pin: int, frame: string)
    ensures HoldTime(Burst(pin, frame)) == |frame| * Timing.BitHold + Timing.MsgGap
  {
    HoldTimeAppend(FramePulses(pin, frame), [Hold(Timing.MsgGap)]);
    FramePulsesHoldTime(pin, frame);
    HoldTimeSingle(Hold(Timing.MsgGap));
  }

  lemma MulStep(r: int, x: int)
    ensures r * x == (r - 1) * x + x
  {
  }

  /** For in-range commands a transmission sleeps retries * (25 * 1028 + 19920) us in all. */
  lemma FrameTransmissionTime(pin: int, group: int, on: bool, address: int, retries: nat)
    requires Protocol.InRange(group, address)
    ensures HoldTime(Transmission(pin, Protocol.Frame(group, on, address), retries)) == retries * 45620
  {
    Protocol.FrameLayout(group, on, address);
    TransmissionHoldTime(pin, Protocol.Frame(group, on, address), retries);
  }

  lemma {:induction false} SameTransmission(pin: int, s: string, t: string, retries: int)
    requires FramePulses(pin, s) == FramePulses(pin, t)
    ensures Transmission(pin, s, retries) == Transmission(pin, t, retries)
    decreases retries
  {
    if retries > 0 {
      SameTransmission(pin, s, t, retries - 1);
    }
  }

  /**
   * Nothing checks the sign of the group: a negative group -g with g < 512
   * puts a minus sign where the leading zero of g would be, and since `set`
   * sends every symbol other than '1' as a 0, the switch receives exactly the
   * transmission of group g.
   */
  lemma NegativeGroupAliases(pin: int, group: int, on: bool, address: int, retries: int)
    requires 0 < group < 512 && 0 <= address < 8
    ensures Protocol.Frame(-group, on, address) != Protocol.Frame(group, on, address)
    ensures Transmission(pin, Protocol.Frame(-group, on, address), retries)
         == Transmission(pin, Protocol.Frame(group, on, address), retries)
  {
    var s, t := Protocol.Frame(-group, on, address), Protocol.Frame(group, on, address);
    Protocol.NegativeGroupFrame(group, on, address);
    BinarizeIgnoresNonOne(s, t, 10);
    SamePulses(pin, s, t);
    SameTransmission(pin, s, t, retries);
  }

  lemma BinarizeIgnoresNonOne(s: string, t: string, k: int)
    requires |s| == |t| && 0 <= k < |s|
    requires s[k] != '1' && t[k] != '1'
    requires s[..k] == t[..k] && s[k + 1..] == t[k + 1..]
    ensures Binarize(s) == Binarize(t)
  {
    forall i | 0 <= i < |s|
      ensures Binarize(s)[i] == Binarize(t)[i]
    {
      if i < k {
        assert s[i] == s[..k][i];
      } else if i > k {
        assert s[i] == s[k + 1..][i - k - 1];
        assert t[i] == t[k + 1..][i - k - 1];
      }
    }
  }
}
