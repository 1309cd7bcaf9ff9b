/**
 * Pulse timing of the protocol, in whole microseconds.
 *
 * Each bit is a high phase followed by a low phase.  The nominal high time is
 * 938 us for a 0 and 407 us for a 1, the nominal bit period is 1188 us, and a
 * fixed latency correction of 80 us is taken off every hold to make up for
 * the time the output call itself takes.
 */
module Timing {
  /** Nominal high time of a 0 bit and of a 1 bit, in that order. */
  const BitOnTimes: seq<int> := [938, 407]
  const BitTotTime: int := 1188
  const Latency: int := 80
  /** What one bit holds in all: the period less one correction per phase. */
  const BitHold: int := BitTotTime - 2 * Latency

  /** The (high, low) hold pair of one bit, in microseconds. */
  datatype Pulse = Pulse(high: int, low: int)

  /** The hold pair derived from one nominal high time (one entry of the table). */
  function PulseFor(onTime: int): Pulse {
    Pulse(onTime - Latency, BitTotTime - Latency - onTime)
  }

  /** Inter-frame gap: 20 ms less the latency correction. */
  const MsgGap: int := 20 * 1000 - Latency

  /**
   * The hold pair for a bit.  Both phases are positive, the pair always
   * holds the same total, and a 1 is told from a 0 by a high phase shorter
   * than its low phase.
   */
  function Delay(one: bool): (p: Pulse)
    ensures p == if one then Pulse(327, 701) else Pulse(858, 170)
    ensures p.high > 0 && p.low > 0
    ensures p.high + p.low == BitHold == 1028
    ensures one <==> p.high < p.low
  {
    PulseFor(BitOnTimes[if one then 1 else 0])
  }
}
