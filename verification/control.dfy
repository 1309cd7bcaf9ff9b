/**
 * The controller object, the GPIO board it drives and the per-pin cache.
 *
 * `Board` stands for the GPIO library and the clock: each call the
 * controller makes is appended to `log` as an `Event`.  `Switch` is the
 * controller for one pin; `Registry` is the process-wide map from pin number
 * to controller that `WCcontrol(pin)` fills lazily.
 */
module Control {
  import opened Wrappers
  import opened Pulses
  import Protocol
  import Timing

  /** Default output pin (BCM numbering) and default number of repetitions. */
  const DefaultPin: int := 4
  const DefaultRetries: int := 20

  /** What creating a controller does: set up the library, then the pin as an output. */
  function InitEvents(pin: int): seq<Event> {
    [Configure, SetupOutput(pin)]
  }

  /** The GPIO library and the clock, seen through the calls made to them. */
  class Board {
    var log: seq<Event>

    constructor ()
      ensures log == []
    {
      log := [];
    }

    method Configure()
      modifies this
      ensures log == old(log) + [Event.Configure]
    {
      log := log + [Event.Configure];
    }

    method SetupOutput(pin: int)
      modifies this
      ensures log == old(log) + [Event.SetupOutput(pin)]
    {
      log := log + [Event.SetupOutput(pin)];
    }

    method Output(pin: int, high: bool)
      modifies this
      ensures log == old(log) + [Out(pin, high)]
    {
      log := log + [Out(pin, high)];
    }

    method Sleep(us: int)
      modifies this
      ensures log == old(log) + [Hold(us)]
    {
      log := log + [Hold(us)];
    }
  }

  /** The controller of one output pin. */
  class Switch {
    const pin: int

    /**
     * The one-time setup guard tests a class flag that nothing ever sets, so
     * every new controller configures the library again before setting up
     * its pin.
     */
    constructor (board: Board, pin: int)
      modifies board
      ensures this.pin == pin
      ensures board.log == old(board.log) + InitEvents(pin)
    {
      this.pin := pin;
      board.Configure();
      board.SetupOutput(pin);
    }

    /** Send the frame of (group, on, address) `retries` times, each copy followed by the gap. */
    method Set(board: Board, group: int, address: int, on: bool, retries: int := DefaultRetries)
      modifies board
      ensures board.log == old(board.log) + Transmission(pin, Protocol.Frame(group, on, address), retries)
    {
      var msg := Protocol.Frame(group, on, address);
      Transmit(board, msg, retries);
    }

    /** One symbol: drive the pin high, hold, drive it low, hold, with the symbol's timing. */
    method SendSymbol(board: Board, symbol: char)
      modifies board
      ensures board.log == old(board.log) + BitPulse(pin, symbol)
    {
      var d := Timing.Delay(symbol == '1');
      board.Output(pin, true);
      board.Sleep(d.high);
      board.Output(pin, false);
      board.Sleep(d.low);
    }

    /** The outer loop of `Set`: `retries` copies of the message, each followed by the gap. */
    method Transmit(board: Board, msg: string, retries: int)
      modifies board
      ensures board.log == old(board.log) + Transmission(pin, msg, retries)
    {
      var n := 0;
      while n < retries
        invariant n <= retries || n == 0
        invariant board.log == old(board.log) + Transmission(pin, msg, n)
      {
        SendFrame(board, msg);
        board.Sleep(Timing.MsgGap);
        assert Transmission(pin, msg, n + 1) == Transmission(pin, msg, n) + Burst(pin, msg);
        n := n + 1;
      }
    }

    /** The inner loop of `Set`: every symbol of the message, in order. */
    method SendFrame(board: Board, msg: string)
      modifies board
      ensures board.log == old(board.log) + FramePulses(pin, msg)
    {
      var i := 0;
      while i < |msg|
        invariant 0 <= i <= |msg|
        invariant board.log == old(board.log) + FramePulses(pin, msg[..i])
      {
        SendSymbol(board, msg[i]);
        assert msg[..i + 1][..i] == msg[..i];
        i := i + 1;
      }
      assert msg[..|msg|] == msg;
    }
  }

  /** The pin number `WCcontrol` uses: an absent pin means the default pin. */
  function ResolvePin(pin: Option<int>): int {
    if pin.None? then DefaultPin else pin.value
  }

  /** The process-wide cache of controllers, keyed by pin number. */
  class Registry {
    var pins: map<int, Switch>

    /** Every cached controller drives the pin it is filed under. */
    ghost predicate Valid()
      reads this
    {
      forall p :: p in pins ==> pins[p].pin == p
    }

    constructor ()
      ensures Valid() && pins == map[]
    {
      pins := map[];
    }

    /**
     * WCcontrol(pin): the cached controller for the pin if there is one,
     * otherwise a new one, which is cached.  Only a new controller touches
     * the board.
     */
    method Lookup(board: Board, pin: Option<int>) returns (s: Switch)
      requires Valid()
      modifies this, board
      ensures Valid()
      ensures s.pin == ResolvePin(pin)
      ensures ResolvePin(pin) in old(pins) ==>
                s == old(pins)[ResolvePin(pin)] && pins == old(pins) && board.log == old(board.log)
      ensures ResolvePin(pin) !in old(pins) ==>
                fresh(s) && pins == old(pins)[ResolvePin(pin) := s]
                && board.log == old(board.log) + InitEvents(ResolvePin(pin))
    {
      var p := ResolvePin(pin);
      if p in pins {
        s := pins[p];
      } else {
        s := new Switch(board, p);
        pins := pins[p := s];
      }
    }
  }

  /** Asking twice for the same pin gives the same controller, set up once. */
  method LookupTwice(reg: Registry, board: Board, pin: Option<int>) returns (s1: Switch, s2: Switch)
    requires reg.Valid()
    modifies reg, board
    ensures reg.Valid()
    ensures s1 == s2 && s1.pin == ResolvePin(pin)
    ensures |reg.pins| == |old(reg.pins)| + (if ResolvePin(pin) in old(reg.pins) then 0 else 1)
    ensures reg.pins == old(reg.pins)[ResolvePin(pin) := s1]
    ensures ResolvePin(pin) in old(reg.pins) ==> s1 == old(reg.pins)[ResolvePin(pin)]
    ensures board.log == old(board.log)
              + (if ResolvePin(pin) in old(reg.pins) then [] else InitEvents(ResolvePin(pin)))
  {
    s1 := reg.Lookup(board, pin);
    s2 := reg.Lookup(board, pin);
  }

  /**
   * WCcontrol() and WCcontrol(4) name the same controller: asking with no pin
   * and then with the default pin returns one instance, set up at most once.
   */
  method LookupDefault(reg: Registry, board: Board) returns (s1: Switch, s2: Switch)
    requires reg.Valid()
    modifies reg, board
    ensures reg.Valid()
    ensures s1 == s2 && s1.pin == DefaultPin
    ensures reg.pins == old(reg.pins)[DefaultPin := s1]
    ensures DefaultPin in old(reg.pins) ==> s1 == old(reg.pins)[DefaultPin]
    ensures board.log == old(board.log) + (if DefaultPin in old(reg.pins) then [] else InitEvents(DefaultPin))
  {
    s1 := reg.Lookup(board, None);
    s2 := reg.Lookup(board, Some(DefaultPin));
  }

  /** `set` called without a retry count sends its frame 20 times. */
  method SetDefaultRetries(wc: Switch, board: Board, group: int, address: int, on: bool)
    modifies board
    ensures board.log == old(board.log) + Transmission(wc.pin, Protocol.Frame(group, on, address), 20)
  {
    wc.Set(board, group, address, on);
  }
}
