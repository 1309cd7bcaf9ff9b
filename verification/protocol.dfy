/**
 * The Watts Clever message frame.
 *
 * The controller builds every message from the format string
 * '0011010011{:010b}{:01b}{:03b}1': a fixed preamble, the group as a
 * zero-padded binary field of width 10, the value bit (0 for "on", 1 for
 * "off"), the address as a zero-padded binary field of width 3 and a stop
 * bit.  Python's fixed-width binary formatting pads but never truncates, and
 * writes a negative number as a minus sign followed by the padded digits of
 * its magnitude; `Format` models exactly that.
 */
module Protocol {
  import opened Wrappers

  const Preamble: string := "0011010011"
  const GroupWidth: nat := 10
  const ValueWidth: nat := 1
  const AddressWidth: nat := 3
  /** 10 preamble + 10 group + 1 value + 3 address + 1 stop symbols. */
  const FrameLength: nat := 25

  function Pow2(k: nat): (r: nat)
    ensures r >= 1
  {
    if k == 0 then 1 else 2 * Pow2(k - 1)
  }

  function Digit(b: nat): char
    requires b < 2
  {
    if b == 0 then '0' else '1'
  }

  predicate IsBinary(s: string) {
    forall i :: 0 <= i < |s| ==> s[i] == '0' || s[i] == '1'
  }

  /** Python's format(n, 'b') for n >= 0: the shortest binary form, "0" for zero. */
  function Binary(n: nat): (s: string)
    ensures |s| >= 1
  {
    if n < 2 then [Digit(n)] else Binary(n / 2) + [Digit(n % 2)]
  }

  function Zeros(k: nat): (s: string)
    ensures |s| == k && forall i :: 0 <= i < k ==> s[i] == '0'
  {
    seq(k, _ => '0')
  }

  /** Python's '{:0wb}'.format(n): sign, then zeros, then digits, at least w symbols in all. */
  function Format(n: int, w: nat): (s: string)
    ensures |s| >= w
  {
    var sign := if n < 0 then "-" else "";
    var digits := Binary(if n < 0 then -n else n);
    var pad := if |sign| + |digits| < w then w - |sign| - |digits| else 0;
    sign + Zeros(pad) + digits
  }

  /** Reference definition: the k low-order bits of n, most significant first. */
  function Bits(n: nat, k: nat): (s: string)
    ensures |s| == k && IsBinary(s)
  {
    if k == 0 then [] else Bits(n / 2, k - 1) + [Digit(n % 2)]
  }

  /** Big-endian value of a string of bits; any symbol other than '1' counts as 0. */
  function Value(s: string): (v: nat)
    ensures v < Pow2(|s|)
  {
    if s == [] then 0 else 2 * Value(s[..|s| - 1]) + (if s[|s| - 1] == '1' then 1 else 0)
  }

  /** The wire polarity of the value field is the inverse of "on". */
  function ValueSymbol(on: bool): char {
    if on then '0' else '1'
  }

  /** PROTOCOL.format(group, 0 if on else 1, address). */
  function Frame(group: int, on: bool, address: int): (f: string)
    ensures |f| >= FrameLength && f[|f| - 1] == '1'
  {
    Preamble + Format(group, GroupWidth) + Format(if on then 0 else 1, ValueWidth)
      + Format(address, AddressWidth) + "1"
  }

  /** The arguments of one transmission request. */
  datatype Command = Command(group: int, on: bool, address: int)

  predicate InRange(group: int, address: int) {
    0 <= group < Pow2(GroupWidth) && 0 <= address < Pow2(AddressWidth)
  }

  /** A receiver's view of a frame: the inverse of `Frame` on well-formed frames. */
  function Decode(frame: string): (c: Option<Command>)
    ensures c.Some? ==> InRange(c.value.group, c.value.address)
    ensures c.Some? <==> |frame| == FrameLength && frame[..10] == Preamble
                         && IsBinary(frame) && frame[24] == '1'
  {
    if |frame| == FrameLength && frame[..10] == Preamble && IsBinary(frame) && frame[24] == '1'
    then Some(Command(Value(frame[10..20]), frame[20] == '0', Value(frame[21..24])))
    else None
  }

  lemma {:induction false} Pow2Monotone(i: nat, j: nat)
    requires i <= j
    ensures Pow2(i) <= Pow2(j)
  {
    if i < j {
      Pow2Monotone(i, j - 1);
    }
  }

  /** The shortest binary form is the reference encoding at its own width. */
  lemma {:induction false} BinaryIsBits(n: nat)
    ensures Binary(n) == Bits(n, |Binary(n)|)
    ensures n < Pow2(|Binary(n)|)
    ensures n >= 1 ==> Pow2(|Binary(n)| - 1) <= n
  {
    if n >= 2 {
      BinaryIsBits(n / 2);
    }
  }

  /** A leading zero does not change an encoding that already fits. */
  lemma {:induction false} BitsLeadingZero(n: nat, k: nat)
    requires n < Pow2(k)
    ensures Bits(n, k + 1) == "0" + Bits(n, k)
  {
    if k > 0 {
      BitsLeadingZero(n / 2, k - 1);
    }
  }

  lemma {:induction false} BitsLeadingZeros(n: nat, k: nat, j: nat)
    requires n < Pow2(k)
    ensures Bits(n, k + j) == Zeros(j) + Bits(n, k)
  {
    if j > 0 {
      BitsLeadingZeros(n, k, j - 1);
      Pow2Monotone(k, k + j - 1);
      BitsLeadingZero(n, k + j - 1);
      assert Zeros(j) == "0" + Zeros(j - 1);
    }
  }

  /** Reading back the reference encoding gives the number it encodes. */
  lemma {:induction false} ValueOfBits(n: nat, k: nat)
    requires n < Pow2(k)
    ensures Value(Bits(n, k)) == n
  {
    if k > 0 {
      ValueOfBits(n / 2, k - 1);
      var s := Bits(n, k);
      assert s[..k - 1] == Bits(n / 2, k - 1);
    }
  }

  /** Every string of bits is the reference encoding of its value. */
  lemma {:induction false} BitsOfValue(s: string)
    requires IsBinary(s)
    ensures Bits(Value(s), |s|) == s
  {
    if s != [] {
      var k := |s|;
      BitsOfValue(s[..k - 1]);
      assert s == s[..k - 1] + [s[k - 1]];
    }
  }

  /** A non-negative number's field is zero padding followed by its shortest binary form. */
  lemma FormatNonNegative(n: nat, w: nat)
    ensures Format(n, w) == Zeros(if |Binary(n)| < w then w - |Binary(n)| else 0) + Binary(n)
  {
    assert "" + Zeros(if |Binary(n)| < w then w - |Binary(n)| else 0)
        == Zeros(if |Binary(n)| < w then w - |Binary(n)| else 0);
  }

  /**
   * Fixed-width formatting only pads: for n >= 0 the field is all bits, at
   * least w long, reads back as n, and is exactly w long precisely when n fits.
   */
  lemma FormatPadsOnly(n: nat, w: nat)
    requires w >= 1
    ensures IsBinary(Format(n, w)) && |Format(n, w)| >= w
    ensures Value(Format(n, w)) == n
    ensures |Format(n, w)| == w <==> n < Pow2(w)
    ensures n < Pow2(w) ==> Format(n, w) == Bits(n, w)
  {
    var L := |Binary(n)|;
    var k := if L < w then w else L;
    FormatIsBits(n, w);
    assert n < Pow2(k) by {
      Pow2Monotone(L, k);
    }
    ValueOfBits(n, k);
    FitsIff(n, w);
  }

  /** A number fits w >= 1 bits exactly when its shortest binary form is at most w long. */
  lemma FitsIff(n: nat, w: nat)
    requires w >= 1
    ensures |Binary(n)| <= w <==> n < Pow2(w)
  {
    var L := |Binary(n)|;
    BinaryIsBits(n);
    if L <= w {
      Pow2Monotone(L, w);
    } else if n >= 1 {
      Pow2Monotone(w, L - 1);
    }
  }

  lemma FormatIsBits(n: nat, w: nat)
    ensures var L := |Binary(n)|;
            n < Pow2(L) && (n >= 1 ==> Pow2(L - 1) <= n)
            && Format(n, w) == Bits(n, if L < w then w else L)
  {
    var L := |Binary(n)|;
    var pad := if L < w then w - L else 0;
    FormatNonNegative(n, w);
    BinaryIsBits(n);
    BitsLeadingZeros(n, L, pad);
  }

  /** A negative number's field starts with a minus sign and is at least w long. */
  lemma FormatNegative(n: int, w: nat)
    requires n < 0
    ensures |Format(n, w)| >= w && Format(n, w)[0] == '-'
    ensures Format(n, w)[1..] == Format(-n, if w >= 1 then w - 1 else 0)
  {
    var m: nat := -n;
    FormatNonNegative(m, if w >= 1 then w - 1 else 0);
  }

  /** The five fields of a frame, each at its offset. */
  lemma FieldsAt(p: string, g: string, v: char, a: string, t: string)
    ensures var f := p + g + [v] + a + t;
            && |f| == |p| + |g| + 1 + |a| + |t|
            && f[..|p|] == p && f[|p|..|p| + |g|] == g && f[|p| + |g|] == v
            && f[|p| + |g| + 1..|p| + |g| + 1 + |a|] == a
            && f[|p| + |g| + 1 + |a|..] == t
  {
  }

  /** The value field is always the single inverted-polarity symbol. */
  lemma ValueField(on: bool)
    ensures Format(if on then 0 else 1, ValueWidth) == [ValueSymbol(on)]
  {
    FormatPadsOnly(if on then 0 else 1, ValueWidth);
  }

  /** For in-range inputs the frame is the 25-symbol layout of the wire format. */
  lemma FrameLayout(group: int, on: bool, address: int)
    requires InRange(group, address)
    ensures Frame(group, on, address)
         == Preamble + Bits(group, GroupWidth) + [ValueSymbol(on)] + Bits(address, AddressWidth) + "1"
    ensures |Frame(group, on, address)| == FrameLength
  {
    FormatPadsOnly(group, GroupWidth);
    FormatPadsOnly(address, AddressWidth);
    ValueField(on);
  }

  /** Decoding a frame built from in-range inputs gives those inputs back. */
  lemma DecodeFrame(group: int, on: bool, address: int)
    requires InRange(group, address)
    ensures Decode(Frame(group, on, address)) == Some(Command(group, on, address))
  {
    FrameLayout(group, on, address);
    var g, a := Bits(group, GroupWidth), Bits(address, AddressWidth);
    var f := Frame(group, on, address);
    FieldsAt(Preamble, g, ValueSymbol(on), a, "1");
    assert f[..10] == Preamble && f[10..20] == g && f[20] == ValueSymbol(on) && f[21..24] == a;
    LayoutIsBinary(g, on, a);
    ValueOfBits(group, GroupWidth);
    ValueOfBits(address, AddressWidth);
  }

  lemma LayoutIsBinary(g: string, on: bool, a: string)
    requires IsBinary(g) && IsBinary(a)
    ensures IsBinary(Preamble + g + [ValueSymbol(on)] + a + "1")
  {
    assert IsBinary(Preamble);
    BinaryConcat(Preamble, g);
    BinaryConcat(Preamble + g, [ValueSymbol(on)]);
    BinaryConcat(Preamble + g + [ValueSymbol(on)], a);
    BinaryConcat(Preamble + g + [ValueSymbol(on)] + a, "1");
  }

  lemma BinaryConcat(s: string, t: string)
    requires IsBinary(s) && IsBinary(t)
    ensures IsBinary(s + t)
  {
  }

  /** Every frame the decoder accepts is the frame of what it decodes to. */
  lemma FrameOfDecode(frame: string)
    requires Decode(frame).Some?
    ensures Frame(Decode(frame).value.group, Decode(frame).value.on, Decode(frame).value.address) == frame
  {
    var c := Decode(frame).value;
    var g, a := frame[10..20], frame[21..24];
    assert IsBinary(g) && IsBinary(a) && frame[20] in "01";
    BitsOfValue(g);
    BitsOfValue(a);
    assert Frame(c.group, c.on, c.address) == Preamble + g + [frame[20]] + a + [frame[24]] by {
      FrameLayout(c.group, c.on, c.address);
    }
    Reassemble(frame);
  }

  lemma Reassemble(f: string)
    requires |f| == FrameLength
    ensures f == f[..10] + f[10..20] + [f[20]] + f[21..24] + [f[24]]
  {
  }

  /** Distinct in-range commands give distinct frames. */
  lemma FrameInjective(c1: Command, c2: Command)
    requires InRange(c1.group, c1.address) && InRange(c2.group, c2.address)
    requires Frame(c1.group, c1.on, c1.address) == Frame(c2.group, c2.on, c2.address)
    ensures c1 == c2
  {
    DecodeFrame(c1.group, c1.on, c1.address);
    DecodeFrame(c2.group, c2.on, c2.address);
  }

  /**
   * The frame is 25 symbols of bits exactly when group and address fit their
   * fields; a negative field brings a minus sign, a large one a longer frame.
   */
  lemma FrameWellFormedIff(group: int, on: bool, address: int)
    ensures (|Frame(group, on, address)| == FrameLength && IsBinary(Frame(group, on, address)))
        <==> InRange(group, address)
  {
    var f := Frame(group, on, address);
    var fg, fa := Format(group, GroupWidth), Format(address, AddressWidth);
    ValueField(on);
    FieldsAt(Preamble, fg, ValueSymbol(on), fa, "1");
    if InRange(group, address) {
      FrameLayout(group, on, address);
      LayoutIsBinary(Bits(group, GroupWidth), on, Bits(address, AddressWidth));
    } else if group < 0 {
      FormatNegative(group, GroupWidth);
      assert f[10] == fg[0] == '-';
    } else {
      FormatPadsOnly(group, GroupWidth);
      if address < 0 {
        FormatNegative(address, AddressWidth);
        assert f[11 + |fg|] == fa[0] == '-';
      } else {
        FormatPadsOnly(address, AddressWidth);
      }
    }
  }

  /**
   * For non-negative inputs nothing is truncated: the frame is never shorter
   * than 25 symbols, is exactly 25 when both fields fit, and its group and
   * address fields read back as the inputs whatever their size.
   */
  lemma FrameNeverTruncates(group: nat, on: bool, address: nat)
    ensures |Frame(group, on, address)| >= FrameLength
    ensures |Frame(group, on, address)| == FrameLength <==> InRange(group, address)
    ensures var lg := |Format(group, GroupWidth)|;
            var f := Frame(group, on, address);
            Value(f[10..10 + lg]) == group && Value(f[11 + lg..|f| - 1]) == address
  {
    var fg, fa := Format(group, GroupWidth), Format(address, AddressWidth);
    var f := Frame(group, on, address);
    FrameFields(group, on, address);
    assert |fg| >= 10 && Value(fg) == group && (|fg| == 10 <==> group < Pow2(GroupWidth)) by {
      FormatPadsOnly(group, GroupWidth);
    }
    assert |fa| >= 3 && Value(fa) == address && (|fa| == 3 <==> address < Pow2(AddressWidth)) by {
      FormatPadsOnly(address, AddressWidth);
    }
  }

  /** Where the group and address fields of any frame sit. */
  lemma FrameFields(group: int, on: bool, address: int)
    ensures var fg, fa := Format(group, GroupWidth), Format(address, AddressWidth);
            var f := Frame(group, on, address);
            && |f| == 12 + |fg| + |fa|
            && f[10..10 + |fg|] == fg && f[11 + |fg|..|f| - 1] == fa
  {
    var fg, fa := Format(group, GroupWidth), Format(address, AddressWidth);
    assert Frame(group, on, address) == Preamble + fg + [ValueSymbol(on)] + fa + "1" by {
      ValueField(on);
    }
    FieldsAt(Preamble, fg, ValueSymbol(on), fa, "1");
  }


  /** The frame of a group below 512: preamble, a leading '0', then the rest. */
  lemma SmallGroupFrame(group: int, on: bool, address: int)
    requires 0 <= group < 512 && 0 <= address < 8
    ensures Frame(group, on, address) == Preamble + "0" + FrameTail(group, on, address)
  {
    var b9, v, a := Bits(group, 9), ValueSymbol(on), Bits(address, AddressWidth);
    assert Frame(group, on, address) == Preamble + ("0" + b9) + [v] + a + "1" by {
      FormatPadsOnly(group, GroupWidth);
      BitsLeadingZero(group, 9);
      FormatPadsOnly(address, AddressWidth);
      ValueField(on);
    }
    Regroup(Preamble, '0', b9, v, a, "1");
  }

  /** The frame of -g for 0 < g < 512: preamble, a minus sign, then the rest of the frame of g. */
  lemma NegatedGroupFrame(group: int, on: bool, address: int)
    requires 0 < group < 512 && 0 <= address < 8
    ensures Frame(-group, on, address) == Preamble + "-" + FrameTail(group, on, address)
  {
    var b9, v, a := Bits(group, 9), ValueSymbol(on), Bits(address, AddressWidth);
    assert Frame(-group, on, address) == Preamble + ("-" + b9) + [v] + a + "1" by {
      NegativeFits(group, 9);
      FormatPadsOnly(address, AddressWidth);
      ValueField(on);
    }
    Regroup(Preamble, '-', b9, v, a, "1");
  }

  lemma Regroup(p: string, c: char, b: string, v: char, a: string, t: string)
    ensures p + ([c] + b) + [v] + a + t == p + [c] + (b + [v] + a + t)
  {
  }

  /** Everything after position 10 of a small group's frame. */
  function FrameTail(group: nat, on: bool, address: nat): string {
    Bits(group, 9) + [ValueSymbol(on)] + Bits(address, AddressWidth) + "1"
  }

  /**
   * A negative group -g with g < 512 differs from the frame of g in one
   * symbol only: a minus sign where g has its leading zero.
   */
  lemma NegativeGroupFrame(group: int, on: bool, address: int)
    requires 0 < group < 512 && 0 <= address < 8
    ensures var s, t := Frame(-group, on, address), Frame(group, on, address);
            && |s| == |t| == FrameLength
            && s[10] == '-' && t[10] == '0'
            && s[..10] == t[..10] && s[11..] == t[11..]
  {
    NegatedGroupFrame(group, on, address);
    SmallGroupFrame(group, on, address);
    var tail := FrameTail(group, on, address);
    SplitAfterPreamble('-', tail);
    SplitAfterPreamble('0', tail);
  }

  lemma SplitAfterPreamble(c: char, tail: string)
    ensures var f := Preamble + [c] + tail;
            |f| == 11 + |tail| && f[..10] == Preamble && f[10] == c && f[11..] == tail
  {
  }

  /** A negative number whose magnitude fits k bits takes k + 1 symbols: the sign and k bits. */
  lemma NegativeFits(m: nat, k: nat)
    requires 0 < m < Pow2(k) && k >= 1
    ensures Format(-(m as int), k + 1) == "-" + Bits(m, k)
  {
    var n: int := -(m as int);
    FormatNegative(n, k + 1);
    FormatPadsOnly(m, k);
    var f := Format(n, k + 1);
    assert f == [f[0]] + f[1..];
  }
}
