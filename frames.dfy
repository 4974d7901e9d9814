/** Colors, their labels and the frames the LED reports, with the pure
    functions that describe the animated patterns (flash, fade). */
module Frames {
  import opened States

  /** The symbolic colors of the virtual LED. */
  datatype Color = Red | Yellow | Blue | White | Off

  datatype Option<T> = None | Some(value: T)

  /** The display label of a color. */
  function ColorToString(c: Color): (s: string)
    ensures ColorOfLabel(s) == Some(c)
  {
    match c
    case Red => "red"
    case Yellow => "yellow"
    case Blue => "blue"
    case White => "white"
    case Off => "off"
  }

  /** The color a label names, if any: the inverse of ColorToString. */
  function ColorOfLabel(s: string): (c: Option<Color>)
  {
    if s == "red" then Some(Red)
    else if s == "yellow" then Some(Yellow)
    else if s == "blue" then Some(Blue)
    else if s == "white" then Some(White)
    else if s == "off" then Some(Off)
    else None
  }

  /** A label that names a color is that color's own label. */
  lemma LabelNamesItsColor(s: string, c: Color)
    requires ColorOfLabel(s) == Some(c)
    ensures ColorToString(c) == s
  {
  }

  /** The five colors have five distinct labels. */
  lemma {:induction false} ColorLabelsDistinct(c1: Color, c2: Color)
    ensures ColorToString(c1) == ColorToString(c2) <==> c1 == c2
  {
    if ColorToString(c1) == ColorToString(c2) {
      assert Some(c1) == ColorOfLabel(ColorToString(c1)) == ColorOfLabel(ColorToString(c2)) == Some(c2);
    }
  }

  /** What caused a frame: the axis and the event named at the head of the line. */
  datatype Event =
    | SystemEvent(system: SystemState)
    | PlaybackEvent(playback: PlaybackState)
    | BluetoothEvent(bluetooth: BluetoothState)
    | VolumeChanged
    | PlayingAndConnected

  /** One reported line: a rendered output (color, optionally its luminance),
      or a note that the event is not visually represented. */
  datatype Frame =
    | Shown(event: Event, color: Color, luminance: Option<int>)
    | NotAsserted(event: Event)

  /** `n` copies of `block`, one after the other. */
  function Repeat(block: seq<Frame>, n: nat): (r: seq<Frame>)
  {
    if n == 0 then [] else Repeat(block, n - 1) + block
  }

  /** The repetition is `n` times as long as the block. */
  lemma {:induction false} RepeatLength(block: seq<Frame>, n: nat)
    ensures |Repeat(block, n)| == n * |block|
  {
    if n > 0 {
      RepeatLength(block, n - 1);
      assert n * |block| == (n - 1) * |block| + |block|;
    }
  }

  /** Frame `j * |block| + k` of the repetition is frame `k` of the block. */
  lemma {:induction false} RepeatAt(block: seq<Frame>, n: nat, j: nat, k: nat)
    requires j < n && k < |block|
    ensures j * |block| + k < |Repeat(block, n)|
    ensures Repeat(block, n)[j * |block| + k] == block[k]
  {
    var m := |block|;
    var prefix := Repeat(block, n - 1);
    RepeatLength(block, n - 1);
    assert |prefix| == (n - 1) * m;
    assert n * m == (n - 1) * m + m;
    if j < n - 1 {
      assert j * m + m <= (n - 1) * m by { MulMonotone(m, j + 1, n - 1); }
      RepeatAt(block, n - 1, j, k);
      assert Repeat(block, n)[j * m + k] == prefix[j * m + k];
    } else {
      assert Repeat(block, n)[j * m + k] == block[k];
    }
  }

  /** Number of loop iterations of a flash pattern at `frequencyHz`: the loop
      runs while the counter is below `2 * frequencyHz`, so not at all when
      the frequency is not positive. */
  function FlashIterations(frequencyHz: int): (n: nat)
  {
    if frequencyHz < 1 then 0 else 2 * frequencyHz
  }

  /** Each sleep of a flash iteration, in milliseconds (integer division). */
  function HalfPeriod(frequencyHz: int): (ms: nat)
    requires frequencyHz >= 1
    ensures ms <= 500
  {
    1000 / (2 * frequencyHz)
  }

  /** Time slept by the first `i` iterations of a flash pattern: two sleeps each. */
  function FlashSleep(frequencyHz: int, i: nat): (ms: nat)
  {
    if i == 0 || frequencyHz < 1 then 0 else FlashSleep(frequencyHz, i - 1) + 2 * HalfPeriod(frequencyHz)
  }

  /** Total sleeping time of a flash pattern. */
  function FlashDuration(frequencyHz: int): (ms: nat)
  {
    FlashSleep(frequencyHz, FlashIterations(frequencyHz))
  }

  /** The first `i` iterations sleep `i` times two half periods. */
  lemma {:induction false} FlashSleepLinear(frequencyHz: int, i: nat)
    requires frequencyHz >= 1
    ensures FlashSleep(frequencyHz, i) == i * (2 * HalfPeriod(frequencyHz))
  {
    if i > 0 {
      FlashSleepLinear(frequencyHz, i - 1);
      assert i * (2 * HalfPeriod(frequencyHz)) == (i - 1) * (2 * HalfPeriod(frequencyHz)) + 2 * HalfPeriod(frequencyHz);
    }
  }

  /** The flash pattern sleeps 2000 ms less four times the remainder of 500
      by the frequency; thus exactly 2000 ms at 1 Hz and 2 Hz, and never more. */
  lemma FlashDurationExact(frequencyHz: int)
    requires frequencyHz >= 1
    ensures FlashDuration(frequencyHz) == 2000 - 4 * (500 % frequencyHz)
    ensures FlashDuration(frequencyHz) <= 2000
    ensures 500 % frequencyHz == 0 ==> FlashDuration(frequencyHz) == 2000
  {
    var f := frequencyHz;
    var q, r := 500 / f, 500 % f;
    assert f * q == 500 - r;
    HalfPeriodQuotient(f);
    FlashSleepLinear(f, 2 * f);
    assert FlashDuration(f) == (2 * f) * (2 * q) == 4 * (f * q);
  }

  /** A half period is the quotient of 500 by the frequency. */
  lemma HalfPeriodQuotient(frequencyHz: int)
    requires frequencyHz >= 1
    ensures HalfPeriod(frequencyHz) == 500 / frequencyHz
  {
    var f := frequencyHz;
    var q, r := 500 / f, 500 % f;
    assert 1000 == (2 * f) * q + 2 * r;
    DivUnique(1000, 2 * f, q, 2 * r);
  }

  /** Integer division is determined by quotient and remainder. */
  lemma DivUnique(a: int, d: int, q: int, r: int)
    requires d > 0 && 0 <= r < d && a == d * q + r
    ensures a / d == q
  {
    var q0, r0 := a / d, a % d;
    assert a == d * q0 + r0;
    if q0 > q {
      assert d * q0 >= d * (q + 1) by { MulMonotone(d, q + 1, q0); }
    } else if q0 < q {
      assert d * q >= d * (q0 + 1) by { MulMonotone(d, q0 + 1, q); }
    }
  }

  lemma MulMonotone(d: int, x: int, y: int)
    requires d >= 0 && x <= y
    ensures d * x <= d * y
  {
    assert d * y == d * x + d * (y - x);
  }

  /** The off/on pair that one iteration of the system flash reports. */
  function SystemFlashBlock(flashColor: Color, luminance: int): (block: seq<Frame>)
  {
    [Shown(SystemEvent(Updating), Off, None), Shown(SystemEvent(Updating), flashColor, Some(luminance))]
  }

  /** The off/on pair that one iteration of the Bluetooth flash reports: the
      color is not re-asserted, so the "on" line still reports off. */
  function BluetoothFlashBlock(luminance: int): (block: seq<Frame>)
  {
    [Shown(BluetoothEvent(Pairing), Off, None), Shown(BluetoothEvent(Pairing), Off, Some(luminance))]
  }

  /** The system flash reports 4 * frequencyHz frames, alternating between
      "off" (even positions) and the flash color at the luminance (odd positions). */
  lemma {:induction false} SystemFlashAlternates(flashColor: Color, luminance: int, frequencyHz: int)
    requires frequencyHz >= 1
    ensures |Repeat(SystemFlashBlock(flashColor, luminance), FlashIterations(frequencyHz))| == 4 * frequencyHz
    ensures forall j :: 0 <= j < 2 * frequencyHz ==>
      Repeat(SystemFlashBlock(flashColor, luminance), FlashIterations(frequencyHz))[2 * j]
        == Shown(SystemEvent(Updating), Off, None)
    ensures forall j :: 0 <= j < 2 * frequencyHz ==>
      Repeat(SystemFlashBlock(flashColor, luminance), FlashIterations(frequencyHz))[2 * j + 1]
        == Shown(SystemEvent(Updating), flashColor, Some(luminance))
  {
    var block, n := SystemFlashBlock(flashColor, luminance), FlashIterations(frequencyHz);
    RepeatLength(block, n);
    forall j | 0 <= j < 2 * frequencyHz
      ensures 2 * j + 1 < |Repeat(block, n)|
      ensures Repeat(block, n)[2 * j] == block[0]
      ensures Repeat(block, n)[2 * j + 1] == block[1]
    {
      RepeatAt(block, n, j, 0);
      RepeatAt(block, n, j, 1);
    }
  }

  /** Every frame of the Bluetooth flash reports the color off; the odd ones
      carry the luminance. There are 4 * frequencyHz of them. */
  lemma {:induction false} BluetoothFlashAllOff(luminance: int, frequencyHz: int)
    requires frequencyHz >= 1
    ensures |Repeat(BluetoothFlashBlock(luminance), FlashIterations(frequencyHz))| == 4 * frequencyHz
    ensures forall k :: 0 <= k < 4 * frequencyHz ==>
      Repeat(BluetoothFlashBlock(luminance), FlashIterations(frequencyHz))[k].Shown? &&
      Repeat(BluetoothFlashBlock(luminance), FlashIterations(frequencyHz))[k].color == Off
    ensures forall j :: 0 <= j < 2 * frequencyHz ==>
      Repeat(BluetoothFlashBlock(luminance), FlashIterations(frequencyHz))[2 * j + 1].luminance == Some(luminance)
  {
    var block, n := BluetoothFlashBlock(luminance), FlashIterations(frequencyHz);
    RepeatLength(block, n);
    forall k | 0 <= k < 4 * frequencyHz
      ensures Repeat(block, n)[k].Shown? && Repeat(block, n)[k].color == Off
    {
      RepeatAt(block, n, k / 2, k % 2);
    }
    forall j | 0 <= j < 2 * frequencyHz
      ensures Repeat(block, n)[2 * j + 1].luminance == Some(luminance)
    {
      RepeatAt(block, n, j, 1);
    }
  }

  /** The system "updating" flash (yellow, 100, 1 Hz): four frames, off and
      yellow@100 twice, sleeping 2000 ms in all. */
  lemma UpdatingFlash()
    ensures Repeat(SystemFlashBlock(Yellow, 100), FlashIterations(1)) ==
      [Shown(SystemEvent(Updating), Off, None), Shown(SystemEvent(Updating), Yellow, Some(100)),
       Shown(SystemEvent(Updating), Off, None), Shown(SystemEvent(Updating), Yellow, Some(100))]
    ensures FlashDuration(1) == 2000
  {
    FlashDurationExact(1);
  }

  /** The Bluetooth "pairing" flash (100, 2 Hz): eight frames, all reporting
      off, sleeping 2000 ms in all. */
  lemma PairingFlash()
    ensures |Repeat(BluetoothFlashBlock(100), FlashIterations(2))| == 8
    ensures forall k :: 0 <= k < 8 ==> Repeat(BluetoothFlashBlock(100), FlashIterations(2))[k].color == Off
    ensures FlashDuration(2) == 2000
  {
    BluetoothFlashAllOff(100, 2);
    FlashDurationExact(2);
  }

  /** The luminance values a fade-out writes, starting at `s`: s, s-1, ..., 0,
      and nothing when `s` is negative. */
  function Countdown(s: int): (r: seq<int>)
    decreases s
    ensures |r| == if s < 0 then 0 else s + 1
    ensures forall k :: 0 <= k < |r| ==> r[k] == s - k
  {
    if s < 0 then [] else [s] + Countdown(s - 1)
  }

  /** A fade-out from a non-negative start passes through every value down to
      0, strictly decreasing, starting at the start and ending at 0. */
  lemma CountdownShape(s: int)
    requires s >= 0
    ensures Countdown(s)[0] == s && Countdown(s)[|Countdown(s)| - 1] == 0
    ensures forall i, j :: 0 <= i < j < |Countdown(s)| ==> Countdown(s)[i] > Countdown(s)[j]
    ensures forall k :: 0 <= k < |Countdown(s)| ==> 0 <= Countdown(s)[k] <= s
  {
  }
}
