/** The virtual status LED: its rendered output (color, luminance), the
    last-known value of each state axis, and one update per axis. */
module LedApplication {
  import opened States
  import opened Frames

  /** A status LED. What it prints is kept as a ghost log of frames; the time
      it sleeps is added up in a ghost millisecond counter. The update methods
      change only `color`, `luminance` and these two ghost fields: the axis
      fields `system`, `playback` and `bluetooth` are written only by the
      constructor. */
  class Led {
    var system: SystemState
    var playback: PlaybackState
    var bluetooth: BluetoothState

    var color: Color
    var luminance: int

    ghost var log: seq<Frame>
    ghost var elapsed: nat

    /** Luminance within the 0..100 range the outputs are designed for. */
    ghost predicate InRange()
      reads this
    {
      0 <= luminance <= 100
    }

    constructor (systemState: SystemState, playbackState: PlaybackState, bluetoothState: BluetoothState)
      ensures system == systemState && playback == playbackState && bluetooth == bluetoothState
      ensures color == Off && luminance == 0 && InRange()
      ensures log == [] && elapsed == 0
    {
      system, playback, bluetooth := systemState, playbackState, bluetoothState;
      color, luminance := Off, 0;
      log, elapsed := [], 0;
    }

    method SetColor(newColor: Color)
      modifies this`color
      ensures color == newColor
    {
      color := newColor;
    }

    method SetLuminance(newLuminance: int)
      modifies this`luminance
      ensures luminance == newLuminance
    {
      luminance := newLuminance;
    }

    method GetColor() returns (c: Color)
      ensures c == color
    {
      c := color;
    }

    method GetLuminance() returns (l: int)
      ensures l == luminance
    {
      l := luminance;
    }

    /** Renders a system state: error and booting are a single red frame,
        updating flashes yellow at 1 Hz, ready is not represented. */
    method SystemUpdate(s: SystemState)
      modifies this`color, this`luminance, this`log, this`elapsed
      ensures unchanged(`system, `playback, `bluetooth)
      ensures s == Error ==> (
        color == Red && luminance == 100 && elapsed == old(elapsed)
        && log == old(log) + [Shown(SystemEvent(Error), Red, Some(100))])
      ensures s == Booting ==> (
        color == Red && luminance == 10 && elapsed == old(elapsed)
        && log == old(log) + [Shown(SystemEvent(Booting), Red, Some(10))])
      ensures s == Updating ==> (
        color == Yellow && luminance == 100
        && log == old(log) + Repeat(SystemFlashBlock(Yellow, 100), FlashIterations(1))
        && elapsed == old(elapsed) + FlashDuration(1))
      ensures s == Ready ==> (
        color == old(color) && luminance == old(luminance) && elapsed == old(elapsed)
        && log == old(log) + [NotAsserted(SystemEvent(Ready))])
      ensures old(InRange()) ==> InRange()
    {
      match s
      case Error =>
        SetColor(Red);
        SetLuminance(100);
        log := log + [Shown(SystemEvent(Error), color, Some(luminance))];
      case Updating =>
        FlashingEffectSystemUpdate(Yellow, 100, 1);
      case Booting =>
        SetColor(Red);
        SetLuminance(10);
        log := log + [Shown(SystemEvent(Booting), color, Some(luminance))];
      case Ready =>
        log := log + [NotAsserted(SystemEvent(Ready))];
    }

    /** Renders a playback state: inactive turns the LED off and keeps the
        luminance, playing is white at 10, paused is white at 50. */
    method PlaybackUpdate(p: PlaybackState)
      modifies this`color, this`luminance, this`log
      ensures unchanged(`system, `playback, `bluetooth)
      ensures p == PlaybackState.Inactive ==> (
        color == Off && luminance == old(luminance)
        && log == old(log) + [Shown(PlaybackEvent(PlaybackState.Inactive), Off, None)])
      ensures p == Playing ==> (
        color == White && luminance == 10
        && log == old(log) + [Shown(PlaybackEvent(Playing), White, Some(10))])
      ensures p == Paused ==> (
        color == White && luminance == 50
        && log == old(log) + [Shown(PlaybackEvent(Paused), White, Some(50))])
      ensures old(InRange()) ==> InRange()
    {
      match p
      case Inactive =>
        SetColor(Off);
        log := log + [Shown(PlaybackEvent(PlaybackState.Inactive), color, None)];
      case Playing =>
        SetColor(White);
        SetLuminance(10);
        log := log + [Shown(PlaybackEvent(Playing), color, Some(luminance))];
      case Paused =>
        SetColor(White);
        SetLuminance(50);
        log := log + [Shown(PlaybackEvent(Paused), color, Some(luminance))];
    }

    /** Renders a Bluetooth state: pairing flashes at 2 Hz, connected is blue
        at 10, inactive is not represented. */
    method BluetoothUpdate(b: BluetoothState)
      modifies this`color, this`luminance, this`log, this`elapsed
      ensures unchanged(`system, `playback, `bluetooth)
      ensures b == Pairing ==> (
        color == Off && luminance == 100
        && log == old(log) + Repeat(BluetoothFlashBlock(100), FlashIterations(2))
        && elapsed == old(elapsed) + FlashDuration(2))
      ensures b == Connected ==> (
        color == Blue && luminance == 10 && elapsed == old(elapsed)
        && log == old(log) + [Shown(BluetoothEvent(Connected), Blue, Some(10))])
      ensures b == BluetoothState.Inactive ==> (
        color == old(color) && luminance == old(luminance)
        && elapsed == old(elapsed)
        && log == old(log) + [NotAsserted(BluetoothEvent(BluetoothState.Inactive))])
      ensures old(InRange()) ==> InRange()
    {
      match b
      case Pairing =>
        FlashingEffectBluetoothUpdate(Blue, 100, 2);
      case Connected =>
        SetColor(Blue);
        SetLuminance(10);
        log := log + [Shown(BluetoothEvent(Connected), color, Some(luminance))];
      case Inactive =>
        log := log + [NotAsserted(BluetoothEvent(BluetoothState.Inactive))];
    }

    /** Toggles between off and `flashColor` at `flashLuminance`, 2 * frequencyHz
        times, sleeping HalfPeriod after each half. The loop bound
        `frequencyHz * 2` is a 32-bit int in the source, so it must not overflow. */
    method FlashingEffectSystemUpdate(flashColor: Color, flashLuminance: int, frequencyHz: int)
      requires -0x4000_0000 <= frequencyHz < 0x4000_0000
      modifies this`color, this`luminance, this`log, this`elapsed
      ensures unchanged(`system, `playback, `bluetooth)
      ensures frequencyHz >= 1 ==> color == flashColor && luminance == flashLuminance
      ensures old(InRange()) && 0 <= flashLuminance <= 100 ==> InRange()
      ensures frequencyHz < 1 ==> color == old(color) && luminance == old(luminance)
      ensures log == old(log) + Repeat(SystemFlashBlock(flashColor, flashLuminance), FlashIterations(frequencyHz))
      ensures elapsed == old(elapsed) + FlashDuration(frequencyHz)
    {
      ghost var block := SystemFlashBlock(flashColor, flashLuminance);
      var i := 0;
      while i < frequencyHz * 2
        invariant 0 <= i <= FlashIterations(frequencyHz)
        invariant i == 0 ==> color == old(color) && luminance == old(luminance)
        invariant i > 0 ==> color == flashColor && luminance == flashLuminance
        invariant log == old(log) + Repeat(block, i)
        invariant elapsed == old(elapsed) + FlashSleep(frequencyHz, i)
      {
        SetColor(Off);
        log := log + [Shown(SystemEvent(Updating), color, None)];
        elapsed := elapsed + HalfPeriod(frequencyHz);
        SetColor(flashColor);
        SetLuminance(flashLuminance);
        log := log + [Shown(SystemEvent(Updating), color, Some(luminance))];
        elapsed := elapsed + HalfPeriod(frequencyHz);
        assert log == old(log) + Repeat(block, i + 1);
        i := i + 1;
      }
    }

    /** The Bluetooth variant of the flash: each iteration turns the LED off
        and then sets only the luminance, so `flashColor` is never shown. */
    method FlashingEffectBluetoothUpdate(flashColor: Color, flashLuminance: int, frequencyHz: int)
      requires -0x4000_0000 <= frequencyHz < 0x4000_0000
      modifies this`color, this`luminance, this`log, this`elapsed
      ensures unchanged(`system, `playback, `bluetooth)
      ensures frequencyHz >= 1 ==> color == Off && luminance == flashLuminance
      ensures old(InRange()) && 0 <= flashLuminance <= 100 ==> InRange()
      ensures frequencyHz < 1 ==> color == old(color) && luminance == old(luminance)
      ensures log == old(log) + Repeat(BluetoothFlashBlock(flashLuminance), FlashIterations(frequencyHz))
      ensures elapsed == old(elapsed) + FlashDuration(frequencyHz)
    {
      ghost var block := BluetoothFlashBlock(flashLuminance);
      var i := 0;
      while i < frequencyHz * 2
        invariant 0 <= i <= FlashIterations(frequencyHz)
        invariant i == 0 ==> color == old(color) && luminance == old(luminance)
        invariant i > 0 ==> color == Off && luminance == flashLuminance
        invariant log == old(log) + Repeat(block, i)
        invariant elapsed == old(elapsed) + FlashSleep(frequencyHz, i)
      {
        SetColor(Off);
        log := log + [Shown(BluetoothEvent(Pairing), color, None)];
        elapsed := elapsed + HalfPeriod(frequencyHz);
        SetLuminance(flashLuminance);
        log := log + [Shown(BluetoothEvent(Pairing), color, Some(luminance))];
        elapsed := elapsed + HalfPeriod(frequencyHz);
        assert log == old(log) + Repeat(block, i + 1);
        i := i + 1;
      }
    }

    /** Shows white at the volume, holds it for 3 seconds, then fades out.
        The volume is not clamped. */
    method PlaybackVolumeChanged(volume: int) returns (ghost levels: seq<int>)
      modifies this`color, this`luminance, this`log, this`elapsed
      ensures unchanged(`system, `playback, `bluetooth)
      ensures log == old(log) + [Shown(VolumeChanged, White, Some(volume))]
      ensures levels == Countdown(volume)
      ensures color == Off
      ensures luminance == if volume >= 0 then 0 else volume
      ensures elapsed == old(elapsed) + 3000 + 100 * |levels|
      ensures InRange() <==> volume >= 0
    {
      SetColor(White);
      SetLuminance(volume);
      log := log + [Shown(VolumeChanged, color, Some(luminance))];
      elapsed := elapsed + 3000;
      levels := FadeOut();
    }

    /** Counts the luminance down to 0, one step per 100 ms, then turns the LED
        off; `levels` are the luminance values written, in order. Nothing is
        reported. */
    method FadeOut() returns (ghost levels: seq<int>)
      modifies this`color, this`luminance, this`elapsed
      ensures unchanged(`system, `playback, `bluetooth)
      ensures levels == Countdown(old(luminance))
      ensures color == Off
      ensures luminance == if old(luminance) >= 0 then 0 else old(luminance)
      ensures elapsed == old(elapsed) + 100 * |levels|
      ensures log == old(log)
      ensures old(InRange()) ==> InRange()
    {
      ghost var start := luminance;
      levels := [];
      var i := GetLuminance();
      while i >= 0
        invariant start >= 0 ==> -1 <= i <= start
        invariant start < 0 ==> i == start && levels == []
        invariant levels + Countdown(i) == Countdown(start)
        invariant levels == [] ==> luminance == start
        invariant levels != [] ==> luminance == i + 1
        invariant elapsed == old(elapsed) + 100 * |levels|
        decreases i + 1
      {
        SetLuminance(i);
        levels := levels + [i];
        elapsed := elapsed + 100;
        i := i - 1;
      }
      SetColor(Off);
    }

    /** The combined rule: playing together with connected shows blue at 10;
        every other pair changes and reports nothing. */
    method PlayBackUpdate(p: PlaybackState, b: BluetoothState)
      modifies this`color, this`luminance, this`log
      ensures unchanged(`system, `playback, `bluetooth)
      ensures p == Playing && b == Connected ==> (
        color == Blue && luminance == 10
        && log == old(log) + [Shown(PlayingAndConnected, Blue, Some(10))])
      ensures !(p == Playing && b == Connected) ==>
        color == old(color) && luminance == old(luminance) && log == old(log)
      ensures old(InRange()) ==> InRange()
    {
      if p == Playing && b == Connected {
        SetColor(Blue);
        SetLuminance(10);
        log := log + [Shown(PlayingAndConnected, color, Some(luminance))];
      }
    }
  }
}
