/** The session state of the emulator front end (`BoardGui`) as a value: the connection and
    resync flags, the register labels and check boxes, the messages shown to the user, and the
    board display. There is one specification function per handler; the commands a handler
    writes to the emulator are returned beside the new state. */
module Session {

  import opened Wrappers
  import opened Bitops
  import opened Protocol
  import opened Board

  // ---------------------------------------------------------------------------
  // Register values as the window shows them

  /** `(value >> bit) & 1` on a Python integer (which may be negative: `>>` floors). */
  function IntBit(value: int, bit: nat): (r: Level)
  {
    (value / Pow2(bit)) % 2
  }

  /** `f'{value:0<width>X}'`: upper-case hex, zero-padded after the sign to `width` characters. */
  function HexField(value: int, width: nat): (r: string)
  {
    if value < 0 then "-" + ToHex(-value, if width > 0 then width - 1 else 0) else ToHex(value, width)
  }

  function ModeLabel(value: int): string { "mode: " + HexField(value, 8) }
  function IdrLabel(value: int): string { "     idr: " + HexField(value, 4) }
  function SrLabel(value: int): string { "sr: " + HexField(value, 4) }
  function Cr1Label(value: int): string { "cr1: " + HexField(value, 4) }

  /** A label's digits read back as the register value: `int(HexField(v, w), 16) == v`. */
  lemma HexFieldRoundTrip(value: int, width: nat)
    ensures HexValue(HexField(value, width)) == Some(value)
  {
    if value < 0 {
      var w := if width > 0 then width - 1 else 0;
      HexRoundTrip(-value, w);
      NegatedHex(ToHex(-value, w), -value);
    } else {
      HexRoundTrip(value, width);
    }
  }

  /** A minus sign in front of digits negates their value. */
  lemma NegatedHex(t: string, n: nat)
    requires HexValue(t) == Some(n)
    requires t != [] && HexDigit(t[0]).Some? && (|t| >= 2 ==> t[1] != 'x' && t[1] != 'X')
    ensures HexValue("-" + t) == Some(-(n as int))
  {
    var s := "-" + t;
    assert s[0] == '-' && s[1..] == t;
  }

  /** A label is never narrower than its field. */
  lemma HexFieldWidth(value: int, width: nat)
    ensures |HexField(value, width)| >= width
  {
  }

  /** The texts `reset_state` and the constructor put up are the labels of a zero register. */
  lemma ZeroLabels()
    ensures ModeLabel(0) == ModeZero && IdrLabel(0) == IdrZero
    ensures SrLabel(0) == SrZero && Cr1Label(0) == Cr1Zero
  {
    assert HexDigits(0) == "0";
    assert HexField(0, 8) == "00000000";
    assert HexField(0, 4) == "0000";
  }

  /** `str(n)` for a natural number. */
  function Decimal(n: nat): (r: string)
    decreases n
  {
    var c := ('0' as int + n % 10) as char;
    if n < 10 then [c] else Decimal(n / 10) + [c]
  }

  /** `int(s)` on a run of decimal digits. */
  function DecimalValue(s: string): (n: nat)
    decreases |s|
  {
    if s == [] then 0
    else
      var c := s[|s| - 1];
      10 * DecimalValue(s[..|s| - 1]) + (if '0' <= c <= '9' then c as int - '0' as int else 0)
  }

  /** The number in a warning reads back as the number formatted. */
  lemma {:induction false} DecimalRoundTrip(n: nat)
    ensures Decimal(n) != [] && DecimalValue(Decimal(n)) == n
    ensures forall i | 0 <= i < |Decimal(n)| :: '0' <= Decimal(n)[i] <= '9'
    decreases n
  {
    if n >= 10 {
      DecimalRoundTrip(n / 10);
      var s := Decimal(n);
      assert s[..|s| - 1] == Decimal(n / 10);
    }
  }

  // ---------------------------------------------------------------------------
  // The front end's state

  /** `Connect`. */
  datatype Connect = Disconnected | Connecting | Connected

  /** `BoardGui`'s state: the display; whether there is a listener (`wired`) and a serial
      connection; the connection and resync flags; whether the connected-only buttons are
      enabled; the GPIOD, pin and USART3 check boxes; the four register labels; the warnings
      and connect errors shown, in order; whether the poll timer is scheduled, and whether the
      window is closing. */
  datatype Front = Front(
    view: View, wired: bool, serial: bool, connected: Connect, reconnect: bool, enabled: bool,
    gpiod: Level, pins: seq<Level>, usart3: Level,
    mode: string, idr: string, sr: string, cr1: string,
    warnings: seq<string>, errors: seq<string>, ticker: bool, stopping: bool)

  /** One check box per input pin 8 to 14 of the board. */
  predicate Shape(f: Front)
  {
    Shaped(f.view) && |f.pins| == 7
  }

  /** The check boxes show the levels the display holds for the output pins 8 to 14. */
  predicate Consistent(f: Front)
  {
    Shape(f) && forall q | 8 <= q <= 14 :: DeviceLevel(f.view, q) == f.pins[q - 8]
  }

  /** The texts and levels the indicators start from and are reset to. */
  const ModeZero: string := "mode: 00000000"
  const IdrZero: string := "     idr: 0000"
  const SrZero: string := "sr: 0000"
  const Cr1Zero: string := "cr1: 0000"

  /** Seven check boxes, all clear. */
  function NoPins(): (r: seq<Level>)
    ensures |r| == 7 && forall k | 0 <= k < 7 :: r[k] == 0
  {
    seq(7, _ => 0)
  }

  const StartHint: string := "Use \"Connect\" or \"Connect+Serial\" to attach to QEMU"
  const ConnectedOk: string := "QEMU connected OK"
  const ClosedDown: string := "QEMU has closed down"
  const NotRunning: string := "QEMU is not running"
  const UnknownTag: string := "Internal error: unknown qemu tag "

  /** The window as `__init__` leaves it: the display with its toggle buttons shown released,
      no connection, zero labels and check boxes, and the hint to connect. */
  function Start(): (f: Front)
  {
    Front(ToggleInit(Initial(), 0), false, false, Disconnected, true, false, 0, NoPins(), 0,
          ModeZero, IdrZero, SrZero, Cr1Zero, [StartHint], [], false, false)
  }

  /** `toggle_init` only changes what is shown. */
  lemma {:induction false} ToggleInitKeeps(v: View, i: nat)
    requires i <= |Buttons|
    ensures var r := ToggleInit(v, i); r.latch == v.latch && r.latched == v.latched && r.groups == v.groups
    decreases |Buttons| - i
  {
    if i < |Buttons| {
      ToggleInitKeeps(if Buttons[i].style == Toggle then UpdateButton(v, Buttons[i], 0) else v, i + 1);
    }
  }

  /** The window starts out consistent, unconnected and waiting to resync. */
  lemma StartState()
    ensures Consistent(Start()) && Start().reconnect && Start().connected == Disconnected
  {
    ToggleInitKeeps(Initial(), 0);
    ZeroLevels(Start().view);
  }

  /** With every group state zero, every output pin reads low. */
  lemma ZeroLevels(v: View)
    requires Shaped(v) && forall i | 0 <= i < |PinMaps| :: v.groups[i].state == 0
    ensures forall q | 8 <= q <= 14 :: DeviceLevel(v, q) == 0
  {
  }

  // ---------------------------------------------------------------------------
  // Teardown

  /** `reset_state()`: the GPIO labels and check boxes back to zero. */
  function ResetIndicators(f: Front): (r: Front)
    ensures Shaped(f.view) ==> Shape(r)
  {
    f.(mode := ModeZero, idr := IdrZero, gpiod := 0, pins := NoPins())
  }

  /** `do_disconnect()`: cancel the timer, disable the connected-only buttons, reset the
      indicators and the display, drop the listener (and the serial connection with it), and
      wait to resync on the next connection. */
  function Disconnect(f: Front): (r: Front)
    requires Shaped(f.view)
    ensures Shape(r)
  {
    var f1 := ResetIndicators(f);
    Front(Reset(f.view), false, f.serial && !f.wired, Disconnected, true, false,
          f1.gpiod, f1.pins, f.usart3, f1.mode, f1.idr, f.sr, f.cr1, f.warnings, f.errors, false, f.stopping)
  }

  /** A teardown is the state that differs from the old one exactly in these fields. */
  lemma DisconnectFields(f: Front, r: Front)
    requires Shaped(f.view)
    ensures r == Disconnect(f) <==>
      && r.view == Reset(f.view) && !r.wired && r.serial == (f.serial && !f.wired)
      && r.connected == Disconnected && r.reconnect && !r.enabled && !r.ticker
      && r.gpiod == 0 && r.pins == NoPins() && r.mode == ModeZero && r.idr == IdrZero
      && r.usart3 == f.usart3 && r.sr == f.sr && r.cr1 == f.cr1
      && r.warnings == f.warnings && r.errors == f.errors && r.stopping == f.stopping
  {
  }

  /** After a teardown the indicators agree with the display, every output reads low, the
      latch is off, there is no connection and the next `idr` resyncs; the messages, the
      USART labels and the closing flag are kept. */
  lemma DisconnectState(f: Front)
    requires Shaped(f.view)
    ensures var r := Disconnect(f);
      && Consistent(r) && !r.wired && r.serial == (f.serial && !f.wired) && !r.ticker && !r.enabled
      && r.connected == Disconnected && r.reconnect && !r.view.latch
      && (forall k | 0 <= k < 7 :: r.pins[k] == 0)
      && r.gpiod == 0 && r.mode == ModeLabel(0) && r.idr == IdrLabel(0)
      && r.warnings == f.warnings && r.errors == f.errors && r.sr == f.sr && r.cr1 == f.cr1
      && r.usart3 == f.usart3 && r.stopping == f.stopping
  {
    ResetState(f.view);
    ZeroLabels();
  }

  // ---------------------------------------------------------------------------
  // The `idr` update and the resync

  /** The display, the check boxes and the commands written so far in the `idr` loop. */
  datatype Sync = Sync(view: View, pins: seq<Level>, cmds: seq<string>)

  /** One pass of the loop over bits 8 to 14: bit `8 + k` of the value goes to its check box,
      and to the display when resyncing or when it differs from the check box. (The source
      tests the two cases on either side of setting the check box; both drive the same pin
      to the same level.) */
  function SyncPin(s: Sync, reconnect: bool, wired: bool, value: int, k: nat): (r: Sync)
    requires Shaped(s.view) && |s.pins| == 7 && k < 7
    ensures Shaped(r.view) && r.pins == s.pins[k := IntBit(value, 8 + k)]
  {
    var bit := 8 + k;
    var state := IntBit(value, bit);
    var (v, c) := if reconnect || state != s.pins[k] then UpdateDevice(s.view, bit, state, wired) else (s.view, []);
    Sync(v, s.pins[k := state], s.cmds + c)
  }

  /** The loop after its first k passes. */
  function SyncPins(s: Sync, reconnect: bool, wired: bool, value: int, k: nat): (r: Sync)
    requires Shaped(s.view) && |s.pins| == 7 && k <= 7
    ensures Shaped(r.view) && |r.pins| == 7
    decreases k
  {
    if k == 0 then s else SyncPin(SyncPins(s, reconnect, wired, value, k - 1), reconnect, wired, value, k - 1)
  }

  /** After k passes the first k check boxes hold their bits and the others are untouched. */
  lemma {:induction false} SyncPinsPins(s: Sync, reconnect: bool, wired: bool, value: int, k: nat)
    requires Shaped(s.view) && |s.pins| == 7 && k <= 7
    ensures var r := SyncPins(s, reconnect, wired, value, k);
      forall j | 0 <= j < 7 :: r.pins[j] == (if j < k then IntBit(value, 8 + j) else s.pins[j])
    decreases k
  {
    if k > 0 {
      SyncPinsPins(s, reconnect, wired, value, k - 1);
    }
  }

  /** The resync replay for one button: a button with a pin whose bit is set is pressed and
      released with no listener. */
  function PressButton(v: View, value: int, b: Button): (r: View)
    requires Shaped(v) && b in Buttons
    ensures Shaped(r)
  {
    if b.pin.Some? && IntBit(value, b.pin.value) == 1 then ButtonUp(ButtonDown(v, b, false).0, b, false).0 else v
  }

  /** The replay over the first i buttons. */
  function PressPinned(v: View, value: int, i: nat): (r: View)
    requires Shaped(v) && i <= |Buttons|
    ensures Shaped(r)
    decreases i
  {
    if i == 0 then v else PressButton(PressPinned(v, value, i - 1), value, Buttons[i - 1])
  }

  /** After k passes the first k check boxes hold their bits and the display drives those
      pins to them; the other check boxes and pins are untouched. When not resyncing this
      needs the check boxes to have agreed with the display, since equal bits are skipped. */
  lemma {:induction false} SyncPinsLevels(s: Sync, reconnect: bool, wired: bool, value: int, k: nat)
    requires Shaped(s.view) && |s.pins| == 7 && k <= 7
    requires !reconnect ==> forall q | 8 <= q <= 14 :: DeviceLevel(s.view, q) == s.pins[q - 8]
    ensures var r := SyncPins(s, reconnect, wired, value, k);
      forall q | 8 <= q <= 14 ::
        DeviceLevel(r.view, q) == (if q < 8 + k then IntBit(value, q) else DeviceLevel(s.view, q))
    decreases k
  {
    if k > 0 {
      SyncPinsLevels(s, reconnect, wired, value, k - 1);
      SyncPinsPins(s, reconnect, wired, value, k - 1);
      var p := SyncPins(s, reconnect, wired, value, k - 1);
      assert !reconnect ==> DeviceLevel(p.view, 8 + (k - 1)) == p.pins[k - 1];
      SyncPinLevels(p, reconnect, wired, value, k - 1);
    }
  }

  /** One pass drives pin `8 + k` to its bit and leaves the other pins alone. */
  lemma SyncPinLevels(p: Sync, reconnect: bool, wired: bool, value: int, k: nat)
    requires Shaped(p.view) && |p.pins| == 7 && k < 7
    requires !reconnect ==> DeviceLevel(p.view, 8 + k) == p.pins[k]
    ensures var r := SyncPin(p, reconnect, wired, value, k);
      && r.pins == p.pins[k := IntBit(value, 8 + k)]
      && forall q | 8 <= q <= 14 ::
           DeviceLevel(r.view, q) == if q == 8 + k then IntBit(value, q) else DeviceLevel(p.view, q)
  {
    var bit := 8 + k;
    var state := IntBit(value, bit);
    if reconnect || state != p.pins[k] {
      forall q | 8 <= q <= 14
        ensures DeviceLevel(UpdateDevice(p.view, bit, state, wired).0, q) ==
                if q == bit then state else DeviceLevel(p.view, q)
      {
        UpdateDeviceLevel(p.view, bit, state, wired, q);
      }
    }
  }

  /** With every check box already showing its bit and no resync, the loop changes nothing. */
  lemma {:induction false} SyncPinsSteady(s: Sync, wired: bool, value: int, k: nat)
    requires Shaped(s.view) && |s.pins| == 7 && k <= 7
    requires forall j | 0 <= j < 7 :: s.pins[j] == IntBit(value, 8 + j)
    ensures SyncPins(s, false, wired, value, k) == s
    decreases k
  {
    if k > 0 {
      SyncPinsSteady(s, wired, value, k - 1);
      assert s.pins[k - 1 := IntBit(value, 8 + k - 1)] == s.pins;
      assert s.cmds + [] == s.cmds;
    }
  }

  /** The loop writes nothing until the latch pin (14), and there only the releases of the
      latch-style buttons, when the latch goes low with a listener. */
  lemma {:induction false} SyncPinsCommands(s: Sync, reconnect: bool, wired: bool, value: int, k: nat)
    requires Shaped(s.view) && |s.pins| == 7 && k <= 7
    ensures SyncPins(s, reconnect, wired, value, k).cmds ==
      s.cmds + (if k == 7 && wired && IntBit(value, 14) == 0 && (reconnect || s.pins[6] == 1)
                then LatchReleases else [])
    decreases k
  {
    if k > 0 {
      SyncPinsCommands(s, reconnect, wired, value, k - 1);
      SyncPinsPins(s, reconnect, wired, value, k - 1);
      var p := SyncPins(s, reconnect, wired, value, k - 1);
      assert p.pins[k - 1] == s.pins[k - 1];
      SyncPinCommands(p, reconnect, wired, value, k - 1);
      assert s.cmds + [] == s.cmds;
    }
  }

  /** One pass writes only when it drives the latch pin (14) low. */
  lemma SyncPinCommands(p: Sync, reconnect: bool, wired: bool, value: int, k: nat)
    requires Shaped(p.view) && |p.pins| == 7 && k < 7
    ensures SyncPin(p, reconnect, wired, value, k).cmds ==
      p.cmds + (if k == 6 && wired && IntBit(value, 14) == 0 && (reconnect || p.pins[6] == 1)
                then LatchReleases else [])
  {
    var bit := 8 + k;
    var state := IntBit(value, bit);
    if reconnect || state != p.pins[k] {
      if k == 6 {
        if state == 0 {
          LatchCascade(p.view, wired);
        } else {
          LatchRaise(p.view, wired);
        }
      } else {
        UpdateDeviceQuiet(p.view, bit, state, wired);
      }
    }
    assert p.cmds + [] == p.cmds;
  }

  /** The replay leaves the pin groups (and so every output level) alone. */
  lemma {:induction false} PressPinnedGroups(v: View, value: int, i: nat)
    requires Shaped(v) && i <= |Buttons|
    ensures PressPinned(v, value, i).groups == v.groups
    decreases i
  {
    if i > 0 {
      PressPinnedGroups(v, value, i - 1);
      PressButtonGroups(PressPinned(v, value, i - 1), value, Buttons[i - 1]);
    }
  }

  lemma PressButtonGroups(v: View, value: int, b: Button)
    requires Shaped(v) && b in Buttons
    ensures PressButton(v, value, b).groups == v.groups
  {
    ButtonFacts(b);
  }

  // ---------------------------------------------------------------------------
  // on_qemu_message

  /** `on_qemu_message(event)`: the new state, and the commands written to the listener. */
  function OnMessage(f: Front, ev: Event): (r: (Front, seq<string>))
    requires Shape(f)
    ensures Shape(r.0)
  {
    match ev.tag
    case GpiodEnabled => (OnGpiodEnabled(f, ev.value), [])
    case Idr => OnIdr(f, ev.value)
    case QemuShutdown => (OnShutdown(f), [])
    case _ => (OnIndicator(f, ev), [])
  }

  /** The branches that only change a label, a check box or the messages: the register
      labels, the USART3 check box (bit 18, USART3's clock), the emulator's warnings, and a
      warning for any tag no branch handles. */
  function OnIndicator(f: Front, ev: Event): (r: Front)
    ensures r.view == f.view && r.pins == f.pins && r.wired == f.wired && r.reconnect == f.reconnect
  {
    match ev.tag
    case Moder => f.(mode := ModeLabel(ev.value))
    case Usart3Enabled => f.(usart3 := IntBit(ev.value, 18))
    case Sr => f.(sr := SrLabel(ev.value))
    case Cr1 => f.(cr1 := Cr1Label(ev.value))
    case QemuWarning => f.(warnings := f.warnings + [ev.message])
    case _ => f.(warnings := f.warnings + [UnknownTag + Decimal(TagCode(ev.tag))])
  }

  /** The `gpiod_enabled` branch: the first report after a connection says so and enables
      the connected-only buttons; bit 3 (GPIOD's clock) goes to the GPIOD check box. */
  function OnGpiodEnabled(f: Front, value: int): (r: Front)
    ensures Shape(f) ==> Shape(r)
  {
    var f1 := if f.connected != Connected
              then f.(warnings := f.warnings + [ConnectedOk], enabled := true, connected := Connected)
              else f;
    f1.(gpiod := IntBit(value, 3))
  }

  /** The `idr` branch: the label, the loop over bits 8 to 14, and at the end of a resync the
      replay of the buttons whose input bits are set. */
  function OnIdr(f: Front, value: int): (r: (Front, seq<string>))
    requires Shape(f)
    ensures Shape(r.0)
  {
    var s := SyncPins(Sync(f.view, f.pins, []), f.reconnect, f.wired, value, |f.pins|);
    var v := if f.reconnect then PressPinned(s.view, value, |Buttons|) else s.view;
    (f.(idr := IdrLabel(value), view := v, pins := s.pins, reconnect := false), s.cmds)
  }

  /** The `qemu_shutdown` branch: reset the display, tell the user (when there is a
      listener), and tear the session down. */
  function OnShutdown(f: Front): (r: Front)
    requires Shaped(f.view)
    ensures Shape(r)
  {
    var f1 := f.(view := Reset(f.view));
    var f2 := if !f1.wired then f1
              else if f1.connected == Connected then f1.(warnings := f1.warnings + [ClosedDown])
              else f1.(errors := f1.errors + [NotRunning]);
    Disconnect(f2)
  }

  /** An `idr` value ends the resync, and afterwards every check box holds its bit of the value
      and the display drives every output pin to it, whatever the display held before a
      resync, and provided check boxes and display agreed before an ordinary update. */
  lemma IdrTracksValue(f: Front, value: int)
    requires Shape(f) && (f.reconnect || Consistent(f))
    ensures var r := OnIdr(f, value).0;
      && Consistent(r) && !r.reconnect && r.idr == IdrLabel(value)
      && forall k | 0 <= k < 7 :: r.pins[k] == IntBit(value, 8 + k)
  {
    IdrSetsPins(f, value);
    IdrDrivesLevels(f, value);
  }

  /** The fields of the `idr` branch's result that depend only on the loop. */
  lemma OnIdrFields(f: Front, value: int)
    requires Shape(f)
    ensures var t := SyncPins(Sync(f.view, f.pins, []), f.reconnect, f.wired, value, 7);
      && OnIdr(f, value).0.pins == t.pins && OnIdr(f, value).1 == t.cmds
      && OnIdr(f, value).0.view == (if f.reconnect then PressPinned(t.view, value, |Buttons|) else t.view)
      && !OnIdr(f, value).0.reconnect && OnIdr(f, value).0.idr == IdrLabel(value)
  {
    hide PressPinned, SyncPins, IdrLabel;
  }

  lemma IdrSetsPins(f: Front, value: int)
    requires Shape(f)
    ensures var r := OnIdr(f, value).0;
      && !r.reconnect && r.idr == IdrLabel(value)
      && (forall k | 0 <= k < 7 :: r.pins[k] == IntBit(value, 8 + k))
      && (forall q | 8 <= q <= 14 :: r.pins[q - 8] == IntBit(value, q))
  {
    OnIdrFields(f, value);
    hide OnIdr, IntBit, PressPinned, SyncPins;
    var s := Sync(f.view, f.pins, []);
    SyncPinsPins(s, f.reconnect, f.wired, value, 7);
    var r := OnIdr(f, value).0;
    forall q | 8 <= q <= 14
      ensures r.pins[q - 8] == IntBit(value, q)
    {
      assert 8 + (q - 8) == q;
    }
  }

  lemma IdrDrivesLevels(f: Front, value: int)
    requires Shape(f) && (f.reconnect || Consistent(f))
    ensures var r := OnIdr(f, value).0;
      forall q | 8 <= q <= 14 :: DeviceLevel(r.view, q) == IntBit(value, q)
  {
    OnIdrFields(f, value);
    hide OnIdr, IntBit;
    var s := Sync(f.view, f.pins, []);
    SyncPinsLevels(s, f.reconnect, f.wired, value, 7);
    var t := SyncPins(s, f.reconnect, f.wired, value, 7);
    if f.reconnect {
      PressPinnedGroups(t.view, value, |Buttons|);
      SameStatesSameLevels(t.view, PressPinned(t.view, value, |Buttons|));
    }
  }

  /** The same `idr` value twice: the second changes nothing and writes nothing. */
  lemma IdrIdempotent(f: Front, value: int)
    requires Shape(f)
    ensures var (f1, _) := OnIdr(f, value);
      OnIdr(f1, value) == (f1, [])
  {
    IdrSetsPins(f, value);
    var f1 := OnIdr(f, value).0;
    var s1 := Sync(f1.view, f1.pins, []);
    SyncPinsSteady(s1, f1.wired, value, |f1.pins|);
  }

  /** The only commands an `idr` update writes are the releases of the latch-style buttons,
      once, when the latch pin reads low and either a resync is under way or it read high. The
      replayed button presses write nothing. */
  lemma IdrCommands(f: Front, value: int)
    requires Shape(f)
    ensures OnIdr(f, value).1 ==
      if f.wired && IntBit(value, 14) == 0 && (f.reconnect || f.pins[6] == 1) then LatchReleases else []
  {
    OnIdrFields(f, value);
    hide OnIdr;
    SyncPinsCommands(Sync(f.view, f.pins, []), f.reconnect, f.wired, value, 7);
  }

  /** A shutdown report resets the display and tears the session down; with a listener it
      tells the user, as a warning when the session was connected and as a connect error
      otherwise. */
  lemma ShutdownDisconnects(f: Front)
    requires Shape(f)
    ensures var r := OnShutdown(f);
      && Consistent(r) && !r.wired && r.connected == Disconnected && r.reconnect
      && (forall k | 0 <= k < 7 :: r.pins[k] == 0)
      && r.warnings == f.warnings + (if f.wired && f.connected == Connected then [ClosedDown] else [])
      && r.errors == f.errors + (if f.wired && f.connected != Connected then [NotRunning] else [])
  {
    hide Disconnect, Reset, Consistent;
    var f1 := f.(view := Reset(f.view));
    var f2 := if !f1.wired then f1
              else if f1.connected == Connected then f1.(warnings := f1.warnings + [ClosedDown])
              else f1.(errors := f1.errors + [NotRunning]);
    DisconnectState(f2);
    assert f.warnings + [] == f.warnings && f.errors + [] == f.errors;
  }

  /** GPIOD being reported enabled connects the session; only the first report after a
      (re)connection says so. */
  lemma ConnectReportedOnce(f: Front, v1: int, v2: int)
    requires Shape(f)
    ensures var r2 := OnGpiodEnabled(OnGpiodEnabled(f, v1), v2);
      && r2.connected == Connected && r2.enabled == (f.connected != Connected || f.enabled)
      && r2.gpiod == IntBit(v2, 3)
      && r2.warnings == f.warnings + (if f.connected != Connected then [ConnectedOk] else [])
      && r2.view == f.view && r2.pins == f.pins && r2.reconnect == f.reconnect
  {
  }

  /** The tags no branch handles (pin events, commands, listener warnings) only add a warning
      that names the tag by its number. */
  lemma UnknownTagWarns(f: Front, ev: Event)
    requires Shape(f) && ev.tag in {PinLow, PinHigh, Command, Warning}
    ensures var (r, cmds) := OnMessage(f, ev);
      && cmds == [] && r == f.(warnings := r.warnings)
      && |r.warnings| == |f.warnings| + 1 && r.warnings[..|f.warnings|] == f.warnings
      && var w := r.warnings[|f.warnings|];
         |w| > |UnknownTag| && w[..|UnknownTag|] == UnknownTag
         && DecimalValue(w[|UnknownTag|..]) == TagCode(ev.tag)
  {
    var d := Decimal(TagCode(ev.tag));
    DecimalRoundTrip(TagCode(ev.tag));
    var w := UnknownTag + d;
    assert w[..|UnknownTag|] == UnknownTag && w[|UnknownTag|..] == d;
    assert (f.warnings + [w])[..|f.warnings|] == f.warnings;
  }

  /** Every message keeps the check boxes in agreement with the display. */
  lemma MessageKeepsConsistent(f: Front, ev: Event)
    requires Consistent(f)
    ensures Consistent(OnMessage(f, ev).0)
  {
    if ev.tag == Idr {
      IdrTracksValue(f, ev.value);
    } else if ev.tag == QemuShutdown {
      ShutdownDisconnects(f);
    } else if ev.tag == GpiodEnabled {
      assert OnMessage(f, ev).0 == OnGpiodEnabled(f, ev.value);
    } else {
      var r := OnIndicator(f, ev);
      assert OnMessage(f, ev).0 == r;
      assert r.view == f.view && r.pins == f.pins;
    }
  }

  // ---------------------------------------------------------------------------
  // Other handlers

  predicate StartsWith(s: string, prefix: string)
  {
    |prefix| <= |s| && s[..|prefix|] == prefix
  }

  /** `on_halt()`: `halt ` to the listener, if any, then the teardown. */
  function Halt(f: Front): (r: (Front, seq<string>))
    requires Shaped(f.view)
  {
    (Disconnect(f), if f.wired then ["halt "] else [])
  }

  /** `on_b1_down()` with the button under the mouse, if any. */
  function B1Down(f: Front, button: Option<Button>): (r: (Front, seq<string>))
    requires Shape(f) && (button.Some? ==> button.value in Buttons)
    ensures Shape(r.0)
  {
    match button
    case None => (f, [])
    case Some(b) =>
      var (v, cmds) := ButtonDown(f.view, b, f.wired);
      (f.(view := v), cmds)
  }

  /** `on_b1_up()`: releasing the reset button also clears the GPIOD check box. */
  function B1Up(f: Front, button: Option<Button>): (r: (Front, seq<string>))
    requires Shape(f) && (button.Some? ==> button.value in Buttons)
    ensures Shape(r.0)
  {
    match button
    case None => (f, [])
    case Some(b) =>
      var f1 := if StartsWith(b.up, "reset") then f.(gpiod := 0) else f;
      var (v, cmds) := ButtonUp(f1.view, b, f1.wired);
      (f1.(view := v), cmds)
  }

  /** `do_query_qemu()`: the GPIOD registers while GPIOD is enabled, the USART3 registers
      while USART3 is. */
  function Query(f: Front): (cmds: seq<string>)
  {
    if !f.wired then []
    else (if f.gpiod == 1 then ["D0? ", "D4? "] else []) + (if f.usart3 == 1 then ["U0? ", "U3? "] else [])
  }

  /** `STM32.rcc_ahbenr` and `STM32.rcc_apb1enr`. */
  const RccAhbenr: string := "M40023830? "
  const RccApb1enr: string := "M40023840? "

  /** `on_timer_running()` without the serial console: the register queries, one animation
      tick, the clock-enable queries, and the next tick scheduled unless closing. */
  function TimerRunning(f: Front): (r: (Front, seq<string>))
    requires Shaped(f.view)
    ensures Shaped(r.0.view)
  {
    if !f.wired then (f, [])
    else
      (f.(view := Animate(f.view, 0), ticker := f.ticker || !f.stopping),
       Query(f) + [RccAhbenr] + (if f.serial then [RccApb1enr] else []))
  }

  function Lower(c: char): char
  {
    if 'A' <= c <= 'Z' then (c as int - 'A' as int + 'a' as int) as char else c
  }

  function LowerAll(s: string): (r: string)
    ensures |r| == |s|
  {
    if s == [] then [] else [Lower(s[0])] + LowerAll(s[1..])
  }

  /** The key a reply to a query command starts with: `=` and the command, lower-case,
      without its `? ` (`D4? ` is answered by `=d4?/…`). */
  function ReplyKey(query: string): string
    requires |query| >= 2
  {
    "=" + LowerAll(query[..|query| - 2])
  }

  /** A query command: the text of the command, then `? `. */
  predicate Answered(c: string)
  {
    |c| >= 2 && c[|c| - 2..] == "? " && ReplyKey(c) in ReplyMap
  }

  predicate NoUpper(s: string)
  {
    forall i | 0 <= i < |s| :: !('A' <= s[i] <= 'Z')
  }

  lemma {:induction false} LowerNoUpper(s: string)
    requires NoUpper(s)
    ensures LowerAll(s) == s
  {
    if s != [] {
      assert NoUpper(s[1..]) by {
        forall i | 0 <= i < |s[1..]| ensures !('A' <= s[1..][i] <= 'Z') {
          assert s[1..][i] == s[i + 1];
        }
      }
      LowerNoUpper(s[1..]);
    }
  }

  /** The key of a command made of one register letter and a lower-case address. */
  lemma KeyOf(letter: char, address: string)
    requires 'A' <= letter <= 'Z' && NoUpper(address)
    ensures ReplyKey([letter] + address + "? ") == "=" + [Lower(letter)] + address
  {
    var q := [letter] + address + "? ";
    assert q[..|q| - 2] == [letter] + address;
    assert ([letter] + address)[1..] == address;
    LowerNoUpper(address);
  }

  /** Each of the six poll commands is answered by the `REPLY_MAP` entry of its register. */
  lemma PollKeys()
    ensures ReplyKey(RccAhbenr) == "=m40023830" && ReplyKey(RccApb1enr) == "=m40023840"
    ensures ReplyKey("D0? ") == "=d0" && ReplyKey("D4? ") == "=d4"
    ensures ReplyKey("U0? ") == "=u0" && ReplyKey("U3? ") == "=u3"
  {
    hide ReplyKey, LowerAll;
    assert NoUpper("40023830") && NoUpper("40023840");
    KeyOf('M', "40023830");
    assert RccAhbenr == ['M'] + "40023830" + "? ";
    KeyOf('M', "40023840");
    assert RccApb1enr == ['M'] + "40023840" + "? ";
    KeyOf('D', "0");
    assert "D0? " == ['D'] + "0" + "? ";
    KeyOf('D', "4");
    assert "D4? " == ['D'] + "4" + "? ";
    KeyOf('U', "0");
    assert "U0? " == ['U'] + "0" + "? ";
    KeyOf('U', "3");
    assert "U3? " == ['U'] + "3" + "? ";
  }

  /** Every poll the timer sends is a query whose reply `REPLY_MAP` classifies, and it maps
      the reply to the tag of the register it asked for. */
  lemma TimerQueriesAnswered(f: Front)
    requires Shaped(f.view)
    ensures forall c | c in TimerRunning(f).1 :: Answered(c)
    ensures ReplyKey(RccAhbenr) in ReplyMap && ReplyMap[ReplyKey(RccAhbenr)] == GpiodEnabled
    ensures ReplyKey(RccApb1enr) in ReplyMap && ReplyMap[ReplyKey(RccApb1enr)] == Usart3Enabled
    ensures ReplyKey("D0? ") in ReplyMap && ReplyMap[ReplyKey("D0? ")] == Moder
    ensures ReplyKey("D4? ") in ReplyMap && ReplyMap[ReplyKey("D4? ")] == Idr
    ensures ReplyKey("U0? ") in ReplyMap && ReplyMap[ReplyKey("U0? ")] == Sr
    ensures ReplyKey("U3? ") in ReplyMap && ReplyMap[ReplyKey("U3? ")] == Cr1
  {
    PollKeys();
    var polls := [RccAhbenr, RccApb1enr, "D0? ", "D4? ", "U0? ", "U3? "];
    assert forall c | c in polls :: Answered(c);
    assert forall c | c in TimerRunning(f).1 :: c in polls;
  }

  /** `animate()` moves sprites only: every group keeps its pin state. */
  lemma {:induction false} AnimateKeepsStates(v: View, i: nat)
    requires Shaped(v) && i <= |Animations|
    ensures forall k | 0 <= k < |PinMaps| :: Animate(v, i).groups[k].state == v.groups[k].state
    decreases |Animations| - i
  {
    if i < |Animations| {
      var a := Animations[i];
      var m := MapIndex(a.pinMap).value;
      PinMapFacts(m);
      if v.groups[m].state != 0 {
        var c := PinMaps[m];
        var backwards := match a.direction case None => false case Some(d) => v.groups[MapIndex(d).value].state != 0;
        var (g, stepped) := AnimateGroup(v.groups[m], Overlays[c.image.value].frames, a.poll, backwards);
        var v1 := v.(groups := v.groups[m := g]);
        var v2 := if !stepped then v1
                  else
                    var v3 := UpdateImage(v1, Overlays[c.image.value], g.sprite);
                    match a.overlay
                    case None => v3
                    case Some(o) =>
                      var k := MapIndex(o).value;
                      UpdateImage(v3, Overlays[PinMaps[k].image.value], v3.groups[k].state);
        assert v2.groups == v1.groups;
        AnimateKeepsStates(v2, i + 1);
      } else {
        AnimateKeepsStates(v, i + 1);
      }
    }
  }

  /** Output levels depend on the pin groups' states alone. */
  lemma SameStatesSameLevels(v: View, w: View)
    requires Shaped(v) && Shaped(w)
    requires forall k | 0 <= k < 4 :: v.groups[k].state == w.groups[k].state
    ensures forall q | 8 <= q <= 14 :: DeviceLevel(v, q) == DeviceLevel(w, q)
  {
  }

  /** Pressing a button does not change the check boxes or any output level. */
  lemma B1DownConsistent(f: Front, button: Option<Button>)
    requires Consistent(f) && (button.Some? ==> button.value in Buttons)
    ensures Consistent(B1Down(f, button).0)
  {
    if button.Some? {
      ButtonFacts(button.value);
      SameStatesSameLevels(f.view, B1Down(f, button).0.view);
    }
  }

  /** Releasing a button does not change the check boxes or any output level. */
  lemma B1UpConsistent(f: Front, button: Option<Button>)
    requires Consistent(f) && (button.Some? ==> button.value in Buttons)
    ensures Consistent(B1Up(f, button).0)
  {
    if button.Some? {
      ButtonFacts(button.value);
      SameStatesSameLevels(f.view, B1Up(f, button).0.view);
    }
  }

  /** A timer tick animates sprites only, so the check boxes still agree with the display. */
  lemma TimerKeepsConsistent(f: Front)
    requires Consistent(f)
    ensures Consistent(TimerRunning(f).0)
  {
    if f.wired {
      AnimateKeepsStates(f.view, 0);
      SameStatesSameLevels(f.view, Animate(f.view, 0));
    }
  }

  /** A halt resets display and check boxes together. */
  lemma HaltKeepsConsistent(f: Front)
    requires Consistent(f)
    ensures Consistent(Halt(f).0)
  {
    DisconnectState(f);
  }

  /** After a halt nothing more goes to the emulator: the timer, the queries and the mouse
      have no listener to write to. */
  lemma HaltSilences(f: Front, button: Option<Button>)
    requires Shape(f) && (button.Some? ==> button.value in Buttons)
    ensures var (h, cmds) := Halt(f);
      && cmds == (if f.wired then ["halt "] else [])
      && TimerRunning(h) == (h, []) && Query(h) == []
      && B1Down(h, button).1 == [] && B1Up(h, button).1 == []
  {
  }
}
