/** `BoardGui`: the session state the GUI keeps next to the board display, updated in place by
    its handlers. Widgets hold the state: the labels are strings, the check boxes levels, the
    warning line and the connect-error dialogs the lists `warnings` and `errors`, the
    connected-only buttons the flag `enabled`, and the serial console and the poll timer the flags
    `serial` and `ticker`. Every handler is proved against the matching function of `Session`. */
module Gui {

  import opened Wrappers
  import opened Protocol
  import opened Board
  import opened Session
  import opened Listener
  import opened BoardDisplay

  class BoardGui {
    const display: Display
    var listener: QEmuListener?
    var serial: bool
    var connected: Connect
    var reconnect: bool
    var enabled: bool
    var gpiod: Level
    var pins: seq<Level>
    var usart3: Level
    var mode: string
    var idr: string
    var sr: string
    var cr1: string
    var warnings: seq<string>
    var errors: seq<string>
    var ticker: bool
    var stopping: bool

    /** One check box per input pin 8 to 14, and a well-formed display. */
    predicate Valid()
      reads this, display, display.maps
    {
      display.Valid() && |pins| == 7
    }

    /** The GUI's state as a value. */
    function Model(): Front
      reads this, display, display.maps
    {
      Front(display.Model(), listener != null, serial, connected, reconnect, enabled, gpiod, pins,
            usart3, mode, idr, sr, cr1, warnings, errors, ticker, stopping)
    }

    /** `__init__`: the board drawn with its toggles in their initial images, everything
        cleared, and the hint to connect. */
    constructor ()
      ensures Valid() && Model() == Start() && fresh(display) && fresh(display.maps)
    {
      display := new Display();
      listener := null;
      serial := false;
      connected := Disconnected;
      reconnect := true;
      enabled := false;
      gpiod := 0;
      pins := NoPins();
      usart3 := 0;
      mode := ModeZero;
      idr := IdrZero;
      sr := SrZero;
      cr1 := Cr1Zero;
      warnings := [StartHint];
      errors := [];
      ticker := false;
      stopping := false;
      new;
      display.ToggleInit();
    }

    /** `reset_state()`. */
    method ResetState()
      modifies this`mode, this`idr, this`gpiod, this`pins
      ensures mode == ModeZero && idr == IdrZero && gpiod == 0 && pins == NoPins()
    {
      mode := ModeZero;
      idr := IdrZero;
      gpiod := 0;
      pins := NoPins();
    }

    /** The first part of `do_disconnect()`: cancel the timer, disable the connected-only
        buttons and `reset_state()`. */
    method StopPanel()
      modifies this`ticker, this`enabled, this`mode, this`idr, this`gpiod, this`pins
      ensures !ticker && !enabled && mode == ModeZero && idr == IdrZero && gpiod == 0 && pins == NoPins()
    {
      ticker := false;
      enabled := false;
      ResetState();
    }

    /** The last part of `do_disconnect()`: close and drop the listener, with the serial
        console, and wait to resync on the next connection. */
    method DropConnection()
      modifies this`listener, this`serial, this`connected, this`reconnect, listener
      ensures listener == null && serial == (old(serial) && old(listener) == null)
      ensures connected == Disconnected && reconnect
      ensures old(listener) != null ==> && old(listener).closed && old(listener).sent == old(listener.sent)
                                        && old(listener).recvBuffer == old(listener.recvBuffer)
    {
      if listener != null {
        listener.Close();
        listener := null;
        serial := false;
      }
      connected := Disconnected;
      reconnect := true;
    }

    /** `do_disconnect()` apart from the display: the timer, the buttons, `reset_state()`, the
        listener and the serial console, and the resync flag. */
    method Teardown()
      modifies this, listener
      ensures listener == null && serial == (old(serial) && old(listener) == null)
      ensures connected == Disconnected && reconnect && !enabled && !ticker
      ensures gpiod == 0 && pins == NoPins() && mode == ModeZero && idr == IdrZero
      ensures usart3 == old(usart3) && sr == old(sr) && cr1 == old(cr1)
      ensures warnings == old(warnings) && errors == old(errors) && stopping == old(stopping)
      ensures old(listener) != null ==> && old(listener).closed && old(listener).sent == old(listener.sent)
                                        && old(listener).recvBuffer == old(listener.recvBuffer)
    {
      StopPanel();
      DropConnection();
    }

    /** `do_disconnect()`. The display is reset before the panel is: the two touch
        different objects. */
    method DoDisconnect()
      requires Valid()
      modifies this, display, display.maps, listener
      ensures Valid() && Model() == Disconnect(old(Model()))
      ensures old(listener) != null ==> old(listener).closed && old(listener).sent == old(listener.sent)
    {
      hide Board.Reset, Display.Model, Display.Groups, Display.Valid;
      display.Reset();
      Teardown();
    }

    /** `on_halt()`. */
    method OnHalt()
      requires Valid()
      modifies this, display, display.maps, listener
      ensures Valid() && Model() == Halt(old(Model())).0
      ensures old(listener) != null ==> old(listener).sent == old(listener.sent) + Halt(old(Model())).1
    {
      if listener != null {
        listener.Write("halt ");
      }
      DoDisconnect();
    }

    /** `on_b1_down()`, with the button under the mouse (`self.button`) as a parameter. */
    method OnB1Down(button: Option<Button>)
      requires Valid() && (button.Some? ==> button.value in Buttons)
      modifies display, listener
      ensures Valid() && Model() == B1Down(old(Model()), button).0
      ensures listener != null ==> listener.sent == old(listener.sent) + B1Down(old(Model()), button).1
    {
      if button.Some? {
        display.ButtonDown(button.value, listener);
      }
    }

    /** `on_b1_up()`. */
    method OnB1Up(button: Option<Button>)
      requires Valid() && (button.Some? ==> button.value in Buttons)
      modifies this, display, listener
      ensures Valid() && Model() == B1Up(old(Model()), button).0
      ensures listener != null ==> listener.sent == old(listener.sent) + B1Up(old(Model()), button).1
    {
      if button.Some? {
        if StartsWith(button.value.up, "reset") {
          gpiod := 0;
        }
        display.ButtonUp(button.value, listener);
      }
    }

    /** `do_query_qemu()`. */
    method DoQueryQemu()
      modifies listener
      ensures listener != null ==> listener.sent == old(listener.sent) + Query(Model())
      ensures listener != null ==> listener.recvBuffer == old(listener.recvBuffer) && listener.closed == old(listener.closed)
    {
      if listener == null {
        return;
      }
      if gpiod == 1 {
        listener.Write("D0? ");
        listener.Write("D4? ");
      }
      if usart3 == 1 {
        listener.Write("U0? ");
        listener.Write("U3? ");
      }
    }

    /** The writes of `on_timer_running()`: `do_query_qemu()` and the clock-enable queries. */
    method PollQueries()
      requires Valid() && listener != null
      modifies listener
      ensures listener.sent == old(listener.sent) + TimerRunning(Model()).1
    {
      DoQueryQemu();
      listener.Write(RccAhbenr);
      if serial {
        listener.Write(RccApb1enr);
      }
    }

    /** `on_timer_running()`; reading the serial console is not modelled. The display is
        animated after the queries are written: the two touch different objects. */
    method OnTimerRunning()
      requires Valid()
      modifies this, display, display.maps, listener
      ensures Valid() && Model() == TimerRunning(old(Model())).0
      ensures listener != null ==> listener.sent == old(listener.sent) + TimerRunning(old(Model())).1
    {
      hide Board.Animate, Display.Model, Display.Groups, Display.Valid;
      if listener != null {
        PollQueries();
        display.Animate();
        if !stopping {
          ticker := true;
        }
      }
    }

    /** One pass of the `for bit, pin in enumerate(self.pins, 8)` loop of the `idr` branch,
        with the commands it writes. */
    method SyncStep(value: int, k: nat, ghost written: seq<string>) returns (ghost c: seq<string>)
      requires Valid() && k < 7
      modifies this`pins, display, display.maps, listener
      ensures Valid()
      ensures Sync(display.Model(), pins, written + c) ==
              SyncPin(Sync(old(display.Model()), old(pins), written), reconnect, listener != null, value, k)
      ensures listener != null ==> listener.sent == old(listener.sent) + c
    {
      hide Board.UpdateDevice, IntBit, Display.Model, Display.Groups, Display.Valid;
      var bit := 8 + k;
      var state := IntBit(value, bit);
      if reconnect {
        pins := pins[k := state];
        display.UpdateDevice(bit, state, listener);
        c := Board.UpdateDevice(old(display.Model()), bit, state, listener != null).1;
      } else if state != pins[k] {
        display.UpdateDevice(bit, state, listener);
        pins := pins[k := state];
        c := Board.UpdateDevice(old(display.Model()), bit, state, listener != null).1;
      } else {
        pins := pins[k := state];
        c := [];
      }
    }

    /** Pass k of the loop after the first k: the check boxes, the display and the commands
        written are then those of the first k + 1 passes. */
    method SyncNext(value: int, k: nat, ghost s0: Sync, ghost written: seq<string>) returns (ghost c: seq<string>)
      requires Valid() && k < 7 && Shaped(s0.view) && |s0.pins| == 7
      requires Sync(display.Model(), pins, written) == SyncPins(s0, reconnect, listener != null, value, k)
      modifies this`pins, display, display.maps, listener
      ensures Valid()
      ensures Sync(display.Model(), pins, written + c) == SyncPins(s0, reconnect, listener != null, value, k + 1)
      ensures listener != null ==> listener.sent == old(listener.sent) + c
    {
      c := SyncStep(value, k, written);
    }

    /** The `for bit, pin in enumerate(self.pins, 8)` loop of the `idr` branch. */
    method SyncIdr(value: int) returns (ghost written: seq<string>)
      requires Valid()
      modifies this`pins, display, display.maps, listener
      ensures Valid()
      ensures Sync(display.Model(), pins, written) ==
              SyncPins(Sync(old(display.Model()), old(pins), []), reconnect, listener != null, value, 7)
      ensures listener != null ==> listener.sent == old(listener.sent) + written
    {
      hide Display.Model, Display.Groups, Display.Valid;
      ghost var s0 := Sync(display.Model(), pins, []);
      ghost var sent0 := if listener != null then listener.sent else [];
      written := [];
      var k := 0;
      while k < 7
        invariant 0 <= k <= 7 && Valid()
        invariant Sync(display.Model(), pins, written) == SyncPins(s0, reconnect, listener != null, value, k)
        invariant listener != null ==> listener.sent == sent0 + written
      {
        hide SyncPins, SyncPin, Board.UpdateDevice;
        var c := SyncNext(value, k, s0, written);
        assert sent0 + written + c == sent0 + (written + c);
        written := written + c;
        k := k + 1;
      }
    }

    /** The replay at the end of a resync: every button with a pin whose bit is set is pressed
        and released with no listener. */
    method Replay(value: int)
      requires Valid()
      modifies display
      ensures Valid() && display.Model() == PressPinned(old(display.Model()), value, |Buttons|)
    {
      var i := 0;
      while i < |Buttons|
        invariant 0 <= i <= |Buttons| && Valid()
        invariant display.Model() == PressPinned(old(display.Model()), value, i)
      {
        var b := Buttons[i];
        if b.pin.Some? && IntBit(value, b.pin.value) == 1 {
          display.ButtonDown(b, null);
          display.ButtonUp(b, null);
        }
        i := i + 1;
      }
    }

    /** The end of the `idr` branch: a resync ends with the replay. */
    method EndResync(value: int)
      requires Valid()
      modifies this`reconnect, display
      ensures Valid() && !reconnect
      ensures display.Model() == if old(reconnect) then PressPinned(old(display.Model()), value, |Buttons|) else old(display.Model())
    {
      if reconnect {
        reconnect := false;
        Replay(value);
      }
    }

    /** The `idr` branch of `on_qemu_message`. */
    method OnIdrMessage(value: int)
      requires Valid()
      modifies this, display, display.maps, listener
      ensures Valid() && Model() == OnIdr(old(Model()), value).0 && listener == old(listener)
      ensures listener != null ==> listener.sent == old(listener.sent) + OnIdr(old(Model()), value).1
    {
      hide SyncPins, PressPinned, Board.UpdateDevice, IdrLabel, Display.Model, Display.Groups, Display.Valid;
      idr := IdrLabel(value);
      var written := SyncIdr(value);
      EndResync(value);
    }

    /** The message of the `qemu_shutdown` branch, when there is a listener. */
    method ShutdownNotice()
      modifies this`warnings, this`errors
      ensures warnings == old(warnings) + (if listener != null && connected == Connected then [ClosedDown] else [])
      ensures errors == old(errors) + (if listener != null && connected != Connected then [NotRunning] else [])
    {
      if listener != null {
        if connected == Connected {
          warnings := warnings + [ClosedDown];
        } else {
          errors := errors + [NotRunning];
        }
      }
    }

    /** The `qemu_shutdown` branch of `on_qemu_message`. */
    method OnShutdownMessage()
      requires Valid()
      modifies this, display, display.maps, listener
      ensures Valid() && Model() == OnShutdown(old(Model()))
      ensures old(listener) != null ==> old(listener).closed && old(listener).sent == old(listener.sent)
    {
      hide Board.Reset, Display.Model, Display.Groups, Display.Valid;
      display.Reset();
      ShutdownNotice();
      DoDisconnect();
    }

    /** The branches of `on_qemu_message` that set a register label or the USART3 check box. */
    method OnRegisterMessage(ev: Event)
      requires Valid() && ev.tag in {Moder, Usart3Enabled, Sr, Cr1}
      modifies this`mode, this`usart3, this`sr, this`cr1
      ensures Valid() && Model() == OnIndicator(old(Model()), ev)
    {
      hide ModeLabel, SrLabel, Cr1Label, IntBit, Display.Model, Display.Groups, Display.Valid;
      if ev.tag == Moder {
        mode := ModeLabel(ev.value);
      } else if ev.tag == Usart3Enabled {
        usart3 := IntBit(ev.value, 18);
      } else if ev.tag == Sr {
        sr := SrLabel(ev.value);
      } else {
        cr1 := Cr1Label(ev.value);
      }
    }

    /** The branches of `on_qemu_message` that set one indicator or add a message. */
    method OnIndicatorMessage(ev: Event)
      requires Valid() && ev.tag !in {GpiodEnabled, Idr, QemuShutdown}
      modifies this`mode, this`usart3, this`sr, this`cr1, this`warnings
      ensures Valid() && Model() == OnIndicator(old(Model()), ev)
    {
      hide Decimal, Display.Model, Display.Groups, Display.Valid;
      if ev.tag in {Moder, Usart3Enabled, Sr, Cr1} {
        OnRegisterMessage(ev);
      } else if ev.tag == QemuWarning {
        warnings := warnings + [ev.message];
      } else {
        warnings := warnings + [UnknownTag + Decimal(TagCode(ev.tag))];
      }
    }

    /** The `gpiod_enabled` branch of `on_qemu_message`. */
    method OnGpiodMessage(value: int)
      requires Valid()
      modifies this`warnings, this`enabled, this`connected, this`gpiod
      ensures Valid() && Model() == OnGpiodEnabled(old(Model()), value)
    {
      if connected != Connected {
        warnings := warnings + [ConnectedOk];
        enabled := true;
        connected := Connected;
      }
      gpiod := IntBit(value, 3);
    }

    /** `on_qemu_message(event)`. */
    method OnQemuMessage(ev: Event)
      requires Valid()
      modifies this, display, display.maps, listener
      ensures Valid() && Model() == OnMessage(old(Model()), ev).0
      ensures old(listener) != null ==> old(listener).sent == old(listener.sent) + OnMessage(old(Model()), ev).1
    {
      hide OnIdr, OnShutdown, OnIndicator, OnGpiodEnabled, Display.Model, Display.Groups, Display.Valid;
      if ev.tag == GpiodEnabled {
        OnGpiodMessage(ev.value);
      } else if ev.tag == Idr {
        OnIdrMessage(ev.value);
      } else if ev.tag == QemuShutdown {
        OnShutdownMessage();
      } else {
        OnIndicatorMessage(ev);
      }
    }
  }
}
