/** The board display as the objects the emulator front end updates in place: one `PinMap`
    per device group and the `BoardDisplay` that owns them. Each method is proved against the
    matching specification function of `Board`; the canvas is replaced by the map of the image
    index shown per overlay id, and the commands written to the emulator go to a
    `QEmuListener` when there is one. */
module BoardDisplay {

  import opened Wrappers
  import opened Board
  import opened Listener

  /** `PinMap`: a group of output pins with its image state. */
  class PinMap {
    const name: string
    const pins: seq<nat>
    const reset: nat
    const image: Option<string>
    var state: nat
    var sprite: nat
    var poll: nat

    function Config(): PinMapConfig
    {
      PinMapConfig(name, pins, reset, image)
    }

    function Group(): Board.Group
      reads this
    {
      Board.Group(state, sprite, poll)
    }

    constructor (c: PinMapConfig)
      ensures Config() == c && Group() == Board.Group(0, 0, 0)
    {
      name, pins, reset, image := c.name, c.pins, c.reset, c.image;
      state, sprite, poll := 0, 0, 0;
    }

    /** `update_board(display, overlays, pin, level, show)`; the index it would show is
        returned for the display to show. */
    method UpdateBoard(pin: nat, level: Level) returns (index: nat)
      requires pins != [] && pins[0] <= pin
      modifies this
      ensures Group() == UpdateGroup(old(Group()), Config(), pin, level)
      ensures index == DisplayIndex(state, reset)
    {
      var bit := pin - pins[0];
      if level == 1 {
        state := Bitops.SetBit(state, bit);
      } else {
        state := Bitops.ClearBit(state, bit);
        sprite := reset;
      }
      index := if state != 0 then state else reset;
    }

    /** `animate_board(display, overlays, update, backwards, overlay)`; whether the sprite
        stepped (and so is to be shown, with the companion group's state). */
    method AnimateBoard(frames: nat, update: nat, backwards: bool) returns (stepped: bool)
      requires frames > 0
      modifies this
      ensures (Group(), stepped) == AnimateGroup(old(Group()), frames, update, backwards)
    {
      stepped := false;
      if state == 0 {
        return;
      }
      poll := poll + 1;
      if poll < update {
        return;
      }
      poll := 0;
      if !backwards {
        sprite := (sprite + 1) % frames;
      } else if sprite == 0 {
        sprite := frames - 1;
      } else {
        sprite := sprite - 1;
      }
      stepped := true;
    }
  }

  /** `BoardDisplay`. */
  class Display {
    var latch: bool
    var latched: seq<bool>
    /** The image index shown for each overlay id that has been drawn (`image_info`). */
    var shown: map<nat, nat>
    /** The board's `pin_map`, in its dictionary order. */
    const maps: seq<PinMap>

    /** The pin maps are those of the board, each its own object. */
    predicate Valid()
      reads this, maps
    {
      && |maps| == |PinMaps| && |latched| == |Buttons|
      && (forall i | 0 <= i < |maps| :: maps[i].Config() == PinMaps[i])
      && (forall i, j | 0 <= i < j < |maps| :: maps[i] != maps[j])
    }

    /** The groups' states, in the order of `maps`. */
    function Groups(): (gs: seq<Board.Group>)
      reads maps
      ensures |maps| == 4 ==> |gs| == 4
    {
      if |maps| == 4 then [maps[0].Group(), maps[1].Group(), maps[2].Group(), maps[3].Group()] else []
    }

    /** The display's state as a value. */
    function Model(): (v: View)
      reads this, maps
      ensures Valid() ==> Shaped(v)
    {
      View(latch, latched, shown, Groups())
    }

    constructor ()
      ensures Valid() && Model() == Initial() && fresh(maps)
    {
      var m0 := new PinMap(PinMaps[0]);
      var m1 := new PinMap(PinMaps[1]);
      var m2 := new PinMap(PinMaps[2]);
      var m3 := new PinMap(PinMaps[3]);
      maps := [m0, m1, m2, m3];
      latch := false;
      latched := seq(|Buttons|, _ => false);
      shown := map[];
      new;
      assert Groups() == [m0.Group(), m1.Group(), m2.Group(), m3.Group()];
    }

    /** `update_image(overlay, index)`. */
    method UpdateImage(o: Overlay, index: nat)
      modifies this`shown
      ensures Model() == Board.UpdateImage(old(Model()), o, index)
    {
      shown := shown[o.id := index];
    }

    /** `update_button(button, level)`. */
    method UpdateButton(b: Button, level: Level)
      modifies this`shown
      ensures Model() == Board.UpdateButton(old(Model()), b, level)
    {
      if b.name in Overlays {
        UpdateImage(Overlays[b.name], level);
      }
    }

    /** `update_latch(level, qemu)`. */
    method UpdateLatch(level: Level, qemu: QEmuListener?)
      requires Valid()
      modifies this, qemu
      ensures Valid() && Groups() == old(Groups())
      ensures Model() == Board.UpdateLatch(old(Model()), level, qemu != null).0
      ensures qemu != null ==> qemu.sent == old(qemu.sent) + Board.UpdateLatch(old(Model()), level, true).1
      ensures qemu != null ==> qemu.recvBuffer == old(qemu.recvBuffer) && qemu.closed == old(qemu.closed)
    {
      hide Groups;
      latch := level != 0;
      if latch {
        return;
      }
      ButtonsPinOk();
      var wire := qemu != null;
      ghost var goal := ReleaseLatched(Model(), Buttons, level, wire);
      ghost var written: seq<string> := [];
      ghost var sent0 := if qemu != null then qemu.sent else [];
      assert [] + goal.1 == goal.1;
      var rest := Buttons;
      while rest != []
        invariant Valid() && Groups() == old(Groups()) && !latch
        invariant forall b | b in rest :: PinOk(b)
        invariant goal == (ReleaseLatched(Model(), rest, level, wire).0, written + ReleaseLatched(Model(), rest, level, wire).1)
        invariant qemu != null ==> qemu.sent == sent0 + written
        invariant qemu != null ==> qemu.recvBuffer == old(qemu.recvBuffer) && qemu.closed == old(qemu.closed)
        decreases |rest|
      {
        var b := rest[0];
        assert b in rest && forall c | c in rest[1..] :: c in rest;
        ghost var v := Model();
        rest := rest[1..];
        if b.style != Latch {
          continue;
        }
        ghost var after := ReleaseLatched(ReleaseOne(v, b, level), rest, level, wire);
        ReleaseButton(b, level, qemu);
        Concat3(written, if wire then [b.up] else [], after.1);
        Concat3(sent0, written, if wire then [b.up] else []);
        written := written + (if wire then [b.up] else []);
      }
      assert written + [] == written;
    }

    /** The body of `update_latch`'s loop for a latch-style button. */
    method ReleaseButton(b: Button, level: Level, qemu: QEmuListener?)
      requires Valid() && b.style == Latch && PinOk(b)
      modifies this`latched, this`shown, qemu
      ensures Valid() && Groups() == old(Groups())
      ensures Model() == ReleaseOne(old(Model()), b, level)
      ensures qemu != null ==> qemu.sent == old(qemu.sent) + [b.up]
      ensures qemu != null ==> qemu.recvBuffer == old(qemu.recvBuffer) && qemu.closed == old(qemu.closed)
    {
      hide Groups;
      latched := latched[b.pin.value := false];
      if qemu != null {
        qemu.Write(b.up);
      }
      UpdateButton(b, level);
    }

    /** `update_device(pin, level, qemu)`. */
    method UpdateDevice(pin: nat, level: Level, qemu: QEmuListener?)
      requires Valid()
      modifies this, maps, qemu
      ensures Valid()
      ensures Model() == Board.UpdateDevice(old(Model()), pin, level, qemu != null).0
      ensures qemu != null ==> qemu.sent == old(qemu.sent) + Board.UpdateDevice(old(Model()), pin, level, qemu != null).1
      ensures qemu != null ==> qemu.recvBuffer == old(qemu.recvBuffer) && qemu.closed == old(qemu.closed)
    {
      var wire := qemu != null;
      if 8 <= pin <= 11 {
        UpdateImage(Overlays[LedName(pin - 8)], level);
      }
      ghost var goal := UpdateMaps(Model(), 0, pin, level, wire);
      ghost var written: seq<string> := [];
      ghost var sent0 := if qemu != null then qemu.sent else [];
      assert [] + goal.1 == goal.1;
      for i := 0 to |maps|
        invariant Valid()
        invariant goal == (UpdateMaps(Model(), i, pin, level, wire).0, written + UpdateMaps(Model(), i, pin, level, wire).1)
        invariant qemu != null ==> qemu.sent == sent0 + written
        invariant qemu != null ==> qemu.recvBuffer == old(qemu.recvBuffer) && qemu.closed == old(qemu.closed)
      {
        written := MapStep(i, pin, level, qemu, written, goal, sent0);
      }
      assert written + [] == written;
    }

    /** The body of `update_device`'s loop, with the commands written so far. */
    method MapStep(i: nat, pin: nat, level: Level, qemu: QEmuListener?, ghost written: seq<string>,
                   ghost goal: (View, seq<string>), ghost sent0: seq<string>)
      returns (ghost written2: seq<string>)
      requires Valid() && i < |maps|
      requires goal == (UpdateMaps(Model(), i, pin, level, qemu != null).0, written + UpdateMaps(Model(), i, pin, level, qemu != null).1)
      requires qemu != null ==> qemu.sent == sent0 + written
      modifies this, maps[i], qemu
      ensures Valid()
      ensures goal == (UpdateMaps(Model(), i + 1, pin, level, qemu != null).0, written2 + UpdateMaps(Model(), i + 1, pin, level, qemu != null).1)
      ensures qemu != null ==> qemu.sent == sent0 + written2
      ensures qemu != null ==> qemu.recvBuffer == old(qemu.recvBuffer) && qemu.closed == old(qemu.closed)
    {
      var wire := qemu != null;
      assert maps[i].Config() == PinMaps[i];
      ghost var v := Model();
      if pin in maps[i].pins {
        UpdateMap(i, pin, level, qemu);
      }
      written2 := written + MapOutput(v, i, pin, level, wire).1;
      Concat3(sent0, written, MapOutput(v, i, pin, level, wire).1);
      assert written + [] == written;
      MapsAdvance(v, Model(), i, pin, level, wire, written, goal);
    }

    /** The body of `update_device`'s loop for a group holding the pin. */
    method UpdateMap(i: nat, pin: nat, level: Level, qemu: QEmuListener?)
      requires Valid() && i < |maps| && pin in maps[i].pins
      modifies this, maps[i], qemu
      ensures Valid()
      ensures Model() == MapUpdate(old(Model()), i, pin, level, qemu != null).0
      ensures qemu != null ==> qemu.sent == old(qemu.sent) + MapUpdate(old(Model()), i, pin, level, qemu != null).1
      ensures qemu != null ==> qemu.recvBuffer == old(qemu.recvBuffer) && qemu.closed == old(qemu.closed)
    {
      var m := maps[i];
      PinMapFacts(i);
      ghost var v := Model();
      var index := m.UpdateBoard(pin, level);
      GroupsAfter(v, i);
      if m.image.Some? {
        UpdateImage(Overlays[m.image.value], index);
      }
      assert Model() == GroupUpdate(v, i, pin, level);
      if m.name == "latch" {
        UpdateLatch(level, qemu);
      }
    }

    /** The groups after `maps[i]` alone has changed. */
    lemma GroupsAfter(v: View, i: nat)
      requires |maps| == |PinMaps| && (forall a, b | 0 <= a < b < |maps| :: maps[a] != maps[b])
      requires i < |maps| && |v.groups| == |maps|
      requires forall j | 0 <= j < |maps| && j != i :: maps[j].Group() == v.groups[j]
      ensures Groups() == v.groups[i := maps[i].Group()]
    {
    }

    /** `reset()`. */
    method Reset()
      requires Valid()
      modifies this, maps
      ensures Valid()
      ensures Model() == Board.Reset(old(Model()))
    {
      ghost var v0 := Model();
      for pin := 8 to 15
        invariant Valid()
        invariant Board.Reset(v0) == ResetFrom(Model(), pin)
      {
        UpdateDevice(pin, 0, null);
      }
    }

    /** `toggle_init()`. */
    method ToggleInit()
      requires Valid()
      modifies this`shown
      ensures Model() == Board.ToggleInit(old(Model()), 0)
    {
      for k := 0 to |Buttons|
        invariant Board.ToggleInit(old(Model()), 0) == Board.ToggleInit(Model(), k)
      {
        if Buttons[k].style == Toggle {
          UpdateButton(Buttons[k], 0);
        }
      }
    }

    /** `button_down(button, qemu)`. */
    method ButtonDown(b: Button, qemu: QEmuListener?)
      requires Valid() && b in Buttons
      modifies this, qemu
      ensures Valid() && Groups() == old(Groups())
      ensures Model() == Board.ButtonDown(old(Model()), b, qemu != null).0
      ensures qemu != null ==> qemu.sent == old(qemu.sent) + Board.ButtonDown(old(Model()), b, true).1
      ensures qemu != null ==> qemu.recvBuffer == old(qemu.recvBuffer) && qemu.closed == old(qemu.closed)
    {
      hide Board.UpdateButton, Board.UpdateImage, Groups;
      ButtonFacts(b);
      if b.style == Latch {
        if latch && latched[b.pin.value] {
          return;
        }
        latched := latched[b.pin.value := latch];
      } else if b.style == Toggle {
        if latched[b.pin.value] {
          latched := latched[b.pin.value := false];
          return;
        }
        latched := latched[b.pin.value := true];
      }
      UpdateButton(b, 1);
      if qemu != null && b.down != "" {
        qemu.Write(b.down);
      }
    }

    /** `button_up(button, qemu)`. */
    method ButtonUp(b: Button, qemu: QEmuListener?)
      requires Valid() && b in Buttons
      modifies this, qemu
      ensures Valid() && Groups() == old(Groups())
      ensures Model() == Board.ButtonUp(old(Model()), b, qemu != null).0
      ensures qemu != null ==> qemu.sent == old(qemu.sent) + Board.ButtonUp(old(Model()), b, true).1
      ensures qemu != null ==> qemu.recvBuffer == old(qemu.recvBuffer) && qemu.closed == old(qemu.closed)
    {
      hide Board.UpdateButton, Board.UpdateImage, Groups;
      ButtonFacts(b);
      if b.style == Latch {
        if latch && latched[b.pin.value] {
          return;
        }
      } else if b.style == Toggle {
        if latched[b.pin.value] {
          return;
        }
      }
      UpdateButton(b, 0);
      if qemu != null && b.up != "" {
        qemu.Write(b.up);
      }
    }

    /** `animate()`. */
    method Animate()
      requires Valid()
      modifies this, maps
      ensures Valid()
      ensures Model() == Board.Animate(old(Model()), 0)
    {
      for k := 0 to |Animations|
        invariant Valid()
        invariant Board.Animate(old(Model()), 0) == Board.Animate(Model(), k)
      {
        var a := Animations[k];
        var mi := MapIndex(a.pinMap).value;
        var m := maps[mi];
        PinMapFacts(mi);
        if m.state == 0 {
          continue;
        }
        ghost var v := Model();
        var backwards := match a.direction case None => false case Some(d) => maps[MapIndex(d).value].state != 0;
        var frames := Overlays[m.image.value].frames;
        var stepped := m.AnimateBoard(frames, a.poll, backwards);
        GroupsAfter(v, mi);
        if stepped {
          UpdateImage(Overlays[m.image.value], m.sprite);
          if a.overlay.Some? {
            var o := maps[MapIndex(a.overlay.value).value];
            UpdateImage(Overlays[o.image.value], o.state);
          }
        }
      }
    }
  }

  lemma Concat3<T>(a: seq<T>, b: seq<T>, c: seq<T>)
    ensures a + (b + c) == (a + b) + c
  {
  }

  /** What `update_device`'s loop does at group i: `MapUpdate` when the group holds the pin,
      nothing otherwise. */
  function MapOutput(v: View, i: nat, pin: nat, level: Level, wire: bool): (r: (View, seq<string>))
    requires Shaped(v) && i < |PinMaps|
  {
    if pin in PinMaps[i].pins then MapUpdate(v, i, pin, level, wire) else (v, [])
  }

  /** One step of `UpdateMaps`, in the form the loop of `UpdateDevice` keeps. */
  lemma MapsAdvance(v: View, w: View, i: nat, pin: nat, level: Level, wire: bool, written: seq<string>, goal: (View, seq<string>))
    requires Shaped(v) && i < |PinMaps| && w == MapOutput(v, i, pin, level, wire).0
    requires goal == (UpdateMaps(v, i, pin, level, wire).0, written + UpdateMaps(v, i, pin, level, wire).1)
    ensures var written2 := written + MapOutput(v, i, pin, level, wire).1;
      goal == (UpdateMaps(w, i + 1, pin, level, wire).0, written2 + UpdateMaps(w, i + 1, pin, level, wire).1)
  {
    if pin in PinMaps[i].pins {
      var step := MapUpdate(v, i, pin, level, wire);
      var vs := UpdateMaps(step.0, i + 1, pin, level, wire);
      Concat3(written, step.1, vs.1);
    } else {
      assert written + [] == written;
    }
  }
}
