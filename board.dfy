/** The WMS board as the emulator front end drives it: the static layout tables (`WmsBoard`,
    `STM32.led_overlays`), and the display state of `BoardDisplay` and its `PinMap`s as a value,
    with one specification function per display operation. What the canvas shows is abstracted
    to the image index shown for each overlay id. */
module Board {

  import opened Wrappers
  import opened Bitops

  /** `ButtonStyle`. */
  datatype ButtonStyle = Plain | Latch | Toggle

  /** A `Button` less its screen geometry: the GPIO input pin it drives (if any), its style and
      the commands sent when it is pressed and released. */
  datatype Button = Button(name: string, pin: Option<nat>, style: ButtonStyle, down: string, up: string)

  /** An `Overlay`: its slot in the shown-image table and how many images it has. */
  datatype Overlay = Overlay(id: nat, frames: nat)

  /** The constant part of a `PinMap`: the GPIO output pins of one device group, the index
      shown when they are all low, and the overlay that shows the group (if any). */
  datatype PinMapConfig = PinMapConfig(name: string, pins: seq<nat>, reset: nat, image: Option<string>)

  /** An `Animation`: the group whose sprite moves, how many ticks per step, the group whose
      state gives the direction, and the group whose state is shown alongside. */
  datatype Animation = Animation(pinMap: string, poll: nat, direction: Option<string>, overlay: Option<string>)

  const Buttons: seq<Button> := [
    Button("reset", None, Plain, "", "reset "),
    Button("door", Some(0), Toggle, "D0L0 ", "D0d0 "),
    Button("PS1", Some(1), Latch, "D0l1 ", "D0d1 "),
    Button("PS2", Some(2), Latch, "D0l2 ", "D0d2 "),
    Button("PS3", Some(3), Latch, "D0l3 ", "D0d3 "),
    Button("cancel", Some(4), Latch, "D0l4 ", "D0d4 "),
    Button("accept", Some(5), Latch, "D0l5 ", "D0d5 "),
    Button("motor", Some(6), Plain, "D0l6 ", "D0d6 ")]

  /** The four LED overlays of the STM32 board, then those of the WMS board. */
  const Overlays: map<string, Overlay> := map[
    "led-0" := Overlay(0, 2), "led-1" := Overlay(1, 2), "led-2" := Overlay(2, 2), "led-3" := Overlay(3, 2),
    "PS1" := Overlay(4, 2), "PS2" := Overlay(5, 2), "PS3" := Overlay(6, 2),
    "sseg" := Overlay(7, 16), "motor" := Overlay(8, 3), "spinner" := Overlay(9, 3),
    "door" := Overlay(10, 2)]

  /** The number of images of the overlay with each id. */
  const FramesById: seq<nat> := [2, 2, 2, 2, 2, 2, 2, 16, 3, 3, 2]

  /** `pin_map`, in its dictionary order. */
  const PinMaps: seq<PinMapConfig> := [
    PinMapConfig("sseg", [8, 9, 10, 11], 0, Some("sseg")),
    PinMapConfig("motor", [12], 0, Some("motor")),
    PinMapConfig("spinner", [13], 2, Some("spinner")),
    PinMapConfig("latch", [14], 0, None)]

  const Animations: seq<Animation> := [Animation("motor", 1, Some("spinner"), Some("spinner"))]

  /** `f'led-{k}'` for the four LEDs. */
  function LedName(k: nat): (name: string)
    requires k < 4
    ensures name in Overlays && Overlays[name].id == k
  {
    ["led-0", "led-1", "led-2", "led-3"][k]
  }

  /** The position of a named group in `PinMaps`. */
  function MapIndex(name: string): (r: Option<nat>)
    ensures r.Some? ==> r.value < |PinMaps| && PinMaps[r.value].name == name
    ensures r.None? ==> forall i | 0 <= i < |PinMaps| :: PinMaps[i].name != name
  {
    if name == "sseg" then Some(0) else if name == "motor" then Some(1)
    else if name == "spinner" then Some(2) else if name == "latch" then Some(3) else None
  }

  // ---------------------------------------------------------------------------
  // Table facts

  /** The buttons that hold a flag (latch and toggle style) drive a pin, and every pin indexes
      the `latched` list. */
  lemma ButtonFacts(b: Button)
    requires b in Buttons
    ensures b.style != Plain ==> b.pin.Some?
    ensures b.pin.Some? ==> b.pin.value < |Buttons|
    ensures b.name in Overlays ==> Overlays[b.name].id < |FramesById| && 2 <= FramesById[Overlays[b.name].id]
  {
  }

  /** Every overlay has a distinct id within the table, and `FramesById` agrees with it. */
  lemma OverlayFacts(name: string)
    requires name in Overlays
    ensures Overlays[name].id < |FramesById| && FramesById[Overlays[name].id] == Overlays[name].frames
    ensures Overlays[name].frames >= 2
  {
  }

  lemma OverlayIdsDistinct(a: string, b: string)
    requires a in Overlays && b in Overlays && a != b
    ensures Overlays[a].id != Overlays[b].id
  {
  }

  /** Each group's pins run consecutively from its first; the groups share no pin; each
      group with an overlay has enough images for every state and for its reset index. */
  lemma PinMapFacts(i: nat)
    requires i < |PinMaps|
    ensures var c := PinMaps[i];
      && c.pins != [] && (forall k | 0 <= k < |c.pins| :: c.pins[k] == c.pins[0] + k)
      && (forall j | 0 <= j < |PinMaps| && j != i :: c.pins[0] !in PinMaps[j].pins)
      && (c.image.Some? ==>
            && c.image.value in Overlays
            && Pow2(|c.pins|) <= Overlays[c.image.value].frames
            && c.reset < Overlays[c.image.value].frames)
      && (c.image.None? ==> c.reset == 0)
  {
    assert Pow2(1) == 2 && Pow2(4) == 16 by {
      assert Pow2(2) == 4;
    }
  }

  /** The group that holds a given output pin, if any. */
  function MapOfPin(pin: nat): (r: Option<nat>)
    ensures r.Some? ==> r.value < |PinMaps| && pin in PinMaps[r.value].pins
    ensures r.None? ==> forall i | 0 <= i < |PinMaps| :: pin !in PinMaps[i].pins
  {
    if 8 <= pin <= 11 then Some(0) else if pin == 12 then Some(1)
    else if pin == 13 then Some(2) else if pin == 14 then Some(3) else None
  }

  /** No pin belongs to two groups. */
  lemma PinInOneMap(pin: nat, i: nat)
    requires i < |PinMaps| && pin in PinMaps[i].pins
    ensures MapOfPin(pin) == Some(i)
  {
  }

  // ---------------------------------------------------------------------------
  // Display state

  /** A GPIO level as the board reads it (`(value >> bit) & 1`). */
  type Level = x: int | 0 <= x <= 1

  /** The mutable part of a `PinMap`. */
  datatype Group = Group(state: nat, sprite: nat, poll: nat)

  /** `BoardDisplay`'s state with that of its pin maps: the latch, the `latched` flags indexed
      by pin, the image index shown for each overlay id, and the groups in `PinMaps` order. */
  datatype View = View(latch: bool, latched: seq<bool>, shown: map<nat, nat>, groups: seq<Group>)

  /** The lengths the tables fix. */
  predicate Shaped(v: View)
  {
    |v.latched| == 8 && |v.groups| == 4
  }

  /** Every shown index names an image of its overlay, every group state fits its pins (so its
      display index names an image) and every sprite names an image of its group's overlay. */
  predicate Valid(v: View)
  {
    && Shaped(v)
    && (forall id | id in v.shown :: id < |FramesById| && v.shown[id] < FramesById[id])
    && (forall i | 0 <= i < |PinMaps| :: v.groups[i].state < Pow2(|PinMaps[i].pins|))
    && (forall i | 0 <= i < |PinMaps| :: v.groups[i].sprite < SpriteLimit(i))
  }

  /** The number of images the sprite of group i ranges over (1 for a group with no overlay). */
  function SpriteLimit(i: nat): (n: nat)
    requires i < |PinMaps|
    ensures n > 0 && PinMaps[i].reset < n
  {
    PinMapFacts(i);
    match PinMaps[i].image
    case None => 1
    case Some(name) => Overlays[name].frames
  }

  /** A display as constructed: no latch, no flag, nothing shown, all groups zero. */
  function Initial(): (v: View)
    ensures Valid(v)
  {
    View(false, seq(|Buttons|, _ => false), map[], seq(|PinMaps|, _ => Group(0, 0, 0)))
  }

  /** The level a group holds for an output pin: bit `pin - base` of its state. */
  function DeviceLevel(v: View, pin: nat): (l: nat)
    requires Shaped(v)
  {
    match MapOfPin(pin)
    case None => 0
    case Some(i) => BitOf(v.groups[i].state, pin - PinMaps[i].pins[0])
  }

  // ---------------------------------------------------------------------------
  // PinMap.update_board and the display index

  /** `update_board`'s effect on the group: level 1 sets the pin's bit; level 0 clears it and
      puts the sprite back to the reset index. */
  function UpdateGroup(g: Group, c: PinMapConfig, pin: nat, level: Level): Group
    requires c.pins != [] && c.pins[0] <= pin
  {
    var bit := pin - c.pins[0];
    if level == 1 then g.(state := SetBit(g.state, bit))
    else Group(ClearBit(g.state, bit), c.reset, g.poll)
  }

  /** `index = state if state else reset`. */
  function DisplayIndex(state: nat, reset: nat): nat
  {
    if state != 0 then state else reset
  }

  /** After `update_board` the pin's bit holds the level and no other bit changes; level 0
      also resets the sprite; the poll count is never touched. */
  lemma UpdateGroupBits(g: Group, c: PinMapConfig, pin: nat, level: Level, k: nat)
    requires c.pins != [] && c.pins[0] <= pin
    ensures var r := UpdateGroup(g, c, pin, level);
      && BitOf(r.state, k) == (if k == pin - c.pins[0] then level else BitOf(g.state, k))
      && r.sprite == (if level == 0 then c.reset else g.sprite)
      && r.poll == g.poll
  {
    if level == 1 {
      SetBitBits(g.state, pin - c.pins[0], k);
    } else {
      ClearBitBits(g.state, pin - c.pins[0], k);
    }
  }

  /** Setting or clearing a bit below n of a value below 2^n gives a value below 2^n. */
  lemma UpdateGroupBound(g: Group, c: PinMapConfig, pin: nat, level: Level)
    requires c.pins != [] && c.pins[0] <= pin < c.pins[0] + |c.pins| && g.state < Pow2(|c.pins|)
    ensures UpdateGroup(g, c, pin, level).state < Pow2(|c.pins|)
  {
    SetBitBound(g.state, pin - c.pins[0], |c.pins|);
  }

  /** The index `update_board` shows always names an image of the group's overlay. */
  lemma DisplayIndexBound(state: nat, i: nat)
    requires i < |PinMaps| && PinMaps[i].image.Some? && state < Pow2(|PinMaps[i].pins|)
    ensures DisplayIndex(state, PinMaps[i].reset) < Overlays[PinMaps[i].image.value].frames
  {
    PinMapFacts(i);
  }

  // ---------------------------------------------------------------------------
  // PinMap.animate_board

  /** The next sprite: forwards modulo the number of images, or backwards with 0 wrapping to
      the last image. */
  function StepSprite(sprite: nat, frames: nat, backwards: bool): (r: nat)
    requires frames > 0
    ensures sprite < frames || !backwards ==> r < frames
  {
    if !backwards then (sprite + 1) % frames
    else if sprite == 0 then frames - 1
    else sprite - 1
  }

  /** `animate_board`'s effect on the group, and whether it stepped the sprite (and so showed
      it): nothing while all pins are low; otherwise one more poll, and a step once `update`
      polls have been counted. */
  function AnimateGroup(g: Group, frames: nat, update: nat, backwards: bool): (r: (Group, bool))
    requires frames > 0
  {
    if g.state == 0 then (g, false)
    else if g.poll + 1 < update then (g.(poll := g.poll + 1), false)
    else (Group(g.state, StepSprite(g.sprite, frames, backwards), 0), true)
  }

  /** Stepping back undoes stepping forward and vice versa. */
  lemma StepSpriteInverse(sprite: nat, frames: nat)
    requires sprite < frames
    ensures StepSprite(StepSprite(sprite, frames, false), frames, true) == sprite
    ensures StepSprite(StepSprite(sprite, frames, true), frames, false) == sprite
  {
    if sprite + 1 < frames {
      assert (sprite + 1) % frames == sprite + 1;
    } else {
      assert (sprite + 1) % frames == 0;
    }
    if sprite == 0 {
      assert frames % frames == 0;
    } else {
      assert sprite % frames == sprite;
    }
  }

  /** `animate_board` called n times with the same arguments. */
  function AnimateTimes(g: Group, frames: nat, update: nat, backwards: bool, n: nat): Group
    requires frames > 0
    decreases n
  {
    if n == 0 then g else AnimateTimes(AnimateGroup(g, frames, update, backwards).0, frames, update, backwards, n - 1)
  }

  /** The cadence: while some pin is high, starting from a fresh count, the first update - 1
      calls only count, and the `update`-th steps the sprite once and restarts the count. */
  lemma AnimateCadence(g: Group, frames: nat, update: nat, backwards: bool, n: nat)
    requires frames > 0 && g.state != 0 && g.poll == 0 && 1 <= update && n <= update
    ensures n < update ==> AnimateTimes(g, frames, update, backwards, n) == g.(poll := n)
    ensures n == update ==>
      AnimateTimes(g, frames, update, backwards, n) == Group(g.state, StepSprite(g.sprite, frames, backwards), 0)
  {
    CountPolls(g, frames, update, backwards, n, 0);
  }

  lemma {:induction false} CountPolls(g: Group, frames: nat, update: nat, backwards: bool, n: nat, p: nat)
    requires frames > 0 && g.state != 0 && 1 <= update && p + n <= update && p < update
    ensures p + n < update ==> AnimateTimes(g.(poll := p), frames, update, backwards, n) == g.(poll := p + n)
    ensures p + n == update ==>
      AnimateTimes(g.(poll := p), frames, update, backwards, n) == Group(g.state, StepSprite(g.sprite, frames, backwards), 0)
    decreases n
  {
    if n > 0 {
      if p + 1 < update {
        assert AnimateGroup(g.(poll := p), frames, update, backwards).0 == g.(poll := p + 1);
        CountPolls(g, frames, update, backwards, n - 1, p + 1);
      } else {
        assert n == 1;
      }
    }
  }

  /** With no pin high, animation changes nothing. */
  lemma AnimateIdle(g: Group, frames: nat, update: nat, backwards: bool)
    requires frames > 0 && g.state == 0
    ensures AnimateGroup(g, frames, update, backwards) == (g, false)
  {
  }

  // ---------------------------------------------------------------------------
  // BoardDisplay

  /** `update_image(overlay, index)`: the overlay now shows that image. */
  function UpdateImage(v: View, o: Overlay, index: nat): View
  {
    v.(shown := v.shown[o.id := index])
  }

  /** `update_button(button, level)`: the button's overlay, if it has one, shows the level. */
  function UpdateButton(v: View, b: Button, level: Level): View
  {
    if b.name in Overlays then UpdateImage(v, Overlays[b.name], level) else v
  }

  /** `update_latch(level, qemu)`: the latch follows the level; when it falls, every
      latch-style button (from position i on) loses its flag, is released towards the
      emulator when there is a connection (`wire`), and its overlay shows the level. */
  function UpdateLatch(v: View, level: Level, wire: bool): (r: (View, seq<string>))
    requires Shaped(v)
    ensures Shaped(r.0) && r.0.groups == v.groups
  {
    var v1 := v.(latch := level != 0);
    ButtonsPinOk();
    if v1.latch then (v1, []) else ReleaseLatched(v1, Buttons, level, wire)
  }

  /** A button whose style keeps a flag drives a pin that indexes `latched`. */
  predicate PinOk(b: Button)
  {
    b.style != Plain ==> b.pin.Some? && b.pin.value < |Buttons|
  }

  lemma ButtonsPinOk()
    ensures forall b | b in Buttons :: PinOk(b)
  {
  }

  /** The `for button in self.buttons` loop of `update_latch` over the buttons `bs`. */
  function ReleaseLatched(v: View, bs: seq<Button>, level: Level, wire: bool): (r: (View, seq<string>))
    requires Shaped(v) && forall b | b in bs :: PinOk(b)
    ensures Shaped(r.0) && r.0.latch == v.latch && r.0.groups == v.groups
    decreases |bs|
  {
    if bs == [] then (v, [])
    else
      var b := bs[0];
      assert bs[0] in bs && PinOk(b);
      if b.style != Latch then ReleaseLatched(v, bs[1..], level, wire)
      else
        var (v2, cmds) := ReleaseLatched(ReleaseOne(v, b, level), bs[1..], level, wire);
        ((v2, (if wire then [b.up] else []) + cmds))
  }

  /** One latch-style button released: its flag cleared and its overlay showing the level. */
  function ReleaseOne(v: View, b: Button, level: Level): (r: View)
    requires Shaped(v) && b.style == Latch && PinOk(b)
    ensures Shaped(r)
  {
    UpdateButton(v.(latched := v.latched[b.pin.value := false]), b, level)
  }

  /** The effect of `update_device(pin, level, qemu)` on the groups from position i on: each
      group holding the pin is updated, its overlay shows the display index, and a change of
      the latch group drives `update_latch`. */
  function UpdateMaps(v: View, i: nat, pin: nat, level: Level, wire: bool): (r: (View, seq<string>))
    requires Shaped(v) && i <= |PinMaps|
    ensures Shaped(r.0)
    decreases |PinMaps| - i
  {
    if i == |PinMaps| then (v, [])
    else
      var c := PinMaps[i];
      if pin !in c.pins then UpdateMaps(v, i + 1, pin, level, wire)
      else
        var (v3, c3) := MapUpdate(v, i, pin, level, wire);
        var (v4, c4) := UpdateMaps(v3, i + 1, pin, level, wire);
        (v4, c3 + c4)
  }

  /** `update_board` on group i, which holds the pin, and its overlay showing the index. */
  function GroupUpdate(v: View, i: nat, pin: nat, level: Level): (r: View)
    requires Shaped(v) && i < |PinMaps| && pin in PinMaps[i].pins
    ensures Shaped(r)
  {
    PinMapFacts(i);
    var c := PinMaps[i];
    var g := UpdateGroup(v.groups[i], c, pin, level);
    var v1 := v.(groups := v.groups[i := g]);
    if c.image.Some? then UpdateImage(v1, Overlays[c.image.value], DisplayIndex(g.state, c.reset)) else v1
  }

  /** The body of `update_device`'s loop for group i, which holds the pin. */
  function MapUpdate(v: View, i: nat, pin: nat, level: Level, wire: bool): (r: (View, seq<string>))
    requires Shaped(v) && i < |PinMaps| && pin in PinMaps[i].pins
    ensures Shaped(r.0)
  {
    var v2 := GroupUpdate(v, i, pin, level);
    if PinMaps[i].name == "latch" then UpdateLatch(v2, level, wire) else (v2, [])
  }

  /** `update_device(pin, level, qemu)`: an LED pin (8..11) shows the level on its LED, then
      the pin's group is updated. The result holds the commands written to `qemu`. */
  function UpdateDevice(v: View, pin: nat, level: Level, wire: bool): (r: (View, seq<string>))
    requires Shaped(v)
    ensures Shaped(r.0)
  {
    var v1 := if 8 <= pin <= 11 then UpdateImage(v, Overlays[LedName(pin - 8)], level) else v;
    UpdateMaps(v1, 0, pin, level, wire)
  }

  /** The commands `update_latch` writes when the latch falls. */
  const LatchReleases: seq<string> := ["D0d1 ", "D0d2 ", "D0d3 ", "D0d4 ", "D0d5 "]

  /** `reset()`: pins 8 to 14 driven low, without a connection. */
  function Reset(v: View): (r: View)
    requires Shaped(v)
    ensures Shaped(r)
  {
    ResetFrom(v, 8)
  }

  function ResetFrom(v: View, pin: nat): (r: View)
    requires Shaped(v) && 8 <= pin <= 15
    ensures Shaped(r)
    decreases 15 - pin
  {
    if pin == 15 then v else ResetFrom(UpdateDevice(v, pin, 0, false).0, pin + 1)
  }

  /** `toggle_init()`: every toggle-style button (from position i on) shows released. */
  function ToggleInit(v: View, i: nat): View
    requires i <= |Buttons|
    decreases |Buttons| - i
  {
    if i == |Buttons| then v
    else ToggleInit(if Buttons[i].style == Toggle then UpdateButton(v, Buttons[i], 0) else v, i + 1)
  }

  /** `button_down(button, qemu)`. */
  function ButtonDown(v: View, b: Button, wire: bool): (r: (View, seq<string>))
    requires Shaped(v) && b in Buttons
    ensures Shaped(r.0)
  {
    ButtonFacts(b);
    if b.style == Latch && v.latch && v.latched[b.pin.value] then (v, [])
    else if b.style == Toggle && v.latched[b.pin.value] then (v.(latched := v.latched[b.pin.value := false]), [])
    else
      var v1 := if b.style == Latch then v.(latched := v.latched[b.pin.value := v.latch])
                else if b.style == Toggle then v.(latched := v.latched[b.pin.value := true])
                else v;
      (UpdateButton(v1, b, 1), if wire && b.down != "" then [b.down] else [])
  }

  /** `button_up(button, qemu)`. */
  function ButtonUp(v: View, b: Button, wire: bool): (r: (View, seq<string>))
    requires Shaped(v) && b in Buttons
    ensures Shaped(r.0)
  {
    ButtonFacts(b);
    if b.style == Latch && v.latch && v.latched[b.pin.value] then (v, [])
    else if b.style == Toggle && v.latched[b.pin.value] then (v, [])
    else (UpdateButton(v, b, 0), if wire && b.up != "" then [b.up] else [])
  }

  /** `animate()`: each animation (from position i on) whose group has a pin high advances it,
      backwards while the direction group's state is non-zero, and when it steps, the group's
      overlay shows the sprite and the companion overlay shows its group's state. */
  function Animate(v: View, i: nat): (r: View)
    requires Shaped(v) && i <= |Animations|
    ensures Shaped(r)
    decreases |Animations| - i
  {
    if i == |Animations| then v
    else
      var a := Animations[i];
      var m := MapIndex(a.pinMap).value;
      var c := PinMaps[m];
      PinMapFacts(m);
      if v.groups[m].state == 0 then Animate(v, i + 1)
      else
        var backwards := match a.direction case None => false case Some(d) => v.groups[MapIndex(d).value].state != 0;
        var (g, stepped) := AnimateGroup(v.groups[m], Overlays[c.image.value].frames, a.poll, backwards);
        var v1 := v.(groups := v.groups[m := g]);
        var v2 := if !stepped then v1
                  else
                    var v3 := UpdateImage(v1, Overlays[c.image.value], g.sprite);
                    match a.overlay
                    case None => v3
                    case Some(o) =>
                      var k := MapIndex(o).value;
                      UpdateImage(v3, Overlays[PinMaps[k].image.value], v3.groups[k].state);
        Animate(v2, i + 1)
  }

  // ---------------------------------------------------------------------------
  // The latch cascade

  /** The pins of the latch-style buttons among `bs`. */
  function LatchPins(bs: seq<Button>): set<nat>
    requires forall b | b in bs :: PinOk(b)
  {
    if bs == [] then {}
    else (assert bs[0] in bs && PinOk(bs[0]); if bs[0].style == Latch then {bs[0].pin.value} else {}) + LatchPins(bs[1..])
  }

  /** The overlay ids of the latch-style buttons among `bs`. */
  function LatchOverlays(bs: seq<Button>): set<nat>
  {
    if bs == [] then {}
    else (if bs[0].style == Latch && bs[0].name in Overlays then {Overlays[bs[0].name].id} else {})
         + LatchOverlays(bs[1..])
  }

  /** The release commands of the latch-style buttons among `bs`, in order. */
  function LatchUps(bs: seq<Button>): seq<string>
  {
    if bs == [] then [] else (if bs[0].style == Latch then [bs[0].up] else []) + LatchUps(bs[1..])
  }

  /** Releasing clears exactly the flags of the latch-style buttons. */
  lemma {:induction false} ReleaseLatchedFlags(v: View, bs: seq<Button>, level: Level, wire: bool)
    requires Shaped(v) && forall b | b in bs :: PinOk(b)
    ensures var r := ReleaseLatched(v, bs, level, wire).0;
      forall p | 0 <= p < |Buttons| :: r.latched[p] == (p !in LatchPins(bs) && v.latched[p])
    decreases |bs|
  {
    if bs != [] {
      var b := bs[0];
      assert b in bs && forall c | c in bs[1..] :: c in bs;
      assert forall c | c in bs :: c == b || c in bs[1..];
      if b.style != Latch {
        ReleaseLatchedFlags(v, bs[1..], level, wire);
        assert LatchPins(bs) == LatchPins(bs[1..]);
      } else {
        var v1 := ReleaseOne(v, b, level);
        ReleaseLatchedFlags(v1, bs[1..], level, wire);
        assert LatchPins(bs) == {b.pin.value} + LatchPins(bs[1..]);
      }
    }
  }

  /** Releasing shows the level on exactly the overlays of the latch-style buttons. */
  lemma {:induction false} ReleaseLatchedShown(v: View, bs: seq<Button>, level: Level, wire: bool)
    requires Shaped(v) && forall b | b in bs :: PinOk(b)
    ensures var r := ReleaseLatched(v, bs, level, wire).0;
      && (forall id :: id in r.shown <==> id in v.shown || id in LatchOverlays(bs))
      && (forall id | id in r.shown :: r.shown[id] == if id in LatchOverlays(bs) then level else v.shown[id])
    decreases |bs|
  {
    if bs != [] {
      var b := bs[0];
      assert b in bs && forall c | c in bs[1..] :: c in bs;
      assert forall c | c in bs :: c == b || c in bs[1..];
      if b.style != Latch {
        ReleaseLatchedShown(v, bs[1..], level, wire);
        assert LatchOverlays(bs) == LatchOverlays(bs[1..]);
      } else {
        var v1 := ReleaseOne(v, b, level);
        ReleaseLatchedShown(v1, bs[1..], level, wire);
        if b.name in Overlays {
          assert LatchOverlays(bs) == {Overlays[b.name].id} + LatchOverlays(bs[1..]);
        } else {
          assert LatchOverlays(bs) == LatchOverlays(bs[1..]);
        }
      }
    }
  }

  /** Releasing writes the release commands of the latch-style buttons in order, and only
      when connected. */
  lemma {:induction false} ReleaseLatchedCommands(v: View, bs: seq<Button>, level: Level, wire: bool)
    requires Shaped(v) && forall b | b in bs :: PinOk(b)
    ensures ReleaseLatched(v, bs, level, wire).1 == (if wire then LatchUps(bs) else [])
    decreases |bs|
  {
    if bs != [] {
      var b := bs[0];
      assert b in bs && forall c | c in bs[1..] :: c in bs;
      if b.style != Latch {
        ReleaseLatchedCommands(v, bs[1..], level, wire);
      } else {
        var v1 := ReleaseOne(v, b, level);
        ReleaseLatchedCommands(v1, bs[1..], level, wire);
      }
    }
  }

  /** The table's latch-style buttons drive pins 1 to 5. */
  lemma LatchTablePins()
    ensures LatchPins(Buttons) == {1, 2, 3, 4, 5}
  {
    ButtonsPinOk();
    assert LatchPins(Buttons[7..]) == {};
    assert LatchPins(Buttons[5..]) == {4, 5};
    assert LatchPins(Buttons[3..]) == {2, 3, 4, 5};
  }

  /** Of the latch-style buttons only PS1, PS2 and PS3 have overlays (ids 4 to 6). */
  lemma LatchTableOverlays()
    ensures LatchOverlays(Buttons) == {4, 5, 6}
  {
    assert LatchOverlays(Buttons[7..]) == {};
    assert LatchOverlays(Buttons[5..]) == {};
    assert LatchOverlays(Buttons[3..]) == {5, 6};
  }

  /** Their release commands, in table order, are `LatchReleases`. */
  lemma LatchTableUps()
    ensures LatchUps(Buttons) == LatchReleases
  {
    assert LatchUps(Buttons[7..]) == [];
    assert LatchUps(Buttons[5..]) == ["D0d4 ", "D0d5 "];
    assert LatchUps(Buttons[3..]) == ["D0d2 ", "D0d3 ", "D0d4 ", "D0d5 "];
  }

  /** The display after pin 14 has fallen, before the latch-style buttons are released. */
  function Lowered(v: View): (w: View)
    requires Shaped(v)
    ensures Shaped(w)
  {
    PinMapFacts(3);
    v.(groups := v.groups[3 := UpdateGroup(v.groups[3], PinMaps[3], 14, 0)], latch := false)
  }

  lemma LatchLowShape(v: View, wire: bool)
    requires Shaped(v)
    ensures UpdateDevice(v, 14, 0, wire) == ReleaseLatched(Lowered(v), Buttons, 0, wire)
  {
    ButtonsPinOk();
    assert UpdateDevice(v, 14, 0, wire) == UpdateMaps(v, 3, 14, 0, wire);
    PinMapFacts(3);
    var v2 := v.(groups := v.groups[3 := UpdateGroup(v.groups[3], PinMaps[3], 14, 0)]);
    var rl := ReleaseLatched(Lowered(v), Buttons, 0, wire);
    assert v2.(latch := false) == Lowered(v);
    assert UpdateLatch(v2, 0, wire) == rl;
    assert UpdateMaps(rl.0, 4, 14, 0, wire) == (rl.0, []);
    assert UpdateMaps(v, 3, 14, 0, wire) == (rl.0, rl.1 + []);
    assert rl.1 + [] == rl.1;
  }

  /** Driving pin 14 low drops the latch: every latch-style button (pins 1 to 5) loses its
      flag and shows released, each is released towards the emulator once, in table order, when
      connected; the door's toggle flag and the other flags are untouched. */
  lemma LatchCascade(v: View, wire: bool)
    requires Shaped(v)
    ensures var (r, cmds) := UpdateDevice(v, 14, 0, wire);
      && !r.latch
      && (forall p | 0 <= p < |Buttons| :: r.latched[p] == (if 1 <= p <= 5 then false else v.latched[p]))
      && r.shown == v.shown[4 := 0][5 := 0][6 := 0]
      && cmds == (if wire then LatchReleases else [])
      && DeviceLevel(r, 14) == 0
  {
    LatchLowShape(v, wire);
    ButtonsPinOk();
    var w := Lowered(v);
    var (r, cmds) := ReleaseLatched(w, Buttons, 0, wire);
    ReleaseLatchedFlags(w, Buttons, 0, wire);
    ReleaseLatchedShown(w, Buttons, 0, wire);
    ReleaseLatchedCommands(w, Buttons, 0, wire);
    LatchTablePins();
    LatchTableOverlays();
    LatchTableUps();
    CascadeFlags(r, v, LatchPins(Buttons));
    CascadeShown(r, v, LatchOverlays(Buttons));
    LoweredLevel(v);
    assert r.groups == w.groups;
  }

  lemma LoweredLevel(v: View)
    requires Shaped(v)
    ensures DeviceLevel(Lowered(v), 14) == 0
  {
    UpdateGroupBits(v.groups[3], PinMaps[3], 14, 0, 0);
  }

  lemma CascadeFlags(r: View, v: View, pins: set<nat>)
    requires Shaped(r) && Shaped(v) && pins == {1, 2, 3, 4, 5}
    requires forall p | 0 <= p < |Buttons| :: r.latched[p] == (p !in pins && v.latched[p])
    ensures forall p | 0 <= p < |Buttons| :: r.latched[p] == (if 1 <= p <= 5 then false else v.latched[p])
  {
  }

  lemma CascadeShown(r: View, v: View, ids: set<nat>)
    requires ids == {4, 5, 6}
    requires forall id :: id in r.shown <==> id in v.shown || id in ids
    requires forall id | id in r.shown :: r.shown[id] == if id in ids then 0 else v.shown[id]
    ensures r.shown == v.shown[4 := 0][5 := 0][6 := 0]
  {
  }

  /** Raising the latch (pin 14 high) only sets the latch; no flag changes and nothing is sent. */
  lemma LatchRaise(v: View, wire: bool)
    requires Shaped(v)
    ensures var (r, cmds) := UpdateDevice(v, 14, 1, wire);
      r.latch && r.latched == v.latched && r.shown == v.shown && cmds == []
  {
    assert UpdateDevice(v, 14, 1, wire) == UpdateMaps(v, 3, 14, 1, wire);
  }

  /** Any other pin leaves the latch and the flags alone and sends nothing. */
  lemma UpdateDeviceQuiet(v: View, pin: nat, level: Level, wire: bool)
    requires Shaped(v) && pin != 14
    ensures var (r, cmds) := UpdateDevice(v, pin, level, wire);
      r.latch == v.latch && r.latched == v.latched && cmds == []
  {
    var v1 := if 8 <= pin <= 11 then UpdateImage(v, Overlays[LedName(pin - 8)], level) else v;
    MapsQuiet(v1, 0, pin, level, wire);
  }

  lemma {:induction false} MapsQuiet(v: View, i: nat, pin: nat, level: Level, wire: bool)
    requires Shaped(v) && pin != 14 && i <= |PinMaps|
    ensures var (r, cmds) := UpdateMaps(v, i, pin, level, wire);
      r.latch == v.latch && r.latched == v.latched && cmds == []
    decreases |PinMaps| - i
  {
    if i < |PinMaps| {
      var c := PinMaps[i];
      if pin in c.pins {
        assert c.name != "latch";
        PinMapFacts(i);
        var g := UpdateGroup(v.groups[i], c, pin, level);
        var v1 := v.(groups := v.groups[i := g]);
        var v2 := if c.image.Some? then UpdateImage(v1, Overlays[c.image.value], DisplayIndex(g.state, c.reset)) else v1;
        MapsQuiet(v2, i + 1, pin, level, wire);
      } else {
        MapsQuiet(v, i + 1, pin, level, wire);
      }
    }
  }

  /** Without a connection the display never sends anything. */
  lemma {:induction false} UnwiredSilent(v: View, pin: nat, level: Level)
    requires Shaped(v)
    ensures UpdateDevice(v, pin, level, false).1 == []
  {
    if pin == 14 {
      if level == 0 {
        LatchCascade(v, false);
      } else {
        LatchRaise(v, false);
      }
    } else {
      UpdateDeviceQuiet(v, pin, level, false);
    }
  }

  // ---------------------------------------------------------------------------
  // Pin levels

  /** The groups after `UpdateMaps` from position i on: those from i on that hold the pin are
      updated by `update_board`, every other group is as it was. */
  lemma {:induction false} UpdateMapsGroups(v: View, i: nat, pin: nat, level: Level, wire: bool)
    requires Shaped(v) && i <= |PinMaps|
    ensures var r := UpdateMaps(v, i, pin, level, wire).0;
      forall j | 0 <= j < |PinMaps| ::
        r.groups[j] == if i <= j && pin in PinMaps[j].pins then UpdateGroup(v.groups[j], PinMaps[j], pin, level) else v.groups[j]
    decreases |PinMaps| - i
  {
    if i < |PinMaps| {
      var c := PinMaps[i];
      if pin !in c.pins {
        UpdateMapsGroups(v, i + 1, pin, level, wire);
      } else {
        var v3 := MapUpdate(v, i, pin, level, wire).0;
        assert v3.groups == v.groups[i := UpdateGroup(v.groups[i], c, pin, level)];
        hide MapUpdate, GroupUpdate, UpdateGroup, UpdateLatch, UpdateImage;
        UpdateMapsGroups(v3, i + 1, pin, level, wire);
        forall j | 0 <= j < |PinMaps| && i < j && pin in PinMaps[j].pins
          ensures false
        {
          PinInOneMap(pin, i);
          PinInOneMap(pin, j);
        }
      }
    }
  }

  /** `update_device` drives exactly one output: afterwards the pin reads the new level and
      every other pin reads what it did before. */
  lemma UpdateDeviceLevel(v: View, pin: nat, level: Level, wire: bool, q: nat)
    requires Shaped(v)
    requires MapOfPin(pin).Some?
    ensures var r := UpdateDevice(v, pin, level, wire).0;
      DeviceLevel(r, q) == if q == pin then level else DeviceLevel(v, q)
  {
    hide UpdateMaps, UpdateGroup;
    var v1 := if 8 <= pin <= 11 then UpdateImage(v, Overlays[LedName(pin - 8)], level) else v;
    UpdateMapsGroups(v1, 0, pin, level, wire);
    var r := UpdateDevice(v, pin, level, wire).0;
    var i := MapOfPin(pin).value;
    PinInOneMap(pin, i);
    PinMapFacts(i);
    match MapOfPin(q)
    case None =>
    case Some(j) =>
      PinMapFacts(j);
      if j == i {
        UpdateGroupBits(v.groups[i], PinMaps[i], pin, level, q - PinMaps[i].pins[0]);
        if q != pin {
          assert q - PinMaps[i].pins[0] != pin - PinMaps[i].pins[0];
        }
      } else {
        assert pin !in PinMaps[j].pins by {
          if pin in PinMaps[j].pins {
            PinInOneMap(pin, j);
          }
        }
      }
  }

  /** Later resets leave the earlier pins alone. */
  lemma {:induction false} ResetFromKeeps(v: View, pin: nat, q: nat)
    requires Shaped(v) && 8 <= pin <= 15 && q < pin
    ensures DeviceLevel(ResetFrom(v, pin), q) == DeviceLevel(v, q)
    decreases 15 - pin
  {
    if pin < 15 {
      UpdateDeviceLevel(v, pin, 0, false, q);
      ResetFromKeeps(UpdateDevice(v, pin, 0, false).0, pin + 1, q);
    }
  }

  lemma {:induction false} ResetFromLevels(v: View, pin: nat)
    requires Shaped(v) && 8 <= pin <= 15
    ensures forall q | pin <= q <= 14 :: DeviceLevel(ResetFrom(v, pin), q) == 0
    decreases 15 - pin
  {
    if pin < 15 {
      var v1 := UpdateDevice(v, pin, 0, false).0;
      ResetFromLevels(v1, pin + 1);
      UpdateDeviceLevel(v, pin, 0, false, pin);
      ResetFromKeeps(v1, pin + 1, pin);
    }
  }

  lemma {:induction false} ResetFromLatch(v: View, pin: nat)
    requires Shaped(v) && 8 <= pin <= 14
    ensures var r := ResetFrom(v, pin);
      !r.latch && forall p | 1 <= p <= 5 :: !r.latched[p]
    decreases 15 - pin
  {
    if pin == 14 {
      LatchCascade(v, false);
    } else {
      ResetFromLatch(UpdateDevice(v, pin, 0, false).0, pin + 1);
    }
  }

  /** After `reset()` every output pin 8 to 14 reads low, the latch is off and no latch-style
      button is held. */
  lemma ResetState(v: View)
    requires Shaped(v)
    ensures var r := Reset(v);
      && (forall q | 8 <= q <= 14 :: DeviceLevel(r, q) == 0)
      && !r.latch && (forall p | 1 <= p <= 5 :: !r.latched[p])
  {
    ResetFromLevels(v, 8);
    ResetFromLatch(v, 8);
  }

  // ---------------------------------------------------------------------------
  // Validity is preserved

  lemma ImageValid(v: View, name: string, index: nat)
    requires Valid(v) && name in Overlays && index < Overlays[name].frames
    ensures Valid(UpdateImage(v, Overlays[name], index))
  {
    OverlayFacts(name);
  }

  lemma ButtonValid(v: View, b: Button, level: Level)
    requires Valid(v)
    ensures Valid(UpdateButton(v, b, level))
  {
    if b.name in Overlays {
      ImageValid(v, b.name, level);
    }
  }

  lemma {:induction false} ReleaseLatchedValid(v: View, bs: seq<Button>, level: Level, wire: bool)
    requires Valid(v) && forall b | b in bs :: PinOk(b)
    ensures Valid(ReleaseLatched(v, bs, level, wire).0)
    decreases |bs|
  {
    if bs != [] {
      var b := bs[0];
      assert b in bs && PinOk(b) && forall c | c in bs[1..] :: c in bs;
      if b.style != Latch {
        ReleaseLatchedValid(v, bs[1..], level, wire);
      } else {
        var v0 := v.(latched := v.latched[b.pin.value := false]);
        ButtonValid(v0, b, level);
        ReleaseLatchedValid(ReleaseOne(v, b, level), bs[1..], level, wire);
      }
    }
  }

  lemma MapGroupValid(v: View, i: nat, pin: nat, level: Level)
    requires Valid(v) && i < |PinMaps| && pin in PinMaps[i].pins && PinMaps[i].pins[0] <= pin
    ensures var g := UpdateGroup(v.groups[i], PinMaps[i], pin, level);
      && Valid(v.(groups := v.groups[i := g]))
      && (PinMaps[i].image.Some? ==> DisplayIndex(g.state, PinMaps[i].reset) < Overlays[PinMaps[i].image.value].frames)
  {
    PinMapFacts(i);
    var c := PinMaps[i];
    var k :| 0 <= k < |c.pins| && c.pins[k] == pin;
    UpdateGroupBound(v.groups[i], c, pin, level);
    var g := UpdateGroup(v.groups[i], c, pin, level);
    if c.image.Some? {
      DisplayIndexBound(g.state, i);
    }
  }

  lemma {:induction false} UpdateMapsValid(v: View, i: nat, pin: nat, level: Level, wire: bool)
    requires Valid(v) && i <= |PinMaps|
    ensures Valid(UpdateMaps(v, i, pin, level, wire).0)
    decreases |PinMaps| - i
  {
    if i < |PinMaps| {
      var c := PinMaps[i];
      if pin !in c.pins {
        UpdateMapsValid(v, i + 1, pin, level, wire);
      } else {
        PinMapFacts(i);
        MapGroupValid(v, i, pin, level);
        var g := UpdateGroup(v.groups[i], c, pin, level);
        var v1 := v.(groups := v.groups[i := g]);
        var v2 := if c.image.Some? then UpdateImage(v1, Overlays[c.image.value], DisplayIndex(g.state, c.reset)) else v1;
        if c.image.Some? {
          ImageValid(v1, c.image.value, DisplayIndex(g.state, c.reset));
        }
        var v3 := if c.name == "latch" then UpdateLatch(v2, level, wire).0 else v2;
        if c.name == "latch" && level == 0 {
          ButtonsPinOk();
          ReleaseLatchedValid(v2.(latch := false), Buttons, level, wire);
        }
        UpdateMapsValid(v3, i + 1, pin, level, wire);
      }
    }
  }

  /** `update_device` keeps the display valid. */
  lemma UpdateDeviceValid(v: View, pin: nat, level: Level, wire: bool)
    requires Valid(v)
    ensures Valid(UpdateDevice(v, pin, level, wire).0)
  {
    var v1 := v;
    if 8 <= pin <= 11 {
      ImageValid(v, LedName(pin - 8), level);
      v1 := UpdateImage(v, Overlays[LedName(pin - 8)], level);
    }
    UpdateMapsValid(v1, 0, pin, level, wire);
  }

  lemma {:induction false} ResetFromValid(v: View, pin: nat)
    requires Valid(v) && 8 <= pin <= 15
    ensures Valid(ResetFrom(v, pin))
    decreases 15 - pin
  {
    if pin < 15 {
      UpdateDeviceValid(v, pin, 0, false);
      ResetFromValid(UpdateDevice(v, pin, 0, false).0, pin + 1);
    }
  }

  /** `reset()` keeps the display valid. */
  lemma ResetValid(v: View)
    requires Valid(v)
    ensures Valid(Reset(v))
  {
    ResetFromValid(v, 8);
  }

  /** `toggle_init()` keeps the display valid. */
  lemma {:induction false} ToggleInitValid(v: View, i: nat)
    requires Valid(v) && i <= |Buttons|
    ensures Valid(ToggleInit(v, i))
    decreases |Buttons| - i
  {
    if i < |Buttons| {
      ButtonValid(v, Buttons[i], 0);
      ToggleInitValid(if Buttons[i].style == Toggle then UpdateButton(v, Buttons[i], 0) else v, i + 1);
    }
  }

  /** Pressing and releasing keep the display valid. */
  lemma ButtonValidBoth(v: View, b: Button, wire: bool)
    requires Valid(v) && b in Buttons
    ensures Valid(ButtonDown(v, b, wire).0) && Valid(ButtonUp(v, b, wire).0)
  {
    ButtonFacts(b);
    if b.style != Plain {
      ButtonValid(v.(latched := v.latched[b.pin.value := v.latch]), b, 1);
      ButtonValid(v.(latched := v.latched[b.pin.value := true]), b, 1);
    }
    ButtonValid(v, b, 1);
    ButtonValid(v, b, 0);
  }

  /** `animate()` keeps the display valid: the stepped sprite and the companion state both
      name images of their overlays. */
  lemma {:induction false} AnimateValid(v: View, i: nat)
    requires Valid(v) && i <= |Animations|
    ensures Valid(Animate(v, i))
    decreases |Animations| - i
  {
    if i < |Animations| {
      var a := Animations[i];
      var m := MapIndex(a.pinMap).value;
      var c := PinMaps[m];
      PinMapFacts(m);
      if v.groups[m].state != 0 {
        var backwards := match a.direction case None => false case Some(d) => v.groups[MapIndex(d).value].state != 0;
        var frames := Overlays[c.image.value].frames;
        var (g, stepped) := AnimateGroup(v.groups[m], frames, a.poll, backwards);
        assert g.sprite < frames;
        var v1 := v.(groups := v.groups[m := g]);
        assert Valid(v1);
        // The only animation polls every tick, so a group with a pin high always steps.
        assert stepped;
        ImageValid(v1, c.image.value, g.sprite);
        var v3 := UpdateImage(v1, Overlays[c.image.value], g.sprite);
        var k := MapIndex(a.overlay.value).value;
        PinMapFacts(k);
        ImageValid(v3, PinMaps[k].image.value, v3.groups[k].state);
        AnimateValid(UpdateImage(v3, Overlays[PinMaps[k].image.value], v3.groups[k].state), i + 1);
      } else {
        AnimateValid(v, i + 1);
      }
    }
  }

  // ---------------------------------------------------------------------------
  // Animation of the motor

  /** While the motor is stopped nothing moves; while it runs, every tick steps its sprite,
      forwards or, while the spinner (direction) group is non-zero, backwards, shows that sprite on
      the motor overlay and shows the spinner state on the spinner overlay. */
  lemma AnimateMotor(v: View)
    requires Valid(v)
    ensures var r := Animate(v, 0);
      && (v.groups[1].state == 0 ==> r == v)
      && (v.groups[1].state != 0 ==>
            && r.groups == v.groups[1 := Group(v.groups[1].state, StepSprite(v.groups[1].sprite, 3, v.groups[2].state != 0), 0)]
            && r.shown == v.shown[8 := r.groups[1].sprite][9 := v.groups[2].state]
            && r.groups[1].sprite < 3)
  {
    PinMapFacts(1);
    assert MapIndex("motor") == Some(1) && MapIndex("spinner") == Some(2);
  }

  // ---------------------------------------------------------------------------
  // The buttons

  /** A latch-style button pressed while the latch is on stays held: its flag is set, it shows
      pressed, its press is sent, and its release is then ignored. */
  lemma LatchPress(v: View, b: Button, wire: bool)
    requires Shaped(v) && b in Buttons && b.style == Latch && b.pin.Some? && b.pin.value < |Buttons|
    requires v.latch && !v.latched[b.pin.value]
    ensures var (v1, c1) := ButtonDown(v, b, wire);
      && v1.latched == v.latched[b.pin.value := true]
      && v1 == UpdateButton(v.(latched := v1.latched), b, 1)
      && c1 == (if wire then [b.down] else [])
      && ButtonUp(v1, b, wire) == (v1, [])
  {
    ButtonFacts(b);
  }

  /** A held latch-style button ignores further presses and releases until the latch drops. */
  lemma LatchedButtonHeld(v: View, b: Button, wire: bool)
    requires Shaped(v) && b in Buttons && b.style == Latch && b.pin.Some? && b.pin.value < |Buttons|
    requires v.latch && v.latched[b.pin.value]
    ensures ButtonDown(v, b, wire) == (v, []) && ButtonUp(v, b, wire) == (v, [])
  {
  }

  /** With the latch off, a latch-style button behaves like a plain one: pressed then released,
      it is not held, shows released again and sends its press then its release. */
  lemma LatchOffPress(v: View, b: Button, wire: bool)
    requires Shaped(v) && b in Buttons && b.style == Latch && b.pin.Some? && b.pin.value < |Buttons|
    requires !v.latch
    ensures var (v1, c1) := ButtonDown(v, b, wire);
      var (v2, c2) := ButtonUp(v1, b, wire);
      && !v2.latched[b.pin.value]
      && v2 == UpdateButton(v.(latched := v.latched[b.pin.value := false]), b, 0)
      && c1 == (if wire then [b.down] else [])
      && c2 == (if wire then [b.up] else [])
  {
    ButtonFacts(b);
  }

  /** The door: the first press closes it and sends `D0L0 `, its release is ignored; the second
      press only clears the flag, and its release opens it and sends `D0d0 `. Afterwards the
      door shows open and is not held. */
  lemma ToggleCycle(v: View, wire: bool)
    requires Shaped(v) && !v.latched[0]
    ensures var door := Buttons[1];
      var (v1, c1) := ButtonDown(v, door, wire);
      var (v2, c2) := ButtonUp(v1, door, wire);
      var (v3, c3) := ButtonDown(v2, door, wire);
      var (v4, c4) := ButtonUp(v3, door, wire);
      && v1.latched[0] && v1.shown[10] == 1 && v2 == v1
      && !v3.latched[0] && v3.shown[10] == 1
      && !v4.latched[0] && v4.shown[10] == 0
      && c1 == (if wire then ["D0L0 "] else []) && c2 == [] && c3 == []
      && c4 == (if wire then ["D0d0 "] else [])
  {
    var door := Buttons[1];
    assert door.name == "door" && door in Buttons;
  }

  /** A plain button shows pressed while held and sends its commands, when it has them. */
  lemma PlainPress(v: View, b: Button, wire: bool)
    requires Shaped(v) && b in Buttons && b.style == Plain
    ensures ButtonDown(v, b, wire) == (UpdateButton(v, b, 1), if wire && b.down != "" then [b.down] else [])
    ensures ButtonUp(v, b, wire) == (UpdateButton(v, b, 0), if wire && b.up != "" then [b.up] else [])
  {
  }

  /** The reset button sends nothing when pressed and `reset ` when released. */
  lemma ResetButton(v: View)
    requires Shaped(v)
    ensures ButtonDown(v, Buttons[0], true).1 == []
    ensures ButtonUp(v, Buttons[0], true).1 == ["reset "]
  {
    assert Buttons[0] in Buttons;
  }
}
