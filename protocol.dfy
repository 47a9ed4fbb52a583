/** The diagnostic-port protocol of the QEMU board emulator front end (qemu_wms.py):
    framing of received bytes into whitespace-terminated text, splitting into reply tokens,
    Python's base-16 `int`, and the mapping of each reply token to a tagged event. */
module Protocol {

  import opened Wrappers

  type Byte = x: int | 0 <= x < 256

  /** The telnet IAC byte that opens a 3-byte negotiation sequence. */
  const Iac: Byte := 0xFF

  /** `bytes.isspace()` of one byte: space, tab, newline, vertical tab, form feed, return. */
  predicate IsSpaceByte(b: Byte)
  {
    b == 32 || 9 <= b <= 13
  }

  /** The ASCII characters `str.split()` separates on: those of `IsSpaceByte` and also the
      four separator controls 0x1C..0x1F. */
  predicate IsSpaceChar(c: char)
  {
    c == ' ' || ('\t' <= c <= '\r') || (28 <= c as int <= 31)
  }

  // ---------------------------------------------------------------------------
  // Framing (QEmuListener.read)

  /** `while data and data[0] == 0xff: data = data[3:]`. */
  function StripIac(data: seq<Byte>): (r: seq<Byte>)
    ensures |r| <= |data| && r == data[|data| - |r|..]
    ensures r == [] || r[0] != Iac
    ensures r == [] || (|data| - |r|) % 3 == 0
    decreases |data|
  {
    if data != [] && data[0] == Iac then StripIac(data[if |data| < 3 then |data| else 3..]) else data
  }

  /** The trailing run of non-whitespace bytes is split off: the text to hand on and the
      incomplete token to keep for the next read. */
  function SplitPending(data: seq<Byte>): (r: (seq<Byte>, seq<Byte>))
    ensures r.0 + r.1 == data
    ensures forall i | 0 <= i < |r.1| :: !IsSpaceByte(r.1[i])
    ensures r.0 == [] || IsSpaceByte(r.0[|r.0| - 1])
    decreases |data|
  {
    if data == [] || IsSpaceByte(data[|data| - 1]) then (data, [])
    else
      var (t, p) := SplitPending(data[..|data| - 1]);
      (t, p + [data[|data| - 1]])
  }

  /** `bytes.decode('ascii')`: fails on any byte of 128 or more. */
  function DecodeAscii(bs: seq<Byte>): (r: Option<string>)
    ensures r.Some? <==> forall i | 0 <= i < |bs| :: bs[i] < 128
    ensures r.Some? ==> |r.value| == |bs| && forall i | 0 <= i < |bs| :: r.value[i] as int == bs[i]
  {
    if forall i | 0 <= i < |bs| :: bs[i] < 128 then Some(seq(|bs|, i requires 0 <= i < |bs| => bs[i] as char))
    else None
  }

  /** What one receive on the socket produced: bytes (empty when the peer has shut down),
      a receive timeout, or any other socket error. */
  datatype Recv = Data(bytes: seq<Byte>) | Timeout | SocketError

  /** What `read()` gives the listen loop: text, a `UserWarning` with its message, or an
      `OSError` that passes through. */
  datatype ReadResult = Text(text: string) | Stop(message: string) | Closed

  const ShutdownDetected: string := "QEMU shutdown detected"
  const ReceiverTimeout: string := "Warning: QEMU receiver timeout"
  const ConnectionClosed: string := "QEMU connection closed"

  /** `read()` on the pending bytes and one receive: the result and the new pending bytes.
      A decode failure is reported as a timeout, after the pending bytes have been updated. */
  function FrameRead(pending: seq<Byte>, recv: Recv): (r: (ReadResult, seq<Byte>))
  {
    match recv
    case Timeout => (Stop(ReceiverTimeout), pending)
    case SocketError => (Closed, pending)
    case Data(bs) =>
      if bs == [] then (Stop(ShutdownDetected), pending)
      else
        var (text, rest) := SplitPending(StripIac(pending + bs));
        match DecodeAscii(text)
        case None => (Stop(ReceiverTimeout), rest)
        case Some(s) => (Text(s), rest)
  }

  /** The bytes of an ASCII string. */
  function Encode(s: string): (r: seq<Byte>)
    requires forall i | 0 <= i < |s| :: s[i] as int < 128
    ensures |r| == |s| && forall i | 0 <= i < |s| :: r[i] == s[i] as int
  {
    seq(|s|, i requires 0 <= i < |s| => s[i] as int)
  }

  /** Decoding is undone by encoding. */
  lemma DecodeEncode(bs: seq<Byte>)
    requires DecodeAscii(bs).Some?
    ensures Encode(DecodeAscii(bs).value) == bs
  {
  }

  /** The framing round trip: the text handed on followed by the new pending bytes is the old
      pending bytes followed by the chunk, less its leading IAC groups; the text is empty or
      ends in whitespace. */
  lemma FrameReadText(pending: seq<Byte>, bs: seq<Byte>)
    requires FrameRead(pending, Data(bs)).0.Text?
    ensures forall i | 0 <= i < |FrameRead(pending, Data(bs)).0.text| ::
              FrameRead(pending, Data(bs)).0.text[i] as int < 128
    ensures Encode(FrameRead(pending, Data(bs)).0.text) + FrameRead(pending, Data(bs)).1
            == StripIac(pending + bs)
    ensures var t := FrameRead(pending, Data(bs)).0.text; t == [] || IsSpaceChar(t[|t| - 1])
  {
    var data := StripIac(pending + bs);
    var sp := SplitPending(data);
    var d := DecodeAscii(sp.0);
    assert bs != [] && d.Some?;
    assert FrameRead(pending, Data(bs)) == (Text(d.value), sp.1);
    DecodeEncode(sp.0);
    assert sp.0 == [] || d.value[|d.value| - 1] as int == sp.0[|sp.0| - 1];
  }

  /** Whatever a chunk brings, the pending bytes kept hold no whitespace and follow from the
      old pending bytes and the chunk; an empty chunk is a shutdown and keeps them as they were,
      and a non-empty one stops the loop only on a decode failure, reported as a timeout. */
  lemma FramePending(pending: seq<Byte>, bs: seq<Byte>)
    ensures var (res, rest) := FrameRead(pending, Data(bs));
      && (bs == [] ==> res == Stop(ShutdownDetected) && rest == pending)
      && (bs != [] ==> (forall i | 0 <= i < |rest| :: !IsSpaceByte(rest[i])))
      && (bs != [] ==> rest == SplitPending(StripIac(pending + bs)).1)
      && (bs != [] && res.Stop? ==> res.message == ReceiverTimeout)
      && (bs != [] ==> !res.Closed?)
  {
  }

  // ---------------------------------------------------------------------------
  // Tokens (str.split())

  /** The number of leading characters that are not whitespace. */
  function TokenLength(s: string): (n: nat)
    ensures n <= |s| && (n < |s| ==> IsSpaceChar(s[n]))
    ensures forall i | 0 <= i < n :: !IsSpaceChar(s[i])
  {
    if s == [] || IsSpaceChar(s[0]) then 0 else 1 + TokenLength(s[1..])
  }

  /** `s.split()`: the maximal runs of non-whitespace characters, in order. */
  function Split(s: string): (r: seq<string>)
    ensures forall i | 0 <= i < |r| :: r[i] != [] && forall j | 0 <= j < |r[i]| :: !IsSpaceChar(r[i][j])
    decreases |s|
  {
    if s == [] then []
    else if IsSpaceChar(s[0]) then Split(s[1..])
    else
      var n := TokenLength(s);
      [s[..n]] + Split(s[n..])
  }

  /** The characters of s that are not whitespace, in order. */
  function NonSpace(s: string): (r: string)
  {
    if s == [] then [] else (if IsSpaceChar(s[0]) then [] else [s[0]]) + NonSpace(s[1..])
  }

  function Concat(ts: seq<string>): string
  {
    if ts == [] then [] else ts[0] + Concat(ts[1..])
  }

  lemma {:induction false} NonSpaceAppend(a: string, b: string)
    ensures NonSpace(a + b) == NonSpace(a) + NonSpace(b)
    decreases |a|
  {
    if a != [] {
      assert (a + b)[1..] == a[1..] + b;
      NonSpaceAppend(a[1..], b);
    } else {
      assert a + b == b;
    }
  }

  lemma {:induction false} NonSpaceOfToken(t: string)
    requires forall i | 0 <= i < |t| :: !IsSpaceChar(t[i])
    ensures NonSpace(t) == t
    decreases |t|
  {
    if t != [] {
      NonSpaceOfToken(t[1..]);
      assert t == [t[0]] + t[1..];
    }
  }

  /** Splitting loses only whitespace: the tokens together are every other character of the
      text, in order. */
  lemma {:induction false} SplitKeepsNonSpace(s: string)
    ensures Concat(Split(s)) == NonSpace(s)
    decreases |s|
  {
    if s == [] {
    } else if IsSpaceChar(s[0]) {
      SplitKeepsNonSpace(s[1..]);
    } else {
      var n := TokenLength(s);
      SplitKeepsNonSpace(s[n..]);
      assert s == s[..n] + s[n..];
      NonSpaceAppend(s[..n], s[n..]);
      NonSpaceOfToken(s[..n]);
      assert Split(s)[1..] == Split(s[n..]);
    }
  }

  // ---------------------------------------------------------------------------
  // Python's int(s, 16)

  function HexDigit(c: char): (r: Option<nat>)
    ensures r.Some? ==> r.value < 16
  {
    if '0' <= c <= '9' then Some(c as int - '0' as int)
    else if 'a' <= c <= 'f' then Some(c as int - 'a' as int + 10)
    else if 'A' <= c <= 'F' then Some(c as int - 'A' as int + 10)
    else None
  }

  /** Hex digits with single underscores between them, as a base-16 literal allows. */
  predicate ValidDigits(s: string)
  {
    && s != [] && HexDigit(s[0]).Some? && HexDigit(s[|s| - 1]).Some?
    && (forall i | 0 <= i < |s| :: HexDigit(s[i]).Some? || s[i] == '_')
    && (forall i | 0 <= i < |s| - 1 :: s[i] == '_' ==> s[i + 1] != '_')
  }

  /** The value of a run of digits and underscores, most significant first. */
  function DigitsValue(s: string): (v: nat)
    decreases |s|
  {
    if s == [] then 0
    else
      var last := s[|s| - 1];
      match HexDigit(last)
      case Some(d) => 16 * DigitsValue(s[..|s| - 1]) + d
      case None => DigitsValue(s[..|s| - 1])
  }

  /** `int(s, 16)`: an optional sign, an optional `0x`/`0X` prefix (which may be followed by
      one underscore), then digits; `None` where Python raises `ValueError`. */
  function HexValue(s: string): (r: Option<int>)
  {
    var negative := s != [] && s[0] == '-';
    var t := if s != [] && (s[0] == '+' || s[0] == '-') then s[1..] else s;
    var u := if |t| >= 2 && t[0] == '0' && (t[1] == 'x' || t[1] == 'X') then
               (if |t| >= 3 && t[2] == '_' then t[3..] else t[2..])
             else t;
    var magnitude: int := DigitsValue(u);
    if ValidDigits(u) then Some(if negative then -magnitude else magnitude) else None
  }

  /** Upper-case hex digits of n, with no leading zeros. */
  function HexDigits(n: nat): (r: string)
    ensures r != [] && forall i | 0 <= i < |r| :: HexDigit(r[i]).Some? && r[i] != 'x' && r[i] != 'X'
    decreases n
  {
    var d := n % 16;
    var c := if d < 10 then ('0' as int + d) as char else ('A' as int + d - 10) as char;
    if n < 16 then [c] else HexDigits(n / 16) + [c]
  }

  /** n in upper-case hex, zero-padded to at least `width` digits (Python's `{n:0<width>X}`). */
  function ToHex(n: nat, width: nat): (r: string)
    ensures r != [] && forall i | 0 <= i < |r| :: HexDigit(r[i]).Some? && r[i] != 'x' && r[i] != 'X'
  {
    var ds := HexDigits(n);
    seq(if width > |ds| then width - |ds| else 0, _ => '0') + ds
  }

  lemma {:induction false} HexDigitsValue(n: nat)
    ensures DigitsValue(HexDigits(n)) == n
    decreases n
  {
    var ds := HexDigits(n);
    var d := n % 16;
    assert HexDigit(ds[|ds| - 1]) == Some(d);
    if n >= 16 {
      HexDigitsValue(n / 16);
      assert ds[..|ds| - 1] == HexDigits(n / 16);
    }
  }

  lemma {:induction false} LeadingZeros(k: nat, ds: string)
    ensures DigitsValue(seq(k, _ => '0') + ds) == DigitsValue(ds)
    decreases |ds|
  {
    var s := seq(k, _ => '0') + ds;
    if ds == [] {
      assert s == seq(k, _ => '0');
      ZerosValue(k);
    } else {
      assert s[..|s| - 1] == seq(k, _ => '0') + ds[..|ds| - 1];
      LeadingZeros(k, ds[..|ds| - 1]);
    }
  }

  lemma {:induction false} ZerosValue(k: nat)
    ensures DigitsValue(seq(k, _ => '0')) == 0
    decreases k
  {
    if k > 0 {
      assert seq(k, _ => '0')[..k - 1] == seq(k - 1, _ => '0');
      ZerosValue(k - 1);
    }
  }

  /** Parsing undoes formatting: `int(f'{n:0wX}', 16) == n`. */
  lemma HexRoundTrip(n: nat, width: nat)
    ensures HexValue(ToHex(n, width)) == Some(n)
  {
    var s := ToHex(n, width);
    var ds := HexDigits(n);
    var k := if width > |ds| then width - |ds| else 0;
    assert s == seq(k, _ => '0') + ds;
    assert s[0] != '+' && s[0] != '-';
    assert ValidDigits(s) by {
      assert forall i | 0 <= i < |s| :: HexDigit(s[i]).Some?;
    }
    LeadingZeros(k, ds);
    HexDigitsValue(n);
  }

  // ---------------------------------------------------------------------------
  // Tags and reply classification (QEmuListener.listen)

  /** `QEmuTag`. */
  datatype Tag =
    | QemuShutdown | QemuWarning | PinLow | PinHigh | GpiodEnabled | Command | Moder | Idr
    | Warning | Usart3Enabled | Sr | Cr1

  /** The integer value of each tag. */
  function TagCode(t: Tag): (n: nat)
    ensures n > 0
  {
    match t
    case QemuShutdown => 1 case QemuWarning => 2 case PinLow => 4 case PinHigh => 5
    case GpiodEnabled => 11 case Command => 12 case Moder => 13 case Idr => 14 case Warning => 15
    case Usart3Enabled => 21 case Sr => 22 case Cr1 => 23
  }

  /** Distinct tags have distinct codes, so the code identifies the message type. */
  lemma TagCodeInjective(a: Tag, b: Tag)
    ensures TagCode(a) == TagCode(b) <==> a == b
  {
  }

  /** `REPLY_MAP`: the prefix of a memory-query reply, before `?/`, to its tag. */
  const ReplyMap: map<string, Tag> := map[
    "=m40023830" := GpiodEnabled, "=m40023840" := Usart3Enabled,
    "=d0" := Moder, "=d4" := Idr,
    "=u0" := Sr, "=u3" := Cr1]

  /** One `qemu_update(tag, value, message)`; `message` is empty where no message is given. */
  datatype Event = Event(tag: Tag, value: int, message: string)

  function WarningEvent(message: string): Event
  {
    Event(QemuWarning, 0, message)
  }

  /** The effect of one reply token: nothing, one event, or an exception
      (`IndexError`/`ValueError`) that none of the loop's handlers catches. */
  datatype Step = NoEvent | Emit(event: Event) | Crash

  /** The first position of `?/` in s at or after `from`. */
  function FindSeparator(s: string, from: nat): (r: Option<nat>)
    ensures r.Some? ==> from <= r.value && r.value + 2 <= |s| && s[r.value] == '?' && s[r.value + 1] == '/'
    ensures forall j | from <= j && j + 1 < |s| && (r.None? || j < r.value) :: !(s[j] == '?' && s[j + 1] == '/')
    decreases |s| - from
  {
    if from + 1 >= |s| then None
    else if s[from] == '?' && s[from + 1] == '/' then Some(from)
    else FindSeparator(s, from + 1)
  }

  /** `s.partition('?/')` when the separator occurs: the parts before and after it. */
  function Partition(s: string): (r: Option<(string, string)>)
    ensures r.Some? ==> s == r.value.0 + "?/" + r.value.1
  {
    match FindSeparator(s, 0)
    case None => None
    case Some(i) =>
      assert s == s[..i] + "?/" + s[i + 2..];
      Some((s[..i], s[i + 2..]))
  }

  /** The body of the `for reply in replies` loop for one token. */
  function ClassifyToken(reply: string): (r: Step)
  {
    if reply == [] then NoEvent
    else if reply[0] == '?' then Emit(WarningEvent("Invalid command response: " + reply))
    else if reply[0] == '-' || reply[0] == '+' then
      if |reply| < 3 then Crash
      else
        match HexValue([reply[2]])
        case None => Crash
        case Some(pin) => Emit(Event(if reply[0] == '-' then PinLow else PinHigh, pin, ""))
    else if reply[0] == '=' then
      match Partition(reply)
      case None => Emit(WarningEvent("Memory query missing ?/ separator: \"" + reply + "\""))
      case Some((cmd, value)) =>
        if cmd !in ReplyMap then
          Emit(WarningEvent("Unknown command prefix in response: " + reply + " \"" + cmd + "\""))
        else
          match HexValue(value)
          case None => Crash
          case Some(v) => Emit(Event(ReplyMap[cmd], v, ""))
    else NoEvent
  }

  /** No token ever yields a shutdown event; only the loop's handlers do. */
  lemma ClassifyNeverShutdown(reply: string)
    ensures ClassifyToken(reply).Emit? ==> ClassifyToken(reply).event.tag != QemuShutdown
  {
  }

  /** A single character parses as the value of its hex digit. */
  lemma HexValueSingle(c: char)
    ensures HexValue([c]) == (if HexDigit(c).Some? then Some(HexDigit(c).value) else None)
  {
    var s := [c];
    if HexDigit(c).Some? {
      assert ValidDigits(s);
      assert s[..0] == [];
      assert DigitsValue(s) == HexDigit(c).value;
    }
  }

  /** Which first characters yield what: `?` a warning, `-`/`+` a pin event (or an exception),
      `=` a warning, a mapped event or an exception, and anything else nothing at all. */
  lemma ClassifyByFirstChar(reply: string)
    requires reply != []
    ensures reply[0] == '?' ==> ClassifyToken(reply) == Emit(WarningEvent("Invalid command response: " + reply))
    ensures reply[0] == '-' ==> ClassifyToken(reply) == Crash || ClassifyToken(reply).event.tag == PinLow
    ensures reply[0] == '+' ==> ClassifyToken(reply) == Crash || ClassifyToken(reply).event.tag == PinHigh
    ensures (reply[0] == '-' || reply[0] == '+') && |reply| >= 3 && HexDigit(reply[2]).Some? ==>
              ClassifyToken(reply).Emit? && ClassifyToken(reply).event.value == HexDigit(reply[2]).value
    ensures (reply[0] == '-' || reply[0] == '+') && (|reply| < 3 || HexDigit(reply[2]).None?) ==>
              ClassifyToken(reply) == Crash
    ensures reply[0] == '=' ==> ClassifyToken(reply) != NoEvent
    ensures reply[0] != '?' && reply[0] != '-' && reply[0] != '+' && reply[0] != '=' ==>
              ClassifyToken(reply) == NoEvent
  {
    if |reply| >= 3 {
      HexValueSingle(reply[2]);
    }
  }

  /** No key of the reply map contains a `?`. */
  lemma KeysHaveNoQuestionMark(key: string)
    requires key in ReplyMap
    ensures |key| > 0 && key[0] == '=' && forall j | 0 <= j < |key| :: key[j] != '?'
  {
  }

  /** A memory reply that partitions into a key of the map and a hex value. */
  lemma MemoryToken(reply: string, key: string, value: string, n: nat)
    requires |reply| > 0 && reply[0] == '=' && Partition(reply) == Some((key, value))
    requires key in ReplyMap && HexValue(value) == Some(n)
    ensures ClassifyToken(reply) == Emit(Event(ReplyMap[key], n, ""))
  {
  }

  /** A memory reply whose prefix is a key of the map and whose value is formatted hex is the
      mapped event with that value. */
  lemma ClassifyMemoryReply(key: string, n: nat, width: nat)
    requires key in ReplyMap
    ensures ClassifyToken(key + "?/" + ToHex(n, width)) == Emit(Event(ReplyMap[key], n, ""))
  {
    var v := ToHex(n, width);
    var reply := key + "?/" + v;
    KeysHaveNoQuestionMark(key);
    assert reply[..|key|] == key;
    assert reply[|key|] == '?' && reply[|key| + 1] == '/';
    SeparatorAfterKey(reply, key, 0);
    assert reply[|key| + 2..] == v;
    HexRoundTrip(n, width);
    MemoryToken(reply, key, v, n);
  }

  lemma {:induction false} SeparatorAfterKey(reply: string, key: string, from: nat)
    requires from <= |key| && |key| + 2 <= |reply| && reply[..|key|] == key
    requires reply[|key|] == '?' && reply[|key| + 1] == '/'
    requires forall j | 0 <= j < |key| :: key[j] != '?'
    ensures FindSeparator(reply, from) == Some(|key|)
    decreases |key| - from
  {
    if from < |key| {
      assert reply[from] == key[from];
      SeparatorAfterKey(reply, key, from + 1);
    }
  }

  /** A MODER reply as the board's firmware query produces it. */
  lemma ClassifyModerExample()
    ensures ClassifyToken("=d0?/0000004A") == Emit(Event(Moder, 0x4A, ""))
  {
    hide ClassifyToken, Partition, FindSeparator;
    ClassifyMemoryReply("=d0", 0x4A, 8);
    ModerHex();
    assert "=d0" + "?/" + ToHex(0x4A, 8) == "=d0?/0000004A";
  }

  /** The eight-digit hex of 0x4A. */
  lemma ModerHex()
    ensures ToHex(0x4A, 8) == "0000004A"
  {
    assert HexDigits(4) == "4";
    assert HexDigits(0x4A) == "4A";
    assert seq(6, _ => '0') == "000000";
  }

  /** A reply with a prefix that is not in the map is reported with the prefix quoted. */
  lemma ClassifyUnknownPrefixExample()
    ensures ClassifyToken("=zz?/01") ==
              Emit(WarningEvent("Unknown command prefix in response: =zz?/01 \"=zz\""))
  {
    var z := "=zz?/01";
    assert FindSeparator(z, 3) == Some(3);
    assert FindSeparator(z, 0) == Some(3);
    assert z[..3] == "=zz";
  }

  /** A memory reply without the separator is reported, quoted. */
  lemma ClassifyMissingSeparatorExample()
    ensures ClassifyToken("=d0") == Emit(WarningEvent("Memory query missing ?/ separator: \"=d0\""))
  {
    assert FindSeparator("=d0", 0) == None;
  }

  // ---------------------------------------------------------------------------
  // The listen loop

  const ShutdownEvent: Event := Event(QemuShutdown, 0, "")

  /** How the loop stands after its reads: still listening, ended by a handled exception
      (after reporting it and a shutdown), or ended by an exception no handler catches. */
  datatype Outcome = Listening | Stopped | Crashed

  /** The `for reply in replies` loop: the events of the tokens in order, up to the first
      that raises; `true` when one raised. */
  function ClassifyAll(tokens: seq<string>): (r: (seq<Event>, bool))
    decreases |tokens|
  {
    if tokens == [] then ([], false)
    else
      match ClassifyToken(tokens[0])
      case NoEvent => ClassifyAll(tokens[1..])
      case Crash => ([], true)
      case Emit(e) => var (es, c) := ClassifyAll(tokens[1..]); ([e] + es, c)
  }

  /** One pass of `while True`: one read, then its tokens, or the handler of the exception. */
  function ListenStep(pending: seq<Byte>, recv: Recv): (r: (seq<Event>, Outcome, seq<Byte>))
  {
    var (res, rest) := FrameRead(pending, recv);
    match res
    case Text(t) =>
      var (es, crashed) := ClassifyAll(Split(t));
      (es, if crashed then Crashed else Listening, rest)
    case Stop(m) => ([WarningEvent(m), ShutdownEvent], Stopped, rest)
    case Closed => ([WarningEvent(ConnectionClosed), ShutdownEvent], Stopped, rest)
  }

  /** The loop over a sequence of receives: the events posted to the GUI, how the loop
      stands, and the pending bytes. Receives after the loop has ended are never made. */
  function ListenSpec(pending: seq<Byte>, inputs: seq<Recv>): (r: (seq<Event>, Outcome, seq<Byte>))
    decreases |inputs|
  {
    if inputs == [] then ([], Listening, pending)
    else
      var (es, o, p) := ListenStep(pending, inputs[0]);
      if o != Listening then (es, o, p)
      else
        var (es2, o2, p2) := ListenSpec(p, inputs[1..]);
        (es + es2, o2, p2)
  }

  /** Events already posted, followed by the result of the rest of the loop. */
  function Combine(posted: seq<Event>, r: (seq<Event>, Outcome, seq<Byte>)): (seq<Event>, Outcome, seq<Byte>)
  {
    (posted + r.0, r.1, r.2)
  }

  /** The loop over receives, one pass at a time: after a pass that keeps listening, the
      events posted so far grow by that pass's events. */
  lemma ListenSpecStep(pending: seq<Byte>, inputs: seq<Recv>, posted: seq<Event>)
    requires inputs != []
    ensures var (es, o, q) := ListenStep(pending, inputs[0]);
      && (o == Listening ==> Combine(posted, ListenSpec(pending, inputs)) == Combine(posted + es, ListenSpec(q, inputs[1..])))
      && (o != Listening ==> Combine(posted, ListenSpec(pending, inputs)) == (posted + es, o, q))
  {
    hide ListenStep;
    var (es, o, q) := ListenStep(pending, inputs[0]);
    if o == Listening {
      var later := ListenSpec(q, inputs[1..]);
      assert posted + (es + later.0) == (posted + es) + later.0;
    }
  }

  lemma {:induction false} ClassifyAllNoShutdown(tokens: seq<string>)
    ensures forall i | 0 <= i < |ClassifyAll(tokens).0| :: ClassifyAll(tokens).0[i].tag != QemuShutdown
    decreases |tokens|
  {
    if tokens != [] {
      ClassifyNeverShutdown(tokens[0]);
      ClassifyAllNoShutdown(tokens[1..]);
    }
  }

  lemma ListenStepShape(pending: seq<Byte>, recv: Recv)
    ensures var (es, o, _) := ListenStep(pending, recv);
      && (o == Stopped ==> |es| == 2 && es[0].tag == QemuWarning && es[1] == ShutdownEvent)
      && (o != Stopped ==> forall i | 0 <= i < |es| :: es[i].tag != QemuShutdown)
  {
    var (res, rest) := FrameRead(pending, recv);
    if res.Text? {
      ClassifyAllNoShutdown(Split(res.text));
    }
  }

  /** The events end well for the outcome: a shutdown only as the last event, after a warning,
      and exactly when the loop stopped through a handler. */
  ghost predicate EndsWell(es: seq<Event>, o: Outcome)
  {
    && (forall i | 0 <= i < |es| && es[i].tag == QemuShutdown :: i == |es| - 1)
    && (o == Stopped <==> (es != [] && es[|es| - 1].tag == QemuShutdown))
    && (o == Stopped ==> |es| >= 2 && es[|es| - 2].tag == QemuWarning)
  }

  lemma EndsWellAppend(es: seq<Event>, es2: seq<Event>, o2: Outcome)
    requires forall i | 0 <= i < |es| :: es[i].tag != QemuShutdown
    requires EndsWell(es2, o2)
    ensures EndsWell(es + es2, o2)
  {
    var all := es + es2;
    assert forall i | 0 <= i < |es| :: all[i] == es[i];
    assert forall i | 0 <= i < |es2| :: all[|es| + i] == es2[i];
    if es2 != [] {
      assert all[|all| - 1] == es2[|es2| - 1];
      if o2 == Stopped {
        assert all[|all| - 2] == es2[|es2| - 2];
      }
    } else {
      assert all == es;
    }
  }

  /** The loop posts a shutdown exactly when it stops through one of its handlers, and then
      as its last event, right after the warning that says why; it posts no other shutdown. */
  lemma {:induction false} ListenShutdownLast(pending: seq<Byte>, inputs: seq<Recv>)
    ensures EndsWell(ListenSpec(pending, inputs).0, ListenSpec(pending, inputs).1)
    decreases |inputs|
  {
    if inputs != [] {
      ListenStepShape(pending, inputs[0]);
      var (es, o, p) := ListenStep(pending, inputs[0]);
      if o == Listening {
        ListenShutdownLast(p, inputs[1..]);
        var (es2, o2, p2) := ListenSpec(p, inputs[1..]);
        EndsWellAppend(es, es2, o2);
      } else if o == Crashed {
        assert es == [] || es[|es| - 1].tag != QemuShutdown;
      }
    }
  }

  /** A zero-length receive is QEMU shutting down: the warning, the shutdown, and the end
      of the loop, with the pending bytes untouched. */
  lemma ListenZeroLength(pending: seq<Byte>, rest: seq<Recv>)
    ensures ListenSpec(pending, [Data([])] + rest)
            == ([WarningEvent(ShutdownDetected), ShutdownEvent], Stopped, pending)
  {
  }

  /** A receive timeout also ends the loop, as a (reported) shutdown. */
  lemma ListenTimeout(pending: seq<Byte>, rest: seq<Recv>)
    ensures ListenSpec(pending, [Timeout] + rest)
            == ([WarningEvent(ReceiverTimeout), ShutdownEvent], Stopped, pending)
  {
  }

  // ---------------------------------------------------------------------------
  // Chunking: a reply split across two receives reads as if it had arrived whole

  lemma {:induction false} SplitPendingAfterSpace(x: seq<Byte>, y: seq<Byte>)
    requires x == [] || IsSpaceByte(x[|x| - 1])
    ensures SplitPending(x + y) == (x + SplitPending(y).0, SplitPending(y).1)
    decreases |y|
  {
    if y == [] {
      assert x + y == x;
    } else if IsSpaceByte(y[|y| - 1]) {
    } else {
      var y0 := y[..|y| - 1];
      assert (x + y)[..|x + y| - 1] == x + y0;
      SplitPendingAfterSpace(x, y0);
    }
  }

  lemma {:induction false} SplitAfterSpace(s1: string, s2: string)
    requires s1 == [] || IsSpaceChar(s1[|s1| - 1])
    ensures Split(s1 + s2) == Split(s1) + Split(s2)
    decreases |s1|
  {
    if s1 == [] {
      assert s1 + s2 == s2;
    } else if IsSpaceChar(s1[0]) {
      assert (s1 + s2)[1..] == s1[1..] + s2;
      SplitAfterSpace(s1[1..], s2);
    } else {
      var n := TokenLength(s1);
      TokenLengthPrefix(s1, s2);
      assert (s1 + s2)[..n] == s1[..n];
      assert (s1 + s2)[n..] == s1[n..] + s2;
      SplitAfterSpace(s1[n..], s2);
    }
  }

  lemma {:induction false} TokenLengthPrefix(s1: string, s2: string)
    requires s1 != [] && IsSpaceChar(s1[|s1| - 1])
    ensures TokenLength(s1 + s2) == TokenLength(s1) < |s1|
    decreases |s1|
  {
    if !IsSpaceChar(s1[0]) {
      assert (s1 + s2)[1..] == s1[1..] + s2;
      TokenLengthPrefix(s1[1..], s2);
    }
  }

  /** Every byte is below 128. */
  predicate Ascii(bs: seq<Byte>)
  {
    forall i | 0 <= i < |bs| :: bs[i] < 128
  }

  lemma AsciiAppend(x: seq<Byte>, y: seq<Byte>)
    ensures Ascii(x + y) <==> Ascii(x) && Ascii(y)
  {
    assert forall i | 0 <= i < |x| :: (x + y)[i] == x[i];
    assert forall i | 0 <= i < |y| :: (x + y)[|x| + i] == y[i];
  }

  /** Without IAC bytes in front and with ASCII bytes only, a read hands on the decoded text
      before the trailing partial token. */
  lemma FrameReadAscii(pending: seq<Byte>, bs: seq<Byte>)
    requires bs != [] && (pending + bs)[0] != Iac && Ascii(pending + bs)
    ensures DecodeAscii(SplitPending(pending + bs).0).Some?
    ensures FrameRead(pending, Data(bs))
            == (Text(DecodeAscii(SplitPending(pending + bs).0).value), SplitPending(pending + bs).1)
  {
    var (t, p) := SplitPending(pending + bs);
    AsciiAppend(t, p);
  }

  lemma DecodeAppend(x: seq<Byte>, y: seq<Byte>)
    requires Ascii(x) && Ascii(y)
    ensures DecodeAscii(x + y) == Some(DecodeAscii(x).value + DecodeAscii(y).value)
  {
    AsciiAppend(x, y);
    var sx := DecodeAscii(x).value;
    var sy := DecodeAscii(y).value;
    var sxy := DecodeAscii(x + y).value;
    assert forall i | 0 <= i < |sxy| :: sxy[i] == (sx + sy)[i] by {
      forall i | 0 <= i < |sxy|
        ensures sxy[i] == (sx + sy)[i]
      {
        if i < |x| {
          assert (x + y)[i] == x[i];
        } else {
          assert (x + y)[i] == y[i - |x|];
        }
      }
    }
    assert sxy == sx + sy;
  }

  /** At the byte level, the text of `a + b` is the text of `a` followed by the text of the
      pending bytes of `a` followed by `b`. */
  lemma ChunkBytes(a: seq<Byte>, b: seq<Byte>)
    ensures var (t1, p1) := SplitPending(a);
      SplitPending(a + b) == (t1 + SplitPending(p1 + b).0, SplitPending(p1 + b).1)
  {
    var (t1, p1) := SplitPending(a);
    assert a + b == t1 + (p1 + b);
    SplitPendingAfterSpace(t1, p1 + b);
  }

  /** Decoding and splitting the text of two reads gives the tokens of their joint text. */
  lemma ChunkText(t1: seq<Byte>, t2: seq<Byte>)
    requires Ascii(t1) && Ascii(t2) && (t1 == [] || IsSpaceByte(t1[|t1| - 1]))
    ensures Ascii(t1 + t2)
    ensures Split(DecodeAscii(t1).value) + Split(DecodeAscii(t2).value) == Split(DecodeAscii(t1 + t2).value)
  {
    var s1 := DecodeAscii(t1).value;
    var s2 := DecodeAscii(t2).value;
    DecodeAppend(t1, t2);
    AsciiAppend(t1, t2);
    assert s1 == [] || IsSpaceChar(s1[|s1| - 1]) by {
      if s1 != [] { assert s1[|s1| - 1] as int == t1[|t1| - 1]; }
    }
    SplitAfterSpace(s1, s2);
  }

  /** The byte-level half of the chunking argument. */
  lemma ChunkCore(a: seq<Byte>, b: seq<Byte>)
    requires a != [] && b != [] && Ascii(a) && Ascii(b)
    ensures var (t1, p1) := SplitPending(a);
      var (t2, p2) := SplitPending(p1 + b);
      && (p1 + b)[0] != Iac && Ascii(p1 + b) && Ascii(t1) && Ascii(t2) && (a + b)[0] != Iac && Ascii(a + b)
      && SplitPending(a + b) == (t1 + t2, p2)
      && Split(DecodeAscii(t1).value) + Split(DecodeAscii(t2).value) == Split(DecodeAscii(t1 + t2).value)
  {
    var (t1, p1) := SplitPending(a);
    AsciiAppend(t1, p1);
    AsciiAppend(p1, b);
    AsciiAppend(a, b);
    var (t2, p2) := SplitPending(p1 + b);
    AsciiAppend(t2, p2);
    assert (p1 + b)[0] != Iac by {
      if p1 == [] { assert p1 + b == b; } else { assert (p1 + b)[0] == p1[0] == a[|t1|]; }
    }
    ChunkBytes(a, b);
    ChunkText(t1, t2);
  }

  /** `read()`'s promise: when the first byte is no IAC and all are ASCII, a chunk `a` followed by a
      chunk `b` yields the same replies, and leaves the same pending bytes, as `a + b` in one. */
  lemma ChunkingInvariant(a: seq<Byte>, b: seq<Byte>)
    requires a != [] && b != [] && Ascii(a) && Ascii(b)
    ensures FrameRead([], Data(a)).0.Text?
    ensures FrameRead(FrameRead([], Data(a)).1, Data(b)).0.Text?
    ensures FrameRead([], Data(a + b)).0.Text?
    ensures FrameRead(FrameRead([], Data(a)).1, Data(b)).1 == FrameRead([], Data(a + b)).1
    ensures Split(FrameRead([], Data(a)).0.text) + Split(FrameRead(FrameRead([], Data(a)).1, Data(b)).0.text)
            == Split(FrameRead([], Data(a + b)).0.text)
  {
    hide FrameRead, SplitPending, DecodeAscii, Split, Ascii;
    ChunkCore(a, b);
    var t1, p1 := SplitPending(a).0, SplitPending(a).1;
    var t2, p2 := SplitPending(p1 + b).0, SplitPending(p1 + b).1;
    assert [] + a == a && [] + (a + b) == a + b;
    FrameReadAscii([], a);
    FrameReadAscii(p1, b);
    FrameReadAscii([], a + b);
    assert FrameRead([], Data(a)) == (Text(DecodeAscii(t1).value), p1);
    assert FrameRead(p1, Data(b)) == (Text(DecodeAscii(t2).value), p2);
    assert FrameRead([], Data(a + b)) == (Text(DecodeAscii(t1 + t2).value), p2);
  }
}
