/** The text form in which a serial adapter exchanges frames, and the reassembly of its lines. */
module Slcan {
  import opened Bytes
  import opened Wrappers
  import opened Datagrams
  import Reassembly

  /** A frame object of the client: the frame and its declared data length. */
  datatype Declared = Declared(frame: Frame, length: nat)

  const MIN_MSG_LEN := 5

  // ----- hexadecimal -----

  function Digit(n: nat): char
    requires n < 16
  {
    "0123456789abcdef"[n]
  }

  function DigitValue(c: char): Option<nat> {
    if '0' <= c <= '9' then Some(c as int - '0' as int)
    else if 'a' <= c <= 'f' then Some(c as int - 'a' as int + 10)
    else if 'A' <= c <= 'F' then Some(c as int - 'A' as int + 10)
    else None
  }

  lemma DigitRoundTrip(n: nat)
    requires n < 16
    ensures DigitValue(Digit(n)) == Some(n) && Digit(n) != '\r'
    ensures n < 10 ==> DecimalValue(Digit(n)) == Some(n)
  {
  }

  function DecimalValue(c: char): Option<nat> {
    if '0' <= c <= '9' then Some(c as int - '0' as int) else None
  }

  /** `'{:0wx}'.format(n)`: at least `w` digits. */
  function FormatHex(n: nat, w: nat): string
    decreases n, w
  {
    if n == 0 && w == 0 then ""
    else FormatHex(n / 16, if w > 0 then w - 1 else 0) + [Digit(n % 16)]
  }

  /** `int(s, 16)` of a string of plain digits. */
  function ParseHex(s: string): Option<nat> {
    if s == [] then None
    else
      var last := DigitValue(s[|s| - 1]);
      if last.None? then None
      else if |s| == 1 then last
      else
        match ParseHex(s[..|s| - 1])
        case None => None
        case Some(v) => Some(v * 16 + last.value)
  }

  function Pow16(w: nat): nat {
    if w == 0 then 1 else 16 * Pow16(w - 1)
  }

  predicate NoReturn(s: string) {
    forall i :: 0 <= i < |s| ==> s[i] != '\r'
  }

  /** A number that fits its field is written in exactly that many digits and read back. */
  lemma {:induction false} HexRoundTrip(n: nat, w: nat)
    requires n < Pow16(w)
    ensures |FormatHex(n, w)| == w && NoReturn(FormatHex(n, w))
    ensures w > 0 ==> ParseHex(FormatHex(n, w)) == Some(n)
    decreases w
  {
    if w > 0 {
      DigitRoundTrip(n % 16);
      HexRoundTrip(n / 16, w - 1);
      var s := FormatHex(n, w);
      assert s[..|s| - 1] == FormatHex(n / 16, w - 1);
    }
  }

  // ----- one frame -----

  function FormatBytes(data: seq<byte>): string {
    if data == [] then "" else FormatHex(data[0], 2) + FormatBytes(data[1..])
  }

  function IdLength(extended: bool): nat {
    if extended then 8 else 3
  }

  function EncodeFrame(d: Declared): string {
    var f := d.frame;
    (if f.extended then "T" else "t") + FormatHex(f.id, IdLength(f.extended)) + FormatHex(d.length, 1) + FormatBytes(f.data)
  }

  /** The first `n` bytes in two-digit form. */
  function ParseBytes(s: string, n: nat): Option<seq<byte>>
    requires 2 * n <= |s|
  {
    if n == 0 then Some([])
    else
      match ParseHex(s[..2])
      case None => None
      case Some(b) =>
        match ParseBytes(s[2..], n - 1)
        case None => None
        case Some(rest) => if b < 0x100 then Some([b] + rest) else None
  }

  /** The frame constructor keeps at most eight data bytes. */
  function MakeFrame(id: nat, data: seq<byte>, length: nat, extended: bool): Declared {
    Declared(Frame(id, if |data| > 8 then data[..8] else data, extended), length)
  }

  function DecodeFrame(msg: string): Option<Declared> {
    if |msg| < MIN_MSG_LEN then None
    else if msg[0] != 'T' && msg[0] != 't' then None
    else
      var extended := msg[0] == 'T';
      var idLen := IdLength(extended);
      var rest := msg[1..];
      if |rest| < idLen + 1 then None
      else
        var id := ParseHex(rest[..idLen]);
        var length := DecimalValue(rest[idLen]);
        var digits := rest[idLen + 1..];
        if id.None? || length.None? then None
        else if |digits| < 2 * length.value then None
        else
          match ParseBytes(digits, length.value)
          case None => None
          case Some(data) => Some(MakeFrame(id.value, data, length.value, extended))
  }

  /** At most eight data bytes, all declared, and an identifier that fits its field. */
  predicate Fits(d: Declared) {
    |d.frame.data| <= 8 && d.length == |d.frame.data| && d.frame.id < Pow16(IdLength(d.frame.extended))
  }

  lemma {:induction false} BytesRoundTrip(data: seq<byte>)
    ensures |FormatBytes(data)| == 2 * |data| && NoReturn(FormatBytes(data))
    ensures ParseBytes(FormatBytes(data), |data|) == Some(data)
  {
    if data != [] {
      assert Pow16(2) == 256;
      HexRoundTrip(data[0], 2);
      BytesRoundTrip(data[1..]);
      var s := FormatBytes(data);
      assert s[..2] == FormatHex(data[0], 2) && s[2..] == FormatBytes(data[1..]);
      assert [data[0]] + data[1..] == data;
      assert forall i :: 2 <= i < |s| ==> s[i] == FormatBytes(data[1..])[i - 2];
    }
  }

  /** The text of a frame decodes to the frame. */
  lemma DecodeEncodeFrame(d: Declared)
    requires Fits(d)
    ensures DecodeFrame(EncodeFrame(d)) == Some(d)
    ensures NoReturn(EncodeFrame(d))
  {
    var f := d.frame;
    var w := IdLength(f.extended);
    HexRoundTrip(f.id, w);
    assert Pow16(1) == 16;
    HexRoundTrip(d.length, 1);
    assert FormatHex(d.length, 1) == [Digit(d.length)] by {
      assert FormatHex(d.length, 1) == FormatHex(0, 0) + [Digit(d.length)];
    }
    DigitRoundTrip(d.length);
    BytesRoundTrip(f.data);
    hide FormatHex, ParseHex, ParseBytes, FormatBytes, Digit, Pow16, DecimalValue;
    var cmd := if f.extended then "T" else "t";
    TextParts(cmd, FormatHex(f.id, w), [Digit(d.length)], FormatBytes(f.data), w);
    assert MakeFrame(f.id, f.data, d.length, f.extended) == d;
  }

  /** The text of a standard frame, character by character. */
  lemma FrameText(f: Frame, i: nat)
    requires !f.extended && f.id < 0x1000 && i < |f.data| <= 8
    ensures
      var s := EncodeFrame(Declared(f, |f.data|));
      && |s| == 5 + 2 * |f.data| && s[0] == 't'
      && s[1] == Digit(f.id / 0x100) && s[2] == Digit(f.id / 0x10 % 0x10) && s[3] == Digit(f.id % 0x10)
      && s[4] == "0123456789abcdef"[|f.data|]
      && s[5 + 2 * i] == Digit(f.data[i] / 0x10) && s[6 + 2 * i] == Digit(f.data[i] % 0x10)
  {
    ThreeDigits(f.id);
    OneDigit(|f.data|);
    BytesText(f.data, i);
    hide FormatHex, FormatBytes;
  }

  lemma OneDigit(n: nat)
    requires n < 16
    ensures FormatHex(n, 1) == [Digit(n)]
  {
    assert FormatHex(0, 0) == "";
  }

  lemma TwoDigits(n: nat)
    requires n < 0x100
    ensures FormatHex(n, 2) == [Digit(n / 0x10), Digit(n % 0x10)]
  {
    OneDigit(n / 0x10);
  }

  lemma ThreeDigits(n: nat)
    requires n < 0x1000
    ensures FormatHex(n, 3) == [Digit(n / 0x100), Digit(n / 0x10 % 0x10), Digit(n % 0x10)]
  {
    TwoDigits(n / 0x10);
    assert n / 0x10 / 0x10 == n / 0x100;
    hide Digit;
  }

  lemma {:induction false} BytesText(data: seq<byte>, i: nat)
    requires i < |data|
    ensures |FormatBytes(data)| == 2 * |data|
    ensures FormatBytes(data)[2 * i] == Digit(data[i] / 0x10) && FormatBytes(data)[2 * i + 1] == Digit(data[i] % 0x10)
  {
    hide Digit;
    TwoDigits(data[0]);
    BytesRoundTrip(data);
    if i > 0 {
      BytesText(data[1..], i - 1);
    }
  }

  lemma TextParts(cmd: string, id: string, length: string, data: string, w: nat)
    requires |cmd| == 1 && |id| == w && |length| == 1
    requires NoReturn(cmd) && NoReturn(id) && NoReturn(length) && NoReturn(data)
    ensures
      var msg := cmd + id + length + data;
      var rest := msg[1..];
      && |msg| == w + 2 + |data| && msg[0] == cmd[0] && rest[..w] == id && rest[w] == length[0] && rest[w + 1..] == data
      && NoReturn(msg)
  {
    assert (cmd + id + length + data)[1..] == id + length + data;
  }

  /** The same text with its hexadecimal letters in upper case, as many adapters write them. */
  function Upper(s: string): (u: string)
    ensures |u| == |s|
  {
    seq(|s|, i requires 0 <= i < |s| => if 'a' <= s[i] <= 'f' then (s[i] as int - 'a' as int + 'A' as int) as char else s[i])
  }

  lemma {:induction false} ParseHexUpper(s: string)
    ensures ParseHex(Upper(s)) == ParseHex(s)
  {
    if |s| > 1 {
      ParseHexUpper(s[..|s| - 1]);
      assert Upper(s)[..|s| - 1] == Upper(s[..|s| - 1]);
    }
  }

  lemma {:induction false} ParseBytesUpper(s: string, n: nat)
    requires 2 * n <= |s|
    ensures ParseBytes(Upper(s), n) == ParseBytes(s, n)
  {
    hide ParseHex;
    if n > 0 {
      ParseHexUpper(s[..2]);
      ParseBytesUpper(s[2..], n - 1);
      assert Upper(s)[..2] == Upper(s[..2]) && Upper(s)[2..] == Upper(s[2..]);
    }
  }

  /** Decoding does not depend on the case of the digits, and never yields more than eight bytes. */
  lemma DecodeAnyCase(msg: string)
    requires msg != []
    ensures DecodeFrame(msg[..1] + Upper(msg[1..])) == DecodeFrame(msg)
    ensures DecodeFrame(msg).Some? ==> |DecodeFrame(msg).value.frame.data| <= 8
  {
    var w := IdLength(msg[0] == 'T');
    var rest, other := msg[1..], msg[..1] + Upper(msg[1..]);
    assert other[1..] == Upper(rest);
    if w + 1 <= |rest| {
      var digits := rest[w + 1..];
      assert Upper(rest)[..w] == Upper(rest[..w]) && Upper(rest)[w + 1..] == Upper(digits);
      ParseHexUpper(rest[..w]);
      assert DecimalValue(Upper(rest)[w]) == DecimalValue(rest[w]);
      var length := DecimalValue(rest[w]);
      hide ParseHex, ParseBytes, Upper;
      if length.Some? && 2 * length.value <= |digits| {
        ParseBytesUpper(digits, length.value);
      }
    }
  }

  // ----- the stream -----

  /** `s.split('\r')` */
  function Split(s: string): (parts: seq<string>)
    ensures |parts| >= 1
  {
    if s == [] then [""]
    else if s[0] == '\r' then [""] + Split(s[1..])
    else
      var parts := Split(s[1..]);
      [[s[0]] + parts[0]] + parts[1..]
  }

  function DecodeAll(lines: seq<string>): seq<Declared> {
    if lines == [] then []
    else
      match DecodeFrame(lines[0])
      case None => DecodeAll(lines[1..])
      case Some(f) => [f] + DecodeAll(lines[1..])
  }

  /** The unfinished line and the frames queued so far. */
  datatype Receiver = Receiver(part: string, queue: seq<Declared>)

  function Receive(r: Receiver, c: char): Receiver {
    var part := r.part + [c];
    if '\r' !in part then r.(part := part)
    else
      var lines := Split(part);
      Receiver(lines[|lines| - 1], r.queue + DecodeAll(lines[..|lines| - 1]))
  }

  function ReceiveAll(r: Receiver, input: string): Receiver
    decreases |input|
  {
    if input == [] then r else ReceiveAll(Receive(r, input[0]), input[1..])
  }

  /** The receiving thread, on the characters read one at a time. */
  method Spin(input: string) returns (queue: seq<Declared>)
    ensures queue == ReceiveAll(Receiver("", []), input).queue
  {
    queue := [];
    var part := "";
    var i := 0;
    while i < |input|
      invariant i <= |input|
      invariant ReceiveAll(Receiver("", []), input) == ReceiveAll(Receiver(part, queue), input[i..])
    {
      hide DecodeFrame, Split;
      ghost var before := Receiver(part, queue);
      ghost var c := input[i];
      assert input[i..][1..] == input[i + 1..] && input[i..][0] == c;
      part := part + [input[i]];
      i := i + 1;
      if '\r' !in part {
        continue;
      }
      var data := Split(part);
      data, part := data[..|data| - 1], data[|data| - 1];
      ghost var lines, queued := data, queue;
      var j := 0;
      while j < |data|
        invariant j <= |data| && queue + DecodeAll(data[j..]) == queued + DecodeAll(lines)
      {
        assert data[j..][1..] == data[j + 1..];
        var frame := DecodeFrame(data[j]);
        if frame.Some? {
          queue := queue + [frame.value];
        }
        j := j + 1;
      }
      assert Receive(before, c) == Receiver(part, queue);
    }
  }

  lemma {:induction false} SplitLine(s: string)
    requires NoReturn(s)
    ensures Split(s + "\r") == [s, ""]
  {
    if s == [] {
      assert Split("\r") == [""] + Split("\r"[1..]);
    } else {
      assert (s + "\r")[1..] == s[1..] + "\r";
      SplitLine(s[1..]);
      assert [s[0]] + s[1..] == s;
    }
  }

  /** A line without returns, then a return: the line is decoded and the receiver starts afresh. */
  lemma {:induction false} ReceiveLine(r: Receiver, line: string, rest: string)
    requires NoReturn(r.part) && NoReturn(line)
    ensures ReceiveAll(r, line + "\r" + rest)
         == ReceiveAll(Receiver("", r.queue + DecodeAll([r.part + line])), rest)
    decreases |line|
  {
    hide DecodeFrame;
    var input := line + "\r" + rest;
    if line == [] {
      assert input[0] == '\r' && input[1..] == rest;
      SplitLine(r.part);
      assert r.part + line == r.part;
      assert [r.part, ""][..1] == [r.part];
    } else {
      assert input[0] == line[0] && input[1..] == line[1..] + "\r" + rest;
      var r' := Receive(r, line[0]);
      assert r' == r.(part := r.part + [line[0]]);
      ReceiveLine(r', line[1..], rest);
      assert r'.part + line[1..] == r.part + line;
    }
  }

  lemma DecodeOne(line: string, f: Declared)
    requires DecodeFrame(line) == Some(f)
    ensures DecodeAll([line]) == [f]
  {
    hide DecodeFrame;
    assert [line][1..] == [];
  }

  /** The text of several frames, each ended by a carriage return. */
  function Text(frames: seq<Declared>): string {
    if frames == [] then "" else EncodeFrame(frames[0]) + "\r" + Text(frames[1..])
  }

  /** A stream of encoded frames, read character by character, gives exactly the frames. */
  lemma {:induction false} StreamRoundTrip(queue: seq<Declared>, frames: seq<Declared>)
    requires forall i :: 0 <= i < |frames| ==> Fits(frames[i])
    ensures ReceiveAll(Receiver("", queue), Text(frames)) == Receiver("", queue + frames)
    decreases |frames|
  {
    hide EncodeFrame, DecodeFrame, Receive, Fits;
    if frames == [] {
      assert queue + frames == queue;
    } else {
      DecodeEncodeFrame(frames[0]);
      ReceiveLine(Receiver("", queue), EncodeFrame(frames[0]), Text(frames[1..]));
      assert "" + EncodeFrame(frames[0]) == EncodeFrame(frames[0]);
      DecodeOne(EncodeFrame(frames[0]), frames[0]);
      hide DecodeAll;
      StreamRoundTrip(queue + [frames[0]], frames[1..]);
      assert queue + [frames[0]] + frames[1..] == queue + frames;
    }
  }

  // ----- datagrams over the serial link -----

  function Declare(frames: seq<Frame>): seq<Declared> {
    seq(|frames|, i requires 0 <= i < |frames| => Declared(frames[i], |frames[i].data|))
  }

  /** What the datagram reader takes from the queue: the data up to the declared length. */
  function Events(queue: seq<Declared>): seq<Reassembly.Event>
    decreases |queue|
  {
    if queue == [] then []
    else
      var f := queue[0].frame;
      [Reassembly.Received(f.(data := f.data[..if queue[0].length < |f.data| then queue[0].length else |f.data|]))] + Events(queue[1..])
  }

  lemma {:induction false} EventsOfDeclared(frames: seq<Frame>, source: nat)
    requires source < 0x80
    requires forall i :: 0 <= i < |frames| ==> !frames[i].extended && Reassembly.Source(frames[i]) == source
    ensures Reassembly.Projection(Events(Declare(frames)), source) == frames
    ensures forall id: nat | id != source :: Reassembly.Projection(Events(Declare(frames)), id) == []
    decreases |frames|
  {
    if frames != [] {
      var f, rest := frames[0], Events(Declare(frames[1..]));
      assert Declare(frames)[1..] == Declare(frames[1..]) && f.data[..|f.data|] == f.data;
      assert Events(Declare(frames)) == [Reassembly.Received(f)] + rest;
      EventsOfDeclared(frames[1..], source);
      assert ([Reassembly.Received(f)] + rest)[1..] == rest && [f] + frames[1..] == frames;
      forall id: nat
        ensures Reassembly.Projection(Events(Declare(frames)), id)
             == if id == source then [f] + Reassembly.Projection(rest, id) else Reassembly.Projection(rest, id)
      {
      }
    }
  }

  /** A standard frame from this source, with at most eight bytes. */
  predicate FromSource(f: Frame, source: nat) {
    Fits(Declared(f, |f.data|)) && !f.extended && Reassembly.Source(f) == source
  }

  lemma FrameFits(s: seq<byte>, source: nat, k: nat)
    requires source < 0x80 && k < |Frames(s, source)|
    ensures FromSource(Frames(s, source)[k], source)
  {
    FrameAt(s, true, source, k);
    assert Pow16(3) == 4096;
  }

  lemma {:induction false} StreamFits(sent: seq<Datagram>, source: nat, i: nat)
    requires source < 0x80 && forall d | d in sent :: Encodable(d)
    requires i < |Reassembly.Stream(sent, source)|
    ensures FromSource(Reassembly.Stream(sent, source)[i], source)
    decreases |sent|
  {
    hide Encode, Frames, FromSource;
    var first := Frames(Encode(sent[0]), source);
    if i < |first| {
      FrameFits(Encode(sent[0]), source, i);
    } else {
      StreamFits(sent[1..], source, i - |first|);
    }
  }

  /** Whole datagrams over the serial link: framed, written as text, read back character by character and reassembled, with any
      buffer contents left from before, they are handed out exactly as sent. */
  lemma SerialLink(buf: Reassembly.Buffers, sent: seq<Datagram>, source: nat)
    requires source < 0x80 && forall d | d in sent :: Encodable(d)
    ensures
      var queue := ReceiveAll(Receiver("", []), Text(Declare(Reassembly.Stream(sent, source)))).queue;
      var trace := Reassembly.Run({}, buf, Events(queue));
      !trace.raised && Reassembly.From(trace.output, source) == sent
  {
    hide ReceiveAll, Text, Events, Reassembly.Run, Reassembly.From, Reassembly.Stream, Reassembly.Projection, Fits, Encode;
    var frames := Reassembly.Stream(sent, source);
    forall i | 0 <= i < |frames|
      ensures FromSource(frames[i], source)
    {
      StreamFits(sent, source, i);
    }
    StreamRoundTrip([], Declare(frames));
    assert [] + Declare(frames) == Declare(frames);
    EventsOfDeclared(frames, source);
    var sentBy := (s: nat) => if s == source then sent else [];
    NothingSent();
    Reassembly.Demultiplexing({}, buf, Events(Declare(frames)), sentBy);
  }

  lemma NothingSent()
    ensures forall s: nat :: Reassembly.Stream([], s) == []
  {
  }
}
