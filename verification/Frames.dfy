/**
 The front panel's frames: opcode, length, subcommand, payload, checksum; and
 how a reader finds them in a byte stream (`encode`, `decode`, `read_frame`).
 */
module Frames {
  import opened Wrappers

  type byte = x: int | 0 <= x < 256

  const OP_COMMAND: byte := 0xF0
  const OP_ACK: byte := 0xF1
  const FRAME_MAX := 22
  const PAYLOAD_MAX := FRAME_MAX - 4

  datatype Frame = Frame(opcode: byte, subcmd: byte, payload: seq<byte>, checksumOk: bool)
  {
    predicate IsUnsolicited() {
      checksumOk && opcode == OP_COMMAND
    }
  }

  /** 8-bit wrapping sum. */
  function Checksum(bytes: seq<byte>): byte {
    if bytes == [] then 0 else (Checksum(bytes[..|bytes| - 1]) + bytes[|bytes| - 1]) % 256
  }

  function Truncated(payload: seq<byte>): (p: seq<byte>)
    ensures |p| <= PAYLOAD_MAX
  {
    if |payload| <= PAYLOAD_MAX then payload else payload[..PAYLOAD_MAX]
  }

  function Header(opcode: byte, subcmd: byte, payload: seq<byte>): seq<byte> {
    [opcode, |Truncated(payload)|, subcmd] + Truncated(payload)
  }

  function Encode(opcode: byte, subcmd: byte, payload: seq<byte>): seq<byte> {
    Header(opcode, subcmd, payload) + [Checksum(Header(opcode, subcmd, payload))]
  }

  function Decode(buf: seq<byte>): Option<Frame> {
    if |buf| < 4 then None
    else
      var n := buf[1];
      var ok := n + 3 < |buf| && Checksum(buf[..n + 3]) == buf[n + 3];
      Some(Frame(buf[0], buf[2], buf[3..if 3 + n < |buf| then 3 + n else |buf|], ok))
  }

  // ---------- the codec ----------

  lemma DecodeInvertsEncode(opcode: byte, subcmd: byte, payload: seq<byte>)
    ensures Decode(Encode(opcode, subcmd, payload)) == Some(Frame(opcode, subcmd, Truncated(payload), true))
  {
    var buf := Encode(opcode, subcmd, payload);
    assert buf[..buf[1] + 3] == Header(opcode, subcmd, payload);
    assert buf[3..3 + buf[1]] == Truncated(payload);
  }

  /** The bytes added up, without any limit. */
  function Sum(bytes: seq<byte>): nat {
    if bytes == [] then 0 else bytes[0] + Sum(bytes[1..])
  }

  lemma {:induction false} SumGrows(bytes: seq<byte>, b: byte)
    ensures Sum(bytes + [b]) == Sum(bytes) + b
  {
    if bytes == [] {
      assert bytes + [b] == [b];
    } else {
      assert (bytes + [b])[1..] == bytes[1..] + [b];
      SumGrows(bytes[1..], b);
    }
  }

  lemma {:induction false} ChecksumIsSum(bytes: seq<byte>)
    ensures Checksum(bytes) == Sum(bytes) % 256
  {
    if bytes != [] {
      var n := |bytes| - 1;
      ChecksumIsSum(bytes[..n]);
      SumGrows(bytes[..n], bytes[n]);
      assert bytes == bytes[..n] + [bytes[n]];
      hide Sum;
      Wraps(Sum(bytes[..n]), bytes[n]);
    }
  }

  lemma Wraps(sum: nat, b: byte)
    ensures (sum % 256 + b) % 256 == (sum + b) % 256
  {
  }

  /** A frame sent is opcode, payload length, subcommand, payload, and the sum of all these modulo 256. */
  lemma EncodedFrame(opcode: byte, subcmd: byte, payload: seq<byte>)
    requires |payload| <= 18
    ensures var frame := Encode(opcode, subcmd, payload);
            var n := |payload| + 3;
            && |frame| == n + 1 && frame[..n] == [opcode, |payload|, subcmd] + payload
            && frame[n] == Sum(frame[..n]) % 256
  {
    hide Checksum;
    var frame := Encode(opcode, subcmd, payload);
    assert frame[..|payload| + 3] == Header(opcode, subcmd, payload);
    ChecksumIsSum(frame[..|payload| + 3]);
  }

  /** A received frame is valid exactly if it is as long as it says and its last byte is that sum. */
  lemma DecodedFrame(buf: seq<byte>)
    requires |buf| >= 4
    ensures var f := Decode(buf);
            && f.Some? && f.value.opcode == buf[0] && f.value.subcmd == buf[2]
            && (f.value.checksumOk <==> buf[1] + 3 < |buf| && Sum(buf[..buf[1] + 3]) % 256 == buf[buf[1] + 3])
            && (buf[1] + 3 <= |buf| ==> f.value.payload == buf[3..buf[1] + 3])
  {
    hide Checksum;
    if buf[1] + 3 < |buf| {
      ChecksumIsSum(buf[..buf[1] + 3]);
    }
  }

  /** Changing one byte of what is summed changes the sum. */
  lemma {:induction false} ChecksumSeesChange(bytes: seq<byte>, i: nat, b: byte)
    requires i < |bytes| && b != bytes[i]
    ensures Checksum(bytes[i := b]) != Checksum(bytes)
  {
    var n := |bytes| - 1;
    if i == n {
      assert bytes[i := b][..n] == bytes[..n];
      SumsDiffer(bytes[n], b, Checksum(bytes[..n]));
    } else {
      assert bytes[i := b][..n] == bytes[..n][i := b];
      ChecksumSeesChange(bytes[..n], i, b);
      SumsDiffer(Checksum(bytes[..n]), Checksum(bytes[..n][i := b]), bytes[n]);
    }
  }

  lemma SumsDiffer(a: byte, b: byte, c: byte)
    requires a != b
    ensures (a + c) % 256 != (b + c) % 256
  {
  }

  /** Any single corrupted byte, other than the length, fails the checksum. */
  lemma CorruptionDetected(opcode: byte, subcmd: byte, payload: seq<byte>, i: nat, b: byte)
    requires i < |Encode(opcode, subcmd, payload)| && i != 1 && b != Encode(opcode, subcmd, payload)[i]
    ensures Decode(Encode(opcode, subcmd, payload)[i := b]).Some?
    ensures !Decode(Encode(opcode, subcmd, payload)[i := b]).value.checksumOk
  {
    hide Checksum;
    var head := Header(opcode, subcmd, payload);
    var buf := Encode(opcode, subcmd, payload);
    var bad := buf[i := b];
    assert bad[1] == |Truncated(payload)|;
    if i < |head| {
      assert bad[..bad[1] + 3] == head[i := b];
      ChecksumSeesChange(head, i, b);
    } else {
      assert bad[..bad[1] + 3] == head;
    }
  }

  // ---------- frames in a stream ----------

  predicate IsOpcode(b: byte) {
    b == OP_COMMAND || b == OP_ACK
  }

  /** The bytes so far make a frame of the length they announce, if that is a possible one. */
  predicate Complete(got: seq<byte>) {
    |got| >= 2 && got[1] + 4 <= FRAME_MAX && |got| >= got[1] + 4
  }

  /** Collects one frame from `input`, having `got` already, within at most `polls` bytes. */
  function Collect(got: seq<byte>, input: seq<byte>, polls: nat): (seq<byte>, seq<byte>)
    decreases |input|
  {
    if |got| >= FRAME_MAX || polls == 0 || input == [] then (got, input)
    else if got == [] && !IsOpcode(input[0]) then Collect(got, input[1..], polls - 1)
    else
      var more := got + [input[0]];
      if Complete(more) then (more, input[1..]) else Collect(more, input[1..], polls - 1)
  }

  /** What one read returns, and what it leaves in the stream. */
  function Receive(input: seq<byte>, polls: nat): (Option<Frame>, seq<byte>) {
    var (got, rest) := Collect([], input, polls);
    (if got == [] then None else Decode(got), rest)
  }

  /** A frame on the wire, behind some bytes that cannot start one. */
  datatype Sent = Sent(junk: seq<byte>, opcode: byte, subcmd: byte, payload: seq<byte>)
  {
    predicate Valid() {
      && (opcode == 0xF0 || opcode == 0xF1) && |payload| <= 18
      && forall b | b in junk :: b != 0xF0 && b != 0xF1
    }

    function Wire(): seq<byte> {
      junk + Encode(opcode, subcmd, payload)
    }

    function Received(): Frame {
      Frame(opcode, subcmd, payload, true)
    }
  }

  function Wire(sent: seq<Sent>): seq<byte> {
    if sent == [] then [] else sent[0].Wire() + Wire(sent[1..])
  }

  lemma {:induction false} JunkIsSkipped(junk: seq<byte>, input: seq<byte>, polls: nat)
    requires (forall b | b in junk :: !IsOpcode(b)) && polls >= |junk|
    ensures Collect([], junk + input, polls) == Collect([], input, polls - |junk|)
  {
    if junk == [] {
      assert junk + input == input;
    } else {
      assert (junk + input)[1..] == junk[1..] + input;
      JunkIsSkipped(junk[1..], input, polls - 1);
    }
  }

  lemma {:induction false} FrameIsCollected(frame: seq<byte>, k: nat, rest: seq<byte>, polls: nat)
    requires 4 <= |frame| <= FRAME_MAX && |frame| - 4 == frame[1] && IsOpcode(frame[0])
    requires k < |frame| && polls >= |frame| - k
    ensures Collect(frame[..k], frame[k..] + rest, polls) == (frame, rest)
    decreases |frame| - k
  {
    var input := frame[k..] + rest;
    assert input[0] == frame[k] && input[1..] == frame[k + 1..] + rest;
    assert frame[..k] + [frame[k]] == frame[..k + 1];
    if k + 1 < |frame| {
      FrameIsCollected(frame, k + 1, rest, polls - 1);
    } else {
      assert frame[..k + 1] == frame && frame[k + 1..] + rest == rest;
    }
  }

  /** One read skips the junk and takes exactly the frame. */
  lemma ReceivesOne(s: Sent, rest: seq<byte>, polls: nat)
    requires s.Valid() && polls >= |s.Wire()|
    ensures Receive(s.Wire() + rest, polls) == (Some(s.Received()), rest)
  {
    hide Checksum;
    hide Collect;
    var frame := Encode(s.opcode, s.subcmd, s.payload);
    assert s.Wire() + rest == s.junk + (frame + rest);
    JunkIsSkipped(s.junk, frame + rest, polls);
    assert frame[..0] == [] && frame[0..] == frame;
    FrameIsCollected(frame, 0, rest, polls - |s.junk|);
    DecodeInvertsEncode(s.opcode, s.subcmd, s.payload);
  }

  /** The frames that successive reads return, and what they leave. */
  function ReceiveAll(input: seq<byte>, polls: seq<nat>): (seq<Option<Frame>>, seq<byte>)
    decreases |polls|
  {
    if polls == [] then ([], input)
    else
      var (frame, rest) := Receive(input, polls[0]);
      var (frames, left) := ReceiveAll(rest, polls[1..]);
      ([frame] + frames, left)
  }

  /**
   Any sequence of frames, with any junk between them, is read back exactly,
   in order, each read consuming its frame and nothing after it.
   */
  lemma {:induction false} StreamRoundTrip(sent: seq<Sent>, rest: seq<byte>, polls: seq<nat>)
    requires |polls| == |sent|
    requires forall i | 0 <= i < |sent| :: sent[i].Valid() && polls[i] >= |sent[i].Wire()|
    ensures ReceiveAll(Wire(sent) + rest, polls)
            == (seq(|sent|, i requires 0 <= i < |sent| => Some(sent[i].Received())), rest)
  {
    hide Receive;
    if sent == [] {
      assert Wire(sent) + rest == rest;
    } else {
      var later := Wire(sent[1..]) + rest;
      assert Wire(sent) + rest == sent[0].Wire() + later;
      ReceivesOne(sent[0], later, polls[0]);
      StreamRoundTrip(sent[1..], rest, polls[1..]);
      assert seq(|sent|, i requires 0 <= i < |sent| => Some(sent[i].Received()))
          == [Some(sent[0].Received())]
             + seq(|sent| - 1, i requires 0 <= i < |sent| - 1 => Some(sent[1..][i].Received()));
    }
  }

  /** On arbitrary bytes a read takes a prefix of the stream and never more than one longest frame. */
  lemma {:induction false} CollectBounds(got: seq<byte>, input: seq<byte>, polls: nat)
    requires |got| <= FRAME_MAX
    ensures var (g, rest) := Collect(got, input, polls);
            && got <= g && |g| <= FRAME_MAX && |rest| <= |input| && rest == input[|input| - |rest|..]
            && |input| - |rest| <= polls && |g| - |got| <= |input| - |rest|
            && (got != [] ==> g == got + input[..|input| - |rest|])
    decreases |input|
  {
    if |got| < FRAME_MAX && polls > 0 && input != [] {
      if got == [] && !IsOpcode(input[0]) {
        CollectBounds(got, input[1..], polls - 1);
      } else if !Complete(got + [input[0]]) {
        CollectBounds(got + [input[0]], input[1..], polls - 1);
        var rest := Collect(got, input, polls).1;
        assert input[..|input| - |rest|] == [input[0]] + input[1..][..|input[1..]| - |rest|];
      } else {
        assert input[..1] == [input[0]];
      }
    }
  }
}
