/**
 The link to the front panel (`Lcm`): sends a command and waits for its
 acknowledgement among whatever else arrives, and remembers which text each
 line is confirmed to show.
 */
module Link {
  import opened Wrappers
  import opened Frames

  /** Microseconds. */
  const SETTLE := 20_000
  const RETRY_BACKOFF := 100_000
  const ACK_TIMEOUT := 300_000
  const SUB_SET_TEXT: byte := 0x27
  const LINE_WIDTH := 16

  /** Ten bits a byte at 115200 baud. */
  function WireTime(bytes: nat): nat {
    bytes * 10 * 1_000_000 / 115_200
  }

  /** To the microsecond, ten bits a byte. */
  lemma WireTimeMeans(bytes: nat)
    ensures WireTime(bytes) * 115_200 <= bytes * 10_000_000 < (WireTime(bytes) + 1) * 115_200
  {
  }

  /**
   One read while waiting: what arrives, how many bytes come before the
   deadline, when it returns, and whether an acknowledgement can be sent.
   */
  datatype Wait = Wait(arriving: seq<byte>, polls: nat, at: int, ackOk: bool)

  /** One attempt at a command: whether it can be sent, and the reads that follow. */
  datatype Attempt = Attempt(sendOk: bool, waits: seq<Wait>)

  datatype IoError = SendFailed

  /** A frame read while waiting: when it was complete, and when we last began to send. */
  datatype Heard = Heard(frame: Frame, at: int, lastSend: int)

  // ---------- what was heard ----------

  function Unsolicited(heard: seq<Heard>): seq<Frame> {
    if heard == [] then []
    else
      var h := heard[|heard| - 1];
      Unsolicited(heard[..|heard| - 1]) + (if h.frame.IsUnsolicited() then [h.frame] else [])
  }

  /** What is queued is what was heard with a valid checksum and the panel's own opcode, and nothing else. */
  lemma {:induction false} QueuedIff(heard: seq<Heard>, f: Frame)
    ensures f in Unsolicited(heard) <==>
            f.checksumOk && f.opcode == 0xF0 && exists k | 0 <= k < |heard| :: heard[k].frame == f
  {
    if heard != [] {
      var n := |heard| - 1;
      var init := heard[..n];
      assert forall k | 0 <= k < n :: init[k] == heard[k];
      QueuedIff(init, f);
      if f in Unsolicited(heard) && f !in Unsolicited(init) {
        assert heard[n].frame == f;
      }
      if k :| 0 <= k < |heard| && heard[k].frame == f {
        assert k < n ==> init[k].frame == f;
      }
    }
  }

  predicate AnswersTo(f: Frame, subcmd: byte) {
    f.checksumOk && f.opcode == OP_ACK && f.subcmd == subcmd
  }

  /** An acknowledgement counts only if it could have come after the last thing sent. */
  predicate Settles(h: Heard, subcmd: byte, earliest: nat) {
    AnswersTo(h.frame, subcmd) && h.at - h.lastSend >= earliest
  }

  /** Each unsolicited frame is acknowledged a settle time after it, which moves `lastSend`. */
  predicate Chained(log: seq<Heard>, sentAt: int) {
    forall k | 0 <= k < |log| ::
      log[k].lastSend == LastSendBefore(log, sentAt, k) && log[k].lastSend <= log[k].at
  }

  /** When we last began to send, before hearing number `k`. */
  function LastSendBefore(log: seq<Heard>, sentAt: int, k: nat): int
    requires k <= |log|
  {
    if k == 0 then sentAt
    else if log[k - 1].frame.IsUnsolicited() then log[k - 1].at + SETTLE
    else log[k - 1].lastSend
  }

  function Later(a: int, b: int): int {
    if a < b then b else a
  }

  /** The earliest a frame can be sent after anything was received at `lastRx`. */
  function SettledAt(lastRx: Option<int>, now: int): int {
    if lastRx.Some? then Later(now, lastRx.value + SETTLE) else now
  }

  /** When the next read can begin: an unsolicited frame is acknowledged first, a settle time after it came. */
  function FreeAt(log: seq<Heard>, sentAt: int, k: nat): int
    requires k <= |log|
  {
    if k == 0 then sentAt
    else if log[k - 1].frame.IsUnsolicited() then log[k - 1].at + SETTLE
    else log[k - 1].at
  }

  /** Each frame is heard when its read returns, or as soon as the next read can begin. */
  predicate ReadOnTime(log: seq<Heard>, sentAt: int, waits: seq<Wait>)
    requires |log| <= |waits|
  {
    forall k | 0 <= k < |log| :: log[k].at == Later(FreeAt(log, sentAt, k), waits[k].at)
  }

  /** No read begins at or after the deadline. */
  predicate Prompt(log: seq<Heard>, sentAt: int, waits: nat, timeout: nat)
    requires waits <= |log| + 1
  {
    forall k | 0 <= k < waits :: FreeAt(log, sentAt, k) < sentAt + timeout
  }

  lemma FreeAtGrows(log: seq<Heard>, sentAt: int, h: Heard)
    ensures forall k | 0 <= k <= |log| :: FreeAt(log + [h], sentAt, k) == FreeAt(log, sentAt, k)
    ensures FreeAt(log + [h], sentAt, |log| + 1) == if h.frame.IsUnsolicited() then h.at + SETTLE else h.at
  {
  }

  lemma ChainGrows(log: seq<Heard>, sentAt: int, h: Heard)
    requires Chained(log, sentAt) && h.lastSend == LastSendBefore(log, sentAt, |log|) && h.lastSend <= h.at
    ensures Chained(log + [h], sentAt)
    ensures Unsolicited(log + [h]) == Unsolicited(log) + (if h.frame.IsUnsolicited() then [h.frame] else [])
    ensures LastSendBefore(log + [h], sentAt, |log| + 1)
            == if h.frame.IsUnsolicited() then h.at + SETTLE else h.lastSend
  {
    hide LastSendBefore;
    hide Unsolicited;
    HeardGrows(log, h);
    LastSendGrows(log, sentAt, h);
    var more := log + [h];
    forall k | 0 <= k < |more|
      ensures more[k].lastSend == LastSendBefore(more, sentAt, k) && more[k].lastSend <= more[k].at
    {
      assert k < |log| ==> more[k] == log[k];
    }
  }

  lemma LastSendGrows(log: seq<Heard>, sentAt: int, h: Heard)
    ensures forall k | 0 <= k <= |log| :: LastSendBefore(log + [h], sentAt, k) == LastSendBefore(log, sentAt, k)
    ensures LastSendBefore(log + [h], sentAt, |log| + 1)
            == if h.frame.IsUnsolicited() then h.at + SETTLE else h.lastSend
  {
  }

  lemma HeardGrows(log: seq<Heard>, h: Heard)
    ensures Unsolicited(log + [h]) == Unsolicited(log) + (if h.frame.IsUnsolicited() then [h.frame] else [])
  {
    assert (log + [h])[..|log|] == log;
  }

  /** A success is never for an answer that came too early to be the command's own. */
  lemma {:induction false} SettledIsLateEnough(log: seq<Heard>, sentAt: int, k: nat, subcmd: byte, earliest: nat)
    requires Chained(log, sentAt) && k < |log| && Settles(log[k], subcmd, earliest)
    ensures log[k].at - sentAt >= earliest
  {
    LastSendOnlyGrows(log, sentAt, k);
  }

  lemma {:induction false} LastSendOnlyGrows(log: seq<Heard>, sentAt: int, k: nat)
    requires Chained(log, sentAt) && k < |log|
    ensures sentAt <= log[k].lastSend
  {
    if k > 0 {
      LastSendOnlyGrows(log, sentAt, k - 1);
      assert log[k - 1].lastSend <= log[k - 1].at;
    }
  }

  /**
   The converse fails: a genuine answer is ignored exactly when it follows the
   acknowledgement of an unsolicited frame by less than `earliest`.
   */
  lemma {:induction false} GenuineAnswerIgnoredIff(log: seq<Heard>, sentAt: int, k: nat, subcmd: byte, earliest: nat)
    requires Chained(log, sentAt) && k < |log|
    requires AnswersTo(log[k].frame, subcmd) && log[k].at - sentAt >= earliest
    ensures !Settles(log[k], subcmd, earliest) <==>
            exists j | 0 <= j < k :: log[j].frame.IsUnsolicited() && log[k].at - (log[j].at + SETTLE) < earliest
  {
    if j :| 0 <= j < k && log[j].frame.IsUnsolicited() && log[k].at - (log[j].at + SETTLE) < earliest {
      LastSendAfter(log, sentAt, j, k);
    }
    if !Settles(log[k], subcmd, earliest) {
      var j := LastSendFrom(log, sentAt, k);
      assert log[k].lastSend != sentAt;
    }
  }

  lemma {:induction false} LastSendAfter(log: seq<Heard>, sentAt: int, j: nat, k: nat)
    requires Chained(log, sentAt) && j < k < |log| && log[j].frame.IsUnsolicited()
    ensures log[j].at + SETTLE <= log[k].lastSend
  {
    if j < k - 1 {
      LastSendAfter(log, sentAt, j, k - 1);
    }
  }

  lemma {:induction false} LastSendFrom(log: seq<Heard>, sentAt: int, k: nat) returns (j: int)
    requires Chained(log, sentAt) && k < |log|
    ensures (j < 0 && log[k].lastSend == sentAt)
            || (0 <= j < k && log[j].frame.IsUnsolicited() && log[k].lastSend == log[j].at + SETTLE)
  {
    if k == 0 {
      j := -1;
    } else if log[k - 1].frame.IsUnsolicited() {
      j := k - 1;
    } else {
      j := LastSendFrom(log, sentAt, k - 1);
    }
  }

  // ---------- what came in and what went out ----------

  /** What successive reads return from a stream, each after its own bytes have arrived, and what they leave. */
  function Reads(input: seq<byte>, waits: seq<Wait>): (r: (seq<Option<Frame>>, seq<byte>))
    ensures |r.0| == |waits|
  {
    if waits == [] then ([], input)
    else
      var n := |waits| - 1;
      var (frames, left) := Reads(input, waits[..n]);
      var (f, rest) := Receive(left + waits[n].arriving, waits[n].polls);
      (frames + [f], rest)
  }

  function Arrived(waits: seq<Wait>): seq<byte> {
    if waits == [] then [] else Arrived(waits[..|waits| - 1]) + waits[|waits| - 1].arriving
  }

  lemma {:induction false} WireGrows(sent: seq<Sent>)
    requires sent != []
    ensures Wire(sent) == Wire(sent[..|sent| - 1]) + sent[|sent| - 1].Wire()
  {
    if |sent| > 1 {
      assert sent[1..][..|sent| - 2] == sent[..|sent| - 1][1..];
      WireGrows(sent[1..]);
    }
  }

  /** Each frame has arrived in full by the time its read gives up. */
  predicate InTime(sent: seq<Sent>, input: seq<byte>, waits: seq<Wait>)
    requires |waits| == |sent|
  {
    && (forall i | 0 <= i < |sent| :: sent[i].Valid() && waits[i].polls >= |sent[i].Wire()|)
    && (forall k | 0 <= k <= |sent| :: |input| + |Arrived(waits[..k])| >= |Wire(sent[..k])|)
  }

  /**
   In whatever pieces the bytes of some frames, and of the junk between them,
   arrive: if each frame comes in time the reads return exactly those frames,
   in order, and leave whatever came after the last.
   */
  lemma {:induction false} ReadsReturnFrames(sent: seq<Sent>, input: seq<byte>, waits: seq<Wait>, rest: seq<byte>)
    requires |waits| == |sent| && InTime(sent, input, waits)
    requires input + Arrived(waits) == Wire(sent) + rest
    ensures Reads(input, waits) == (seq(|sent|, i requires 0 <= i < |sent| => Some(sent[i].Received())), rest)
  {
    hide Receive;
    hide InTime;
    hide Sent.Wire;
    if sent == [] {
      assert input + Arrived(waits) == input && Wire(sent) + rest == rest;
      assert seq(|sent|, i requires 0 <= i < |sent| => Some(sent[i].Received())) == [];
    } else {
      var n := |sent| - 1;
      var before := input + Arrived(waits[..n]);
      var left := ArrivedBefore(sent, input, waits, rest);
      InTimeBefore(sent, input, waits);
      ReadsReturnFrames(sent[..n], input, waits[..n], left);
      LastInTime(sent, input, waits);
      ReceivesOne(sent[n], rest, waits[n].polls);
      assert seq(|sent|, i requires 0 <= i < |sent| => Some(sent[i].Received()))
          == seq(n, i requires 0 <= i < n => Some(sent[..n][i].Received())) + [Some(sent[n].Received())];
    }
  }

  /** What the reads before the last leave, and the last adds its bytes to. */
  lemma ArrivedBefore(sent: seq<Sent>, input: seq<byte>, waits: seq<Wait>, rest: seq<byte>) returns (left: seq<byte>)
    requires sent != [] && |waits| == |sent| && InTime(sent, input, waits)
    requires input + Arrived(waits) == Wire(sent) + rest
    ensures var n := |sent| - 1;
            && input + Arrived(waits[..n]) == Wire(sent[..n]) + left
            && left + waits[n].arriving == sent[n].Wire() + rest
  {
    hide Wire;
    hide Sent.Wire;
    hide InTime;
    var n := |sent| - 1;
    var before, first := input + Arrived(waits[..n]), Wire(sent[..n]);
    WireGrows(sent);
    EnoughBefore(sent, input, waits);
    assert before + waits[n].arriving == input + Arrived(waits);
    assert Wire(sent) + rest == first + (sent[n].Wire() + rest);
    CutTwice(before, waits[n].arriving, first, sent[n].Wire() + rest, input + Arrived(waits));
    left := before[|first|..];
  }

  lemma EnoughBefore(sent: seq<Sent>, input: seq<byte>, waits: seq<Wait>)
    requires sent != [] && |waits| == |sent| && InTime(sent, input, waits)
    ensures |Wire(sent[..|sent| - 1])| <= |input + Arrived(waits[..|sent| - 1])|
  {
    hide Wire;
    hide Arrived;
  }

  lemma CutTwice(a: seq<byte>, b: seq<byte>, c: seq<byte>, d: seq<byte>, all: seq<byte>)
    requires a + b == all == c + d && |c| <= |a|
    ensures a == c + a[|c|..] && a[|c|..] + b == d
  {
    assert a == all[..|a|] && c == all[..|c|];
    assert a[|c|..] + b == all[|c|..];
  }

  lemma LastInTime(sent: seq<Sent>, input: seq<byte>, waits: seq<Wait>)
    requires sent != [] && |waits| == |sent| && InTime(sent, input, waits)
    ensures sent[|sent| - 1].Valid() && waits[|sent| - 1].polls >= |sent[|sent| - 1].Wire()|
  {
    hide Wire;
    hide Sent.Wire;
  }

  lemma InTimeBefore(sent: seq<Sent>, input: seq<byte>, waits: seq<Wait>)
    requires sent != [] && |waits| == |sent| && InTime(sent, input, waits)
    ensures InTime(sent[..|sent| - 1], input, waits[..|sent| - 1])
  {
    hide Wire;
    hide Sent.Wire;
    hide Arrived;
    var n := |sent| - 1;
    forall k | 0 <= k <= n ensures sent[..n][..k] == sent[..k] && waits[..n][..k] == waits[..k] {
    }
  }

  /** The frames heard, as reads return them. */
  function HeardFrames(log: seq<Heard>): (frames: seq<Option<Frame>>)
    ensures |frames| == |log| && forall k | 0 <= k < |log| :: frames[k] == Some(log[k].frame)
  {
    seq(|log|, k requires 0 <= k < |log| => Some(log[k].frame))
  }

  /** The acknowledgements sent for what was heard: one for each unsolicited frame that could be answered. */
  function Acks(log: seq<Heard>, waits: seq<Wait>): seq<seq<byte>>
    requires |log| <= |waits|
  {
    if log == [] then []
    else
      var k := |log| - 1;
      Acks(log[..k], waits)
      + (if log[k].frame.IsUnsolicited() && waits[k].ackOk then [Encode(OP_ACK, log[k].frame.subcmd, [0])] else [])
  }

  /**
   One command on the wire: when it was sent, the reads made while waiting,
   and the frames they gave (the last read may have given none).
   */
  datatype Exchange = Exchange(sentAt: int, waits: seq<Wait>, log: seq<Heard>)
  {
    ghost predicate Valid() {
      |log| <= |waits| <= |log| + 1 && Chained(log, sentAt) && ReadOnTime(log, sentAt, waits)
    }

    /** Every read began before the deadline. */
    ghost predicate Within(timeout: nat) {
      |waits| <= |log| + 1 && Prompt(log, sentAt, |waits|, timeout)
    }

    /** The last frame heard settles the command, with status 0; none before did. */
    predicate Succeeds(subcmd: byte, earliest: nat) {
      && log != [] && Settles(log[|log| - 1], subcmd, earliest)
      && log[|log| - 1].frame.payload != [] && log[|log| - 1].frame.payload[0] == 0
    }

    /** The reads take their frames from `before` and what arrived, in order, and leave `after`. */
    predicate Took(before: seq<byte>, after: seq<byte>) {
      Reads(before, waits) == (HeardFrames(log) + (if |waits| > |log| then [None] else []), after)
    }

    /** When it is over: when the last frame has been dealt with, or the read after it came back with none. */
    function EndsAt(): int {
      var free := FreeAt(log, sentAt, |log|);
      if |waits| > |log| then Later(free, waits[|log|].at) else free
    }

    /** When anything was last received, a read without a frame included if it took any byte. */
    function RxAfter(rx: Option<int>, before: seq<byte>, after: seq<byte>): Option<int> {
      if |waits| > |log| && |Reads(before, waits[..|log|]).1| + |waits[|log|].arriving| > |after| then Some(EndsAt())
      else if log != [] then Some(log[|log| - 1].at)
      else rx
    }

    /** One more read, which gave `f`. */
    function Next(w: Wait, f: Option<Frame>, h: Heard): Exchange {
      Exchange(sentAt, waits + [w], if f.Some? then log + [h] else log)
    }

    /** Everything sent: the command, then an acknowledgement for each unsolicited frame. */
    function Sent(frame: seq<byte>): seq<seq<byte>>
      requires |log| <= |waits|
    {
      [frame] + Acks(log, waits)
    }
  }

  lemma NextTook(x: Exchange, w: Wait, f: Option<Frame>, h: Heard, before: seq<byte>, mid: seq<byte>, after: seq<byte>)
    requires |x.log| == |x.waits| && x.Took(before, mid)
    requires (f, after) == Receive(mid + w.arriving, w.polls) && (f.Some? ==> h.frame == f.value)
    ensures x.Next(w, f, h).Took(before, after)
    ensures Acks(x.Next(w, f, h).log, x.Next(w, f, h).waits)
            == Acks(x.log, x.waits)
               + (if f.Some? && f.value.IsUnsolicited() && w.ackOk then [Encode(OP_ACK, f.value.subcmd, [0])] else [])
  {
    hide Receive;
    hide Encode;
    var y := x.Next(w, f, h);
    assert y.waits[..|x.waits|] == x.waits;
    assert HeardFrames(x.log) + [] == HeardFrames(x.log);
    AcksOfMore(x.log, x.waits, w);
    if f.Some? {
      assert y.log[..|x.log|] == x.log;
      assert HeardFrames(y.log) + [] == HeardFrames(x.log) + [f];
    }
  }

  /** An exchange succeeds only with a valid acknowledgement frame for the command, of status 0. */
  lemma SuccessIsAnswer(x: Exchange, subcmd: byte, earliest: nat)
    requires x.Succeeds(subcmd, earliest)
    ensures x.log != []
    ensures var f := x.log[|x.log| - 1].frame;
            f.checksumOk && f.opcode == 0xF1 && f.subcmd == subcmd && f.payload != [] && f.payload[0] == 0
  {
  }

  /** An exchange succeeds only by a read that returned no sooner than a real answer to what was sent can come. */
  lemma SuccessIsLateEnough(x: Exchange, subcmd: byte, earliest: nat)
    requires x.Valid() && x.Succeeds(subcmd, earliest)
    ensures var k := |x.log| - 1;
            Later(FreeAt(x.log, x.sentAt, k), x.waits[k].at) >= x.sentAt + earliest
  {
    hide FreeAt;
    SettledIsLateEnough(x.log, x.sentAt, |x.log| - 1, subcmd, earliest);
  }

  /** One more read, timed: `h.at` is when it returned. */
  lemma NextOnTime(x: Exchange, w: Wait, f: Option<Frame>, h: Heard, timeout: nat)
    requires |x.log| == |x.waits| && ReadOnTime(x.log, x.sentAt, x.waits) && x.Within(timeout)
    requires FreeAt(x.log, x.sentAt, |x.log|) < x.sentAt + timeout
    requires h.at == Later(FreeAt(x.log, x.sentAt, |x.log|), w.at)
    ensures var y := x.Next(w, f, h);
            && ReadOnTime(y.log, y.sentAt, y.waits) && y.Within(timeout)
            && y.EndsAt() == if f.Some? && h.frame.IsUnsolicited() then h.at + SETTLE else h.at
  {
    FreeAtGrows(x.log, x.sentAt, h);
    hide FreeAt;
    var y := x.Next(w, f, h);
    forall k | 0 <= k < |y.log| ensures y.log[k].at == Later(FreeAt(y.log, y.sentAt, k), y.waits[k].at) {
      if k < |x.log| {
        assert y.log[k] == x.log[k] && y.waits[k] == x.waits[k];
      }
    }
  }

  /** When a byte was last received, after one more read. */
  lemma NextRx(x: Exchange, w: Wait, f: Option<Frame>, h: Heard, rx: Option<int>, before: seq<byte>, mid: seq<byte>,
               after: seq<byte>)
    requires |x.log| == |x.waits| && x.Took(before, mid)
    ensures var y := x.Next(w, f, h);
            y.RxAfter(rx, before, after)
            == if f.Some? then Some(h.at)
               else if |mid| + |w.arriving| > |after| then Some(y.EndsAt())
               else x.RxAfter(rx, before, mid)
  {
    hide Reads;
    var y := x.Next(w, f, h);
    assert y.waits[..|x.log|] == x.waits;
  }

  lemma NothingYet(sentAt: int, input: seq<byte>)
    ensures Chained([], sentAt) && LastSendBefore([], sentAt, 0) == sentAt
    ensures FreeAt([], sentAt, 0) == sentAt && ReadOnTime([], sentAt, [])
    ensures forall t: nat :: Exchange(sentAt, [], []).Within(t)
    ensures forall rx, before, after :: Exchange(sentAt, [], []).RxAfter(rx, before, after) == rx
    ensures Exchange(sentAt, [], []).Took(input, input)
    ensures Acks([], []) == [] && Unsolicited([]) == []
  {
    assert HeardFrames([]) + [] == [];
  }

  lemma {:induction false} AcksOfMore(log: seq<Heard>, waits: seq<Wait>, w: Wait)
    requires |log| <= |waits|
    ensures Acks(log, waits + [w]) == Acks(log, waits)
  {
    hide Encode;
    if log != [] {
      AcksOfMore(log[..|log| - 1], waits, w);
    }
  }

  function Earliest(payload: nat): nat {
    WireTime(payload + 4) + WireTime(5)
  }

  /** A key is pressed 10 ms after a command for a line of text was sent; the answer to it comes 20.5 ms later. */
  const KEY_PRESS := Sent([], OP_COMMAND, 0x80, [1])
  const TEXT_ANSWER := Sent([], OP_ACK, SUB_SET_TEXT, [0])

  const KEY_THEN_ANSWER := Exchange(
    0,
    [Wait(KEY_PRESS.Wire(), FRAME_MAX, 10_000, true), Wait(TEXT_ANSWER.Wire(), FRAME_MAX, 30_500, true)],
    [Heard(KEY_PRESS.Received(), 10_000, 0), Heard(TEXT_ANSWER.Received(), 30_500, 30_000)])

  /**
   That does happen: the panel acknowledges the command, with status 0 and no
   sooner than it can, and the exchange still does not succeed.
   */
  lemma GenuineAnswerIsIgnored()
    ensures var x, answer := KEY_THEN_ANSWER, KEY_THEN_ANSWER.log[1];
            && x.Valid() && x.Within(ACK_TIMEOUT) && x.Took([], [])
            && AnswersTo(answer.frame, SUB_SET_TEXT) && answer.frame.payload == [0]
            && answer.at - x.sentAt >= Earliest(2 + LINE_WIDTH)
            && !Settles(answer, SUB_SET_TEXT, Earliest(2 + LINE_WIDTH)) && !Confirmed(x)
  {
    var x, sent := KEY_THEN_ANSWER, [KEY_PRESS, TEXT_ANSWER];
    assert Earliest(2 + LINE_WIDTH) == 2343;
    TwoFrames(KEY_PRESS, TEXT_ANSWER, x.waits);
    assert HeardFrames(x.log) + [] == [Some(KEY_PRESS.Received()), Some(TEXT_ANSWER.Received())];
  }

  lemma ReadsOneMore(input: seq<byte>, waits: seq<Wait>, w: Wait)
    ensures var (frames, left) := Reads(input, waits);
            var (f, rest) := Receive(left + w.arriving, w.polls);
            Reads(input, waits + [w]) == (frames + [f], rest)
  {
    assert (waits + [w])[..|waits|] == waits;
  }

  /** Two frames, each arriving while one read waits. */
  lemma {:induction false} TwoFrames(a: Sent, b: Sent, waits: seq<Wait>)
    requires a.Valid() && b.Valid() && |waits| == 2 && waits[0].arriving == a.Wire() && waits[1].arriving == b.Wire()
    requires waits[0].polls >= |a.Wire()| && waits[1].polls >= |b.Wire()|
    ensures Reads([], waits) == ([Some(a.Received()), Some(b.Received())], [])
  {
    hide Receive;
    hide Sent.Wire;
    ReceivesOne(a, [], waits[0].polls);
    ReceivesOne(b, [], waits[1].polls);
    assert a.Wire() + [] == a.Wire() && b.Wire() + [] == b.Wire();
    assert [] + waits[0].arriving == a.Wire() && [] + waits[1].arriving == b.Wire();
    var f, g := Some(a.Received()), Some(b.Received());
    assert [] + [f] == [f] && [f] + [g] == [f, g];
    ReadsOneMore([], [], waits[0]);
    ReadsOneMore([], [waits[0]], waits[1]);
    assert [] + [waits[0]] == [waits[0]] && waits == [waits[0]] + [waits[1]];
  }

  /** Several exchanges in turn, each reading on from what the last one left. */
  function LeftBy(before: seq<byte>, xs: seq<Exchange>): seq<byte> {
    if xs == [] then before
    else Reads(LeftBy(before, xs[..|xs| - 1]), xs[|xs| - 1].waits).1
  }

  ghost predicate InTurn(before: seq<byte>, xs: seq<Exchange>) {
    (forall k | 0 <= k < |xs| :: xs[k].Valid()) && ReadOn(before, xs)
  }

  predicate ReadOn(before: seq<byte>, xs: seq<Exchange>) {
    xs == []
    || (var init, x := xs[..|xs| - 1], xs[|xs| - 1];
        ReadOn(before, init) && x.Took(LeftBy(before, init), LeftBy(before, xs)))
  }

  function AllHeard(xs: seq<Exchange>): seq<Heard> {
    if xs == [] then [] else AllHeard(xs[..|xs| - 1]) + xs[|xs| - 1].log
  }

  ghost function AllSent(frame: seq<byte>, xs: seq<Exchange>): seq<seq<byte>>
    requires forall k | 0 <= k < |xs| :: xs[k].Valid()
  {
    if xs == [] then []
    else
      var x := xs[|xs| - 1];
      assert x.Valid();
      AllSent(frame, xs[..|xs| - 1]) + x.Sent(frame)
  }

  lemma OneMoreExchange(before: seq<byte>, frame: seq<byte>, xs: seq<Exchange>, x: Exchange, after: seq<byte>)
    requires InTurn(before, xs) && x.Valid() && x.Took(LeftBy(before, xs), after)
    ensures InTurn(before, xs + [x]) && LeftBy(before, xs + [x]) == after
    ensures AllHeard(xs + [x]) == AllHeard(xs) + x.log
    ensures AllSent(frame, xs + [x]) == AllSent(frame, xs) + x.Sent(frame)
  {
    hide Reads;
    hide Chained;
    assert (xs + [x])[..|xs|] == xs;
  }

  /** What has gone over the wire: bytes not yet read, frames sent, frames heard, and those still queued. */
  datatype Traffic = Traffic(input: seq<byte>, sent: seq<seq<byte>>, heard: seq<Heard>, pending: seq<Frame>)

  /**
   `b` is `a` and these exchanges of one command: each read on from the last,
   and all they sent and heard was added.
   */
  ghost predicate Exchanged(a: Traffic, frame: seq<byte>, xs: seq<Exchange>, b: Traffic) {
    && InTurn(a.input, xs) && b.input == LeftBy(a.input, xs)
    && b.sent == a.sent + AllSent(frame, xs)
    && b.heard == a.heard + AllHeard(xs) && b.pending == a.pending + Unsolicited(AllHeard(xs))
  }

  lemma NothingExchanged(a: Traffic, frame: seq<byte>)
    ensures Exchanged(a, frame, [], a)
  {
    assert a.sent + [] == a.sent && a.heard + [] == a.heard && a.pending + [] == a.pending;
  }

  lemma ExchangedLeaves(a: Traffic, frame: seq<byte>, xs: seq<Exchange>, b: Traffic)
    requires Exchanged(a, frame, xs, b)
    ensures b.input == LeftBy(a.input, xs)
  {
  }

  lemma ExchangedOneMore(a: Traffic, frame: seq<byte>, xs: seq<Exchange>, b: Traffic, x: Exchange, c: Traffic)
    requires Exchanged(a, frame, xs, b) && x.Valid() && x.Took(b.input, c.input)
    requires c.sent == b.sent + x.Sent(frame)
    requires c.heard == b.heard + x.log && c.pending == b.pending + Unsolicited(x.log)
    ensures Exchanged(a, frame, xs + [x], c)
  {
    hide InTurn;
    hide LeftBy;
    hide AllHeard;
    hide AllSent;
    hide Unsolicited;
    hide Exchange.Took;
    hide Exchange.Sent;
    OneMoreExchange(a.input, frame, xs, x, c.input);
    UnsolicitedInTurn(AllHeard(xs), x.log);
  }

  lemma {:induction false} UnsolicitedInTurn(a: seq<Heard>, b: seq<Heard>)
    ensures Unsolicited(a + b) == Unsolicited(a) + Unsolicited(b)
  {
    if b == [] {
      assert a + b == a;
    } else {
      var n := |b| - 1;
      assert a + b == (a + b[..n]) + [b[n]];
      HeardGrows(a + b[..n], b[n]);
      UnsolicitedInTurn(a, b[..n]);
    }
  }

  // ---------- what each line is confirmed to show ----------

  /** An acknowledged write carries the exchange that acknowledged it. */
  datatype TextEvent = Acked(line: int, text: string, via: Exchange) | Retried(line: int) | Forgotten

  /** The text confirmed on line `i` after these events. */
  function Remembered(events: seq<TextEvent>, i: int): Option<string> {
    if events == [] then None
    else match events[|events| - 1]
      case Acked(line, text, _) => if line == i then Some(text) else Remembered(events[..|events| - 1], i)
      case Retried(line) => if line == 1 - i then None else Remembered(events[..|events| - 1], i)
      case Forgotten => None
  }

  /** Writing line `i`, retrying on the other line, or forgetting, decides what is known of line `i`. */
  predicate Concerns(e: TextEvent, i: int) {
    match e
    case Acked(line, _, _) => line == i
    case Retried(line) => line == 1 - i
    case Forgotten => true
  }

  /** An acknowledged write of `text` to line `i`. */
  predicate Confirms(e: TextEvent, i: int, text: string) {
    e.Acked? && e.line == i && e.text == text
  }

  /** A text is remembered exactly if its acknowledged write is the latest event that concerns its line. */
  lemma {:induction false} RememberedIffLatest(events: seq<TextEvent>, i: int, text: string)
    ensures Remembered(events, i) == Some(text) <==>
            exists k | 0 <= k < |events| ::
              Confirms(events[k], i, text) && forall j | k < j < |events| :: !Concerns(events[j], i)
  {
    if events != [] {
      var n := |events| - 1;
      var init := events[..n];
      assert forall k | 0 <= k < n :: init[k] == events[k];
      RememberedIffLatest(init, i, text);
      if Remembered(events, i) == Some(text) && !Concerns(events[n], i) {
        var k :| 0 <= k < n && Confirms(init[k], i, text) && forall j | k < j < n :: !Concerns(init[j], i);
        assert Confirms(events[k], i, text) && forall j | k < j < |events| :: !Concerns(events[j], i);
      }
      if Concerns(events[n], i) && Remembered(events, i) == Some(text) {
        assert Confirms(events[n], i, text);
      }
    }
  }

  lemma RememberedGrows(events: seq<TextEvent>, e: TextEvent)
    ensures forall i {:trigger Remembered(events + [e], i)} ::
              Remembered(events + [e], i)
              == if !Concerns(e, i) then Remembered(events, i) else if e.Acked? then Some(e.text) else None
  {
    assert (events + [e])[..|events|] == events;
  }

  type TwoLines = lines: seq<Option<string>> | |lines| == 2 witness [None, None]

  /** What is remembered of both lines, and the events it comes from. */
  datatype Memory = Memory(lines: TwoLines, events: seq<TextEvent>)
  {
    ghost predicate Valid() {
      && lines[0] == Remembered(events, 0) && lines[1] == Remembered(events, 1)
      && forall e | e in events && e.Acked? :: e.via.Valid() && e.via.Within(ACK_TIMEOUT) && Confirmed(e.via)
    }

    /** The text goes out to `line` again: the other line may now show it. */
    function Repeat(line: nat): Memory
      requires line < 2
    {
      Memory(lines[1 - line := None], events + [Retried(line)])
    }

    function Repeated(line: nat, k: nat): Memory
      requires line < 2
      decreases k
    {
      if k == 0 then this else Repeated(line, k - 1).Repeat(line)
    }

    function Confirm(line: nat, text: string, x: Exchange): Memory
      requires line < 2
    {
      Memory(lines[line := Some(text)], events + [Acked(line, text, x)])
    }

    function Forget(): Memory {
      Memory([None, None], events + [Forgotten])
    }
  }

  lemma RepeatKeepsValid(m: Memory, line: nat)
    requires m.Valid() && line < 2
    ensures m.Repeat(line).Valid()
  {
    hide Remembered;
    RememberedGrows(m.events, Retried(line));
  }

  lemma ConfirmKeepsValid(m: Memory, line: nat, text: string, x: Exchange)
    requires m.Valid() && line < 2 && x.Valid() && x.Within(ACK_TIMEOUT) && Confirmed(x)
    ensures m.Confirm(line, text, x).Valid()
  {
    hide Remembered;
    RememberedGrows(m.events, Acked(line, text, x));
  }

  /** Repeats are noted one by one; the line's own text stays, the other's is gone from the first on. */
  lemma {:induction false} RepeatedMeans(m: Memory, line: nat, k: nat)
    requires line < 2
    ensures var n := m.Repeated(line, k);
            && n.events == m.events + seq(k, i => Retried(line))
            && n.lines[line] == m.lines[line]
            && n.lines[1 - line] == if k == 0 then m.lines[1 - line] else None
  {
    if k > 0 {
      RepeatedMeans(m, line, k - 1);
      assert seq(k, i => Retried(line)) == seq(k - 1, i => Retried(line)) + [Retried(line)];
    }
  }

  /** What is remembered is what the panel acknowledged in time, and nothing concerning the line has happened since. */
  lemma RememberedIffConfirmed(m: Memory, i: nat, text: string)
    requires m.Valid() && i < 2
    ensures m.lines[i] == Some(text) <==>
            exists k | 0 <= k < |m.events| ::
              && Confirms(m.events[k], i, text)
              && m.events[k].via.Valid() && m.events[k].via.Within(ACK_TIMEOUT) && Confirmed(m.events[k].via)
              && forall j | k < j < |m.events| :: !Concerns(m.events[j], i)
  {
    hide Remembered;
    hide Confirmed;
    RememberedIffLatest(m.events, i, text);
  }

  function PrintableByte(c: char): byte {
    if ' ' <= c <= '~' then c as int else '?' as int
  }

  /** Exactly one display line: cut or padded with blanks, anything but printable ASCII as `?`. */
  function LineBytes(text: string): (line: seq<byte>)
    ensures |line| == 16
    ensures forall i | 0 <= i < LINE_WIDTH :: 0x20 <= line[i] <= 0x7E
    ensures forall i | 0 <= i < LINE_WIDTH && i < |text| ::
              line[i] == if ' ' <= text[i] <= '~' then text[i] as int else '?' as int
    ensures forall i | |text| <= i < LINE_WIDTH :: line[i] == ' ' as int
  {
    seq(LINE_WIDTH, i requires 0 <= i < LINE_WIDTH => if i < |text| then PrintableByte(text[i]) else 0x20)
  }

  /** Which of the two lines a line code addresses. */
  function Index(line: byte): (i: nat)
    ensures i == 0 || i == 1
    ensures 2 * (line / 2) + i == line
  {
    line % 2
  }

  function TextFrame(line: byte, flag: byte, text: string): seq<byte> {
    Encode(0xF0, 0x27, [line, flag] + LineBytes(text))
  }

  /** The panel acknowledged the line it was sent, in time. */
  predicate Confirmed(x: Exchange) {
    x.Succeeds(SUB_SET_TEXT, Earliest(2 + LINE_WIDTH))
  }

  /** How many repeats there were; one that could not be sent counts too. */
  function Repeats(r: Result<bool, IoError>, xs: seq<Exchange>): nat {
    if r.Err? || xs == [] then |xs| else |xs| - 1
  }

  datatype Clock = Clock(now: int, lastRx: Option<int>)

  /** The clock after some exchanges, and when anything was last received. */
  function ClockAfter(c: Clock, before: seq<byte>, xs: seq<Exchange>): Clock {
    if xs == [] then c
    else
      var init, x := xs[..|xs| - 1], xs[|xs| - 1];
      Clock(x.EndsAt(), x.RxAfter(ClockAfter(c, before, init).lastRx, LeftBy(before, init), LeftBy(before, xs)))
  }

  /**
   Each exchange begins a settle time after anything was received, a repeat
   after a pause too, and keeps its deadline.
   */
  ghost predicate OnTime(c: Clock, before: seq<byte>, xs: seq<Exchange>) {
    xs == []
    || (var k := |xs| - 1;
        var last := ClockAfter(c, before, xs[..k]);
        && OnTime(c, before, xs[..k]) && xs[k].Within(ACK_TIMEOUT)
        && xs[k].sentAt == SettledAt(last.lastRx, last.now + (if k > 0 then 100_000 else 0)))
  }

  lemma NoTimeYet(c: Clock, before: seq<byte>)
    ensures OnTime(c, before, []) && ClockAfter(c, before, []) == c
  {
  }

  lemma OnTimeOneMore(c: Clock, before: seq<byte>, xs: seq<Exchange>, x: Exchange)
    requires OnTime(c, before, xs) && x.Within(ACK_TIMEOUT)
    requires var last := ClockAfter(c, before, xs);
             x.sentAt == SettledAt(last.lastRx, last.now + (if xs != [] then RETRY_BACKOFF else 0))
    ensures OnTime(c, before, xs + [x])
    ensures ClockAfter(c, before, xs + [x])
            == var rx := ClockAfter(c, before, xs).lastRx;
               Clock(x.EndsAt(), x.RxAfter(rx, LeftBy(before, xs), LeftBy(before, xs + [x])))
  {
    hide LeftBy;
    assert (xs + [x])[..|xs|] == xs;
  }

  /** Success is the last exchange's, and the first; giving up takes three, or one that cannot be sent. */
  predicate Outcome(r: Result<bool, IoError>, xs: seq<Exchange>, attempts: seq<Attempt>) {
    && |xs| <= |attempts|
    && (forall k | 0 <= k < |xs| - 1 :: !Confirmed(xs[k]))
    && (r == Ok(true) <==> xs != [] && Confirmed(xs[|xs| - 1]))
    && (r == Ok(false) ==> |xs| == |attempts|)
    && (r.Err? ==> |xs| < |attempts| && !attempts[|xs|].sendOk)
  }

  /** What is remembered after an attempt to write a line: the repeats, and if it was confirmed the text. */
  function Wrote(m: Memory, line: nat, text: string, r: Result<bool, IoError>, xs: seq<Exchange>): Memory
    requires line < 2 && (r == Ok(true) ==> xs != [])
  {
    var n := m.Repeated(line, Repeats(r, xs));
    if r == Ok(true) then n.Confirm(line, text, xs[|xs| - 1]) else n
  }

  // ---------- the code ----------

  class Port {
    var input: seq<byte>
    var sent: seq<seq<byte>>
  }

  class Lcm {
    const port: Port
    var pending: seq<Frame>
    var lastSent: TwoLines
    var lastRx: Option<int>
    var txStarted: int
    var now: int
    /** Everything `take_pending` has returned, every frame read while waiting, every event about the text. */
    ghost var taken: seq<Frame>
    ghost var heard: seq<Heard>
    ghost var events: seq<TextEvent>

    ghost predicate Valid()
      reads this
    {
      && Known().Valid()
      && taken + pending == Unsolicited(heard)
      && txStarted <= now && (lastRx.Some? ==> lastRx.value <= now)
    }

    ghost function Known(): Memory
      reads this
    {
      Memory(lastSent, events)
    }

    ghost function Time(): Clock
      reads this`now, this`lastRx
    {
      Clock(now, lastRx)
    }

    ghost function OnWire(): Traffic
      reads this, port
    {
      Traffic(port.input, port.sent, heard, pending)
    }

    constructor (port: Port, now: int)
      ensures Valid() && this.port == port && heard == [] && events == [] && taken == []
    {
      this.port, this.now, txStarted, lastRx := port, now, now, None;
      pending, lastSent := [], [None, None];
      taken, heard, events := [], [], [];
    }

    method TakePending() returns (frames: seq<Frame>)
      requires Valid()
      modifies this`pending, this`taken
      ensures Valid() && frames == old(pending) && pending == [] && taken == old(taken) + frames
    {
      frames := pending;
      taken := taken + pending;
      pending := [];
    }

    method ForgetText()
      requires Valid()
      modifies this`lastSent, this`events
      ensures Valid() && Known() == old(Known()).Forget()
    {
      lastSent := [None, None];
      events := events + [Forgotten];
    }

    /** One frame, byte at a time, into a buffer of the longest frame. */
    method ReadFrame(polls: nat) returns (f: Option<Frame>)
      modifies this`lastRx, port`input
      ensures (f, port.input) == Receive(old(port.input), polls)
      ensures lastRx == if |port.input| < |old(port.input)| then Some(now) else old(lastRx)
      ensures f.Some? ==> lastRx == Some(now)
    {
      var buf := new byte[FRAME_MAX](_ => 0);
      var got, left, done := 0, polls, false;
      while !done && got < FRAME_MAX && left > 0 && port.input != []
        invariant got <= FRAME_MAX
        invariant if done then Collect([], old(port.input), polls) == (buf[..got], port.input)
                  else Collect([], old(port.input), polls) == Collect(buf[..got], port.input, left)
        invariant |port.input| <= |old(port.input)|
        invariant lastRx == if |port.input| < |old(port.input)| then Some(now) else old(lastRx)
        invariant got > 0 ==> lastRx == Some(now)
        decreases |port.input|
      {
        var b := port.input[0];
        ghost var before, input := buf[..got], port.input;
        port.input := port.input[1..];
        left := left - 1;
        lastRx := Some(now);
        if got != 0 || IsOpcode(b) {
          buf[got] := b;
          got := got + 1;
          assert buf[..got] == before + [b];
          if got >= 2 {
            var expected: int := buf[1] as int + 4;
            done := expected <= FRAME_MAX && got >= expected;
          }
        }
      }
      f := if got == 0 then None else Decode(buf[..got]);
    }

    /** Waits out the settle time since the panel last sent anything, then sends. */
    method Send(opcode: byte, subcmd: byte, payload: seq<byte>, ok: bool)
      requires Valid()
      modifies this`now, this`txStarted, port`sent
      ensures Valid()
      ensures txStarted == now == SettledAt(lastRx, old(now))
      ensures port.sent == if ok then old(port.sent) + [Encode(opcode, subcmd, payload)] else old(port.sent)
    {
      if lastRx.Some? && now < lastRx.value + SETTLE {
        now := lastRx.value + SETTLE;
      }
      txStarted := now;
      if ok {
        port.sent := port.sent + [Encode(opcode, subcmd, payload)];
      }
    }

    /** One read while waiting; an unsolicited frame is queued and acknowledged at once. */
    method Hear(w: Wait) returns (f: Option<Frame>, ghost h: Heard)
      requires Valid()
      modifies this`now, this`txStarted, this`lastRx, this`pending, this`heard, port
      ensures Valid() && old(now) <= now && txStarted <= now
      ensures (f, port.input) == Receive(old(port.input) + w.arriving, w.polls)
      ensures h.at == Later(old(now), w.at)
      ensures now == if f.Some? && f.value.IsUnsolicited() then h.at + SETTLE else h.at
      ensures lastRx == if f.Some? || |port.input| < |old(port.input)| + |w.arriving| then Some(h.at) else old(lastRx)
      ensures f.None? ==> heard == old(heard) && pending == old(pending) && port.sent == old(port.sent)
      ensures f.Some? ==>
                && h == Heard(f.value, h.at, old(txStarted))
                && heard == old(heard) + [h]
                && pending == old(pending) + (if f.value.IsUnsolicited() then [f.value] else [])
                && txStarted == (if f.value.IsUnsolicited() then h.at + SETTLE else h.lastSend)
                && port.sent == old(port.sent) + (if f.value.IsUnsolicited() && w.ackOk
                                                  then [Encode(OP_ACK, f.value.subcmd, [0])] else [])
    {
      hide Receive;
      hide Encode;
      hide Remembered;
      hide Unsolicited;
      port.input := port.input + w.arriving;
      now := if now < w.at then w.at else now;
      f := ReadFrame(w.polls);
      h := Heard(if f.Some? then f.value else Frame(0, 0, [], false), now, txStarted);
      if f.Some? {
        HeardGrows(heard, h);
        heard := heard + [h];
        if f.value.IsUnsolicited() {
          assert taken + (pending + [f.value]) == taken + pending + [f.value];
          pending := pending + [f.value];
          Send(OP_ACK, f.value.subcmd, [0], w.ackOk);
        }
      }
    }

    /** `x` is what went over the wire; nothing did if the command could not be sent. */
    method SendAndAck(opcode: byte, subcmd: byte, payload: seq<byte>, timeout: nat, attempt: Attempt)
      returns (r: Result<bool, IoError>, ghost x: Exchange)
      requires Valid()
      modifies this`now, this`txStarted, this`lastRx, this`pending, this`heard, port
      ensures Valid() && heard == old(heard) + x.log && pending == old(pending) + Unsolicited(x.log)
      ensures x.Valid() && x.waits <= attempt.waits
      // It begins a settle time after anything was received, reads in time, and takes exactly as long as its reads.
      ensures x.sentAt == SettledAt(old(lastRx), old(now)) && x.Within(timeout)
      ensures Time() == Clock(x.EndsAt(), x.RxAfter(old(lastRx), old(port.input), port.input))
      ensures x.Took(old(port.input), port.input)
      ensures r.Err? <==> !attempt.sendOk
      ensures r.Err? ==> OnWire() == old(OnWire()) && x.log == [] && x.waits == []
      ensures r.Ok? ==> port.sent == old(port.sent) + x.Sent(Encode(opcode, subcmd, payload))
      ensures forall k | 0 <= k < |x.log| - 1 :: !Settles(x.log[k], subcmd, Earliest(|payload|))
      ensures r == Ok(true) <==> x.Succeeds(subcmd, Earliest(|payload|))
      // It gives up only on a refusal, a read without a frame, at the deadline, or when there are no more reads.
      ensures r == Ok(false) ==>
                || (x.log != [] && Settles(x.log[|x.log| - 1], subcmd, Earliest(|payload|)))
                || |x.log| < |x.waits| || now >= x.sentAt + timeout || x.waits == attempt.waits
    {
      hide Encode;
      hide Valid;
      hide Receive;
      hide Acks;
      hide Chained;
      hide LastSendBefore;
      hide Unsolicited;
      hide Exchange.Took;
      hide Settles;
      hide Earliest;
      hide ReadOnTime;
      hide FreeAt;
      hide Exchange.RxAfter;
      hide SettledAt;
      Send(opcode, subcmd, payload, attempt.sendOk);
      x := Exchange(now, [], []);
      NothingYet(now, port.input);
      if !attempt.sendOk {
        return Err(SendFailed), x;
      }
      var ok;
      ok, x := AwaitAck(subcmd, Earliest(|payload|), timeout, attempt.waits);
      r := Ok(ok);
    }

    /** Reads until the acknowledgement of what was just sent, or the deadline. */
    method AwaitAck(subcmd: byte, earliest: nat, timeout: nat, waits: seq<Wait>) returns (ok: bool, ghost x: Exchange)
      requires Valid() && txStarted == now
      modifies this`now, this`txStarted, this`lastRx, this`pending, this`heard, port
      ensures Valid() && heard == old(heard) + x.log && pending == old(pending) + Unsolicited(x.log)
      ensures x.Valid() && x.sentAt == old(now) && x.waits <= waits && x.Took(old(port.input), port.input)
      ensures port.sent == old(port.sent) + Acks(x.log, x.waits)
      ensures forall k | 0 <= k < |x.log| - 1 :: !Settles(x.log[k], subcmd, earliest)
      ensures x.Within(timeout) && Time() == Clock(x.EndsAt(), x.RxAfter(old(lastRx), old(port.input), port.input))
      ensures ok <==> x.Succeeds(subcmd, earliest)
      ensures !ok ==>
                || (x.log != [] && Settles(x.log[|x.log| - 1], subcmd, earliest))
                || |x.log| < |x.waits| || now >= x.sentAt + timeout || x.waits == waits
    {
      hide Encode;
      hide Valid;
      hide Receive;
      hide Acks;
      hide Chained;
      hide LastSendBefore;
      hide Unsolicited;
      hide Exchange.Took;
      hide ReadOnTime;
      hide Prompt;
      hide FreeAt;
      hide Exchange.RxAfter;
      var deadline := now + timeout;
      x := Exchange(now, [], []);
      NothingYet(now, port.input);
      for i := 0 to |waits|
        invariant Valid() && heard == old(heard) + x.log && pending == old(pending) + Unsolicited(x.log)
        invariant Chained(x.log, x.sentAt) && txStarted <= now && x.sentAt == old(now)
        invariant txStarted == LastSendBefore(x.log, x.sentAt, |x.log|)
        invariant x.waits == waits[..i] && |x.log| == i && x.Took(old(port.input), port.input)
        invariant ReadOnTime(x.log, x.sentAt, x.waits) && x.Within(timeout)
        invariant now == FreeAt(x.log, x.sentAt, |x.log|)
        invariant lastRx == x.RxAfter(old(lastRx), old(port.input), port.input)
        invariant port.sent == old(port.sent) + Acks(x.log, x.waits)
        invariant forall k | 0 <= k < |x.log| :: !Settles(x.log[k], subcmd, earliest)
      {
        if now >= deadline {
          return false, x;
        }
        ghost var before, mid := x, port.input;
        var f, h := Hear(waits[i]);
        x := x.Next(waits[i], f, h);
        NextTook(before, waits[i], f, h, old(port.input), mid, port.input);
        NextOnTime(before, waits[i], f, h, timeout);
        NextRx(before, waits[i], f, h, old(lastRx), old(port.input), mid, port.input);
        assert waits[..i + 1] == waits[..i] + [waits[i]];
        if f.None? {
          return false, x;
        }
        ChainGrows(before.log, x.sentAt, h);
        assert old(heard) + (before.log + [h]) == old(heard) + before.log + [h];
        if AnswersTo(f.value, subcmd) {
          if now - txStarted >= earliest {
            return f.value.payload != [] && f.value.payload[0] == 0, x;
          }
        }
      }
      ok := false;
    }

    /**
     Writes one line unless it is known to show the text; `xs` are the exchanges,
     each a command sent and waited for.
     */
    method SetText(line: byte, text: string, flag: byte, attempts: seq<Attempt>)
      returns (r: Result<bool, IoError>, ghost xs: seq<Exchange>)
      requires Valid() && |attempts| == 3
      modifies this`now, this`txStarted, this`lastRx, this`pending, this`heard, this`lastSent, this`events, port
      ensures Valid() && Exchanged(old(OnWire()), TextFrame(line, flag, text), xs, OnWire())
      ensures OnTime(old(Time()), old(port.input), xs)
      ensures if old(lastSent)[Index(line)] == Some(text)
              then r == Ok(true) && xs == [] && Known() == old(Known())
              else Outcome(r, xs, attempts) && Known() == Wrote(old(Known()), Index(line), text, r, xs)
    {
      hide Index;
      hide Outcome;
      hide Wrote;
      hide Exchanged;
      hide TextFrame;
      if lastSent[Index(line)] == Some(text) {
        NothingExchanged(OnWire(), TextFrame(line, flag, text));
        return Ok(true), [];
      }
      r, xs := WriteText(line, text, flag, attempts);
    }

    /** Up to three times; each repeat makes what the other line shows uncertain. */
    method WriteText(line: byte, text: string, flag: byte, attempts: seq<Attempt>)
      returns (r: Result<bool, IoError>, ghost xs: seq<Exchange>)
      requires Valid() && |attempts| == 3
      modifies this`now, this`txStarted, this`lastRx, this`pending, this`heard, this`lastSent, this`events, port
      ensures Valid() && Exchanged(old(OnWire()), TextFrame(line, flag, text), xs, OnWire())
      ensures OnTime(old(Time()), old(port.input), xs)
      ensures Outcome(r, xs, attempts) && Known() == Wrote(old(Known()), Index(line), text, r, xs)
    {
      hide Index;
      hide Exchanged;
      hide Unsolicited;
      hide Exchange.Valid;
      hide Exchange.Within;
      hide Exchange.EndsAt;
      hide Exchange.RxAfter;
      hide SettledAt;
      hide OnTime;
      hide ClockAfter;
      hide LeftBy;
      hide Exchange.Took;
      hide Exchange.Sent;
      hide Confirmed;
      hide TextFrame;
      hide Memory.Repeat;
      hide Memory.Confirm;
      hide Valid;
      xs := [];
      ghost var frame, start := TextFrame(line, flag, text), OnWire();
      NothingExchanged(start, frame);
      ghost var clock := Time();
      NoTimeYet(clock, start.input);
      for attempt := 0 to 3
        invariant Valid() && |xs| == attempt && Exchanged(start, frame, xs, OnWire())
        invariant OnTime(clock, start.input, xs) && Time() == ClockAfter(clock, start.input, xs)
        invariant forall k | 0 <= k < |xs| :: !Confirmed(xs[k])
        invariant Known() == old(Known()).Repeated(Index(line), if attempt == 0 then 0 else attempt - 1)
      {
        ghost var before := OnWire();
        ExchangedLeaves(start, frame, xs, before);
        var acked, x := TryText(line, flag, text, attempt > 0, attempts[attempt]);
        if acked.Err? {
          return acked, xs;
        }
        ExchangedOneMore(start, frame, xs, before, x, OnWire());
        ExchangedLeaves(start, frame, xs + [x], OnWire());
        OnTimeOneMore(clock, start.input, xs, x);
        xs := xs + [x];
        if acked.value {
          return Ok(true), xs;
        }
      }
      r := Ok(false);
    }

    /** One attempt at a line, after a pause if it is a repeat. */
    method TryText(line: byte, flag: byte, text: string, repeat: bool, attempt: Attempt)
      returns (r: Result<bool, IoError>, ghost x: Exchange)
      requires Valid()
      modifies this`now, this`txStarted, this`lastRx, this`pending, this`heard, this`lastSent, this`events, port
      ensures Valid() && x.Valid() && x.Took(old(port.input), port.input)
      ensures heard == old(heard) + x.log && pending == old(pending) + Unsolicited(x.log)
      ensures x.sentAt == SettledAt(old(lastRx), old(now) + (if repeat then RETRY_BACKOFF else 0))
      ensures x.Within(ACK_TIMEOUT)
      ensures Time() == Clock(x.EndsAt(), x.RxAfter(old(lastRx), old(port.input), port.input))
      ensures r.Err? <==> !attempt.sendOk
      ensures r.Err? ==> OnWire() == old(OnWire()) && x.log == []
      ensures r.Ok? ==> port.sent == old(port.sent) + x.Sent(TextFrame(line, flag, text))
      ensures r == Ok(true) <==> Confirmed(x)
      ensures var m := if repeat then old(Known()).Repeat(Index(line)) else old(Known());
              Known() == if r == Ok(true) then m.Confirm(Index(line), text, x) else m
    {
      hide Index;
      hide Encode;
      hide LineBytes;
      hide Earliest;
      hide Unsolicited;
      hide Exchange.Valid;
      hide Exchange.Within;
      hide Exchange.EndsAt;
      hide Exchange.RxAfter;
      hide SettledAt;
      hide Exchange.Took;
      hide Exchange.Sent;
      hide Exchange.Succeeds;
      hide Memory.Valid;
      if repeat {
        RepeatKeepsValid(Known(), Index(line));
        lastSent := lastSent[1 - Index(line) := None];
        events := events + [Retried(Index(line))];
        now := now + RETRY_BACKOFF;
      }
      r, x := SendAndAck(OP_COMMAND, SUB_SET_TEXT, [line, flag] + LineBytes(text), ACK_TIMEOUT, attempt);
      if r == Ok(true) {
        ConfirmKeepsValid(Known(), Index(line), text, x);
        lastSent := lastSent[Index(line) := Some(text)];
        events := events + [Acked(Index(line), text, x)];
      }
    }
  }
}
