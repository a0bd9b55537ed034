/** The encrypted channel: length-prefixed frames and one nonce counter per direction. */
module Channel {
  import opened Prelude

  type Bytes = seq<byte>

  const FRAME_OVERHEAD := 16
  const MAX_FRAME_PAYLOAD := 65535 - FRAME_OVERHEAD
  const READ_BUFFER := MAX_FRAME_PAYLOAD + 16 + 4

  /** The transport cipher of one direction, by nonce. */
  datatype Aead = Aead(seal: (nat, Bytes) -> Bytes, unseal: (nat, Bytes) -> Option<Bytes>) {
    ghost predicate Lawful() {
      forall n: nat, p :: unseal(n, seal(n, p)) == Some(p) && |seal(n, p)| == |p| + FRAME_OVERHEAD
    }
  }

  const NoSecrecy := Aead(
    (n: nat, p: Bytes) => p + seq(FRAME_OVERHEAD, _ => 0),
    (n: nat, c: Bytes) => if |c| < FRAME_OVERHEAD then None else Some(c[..|c| - FRAME_OVERHEAD]))

  /** Unsealing undoes sealing and sealing adds the tag; of other ciphertexts nothing is known. */
  type Cipher = a: Aead | a.Lawful() ghost witness NoSecrecy

  datatype Failure = FrameTooLarge | FrameInjection | Disconnected | Tampered

  // ---- Wire format ---------------------------------------------------------------------------

  function ToBigEndian(n: nat): (b: Bytes)
    requires n < 0x1_0000_0000
    ensures |b| == 4
  {
    [n / 0x100_0000, n / 0x1_0000 % 256, n / 256 % 256, n % 256]
  }

  function FromBigEndian(b: Bytes): (n: nat)
    requires |b| == 4
    ensures n < 0x1_0000_0000
  {
    var n: int := b[0];
    ((n * 256 + b[1]) * 256 + b[2]) * 256 + b[3]
  }

  lemma BigEndianRoundTrip(n: nat)
    requires n < 0x1_0000_0000
    ensures FromBigEndian(ToBigEndian(n)) == n
  {
    var high := n / 256;
    assert n / 0x1_0000 == high / 256 && n / 0x100_0000 == high / 256 / 256;
    assert n == high * 256 + n % 256;
    assert high == high / 256 * 256 + high % 256;
    assert high / 256 == high / 256 / 256 * 256 + high / 256 % 256;
  }

  /** A ciphertext on the wire. */
  function Frame(ciphertext: Bytes): Bytes
    requires |ciphertext| < 0x1_0000_0000
  {
    ToBigEndian(|ciphertext|) + ciphertext
  }

  /** What the reader makes of the bytes in front of it. */
  datatype Read =
    | NeedMore                      // waits, or reports a disconnect at the end of the stream
    | BadLength(failure: Failure, rest: Bytes)
    | GotFrame(ciphertext: Bytes, rest: Bytes)

  function ReadFrame(incoming: Bytes): (r: Read)
    ensures !r.NeedMore? ==> |r.rest| < |incoming|
  {
    if |incoming| < 4 then NeedMore
    else
      var len := FromBigEndian(incoming[..4]);
      var rest := incoming[4..];
      if len < 16 then BadLength(FrameInjection, rest)
      else if len > READ_BUFFER then BadLength(FrameTooLarge, rest)
      else if |rest| < len then NeedMore
      else GotFrame(rest[..len], rest[len..])
  }

  /** Reading a framed ciphertext of legal size gives it back and leaves the following bytes alone. */
  lemma FrameRoundTrip(ciphertext: Bytes, following: Bytes)
    requires FRAME_OVERHEAD <= |ciphertext| <= READ_BUFFER
    ensures ReadFrame(Frame(ciphertext) + following) == GotFrame(ciphertext, following)
  {
    var bytes := Frame(ciphertext) + following;
    BigEndianRoundTrip(|ciphertext|);
    assert bytes[..4] == ToBigEndian(|ciphertext|);
    assert bytes[4..] == ciphertext + following;
  }

  /** A frame that is only partly there is waited for. */
  lemma PartialFrame(ciphertext: Bytes, n: nat)
    requires FRAME_OVERHEAD <= |ciphertext| <= READ_BUFFER
    requires n < |Frame(ciphertext)|
    ensures ReadFrame(Frame(ciphertext)[..n]) == NeedMore
  {
    if n >= 4 {
      BigEndianRoundTrip(|ciphertext|);
      assert Frame(ciphertext)[..n][..4] == ToBigEndian(|ciphertext|);
    }
  }

  // ---- The two ends ----------------------------------------------------------------------------

  /** The sending end: its nonce and every byte it has put on the wire. */
  datatype Sender = Sender(nonce: nat, wire: Bytes)

  /** The receiving end: its nonce and the bytes the transport has brought but it has not read. */
  datatype Receiver = Receiver(nonce: nat, incoming: Bytes)

  datatype Sent = Sent(sender: Sender, failure: Option<Failure>)

  /**
    * One `send`; `taken` says after how many bytes the transport refused the frame, if it did. The
    * nonce is used up either way.
    */
  function Send(cipher: Cipher, s: Sender, payload: Bytes, taken: Option<nat>): Sent {
    if |payload| > MAX_FRAME_PAYLOAD then Sent(s, Some(FrameTooLarge))
    else
      var frame := Frame(cipher.seal(s.nonce, payload));
      if taken.Some? && taken.value < |frame|
      then Sent(Sender(s.nonce + 1, s.wire + frame[..taken.value]), Some(Disconnected))
      else Sent(Sender(s.nonce + 1, s.wire + frame), None)
  }

  datatype Received =
    | Payload(payload: Bytes, receiver: Receiver)
    | Failed(failure: Failure, receiver: Receiver)
    | Blocked

  /**
    * One `recv`; the nonce moves only when a frame unseals. Too few bytes are waited on, or used up
    * when the stream has ended.
    */
  function Recv(cipher: Cipher, r: Receiver, ended: bool): Received {
    match ReadFrame(r.incoming)
    case NeedMore => if ended then Failed(Disconnected, r.(incoming := [])) else Blocked
    case BadLength(failure, rest) => Failed(failure, r.(incoming := rest))
    case GotFrame(ciphertext, rest) =>
      var plain := cipher.unseal(r.nonce, ciphertext);
      if plain == None then Failed(Tampered, r.(incoming := rest))
      else Payload(plain.value, Receiver(r.nonce + 1, rest))
  }

  /**
    * The answer to any four length bytes, most significant first: announced lengths below 16 and above
    * 65539 are refused, shorter bodies are waited for or end in a disconnect, and no failure moves the nonce.
    */
  lemma RecvAnswers(cipher: Cipher, nonce: nat, prefix: Bytes, body: Bytes, ended: bool)
    requires |prefix| == 4
    ensures var a: int, b: int, c: int, d: int := prefix[0], prefix[1], prefix[2], prefix[3];
            var n := a * 0x100_0000 + b * 0x1_0000 + c * 0x100 + d;
            Recv(cipher, Receiver(nonce, prefix + body), ended) ==
            if n < 16 then Failed(FrameInjection, Receiver(nonce, body))
            else if n > 65539 then Failed(FrameTooLarge, Receiver(nonce, body))
            else if |body| < n then (if ended then Failed(Disconnected, Receiver(nonce, [])) else Blocked)
            else if cipher.unseal(nonce, body[..n]) == None then Failed(Tampered, Receiver(nonce, body[n..]))
            else Payload(cipher.unseal(nonce, body[..n]).value, Receiver(nonce + 1, body[n..]))
  {
    assert (prefix + body)[..4] == prefix && (prefix + body)[4..] == body;
  }

  // ---- Every run over a hostile transport ---------------------------------------------------------

  /**
    * The payloads `send` sealed and `recv` returned, the ciphertexts the latter came in, and whether
    * every sealed frame reached the wire whole.
    */
  datatype State = State(
    sender: Sender, receiver: Receiver, sent: seq<Bytes>, delivered: seq<Bytes>, unsealed: seq<Bytes>, whole: bool)

  /** The transport may bring any bytes at all: what was sent, parts of it, repeats, or its own. */
  datatype Step = DoSend(payload: Bytes, taken: Option<nat>) | Bring(bytes: Bytes) | DoRecv(ended: bool)

  const Start := State(Sender(0, []), Receiver(0, []), [], [], [], true)

  function Next(cipher: Cipher, s: State, step: Step): State {
    match step
    case DoSend(payload, taken) =>
      var sent := Send(cipher, s.sender, payload, taken);
      if sent.failure == Some(FrameTooLarge) then s
      else s.(sender := sent.sender, sent := s.sent + [payload], whole := s.whole && sent.failure == None)
    case Bring(bytes) =>
      s.(receiver := s.receiver.(incoming := s.receiver.incoming + bytes))
    case DoRecv(ended) =>
      match Recv(cipher, s.receiver, ended)
      case Payload(payload, receiver) =>
        s.(receiver := receiver, delivered := s.delivered + [payload],
           unsealed := s.unsealed + [ReadFrame(s.receiver.incoming).ciphertext])
      case Failed(_, receiver) => s.(receiver := receiver)
      case Blocked => s
  }

  function Run(cipher: Cipher, steps: seq<Step>): State {
    if steps == [] then Start else Next(cipher, Run(cipher, Front(steps)), Last(steps))
  }

  predicate Sendable(payloads: seq<Bytes>) {
    forall i :: 0 <= i < |payloads| ==> |payloads[i]| <= MAX_FRAME_PAYLOAD
  }

  /** One frame per payload, sealed under consecutive nonces from `n` on: no nonce occurs twice. */
  function WireFrom(cipher: Cipher, n: nat, payloads: seq<Bytes>): Bytes
    requires Sendable(payloads)
    decreases |payloads|
  {
    if payloads == [] then []
    else Frame(cipher.seal(n, payloads[0])) + WireFrom(cipher, n + 1, payloads[1..])
  }

  lemma {:induction false} WireSnoc(cipher: Cipher, n: nat, payloads: seq<Bytes>, payload: Bytes)
    requires Sendable(payloads) && |payload| <= MAX_FRAME_PAYLOAD
    ensures Sendable(payloads + [payload])
    ensures WireFrom(cipher, n, payloads + [payload]) ==
            WireFrom(cipher, n, payloads) + Frame(cipher.seal(n + |payloads|, payload))
    decreases |payloads|
  {
    var longer := payloads + [payload];
    if payloads != [] {
      assert longer[1..] == payloads[1..] + [payload];
      WireSnoc(cipher, n + 1, payloads[1..], payload);
    } else {
      assert longer[1..] == [];
    }
  }

  ghost predicate Inv(cipher: Cipher, s: State) {
    && s.sender.nonce == |s.sent|
    && Sendable(s.sent)
    && (s.whole ==> s.sender.wire == WireFrom(cipher, 0, s.sent))
    && s.receiver.nonce == |s.delivered| == |s.unsealed|
    && forall n: nat :: n < |s.delivered| ==> cipher.unseal(n, s.unsealed[n]) == Some(s.delivered[n])
  }

  lemma NextKeepsInv(cipher: Cipher, s: State, step: Step)
    requires Inv(cipher, s)
    ensures Inv(cipher, Next(cipher, s, step))
  {
    hide WireFrom, Frame, ReadFrame;
    if step.DoSend? && |step.payload| <= MAX_FRAME_PAYLOAD {
      WireSnoc(cipher, 0, s.sent, step.payload);
    }
  }

  /**
    * In every run the sender has used the nonces 0, 1, 2 and so on once each, on the wire in order
    * while the transport takes whole frames, and the receiver's nonce counts the delivered payloads.
    */
  lemma {:induction false} EveryRunKeepsCount(cipher: Cipher, steps: seq<Step>)
    ensures Inv(cipher, Run(cipher, steps))
  {
    if steps != [] {
      EveryRunKeepsCount(cipher, Front(steps));
      NextKeepsInv(cipher, Run(cipher, Front(steps)), Last(steps));
    }
  }

  /** A ciphertext that unsealed under a nonce for which the sender had not produced it. */
  ghost predicate Forged(cipher: Cipher, sent: seq<Bytes>, unsealed: seq<Bytes>) {
    exists n: nat :: n < |unsealed| && !Genuine(cipher, sent, unsealed, n)
  }

  ghost predicate Genuine(cipher: Cipher, sent: seq<Bytes>, unsealed: seq<Bytes>, n: nat)
    requires n < |unsealed|
  {
    n < |sent| && unsealed[n] == cipher.seal(n, sent[n])
  }

  /**
    * Whatever the transport drops, repeats, reorders or replaces, the delivered payloads are a
    * prefix of the sent ones, unless a ciphertext was forged.
    */
  lemma DeliveredIsPrefix(cipher: Cipher, steps: seq<Step>)
    ensures var s := Run(cipher, steps);
            s.delivered <= s.sent || Forged(cipher, s.sent, s.unsealed)
  {
    var s := Run(cipher, steps);
    EveryRunKeepsCount(cipher, steps);
    if !Forged(cipher, s.sent, s.unsealed) {
      forall n: nat | n < |s.delivered| ensures n < |s.sent| && s.delivered[n] == s.sent[n] {
        assert Genuine(cipher, s.sent, s.unsealed, n);
        assert cipher.unseal(n, cipher.seal(n, s.sent[n])) == Some(s.sent[n]);
      }
      if s.delivered != [] {
        assert Genuine(cipher, s.sent, s.unsealed, |s.delivered| - 1);
      }
    }
  }

  // ---- An untouched byte stream --------------------------------------------------------------------

  /** Receiving until nothing more comes. */
  function Drain(cipher: Cipher, r: Receiver): seq<Bytes>
    decreases |r.incoming|
  {
    match Recv(cipher, r, false)
    case Payload(payload, rest) => [payload] + Drain(cipher, rest)
    case Failed(_, _) => []
    case Blocked => []
  }

  lemma DrainOne(cipher: Cipher, n: nat, payload: Bytes, following: Bytes)
    requires |payload| <= MAX_FRAME_PAYLOAD
    ensures Recv(cipher, Receiver(n, Frame(cipher.seal(n, payload)) + following), false) ==
            Payload(payload, Receiver(n + 1, following))
    ensures Drain(cipher, Receiver(n, Frame(cipher.seal(n, payload)) + following)) ==
            [payload] + Drain(cipher, Receiver(n + 1, following))
  {
    hide ReadFrame, Frame;
    FrameRoundTrip(cipher.seal(n, payload), following);
  }

  /** Whole frames come out as sent; a tail the reader is still waiting on adds nothing. */
  lemma {:induction false} DrainWire(cipher: Cipher, n: nat, payloads: seq<Bytes>, tail: Bytes)
    requires Sendable(payloads)
    requires ReadFrame(tail) == NeedMore
    ensures Drain(cipher, Receiver(n, WireFrom(cipher, n, payloads) + tail)) == payloads
    decreases |payloads|
  {
    hide ReadFrame, Frame, Drain, WireFrom;
    if payloads == [] {
      NoWire(cipher, n);
      assert [] + tail == tail;
      DrainBlocked(cipher, n, tail);
    } else {
      var frame, rest := Frame(cipher.seal(n, payloads[0])), WireFrom(cipher, n + 1, payloads[1..]);
      WireCons(cipher, n, payloads);
      assert frame + rest + tail == frame + (rest + tail);
      DrainOne(cipher, n, payloads[0], rest + tail);
      DrainWire(cipher, n + 1, payloads[1..], tail);
      assert payloads == [payloads[0]] + payloads[1..];
    }
  }

  lemma NoWire(cipher: Cipher, n: nat)
    ensures WireFrom(cipher, n, []) == []
    ensures ReadFrame([]) == NeedMore
  {
  }

  lemma DrainBlocked(cipher: Cipher, n: nat, bytes: Bytes)
    requires ReadFrame(bytes) == NeedMore
    ensures Drain(cipher, Receiver(n, bytes)) == []
  {
  }

  lemma WireCons(cipher: Cipher, n: nat, payloads: seq<Bytes>)
    requires Sendable(payloads) && payloads != []
    ensures WireFrom(cipher, n, payloads) ==
            Frame(cipher.seal(n, payloads[0])) + WireFrom(cipher, n + 1, payloads[1..])
  {
  }

  lemma CutConcat(a: Bytes, b: Bytes, k: nat)
    requires k <= |a + b|
    ensures (a + b)[..k] == if k < |a| then a[..k] else a + b[..k - |a|]
  {
  }

  /** The number of whole frames among the first `k` bytes of the wire. */
  function WholeFrames(cipher: Cipher, n: nat, payloads: seq<Bytes>, k: nat): (m: nat)
    requires Sendable(payloads)
    ensures m <= |payloads|
    decreases |payloads|
  {
    if payloads == [] || k < |Frame(cipher.seal(n, payloads[0]))| then 0
    else 1 + WholeFrames(cipher, n + 1, payloads[1..], k - |Frame(cipher.seal(n, payloads[0]))|)
  }

  /** However far an untouched stream has come, exactly the payloads of its whole frames are delivered. */
  lemma {:induction false} UntouchedStreamDelivers(cipher: Cipher, n: nat, payloads: seq<Bytes>, k: nat)
    requires Sendable(payloads)
    requires k <= |WireFrom(cipher, n, payloads)|
    ensures Drain(cipher, Receiver(n, WireFrom(cipher, n, payloads)[..k])) ==
            payloads[..WholeFrames(cipher, n, payloads, k)]
    ensures k == |WireFrom(cipher, n, payloads)| ==> WholeFrames(cipher, n, payloads, k) == |payloads|
    decreases |payloads|
  {
    hide ReadFrame, Frame, Recv, Drain, WireFrom;
    if payloads == [] {
      NoWire(cipher, n);
      DrainBlocked(cipher, n, []);
    } else {
      var frame := Frame(cipher.seal(n, payloads[0]));
      var rest := WireFrom(cipher, n + 1, payloads[1..]);
      WireCons(cipher, n, payloads);
      CutConcat(frame, rest, k);
      if k < |frame| {
        DrainPartial(cipher, n, payloads[0], k);
      } else {
        DrainOne(cipher, n, payloads[0], rest[..k - |frame|]);
        UntouchedStreamDelivers(cipher, n + 1, payloads[1..], k - |frame|);
        var m := WholeFrames(cipher, n + 1, payloads[1..], k - |frame|);
        assert [payloads[0]] + payloads[1..][..m] == payloads[..m + 1];
      }
    }
  }

  lemma DrainPartial(cipher: Cipher, n: nat, payload: Bytes, k: nat)
    requires |payload| <= MAX_FRAME_PAYLOAD
    requires k < |Frame(cipher.seal(n, payload))|
    ensures Drain(cipher, Receiver(n, Frame(cipher.seal(n, payload))[..k])) == []
  {
    hide ReadFrame, Frame;
    PartialFrame(cipher.seal(n, payload), k);
  }

  // ---- The code --------------------------------------------------------------------------------------

  class ChannelWriter {
    const cipher: Cipher
    var nonce: nat
    var wire: Bytes

    function State(): Sender
      reads this
    {
      Sender(nonce, wire)
    }

    constructor (cipher: Cipher)
      ensures this.cipher == cipher && State() == Sender(0, [])
    {
      this.cipher := cipher;
      nonce, wire := 0, [];
    }

    method SendFrame(plaintext: Bytes, taken: Option<nat>) returns (failure: Option<Failure>)
      modifies this
      ensures Sent(State(), failure) == Send(cipher, old(State()), plaintext, taken)
      ensures failure == Some(FrameTooLarge) <==> |plaintext| > 65519
      ensures failure == Some(FrameTooLarge) ==> State() == old(State())
      ensures failure != Some(FrameTooLarge) ==> nonce == old(nonce) + 1 && old(wire) <= wire
    {
      if |plaintext| > MAX_FRAME_PAYLOAD {
        return Some(FrameTooLarge);
      }
      var ciphertext := cipher.seal(nonce, plaintext);
      nonce := nonce + 1;
      var length := ToBigEndian(|ciphertext|);
      if taken.Some? && taken.value < |length| {
        wire := wire + length[..taken.value];
        assert length[..taken.value] == Frame(ciphertext)[..taken.value];
        return Some(Disconnected);
      }
      wire := wire + length;
      if taken.Some? && taken.value < |length| + |ciphertext| {
        var part := ciphertext[..taken.value - |length|];
        assert old(wire) + length + part == old(wire) + Frame(ciphertext)[..taken.value];
        wire := wire + part;
        return Some(Disconnected);
      }
      assert old(wire) + length + ciphertext == old(wire) + Frame(ciphertext);
      wire := wire + ciphertext;
      return None;
    }

    /** A close notice is an empty payload, never too large; it uses up a nonce like any other. */
    method CloseNotify(taken: Option<nat>) returns (failure: Option<Failure>)
      modifies this
      ensures Sent(State(), failure) == Send(cipher, old(State()), [], taken)
      ensures failure != Some(FrameTooLarge) && nonce == old(nonce) + 1
    {
      failure := SendFrame([], taken);
    }
  }

  class ChannelReader {
    const cipher: Cipher
    var nonce: nat
    var incoming: Bytes

    function State(): Receiver
      reads this
    {
      Receiver(nonce, incoming)
    }

    constructor (cipher: Cipher)
      ensures this.cipher == cipher && State() == Receiver(0, [])
    {
      this.cipher := cipher;
      nonce, incoming := 0, [];
    }

    /**
      * Called with the bytes at hand: too few of them mean waiting (no answer) or, at the end of the
      * stream, a disconnect.
      */
    method RecvFrame(ended: bool) returns (r: Option<Result<Bytes, Failure>>)
      modifies this
      ensures match Recv(cipher, old(State()), ended)
              case Payload(payload, receiver) => r == Some(Ok(payload)) && State() == receiver
              case Failed(failure, receiver) => r == Some(Err(failure)) && State() == receiver
              case Blocked => r == None && State() == old(State())
      ensures |old(incoming)| < 4 ==> r == if ended then Some(Err(Disconnected)) else None
      ensures nonce == old(nonce) + if r.Some? && r.value.Ok? then 1 else 0
    {
      if |incoming| < 4 {
        if ended {
          incoming := [];
          return Some(Err(Disconnected));
        }
        return None;
      }
      var len := FromBigEndian(incoming[..4]);
      var body := incoming[4..];
      if len < 16 {
        incoming := body;
        return Some(Err(FrameInjection));
      }
      if len > READ_BUFFER {
        incoming := body;
        return Some(Err(FrameTooLarge));
      }
      if |body| < len {
        if ended {
          incoming := [];
          return Some(Err(Disconnected));
        }
        return None;
      }
      incoming := body[len..];
      var plain := cipher.unseal(nonce, body[..len]);
      if plain == None {
        return Some(Err(Tampered));
      }
      nonce := nonce + 1;
      return Some(Ok(plain.value));
    }
  }
}
