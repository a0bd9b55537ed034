/** Streamed push and pull: raw file data in frames of the encrypted channel. */
module Streaming {
  import opened Prelude
  import opened Channel

  const STREAM_CHUNK := 65519

  /** The frames the sending loop cuts a file into. */
  function Frames(data: Bytes): seq<Bytes>
    decreases |data|
  {
    if data == [] then []
    else
      var n := Min(STREAM_CHUNK, |data|);
      [data[..n]] + Frames(data[n..])
  }

  function Join(frames: seq<Bytes>): Bytes {
    if frames == [] then [] else frames[0] + Join(frames[1..])
  }

  predicate NonEmpty(frames: seq<Bytes>) {
    forall i :: 0 <= i < |frames| ==> frames[i] != []
  }

  /** Every chunk is non-empty, fits a frame, and together they are the file. */
  lemma {:induction false} FramesOfFile(data: Bytes)
    ensures Sendable(Frames(data))
    ensures NonEmpty(Frames(data))
    ensures Join(Frames(data)) == data
    decreases |data|
  {
    if data != [] {
      var n := Min(STREAM_CHUNK, |data|);
      FramesOfFile(data[n..]);
      assert Frames(data)[1..] == Frames(data[n..]);
      assert data == data[..n] + data[n..];
    }
  }

  datatype Collected =
    | Done(data: Bytes, rest: seq<Bytes>)
    | Closed  // an empty frame before the end
    | Overrun // more bytes than announced
    | Starved // the channel gave out

  /** The agent's receiving loop, over the payloads the channel delivers. */
  function Collect(frames: seq<Bytes>, total: nat, got: Bytes): Collected
    decreases |frames|
  {
    if |got| >= total then Done(got, frames)
    else if frames == [] then Starved
    else if frames[0] == [] then Closed
    else if |got| + |frames[0]| > total then Overrun
    else Collect(frames[1..], total, got + frames[0])
  }

  /** The client's receiving loop: the same without a check for too many bytes. */
  function CollectLoosely(frames: seq<Bytes>, total: nat, got: Bytes): Collected
    decreases |frames|
  {
    if |got| >= total then Done(got, frames)
    else if frames == [] then Starved
    else if frames[0] == [] then Closed
    else CollectLoosely(frames[1..], total, got + frames[0])
  }

  // ---- What the receiving loops accept ----------------------------------------------------------

  lemma JoinStep(frames: seq<Bytes>)
    ensures Join(frames) == if frames == [] then [] else frames[0] + Join(frames[1..])
  {
  }

  lemma {:induction false} JoinConcat(a: seq<Bytes>, b: seq<Bytes>)
    ensures Join(a + b) == Join(a) + Join(b)
  {
    hide Join;
    JoinStep(a);
    if a == [] {
      assert a + b == b && [] + Join(b) == Join(b);
    } else {
      JoinStep(a + b);
      JoinConcat(a[1..], b);
      assert (a + b)[1..] == a[1..] + b;
      assert a[0] + (Join(a[1..]) + Join(b)) == a[0] + Join(a[1..]) + Join(b);
    }
  }

  /** The agent finishes with exactly the announced bytes, made of non-empty frames taken in order. */
  lemma {:induction false} CollectSound(frames: seq<Bytes>, total: nat, got: Bytes)
    requires |got| <= total
    requires Collect(frames, total, got).Done?
    ensures var done := Collect(frames, total, got);
            && |done.data| == total
            && |done.rest| <= |frames|
            && var taken := frames[..|frames| - |done.rest|];
               frames == taken + done.rest && NonEmpty(taken) && done.data == got + Join(taken)
    decreases |frames|
  {
    var done := Collect(frames, total, got);
    if |got| < total {
      CollectSound(frames[1..], total, got + frames[0]);
      var taken := frames[..|frames| - |done.rest|];
      assert taken[1..] == frames[1..][..|frames| - 1 - |done.rest|];
      assert taken == [frames[0]] + taken[1..];
    }
  }

  /**
    * How the agent's loop ends, over any frames: it takes `k` non-empty frames and then has the announced
    * size, or meets an empty frame, one that is too long, or the end of the channel.
    */
  lemma {:induction false} CollectEnds(frames: seq<Bytes>, total: nat, got: Bytes) returns (k: nat)
    requires |got| <= total
    ensures k <= |frames| && NonEmpty(frames[..k])
    ensures var size := |got| + |Join(frames[..k])|;
            match Collect(frames, total, got)
            case Done(data, rest) => size == total && data == got + Join(frames[..k]) && rest == frames[k..]
            case Closed => size < total && k < |frames| && frames[k] == []
            case Overrun => size < total && k < |frames| && size + |frames[k]| > total
            case Starved => size < total && k == |frames|
    decreases |frames|
  {
    if |got| >= total || frames == [] || frames[0] == [] || |got| + |frames[0]| > total {
      k := 0;
      assert frames[..0] == [] && frames[0..] == frames && got + [] == got;
    } else {
      var k' := CollectEnds(frames[1..], total, got + frames[0]);
      k := k' + 1;
      assert frames[..k] == [frames[0]] + frames[1..][..k'];
      assert frames[..k][1..] == frames[1..][..k'];
      assert got + frames[0] + Join(frames[1..][..k']) == got + Join(frames[..k]);
    }
  }

  /** So it accepts exactly if some of the first frames, all non-empty, add up to the announced size. */
  lemma CollectDoneIff(frames: seq<Bytes>, total: nat)
    ensures Collect(frames, total, []).Done? <==>
            exists k :: 0 <= k <= |frames| && NonEmpty(frames[..k]) && |Join(frames[..k])| == total
  {
    hide Collect, Join, CollectLoosely;
    var k := CollectEnds(frames, total, []);
    if i :| 0 <= i <= |frames| && NonEmpty(frames[..i]) && |Join(frames[..i])| == total {
      CollectComplete(frames[..i], frames[i..], total, []);
      assert frames[..i] + frames[i..] == frames;
    }
  }

  /** Every frame but the last is full. */
  lemma {:induction false} AllButLastFull(data: Bytes, i: nat)
    requires i < |Frames(data)|
    ensures if i < |Frames(data)| - 1 then |Frames(data)[i]| == 65519 else 0 < |Frames(data)[i]| <= 65519
    decreases |data|
  {
    var n := Min(STREAM_CHUNK, |data|);
    if i > 0 {
      AllButLastFull(data[n..], i - 1);
    }
  }

  /** Any run of non-empty frames that adds up to the announced size is accepted, and nothing after it is touched. */
  lemma {:induction false} CollectComplete(taken: seq<Bytes>, later: seq<Bytes>, total: nat, got: Bytes)
    requires NonEmpty(taken)
    requires |got| + |Join(taken)| == total
    ensures Collect(taken + later, total, got) == Done(got + Join(taken), later)
    ensures CollectLoosely(taken + later, total, got) == Done(got + Join(taken), later)
    decreases |taken|
  {
    if taken == [] {
      assert taken + later == later && got + Join(taken) == got;
    } else {
      CollectComplete(taken[1..], later, total, got + taken[0]);
      assert (taken + later)[1..] == taken[1..] + later;
      assert got + taken[0] + Join(taken[1..]) == got + Join(taken);
    }
  }

  /** The client's loop accepts whatever the agent's does, and beyond that only files that are too long. */
  lemma {:induction false} LooseDiffersOnlyByOverrun(frames: seq<Bytes>, total: nat, got: Bytes)
    requires |got| <= total
    ensures var strict, loose := Collect(frames, total, got), CollectLoosely(frames, total, got);
            && (strict == loose <==> strict != Overrun)
            && (strict == Overrun <==> loose.Done? && |loose.data| > total)
    decreases |frames|
  {
    if |got| < total && frames != [] && frames[0] != [] {
      if |got| + |frames[0]| <= total {
        LooseDiffersOnlyByOverrun(frames[1..], total, got + frames[0]);
      }
    }
  }

  // ---- Transfers, end to end -------------------------------------------------------------------------

  /** Over an untouched channel either receiving loop ends with exactly the file, for every file. */
  lemma TransferDelivers(cipher: Cipher, n: nat, data: Bytes)
    ensures Sendable(Frames(data))
    ensures var delivered := Drain(cipher, Receiver(n, WireFrom(cipher, n, Frames(data))));
            && Collect(delivered, |data|, []) == Done(data, [])
            && CollectLoosely(delivered, |data|, []) == Done(data, [])
  {
    FramesOfFile(data);
    DrainWire(cipher, n, Frames(data), []);
    assert WireFrom(cipher, n, Frames(data)) + [] == WireFrom(cipher, n, Frames(data));
    CollectComplete(Frames(data), [], |data|, []);
    assert Frames(data) + [] == Frames(data);
  }

  /** A prefix of the frames of a file, followed by more, is the whole file or too little. */
  lemma PrefixCollects(data: Bytes, later: seq<Bytes>, prefix: seq<Bytes>)
    requires prefix <= Frames(data) + later
    ensures var c := Collect(prefix, |data|, []);
            c == Starved || (c.Done? && c.data == data)
    ensures CollectLoosely(prefix, |data|, []) == Collect(prefix, |data|, [])
  {
    LooseDiffersOnlyByOverrun(prefix, |data|, []);
    FramesOfFile(data);
    var frames := Frames(data);
    if |frames| <= |prefix| {
      assert prefix == frames + prefix[|frames|..];
      CollectComplete(frames, prefix[|frames|..], |data|, []);
    } else {
      assert prefix == frames[..|prefix|];
      JoinConcat(prefix, frames[|prefix|..]);
      assert frames == prefix + frames[|prefix|..];
      ShortCollects(prefix, |data|, []);
    }
  }

  lemma {:induction false} ShortCollects(frames: seq<Bytes>, total: nat, got: Bytes)
    requires NonEmpty(frames)
    requires |got| + |Join(frames)| <= total
    ensures Collect(frames, total, got) ==
            if |got| + |Join(frames)| < total then Starved else Done(got + Join(frames), [])
    decreases |frames|
  {
    if frames != [] {
      ShortCollects(frames[1..], total, got + frames[0]);
      assert got + frames[0] + Join(frames[1..]) == got + Join(frames);
    } else {
      assert got + Join(frames) == got;
    }
  }

  lemma SkipSame(delivered: seq<Bytes>, earlier: seq<Bytes>, following: seq<Bytes>)
    requires delivered <= earlier + following && |earlier| <= |delivered|
    ensures delivered[|earlier|..] <= following
  {
  }

  /**
    * Over any transport: after `earlier` frames, a receiving agent ends with exactly the pushed
    * file or not at all, unless a ciphertext was forged, and so does a pulling client.
    */
  lemma HostileTransferAllOrNothing(
    cipher: Cipher, steps: seq<Step>, earlier: seq<Bytes>, data: Bytes, later: seq<Bytes>)
    requires Run(cipher, steps).sent == earlier + (Frames(data) + later)
    requires |earlier| <= |Run(cipher, steps).delivered|
    ensures var s := Run(cipher, steps);
            var c := Collect(s.delivered[|earlier|..], |data|, []);
            || Forged(cipher, s.sent, s.unsealed)
            || (CollectLoosely(s.delivered[|earlier|..], |data|, []) == c
                && (c == Starved || (c.Done? && c.data == data)))
  {
    hide Run, Collect, CollectLoosely, Frames, Forged;
    var s := Run(cipher, steps);
    DeliveredIsPrefix(cipher, steps);
    if s.delivered <= s.sent {
      SkipSame(s.delivered, earlier, Frames(data) + later);
      PrefixCollects(data, later, s.delivered[|earlier|..]);
    }
  }

  // ---- The code --------------------------------------------------------------------------------------

  /**
    * The sending loop on a transport that takes every byte: `send` never refuses a chunk, and the wire
    * grows by exactly the file's frames.
    */
  method SendFile(w: ChannelWriter, data: Bytes)
    modifies w
    ensures Sendable(Frames(data))
    ensures w.wire == old(w.wire) + WireFrom(w.cipher, old(w.nonce), Frames(data))
    ensures w.nonce == old(w.nonce) + |Frames(data)|
  {
    hide Frames, WireFrom, Send, Frame;
    FramesOfFile(data);
    NoWire(w.cipher, w.nonce);
    var sent := 0;
    ghost var done: seq<Bytes> := [];
    assert data[0..] == data;
    while sent < |data|
      invariant 0 <= sent <= |data|
      invariant done + Frames(data[sent..]) == Frames(data)
      invariant Sendable(done)
      invariant w.wire == old(w.wire) + WireFrom(w.cipher, old(w.nonce), done)
      invariant w.nonce == old(w.nonce) + |done|
    {
      var end := if sent + STREAM_CHUNK < |data| then sent + STREAM_CHUNK else |data|;
      var chunk := data[sent..end];
      NextChunk(data, sent);
      WireSnoc(w.cipher, old(w.nonce), done, chunk);
      SendOne(w.cipher, w.State(), chunk);
      var _ := w.SendFrame(chunk, None);
      done := done + [chunk];
      sent := end;
    }
    assert data[sent..] == [];
    EmptyFile();
    assert done == Frames(data);
  }

  lemma EmptyFile()
    ensures Frames([]) == []
  {
  }

  lemma NextChunk(data: Bytes, sent: nat)
    requires sent < |data|
    ensures var end := Min(sent + STREAM_CHUNK, |data|);
            Frames(data[sent..]) == [data[sent..end]] + Frames(data[end..])
  {
    var end := Min(sent + STREAM_CHUNK, |data|);
    assert data[sent..][..end - sent] == data[sent..end] && data[sent..][end - sent..] == data[end..];
  }

  lemma SendOne(cipher: Cipher, s: Sender, payload: Bytes)
    requires |payload| <= MAX_FRAME_PAYLOAD
    ensures Send(cipher, s, payload, None) ==
            Sent(Sender(s.nonce + 1, s.wire + Frame(cipher.seal(s.nonce, payload))), None)
  {
  }

  /** The agent's receiving loop reads what the channel delivers and accepts what `Collect` accepts. */
  method ReceiveFile(r: ChannelReader, total: nat) returns (result: Collected)
    modifies r
    ensures match Collect(Drain(r.cipher, old(r.State())), total, [])
            case Done(data, rest) => result.Done? && result.data == data && Drain(r.cipher, r.State()) == rest
            case other => result == other
  {
    var got: Bytes := [];
    while |got| < total
      invariant Collect(Drain(r.cipher, r.State()), total, got) == Collect(Drain(r.cipher, old(r.State())), total, [])
      decreases |r.incoming|
    {
      ghost var before := Drain(r.cipher, r.State());
      var received := r.RecvFrame(true);
      if received == None || received.value.Err? {
        return Starved;
      }
      var chunk := received.value;
      assert before == [chunk.value] + Drain(r.cipher, r.State());
      assert before[1..] == Drain(r.cipher, r.State());
      if chunk.value == [] {
        return Closed;
      }
      if |got| + |chunk.value| > total {
        return Overrun;
      }
      got := got + chunk.value;
    }
    return Done(got, []);
  }
}
