/** The card reader the session talks through (`reader.transmit`, `reader.read`,
    `reader.write` of the nfc-pcsc library). Its driver is not modelled: a
    `Reader` hands out the replies its caller scripted, one per call and in
    order, and keeps a ghost log of every call made. An exhausted script
    answers with a transport failure. */
module Transceiver {
  import opened Common

  /** One I/O call on the reader. Writes go out in 4-byte pages. */
  datatype IoCall =
    | Transmit(command: seq<byte>, responseLength: int)
    | Read(page: int, length: int)
    | Write(page: int, bytes: seq<byte>)

  /** What the reader answers: the response bytes, or the transport error it throws. */
  datatype Reply = Replied(bytes: seq<byte>) | TransportFailed

  function Next(script: seq<Reply>): Reply
  {
    if script == [] then TransportFailed else script[0]
  }

  function Rest(script: seq<Reply>): (r: seq<Reply>)
    ensures |r| == if script == [] then 0 else |script| - 1
  {
    if script == [] then [] else script[1..]
  }

  /** The script left after `k` calls. */
  function Drop(script: seq<Reply>, k: nat): seq<Reply>
  {
    if k == 0 then script else Rest(Drop(script, k - 1))
  }

  /** After `k` calls the script has lost exactly its first `k` replies. */
  lemma {:induction false} DropIsSuffix(script: seq<Reply>, k: nat)
    ensures Drop(script, k) == if k <= |script| then script[k..] else []
  {
    if k > 0 {
      DropIsSuffix(script, k - 1);
    }
  }

  /** One more call: the script loses its next reply, and the calls so far
      include a failure when they did before or the next reply is one. */
  lemma CallStep(script: seq<Reply>, k: nat)
    ensures Drop(script, k + 1) == Rest(Drop(script, k))
    ensures AnyFailed(script, k + 1) <==> AnyFailed(script, k) || Next(Drop(script, k)).TransportFailed?
  {
  }

  /** Whether one of the first `k` calls on `script` fails. */
  predicate AnyFailed(script: seq<Reply>, k: nat)
  {
    k > 0 && (AnyFailed(script, k - 1) || Next(Drop(script, k - 1)).TransportFailed?)
  }

  /** One of the first `k` calls fails exactly when the script runs out before
      them or scripts a failure for one of them. */
  lemma {:induction false} AnyFailedExactly(script: seq<Reply>, k: nat)
    ensures AnyFailed(script, k) <==>
      k > |script| || exists j :: 0 <= j < k && script[j].TransportFailed?
  {
    if k > 0 {
      AnyFailedExactly(script, k - 1);
      DropIsSuffix(script, k - 1);
      if k - 1 < |script| {
        assert Next(Drop(script, k - 1)) == script[k - 1];
      }
    }
  }

  class Reader {
    /** The replies still to be handed out. */
    var script: seq<Reply>
    /** Every call made so far, oldest first. */
    ghost var log: seq<IoCall>

    constructor (script: seq<Reply>)
      ensures this.script == script && log == []
    {
      this.script := script;
      log := [];
    }

    /** Hands out the next scripted reply for `call`. */
    method Answer(call: IoCall) returns (reply: Reply)
      modifies this
      ensures log == old(log) + [call]
      ensures reply == Next(old(script)) && script == Rest(old(script))
    {
      reply := Next(script);
      script := Rest(script);
      log := log + [call];
    }

    /** `reader.transmit(command, responseLength)`. */
    method Transmit(command: seq<byte>, responseLength: int) returns (reply: Reply)
      modifies this
      ensures log == old(log) + [IoCall.Transmit(command, responseLength)]
      ensures reply == Next(old(script)) && script == Rest(old(script))
    {
      reply := Answer(IoCall.Transmit(command, responseLength));
    }

    /** `reader.read(page, length)`. */
    method Read(page: int, length: int) returns (reply: Reply)
      modifies this
      ensures log == old(log) + [IoCall.Read(page, length)]
      ensures reply == Next(old(script)) && script == Rest(old(script))
    {
      reply := Answer(IoCall.Read(page, length));
    }

    /** `reader.write(page, bytes)`; only success or failure of the reply matters. */
    method Write(page: int, bytes: seq<byte>) returns (reply: Reply)
      modifies this
      ensures log == old(log) + [IoCall.Write(page, bytes)]
      ensures reply == Next(old(script)) && script == Rest(old(script))
    {
      reply := Answer(IoCall.Write(page, bytes));
    }
  }
}
