/**
 * The firmware's `send_all` (main/client.c): hand a buffer to the TCP stack
 * until every byte has been accepted, however few bytes each `send` takes.
 * The socket records what it has accepted and every call made to it.
 */
module Client {
  import opened Bytes
  import opened Esp

  /** One call `send(sock, ptr, len, 0)`: the bytes offered and the value returned. */
  datatype SendCall = SendCall(offered: seq<uint8>, result: int)

  /** The number of bytes a list of calls got accepted; a failed call accepts none. */
  function Accepted(calls: seq<SendCall>): nat
  {
    if calls == [] then 0
    else Accepted(calls[..|calls| - 1]) + (if calls[|calls| - 1].result > 0 then calls[|calls| - 1].result else 0)
  }

  /** Each call offers the rest of `data`, from just past what the earlier calls got accepted. */
  ghost predicate OffersRemainder(calls: seq<SendCall>, data: seq<uint8>)
  {
    calls != [] ==>
      var earlier := calls[..|calls| - 1];
      && OffersRemainder(earlier, data)
      && Accepted(earlier) <= |data|
      && calls[|calls| - 1].offered == data[Accepted(earlier)..]
  }

  /** `send` fails with -1 or takes at least one and at most all of the offered bytes. */
  predicate PossibleSendResult(sent: int, offered: nat)
  {
    sent == -1 || 1 <= sent <= offered
  }

  class TcpSocket {
    var transmitted: seq<uint8>
    var calls: seq<SendCall>

    constructor ()
      ensures transmitted == [] && calls == []
    {
      transmitted := [];
      calls := [];
    }

    /**
     * `send`: either -1 (an error, nothing taken) or a count between 1 and the
     * number of bytes offered, taken from the front of the buffer.
     */
    method Send(buf: seq<uint8>) returns (sent: int)
      requires |buf| > 0
      modifies this
      ensures PossibleSendResult(sent, |buf|)
      ensures calls == old(calls) + [SendCall(buf, sent)]
      ensures transmitted == old(transmitted) + (if sent > 0 then buf[..sent] else [])
    {
      var k :| 0 <= k <= |buf|;
      sent := if k == 0 then -1 else k;
      calls := calls + [SendCall(buf, sent)];
      if sent > 0 {
        transmitted := transmitted + buf[..sent];
      }
    }
  }

  /** Every call in the list accepted at least one byte. */
  predicate AllAccepted(calls: seq<SendCall>)
  {
    forall i :: 0 <= i < |calls| ==> calls[i].result > 0
  }

  /**
   * What `send_all` promises about the calls it made: each offered the rest of
   * the buffer; it reports success exactly when all of `data` was accepted,
   * and then every call succeeded; on failure the last call failed and every
   * earlier one succeeded.
   */
  ghost predicate SendAllOutcome(made: seq<SendCall>, data: seq<uint8>, err: EspErr)
  {
    && (err == EspOk || err == EspFail)
    && OffersRemainder(made, data)
    && Accepted(made) <= |data|
    && (err == EspOk <==> Accepted(made) == |data|)
    && (err == EspOk ==> AllAccepted(made))
    && (err == EspFail ==> made != [] && made[|made| - 1].result < 0 && AllAccepted(made[..|made| - 1]))
  }

  /**
   * `send_all(sock, data, len)`. On success the socket has taken exactly the
   * bytes of `data`, in order; on failure it has taken a proper prefix and the
   * failing call was the last one. No call is made for an empty buffer.
   */
  method SendAll(sock: TcpSocket, data: seq<uint8>) returns (err: EspErr, ghost made: seq<SendCall>)
    modifies sock
    ensures sock.calls == old(sock.calls) + made
    ensures SendAllOutcome(made, data, err)
    ensures sock.transmitted == old(sock.transmitted) + data[..Accepted(made)]
    ensures data == [] ==> err == EspOk && made == []
  {
    var ptr: nat := 0;
    var len: nat := |data|;
    made := [];
    ghost var before := sock.transmitted;
    while len > 0
      invariant ptr + len == |data|
      invariant sock.calls == old(sock.calls) + made
      invariant Accepted(made) == ptr
      invariant OffersRemainder(made, data)
      invariant AllAccepted(made)
      invariant sock.transmitted == before + data[..ptr]
      decreases len
    {
      var sent := sock.Send(data[ptr..]);
      if sent < 0 {
        FailureOutcome(made, data, sent);
        return EspFail, made + [SendCall(data[ptr..], sent)];
      }
      SuccessfulCall(made, data, sent, before);
      made := made + [SendCall(data[ptr..], sent)];
      ptr := ptr + sent;
      len := len - sent;
    }
    SuccessOutcome(made, data);
    return EspOk, made;
  }

  /** A loop that stops at a failed call ends in the failure outcome. */
  lemma FailureOutcome(before: seq<SendCall>, data: seq<uint8>, sent: int)
    requires OffersRemainder(before, data) && AllAccepted(before) && Accepted(before) < |data| && sent < 0
    ensures SendAllOutcome(before + [SendCall(data[Accepted(before)..], sent)], data, EspFail)
  {
    var made := before + [SendCall(data[Accepted(before)..], sent)];
    OffersRemainderExtend(before, data, sent);
    assert made[..|made| - 1] == before;
  }

  /** A call that accepted bytes keeps the loop's invariants, with the pointer moved past them. */
  lemma SuccessfulCall(made: seq<SendCall>, data: seq<uint8>, sent: int, earlier: seq<uint8>)
    requires OffersRemainder(made, data) && AllAccepted(made)
    requires 0 < sent && Accepted(made) + sent <= |data|
    ensures var next := made + [SendCall(data[Accepted(made)..], sent)];
      && OffersRemainder(next, data)
      && AllAccepted(next)
      && Accepted(next) == Accepted(made) + sent
      && (earlier + data[..Accepted(made)]) + data[Accepted(made)..][..sent] == earlier + data[..Accepted(next)]
  {
    OffersRemainderExtend(made, data, sent);
    AppendTaken(earlier, data, Accepted(made), sent);
  }

  /** Appending the next `sent` bytes of `data` to its first `ptr` bytes gives its first `ptr + sent`. */
  lemma AppendTaken(earlier: seq<uint8>, data: seq<uint8>, ptr: nat, sent: nat)
    requires ptr + sent <= |data|
    ensures (earlier + data[..ptr]) + data[ptr..][..sent] == earlier + data[..ptr + sent]
  {
    assert data[..ptr] + data[ptr..][..sent] == data[..ptr + sent];
  }

  /** A loop that ran out of bytes to send ends in the success outcome. */
  lemma SuccessOutcome(made: seq<SendCall>, data: seq<uint8>)
    requires OffersRemainder(made, data) && AllAccepted(made) && Accepted(made) == |data|
    ensures SendAllOutcome(made, data, EspOk)
  {
  }

  /** Appending the call that offers the rest of the buffer keeps every call offering the remainder. */
  lemma OffersRemainderExtend(made: seq<SendCall>, data: seq<uint8>, sent: int)
    requires OffersRemainder(made, data) && Accepted(made) <= |data|
    ensures var next := made + [SendCall(data[Accepted(made)..], sent)];
      && OffersRemainder(next, data)
      && Accepted(next) == Accepted(made) + (if sent > 0 then sent else 0)
  {
    var next := made + [SendCall(data[Accepted(made)..], sent)];
    assert next[..|made|] == made;
  }
}
