/** ServerWrite and ServerEchoData of src/server/server.c, against any script of TLS outcomes. */
module TlsServer {
  import opened Bytes
  import opened Arithmetic

  const ZERO_RETURN := 6

  // ---------------------------------------------------------------- ServerWrite

  /** What one SSL_write does with the bytes it is given. */
  datatype WriteOutcome = Takes(n: nat) | WantWrite | Pending | Broken

  datatype Error = NoError | WantWriteError | PendingError | FatalError

  predicate Retryable(e: Error) {
    e == WantWriteError || e == PendingError
  }

  /** A connection: outcomes still to come, and the bytes it has taken. Once the script is used up
      every call fails for good. */
  class Connection {
    var script: seq<WriteOutcome>
    var taken: seq<byte>

    method SslWrite(data: seq<byte>) returns (ret: int, err: Error)
      modifies this
      ensures ret <= |data|
      ensures taken == old(taken) + data[..if ret > 0 then ret else 0]
      ensures old(script) != [] ==> script == old(script)[1..]
      ensures old(script) == [] ==> script == [] && ret < 0 && err == FatalError
      ensures ret > 0 ==> err == NoError
      ensures ret <= 0 ==> err != NoError
      ensures old(script) != [] && old(script)[0].Takes? ==>
                ret == Min(old(script)[0].n, |data|) && (ret == 0 ==> err == FatalError)
      ensures old(script) != [] && old(script)[0] == Broken ==> ret < 0 && err == FatalError
      ensures old(script) != [] && (old(script)[0].WantWrite? || old(script)[0].Pending?) ==> ret < 0 && Retryable(err)
    {
      if script == [] {
        return -1, FatalError;
      }
      match script[0] {
        case Takes(n) =>
          ret := Min(n, |data|);
          err := if ret > 0 then NoError else FatalError;
          taken := taken + data[..ret];
        case WantWrite => ret, err := -1, WantWriteError;
        case Pending => ret, err := -1, PendingError;
        case Broken => ret, err := -1, FatalError;
      }
      script := script[1..];
    }
  }

  /** The call fails for good. */
  predicate Fatal(w: WriteOutcome) {
    w == Broken || w == Takes(0)
  }

  /** The bytes that calls are ready to take before one fails for good; between them any number of
      calls may ask to be retried. */
  function Offered(script: seq<WriteOutcome>): nat {
    if script == [] || Fatal(script[0]) then 0
    else (if script[0].Takes? then script[0].n else 0) + Offered(script[1..])
  }

  /** The same when the first call that takes anything is given `first` bytes at most. */
  function Carried(script: seq<WriteOutcome>, first: nat): nat {
    if script == [] || Fatal(script[0]) then 0
    else if script[0].Takes? then Min(script[0].n, first) + Offered(script[1..])
    else Carried(script[1..], first)
  }

  /** Being given all that is left is no restriction. */
  lemma {:induction false} CarriedAll(script: seq<WriteOutcome>, left: nat)
    ensures left <= Carried(script, left) <==> left <= Offered(script)
  {
    if script != [] && !Fatal(script[0]) && !script[0].Takes? {
      CarriedAll(script[1..], left);
    }
  }

  /** For every script: the connection has taken a prefix of the message, once and in order; the
      final test `ret == outputLen` holds exactly when that prefix is the whole message; the loop
      ends early only on an error that is not worth retrying. A first write of half the message
      (`halve`) changes nothing, except that half of a one-byte message is no byte at all, and
      then nothing is ever delivered. Otherwise everything is delivered exactly when the calls before
      one that fails for good take enough, however often calls have to be retried. */
  method ServerWrite(ssl: Connection, output: seq<byte>, halve: bool)
    returns (complete: bool, err: Error, ghost sent: nat)
    modifies ssl
    ensures sent <= |output| && ssl.taken == old(ssl.taken) + output[..sent]
    ensures output != [] ==> (complete <==> sent == |output|)
    ensures !complete ==> err == FatalError
    ensures halve && |output| == 1 ==> sent == 0
    ensures |output| > 1 || (output != [] && !halve) ==>
              (complete <==> |output| <= Carried(old(ssl.script), if halve then |output| / 2 else |output|))
    ensures output != [] && !halve ==> (complete <==> |output| <= Offered(old(ssl.script)))
  {
    ghost var first := if halve then |output| / 2 else |output|;
    ghost var enough := |output| <= Carried(ssl.script, first);
    CarriedAll(ssl.script, |output|);
    var pos, outputLen, len := 0, |output|, if halve then |output| / 2 else |output|;
    var ret: int := 0;
    err := WantWriteError;
    sent := 0;
    assert output[..0] == [];
    while Retryable(err)
      invariant pos + outputLen == |output| && len <= outputLen
      invariant pos == 0 && halve ==> len == |output| / 2
      invariant pos > 0 || !halve ==> len == outputLen
      invariant Retryable(err) ==> sent == pos && (pos == 0 || outputLen > 0)
      invariant !Retryable(err) ==> (err == NoError && ret == outputLen > 0 && sent == |output|) ||
                                    (err == FatalError && ret <= 0 && sent == pos && (pos == 0 || outputLen > 0))
      invariant sent <= |output| && ssl.taken == old(ssl.taken) + output[..sent]
      invariant halve && |output| == 1 ==> pos == 0 && sent == 0
      invariant Retryable(err) && len > 0 ==> (enough <==> outputLen <= Carried(ssl.script, len))
      invariant !Retryable(err) && first > 0 ==> (enough <==> err == NoError)
      invariant Retryable(err) && first > 0 ==> len > 0
      decreases |ssl.script|, if Retryable(err) then 1 else 0
    {
      ghost var script := ssl.script;
      ret, err := ssl.SslWrite(output[pos..pos + len]);
      if ret > 0 {
        PrefixMore(old(ssl.taken), output, pos, len, ret);
        sent := pos + ret;
        CarriedAll(script[1..], outputLen - ret);
        if ret != outputLen {
          pos := pos + ret;
          outputLen := outputLen - ret;
          len := outputLen;
          err := WantWriteError;
        }
      }
    }
    complete := ret == outputLen;
  }

  lemma PrefixMore(was: seq<byte>, output: seq<byte>, pos: nat, len: nat, n: nat)
    requires n <= len && pos + len <= |output|
    ensures was + output[..pos] + output[pos..pos + len][..n] == was + output[..pos + n]
  {
    assert output[..pos] + output[pos..pos + len][..n] == output[..pos + n];
  }

  // ---------------------------------------------------------------- ServerEchoData

  datatype ReadOutcome = Data(n: nat) | Retry | Closed | ReadBroken

  datatype EchoWrite = Full | Short(n: nat) | WritePending | WriteBroken

  /** What is left of the outcomes after reads of `len` bytes in all, if they come without one that
      loses data or ends the connection. Each read gets what its outcome carries, up to `len`. */
  function AfterBlock(script: seq<ReadOutcome>, len: nat): Option<seq<ReadOutcome>> {
    if len == 0 then Some(script)
    else if script == [] then None
    else
      match script[0]
      case Retry => AfterBlock(script[1..], len)
      case Data(n) => if n == 0 then None else AfterBlock(script[1..], len - Min(n, len))
      case Closed => None
      case ReadBroken => None
  }

  /** The reads give `left` bytes when they are asked for block by block. */
  predicate Feeds(script: seq<ReadOutcome>, left: nat, block: nat)
    requires block > 0
    decreases left
  {
    if left == 0 then true
    else
      match AfterBlock(script, Min(block, left))
      case None => false
      case Some(rest) => Feeds(rest, left - Min(block, left), block)
  }

  /** Every write is complete, at once or after some retries. */
  predicate WritesAll(script: seq<EchoWrite>) {
    forall i :: 0 <= i < |script| ==> script[i] == Full || script[i] == WritePending
  }

  /** `rest` is what is left of `script` after reads none of which ended the connection. */
  ghost predicate OpenUntil(script: seq<ReadOutcome>, rest: seq<ReadOutcome>) {
    && |rest| <= |script| && rest == script[|script| - |rest|..]
    && (forall i :: 0 <= i < |script| - |rest| ==> script[i] != Closed)
  }

  /** `rest` is what is left of `script` after the read that found the connection closed. */
  ghost predicate ClosedAt(script: seq<ReadOutcome>, rest: seq<ReadOutcome>) {
    (OpenUntil(script, rest) && rest == []) ||
    (|rest| < |script| && script[|script| - |rest| - 1] == Closed && OpenUntil(script, [Closed] + rest))
  }

  lemma OpenStep(script: seq<ReadOutcome>, mid: seq<ReadOutcome>)
    requires OpenUntil(script, mid)
    ensures mid != [] && mid[0] != Closed ==> OpenUntil(script, mid[1..])
    ensures mid != [] && mid[0] == Closed ==> ClosedAt(script, mid[1..])
    ensures mid == [] ==> ClosedAt(script, [])
  {
    if mid != [] {
      assert mid == [mid[0]] + mid[1..];
    }
  }

  /** Reads of one round after reads of the rounds before. */
  lemma OpenThen(script: seq<ReadOutcome>, mid: seq<ReadOutcome>, rest: seq<ReadOutcome>)
    requires OpenUntil(script, mid)
    ensures OpenUntil(mid, rest) ==> OpenUntil(script, rest)
    ensures ClosedAt(mid, rest) ==> ClosedAt(script, rest)
  {
    var d := |script| - |mid|;
    assert forall i :: 0 <= i < |mid| ==> mid[i] == script[d + i];
    forall r: seq<ReadOutcome> | OpenUntil(mid, r) ensures OpenUntil(script, r) {
      assert forall i :: d <= i < |script| - |r| ==> script[i] == mid[i - d];
    }
  }

  /** The far end of an echo: what it will send, what it has been sent, and how the calls go. When
      the outcomes are used up reads report the end of the connection and writes work. `faults`
      counts the reads and writes that lose something. */
  class EchoPeer {
    var incoming: seq<byte>
    var sent: seq<byte>
    var ready: seq<bool>
    var readScript: seq<ReadOutcome>
    var writeScript: seq<EchoWrite>
    ghost var faults: nat

    /** tcp_select with a timeout of one second. */
    method Select() returns (b: bool)
      modifies this`ready
      ensures old(ready) == [] ==> b && ready == []
      ensures old(ready) != [] ==> ready == old(ready)[1..]
    {
      b := true;
      if ready != [] {
        b, ready := ready[0], ready[1..];
      }
    }

    /** SSL_read into `buffer[at..at + len]`; a non-positive `ret` comes with an outcome. */
    method Read(buffer: array<byte>, at: nat, len: nat) returns (ret: int, why: ReadOutcome)
      requires at + len <= buffer.Length && len > 0
      modifies this`incoming, this`readScript, this`faults, buffer
      ensures ret <= len
      ensures ret > 0 ==> ret <= |old(incoming)| && incoming == old(incoming)[ret..] && faults == old(faults)
      ensures ret > 0 ==> buffer[..at] == old(buffer[..at]) && buffer[at..at + ret] == old(incoming)[..ret]
      ensures ret <= 0 ==> incoming == old(incoming) && buffer[..] == old(buffer[..]) && why != Data(0)
      ensures ret <= 0 ==> faults == old(faults) + (if why == ReadBroken then 1 else 0)
      ensures ret <= 0 ==> why == Retry || why == Closed || why == ReadBroken
      ensures old(readScript) == [] ==> readScript == [] && ret <= 0 && why == Closed
      ensures old(readScript) != [] ==>
                && readScript == old(readScript)[1..]
                && (old(readScript)[0] == Closed <==> ret <= 0 && why == Closed)
                && (old(readScript)[0] == Retry ==> ret <= 0 && why == Retry)
                && (old(readScript)[0].Data? && old(readScript)[0].n > 0 && old(incoming) != [] ==>
                      ret == Min(old(readScript)[0].n, Min(len, |old(incoming)|)))
    {
      ret, why := -1, Closed;
      if readScript != [] {
        why := readScript[0];
        readScript := readScript[1..];
        if why.Data? {
          ret := Min(why.n, Min(len, |incoming|));
          if ret > 0 {
            CopyInto(buffer, at, incoming[..ret]);
            incoming := incoming[ret..];
          } else {
            why := Retry;
          }
        }
        if why == ReadBroken {
          faults := faults + 1;
        }
      }
    }

    /** What a finished write has done: `ret` bytes went out, if it is positive. */
    ghost predicate Sent(was: seq<byte>, wasFaults: nat, data: seq<byte>, ret: int)
      reads this`sent, this`faults
    {
      var k := if ret > 0 then ret else 0;
      k <= |data| && sent == was + data[..k] && faults == wasFaults + (if k < |data| then 1 else 0)
    }

    /** SSL_write; `pending` asks for another try. */
    method Write(data: seq<byte>) returns (ret: int, pending: bool)
      modifies this`sent, this`writeScript, this`faults
      ensures pending ==> sent == old(sent) && faults == old(faults) && old(writeScript) != []
      ensures !pending ==> Sent(old(sent), old(faults), data, ret)
      ensures old(writeScript) == [] ==> writeScript == []
      ensures old(writeScript) != [] ==> writeScript == old(writeScript)[1..]
      ensures old(writeScript) != [] ==> (pending <==> old(writeScript)[0] == WritePending)
      ensures old(writeScript) == [] || old(writeScript)[0] == Full ==> ret == |data|
    {
      var how := Full;
      if writeScript != [] {
        how, writeScript := writeScript[0], writeScript[1..];
      }
      pending := how == WritePending;
      match how {
        case Full => ret := |data|;
        case Short(n) => ret := Min(n, |data|);
        case WritePending => ret := -1;
        case WriteBroken => ret := -1;
      }
      ghost var k := if ret > 0 then ret else 0;
      if ret > 0 {
        sent := sent + data[..ret];
      }
      assert sent == old(sent) + data[..k];
      if !pending && k < |data| {
        faults := faults + 1;
      }
    }
  }

  /** The inner read loop: fills `len` bytes, or one read's worth without a throughput. It fills them
      when the peer feeds it enough, and stops as closed only on a read that found the peer closed. */
  method ReadBlock(peer: EchoPeer, buffer: array<byte>, len: nat, throughput: nat)
    returns (closed: bool, rxPos: nat)
    requires 0 < len <= buffer.Length
    modifies peer`incoming, peer`readScript, peer`faults, buffer
    ensures rxPos <= len && rxPos <= |old(peer.incoming)| && peer.faults >= old(peer.faults)
    ensures peer.incoming == old(peer.incoming)[rxPos..] && buffer[..rxPos] == old(peer.incoming)[..rxPos]
    ensures closed && throughput == 0 ==> rxPos == 0
    ensures !closed && peer.faults == old(peer.faults) ==> rxPos > 0 && (throughput > 0 ==> rxPos == len)
    ensures !closed && peer.faults > old(peer.faults) ==> rxPos < len
    ensures |peer.readScript| < |old(peer.readScript)| || closed
    ensures if closed then ClosedAt(old(peer.readScript), peer.readScript)
            else OpenUntil(old(peer.readScript), peer.readScript)
    ensures throughput > 0 && AfterBlock(old(peer.readScript), len).Some? && len <= |old(peer.incoming)| ==>
              !closed && rxPos == len && Some(peer.readScript) == AfterBlock(old(peer.readScript), len)
  {
    hide ClosedAt, OpenUntil;
    closed, rxPos := false, 0;
    ghost var incoming := peer.incoming;
    ghost var fed := throughput > 0 && AfterBlock(peer.readScript, len).Some? && len <= |incoming|;
    assert incoming[0..] == incoming;
    OpenStart(peer.readScript);
    while rxPos < len
      invariant rxPos <= len && rxPos <= |incoming| && peer.faults == old(peer.faults) && !closed
      invariant peer.incoming == incoming[rxPos..] && buffer[..rxPos] == incoming[..rxPos]
      invariant throughput == 0 ==> rxPos == 0
      invariant rxPos > 0 ==> |peer.readScript| < |old(peer.readScript)|
      invariant |peer.readScript| <= |old(peer.readScript)|
      invariant OpenUntil(old(peer.readScript), peer.readScript)
      invariant fed ==> AfterBlock(peer.readScript, len - rxPos) == AfterBlock(old(peer.readScript), len)
      decreases |peer.readScript|, len - rxPos
    {
      OpenStep(old(peer.readScript), peer.readScript);
      var ret, why := peer.Read(buffer, rxPos, len - rxPos);
      if ret <= 0 {
        if why == ReadBroken {
          break;
        }
        if why == Closed {
          closed := true;
          return;
        }
      } else {
        BlockMore(incoming, rxPos, ret);
        assert buffer[..rxPos + ret] == buffer[..rxPos] + buffer[rxPos..rxPos + ret];
        rxPos := rxPos + ret;
        if throughput == 0 {
          break;
        }
      }
    }
  }

  lemma OpenStart(script: seq<ReadOutcome>)
    ensures OpenUntil(script, script)
  {
  }

  lemma BlockMore(incoming: seq<byte>, at: nat, n: nat)
    requires at + n <= |incoming|
    ensures incoming[..at] + incoming[at..][..n] == incoming[..at + n]
    ensures incoming[at..][n..] == incoming[at + n..]
  {
  }

  /** The inner write loop. */
  method WriteBlock(peer: EchoPeer, data: seq<byte>) returns (ret: int, ghost k: nat)
    modifies peer`sent, peer`writeScript, peer`faults
    ensures k <= |data| && peer.sent == old(peer.sent) + data[..k]
    ensures peer.faults == old(peer.faults) + (if k < |data| then 1 else 0)
    ensures WritesAll(old(peer.writeScript)) ==> k == |data| && WritesAll(peer.writeScript)
  {
    var pending;
    ret, pending := peer.Write(data);
    while pending
      invariant WritesAll(old(peer.writeScript)) ==> WritesAll(peer.writeScript) && (!pending ==> ret == |data|)
      invariant pending ==> peer.sent == old(peer.sent) && peer.faults == old(peer.faults)
      invariant !pending ==> peer.Sent(old(peer.sent), old(peer.faults), data, ret)
      decreases |peer.writeScript|, if pending then 1 else 0
    {
      ret, pending := peer.Write(data);
    }
    k := if ret > 0 then ret else 0;
  }

  /** One round: a block read, and what was read written back. */
  method EchoRound(peer: EchoPeer, buffer: array<byte>, len: nat, throughput: nat)
    returns (closed: bool, ghost k: nat)
    requires 0 < len <= buffer.Length
    modifies peer`incoming, peer`sent, peer`readScript, peer`writeScript, peer`faults, buffer
    ensures k <= len && |peer.sent| == |old(peer.sent)| + k && peer.faults >= old(peer.faults)
    ensures closed ==> k == 0 && peer.sent == old(peer.sent)
    ensures closed && throughput == 0 ==> peer.incoming == old(peer.incoming)
    ensures !closed ==> |peer.readScript| < |old(peer.readScript)|
    ensures !closed && peer.faults == old(peer.faults) ==>
              && k <= |old(peer.incoming)| && (throughput > 0 ==> k == len)
              && peer.sent == old(peer.sent) + old(peer.incoming)[..k] && peer.incoming == old(peer.incoming)[k..]
    ensures !closed && peer.faults > old(peer.faults) ==> k < len
    ensures if closed then ClosedAt(old(peer.readScript), peer.readScript)
            else OpenUntil(old(peer.readScript), peer.readScript)
    ensures WritesAll(old(peer.writeScript)) ==> WritesAll(peer.writeScript)
    ensures throughput > 0 && AfterBlock(old(peer.readScript), len).Some? && len <= |old(peer.incoming)| ==>
              && !closed && Some(peer.readScript) == AfterBlock(old(peer.readScript), len)
              && peer.incoming == old(peer.incoming)[len..]
              && (WritesAll(old(peer.writeScript)) ==> peer.faults == old(peer.faults))
  {
    hide ClosedAt, OpenUntil, AfterBlock, WritesAll;
    ghost var incoming := peer.incoming;
    var rxPos;
    k := 0;
    closed, rxPos := ReadBlock(peer, buffer, len, throughput);
    if !closed {
      var data := buffer[..Min(len, rxPos)];
      var ret;
      ret, k := WriteBlock(peer, data);
      assert data == incoming[..rxPos];
      assert data[..|data|] == data;
    }
  }

  /** With a throughput the loop runs for ceil(throughput / block) rounds, whatever happens, and
      what has been echoed is the next `throughput` bytes of the input, in order, exactly when no
      read broke and no write fell short; otherwise fewer bytes went back although the return value
      is still 0. It returns early exactly when a read finds the peer closed. So a peer that sends
      enough and keeps taking bytes gets all of them back. Without a throughput it echoes until the
      peer closes. */
  method ServerEchoData(peer: EchoPeer, echoData: bool, block: nat, throughput: nat)
    returns (ret: int, rounds: nat, ghost echoed: nat)
    requires 0 < block && throughput < 0x8000_0000
    modifies peer
    ensures ret == 0 || ret == ZERO_RETURN
    ensures ret == ZERO_RETURN ==> ClosedAt(old(peer.readScript), peer.readScript)
    ensures ret == 0 ==> OpenUntil(old(peer.readScript), peer.readScript)
    ensures !echoData && throughput > 0 && Feeds(old(peer.readScript), throughput, block) &&
            throughput <= |old(peer.incoming)| ==>
              ret == 0 &&
              (WritesAll(old(peer.writeScript)) ==> echoed == throughput && peer.faults == old(peer.faults))
    ensures peer.faults >= old(peer.faults)
    ensures |peer.sent| == |old(peer.sent)| + echoed
    ensures peer.faults == old(peer.faults) ==>
              && echoed <= |old(peer.incoming)|
              && peer.sent == old(peer.sent) + old(peer.incoming)[..echoed]
              && (ret == 0 || throughput == 0 ==> peer.incoming == old(peer.incoming)[echoed..])
    ensures !echoData && throughput > 0 && ret == 0 ==>
              && rounds == (throughput + block - 1) / block
              && (echoed == throughput <==> peer.faults == old(peer.faults))
              && echoed <= throughput
    ensures echoData && throughput == 0 ==> ret == ZERO_RETURN
    ensures echoData && throughput > 0 ==> ret == 0 && rounds == 0 && echoed == 0
  {
    hide Paced, ClosedAt, OpenUntil, AfterBlock, WritesAll;
    ret, rounds, echoed := 0, 0, 0;
    ghost var fed := !echoData && Feeds(peer.readScript, throughput, block) && throughput <= |peer.incoming|;
    ghost var writesAll := WritesAll(peer.writeScript);
    OpenStart(peer.readScript);
    PacedStart(block, throughput);
    var buffer := new byte[block];
    var xferBytes: nat := 0;
    ghost var incoming, was, wasFaults := peer.incoming, peer.sent, peer.faults;
    assert incoming[0..] == incoming && was + incoming[..0] == was;
    while (echoData && throughput == 0) || (!echoData && xferBytes < throughput)
      invariant peer.faults >= wasFaults && |peer.sent| == |was| + echoed
      invariant peer.faults == wasFaults ==>
                  echoed <= |incoming| && peer.sent == was + incoming[..echoed] && peer.incoming == incoming[echoed..]
      invariant throughput > 0 ==> xferBytes <= throughput && echoed <= xferBytes
      invariant throughput > 0 ==> (echoed == xferBytes <==> peer.faults == wasFaults)
      invariant throughput > 0 ==> Paced(rounds, block, xferBytes, throughput)
      invariant echoData && throughput > 0 ==> rounds == 0 && echoed == 0
      invariant OpenUntil(old(peer.readScript), peer.readScript)
      invariant writesAll ==> WritesAll(peer.writeScript)
      invariant fed && throughput > 0 ==>
                  && Feeds(peer.readScript, throughput - xferBytes, block) && peer.incoming == incoming[xferBytes..]
                  && (writesAll ==> peer.faults == wasFaults)
      decreases |peer.readScript|, |peer.ready|
    {
      var selected := peer.Select();
      if selected {
        var len := if throughput > 0 then Min(block, throughput - xferBytes) else block;
        ghost var script, before := peer.readScript, peer.incoming;
        ghost var k;
        var closed;
        closed, k := EchoRound(peer, buffer, len, throughput);
        OpenThen(old(peer.readScript), script, peer.readScript);
        if closed {
          return ZERO_RETURN, rounds, echoed;
        }
        if peer.faults == wasFaults {
          EchoedMore(was, incoming, echoed, k);
        }
        if fed && throughput > 0 {
          BlockMore(incoming, xferBytes, len);
        }
        echoed := echoed + k;
        if throughput > 0 {
          PacedNext(rounds, block, xferBytes, throughput);
        }
        rounds := rounds + 1;
        xferBytes := xferBytes + len;
      }
    }
    ret := 0;
    if !echoData && throughput > 0 {
      PacedEnd(rounds, block, throughput);
    }
  }

  lemma EchoedMore(was: seq<byte>, incoming: seq<byte>, echoed: nat, n: nat)
    requires echoed + n <= |incoming|
    ensures was + incoming[..echoed] + incoming[echoed..][..n] == was + incoming[..echoed + n]
    ensures incoming[echoed..][n..] == incoming[echoed + n..]
  {
    BlockMore(incoming, echoed, n);
  }

  function Times(rounds: nat, block: nat): nat {
    rounds * block
  }

  lemma RoundsNext(rounds: nat, block: nat)
    ensures Times(rounds + 1, block) == Times(rounds, block) + block && Times(0, block) == 0
  {
    assert (rounds + 1) * block == rounds * block + block;
  }

  /** Every round but the last moves a whole block. */
  ghost predicate Paced(rounds: nat, block: nat, xferBytes: nat, throughput: nat) {
    && xferBytes <= throughput && xferBytes <= Times(rounds, block)
    && (xferBytes < throughput ==> xferBytes == Times(rounds, block))
    && (xferBytes > 0 ==> rounds > 0 && Times(rounds - 1, block) < xferBytes)
  }

  lemma PacedStart(block: nat, throughput: nat)
    ensures Paced(0, block, 0, throughput)
  {
  }

  lemma PacedNext(rounds: nat, block: nat, xferBytes: nat, throughput: nat)
    requires block > 0 && xferBytes < throughput && Paced(rounds, block, xferBytes, throughput)
    ensures Paced(rounds + 1, block, xferBytes + Min(block, throughput - xferBytes), throughput)
  {
    hide Times;
    RoundsNext(rounds, block);
  }

  lemma PacedEnd(rounds: nat, block: nat, throughput: nat)
    requires block > 0 && throughput > 0 && Paced(rounds, block, throughput, throughput)
    ensures rounds == (throughput + block - 1) / block
  {
    CeilingRounds(rounds, block, throughput);
  }

  lemma CeilingRounds(rounds: nat, block: nat, throughput: nat)
    requires block > 0 && rounds > 0 && Times(rounds - 1, block) < throughput <= Times(rounds, block)
    ensures rounds == (throughput + block - 1) / block
  {
    RoundsNext(rounds - 1, block);
    DivModUnique(throughput + block - 1, block, rounds, throughput + block - 1 - rounds * block);
  }
}
