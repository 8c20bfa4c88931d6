/** The accept loop of ocspResponder in src/ocsp/clu_ocsp.c, run against any script of outcomes. */
module OcspServer {
  import opened Bytes
  import opened Environment

  const INVALID_SOCKET := -1

  /** Return values of wc_OcspResponder_WriteResponse that the loop tells apart. */
  datatype WriteResult = WriteOk | AsnParse | AsnSigHash | AsnNoSigner | CertUnknown | OtherError

  datatype OcspStatus = Successful | MalformedRequest | InternalError | Unauthorized

  /** How reading a request ends: with a request, without one, or with one that is answered by an
      error of the transport's own. */
  datatype ReadResult = ReadOk | ReadFails | BadRequest | WrongMethod

  /** What the surroundings do in one round: whether a connection comes, how reading the request ends,
      what the library makes of it, whether an error answer can be encoded, whether sending works. */
  datatype Round = Round(accepted: bool, read: ReadResult, write: WriteResult, errorEncodes: bool, sent: bool)

  /** What reaches a client. */
  datatype Reply = Response(id: nat, status: OcspStatus) | HttpError(id: nat, code: nat)

  /** Sockets by identity: every socket opened gets a number never used again. */
  class Net {
    ghost var open: set<nat>
    ghost var closed: seq<nat>
    var next: nat
    ghost var replies: seq<Reply>

    ghost predicate Valid()
      reads this
    {
      forall id :: id in open ==> id < next
    }

    method Accept(ok: bool) returns (fd: int)
      requires Valid()
      modifies this
      ensures Valid() && closed == old(closed) && replies == old(replies)
      ensures !ok ==> fd == INVALID_SOCKET && open == old(open) && next == old(next)
      ensures ok ==> fd == old(next) && next == old(next) + 1 && open == old(open) + {old(next)}
    {
      fd := INVALID_SOCKET;
      if ok {
        fd := next;
        open := open + {next};
        next := next + 1;
      }
    }

    method Close(fd: int)
      requires Valid() && fd >= 0 && fd in open
      modifies this
      ensures Valid() && closed == old(closed) + [fd] && open == old(open) - {fd}
      ensures next == old(next) && replies == old(replies)
    {
      open, closed := open - {fd}, closed + [fd];
    }

    method Send(fd: int, reply: Reply)
      requires Valid() && fd >= 0 && fd in open && reply.id == fd
      modifies this
      ensures Valid() && replies == old(replies) + [reply]
      ensures open == old(open) && closed == old(closed) && next == old(next)
    {
      replies := replies + [reply];
    }
  }

  function StatusFor(w: WriteResult): OcspStatus {
    match w
    case WriteOk => Successful
    case AsnParse => MalformedRequest
    case AsnSigHash => InternalError
    case AsnNoSigner => Unauthorized
    case CertUnknown => Unauthorized
    case OtherError => InternalError
  }

  /** A round that serves a request: every step works. */
  predicate Serves(r: Round) {
    r.accepted && r.read == ReadOk && r.write == WriteOk && r.sent
  }

  function CountServed(script: seq<Round>): nat {
    if script == [] then 0
    else CountServed(script[..|script| - 1]) + (if Serves(script[|script| - 1]) then 1 else 0)
  }

  /** What a round puts on the wire for connection `id`. */
  function RepliesIn(r: Round, id: nat): seq<Reply> {
    if !r.accepted || r.read == ReadFails then []
    else if r.read == BadRequest then [HttpError(id, 400)]
    else if r.read == WrongMethod then [HttpError(id, 405)]
    else if r.write != WriteOk && !r.errorEncodes then [HttpError(id, 500)]
    else if r.sent then [Response(id, StatusFor(r.write))]
    else []
  }

  /** The answer to a request that was read: its status tells the four kinds of outcome apart. */
  predicate Answers(write: WriteResult, id: nat, reply: Reply) {
    && reply.Response? && reply.id == id
    && (reply.status == Successful <==> write == WriteOk)
    && (reply.status == MalformedRequest <==> write == AsnParse)
    && (reply.status == Unauthorized <==> write == AsnNoSigner || write == CertUnknown)
    && (reply.status == InternalError <==> write == AsnSigHash || write == OtherError)
  }

  /** What a round puts on the wire, case by case. */
  lemma RepliesCases(r: Round, id: nat)
    ensures !r.accepted || r.read == ReadFails ==> RepliesIn(r, id) == []
    ensures r.accepted && r.read == BadRequest ==> RepliesIn(r, id) == [HttpError(id, 400)]
    ensures r.accepted && r.read == WrongMethod ==> RepliesIn(r, id) == [HttpError(id, 405)]
    ensures r.accepted && r.read == ReadOk && r.write != WriteOk && !r.errorEncodes ==>
              RepliesIn(r, id) == [HttpError(id, 500)]
    ensures r.accepted && r.read == ReadOk && (r.write == WriteOk || r.errorEncodes) ==>
              if !r.sent then RepliesIn(r, id) == []
              else |RepliesIn(r, id)| == 1 && Answers(r.write, id, RepliesIn(r, id)[0])
  {
  }

  function CountAccepted(script: seq<Round>): nat {
    if script == [] then 0
    else CountAccepted(script[..|script| - 1]) + (if script[|script| - 1].accepted then 1 else 0)
  }

  /** Everything the rounds put on the wire when the first connection gets number `first`. */
  function RepliesOf(script: seq<Round>, first: nat): seq<Reply> {
    if script == [] then []
    else
      var init := script[..|script| - 1];
      RepliesOf(init, first) + RepliesIn(script[|script| - 1], first + CountAccepted(init))
  }

  function CountSuccessful(replies: seq<Reply>): nat {
    if replies == [] then 0
    else
      var r := replies[|replies| - 1];
      CountSuccessful(replies[..|replies| - 1]) + (if r.Response? && r.status == Successful then 1 else 0)
  }

  /** Before each of the first `n` rounds fewer than `limit` requests had been served. */
  ghost predicate NotReached(script: seq<Round>, n: nat, limit: int)
    requires n <= |script|
  {
    forall k :: 0 <= k < n ==> CountServed(script[..k]) < limit
  }

  lemma NotReachedNext(script: seq<Round>, n: nat, limit: int)
    requires n < |script| && NotReached(script, n, limit) && CountServed(script[..n]) < limit
    ensures NotReached(script, n + 1, limit)
  {
  }

  /** lo, lo + 1, ..., hi - 1. */
  function Range(lo: nat, hi: nat): (s: seq<nat>)
    requires lo <= hi
    ensures |s| == hi - lo && forall i :: 0 <= i < |s| ==> s[i] == lo + i
  {
    seq(hi - lo, i => lo + i)
  }

  lemma CountSuccessfulAppend(a: seq<Reply>, b: seq<Reply>)
    requires |b| <= 1
    ensures CountSuccessful(a + b) ==
            CountSuccessful(a) + (if |b| == 1 && b[0].Response? && b[0].status == Successful then 1 else 0)
  {
    if b == [] {
      assert a + b == a;
    } else {
      assert (a + b)[..|a + b| - 1] == a;
    }
  }

  /** transportReadRequest: a request that cannot be used is answered here. */
  method TransportReadRequest(net: Net, clientfd: nat, read: ReadResult) returns (readable: bool)
    requires net.Valid() && clientfd in net.open
    modifies net
    ensures net.Valid() && net.open == old(net.open) && net.closed == old(net.closed) && net.next == old(net.next)
    ensures readable <==> read == ReadOk
    ensures net.replies == old(net.replies) + (match read
                                               case BadRequest => [HttpError(clientfd, 400)]
                                               case WrongMethod => [HttpError(clientfd, 405)]
                                               case _ => [])
  {
    match read {
      case BadRequest => net.Send(clientfd, HttpError(clientfd, 400));
      case WrongMethod => net.Send(clientfd, HttpError(clientfd, 405));
      case _ =>
    }
    readable := read == ReadOk;
  }

  /** Serves one accepted connection; `counted` tells whether it uses up one of the requests. */
  method HandleClient(net: Net, clientfd: nat, r: Round) returns (counted: bool, sent: bool)
    requires net.Valid() && clientfd in net.open && r.accepted
    modifies net
    ensures net.Valid() && net.open == old(net.open) && net.closed == old(net.closed) && net.next == old(net.next)
    ensures net.replies == old(net.replies) + RepliesIn(r, clientfd)
    ensures r.read == ReadOk && r.sent && (r.write == WriteOk || r.errorEncodes) ==>
              && |net.replies| == |old(net.replies)| + 1
              && Answers(r.write, clientfd, net.replies[|old(net.replies)|])
    ensures counted == Serves(r)
    ensures counted ==> sent
  {
    counted, sent := false, false;
    var readable := TransportReadRequest(net, clientfd, r.read);
    if !readable {
      return;
    }
    var ocspStatus := Successful;
    if r.write != WriteOk {
      ocspStatus := StatusFor(r.write);
      if !r.errorEncodes {
        net.Send(clientfd, HttpError(clientfd, 500));
        return;
      }
    }
    if !r.sent {
      return;
    }
    net.Send(clientfd, Response(clientfd, ocspStatus));
    sent := true;
    counted := ocspStatus == Successful;
  }

  /** The loop and the cleanup after it. The signal to shut down comes at the end of the script, so
      every moment for it is covered. Over every script: each accepted connection is closed exactly
      once, in order, and nothing stays open; what went over the wire is what the rounds call for;
      the counter is the number of served rounds; it never passes a positive limit, and the loop
      stops at the first round that reaches it. */
  method Serve(net: Net, script: seq<Round>, nrequest: int) returns (requestsProcessed: int, rounds: nat)
    requires net.Valid()
    modifies net
    ensures net.Valid() && net.open == old(net.open)
    ensures rounds <= |script| && net.next == old(net.next) + CountAccepted(script[..rounds])
    ensures net.closed == old(net.closed) + Range(old(net.next), net.next)
    ensures net.replies == old(net.replies) + RepliesOf(script[..rounds], old(net.next))
    ensures requestsProcessed == CountServed(script[..rounds])
    ensures nrequest > 0 ==> requestsProcessed <= nrequest
    ensures rounds == |script| || (nrequest > 0 && requestsProcessed == nrequest) || nrequest < 0
    ensures nrequest > 0 ==> NotReached(script, rounds, nrequest)
    ensures nrequest < 0 ==> rounds == 0
  {
    hide NotReached, Range, RepliesIn, CountServed, Serves, RepliesOf, CountAccepted;
    requestsProcessed, rounds := 0, 0;
    var clientfd := INVALID_SOCKET;
    ghost var was, from, closed := net.replies, net.next, net.closed;
    StartCounts(script, nrequest, from);
    assert was == was + [] && closed == closed + [];
    while !(rounds == |script|) && (nrequest == 0 || requestsProcessed < nrequest)
      invariant net.Valid() && net.open == old(net.open) && clientfd == INVALID_SOCKET
      invariant rounds <= |script| && net.next == from + CountAccepted(script[..rounds])
      invariant net.closed == closed + Range(from, net.next)
      invariant net.replies == was + RepliesOf(script[..rounds], from)
      invariant requestsProcessed == CountServed(script[..rounds])
      invariant nrequest > 0 ==> requestsProcessed <= nrequest && NotReached(script, rounds, nrequest)
      invariant nrequest < 0 ==> rounds == 0
      decreases |script| - rounds
    {
      var round := script[rounds];
      RoundCounts(script, rounds, from, was);
      if nrequest > 0 {
        NotReachedNext(script, rounds, nrequest);
      }
      rounds := rounds + 1;
      clientfd := net.Accept(round.accepted);
      if clientfd != INVALID_SOCKET {
        var counted, sent := HandleClient(net, clientfd, round);
        if counted {
          requestsProcessed := requestsProcessed + 1;
        }
        RangeNext(closed, from, net.next - 1);
        if sent && nrequest > 0 && requestsProcessed >= nrequest {
          break;
        }
        net.Close(clientfd);
      }
      clientfd := INVALID_SOCKET;
    }
    if clientfd != INVALID_SOCKET {
      net.Close(clientfd);
    }
  }

  /** Listening, serving, and the cleanup: the listening socket is closed last, and only once. The
      counter is the number of successful responses that reached a client. */
  method Run(net: Net, listens: bool, script: seq<Round>, nrequest: int) returns (ret: int, requestsProcessed: int)
    requires net.Valid()
    modifies net
    ensures net.Valid() && net.open == old(net.open)
    ensures !listens ==> ret == FATAL_ERROR && net.closed == old(net.closed) && net.replies == old(net.replies)
    ensures listens ==>
              && ret == SUCCESS && net.next > old(net.next)
              && net.closed == old(net.closed) + Range(old(net.next) + 1, net.next) + [old(net.next)]
              && old(net.replies) <= net.replies
              && requestsProcessed == CountSuccessful(net.replies[|old(net.replies)|..])
              && (nrequest > 0 ==> requestsProcessed <= nrequest)
  {
    hide Range, CountSuccessful, CountServed, RepliesOf, CountAccepted, NotReached;
    requestsProcessed := 0;
    var sockfd := net.Accept(listens);
    if sockfd == INVALID_SOCKET {
      return FATAL_ERROR, 0;
    }
    var rounds;
    requestsProcessed, rounds := Serve(net, script, nrequest);
    ServedIsSuccessful(script[..rounds], sockfd + 1);
    net.Close(sockfd);
    ret := SUCCESS;
  }

  /** Counting rounds that serve and counting successful responses on the wire is the same, for every
      script: failed reads, failed sends and error answers never count. */
  lemma {:induction false} ServedIsSuccessful(script: seq<Round>, first: nat)
    ensures CountSuccessful(RepliesOf(script, first)) == CountServed(script)
  {
    hide RepliesIn, Serves, CountAccepted;
    if script == [] {
      assert RepliesOf(script, first) == [];
    } else {
      hide CountSuccessful;
      var init, last := script[..|script| - 1], script[|script| - 1];
      ServedIsSuccessful(init, first);
      var id := first + CountAccepted(init);
      assert RepliesOf(script, first) == RepliesOf(init, first) + RepliesIn(last, id);
      assert CountServed(script) == CountServed(init) + (if Serves(last) then 1 else 0);
      hide RepliesOf, CountServed;
      CountReplies(RepliesOf(init, first), last, id);
    }
  }

  lemma StartCounts(script: seq<Round>, nrequest: int, from: nat)
    ensures CountServed(script[..0]) == 0 && CountAccepted(script[..0]) == 0 && RepliesOf(script[..0], from) == []
    ensures NotReached(script, 0, nrequest) && Range(from, from) == []
  {
  }

  lemma NoReplies(r: Round, id: nat)
    ensures !r.accepted ==> RepliesIn(r, id) == []
  {
  }

  lemma RoundCounts(script: seq<Round>, n: nat, from: nat, was: seq<Reply>)
    requires n < |script|
    ensures CountServed(script[..n + 1]) == CountServed(script[..n]) + (if Serves(script[n]) then 1 else 0)
    ensures CountAccepted(script[..n + 1]) == CountAccepted(script[..n]) + (if script[n].accepted then 1 else 0)
    ensures was + RepliesOf(script[..n + 1], from) ==
            was + RepliesOf(script[..n], from) + RepliesIn(script[n], from + CountAccepted(script[..n]))
    ensures !script[n].accepted ==>
              !Serves(script[n]) && was + RepliesOf(script[..n + 1], from) == was + RepliesOf(script[..n], from)
  {
    hide RepliesIn;
    assert script[..n + 1][..n] == script[..n];
    assert !script[n].accepted ==> RepliesIn(script[n], from + CountAccepted(script[..n])) == [] by {
      NoReplies(script[n], from + CountAccepted(script[..n]));
    }
    var more := RepliesOf(script[..n], from);
    var last := RepliesIn(script[n], from + CountAccepted(script[..n]));
    assert was + (more + last) == was + more + last;
  }

  lemma CountReplies(replies: seq<Reply>, r: Round, id: nat)
    ensures CountSuccessful(replies + RepliesIn(r, id)) == CountSuccessful(replies) + (if Serves(r) then 1 else 0)
  {
    hide CountSuccessful;
    CountSuccessfulAppend(replies, RepliesIn(r, id));
  }

  lemma RangeNext(closed: seq<nat>, lo: nat, hi: nat)
    requires lo <= hi
    ensures closed + Range(lo, hi + 1) == closed + Range(lo, hi) + [hi]
  {
  }
}
