/** NonBlockingSSL_Connect of src/client/client.c without DTLS, against any script of outcomes. */
module TlsClient {
  import opened Bytes

  const MAX_NON_BLOCK_SEC := 10

  /** What a wolfSSL_connect call comes back with. */
  datatype Outcome = Connected | WantRead | WantWrite | Failed

  /** What a select for one second comes back with. */
  datatype Selected = RecvReady | SendReady | ErrorReady | Timeout | SelectFail

  /** One call made by the loop, with its outcome. */
  datatype Call = Connect(outcome: Outcome) | SelectRecv(sel: Selected) | SelectSend(sel: Selected)

  /** The connection being made: outcomes to come, and the calls made so far. When the outcomes of
      a kind are used up, connects fail and selects time out. */
  class Link {
    var connects: seq<Outcome>
    var selects: seq<Selected>
    ghost var log: seq<Call>

    method DoConnect() returns (o: Outcome)
      modifies this
      ensures log == old(log) + [Connect(o)] && selects == old(selects)
      ensures if old(connects) == [] then o == Failed && connects == [] else connects == old(connects)[1..]
    {
      o := Failed;
      if connects != [] {
        o, connects := connects[0], connects[1..];
      }
      log := log + [Connect(o)];
    }

    method DoSelect(send: bool) returns (s: Selected)
      modifies this
      ensures log == old(log) + [if send then SelectSend(s) else SelectRecv(s)] && connects == old(connects)
      ensures if old(selects) == [] then s == Timeout && selects == [] else selects == old(selects)[1..]
    {
      s := Timeout;
      if selects != [] {
        s, selects := selects[0], selects[1..];
      }
      log := log + [if send then SelectSend(s) else SelectRecv(s)];
    }
  }

  predicate IsTimeout(c: Call) {
    !c.Connect? && c.sel == Timeout
  }

  /** The last call was a select that failed. */
  predicate SelectFailed(log: seq<Call>) {
    log != [] && !log[|log| - 1].Connect? && log[|log| - 1].sel == SelectFail
  }

  /** How many timeouts in a row end the log. */
  function TrailingTimeouts(log: seq<Call>): (n: nat)
    ensures n <= |log|
  {
    if log == [] || !IsTimeout(log[|log| - 1]) then 0 else 1 + TrailingTimeouts(log[..|log| - 1])
  }

  function Max(a: nat, b: nat): nat {
    if a > b then a else b
  }

  /** The longest run of timeouts anywhere in the log. */
  function LongestRun(log: seq<Call>): (n: nat)
    ensures TrailingTimeouts(log) <= n
  {
    if log == [] then 0
    else
      var before := LongestRun(log[..|log| - 1]);
      Max(TrailingTimeouts(log), before)
  }

  /** It bounds every stretch of consecutive timeouts, wherever it stands. */
  lemma {:induction false} LongestRunBounds(log: seq<Call>, lo: nat, hi: nat)
    requires lo <= hi <= |log| && forall i :: lo <= i < hi ==> IsTimeout(log[i])
    ensures hi - lo <= LongestRun(log)
  {
    if hi < |log| {
      LongestRunBounds(log[..|log| - 1], lo, hi);
    } else {
      TrailingBounds(log, lo);
    }
  }

  lemma {:induction false} TrailingBounds(log: seq<Call>, lo: nat)
    requires lo <= |log| && forall i :: lo <= i < |log| ==> IsTimeout(log[i])
    ensures |log| - lo <= TrailingTimeouts(log)
  {
    if lo < |log| {
      TrailingBounds(log[..|log| - 1], lo);
    }
  }

  function LastConnect(log: seq<Call>): Outcome {
    if log == [] then Failed
    else
      match log[|log| - 1]
      case Connect(o) => o
      case SelectRecv(_) => LastConnect(log[..|log| - 1])
      case SelectSend(_) => LastConnect(log[..|log| - 1])
  }

  /** What the loop does next after a call: wait for the direction the last connect asked for, wait
      for data again after a timeout, connect again when the socket is ready. */
  predicate MayFollow(a: Call, b: Call) {
    match a
    case Connect(o) => (o == WantRead && b.SelectRecv?) || (o == WantWrite && b.SelectSend?)
    case SelectRecv(s) => if s == Timeout then b.SelectRecv? else s != SelectFail && b.Connect?
    case SelectSend(s) => if s == Timeout then b.SelectRecv? else s != SelectFail && b.Connect?
  }

  ghost predicate InOrder(log: seq<Call>) {
    forall i :: 0 < i < |log| ==> MayFollow(log[i - 1], log[i])
  }

  /** It waits to send exactly after a connect that asks for that, to receive exactly after one that asks
      for that or after a timeout, and connects exactly when a socket is ready. */
  ghost predicate WaitsAsAsked(log: seq<Call>) {
    forall i :: 0 <= i < |log| - 1 ==>
                  && (log[i + 1].SelectSend? <==> log[i] == Connect(WantWrite))
                  && (log[i + 1].SelectRecv? <==> log[i] == Connect(WantRead) || IsTimeout(log[i]))
                  && (log[i + 1].Connect? <==> !log[i].Connect? && log[i].sel in {RecvReady, SendReady, ErrorReady})
  }

  lemma OrderMeans(log: seq<Call>)
    ensures InOrder(log) ==> WaitsAsAsked(log)
  {
  }

  lemma LogNext(log: seq<Call>, c: Call)
    ensures log != [] && InOrder(log) && MayFollow(log[|log| - 1], c) ==> InOrder(log + [c])
    ensures var next := log + [c];
            && TrailingTimeouts(next) == (if IsTimeout(c) then TrailingTimeouts(log) + 1 else 0)
            && LongestRun(next) == Max(TrailingTimeouts(next), LongestRun(log))
            && LastConnect(next) == (if c.Connect? then c.outcome else LastConnect(log))
  {
    var next := log + [c];
    assert next[..|next| - 1] == log;
  }

  lemma FirstCall(o: Outcome)
    ensures InOrder([Connect(o)])
    ensures TrailingTimeouts([Connect(o)]) == 0 && LongestRun([Connect(o)]) == 0 && LastConnect([Connect(o)]) == o
  {
    assert LongestRun([]) == 0;
    assert [Connect(o)][..0] == [];
  }

  /** For every script: each call made is the one the call before it asks for; success is returned
      exactly when the last connect succeeded; no stretch of
      one-second timeouts is longer than eleven; and without success the loop gave up for one of
      three reasons: the last connect failed for good, a select failed, or eleven timeouts in a row
      had passed since the last connect. */
  method NonBlockingConnect(link: Link) returns (ret: bool)
    requires link.log == []
    modifies link
    ensures InOrder(link.log)
    ensures WaitsAsAsked(link.log)
    ensures ret <==> LastConnect(link.log) == Connected
    ensures LongestRun(link.log) <= 11
    ensures link.log != [] && link.log[0].Connect?
    ensures !ret ==>
              var last := link.log[|link.log| - 1];
              last == Connect(Failed) || SelectFailed(link.log) || TrailingTimeouts(link.log) == 11
    ensures TrailingTimeouts(link.log) > 0 ==> TrailingTimeouts(link.log) == 11
  {
    hide TrailingTimeouts, LongestRun, LastConnect, InOrder, WaitsAsAsked;
    var o := link.DoConnect();
    assert link.log == [Connect(o)];
    FirstCall(o);
    ret := o == Connected;
    var error := o;
    var elapsedSec := 0;
    while !ret && (error == WantRead || error == WantWrite)
      invariant link.log != [] && link.log[0].Connect?
      invariant InOrder(link.log)
      invariant error == WantWrite ==> link.log[|link.log| - 1] == Connect(WantWrite)
      invariant error == WantRead ==>
                  link.log[|link.log| - 1] == Connect(WantRead) || IsTimeout(link.log[|link.log| - 1])
      invariant ret <==> LastConnect(link.log) == Connected
      invariant LongestRun(link.log) <= MAX_NON_BLOCK_SEC + 1
      invariant elapsedSec <= MAX_NON_BLOCK_SEC + 1
      invariant SelectFailed(link.log) ==> !ret && error == Failed && TrailingTimeouts(link.log) == 0
      invariant !SelectFailed(link.log) ==> elapsedSec == TrailingTimeouts(link.log)
      invariant ret || error == WantRead || error == WantWrite ==> elapsedSec <= MAX_NON_BLOCK_SEC
      invariant ret ==> elapsedSec == 0
      invariant !ret ==> error != Connected
      invariant !ret && error == Failed ==>
                  var last := link.log[|link.log| - 1];
                  last == Connect(Failed) || SelectFailed(link.log) || elapsedSec == MAX_NON_BLOCK_SEC + 1
      invariant SelectFailed(link.log) || elapsedSec == MAX_NON_BLOCK_SEC + 1 || elapsedSec == 0 ||
                (error == WantRead && !ret)
      decreases |link.connects|, |link.selects|, MAX_NON_BLOCK_SEC + 1 - elapsedSec, if error == Failed then 0 else 1
    {
      var currTimeout := 1;
      ghost var before := link.log;
      var selected := link.DoSelect(error == WantWrite);
      LogNext(before, link.log[|link.log| - 1]);
      if selected == RecvReady || selected == SendReady || selected == ErrorReady {
        before := link.log;
        o := link.DoConnect();
        LogNext(before, Connect(o));
        ret := o == Connected;
        error := o;
        elapsedSec := 0;
      } else if selected == Timeout {
        error := WantRead;
        elapsedSec := elapsedSec + currTimeout;
        if elapsedSec > MAX_NON_BLOCK_SEC {
          error := Failed;
        }
      } else {
        error := Failed;
      }
    }
    OrderMeans(link.log);
  }
}
