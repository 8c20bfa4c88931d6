/** Filling the responder with the statuses of the index, in src/ocsp/clu_ocsp.c. */
module OcspStatus {
  import opened Bytes
  import opened Environment
  import opened Base16
  import opened HexToBin
  import opened OcspIndex
  import opened OcspParser

  datatype CertStatus = Good | Revoked | Unknown

  /** The arguments of one wc_OcspResponder_SetCertStatus call that depend on the entry. */
  datatype StatusCall = StatusCall(serial: seq<byte>, status: CertStatus, revocationTime: int, validity: nat)

  class Responder {
    var calls: seq<StatusCall>

    constructor ()
      ensures calls == []
    {
      calls := [];
    }

    method SetCertStatus(c: StatusCall)
      modifies this
      ensures calls == old(calls) + [c]
    {
      calls := calls + [c];
    }
  }

  /** The call an entry leads to, if its serial decodes. */
  function CallOf(e: Entry): Option<StatusCall> {
    match Base16Decode(e.serial)
    case None => None
    case Some(serial) =>
      if e.status == VALID then Some(StatusCall(serial, Good, 0, 86400))
      else if e.status == REVOKED then Some(StatusCall(serial, Revoked, e.revocationTime, 0))
      else Some(StatusCall(serial, Unknown, 0, 0))
  }

  /** The calls for a list of entries, in order. */
  function CallsOf(entries: seq<Entry>): seq<StatusCall> {
    if entries == [] then []
    else
      var c := CallOf(entries[|entries| - 1]);
      CallsOf(entries[..|entries| - 1]) + (if c.Some? then [c.value] else [])
  }

  /** `a` is `b` with some elements left out. */
  ghost predicate Subsequence(a: seq<StatusCall>, b: seq<StatusCall>) {
    if a == [] then true
    else if b == [] then false
    else
      var init := b[..|b| - 1];
      Subsequence(a, init) || (a[|a| - 1] == b[|b| - 1] && Subsequence(a[..|a| - 1], init))
  }

  lemma {:induction false} SubsequenceItself(a: seq<StatusCall>)
    ensures Subsequence(a, a)
  {
    if a != [] {
      SubsequenceItself(a[..|a| - 1]);
    }
  }

  lemma SubsequenceSkip(a: seq<StatusCall>, b: seq<StatusCall>, more: seq<StatusCall>)
    requires Subsequence(a, b) && |more| <= 1
    ensures Subsequence(a, b + more)
  {
    if more == [] {
      assert b + more == b;
    } else {
      assert (b + more)[..|b|] == b;
    }
  }

  lemma SubsequenceTake(a: seq<StatusCall>, b: seq<StatusCall>, c: StatusCall)
    requires Subsequence(a, b)
    ensures Subsequence(a + [c], b + [c])
  {
    assert (a + [c])[..|a|] == a && (b + [c])[..|b|] == b;
  }

  /** What is left out of a first part is left out of the whole. */
  lemma {:induction false} SubsequencePrefix(a: seq<StatusCall>, b: seq<StatusCall>, more: seq<StatusCall>)
    requires Subsequence(a, b)
    ensures Subsequence(a, b + more)
  {
    if more == [] {
      assert b + more == b;
    } else {
      var init, last := more[..|more| - 1], more[|more| - 1];
      SubsequencePrefix(a, b, init);
      SubsequenceSkip(a, b + init, [last]);
      assert b + init + [last] == b + more;
    }
  }

  /** One more element of the list: `told` grows by its call, or by nothing when the call is skipped. */
  lemma OneMore(told: seq<StatusCall>, entries: seq<Entry>, k: nat)
    requires k < |entries| && Subsequence(told, CallsOf(entries[..k]))
    ensures Subsequence(told, CallsOf(entries[..k + 1]))
    ensures CallOf(entries[k]).Some? ==> Subsequence(told + [CallOf(entries[k]).value], CallsOf(entries[..k + 1]))
    ensures CallsOf(entries[..k + 1]) == CallsOf(entries[..k]) +
                                         (if CallOf(entries[k]).Some? then [CallOf(entries[k]).value] else [])
  {
    hide CallsOf, CallOf, Subsequence;
    CallsNext(entries, k);
    var next := CallOf(entries[k]);
    SubsequenceSkip(told, CallsOf(entries[..k]), if next.Some? then [next.value] else []);
    if next.Some? {
      SubsequenceTake(told, CallsOf(entries[..k]), next.value);
    }
  }

  /** Walks the list. Every temporary serial buffer is released. Without allocation failures the calls
      are those of the entries, in file order; an entry whose buffer cannot be allocated is left out,
      and nothing else changes. */
  method Populate(env: Env, responder: Responder, list: IndexEntry?, ghost tail: IndexEntry?,
                  ghost nodes: seq<IndexEntry>)
    returns (ghost told: seq<StatusCall>)
    requires Linked(list, tail, nodes)
    modifies env, responder
    ensures env.live == old(env.live) && env.Since(old(env.faults))
    ensures responder.calls == old(responder.calls) + told
    ensures Subsequence(told, CallsOf(Values(nodes)))
    ensures env.faults == old(env.faults) ==> told == CallsOf(Values(nodes))
  {
    hide Base16Decode, Values, Subsequence, CallsOf;
    var entry := list;
    ghost var k := 0;
    ghost var values := Values(nodes);
    told := [];
    NothingTold(values);
    while entry != null
      invariant 0 <= k <= |nodes| && Linked(list, tail, nodes) && Values(nodes) == values
      invariant entry == if k < |nodes| then nodes[k] else null
      invariant env.live == old(env.live) && env.Since(old(env.faults))
      invariant responder.calls == old(responder.calls) + told
      invariant Subsequence(told, CallsOf(values[..k]))
      invariant env.faults == old(env.faults) ==> told == CallsOf(values[..k])
      decreases |nodes| - k
      modifies env, responder
    {
      ValueAt(nodes, k);
      OneMore(told, values, k);
      var ret, serial, serialLen := ConvertOne(env, entry.serial);
      if ret == SUCCESS {
        var status, revTime := Unknown, 0;
        if entry.status == VALID {
          status := Good;
        } else if entry.status == REVOKED {
          status := Revoked;
          revTime := entry.revocationTime;
        }
        var call := StatusCall(serial[..], status, revTime, if status == Good then 86400 else 0);
        assert CallOf(values[k]) == Some(call);
        responder.SetCertStatus(call);
        told := told + [call];
        FreeBins(env, serial, null, null, null, null);
      }
      entry := entry.next;
      k := k + 1;
    }
    assert values[..k] == values;
  }

  lemma NothingTold(entries: seq<Entry>)
    ensures CallsOf(entries[..0]) == [] && Subsequence([], CallsOf(entries[..0]))
  {
  }

  /** The index from start to end: parsed, handed to the responder, freed, also when the responder
      cannot be set up. Nothing stays allocated. Whatever fails, the responder is told nothing the file
      does not say, and nothing twice or out of order; when nothing fails it is told everything. */
  method LoadIndex(env: Env, mktime: Tm -> int, data: Option<seq<byte>>, responder: Responder)
    returns (ret: int, ghost told: seq<StatusCall>)
    modifies env, responder
    ensures env.live == old(env.live) && env.Since(old(env.faults))
    ensures responder.calls == old(responder.calls) + told
    ensures ret == SUCCESS || (ret == FATAL_ERROR && told == [] && env.faults > old(env.faults))
    ensures data.None? ==> told == []
    ensures data.Some? ==> Subsequence(told, CallsOf(ParseIndex(mktime, data.value)))
    ensures data.Some? && env.faults == old(env.faults) ==> told == CallsOf(ParseIndex(mktime, data.value))
  {
    hide ParseIndex, CallsOf, Values, Subsequence;
    ret, told := SUCCESS, [];
    var indexEntries;
    ghost var tail, nodes, done;
    indexEntries, tail, nodes, done := ParseIndexFile(env, mktime, data);
    ghost var values := Values(nodes);
    NothingTold(values);
    NothingToldOf(if data.Some? then CallsOf(ParseIndex(mktime, data.value)) else []);
    var failed := env.Fails();
    if !failed {
      failed := env.Fails();
    }
    if failed {
      ret := FATAL_ERROR;
    } else if indexEntries != null {
      told := Populate(env, responder, indexEntries, tail, nodes);
    } else {
      NullIsEmpty(indexEntries, tail, nodes);
    }
    FreeIndexEntries(env, indexEntries, tail, nodes);
    if data.Some? && told != [] {
      FirstLines(mktime, data.value, done, told);
    }
  }

  lemma NothingToldOf(calls: seq<StatusCall>)
    ensures Subsequence([], calls)
  {
  }

  /** The calls of the first lines come first among the calls of the file. */
  lemma FirstLines(mktime: Tm -> int, data: seq<byte>, done: nat, told: seq<StatusCall>)
    requires done <= |Lines(data)|
    requires Subsequence(told, CallsOf(ParseLines(mktime, Lines(data)[..done])))
    ensures Subsequence(told, CallsOf(ParseIndex(mktime, data)))
  {
    hide Lines, ParseLines, CallsOf, Subsequence;
    var lines := Lines(data);
    assert lines[..done] + lines[done..] == lines;
    ParseLinesAppend(mktime, lines[..done], lines[done..]);
    var first, more := ParseLines(mktime, lines[..done]), ParseLines(mktime, lines[done..]);
    CallsAppend(first, more);
    SubsequencePrefix(told, CallsOf(first), CallsOf(more));
  }

  lemma NullIsEmpty(head: IndexEntry?, tail: IndexEntry?, nodes: seq<IndexEntry>)
    requires head == null && Linked(head, tail, nodes)
    ensures nodes == [] && CallsOf(Values(nodes)) == []
  {
  }

  lemma ValueAt(nodes: seq<IndexEntry>, k: nat)
    requires k < |nodes|
    ensures Values(nodes)[k] == nodes[k].Value()
  {
  }

  lemma CallsNext(entries: seq<Entry>, k: nat)
    requires k < |entries|
    ensures CallsOf(entries[..k + 1]) == CallsOf(entries[..k]) +
                                         (if CallOf(entries[k]).Some? then [CallOf(entries[k]).value] else [])
  {
    assert entries[..k + 1][..k] == entries[..k];
  }

  /** What a printed record tells the responder. */
  ghost predicate Describes(mktime: Tm -> int, r: Record, c: StatusCall) {
    && SpellsHex(r.serial, c.serial)
    && (c.status == Good <==> r.status == 'V' as int)
    && (c.status == Revoked <==> r.status == 'R' as int)
    && (r.status == 'R' as int ==> c.revocationTime == TimeOf(mktime, r.revocation) != -1)
    && (r.status != 'R' as int ==> c.revocationTime == 0)
    && c.validity == (if r.status == 'V' as int then 86400 else 0)
  }

  lemma CallDescribes(mktime: Tm -> int, r: Record, c: StatusCall)
    ensures Describes(mktime, r, c) <==> Kept(mktime, r).Some? && CallOf(EntryOf(mktime, r)) == Some(c)
  {
    hide SpellsHex, Base16Decode, TimeOf;
    DecodeSpells(r.serial, c.serial);
  }

  lemma {:induction false} CallsAppend(a: seq<Entry>, b: seq<Entry>)
    ensures CallsOf(a + b) == CallsOf(a) + CallsOf(b)
  {
    hide CallOf;
    if b == [] {
      assert a + b == a;
    } else {
      var init := b[..|b| - 1];
      CallsAppend(a, init);
      assert (a + b)[..|a + b| - 1] == a + init;
    }
  }

  /** From file to responder: for a file of printed records with other lines between them, the
      responder is told exactly what the records with a decodable serial say, and nothing else. */
  lemma {:induction false} IndexReachesResponder(mktime: Tm -> int, items: seq<Item>, c: StatusCall)
    requires forall i :: 0 <= i < |items| ==> GoodItem(mktime, items[i])
    ensures c in CallsOf(ParseIndex(mktime, PrintAll(items))) <==>
            exists i :: 0 <= i < |items| && items[i].Rec? && Describes(mktime, items[i].r, c)
  {
    PrintParseRoundTrip(mktime, items);
    hide GoodItem, ParseIndex, PrintAll;
    ExpectedCalls(mktime, items, c);
  }

  /** The calls come in file order: a file made of two parts gives the calls of the first, then those
      of the second, and a single record gives at most one. */
  lemma IndexInOrder(mktime: Tm -> int, a: seq<Item>, b: seq<Item>)
    requires forall i :: 0 <= i < |a| ==> GoodItem(mktime, a[i])
    requires forall i :: 0 <= i < |b| ==> GoodItem(mktime, b[i])
    ensures CallsOf(ParseIndex(mktime, PrintAll(a + b))) ==
            CallsOf(ParseIndex(mktime, PrintAll(a))) + CallsOf(ParseIndex(mktime, PrintAll(b)))
    ensures |a| == 1 ==> |CallsOf(ParseIndex(mktime, PrintAll(a)))| <= 1
  {
    hide GoodItem, ParseIndex, PrintAll, CallOf, Kept;
    PrintParseRoundTrip(mktime, a);
    PrintParseRoundTrip(mktime, b);
    PrintParseRoundTrip(mktime, a + b);
    ExpectedAppend(mktime, a, b);
    CallsAppend(Expected(mktime, a), Expected(mktime, b));
    if |a| == 1 {
      assert Expected(mktime, a[1..]) == [];
      assert |Expected(mktime, a)| <= 1;
      assert forall e: Entry :: [e][..0] == [];
    }
  }

  lemma {:induction false} ExpectedAppend(mktime: Tm -> int, a: seq<Item>, b: seq<Item>)
    ensures Expected(mktime, a + b) == Expected(mktime, a) + Expected(mktime, b)
  {
    hide ExpectedOf;
    if a == [] {
      assert a + b == b;
    } else {
      ExpectedAppend(mktime, a[1..], b);
      assert (a + b)[0] == a[0] && (a + b)[1..] == a[1..] + b;
      Regroup(ExpectedOf(mktime, a[0]), Expected(mktime, a[1..]), Expected(mktime, b));
    }
  }

  lemma {:induction false} ExpectedCalls(mktime: Tm -> int, items: seq<Item>, c: StatusCall)
    ensures c in CallsOf(Expected(mktime, items)) <==>
            exists i :: 0 <= i < |items| && items[i].Rec? && Describes(mktime, items[i].r, c)
  {
    hide Describes, CallOf, Kept;
    if items != [] {
      var first := ExpectedOf(mktime, items[0]);
      var rest := items[1..];
      ExpectedCalls(mktime, rest, c);
      CallsAppend(first, Expected(mktime, rest));
      FirstCall(mktime, items[0], first, c);
      if exists i :: 0 <= i < |rest| && rest[i].Rec? && Describes(mktime, rest[i].r, c) {
        var i :| 0 <= i < |rest| && rest[i].Rec? && Describes(mktime, rest[i].r, c);
        assert items[i + 1] == rest[i];
      }
      if exists i :: 0 <= i < |items| && items[i].Rec? && Describes(mktime, items[i].r, c) {
        var i :| 0 <= i < |items| && items[i].Rec? && Describes(mktime, items[i].r, c);
        assert i > 0 ==> rest[i - 1] == items[i];
      }
    }
  }

  lemma FirstCall(mktime: Tm -> int, item: Item, first: seq<Entry>, c: StatusCall)
    requires first == ExpectedOf(mktime, item)
    ensures c in CallsOf(first) <==> item.Rec? && Describes(mktime, item.r, c)
  {
    hide Describes, CallOf;
    if item.Rec? {
      CallDescribes(mktime, item.r, c);
      if first != [] {
        assert first == [EntryOf(mktime, item.r)];
        assert first[..0] == [];
      }
    }
  }
}
