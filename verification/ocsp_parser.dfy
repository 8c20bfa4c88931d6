/** parseIndexFile and freeIndexEntries of src/ocsp/clu_ocsp.c: the linked list built in place. */
module OcspParser {
  import opened Bytes
  import opened Environment
  import opened OcspIndex

  class IndexEntry {
    var status: byte
    var revocationTime: int
    var serial: seq<byte>
    var next: IndexEntry?

    /** A zeroed entry. */
    constructor ()
      ensures status == 0 && revocationTime == 0 && serial == [] && next == null
    {
      status, revocationTime, serial, next := 0, 0, [], null;
    }

    function Value(): Entry
      reads this
    {
      Entry(status, revocationTime, serial)
    }
  }

  /** The list from `head` to `tail` is exactly `nodes`: acyclic, linked in order, ended by null. */
  ghost predicate Linked(head: IndexEntry?, tail: IndexEntry?, nodes: seq<IndexEntry>)
    reads nodes
  {
    && (nodes == [] ==> head == null && tail == null)
    && (nodes != [] ==> head == nodes[0] && tail == nodes[|nodes| - 1] && nodes[|nodes| - 1].next == null)
    && (forall i :: 0 <= i < |nodes| - 1 ==> nodes[i].next == nodes[i + 1])
    && (forall i, j :: 0 <= i < j < |nodes| ==> nodes[i] != nodes[j])
  }

  ghost function NodeSet(nodes: seq<IndexEntry>): set<object> {
    set i | 0 <= i < |nodes| :: nodes[i]
  }

  ghost function Values(nodes: seq<IndexEntry>): (r: seq<Entry>)
    reads nodes
    ensures |r| == |nodes|
  {
    seq(|nodes|, i requires 0 <= i < |nodes| reads nodes => nodes[i].Value())
  }

  /** Frees the whole list, each node once. */
  method FreeIndexEntries(env: Env, list: IndexEntry?, ghost tail: IndexEntry?, ghost nodes: seq<IndexEntry>)
    requires Linked(list, tail, nodes) && NodeSet(nodes) <= env.live
    modifies env
    ensures env.live == old(env.live) - NodeSet(nodes) && env.faults == old(env.faults)
  {
    var head := list;
    ghost var k := 0;
    while head != null
      invariant 0 <= k <= |nodes|
      invariant head == if k < |nodes| then nodes[k] else null
      invariant env.live == old(env.live) - NodeSet(nodes[..k])
      invariant env.faults == old(env.faults)
      decreases |nodes| - k
    {
      var next := head.next;
      NodeSetNext(nodes, k);
      env.Free(head);
      head := next;
      k := k + 1;
    }
    assert nodes[..k] == nodes;
  }

  lemma NodeSetNext(nodes: seq<IndexEntry>, k: nat)
    requires k < |nodes|
    ensures NodeSet(nodes[..k + 1]) == NodeSet(nodes[..k]) + {nodes[k]}
    ensures nodes[k] in NodeSet(nodes)
    ensures (forall i, j :: 0 <= i < j < |nodes| ==> nodes[i] != nodes[j]) ==> nodes[k] !in NodeSet(nodes[..k])
  {
    assert nodes[..k + 1] == nodes[..k] + [nodes[k]];
    NodeSetAppend(nodes[..k], nodes[k]);
  }

  lemma NodeSetAppend(nodes: seq<IndexEntry>, node: IndexEntry)
    ensures NodeSet(nodes + [node]) == NodeSet(nodes) + {node}
  {
    var all := nodes + [node];
    assert all[|nodes|] == node;
    forall o | o in NodeSet(nodes) ensures o in NodeSet(all) {
      var i :| 0 <= i < |nodes| && nodes[i] == o;
      assert all[i] == o;
    }
  }

  /** XMALLOC of an entry and XMEMSET to zero. */
  method MallocEntry(env: Env) returns (entry: IndexEntry?)
    modifies env
    ensures env.Since(old(env.faults))
    ensures entry == null ==> env.live == old(env.live) && env.faults == old(env.faults) + 1
    ensures entry != null ==>
              && fresh(entry) && entry !in old(env.live)
              && env.live == old(env.live) + {entry} && env.faults == old(env.faults)
              && entry.status == 0 && entry.revocationTime == 0 && entry.serial == [] && entry.next == null
  {
    var failed := env.Fails();
    if failed {
      return null;
    }
    entry := new IndexEntry();
    env.live := env.live + {entry};
  }

  /** strsep: the next field, and where the rest begins; a negative cursor stands for NULL. */
  method StrSep(text: seq<byte>, p: int) returns (field: Option<seq<byte>>, q: int)
    requires p <= |text|
    ensures p < 0 ==> field == None && q == p
    ensures p >= 0 ==> field == Some(Fields(text[p..])[0]) && q <= |text|
    ensures p >= 0 && q < 0 ==> Fields(text[p..]) == [Fields(text[p..])[0]]
    ensures p >= 0 && q >= 0 ==> q > p && Fields(text[p..]) == [Fields(text[p..])[0]] + Fields(text[q..])
  {
    if p < 0 {
      return None, p;
    }
    var k := FieldLength(text[p..]);
    field := Some(text[p..][..k]);
    if p + k == |text| {
      assert text[p..][..k] == text[p..];
      q := -1;
    } else {
      q := p + k + 1;
      assert text[p..][k + 1..] == text[q..];
    }
  }

  /** The loop over the tab-separated fields of one line. Two-digit years map as UTCTime does in
      section 4.1.2.5.1 of RFC 5280. */
  method ParseFields(mktime: Tm -> int, text: seq<byte>, entry: IndexEntry) returns (fieldNum: nat)
    requires entry.status == 0 && entry.revocationTime == 0 && entry.serial == []
    modifies entry
    ensures fieldNum == Min(6, |Fields(text)|)
    ensures entry.next == old(entry.next)
    ensures entry.status == StatusIn(Fields(text))
    ensures entry.revocationTime == if |Fields(text)| > 2 then TimeOf(mktime, Fields(text)[2]) else 0
    ensures |Fields(text)| > 2 && |Fields(text)[2]| >= 12 ==>
              var f := Fields(text)[2];
              && entry.revocationTime == mktime(TmOf(f))
              && (IsDigit(f[0]) && IsDigit(f[1]) ==>
                    var yy := 10 * Digit(f[0]) + Digit(f[1]);
                    1900 + TmOf(f).year == if yy >= 50 then 1900 + yy else 2000 + yy)
    ensures |Fields(text)| <= 2 || |Fields(text)[2]| < 12 ==> entry.revocationTime == 0
    ensures entry.serial == SerialIn(Fields(text))
  {
    hide Fields, TmOf, IsDigit, Digit;
    ghost var all := Fields(text);
    if |all| > 2 && |all[2]| >= 12 && IsDigit(all[2][0]) && IsDigit(all[2][1]) {
      UtcTimeYear(all[2]);
    }
    fieldNum := 0;
    var p := 0;
    assert text[0..] == text;
    var field, q := StrSep(text, p);
    p := q;
    while field.Some? && fieldNum < 6
      invariant fieldNum <= Min(6, |all|) && p <= |text|
      invariant field.Some? ==> fieldNum < |all| && field.value == all[fieldNum]
      invariant field.None? ==> fieldNum == |all|
      invariant field.Some? && p >= 0 ==> all[fieldNum + 1..] == Fields(text[p..])
      invariant field.Some? && p < 0 ==> fieldNum + 1 == |all|
      invariant entry.next == old(entry.next)
      invariant entry.status == if fieldNum > 0 then StatusIn(all) else 0
      invariant entry.revocationTime == if fieldNum > 2 then TimeOf(mktime, all[2]) else 0
      invariant entry.serial == if fieldNum > 3 then SerialIn(all) else []
      decreases 6 - fieldNum
    {
      var f := field.value;
      if fieldNum == 0 {
        entry.status := if f == [] then 0 else f[0];
      } else if fieldNum == 2 {
        if f != [] && |f| >= 12 {
          entry.revocationTime := mktime(TmOf(f));
        }
      } else if fieldNum == 3 {
        if |f| <= SERIAL_MAX {
          entry.serial := f;
        }
      }
      fieldNum := fieldNum + 1;
      ghost var rest := if p >= 0 then Fields(text[p..]) else [];
      assert all[fieldNum..] == rest;
      field, q := StrSep(text, p);
      assert p >= 0 ==> all[fieldNum] == rest[0] && all[fieldNum + 1..] == rest[1..];
      p := q;
    }
  }

  /** Adds an entry at the end. */
  lemma Appended(head: IndexEntry?, tail: IndexEntry?, nodes: seq<IndexEntry>, entry: IndexEntry)
    requires forall i :: 0 <= i < |nodes| ==> nodes[i] != entry
    requires forall i, j :: 0 <= i < j < |nodes| ==> nodes[i] != nodes[j]
    requires forall i :: 0 <= i < |nodes| - 1 ==> nodes[i].next == nodes[i + 1]
    requires entry.next == null
    requires if nodes == [] then head == entry else head == nodes[0] && nodes[|nodes| - 1].next == entry
    requires tail == entry
    ensures Linked(head, tail, nodes + [entry])
  {
    var all := nodes + [entry];
    assert forall i :: 0 <= i < |nodes| ==> all[i] == nodes[i];
    assert all[|nodes|] == entry;
  }

  /** One line: what the body of the loop does with it. `ok` is false when the allocation fails. */
  method ParseOne(env: Env, mktime: Tm -> int, line: seq<byte>, head: IndexEntry?, tail: IndexEntry?,
                  ghost nodes: seq<IndexEntry>)
    returns (ok: bool, head': IndexEntry?, tail': IndexEntry?, ghost nodes': seq<IndexEntry>)
    requires Linked(head, tail, nodes) && NodeSet(nodes) <= env.live
    modifies env, nodes
    ensures Linked(head', tail', nodes') && env.Since(old(env.faults))
    ensures env.live == old(env.live) + NodeSet(nodes') && NodeSet(nodes) <= NodeSet(nodes')
    ensures (NodeSet(nodes') - NodeSet(nodes)) !! old(env.live)
    ensures !ok ==> nodes' == nodes && env.faults > old(env.faults)
    ensures Values(nodes') == old(Values(nodes)) + (if ok then ToSeq(ParseLine(mktime, line)) else [])
    ensures ok ==> env.faults == old(env.faults)
    ensures nodes <= nodes' && forall i :: |nodes| <= i < |nodes'| ==> fresh(nodes'[i])
  {
    hide Fields, TmOf, CStr, IsDigit, Digit, TimeOf, NodeSet;
    head', tail', nodes' := head, tail, nodes;
    var text := CStr(line);
    if Blank(text) {
      return true, head', tail', nodes';
    }
    var entry := MallocEntry(env);
    if entry == null {
      return false, head', tail', nodes';
    }
    var fieldNum := ParseFields(mktime, text, entry);
    if fieldNum < 4 || entry.serial == [] {
      env.Free(entry);
      return true, head', tail', nodes';
    }
    if entry.status == REVOKED && entry.revocationTime == -1 {
      env.Free(entry);
      return true, head', tail', nodes';
    }
    entry.next := null;
    if tail' != null {
      tail'.next := entry;
      tail' := entry;
    } else {
      head', tail' := entry, entry;
    }
    nodes' := nodes + [entry];
    Appended(head', tail', nodes, entry);
    NodeSetAppend(nodes, entry);
    ok := true;
  }

  /** The whole file. However it ends, the list holds exactly what a number of the first lines say, and
      the list is all that stays allocated; when nothing fails it holds what the whole file says. */
  method ParseIndexFile(env: Env, mktime: Tm -> int, data: Option<seq<byte>>)
    returns (head: IndexEntry?, ghost tail: IndexEntry?, ghost nodes: seq<IndexEntry>, ghost done: nat)
    modifies env
    ensures Linked(head, tail, nodes) && env.Since(old(env.faults))
    ensures forall i :: 0 <= i < |nodes| ==> fresh(nodes[i])
    ensures env.live == old(env.live) + NodeSet(nodes) && NodeSet(nodes) !! old(env.live)
    ensures data.None? ==> nodes == []
    ensures data.Some? ==> done <= |Lines(data.value)| && Values(nodes) == ParseLines(mktime, Lines(data.value)[..done])
    ensures data.Some? && env.faults == old(env.faults) ==> Values(nodes) == ParseIndex(mktime, data.value)
  {
    hide ParseLine, Lines, ToSeq;
    head, tail, nodes, done := null, null, [], 0;
    assert Values(nodes) == [];
    if data.None? {
      return;
    }
    var failed := env.Fails();
    if failed {
      return;
    }
    var pos := 0;
    ghost var lines := Lines(data.value);
    assert data.value[0..] == data.value;
    var last: IndexEntry? := null;
    while pos < |data.value|
      invariant pos <= |data.value| && done <= |lines|
      invariant lines[done..] == Lines(data.value[pos..])
      invariant Linked(head, last, nodes) && env.faults == old(env.faults)
      invariant forall i :: 0 <= i < |nodes| ==> fresh(nodes[i])
      invariant env.live == old(env.live) + NodeSet(nodes) && NodeSet(nodes) !! old(env.live)
      invariant Values(nodes) == ParseLines(mktime, lines[..done])
    {
      LinesNext(data.value[pos..]);
      var k := LineLength(data.value[pos..], LINE_SIZE - 1);
      var line := data.value[pos..pos + k];
      assert line == data.value[pos..][..k] && line == lines[done..][0] == lines[done];
      assert data.value[pos..][k..] == data.value[pos + k..] && lines[done..][1..] == lines[done + 1..];
      ParseLinesNext(mktime, lines, done);
      failed := env.Fails();
      if failed {
        tail := last;
        return;
      }
      var ok;
      ok, head, last, nodes := ParseOne(env, mktime, line, head, last, nodes);
      if !ok {
        tail := last;
        return;
      }
      pos, done := pos + k, done + 1;
    }
    tail := last;
    LinesEnd(data.value[pos..]);
    assert lines[..done] == lines;
  }

  lemma LinesNext(data: seq<byte>)
    requires data != []
    ensures var k := LineLength(data, LINE_SIZE - 1);
            0 < k <= |data| && Lines(data) == [data[..k]] + Lines(data[k..])
  {
  }

  lemma LinesEnd(data: seq<byte>)
    requires data == []
    ensures Lines(data) == []
  {
  }

  lemma ParseLinesNext(mktime: Tm -> int, lines: seq<seq<byte>>, k: nat)
    requires k < |lines|
    ensures ParseLines(mktime, lines[..k + 1]) == ParseLines(mktime, lines[..k]) + ToSeq(ParseLine(mktime, lines[k]))
  {
    hide ParseLine, ToSeq;
    assert lines[..k + 1] == lines[..k] + [lines[k]];
    ParseLinesAppend(mktime, lines[..k], [lines[k]]);
    var one := [lines[k]];
    assert one[1..] == [] && ParseLines(mktime, one[1..]) == [];
    var x := ToSeq(ParseLine(mktime, lines[k]));
    assert x + [] == x;
  }
}
