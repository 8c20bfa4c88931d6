/** wolfCLU_hexToBin of src/tools/clu_hex_to_bin.c: up to four texts, all or nothing. */
module HexToBin {
  import opened Bytes
  import opened Environment
  import opened Base16

  /** Whatever non-zero code Base16_Decode gives for text it cannot decode. */
  const DECODE_E := -154

  /** A caller's `byte*` variable. */
  class BufCell {
    var p: array?<byte>

    constructor ()
      ensures p == null
    {
      p := null;
    }
  }

  /** A caller's `word32` variable. */
  class LenCell {
    var n: nat

    constructor ()
      ensures n == 0
    {
      n := 0;
    }
  }

  /** The four (text, buffer, size) triples of a call; any part may be NULL. */
  datatype Request = Request(hex: seq<Option<seq<byte>>>, bs: seq<BufCell?>, bSz: seq<LenCell?>) {
    ghost predicate Valid() {
      && |hex| == |bs| == |bSz| == 4
      && (forall i, j :: 0 <= i < j < 4 && bs[i] != null ==> bs[i] != bs[j])
      && (forall i, j :: 0 <= i < j < 4 && bSz[i] != null ==> bSz[i] != bSz[j])
    }

    predicate Wanted(i: nat)
      requires |hex| == |bs| == |bSz| == 4 && i < 4
    {
      hex[i].Some? && bs[i] != null && bSz[i] != null
    }

    ghost function Cells(): set<object>
      requires |hex| == |bs| == |bSz| == 4
    {
      (set i | 0 <= i < 4 && bs[i] != null :: bs[i]) + (set i | 0 <= i < 4 && bSz[i] != null :: bSz[i])
    }

    /** Slot `i` holds the decoding of its text. */
    ghost predicate Decoded(i: nat)
      requires |hex| == |bs| == |bSz| == 4 && i < 4 && Wanted(i)
      reads bs[i], bSz[i], bs[i].p
    {
      && bs[i].p != null
      && Base16Decode(hex[i].value) == Some(bs[i].p[..])
      && bSz[i].n == |hex[i].value| / 2
    }
  }

  /** The blocks taken so far, slot by slot. */
  ghost function BlockSet(blocks: seq<array?<byte>>): set<object> {
    set k | 0 <= k < |blocks| && blocks[k] != null :: blocks[k]
  }

  /** Each block was taken once, and none of them was live before. */
  ghost predicate NewBlocks(blocks: seq<array?<byte>>, before: set<object>) {
    && (forall j, k :: 0 <= j < k < |blocks| && blocks[j] != null ==> blocks[j] != blocks[k])
    && (forall k :: 0 <= k < |blocks| && blocks[k] != null ==> blocks[k] !in before)
  }

  /** Freeing the last block taken gives back the state before it was taken. */
  lemma DropLast(blocks: seq<array?<byte>>, before: set<object>)
    requires blocks != [] && NewBlocks(blocks, before)
    ensures var init, b := blocks[..|blocks| - 1], blocks[|blocks| - 1];
            && NewBlocks(init, before)
            && (b != null ==> b in BlockSet(blocks) && before + BlockSet(blocks) - {b} == before + BlockSet(init))
            && (b == null ==> BlockSet(blocks) == BlockSet(init))
  {
    var init, b := blocks[..|blocks| - 1], blocks[|blocks| - 1];
    assert forall k :: 0 <= k < |init| ==> init[k] == blocks[k];
    assert b != null ==> b !in BlockSet(init);
    assert BlockSet(blocks) == BlockSet(init) + (if b != null then {b} else {});
  }

  lemma NoBlocks(before: set<object>)
    ensures NewBlocks([], before) && BlockSet([]) == {}
  {
  }

  lemma AddBlock(blocks: seq<array?<byte>>, b: array?<byte>, before: set<object>)
    requires NewBlocks(blocks, before)
    requires b != null ==> b !in before && b !in BlockSet(blocks)
    ensures NewBlocks(blocks + [b], before)
    ensures BlockSet(blocks + [b]) == BlockSet(blocks) + (if b != null then {b} else {})
  {
    var all := blocks + [b];
    assert forall k :: 0 <= k < |blocks| ==> all[k] == blocks[k];
    assert all[|blocks|] == b;
    forall o | o in BlockSet(blocks) ensures o in BlockSet(all) {
      var k :| 0 <= k < |blocks| && blocks[k] != null && blocks[k] == o;
      assert all[k] == o;
    }
  }

  /** One slot: size, allocation, decoding. */
  method FillSlot(env: Env, hex: seq<byte>, b: BufCell, sz: LenCell) returns (ret: int)
    modifies env, b, sz
    ensures env.Since(old(env.faults))
    ensures b.p == null ==> ret == MEMORY_E && env.live == old(env.live) && env.faults > old(env.faults)
    ensures b.p != null ==> fresh(b.p) && b.p !in old(env.live) && env.live == old(env.live) + {b.p}
    ensures b.p != null ==> env.faults == old(env.faults)
    ensures b.p != null ==> ret == if Base16Decode(hex).Some? then 0 else DECODE_E
    ensures ret == MEMORY_E ==> b.p == null
    ensures ret == 0 ==> b.p != null && Base16Decode(hex) == Some(b.p[..]) && sz.n == |hex| / 2
  {
    sz.n := |hex| / 2;
    b.p := env.Malloc(sz.n);
    if b.p == null {
      return MEMORY_E;
    }
    match Base16Decode(hex) {
      case None => ret := DECODE_E;
      case Some(bytes) =>
        CopyInto(b.p, 0, bytes);
        assert b.p[..] == bytes;
        sz.n := |bytes|;
        ret := 0;
    }
  }

  lemma CellsHold(r: Request, i: nat)
    requires r.Valid() && i < 4 && r.Wanted(i)
    ensures r.bs[i] in r.Cells() && r.bSz[i] in r.Cells()
  {
  }

  /** The loop over the slots. It stops at slot `last` when that slot fails. */
  method FillSlots(env: Env, r: Request) returns (ret: int, last: nat, ghost blocks: seq<array?<byte>>)
    requires r.Valid()
    modifies env, r.Cells()
    ensures env.Since(old(env.faults)) && last < 4
    ensures ret == 0 ==> last == 3 && env.faults == old(env.faults)
    ensures ret == 0 || ret == DECODE_E || (ret == MEMORY_E && env.faults > old(env.faults))
    ensures |blocks| == last + 1 && NewBlocks(blocks, old(env.live)) && env.live == old(env.live) + BlockSet(blocks)
    ensures forall j :: 0 <= j <= last ==> blocks[j] == (if r.Wanted(j) then r.bs[j].p else null)
    ensures forall j :: 0 <= j <= last && blocks[j] != null ==> fresh(blocks[j])
    ensures forall j :: 0 <= j <= last && r.Wanted(j) && (j < last || ret == 0) ==> r.Decoded(j)
    ensures ret != 0 && env.faults == old(env.faults) ==> r.Wanted(last) && Base16Decode(r.hex[last].value).None?
    ensures forall j :: 0 <= j < 4 && (last < j || !r.Wanted(j)) ==>
                          (r.bs[j] != null ==> unchanged(r.bs[j])) && (r.bSz[j] != null ==> unchanged(r.bSz[j]))
  {
    hide Base16Decode, BlockSet, NewBlocks, Request.Cells;
    ret, last, blocks := 0, 0, [];
    NoBlocks(env.live);
    var i := 0;
    while i < 4
      invariant 0 <= i <= 4 && ret == 0 && |blocks| == i
      invariant env.faults == old(env.faults)
      invariant NewBlocks(blocks, old(env.live)) && env.live == old(env.live) + BlockSet(blocks)
      invariant forall j :: 0 <= j < i ==> blocks[j] == (if r.Wanted(j) then r.bs[j].p else null)
      invariant forall j :: 0 <= j < i && blocks[j] != null ==> fresh(blocks[j])
      invariant forall j :: 0 <= j < i && r.Wanted(j) ==> r.Decoded(j)
      invariant forall j :: 0 <= j < 4 && (i <= j || !r.Wanted(j)) ==>
                              (r.bs[j] != null ==> unchanged(r.bs[j])) && (r.bSz[j] != null ==> unchanged(r.bSz[j]))
      modifies env, r.Cells()
    {
      if r.Wanted(i) {
        CellsHold(r, i);
        ret := FillSlot(env, r.hex[i].value, r.bs[i], r.bSz[i]);
        AddBlock(blocks, r.bs[i].p, old(env.live));
        blocks := blocks + [r.bs[i].p];
        if ret != 0 {
          return ret, i, blocks;
        }
      } else {
        AddBlock(blocks, null, old(env.live));
        blocks := blocks + [null];
      }
      i := i + 1;
    }
    last := 3;
  }

  /** The unwinding loop: from the failing slot back to the first. */
  method Unwind(env: Env, r: Request, last: nat, ghost blocks: seq<array?<byte>>, ghost before: set<object>)
    requires r.Valid() && last < 4
    requires |blocks| == last + 1 && NewBlocks(blocks, before) && env.live == before + BlockSet(blocks)
    requires forall j :: 0 <= j <= last ==> blocks[j] == (if r.Wanted(j) then r.bs[j].p else null)
    modifies env, r.Cells()
    ensures env.live == before && env.faults == old(env.faults)
    ensures forall j :: 0 <= j <= last && r.Wanted(j) ==> r.bs[j].p == null && r.bSz[j].n == 0
    ensures forall j :: 0 <= j < 4 && (last < j || !r.Wanted(j)) ==>
                          (r.bs[j] != null ==> unchanged(r.bs[j])) && (r.bSz[j] != null ==> unchanged(r.bSz[j]))
  {
    hide Base16Decode, BlockSet, NewBlocks, Request.Cells;
    var i: int := last;
    assert blocks[..last + 1] == blocks;
    while i >= 0
      invariant -1 <= i <= last
      invariant NewBlocks(blocks[..i + 1], before) && env.live == before + BlockSet(blocks[..i + 1])
      invariant env.faults == old(env.faults)
      invariant forall j :: 0 <= j <= i ==> blocks[j] == (if r.Wanted(j) then r.bs[j].p else null)
      invariant forall j :: i < j <= last && r.Wanted(j) ==> r.bs[j].p == null && r.bSz[j].n == 0
      invariant forall j :: 0 <= j < 4 && (last < j || !r.Wanted(j)) ==>
                              (r.bs[j] != null ==> unchanged(r.bs[j])) && (r.bSz[j] != null ==> unchanged(r.bSz[j]))
      modifies env, r.Cells()
    {
      DropLast(blocks[..i + 1], before);
      assert blocks[..i + 1][..i] == blocks[..i] && blocks[..i + 1][i] == blocks[i];
      if r.Wanted(i) {
        CellsHold(r, i);
        if r.bs[i].p != null {
          env.Free(r.bs[i].p);
          r.bs[i].p := null;
        }
        r.bSz[i].n := 0;
      }
      i := i - 1;
    }
    NoBlocks(before);
    assert blocks[..0] == [];
  }

  /** On success every wanted slot holds its decoding in a block of its own, and those blocks are all
      that is new; on failure no block is left over, the slots up to the failing one are null and
      empty, and the rest are untouched. Without allocation failures it succeeds exactly when every
      wanted text decodes. */
  method Convert(env: Env, r: Request) returns (ret: int, ghost last: nat, ghost blocks: seq<array?<byte>>)
    requires r.Valid()
    modifies env, r.Cells()
    ensures env.Since(old(env.faults)) && last < 4
    ensures ret == SUCCESS ==>
              && |blocks| == 4 && NewBlocks(blocks, old(env.live)) && env.live == old(env.live) + BlockSet(blocks)
              && (forall j :: 0 <= j < 4 ==> blocks[j] == (if r.Wanted(j) then r.bs[j].p else null))
              && (forall j :: 0 <= j < 4 && r.Wanted(j) ==> r.Decoded(j) && fresh(r.bs[j].p))
              && (forall j :: 0 <= j < 4 && r.hex[j].Some? && r.bs[j] != null && r.bSz[j] != null ==>
                                && r.bs[j].p != null && Base16Decode(r.hex[j].value) == Some(r.bs[j].p[..])
                                && 2 * r.bSz[j].n == |r.hex[j].value|)
    ensures ret != SUCCESS ==>
              && env.live == old(env.live)
              && (forall j :: 0 <= j <= last && r.Wanted(j) ==> r.bs[j].p == null && r.bSz[j].n == 0)
              && (forall j :: last < j < 4 ==>
                                (r.bs[j] != null ==> unchanged(r.bs[j])) && (r.bSz[j] != null ==> unchanged(r.bSz[j])))
    ensures forall j :: 0 <= j < 4 && !r.Wanted(j) ==>
                          (r.bs[j] != null ==> unchanged(r.bs[j])) && (r.bSz[j] != null ==> unchanged(r.bSz[j]))
    ensures env.faults == old(env.faults) ==>
              (ret == SUCCESS <==> forall j :: 0 <= j < 4 && r.Wanted(j) ==> Base16Decode(r.hex[j].value).Some?)
    ensures ret == MEMORY_E ==> env.faults > old(env.faults)
  {
    var at;
    ret, at, blocks := FillSlots(env, r);
    last := at;
    if ret != 0 {
      Unwind(env, r, at, blocks, old(env.live));
      return;
    }
    ret := SUCCESS;
  }

  lemma OneBlock(blocks: seq<array?<byte>>)
    requires |blocks| == 4 && blocks[0] != null && blocks[1] == null && blocks[2] == null && blocks[3] == null
    ensures BlockSet(blocks) == {blocks[0]}
  {
    assert blocks[0] in BlockSet(blocks);
  }

  /** The call as most callers make it: one text, the other nine arguments NULL. */
  method ConvertOne(env: Env, text: seq<byte>) returns (ret: int, p: array?<byte>, n: nat)
    modifies env
    ensures env.Since(old(env.faults))
    ensures ret == SUCCESS ==>
              && p != null && fresh(p) && p !in old(env.live) && env.live == old(env.live) + {p}
              && Base16Decode(text) == Some(p[..]) && n == |text| / 2
    ensures ret != SUCCESS ==> p == null && n == 0 && env.live == old(env.live)
    ensures env.faults == old(env.faults) ==> (ret == SUCCESS <==> Base16Decode(text).Some?)
    ensures ret == MEMORY_E ==> env.faults > old(env.faults)
  {
    hide Base16Decode, BlockSet;
    var cell := new BufCell();
    var len := new LenCell();
    var request := Request([Some(text), None, None, None], [cell, null, null, null], [len, null, null, null]);
    assert request.Wanted(0);
    ghost var last, blocks;
    ret, last, blocks := Convert(env, request);
    p, n := cell.p, len.n;
    if ret == SUCCESS {
      OneBlock(blocks);
      assert request.Decoded(0);
    }
  }

  /** Converting the hex text of some bytes, in any mixture of cases, gives a block of those bytes. */
  method ConvertText(env: Env, bytes: seq<byte>, upper: nat -> bool) returns (ret: int, p: array?<byte>, n: nat)
    modifies env
    ensures env.Since(old(env.faults))
    ensures env.faults == old(env.faults) ==> ret == SUCCESS
    ensures ret == SUCCESS ==> p != null && p[..] == bytes && n == |bytes|
  {
    hide Base16Decode, HexText;
    HexRoundTrip(bytes, upper);
    ret, p, n := ConvertOne(env, HexText(bytes, upper));
  }
}
