/** The cache of codes (rs.c:48-76) and the promise of the whole codec: any k
    packets of a group restore the data. */
module ErasureCode {
  import opened Field
  import opened Linear
  import opened CodeTheory
  import opened Codec
  import opened ReedSolomon

  class CodeTable {
    var table: map<(nat, nat), Code>

    ghost predicate Valid()
      reads this, set c: Code | c in table.Values :: c, set c: Code | c in table.Values :: c.encMatrix
    {
      forall key :: key in table ==>
        table[key].Valid() && table[key].k == key.0 && table[key].n == key.1
    }

    constructor ()
      ensures Valid() && table == map[]
    {
      table := map[];
    }

    /** get_code: null only for k > n, since the table has 256 columns. */
    method GetCode(k: nat, n: nat) returns (code: Code?)
      requires Valid() && 0 < k < 256 && n < 256
      modifies this
      ensures Valid()
      ensures code == null <==> k > n
      ensures code != null ==> code.Valid() && code.k == k && code.n == n
      ensures table == if code == null then old(table) else old(table)[(k, n) := code]
      ensures (k, n) in old(table) ==> code == old(table)[(k, n)]
      ensures code != null && (k, n) !in old(table) ==> fresh(code) && fresh(code.encMatrix)
    {
      hide Code.Valid;
      if (k, n) in table {
        CodeRange(table[(k, n)]);
        assert table == table[(k, n) := table[(k, n)]];
        return table[(k, n)];
      }
      code := FecNew(k, n);
      if code != null {
        table := table[(k, n) := code];
      }
    }

    /** rs_encode2 on the packets of one group: the codeword of the data. The
        packets are copied into buffers of their own and out again. */
    method Encode2(k: nat, n: nat, data: seq<Vec>, size: nat) returns (c: seq<Vec>)
      requires Valid() && 0 < k <= n < 256 && |data| == k && forall i :: 0 <= i < k ==> |data[i]| == size
      modifies this
      ensures Valid() && c == Codeword(data, n, size)
    {
      hide Code.Valid, CodeTable.Valid, Codeword, Buffers, Packets;
      var code := GetCode(k, n);
      var slots := Load(data, n, size);
      RsEncode(code, slots, size);
      c := Unload(slots, n, size);
    }

    /** rs_decode2 on the packets that arrived. */
    method Decode2(k: nat, n: nat, slots: array<Slot>, size: nat, ghost orig: seq<Vec>) returns (code: int)
      requires Valid() && 0 < k <= n < 256 && slots.Length == n && DistinctSlots(slots[..], size) && |orig| == k
      requires k <= |Positions(slots[..])| && Survivors(slots[..], orig, size)
      modifies this, slots, slots[..]
      ensures Valid() && code == 0 && Buffers(slots[..k], size) && Packets(slots[..k], size) == orig
    {
      hide Code.Valid, CodeTable.Valid, Survivors, Packets, Positions, DistinctSlots, Buffers;
      var rs := GetCode(k, n);
      code := RsDecode(rs, slots, size, orig);
    }
  }

  /** n buffers of their own, the first with the data in them. */
  method Load(data: seq<Vec>, n: nat, size: nat) returns (slots: array<Slot>)
    requires |data| <= n && forall i :: 0 <= i < |data| ==> |data[i]| == size
    ensures fresh(slots) && slots.Length == n && Buffers(slots[..n], size) && fresh(slots[..])
    ensures Packets(slots[..n], size)[..|data|] == data
  {
    slots := new Slot[n](_ => null);
    for i := 0 to n
      invariant forall j :: 0 <= j < i ==> slots[j] != null && fresh(slots[j]) && slots[j].Length == size
      invariant forall j, l :: 0 <= j < l < i ==> slots[j] != slots[l]
      invariant forall j :: 0 <= j < i && j < |data| ==> slots[j][..size] == data[j]
      modifies slots
    {
      var buffer := new Gf[size](b requires 0 <= b < size => if i < |data| then data[i][b] else 0);
      slots[i] := buffer;
      assert i < |data| ==> slots[i][..size] == data[i];
    }
    ghost var p := Packets(slots[..n], size);
    forall j | 0 <= j < |data| ensures p[..|data|][j] == data[j] {
      assert slots[..n][j] == slots[j];
    }
  }

  method Unload(slots: array<Slot>, n: nat, size: nat) returns (c: seq<Vec>)
    requires n <= slots.Length && Buffers(slots[..n], size)
    ensures c == Packets(slots[..n], size)
  {
    c := [];
    for i := 0 to n
      invariant |c| == i && forall j :: 0 <= j < i ==> c[j] == Packets(slots[..n], size)[j]
    {
      assert slots[..n][i] == slots[i];
      c := c + [slots[i][..size]];
    }
  }

  lemma CodeRange(code: Code)
    requires code.Valid()
    ensures 0 < code.k <= code.n <= 256
  {
  }

  lemma {:induction false} DistinctEntries(keep: set<nat>, r: seq<nat>)
    requires forall i :: i in keep ==> i in r
    ensures |keep| <= |r|
  {
    if r != [] {
      var l := r[|r| - 1];
      DistinctEntries(keep - {l}, r[..|r| - 1]);
      assert |keep| <= |keep - {l}| + 1 by {
        if l in keep { assert keep == (keep - {l}) + {l}; } else { assert keep == keep - {l}; }
      }
    }
  }

  /** Losing a packet means its slot becomes null. */
  method Lose(data: array<Slot>, keep: set<nat>)
    modifies data
    ensures forall i :: 0 <= i < data.Length ==> data[i] == if i in keep then old(data[i]) else null
  {
    for i := 0 to data.Length
      invariant forall j :: 0 <= j < data.Length ==> data[j] == if j < i && j !in keep then null else old(data[j])
    {
      if i !in keep {
        data[i] := null;
      }
    }
  }

  /** Any k of n: encode a group, lose everything outside keep, and decode.
      Whenever at least k packets are kept, the data packets come back in
      order. */
  method EncodeLoseDecode(code: Code, data: array<Slot>, size: nat, keep: set<nat>) returns (result: int)
    requires code.Valid() && code.n == data.Length && Buffers(data[..], size)
    requires (forall i :: i in keep ==> i < code.n) && |keep| >= code.k
    modifies data, data[..]
    ensures result == 0 && code.k <= data.Length && Buffers(data[..code.k], size)
    ensures Packets(data[..code.k], size) == old(Packets(data[..], size))[..code.k]
  {
    hide Packets, Code.Valid, Positions, EncodePacket, Survivors, DistinctSlots;
    CodeRange(code);
    ghost var d := Packets(data[..], size)[..code.k];
    assert data[..] == data[..code.n];
    RsEncode(code, data, size);
    ghost var full := data[..];
    assert full == data[..code.n];
    Lose(data, keep);
    ghost var s := data[..];
    KeptAreSurvivors(full, s, keep, d, code.n, size);
    DistinctEntries(keep, Positions(s));
    result := RsDecode(code, data, size, d);
  }

  lemma KeptAreSurvivors(full: seq<Slot>, s: seq<Slot>, keep: set<nat>, d: seq<Vec>, n: nat, size: nat)
    requires |full| == |s| == n && Buffers(full, size) && |d| <= 256 && (forall i :: 0 <= i < |d| ==> |d[i]| == size)
    requires forall i :: i in keep ==> i < n
    requires forall i :: 0 <= i < n ==> s[i] == if i in keep then full[i] else null
    requires Packets(full, size) == Codeword(d, n, size)
    ensures DistinctSlots(s, size) && Survivors(s, d, size)
    ensures forall i :: i in keep ==> i in Positions(s)
  {
    hide EncodePacket, Positions;
    forall i | i in keep ensures i in Positions(s) {
      PositionsComplete(s, i);
    }
    forall i | 0 <= i < n ensures full[i][..size] == EncodePacket(d, i, size) {
      assert Packets(full, size)[i] == Codeword(d, n, size)[i];
    }
  }
}
