/** The SSZ requests byte by byte. */
module SszBytes {
  import opened Base
  import opened Ssz

  /** The low four digits to the base 256, least significant first. */
  function Four(v: nat): seq<Byte> { [Digit(v, 0), Digit(v, 1), Digit(v, 2), Digit(v, 3)] }

  lemma {:induction false} FourIs(v: nat)
    ensures LittleEndian(v, 4) == Four(v)
  {
    forall k | 0 <= k < 4 ensures LittleEndian(v, 4)[k] == Four(v)[k] { LittleEndianAt(v, 4, k); }
  }

  function Eight(v: nat): seq<Byte>
  {
    Four(v) + [Digit(v, 4), Digit(v, 5), Digit(v, 6), Digit(v, 7)]
  }

  lemma {:induction false} EightIs(v: nat)
    ensures LittleEndian(v, 8) == Eight(v)
  {
    forall k | 0 <= k < 8 ensures LittleEndian(v, 8)[k] == Eight(v)[k] { LittleEndianAt(v, 8, k); }
  }

  /** An offset in the table is four bytes, least significant first. */
  lemma {:induction false} TableBytes(parts: seq<seq<Byte>>, i: nat, n: nat)
    requires i < n <= |parts|
    ensures Offsets(parts, n)[4 * i..4 * i + 4] == Four(OffsetAt(parts, i))
    decreases n
  {
    if i == n - 1 {
      FourIs(OffsetAt(parts, i));
    } else {
      TableBytes(parts, i, n - 1);
      assert Offsets(parts, n)[4 * i..4 * i + 4] == Offsets(parts, n - 1)[4 * i..4 * i + 4];
    }
  }

  /** A root, the offset 36 in four bytes, and the tail. */
  lemma {:induction false} ElementBytes(root: Root, tail: seq<Byte>)
    ensures var e := Element(root, tail);
      |e| == 36 + |tail| && e[..32] == root && e[32..36] == [36, 0, 0, 0] && e[36..] == tail
  {
    assert LittleEndian(36, 4) == [36] + LittleEndian(0, 3);
    assert LittleEndian(0, 3) == [0] + LittleEndian(0, 2);
    assert LittleEndian(0, 2) == [0] + LittleEndian(0, 1);
    assert LittleEndian(0, 1) == [0] + LittleEndian(0, 0);
  }

  /** Eight bytes for each column, least significant first. */
  lemma {:induction false} WordBytes(columns: seq<Uint64>, n: nat, j: nat)
    requires j < n <= |columns|
    ensures Words(columns, n)[8 * j..8 * j + 8] == Eight(columns[j])
    decreases n
  {
    if j == n - 1 {
      EightIs(columns[j]);
    } else {
      WordBytes(columns, n - 1, j);
      assert Words(columns, n)[8 * j..8 * j + 8] == Words(columns, n - 1)[8 * j..8 * j + 8];
    }
  }

  /** Where identifier `i` stands in a DataColumnSidecarsByRoot request, and its bytes there. */
  lemma {:induction false} ColumnsOnWire(ids: seq<ColumnIdentifier>, i: nat, at: nat)
    requires i < |ids| && at == OffsetAt(ColumnParts(ids), i)
    ensures i == 0 ==> at == 4 * |ids|
    ensures OffsetAt(ColumnParts(ids), i + 1) == at + 36 + 8 * |ids[i].columns|
    ensures var e := EncodeParts(ColumnParts(ids));
      && |e| >= at + 36 + 8 * |ids[i].columns| && (i + 1 == |ids| ==> |e| == at + 36 + 8 * |ids[i].columns|)
      && e[4 * i..4 * i + 4] == Four(at)
      && e[at..at + 32] == ids[i].root && e[at + 32..at + 36] == [36, 0, 0, 0]
      && (forall j :: 0 <= j < |ids[i].columns| ==>
            e[at + (36 + 8 * j)..at + (36 + 8 * j + 8)] == Eight(ids[i].columns[j]))
  {
    var parts := ColumnParts(ids);
    var part, columns := parts[i], ids[i].columns;
    PartOnWire(parts, i, at);
    ElementBytes(ids[i].root, Words(columns, |columns|));
    var e := EncodeParts(parts);
    forall j | 0 <= j < |columns|
      ensures e[at + (36 + 8 * j)..at + (36 + 8 * j + 8)] == Eight(columns[j])
    {
      WordBytes(columns, |columns|, j);
      assert e[at + (36 + 8 * j)..at + (36 + 8 * j + 8)] == part[36 + 8 * j..36 + 8 * j + 8];
      assert part[36..][8 * j..8 * j + 8] == part[36 + 8 * j..36 + 8 * j + 8];
    }
  }

  /** The same for an ExecutionProofsByRoot request. */
  lemma {:induction false} ProofsOnWire(ids: seq<ProofIdentifier>, i: nat, at: nat)
    requires i < |ids| && at == OffsetAt(ProofParts(ids), i)
    ensures i == 0 ==> at == 4 * |ids|
    ensures OffsetAt(ProofParts(ids), i + 1) == at + 36 + |ids[i].proofTypes|
    ensures var e, n := EncodeParts(ProofParts(ids)), |ids[i].proofTypes|;
      && |e| >= at + 36 + n && (i + 1 == |ids| ==> |e| == at + 36 + n)
      && e[4 * i..4 * i + 4] == Four(at)
      && e[at..at + 32] == ids[i].root && e[at + 32..at + 36] == [36, 0, 0, 0]
      && e[at + 36..at + 36 + n] == ids[i].proofTypes
  {
    PartOnWire(ProofParts(ids), i, at);
    ElementBytes(ids[i].root, ids[i].proofTypes);
  }

  lemma {:induction false} PartOnWire(parts: seq<seq<Byte>>, i: nat, at: nat)
    requires i < |parts| && at == OffsetAt(parts, i)
    ensures i == 0 ==> at == 4 * |parts|
    ensures OffsetAt(parts, i + 1) == at + |parts[i]|
    ensures var e := EncodeParts(parts);
      && |e| >= at + |parts[i]| && (i + 1 == |parts| ==> |e| == at + |parts[i]|) && |e| >= 4 * i + 4
      && e[4 * i..4 * i + 4] == Four(at)
      && e[at..at + |parts[i]|] == parts[i]
      && (forall j, k :: 0 <= j <= k <= |parts[i]| ==> e[at + j..at + k] == parts[i][j..k])
  {
    OffsetsTile(parts);
    TableBytes(parts, i, |parts|);
    var e := EncodeParts(parts);
    assert e[4 * i..4 * i + 4] == Offsets(parts, |parts|)[4 * i..4 * i + 4];
    forall j, k | 0 <= j <= k <= |parts[i]| ensures e[at + j..at + k] == parts[i][j..k] {
      assert e[at + j..at + k] == e[at..at + |parts[i]|][j..k];
    }
  }
}
