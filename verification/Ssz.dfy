/** SSZ lists of variable-size identifiers: the two-pass in-place encoders and the decoding rules they must satisfy. */
module Ssz {
  import opened Base

  const MAX_IDENTIFIERS: nat := 128
  const MAX_COLUMNS: nat := 128
  const MAX_PROOF_TYPES: nat := 4
  const FIXED: nat := 36
  const MAX_INT: int := 0x7fff_ffff_ffff_ffff

  type Root = r: seq<Byte> | |r| == 32 witness seq(32, _ => 0)

  // A list of parts: one 4-byte offset each, then the parts themselves.

  /** Where part `i` starts, and for i == |parts| where the buffer ends. */
  function OffsetAt(parts: seq<seq<Byte>>, i: nat): nat
    requires i <= |parts|
  {
    4 * |parts| + |Concat(parts[..i])|
  }

  /** The first `i` entries of the offset table. */
  function Offsets(parts: seq<seq<Byte>>, i: nat): (r: seq<Byte>)
    requires i <= |parts|
    ensures |r| == 4 * i
  {
    if i == 0 then [] else Offsets(parts, i - 1) + LittleEndian(OffsetAt(parts, i - 1), 4)
  }

  function EncodeParts(parts: seq<seq<Byte>>): seq<Byte>
  {
    Offsets(parts, |parts|) + Concat(parts)
  }

  lemma {:induction false} OffsetEnds(parts: seq<seq<Byte>>)
    ensures OffsetAt(parts, 0) == 4 * |parts|
    ensures OffsetAt(parts, |parts|) == |EncodeParts(parts)|
  {
    assert parts[..0] == [] && parts[..|parts|] == parts;
  }

  lemma {:induction false} OffsetStep(parts: seq<seq<Byte>>, i: nat)
    requires i < |parts|
    ensures OffsetAt(parts, i + 1) == OffsetAt(parts, i) + |parts[i]|
  {
    ConcatNext(parts, i);
  }

  lemma {:induction false} OffsetsGrow(parts: seq<seq<Byte>>, i: nat, j: nat)
    requires i <= j <= |parts|
    ensures OffsetAt(parts, i) <= OffsetAt(parts, j)
    decreases j
  {
    if i < j {
      OffsetsGrow(parts, i, j - 1);
      OffsetStep(parts, j - 1);
    }
  }

  /** The offsets start after the table, increase by the length of each part and end at the end of the buffer. */
  lemma {:induction false} OffsetsTile(parts: seq<seq<Byte>>)
    ensures OffsetAt(parts, 0) == 4 * |parts|
    ensures forall i :: 0 <= i < |parts| ==> OffsetAt(parts, i + 1) == OffsetAt(parts, i) + |parts[i]|
    ensures OffsetAt(parts, |parts|) == |EncodeParts(parts)|
    ensures forall i :: 0 <= i < |parts| ==>
      OffsetAt(parts, i) + |parts[i]| <= |EncodeParts(parts)| &&
      EncodeParts(parts)[OffsetAt(parts, i)..OffsetAt(parts, i) + |parts[i]|] == parts[i]
  {
    OffsetEnds(parts);
    forall i | 0 <= i < |parts|
      ensures OffsetAt(parts, i + 1) == OffsetAt(parts, i) + |parts[i]|
      ensures OffsetAt(parts, i) + |parts[i]| <= |EncodeParts(parts)|
      ensures EncodeParts(parts)[OffsetAt(parts, i)..OffsetAt(parts, i) + |parts[i]|] == parts[i]
    {
      OffsetStep(parts, i);
      PartInPlace(parts, i);
    }
  }

  lemma {:induction false} PartInPlace(parts: seq<seq<Byte>>, i: nat)
    requires i < |parts|
    ensures OffsetAt(parts, i) + |parts[i]| <= |EncodeParts(parts)|
    ensures EncodeParts(parts)[OffsetAt(parts, i)..OffsetAt(parts, i) + |parts[i]|] == parts[i]
  {
    var before, after := Concat(parts[..i]), Concat(parts[i + 1..]);
    assert Concat(parts) == before + (parts[i] + after) by {
      assert parts == parts[..i] + parts[i..];
      ConcatAppend(parts[..i], parts[i..]);
      assert parts[i..][1..] == parts[i + 1..];
    }
    var table := Offsets(parts, |parts|);
    assert EncodeParts(parts) == (table + before) + parts[i] + after;
  }

  /** The table holds each offset, as long as it fits 32 bits. */
  lemma {:induction false} TableEntry(parts: seq<seq<Byte>>, i: nat, n: nat)
    requires i < n <= |parts| && OffsetAt(parts, i) < TWO32
    ensures FromLittleEndian(Offsets(parts, n)[4 * i..4 * i + 4]) == OffsetAt(parts, i)
    decreases n
  {
    if i == n - 1 {
      assert Offsets(parts, n)[4 * i..4 * i + 4] == LittleEndian(OffsetAt(parts, i), 4);
      Pow256Values();
      LittleEndianRoundTrip(OffsetAt(parts, i), 4);
    } else {
      TableEntry(parts, i, n - 1);
      assert Offsets(parts, n)[4 * i..4 * i + 4] == Offsets(parts, n - 1)[4 * i..4 * i + 4];
    }
  }

  // Decoding, by the SSZ rules for a list of variable-size elements.

  function Offset(b: seq<Byte>, i: nat): nat
    requires 4 * i + 4 <= |b|
  {
    FromLittleEndian(b[4 * i..4 * i + 4])
  }

  /** The parts from number `i` on; each runs to the next offset, the last to the end. */
  function Cut(b: seq<Byte>, i: nat, n: nat): Option<seq<seq<Byte>>>
    requires i <= n && 4 * n <= |b|
    decreases n - i
  {
    if i == n then Some([])
    else
      var start, end := Offset(b, i), if i + 1 == n then |b| else Offset(b, i + 1);
      if start > end || end > |b| then None
      else
        var tail := Cut(b, i + 1, n);
        if tail.None? then None else Some([b[start..end]] + tail.value)
  }

  function DecodeParts(b: seq<Byte>): Option<seq<seq<Byte>>>
  {
    if b == [] then Some([])
    else if |b| < 4 then None
    else
      var first := Offset(b, 0);
      if first == 0 || first % 4 != 0 || first > |b| then None else Cut(b, 0, first / 4)
  }

  lemma {:induction false} EncodedOffset(parts: seq<seq<Byte>>, i: nat)
    requires i < |parts| && |EncodeParts(parts)| < TWO32
    ensures 4 * i + 4 <= |EncodeParts(parts)| && Offset(EncodeParts(parts), i) == OffsetAt(parts, i) < TWO32
  {
    OffsetEnds(parts);
    OffsetsGrow(parts, i, |parts|);
    TableEntry(parts, i, |parts|);
    assert EncodeParts(parts)[4 * i..4 * i + 4] == Offsets(parts, |parts|)[4 * i..4 * i + 4];
  }

  lemma {:induction false} CutRecovers(parts: seq<seq<Byte>>, i: nat)
    requires i <= |parts| && |EncodeParts(parts)| < TWO32
    ensures Cut(EncodeParts(parts), i, |parts|) == Some(parts[i..])
    decreases |parts| - i
  {
    if i < |parts| {
      EncodedOffset(parts, i);
      if i + 1 < |parts| { EncodedOffset(parts, i + 1); }
      OffsetEnds(parts);
      OffsetStep(parts, i);
      OffsetsGrow(parts, i + 1, |parts|);
      PartInPlace(parts, i);
      CutRecovers(parts, i + 1);
      assert [parts[i]] + parts[i + 1..] == parts[i..];
    } else {
      assert parts[i..] == [];
    }
  }

  lemma {:induction false} PartsRoundTrip(parts: seq<seq<Byte>>)
    requires |EncodeParts(parts)| < TWO32
    ensures DecodeParts(EncodeParts(parts)) == Some(parts)
  {
    if parts == [] {
      assert EncodeParts(parts) == [];
    } else {
      EncodedOffset(parts, 0);
      OffsetEnds(parts);
      OffsetsGrow(parts, 0, |parts|);
      CutRecovers(parts, 0);
      assert parts[0..] == parts;
    }
  }

  // Elements: a root, the fixed offset 36, and a tail.

  function Element(root: Root, tail: seq<Byte>): (r: seq<Byte>)
    ensures |r| == FIXED + |tail|
  {
    root + LittleEndian(FIXED, 4) + tail
  }

  lemma {:induction false} ElementSnoc(root: Root, tail: seq<Byte>, more: seq<Byte>)
    ensures Element(root, tail) + more == Element(root, tail + more)
  {
  }

  function SplitElement(b: seq<Byte>): Option<(Root, seq<Byte>)>
  {
    if |b| < FIXED || FromLittleEndian(b[32..36]) != FIXED then None else Some((b[..32], b[36..]))
  }

  lemma {:induction false} ElementRoundTrip(root: Root, tail: seq<Byte>)
    ensures SplitElement(Element(root, tail)) == Some((root, tail))
  {
    var b := Element(root, tail);
    Pow256Values();
    LittleEndianRoundTrip(FIXED, 4);
    assert b[..32] == root && b[32..36] == LittleEndian(FIXED, 4) && b[36..] == tail;
  }

  /** A list of uint64, first `n` of them. */
  function Words(columns: seq<Uint64>, n: nat): (r: seq<Byte>)
    requires n <= |columns|
    ensures |r| == 8 * n
  {
    if n == 0 then [] else Words(columns, n - 1) + LittleEndian(columns[n - 1], 8)
  }

  function ReadWords(b: seq<Byte>): Option<seq<nat>>
  {
    if b == [] then Some([])
    else if |b| < 8 then None
    else
      var front := ReadWords(b[..|b| - 8]);
      if front.None? then None else Some(front.value + [FromLittleEndian(b[|b| - 8..])])
  }

  lemma {:induction false} WordsRoundTrip(columns: seq<Uint64>, n: nat)
    requires n <= |columns|
    ensures ReadWords(Words(columns, n)) == Some(columns[..n])
  {
    if n > 0 {
      WordsRoundTrip(columns, n - 1);
      var b := Words(columns, n);
      assert b[..|b| - 8] == Words(columns, n - 1) && b[|b| - 8..] == LittleEndian(columns[n - 1], 8);
      Pow256Values();
      LittleEndianRoundTrip(columns[n - 1], 8);
      assert columns[..n] == columns[..n - 1] + [columns[n - 1]];
    }
  }

  // Writing into a buffer in place.

  function Spliced(s: seq<Byte>, at: nat, data: seq<Byte>): (r: seq<Byte>)
    requires at + |data| <= |s|
    ensures |r| == |s|
  {
    s[..at] + data + s[at + |data|..]
  }

  lemma {:induction false} SplicedTwice(s: seq<Byte>, at: nat, a: seq<Byte>, b: seq<Byte>)
    requires at + |a| + |b| <= |s|
    ensures Spliced(Spliced(s, at, a), at + |a|, b) == Spliced(s, at, a + b)
  {
  }

  /** copy(out[at:], data), and binary.LittleEndian.PutUint32/64 with `data` the encoded number. */
  method Put(out: array<Byte>, at: nat, data: seq<Byte>)
    requires at + |data| <= out.Length
    modifies out
    ensures out[..] == Spliced(old(out[..]), at, data)
  {
    for i := 0 to |data|
      invariant forall k :: 0 <= k < i ==> out[at + k] == data[k]
      invariant forall k :: 0 <= k < out.Length && !(at <= k < at + i) ==> out[k] == old(out[k])
    {
      out[at + i] := data[i];
    }
    assert forall k :: at <= k < at + |data| ==> out[k] == data[k - at] by {
      forall k | at <= k < at + |data| ensures out[k] == data[k - at] { assert out[at + (k - at)] == data[k - at]; }
    }
  }

  method PutHead(out: array<Byte>, at: nat, root: Root)
    requires at + FIXED <= out.Length
    modifies out
    ensures out[..] == Spliced(old(out[..]), at, Element(root, []))
  {
    Put(out, at, root);
    Put(out, at + 32, LittleEndian(FIXED, 4));
    SplicedTwice(old(out[..]), at, root, LittleEndian(FIXED, 4));
    assert Element(root, []) == root + LittleEndian(FIXED, 4);
  }

  /** The buffer after the first `i` parts and their offsets have been written. */
  ghost predicate Laid(s: seq<Byte>, parts: seq<seq<Byte>>, i: nat)
    requires i <= |parts|
  {
    && |s| == |EncodeParts(parts)| == OffsetAt(parts, |parts|)
    && 4 * |parts| <= OffsetAt(parts, i) <= |s|
    && s[..4 * i] == Offsets(parts, i)
    && s[4 * |parts|..OffsetAt(parts, i)] == Concat(parts[..i])
  }

  lemma {:induction false} LaidStart(s: seq<Byte>, parts: seq<seq<Byte>>)
    requires |s| == 4 * |parts| + |Concat(parts)|
    ensures Laid(s, parts, 0)
  {
    OffsetEnds(parts);
    OffsetsGrow(parts, 0, |parts|);
  }

  lemma {:induction false} LaidStep(s: seq<Byte>, parts: seq<seq<Byte>>, i: nat)
    requires i < |parts| && Laid(s, parts, i)
    ensures 4 * i + 4 <= OffsetAt(parts, i) && OffsetAt(parts, i) + |parts[i]| <= |s|
    ensures var at := OffsetAt(parts, i);
      Laid(Spliced(Spliced(s, 4 * i, LittleEndian(at, 4)), at, parts[i]), parts, i + 1)
  {
    var entry, at := LittleEndian(OffsetAt(parts, i), 4), OffsetAt(parts, i);
    OffsetStep(parts, i);
    OffsetsGrow(parts, i + 1, |parts|);
    ConcatNext(parts, i);
    var t := Spliced(s, 4 * i, entry);
    var u := Spliced(t, at, parts[i]);
    assert u[..4 * (i + 1)] == Offsets(parts, i) + entry;
    assert u[4 * |parts|..at] == s[4 * |parts|..at];
    assert u[at..at + |parts[i]|] == parts[i];
    assert u[4 * |parts|..at + |parts[i]|] == u[4 * |parts|..at] + u[at..at + |parts[i]|];
  }

  lemma {:induction false} LaidEnd(s: seq<Byte>, parts: seq<seq<Byte>>)
    requires Laid(s, parts, |parts|)
    ensures s == EncodeParts(parts)
  {
    assert parts[..|parts|] == parts;
    assert s == s[..4 * |parts|] + s[4 * |parts|..];
  }

  // DataColumnSidecarsByRoot requests.

  datatype ColumnIdentifier = ColumnIdentifier(root: Root, columns: seq<Uint64>)

  function EncodeColumns(id: ColumnIdentifier): (r: seq<Byte>)
    ensures |r| == FIXED + 8 * |id.columns|
  {
    Element(id.root, Words(id.columns, |id.columns|))
  }

  function ColumnParts(ids: seq<ColumnIdentifier>): (r: seq<seq<Byte>>)
    ensures |r| == |ids|
  {
    seq(|ids|, i requires 0 <= i < |ids| => EncodeColumns(ids[i]))
  }

  predicate ColumnsWithinBounds(ids: seq<ColumnIdentifier>)
  {
    |ids| <= MAX_IDENTIFIERS && forall i :: 0 <= i < |ids| ==> |ids[i].columns| <= MAX_COLUMNS
  }

  datatype SszResult = Encoded(bytes: seq<Byte>) | TooMany | LengthOverflow

  lemma {:induction false} WordFollows(s: seq<Byte>, at: nat, id: ColumnIdentifier, j: nat)
    requires j < |id.columns| && at + FIXED + 8 * |id.columns| <= |s|
    ensures var done := Spliced(s, at, Element(id.root, Words(id.columns, j)));
      Spliced(done, at + FIXED + 8 * j, LittleEndian(id.columns[j], 8))
        == Spliced(s, at, Element(id.root, Words(id.columns, j + 1)))
  {
    var done, word := Words(id.columns, j), LittleEndian(id.columns[j], 8);
    SplicedTwice(s, at, Element(id.root, done), word);
    ElementSnoc(id.root, done, word);
  }

  method WriteColumns(out: array<Byte>, at: nat, id: ColumnIdentifier)
    requires at + FIXED + 8 * |id.columns| <= out.Length
    modifies out
    ensures out[..] == Spliced(old(out[..]), at, EncodeColumns(id))
  {
    ghost var before := out[..];
    PutHead(out, at, id.root);
    assert Words(id.columns, 0) == [];
    for j := 0 to |id.columns|
      invariant out[..] == Spliced(before, at, Element(id.root, Words(id.columns, j)))
    {
      WordFollows(before, at, id, j);
      var word := LittleEndian(id.columns[j], 8);
      Put(out, at + FIXED + 8 * j, word);
    }
  }

  /** The second pass: each offset into the table and each identifier into its place. */
  method FillColumns(out: array<Byte>, ids: seq<ColumnIdentifier>)
    requires out.Length == OffsetAt(ColumnParts(ids), |ids|)
    modifies out
    ensures out[..] == EncodeParts(ColumnParts(ids))
  {
    ghost var parts := ColumnParts(ids);
    var offset := 4 * |ids|;
    OffsetEnds(parts);
    LaidStart(out[..], parts);
    for i := 0 to |ids|
      invariant offset == OffsetAt(parts, i)
      invariant Laid(out[..], parts, i)
    {
      ghost var before := out[..];
      LaidStep(before, parts, i);
      OffsetStep(parts, i);
      Put(out, 4 * i, LittleEndian(offset, 4));
      WriteColumns(out, offset, ids[i]);
      assert out[..] == Spliced(Spliced(before, 4 * i, LittleEndian(offset, 4)), offset, parts[i]);
      offset := offset + FIXED + 8 * |ids[i].columns|;
    }
    LaidEnd(out[..], parts);
  }

  method SSZDataColumnsByRootIdentifiers(ids: seq<ColumnIdentifier>) returns (r: SszResult)
    ensures r ==
      if |ids| <= 128 && forall i :: 0 <= i < |ids| ==> |ids[i].columns| <= 128
      then Encoded(EncodeParts(ColumnParts(ids))) else TooMany
  {
    if |ids| > MAX_IDENTIFIERS { return TooMany; }
    ghost var parts := ColumnParts(ids);
    var prefixSize := 4 * |ids|;
    var totalSize := prefixSize;
    for i := 0 to |ids|
      invariant totalSize == OffsetAt(parts, i) <= 4 * |ids| + (FIXED + 8 * MAX_COLUMNS) * i
      invariant forall k :: 0 <= k < i ==> |ids[k].columns| <= MAX_COLUMNS
    {
      if |ids[i].columns| > MAX_COLUMNS { return TooMany; }
      var identifierSize := FIXED + 8 * |ids[i].columns|;
      OffsetStep(parts, i);
      if totalSize > MAX_INT - identifierSize {
        assert false;
        return LengthOverflow;
      }
      totalSize := totalSize + identifierSize;
    }
    assert parts[..|parts|] == parts;
    var out := new Byte[totalSize](_ => 0);
    FillColumns(out, ids);
    return Encoded(out[..]);
  }

  lemma {:induction false} PartsSize(parts: seq<seq<Byte>>, i: nat, each: nat)
    requires i <= |parts| && forall k :: 0 <= k < |parts| ==> |parts[k]| <= each
    ensures |Concat(parts[..i])| <= i * each
  {
    if i > 0 {
      PartsSize(parts, i - 1, each);
      ConcatNext(parts, i - 1);
    }
  }

  /** Within the bounds the whole request is small, so neither the int nor the uint32 conversions can overflow. */
  lemma {:induction false} SizeBounded(parts: seq<seq<Byte>>, each: nat)
    requires |parts| <= MAX_IDENTIFIERS && forall k :: 0 <= k < |parts| ==> |parts[k]| <= each
    ensures |EncodeParts(parts)| == OffsetAt(parts, |parts|) <= 4 * MAX_IDENTIFIERS + MAX_IDENTIFIERS * each
  {
    OffsetEnds(parts);
    PartsSize(parts, |parts|, each);
    MulMonotonic(|parts|, MAX_IDENTIFIERS, each);
  }

  lemma {:induction false} MulMonotonic(a: nat, b: nat, c: nat)
    requires a <= b
    ensures a * c <= b * c
  {
  }

  function DecodeColumns(b: seq<Byte>): Option<(Root, seq<nat>)>
  {
    var e := SplitElement(b);
    if e.None? then None
    else
      var words := ReadWords(e.value.1);
      if words.None? then None else Some((e.value.0, words.value))
  }

  /** Every request within the bounds is encoded without overflow, and the SSZ rules recover each identifier. */
  lemma {:induction false} ColumnsRoundTrip(ids: seq<ColumnIdentifier>)
    requires ColumnsWithinBounds(ids)
    ensures OffsetAt(ColumnParts(ids), |ids|) < TWO32 <= MAX_INT
    ensures DecodeParts(EncodeParts(ColumnParts(ids))) == Some(ColumnParts(ids))
    ensures forall i :: 0 <= i < |ids| ==> DecodeColumns(ColumnParts(ids)[i]) == Some((ids[i].root, ids[i].columns))
  {
    var parts := ColumnParts(ids);
    SizeBounded(parts, FIXED + 8 * MAX_COLUMNS);
    PartsRoundTrip(parts);
    forall i | 0 <= i < |ids| ensures DecodeColumns(parts[i]) == Some((ids[i].root, ids[i].columns)) {
      var columns := ids[i].columns;
      ElementRoundTrip(ids[i].root, Words(columns, |columns|));
      WordsRoundTrip(columns, |columns|);
      assert columns[..|columns|] == columns;
    }
  }

  // ExecutionProofsByRoot requests.

  datatype ProofIdentifier = ProofIdentifier(root: Root, proofTypes: seq<Byte>)

  function ProofParts(ids: seq<ProofIdentifier>): (r: seq<seq<Byte>>)
    ensures |r| == |ids|
  {
    seq(|ids|, i requires 0 <= i < |ids| => Element(ids[i].root, ids[i].proofTypes))
  }

  predicate ProofsWithinBounds(ids: seq<ProofIdentifier>)
  {
    |ids| <= MAX_IDENTIFIERS && forall i :: 0 <= i < |ids| ==> |ids[i].proofTypes| <= MAX_PROOF_TYPES
  }

  method WriteProof(out: array<Byte>, at: nat, id: ProofIdentifier)
    requires at + FIXED + |id.proofTypes| <= out.Length
    modifies out
    ensures out[..] == Spliced(old(out[..]), at, Element(id.root, id.proofTypes))
  {
    PutHead(out, at, id.root);
    Put(out, at + FIXED, id.proofTypes);
    SplicedTwice(old(out[..]), at, Element(id.root, []), id.proofTypes);
    ElementSnoc(id.root, [], id.proofTypes);
    assert [] + id.proofTypes == id.proofTypes;
  }

  /** The second pass: each offset into the table and each identifier into its place. */
  method FillProofs(out: array<Byte>, ids: seq<ProofIdentifier>)
    requires out.Length == OffsetAt(ProofParts(ids), |ids|)
    modifies out
    ensures out[..] == EncodeParts(ProofParts(ids))
  {
    ghost var parts := ProofParts(ids);
    var offset := 4 * |ids|;
    OffsetEnds(parts);
    LaidStart(out[..], parts);
    for i := 0 to |ids|
      invariant offset == OffsetAt(parts, i)
      invariant Laid(out[..], parts, i)
    {
      ghost var before := out[..];
      LaidStep(before, parts, i);
      OffsetStep(parts, i);
      Put(out, 4 * i, LittleEndian(offset, 4));
      WriteProof(out, offset, ids[i]);
      assert out[..] == Spliced(Spliced(before, 4 * i, LittleEndian(offset, 4)), offset, parts[i]);
      offset := offset + FIXED + |ids[i].proofTypes|;
    }
    LaidEnd(out[..], parts);
  }

  method SSZExecutionProofsByRoot(ids: seq<ProofIdentifier>) returns (r: Option<seq<Byte>>)
    ensures r ==
      if |ids| <= 128 && forall i :: 0 <= i < |ids| ==> |ids[i].proofTypes| <= 4
      then Some(EncodeParts(ProofParts(ids))) else None
  {
    if |ids| > MAX_IDENTIFIERS { return None; }
    ghost var parts := ProofParts(ids);
    var total := 4 * |ids|;
    for i := 0 to |ids|
      invariant total == OffsetAt(parts, i)
      invariant forall k :: 0 <= k < i ==> |ids[k].proofTypes| <= MAX_PROOF_TYPES
    {
      if |ids[i].proofTypes| > MAX_PROOF_TYPES { return None; }
      OffsetStep(parts, i);
      total := total + FIXED + |ids[i].proofTypes|;
    }
    assert parts[..|parts|] == parts;
    var out := new Byte[total](_ => 0);
    FillProofs(out, ids);
    return Some(out[..]);
  }

  lemma {:induction false} ProofsRoundTrip(ids: seq<ProofIdentifier>)
    requires ProofsWithinBounds(ids)
    ensures OffsetAt(ProofParts(ids), |ids|) < TWO32
    ensures DecodeParts(EncodeParts(ProofParts(ids))) == Some(ProofParts(ids))
    ensures forall i :: 0 <= i < |ids| ==> SplitElement(ProofParts(ids)[i]) == Some((ids[i].root, ids[i].proofTypes))
  {
    var parts := ProofParts(ids);
    SizeBounded(parts, FIXED + MAX_PROOF_TYPES);
    PartsRoundTrip(parts);
    forall i | 0 <= i < |ids| ensures SplitElement(parts[i]) == Some((ids[i].root, ids[i].proofTypes)) {
      ElementRoundTrip(ids[i].root, ids[i].proofTypes);
    }
  }
}
