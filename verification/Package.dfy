/**
 The bulk package format: a fixed header, a manifest that carries every operation without its
 data, and one payload holding all the data. The manifest's JSON form and the digest are
 library behaviour, passed in as a `Codec`.
 */
module Package {
  import opened Bytes
  import opened Wrappers
  import opened Journal

  datatype Batch = Batch(relayId: string, batchId: string, firstSeq: u64, lastSeq: u64,
                         operations: seq<Operation>)

  /** An operation as the manifest records it: `op` has no data, and the range says where in
      the payload the data is. */
  datatype WireOperation = WireOperation(op: Operation, dataOffset: u64, dataLength: u64)

  datatype Manifest = Manifest(relayId: string, batchId: string, firstSeq: u64, lastSeq: u64,
                               operations: seq<WireOperation>)

  datatype Codec = Codec(
    marshal: Manifest -> seq<byte>,
    unmarshal: seq<byte> -> Option<Manifest>,
    digest: seq<byte> -> seq<byte>)

  /** The outcome of decoding; `Panic` is a slice taken out of range. */
  datatype Decoded = Batched(batch: Batch, hash: seq<byte>) | Malformed | Panic

  const MAGIC: seq<byte> := [0x53, 0x4d, 0x42, 0x52, 0x42, 0x4c, 0x4b, 0x32]
  const DIGEST_SIZE := 32
  const HEADER_SIZE := 8 + 4 + 8 + DIGEST_SIZE

  ghost predicate ValidCodec(c: Codec) {
    forall b :: |c.digest(b)| == DIGEST_SIZE
  }

  /** The operations' data, end to end. */
  function Payload(ops: seq<Operation>): seq<byte>
  {
    if ops == [] then [] else Payload(ops[..|ops| - 1]) + ops[|ops| - 1].data
  }

  lemma {:induction false} PayloadGrows(ops: seq<Operation>, k: nat)
    requires k <= |ops|
    ensures Payload(ops[..k]) <= Payload(ops)
    decreases |ops| - k
  {
    if k == |ops| {
      assert ops[..k] == ops;
    } else {
      PayloadGrows(ops, k + 1);
      assert ops[..k + 1][..k] == ops[..k];
    }
  }

  function Strip(op: Operation): Operation {
    op.(data := [])
  }

  function Wires(ops: seq<Operation>): seq<WireOperation>
    requires |Payload(ops)| < TWO_TO_THE_63
  {
    if ops == [] then []
    else
      var init, last := ops[..|ops| - 1], ops[|ops| - 1];
      Wires(init) +
      [WireOperation(Strip(last), if last.data == [] then 0 else |Payload(init)|, |last.data|)]
  }

  /** Data ranges are prefix sums over the payload; an operation without data has range 0, 0. */
  lemma {:induction false} WireRanges(ops: seq<Operation>, k: nat)
    requires |Payload(ops)| < TWO_TO_THE_63 && k < |ops|
    ensures |Wires(ops)| == |ops|
    ensures Wires(ops)[k].op == Strip(ops[k])
    ensures Wires(ops)[k].dataOffset == if ops[k].data == [] then 0 else |Payload(ops[..k])|
    ensures Wires(ops)[k].dataLength == |ops[k].data|
  {
    var init := ops[..|ops| - 1];
    if init != [] {
      WireRanges(init, if k < |init| then k else 0);
    }
    if k < |init| {
      assert init[..k] == ops[..k] && init[k] == ops[k];
    } else {
      assert ops[..k] == init;
    }
  }

  function ManifestOf(b: Batch): Manifest
    requires |Payload(b.operations)| < TWO_TO_THE_63
  {
    Manifest(b.relayId, b.batchId, b.firstSeq, b.lastSeq, Wires(b.operations))
  }

  function Layout(c: Codec, b: Batch): seq<byte>
    requires |Payload(b.operations)| < TWO_TO_THE_63
    requires |c.marshal(ManifestOf(b))| < 0x1_0000_0000
  {
    var m := c.marshal(ManifestOf(b));
    var body := m + Payload(b.operations);
    MAGIC + PutBE32(|m|) + PutBE64(|Payload(b.operations)|) + c.digest(body) + body
  }

  /** The backend's `Encode`: fails only when the manifest's length does not fit its field. */
  method Encode(c: Codec, b: Batch) returns (r: Result<(seq<byte>, seq<byte>)>)
    requires |Payload(b.operations)| < TWO_TO_THE_63
    ensures r.Ok? <==> |c.marshal(ManifestOf(b))| < 0x1_0000_0000
    ensures r.Ok? ==> r.value.0 == Layout(c, b)
    ensures r.Ok? ==> r.value.1 == c.digest(c.marshal(ManifestOf(b)) + Payload(b.operations))
  {
    var payload: seq<byte> := [];
    var wires: seq<WireOperation> := [];
    for i := 0 to |b.operations|
      invariant payload == Payload(b.operations[..i])
      invariant |payload| < TWO_TO_THE_63
      invariant wires == Wires(b.operations[..i])
    {
      PayloadGrows(b.operations, i + 1);
      assert b.operations[..i + 1][..i] == b.operations[..i];
      var op := b.operations[i];
      var wire := WireOperation(Strip(op), 0, 0);
      if |op.data| != 0 {
        wire := wire.(dataOffset := |payload|, dataLength := |op.data|);
        payload := payload + op.data;
      }
      wires := wires + [wire];
    }
    assert b.operations[..|b.operations|] == b.operations;
    var m := Manifest(b.relayId, b.batchId, b.firstSeq, b.lastSeq, wires);
    var manifestBytes := c.marshal(m);
    if |manifestBytes| >= 0x1_0000_0000 {
      return Err;
    }
    var body := manifestBytes + payload;
    var sum := c.digest(body);
    var out := MAGIC + PutBE32(|manifestBytes|) + PutBE64(|payload|) + sum + body;
    return Ok((out, sum));
  }

  /** The data range lies in the payload. The source adds in uint64 and refuses a wrapped sum. */
  predicate InPayload(w: WireOperation, payload: seq<byte>) {
    w.dataLength == 0 || w.dataOffset + w.dataLength <= |payload|
  }

  function Attach(w: WireOperation, payload: seq<byte>): Operation
    requires InPayload(w, payload)
  {
    if w.dataLength == 0 then Strip(w.op)
    else w.op.(data := payload[w.dataOffset..w.dataOffset + w.dataLength])
  }

  /** All operations with their data, or nothing when some range leaves the payload. */
  function Attached(ws: seq<WireOperation>, payload: seq<byte>): Option<seq<Operation>>
  {
    if forall k :: 0 <= k < |ws| ==> InPayload(ws[k], payload) then
      Some(seq(|ws|, k requires 0 <= k < |ws| => Attach(ws[k], payload)))
    else None
  }

  /** `spare` is what lies between the length and the capacity of the slice that holds the package:
      the manifest is sliced up to the capacity, the payload only up to the length. */
  function Decode(c: Codec, data: seq<byte>, spare: seq<byte>): Decoded
  {
    if |data| < HEADER_SIZE || data[..8] != MAGIC then Malformed
    else
      var manifestLength, payloadLength := GetBE32(data[8..12]), GetBE64(data[12..20]);
      var body := data[HEADER_SIZE..];
      if |body| != (manifestLength + payloadLength) % TWO_TO_THE_64 then Malformed
      else if c.digest(body) != data[20..HEADER_SIZE] then Malformed
      else if manifestLength > |body| + |spare| then Panic
      else
        match c.unmarshal((body + spare)[..manifestLength])
        case None => Malformed
        case Some(m) =>
          if manifestLength > |body| then Panic
          else
            FromManifest(m, body[manifestLength..], c.digest(body))
  }

  function FromManifest(m: Manifest, payload: seq<byte>, hash: seq<byte>): Decoded {
    match Attached(m.operations, payload)
    case None => Malformed
    case Some(ops) => Batched(Batch(m.relayId, m.batchId, m.firstSeq, m.lastSeq, ops), hash)
  }

  /** The loop over the manifest's operations, with the source's wrapping addition. */
  method DecodeOperations(ws: seq<WireOperation>, payload: seq<byte>) returns (r: Option<seq<Operation>>)
    requires |payload| < TWO_TO_THE_63
    ensures r == Attached(ws, payload)
  {
    var ops: seq<Operation> := [];
    for i := 0 to |ws|
      invariant |ops| == i
      invariant forall k :: 0 <= k < i ==> InPayload(ws[k], payload) && ops[k] == Attach(ws[k], payload)
    {
      var op := Strip(ws[i].op);
      if ws[i].dataLength != 0 {
        var end := (ws[i].dataOffset + ws[i].dataLength) % TWO_TO_THE_64;
        if end < ws[i].dataOffset || end > |payload| {
          return None;
        }
        op := op.(data := payload[ws[i].dataOffset..end]);
      }
      ops := ops + [op];
    }
    assert ops == Attached(ws, payload).value;
    return Some(ops);
  }

  /** The length fields of a header that is long enough to hold them. */
  function DeclaredLength(data: seq<byte>): nat
    requires |data| >= HEADER_SIZE
  {
    GetBE32(data[8..12]) as int + GetBE64(data[12..20]) as int
  }

  /** Header, length and digest are accepted. */
  predicate Accepted(c: Codec, data: seq<byte>) {
    && |data| >= HEADER_SIZE
    && data[..8] == MAGIC
    && |data| - HEADER_SIZE == DeclaredLength(data) % TWO_TO_THE_64
    && c.digest(data[HEADER_SIZE..]) == data[20..HEADER_SIZE]
  }

  /** The manifest an accepted header declares cannot be sliced, or can only from the spare bytes
      and is a manifest. */
  predicate Overreaches(c: Codec, data: seq<byte>, spare: seq<byte>)
    requires |data| >= HEADER_SIZE
  {
    var m, body := GetBE32(data[8..12]), data[HEADER_SIZE..];
    m > |body| + |spare| || c.unmarshal((body + spare)[..m]).Some?
  }

  lemma WrapOvershoots(data: seq<byte>)
    requires HEADER_SIZE <= |data| < TWO_TO_THE_63
    requires |data| - HEADER_SIZE == DeclaredLength(data) % TWO_TO_THE_64
    ensures DeclaredLength(data) >= TWO_TO_THE_64 <==> GetBE32(data[8..12]) as int > |data| - HEADER_SIZE
  {
    var m, p := GetBE32(data[8..12]) as int, GetBE64(data[12..20]) as int;
    assert m + p == DeclaredLength(data);
    if m + p >= TWO_TO_THE_64 {
      assert (m + p) % TWO_TO_THE_64 == m + p - TWO_TO_THE_64;
    }
  }

  /** Decoding panics exactly when an accepted header's two lengths wrap and the manifest overreaches;
      a wrapped header that does not is refused. */
  lemma DecodePanicsIff(c: Codec, data: seq<byte>, spare: seq<byte>)
    requires |data| < TWO_TO_THE_63
    ensures Decode(c, data, spare).Panic? <==>
            Accepted(c, data) && DeclaredLength(data) >= TWO_TO_THE_64 && Overreaches(c, data, spare)
    ensures Accepted(c, data) && DeclaredLength(data) >= TWO_TO_THE_64 && !Overreaches(c, data, spare) ==>
              Decode(c, data, spare).Malformed?
  {
    hide Attached;
    hide GetBE32;
    hide GetBE64;
    if Accepted(c, data) {
      WrapOvershoots(data);
    }
  }

  /** Whether a package holds a batch, and which, does not depend on the spare bytes. */
  lemma SpareHoldsNoBatch(c: Codec, data: seq<byte>, spare: seq<byte>)
    ensures Decode(c, data, spare).Batched? <==> Decode(c, data, []).Batched?
    ensures Decode(c, data, spare).Batched? ==> Decode(c, data, spare) == Decode(c, data, [])
  {
    hide Attached;
    if |data| >= HEADER_SIZE {
      var m, body := GetBE32(data[8..12]) as int, data[HEADER_SIZE..];
      if m <= |body| {
        assert (body + spare)[..m] == body[..m] == (body + [])[..m];
      }
    }
  }

  // ----- What a package says -----

  /** The operation at hand is the wire operation with its own range of the payload as data. */
  ghost predicate CarriedBy(w: WireOperation, payload: seq<byte>, op: Operation) {
    && op == w.op.(data := op.data)
    && |op.data| == w.dataLength
    && (w.dataLength > 0 ==> w.dataOffset + w.dataLength <= |payload|)
    && forall x :: 0 <= x < |op.data| ==> op.data[x] == payload[w.dataOffset + x]
  }

  ghost predicate Carries(man: Manifest, payload: seq<byte>, b: Batch) {
    && b.relayId == man.relayId && b.batchId == man.batchId
    && b.firstSeq == man.firstSeq && b.lastSeq == man.lastSeq
    && |b.operations| == |man.operations|
    && forall k :: 0 <= k < |b.operations| ==> CarriedBy(man.operations[k], payload, b.operations[k])
  }

  /** The bytes are a package of this batch: a header of 52 bytes with the format's name, two lengths
      that make up the body, and the body's digest; then the manifest, and the payload behind it. */
  ghost predicate Genuine(c: Codec, data: seq<byte>, b: Batch, hash: seq<byte>) {
    && |data| >= 52
    && (forall i :: 0 <= i < 8 ==> data[i] == "SMBRBLK2"[i] as int)
    && hash == data[20..52] == c.digest(data[52..])
    && var m, p := GetBE32(data[8..12]) as nat, GetBE64(data[12..20]) as nat;
       && m + p == |data| - 52 < TWO_TO_THE_64
       && c.unmarshal(data[52..52 + m]).Some?
       && Carries(c.unmarshal(data[52..52 + m]).value, data[52 + m..], b)
  }

  lemma MagicSpells(data: seq<byte>)
    requires |data| >= 8
    ensures data[..8] == MAGIC <==> forall i :: 0 <= i < 8 ==> data[i] == "SMBRBLK2"[i] as int
  {
    var name := "SMBRBLK2";
    assert MAGIC == [name[0] as int, name[1] as int, name[2] as int, name[3] as int,
                     name[4] as int, name[5] as int, name[6] as int, name[7] as int];
    assert forall i :: 0 <= i < 8 ==> MAGIC[i] == name[i] as int;
    if forall i :: 0 <= i < 8 ==> data[i] == name[i] as int {
      assert forall i :: 0 <= i < 8 ==> data[..8][i] == MAGIC[i];
    } else {
      var i :| 0 <= i < 8 && data[i] != name[i] as int;
      assert data[..8][i] != MAGIC[i];
    }
  }

  lemma AttachIff(w: WireOperation, payload: seq<byte>, op: Operation)
    ensures InPayload(w, payload) && Attach(w, payload) == op <==> CarriedBy(w, payload, op)
  {
    if InPayload(w, payload) && w.dataLength > 0 && CarriedBy(w, payload, op) {
      assert op.data == payload[w.dataOffset..w.dataOffset + w.dataLength];
    }
  }

  lemma AttachedIff(ws: seq<WireOperation>, payload: seq<byte>, ops: seq<Operation>)
    ensures Attached(ws, payload) == Some(ops) <==>
            |ops| == |ws| && forall k :: 0 <= k < |ops| ==> CarriedBy(ws[k], payload, ops[k])
  {
    hide InPayload;
    hide Attach;
    hide CarriedBy;
    forall k | 0 <= k < |ws| && k < |ops|
      ensures InPayload(ws[k], payload) && Attach(ws[k], payload) == ops[k] <==> CarriedBy(ws[k], payload, ops[k])
    {
      AttachIff(ws[k], payload, ops[k]);
    }
    if |ops| == |ws| && forall k :: 0 <= k < |ops| ==> CarriedBy(ws[k], payload, ops[k]) {
      assert Attached(ws, payload).value == ops;
    }
  }

  /** A wrapped sum of lengths leaves the manifest longer than the body. */
  lemma LengthsAddUp(m: u32, p: u64, n: nat)
    requires n == (m + p) % TWO_TO_THE_64 && m <= n
    ensures n == m + p
  {}

  lemma FromManifestIff(man: Manifest, payload: seq<byte>, hash: seq<byte>, b: Batch)
    ensures FromManifest(man, payload, hash) == Batched(b, hash) <==> Carries(man, payload, b)
    ensures FromManifest(man, payload, hash).Batched? ==> FromManifest(man, payload, hash).hash == hash
  {
    hide CarriedBy;
    hide Attached;
    AttachedIff(man.operations, payload, b.operations);
  }

  /** Decoding gives a batch exactly when the bytes are a package of it, whatever lies behind them. */
  lemma DecodeIff(c: Codec, data: seq<byte>, spare: seq<byte>, b: Batch, hash: seq<byte>)
    ensures Decode(c, data, spare) == Batched(b, hash) <==> Genuine(c, data, b, hash)
  {
    hide FromManifest;
    hide Carries;
    hide GetBE32;
    hide GetBE64;
    if |data| >= HEADER_SIZE {
      MagicSpells(data);
      var m, p, body := GetBE32(data[8..12]), GetBE64(data[12..20]), data[HEADER_SIZE..];
      if m <= |body| {
        assert (body + spare)[..m] == body[..m] == data[52..52 + m] && body[m..] == data[52 + m..];
        if |body| == (m + p) % TWO_TO_THE_64 {
          LengthsAddUp(m, p, |body|);
        }
        if c.unmarshal(body[..m]).Some? {
          var man := c.unmarshal(body[..m]).value;
          FromManifestIff(man, body[m..], c.digest(body), b);
        }
      }
    }
  }

  /** A package whose bytes do not have the digest it carries is refused. */
  lemma DamageRefused(c: Codec, data: seq<byte>, spare: seq<byte>)
    requires |data| >= 52 ==> c.digest(data[52..]) != data[20..52]
    ensures Decode(c, data, spare) == Malformed
  {
    hide Attached;
  }

  /** A header that panics whatever the digest and the manifest codec, unless there are almost 2^32
      spare bytes. */
  lemma WrappedHeaderPanics(c: Codec, spare: seq<byte>)
    requires ValidCodec(c) && |spare| < 0xFFFF_FFFD
    ensures var p := TWO_TO_THE_64 - 0xFFFF_FFFF + 2;
            Decode(c, MAGIC + PutBE32(0xFFFF_FFFF) + PutBE64(p) + c.digest([0, 0]) + [0, 0], spare).Panic?
  {
    var p := TWO_TO_THE_64 - 0xFFFF_FFFF + 2;
    var data := MAGIC + PutBE32(0xFFFF_FFFF) + PutBE64(p) + c.digest([0, 0]) + [0, 0];
    LayoutFields(0xFFFF_FFFF, p, c.digest([0, 0]), [0, 0]);
    assert DeclaredLength(data) == TWO_TO_THE_64 + 2;
    DecodePanicsIff(c, data, spare);
  }

  lemma LayoutFields(m: u32, p: u64, sum: seq<byte>, body: seq<byte>)
    requires |sum| == DIGEST_SIZE
    ensures var d := MAGIC + PutBE32(m) + PutBE64(p) + sum + body;
            && |d| == HEADER_SIZE + |body|
            && d[..8] == MAGIC
            && GetBE32(d[8..12]) == m
            && GetBE64(d[12..20]) == p
            && d[20..HEADER_SIZE] == sum
            && d[HEADER_SIZE..] == body
  {
    var d := MAGIC + PutBE32(m) + PutBE64(p) + sum + body;
    assert d[8..12] == PutBE32(m);
    assert d[12..20] == PutBE64(p);
    BE32RoundTrip(m);
    BE64RoundTrip(p);
  }

  lemma PayloadSlice(ops: seq<Operation>, k: nat)
    requires k < |ops|
    ensures var lo := |Payload(ops[..k])|;
            lo + |ops[k].data| <= |Payload(ops)| && Payload(ops)[lo..lo + |ops[k].data|] == ops[k].data
  {
    PayloadGrows(ops, k + 1);
    var upTo := ops[..k + 1];
    assert upTo[..k] == ops[..k] && upTo[|upTo| - 1] == ops[k];
    assert Payload(upTo) == Payload(ops[..k]) + ops[k].data;
  }

  lemma WireAttaches(ops: seq<Operation>, k: nat)
    requires |Payload(ops)| < TWO_TO_THE_63 && k < |ops|
    ensures |Wires(ops)| == |ops|
    ensures InPayload(Wires(ops)[k], Payload(ops)) && Attach(Wires(ops)[k], Payload(ops)) == ops[k]
  {
    WireRanges(ops, k);
    PayloadSlice(ops, k);
  }

  /** Each encoded range holds its operation's data. */
  lemma WiresAttach(ops: seq<Operation>)
    requires |Payload(ops)| < TWO_TO_THE_63
    ensures Attached(Wires(ops), Payload(ops)) == Some(ops)
  {
    if ops != [] {
      WireAttaches(ops, 0);
    }
    forall k | 0 <= k < |ops|
      ensures InPayload(Wires(ops)[k], Payload(ops)) && Attach(Wires(ops)[k], Payload(ops)) == ops[k]
    {
      WireAttaches(ops, k);
    }
    assert Attached(Wires(ops), Payload(ops)).value == ops;
  }

  lemma DecodeLayout(c: Codec, man: Manifest, m: u32, p: u64, body: seq<byte>, data: seq<byte>, spare: seq<byte>)
    requires |data| >= HEADER_SIZE && data[..8] == MAGIC
    requires GetBE32(data[8..12]) == m && GetBE64(data[12..20]) == p
    requires data[20..HEADER_SIZE] == c.digest(body) && data[HEADER_SIZE..] == body
    requires m + p == |body| < TWO_TO_THE_64
    requires c.unmarshal(body[..m]) == Some(man) && Attached(man.operations, body[m..]).Some?
    ensures Decode(c, data, spare) ==
            Batched(Batch(man.relayId, man.batchId, man.firstSeq, man.lastSeq,
                          Attached(man.operations, body[m..]).value), c.digest(body))
  {
    assert (body + spare)[..m] == body[..m];
  }

  /** Decoding an encoded batch gives the batch back, with the hash the encoder reported, when
      the manifest codec inverts on this batch's manifest. */
  lemma RoundTrip(c: Codec, b: Batch, spare: seq<byte>)
    requires ValidCodec(c)
    requires |Payload(b.operations)| < TWO_TO_THE_63
    requires |c.marshal(ManifestOf(b))| < 0x1_0000_0000
    requires c.unmarshal(c.marshal(ManifestOf(b))) == Some(ManifestOf(b))
    ensures Decode(c, Layout(c, b), spare) ==
            Batched(b, c.digest(c.marshal(ManifestOf(b)) + Payload(b.operations)))
  {
    var m, payload := c.marshal(ManifestOf(b)), Payload(b.operations);
    var body := m + payload;
    WiresAttach(b.operations);
    LayoutFields(|m|, |payload|, c.digest(body), body);
    assert body[..|m|] == m && body[|m|..] == payload;
    DecodeLayout(c, ManifestOf(b), |m|, |payload|, body, Layout(c, b), spare);
  }

  /** Successive ranges meet and fill the payload: every range starts where the data before it
      ends, and the last ends at the payload's end. */
  lemma RangesTile(ops: seq<Operation>, j: nat, k: nat)
    requires |Payload(ops)| < TWO_TO_THE_63
    requires j < k <= |ops| && ops[j].data != []
    requires forall i :: j < i < k ==> ops[i].data == []
    ensures |Wires(ops)| == |ops|
    ensures Wires(ops)[j].dataOffset + Wires(ops)[j].dataLength ==
            if k < |ops| && ops[k].data != [] then Wires(ops)[k].dataOffset else |Payload(ops[..k])|
  {
    SkipEmpty(ops, j + 1, k);
    WireRanges(ops, j);
    if k < |ops| {
      WireRanges(ops, k);
    }
    assert ops[..j + 1][..j] == ops[..j];
  }

  lemma {:induction false} SkipEmpty(ops: seq<Operation>, j: nat, k: nat)
    requires j <= k <= |ops| && forall i :: j <= i < k ==> ops[i].data == []
    ensures Payload(ops[..k]) == Payload(ops[..j])
    decreases k - j
  {
    if j < k {
      SkipEmpty(ops, j, k - 1);
      assert ops[..k][..k - 1] == ops[..k - 1];
    }
  }
}
