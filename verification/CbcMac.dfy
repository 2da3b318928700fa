/**
 CBC-MAC (section 2.2 of RFC 3610) over any block cipher, and the streaming form that takes its
 input byte by byte and encrypts a full block only when more input or padding arrives.
 */
module CbcMac {

  type Block = seq<bv8>

  /** A cipher on blocks of `size` bytes. */
  datatype Cipher = Cipher(size: nat, encrypt: Block -> Block)

  ghost predicate ValidCipher(c: Cipher) {
    c.size > 0 && forall b :: |b| == c.size ==> |c.encrypt(b)| == c.size
  }

  function ZeroBlock(n: nat): (z: Block)
    ensures |z| == n
  {
    seq(n, _ => 0)
  }

  /** `part` added to the front of `x`. */
  function XorFront(x: Block, part: Block): (r: Block)
    requires |part| <= |x|
    ensures |r| == |x|
  {
    seq(|x|, i requires 0 <= i < |x| => if i < |part| then x[i] ^ part[i] else x[i])
  }

  /** The block definition: each block is added to the last output and encrypted. `k` blocks of
      the message are taken. */
  ghost function Chain(c: Cipher, m: Block, k: nat): (x: Block)
    requires ValidCipher(c) && k * c.size <= |m|
    ensures |x| == c.size
  {
    if k == 0 then ZeroBlock(c.size)
    else
      BlockEnd(c.size, k);
      c.encrypt(XorFront(Chain(c, m, k - 1), m[(k - 1) * c.size..k * c.size]))
  }

  lemma BlockEnd(n: nat, k: nat)
    requires k > 0
    ensures (k - 1) * n + n == k * n
  {}

  lemma {:induction false} ChainPrefix(c: Cipher, m: Block, more: Block, k: nat)
    requires ValidCipher(c) && k * c.size <= |m|
    ensures |m| <= |m + more| && Chain(c, m + more, k) == Chain(c, m, k)
  {
    if k > 0 {
      BlockEnd(c.size, k);
      ChainPrefix(c, m, more, k - 1);
      assert (m + more)[(k - 1) * c.size..k * c.size] == m[(k - 1) * c.size..k * c.size];
    }
  }

  lemma XorByte(x: Block, part: Block, b: bv8)
    requires |part| < |x|
    ensures XorFront(x, part + [b]) == XorFront(x, part)[|part| := XorFront(x, part)[|part|] ^ b]
  {}

  /** The chaining value of the finished blocks, with the open block's bytes added. */
  ghost function Held(c: Cipher, m: Block, k: nat): (r: Block)
    requires ValidCipher(c) && k * c.size <= |m| <= k * c.size + c.size
    ensures |r| == c.size
  {
    XorFront(Chain(c, m, k), m[k * c.size..])
  }

  /** One more byte in the open block. */
  lemma AbsorbOne(c: Cipher, m: Block, k: nat, p: nat, b: bv8)
    requires ValidCipher(c) && |m| == k * c.size + p && p < c.size
    ensures Held(c, m + [b], k) == Held(c, m, k)[p := Held(c, m, k)[p] ^ b]
  {
    hide XorFront;
    hide Chain;
    hide ValidCipher;
    ChainPrefix(c, m, [b], k);
    var at := k * c.size;
    XorByte(Chain(c, m, k), m[at..], b);
    assert (m + [b])[at..] == m[at..] + [b];
  }

  /** Adding zeros changes nothing. */
  lemma XorZeros(x: Block, part: Block)
    requires |part| <= |x|
    ensures XorFront(x, part + ZeroBlock(|x| - |part|)) == XorFront(x, part)
  {
    var padded := part + ZeroBlock(|x| - |part|);
    forall i | 0 <= i < |x|
      ensures XorFront(x, padded)[i] == XorFront(x, part)[i]
    {
      if i >= |part| {
        assert padded[i] == 0;
      }
    }
  }

  /** A message filled with zeros to whole blocks; nothing stays nothing. */
  function Pad(n: nat, m: Block): Block
    requires n > 0
  {
    if m == [] then [] else if |m| <= n then m + ZeroBlock(n - |m|) else m[..n] + Pad(n, m[n..])
  }

  lemma MultipleBelow(n: nat, j: nat, x: nat)
    requires n > 0 && x == j * n
    ensures x < n ==> j == 0
    ensures 0 < x < 2 * n ==> j == 1
    ensures x > n ==> j > 1 && x - n == (j - 1) * n
  {
    if j >= 2 {
      assert (j - 2) * n >= 0;
      assert x == (j - 2) * n + 2 * n;
    }
    assert j >= 1 ==> (j - 1) * n == j * n - n;
  }

  /** Fewer than `n` zeros that complete a block are the padding. */
  lemma {:induction false} PadUnique(n: nat, m: Block, z: nat, j: nat)
    requires n > 0 && |m| + z == j * n && z < n
    ensures m + ZeroBlock(z) == Pad(n, m)
  {
    MultipleBelow(n, j, |m| + z);
    if m == [] {
      assert ZeroBlock(0) == [];
    } else if |m| > n {
      PadUnique(n, m[n..], z, j - 1);
      assert m == m[..n] + m[n..];
    }
  }

  lemma MultiplesOrder(n: nat, k0: nat, k1: nat)
    requires n > 0
    ensures k0 * n <= k1 * n ==> k0 <= k1
    ensures (k1 - k0) * n == k1 * n - k0 * n
  {
    assert (k0 - k1) * n == k0 * n - k1 * n;
    if k0 > k1 {
      assert (k0 - k1 - 1) * n >= 0;
    }
  }

  /** Completing a block after a field that started at a block boundary pads the field. */
  lemma PadFromBoundary(n: nat, before: Block, field: Block, after: Block, k0: nat, k1: nat)
    requires n > 0 && |before| == k0 * n && |after| == k1 * n
    requires |before + field| <= |after| < |before + field| + n
    requires after == before + field + ZeroBlock(|after| - |before + field|)
    ensures after == before + Pad(n, field)
  {
    hide Pad;
    var z := |after| - |before + field|;
    MultiplesOrder(n, k0, k1);
    PadUnique(n, field, z, k1 - k0);
    assert after == before + (field + ZeroBlock(z));
  }

  class Mac {
    const c: Cipher
    const ci: array<bv8>
    var p: nat

    /** Everything absorbed since the last reset, padding included, and its finished blocks. */
    ghost var absorbed: Block
    ghost var blocks: nat

    /** The accumulator is the chain over the finished blocks with the open block added. */
    ghost predicate Valid()
      reads this, ci
    {
      && ValidCipher(c)
      && ci.Length == c.size && p <= c.size
      && |absorbed| == blocks * c.size + p
      && ci[..] == Held(c, absorbed, blocks)
    }

    constructor (c: Cipher)
      requires ValidCipher(c)
      ensures Valid() && this.c == c && fresh(ci) && absorbed == [] && p == 0
    {
      this.c := c;
      ci, p := new bv8[c.size](_ => 0), 0;
      absorbed, blocks := [], 0;
      new;
      assert ci[..] == ZeroBlock(c.size);
    }

    method Reset()
      requires ValidCipher(c) && ci.Length == c.size
      modifies this, ci
      ensures Valid() && absorbed == [] && p == 0
    {
      for i := 0 to ci.Length
        invariant forall k :: 0 <= k < i ==> ci[k] == 0
      {
        ci[i] := 0;
      }
      p := 0;
      absorbed, blocks := [], 0;
      assert ci[..] == ZeroBlock(c.size);
    }

    /** Encrypts the open block in place. */
    method Seal()
      requires Valid() && p == c.size
      modifies this, ci
      ensures Valid() && p == 0 && absorbed == old(absorbed)
    {
      BlockEnd(c.size, blocks + 1);
      assert absorbed[blocks * c.size..] == absorbed[blocks * c.size..(blocks + 1) * c.size];
      var out := c.encrypt(ci[..]);
      forall i | 0 <= i < ci.Length {
        ci[i] := out[i];
      }
      p := 0;
      blocks := blocks + 1;
      assert ci[..] == out == Chain(c, absorbed, blocks);
      assert absorbed[blocks * c.size..] == [];
      assert XorFront(out, []) == out;
    }

    /** One byte: a full block is encrypted first. */
    method Absorb(b: bv8)
      requires Valid()
      modifies this, ci
      ensures Valid() && absorbed == old(absorbed) + [b]
    {
      assert c.size > 0;
      hide Held;
      hide ValidCipher;
      if p >= ci.Length {
        Seal();
      }
      AbsorbOne(c, absorbed, blocks, p, b);
      ci[p] := ci[p] ^ b;
      p := p + 1;
      absorbed := absorbed + [b];
    }

    method Write(data: Block)
      requires Valid()
      modifies this, ci
      ensures Valid() && absorbed == old(absorbed) + data
    {
      for i := 0 to |data|
        invariant Valid() && absorbed == old(absorbed) + data[..i]
      {
        Absorb(data[i]);
      }
    }

    /** Ends the open block as if it were filled with zeros. */
    method PadZero()
      requires Valid()
      modifies this, ci
      ensures Valid() && p == 0 && |absorbed| == blocks * c.size && ci[..] == Chain(c, absorbed, blocks)
      ensures |old(absorbed)| <= |absorbed| < |old(absorbed)| + c.size
      ensures absorbed == old(absorbed) + ZeroBlock(|absorbed| - |old(absorbed)|)
    {
      if p != 0 {
        var zeros := ZeroBlock(c.size - p);
        ChainPrefix(c, absorbed, zeros, blocks);
        XorZeros(Chain(c, absorbed, blocks), absorbed[blocks * c.size..]);
        assert (absorbed + zeros)[blocks * c.size..] == absorbed[blocks * c.size..] + zeros;
        absorbed := absorbed + zeros;
        p := c.size;
        Seal();
      }
      assert absorbed[blocks * c.size..] == [];
      assert XorFront(Chain(c, absorbed, blocks), []) == Chain(c, absorbed, blocks);
    }

    /** `Sum` appends the accumulator. */
    function Sum(input: Block): Block
      reads this, ci
    {
      input + ci[..]
    }

    /** A field given in pieces and then padded: the cut does not matter. */
    method WriteField(pieces: seq<Block>)
      requires Valid() && |absorbed| == blocks * c.size
      modifies this, ci
      ensures Valid() && |absorbed| == blocks * c.size && ci[..] == Chain(c, absorbed, blocks)
      ensures absorbed == old(absorbed) + Pad(c.size, Join(pieces))
    {
      hide Chain;
      hide Pad;
      for i := 0 to |pieces|
        invariant Valid() && absorbed == old(absorbed) + Join(pieces[..i])
      {
        assert pieces[..i + 1][..i] == pieces[..i];
        Write(pieces[i]);
      }
      assert pieces[..|pieces|] == pieces;
      ghost var field := Join(pieces);
      PadZero();
      PadFromBoundary(c.size, old(absorbed), field, absorbed, old(blocks), blocks);
    }

    /** The tag of several padded fields is the block definition over the padded fields end to
        end, however each was cut into writes. */
    method TagOfFields(fields: seq<seq<Block>>) returns (tag: Block)
      requires ValidCipher(c) && ci.Length == c.size
      modifies this, ci
      ensures var m := PadAll(c.size, fields);
              |m| == blocks * c.size && tag == Chain(c, m, blocks)
    {
      Reset();
      for i := 0 to |fields|
        invariant Valid() && |absorbed| == blocks * c.size && ci[..] == Chain(c, absorbed, blocks)
        invariant absorbed == PadAll(c.size, fields[..i])
      {
        assert fields[..i + 1][..i] == fields[..i];
        WriteField(fields[i]);
      }
      assert fields[..|fields|] == fields;
      tag := Sum([]);
    }
  }

  function Join(pieces: seq<Block>): Block {
    if pieces == [] then [] else Join(pieces[..|pieces| - 1]) + pieces[|pieces| - 1]
  }

  function PadAll(n: nat, fields: seq<seq<Block>>): Block
    requires n > 0
  {
    if fields == [] then [] else PadAll(n, fields[..|fields| - 1]) + Pad(n, Join(fields[|fields| - 1]))
  }
}
