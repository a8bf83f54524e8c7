/** HMAC over the streaming hash, with the pads absorbed once per key. */
module Hmac {
  import opened Sha1

  /** The key as one block: hashed first if it is longer than that. */
  function KeyBlock(cf: Compress, key: seq<bv8>): (k: seq<bv8>)
    ensures |k| == BLOCK
  {
    if |key| > BLOCK then Digest(cf, key) + Zeros(BLOCK - DIGEST) else key + Zeros(BLOCK - |key|)
  }

  function PadWith(k: seq<bv8>, p: bv8): (r: seq<bv8>)
    ensures |r| == |k|
  {
    seq(|k|, i requires 0 <= i < |k| => k[i] ^ p)
  }

  /** RFC 2104 section 2. */
  function Mac(cf: Compress, key: seq<bv8>, m: seq<bv8>): (d: seq<bv8>)
    ensures |d| == DIGEST
  {
    var k := KeyBlock(cf, key);
    Digest(cf, PadWith(k, 0x5c) + Digest(cf, PadWith(k, 0x36) + m))
  }

  /** `k` is the key of a MAC filled up to a block: a longer one is hashed first. */
  ghost predicate Fills(cf: Compress, key: seq<bv8>, k: seq<bv8>) {
    var x := if |key| <= 64 then key else Digest(cf, key);
    |k| == 64 && k[..|x|] == x && forall i :: |x| <= i < 64 ==> k[i] == 0
  }

  /** Bytes with the filled-up key and one constant added. */
  ghost predicate Added(k: seq<bv8>, p: bv8, r: seq<bv8>) {
    |r| == |k| && forall i :: 0 <= i < |k| ==> r[i] == k[i] ^ p
  }

  /** RFC 2104 section 2: the hash of the outer pad and the hash of the inner pad and the text. */
  lemma MacIs(cf: Compress, key: seq<bv8>, m: seq<bv8>, k: seq<bv8>, inner: seq<bv8>, outer: seq<bv8>)
    requires Fills(cf, key, k) && Added(k, 0x36, inner) && Added(k, 0x5c, outer)
    ensures Mac(cf, key, m) == Digest(cf, outer + Digest(cf, inner + m))
  {
    hide Digest;
    assert k == KeyBlock(cf, key);
    assert inner == PadWith(k, 0x36) && outer == PadWith(k, 0x5c);
  }

  method KeyBlockCode(cf: Compress, key: seq<bv8>) returns (k: seq<bv8>)
    ensures k == KeyBlock(cf, key)
  {
    hide Digest;
    if |key| > BLOCK {
      var d := DigestOfParts(cf, [key]);
      assert Flatten([key]) == key by { assert [key][..0] == []; }
      k := d + Zeros(BLOCK - DIGEST);
    } else {
      k := key + Zeros(BLOCK - |key|);
    }
  }

  /** A hash that has taken one padded key block. */
  method Keyed(cf: Compress, block: seq<bv8>) returns (c: Sha1.Context)
    ensures fresh(c) && fresh(c.block) && c.Valid() && c.cf == cf && c.msg == block
  {
    hide Sha1.Context.Valid;
    c := new Sha1.Context(cf);
    c.Update(block);
    assert [] + block == block;
  }

  class Context {
    const inner: Sha1.Context
    const outer: Sha1.Context
    ghost var key: seq<bv8>
    ghost var msg: seq<bv8>

    ghost predicate Valid()
      reads this, inner, inner.block, outer, outer.block
    {
      && inner != outer && inner.block != outer.block && inner.cf == outer.cf
      && inner.Valid() && outer.Valid()
      && inner.msg == PadWith(KeyBlock(inner.cf, key), 0x36) + msg
      && outer.msg == PadWith(KeyBlock(inner.cf, key), 0x5c)
    }

    ghost function Repr(): set<object>
      reads this
    {
      {this, inner, inner.block, outer, outer.block}
    }

    constructor (cf: Compress, key: seq<bv8>)
      ensures Valid() && this.key == key && msg == [] && inner.cf == cf && fresh(Repr())
    {
      hide Digest, KeyBlock, PadWith, Sha1.Context.Valid;
      var k := KeyBlockCode(cf, key);
      var i := Keyed(cf, PadWith(k, 0x36));
      var o := Keyed(cf, PadWith(k, 0x5c));
      inner, outer, this.key, msg := i, o, key, [];
      assert PadWith(k, 0x36) + [] == PadWith(k, 0x36);
    }

    /** A copy of the struct, to run another message under the same key. */
    constructor Copy(base: Context)
      requires base.Valid()
      ensures Valid() && key == base.key && msg == base.msg && inner.cf == base.inner.cf && fresh(Repr())
    {
      hide Digest, KeyBlock, PadWith, Sha1.Context.Valid;
      inner := new Sha1.Context.Copy(base.inner);
      outer := new Sha1.Context.Copy(base.outer);
      key, msg := base.key, base.msg;
    }

    method Update(data: seq<bv8>)
      requires Valid()
      modifies this`msg, inner, inner.block
      ensures Valid() && msg == old(msg) + data && key == old(key)
    {
      hide Digest, KeyBlock, PadWith, Sha1.Context.Valid;
      inner.Update(data);
      msg := msg + data;
      assert inner.msg == PadWith(KeyBlock(inner.cf, key), 0x36) + msg;
    }

    method Final() returns (out: seq<bv8>)
      requires Valid()
      modifies inner, inner.block, outer, outer.block
      ensures out == Mac(inner.cf, old(key), old(msg))
    {
      hide Digest, KeyBlock, PadWith, Sha1.Context.Valid;
      var digest := inner.Final();
      outer.Update(digest);
      out := outer.Final();
    }
  }

  /** However a message is split into updates, the result is the MAC of the whole. */
  method MacOfParts(cf: Compress, key: seq<bv8>, parts: seq<seq<bv8>>) returns (out: seq<bv8>)
    ensures out == Mac(cf, key, Flatten(parts))
  {
    hide Mac, Digest, KeyBlock, PadWith, Sha1.Context.Valid;
    var h := new Context(cf, key);
    assert parts[..0] == [];
    for i := 0 to |parts|
      invariant h.Valid() && h.inner.cf == cf && fresh(h.Repr()) && h.key == key && h.msg == Flatten(parts[..i])
    {
      assert parts[..i + 1][..i] == parts[..i];
      h.Update(parts[i]);
    }
    assert parts[..|parts|] == parts;
    out := h.Final();
  }
}
