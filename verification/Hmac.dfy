/** hmac_sha.c: HMAC-SHA1 over a key and a message that arrive in pieces. */
module HmacSha1 {
  import opened Sha1Spec
  import opened Sha1Stream

  /** `HMAC_SHA1_CTX`. */
  class HmacCtx {
    const ipad: array<Byte>
    const opad: array<Byte>
    const key: array<Byte>
    const sha: ShaCtx
    var keylen: nat
    var hashkey: bool
    /** The whole key so far. */
    ghost var secret: seq<Byte>

    ghost function Repr(): set<object>
    {
      {this, ipad, opad, key, sha, sha.buffer}
    }

    ghost predicate Separate()
      reads this
    {
      && ipad.Length == opad.Length == key.Length == sha.buffer.Length == 64
      && ipad != opad && ipad != key && opad != key
      && ipad != sha.buffer && opad != sha.buffer && key != sha.buffer
    }

    /** While the key comes in: kept as it is up to one block, and hashed beyond. */
    ghost predicate TakingKey()
      reads Repr()
    {
      && Separate() && ipad[..] == Xored(Zeros(64), 0x36) && opad[..] == Xored(Zeros(64), 0x5c)
      && (hashkey <==> |secret| > 64)
      && (if hashkey then sha.Valid() && sha.msg == secret && keylen == 20
          else keylen == |secret| && key[..keylen] == secret)
    }

    /** The key is in the pads. */
    ghost predicate Keyed()
      reads Repr()
    {
      Separate() && ipad[..] == Xored(KeyBlock(secret), 0x36) && opad[..] == Xored(KeyBlock(secret), 0x5c)
    }

    /** `HMAC_SHA1_Init`. */
    constructor ()
      ensures TakingKey() && secret == [] && fresh(Repr())
    {
      ipad, opad, key := new Byte[64](_ => 0x36), new Byte[64](_ => 0x5c), new Byte[64](_ => 0);
      sha := new ShaCtx();
      keylen, hashkey, secret := 0, false, [];
      new;
      assert ipad[..] == Xored(Zeros(64), 0x36) && opad[..] == Xored(Zeros(64), 0x5c);
    }

    /** The key no longer fits: what has been kept of it is hashed. */
    method StartHashing()
      requires Separate() && !hashkey && keylen == |secret| <= 64 && key[..keylen] == secret
      modifies this`hashkey, this`keylen, sha, sha.buffer, key
      ensures hashkey && keylen == 20 && sha.Valid() && sha.msg == secret
    {
      hide Absorb, Low, High, Whole, Rest, Overwritten;
      hashkey := true;
      sha.Init();
      if keylen > 0 {
        sha.Update(key, keylen);
      }
      keylen := 20;
    }

    /** `HMAC_SHA1_UpdateKey`. A key that is hashed is overwritten like any other data. */
    method UpdateKey(data: array<Byte>, len: nat)
      requires TakingKey() && data !in Repr() && len <= data.Length && len + 128 <= B
      modifies Repr(), data
      ensures TakingKey() && secret == old(secret) + old(data[..len]) && data[len..] == old(data[len..])
      ensures data[..len] == if old(|secret|) + len > 64 then Overwritten(old(|secret|) % 64, old(data[..len]))
                             else old(data[..len])
    {
      hide Absorb, Low, High, Whole, Rest, Xored, Zeros, Overwritten;
      if len < 1 {
        assert data[..len] == [] && secret + [] == secret;
        return;
      }
      ghost var more := data[..len];
      if hashkey || len + keylen > 64 {
        if !hashkey {
          StartHashing();
        }
        sha.Update(data, len);
      } else {
        Copy(key, keylen, data, 0, len);
        assert key[..keylen + len] == key[..keylen] + key[keylen..keylen + len];
        keylen := keylen + len;
      }
      secret := secret + more;
    }

    /** The first half of `HMAC_SHA1_EndKey`: the key as a full block. */
    method FillKey()
      requires TakingKey()
      modifies this, sha, sha.buffer, key
      ensures key[..] == KeyBlock(secret) && keylen == (if |secret| > 64 then 20 else |secret|)
      ensures secret == old(secret)
    {
      hide Absorb, Low, High, Whole, Rest, Xored, Sha1;
      if hashkey {
        Clear(key, 0, 64);
        sha.Final(key);
      }
      if 64 - keylen > 0 {
        Clear(key, keylen, 64 - keylen);
      }
      assert key[..] == key[..keylen] + key[keylen..64];
    }

    /** `HMAC_SHA1_EndKey`: the key goes into both pads. */
    method EndKey()
      requires TakingKey()
      modifies Repr()
      ensures Keyed() && secret == old(secret)
    {
      hide Absorb, Low, High, Whole, Rest, KeyBlock, Sha1;
      FillKey();
      XorPads();
    }

    /** The loop of `HMAC_SHA1_EndKey`, over the bytes of the key only. */
    method XorPads()
      requires Separate() && key[..] == KeyBlock(secret) && keylen == (if |secret| > 64 then 20 else |secret|)
      requires ipad[..] == Xored(Zeros(64), 0x36) && opad[..] == Xored(Zeros(64), 0x5c)
      modifies ipad, opad
      ensures Keyed()
    {
      hide KeyBlock, Xor;
      XorZero();
      KeyTail(secret);
      FillerAt(ipad[..], 0x36);
      FillerAt(opad[..], 0x5c);
      var i := 0;
      while i < keylen
        invariant 0 <= i <= keylen <= 64
        invariant forall j | 0 <= j < 64 :: ipad[j] == if j < i then Xor(key[j], 0x36) else 0x36
        invariant forall j | 0 <= j < 64 :: opad[j] == if j < i then Xor(key[j], 0x5c) else 0x5c
      {
        XorSwap(ipad[i], key[i]);
        XorSwap(opad[i], key[i]);
        ipad[i] := Xor(ipad[i], key[i]);
        opad[i] := Xor(opad[i], key[i]);
        i := i + 1;
      }
      forall j | 0 <= j < 64 ensures ipad[j] == Xor(key[j], 0x36) && opad[j] == Xor(key[j], 0x5c) {
        assert key[j] == key[..][j];
      }
      assert ipad[..] == Xored(KeyBlock(secret), 0x36);
      assert opad[..] == Xored(KeyBlock(secret), 0x5c);
    }

    // ---------- messages ----------

    /** A message is under way. */
    ghost predicate InMessage(m: seq<Byte>)
      reads Repr()
    {
      Keyed() && sha.Valid() && sha.msg == Xored(KeyBlock(secret), 0x36) + m
    }

    /** `HMAC_SHA1_StartMessage`. */
    method StartMessage()
      requires Keyed()
      modifies sha, sha.buffer, ipad
      ensures InMessage([]) && secret == old(secret)
    {
      hide Absorb, Low, High, Whole, Rest, KeyBlock, Xored, Overwritten;
      sha.Init();
      sha.Update(ipad, 64);
      assert ipad[..64] == ipad[..];
    }

    /** `HMAC_SHA1_UpdateMessage`. */
    method UpdateMessage(data: array<Byte>, len: nat, ghost m: seq<Byte>)
      requires InMessage(m) && data !in Repr() && len <= data.Length && len + 64 <= B
      modifies sha, sha.buffer, data
      ensures InMessage(m + old(data[..len])) && secret == old(secret) && data[len..] == old(data[len..])
      ensures data[..len] == Overwritten(|m| % 64, old(data[..len]))
    {
      hide Absorb, Low, High, Whole, Rest, KeyBlock, Xored, Overwritten;
      MessagePlace(|m|);
      sha.Update(data, len);
      ghost var pad := Xored(KeyBlock(secret), 0x36);
      assert pad + m + old(data[..len]) == pad + (m + old(data[..len]));
    }

    /** `HMAC_SHA1_EndMessage`: the HMAC of the message under the key. The pads stay as they are,
        so another message can start. */
    method EndMessage(out: array<Byte>, ghost m: seq<Byte>)
      requires InMessage(m) && out !in Repr() && out.Length >= 20
      modifies sha, sha.buffer, opad, out
      ensures Keyed() && secret == old(secret) && out[..20] == Hmac(secret, m) && out[20..] == old(out[20..])
    {
      hide Absorb, Low, High, Whole, Rest, KeyBlock, Xored, Sha1, Overwritten;
      var buf := new Byte[20];
      sha.Final(buf);
      assert buf[..20] == Sha1(Xored(KeyBlock(secret), 0x36) + m);
      sha.Init();
      assert opad[..64] == Xored(KeyBlock(secret), 0x5c) && opad[..64] == opad[..];
      sha.Update(opad, 64);
      assert sha.msg == Xored(KeyBlock(secret), 0x5c);
      sha.Update(buf, 20);
      sha.Final(out);
    }
  }

  lemma MessagePlace(n: nat)
    ensures (64 + n) % 64 == n % 64
  {
  }

  lemma XorSwap(a: Byte, b: Byte)
    ensures Xor(a, b) == Xor(b, a)
  {
  }

  lemma FillerAt(s: seq<Byte>, b: Byte)
    requires s == Xored(Zeros(64), b)
    ensures forall j | 0 <= j < 64 :: s[j] == b
  {
    assert Xor(0, b) == b;
  }

  lemma XorZero()
    ensures Xor(0, 0x36) == 0x36 && Xor(0, 0x5c) == 0x5c
  {
  }

  lemma KeyTail(secret: seq<Byte>)
    ensures forall j | (if |secret| > 64 then 20 else |secret|) <= j < 64 :: KeyBlock(secret)[j] == 0
  {
  }
}
