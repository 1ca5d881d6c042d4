// AES-128-CBC with PKCS#7 padding as CMSCLI.swift writes it: NIST SP 800-38A section 6.2 over RFC 5652
// section 6.3.
module Cbc {
  import opened Aes
  import opened Arithmetic
  import opened Octet

  datatype Reason = KeyLength | IvLength | CiphertextLength | Padding | BlockSize

  datatype Outcome = Success(bytes: seq<bv8>) | Failure(reason: Reason)

  // ---------------------------------------------------------------- padding

  function ByteOf(n: nat): bv8
    requires n < 256
  {
    n as bv8
  }

  function IntOf(b: bv8): (n: nat)
    ensures n < 256
  {
    b as int
  }

  lemma IntOfByte(n: nat)
    requires n < 256
    ensures IntOf(ByteOf(n)) == n
  {
    ByteIsInt(n);
  }

  function Tail(n: nat): seq<bv8>
    requires n < 256
  {
    seq(n, _ => ByteOf(n))
  }

  function Padded(data: seq<bv8>, blockSize: nat): seq<bv8>
    requires 0 < blockSize <= 255
  {
    data + Tail(blockSize - |data| % blockSize)
  }

  function Unpadded(data: seq<bv8>, blockSize: nat): Outcome {
    if data == [] then Failure(Padding)
    else if !(0 < blockSize <= 255) then Failure(BlockSize)
    else
      var n := IntOf(data[|data| - 1]);
      if 0 < n <= blockSize && n <= |data| && data[|data| - n..] == Tail(n) then Success(data[..|data| - n])
      else Failure(Padding)
  }

  method Pkcs7Pad(data: seq<bv8>, blockSize: nat) returns (out: seq<bv8>)
    requires 0 < blockSize <= 255
    ensures out == Padded(data, blockSize)
  {
    var padLen := blockSize - (|data| % blockSize);
    out := data;
    out := out + seq(padLen, _ => ByteOf(padLen));
  }

  method Pkcs7Unpad(data: seq<bv8>, blockSize: nat) returns (r: Outcome)
    ensures r == Unpadded(data, blockSize)
  {
    hide ByteOf, IntOf;
    if data == [] { return Failure(Padding); }
    if !(blockSize > 0 && blockSize <= 255) { return Failure(BlockSize); }
    var padLen := IntOf(data[|data| - 1]);
    if !(padLen > 0 && padLen <= blockSize) { return Failure(Padding); }
    if !(|data| >= padLen) { return Failure(Padding); }
    for i := 0 to padLen
      invariant forall j :: |data| - i <= j < |data| ==> data[j] == ByteOf(padLen)
    {
      if data[|data| - 1 - i] != ByteOf(padLen) {
        assert data[|data| - padLen..][padLen - 1 - i] != Tail(padLen)[padLen - 1 - i];
        return Failure(Padding);
      }
    }
    assert data[|data| - padLen..] == Tail(padLen);
    r := Success(data[..|data| - padLen]);
  }

  // Unpadding accepts exactly the padded forms among the data of whole blocks.
  lemma PaddingCodec(p: seq<bv8>, d: seq<bv8>, blockSize: nat)
    requires 0 < blockSize <= 255
    ensures d == Padded(p, blockSize) <==> |d| % blockSize == 0 && Unpadded(d, blockSize) == Success(p)
  {
    hide Unpadded, Tail;
    var n := blockSize - |p| % blockSize;
    if d == Padded(p, blockSize) {
      UnpadsTail(p, n, blockSize);
      WholeBlocks(|p|, n, blockSize);
    }
    if |d| % blockSize == 0 && Unpadded(d, blockSize) == Success(p) {
      var k := HasTail(p, d, blockSize);
      WholeBlocks(|p|, k, blockSize);
    }
  }

  lemma UnpadsTail(p: seq<bv8>, n: nat, blockSize: nat)
    requires 0 < n <= blockSize <= 255
    ensures |Tail(n)| == n && Unpadded(p + Tail(n), blockSize) == Success(p)
  {
    hide ByteOf, IntOf;
    var d := p + Tail(n);
    IntOfByte(n);
    assert d[|d| - 1] == Tail(n)[n - 1];
    assert d[|d| - n..] == Tail(n) && d[..|d| - n] == p;
  }

  lemma HasTail(p: seq<bv8>, d: seq<bv8>, blockSize: nat) returns (n: nat)
    requires 0 < blockSize <= 255 && Unpadded(d, blockSize) == Success(p)
    ensures 0 < n <= blockSize && |Tail(n)| == n && d == p + Tail(n)
  {
    hide ByteOf, IntOf;
    n := IntOf(d[|d| - 1]);
    assert d == d[..|d| - n] + d[|d| - n..];
  }

  lemma WholeBlocks(length: nat, n: nat, blockSize: nat)
    requires 0 < n <= blockSize
    ensures (length + n) % blockSize == 0 <==> n == blockSize - length % blockSize
  {
    var q, r := length / blockSize, length % blockSize;
    assert length + n == blockSize * q + (r + n);
    Residue(q, r + n, blockSize);
  }

  lemma Residue(q: nat, x: nat, blockSize: nat)
    requires 0 < blockSize && 0 < x < 2 * blockSize
    ensures (blockSize * q + x) % blockSize == 0 <==> x == blockSize
  {
    var y := blockSize * q + x;
    if x == blockSize {
      assert y == blockSize * (q + 1);
      Remainder(y, q + 1, 0, blockSize);
    } else if x < blockSize {
      Remainder(y, q, x, blockSize);
    } else {
      assert y == blockSize * (q + 1) + (x - blockSize);
      Remainder(y, q + 1, x - blockSize, blockSize);
    }
  }

  // ---------------------------------------------------------------- chaining

  function Sealed(keys: Schedule, prev: Block, block: Block): Block {
    Encrypted(keys, AddKey(block, prev))
  }

  function Opened(keys: Schedule, prev: Block, block: Block): Block {
    AddKey(Decrypted(keys, block), prev)
  }

  lemma SealInverts(keys: Schedule, prev: Block, block: Block)
    ensures Opened(keys, prev, Sealed(keys, prev, block)) == block
    ensures Sealed(keys, prev, Opened(keys, prev, block)) == block
  {
    hide AddKey, Encrypted, Decrypted;
    BlockInversion(keys, AddKey(block, prev));
    BlockInversion(keys, block);
    AddKeyInverts(block, prev);
    AddKeyInverts(Decrypted(keys, block), prev);
  }

  // The first n blocks of pt, each added to the ciphertext before it and encrypted.
  function Chained(keys: Schedule, prev: Block, pt: seq<bv8>, n: nat): (ct: seq<bv8>)
    requires |pt| == 16 * n
    ensures |ct| == 16 * n
    decreases n
  {
    hide Sealed;
    if n == 0 then []
    else
      var c := Sealed(keys, prev, pt[..16]);
      c + Chained(keys, c, pt[16..], n - 1)
  }

  function Unchained(keys: Schedule, prev: Block, ct: seq<bv8>, n: nat): (pt: seq<bv8>)
    requires |ct| == 16 * n
    ensures |pt| == 16 * n
    decreases n
  {
    hide Opened;
    if n == 0 then [] else Opened(keys, prev, ct[..16]) + Unchained(keys, ct[..16], ct[16..], n - 1)
  }

  lemma {:induction false} ChainInverts(keys: Schedule, prev: Block, pt: seq<bv8>, n: nat)
    requires |pt| == 16 * n
    ensures Unchained(keys, prev, Chained(keys, prev, pt, n), n) == pt
    decreases n
  {
    hide Sealed, Opened;
    if n > 0 {
      var c := Sealed(keys, prev, pt[..16]);
      var rest: seq<bv8> := Chained(keys, c, pt[16..], n - 1);
      assert (c + rest)[..16] == c && (c + rest)[16..] == rest;
      SealInverts(keys, prev, pt[..16]);
      ChainInverts(keys, c, pt[16..], n - 1);
      assert pt == pt[..16] + pt[16..];
    }
  }

  lemma {:induction false} UnchainInverts(keys: Schedule, prev: Block, ct: seq<bv8>, n: nat)
    requires |ct| == 16 * n
    ensures Chained(keys, prev, Unchained(keys, prev, ct, n), n) == ct
    decreases n
  {
    hide Sealed, Opened;
    if n > 0 {
      var p := Opened(keys, prev, ct[..16]);
      var rest: seq<bv8> := Unchained(keys, ct[..16], ct[16..], n - 1);
      assert (p + rest)[..16] == p && (p + rest)[16..] == rest;
      SealInverts(keys, prev, ct[..16]);
      UnchainInverts(keys, ct[..16], ct[16..], n - 1);
      assert ct == ct[..16] + ct[16..];
    }
  }

  function BlockAt(s: seq<bv8>, i: nat): Block
    requires 16 * i + 16 <= |s|
  {
    s[16 * i..16 * i + 16]
  }

  // The equation of SP 800-38A for every block of the ciphertext.
  lemma {:induction false} ChainEquation(keys: Schedule, iv: Block, pt: seq<bv8>, n: nat, i: nat)
    requires |pt| == 16 * n && i < n
    ensures var ct := Chained(keys, iv, pt, n);
            BlockAt(ct, i) == Encrypted(keys, AddKey(BlockAt(pt, i), if i == 0 then iv else BlockAt(ct, i - 1)))
    decreases i
  {
    hide Encrypted, AddKey;
    var c := Sealed(keys, iv, pt[..16]);
    var rest := Chained(keys, c, pt[16..], n - 1);
    if i > 0 {
      ChainEquation(keys, c, pt[16..], n - 1, i - 1);
      LaterBlock(c, rest, i);
      LaterBlock(pt[..16], pt[16..], i);
      assert pt == pt[..16] + pt[16..];
      if i > 1 { LaterBlock(c, rest, i - 1); }
    }
  }

  lemma LaterBlock(first: Block, rest: seq<bv8>, i: nat)
    requires 0 < i && 16 * i <= |rest|
    ensures BlockAt(first + rest, i) == BlockAt(rest, i - 1)
  {
  }

  // ---------------------------------------------------------------- the two entry points

  function Encryption(plaintext: seq<bv8>, key: seq<bv8>, iv: seq<bv8>): Outcome {
    if |key| != 16 then Failure(KeyLength)
    else if |iv| != 16 then Failure(IvLength)
    else
      hide Chained, Keys, Padded;
      PaddedLength(plaintext);
      Success(Chained(Keys(key), iv, Padded(plaintext, 16), |plaintext| / 16 + 1))
  }

  function Decryption(ciphertext: seq<bv8>, key: seq<bv8>, iv: seq<bv8>): Outcome {
    if |ciphertext| % 16 != 0 then Failure(CiphertextLength)
    else if |key| != 16 then Failure(KeyLength)
    else if |iv| != 16 then Failure(IvLength)
    else
      hide Unchained, Keys, Unpadded;
      Unpadded(Unchained(Keys(key), iv, ciphertext, |ciphertext| / 16), 16)
  }

  // The loop that adds the previous block byte by byte.
  method AddBlock(input: Block, prev: Block) returns (block: Block)
    ensures block == AddKey(input, prev)
  {
    hide AddKey;
    var b := new bv8[16];
    Store(b, input);
    AddRoundKey(b, prev);
    block := b[..];
  }

  method Encrypt(plaintext: seq<bv8>, key: seq<bv8>, iv: seq<bv8>) returns (r: Outcome)
    ensures r == Encryption(plaintext, key, iv)
  {
    hide Chained, Sealed, Keys, Padded;
    if |key| != 16 { return Failure(KeyLength); }
    if |iv| != 16 { return Failure(IvLength); }
    var roundKeys := ExpandKey(key);
    var pt := Pkcs7Pad(plaintext, 16);
    PaddedLength(plaintext);
    var out := ChainBlocks(roundKeys, iv, pt, |plaintext| / 16 + 1);
    r := Success(out);
  }

  method ChainBlocks(roundKeys: Schedule, iv: Block, pt: seq<bv8>, ghost n: nat) returns (out: seq<bv8>)
    requires |pt| == 16 * n
    ensures out == Chained(roundKeys, iv, pt, n)
  {
    hide AddKey, Encrypted;
    var prev: Block := iv;
    out := [];
    var offset := 0;
    ghost var left: nat := n;
    while offset < |pt|
      invariant left <= n && offset == 16 * (n - left)
      invariant out + Chained(roundKeys, prev, pt[offset..], left) == Chained(roundKeys, iv, pt, n)
    {
      var block := AddBlock(pt[offset..offset + 16], prev);
      var ct := EncryptBlock(roundKeys, block);
      ghost var s := pt[offset..];
      assert s[..16] == pt[offset..offset + 16] && s[16..] == pt[offset + 16..];
      out := out + ct;
      prev := ct;
      offset := offset + 16;
      left := left - 1;
    }
  }

  method Decrypt(ciphertext: seq<bv8>, key: seq<bv8>, iv: seq<bv8>) returns (r: Outcome)
    ensures r == Decryption(ciphertext, key, iv)
  {
    hide Unchained, Opened, Keys, Unpadded;
    if |ciphertext| % 16 != 0 { return Failure(CiphertextLength); }
    if |key| != 16 { return Failure(KeyLength); }
    if |iv| != 16 { return Failure(IvLength); }
    var roundKeys := ExpandKey(key);
    var out := UnchainBlocks(roundKeys, iv, ciphertext, |ciphertext| / 16);
    r := Pkcs7Unpad(out, 16);
  }

  method UnchainBlocks(roundKeys: Schedule, iv: Block, ct: seq<bv8>, ghost n: nat) returns (out: seq<bv8>)
    requires |ct| == 16 * n
    ensures out == Unchained(roundKeys, iv, ct, n)
  {
    hide AddKey, Decrypted;
    var prev: Block := iv;
    out := [];
    var offset := 0;
    ghost var left: nat := n;
    while offset < |ct|
      invariant left <= n && offset == 16 * (n - left)
      invariant out + Unchained(roundKeys, prev, ct[offset..], left) == Unchained(roundKeys, iv, ct, n)
    {
      var block: Block := ct[offset..offset + 16];
      var plain := DecryptBlock(roundKeys, block);
      plain := AddBlock(plain, prev);
      ghost var s := ct[offset..];
      assert s[..16] == block && s[16..] == ct[offset + 16..];
      out := out + plain;
      prev := block;
      offset := offset + 16;
      left := left - 1;
    }
  }

  // Decryption answers a plaintext exactly for the ciphertext that encryption makes of it.
  lemma CbcCodec(p: seq<bv8>, c: seq<bv8>, key: seq<bv8>, iv: seq<bv8>)
    ensures Decryption(c, key, iv) == Success(p) <==> Encryption(p, key, iv) == Success(c)
  {
    hide Chained, Unchained, Keys, Padded, Unpadded;
    if |key| == 16 && |iv| == 16 {
      var keys := Keys(key);
      PaddedLength(p);
      ChainInverts(keys, iv, Padded(p, 16), |p| / 16 + 1);
      PaddingCodec(p, Padded(p, 16), 16);
      if |c| % 16 == 0 {
        UnchainInverts(keys, iv, c, |c| / 16);
        PaddingCodec(p, Unchained(keys, iv, c, |c| / 16), 16);
      }
    }
  }

  lemma PaddedLength(p: seq<bv8>)
    ensures |Padded(p, 16)| == 16 * (|p| / 16 + 1)
  {
  }

  // The ciphertext is as long as the next multiple of 16 strictly above the plaintext.
  lemma EncryptionLength(p: seq<bv8>, key: seq<bv8>, iv: seq<bv8>)
    requires |key| == |iv| == 16
    ensures var r := Encryption(p, key, iv);
            r.Success? && |r.bytes| % 16 == 0 && |p| < |r.bytes| <= |p| + 16
  {
    hide Chained, Keys, Padded;
    PaddedLength(p);
  }

  // ---------------------------------------------------------------- byte by byte

  // The padding of RFC 5652 section 6.3 for blocks of 16 bytes.
  lemma PaddedByBytes(data: seq<bv8>)
    ensures var d := Padded(data, 16);
            && |d| == 16 * (|data| / 16 + 1) && data <= d
            && forall i :: |data| <= i < |d| ==> d[i] as int == 16 - |data| % 16
  {
    hide Tail;
    var n := 16 - |data| % 16;
    PaddedLength(data);
    forall i | 0 <= i < |Tail(n)| ensures Tail(n)[i] as int == n { TailByte(n, i); }
  }

  lemma TailByte(n: nat, i: nat)
    requires n < 256 && i < |Tail(n)|
    ensures Tail(n)[i] as int == n
  {
    ByteIsInt(n);
  }

  // Every block of a ciphertext, and when there is one.
  lemma EncryptionByBlocks(plaintext: seq<bv8>, key: seq<bv8>, iv: seq<bv8>, i: nat)
    requires |key| == 16 && |iv| == 16 && i <= |plaintext| / 16
    ensures Encryption(plaintext, key, iv).Success? && |Padded(plaintext, 16)| == 16 * (|plaintext| / 16 + 1)
    ensures var ct := Encryption(plaintext, key, iv).bytes;
            && |ct| == 16 * (|plaintext| / 16 + 1)
            && BlockAt(ct, i) == Encrypted(Keys(key), AddKey(BlockAt(Padded(plaintext, 16), i),
                                                             if i == 0 then iv else BlockAt(ct, i - 1)))
  {
    hide Chained, Keys, Padded, Encrypted, AddKey;
    PaddedLength(plaintext);
    ChainEquation(Keys(key), iv, Padded(plaintext, 16), |plaintext| / 16 + 1, i);
  }

  // What is refused, and for what reason.
  lemma Refusals(data: seq<bv8>, key: seq<bv8>, iv: seq<bv8>)
    ensures Encryption(data, key, iv) == Failure(KeyLength) <==> |key| != 16
    ensures Encryption(data, key, iv) == Failure(IvLength) <==> |key| == 16 && |iv| != 16
    ensures Decryption(data, key, iv) == Failure(CiphertextLength) <==> |data| % 16 != 0
    ensures Decryption(data, key, iv) == Failure(KeyLength) <==> |data| % 16 == 0 && |key| != 16
    ensures Decryption(data, key, iv) == Failure(IvLength) <==> |data| % 16 == 0 && |key| == 16 && |iv| != 16
    ensures |data| % 16 == 0 && |key| == |iv| == 16 ==>
              Decryption(data, key, iv).Success? || Decryption(data, key, iv) == Failure(Padding)
  {
    hide Chained, Unchained, Keys, Padded;
  }
}
