// HMAC (RFC 2104 section 2) and the key derivation of password-based MACs (RFC 4210 section 5.1.3.1), as
// c99_client.c streams them and as main.swift hashes them in one go.
module Mac {
  import opened Bitwise
  import opened Sha256

  function ShortKey(key: seq<bv8>): (k: seq<bv8>)
    ensures |k| <= 64
  {
    hide Digest;
    if |key| > 64 then Digest(key) else key
  }

  function KeyBlock(key: seq<bv8>): Chunk {
    ShortKey(key) + Zeros(64 - |ShortKey(key)|)
  }

  function Masked(block: Chunk, mask: bv8): Chunk {
    seq(64, i requires 0 <= i < 64 => Xor(block[i], mask))
  }

  function Hmac(key: seq<bv8>, data: seq<bv8>): (mac: seq<bv8>)
    ensures |mac| == 32
  {
    hide Digest, KeyBlock;
    Digest(Masked(KeyBlock(key), 0x5c) + Digest(Masked(KeyBlock(key), 0x36) + data))
  }

  // ---------------------------------------------------------------- c99_client.c

  // Init, two updates, final.
  method HashPair(first: seq<bv8>, second: seq<bv8>) returns (hash: seq<bv8>)
    requires |first| < 0x1_0000_0000 && |second| < 0x1_0000_0000
    ensures hash == Digest(first + second)
  {
    hide Digest, Compress, Absorbed;
    var ctx := new Context();
    ctx.Init();
    ctx.Update(first, []);
    ctx.Update(second, [] + first);
    assert [] + first == first;
    var out := new bv8[32];
    ctx.Final(out, first + second);
    hash := out[..];
  }

  // hmac_sha256
  method StreamedHmac(key: seq<bv8>, data: seq<bv8>) returns (output: seq<bv8>)
    requires |key| < 0x1_0000_0000 && |data| < 0x1_0000_0000
    ensures output == Hmac(key, data)
  {
    hide Digest, Masked;
    var k := key;
    if |k| > 64 {
      k := HashPair(key, []);
      assert key + [] == key;
    }
    assert k == ShortKey(key);
    var ipad := FillPad(k, 0x36);
    var opad := FillPad(k, 0x5c);
    output := HashPair(ipad, data);
    output := HashPair(opad, output);
  }

  // memset, memcpy, and the loop that flips every byte.
  method FillPad(key: seq<bv8>, mask: bv8) returns (pad: Chunk)
    requires |key| <= 64
    ensures pad == Masked(key + Zeros(64 - |key|), mask)
  {
    hide Xor;
    var block: array<bv8> := new bv8[64](_ => 0);
    for i := 0 to |key|
      invariant forall j :: 0 <= j < 64 ==> block[j] == if j < i then key[j] else 0
    {
      block[i] := key[i];
    }
    ghost var filled := key + Zeros(64 - |key|);
    for i := 0 to 64
      invariant forall j :: i <= j < 64 ==> block[j] == filled[j]
      invariant forall j :: 0 <= j < i ==> block[j] == Xor(filled[j], mask)
    {
      block[i] := Xor(block[i], mask);
    }
    pad := block[..];
  }

  // The bytes before the terminator of a C string.
  function UpToNul(buffer: seq<bv8>): (s: seq<bv8>)
    ensures |s| <= |buffer|
  {
    if buffer == [] || buffer[0] == 0 then [] else [buffer[0]] + UpToNul(buffer[1..])
  }

  lemma {:induction false} NulFree(buffer: seq<bv8>, n: nat)
    requires n <= |buffer| && (n < |buffer| ==> buffer[n] == 0)
    requires forall i :: 0 <= i < n ==> buffer[i] != 0
    ensures UpToNul(buffer) == buffer[..n]
  {
    if n > 0 {
      NulFree(buffer[1..], n - 1);
      assert buffer[..n] == [buffer[0]] + buffer[1..][..n - 1];
    }
  }

  method Strlen(buffer: seq<bv8>) returns (n: nat)
    requires 0 in buffer
    ensures n < |buffer| && UpToNul(buffer) == buffer[..n]
  {
    n := 0;
    while buffer[n] != 0
      invariant n < |buffer| && forall i :: 0 <= i < n ==> buffer[i] != 0
      invariant 0 in buffer[n..]
      decreases |buffer| - n
    {
      assert buffer[n..] == [buffer[n]] + buffer[n + 1..];
      n := n + 1;
    }
    NulFree(buffer, n);
  }

  // n applications of the hash.
  function Iterated(seed: seq<bv8>, n: nat): seq<bv8> {
    hide Digest;
    if n == 0 then seed else Digest(Iterated(seed, n - 1))
  }

  // derive_key; a count below one works like one.
  method DeriveKey(password: seq<bv8>, salt: seq<bv8>, iterations: int) returns (key: seq<bv8>)
    requires 0 in password && |password| < 0x1_0000_0000 && |salt| < 0x1_0000_0000
    ensures key == Iterated(UpToNul(password) + salt, if iterations < 1 then 1 else iterations)
  {
    hide Digest;
    ghost var seed := UpToNul(password) + salt;
    var length := Strlen(password);
    key := HashPair(password[..length], salt);
    assert Iterated(seed, 0) == seed;
    var i := 0;
    while i < iterations - 1
      invariant 0 <= i && (i <= iterations - 1 || i == 0)
      invariant key == Iterated(seed, i + 1) && |key| == 32
    {
      key := HashPair(key, []);
      assert Iterated(seed, i + 1) + [] == Iterated(seed, i + 1);
      i := i + 1;
    }
  }

  // ---------------------------------------------------------------- main.swift

  // hmacSHA256
  method OneShotHmac(key: seq<bv8>, data: seq<bv8>) returns (result: seq<bv8>)
    requires |key| < 0x2000_0000_0000_0000 && |data| + 64 < 0x2000_0000_0000_0000
    ensures result == Hmac(key, data)
  {
    hide Digest, Masked;
    var keyBytes := key;
    if |keyBytes| > 64 {
      keyBytes := OneShot(key);
    }
    ghost var short := keyBytes;
    assert short == ShortKey(key);
    while |keyBytes| < 64
      invariant |keyBytes| <= 64 && keyBytes == short + Zeros(|keyBytes| - |short|)
    {
      keyBytes := keyBytes + [0x00];
    }
    var ipad := FlipInto(0x36, keyBytes);
    var opad := FlipInto(0x5c, keyBytes);
    var innerHash := OneShot(ipad + data);
    result := OneShot(opad + innerHash);
  }

  method FlipInto(mask: bv8, keyBytes: Chunk) returns (pad: Chunk)
    ensures pad == Masked(keyBytes, mask)
  {
    hide Xor;
    var p: array<bv8> := new bv8[64](_ => mask);
    for i := 0 to 64
      invariant forall j :: i <= j < 64 ==> p[j] == mask
      invariant forall j :: 0 <= j < i ==> p[j] == Xor(keyBytes[j], mask)
    {
      XorSwaps(p[i], keyBytes[i]);
      p[i] := Xor(p[i], keyBytes[i]);
    }
    pad := p[..];
  }

  // pbkdf
  method Pbkdf(password: seq<bv8>, salt: seq<bv8>, iterations: nat) returns (result: seq<bv8>)
    requires |password| + |salt| < 0x2000_0000_0000_0000
    ensures result == Iterated(password + salt, iterations)
  {
    hide Digest;
    result := password + salt;
    for i := 0 to iterations
      invariant result == Iterated(password + salt, i)
      invariant |result| < 0x2000_0000_0000_0000
    {
      result := OneShot(result);
    }
  }

  // ---------------------------------------------------------------- RFC 2104 on the bytes

  // H(K xor opad, H(K xor ipad, text)) for a key of at most a block, padded with zeros.
  lemma HmacByBytes(key: seq<bv8>, data: seq<bv8>, inner: seq<bv8>, outer: seq<bv8>)
    requires |key| <= 64 && |inner| == |outer| == 64
    requires forall i :: 0 <= i < |key| ==> inner[i] == key[i] ^ 0x36 && outer[i] == key[i] ^ 0x5c
    requires forall i :: |key| <= i < 64 ==> inner[i] == 0x36 && outer[i] == 0x5c
    ensures Hmac(key, data) == Digest(outer + Digest(inner + data))
  {
    hide Digest;
    MaskedBytes(key, 0x36, inner);
    MaskedBytes(key, 0x5c, outer);
  }

  lemma MaskedBytes(key: seq<bv8>, mask: bv8, block: seq<bv8>)
    requires |key| <= 64 && |block| == 64
    requires forall i :: 0 <= i < |key| ==> block[i] == key[i] ^ mask
    requires forall i :: |key| <= i < 64 ==> block[i] == mask
    ensures Masked(KeyBlock(key), mask) == block
  {
    hide Digest;
    forall i | 0 <= i < 64 ensures Masked(KeyBlock(key), mask)[i] == block[i] {
      if i >= |key| { NothingAdded(mask); }
    }
  }

  // A longer key is hashed first.
  lemma HmacOfLongKey(key: seq<bv8>, data: seq<bv8>)
    requires |key| > 64
    ensures Hmac(key, data) == Hmac(Digest(key), data)
  {
    hide Digest, Masked;
    assert KeyBlock(key) == KeyBlock(Digest(key));
  }

  // ---------------------------------------------------------------- the two derivations

  // What derive_key makes of a password handed over as a C string, and pbkdf of the same password.
  function Streamed(password: seq<bv8>, salt: seq<bv8>, iterations: int): seq<bv8> {
    Iterated(UpToNul(password + [0]) + salt, if iterations < 1 then 1 else iterations)
  }

  function OneShotKey(password: seq<bv8>, salt: seq<bv8>, iterations: nat): seq<bv8> {
    Iterated(password + salt, iterations)
  }

  // Each further round hashes once more.
  lemma RoundsHash(password: seq<bv8>, salt: seq<bv8>, n: nat)
    ensures OneShotKey(password, salt, 0) == password + salt
    ensures OneShotKey(password, salt, n + 1) == Digest(OneShotKey(password, salt, n))
    ensures 0 !in password ==> Streamed(password, salt, n + 1) == OneShotKey(password, salt, n + 1)
    ensures 0 !in password ==> Streamed(password, salt, -(n as int)) == Digest(password + salt)
  {
    hide Digest;
    StringOf(password);
  }

  lemma {:induction false} StringOf(password: seq<bv8>)
    ensures 0 !in password ==> UpToNul(password + [0]) == password
    ensures 0 in password ==> |UpToNul(password + [0])| < |password|
  {
    if password != [] {
      assert (password + [0])[1..] == password[1..] + [0] && password == [password[0]] + password[1..];
      StringOf(password[1..]);
    }
  }

  // Both programs hash the same seed exactly when the password has no zero byte.
  lemma SeedsAgree(password: seq<bv8>, salt: seq<bv8>)
    ensures UpToNul(password + [0]) + salt == password + salt <==> 0 !in password
  {
    StringOf(password);
    assert |UpToNul(password + [0]) + salt| == |UpToNul(password + [0])| + |salt|;
  }

  // The k-th hashes of two different seeds hash alike.
  ghost predicate Collide(a: seq<bv8>, b: seq<bv8>, k: nat) {
    hide Digest;
    Iterated(a, k) != Iterated(b, k) && Digest(Iterated(a, k)) == Digest(Iterated(b, k))
  }

  // Two seeds come to one key exactly when the two runs meet in a collision of the hash.
  lemma {:induction false} KeysMeet(a: seq<bv8>, b: seq<bv8>, n: nat)
    requires a != b
    ensures Iterated(a, n) == Iterated(b, n) <==> exists k: nat :: k < n && Collide(a, b, k)
  {
    hide Digest;
    if n > 0 {
      KeysMeet(a, b, n - 1);
      if Iterated(a, n - 1) != Iterated(b, n - 1) && Iterated(a, n) == Iterated(b, n) { assert Collide(a, b, n - 1); }
    }
  }

  // The two derivations compared. From one round on they give one key for every password without a zero byte, and for
  // a password with one exactly when the two runs meet in a collision of the hash. For no rounds the Swift function
  // gives its seed back: the keys agree only if that is the digest of the C seed, so it must have 32 bytes.
  lemma DerivationsAgree(password: seq<bv8>, salt: seq<bv8>, iterations: nat)
    ensures var agree := Streamed(password, salt, iterations) == OneShotKey(password, salt, iterations);
            var cut, whole := UpToNul(password + [0]) + salt, password + salt;
            && (iterations >= 1 && 0 !in password ==> agree)
            && (iterations >= 1 && 0 in password ==>
                  cut != whole && (agree <==> exists k: nat :: k < iterations && Collide(cut, whole, k)))
            && (iterations == 0 ==> (agree <==> Digest(cut) == whole) && (agree ==> |password| + |salt| == 32))
  {
    hide Digest;
    SeedsAgree(password, salt);
    if iterations == 0 {
      assert |Digest(Iterated(UpToNul(password + [0]) + salt, 0))| == 32;
    } else if 0 in password {
      KeysMeet(UpToNul(password + [0]) + salt, password + salt, iterations);
    }
  }

  // The password 70 00 71: derive_key cannot tell it from the password 70, while pbkdf hashes different seeds.
  lemma PasswordCutShort(salt: seq<bv8>, iterations: int)
    ensures Streamed([0x70, 0x00, 0x71], salt, iterations) == Streamed([0x70], salt, iterations)
    ensures [0x70, 0x00, 0x71] + salt != [0x70] + salt
  {
    hide Iterated;
    var long: seq<bv8>, short: seq<bv8> := [0x70, 0x00, 0x71] + [0], [0x70] + [0];
    assert long[1..][0] == 0 && short[1..][0] == 0;
    assert UpToNul(long) == [0x70] + [] && UpToNul(short) == [0x70] + [];
    assert |[0x70, 0x00, 0x71] + salt| == |salt| + 3 && |[0x70] + salt| == |salt| + 1;
  }

  // Both programs on one password.
  method DeriveBoth(password: seq<bv8>, salt: seq<bv8>, iterations: nat) returns (streamed: seq<bv8>, oneShot: seq<bv8>)
    requires |password| + 1 < 0x1_0000_0000 && |salt| < 0x1_0000_0000
    ensures streamed == Streamed(password, salt, iterations) && oneShot == OneShotKey(password, salt, iterations)
    ensures iterations >= 1 && 0 !in password ==> streamed == oneShot
  {
    hide Iterated, UpToNul;
    DerivationsAgree(password, salt, iterations);
    streamed := DeriveKey(password + [0], salt, iterations);
    oneShot := Pbkdf(password, salt, iterations);
  }
}
