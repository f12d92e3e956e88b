/**
 * The RADIUS attribute cipher (section 5.2 of RFC 2865): one routine that
 * encrypts when it works in place and decrypts when it does not.
 */
module RadiusCrypt {
  import opened Bytes

  const HASH_SIZE: nat := 16

  /** A hash that may fail to be computed. */
  type Hash = seq<byte> -> Option<seq<byte>>

  ghost predicate HashOk(hash: Hash) {
    forall data :: match hash(data) case None => true case Some(h) => |h| == HASH_SIZE
  }

  function Pow2(k: nat): (p: nat)
    ensures p > 0
  {
    if k == 0 then 1 else 2 * Pow2(k - 1)
  }

  /** Exclusive or of the low k bits. */
  function XorBits(a: nat, b: nat, k: nat): (x: nat)
    ensures x < Pow2(k)
  {
    if k == 0 then 0 else (a % 2 + b % 2) % 2 + 2 * XorBits(a / 2, b / 2, k - 1)
  }

  lemma {:induction false} XorBitsTwice(a: nat, b: nat, k: nat)
    requires a < Pow2(k)
    ensures XorBits(XorBits(a, b, k), b, k) == a
  {
    if k > 0 {
      var y := XorBits(a / 2, b / 2, k - 1);
      Halves((a % 2 + b % 2) % 2, y);
      Parity(a, b);
      XorBitsTwice(a / 2, b / 2, k - 1);
    }
  }

  lemma Halves(bit: nat, y: nat)
    requires bit < 2
    ensures (bit + 2 * y) % 2 == bit && (bit + 2 * y) / 2 == y
  {
  }

  lemma Parity(a: nat, b: nat)
    ensures ((a % 2 + b % 2) % 2 + b % 2) % 2 == a % 2 && a % 2 + 2 * (a / 2) == a
  {
  }

  /** Bit k, counted from the low end. */
  predicate Bit(x: nat, k: nat) {
    if k == 0 then x % 2 == 1 else Bit(x / 2, k - 1)
  }

  /** Every bit of the result is set exactly if it is set in one argument and not in the other. */
  lemma {:induction false} XorBitsBit(a: nat, b: nat, n: nat, k: nat)
    requires k < n
    ensures Bit(XorBits(a, b, n), k) <==> (Bit(a, k) != Bit(b, k))
    decreases n
  {
    var low, y := (a % 2 + b % 2) % 2, XorBits(a / 2, b / 2, n - 1);
    Halves(low, y);
    if k == 0 {
      OddSum(a, b);
    } else {
      XorBitsBit(a / 2, b / 2, n - 1, k - 1);
    }
  }

  lemma OddSum(a: nat, b: nat)
    ensures (a % 2 + b % 2) % 2 == 1 <==> (a % 2 == 1) != (b % 2 == 1)
  {
  }

  lemma XorByteBits(a: byte, b: byte, k: nat)
    requires k < 8
    ensures Bit(XorByte(a, b), k) <==> (Bit(a, k) != Bit(b, k))
  {
    ByteRange();
    XorBitsBit(a, b, 8, k);
  }

  function XorByte(a: byte, b: byte): byte {
    ByteRange();
    XorBits(a, b, 8)
  }

  lemma ByteRange()
    ensures Pow2(8) == 256
  {
    assert Pow2(4) == 16;
    assert Pow2(8) == 2 * (2 * (2 * (2 * Pow2(4))));
  }

  lemma XorByteTwice(a: byte, b: byte)
    ensures XorByte(XorByte(a, b), b) == a
  {
    ByteRange();
    XorBitsTwice(a, b, 8);
  }

  function Xor(a: seq<byte>, b: seq<byte>): (x: seq<byte>)
    requires |a| == |b|
    ensures |x| == |a|
  {
    seq(|a|, i requires 0 <= i < |a| => XorByte(a[i], b[i]))
  }

  lemma XorTwice(a: seq<byte>, b: seq<byte>)
    requires |a| == |b|
    ensures Xor(Xor(a, b), b) == a
  {
    hide XorByte;
    forall i | 0 <= i < |a|
      ensures Xor(Xor(a, b), b)[i] == a[i]
    {
      XorByteTwice(a[i], b[i]);
    }
  }

  predicate Blocks(s: seq<byte>) {
    |s| % HASH_SIZE == 0
  }

  /** The routine: block by block, the next key from the output block or from the input block. */
  function Crypted(hash: Hash, secret: seq<byte>, key: seq<byte>, s: seq<byte>, fromOutput: bool): (r: Option<seq<byte>>)
    requires HashOk(hash) && |key| == HASH_SIZE && Blocks(s)
    ensures r.Some? ==> |r.value| == |s|
    decreases |s|
  {
    if s == [] then Some([]) else
    var block := s[..HASH_SIZE];
    var x := Xor(block, key);
    if |s| == HASH_SIZE then Some(x) else
    match hash(secret + if fromOutput then x else block)
    case None => None
    case Some(next) =>
      assert Blocks(s[HASH_SIZE..]);
      match Crypted(hash, secret, next, s[HASH_SIZE..], fromOutput)
      case None => None
      case Some(rest) => Some(x + rest)
  }

  /** Chaining on the input undoes chaining on the output, for every hash. */
  lemma {:induction false} DecryptsEncrypted(hash: Hash, secret: seq<byte>, key: seq<byte>, plain: seq<byte>)
    requires HashOk(hash) && |key| == HASH_SIZE && Blocks(plain)
    requires Crypted(hash, secret, key, plain, true).Some?
    ensures Crypted(hash, secret, key, Crypted(hash, secret, key, plain, true).value, false) == Some(plain)
    decreases |plain|
  {
    hide Xor, HashOk, Crypted, Blocks;
    if plain == [] {
      CryptedNothing(hash, secret, key, true);
      CryptedNothing(hash, secret, key, false);
    } else {
      FirstBlock(plain);
      var block, rest := plain[..HASH_SIZE], plain[HASH_SIZE..];
      var x := Xor(block, key);
      XorTwice(block, key);
      BlocksBehind(block, rest);
      if rest == [] {
        assert block + [] == block && x + [] == x;
        CryptedLast(hash, secret, key, block, true);
        CryptedLast(hash, secret, key, x, false);
      } else {
        CryptedStep(hash, secret, key, block, rest, true);
        var next := hash(secret + x).value;
        HashSize(hash, secret + x);
        DecryptsEncrypted(hash, secret, next, rest);
        var tail := Crypted(hash, secret, next, rest, true).value;
        BlocksAs(tail, rest);
        CryptedStep(hash, secret, key, x, tail, false);
      }
    }
  }

  lemma FirstBlock(s: seq<byte>)
    requires Blocks(s) && s != []
    ensures |s| >= HASH_SIZE && s == s[..HASH_SIZE] + s[HASH_SIZE..]
  {
  }

  lemma BlocksBehind(first: seq<byte>, rest: seq<byte>)
    requires |first| == HASH_SIZE
    ensures Blocks(first + rest) <==> Blocks(rest)
    ensures rest != [] && Blocks(rest) ==> |rest| >= HASH_SIZE
  {
  }

  lemma BlocksAs(a: seq<byte>, b: seq<byte>)
    requires |a| == |b|
    ensures Blocks(a) <==> Blocks(b)
  {
  }

  lemma CryptedNothing(hash: Hash, secret: seq<byte>, key: seq<byte>, fromOutput: bool)
    requires HashOk(hash) && |key| == HASH_SIZE
    ensures Blocks([]) && Crypted(hash, secret, key, [], fromOutput) == Some([])
  {
  }

  lemma CryptedLast(hash: Hash, secret: seq<byte>, key: seq<byte>, s: seq<byte>, fromOutput: bool)
    requires HashOk(hash) && |key| == |s| == HASH_SIZE
    ensures Blocks(s) && Crypted(hash, secret, key, s, fromOutput) == Some(Xor(s, key))
  {
    hide Xor, HashOk;
    assert s[..HASH_SIZE] == s;
  }

  /** One block, and the key for the next. */
  lemma CryptedStep(hash: Hash, secret: seq<byte>, key: seq<byte>, first: seq<byte>, rest: seq<byte>, fromOutput: bool)
    requires HashOk(hash) && |key| == |first| == HASH_SIZE && Blocks(rest) && rest != []
    ensures Blocks(first + rest)
    ensures var chain := hash(secret + if fromOutput then Xor(first, key) else first);
            && (chain.Some? ==> |chain.value| == HASH_SIZE)
            && Crypted(hash, secret, key, first + rest, fromOutput) ==
               if chain.None? then None else Prepend(Xor(first, key), Crypted(hash, secret, chain.value, rest, fromOutput))
  {
    hide Xor;
    BlocksBehind(first, rest);
    assert (first + rest)[..HASH_SIZE] == first && (first + rest)[HASH_SIZE..] == rest;
    var chain := hash(secret + if fromOutput then Xor(first, key) else first);
    if chain.Some? {
      HashSize(hash, secret + if fromOutput then Xor(first, key) else first);
    }
    hide HashOk, Blocks;
  }

  lemma HashSize(hash: Hash, data: seq<byte>)
    requires HashOk(hash) && hash(data).Some?
    ensures |hash(data).value| == HASH_SIZE
  {
  }

  function Block(s: seq<byte>, i: nat): seq<byte>
    requires (i + 1) * HASH_SIZE <= |s|
  {
    s[i * HASH_SIZE..(i + 1) * HASH_SIZE]
  }

  /** The i-th key: the seed, then the hash of the secret and the ciphertext block before. */
  function Key(hash: Hash, secret: seq<byte>, seed: seq<byte>, cipher: seq<byte>, i: nat): Option<seq<byte>>
    requires i * HASH_SIZE <= |cipher|
  {
    if i == 0 then Some(seed) else hash(secret + Block(cipher, i - 1))
  }

  /** The ciphertext is the chain of section 5.2 of RFC 2865. */
  lemma {:induction false} EncryptedIsChain(hash: Hash, secret: seq<byte>, key: seq<byte>, plain: seq<byte>, i: nat)
    requires HashOk(hash) && |key| == HASH_SIZE && Blocks(plain)
    requires Crypted(hash, secret, key, plain, true).Some? && (i + 1) * HASH_SIZE <= |plain|
    ensures var cipher := Crypted(hash, secret, key, plain, true).value;
            match Key(hash, secret, key, cipher, i)
            case None => false
            case Some(k) => |k| == HASH_SIZE && Block(cipher, i) == Xor(Block(plain, i), k)
    decreases i
  {
    hide Xor, HashOk;
    var block, rest := plain[..HASH_SIZE], plain[HASH_SIZE..];
    var x := Xor(block, key);
    var cipher := Crypted(hash, secret, key, plain, true).value;
    assert cipher[..HASH_SIZE] == x;
    if i == 0 {
      assert Block(plain, 0) == block && Block(cipher, 0) == x;
    } else {
      assert Blocks(rest);
      var next := hash(secret + x).value;
      HashSize(hash, secret + x);
      var tail := Crypted(hash, secret, next, rest, true).value;
      EncryptedIsChain(hash, secret, next, rest, i - 1);
      assert cipher == x + tail;
      BlockBehind(x, tail, i);
      BlockBehind(block, rest, i);
      assert block + rest == plain;
      if i == 1 {
        assert Block(cipher, 0) == x;
      } else {
        BlockBehind(x, tail, i - 1);
      }
    }
  }

  lemma BlockBehind(first: seq<byte>, rest: seq<byte>, i: nat)
    requires |first| == HASH_SIZE && 0 < i && i * HASH_SIZE <= |rest|
    ensures Block(first + rest, i) == Block(rest, i - 1)
  {
  }

  /** memxor of a block at a position. */
  method MemXor(dst: array<byte>, at: nat, src: seq<byte>)
    requires at + |src| <= dst.Length
    modifies dst
    ensures dst[at..at + |src|] == Xor(old(dst[at..at + |src|]), src)
    ensures forall i :: 0 <= i < dst.Length && !(at <= i < at + |src|) ==> dst[i] == old(dst[i])
  {
    hide XorByte;
    for n := 0 to |src|
      invariant forall i :: at <= i < at + n ==> dst[i] == XorByte(old(dst[i]), src[i - at])
      invariant forall i :: 0 <= i < dst.Length && !(at <= i < at + n) ==> dst[i] == old(dst[i])
    {
      dst[at + n] := XorByte(dst[at + n], src[n]);
    }
  }

  /** The seed of the first block. */
  function Seed(secret: seq<byte>, authenticator: seq<byte>, salt: seq<byte>): seq<byte> {
    secret + authenticator + salt
  }

  function Prepend(done: seq<byte>, rest: Option<seq<byte>>): Option<seq<byte>> {
    match rest
    case None => None
    case Some(r) => Some(done + r)
  }

  /** Input and output may be the same buffer, in which case each key comes from the block just written. */
  method Crypt(hash: Hash, secret: seq<byte>, authenticator: seq<byte>, salt: seq<byte>,
               input: array<byte>, output: array<byte>) returns (ok: bool)
    requires HashOk(hash)
    modifies output
    ensures ok ==> input.Length == output.Length && input.Length >= HASH_SIZE && Blocks(old(input[..]))
    ensures ok <==>
            && input.Length == output.Length && input.Length >= HASH_SIZE && Blocks(old(input[..]))
            && match hash(Seed(secret, authenticator, salt))
               case None => false
               case Some(key) => Crypted(hash, secret, key, old(input[..]), input == output).Some?
    ensures ok ==> match hash(Seed(secret, authenticator, salt))
                   case None => false
                   case Some(key) => Some(output[..]) == Crypted(hash, secret, key, old(input[..]), input == output)
  {
    if input.Length != output.Length || input.Length % HASH_SIZE != 0 || input.Length < HASH_SIZE {
      return false;
    }
    ghost var was := input[..];
    if output != input {
      CopyInto(output, 0, input[..]);
    }
    assert output[..] == was;
    match hash(Seed(secret, authenticator, salt)) {
      case None =>
        return false;
      case Some(key) =>
        ok := CryptBlocks(hash, secret, key, input, output, was);
    }
  }

  method CryptBlocks(hash: Hash, secret: seq<byte>, key: seq<byte>, input: array<byte>, output: array<byte>, ghost was: seq<byte>)
      returns (ok: bool)
    requires HashOk(hash) && |key| == HASH_SIZE && input.Length == output.Length && |was| >= HASH_SIZE && Blocks(was)
    requires input[..] == was && output[..] == was
    modifies output
    ensures ok == Crypted(hash, secret, key, was, input == output).Some?
    ensures ok ==> Some(output[..]) == Crypted(hash, secret, key, was, input == output)
  {
    hide Xor, HashOk, Crypted, Prepend;
    ghost var inPlace := input == output;
    ghost var all := Crypted(hash, secret, key, was, inPlace);
    var b, pos := key, 0;
    assert was[0..] == was && output[..0] == [];
    PrependNothing(all);
    while pos < input.Length
      invariant 0 <= pos <= input.Length && Blocks(was[pos..]) && |b| == HASH_SIZE
      invariant output[pos..] == was[pos..] && (!inPlace ==> input[..] == was)
      invariant all == Prepend(output[..pos], Crypted(hash, secret, b, was[pos..], inPlace))
    {
      ghost var left, done := was[pos..], output[..pos];
      assert left[HASH_SIZE..] == was[pos + HASH_SIZE..];
      XorBlock(output, pos, b, left);
      if pos + HASH_SIZE < output.Length {
        assert input[pos..pos + HASH_SIZE] == if inPlace then Xor(left[..HASH_SIZE], b) else left[..HASH_SIZE] by {
          assert inPlace ==> input[..pos + HASH_SIZE][pos..] == input[pos..pos + HASH_SIZE];
        }
        match hash(secret + input[pos..pos + HASH_SIZE]) {
          case None =>
            Stuck(hash, secret, b, left, inPlace, done);
            return false;
          case Some(next) =>
            Continue(hash, secret, b, left, inPlace, done);
            b := next;
        }
      } else {
        Last(hash, secret, b, left, inPlace, done);
      }
      pos := pos + HASH_SIZE;
    }
    ok := true;
    assert was[pos..] == [] && output[..pos] == output[..];
    Finished(hash, secret, b, inPlace, output[..]);
  }

  method XorBlock(output: array<byte>, pos: nat, b: seq<byte>, ghost left: seq<byte>)
    requires |b| == HASH_SIZE && pos + HASH_SIZE <= output.Length && output[pos..] == left
    modifies output
    ensures output[..pos + HASH_SIZE] == old(output[..pos]) + Xor(left[..HASH_SIZE], b)
    ensures output[pos + HASH_SIZE..] == left[HASH_SIZE..]
  {
    hide Xor;
    assert output[pos..pos + HASH_SIZE] == left[..HASH_SIZE];
    assert output[pos + HASH_SIZE..] == left[HASH_SIZE..];
    ghost var was := output[..];
    MemXor(output, pos, b);
    assert output[..pos] == was[..pos];
    assert output[..pos + HASH_SIZE] == output[..pos] + output[pos..pos + HASH_SIZE];
    assert output[pos + HASH_SIZE..] == was[pos + HASH_SIZE..];
  }

  lemma PrependNothing(rest: Option<seq<byte>>)
    ensures Prepend([], rest) == rest
  {
    assert rest.Some? ==> [] + rest.value == rest.value;
  }

  lemma Stuck(hash: Hash, secret: seq<byte>, key: seq<byte>, s: seq<byte>, fromOutput: bool, done: seq<byte>)
    requires HashOk(hash) && |key| == HASH_SIZE && Blocks(s) && |s| > HASH_SIZE
    requires hash(secret + if fromOutput then Xor(s[..HASH_SIZE], key) else s[..HASH_SIZE]).None?
    ensures Prepend(done, Crypted(hash, secret, key, s, fromOutput)) == None
  {
    hide Xor, HashOk;
  }

  lemma Last(hash: Hash, secret: seq<byte>, key: seq<byte>, s: seq<byte>, fromOutput: bool, done: seq<byte>)
    requires HashOk(hash) && |key| == HASH_SIZE && |s| == HASH_SIZE
    ensures Prepend(done, Crypted(hash, secret, key, s, fromOutput))
         == Prepend(done + Xor(s, key), Crypted(hash, secret, key, s[HASH_SIZE..], fromOutput))
    ensures s[..HASH_SIZE] == s
  {
    hide Xor, HashOk;
    assert s[..HASH_SIZE] == s && s[HASH_SIZE..] == [];
    assert done + Xor(s, key) + [] == done + Xor(s, key);
  }

  lemma Finished(hash: Hash, secret: seq<byte>, key: seq<byte>, fromOutput: bool, done: seq<byte>)
    requires HashOk(hash) && |key| == HASH_SIZE
    ensures Prepend(done, Crypted(hash, secret, key, [], fromOutput)) == Some(done)
  {
    assert done + [] == done;
  }

  /** One step of the routine, seen from the output produced so far. */
  lemma Continue(hash: Hash, secret: seq<byte>, key: seq<byte>, s: seq<byte>, fromOutput: bool, done: seq<byte>)
    requires HashOk(hash) && |key| == HASH_SIZE && Blocks(s) && |s| > HASH_SIZE
    requires var x := Xor(s[..HASH_SIZE], key);
             hash(secret + if fromOutput then x else s[..HASH_SIZE]).Some?
    ensures var x := Xor(s[..HASH_SIZE], key);
            var next := hash(secret + if fromOutput then x else s[..HASH_SIZE]).value;
            && |next| == HASH_SIZE && Blocks(s[HASH_SIZE..])
            && Prepend(done, Crypted(hash, secret, key, s, fromOutput))
            == Prepend(done + x, Crypted(hash, secret, next, s[HASH_SIZE..], fromOutput))
  {
    hide Xor;
    var x := Xor(s[..HASH_SIZE], key);
    HashSize(hash, secret + if fromOutput then x else s[..HASH_SIZE]);
    hide HashOk;
    assert Blocks(s[HASH_SIZE..]);
    var next := hash(secret + if fromOutput then x else s[..HASH_SIZE]).value;
    match Crypted(hash, secret, next, s[HASH_SIZE..], fromOutput) {
      case None =>
      case Some(r) =>
        assert done + (x + r) == done + x + r;
    }
  }
}
