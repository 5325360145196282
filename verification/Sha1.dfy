/** Incremental SHA-1 (src/libcoopy_core/Sha1Generator.cpp) against sections 4 to 6.1 of RFC 3174, and the two
    ways a table is fed to it (src/libcoopy_core/DataSheet.cpp, src/libsqlite/SqliteTextBook.cpp). */
module Sha1 {

  type Byte = x: int | 0 <= x < 256
  type Word = bv32

  const W32: nat := 0x1_0000_0000

  /** A message of this many bytes makes the 64-bit bit count wrap. */
  const TooLong: nat := 0x2000_0000_0000_0000

  // ---------------------------------------------------------------------------
  // The standard

  datatype Words = Words(a: Word, b: Word, c: Word, d: Word, e: Word)

  const Start := Words(0x67452301, 0xEFCDAB89, 0x98BADCFE, 0x10325476, 0xC3D2E1F0)

  function Rotl1(w: Word): Word { (w << 1) | (w >> 31) }
  function Rotl5(w: Word): Word { (w << 5) | (w >> 27) }
  function Rotl30(w: Word): Word { (w << 30) | (w >> 2) }

  function Big(b0: Byte, b1: Byte, b2: Byte, b3: Byte): Word {
    ((b0 as bv32) << 24) | ((b1 as bv32) << 16) | ((b2 as bv32) << 8) | (b3 as bv32)
  }

  function F(t: nat, b: Word, c: Word, d: Word): Word {
    if t < 20 then (b & c) | (!b & d)
    else if t < 40 then b ^ c ^ d
    else if t < 60 then (b & c) | (b & d) | (c & d)
    else b ^ c ^ d
  }

  function K(t: nat): Word {
    if t < 20 then 0x5A827999 else if t < 40 then 0x6ED9EBA1 else if t < 60 then 0x8F1BBCDC else 0xCA62C1D6
  }

  /** The word schedule of a block. */
  ghost function W(block: seq<Byte>, t: nat): Word
    requires |block| == 64
  {
    if t < 16 then Big(block[4 * t], block[4 * t + 1], block[4 * t + 2], block[4 * t + 3])
    else Rotl1(W(block, t - 3) ^ W(block, t - 8) ^ W(block, t - 14) ^ W(block, t - 16))
  }

  function Turn(r: Words, t: nat, w: Word): Words {
    Words(Rotl5(r.a) + F(t, r.b, r.c, r.d) + r.e + w + K(t), r.a, Rotl30(r.b), r.c, r.d)
  }

  ghost function Turned(h: Words, block: seq<Byte>, t: nat): Words
    requires |block| == 64
  {
    if t == 0 then h else Turn(Turned(h, block, t - 1), t - 1, W(block, t - 1))
  }

  function Plus(h: Words, r: Words): Words {
    Words(h.a + r.a, h.b + r.b, h.c + r.c, h.d + r.d, h.e + r.e)
  }

  ghost function Compress(h: Words, block: seq<Byte>): Words
    requires |block| == 64
  {
    Plus(h, Turned(h, block, 80))
  }

  /** The compression function over all blocks in turn. */
  ghost function Fold(s: seq<Byte>): Words
    requires |s| % 64 == 0
  {
    if s == [] then Start else Compress(Fold(s[..|s| - 64]), s[|s| - 64..])
  }

  function Zeros(n: nat): (r: seq<Byte>)
    ensures |r| == n && forall i :: 0 <= i < n ==> r[i] == 0
  {
    seq(n, i => 0)
  }

  /** A word as four octets, the highest first. */
  function Octets(n: nat): (r: seq<Byte>)
    ensures |r| == 4
  {
    [n / 0x100_0000 % 256, n / 0x1_0000 % 256, n / 0x100 % 256, n % 256]
  }

  /** A length in bits, as two words. */
  function TwoWords(n: nat): (r: seq<Byte>)
    ensures |r| == 8
  {
    Octets(n / W32) + Octets(n % W32)
  }

  /** As few zeros as leave room for the length at the end of a block. */
  function Fill(n: nat): (k: nat)
    ensures k < 64 && (n + 1 + k + 8) % 64 == 0
  {
    if n % 64 <= 55 then 55 - n % 64 else 119 - n % 64
  }

  /** One bit, as few zeros as fill the block, and the length in bits. */
  function Padded(m: seq<Byte>): (r: seq<Byte>)
    ensures |r| % 64 == 0
  {
    m + [0x80] + Zeros(Fill(|m|)) + TwoWords(8 * |m|)
  }

  ghost function Digest(m: seq<Byte>): Words {
    Fold(Padded(m))
  }

  lemma FoldBlock(s: seq<Byte>, block: seq<Byte>)
    requires |s| % 64 == 0 && |block| == 64
    ensures Fold(s + block) == Compress(Fold(s), block)
  {
    assert (s + block)[..|s|] == s && (s + block)[|s|..] == block;
  }

  // ---------------------------------------------------------------------------
  // The program's context

  lemma WLow(block: seq<Byte>, t: nat)
    requires |block| == 64 && t < 16
    ensures W(block, t) == Big(block[4 * t], block[4 * t + 1], block[4 * t + 2], block[4 * t + 3])
  {
  }

  lemma WHigh(block: seq<Byte>, t: nat)
    requires |block| == 64 && t >= 16
    ensures W(block, t) == Rotl1(W(block, t - 3) ^ W(block, t - 8) ^ W(block, t - 14) ^ W(block, t - 16))
  {
  }

  /** The word sequence of `SHA1ProcessMessageBlock`. */
  method Schedule(block: seq<Byte>) returns (w: array<Word>)
    requires |block| == 64
    ensures fresh(w) && w.Length == 80 && forall i :: 0 <= i < 80 ==> w[i] == W(block, i)
  {
    hide W, Big, Rotl1;
    w := new Word[80];
    for t := 0 to 16
      invariant forall i :: 0 <= i < t ==> w[i] == W(block, i)
    {
      w[t] := Big(block[4 * t], block[4 * t + 1], block[4 * t + 2], block[4 * t + 3]);
      WLow(block, t);
    }
    for t := 16 to 80
      invariant forall i :: 0 <= i < t ==> w[i] == W(block, i)
    {
      w[t] := Rotl1(w[t - 3] ^ w[t - 8] ^ w[t - 14] ^ w[t - 16]);
      WHigh(block, t);
    }
  }

  method Rounds(h: Words, block: seq<Byte>) returns (r: Words)
    requires |block| == 64
    ensures r == Turned(h, block, 80)
  {
    hide W, Turn;
    var w := Schedule(block);
    r := h;
    for t := 0 to 80
      invariant r == Turned(h, block, t)
    {
      r := Turn(r, t, w[t]);
    }
  }

  /** What a 64-bit counter of bits shows after `n` bytes. */
  function Bits(n: nat): nat
    requires n <= TooLong
  {
    if n == TooLong then 0 else 8 * n
  }

  lemma BitsOf(n: nat)
    requires n < TooLong
    ensures Bits(n) == 8 * n
  {
  }

  /** The last, unfinished block of a message. */
  function Rest(m: seq<Byte>): (r: seq<Byte>)
    ensures |r| == |m| % 64
  {
    m[|m| - |m| % 64..]
  }

  function Whole(m: seq<Byte>): (r: seq<Byte>)
    ensures |r| % 64 == 0
  {
    m[..|m| - |m| % 64]
  }

  lemma OneMore(m: seq<Byte>, x: Byte)
    ensures |m| % 64 < 63 ==> Whole(m + [x]) == Whole(m) && Rest(m + [x]) == Rest(m) + [x]
    ensures |m| % 64 == 63 ==> Whole(m + [x]) == Whole(m) + (Rest(m) + [x]) && Rest(m + [x]) == []
  {
    if |m| % 64 < 63 {
      assert (|m| + 1) % 64 == |m| % 64 + 1;
    } else {
      assert (|m| + 1) % 64 == 0;
    }
  }

  /** The last block of a padded message whose rest leaves room for the length. */
  function Closing(m: seq<Byte>): (r: seq<Byte>)
    requires |m| % 64 <= 55
    ensures |r| == 64
  {
    Rest(m) + [0x80] + Zeros(55 - |m| % 64) + TwoWords(8 * |m|)
  }

  /** The last two blocks when it does not. */
  function Filled(m: seq<Byte>): (r: seq<Byte>)
    ensures |r| == 64
  {
    Rest(m) + [0x80] + Zeros(63 - |m| % 64)
  }

  function LengthOnly(m: seq<Byte>): (r: seq<Byte>)
    ensures |r| == 64
  {
    Zeros(56) + TwoWords(8 * |m|)
  }

  lemma PaddedTail(m: seq<Byte>)
    ensures |m| % 64 <= 55 ==> Padded(m) == Whole(m) + Closing(m)
    ensures |m| % 64 > 55 ==> Padded(m) == Whole(m) + Filled(m) + LengthOnly(m)
  {
    var i, n := |m| % 64, TwoWords(8 * |m|);
    assert m == Whole(m) + Rest(m);
    if i <= 55 {
      Cat(Whole(m), Rest(m), [0x80], Zeros(55 - i), n);
    } else {
      assert Zeros(Fill(|m|)) == Zeros(63 - i) + Zeros(56);
      Cat(Whole(m), Rest(m), [0x80], Zeros(63 - i), Zeros(56) + n);
      CatTwo(m + [0x80], Zeros(63 - i), Zeros(56), n);
      CatTwo(Whole(m), Rest(m) + [0x80] + Zeros(63 - i), Zeros(56) + n, []);
      assert Rest(m) + [0x80] + Zeros(63 - i) + (Zeros(56) + n) == Filled(m) + LengthOnly(m);
    }
  }

  lemma Cat(a: seq<Byte>, b: seq<Byte>, c: seq<Byte>, d: seq<Byte>, e: seq<Byte>)
    ensures a + b + c + d + e == a + (b + c + d + e)
  {
  }

  lemma CatTwo(a: seq<Byte>, b: seq<Byte>, c: seq<Byte>, d: seq<Byte>)
    ensures a + (b + c) + d == a + b + (c + d)
    ensures d == [] ==> a + (b + c) == a + b + c
  {
  }

  lemma DigestOf(m: seq<Byte>)
    ensures |m| % 64 <= 55 ==> Digest(m) == Compress(Fold(Whole(m)), Closing(m))
    ensures |m| % 64 > 55 ==> Digest(m) == Compress(Compress(Fold(Whole(m)), Filled(m)), LengthOnly(m))
  {
    PaddedTail(m);
    hide Compress, Fold, Padded, Whole, Closing, Filled, LengthOnly;
    if |m| % 64 <= 55 {
      FoldBlock(Whole(m), Closing(m));
    } else {
      FoldBlock(Whole(m), Filled(m));
      FoldBlock(Whole(m) + Filled(m), LengthOnly(m));
    }
  }

  lemma CountUp(high: nat, low: nat, n: nat)
    requires low < W32 && high * W32 + low == 8 * n
    ensures low + 8 <= W32 && (low + 8) % W32 == if low + 8 == W32 then 0 else low + 8
  {
    assert low == 8 * (n - high * 0x2000_0000);
  }

  lemma CounterHalves(high: nat, low: nat)
    requires low < W32
    ensures Octets(high) + Octets(low) == TwoWords(high * W32 + low)
  {
    var n := high * W32 + low;
    assert n / W32 == high && n % W32 == low;
  }

  function WordAt(h: Words, j: nat): Word {
    if j == 0 then h.a else if j == 1 then h.b else if j == 2 then h.c else if j == 3 then h.d else h.e
  }

  /** The octets of a digest, from the highest of the first word on. */
  function OctetAt(h: Words, i: nat): bv8 {
    var w := WordAt(h, i / 4);
    if i % 4 == 0 then ((w >> 24) & 0xFF) as bv8
    else if i % 4 == 1 then ((w >> 16) & 0xFF) as bv8
    else if i % 4 == 2 then ((w >> 8) & 0xFF) as bv8
    else (w & 0xFF) as bv8
  }

  const Encode := "0123456789abcdef"

  /** The digest in base 16, two digits an octet. */
  function Base16(h: Words): string {
    seq(40, i requires 0 <= i < 40 => HexDigit(OctetAt(h, i / 2), i % 2 == 0))
  }

  function HexDigit(a: bv8, upper: bool): char {
    if upper then Encode[((a >> 4) & 0xF) as int] else Encode[(a & 0xF) as int]
  }

  class Context {
    var hash: Words
    var low: nat
    var high: nat
    var index: nat
    const block: array<Byte>
    var computed: bool
    var corrupted: nat

    ghost predicate Valid()
      reads this, block
    {
      block.Length == 64 && low < W32 && high < W32 && index < 64
    }

    /** The context has taken exactly the bytes `m`, or as many of `m` as make the counter wrap. */
    ghost predicate Holds(m: seq<Byte>)
      reads this, block
    {
      Valid() && |m| <= TooLong && !computed && (corrupted == if |m| == TooLong then 1 else 0) &&
      index == |m| % 64 && block[..index] == Rest(m) && hash == Fold(Whole(m)) && high * W32 + low == Bits(|m|)
    }

    constructor ()
      ensures Holds([]) && fresh(block) && block.Length == 64
    {
      hash := Start;
      low, high, index := 0, 0, 0;
      block := new Byte[64](_ => 0);
      computed, corrupted := false, 0;
    }

    method Reset()
      requires block.Length == 64
      modifies this
      ensures Holds([])
    {
      low, high, index := 0, 0, 0;
      hash := Start;
      computed, corrupted := false, 0;
    }

    /** `SHA1ProcessMessageBlock`. */
    method ProcessMessageBlock()
      requires block.Length == 64
      modifies this`hash, this`index
      ensures hash == Compress(old(hash), block[..]) && index == 0
    {
      var r := Rounds(hash, block[..]);
      hash := Plus(hash, r);
      index := 0;
    }

    /** Eight more bits in the two halves of the counter. */
    method Count(ghost n: nat)
      requires n < TooLong && low < W32 && high < W32 && high * W32 + low == 8 * n && corrupted == 0
      modifies this`low, this`high, this`corrupted
      ensures low < W32 && high < W32 && high * W32 + low == Bits(n + 1)
      ensures corrupted == if n + 1 == TooLong then 1 else 0
    {
      CountUp(high, low, n);
      low := (low + 8) % W32;
      if low == 0 {
        high := (high + 1) % W32;
        if high == 0 {
          corrupted := 1;
        }
      }
    }

    /** One turn of the loop of `SHA1Input`. */
    method TakeByte(x: Byte, ghost m: seq<Byte>)
      requires Holds(m) && |m| < TooLong
      modifies this, block
      ensures Holds(m + [x])
    {
      hide Fold, Compress, Bits, Whole, Rest;
      OneMore(m, x);
      block[index] := x;
      index := index + 1;
      assert block[..index] == Rest(m) + [x];
      BitsOf(|m|);
      Count(|m|);
      if index == 64 {
        assert block[..] == Rest(m) + [x];
        FoldBlock(Whole(m), Rest(m) + [x]);
        ProcessMessageBlock();
      }
    }

    /** `SHA1Input`: 0 for success, 1 for a message too long, 2 for a context already closed. */
    method Input(data: seq<Byte>, ghost m: seq<Byte>) returns (code: nat)
      requires block.Length == 64
      requires computed || Holds(m)
      modifies this, block
      ensures old(computed) ==>
        computed && hash == old(hash) && (data == [] ==> code == 0 && corrupted == old(corrupted)) &&
                                (data != [] ==> code == 2 && corrupted == 2)
      ensures !old(computed) && |m + data| <= TooLong ==> Holds(m + data)
      ensures !old(computed) && |m + data| > TooLong ==> Holds((m + data)[..TooLong])
      ensures !old(computed) ==> (code == if |m| == TooLong && data != [] then 1 else 0)
    {
      hide Holds;
      ghost var whole := m + data;
      if |data| == 0 {
        assert whole == m;
        HoldsFits(m);
        return 0;
      }
      if computed {
        corrupted := 2;
        return 2;
      }
      HoldsFits(m);
      if corrupted != 0 {
        assert whole[..TooLong] == m;
        return corrupted;
      }
      var i := 0;
      assert whole[..|m|] == m;
      while i < |data| && corrupted == 0
        invariant 0 <= i <= |data|
        invariant |m| + i <= TooLong && Holds(whole[..|m| + i])
        invariant corrupted == if |m| + i == TooLong then 1 else 0
      {
        TakeByte(data[i], whole[..|m| + i]);
        assert whole[..|m| + i] + [data[i]] == whole[..|m| + (i + 1)];
        i := i + 1;
        HoldsFits(whole[..|m| + i]);
      }
      if i == |data| {
        assert whole[..|m| + i] == whole;
      }
      if |whole| > TooLong {
        assert |m| + i == TooLong;
      }
      return 0;
    }

    lemma HoldsFits(m: seq<Byte>)
      ensures Holds(m) ==> |m| <= TooLong && !computed && (corrupted == if |m| == TooLong then 1 else 0)
    {
    }

    method PutZeros(upTo: nat)
      requires block.Length == 64 && index <= upTo <= 64
      modifies this`index, block
      ensures index == upTo && block[..upTo] == old(block[..index]) + Zeros(upTo - old(index))
    {
      while index < upTo
        invariant old(index) <= index <= upTo
        invariant forall k :: 0 <= k < old(index) ==> block[k] == old(block[k])
        invariant forall k :: old(index) <= k < index ==> block[k] == 0
      {
        block[index] := 0;
        index := index + 1;
      }
    }

    /** The part of `SHA1PadMessage` before the length: the bit and the zeros, over a block boundary if need be. */
    method MakeRoom(ghost m: seq<Byte>)
      requires Holds(m) && |m| < TooLong
      modifies this`index, this`hash, block
      ensures |m| % 64 <= 55 ==> hash == Fold(Whole(m)) && block[..56] == Rest(m) + [0x80] + Zeros(55 - |m| % 64)
      ensures |m| % 64 > 55 ==> hash == Compress(Fold(Whole(m)), Filled(m)) && block[..56] == Zeros(56)
    {
      hide Fold, Compress, Rest, Whole, Bits;
      var i := index;
      block[index] := 0x80;
      index := index + 1;
      assert block[..index] == Rest(m) + [0x80];
      if i > 55 {
        PutZeros(64);
        assert block[..] == Filled(m);
        ProcessMessageBlock();
        PutZeros(56);
        assert block[..56] == Zeros(56);
      } else {
        PutZeros(56);
      }
    }

    /** `SHA1PadMessage`. */
    method PadMessage(ghost m: seq<Byte>)
      requires Holds(m) && |m| < TooLong
      modifies this, block
      ensures hash == Digest(m) && corrupted == 0
    {
      hide Fold, Compress, Digest, Octets, Rest, Whole, Bits, Filled, TwoWords;
      BitsOf(|m|);
      DigestOf(m);
      MakeRoom(m);
      PutLength();
      CounterHalves(high, low);
      assert block[..] == block[..56] + block[56..];
      ProcessMessageBlock();
    }

    /** The message length, as the last eight octets. */
    method PutLength()
      requires block.Length == 64
      modifies block
      ensures block[..56] == old(block[..56]) && block[56..] == Octets(high) + Octets(low)
    {
      block[56] := high / 0x100_0000 % 256;
      block[57] := high / 0x1_0000 % 256;
      block[58] := high / 0x100 % 256;
      block[59] := high % 256;
      block[60] := low / 0x100_0000 % 256;
      block[61] := low / 0x1_0000 % 256;
      block[62] := low / 0x100 % 256;
      block[63] := low % 256;
    }

    /** The digest of `m` has been computed. */
    ghost predicate Closed(m: seq<Byte>)
      reads this, block
    {
      block.Length == 64 && computed && corrupted == 0 && hash == Digest(m)
    }

    /** `SHA1Result`; a second call gives the same digest. */
    method Result(ghost m: seq<Byte>) returns (code: nat, digest: seq<bv8>)
      requires Holds(m) || Closed(m)
      modifies this, block
      ensures Holds(m) <==> old(corrupted) != 0
      ensures old(corrupted) != 0 ==> code == 1
      ensures old(corrupted) == 0 ==>
        code == 0 && Closed(m) && |digest| == 20 && forall i :: 0 <= i < 20 ==> digest[i] == OctetAt(Digest(m), i)
    {
      hide Digest, Fold, OctetAt;
      digest := [];
      if corrupted != 0 {
        return corrupted, digest;
      }
      if !computed {
        PadMessage(m);
        for i := 0 to 64
          invariant hash == Digest(m) && corrupted == 0
        {
          block[i] := 0;
        }
        low, high := 0, 0;
        computed := true;
      }
      for i := 0 to 20
        invariant |digest| == i && forall k :: 0 <= k < i ==> digest[k] == OctetAt(hash, k)
      {
        digest := digest + [OctetAt(hash, i)];
      }
      code := 0;
    }
  }

  /** `DigestToBase16`. */
  method DigestToBase16(digest: seq<bv8>) returns (zBuf: string)
    requires |digest| == 20
    ensures |zBuf| == 40
    ensures forall j :: 0 <= j < 40 ==> zBuf[j] == HexDigit(digest[j / 2], j % 2 == 0)
  {
    hide HexDigit;
    zBuf := "";
    for i := 0 to 20
      invariant |zBuf| == 2 * i
      invariant forall j :: 0 <= j < 2 * i ==> zBuf[j] == HexDigit(digest[j / 2], j % 2 == 0)
    {
      zBuf := zBuf + [HexDigit(digest[i], true)] + [HexDigit(digest[i], false)];
    }
  }

  function StrLen(text: seq<Byte>): (n: nat)
    requires 0 in text
    ensures n < |text| && text[n] == 0 && 0 !in text[..n]
  {
    if text[0] == 0 then 0 else
      assert text == [text[0]] + text[1..];
      1 + StrLen(text[1..])
  }

  const Int31: int := 0x8000_0000

  /** A length narrowed to a 32-bit `int`. */
  function Int32(n: nat): (r: int)
    ensures -Int31 <= r < Int31
    ensures n < Int31 ==> r == n
  {
    if n % W32 < Int31 then n % W32 else n % W32 - W32
  }

  /** The bytes a step names: the first `nBytes`, or when negative those before the terminating zero, whose number is
      narrowed to an `int` and widened again to an `unsigned` on the way to `SHA1Input`. */
  function Named(text: seq<Byte>, nBytes: int): seq<Byte>
    requires nBytes <= |text| && (nBytes < 0 ==> 0 in text)
  {
    if nBytes < 0 then text[..StrLen(text) % W32] else text[..nBytes]
  }

  /** What `Sha1Generator::add` feeds of a text: its length is narrowed, and a terminating zero follows it. */
  function Fed(str: seq<Byte>): seq<Byte> {
    Named(str + [0], Int32(|str|))
  }

  /** The texts that are fed whole; a caller can tell before the call. */
  predicate FedWhole(str: seq<Byte>) {
    |str| < Int31 || (|str| < W32 && 0 !in str)
  }

  lemma FedIffWhole(str: seq<Byte>)
    ensures |Fed(str)| <= |str|
    ensures Fed(str) == str <==> FedWhole(str)
  {
    var text, n := str + [0], |str|;
    FirstZero(str);
    hide StrLen;
    if n % W32 < Int31 {
      Cut(str, n % W32);
    } else {
      Cut(str, StrLen(text) % W32);
    }
  }

  /** The first `k` bytes of a text followed by a zero are the text only if they are all of it. */
  lemma Cut(str: seq<Byte>, k: nat)
    requires k <= |str|
    ensures |(str + [0])[..k]| == k
    ensures (str + [0])[..k] == str <==> k == |str|
  {
  }

  lemma FirstZero(str: seq<Byte>)
    ensures StrLen(str + [0]) <= |str|
    ensures StrLen(str + [0]) == |str| <==> 0 !in str
  {
    var text := str + [0];
    var n := StrLen(text);
    assert forall i :: 0 <= i < n ==> text[..n][i] == text[i] != 0;
    assert text[|str|] == 0;
    if n == |str| {
      assert text[..n] == str;
    } else {
      assert str[n] == 0;
    }
  }

  /** A text of 2^32 bytes is not hashed at all. */
  lemma RoundLengthIsLost(str: seq<Byte>)
    requires |str| == W32
    ensures Fed(str) == [] && !FedWhole(str)
  {
  }

  function Clip(m: seq<Byte>): seq<Byte> {
    if |m| <= TooLong then m else m[..TooLong]
  }

  /** Clipping once or twice makes no difference. */
  lemma ClipOfInput(m: seq<Byte>, data: seq<Byte>)
    ensures Clip([]) == [] && m + [] == m
    ensures var whole := Clip(m) + data; Clip(m + data) == if |whole| <= TooLong then whole else whole[..TooLong]
  {
  }

  /** The one checksum under way in the process (`incrCtx`, `incrInit`); `fed` is what it has been given so far. */
  class Checksum {
    const ctx: Context
    var init: bool
    ghost var fed: seq<Byte>

    ghost predicate Valid()
      reads this, ctx, ctx.block
    {
      ctx.block.Length == 64 && if init then ctx.Holds(Clip(fed)) else fed == []
    }

    constructor ()
      ensures Valid() && fed == [] && fresh(ctx) && fresh(ctx.block)
    {
      hide Context.Holds, Clip;
      ctx := new Context();
      init := false;
      fed := [];
    }

    /** `sha1sum_step_text`. */
    method StepText(text: seq<Byte>, nBytes: int)
      requires Valid() && nBytes <= |text| && (nBytes < 0 ==> 0 in text) && -Int31 <= nBytes < Int31
      modifies this, ctx, ctx.block
      ensures Valid() && init && fed == old(fed) + Named(text, nBytes)
    {
      hide Context.Holds, Clip;
      ClipOfInput(fed, Named(text, nBytes));
      if !init {
        ctx.Reset();
        init := true;
      }
      var n := nBytes;
      if n <= 0 {
        if n == 0 {
          assert text[..0] == [];
          return;
        }
        n := Int32(StrLen(text));
      }
      var length := if n < 0 then n + W32 else n;
      assert text[..length] == Named(text, nBytes);
      hide Named, StrLen, Int32;
      ctx.HoldsFits(Clip(fed));
      var code := ctx.Input(text[..length], Clip(fed));
      fed := fed + text[..length];
    }

    /** `Sha1Generator::add`: exactly the text is fed when `FedWhole` holds of it, and fewer bytes otherwise. */
    method Add(str: seq<Byte>)
      requires Valid()
      modifies this, ctx, ctx.block
      ensures Valid() && fed == old(fed) + Fed(str)
      ensures FedWhole(str) ==> fed == old(fed) + str
    {
      hide Fold, Context.Holds;
      FedIffWhole(str);
      StepText(str + [0], Int32(|str|));
    }

    /** `sha1sum_finish`: the digest of everything fed since the last finish; the next step starts afresh. */
    method Finish() returns (zOut: string)
      requires Valid()
      modifies this, ctx, ctx.block
      ensures Valid() && fed == []
      ensures |old(fed)| < TooLong ==> zOut == Base16(Digest(old(fed)))
    {
      hide Digest, OctetAt, HexDigit;
      StepText([], 0);
      assert fed == old(fed);
      var code, zResult := ctx.Result(Clip(fed));
      init := false;
      zOut := "";
      if code == 0 {
        zOut := DigestToBase16(zResult);
      }
      fed := [];
    }
  }

  // ---------------------------------------------------------------------------
  // Hashing a table

  datatype Cell = Null | Text(bytes: seq<Byte>)

  function CellBytes(c: Cell): seq<Byte> {
    if c.Null? then [78] else [88] + c.bytes
  }

  function RowBytes(row: seq<Cell>): seq<Byte> {
    if row == [] then [] else RowBytes(row[..|row| - 1]) + CellBytes(row[|row| - 1])
  }

  function TableBytes(rows: seq<seq<Cell>>): seq<Byte> {
    if rows == [] then [] else TableBytes(rows[..|rows| - 1]) + RowBytes(rows[|rows| - 1])
  }

  /** A row as `getHash` writes it. */
  method RowText(row: seq<Cell>) returns (txt: seq<Byte>)
    ensures txt == RowBytes(row)
  {
    txt := [];
    for x := 0 to |row|
      invariant txt == RowBytes(row[..x])
    {
      ghost var before := txt;
      if row[x].Null? {
        txt := txt + [78];
      } else {
        txt := txt + [88];
        txt := txt + row[x].bytes;
        assert txt == before + ([88] + row[x].bytes);
      }
      assert row[..x + 1][..x] == row[..x];
    }
    assert row[..|row|] == row;
  }

  /** Every row's text is fed whole. */
  ghost predicate RowsFedWhole(rows: seq<seq<Cell>>) {
    forall y :: 0 <= y < |rows| ==> FedWhole(RowBytes(rows[y]))
  }

  function FedRows(rows: seq<seq<Cell>>): (r: seq<seq<Byte>>)
    ensures |r| == |rows| && forall y :: 0 <= y < |rows| ==> r[y] == Fed(RowBytes(rows[y]))
  {
    seq(|rows|, y requires 0 <= y < |rows| => Fed(RowBytes(rows[y])))
  }

  /** `DataSheet::getHash`, without the cache: one step for every row. */
  method GetHash(sha1: Checksum, rows: seq<seq<Cell>>) returns (key: string)
    requires sha1.Valid()
    modifies sha1, sha1.ctx, sha1.ctx.block
    ensures sha1.Valid() && sha1.fed == []
    ensures |old(sha1.fed) + Joined(FedRows(rows))| < TooLong ==>
      key == Base16(Digest(old(sha1.fed) + Joined(FedRows(rows))))
    ensures RowsFedWhole(rows) ==> Joined(FedRows(rows)) == TableBytes(rows)
  {
    hide Digest, Base16, RowBytes, Checksum.Valid, Fed, FedWhole, Joined;
    JoinedNone(old(sha1.fed));
    ghost var steps := FedRows(rows);
    for y := 0 to |rows|
      invariant sha1.Valid() && sha1.fed == old(sha1.fed) + Joined(steps[..y])
    {
      var txt := RowText(rows[y]);
      sha1.Add(txt);
      JoinedSnoc(old(sha1.fed), steps, y);
    }
    assert steps[..|rows|] == steps;
    if RowsFedWhole(rows) {
      WholeRows(rows, |rows|);
      assert rows[..|rows|] == rows;
    }
    key := sha1.Finish();
  }

  lemma JoinedNone(start: seq<Byte>)
    ensures start + Joined([]) == start
  {
  }

  lemma JoinedSnoc(start: seq<Byte>, steps: seq<seq<Byte>>, i: nat)
    requires i < |steps|
    ensures start + Joined(steps[..i]) + steps[i] == start + Joined(steps[..i + 1])
  {
    assert steps[..i + 1][..i] == steps[..i];
  }

  lemma {:induction false} WholeRows(rows: seq<seq<Cell>>, n: nat)
    requires n <= |rows| && RowsFedWhole(rows)
    ensures Joined(FedRows(rows)[..n]) == TableBytes(rows[..n])
  {
    if n > 0 {
      WholeRows(rows, n - 1);
      FedIffWhole(RowBytes(rows[n - 1]));
      JoinedSnoc([], FedRows(rows), n - 1);
      assert rows[..n][..n - 1] == rows[..n - 1];
      assert [] + Joined(FedRows(rows)[..n - 1]) == Joined(FedRows(rows)[..n - 1]);
      assert [] + Joined(FedRows(rows)[..n]) == Joined(FedRows(rows)[..n]);
    }
  }

  function FedCell(c: Cell): seq<Byte> {
    if c.Null? then [78] else [88] + Fed(c.bytes)
  }

  function FedRow(row: seq<Cell>): seq<Byte> {
    if row == [] then [] else FedRow(row[..|row| - 1]) + FedCell(row[|row| - 1])
  }

  function FedTable(rows: seq<seq<Cell>>): seq<Byte> {
    if rows == [] then [] else FedTable(rows[..|rows| - 1]) + FedRow(rows[|rows| - 1])
  }

  lemma ShortIsFedWhole(str: seq<Byte>)
    requires |str| < Int31
    ensures Fed(str) == str
  {
    FedIffWhole(str);
  }

  /** One argument of `coopy_add_function`. */
  method AddCell(hasher: Checksum, c: Cell)
    requires hasher.Valid()
    modifies hasher, hasher.ctx, hasher.ctx.block
    ensures hasher.Valid() && hasher.fed == old(hasher.fed) + FedCell(c)
  {
    hide Checksum.Valid, Fed;
    if c.Null? {
      ShortIsFedWhole([78]);
      hasher.Add([78]);
    } else {
      ShortIsFedWhole([88]);
      hasher.Add([88]);
      hasher.Add(c.bytes);
      assert old(hasher.fed) + [88] + Fed(c.bytes) == old(hasher.fed) + ([88] + Fed(c.bytes));
    }
  }

  lemma FedRowSnoc(start: seq<Byte>, row: seq<Cell>, x: nat)
    requires x < |row|
    ensures start + FedRow(row[..x]) + FedCell(row[x]) == start + FedRow(row[..x + 1])
  {
    assert row[..x + 1][..x] == row[..x];
  }

  lemma FedNone(start: seq<Byte>)
    ensures start + FedRow([]) == start && FedTable([]) == []
  {
  }

  /** `coopy_add_function`: one or two steps for every cell. */
  method CoopyAdd(hasher: Checksum, args: seq<Cell>)
    requires hasher.Valid()
    modifies hasher, hasher.ctx, hasher.ctx.block
    ensures hasher.Valid() && hasher.fed == old(hasher.fed) + FedRow(args)
  {
    hide FedRow, FedCell, Checksum.Valid;
    FedNone(old(hasher.fed));
    for i := 0 to |args|
      invariant hasher.Valid() && hasher.fed == old(hasher.fed) + FedRow(args[..i])
    {
      AddCell(hasher, args[i]);
      FedRowSnoc(old(hasher.fed), args, i);
    }
    assert args[..|args|] == args;
  }

  /** `coopy_set_function`. */
  method CoopySet(hasher: Checksum, v: int) returns (result: string)
    requires hasher.Valid()
    modifies hasher, hasher.ctx, hasher.ctx.block
    ensures hasher.Valid() && hasher.fed == []
    ensures v <= 0 ==> result == "start"
    ensures v > 0 && |old(hasher.fed)| < TooLong ==> result == Base16(Digest(old(hasher.fed)))
  {
    hide Digest, Base16, Checksum.Valid;
    result := "start";
    if v > 0 {
      result := hasher.Finish();
    } else {
      var ignored := hasher.Finish();
    }
  }

  /** Every text cell is fed whole. */
  ghost predicate CellsFedWhole(row: seq<Cell>) {
    forall x :: 0 <= x < |row| && row[x].Text? ==> FedWhole(row[x].bytes)
  }

  lemma {:induction false} WholeCells(row: seq<Cell>)
    requires CellsFedWhole(row)
    ensures FedRow(row) == RowBytes(row)
  {
    if row != [] {
      hide Fed;
      WholeCells(row[..|row| - 1]);
      if row[|row| - 1].Text? {
        FedIffWhole(row[|row| - 1].bytes);
      }
    }
  }

  lemma {:induction false} WholeTable(rows: seq<seq<Cell>>)
    requires forall y :: 0 <= y < |rows| ==> CellsFedWhole(rows[y])
    ensures FedTable(rows) == TableBytes(rows)
  {
    if rows != [] {
      hide CellsFedWhole;
      WholeTable(rows[..|rows| - 1]);
      WholeCells(rows[|rows| - 1]);
    }
  }

  /** `SqliteSheet::getRawHash`: its rows come in row order. */
  method RawHash(hasher: Checksum, rows: seq<seq<Cell>>) returns (key: string)
    requires hasher.Valid()
    modifies hasher, hasher.ctx, hasher.ctx.block
    ensures hasher.Valid() && hasher.fed == []
    ensures |FedTable(rows)| < TooLong ==> key == Base16(Digest(FedTable(rows)))
    ensures (forall y :: 0 <= y < |rows| ==> CellsFedWhole(rows[y])) ==> FedTable(rows) == TableBytes(rows)
  {
    hide Digest, Base16, Checksum.Valid, FedRow, CellsFedWhole;
    key := CoopySet(hasher, 0);
    for y := 0 to |rows|
      invariant hasher.Valid() && hasher.fed == FedTable(rows[..y])
    {
      CoopyAdd(hasher, rows[y]);
      assert rows[..y + 1][..y] == rows[..y];
    }
    assert rows[..|rows|] == rows;
    key := CoopySet(hasher, 1);
    if forall y :: 0 <= y < |rows| ==> CellsFedWhole(rows[y]) {
      WholeTable(rows);
    }
  }

  lemma PartIsFedWhole(a: seq<Byte>, b: seq<Byte>)
    requires FedWhole(a + b)
    ensures FedWhole(a) && FedWhole(b)
  {
    assert forall i :: 0 <= i < |a| ==> a[i] == (a + b)[i];
    assert forall i :: 0 <= i < |b| ==> b[i] == (a + b)[|a| + i];
  }

  /** A row fed whole has cells that are fed whole. */
  lemma {:induction false} WholeRowHasWholeCells(row: seq<Cell>)
    requires FedWhole(RowBytes(row))
    ensures CellsFedWhole(row)
  {
    if row != [] {
      var front, c := row[..|row| - 1], row[|row| - 1];
      var a, b := RowBytes(front), CellBytes(c);
      PartIsFedWhole(a, b);
      WholeRowHasWholeCells(front);
      if c.Text? {
        PartIsFedWhole([88], c.bytes);
      }
      hide FedWhole, RowBytes;
      forall x | 0 <= x < |row| && row[x].Text? ensures FedWhole(row[x].bytes) {
        assert x < |front| ==> row[x] == front[x];
      }
    }
  }

  /** The two hashes of one table agree, whatever was fed before the first, when every row's text is fed whole. */
  method HashesAgree(hasher: Checksum, rows: seq<seq<Cell>>) returns (byCell: string, byRow: string)
    requires hasher.Valid() && |TableBytes(rows)| < TooLong
    modifies hasher, hasher.ctx, hasher.ctx.block
    ensures RowsFedWhole(rows) ==> byCell == byRow == Base16(Digest(TableBytes(rows)))
  {
    hide Digest, Base16, Checksum.Valid, FedWhole, RowBytes, CellsFedWhole;
    if RowsFedWhole(rows) {
      forall y | 0 <= y < |rows| ensures CellsFedWhole(rows[y]) {
        WholeRowHasWholeCells(rows[y]);
      }
    }
    byCell := RawHash(hasher, rows);
    assert hasher.fed + Joined(FedRows(rows)) == Joined(FedRows(rows));
    byRow := GetHash(hasher, rows);
  }

  function FedSteps(steps: seq<seq<Byte>>): (r: seq<seq<Byte>>)
    ensures |r| == |steps| && forall i :: 0 <= i < |steps| ==> r[i] == Fed(steps[i])
  {
    seq(|steps|, i requires 0 <= i < |steps| => Fed(steps[i]))
  }

  /** The steps are fed without loss if and only if each of them is. */
  lemma {:induction false} JoinedIffWhole(steps: seq<seq<Byte>>)
    ensures |Joined(FedSteps(steps))| <= |Joined(steps)|
    ensures Joined(FedSteps(steps)) == Joined(steps) <==> forall i :: 0 <= i < |steps| ==> FedWhole(steps[i])
  {
    hide Fed, FedWhole;
    if steps != [] {
      var n := |steps| - 1;
      var front, a := steps[..n], steps[n];
      JoinedIffWhole(front);
      FedIffWhole(a);
      assert FedSteps(steps)[..n] == FedSteps(front);
      if |Fed(a)| == |a| && |Joined(FedSteps(front))| == |Joined(front)| {
        SameLengths(Joined(FedSteps(front)), Fed(a), Joined(front), a);
      }
      assert forall i :: 0 <= i < n ==> front[i] == steps[i];
    }
  }

  lemma SameLengths(a: seq<Byte>, b: seq<Byte>, c: seq<Byte>, d: seq<Byte>)
    requires |a| == |c|
    ensures a + b == c + d <==> a == c && b == d
  {
    if a + b == c + d {
      assert a == (a + b)[..|a|] && b == (a + b)[|a|..] && c == (c + d)[..|a|] && d == (c + d)[|a|..];
    }
  }

  /** Any split of a message into steps gives the digest of the whole, if no step is cut short. */
  method HashInSteps(sha1: Checksum, steps: seq<seq<Byte>>) returns (key: string)
    requires sha1.Valid() && sha1.fed == []
    modifies sha1, sha1.ctx, sha1.ctx.block
    ensures |Joined(FedSteps(steps))| < TooLong ==> key == Base16(Digest(Joined(FedSteps(steps))))
    ensures (forall i :: 0 <= i < |steps| ==> FedWhole(steps[i])) && |Joined(steps)| < TooLong ==>
              key == Base16(Digest(Joined(steps)))
  {
    hide Digest, Base16, Checksum.Valid, Fed, FedWhole, Joined;
    JoinedNone([]);
    ghost var told := FedSteps(steps);
    for i := 0 to |steps|
      invariant sha1.Valid() && sha1.fed == [] + Joined(told[..i])
    {
      sha1.Add(steps[i]);
      JoinedSnoc([], told, i);
    }
    assert told[..|steps|] == told;
    assert [] + Joined(told) == Joined(told);
    JoinedIffWhole(steps);
    key := sha1.Finish();
  }

  function Joined(steps: seq<seq<Byte>>): seq<Byte> {
    if steps == [] then [] else Joined(steps[..|steps| - 1]) + steps[|steps| - 1]
  }
}
