/** The stream mode of ss_encrypt and ss_decrypt in encrypt.c: segments of any length are encrypted with a keystream
    that the library hands out in blocks of 64 bytes. */
module StreamCipher {
  import opened Bits
  import opened Sequences
  import opened Buffers
  import opened Framing
  import opened GrowingBuffer

  const BLOCK: nat := 64
  const U64: nat := 0x1_0000_0000_0000_0000

  /** The keystream byte at a position, for an initial vector. The key is fixed. */
  type Keystream = (seq<byte>, nat) -> byte

  // ---- Block counters ----

  /** The three ciphers of crypto_stream_xor_ic. */
  datatype Method = Salsa20 | ChaCha20 | ChaCha20Ietf

  /** How many blocks the counter of a method tells apart: the cast to 32 bits for chacha20-ietf drops the rest. */
  function Blocks(kind: Method): nat {
    if kind.ChaCha20Ietf? then 0x1_0000_0000 else U64
  }

  /** Below this many bytes of one stream, every keystream byte is used at its own position. */
  function Limit(kind: Method): nat {
    if kind.ChaCha20Ietf? then 0x40_0000_0000 else U64
  }

  /** Where a call that starts at the byte counter begins in the keystream. */
  function Position(kind: Method, counter: nat): nat {
    BLOCK * (counter / BLOCK % Blocks(kind)) + counter % BLOCK
  }

  /** The position is the counter exactly below the limit; at the limit of chacha20-ietf the keystream starts again. */
  lemma PositionIsCounter(kind: Method, counter: uint64)
    ensures Position(kind, counter) == counter <==> counter < Limit(kind)
    ensures kind.ChaCha20Ietf? ==> Position(kind, counter) == counter % Limit(kind)
  {
  }

  // ---- What the cipher computes ----

  function XorByte(x: byte, k: byte): byte {
    XorIsByte(x, k);
    Xor(x, k)
  }

  lemma XorIsByte(x: byte, k: byte)
    ensures Xor(x, k) < 0x100
  {
    Pow2Of32();
    XorBound(x, k, 8);
  }

  /** `m` under the keystream bytes from position `from`. */
  function Apply(ks: Keystream, iv: seq<byte>, from: nat, m: seq<byte>): (c: seq<byte>)
    ensures |c| == |m|
  {
    seq(|m|, i requires 0 <= i < |m| => XorByte(m[i], ks(iv, from + i)))
  }

  /** Every bit of the message is turned over exactly where the keystream has a one. */
  lemma KeystreamTurnsBits(ks: Keystream, iv: seq<byte>, from: nat, m: seq<byte>, i: nat, j: nat)
    requires i < |m|
    ensures Bit(Apply(ks, iv, from, m)[i], j) == if Bit(ks(iv, from + i), j) == 1 then 1 - Bit(m[i], j)
        else Bit(m[i], j)
  {
    XorBit(m[i], ks(iv, from + i), j);
    BitIsBit(m[i], j);
    BitIsBit(ks(iv, from + i), j);
  }

  /** The same keystream bytes encrypt and decrypt. */
  lemma ApplyTwice(ks: Keystream, iv: seq<byte>, from: nat, m: seq<byte>)
    ensures Apply(ks, iv, from, Apply(ks, iv, from, m)) == m
  {
    forall i | 0 <= i < |m| ensures Apply(ks, iv, from, Apply(ks, iv, from, m))[i] == m[i] {
      XorTwice(m[i], ks(iv, from + i));
    }
  }

  lemma ApplyConcat(ks: Keystream, iv: seq<byte>, from: nat, a: seq<byte>, b: seq<byte>)
    ensures Apply(ks, iv, from, a + b) == Apply(ks, iv, from, a) + Apply(ks, iv, from + |a|, b)
  {
  }

  lemma ApplyPrefix(ks: Keystream, iv: seq<byte>, from: nat, m: seq<byte>, n: nat)
    requires n <= |m|
    ensures Apply(ks, iv, from, m)[..n] == Apply(ks, iv, from, m[..n])
  {
  }

  // ---- Runs of calls ----

  /** init, evp.iv and counter */
  datatype Context = Context(init: bool, iv: seq<byte>, counter: uint64)

  /** A fresh context that encrypts starts with the random initial vector in evp.iv. */
  function Encrypted(kind: Method, ks: Keystream, c: Context, m: seq<byte>): (Context, seq<byte>) {
    var counter := if c.init then c.counter else 0;
    (Context(true, c.iv, (counter + |m|) % U64),
     (if c.init then [] else c.iv) + Apply(ks, c.iv, Position(kind, counter), m))
  }

  function EncryptAll(kind: Method, ks: Keystream, c: Context, segments: seq<seq<byte>>): seq<byte>
    decreases |segments|
  {
    if segments == [] then []
    else
      var (c', out) := Encrypted(kind, ks, c, segments[0]);
      out + EncryptAll(kind, ks, c', segments[1..])
  }

  /** `ivLen` is 0 once the context is initialised. */
  function Decrypted(kind: Method, ks: Keystream, ivLen: nat, c: Context, x: seq<byte>): (Context, seq<byte>)
    requires !c.init ==> ivLen <= |x|
  {
    if c.init then (Context(true, c.iv, (c.counter + |x|) % U64), Apply(ks, c.iv, Position(kind, c.counter), x))
    else (Context(true, x[..ivLen], (|x| - ivLen) % U64), Apply(ks, x[..ivLen], 0, x[ivLen..]))
  }

  function DecryptAll(kind: Method, ks: Keystream, ivLen: nat, c: Context, pieces: seq<seq<byte>>): seq<byte>
    requires pieces != [] && !c.init ==> ivLen <= |pieces[0]|
    decreases |pieces|
  {
    if pieces == [] then []
    else
      var (c', out) := Decrypted(kind, ks, ivLen, c, pieces[0]);
      out + DecryptAll(kind, ks, ivLen, c', pieces[1..])
  }

  lemma SmallMod(x: nat)
    requires x < U64
    ensures x % U64 == x
  {
  }

  /** Whatever the segments are, the stream is the vector and the plaintext under keystream bytes 0, 1, 2, ... */
  lemma {:induction false} SegmentsDoNotMatter(kind: Method, ks: Keystream, c: Context, segments: seq<seq<byte>>)
    requires c.init && c.counter + |Flatten(segments)| < Limit(kind)
    ensures EncryptAll(kind, ks, c, segments) == Apply(ks, c.iv, c.counter, Flatten(segments))
    decreases |segments|
  {
    hide Position, Apply;
    if segments != [] {
      var m := segments[0];
      SmallMod(c.counter + |m|);
      PositionIsCounter(kind, c.counter);
      SegmentsDoNotMatter(kind, ks, Context(true, c.iv, c.counter + |m|), segments[1..]);
      ApplyConcat(ks, c.iv, c.counter, m, Flatten(segments[1..]));
    }
  }

  lemma {:induction false} PiecesDoNotMatter(kind: Method, ks: Keystream, ivLen: nat, c: Context,
      pieces: seq<seq<byte>>)
    requires c.init && c.counter + |Flatten(pieces)| < Limit(kind)
    ensures DecryptAll(kind, ks, ivLen, c, pieces) == Apply(ks, c.iv, c.counter, Flatten(pieces))
    decreases |pieces|
  {
    hide Position, Apply;
    if pieces != [] {
      var x := pieces[0];
      SmallMod(c.counter + |x|);
      PositionIsCounter(kind, c.counter);
      PiecesDoNotMatter(kind, ks, ivLen, Context(true, c.iv, c.counter + |x|), pieces[1..]);
      ApplyConcat(ks, c.iv, c.counter, x, Flatten(pieces[1..]));
    }
  }

  lemma FirstEncrypted(kind: Method, ks: Keystream, iv: seq<byte>, counter: uint64, m: seq<byte>)
    requires |m| < Limit(kind)
    ensures Encrypted(kind, ks, Context(false, iv, counter), m) == (Context(true, iv, |m|), iv + Apply(ks, iv, 0, m))
  {
    hide Apply;
    SmallMod(|m|);
  }

  lemma FirstDecrypted(kind: Method, ks: Keystream, ivLen: nat, c: Context, x: seq<byte>)
    requires !c.init && ivLen <= |x| && |x| - ivLen < Limit(kind)
    ensures Decrypted(kind, ks, ivLen, c, x)
         == (Context(true, x[..ivLen], |x| - ivLen), Apply(ks, x[..ivLen], 0, x[ivLen..]))
  {
    hide Apply;
    SmallMod(|x| - ivLen);
  }

  lemma FirstSegment(kind: Method, ks: Keystream, iv: seq<byte>, counter: uint64, segments: seq<seq<byte>>)
    requires segments != [] && |Flatten(segments)| < Limit(kind)
    ensures EncryptAll(kind, ks, Context(false, iv, counter), segments) == iv + Apply(ks, iv, 0, Flatten(segments))
  {
    hide Apply, Encrypted, Flatten;
    var m := segments[0];
    FlattenFirst(segments);
    FirstEncrypted(kind, ks, iv, counter, m);
    SegmentsDoNotMatter(kind, ks, Context(true, iv, |m|), segments[1..]);
    ApplyConcat(ks, iv, 0, m, Flatten(segments[1..]));
    Associate(iv, Apply(ks, iv, 0, m), Apply(ks, iv, |m|, Flatten(segments[1..])));
  }

  lemma FirstPiece(kind: Method, ks: Keystream, ivLen: nat, c: Context, pieces: seq<seq<byte>>)
    requires !c.init && pieces != [] && ivLen <= |pieces[0]| && |Flatten(pieces)| - ivLen < Limit(kind)
    ensures DecryptAll(kind, ks, ivLen, c, pieces) == Apply(ks, Flatten(pieces)[..ivLen], 0, Flatten(pieces)[ivLen..])
  {
    hide Apply, Decrypted, Flatten;
    var x, y := pieces[0], Flatten(pieces[1..]);
    var iv, n := x[..ivLen], |x| - ivLen;
    FlattenFirst(pieces);
    assert Flatten(pieces)[..ivLen] == iv && Flatten(pieces)[ivLen..] == x[ivLen..] + y;
    FirstDecrypted(kind, ks, ivLen, c, x);
    PiecesDoNotMatter(kind, ks, ivLen, Context(true, iv, n), pieces[1..]);
    ApplyConcat(ks, iv, 0, x[ivLen..], y);
  }

  lemma PrefixSplit(x: seq<byte>, a: seq<byte>, b: seq<byte>)
    requires x <= a + b && |a| <= |x|
    ensures x[..|a|] == a && |x| - |a| <= |b| && x[|a|..] == b[..|x| - |a|]
  {
  }

  /** For any segments on the sending side and any pieces on the receiving side, the first with the whole initial
      vector: the receiver has decrypted exactly the plaintext whose ciphertext arrived so far. */
  lemma RoundTrip(kind: Method, ks: Keystream, iv: seq<byte>, e: Context, d: Context, segments: seq<seq<byte>>,
      pieces: seq<seq<byte>>)
    requires !e.init && e.iv == iv && !d.init && |Flatten(segments)| < Limit(kind)
    requires pieces != [] && |pieces[0]| >= |iv| && segments != []
    requires Flatten(pieces) <= EncryptAll(kind, ks, e, segments)
    ensures |iv| <= |Flatten(pieces)| <= |iv| + |Flatten(segments)|
    ensures DecryptAll(kind, ks, |iv|, d, pieces) == Flatten(segments)[..|Flatten(pieces)| - |iv|]
  {
    hide Apply, EncryptAll, DecryptAll, Flatten;
    var m, x := Flatten(segments), Flatten(pieces);
    assert Context(false, iv, e.counter) == e;
    FirstSegment(kind, ks, iv, e.counter, segments);
    FlattenFirst(pieces);
    PrefixSplit(x, iv, Apply(ks, iv, 0, m));
    var n := |x| - |iv|;
    FirstPiece(kind, ks, |iv|, d, pieces);
    ApplyPrefix(ks, iv, 0, m, n);
    ApplyTwice(ks, iv, 0, m[..n]);
  }

  /** Once all of it has arrived, that is the whole plaintext. */
  lemma WholeRoundTrip(kind: Method, ks: Keystream, iv: seq<byte>, e: Context, d: Context, segments: seq<seq<byte>>,
      pieces: seq<seq<byte>>)
    requires !e.init && e.iv == iv && !d.init && |Flatten(segments)| < Limit(kind)
    requires pieces != [] && |pieces[0]| >= |iv| && segments != []
    requires Flatten(pieces) == EncryptAll(kind, ks, e, segments)
    ensures DecryptAll(kind, ks, |iv|, d, pieces) == Flatten(segments)
  {
    RoundTrip(kind, ks, iv, e, d, segments, pieces);
    FirstSegment(kind, ks, iv, e.counter, segments);
    assert Flatten(segments)[..|Flatten(segments)|] == Flatten(segments);
  }

  // ---- Beyond the limit ----

  /** Behind 2^38 bytes chacha20-ietf uses the keystream again from its start: equal segments give equal bytes. */
  lemma KeystreamRepeats(ks: Keystream, iv: seq<byte>, counter: uint64, m: seq<byte>)
    requires counter + Limit(ChaCha20Ietf) < U64
    ensures Encrypted(ChaCha20Ietf, ks, Context(true, iv, counter + Limit(ChaCha20Ietf)), m).1
         == Encrypted(ChaCha20Ietf, ks, Context(true, iv, counter), m).1
  {
    hide Apply, Position;
    PositionRepeats(counter);
  }

  lemma PositionRepeats(counter: uint64)
    requires counter + Limit(ChaCha20Ietf) < U64
    ensures Position(ChaCha20Ietf, counter + Limit(ChaCha20Ietf)) == Position(ChaCha20Ietf, counter)
  {
    hide Position;
    PositionIsCounter(ChaCha20Ietf, counter);
    PositionIsCounter(ChaCha20Ietf, counter + Limit(ChaCha20Ietf));
  }

  /** A keystream that tells the last byte below the limit, and those behind it, from the first ones. */
  function Marked(iv: seq<byte>, position: nat): byte {
    if position >= Limit(ChaCha20Ietf) then 1 else 0
  }

  /** Across the limit the cut of the stream matters: two bytes at once take the keystream on, one by one they start it
      again. */
  lemma CutMatters(iv: seq<byte>)
    ensures var c := Context(true, iv, Limit(ChaCha20Ietf) - 1);
            EncryptAll(ChaCha20Ietf, Marked, c, [[0, 0]]) != EncryptAll(ChaCha20Ietf, Marked, c, [[0], [0]])
  {
    var last := Limit(ChaCha20Ietf) - 1;
    var c, c' := Context(true, iv, last), Context(true, iv, last + 1);
    PositionIsCounter(ChaCha20Ietf, last);
    PositionIsCounter(ChaCha20Ietf, last + 1);
    var atOnce := EncryptAll(ChaCha20Ietf, Marked, c, [[0, 0]]);
    var bytewise := EncryptAll(ChaCha20Ietf, Marked, c, [[0], [0]]);
    assert [[0, 0]][1..] == [] && [[0], [0]][1..] == [[0]] && [[0]][1..] == [];
    assert atOnce == Apply(Marked, iv, last, [0, 0]) + [];
    assert Encrypted(ChaCha20Ietf, Marked, c, [0]).0 == c';
    assert [] + Apply(Marked, iv, last, [0]) == Apply(Marked, iv, last, [0]);
    assert Encrypted(ChaCha20Ietf, Marked, c', [0]).1 == [] + Apply(Marked, iv, 0, [0]);
    assert bytewise == Apply(Marked, iv, last, [0]) + (Apply(Marked, iv, 0, [0]) + []);
    assert atOnce[1] == XorByte(0, 1) && bytewise[1] == XorByte(0, 0);
  }

  // ---- encrypt.c ----

  /** enc_ctx_t, as far as the stream mode uses it. */
  class EncCtx {
    var init: bool
    var iv: seq<byte>
    var counter: uint64

    ghost function View(): Context
      reads this
    {
      Context(init, iv, counter)
    }

    constructor (iv: seq<byte>)
      ensures View() == Context(false, iv, 0)
    {
      init := false;
      this.iv := iv;
      counter := 0;
    }
  }

  /** crypto_stream_xor_ic, with the cast of the block counter: `n` bytes of `m`, from the start of block `ic`, to `c`
      at `at`. */
  method XorIc(kind: Method, ks: Keystream, c: array<byte>, at: nat, m: array<byte>, from: nat, n: nat, iv: seq<byte>,
      ic: nat)
    requires c != m && at + n <= c.Length && from + n <= m.Length
    modifies c
    ensures c[..] == old(c[..at]) + Apply(ks, iv, BLOCK * (ic % Blocks(kind)),
        old(m[from..from + n])) + old(c[at + n..])
  {
    hide Xor;
    hide Apply, Xor;
    ghost var was := c[..];
    var ic' := ic % Blocks(kind);
    for i := 0 to n
      invariant forall k :: at <= k < at + i ==> c[k] == XorByte(m[from + k - at], ks(iv, BLOCK * ic' + (k - at)))
      invariant forall k :: 0 <= k < at || at + i <= k < c.Length ==> c[k] == was[k]
    {
      c[at + i] := XorByte(m[from + i], ks(iv, BLOCK * ic' + i));
    }
    Xored(ks, was, c[..], at, m[from..from + n], iv, BLOCK * ic');
  }

  lemma Xored(ks: Keystream, was: seq<byte>, now: seq<byte>, at: nat, m: seq<byte>, iv: seq<byte>, position: nat)
    requires at + |m| <= |was| == |now|
    requires forall k :: at <= k < at + |m| ==> now[k] == XorByte(m[k - at], ks(iv, position + (k - at)))
    requires forall k :: 0 <= k < at || at + |m| <= k < |now| ==> now[k] == was[k]
    ensures now == was[..at] + Apply(ks, iv, position, m) + was[at + |m|..]
  {
    hide Xor, XorByte;
    assert now[at..at + |m|] == Apply(ks, iv, position, m);
    assert now == now[..at] + now[at..at + |m|] + now[at + |m|..];
  }

  /** sodium_memzero */
  method MemZero(buf: array<byte>, at: nat, n: nat)
    requires at + n <= buf.Length
    modifies buf
    ensures buf[..] == old(buf[..at]) + Blank(n) + old(buf[at + n..])
  {
    CopyInto(buf, at, Blank(n));
  }

  function Blank(n: nat): (r: seq<byte>)
    ensures |r| == n
  {
    seq(n, _ => 0)
  }

  /** Padding to the start of the block makes the block-wise keystream continue at `counter`. */
  lemma PaddedKeystream(kind: Method, ks: Keystream, iv: seq<byte>, counter: nat, zeros: seq<byte>, m: seq<byte>)
    requires |zeros| == counter % BLOCK
    ensures Apply(ks, iv, BLOCK * (counter / BLOCK % Blocks(kind)), zeros + m)[|zeros|..]
         == Apply(ks, iv, Position(kind, counter), m)
  {
    ApplyConcat(ks, iv, BLOCK * (counter / BLOCK % Blocks(kind)), zeros, m);
  }

  /** Makes room for the padding in front of the bytes. */
  method PadInPlace(src: array<byte>, from: nat, n: nat, padding: nat)
    requires from + n + padding <= src.Length
    modifies src
    ensures src[from..from + (n + padding)] == Blank(padding) + old(src[from..from + n])
  {
    ghost var s0 := src[..];
    if padding != 0 {
      Move(src, from + padding, from, n);
      ghost var s1 := src[..];
      MemZero(src, from, padding);
      Padded(s0, s1, src[..], from, n, Blank(padding));
    } else {
      assert Blank(padding) + s0[from..from + n] == src[from..from + n];
    }
  }

  lemma Padded(s0: seq<byte>, s1: seq<byte>, s2: seq<byte>, from: nat, n: nat, zeros: seq<byte>)
    requires from + n + |zeros| <= |s0|
    requires s1 == s0[..from + |zeros|] + s0[from..from + n] + s0[from + |zeros| + n..]
    requires s2 == s1[..from] + zeros + s1[from + |zeros|..]
    ensures |s2| == |s0| && s2[from..from + (n + |zeros|)] == zeros + s0[from..from + n]
  {
    var k := from + |zeros|;
    assert s1[k..k + n] == s0[from..from + n];
    assert s2[k..k + n] == s1[k..k + n];
    assert s2[from..k] == zeros;
    assert s2[from..from + (n + |zeros|)] == s2[from..k] + s2[k..k + n];
  }

  /** Moves the result over the padding. */
  method Unpad(dst: array<byte>, at: nat, n: nat, padding: nat)
    requires at + n + padding <= dst.Length
    modifies dst
    ensures dst[at..at + n] == old(dst[at + padding..at + padding + n]) && dst[..at] == old(dst[..at])
  {
    ghost var d := dst[..];
    if padding != 0 {
      Move(dst, at, at + padding, n);
      Unpadded(d, dst[..], at, n, padding);
    }
  }

  lemma Unpadded(d: seq<byte>, d1: seq<byte>, at: nat, n: nat, padding: nat)
    requires at + n + padding <= |d| && d1 == d[..at] + d[at + padding..at + padding + n] + d[at + n..]
    ensures |d1| == |d| && d1[at..at + n] == d[at + padding..at + padding + n] && d1[..at] == d[..at]
  {
  }

  /** The keystream step that ss_encrypt and ss_decrypt share: pads `src` in place at `from`, encrypts it into `dst` at
      `at`, and moves the result over the padding. */
  method KeystreamStep(kind: Method, ks: Keystream, ctx: EncCtx, src: array<byte>, from: nat, n: nat, dst: array<byte>,
      at: nat)
    requires src != dst && from + n + ctx.counter % BLOCK <= src.Length && at + n + ctx.counter % BLOCK <= dst.Length
    modifies src, dst, ctx`counter
    ensures ctx.counter == (old(ctx.counter) + n) % U64
    ensures dst[at..at + n] == Apply(ks, ctx.iv, Position(kind, old(ctx.counter)), old(src[from..from + n]))
    ensures dst[..at] == old(dst[..at])
  {
    hide Apply, Blank;
    ghost var m, counter, d := src[from..from + n], ctx.counter, dst[..];
    var padding := ctx.counter % BLOCK;
    PadInPlace(src, from, n, padding);
    XorIc(kind, ks, dst, at, src, from, n + padding, ctx.iv, ctx.counter / BLOCK);
    PaddedKeystream(kind, ks, ctx.iv, counter, Blank(padding), m);
    Between(d, dst[..], at, padding, n,
        Apply(ks, ctx.iv, BLOCK * (counter / BLOCK % Blocks(kind)), Blank(padding) + m));
    ctx.counter := (ctx.counter + n) % U64;
    Unpad(dst, at, n, padding);
  }

  lemma Between(d: seq<byte>, d1: seq<byte>, at: nat, padding: nat, n: nat, c: seq<byte>)
    requires at + n + padding <= |d| && |c| == n + padding && d1 == d[..at] + c + d[at + (n + padding)..]
    ensures |d1| == |d| && d1[at + padding..at + padding + n] == c[padding..] && d1[..at] == d[..at]
  {
    assert d1[at..at + |c|] == c;
  }

  /** ss_encrypt in stream mode. */
  method Encrypt(kind: Method, ks: Keystream, plain: Buffer, ctx: EncCtx, capacity: nat)
    requires plain.Valid()
    modifies plain, plain.data, ctx
    ensures plain.Valid() && (plain.data == old(plain.data) || fresh(plain.data))
    ensures (ctx.View(), plain.Contents()) == Encrypted(kind, ks, old(ctx.View()), old(plain.Contents()))
  {
    var ivLen := 0;
    if !ctx.init {
      ivLen := |ctx.iv|;
    }
    var cipher := new Buffer(ivLen + plain.len);
    cipher.len := plain.len;
    if !ctx.init {
      CopyInto(cipher.data, 0, ctx.iv);
      ctx.counter := 0;
      ctx.init := true;
    }
    assert cipher.data[..ivLen] == if old(ctx.init) then [] else ctx.iv;
    EncryptBody(kind, ks, plain, ctx, cipher, ivLen, capacity);
  }

  /** The part of ss_encrypt after the initial vector is in its place. */
  method EncryptBody(kind: Method, ks: Keystream, plain: Buffer, ctx: EncCtx, cipher: Buffer, ivLen: nat, capacity: nat)
    requires plain.Valid() && cipher.Valid() && cipher != plain && cipher.data != plain.data
    requires ivLen <= cipher.data.Length && cipher.len == plain.len
    modifies plain, plain.data, cipher, cipher.data, ctx`counter
    ensures plain.Valid() && (plain.data == old(plain.data) || fresh(plain.data))
    ensures ctx.counter == (old(ctx.counter) + old(plain.len)) % U64
    ensures plain.Contents() == old(cipher.data[..ivLen]) + Apply(ks, ctx.iv, Position(kind, old(ctx.counter)),
        old(plain.Contents()))
  {
    hide Apply;
    var n := plain.len;
    Reserve(plain, cipher, ivLen, ctx.counter % BLOCK, capacity);
    KeystreamStep(kind, ks, ctx, plain.data, 0, n, cipher.data, ivLen);
    assert cipher.data[..ivLen + n] == cipher.data[..ivLen] + cipher.data[ivLen..ivLen + n];
    Store(plain, cipher.data, ivLen + n, capacity);
  }

  /** The reallocations of ss_encrypt. */
  method Reserve(plain: Buffer, cipher: Buffer, ivLen: nat, padding: nat, capacity: nat)
    requires plain.Valid() && cipher.Valid() && cipher != plain && cipher.data != plain.data
    requires ivLen <= cipher.data.Length && cipher.len == plain.len
    modifies plain`data, cipher`data
    ensures plain.Valid() && (plain.data == old(plain.data) || fresh(plain.data))
    ensures (cipher.data == old(cipher.data) || fresh(cipher.data)) && cipher.data != plain.data
    ensures plain.len + padding <= plain.data.Length && ivLen + plain.len + padding <= cipher.data.Length
    ensures plain.data[0..plain.len] == old(plain.Contents()) && cipher.data[..ivLen] == old(cipher.data[..ivLen])
  {
    cipher.Brealloc(ivLen + (padding + cipher.len) * 2, capacity);
    if padding != 0 {
      plain.Brealloc(plain.len + padding, capacity);
    }
  }

  /** The end of ss_encrypt and ss_decrypt: the result goes back into the caller's buffer. */
  method Store(buf: Buffer, result: array<byte>, n: nat, capacity: nat)
    requires buf.Valid() && n <= result.Length && buf.data != result
    modifies buf, buf.data
    ensures buf.Valid() && (buf.data == old(buf.data) || fresh(buf.data))
    ensures buf.Contents() == old(result[..n])
  {
    buf.Brealloc(n, capacity);
    CopyInto(buf.data, 0, result[..n]);
    buf.len := n;
  }

  /** ss_decrypt in stream mode. `ivKnown` answers for the cache of used initial vectors; a repeated one is refused. */
  method Decrypt(kind: Method, ks: Keystream, ivLen0: nat, cipher: Buffer, ctx: EncCtx, ivKnown: bool, capacity: nat)
      returns (ok: bool)
    requires cipher.Valid() && (!ctx.init ==> ivLen0 <= cipher.len)
    modifies cipher, cipher.data, ctx
    ensures cipher.Valid() && (cipher.data == old(cipher.data) || fresh(cipher.data))
    ensures ok <==> old(ctx.init) || !ivKnown
    ensures ok ==> (ctx.View(), cipher.Contents()) == Decrypted(kind, ks, ivLen0, old(ctx.View()),
        old(cipher.Contents()))
    ensures !ok ==> ctx.View() == Context(true, old(cipher.Contents())[..ivLen0], 0) && cipher.Contents() == []
  {
    hide Apply, Position;
    PositionIsCounter(kind, 0);
    var ivLen := 0;
    ghost var x := cipher.Contents();
    var plain := new Buffer(cipher.len);
    plain.len := cipher.len;
    if !ctx.init {
      ivLen := ivLen0;
      plain.len := plain.len - ivLen;
      ctx.iv := cipher.data[..ivLen];
      ctx.counter := 0;
      ctx.init := true;
      assert ctx.iv == x[..ivLen];
      if ivKnown {
        cipher.Free();
        return false;
      }
    }
    assert cipher.data[ivLen..cipher.len] == x[ivLen..];
    assert ivLen == 0 ==> x[ivLen..] == x;
    DecryptBody(kind, ks, cipher, ctx, plain, ivLen, capacity);
    ok := true;
  }

  /** The part of ss_decrypt after the initial vector is taken off. */
  method DecryptBody(kind: Method, ks: Keystream, cipher: Buffer, ctx: EncCtx, plain: Buffer, ivLen: nat, capacity: nat)
    requires plain.Valid() && cipher.Valid() && cipher != plain && cipher.data != plain.data
    requires ivLen <= cipher.len && plain.len == cipher.len - ivLen
    modifies plain, plain.data, cipher, cipher.data, ctx`counter
    ensures cipher.Valid() && (cipher.data == old(cipher.data) || fresh(cipher.data))
    ensures ctx.counter == (old(ctx.counter) + (old(cipher.len) - ivLen)) % U64
    ensures cipher.Contents() == Apply(ks, ctx.iv, Position(kind, old(ctx.counter)),
        old(cipher.data[ivLen..cipher.len]))
  {
    hide Apply;
    var padding, n := ctx.counter % BLOCK, plain.len;
    ghost var x := cipher.Contents();
    plain.Brealloc((n + padding) * 2, capacity);
    if padding != 0 {
      cipher.Brealloc(cipher.len + padding, capacity);
    }
    assert cipher.data[ivLen..ivLen + n] == cipher.Contents()[ivLen..] == old(cipher.data[ivLen..cipher.len]);
    KeystreamStep(kind, ks, ctx, cipher.data, ivLen, n, plain.data, 0);
    assert plain.data[..n] == plain.data[0..0 + n];
    Store(cipher, plain.data, n, capacity);
  }
}
