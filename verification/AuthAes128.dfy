/** The data frames of auth_aes128_sha1 and auth_aes128_md5 in auth.c: both sides key a message authentication code with
    a frame counter, so that a frame is accepted only in its place in the stream. */
module AuthAes128 {
  import opened Bits
  import opened Sequences
  import opened Buffers
  import opened Framing
  import opened Reception
  import opened Macs
  import Crc32

  const UNIT_SIZE: nat := 2000

  /** user_key followed by the frame counter. */
  function Key(userKey: seq<byte>, id: uint32): seq<byte> {
    userKey + Crc32.LittleEndian(id)
  }

  /** The same, by its bytes: the counter with its low byte first. */
  function CounterKey(userKey: seq<byte>, id: uint32): seq<byte> {
    userKey + [id % 0x100, id / 0x100 % 0x100, id / 0x1_0000 % 0x100, id / 0x100_0000]
  }

  lemma KeyOfCounter(userKey: seq<byte>, id: uint32)
    ensures Key(userKey, id) == CounterKey(userKey, id)
  {
  }

  // ---- Padding ----

  /** The padding lengths that the sender can draw. */
  predicate Drawable(randLen: nat, dataLength: nat, packId: uint32) {
    randLen == 1 ||
    (dataLength <= 1200 && randLen == if packId > 4 then 0x21 else if dataLength > 900 then 0x81 else 0x201)
  }

  /** The first padding bytes tell the length: one byte below 128, otherwise 0xFF and two bytes, low byte first. */
  ghost predicate Padding(pad: seq<byte>) {
    if |pad| < 128 then |pad| >= 1 && pad[0] == |pad|
    else |pad| <= 0x201 && pad[0] == 0xFF && pad[1] == Lo(|pad|) && pad[2] == Hi(|pad|)
  }

  /** The offset of the payload that the receiver computes. */
  function PayloadStart(x: seq<byte>): int
    requires |x| >= 7
  {
    if x[4] < 255 then x[4] + 4 else Word(x[6], x[5]) + 4
  }

  // ---- Frames ----

  function LengthBytes(size: nat): seq<byte> {
    [Lo(size), Hi(size)]
  }

  /** The length and two bytes of its authentication code. */
  function Header(mac: Mac, key: seq<byte>, size: nat): (r: seq<byte>)
    ensures |r| == 4
  {
    LengthBytes(size) + mac(key, LengthBytes(size))[..2]
  }

  function Size(padLength: nat, dataLength: nat): nat {
    padLength + dataLength + 8
  }

  /** The frame without its last four bytes. */
  function Body(mac: Mac, key: seq<byte>, pad: seq<byte>, data: seq<byte>): (r: seq<byte>)
    ensures |r| == |pad| + |data| + 4
  {
    Header(mac, key, Size(|pad|, |data|)) + pad + data
  }

  /** The frame that auth_aes128_sha1_pack_data builds. */
  function Packed(mac: Mac, key: seq<byte>, pad: seq<byte>, data: seq<byte>): (r: seq<byte>)
    ensures |r| == Size(|pad|, |data|)
  {
    Body(mac, key, pad, data) + mac(key, Body(mac, key, pad, data))[..4]
  }

  /** One turn of the loop of auth_aes128_sha1_client_post_decrypt; the state is recv_id. */
  function Peel(mac: Mac, userKey: seq<byte>, id: uint32, x: seq<byte>): Peeled<uint32> {
    var key := Key(userKey, id);
    if |x| <= 4 then More
    else if mac(key, x[..2])[..2] != x[2..4] then Bad
    else
      var length := Word(x[1], x[0]);
      if length >= 8192 || length < 8 then Bad
      else if length > |x| then More
      else if mac(key, x[..length - 4])[..4] != x[length - 4..length] then Bad
      else
        var pos := PayloadStart(x);
        if length - pos - 4 < 0 then Wild
        else Frame(length, x[pos..length - 4], Next(id))
  }

  function Peeler(mac: Mac, userKey: seq<byte>): (uint32, seq<byte>) -> Peeled<uint32> {
    (id: uint32, x: seq<byte>) => Peel(mac, userKey, id, x)
  }

  lemma PeelerIsPeel(mac: Mac, userKey: seq<byte>, id: uint32, x: seq<byte>)
    ensures Peeler(mac, userKey)(id, x) == Peel(mac, userKey, id, x)
  {
  }

  lemma NothingYet(mac: Mac, userKey: seq<byte>)
    ensures forall id :: Peeler(mac, userKey)(id, []) == More
  {
  }

  lemma PeelSteadyAt(mac: Mac, userKey: seq<byte>, id: uint32, x: seq<byte>, y: seq<byte>)
    requires !Peel(mac, userKey, id, x).More?
    ensures Peel(mac, userKey, id, x + y) == Peel(mac, userKey, id, x)
  {
    PrefixOfConcat(x, y, 2);
    var length := Word(x[1], x[0]);
    if 8 <= length < 8192 && length <= |x| {
      PrefixOfConcat(x, y, length - 4);
    }
  }

  lemma PeelerSteady(mac: Mac, userKey: seq<byte>)
    ensures Steady(Peeler(mac, userKey))
  {
    forall id, x, y | !Peeler(mac, userKey)(id, x).More?
      ensures Peeler(mac, userKey)(id, x + y) == Peeler(mac, userKey)(id, x)
    {
      PeelSteadyAt(mac, userKey, id, x, y);
    }
  }

  // ---- Frames that make the copy undefined ----

  /** A complete frame that passes all checks under a key. */
  predicate Checked(mac: Mac, key: seq<byte>, f: seq<byte>) {
    && 8 <= |f| < 8192 && Word(f[1], f[0]) == |f|
    && mac(key, f[..2])[..2] == f[2..4] && mac(key, f[..|f| - 4])[..4] == f[|f| - 4..]
  }

  /** Its padding field puts the payload behind the frame. */
  predicate OverPadded(mac: Mac, key: seq<byte>, f: seq<byte>) {
    Checked(mac, key, f) && PayloadStart(f) > |f| - 4
  }

  /** The frames that are taken are the checked ones whose padding leaves room; the other checked ones break the
      receiver. */
  lemma TakenIffChecked(mac: Mac, userKey: seq<byte>, id: uint32, x: seq<byte>)
    ensures var p, key := Peel(mac, userKey, id, x), Key(userKey, id);
            && (p.Frame? && p.length == |x| <==> Checked(mac, key, x) && !OverPadded(mac, key, x))
            && (OverPadded(mac, key, x) ==> p.Wild?)
    ensures OwnBytes(Peeler(mac, userKey), id, x)
    ensures BreaksAt(Peeler(mac, userKey), (id: uint32, f: seq<byte>) => OverPadded(mac, Key(userKey, id), f), id, x)
  {
    hide Key, Next, Hi, Lo;
    if |x| > 4 {
      var length := Word(x[1], x[0]);
      if 8 <= length <= |x| {
        SameFields(x, length);
      }
      assert x[..|x|] == x;
    }
  }

  lemma SameFields(x: seq<byte>, n: nat)
    requires 8 <= n <= |x|
    ensures var f := x[..n];
            && f[..n] == f && f[..2] == x[..2] && f[0] == x[0] && f[1] == x[1] && PayloadStart(f) == PayloadStart(x)
            && f[..n - 4] == x[..n - 4] && f[n - 4..] == x[n - 4..n]
            && forall i, j :: 0 <= i <= j <= n ==> f[i..j] == x[i..j]
  {
  }

  /** Behind frames that the receiver takes stands a checked frame whose padding field puts the payload behind it. */
  ghost predicate HoldsOverPadded(mac: Mac, userKey: seq<byte>, id: uint32, x: seq<byte>) {
    exists frames, w, id' ::
      Taken(Peeler(mac, userKey), id, frames, id') && OverPadded(mac, Key(userKey, id'), w) && Flatten(frames) + w <= x
  }

  /** Over every stream, however it arrives, such a frame is exactly what makes the receiver's copy undefined. */
  lemma UndefinedIff(mac: Mac, userKey: seq<byte>, id: uint32, pieces: seq<seq<byte>>)
    ensures Feed(Peeler(mac, userKey), id, [], pieces).status == Undefined
        <==> HoldsOverPadded(mac, userKey, id, Flatten(pieces))
  {
    hide Peel, OverPadded, Flatten, Feed, Taken, OwnBytes, BreaksAt, Key;
    var peel := Peeler(mac, userKey);
    var broken := (id: uint32, f: seq<byte>) => OverPadded(mac, Key(userKey, id), f);
    PeelerSteady(mac, userKey);
    NothingYet(mac, userKey);
    forall s, x ensures OwnBytes(peel, s, x) && BreaksAt(peel, broken, s, x) {
      TakenIffChecked(mac, userKey, s, x);
    }
    if Feed(peel, id, [], pieces).status == Undefined {
      var frames, w, id' := BrokenBehind(peel, broken, id, pieces);
      assert OverPadded(mac, Key(userKey, id'), w) && HoldsOverPadded(mac, userKey, id, Flatten(pieces));
    }
    if HoldsOverPadded(mac, userKey, id, Flatten(pieces)) {
      var frames, w, id' :| Taken(peel, id, frames, id') && OverPadded(mac, Key(userKey, id'), w)
          && Flatten(frames) + w <= Flatten(pieces);
      TakenIffChecked(mac, userKey, id', w);
      BrokenEndsIt(peel, id, pieces, frames, w, id');
    }
  }

  /** Bytes that the receiver refuses under the key of its counter: a wrong code of the length, a length out of range,
      or a complete frame with a wrong code. */
  predicate Refused(mac: Mac, key: seq<byte>, z: seq<byte>) {
    |z| > 4 && var length := Word(z[1], z[0]);
               || mac(key, z[..2])[..2] != z[2..4] || length < 8 || length >= 8192
               || (length <= |z| && mac(key, z[..length - 4])[..4] != z[length - 4..length])
  }

  /** Over every stream, however it arrives, it is rejected exactly when such bytes follow frames that are taken. */
  lemma RejectedIff(mac: Mac, userKey: seq<byte>, id: uint32, pieces: seq<seq<byte>>)
    ensures Feed(Peeler(mac, userKey), id, [], pieces).status == Rejected
       <==> HoldsRefused(Peeler(mac, userKey), (n: uint32, z: seq<byte>) => Refused(mac, CounterKey(userKey, n), z),
                         id, Flatten(pieces))
  {
    hide Feed, Flatten, OwnBytes, Taken, PayloadStart, Key, CounterKey;
    var refused := (id: uint32, z: seq<byte>) => Refused(mac, CounterKey(userKey, id), z);
    PeelerSteady(mac, userKey);
    NothingYet(mac, userKey);
    forall s, x ensures OwnBytes(Peeler(mac, userKey), s, x) && (Peeler(mac, userKey)(s, x).Bad? <==> refused(s, x)) {
      TakenIffChecked(mac, userKey, s, x);
      KeyOfCounter(userKey, s);
    }
    RejectedExactly(Peeler(mac, userKey), refused, id, pieces);
  }

  /** A frame of nine bytes with a padding field of 200. */
  function Short(mac: Mac, key: seq<byte>): seq<byte> {
    var body := Header(mac, key, 9) + [200];
    body + mac(key, body)[..4]
  }

  lemma OverPaddedExists(mac: Mac, userKey: seq<byte>, id: uint32)
    ensures var f := Short(mac, Key(userKey, id));
            OverPadded(mac, Key(userKey, id), f) && Drain(Peeler(mac, userKey), id, f).status == Undefined
  {
    hide Key;
    var key := Key(userKey, id);
    var body, f := Header(mac, key, 9) + [200], Short(mac, key);
    assert f[..4] == Header(mac, key, 9) && f[4] == 200;
    PackedFields(mac, key, 9, f);
    assert f[..5] == body && f[5..] == mac(key, body)[..4];
    assert f[..|f|] == f;
    assert Peel(mac, userKey, id, f) == Wild;
  }

  /** What the receiver sees of a frame once it has its header. */
  lemma PackedFields(mac: Mac, key: seq<byte>, size: uint16, x: seq<byte>)
    requires |x| >= 4 && x[..4] == Header(mac, key, size)
    ensures Word(x[1], x[0]) == size && mac(key, x[..2])[..2] == x[2..4]
  {
    WordOfBytes(size);
    assert x[..2] == x[..4][..2] == LengthBytes(size);
    assert x[2..4] == x[..4][2..];
    assert x[0] == x[..2][0] && x[1] == x[..2][1];
  }

  /** The receiver finds the end of the padding. */
  lemma PaddingFound(pad: seq<byte>, x: seq<byte>)
    requires Padding(pad) && |x| >= 4 + |pad| && |x| >= 7
    requires forall i :: 0 <= i < |pad| ==> x[4 + i] == pad[i]
    ensures PayloadStart(x) == 4 + |pad|
  {
    assert x[4 + 0] == pad[0];
    if |pad| >= 128 {
      WordOfBytes(|pad|);
      assert x[4 + 1] == pad[1] && x[4 + 2] == pad[2];
    }
  }

  lemma PaddingIsShort(pad: seq<byte>)
    requires Padding(pad)
    ensures 1 <= |pad| <= 0x201
  {
  }

  lemma WholeFrame(mac: Mac, userKey: seq<byte>, id: uint32, pad: seq<byte>, data: seq<byte>, z: seq<byte>)
    requires Padding(pad) && 0 < |data| <= UNIT_SIZE
    ensures var f := Packed(mac, Key(userKey, id), pad, data);
            Peel(mac, userKey, id, f + z) == Frame(|f|, data, Next(id))
  {
    hide Padding, PayloadStart, Header, Key;
    PaddingIsShort(pad);
    var key := Key(userKey, id);
    var body := Body(mac, key, pad, data);
    var f := Packed(mac, key, pad, data);
    var head := Header(mac, key, |f|);
    var x := f + z;
    Layout(head, pad, data, mac(key, body)[..4], z);
    assert x[..|f| - 4] == body;
    assert x[..4] == head;
    PackedFields(mac, key, |f|, x);
    PaddingFound(pad, x);
  }

  /** The receiver takes a frame with its own counter off the stream and waits for every shorter prefix of it. */
  lemma PackedCarries(mac: Mac, userKey: seq<byte>, id: uint32, pad: seq<byte>, data: seq<byte>)
    requires Padding(pad) && 0 < |data| <= UNIT_SIZE
    ensures Carries(Peeler(mac, userKey), id, Packed(mac, Key(userKey, id), pad, data), data, Next(id))
  {
    hide Padding, PayloadStart, Key, Next;
    var f := Packed(mac, Key(userKey, id), pad, data);
    forall z ensures Peeler(mac, userKey)(id, f + z) == Frame(|f|, data, Next(id)) {
      WholeFrame(mac, userKey, id, pad, data, z);
    }
    assert f + [] == f;
    forall k | 0 <= k < |f| ensures Peeler(mac, userKey)(id, f[..k]) == More {
      if k > 4 {
        assert f[..k][..4] == Header(mac, Key(userKey, id), |f|);
        assert |f| < 8192 by { PaddingIsShort(pad); }
        PackedFields(mac, Key(userKey, id), |f|, f[..k]);
      }
    }
  }

  /** `frames` are packings of `units`, each with some padding, under the counters from `id`. */
  ghost predicate AllPacked(mac: Mac, userKey: seq<byte>, id: uint32,
                            frames: seq<seq<byte>>, pads: seq<seq<byte>>, units: seq<seq<byte>>) {
    && |frames| == |units| == |pads|
    && forall i :: 0 <= i < |units| ==>
         Padding(pads[i]) && frames[i] == Packed(mac, Key(userKey, Ids(id, |units|)[i]), pads[i], units[i])
  }

  lemma PackedIsStream(mac: Mac, userKey: seq<byte>, id: uint32,
                       frames: seq<seq<byte>>, pads: seq<seq<byte>>, units: seq<seq<byte>>)
    requires AllPacked(mac, userKey, id, frames, pads, units)
    requires forall i :: 0 <= i < |units| ==> 0 < |units[i]| <= UNIT_SIZE
    ensures Stream(Peeler(mac, userKey), Ids(id, |frames|), frames, units) && Ids(id, |frames|)[0] == id
  {
    hide Padding, Packed, Ids, Next, Key;
    var states := Ids(id, |frames|);
    forall i | 0 <= i < |frames|
      ensures Carries(Peeler(mac, userKey), states[i], frames[i], units[i], states[i + 1])
    {
      IdsStep(id, |frames|, i);
      PackedCarries(mac, userKey, states[i], pads[i], units[i]);
    }
    IdsStart(id, |frames|);
  }

  /** Frames for any units, with any padding, cut into any pieces: the payload bytes come out in order, and recv_id ends
      where the sender's pack_id is. */
  lemma Recovered(mac: Mac, userKey: seq<byte>, id: uint32,
                  frames: seq<seq<byte>>, pads: seq<seq<byte>>, units: seq<seq<byte>>, pieces: seq<seq<byte>>)
    requires AllPacked(mac, userKey, id, frames, pads, units)
    requires forall i :: 0 <= i < |units| ==> 0 < |units[i]| <= UNIT_SIZE
    requires Flatten(pieces) == Flatten(frames)
    ensures Feed(Peeler(mac, userKey), id, [], pieces)
         == Drained(Ok, Flatten(units), [], (id + |units|) % 0x1_0000_0000)
  {
    hide AllPacked, Peeler, Ids, Drain, Carries, Flatten, Steady, Feed;
    IdsStart(id, |frames|);
    NothingYet(mac, userKey);
    PackedIsStream(mac, userKey, id, frames, pads, units);
    PeelerSteady(mac, userKey);
    StreamDelivered(Peeler(mac, userKey), Ids(id, |frames|), frames, units, pieces);
  }

  // ---- Only in its place ----

  /** The layout of a frame under a key, byte by byte. */
  ghost predicate FrameUnder(mac: Mac, key: seq<byte>, pad: seq<byte>, data: seq<byte>, f: seq<byte>) {
    && |f| == |pad| + |data| + 8
    && f[..2] == [|f| % 0x100, |f| / 0x100 % 0x100] && f[2..4] == mac(key, f[..2])[..2]
    && f[4..4 + |pad|] == pad && f[4 + |pad|..|f| - 4] == data && f[|f| - 4..] == mac(key, f[..|f| - 4])[..4]
  }

  lemma PackedUnder(mac: Mac, userKey: seq<byte>, id: uint32, pad: seq<byte>, data: seq<byte>)
    ensures FrameUnder(mac, CounterKey(userKey, id), pad, data, Packed(mac, Key(userKey, id), pad, data))
  {
    hide Key, CounterKey;
    KeyOfCounter(userKey, id);
    var key := Key(userKey, id);
    var f, body, head := Packed(mac, key, pad, data), Body(mac, key, pad, data), Header(mac, key, Size(|pad|, |data|));
    assert f[..|f| - 4] == body && f[|f| - 4..] == mac(key, body)[..4];
    assert body[..4] == head && body[4..4 + |pad|] == pad && body[4 + |pad|..] == data;
    assert f[..2] == head[..2] && f[2..4] == head[2..4];
  }

  /** Both codes of a frame are the same under two keys. */
  ghost predicate SameCodes(mac: Mac, k: seq<byte>, k': seq<byte>, f: seq<byte>)
    requires |f| >= 8
  {
    mac(k, f[..2])[..2] == mac(k', f[..2])[..2] && mac(k, f[..|f| - 4])[..4] == mac(k', f[..|f| - 4])[..4]
  }

  /** A receiver at counter `j` takes a frame that was packed under counter `i` exactly if both codes are the same under
      both counters, and refuses it otherwise. */
  lemma InPlaceIff(mac: Mac, userKey: seq<byte>, i: uint32, j: uint32, pad: seq<byte>, data: seq<byte>, z: seq<byte>)
    requires Padding(pad) && 0 < |data| <= UNIT_SIZE
    ensures var f := Packed(mac, Key(userKey, i), pad, data);
            Peel(mac, userKey, j, f + z) == if SameCodes(mac, CounterKey(userKey, i), CounterKey(userKey, j), f)
                                            then Frame(|f|, data, Next(j)) else Bad
  {
    hide Key, CounterKey, Padding, Packed, PayloadStart, Next;
    var f := Packed(mac, Key(userKey, i), pad, data);
    KeyOfCounter(userKey, i);
    KeyOfCounter(userKey, j);
    WholeFrame(mac, userKey, i, pad, data, z);
    var x := f + z;
    assert x[..2] == f[..2] && x[..|f| - 4] == f[..|f| - 4];
  }

  /** After any frames in order, however the stream arrives, a frame of another counter - an old one again, or a later
      one too early - is rejected as soon as one of its codes tells the counters apart. */
  lemma OutOfPlaceRejected(mac: Mac, userKey: seq<byte>, id: uint32, frames: seq<seq<byte>>, pads: seq<seq<byte>>,
      units: seq<seq<byte>>, i: uint32, pad: seq<byte>, data: seq<byte>, z: seq<byte>, pieces: seq<seq<byte>>)
    requires AllPacked(mac, userKey, id, frames, pads, units)
    requires forall i :: 0 <= i < |units| ==> 0 < |units[i]| <= UNIT_SIZE
    requires Padding(pad) && 0 < |data| <= UNIT_SIZE
    requires var f := Packed(mac, Key(userKey, i), pad, data);
             && Flatten(pieces) == Flatten(frames) + (f + z)
             && !SameCodes(mac, CounterKey(userKey, i), CounterKey(userKey, (id + |frames|) % 0x1_0000_0000), f)
    ensures Feed(Peeler(mac, userKey), id, [], pieces).status == Rejected
  {
    hide Peel, Padding, Packed, Key, CounterKey, SameCodes, Ids, Flatten, Feed, Stream, Next, Steady, AllPacked, Peeler;
    var states, f := Ids(id, |frames|), Packed(mac, Key(userKey, i), pad, data);
    IdsStart(id, |frames|);
    NothingYet(mac, userKey);
    PeelerSteady(mac, userKey);
    PackedIsStream(mac, userKey, id, frames, pads, units);
    TakenAtOnce(mac, userKey, id, frames, pads, units);
    InPlaceIff(mac, userKey, i, states[|frames|], pad, data, z);
    PeelerIsPeel(mac, userKey, states[|frames|], f + z);
    StreamThenBad(Peeler(mac, userKey), states, frames, units, f + z, pieces);
  }

  /** A complete frame does not wait for what follows it. */
  lemma TakenAtOnce(mac: Mac, userKey: seq<byte>, id: uint32, frames: seq<seq<byte>>, pads: seq<seq<byte>>,
      units: seq<seq<byte>>)
    requires AllPacked(mac, userKey, id, frames, pads, units)
    requires forall i :: 0 <= i < |units| ==> 0 < |units[i]| <= UNIT_SIZE
    ensures forall k :: 0 <= k < |frames| ==> Peeler(mac, userKey)(Ids(id, |frames|)[k], frames[k]).Frame?
  {
    hide Peel, Padding, Packed, Key, Ids, Next;
    forall k | 0 <= k < |frames| ensures Peeler(mac, userKey)(Ids(id, |frames|)[k], frames[k]).Frame? {
      WholeFrame(mac, userKey, Ids(id, |frames|)[k], pads[k], units[k], []);
      assert frames[k] + [] == frames[k];
    }
  }

  /** What one pre_encrypt call packed comes back as the plaintext, for any pieces. */
  lemma PreEncryptRecovered(mac: Mac, userKey: seq<byte>, id: uint32,
                            plaindata: seq<byte>, frames: seq<seq<byte>>, pads: seq<seq<byte>>, pieces: seq<seq<byte>>)
    requires AllPacked(mac, userKey, id, frames, pads, Chop(plaindata, UNIT_SIZE))
    requires Flatten(pieces) == Flatten(frames)
    ensures var d := Feed(Peeler(mac, userKey), id, [], pieces);
            d.status == Ok && d.out == plaindata && d.rest == [] && d.state == (id + |frames|) % 0x1_0000_0000
  {
    hide Packed, Padding, Peeler, Ids, Drain, Flatten, Feed, Chop;
    Recovered(mac, userKey, id, frames, pads, Chop(plaindata, UNIT_SIZE), pieces);
    ChopLosesNothing(plaindata, UNIT_SIZE);
  }

  /** Frame by frame: after `n` complete frames the receiver has delivered their payloads, its counter is the one the
      sender used for the next frame, and it keeps part of that frame. */
  lemma LockStep(mac: Mac, userKey: seq<byte>, id: uint32,
                 frames: seq<seq<byte>>, pads: seq<seq<byte>>, units: seq<seq<byte>>, received: seq<byte>)
    returns (n: nat)
    requires AllPacked(mac, userKey, id, frames, pads, units)
    requires forall i :: 0 <= i < |units| ==> 0 < |units[i]| <= UNIT_SIZE
    requires received <= Flatten(frames)
    ensures var d := Drain(Peeler(mac, userKey), id, received);
            && n <= |frames| && d.status == Ok && d.out == Flatten(units[..n])
            && d.state == (id + n) % 0x1_0000_0000
            && (d.rest == [] || (n < |frames| && d.rest < frames[n]))
  {
    hide AllPacked, Peeler, Ids, Drain, Carries, Flatten, Steady, Feed;
    IdsStart(id, |frames|);
    NothingYet(mac, userKey);
    PackedIsStream(mac, userKey, id, frames, pads, units);
    n := PrefixDelivered(Peeler(mac, userKey), Ids(id, |frames|), frames, units, received);
  }

  // ---- The two sides ----

  /** The fields of auth_simple_local_data that carry the data frames. pack_data keeps the key length in one byte. */
  class Local {
    const userKey: seq<byte>
    var packId: uint32
    var recvId: uint32
    const recv: ReceiveBuffer

    ghost predicate Valid()
      reads this, recv
    {
      recv.Valid() && |userKey| + 4 < 0x100
    }

    constructor (userKey: seq<byte>)
      requires |userKey| + 4 < 0x100
      ensures Valid() && fresh(recv) && fresh(recv.data) && this.userKey == userKey
      ensures packId == 1 && recvId == 1 && recv.Contents() == []
    {
      this.userKey := userKey;
      packId := 1;
      recvId := 1;
      recv := new ReceiveBuffer();
    }
  }

  // ---- The sender ----

  /** Stores the padding length over the first padding bytes. */
  method StorePadding(out: array<byte>, at: nat, randLen: nat) returns (ghost pad: seq<byte>)
    requires 1 <= randLen <= 0x201 && at + randLen <= out.Length
    modifies out
    ensures |pad| == randLen && Padding(pad)
    ensures out[..] == old(out[..at]) + pad + old(out[at + randLen..])
  {
    if randLen < 128 {
      out[at] := randLen;
    } else {
      out[at] := 0xFF;
      out[at + 1] := Lo(randLen);
      out[at + 2] := Hi(randLen);
    }
    pad := out[at..at + randLen];
  }

  /** Stores the length, the random bytes and two bytes of the authentication code of the length, in the order of the
      source; the payload behind them stays. */
  method StoreHeader(mac: Mac, key: seq<byte>, out: array<byte>, at: nat, size: nat, rnd: seq<byte>)
    requires 1 <= |rnd| && at + 4 + |rnd| <= out.Length
    modifies out
    ensures out[..] == old(out[..at]) + (Header(mac, key, size) + rnd) + old(out[at + 4 + |rnd|..])
  {
    ghost var s0 := out[..];
    out[at] := Lo(size);
    out[at + 1] := Hi(size);
    ghost var s1 := out[..];
    assert s1 == s0[..at] + LengthBytes(size) + s0[at + 2..];
    CopyInto(out, at + 4, rnd);
    ghost var s2 := out[..];
    WriteElsewhere(s1, s2, at + 4, rnd, at, at + 2);
    assert out[at..at + 2] == s2[at..at + 2] == LengthBytes(size);
    var hash := mac(key, out[at..at + 2]);
    CopyInto(out, at + 2, hash[..2]);
    HeaderInPlace(s0, s1, s2, out[..], at, LengthBytes(size), hash[..2], rnd);
  }

  lemma HeaderInPlace(s0: seq<byte>, s1: seq<byte>, s2: seq<byte>, s3: seq<byte>, at: nat,
                      head: seq<byte>, tag: seq<byte>, rnd: seq<byte>)
    requires |head| == 2 && |tag| == 2 && at + 4 + |rnd| <= |s0|
    requires s1 == s0[..at] + head + s0[at + 2..]
    requires s2 == s1[..at + 4] + rnd + s1[at + 4 + |rnd|..]
    requires s3 == s2[..at + 2] + tag + s2[at + 4..]
    ensures s3 == s0[..at] + ((head + tag) + rnd) + s0[at + 4 + |rnd|..]
  {
  }

  lemma BodyInPlace(s0: seq<byte>, s1: seq<byte>, s2: seq<byte>, s3: seq<byte>, at: nat,
                    head: seq<byte>, rnd: seq<byte>, pad: seq<byte>, data: seq<byte>)
    requires |head| == 4 && |pad| == |rnd| && at + |rnd| + 4 + |data| <= |s0|
    requires s1 == s0[..at + |rnd| + 4] + data + s0[at + |rnd| + 4 + |data|..]
    requires s2 == s1[..at] + (head + rnd) + s1[at + 4 + |rnd|..]
    requires s3 == s2[..at + 4] + pad + s2[at + 4 + |rnd|..]
    ensures s3 == s0[..at] + (head + pad + data) + s0[at + |rnd| + 4 + |data|..]
  {
    var a, m, z := s0[..at], s0[at..at + |rnd| + 4], s0[at + |rnd| + 4 + |data|..];
    BodyBefore(s0, at, |rnd| + 4);
    assert s1 == a + m + (data + z);
    WriteOver(s1, a, m, data + z, head + rnd);
    assert s2 == a + (head + rnd) + (data + z);
    BodyRest(s2, s3, a, head, rnd, pad, data + z);
    assert s3 == a + (head + pad + data) + z;
  }

  lemma BodyBefore(s: seq<byte>, at: nat, n: nat)
    requires at + n <= |s|
    ensures s[..at + n] == s[..at] + s[at..at + n]
  {
  }

  lemma BodyRest(s2: seq<byte>, s3: seq<byte>, a: seq<byte>, head: seq<byte>, rnd: seq<byte>, pad: seq<byte>,
      z: seq<byte>)
    requires |pad| == |rnd| && s2 == a + (head + rnd) + z
    requires s3 == s2[..|a| + |head|] + pad + s2[|a| + |head| + |rnd|..]
    ensures s3 == a + head + pad + z
  {
    assert s2 == (a + head) + rnd + z;
    WriteOver(s2, a + head, rnd, z, pad);
  }

  /** The frame without its last four bytes. */
  method PackBody(mac: Mac, key: seq<byte>, data: seq<byte>, out: array<byte>, at: nat, rnd: seq<byte>)
    returns (ghost pad: seq<byte>)
    requires 1 <= |rnd| <= 0x201 && at + |rnd| + 4 + |data| <= out.Length
    modifies out
    ensures |pad| == |rnd| && Padding(pad)
    ensures out[..] == old(out[..at]) + Body(mac, key, pad, data) + old(out[at + |rnd| + 4 + |data|..])
  {
    hide Header, Padding;
    ghost var s0 := out[..];
    CopyInto(out, at + |rnd| + 4, data);
    ghost var s1 := out[..];
    StoreHeader(mac, key, out, at, Size(|rnd|, |data|), rnd);
    ghost var s2 := out[..];
    pad := StorePadding(out, at + 4, |rnd|);
    BodyInPlace(s0, s1, s2, out[..], at, Header(mac, key, Size(|rnd|, |data|)), rnd, pad, data);
  }

  /** Completes a frame with four bytes of the authentication code of the rest. */
  method Seal(mac: Mac, key: seq<byte>, out: array<byte>, at: nat, outSize: nat)
    requires 4 <= outSize && at + outSize <= out.Length
    modifies out
    ensures var body := old(out[at..at + outSize - 4]);
            out[..] == old(out[..at]) + (body + mac(key, body)[..4]) + old(out[at + outSize..])
  {
    var hash := mac(key, out[at..at + outSize - 4]);
    assert out[..at + outSize - 4] == out[..at] + out[at..at + outSize - 4];
    CopyInto(out, at + outSize - 4, hash[..4]);
  }

  /** The padding length and the random bytes of one frame. */
  method Draw(dataLength: nat, packId: uint32) returns (rnd: seq<byte>)
    ensures Drawable(|rnd|, dataLength, packId)
  {
    assert Drawable(1, dataLength, packId);
    var randLen: nat :| Drawable(randLen, dataLength, packId);
    assert |seq(randLen, _ => 0)| == randLen;
    rnd :| |rnd| == randLen;
  }

  /** auth_aes128_sha1_pack_data */
  method PackData(mac: Mac, local: Local, data: seq<byte>, out: array<byte>, at: nat)
    returns (outSize: nat, ghost pad: seq<byte>)
    requires local.Valid() && 0 < |data| <= UNIT_SIZE && at + |data| + 521 <= out.Length
    modifies out, local`packId
    ensures Padding(pad) && Drawable(|pad|, |data|, old(local.packId)) && local.packId == Next(old(local.packId))
    ensures var frame := Packed(mac, Key(local.userKey, old(local.packId)), pad, data);
            && outSize == |frame| <= |data| + 521
            && (|data| > 1200 ==> outSize == |data| + 9)
            && out[..] == old(out[..at]) + frame + old(out[at + outSize..])
            && FrameUnder(mac, CounterKey(local.userKey, old(local.packId)), pad, data, frame)
  {
    hide Header, Padding, Next, Key, CounterKey, Body, FrameUnder;
    var rnd := Draw(|data|, local.packId);
    outSize := Size(|rnd|, |data|);
    var key := Key(local.userKey, local.packId);
    ghost var s0 := out[..];
    pad := PackBody(mac, key, data, out, at, rnd);
    WriteInPlace(s0, out[..], at, Body(mac, key, pad, data), 4);
    PackedUnder(mac, local.userKey, local.packId, pad, data);
    local.packId := Next(local.packId);
    Seal(mac, key, out, at, outSize);
  }

  /** What the output buffer holds while the pre_encrypt loop runs. */
  ghost predicate Packing(mac: Mac, userKey: seq<byte>, id: uint32, out: seq<byte>,
                          frames: seq<seq<byte>>, pads: seq<seq<byte>>, done: seq<seq<byte>>) {
    AllPacked(mac, userKey, id, frames, pads, done) && out == Flatten(frames)
  }

  lemma NothingPacked(mac: Mac, userKey: seq<byte>, id: uint32, out: seq<byte>)
    requires out == []
    ensures Packing(mac, userKey, id, out, [], [], [])
  {
  }

  lemma PackingGrows(mac: Mac, userKey: seq<byte>, id: uint32, out: seq<byte>,
                     frames: seq<seq<byte>>, pads: seq<seq<byte>>, done: seq<seq<byte>>, pad: seq<byte>,
                     data: seq<byte>)
    requires Packing(mac, userKey, id, out, frames, pads, done) && Padding(pad)
    ensures var frame := Packed(mac, Key(userKey, (id + |done|) % 0x1_0000_0000), pad, data);
            Packing(mac, userKey, id, out + frame, frames + [frame], pads + [pad], done + [data])
  {
    hide Packed, Padding, Key, Ids;
    var n := |done|;
    var frame := Packed(mac, Key(userKey, (id + n) % 0x1_0000_0000), pad, data);
    FlattenConcat(frames, [frame]);
    assert Flatten([frame]) == frame + [];
    IdsStart(id, n);
    IdsStart(id, n + 1);
    var frames', pads', done' := frames + [frame], pads + [pad], done + [data];
    forall i | 0 <= i < n + 1
      ensures Padding(pads'[i]) && frames'[i] == Packed(mac, Key(userKey, Ids(id, n + 1)[i]), pads'[i], done'[i])
    {
      if i < n {
        assert pads'[i] == pads[i] && frames'[i] == frames[i] && done'[i] == done[i];
        assert Ids(id, n + 1)[i] == Ids(id, n)[i];
      }
    }
  }

  /** Packs the next unit behind the frames that are there. */
  method PackNext(mac: Mac, local: Local, ghost id: uint32, unit: seq<byte>, out: array<byte>, at: nat,
                  ghost frames: seq<seq<byte>>, ghost pads: seq<seq<byte>>, ghost done: seq<seq<byte>>)
    returns (at': nat, ghost frame: seq<byte>, ghost pad: seq<byte>)
    requires local.Valid() && 0 < |unit| <= UNIT_SIZE && at + |unit| + 521 <= out.Length
    requires Packing(mac, local.userKey, id, out[..at], frames, pads, done)
    requires local.packId == (id + |done|) % 0x1_0000_0000
    modifies out, local`packId
    ensures at' <= at + |unit| + 521 && at' <= out.Length && (|unit| > 1200 ==> at' <= at + |unit| + 9)
    ensures Packing(mac, local.userKey, id, out[..at'], frames + [frame], pads + [pad], done + [unit])
    ensures local.packId == (id + |done| + 1) % 0x1_0000_0000
  {
    hide Packed, Padding, Packing, Key;
    var packLen;
    ghost var packId := local.packId;
    packLen, pad := PackData(mac, local, unit, out, at);
    frame := Packed(mac, Key(local.userKey, packId), pad, unit);
    at' := at + packLen;
    PackingGrows(mac, local.userKey, id, old(out[..at]), frames, pads, done, pad, unit);
    assert out[..at'] == old(out[..at]) + frame;
    NextIs(id, |done|);
  }

  lemma NextIs(id: uint32, n: nat)
    ensures Next((id + n) % 0x1_0000_0000) == (id + n + 1) % 0x1_0000_0000
  {
  }

  /** auth_aes128_sha1_client_pre_encrypt once the header packet is sent. Twice the length plus 4096 is room enough. */
  method PreEncrypt(mac: Mac, local: Local, plaindata: seq<byte>)
    returns (result: seq<byte>, ghost frames: seq<seq<byte>>, ghost pads: seq<seq<byte>>)
    requires local.Valid()
    modifies local`packId
    ensures AllPacked(mac, local.userKey, old(local.packId), frames, pads, Chop(plaindata, UNIT_SIZE))
    ensures result == Flatten(frames) && local.packId == (old(local.packId) + |frames|) % 0x1_0000_0000
    ensures |result| <= 2 * |plaindata| + 4096
    ensures forall pieces {:trigger Flatten(pieces)} ::
              Flatten(pieces) == result ==>
                Feed(Peeler(mac, local.userKey), old(local.packId), [], pieces) == Drained(Ok, plaindata, [],
                    local.packId)
  {
    hide AllPacked, Feed, Peel, Flatten;
    ghost var id := local.packId;
    var outBuffer := new byte[|plaindata| * 2 + 4096];
    var data, buffer: nat := plaindata, 0;
    ghost var done: seq<seq<byte>>, frame, pad := [], [], [];
    frames, pads := [], [];
    NothingPacked(mac, local.userKey, id, outBuffer[..0]);
    while |data| > UNIT_SIZE
      invariant local.Valid() && local.packId == (id + |done|) % 0x1_0000_0000 && |frames| == |done|
      invariant buffer + 2 * |data| + 4096 <= outBuffer.Length && fresh(outBuffer)
      invariant Packing(mac, local.userKey, id, outBuffer[..buffer], frames, pads, done)
      invariant done + Chop(data, UNIT_SIZE) == Chop(plaindata, UNIT_SIZE)
      decreases |data|
    {
      ghost var unit := data[..UNIT_SIZE];
      Associate(done, [unit], Chop(data[UNIT_SIZE..], UNIT_SIZE));
      buffer, frame, pad := PackNext(mac, local, id, data[..UNIT_SIZE], outBuffer, buffer, frames, pads, done);
      frames, pads, done := frames + [frame], pads + [pad], done + [unit];
      data := data[UNIT_SIZE..];
    }
    if |data| > 0 {
      buffer, frame, pad := PackNext(mac, local, id, data, outBuffer, buffer, frames, pads, done);
      frames, pads, done := frames + [frame], pads + [pad], done + [data];
    }
    assert done == Chop(plaindata, UNIT_SIZE);
    result := outBuffer[..buffer];
    AlwaysRecovered(mac, local.userKey, id, plaindata, frames, pads);
  }

  lemma AlwaysRecovered(mac: Mac, userKey: seq<byte>, id: uint32, plaindata: seq<byte>, frames: seq<seq<byte>>,
      pads: seq<seq<byte>>)
    requires AllPacked(mac, userKey, id, frames, pads, Chop(plaindata, UNIT_SIZE))
    ensures forall pieces {:trigger Flatten(pieces)} ::
              Flatten(pieces) == Flatten(frames) ==>
                Feed(Peeler(mac, userKey), id, [], pieces) == Drained(Ok, plaindata, [],
                    (id + |frames|) % 0x1_0000_0000)
  {
    forall pieces: seq<seq<byte>> | Flatten(pieces) == Flatten(frames)
      ensures Feed(Peeler(mac, userKey), id, [], pieces) == Drained(Ok, plaindata, [], (id + |frames|) % 0x1_0000_0000)
    {
      PreEncryptRecovered(mac, userKey, id, plaindata, frames, pads, pieces);
    }
  }

  // ---- The receiver ----

  /** The longest frame that the sender builds. */
  const LONGEST := UNIT_SIZE + 521

  /** Pieces that leave room for one such frame always fit the receive buffer. */
  lemma PiecesFit(mac: Mac, userKey: seq<byte>, id: uint32,
                  frames: seq<seq<byte>>, pads: seq<seq<byte>>, units: seq<seq<byte>>, pieces: seq<seq<byte>>)
    requires AllPacked(mac, userKey, id, frames, pads, units)
        && forall i :: 0 <= i < |units| ==> 0 < |units[i]| <= UNIT_SIZE
    requires Flatten(pieces) <= Flatten(frames)
        && forall i :: 0 <= i < |pieces| ==> |pieces[i]| <= BUFFER_SIZE - LONGEST
    ensures Fits(Peeler(mac, userKey), id, [], pieces, BUFFER_SIZE)
  {
    hide Peel, Flatten, Packed, Key, Ids;
    PackedIsStream(mac, userKey, id, frames, pads, units);
    PeelerSteady(mac, userKey);
    NothingYet(mac, userKey);
    forall i | 0 <= i < |frames| ensures |frames[i]| <= LONGEST {
      PaddingIsShort(pads[i]);
    }
    assert [] + Flatten(pieces) == Flatten(pieces);
    SmallPiecesFit(Peeler(mac, userKey), Ids(id, |frames|), frames, units, [], id, [], pieces, BUFFER_SIZE, LONGEST);
  }

  /** One call per piece, for pieces that fit the buffer: the receiver delivers what the whole stream carries. */
  method ReceiveAll(mac: Mac, local: Local, pieces: seq<seq<byte>>) returns (status: Status, out: seq<byte>)
    requires local.Valid() && local.recv.Contents() == []
    requires Fits(Peeler(mac, local.userKey), local.recvId, [], pieces, BUFFER_SIZE)
    modifies local`recvId, local.recv, local.recv.data
    ensures local.Valid()
    ensures var d := Feed(Peeler(mac, local.userKey), old(local.recvId), [], pieces);
            status == d.status
            && (status == Ok ==> out == d.out && local.recv.Contents() == d.rest && local.recvId == d.state)
  {
    out := [];
    ghost var peel, id := Peeler(mac, local.userKey), local.recvId;
    for i := 0 to |pieces|
      invariant local.Valid()
      invariant Fits(peel, local.recvId, local.recv.Contents(), pieces[i..], BUFFER_SIZE)
      invariant Feed(peel, id, [], pieces) == Resume(out, Feed(peel, local.recvId, local.recv.Contents(), pieces[i..]))
    {
      hide Peel;
      ghost var more := pieces[i..];
      assert more[0] == pieces[i] && more[1..] == pieces[i + 1..];
      var more', payload := PostDecrypt(mac, local, pieces[i]);
      if more' != Ok {
        return more', [];
      }
      Associate(out, payload, Feed(peel, local.recvId, local.recv.Contents(), pieces[i + 1..]).out);
      out := out + payload;
    }
    status := Ok;
  }

  /** One turn of the loop of auth_aes128_sha1_client_post_decrypt. */
  method Turn(mac: Mac, local: Local) returns (p: Peeled<uint32>)
    requires local.Valid() && local.recv.size > 4
    modifies local`recvId, local.recv, local.recv.data
    ensures local.Valid() && p == Peel(mac, local.userKey, old(local.recvId), old(local.recv.Contents()))
    ensures local.recv.Contents() == Remaining(p, old(local.recv.Contents()))
    ensures local.recvId == if p.Frame? then p.next else old(local.recvId)
  {
    hide Key, Next;
    ghost var x := local.recv.Contents();
    var recv := local.recv.data;
    var key := Key(local.userKey, local.recvId);
    RangeOfPrefix(recv, local.recv.size, 0, 2);
    RangeOfPrefix(recv, local.recv.size, 2, 4);
    if mac(key, recv[0..2])[..2] != recv[2..4] {
      local.recv.Clear();
      return Bad;
    }
    var length: nat := Word(recv[1], recv[0]);
    if length >= 8192 || length < 8 {
      local.recv.Clear();
      return Bad;
    }
    if length > local.recv.size {
      return More;
    }
    RangeOfPrefix(recv, local.recv.size, 0, length - 4);
    RangeOfPrefix(recv, local.recv.size, length - 4, length);
    if mac(key, recv[0..length - 4])[..4] != recv[length - 4..length] {
      local.recv.Clear();
      return Bad;
    }
    p := TurnEnd(mac, local, length);
  }

  /** The part of the turn that delivers the payload of a frame that passed its checks. */
  method TurnEnd(mac: Mac, local: Local, length: nat) returns (p: Peeled<uint32>)
    requires local.Valid() && 8 <= length <= local.recv.size
    requires var x := local.recv.Contents(); var key := Key(local.userKey, local.recvId);
             && length == Word(x[1], x[0]) < 8192 && mac(key, x[..2])[..2] == x[2..4]
             && mac(key, x[..length - 4])[..4] == x[length - 4..length]
    modifies local`recvId, local.recv, local.recv.data
    ensures local.Valid() && p == Peel(mac, local.userKey, old(local.recvId), old(local.recv.Contents()))
    ensures local.recv.Contents() == Remaining(p, old(local.recv.Contents()))
    ensures local.recvId == if p.Frame? then p.next else old(local.recvId)
  {
    hide Key, Next;
    ghost var x := local.recv.Contents();
    var recv := local.recv.data;
    var pos := recv[4] as int;
    if pos < 255 {
      pos := pos + 4;
    } else {
      pos := Word(recv[6], recv[5]) + 4;
    }
    assert pos == PayloadStart(x);
    var dataSize := length - pos - 4;
    if dataSize < 0 {
      return Wild;
    }
    local.recvId := Next(local.recvId);
    p := Frame(length, recv[pos..pos + dataSize], local.recvId);
    RangeOfPrefix(recv, local.recv.size, pos, length - 4);
    local.recv.Consume(length);
  }

  lemma PeelInside(mac: Mac, userKey: seq<byte>, id: uint32, x: seq<byte>)
    ensures Peel(mac, userKey, id, x).Frame? ==> 0 < Peel(mac, userKey, id, x).length <= |x|
  {
  }

  lemma TooShort(mac: Mac, userKey: seq<byte>, id: uint32, x: seq<byte>)
    ensures |x| <= 4 ==> Drain(Peeler(mac, userKey), id, x) == Drained(Ok, [], x, id)
  {
  }

  /** auth_aes128_sha1_client_post_decrypt */
  method PostDecrypt(mac: Mac, local: Local, plaindata: seq<byte>) returns (status: Status, out: seq<byte>)
    requires local.Valid()
    modifies local`recvId, local.recv, local.recv.data
    ensures local.Valid()
    ensures |old(local.recv.Contents())| + |plaindata| > BUFFER_SIZE ==>
              && status == Rejected && out == [] && local.recvId == old(local.recvId)
              && local.recv.Contents() == old(local.recv.Contents())
    ensures |old(local.recv.Contents())| + |plaindata| <= BUFFER_SIZE ==>
              var d := Drain(Peeler(mac, local.userKey), old(local.recvId), old(local.recv.Contents()) + plaindata);
              && Answers(d, status, out, local.recv.Contents()) && local.recvId == d.state
  {
    hide Peel;
    out := [];
    if local.recv.size + |plaindata| > BUFFER_SIZE {
      return Rejected, [];
    }
    local.recv.Append(plaindata);
    ghost var all, id, peel := local.recv.Contents(), local.recvId, Peeler(mac, local.userKey);
    while local.recv.size > 4
      invariant local.Valid()
      invariant Drain(peel, id, all) == Resume(out, Drain(peel, local.recvId, local.recv.Contents()))
      decreases local.recv.size
    {
      ghost var x, s := local.recv.Contents(), local.recvId;
      PeelerIsPeel(mac, local.userKey, s, x);
      PeelInside(mac, local.userKey, s, x);
      var p := Turn(mac, local);
      match p
      case More => break;
      case Bad => return Rejected, [];
      case Wild => return Undefined, [];
      case Frame(n, payload, s') =>
        Associate(out, payload, Drain(peel, s', x[n..]).out);
        out := out + payload;
    }
    TooShort(mac, local.userKey, local.recvId, local.recv.Contents());
    status := Ok;
  }
}
