/** Reassembly of frames from a byte stream that arrives in arbitrary pieces.
    A receiver is a function that looks at the bytes it holds and peels off one frame, asks for more, or gives up. */
module Framing {
  import opened Bits
  import opened Sequences

  datatype Peeled<S> =
    | More                                              // no complete frame yet
    | Bad                                               // the receiver rejects the stream
    | Wild                                              // the C code would copy a negative number of bytes
    | Frame(length: nat, payload: seq<byte>, next: S)

  datatype Status = Ok | Rejected | Undefined

  /** Where a receiver stands: its verdict, what it delivered, the bytes it keeps and its counters. */
  datatype Drained<S> = Drained(status: Status, out: seq<byte>, rest: seq<byte>, state: S)

  /** Peels off frames until the receiver asks for more or gives up. */
  function Drain<S>(peel: (S, seq<byte>) -> Peeled<S>, s: S, x: seq<byte>): Drained<S>
    decreases |x|
  {
    match peel(s, x)
    case More => Drained(Ok, [], x, s)
    case Bad => Drained(Rejected, [], x, s)
    case Wild => Drained(Undefined, [], x, s)
    case Frame(n, p, s') =>
      if 0 < n <= |x| then
        var d := Drain(peel, s', x[n..]);
        d.(out := p + d.out)
      else Drained(Undefined, [], x, s)
  }

  /** One receiving call per piece, until one of them fails. */
  function Feed<S>(peel: (S, seq<byte>) -> Peeled<S>, s: S, rest: seq<byte>, pieces: seq<seq<byte>>): Drained<S>
    decreases |pieces|
  {
    if pieces == [] then Drained(Ok, [], rest, s)
    else
      var d := Drain(peel, s, rest + pieces[0]);
      if d.status != Ok then d
      else
        var e := Feed(peel, d.state, d.rest, pieces[1..]);
        e.(out := d.out + e.out)
  }

  function Flatten(pieces: seq<seq<byte>>): seq<byte> {
    if pieces == [] then [] else pieces[0] + Flatten(pieces[1..])
  }

  lemma {:induction false} FlattenConcat(a: seq<seq<byte>>, b: seq<seq<byte>>)
    ensures Flatten(a + b) == Flatten(a) + Flatten(b)
  {
    if a == [] {
      assert a + b == b;
    } else {
      assert (a + b)[1..] == a[1..] + b;
      FlattenConcat(a[1..], b);
      Associate(a[0], Flatten(a[1..]), Flatten(b));
    }
  }

  /** What was delivered before, and what a drain delivers from there on. */
  ghost function Resume<S>(out: seq<byte>, d: Drained<S>): Drained<S> {
    d.(out := out + d.out)
  }

  lemma ResumeTwice<S>(a: seq<byte>, b: seq<byte>, d: Drained<S>)
    ensures Resume(a, Resume(b, d)) == Resume(a + b, d) && Resume([], d) == d
  {
    Associate(a, b, d.out);
  }

  lemma ResumeEnd<S>(a: seq<byte>, x: seq<byte>, s: S)
    ensures Resume(a, Drained(Ok, [], x, s)) == Drained(Ok, a, x, s)
  {
    assert a + [] == a;
  }

  lemma ResumeStatus<S>(a: seq<byte>, d: Drained<S>)
    ensures Resume(a, d).status == d.status && Resume(a, d).rest == d.rest
  {
  }

  // ---- The pieces do not matter ----

  /** A decision does not change when more bytes follow. */
  ghost predicate Steady<S(!new)>(peel: (S, seq<byte>) -> Peeled<S>) {
    && (forall s, x, y :: !peel(s, x).More? ==> peel(s, x + y) == peel(s, x))
    && (forall s, x :: peel(s, x).Frame? ==> 0 < peel(s, x).length <= |x|)
  }

  lemma {:induction false} DrainedWantsMore<S>(peel: (S, seq<byte>) -> Peeled<S>, s: S, x: seq<byte>)
    requires Drain(peel, s, x).status == Ok
    ensures peel(Drain(peel, s, x).state, Drain(peel, s, x).rest).More?
    decreases |x|
  {
    if peel(s, x).Frame? {
      DrainedWantsMore(peel, peel(s, x).next, x[peel(s, x).length..]);
    }
  }

  /** Draining in two instalments is draining at once. */
  lemma {:induction false} DrainInTwo<S(!new)>(peel: (S, seq<byte>) -> Peeled<S>, s: S, x: seq<byte>, y: seq<byte>)
    requires Steady(peel) && Drain(peel, s, x).status == Ok
    ensures var d := Drain(peel, s, x);
            var e := Drain(peel, d.state, d.rest + y);
            Drain(peel, s, x + y) == e.(out := d.out + e.out)
    decreases |x|
  {
    match peel(s, x)
    case More =>
      var e := Drain(peel, s, x + y);
      assert [] + e.out == e.out;
    case Frame(n, p, s') =>
      assert peel(s, x + y) == peel(s, x);
      DrainInTwo(peel, s', x[n..], y);
      assert (x + y)[n..] == x[n..] + y;
      var d := Drain(peel, s', x[n..]);
      Associate(p, d.out, Drain(peel, d.state, d.rest + y).out);
  }

  lemma {:induction false} FailureStays<S(!new)>(peel: (S, seq<byte>) -> Peeled<S>, s: S, x: seq<byte>, y: seq<byte>)
    requires Steady(peel) && Drain(peel, s, x).status != Ok
    ensures Drain(peel, s, x + y).status == Drain(peel, s, x).status
    decreases |x|
  {
    assert peel(s, x + y) == peel(s, x);
    if peel(s, x).Frame? {
      var n := peel(s, x).length;
      FailureStays(peel, peel(s, x).next, x[n..], y);
      assert (x + y)[n..] == x[n..] + y;
    }
  }

  /** For every byte stream and every way of cutting it, the receiver ends where it would with the whole stream. */
  lemma {:induction false} PiecesDoNotMatter<S(!new)>(peel: (S, seq<byte>) -> Peeled<S>, s: S,
      rest: seq<byte>, pieces: seq<seq<byte>>)
    requires Steady(peel) && peel(s, rest).More?
    ensures var whole := Drain(peel, s, rest + Flatten(pieces));
            var fed := Feed(peel, s, rest, pieces);
            fed.status == whole.status && (whole.status == Ok ==> fed == whole)
    decreases |pieces|
  {
    if pieces == [] {
      assert rest + Flatten(pieces) == rest;
    } else {
      var x, y := rest + pieces[0], Flatten(pieces[1..]);
      assert rest + Flatten(pieces) == x + y;
      if Drain(peel, s, x).status == Ok {
        var d := Drain(peel, s, x);
        DrainInTwo(peel, s, x, y);
        DrainedWantsMore(peel, s, x);
        PiecesDoNotMatter(peel, d.state, d.rest, pieces[1..]);
      } else {
        FailureStays(peel, s, x, y);
      }
    }
  }

  // ---- When a receiver gives up ----

  /** A frame is decided by its own bytes. */
  ghost predicate SelfContained<S(!new)>(peel: (S, seq<byte>) -> Peeled<S>) {
    forall s, x :: OwnBytes(peel, s, x)
  }

  ghost predicate OwnBytes<S>(peel: (S, seq<byte>) -> Peeled<S>, s: S, x: seq<byte>) {
    peel(s, x).Frame? && peel(s, x).length <= |x| ==> peel(s, x[..peel(s, x).length]) == peel(s, x)
  }

  /** `frames` are taken one after the other, and the counter goes from `s` to `s'`. */
  ghost predicate Taken<S>(peel: (S, seq<byte>) -> Peeled<S>, s: S, frames: seq<seq<byte>>, s': S)
    decreases |frames|
  {
    if frames == [] then s' == s
    else
      var p := peel(s, frames[0]);
      p.Frame? && p.length == |frames[0]| && Taken(peel, p.next, frames[1..], s')
  }

  /** Where a receiver stops, it stops with this status. */
  ghost predicate StopsWith<S>(p: Peeled<S>, status: Status) {
    (status == Undefined && p.Wild?) || (status == Rejected && p.Bad?)
  }

  /** A drain that does not end well has taken some frames, and what follows stops it. */
  lemma {:induction false} StopsAfter<S(!new)>(peel: (S, seq<byte>) -> Peeled<S>, s: S, x: seq<byte>)
    returns (frames: seq<seq<byte>>, z: seq<byte>, s': S)
    requires Steady(peel) && SelfContained(peel) && Drain(peel, s, x).status != Ok
    ensures Taken(peel, s, frames, s') && x == Flatten(frames) + z && StopsWith(peel(s', z), Drain(peel, s, x).status)
    decreases |x|
  {
    if !peel(s, x).Frame? {
      frames, z, s' := [], x, s;
      assert [] + x == x;
    } else {
      var p := peel(s, x);
      frames, z, s' := StopsAfter(peel, p.next, x[p.length..]);
      assert OwnBytes(peel, s, x);
      var f := x[..p.length];
      assert ([f] + frames)[1..] == frames;
      Associate(f, Flatten(frames), z);
      assert x == f + x[p.length..];
      frames := [f] + frames;
    }
  }

  lemma Decided<S(!new)>(peel: (S, seq<byte>) -> Peeled<S>, s: S, x: seq<byte>, y: seq<byte>)
    requires Steady(peel) && !peel(s, x).More?
    ensures peel(s, x + y) == peel(s, x)
  {
  }

  /** And such bytes always stop a drain. */
  lemma {:induction false} StopEnds<S(!new)>(peel: (S, seq<byte>) -> Peeled<S>, s: S, frames: seq<seq<byte>>,
      z: seq<byte>, s': S, status: Status)
    requires Steady(peel) && Taken(peel, s, frames, s') && StopsWith(peel(s', z), status)
    ensures Drain(peel, s, Flatten(frames) + z).status == status
    decreases |frames|
  {
    if frames == [] {
      assert [] + z == z;
    } else {
      var f, p := frames[0], peel(s, frames[0]);
      var y := Flatten(frames[1..]) + z;
      Associate(f, Flatten(frames[1..]), z);
      Decided(peel, s, f, y);
      assert (f + y)[|f|..] == y;
      StopEnds(peel, p.next, frames[1..], z, s', status);
    }
  }

  /** `broken` tells the complete frames that make the receiver copy a negative size. */
  ghost predicate Breaks<S(!new)>(peel: (S, seq<byte>) -> Peeled<S>, broken: (S, seq<byte>) -> bool) {
    forall s, x :: BreaksAt(peel, broken, s, x)
  }

  ghost predicate BreaksAt<S>(peel: (S, seq<byte>) -> Peeled<S>, broken: (S, seq<byte>) -> bool, s: S, x: seq<byte>) {
    && (broken(s, x) ==> peel(s, x).Wild?)
    && (peel(s, x).Wild? ==> exists n: nat :: n <= |x| && broken(s, x[..n]))
  }

  /** Over every stream, however it arrives: a receiver that ends undefined has met a broken frame behind frames that it
      took. */
  lemma BrokenBehind<S(!new)>(peel: (S, seq<byte>) -> Peeled<S>, broken: (S, seq<byte>) -> bool, s: S,
      pieces: seq<seq<byte>>)
    returns (frames: seq<seq<byte>>, w: seq<byte>, s': S)
    requires Steady(peel) && SelfContained(peel) && Breaks(peel, broken) && peel(s, []).More?
    requires Feed(peel, s, [], pieces).status == Undefined
    ensures Taken(peel, s, frames, s') && broken(s', w) && Flatten(frames) + w <= Flatten(pieces)
  {
    var x := Flatten(pieces);
    PiecesDoNotMatter(peel, s, [], pieces);
    assert [] + x == x;
    var y;
    frames, y, s' := StopsAfter(peel, s, x);
    assert BreaksAt(peel, broken, s', y);
    var n: nat :| n <= |y| && broken(s', y[..n]);
    w := y[..n];
    assert y == w + y[n..];
  }

  /** And a broken frame behind frames that it takes always ends it undefined. */
  lemma BrokenEndsIt<S(!new)>(peel: (S, seq<byte>) -> Peeled<S>, s: S, pieces: seq<seq<byte>>,
                             frames: seq<seq<byte>>, w: seq<byte>, s': S)
    requires Steady(peel) && peel(s, []).More?
    requires Taken(peel, s, frames, s') && peel(s', w).Wild? && Flatten(frames) + w <= Flatten(pieces)
    ensures Feed(peel, s, [], pieces).status == Undefined
  {
    var x := Flatten(pieces);
    PiecesDoNotMatter(peel, s, [], pieces);
    assert [] + x == x;
    var z := x[|Flatten(frames) + w|..];
    Associate(Flatten(frames), w, z);
    assert x == Flatten(frames) + (w + z);
    Decided(peel, s', w, z);
    StopEnds(peel, s, frames, w + z, s', Undefined);
  }

  /** Behind frames that the receiver takes stand bytes that `refused` tells, up to the end. */
  ghost predicate HoldsRefused<S(!new)>(peel: (S, seq<byte>) -> Peeled<S>, refused: (S, seq<byte>) -> bool, s: S,
      x: seq<byte>) {
    exists frames, z, s' :: Taken(peel, s, frames, s') && refused(s', z) && x == Flatten(frames) + z
  }

  /** Over every stream, however it arrives: it is rejected exactly when the bytes behind some frames that are taken are
      refused. */
  lemma RejectedExactly<S(!new)>(peel: (S, seq<byte>) -> Peeled<S>, refused: (S, seq<byte>) -> bool, s: S,
      pieces: seq<seq<byte>>)
    requires Steady(peel) && SelfContained(peel) && peel(s, []).More?
    requires forall s, x :: peel(s, x).Bad? <==> refused(s, x)
    ensures Feed(peel, s, [], pieces).status == Rejected <==> HoldsRefused(peel, refused, s, Flatten(pieces))
  {
    hide Taken, Drain, Feed, Flatten, Steady, SelfContained;
    var x := Flatten(pieces);
    PiecesDoNotMatter(peel, s, [], pieces);
    assert [] + x == x;
    if Drain(peel, s, x).status == Rejected {
      var frames, z, s' := StopsAfter(peel, s, x);
      assert refused(s', z);
    }
    if HoldsRefused(peel, refused, s, x) {
      var frames, z, s' :| Taken(peel, s, frames, s') && refused(s', z) && x == Flatten(frames) + z;
      StopEnds(peel, s, frames, z, s', Rejected);
    }
  }

  // ---- A stream of frames ----

  /** `f` is a frame for payload `p`. A frame without payload may be noticed only when a byte follows it. */
  ghost predicate Carries<S>(peel: (S, seq<byte>) -> Peeled<S>, s: S, f: seq<byte>, p: seq<byte>, s': S) {
    && f != []
    && (forall z :: z != [] ==> peel(s, f + z) == Frame(|f|, p, s'))
    && (peel(s, f) == Frame(|f|, p, s') || (peel(s, f) == More && p == [] && s' == s))
    && (forall k :: 0 <= k < |f| ==> peel(s, f[..k]) == More)
  }

  /** `frames` carry `payloads`, and the counters go through `states`. */
  ghost predicate Stream<S>(peel: (S, seq<byte>) -> Peeled<S>, states: seq<S>, frames: seq<seq<byte>>,
      payloads: seq<seq<byte>>) {
    && |states| == |frames| + 1 && |payloads| == |frames|
    && forall i :: 0 <= i < |frames| ==> Carries(peel, states[i], frames[i], payloads[i], states[i + 1])
  }

  /** The first `n` frames are delivered, and the receiver holds less than one more, or one without payload. */
  ghost predicate Holds<S>(d: Drained<S>, states: seq<S>, frames: seq<seq<byte>>, payloads: seq<seq<byte>>, n: nat)
    requires |states| == |frames| + 1 && |payloads| == |frames| && n <= |frames|
  {
    && d.status == Ok && d.out == Flatten(payloads[..n]) && d.state == states[n]
    && (d.rest == [] || (n < |frames| && d.rest <= frames[n] && (d.rest == frames[n] ==> payloads[n] == [])))
  }

  lemma StreamTail<S>(peel: (S, seq<byte>) -> Peeled<S>, states: seq<S>, frames: seq<seq<byte>>,
      payloads: seq<seq<byte>>)
    requires Stream(peel, states, frames, payloads) && frames != []
    ensures Stream(peel, states[1..], frames[1..], payloads[1..])
    ensures Carries(peel, states[0], frames[0], payloads[0], states[1])
  {
    forall i | 0 <= i < |frames[1..]|
      ensures Carries(peel, states[1..][i], frames[1..][i], payloads[1..][i], states[1..][i + 1])
    {
      assert Carries(peel, states[i + 1], frames[i + 1], payloads[i + 1], states[i + 2]);
    }
  }

  lemma HoldsNone<S>(peel: (S, seq<byte>) -> Peeled<S>, states: seq<S>, frames: seq<seq<byte>>,
      payloads: seq<seq<byte>>, z: seq<byte>)
    requires |states| == |frames| + 1 && |payloads| == |frames|
    requires peel(states[0], z) == More
    requires z == [] || (frames != [] && z <= frames[0] && (z == frames[0] ==> payloads[0] == []))
    ensures Holds(Drain(peel, states[0], z), states, frames, payloads, 0)
  {
    assert payloads[..0] == [];
  }

  /** Any prefix of a stream: every complete frame is delivered, but for one without payload that may still be kept. */
  lemma {:induction false} PrefixDelivered<S>(peel: (S, seq<byte>) -> Peeled<S>, states: seq<S>,
                                             frames: seq<seq<byte>>, payloads: seq<seq<byte>>, z: seq<byte>)
    returns (n: nat)
    requires Stream(peel, states, frames, payloads) && z <= Flatten(frames) && peel(states[0], []) == More
    requires forall i :: 0 <= i < |states| ==> peel(states[i], []) == More
    ensures n <= |frames| && Holds(Drain(peel, states[0], z), states, frames, payloads, n)
    ensures |z| == |Flatten(frames)| ==>
              n == |frames| || (n == |frames| - 1 && payloads[n] == [] && Drain(peel, states[0], z).rest == frames[n])
    decreases |frames|
  {
    if frames == [] {
      n := 0;
      HoldsNone(peel, states, frames, payloads, z);
    } else {
      StreamTail(peel, states, frames, payloads);
      var f, p := frames[0], payloads[0];
      if |z| < |f| {
        n := 0;
        assert z == f[..|z|];
        HoldsNone(peel, states, frames, payloads, z);
      } else {
        var y := z[|f|..];
        assert z == f + y && y <= Flatten(frames[1..]);
        if y == [] && peel(states[0], f) == More {
          n := 0;
          assert z == f;
          HoldsNone(peel, states, frames, payloads, z);
          if frames[1..] != [] {
            SomeFrames(peel, states[1..], frames[1..], payloads[1..]);
          }
        } else {
          if y == [] {
            assert f + y == f;
          }
          assert peel(states[0], z) == Frame(|f|, p, states[1]);
          var m := PrefixDelivered(peel, states[1..], frames[1..], payloads[1..], y);
          n := m + 1;
          OneMore(peel, states, frames, payloads, z, m);
        }
      }
    }
  }

  lemma SomeFrames<S>(peel: (S, seq<byte>) -> Peeled<S>, states: seq<S>, frames: seq<seq<byte>>,
      payloads: seq<seq<byte>>)
    requires Stream(peel, states, frames, payloads) && frames != []
    ensures Flatten(frames) != []
  {
    assert Carries(peel, states[0], frames[0], payloads[0], states[1]);
  }

  lemma OneMore<S>(peel: (S, seq<byte>) -> Peeled<S>, states: seq<S>, frames: seq<seq<byte>>, payloads: seq<seq<byte>>,
                   z: seq<byte>, m: nat)
    requires |states| == |frames| + 1 && |payloads| == |frames| && frames != [] && m < |frames|
    requires 0 < |frames[0]| <= |z| && peel(states[0], z) == Frame(|frames[0]|, payloads[0], states[1])
    requires Holds(Drain(peel, states[1], z[|frames[0]|..]), states[1..], frames[1..], payloads[1..], m)
    ensures Holds(Drain(peel, states[0], z), states, frames, payloads, m + 1)
  {
    assert payloads[..m + 1] == [payloads[0]] + payloads[1..][..m];
    assert (payloads[..m + 1])[1..] == payloads[1..][..m];
  }

  lemma LastEmpty(payloads: seq<seq<byte>>, n: nat)
    requires n == |payloads| || (n + 1 == |payloads| && payloads[n] == [])
    ensures Flatten(payloads[..n]) == Flatten(payloads)
  {
    if n == |payloads| {
      assert payloads[..n] == payloads;
    } else {
      assert payloads == payloads[..n] + [payloads[n]];
      FlattenConcat(payloads[..n], [payloads[n]]);
      assert Flatten([payloads[n]]) == [];
    }
  }

  /** All frames of a stream at once. */
  lemma WholeStream<S>(peel: (S, seq<byte>) -> Peeled<S>, states: seq<S>,
                       frames: seq<seq<byte>>, payloads: seq<seq<byte>>)
    requires Stream(peel, states, frames, payloads)
    requires forall i :: 0 <= i < |states| ==> peel(states[i], []) == More
    ensures var d := Drain(peel, states[0], Flatten(frames));
            && d.status == Ok && d.out == Flatten(payloads)
            && ((d.rest == [] && d.state == states[|frames|])
                || (frames != [] && d.rest == frames[|frames| - 1] && payloads[|frames| - 1] == []
                    && d.state == states[|frames| - 1] && peel(d.state, d.rest).More?))
  {
    var n := PrefixDelivered(peel, states, frames, payloads, Flatten(frames));
    hide Drain, Carries, Flatten;
    LastEmpty(payloads, n);
    DrainedWantsMore(peel, states[0], Flatten(frames));
  }

  lemma {:induction false} StreamTaken<S>(peel: (S, seq<byte>) -> Peeled<S>, states: seq<S>, frames: seq<seq<byte>>,
      payloads: seq<seq<byte>>)
    requires Stream(peel, states, frames, payloads)
    requires forall i :: 0 <= i < |frames| ==> peel(states[i], frames[i]).Frame?
    ensures Taken(peel, states[0], frames, states[|frames|])
    decreases |frames|
  {
    if frames != [] {
      StreamTail(peel, states, frames, payloads);
      StreamTaken(peel, states[1..], frames[1..], payloads[1..]);
      assert Carries(peel, states[0], frames[0], payloads[0], states[1]);
    }
  }

  /** A stream of frames with something behind it that the receiver refuses by then is rejected, however it arrives. */
  lemma StreamThenBad<S(!new)>(peel: (S, seq<byte>) -> Peeled<S>, states: seq<S>, frames: seq<seq<byte>>,
      payloads: seq<seq<byte>>, w: seq<byte>, pieces: seq<seq<byte>>)
    requires Steady(peel) && Stream(peel, states, frames, payloads) && peel(states[0], []).More?
    requires forall i :: 0 <= i < |frames| ==> peel(states[i], frames[i]).Frame?
    requires peel(states[|frames|], w).Bad? && Flatten(pieces) == Flatten(frames) + w
    ensures Feed(peel, states[0], [], pieces).status == Rejected
  {
    hide Carries, Taken, Drain, Feed, Flatten;
    StreamTaken(peel, states, frames, payloads);
    PiecesDoNotMatter(peel, states[0], [], pieces);
    assert [] + Flatten(pieces) == Flatten(pieces);
    StopEnds(peel, states[0], frames, w, states[|frames|], Rejected);
  }

  /** A whole stream, however it is cut, delivers exactly its payloads. */
  lemma StreamDelivered<S(!new)>(peel: (S, seq<byte>) -> Peeled<S>, states: seq<S>,
                                frames: seq<seq<byte>>, payloads: seq<seq<byte>>, pieces: seq<seq<byte>>)
    requires Steady(peel) && Stream(peel, states, frames, payloads) && Flatten(pieces) == Flatten(frames)
    requires forall i :: 0 <= i < |states| ==> peel(states[i], []) == More
    ensures var d := Feed(peel, states[0], [], pieces);
            && d.status == Ok && d.out == Flatten(payloads)
            && ((d.rest == [] && d.state == states[|frames|])
                || (frames != [] && d.rest == frames[|frames| - 1] && payloads[|frames| - 1] == []
                    && d.state == states[|frames| - 1] && peel(d.state, d.rest).More?))
  {
    PiecesDoNotMatter(peel, states[0], [], pieces);
    WholeStream(peel, states, frames, payloads);
    assert [] + Flatten(pieces) == Flatten(frames);
  }

  /** The states of a receiver without a counter. */
  function Zeros(n: nat): seq<uint32> {
    seq(n, _ => 0)
  }

  /** Where the parts of a frame are once more bytes follow it. */
  lemma Layout(head: seq<byte>, pad: seq<byte>, data: seq<byte>, tail: seq<byte>, z: seq<byte>)
    ensures var f := head + pad + data + tail;
            var x := f + z;
            && x[..|f|] == f
            && (forall i :: 0 <= i < |pad| ==> x[|head| + i] == pad[i])
            && x[|head| + |pad|..|f| - |tail|] == data
            && x[|f| - |tail|..|f|] == tail
  {
  }

  lemma PrefixOfConcat(x: seq<byte>, y: seq<byte>, n: nat)
    requires n <= |x|
    ensures (x + y)[..n] == x[..n] && forall i, j :: 0 <= i <= j <= |x| ==> (x + y)[i..j] == x[i..j]
  {
  }

  // ---- Cutting a payload into units ----

  /** The units that the pre_encrypt loops pack: full units, then a non-empty rest. */
  function Chop(data: seq<byte>, unit: nat): (r: seq<seq<byte>>)
    requires unit > 0
    ensures forall i :: 0 <= i < |r| ==> 0 < |r[i]| <= unit
    decreases |data|
  {
    if |data| > unit then [data[..unit]] + Chop(data[unit..], unit)
    else if |data| > 0 then [data]
    else []
  }

  lemma {:induction false} ChopLosesNothing(data: seq<byte>, unit: nat)
    requires unit > 0
    ensures Flatten(Chop(data, unit)) == data
    decreases |data|
  {
    if |data| > unit {
      ChopLosesNothing(data[unit..], unit);
      assert data == data[..unit] + data[unit..];
    } else if |data| > 0 {
      assert [data][1..] == [];
    }
  }

  /** Every piece fits into the room that the receive buffer has left when it arrives. */
  ghost predicate Fits<S>(peel: (S, seq<byte>) -> Peeled<S>, s: S, rest: seq<byte>, pieces: seq<seq<byte>>, size: nat)
    decreases |pieces|
  {
    pieces == [] ||
    (|rest| + |pieces[0]| <= size &&
     var d := Drain(peel, s, rest + pieces[0]);
     d.status == Ok ==> Fits(peel, d.state, d.rest, pieces[1..], size))
  }

  /** Where a receiver stands that was fed the bytes `received`. */
  ghost predicate Received<S>(peel: (S, seq<byte>) -> Peeled<S>, s0: S, received: seq<byte>, s: S, rest: seq<byte>) {
    var d := Drain(peel, s0, received);
    d.status == Ok && d.state == s && d.rest == rest
  }

  /** Pieces that leave room for the longest frame of a stream always fit. */
  lemma {:induction false} SmallPiecesFit<S(!new)>(peel: (S, seq<byte>) -> Peeled<S>, states: seq<S>,
      frames: seq<seq<byte>>, payloads: seq<seq<byte>>, received: seq<byte>, s: S, rest: seq<byte>,
      pieces: seq<seq<byte>>, size: nat, longest: nat)
    requires Steady(peel) && Stream(peel, states, frames, payloads) && received + Flatten(pieces) <= Flatten(frames)
    requires forall i :: 0 <= i < |states| ==> peel(states[i], []) == More
    requires forall i :: 0 <= i < |frames| ==> |frames[i]| <= longest
    requires forall i :: 0 <= i < |pieces| ==> |pieces[i]| + longest <= size
    requires Received(peel, states[0], received, s, rest)
    ensures Fits(peel, s, rest, pieces, size)
    decreases |pieces|
  {
    hide Stream, Steady, Flatten, Drain;
    StreamStarts(peel, states, frames, payloads);
    if pieces != [] {
      var x := received + pieces[0];
      FlattenFirst(pieces);
      Associate(received, pieces[0], Flatten(pieces[1..]));
      Restful(peel, states, frames, payloads, received, longest);
      Restful(peel, states, frames, payloads, x, longest);
      DrainInTwo(peel, states[0], received, pieces[0]);
      var d := Drain(peel, s, rest + pieces[0]);
      SmallPiecesFit(peel, states, frames, payloads, x, d.state, d.rest, pieces[1..], size, longest);
    }
  }

  lemma FlattenFirst(pieces: seq<seq<byte>>)
    requires pieces != []
    ensures Flatten(pieces) == pieces[0] + Flatten(pieces[1..])
  {
  }

  /** After any part of a stream no more than one frame is kept. */
  lemma Restful<S(!new)>(peel: (S, seq<byte>) -> Peeled<S>, states: seq<S>, frames: seq<seq<byte>>,
      payloads: seq<seq<byte>>, received: seq<byte>, longest: nat)
    requires Stream(peel, states, frames, payloads) && received <= Flatten(frames)
    requires forall i :: 0 <= i < |states| ==> peel(states[i], []) == More
    requires forall i :: 0 <= i < |frames| ==> |frames[i]| <= longest
    ensures var d := Drain(peel, states[0], received); d.status == Ok && |d.rest| <= longest
  {
    hide Drain, Flatten;
    StreamStarts(peel, states, frames, payloads);
    var n := PrefixDelivered(peel, states, frames, payloads, received);
  }

  lemma StreamStarts<S>(peel: (S, seq<byte>) -> Peeled<S>, states: seq<S>, frames: seq<seq<byte>>,
      payloads: seq<seq<byte>>)
    requires Stream(peel, states, frames, payloads)
    ensures |states| == |frames| + 1
  {
  }
}
