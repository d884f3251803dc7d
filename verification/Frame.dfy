/** The framing layer (crates/cedro-protocol/src/frame.rs): `!` and `\n` end a frame. */
module Framing {
  import opened Base
  import opened Types

  const NEWLINE: byte := 10
  const BANG: byte := 33

  datatype Frame = Frame(kind: FrameKind, payload: Bytes)

  predicate Terminates(b: byte) {
    b == NEWLINE || b == BANG
  }

  predicate Plain(s: Bytes) {
    forall i :: 0 <= i < |s| ==> !Terminates(s[i])
  }

  function KindOf(b: byte): FrameKind {
    if b == BANG then Bang else Newline
  }

  function TerminatorOf(kind: FrameKind): byte {
    if kind.Bang? then BANG else NEWLINE
  }

  /** `memchr2`: the index of the first terminator, or the length if there is none. */
  function FirstTerminator(s: Bytes): (i: nat)
    ensures i <= |s| && Plain(s[..i]) && (i < |s| ==> Terminates(s[i]))
  {
    if s == [] || Terminates(s[0]) then 0
    else
      var rest := FirstTerminator(s[1..]);
      assert s[..rest + 1] == [s[0]] + s[1..][..rest];
      rest + 1
  }

  // ----- what a byte stream means -----

  /** The complete frames of a stream, and what follows the last of them. */
  function FramesOf(s: Bytes): seq<Frame> {
    var i := FirstTerminator(s);
    if i == |s| then [] else [Frame(KindOf(s[i]), s[..i])] + FramesOf(s[i + 1..])
  }

  function TailOf(s: Bytes): (t: Bytes)
    ensures |t| <= |s|
  {
    var i := FirstTerminator(s);
    if i == |s| then s else TailOf(s[i + 1..])
  }

  function Terminated(f: Frame): Bytes {
    f.payload + [TerminatorOf(f.kind)]
  }

  function Joined(frames: seq<Frame>): Bytes {
    if frames == [] then [] else Terminated(frames[0]) + Joined(frames[1..])
  }

  ghost predicate AllPlain(frames: seq<Frame>) {
    forall i :: 0 <= i < |frames| ==> Plain(frames[i].payload)
  }

  lemma FirstUnique(s: Bytes, j: nat)
    requires j < |s| && Plain(s[..j]) && Terminates(s[j])
    ensures FirstTerminator(s) == j
  {
    var i := FirstTerminator(s);
    assert forall k :: 0 <= k < j ==> s[..j][k] == s[k];
    assert forall k :: 0 <= k < i ==> s[..i][k] == s[k];
  }

  lemma FirstOfTerminated(f: Frame, rest: Bytes)
    requires Plain(f.payload)
    ensures FirstTerminator(Terminated(f) + rest) == |f.payload|
    ensures (Terminated(f) + rest)[..|f.payload|] == f.payload
    ensures (Terminated(f) + rest)[|f.payload| + 1..] == rest
    ensures KindOf((Terminated(f) + rest)[|f.payload|]) == f.kind
  {
    hide FirstTerminator;
    var s := Terminated(f) + rest;
    assert s[..|f.payload|] == f.payload;
    assert s[|f.payload|] == TerminatorOf(f.kind);
    FirstUnique(s, |f.payload|);
  }

  /** Splitting inverts joining: each frame comes out once, in order, with its kind. */
  lemma {:induction false} SplitInvertsJoin(frames: seq<Frame>, tail: Bytes)
    requires AllPlain(frames) && Plain(tail)
    ensures FramesOf(Joined(frames) + tail) == frames && TailOf(Joined(frames) + tail) == tail
  {
    hide FirstTerminator, Plain, KindOf, Terminated;
    if frames == [] {
      assert Joined(frames) + tail == tail;
      PlainHasNone(tail);
    } else {
      var rest := Joined(frames[1..]) + tail;
      assert Joined(frames) + tail == Terminated(frames[0]) + rest;
      FirstOfTerminated(frames[0], rest);
      SplitInvertsJoin(frames[1..], tail);
      assert |Terminated(frames[0]) + rest| > |frames[0].payload| by { TerminatedLength(frames[0]); }
    }
  }

  lemma PlainHasNone(s: Bytes)
    requires Plain(s)
    ensures FirstTerminator(s) == |s|
  {
    hide FirstTerminator;
  }

  lemma TerminatedLength(f: Frame)
    ensures |Terminated(f)| == |f.payload| + 1
  {}

  lemma KindRemembers(b: byte)
    requires Terminates(b)
    ensures TerminatorOf(KindOf(b)) == b
  {}

  lemma CutAt(s: Bytes, i: nat)
    requires i < |s|
    ensures s == s[..i] + [s[i]] + s[i + 1..]
  {}

  /** One step of the split puts the stream back together. */
  lemma FirstStep(s: Bytes, i: nat)
    requires i == FirstTerminator(s)
    ensures i == |s| ==> Plain(s)
    ensures i < |s| ==> Plain(s[..i]) && s == Terminated(Frame(KindOf(s[i]), s[..i])) + s[i + 1..]
  {
    hide FirstTerminator, Plain, Terminates, KindOf, TerminatorOf;
    if i < |s| {
      KindRemembers(s[i]);
      CutAt(s, i);
    } else {
      assert s[..i] == s;
    }
  }

  lemma JoinedCons(f: Frame, frames: seq<Frame>)
    ensures Joined([f] + frames) == Terminated(f) + Joined(frames)
  {
    hide Terminated;
    assert ([f] + frames)[1..] == frames;
  }

  lemma Associates(a: Bytes, b: Bytes, c: Bytes)
    ensures a + (b + c) == a + b + c
  {}

  /** Joining inverts splitting: no byte is lost, and no frame contains a terminator. */
  lemma {:induction false} JoinInvertsSplit(s: Bytes)
    ensures Joined(FramesOf(s)) + TailOf(s) == s
    ensures AllPlain(FramesOf(s)) && Plain(TailOf(s))
    decreases |s|
  {
    hide FirstTerminator, Plain, KindOf, Terminated, Joined;
    var i := FirstTerminator(s);
    FirstStep(s, i);
    JoinedNothing(s);
    if i < |s| {
      var rest, f := s[i + 1..], Frame(KindOf(s[i]), s[..i]);
      JoinInvertsSplit(rest);
      assert FramesOf(s) == [f] + FramesOf(rest);
      JoinedCons(f, FramesOf(rest));
      Associates(Terminated(f), Joined(FramesOf(rest)), TailOf(rest));
    }
  }

  lemma JoinedNothing(s: Bytes)
    ensures Joined([]) + s == s
  {}

  lemma {:induction false} JoinedConcat(a: seq<Frame>, b: seq<Frame>)
    ensures Joined(a + b) == Joined(a) + Joined(b)
  {
    hide Terminated;
    if a == [] {
      assert a + b == b;
    } else {
      JoinedConcat(a[1..], b);
      assert a + b == [a[0]] + (a[1..] + b);
      JoinedCons(a[0], a[1..] + b);
      Associates(Terminated(a[0]), Joined(a[1..]), Joined(b));
    }
  }

  /** The frames of a stream read in two pieces do not depend on where it was cut. */
  lemma FramesOfPieces(a: Bytes, b: Bytes)
    ensures FramesOf(a + b) == FramesOf(a) + FramesOf(TailOf(a) + b)
    ensures TailOf(a + b) == TailOf(TailOf(a) + b)
  {
    hide FramesOf, TailOf, Joined, Plain;
    JoinInvertsSplit(a);
    var rest := TailOf(a) + b;
    JoinInvertsSplit(rest);
    var frames := FramesOf(a) + FramesOf(rest);
    JoinedConcat(FramesOf(a), FramesOf(rest));
    assert a + b == Joined(FramesOf(a)) + rest == Joined(frames) + TailOf(rest);
    SplitInvertsJoin(frames, TailOf(rest));
  }

  /** A payload sent with its terminator, `!` or a newline, arrives as that one frame exactly when it
      holds neither of them itself. */
  lemma OneFrameIff(f: Frame)
    ensures FramesOf(Terminated(f)) == [f] <==> Plain(f.payload)
    ensures Terminated(f) == f.payload + [if f.kind.Bang? then 33 else 10]
    ensures Plain(f.payload) <==> forall i :: 0 <= i < |f.payload| ==> f.payload[i] != 10 && f.payload[i] != 33
  {
    if Plain(f.payload) {
      SplitInvertsJoin([f], []);
      assert [f][1..] == [];
      assert Joined([f]) + [] == Terminated(f);
    } else {
      JoinInvertsSplit(Terminated(f));
      assert [f][0] == f;
    }
  }

  // ----- the splitter -----

  class FrameSplitter {
    var buf: Bytes

    constructor ()
      ensures buf == []
    {
      buf := [];
    }

    method ExtendFromSlice(src: Bytes)
      modifies this
      ensures buf == old(buf) + src
    {
      buf := buf + src;
    }

    method NextFrame() returns (r: Option<Frame>)
      modifies this
      ensures r.None? ==> FramesOf(old(buf)) == [] && buf == old(buf) == TailOf(old(buf))
      ensures r.Some? ==>
        FramesOf(old(buf)) == [r.value] + FramesOf(buf) && TailOf(old(buf)) == TailOf(buf) && |buf| < |old(buf)|
    {
      if |buf| == 0 {
        return None;
      }
      var idx := FirstTerminator(buf);
      if idx == |buf| {
        return None;
      }
      var kind := if buf[idx] == BANG then Bang else Newline;
      var frame := buf[..idx + 1];
      buf := buf[idx + 1..];
      frame := frame[..idx];
      assert frame == old(buf)[..idx];
      r := Some(Frame(kind, frame));
    }

    /** The frames handed to the closure, in call order. */
    method Drain() returns (calls: seq<Frame>)
      modifies this
      ensures calls == FramesOf(old(buf)) && buf == TailOf(old(buf))
    {
      hide FramesOf, TailOf;
      calls := [];
      var next := NextFrame();
      while next.Some?
        invariant FramesOf(old(buf)) == calls + (if next.Some? then [next.value] + FramesOf(buf) else [])
        invariant TailOf(old(buf)) == TailOf(buf)
        invariant next.None? ==> buf == TailOf(buf)
        decreases next.Some?, |buf|
      {
        calls := calls + [next.value];
        next := NextFrame();
      }
    }
  }
}
