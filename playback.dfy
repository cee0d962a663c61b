/** The player: loads N_FRAMES frames once, then shows them in order and
    wraps around to the first frame after the last one. */
module Playback {
  import opened Config
  import opened Frames

  /** An image after loading and downsizing: its size and its pixel accessor. */
  datatype Image = Image(pixels: (nat, nat) -> Rgb, height: nat, width: nat)

  /** The frame shown after frame `frameNo`: the first one after the last,
      the following one otherwise. */
  function NextFrameNo(frameNo: nat): (r: nat)
    ensures frameNo < N_FRAMES ==> r < N_FRAMES && r == (frameNo + 1) % N_FRAMES
    ensures r == 0 <==> frameNo == N_FRAMES - 1
  {
    if frameNo == N_FRAMES - 1 then 0 else frameNo + 1
  }

  /** The frame shown after `steps` advances from frame `start`. */
  function FrameNoAfter(start: nat, steps: nat): (r: nat)
    requires start < N_FRAMES
    ensures r < N_FRAMES
  {
    if steps == 0 then start else NextFrameNo(FrameNoAfter(start, steps - 1))
  }

  /** Starting anywhere in range, the player never leaves the range and
      visits the frames cyclically. */
  lemma {:induction false} FrameNoAfterCycles(start: nat, steps: nat)
    requires start < N_FRAMES
    ensures FrameNoAfter(start, steps) == (start + steps) % N_FRAMES
  {
    if steps > 0 {
      FrameNoAfterCycles(start, steps - 1);
      var prev := (start + steps - 1) % N_FRAMES;
      assert (prev + 1) % N_FRAMES == (start + steps) % N_FRAMES;
    }
  }

  /** FrameNoAfterCycles for every step count up to `steps`. */
  lemma FrameNoAfterCyclesUpTo(start: nat, steps: nat)
    requires start < N_FRAMES
    ensures forall u :: 0 <= u <= steps ==> FrameNoAfter(start, u) == (start + u) % N_FRAMES
  {
    forall u | 0 <= u <= steps
      ensures FrameNoAfter(start, u) == (start + u) % N_FRAMES
    {
      FrameNoAfterCycles(start, u);
    }
  }

  class Player {
    /** The assembled frames, in order. */
    var frames: seq<string>
    /** The index of the frame shown next. */
    var frameNo: nat

    ghost predicate Valid()
      reads this
    {
      |frames| == N_FRAMES && frameNo < N_FRAMES
    }

    /** The loading phase: frame i is the ASCII frame of `images(i)`; playback
        starts at frame 0. */
    constructor Load(images: nat -> Image)
      ensures Valid() && frameNo == 0
      ensures forall i :: 0 <= i < N_FRAMES ==>
                frames[i] == AsciiFrame(images(i).pixels, images(i).height, images(i).width)
    {
      var loaded: seq<string> := [];
      var i := 0;
      while i < N_FRAMES
        invariant 0 <= i <= N_FRAMES
        invariant |loaded| == i
        invariant forall j :: 0 <= j < i ==>
                    loaded[j] == AsciiFrame(images(j).pixels, images(j).height, images(j).width)
      {
        var img := images(i);
        var frame := GetAsciiFrame(img.pixels, img.height, img.width);
        loaded := loaded + [frame];
        i := i + 1;
      }
      frames := loaded;
      frameNo := 0;
    }

    /** The frame currently on display. */
    function Current(): string
      reads this
      requires Valid()
    {
      frames[frameNo]
    }

    /** Advances to the next frame, wrapping after the last one. */
    method Advance()
      requires Valid()
      modifies this`frameNo
      ensures Valid()
      ensures frameNo == (old(frameNo) + 1) % N_FRAMES
      ensures old(frameNo) == N_FRAMES - 1 ==> frameNo == 0
    {
      frameNo := NextFrameNo(frameNo);
    }

    /** The first `steps` rounds of the display loop: each round shows the
        current frame and advances. Returns the frames shown, in order. */
    method Play(steps: nat) returns (shown: seq<string>)
      requires Valid()
      modifies this`frameNo
      ensures Valid()
      ensures frameNo == FrameNoAfter(old(frameNo), steps) == (old(frameNo) + steps) % N_FRAMES
      ensures |shown| == steps
      ensures forall t :: 0 <= t < steps ==>
                shown[t] == frames[FrameNoAfter(old(frameNo), t)] == frames[(old(frameNo) + t) % N_FRAMES]
    {
      shown := [];
      ghost var start := frameNo;
      var t := 0;
      while t < steps
        invariant Valid() && 0 <= t <= steps
        invariant frameNo == FrameNoAfter(start, t)
        invariant |shown| == t
        invariant forall u :: 0 <= u < t ==> shown[u] == frames[(start + u) % N_FRAMES]
      {
        FrameNoAfterCycles(start, t);
        shown := shown + [Current()];
        Advance();
        t := t + 1;
      }
      FrameNoAfterCyclesUpTo(start, steps);
    }
  }
}
