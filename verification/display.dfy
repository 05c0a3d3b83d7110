/** The double-buffered display.

    From its third frame on the display never clears a buffer.  It repaints the
    objects that were drawn there two frames ago in the erase colour and then paints
    the new ones.  What ends up on the screen is nevertheless what clearing and
    painting would give. */
module DoubleBuffer {
  import opened Machine
  import opened Primitives

  function Erased(o: DisplayObject): DisplayObject {
    o.(color := ERASE_COLOR)
  }

  /** A buffer with its visible part blank. */
  function Cleared(s: seq<u16>): (t: seq<u16>)
    requires |s| == SIZE
    ensures |t| == SIZE
    ensures forall i :: 0 <= i < SIZE ==> t[i] == if Shown(i) then ERASE_COLOR else s[i]
  {
    seq(SIZE, i requires 0 <= i < SIZE => if Shown(i) then ERASE_COLOR else s[i])
  }

  predicate AllValid(objs: seq<DisplayObject>) {
    forall k :: 0 <= k < |objs| ==> objs[k].shape.Valid()
  }

  /** Objects are painted last to first, so the first one added ends up on top. */
  function PaintReversed(s: seq<u16>, objs: seq<DisplayObject>): (t: seq<u16>)
    requires |s| == SIZE && AllValid(objs)
    ensures |t| == SIZE
    decreases |objs|
  {
    if objs == [] then s
    else
      var last := |objs| - 1;
      PaintReversed(Painted(s, objs[last]), objs[..last])
  }

  /** What is seen at point i: the ink of the first object that has any there. */
  function Topmost(objs: seq<DisplayObject>, i: nat): Paint
    requires AllValid(objs)
  {
    if objs == [] then Clear
    else
      var p := PaintAt(objs[0], Column(i), Row(i));
      if p == Clear then Topmost(objs[1..], i) else p
  }

  lemma {:induction false} TopmostWins(s: seq<u16>, objs: seq<DisplayObject>, i: nat)
    requires |s| == SIZE && AllValid(objs) && i < SIZE
    ensures PaintReversed(s, objs)[i] == if Shown(i) then Blend(s[i], Topmost(objs, i)) else s[i]
    decreases |objs|
  {
    hide Column, Row, PaintAt;
    if objs != [] {
      var last := |objs| - 1;
      TopmostWins(Painted(s, objs[last]), objs[..last], i);
      TopmostOfMore(objs, i);
    }
  }

  lemma {:induction false} TopmostOfMore(objs: seq<DisplayObject>, i: nat)
    requires AllValid(objs) && objs != []
    ensures var last := |objs| - 1;
            var front := Topmost(objs[..last], i);
            Topmost(objs, i) == if front == Clear then PaintAt(objs[last], Column(i), Row(i)) else front
  {
    hide Column, Row, PaintAt;
    if |objs| > 1 {
      var last := |objs| - 1;
      assert objs[1..][..last - 1] == objs[..last][1..];
      TopmostOfMore(objs[1..], i);
    }
  }

  /** The objects added before the k-th leave a point alone. */
  ghost predicate NoneBefore(objs: seq<DisplayObject>, k: nat, i: nat)
    requires AllValid(objs)
  {
    forall j :: 0 <= j < k && j < |objs| ==> PaintAt(objs[j], Column(i), Row(i)) == Clear
  }

  /** An object hides those that were added after it, whatever they are. */
  lemma {:induction false} FirstOnTop(s: seq<u16>, objs: seq<DisplayObject>, i: nat, k: nat)
    requires |s| == SIZE && AllValid(objs) && i < SIZE && Shown(i) && k <= |objs| && NoneBefore(objs, k, i)
    ensures k == |objs| ==> PaintReversed(s, objs)[i] == s[i]
    ensures k < |objs| && PaintAt(objs[k], Column(i), Row(i)) != Clear ==>
              PaintAt(objs[k], Column(i), Row(i)) == Ink(PaintReversed(s, objs)[i])
    decreases |objs|
  {
    hide Column, Row, PaintAt;
    if objs != [] {
      var last := |objs| - 1;
      if k == |objs| {
        assert PaintAt(objs[last], Column(i), Row(i)) == Clear;
        FirstOnTop(Painted(s, objs[last]), objs[..last], i, last);
      } else if k < last {
        FirstOnTop(Painted(s, objs[last]), objs[..last], i, k);
      } else {
        FirstOnTop(Painted(s, objs[last]), objs[..last], i, last);
      }
    }
  }

  /** Some object of the list, if repainted in the erase colour, would blank point i. */
  ghost predicate Wiped(objs: seq<DisplayObject>, i: nat)
    requires AllValid(objs)
  {
    exists k :: 0 <= k < |objs| && PaintAt(Erased(objs[k]), Column(i), Row(i)) != Clear
  }

  /** Every visible point that is not blank lies under one of the objects. */
  ghost predicate StainedBy(s: seq<u16>, objs: seq<DisplayObject>)
    requires |s| == SIZE && AllValid(objs)
  {
    forall i :: 0 <= i < SIZE && Shown(i) && s[i] != ERASE_COLOR ==> Wiped(objs, i)
  }

  /** Wherever an object leaves ink, its erased copy leaves the erase colour. */
  lemma EraseCovers(o: DisplayObject, x: int, y: int)
    requires o.shape.Valid()
    ensures PaintAt(o, x, y) != Clear ==> PaintAt(Erased(o), x, y) == Ink(ERASE_COLOR)
    ensures PaintAt(Erased(o), x, y) != Clear ==> PaintAt(Erased(o), x, y) == Ink(ERASE_COLOR)
  {
  }

  /** Painting over a blank screen stains only what lies under the painted objects. */
  lemma {:induction false} PaintStains(s: seq<u16>, done: seq<DisplayObject>, todo: seq<DisplayObject>)
    requires |s| == SIZE && AllValid(done) && AllValid(todo) && StainedBy(s, done)
    ensures StainedBy(PaintReversed(s, todo), todo + done)
    decreases |todo|
  {
    hide Column, Row, PaintAt;
    if todo == [] {
      assert todo + done == done;
    } else {
      var last := |todo| - 1;
      var o := todo[last];
      var t := Painted(s, o);
      forall i | 0 <= i < SIZE && Shown(i) && t[i] != ERASE_COLOR
        ensures Wiped([o] + done, i)
      {
        EraseCovers(o, Column(i), Row(i));
        if PaintAt(o, Column(i), Row(i)) == Clear {
          var k :| 0 <= k < |done| && PaintAt(Erased(done[k]), Column(i), Row(i)) != Clear;
          assert ([o] + done)[k + 1] == done[k];
        } else {
          assert ([o] + done)[0] == o;
        }
      }
      PaintStains(t, [o] + done, todo[..last]);
      assert todo[..last] + ([o] + done) == todo + done;
    }
  }

  /** Repainting one object in the erase colour takes it off the list of stains. */
  lemma EraseOne(s: seq<u16>, objs: seq<DisplayObject>)
    requires |s| == SIZE && objs != [] && AllValid(objs) && StainedBy(s, objs)
    ensures StainedBy(Painted(s, Erased(objs[0])), objs[1..])
    ensures Cleared(Painted(s, Erased(objs[0]))) == Cleared(s)
  {
  }

  lemma NoStains(s: seq<u16>)
    requires |s| == SIZE && StainedBy(s, [])
    ensures s == Cleared(s)
  {
  }

  lemma CleanIsUnstained(s: seq<u16>, objs: seq<DisplayObject>)
    requires |s| == SIZE && AllValid(objs)
    ensures StainedBy(Cleared(s), objs)
  {
  }

  class Display {
    // The pixel buffer controller's two registers, and the pointer that is drawn to.
    var front: array<u16>
    var back: array<u16>
    var current: array<u16>
    const buf1: array<u16>
    const buf2: array<u16>

    var curFrameId: nat
    var objs: seq<DisplayObject>

    // The objects of the frame before last, of the last frame, and of this one.
    ghost var older: seq<DisplayObject>
    ghost var recent: seq<DisplayObject>
    ghost var latest: seq<DisplayObject>

    static ghost predicate FromFrame(list: seq<DisplayObject>, frame: int) {
      forall k :: 0 <= k < |list| ==> list[k].frameId == frame && list[k].shape.Valid()
    }

    /** The deque holds the objects of at most three frames, in frame order. */
    ghost predicate Queued()
      reads this
    {
      && objs == older + recent + latest
      && FromFrame(older, curFrameId - 2) && FromFrame(recent, curFrameId - 1) && FromFrame(latest, curFrameId)
      && (curFrameId < 2 ==> older == []) && (curFrameId < 1 ==> recent == [])
    }

    /** Before the first frame the drawing pointer is still at the buffer that was on
        screen before construction; afterwards it is at the back buffer. */
    ghost predicate Wired()
      reads this
    {
      && buf1.Length == SIZE && buf2.Length == SIZE && current.Length == SIZE && buf1 != buf2
      && (curFrameId == 0 ==> front == buf1 && back == buf2 && current != buf1 && current != buf2)
      && (curFrameId >= 1 ==> current == back && ((front == buf1 && back == buf2) || (front == buf2 && back == buf1)))
    }

    /** The back buffer still shows the frame before last, the front one the last. */
    ghost predicate Stained()
      requires Queued() && Wired()
      reads this, buf1, buf2
    {
      curFrameId >= 2 ==> StainedBy(current[..], older) && StainedBy(front[..], recent)
    }

    ghost predicate Valid()
      reads this, buf1, buf2
    {
      Queued() && Wired() && Stained()
    }

    constructor (onScreen: array<u16>)
      requires onScreen.Length == SIZE
      ensures Valid() && curFrameId == 0 && objs == [] && latest == [] && recent == []
      ensures fresh(buf1) && fresh(buf2) && current == onScreen
    {
      buf1 := new u16[SIZE];
      buf2 := new u16[SIZE];
      curFrameId := 0;
      objs, older, recent, latest := [], [], [], [];
      front, back := onScreen, buf1;
      current := onScreen;
      new;
      SwapBufferBlocking();
      back := buf2;
    }

    /** The controller exchanges its registers; then draw to the back buffer. */
    method SwapBufferBlocking()
      modifies `front, `back, `current
      ensures front == old(back) && back == old(front) && current == back
    {
      front, back := back, front;
      current := back;
    }

    /** Blank the visible part of a buffer: 0 is the current one, 1 and 2 are the
        display's own, anything else is ignored. */
    method ClearBuffer(which: nat)
      requires Wired()
      modifies current, buf1, buf2
      ensures which == 0 ==> current[..] == Cleared(old(current[..]))
      ensures which == 1 ==> buf1[..] == Cleared(old(buf1[..]))
      ensures which == 2 ==> buf2[..] == Cleared(old(buf2[..]))
      ensures !(which == 0 || (which == 1 && current == buf1) || (which == 2 && current == buf2)) ==>
                current[..] == old(current[..])
      ensures !(which == 1 || (which == 0 && current == buf1)) ==> buf1[..] == old(buf1[..])
      ensures !(which == 2 || (which == 0 && current == buf2)) ==> buf2[..] == old(buf2[..])
    {
      if which == 0 {
        Blank(current);
      } else if which == 1 {
        Blank(buf1);
      } else if which == 2 {
        Blank(buf2);
      }
    }

    static method Blank(buf: array<u16>)
      requires buf.Length == SIZE
      modifies buf
      ensures buf[..] == Cleared(old(buf[..]))
    {
      var x := 0;
      while x < WIDTH
        invariant 0 <= x <= WIDTH
        invariant forall i :: 0 <= i < SIZE ==> buf[i] == if Shown(i) && Column(i) < x then ERASE_COLOR else old(buf[i])
      {
        var y := 0;
        while y < HEIGHT
          invariant 0 <= y <= HEIGHT
          invariant forall i :: 0 <= i < SIZE ==>
                      buf[i] == if Shown(i) && (Column(i) < x || (Column(i) == x && Row(i) < y)) then ERASE_COLOR else old(buf[i])
        {
          hide Column, Row;
          PutPixel(buf, x, y, ERASE_COLOR);
          y := y + 1;
        }
        x := x + 1;
      }
    }

    /** Queue an object for the current frame. */
    method AddDisplayObj(shape: Shape, color: u16)
      requires Valid() && shape.Valid()
      modifies `objs, `latest
      ensures Valid()
      ensures latest == old(latest) + [DisplayObject(shape, color, curFrameId)]
    {
      var o := DisplayObject(shape, color, curFrameId);
      assert older + recent + (latest + [o]) == older + recent + latest + [o];
      objs := objs + [o];
      latest := latest + [o];
    }

    /** Blank the buffer that is about to be drawn.  From the third frame on this
        only undoes what was painted there two frames ago, and there must be a later
        object in the deque to stop the search for those. */
    method EraseLastFrame()
      requires Valid() && (curFrameId >= 2 ==> recent + latest != [])
      modifies current, buf1, buf2, `objs, `older
      ensures Queued() && Wired() && older == []
      ensures curFrameId >= 1 ==> current[..] == Cleared(old(current[..]))
      ensures curFrameId < 2 ==> buf1[..] == Cleared(buf1[..]) && buf2[..] == Cleared(buf2[..])
      ensures curFrameId >= 2 ==> front[..] == old(front[..])
      ensures curFrameId == 0 ==> current[..] == old(current[..])
    {
      if curFrameId < 2 {
        ClearBuffer(1);
        ClearBuffer(2);
        return;
      }
      ghost var was := current[..];
      while objs[0].frameId == curFrameId - 2
        invariant Queued() && Wired()
        invariant recent + latest != [] && curFrameId >= 2
        invariant StainedBy(current[..], older) && Cleared(current[..]) == Cleared(was)
        invariant front[..] == old(front[..])
        decreases |objs|
      {
        assert older != [];
        EraseOne(current[..], older);
        objs := objs[0 := objs[0].(color := ERASE_COLOR)];
        Draw(current, objs[0]);
        objs, older := objs[1..], older[1..];
      }
      assert older == [];
      NoStains(current[..]);
    }

    /** Paint this frame's objects, last to first. */
    method DrawCurrentFrame()
      requires Queued() && Wired()
      modifies current
      ensures current[..] == PaintReversed(old(current[..]), latest)
    {
      ghost var was := current[..];
      var k := |objs|;
      assert latest[..|latest|] == latest;
      while k > 0 && objs[k - 1].frameId == curFrameId
        invariant |older + recent| <= k <= |objs|
        invariant PaintReversed(current[..], latest[..k - |older + recent|]) == PaintReversed(was, latest)
      {
        ghost var n := k - |older + recent|;
        assert objs[k - 1] == latest[n - 1];
        assert latest[..n][..n - 1] == latest[..n - 1];
        Draw(current, objs[k - 1]);
        k := k - 1;
      }
    }

    /** One frame.  From the second on, the buffer put on the screen is blank but for
        this frame's objects, and the deque keeps this frame and the one before. */
    method DrawFrame()
      requires Valid() && (curFrameId >= 2 ==> recent + latest != [])
      modifies this, buf1, buf2, current
      ensures Valid() && curFrameId == old(curFrameId) + 1
      ensures old(curFrameId) >= 1 ==>
                front == old(current) && front[..] == PaintReversed(Cleared(old(current[..])), old(latest))
      ensures old(curFrameId) == 0 ==> front[..] == Cleared(front[..])
      ensures old(curFrameId) == 0 ==> old(current)[..] == PaintReversed(old(current[..]), old(latest))
      ensures older == old(recent) && recent == old(latest) && latest == []
      ensures objs == old(recent) + old(latest)
    {
      ghost var blank, earlier := Cleared(current[..]), recent;
      EraseLastFrame();
      assert curFrameId >= 1 ==> current[..] == blank;
      DrawCurrentFrame();
      if curFrameId >= 1 {
        FrameStains(blank, latest);
      }
      if curFrameId == 1 {
        CleanIsUnstained(front[..], recent);
      }
      Flip();
    }

    /** Put the finished buffer on the screen and start the next frame. */
    method Flip()
      requires Queued() && Wired() && older == []
      requires curFrameId >= 1 ==> StainedBy(current[..], latest)
      requires curFrameId >= 1 ==> StainedBy(front[..], recent)
      modifies this
      ensures Valid() && curFrameId == old(curFrameId) + 1
      ensures front == old(back) && objs == old(recent) + old(latest)
      ensures older == old(recent) && recent == old(latest) && latest == []
    {
      SwapBufferBlocking();
      curFrameId := curFrameId + 1;
      older, recent, latest := recent, latest, [];
    }

    /** Any animation in which the deque never runs dry: after each frame from the
        second on, the screen shows exactly that frame over a blank background. */
    method Animate(frames: seq<Frame>) returns (ghost shown: seq<seq<u16>>)
      requires Valid() && curFrameId == 0 && objs == []
      requires forall f :: 0 <= f < |frames| ==> frames[f].Valid()
      requires forall f :: 2 <= f < |frames| ==> frames[f].objects != [] || frames[f - 1].objects != []
      modifies this, buf1, buf2, current
      ensures Valid() && |shown| == |frames| == curFrameId
      ensures forall f :: 1 <= f < |frames| ==> Depicts(shown[f], frames[f], f)
      ensures frames != [] ==> front[..] == shown[|frames| - 1]
    {
      hide Depicts, Stained, Frame.Stamped;
      shown := [];
      for f := 0 to |frames|
        invariant Valid() && curFrameId == f == |shown| && latest == []
        invariant f >= 1 ==> recent == frames[f - 1].Stamped(f - 1)
        invariant forall g :: 1 <= g < f ==> Depicts(shown[g], frames[g], g)
        invariant f >= 1 ==> front[..] == shown[f - 1]
        invariant current in {old(current), buf1, buf2}
      {
        ShowFrame(frames[f]);
        shown := shown + [front[..]];
      }
    }

    /** The game loop's body: add the frame's objects and draw it. */
    method ShowFrame(frame: Frame)
      requires Valid() && latest == [] && frame.Valid()
      requires curFrameId >= 2 ==> recent != [] || frame.objects != []
      modifies this, buf1, buf2, current
      ensures Valid() && curFrameId == old(curFrameId) + 1
      ensures latest == [] && recent == frame.Stamped(old(curFrameId))
      ensures old(curFrameId) >= 1 ==> Depicts(front[..], frame, old(curFrameId))
    {
      hide Stained, Painted;
      AddFrame(frame);
      ghost var back, f := current[..], curFrameId;
      DrawFrame();
      if f >= 1 {
        PaddingKept(Cleared(back), frame.Stamped(f));
        assert Cleared(Cleared(back)) == Cleared(back);
      }
    }

    method AddFrame(frame: Frame)
      requires Valid() && latest == [] && frame.Valid()
      modifies `objs, `latest
      ensures Valid() && latest == frame.Stamped(curFrameId)
    {
      hide Stained;
      for k := 0 to |frame.objects|
        invariant Valid() && latest == frame.Stamped(curFrameId)[..k]
      {
        AddDisplayObj(frame.objects[k].0, frame.objects[k].1);
      }
    }
  }

  /** What the game adds between two calls of draw_frame: shapes and their colours. */
  datatype Frame = Frame(objects: seq<(Shape, u16)>) {
    predicate Valid() {
      forall k :: 0 <= k < |objects| ==> objects[k].0.Valid()
    }

    /** The display objects made of them in frame f. */
    function Stamped(f: nat): (list: seq<DisplayObject>)
      requires Valid()
      ensures |list| == |objects| && AllValid(list)
      ensures forall k :: 0 <= k < |objects| ==> list[k] == DisplayObject(objects[k].0, objects[k].1, f)
    {
      seq(|objects|, k requires 0 <= k < |objects| => DisplayObject(objects[k].0, objects[k].1, f))
    }
  }

  /** The buffer shows exactly the objects of frame f over a blank background. */
  ghost predicate Depicts(s: seq<u16>, frame: Frame, f: nat)
    requires frame.Valid()
  {
    |s| == SIZE && s == PaintReversed(Cleared(s), frame.Stamped(f))
  }

  /** Point by point: the colour of the first of the frame's objects that has any there,
      and 0 where none has. */
  lemma SeenAt(s: seq<u16>, frame: Frame, f: nat, i: nat, k: nat)
    requires frame.Valid() && Depicts(s, frame, f) && i < SIZE && Shown(i)
    requires k <= |frame.objects| && NoneBefore(frame.Stamped(f), k, i)
    ensures k == |frame.objects| ==> s[i] == 0
    ensures k < |frame.objects| ==>
              var (shape, color) := frame.objects[k];
              var paint := PaintAt(DisplayObject(shape, color, f), Column(i), Row(i));
              paint != Clear ==> paint == Ink(s[i])
  {
    hide PaintAt, Column, Row, PaintReversed;
    FirstOnTop(Cleared(s), frame.Stamped(f), i, k);
  }

  /** Painting leaves the padding of the buffer alone. */
  lemma {:induction false} PaddingKept(s: seq<u16>, list: seq<DisplayObject>)
    requires |s| == SIZE && AllValid(list)
    ensures Cleared(PaintReversed(s, list)) == Cleared(s)
    decreases |list|
  {
    hide Column, Row, PaintAt;
    if list != [] {
      var last := |list| - 1;
      var t := Painted(s, list[last]);
      PaddingKept(t, list[..last]);
      assert Cleared(t) == Cleared(s);
    }
  }

  /** A frame painted over blank stains only what lies under its objects. */
  lemma FrameStains(blank: seq<u16>, objs: seq<DisplayObject>)
    requires |blank| == SIZE && AllValid(objs) && blank == Cleared(blank)
    ensures StainedBy(PaintReversed(blank, objs), objs)
  {
    CleanIsUnstained(blank, []);
    PaintStains(blank, [], objs);
    assert objs + [] == objs;
  }
}
