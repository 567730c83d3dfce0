/** A sprite's raw frames and frame sequence: frames cut from one image in
    row-major order, a circular sequence of frame numbers with a current
    index, the transform code and the collision rectangle. Positioning,
    painting and collision tests are not modelled. */
module Sprite {
  import opened JavaLang
  import opened Transform
  import opened Images

  // ----- raw frames -----

  /** The frame-size guard of the constructor and of `setImage`: true
      when they throw. */
  predicate RejectsFrameSize(image: Image, frameWidth: int32, frameHeight: int32) {
    frameWidth < 1 || frameHeight < 1 ||
    image.width % frameWidth != 0 || image.height % frameHeight != 0
  }

  /** An image with positive sizes, as every `Image` factory returns. */
  predicate IsImage(image: Image) {
    image.width > 0 && image.height > 0
  }

  /** Frames per row and per column of the frame grid. */
  function Columns(image: Image, frameWidth: int): int
    requires frameWidth >= 1
  {
    image.width / frameWidth
  }

  function Rows(image: Image, frameHeight: int): int
    requires frameHeight >= 1
  {
    image.height / frameHeight
  }

  /** The number of raw frames the image is cut into. */
  function RawFrameCount(image: Image, frameWidth: int, frameHeight: int): int
    requires frameWidth >= 1 && frameHeight >= 1
  {
    Columns(image, frameWidth) * Rows(image, frameHeight)
  }

  /** An accepted frame size tiles the image exactly, with at least one
      frame. */
  lemma FrameGrid(image: Image, frameWidth: int32, frameHeight: int32)
    requires IsImage(image) && !RejectsFrameSize(image, frameWidth, frameHeight)
    ensures Columns(image, frameWidth) * frameWidth == image.width
    ensures Rows(image, frameHeight) * frameHeight == image.height
    ensures Columns(image, frameWidth) >= 1 && Rows(image, frameHeight) >= 1
    ensures RawFrameCount(image, frameWidth, frameHeight) >= 1
  {
    var c, r := Columns(image, frameWidth), Rows(image, frameHeight);
    assert c * frameWidth == image.width;
    assert r * frameHeight == image.height;
    if c < 1 {
      MulMonotone(c, 0, frameWidth);
    }
    if r < 1 {
      MulMonotone(r, 0, frameHeight);
    }
    MulMonotone(1, r, c);
  }

  /** The upper-left pixel of raw frame `k`: frames are numbered from the
      upper-left corner, across each row and then row by row. */
  function FrameOrigin(image: Image, frameWidth: int, frameHeight: int, k: int): (int, int)
    requires frameWidth >= 1 && frameHeight >= 1 && Columns(image, frameWidth) >= 1
  {
    var c := Columns(image, frameWidth);
    ((k % c) * frameWidth, (k / c) * frameHeight)
  }

  /** Row-major numbering: the frame in column `col` and row `row` of the
      grid has number `col + row * columns`, that number is a valid raw
      frame, and every raw frame lies wholly inside the image. */
  lemma RowMajorFrames(image: Image, frameWidth: int32, frameHeight: int32, col: int, row: int)
    requires IsImage(image) && !RejectsFrameSize(image, frameWidth, frameHeight)
    requires 0 <= col < Columns(image, frameWidth) && 0 <= row < Rows(image, frameHeight)
    ensures Columns(image, frameWidth) >= 1
    ensures 0 <= col + row * Columns(image, frameWidth) < RawFrameCount(image, frameWidth, frameHeight)
    ensures FrameOrigin(image, frameWidth, frameHeight, col + row * Columns(image, frameWidth))
            == (col * frameWidth, row * frameHeight)
    ensures col * frameWidth + frameWidth <= image.width
    ensures row * frameHeight + frameHeight <= image.height
  {
    FrameGrid(image, frameWidth, frameHeight);
    var c, r := Columns(image, frameWidth), Rows(image, frameHeight);
    PixelIndexInBounds(col, row, c, r);
    PixelIndexInverse(col, row, c);
    MulMonotone(col + 1, c, frameWidth);
    MulMonotone(row + 1, r, frameHeight);
  }

  // ----- frame sequences -----

  /** The default frame sequence `0, 1, ..., rawFrameCount - 1`. */
  function DefaultSequence(rawFrameCount: nat): (s: seq<int>)
    ensures |s| == rawFrameCount
    ensures forall k :: 0 <= k < |s| ==> s[k] == k
  {
    seq(rawFrameCount, k => k)
  }

  /** A usable frame sequence: non-empty, every entry a raw frame number. */
  predicate IsFrameSequence(s: seq<int>, rawFrameCount: int) {
    |s| >= 1 && forall k :: 0 <= k < |s| ==> 0 <= s[k] < rawFrameCount
  }

  lemma DefaultIsFrameSequence(rawFrameCount: nat)
    requires rawFrameCount >= 1
    ensures IsFrameSequence(DefaultSequence(rawFrameCount), rawFrameCount)
  {
  }

  /** A frame sequence for some raw frames stays one when there are at
      least as many frames afterwards. */
  lemma KeptSequenceStillValid(s: seq<int>, oldCount: int, newCount: int)
    requires IsFrameSequence(s, oldCount) && oldCount <= newCount
    ensures IsFrameSequence(s, newCount)
  {
  }

  /** The frame sequence, custom flag and index after the raw frames
      change from `oldCount` to `newCount`: with fewer frames the default
      sequence of the new frames at index 0, otherwise the index and a
      custom sequence kept and a default sequence regenerated. Either way
      the result is again a frame sequence for the new frames. */
  function Reframe(frameSequence: seq<int>, custom: bool, index: int,
                   oldCount: nat, newCount: nat): (r: (seq<int>, bool, int))
    requires IsFrameSequence(frameSequence, oldCount) && 0 <= index < |frameSequence|
    requires !custom ==> frameSequence == DefaultSequence(oldCount)
    requires newCount >= 1
    ensures IsFrameSequence(r.0, newCount) && 0 <= r.2 < |r.0|
    ensures !r.1 ==> r.0 == DefaultSequence(newCount)
    ensures newCount < oldCount ==> r.2 == 0 && !r.1
    ensures newCount >= oldCount ==> r.2 == index && r.1 == custom
    ensures newCount >= oldCount && custom ==> r.0 == frameSequence
  {
    if newCount < oldCount then (DefaultSequence(newCount), false, 0)
    else if !custom then (DefaultSequence(newCount), false, index)
    else KeptSequenceStillValid(frameSequence, oldCount, newCount); (frameSequence, true, index)
  }

  /** Whether cutting `img` into `frameW` by `frameH` frames yields fewer
      raw frames than cutting `image` into `frameWidth` by `frameHeight`. */
  predicate FewerFrames(image: Image, frameWidth: int, frameHeight: int,
                        img: Image, frameW: int, frameH: int)
    requires frameWidth >= 1 && frameHeight >= 1 && frameW >= 1 && frameH >= 1
  {
    RawFrameCount(img, frameW, frameH) < RawFrameCount(image, frameWidth, frameHeight)
  }

  /** The index after `i` in a circular sequence of length `n`. */
  function NextIndex(i: int, n: int): (r: int)
    requires 0 <= i < n
    ensures 0 <= r < n && r == (i + 1) % n
  {
    if i == n - 1 then 0 else i + 1
  }

  /** The index before `i` in a circular sequence of length `n`. */
  function PrevIndex(i: int, n: int): (r: int)
    requires 0 <= i < n
    ensures 0 <= r < n && r == (i - 1) % n
  {
    if i == 0 then n - 1 else i - 1
  }

  /** Each step undoes the other. */
  lemma PrevUndoesNext(i: int, n: int)
    requires 0 <= i < n
    ensures PrevIndex(NextIndex(i, n), n) == i
    ensures NextIndex(PrevIndex(i, n), n) == i
  {
  }

  /** The index reached from `i` by `k` calls of `nextFrame`. */
  function Advance(i: int, n: int, k: nat): (r: int)
    requires 0 <= i < n
    ensures 0 <= r < n
  {
    if k == 0 then i else NextIndex(Advance(i, n, k - 1), n)
  }

  /** `k` steps forward land on `(i + k) mod n`. */
  lemma {:induction false} AdvanceIsModular(i: int, n: int, k: nat)
    requires 0 <= i < n
    ensures Advance(i, n, k) == (i + k) % n
  {
    if k > 0 {
      AdvanceIsModular(i, n, k - 1);
      ModStep(i + k - 1, n);
    }
  }

  lemma ModStep(m: int, n: int)
    requires n > 0
    ensures ((m % n) + 1) % n == (m + 1) % n
  {
    var q := m / n;
    assert m == q * n + m % n;
    assert m + 1 == q * n + (m % n + 1);
    ModShift(m % n + 1, q, n);
  }

  lemma ModShift(x: int, q: int, n: int)
    requires n > 0
    ensures (q * n + x) % n == x % n
  {
    var r := x % n;
    assert x == (x / n) * n + r;
    assert q * n + x == (q + x / n) * n + r;
    DivModUnique(q * n + x, n, q + x / n, r);
  }

  /** `n` calls of `nextFrame` go once around the sequence and come back. */
  lemma FullCycle(i: int, n: int)
    requires 0 <= i < n
    ensures Advance(i, n, n) == i
  {
    AdvanceIsModular(i, n, n);
    assert Advance(i, n, n) == (i + n) % n;
    DivModUnique(i + n, n, 1, i);
  }

  // ----- the Sprite object -----

  class Sprite {
    var image: Image
    var frameWidth: int32
    var frameHeight: int32
    /** The frame sequence, a private copy. */
    var frameSequence: seq<int>
    /** Whether `frameSequence` was set with `setFrameSequence`. */
    var customSequence: bool
    /** The current index into `frameSequence`. */
    var sequenceIndex: int
    var transform: Code
    var collisionX: int32
    var collisionY: int32
    var collisionWidth: int32
    var collisionHeight: int32

    ghost predicate Valid()
      reads this
    {
      && IsImage(image)
      && !RejectsFrameSize(image, frameWidth, frameHeight)
      && IsFrameSequence(frameSequence, RawFrameCount(image, frameWidth, frameHeight))
      && 0 <= sequenceIndex < |frameSequence|
      && (!customSequence ==>
            frameSequence == DefaultSequence(RawFrameCount(image, frameWidth, frameHeight)))
      && IsValid(transform)
      && collisionWidth >= 0 && collisionHeight >= 0
    }

    /** A sprite in its initial state: default sequence at index 0, no
        transform, the collision rectangle covering one frame. */
    constructor Init(image: Image, frameWidth: int32, frameHeight: int32)
      requires IsImage(image) && !RejectsFrameSize(image, frameWidth, frameHeight)
      ensures Valid()
      ensures this.image == image
      ensures this.frameWidth == frameWidth && this.frameHeight == frameHeight
      ensures frameSequence == DefaultSequence(RawFrameCount(image, frameWidth, frameHeight))
      ensures !customSequence && sequenceIndex == 0 && transform == TRANS_NONE
      ensures collisionX == 0 && collisionY == 0
      ensures collisionWidth == frameWidth && collisionHeight == frameHeight
    {
      FrameGrid(image, frameWidth, frameHeight);
      this.image := image;
      this.frameWidth := frameWidth;
      this.frameHeight := frameHeight;
      frameSequence := DefaultSequence(RawFrameCount(image, frameWidth, frameHeight));
      customSequence := false;
      sequenceIndex := 0;
      transform := TRANS_NONE;
      collisionX, collisionY := 0, 0;
      collisionWidth, collisionHeight := frameWidth, frameHeight;
    }

    /** `new Sprite(image, frameWidth, frameHeight)`: throws
        IllegalArgumentException unless the frame size is positive and
        divides the image size. */
    static method Create(image: Image, frameWidth: int32, frameHeight: int32)
      returns (r: Result<Sprite>)
      requires IsImage(image)
      ensures r.Err? <==> RejectsFrameSize(image, frameWidth, frameHeight)
      ensures r.Err? ==> r.error == IllegalArgument
      ensures r.Ok? ==> fresh(r.value) && r.value.Valid() && r.value.image == image
      ensures r.Ok? ==> r.value.frameWidth == frameWidth && r.value.frameHeight == frameHeight
      ensures r.Ok? ==> r.value.sequenceIndex == 0 && !r.value.customSequence
      ensures r.Ok? ==> r.value.frameSequence == DefaultSequence(RawFrameCount(image, frameWidth, frameHeight))
      ensures r.Ok? ==> r.value.transform == TRANS_NONE
      ensures r.Ok? ==> r.value.collisionX == 0 && r.value.collisionY == 0
      ensures r.Ok? ==> r.value.collisionWidth == frameWidth && r.value.collisionHeight == frameHeight
    {
      if RejectsFrameSize(image, frameWidth, frameHeight) {
        return Err(IllegalArgument);
      }
      var s := new Sprite.Init(image, frameWidth, frameHeight);
      return Ok(s);
    }

    /** `new Sprite(image)`: one frame, the whole image. */
    static method CreateSingleFrame(image: Image) returns (s: Sprite)
      requires IsImage(image)
      ensures fresh(s) && s.Valid() && s.image == image
      ensures s.frameWidth == image.width && s.frameHeight == image.height
      ensures s.frameSequence == [0] && s.sequenceIndex == 0 && !s.customSequence
      ensures s.transform == TRANS_NONE
      ensures s.collisionX == 0 && s.collisionY == 0
      ensures s.collisionWidth == image.width && s.collisionHeight == image.height
    {
      s := new Sprite.Init(image, image.width, image.height);
      assert RawFrameCount(image, image.width, image.height) == 1;
    }

    /** `new Sprite(s)`: every attribute of `s` duplicated. */
    constructor Copy(s: Sprite)
      requires s.Valid()
      ensures Valid()
      ensures image == s.image && frameWidth == s.frameWidth && frameHeight == s.frameHeight
      ensures frameSequence == s.frameSequence && customSequence == s.customSequence
      ensures sequenceIndex == s.sequenceIndex && transform == s.transform
      ensures collisionX == s.collisionX && collisionY == s.collisionY
      ensures collisionWidth == s.collisionWidth && collisionHeight == s.collisionHeight
    {
      image := s.image;
      frameWidth, frameHeight := s.frameWidth, s.frameHeight;
      frameSequence, customSequence := s.frameSequence, s.customSequence;
      sequenceIndex, transform := s.sequenceIndex, s.transform;
      collisionX, collisionY := s.collisionX, s.collisionY;
      collisionWidth, collisionHeight := s.collisionWidth, s.collisionHeight;
    }

    /** `getRawFrameCount()`: the number of frames the image is cut into,
        at least one. */
    function GetRawFrameCount(): (n: int)
      reads this
      requires Valid()
      ensures n >= 1
      ensures n * frameWidth * frameHeight == image.width * image.height
    {
      FrameGrid(image, frameWidth, frameHeight);
      var c, r := Columns(image, frameWidth), Rows(image, frameHeight);
      assert c * frameWidth * (r * frameHeight) == image.width * image.height;
      assert c * r * frameWidth * frameHeight == c * frameWidth * (r * frameHeight);
      RawFrameCount(image, frameWidth, frameHeight)
    }

    /** `getFrameSequenceLength()`: the length of the frame sequence, which
        is the raw frame count while the default sequence is in use. */
    function GetFrameSequenceLength(): (n: int)
      reads this
      requires Valid()
      ensures n >= 1
      ensures !customSequence ==> n == GetRawFrameCount()
    {
      |frameSequence|
    }

    /** `getFrame()`: the current index into the frame sequence. */
    function GetFrame(): (i: int)
      reads this
      requires Valid()
      ensures 0 <= i < GetFrameSequenceLength()
      ensures 0 <= frameSequence[i] < GetRawFrameCount()
    {
      sequenceIndex
    }

    /** `setFrame(i)`: throws IndexOutOfBoundsException unless `i` is an
        index of the frame sequence; otherwise `i` becomes current. */
    method SetFrame(i: int32) returns (o: Outcome)
      requires Valid()
      modifies this`sequenceIndex
      ensures Valid()
      ensures o.Fail? <==> i < 0 || i >= |frameSequence|
      ensures o.Fail? ==> o.error == IndexOutOfBounds && sequenceIndex == old(sequenceIndex)
      ensures o.Pass? ==> GetFrame() == i
    {
      if i < 0 || i >= |frameSequence| {
        return Fail(IndexOutOfBounds);
      }
      sequenceIndex := i;
      return Pass;
    }

    /** `nextFrame()`: one step forward, from the last entry to the first. */
    method NextFrame()
      requires Valid()
      modifies this`sequenceIndex
      ensures Valid()
      ensures sequenceIndex == NextIndex(old(sequenceIndex), |frameSequence|)
    {
      sequenceIndex := if sequenceIndex == |frameSequence| - 1 then 0 else sequenceIndex + 1;
    }

    /** `prevFrame()`: one step back, from the first entry to the last. */
    method PrevFrame()
      requires Valid()
      modifies this`sequenceIndex
      ensures Valid()
      ensures sequenceIndex == PrevIndex(old(sequenceIndex), |frameSequence|)
    {
      sequenceIndex := if sequenceIndex == 0 then |frameSequence| - 1 else sequenceIndex - 1;
    }

    /** `setFrameSequence(sequence)`: `null` restores the default sequence;
        an empty array throws IllegalArgumentException; an entry that is no
        raw frame number throws ArrayIndexOutOfBoundsException; otherwise the
        entries are copied. On success the index returns to 0. */
    method SetFrameSequence(sequence: array?<int32>) returns (o: Outcome)
      requires Valid()
      modifies this`frameSequence, this`customSequence, this`sequenceIndex
      ensures Valid()
      ensures sequence == null ==> o.Pass? && !customSequence
      ensures sequence != null ==>
        (o.Fail? <==> !IsFrameSequence(sequence[..], GetRawFrameCount()))
      ensures sequence != null && sequence.Length == 0 ==> o == Fail(IllegalArgument)
      ensures sequence != null && sequence.Length > 0 && o.Fail? ==> o.error == ArrayIndexOutOfBounds
      ensures sequence != null && o.Pass? ==> customSequence && frameSequence == sequence[..]
      ensures o.Pass? ==> sequenceIndex == 0
      ensures o.Fail? ==>
        && frameSequence == old(frameSequence)
        && customSequence == old(customSequence)
        && sequenceIndex == old(sequenceIndex)
    {
      var n := RawFrameCount(image, frameWidth, frameHeight);
      FrameGrid(image, frameWidth, frameHeight);
      if sequence == null {
        frameSequence, customSequence, sequenceIndex := DefaultSequence(n), false, 0;
        return Pass;
      }
      if sequence.Length < 1 {
        return Fail(IllegalArgument);
      }
      if !IsFrameSequence(sequence[..], n) {
        return Fail(ArrayIndexOutOfBounds);
      }
      frameSequence, customSequence, sequenceIndex := sequence[..], true, 0;
      return Pass;
    }

    /** `setImage(img, frameWidth, frameHeight)`: the frame-size checks of
        the constructor. With fewer raw frames than before the index goes
        back to 0 and the default sequence of the new frames replaces any
        custom one; otherwise the index and a custom sequence are kept and a
        default sequence is regenerated. A changed frame size resets the
        collision rectangle to the new frame. */
    method SetImage(img: Image, frameW: int32, frameH: int32) returns (o: Outcome)
      requires Valid() && IsImage(img)
      modifies this
      ensures Valid()
      ensures o.Fail? <==> RejectsFrameSize(img, frameW, frameH)
      ensures o.Fail? ==> o.error == IllegalArgument && unchanged(this)
      ensures o.Pass? ==> image == img && frameWidth == frameW && frameHeight == frameH
      ensures o.Pass? ==> transform == old(transform)
      ensures o.Pass? && FewerFrames(old(image), old(frameWidth), old(frameHeight), img, frameW, frameH) ==>
        sequenceIndex == 0 && !customSequence
      ensures o.Pass? && !FewerFrames(old(image), old(frameWidth), old(frameHeight), img, frameW, frameH) ==>
        && sequenceIndex == old(sequenceIndex)
        && customSequence == old(customSequence)
        && (customSequence ==> frameSequence == old(frameSequence))
      ensures o.Pass? && (frameW != old(frameWidth) || frameH != old(frameHeight)) ==>
        && collisionX == 0 && collisionY == 0
        && collisionWidth == frameW && collisionHeight == frameH
      ensures o.Pass? && frameW == old(frameWidth) && frameH == old(frameHeight) ==>
        && collisionX == old(collisionX) && collisionY == old(collisionY)
        && collisionWidth == old(collisionWidth) && collisionHeight == old(collisionHeight)
    {
      if RejectsFrameSize(img, frameW, frameH) {
        return Fail(IllegalArgument);
      }
      var oldCount := RawFrameCount(image, frameWidth, frameHeight);
      var newCount := RawFrameCount(img, frameW, frameH);
      assert oldCount >= 1 && newCount >= 1 by {
        FrameGrid(image, frameWidth, frameHeight);
        FrameGrid(img, frameW, frameH);
      }
      var r := Reframe(frameSequence, customSequence, sequenceIndex, oldCount, newCount);
      if frameW != frameWidth || frameH != frameHeight {
        collisionX, collisionY, collisionWidth, collisionHeight := 0, 0, frameW, frameH;
      }
      image, frameWidth, frameHeight := img, frameW, frameH;
      frameSequence, customSequence, sequenceIndex := r.0, r.1, r.2;
      return Pass;
    }

    /** `defineCollisionRectangle(x, y, width, height)`: throws
        IllegalArgumentException for a negative width or height. */
    method DefineCollisionRectangle(x: int32, y: int32, width: int32, height: int32)
      returns (o: Outcome)
      requires Valid()
      modifies this`collisionX, this`collisionY, this`collisionWidth, this`collisionHeight
      ensures Valid()
      ensures o.Fail? <==> width < 0 || height < 0
      ensures o.Fail? ==>
        && o.error == IllegalArgument
        && collisionX == old(collisionX) && collisionY == old(collisionY)
        && collisionWidth == old(collisionWidth) && collisionHeight == old(collisionHeight)
      ensures o.Pass? ==>
        && collisionX == x && collisionY == y
        && collisionWidth == width && collisionHeight == height
    {
      if width < 0 || height < 0 {
        return Fail(IllegalArgument);
      }
      collisionX, collisionY, collisionWidth, collisionHeight := x, y, width, height;
      return Pass;
    }

    /** `setTransform(transform)`: throws IllegalArgumentException for any
        code other than the eight `TRANS_*` values. */
    method SetTransform(t: Code) returns (o: Outcome)
      requires Valid()
      modifies this`transform
      ensures Valid()
      ensures o.Fail? <==> t !in AllTransforms()
      ensures o.Fail? ==> o.error == IllegalArgument && transform == old(transform)
      ensures o.Pass? ==> transform == t
    {
      TransformCodes();
      if !IsValid(t) {
        return Fail(IllegalArgument);
      }
      transform := t;
      return Pass;
    }
  }
}
