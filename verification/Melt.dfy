/** The screen melt (f_wipe.c): columns of the old screen slide down at their own pace and
    uncover the new one. Screens are arrays of two-pixel words, as the source casts them. */
module Melt {
  import opened CArith
  import opened Grid
  import opened TicCommand

  type Pair = bv16

  // ---- How far a column has slid ----

  /** One tick: wait, then speed up, then slide at 8 rows a tick until the bottom. */
  function Slide(y: int, height: nat): int {
    if y < 0 then y + 1
    else if y < height then Min(height, y + if y < 16 then y + 1 else 8)
    else y
  }

  function SlideBy(y: int, height: nat, n: nat): int {
    if n == 0 then y else Slide(SlideBy(y, height, n - 1), height)
  }

  lemma {:induction false} SlideByFinished(height: nat, n: nat)
    ensures SlideBy(height, height, n) == height
  {
    if n == 0 {
    } else {
      SlideByFinished(height, n - 1);
    }
  }

  /** How far a column that starts to move now has fallen after k ticks, were there no bottom. */
  function Fall(k: nat): nat {
    if k <= 4 then [0, 1, 3, 7, 15][k] else 31 + 8 * (k - 5)
  }

  /** Each tick is as long as the way fallen so far and one more, until that comes to 16; from there
      on 8. */
  lemma FallSteps(k: nat)
    ensures Fall(0) == 0
    ensures Fall(k + 1) - Fall(k) == if Fall(k) < 16 then Fall(k) + 1 else 8
  {
  }

  /** The animation in closed form: a column waits -y ticks and then falls to the bottom. */
  lemma {:induction false} SlideByIs(y: int, height: nat, n: nat)
    requires y <= 0
    ensures SlideBy(y, height, n) == if n + y <= 0 then y + n else Min(height, Fall(n + y))
  {
    if n == 0 {
    } else {
      SlideByIs(y, height, n - 1);
    }
  }

  lemma {:induction false} SlideByAdds(y: int, height: nat, m: nat, n: nat)
    ensures SlideBy(SlideBy(y, height, m), height, n) == SlideBy(y, height, m + n)
  {
    if n == 0 {
    } else {
      SlideByAdds(y, height, m, n - 1);
    }
  }

  /** A column that starts in the melt's range reaches the bottom and stays: on the 200-row screen
      after at most 42 ticks, and a column that waits the longest needs all of them. */
  lemma MeltEnds(y: int, height: nat, n: nat)
    requires -15 <= y <= 0 && height > 0
    ensures SlideBy(y, height, n) <= height
    ensures SlideBy(y, height, n) == height <==> 0 < n + y && Fall(n + y) >= height
    ensures height == 200 ==> (SlideBy(y, height, n) == height <==> n >= 27 - y)
    ensures n >= 15 + height ==> SlideBy(y, height, n) == height
  {
    SlideByIs(y, height, n);
  }

  // ---- The sum of what is left ----

  function Left(ys: seq<int>, height: nat): int {
    if ys == [] then 0 else height - ys[0] + Left(ys[1..], height)
  }

  function SlideAll(ys: seq<int>, height: nat): (r: seq<int>)
    ensures |r| == |ys|
  {
    seq(|ys|, i requires 0 <= i < |ys| => Slide(ys[i], height))
  }

  /** Every tick leaves less to do until nothing is left. */
  lemma {:induction false} TickLeavesLess(ys: seq<int>, height: nat)
    requires forall i | 0 <= i < |ys| :: ys[i] <= height
    ensures 0 <= Left(SlideAll(ys, height), height) <= Left(ys, height)
    ensures Left(SlideAll(ys, height), height) == Left(ys, height) <==> forall i | 0 <= i < |ys| :: ys[i] == height
    ensures Left(ys, height) == 0 <==> forall i | 0 <= i < |ys| :: ys[i] == height
  {
    if ys == [] {
    } else {
      TickLeavesLess(ys[1..], height);
      assert SlideAll(ys, height)[1..] == SlideAll(ys[1..], height);
      assert forall i | 0 < i < |ys| :: ys[i] == ys[1..][i - 1];
    }
  }

  // ---- The starting positions ----

  /** Where wipe_initMelt lets each column start, given the numbers M_Random delivers. */
  function StartAt(rnd: seq<Byte>, i: nat): (y: int)
    requires i < |rnd|
    ensures -15 <= y <= 0
    ensures i > 0 ==> -1 <= y - StartAt(rnd, i - 1) <= 1
  {
    if i == 0 then -(rnd[0] % 16)
    else
      var next := StartAt(rnd, i - 1) + rnd[i] % 3 - 1;
      if next > 0 then 0 else if next == -16 then -15 else next
  }

  /** The first column takes its start from the first number, and each other column its distance
      from its neighbour, unless that would leave the range. */
  lemma StartFollows(rnd: seq<Byte>, i: nat)
    requires i < |rnd|
    ensures i == 0 ==> StartAt(rnd, i) + rnd[0] % 16 == 0
    ensures i > 0 ==> var next := StartAt(rnd, i - 1) - 1 + rnd[i] % 3;
      StartAt(rnd, i) == if -15 <= next <= 0 then next else StartAt(rnd, i - 1)
  {
  }

  // ---- Rows and columns ----

  ghost predicate TransposedAt(columns: seq<Pair>, image: seq<Pair>, i: int, r: int, cols: nat, height: nat)
    requires |columns| == |image| == height * cols && 0 <= i < cols && 0 <= r < height
  {
    IdxBound(i, r, cols, height);
    IdxBound(r, i, height, cols);
    columns[Idx(i, r, height)] == image[Idx(r, i, cols)]
  }

  /** `columns` holds the image column by column. */
  ghost predicate Transposed(columns: seq<Pair>, image: seq<Pair>, cols: nat, height: nat)
    requires |columns| == |image| == height * cols
  {
    forall i, r | 0 <= i < cols && 0 <= r < height :: TransposedAt(columns, image, i, r, cols, height)
  }

  /** Word (x, y) of an image of so many columns goes to place x * height + y. */
  lemma TransposedIs(columns: seq<Pair>, image: seq<Pair>, x: nat, y: nat, cols: nat, height: nat)
    requires |columns| == |image| == height * cols && Transposed(columns, image, cols, height)
    requires x < cols && y < height
    ensures 0 <= x * height + y < |columns| && 0 <= y * cols + x < |image|
    ensures columns[x * height + y] == image[y * cols + x]
  {
    IdxBound(x, y, cols, height);
    IdxBound(y, x, height, cols);
    assert TransposedAt(columns, image, x, y, cols, height);
  }

  lemma TransposedUpdate(columns: seq<Pair>, image: seq<Pair>, x: int, y: int, cols: nat, height: nat)
    requires |columns| == |image| == height * cols && 0 <= x < cols && 0 <= y < height
    requires 0 <= Idx(x, y, height) < |columns| && 0 <= Idx(y, x, cols) < |image|
    ensures var columns' := columns[Idx(x, y, height) := image[Idx(y, x, cols)]];
      && TransposedAt(columns', image, x, y, cols, height)
      && forall i, r | 0 <= i < cols && 0 <= r < height && TransposedAt(columns, image, i, r, cols, height) ::
           TransposedAt(columns', image, i, r, cols, height)
  {
    hide Idx;
    var columns' := columns[Idx(x, y, height) := image[Idx(y, x, cols)]];
    forall i, r | 0 <= i < cols && 0 <= r < height && TransposedAt(columns, image, i, r, cols, height)
      ensures TransposedAt(columns', image, i, r, cols, height)
    {
      IdxBound(i, r, cols, height);
      if Idx(i, r, height) == Idx(x, y, height) {
        IdxInjective(i, r, x, y, height);
      }
    }
  }

  /** wipe_shittyColMajorXform: turns rows into columns, by way of a temporary copy. What the words
      of the image leave over is not touched. */
  method ColMajorXform(a: array<Pair>, width: nat, height: nat)
    requires a.Length >= height * width
    modifies a
    ensures Transposed(a[..height * width], old(a[..height * width]), width, height)
    ensures a[height * width..] == old(a[height * width..])
  {
    hide Idx, TransposedAt;
    ghost var n, before := height * width, a[..];
    ghost var image := a[..n];
    assert width * height == n;
    var dest := new Pair[width * height];
    for y := 0 to height
      invariant a[..] == before
      invariant forall i, r | 0 <= i < width && 0 <= r < y :: TransposedAt(dest[..], image, i, r, width, height)
    {
      for x := 0 to width
        invariant a[..] == before
        invariant forall i, r | 0 <= i < width && 0 <= r < y :: TransposedAt(dest[..], image, i, r, width, height)
        invariant forall i | 0 <= i < x :: TransposedAt(dest[..], image, i, y, width, height)
      {
        IdxBound(x, y, width, height);
        IdxBound(y, x, height, width);
        TransposedUpdate(dest[..], image, x, y, width, height);
        ghost var columns := dest[..][Idx(x, y, height) := image[Idx(y, x, width)]];
        dest[Idx(x, y, height)] := a[Idx(y, x, width)];
        assert dest[..] == columns;
      }
    }
    ghost var columns := dest[..];
    assert Transposed(columns, image, width, height);
    forall k | 0 <= k < dest.Length {
      a[k] := dest[k];
    }
    assert a[..n] == columns;
    assert a[n..] == before[n..];
  }

  ghost predicate CopiedAt(before: seq<Pair>, after: seq<Pair>, src: seq<Pair>, row: nat, i: nat, s: nat,
                           count: nat, r: int, c: int, width: nat, height: nat)
    requires |before| == |after| == height * width && s + count <= |src|
    requires 0 <= r < height && 0 <= c < width
  {
    IdxBound(r, c, height, width);
    after[Idx(r, c, width)] == if c == i && row <= r < row + count then src[s + r - row] else before[Idx(r, c, width)]
  }

  /** `after` is `before` with the words of src from s on laid down column i from `row` on. */
  ghost predicate Copied(before: seq<Pair>, after: seq<Pair>, src: seq<Pair>, row: nat, i: nat, s: nat,
                         count: nat, width: nat, height: nat)
    requires |before| == height * width && row + count <= height && s + count <= |src|
  {
    && |after| == |before|
    && forall r, c | 0 <= r < height && 0 <= c < width ::
         CopiedAt(before, after, src, row, i, s, count, r, c, width, height)
  }

  lemma CopiedNothing(before: seq<Pair>, src: seq<Pair>, row: nat, i: nat, s: nat, width: nat, height: nat)
    requires |before| == height * width && row <= height && s <= |src|
    ensures Copied(before, before, src, row, i, s, 0, width, height)
  {
  }

  lemma CopyOne(before: seq<Pair>, after: seq<Pair>, src: seq<Pair>, row: nat, i: nat, s: nat, k: nat,
                width: nat, height: nat)
    requires |before| == height * width && i < width && row + k < height && s + k < |src|
    requires Copied(before, after, src, row, i, s, k, width, height)
    requires 0 <= Idx(row + k, i, width) < |after|
    ensures Copied(before, after[Idx(row + k, i, width) := src[s + k]], src, row, i, s, k + 1, width, height)
  {
    hide Idx;
    var next, k' := after[Idx(row + k, i, width) := src[s + k]], k + 1;
    forall r, c | 0 <= r < height && 0 <= c < width
      ensures CopiedAt(before, next, src, row, i, s, k', r, c, width, height)
    {
      IdxBound(r, c, height, width);
      assert CopiedAt(before, after, src, row, i, s, k, r, c, width, height);
      if Idx(r, c, width) == Idx(row + k, i, width) {
        IdxInjective(r, c, row + k, i, width);
      }
    }
  }

  /** The copying loops: `count` words, one per row from `row` down in column i. */
  method CopyDown(dst: array<Pair>, row: nat, i: nat, src: array<Pair>, s: nat, count: nat, width: nat, height: nat)
    requires dst != src && dst.Length >= height * width && src.Length >= height * width && i < width
    requires row + count <= height && s + count <= height * width
    modifies dst
    ensures Copied(old(dst[..height * width]), dst[..height * width], src[..height * width], row, i, s, count,
                   width, height)
    ensures dst[height * width..] == old(dst[height * width..])
  {
    hide Idx, Copied;
    ghost var n := height * width;
    ghost var before, tail, from := dst[..n], dst[n..], src[..n];
    CopiedNothing(before, from, row, i, s, width, height);
    var d, idx, p := Idx(row, i, width), 0, s;
    ghost var k := 0;
    for j := count downto 0
      invariant k == count - j && p == s + k && d + idx == Idx(row + k, i, width)
      invariant src[..n] == from && dst[n..] == tail
      invariant Copied(before, dst[..n], from, row, i, s, k, width, height)
    {
      IdxBound(row + k, i, height, width);
      CopyOne(before, dst[..n], from, row, i, s, k, width, height);
      ghost var next := dst[..n][Idx(row + k, i, width) := from[s + k]];
      dst[d + idx] := src[p];
      assert dst[..n] == next;
      p := p + 1;
      idx := idx + width;
      IdxNext(row + k, i, width);
      k := k + 1;
    }
  }

  ghost predicate RowShows(scr: seq<Pair>, oldImage: seq<Pair>, newImage: seq<Pair>, i: int, yi: int,
                           r: int, cols: nat, height: nat)
    requires |scr| == |oldImage| == |newImage| == height * cols && 0 <= i < cols && yi <= height && 0 <= r < height
  {
    var slid := Max(yi, 0);
    IdxBound(r, i, height, cols);
    if r >= slid then IdxBound(r - slid, i, height, cols); scr[Idx(r, i, cols)] == oldImage[Idx(r - slid, i, cols)]
    else scr[Idx(r, i, cols)] == newImage[Idx(r, i, cols)]
  }

  /** Rows above the slide show the new screen; rows from there down show the old screen, shifted
      down by it. A column that still waits shows the old screen in place. */
  ghost predicate ColumnShows(scr: seq<Pair>, oldImage: seq<Pair>, newImage: seq<Pair>, i: int, yi: int,
                              cols: nat, height: nat)
    requires |scr| == |oldImage| == |newImage| == height * cols && 0 <= i < cols && yi <= height
  {
    forall r | 0 <= r < height :: RowShows(scr, oldImage, newImage, i, yi, r, cols, height)
  }

  lemma UnmovedShows(scr: seq<Pair>, oldImage: seq<Pair>, newImage: seq<Pair>, i: int, yi: int, cols: nat, height: nat)
    requires |scr| == |oldImage| == |newImage| == height * cols && 0 <= i < cols && yi <= 0 && scr == oldImage
    ensures ColumnShows(scr, oldImage, newImage, i, yi, cols, height)
  {
  }

  lemma StillWaiting(scr: seq<Pair>, oldImage: seq<Pair>, newImage: seq<Pair>, i: int, yi: int, cols: nat, height: nat)
    requires |scr| == |oldImage| == |newImage| == height * cols && 0 <= i < cols && yi < 0
    requires ColumnShows(scr, oldImage, newImage, i, yi, cols, height)
    ensures ColumnShows(scr, oldImage, newImage, i, yi + 1, cols, height)
  {
    var next := yi + 1;
    forall r | 0 <= r < height
      ensures RowShows(scr, oldImage, newImage, i, next, r, cols, height)
    {
      assert RowShows(scr, oldImage, newImage, i, yi, r, cols, height);
    }
  }

  lemma SourceFits(i: nat, r: nat, count: nat, cols: nat, height: nat)
    requires i < cols && r < height && r + count <= height
    ensures 0 <= Idx(i, r, height) && Idx(i, r, height) + count <= height * cols
  {
    IdxBound(i, r, cols, height);
    if count > 0 {
      IdxBound(i, r + count - 1, cols, height);
    }
  }

  /** The two copies, new screen above and old screen below, move column i from `from` to `to`. */
  lemma SlidShows(before: seq<Pair>, between: seq<Pair>, after: seq<Pair>, start: seq<Pair>, end: seq<Pair>,
                  oldImage: seq<Pair>, newImage: seq<Pair>, i: nat, from: nat, to: nat, cols: nat, height: nat)
    requires |before| == |between| == |after| == |start| == |end| == |oldImage| == |newImage| == height * cols
    requires i < cols && from < to <= height
    requires Transposed(start, oldImage, cols, height) && Transposed(end, newImage, cols, height)
    requires 0 <= Idx(i, from, height) && Idx(i, from, height) + (to - from) <= |end|
    requires 0 <= Idx(i, 0, height) && Idx(i, 0, height) + (height - to) <= |start|
    requires Copied(before, between, end, from, i, Idx(i, from, height), to - from, cols, height)
    requires Copied(between, after, start, to, i, Idx(i, 0, height), height - to, cols, height)
    requires ColumnShows(before, oldImage, newImage, i, from, cols, height)
    ensures ColumnShows(after, oldImage, newImage, i, to, cols, height)
  {
    forall r | 0 <= r < height
      ensures RowShows(after, oldImage, newImage, i, to, r, cols, height)
    {
      assert RowShows(before, oldImage, newImage, i, from, r, cols, height);
      assert CopiedAt(before, between, end, from, i, Idx(i, from, height), to - from, r, i, cols, height);
      assert CopiedAt(between, after, start, to, i, Idx(i, 0, height), height - to, r, i, cols, height);
      if from <= r < to {
        assert TransposedAt(end, newImage, i, r, cols, height);
      } else if to <= r {
        assert TransposedAt(start, oldImage, i, r - to, cols, height);
      }
    }
  }

  /** The other columns stay as they were. */
  lemma OtherColumn(before: seq<Pair>, between: seq<Pair>, after: seq<Pair>, start: seq<Pair>, end: seq<Pair>,
                    oldImage: seq<Pair>, newImage: seq<Pair>, i: nat, from: nat, to: nat, c: nat, yc: int,
                    cols: nat, height: nat)
    requires |before| == |between| == |after| == |start| == |end| == |oldImage| == |newImage| == height * cols
    requires i < cols && c < cols && c != i && from < to <= height && yc <= height
    requires 0 <= Idx(i, from, height) && Idx(i, from, height) + (to - from) <= |end|
    requires 0 <= Idx(i, 0, height) && Idx(i, 0, height) + (height - to) <= |start|
    requires Copied(before, between, end, from, i, Idx(i, from, height), to - from, cols, height)
    requires Copied(between, after, start, to, i, Idx(i, 0, height), height - to, cols, height)
    requires ColumnShows(before, oldImage, newImage, c, yc, cols, height)
    ensures ColumnShows(after, oldImage, newImage, c, yc, cols, height)
  {
    forall r | 0 <= r < height
      ensures RowShows(after, oldImage, newImage, c, yc, r, cols, height)
    {
      assert RowShows(before, oldImage, newImage, c, yc, r, cols, height);
      assert CopiedAt(before, between, end, from, i, Idx(i, from, height), to - from, r, c, cols, height);
      assert CopiedAt(between, after, start, to, i, Idx(i, 0, height), height - to, r, c, cols, height);
    }
  }

  /** How many two-pixel words a screen of so many bytes holds. */
  function ScreenWords(width: nat, height: nat): nat {
    width * height / 2
  }

  /** How many words the columns of a screen of so many bytes take up. */
  function Words(width: nat, height: nat): nat {
    height * (width / 2)
  }

  /** They lie in the screen's, and are all of them unless an odd width leaves half a word of every
      row over. */
  lemma WordsFit(width: nat, height: nat)
    ensures Words(width, height) <= ScreenWords(width, height)
    ensures Words(width, height) == ScreenWords(width, height) <==> width % 2 == 0 || height < 2
  {
    var c, odd := width / 2, width % 2;
    assert width * height == 2 * (height * c) + odd * height;
  }

  /** The first n words are the new screen's, the others the old one's. */
  predicate Melted(screen: seq<Pair>, oldImage: seq<Pair>, newImage: seq<Pair>, n: nat) {
    n <= |oldImage| == |newImage| && screen == newImage[..n] + oldImage[n..]
  }

  /** So the melt ends with the new screen in full exactly when the width is even, or the words left
      over were the same on both screens. */
  lemma MeltedInFull(screen: seq<Pair>, oldImage: seq<Pair>, newImage: seq<Pair>, width: nat, height: nat)
    requires |newImage| == ScreenWords(width, height) && Melted(screen, oldImage, newImage, Words(width, height))
    ensures screen == newImage <==> oldImage[Words(width, height)..] == newImage[Words(width, height)..]
    ensures width % 2 == 0 ==> screen == newImage
  {
    WordsFit(width, height);
    var n := Words(width, height);
    assert screen[n..] == oldImage[n..] && screen[..n] == newImage[..n];
    assert newImage == newImage[..n] + newImage[n..];
  }

  // ---- The length of a whole melt ----

  function StartAll(rnd: seq<Byte>, cols: nat): seq<int>
    requires cols <= |rnd|
  {
    seq(cols, c requires 0 <= c < cols => StartAt(rnd, c))
  }

  function SlideEach(ys: seq<int>, height: nat, n: nat): seq<int> {
    seq(|ys|, c requires 0 <= c < |ys| => SlideBy(ys[c], height, n))
  }

  lemma SlideEachAdds(ys: seq<int>, height: nat, m: nat, n: nat)
    ensures SlideEach(SlideEach(ys, height, m), height, n) == SlideEach(ys, height, m + n)
  {
    forall c | 0 <= c < |ys|
      ensures SlideBy(SlideBy(ys[c], height, m), height, n) == SlideBy(ys[c], height, m + n)
    {
      SlideByAdds(ys[c], height, m, n);
    }
  }

  predicate AllDown(ys: seq<int>, height: nat) {
    forall c | 0 <= c < |ys| :: ys[c] == height
  }

  /** After n ticks every column has reached the bottom. */
  predicate Finished(rnd: seq<Byte>, cols: nat, height: nat, n: nat)
    requires cols <= |rnd|
  {
    AllDown(SlideEach(StartAll(rnd, cols), height, n), height)
  }

  /** On 200 rows a column is down 27 ticks after it starts to move. */
  lemma FinishedOn200Rows(rnd: seq<Byte>, cols: nat, n: nat)
    requires cols <= |rnd|
    ensures Finished(rnd, cols, 200, n) <==> forall c | 0 <= c < cols :: n >= 27 - StartAll(rnd, cols)[c]
  {
    hide SlideBy;
    var start := StartAll(rnd, cols);
    var ys := SlideEach(start, 200, n);
    forall c | 0 <= c < cols
      ensures ys[c] == 200 <==> n >= 27 - start[c]
    {
      MeltEnds(start[c], 200, n);
    }
    if forall c | 0 <= c < cols :: n >= 27 - start[c] {
      assert AllDown(ys, 200);
    }
  }

  /** How many calls a melt of so many rows takes at most. */
  function LastCall(height: nat): (calls: nat)
    ensures 1 <= calls <= 16 + height && (height == 200 ==> calls == 43)
  {
    if height == 200 then 43 else 16 + height
  }

  lemma FinishedInTime(rnd: seq<Byte>, cols: nat, height: nat, n: nat)
    requires cols <= |rnd| && height > 0 && n + 1 >= LastCall(height)
    ensures Finished(rnd, cols, height, n)
  {
    forall c | 0 <= c < cols
      ensures SlideBy(StartAt(rnd, c), height, n) == height
    {
      MeltEnds(StartAt(rnd, c), height, n);
    }
  }

  /** The ticks of the first k calls. */
  function Total(ticks: nat -> nat, k: nat): nat {
    if k == 0 then 0 else Total(ticks, k - 1) + ticks(k - 1)
  }

  lemma {:induction false} TotalGrows(ticks: nat -> nat, k: nat)
    requires forall j :: ticks(j) >= 1
    ensures Total(ticks, k) >= k
  {
    if k == 0 {
    } else {
      TotalGrows(ticks, k - 1);
    }
  }

  lemma FirstCall(rnd: seq<Byte>, cols: nat, height: nat, ticks: nat -> nat)
    requires cols <= |rnd|
    ensures SlideEach(StartAll(rnd, cols), height, ticks(0)) == SlideEach(StartAll(rnd, cols), height, Total(ticks, 1))
    ensures AllDown(StartAll(rnd, cols), height) <==> Finished(rnd, cols, height, Total(ticks, 0))
  {
    assert SlideEach(StartAll(rnd, cols), height, 0) == StartAll(rnd, cols);
    assert Total(ticks, 1) == Total(ticks, 0) + ticks(0);
  }

  lemma NextCall(rnd: seq<Byte>, cols: nat, height: nat, ticks: nat -> nat, k: nat)
    requires cols <= |rnd|
    ensures var ys := SlideEach(StartAll(rnd, cols), height, Total(ticks, k));
      && SlideEach(ys, height, ticks(k)) == SlideEach(StartAll(rnd, cols), height, Total(ticks, k + 1))
      && (AllDown(ys, height) <==> Finished(rnd, cols, height, Total(ticks, k)))
  {
    SlideEachAdds(StartAll(rnd, cols), height, Total(ticks, k), ticks(k));
  }

  /** A call before which the columns were not all down comes early. */
  lemma InTime(rnd: seq<Byte>, cols: nat, height: nat, ticks: nat -> nat, k: nat)
    requires cols <= |rnd| && height > 0 && forall j :: ticks(j) >= 1
    ensures !Finished(rnd, cols, height, Total(ticks, k)) ==> k + 2 <= LastCall(height)
  {
    hide Finished, LastCall;
    TotalGrows(ticks, k);
    if k + 2 > LastCall(height) {
      FinishedInTime(rnd, cols, height, Total(ticks, k));
    }
  }

  // ---- The wipe ----

  class Wipe {
    var scr: array<Pair>     // wipe_scr, row by row
    var start: array<Pair>   // wipe_scr_start, column by column once the melt is set up
    var end: array<Pair>     // wipe_scr_end, likewise
    var y: array<int>
    var go: bool             // whether a wipe is under way
    ghost var startImage: seq<Pair>  // the two screens as they were captured, row by row
    ghost var endImage: seq<Pair>

    /** The two captured screens; `y` is allocated when the melt is set up. */
    constructor (scr: array<Pair>, start: array<Pair>, end: array<Pair>)
      requires scr != start && scr != end && start != end
      ensures this.scr == scr && this.start == start && this.end == end && !go && Distinct()
    {
      this.scr, this.start, this.end, go := scr, start, end, false;
      y := new int[0];
      startImage, endImage := [], [];
    }

    ghost predicate Distinct()
      reads `scr, `start, `end
    {
      scr != start && scr != end && start != end
    }

    /** The melt is set up for `cols` two-pixel columns and `height` rows. Words past the last row
        are nobody's. */
    ghost predicate Ready(cols: nat, height: nat)
      reads `scr, `start, `end, `y, `startImage, `endImage, scr, start, end, y
    {
      && Distinct() && y as object !in {scr, start, end} && y.Length >= cols
      && scr.Length == start.Length == end.Length == |startImage| == |endImage|
      && scr.Length >= height * cols && scr[height * cols..] == startImage[height * cols..]
      && (forall i | 0 <= i < cols :: -15 <= y[i] <= height)
      && Transposed(start[..height * cols], startImage[..height * cols], cols, height)
      && Transposed(end[..height * cols], endImage[..height * cols], cols, height)
    }

    /** Column i shows the new screen down to where it has slid, and the old one below. */
    ghost predicate Shows(i: int, cols: nat, height: nat)
      requires Ready(cols, height) && 0 <= i < cols
      reads `scr, `start, `end, `y, `startImage, `endImage, scr, start, end, y
    {
      var n := height * cols;
      ColumnShows(scr[..n], startImage[..n], endImage[..n], i, y[i], cols, height)
    }

    /** Word by word: above its slide a column holds the new screen, and below it the old one, moved
        down by as much. */
    lemma ScreenIs(i: nat, r: nat, cols: nat, height: nat)
      requires Ready(cols, height) && i < cols && r < height && Shows(i, cols, height)
      ensures 0 <= r * cols + i < scr.Length
      ensures r < y[i] ==> scr[r * cols + i] == endImage[r * cols + i]
      ensures r >= y[i] ==>
        var from := if y[i] > 0 then r - y[i] else r;
        0 <= from * cols + i < scr.Length && scr[r * cols + i] == startImage[from * cols + i]
    {
      IdxBound(r, i, height, cols);
      if r >= y[i] {
        IdxBound(r - Max(y[i], 0), i, height, cols);
      }
      var n := height * cols;
      assert RowShows(scr[..n], startImage[..n], endImage[..n], i, y[i], r, cols, height);
    }

    method InitPositions(width: nat, rnd: seq<Byte>)
      requires width > 0 && |rnd| == width
      modifies `y
      ensures fresh(y) && y.Length == width && forall i | 0 <= i < width :: y[i] == StartAt(rnd, i)
      ensures y[0] + rnd[0] % 16 == 0
      ensures forall i | 1 <= i < width :: var next := y[i - 1] - 1 + rnd[i] % 3;
        y[i] == if -15 <= next <= 0 then next else y[i - 1]
    {
      hide StartAt;
      StartFollows(rnd, 0);
      y := new int[width];
      var first: int := rnd[0];
      y[0] := -(first % 16);
      for i := 1 to width
        invariant fresh(y) && y.Length == width && forall j | 0 <= j < i :: y[j] == StartAt(rnd, j)
      {
        StartFollows(rnd, i);
        var r: int := rnd[i];
        r := r % 3 - 1;
        y[i] := y[i - 1] + r;
        if y[i] > 0 {
          y[i] := 0;
        } else if y[i] == -16 {
          y[i] := -15;
        }
      }
      forall i | 1 <= i < width
        ensures var next := y[i - 1] - 1 + rnd[i] % 3;
          y[i] == if -15 <= next <= 0 then next else y[i - 1]
      {
        StartFollows(rnd, i);
      }
    }

    /** The screen is width by height bytes, of which words cover all but an odd one. */
    method InitMelt(width: nat, height: nat, rnd: seq<Byte>)
      requires width > 0 && height > 0 && |rnd| == width
      requires Distinct() && scr.Length == start.Length == end.Length == ScreenWords(width, height)
      modifies this, scr, start, end
      ensures unchanged(`scr) && unchanged(`start) && unchanged(`end) && unchanged(`go)
      ensures startImage == old(start[..]) && endImage == old(end[..]) && scr[..] == startImage
      ensures Ready(width / 2, height)
      ensures fresh(y) && y.Length == width && forall i | 0 <= i < width :: y[i] == StartAt(rnd, i)
      ensures y[0] + rnd[0] % 16 == 0
      ensures forall i | 1 <= i < width :: var next := y[i - 1] - 1 + rnd[i] % 3;
        y[i] == if -15 <= next <= 0 then next else y[i - 1]
      ensures forall i | 0 <= i < width / 2 :: Shows(i, width / 2, height)
    {
      hide ColumnShows, Transposed, StartAt;
      startImage, endImage := start[..], end[..];
      forall k | 0 <= k < scr.Length {
        scr[k] := start[k];
      }
      assert scr[..] == startImage == start[..] && end[..] == endImage;
      WordsFit(width, height);
      ghost var n := height * (width / 2);
      ColMajorXform(start, width / 2, height);
      assert end[..] == endImage;
      ghost var columns := start[..n];
      ColMajorXform(end, width / 2, height);
      assert start[..n] == columns;
      ghost var columns' := end[..n];
      InitPositions(width, rnd);
      assert start[..n] == columns && end[..n] == columns' && scr[..] == startImage;
      assert forall i | 0 <= i < width :: -15 <= StartAt(rnd, i) <= 0;
      forall i | 0 <= i < width / 2
        ensures ColumnShows(scr[..n], startImage[..n], endImage[..n], i, y[i], width / 2, height)
      {
        UnmovedShows(scr[..n], startImage[..n], endImage[..n], i, y[i], width / 2, height);
      }
    }

    /** Moves column i down by dy rows. */
    method SlideColumn(i: nat, dy: nat, width: nat, height: nat)
      requires Ready(width, height) && i < width && 0 <= y[i] < y[i] + dy <= height
      requires forall c | 0 <= c < width :: Shows(c, width, height)
      modifies scr, y
      ensures Ready(width, height)
      ensures forall c | 0 <= c < width :: Shows(c, width, height)
      ensures y[..] == old(y[..])[i := old(y[i]) + dy]
    {
      hide ColumnShows, Transposed, Idx, Copied;
      ghost var n := height * width;
      ghost var before, from, ys := scr[..n], y[i], y[..];
      ghost var columns, columns' := start[..n], end[..n];
      ghost var oldImage, newImage := startImage[..n], endImage[..n];
      forall c | 0 <= c < width
        ensures ColumnShows(before, oldImage, newImage, c, ys[c], width, height)
      {
        assert Shows(c, width, height);
      }
      SourceFits(i, y[i], dy, width, height);
      CopyDown(scr, y[i], i, end, Idx(i, y[i], height), dy, width, height);
      ghost var between := scr[..n];
      y[i] := y[i] + dy;
      ghost var to := y[i];
      SourceFits(i, 0, height - y[i], width, height);
      CopyDown(scr, y[i], i, start, Idx(i, 0, height), height - y[i], width, height);
      assert start[..n] == columns && end[..n] == columns' && y[..] == ys[i := to];
      SlidShows(before, between, scr[..n], columns, columns', oldImage, newImage, i, from, to, width, height);
      forall c | 0 <= c < width
        ensures ColumnShows(scr[..n], oldImage, newImage, c, y[..][c], width, height)
      {
        if c != i {
          OtherColumn(before, between, scr[..n], columns, columns', oldImage, newImage, i, from, to, c, ys[c],
                      width, height);
        }
      }
    }

    /** One column, one tick. */
    method MeltColumn(i: nat, width: nat, height: nat) returns (moved: bool)
      requires Ready(width, height) && i < width
      requires forall c | 0 <= c < width :: Shows(c, width, height)
      modifies scr, y
      ensures Ready(width, height)
      ensures forall c | 0 <= c < width :: Shows(c, width, height)
      ensures y[..] == old(y[..])[i := Slide(old(y[i]), height)]
      ensures y[i] == if old(y[i]) < 0 then old(y[i]) + 1
                      else if old(y[i]) < 16 then Min(height, old(y[i]) + old(y[i]) + 1)
                      else Min(height, old(y[i]) + 8)
      ensures moved <==> old(y[i]) < height
    {
      hide ColumnShows, Transposed;
      moved := false;
      if y[i] < 0 {
        assert Shows(i, width, height);
        ghost var n := height * width;
        StillWaiting(scr[..n], startImage[..n], endImage[..n], i, y[i], width, height);
        y[i] := y[i] + 1;
        moved := true;
        assert forall c | 0 <= c < width && c != i :: old(Shows(c, width, height)) ==> Shows(c, width, height);
      } else if y[i] < height {
        var dy := if y[i] < 16 then y[i] + 1 else 8;
        if y[i] + dy >= height {
          dy := height - y[i];
        }
        SlideColumn(i, dy, width, height);
        moved := true;
      }
    }

    /** With every column at the bottom, the screen is the new one, but for the words left over. */
    lemma AllUncovered(cols: nat, height: nat)
      requires Ready(cols, height) && forall c | 0 <= c < cols :: Shows(c, cols, height) && y[c] == height
      ensures Melted(scr[..], startImage, endImage, height * cols)
    {
      hide Transposed;
      var n := height * cols;
      forall k | 0 <= k < n
        ensures scr[k] == endImage[k]
      {
        if cols > 0 {
          var r, c := IdxOnto(k, height, cols);
          assert Shows(c, cols, height);
          assert RowShows(scr[..n], startImage[..n], endImage[..n], c, y[c], r, cols, height);
        }
      }
      assert scr[..n] == endImage[..n];
      assert scr[..] == scr[..n] + scr[n..];
    }

    /** One animation step of so many tics; true when no column had anywhere left to go. */
    method DoMelt(screenWidth: nat, height: nat, ticks: nat) returns (done: bool)
      requires Ready(screenWidth / 2, height)
      requires forall c | 0 <= c < screenWidth / 2 :: Shows(c, screenWidth / 2, height)
      modifies scr, y
      ensures Ready(screenWidth / 2, height)
      ensures forall c | 0 <= c < screenWidth / 2 :: Shows(c, screenWidth / 2, height)
      ensures forall c | 0 <= c < screenWidth / 2 :: y[c] == SlideBy(old(y[c]), height, ticks)
      ensures done <==> ticks == 0 || forall c | 0 <= c < screenWidth / 2 :: old(y[c]) == height
      ensures done && ticks > 0 ==> Melted(scr[..], startImage, endImage, Words(screenWidth, height))
    {
      hide Shows, Slide, Transposed;
      done := true;
      var width := screenWidth / 2;
      ghost var ys := y[..];
      for t := 0 to ticks
        invariant Ready(width, height) && forall c | 0 <= c < width :: Shows(c, width, height)
        invariant forall c | 0 <= c < width :: y[c] == SlideBy(ys[c], height, t)
        invariant done <==> t == 0 || forall c | 0 <= c < width :: ys[c] == height
      {
        ghost var tick := y[..];
        for i := 0 to width
          invariant Ready(width, height) && forall c | 0 <= c < width :: Shows(c, width, height)
          invariant forall c | 0 <= c < i :: y[c] == Slide(tick[c], height)
          invariant forall c | i <= c < width :: y[c] == tick[c]
          invariant done <==> (t == 0 || forall c | 0 <= c < width :: ys[c] == height)
                              && forall c | 0 <= c < i :: tick[c] == height
        {
          var moved := MeltColumn(i, width, height);
          if moved {
            done := false;
          }
        }
        forall c | 0 <= c < width && ys[c] == height
          ensures tick[c] == height
        {
          SlideByFinished(height, t);
        }
      }
      if done && ticks > 0 {
        forall c | 0 <= c < width
          ensures y[c] == height
        {
          SlideByFinished(height, ticks);
        }
        AllUncovered(width, height);
      }
    }

    /** Where the columns stand, or will start. */
    ghost function Columns(rnd: seq<Byte>, cols: nat): seq<int>
      requires if go then cols <= y.Length else cols <= |rnd|
      reads `go, `y, y
    {
      if go then y[..cols] else StartAll(rnd, cols)
    }

    ghost predicate Melting(width: nat, height: nat)
      reads `scr, `start, `end, `y, `startImage, `endImage, scr, start, end, y
    {
      Ready(width / 2, height) && forall c | 0 <= c < width / 2 :: Shows(c, width / 2, height)
    }

    /** A wipe can start, or go on. */
    ghost predicate Wipeable(width: nat, height: nat)
      reads `scr, `start, `end, `y, `startImage, `endImage, `go, scr, start, end, y
    {
      if go then Melting(width, height)
      else Distinct() && scr.Length == start.Length == end.Length == ScreenWords(width, height)
    }

    /** wipe_ScreenWipe for the melt: sets it up on the first call, and takes it down when it is done. */
    method ScreenWipe(width: nat, height: nat, ticks: nat, rnd: seq<Byte>) returns (done: bool)
      requires width > 0 && height > 0 && |rnd| == width && Wipeable(width, height)
      modifies this, scr, start, end, y
      ensures unchanged(`scr) && unchanged(`start) && unchanged(`end) && Melting(width, height)
      ensures old(go) ==> y == old(y) && startImage == old(startImage) && endImage == old(endImage)
      ensures !old(go) ==> fresh(y) && startImage == old(start[..]) && endImage == old(end[..])
      ensures width / 2 <= y.Length && y[..width / 2] == SlideEach(old(Columns(rnd, width / 2)), height, ticks)
      ensures done <==> !go
      ensures done <==> ticks == 0 || AllDown(old(Columns(rnd, width / 2)), height)
      ensures done && ticks > 0 ==> Melted(scr[..], startImage, endImage, Words(width, height))
    {
      hide Words, ScreenWords, Shows, StartAt, Transposed, Melted, SlideBy;
      if !go {
        go := true;
        InitMelt(width, height, rnd);
        assert y[..width / 2] == StartAll(rnd, width / 2);
      }
      ghost var ys := y[..width / 2];
      assert ys == old(Columns(rnd, width / 2));
      done := DoMelt(width, height, ticks);
      assert y[..width / 2] == SlideEach(ys, height, ticks);
      if done {
        go := false;
      }
    }

    /** The loop of D_Display: wipes, with one tick or more each time, until the wipe is done. It ends
        with the call after the one that brought the last column to the bottom, and the screen is then
        the new one. */
    method WipeScreen(width: nat, height: nat, rnd: seq<Byte>, ticks: nat -> nat) returns (calls: nat)
      requires width > 0 && height > 0 && |rnd| == width && forall k :: ticks(k) >= 1
      requires !go && scr != start && scr != end && start != end
      requires scr.Length == start.Length == end.Length == ScreenWords(width, height)
      modifies this, scr, start, end, y
      ensures !go && 1 <= calls <= LastCall(height)
      ensures Finished(rnd, width / 2, height, Total(ticks, calls - 1))
      ensures forall k: nat | k < calls - 1 :: !Finished(rnd, width / 2, height, Total(ticks, k))
      ensures Melted(scr[..], old(start[..]), old(end[..]), Words(width, height))
      ensures width % 2 == 0 ==> scr[..] == old(end[..])
    {
      hide Words, ScreenWords, LastCall, Total, Finished, Melting, Melted, SlideEach, AllDown, StartAll;
      ghost var ys, oldImage, newImage := StartAll(rnd, width / 2), start[..], end[..];
      FirstCall(rnd, width / 2, height, ticks);
      calls := 1;
      var done := ScreenWipe(width, height, ticks(0), rnd);
      while !done
        invariant Melting(width, height) && fresh(y) && done == !go
        invariant 1 <= calls <= LastCall(height)
        invariant scr == old(scr) && start == old(start) && end == old(end)
        invariant startImage == oldImage && endImage == newImage
        invariant width / 2 <= y.Length && y[..width / 2] == SlideEach(ys, height, Total(ticks, calls))
        invariant done <==> Finished(rnd, width / 2, height, Total(ticks, calls - 1))
        invariant forall k: nat | k < calls - 1 :: !Finished(rnd, width / 2, height, Total(ticks, k))
        invariant done ==> Melted(scr[..], oldImage, newImage, Words(width, height))
        decreases LastCall(height) - calls
      {
        InTime(rnd, width / 2, height, ticks, calls - 1);
        done := ScreenWipe(width, height, ticks(calls), rnd);
        NextCall(rnd, width / 2, height, ticks, calls);
        calls := calls + 1;
      }
      if width % 2 == 0 {
        MeltedInFull(scr[..], oldImage, newImage, width, height);
      }
    }
  }
}
