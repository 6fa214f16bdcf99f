/** `display_clean_set_bg`: fill a partial frame buffer with one colour and
    write it down the screen in horizontal strips of the descriptor's height. */
module Strips {
  import opened Board

  /** The writes of the strip loop from row y on: one at x = 0 for every
      y, y + h, y + 2h, ... below `y_resolution`. */
  function StripsFrom(y: int, yResolution: int, desc: BufferDesc, snapshot: seq<bv16>): (w: seq<Event>)
    requires desc.height > 0 || y >= yResolution
    ensures w == [] <==> y >= yResolution
    ensures forall k :: 0 <= k < |w| ==>
      w[k].Written? && w[k].x == 0 && y <= w[k].y < yResolution && w[k].desc == desc && w[k].frame == Pixels(snapshot)
    decreases yResolution - y
  {
    if y >= yResolution then []
    else [Written(0, y, desc, Pixels(snapshot))] + StripsFrom(y + desc.height, yResolution, desc, snapshot)
  }

  /** Strip k starts at y0 + k * height and above the bottom edge. */
  lemma {:induction false} StripsFromAt(y0: int, yResolution: int, desc: BufferDesc, snapshot: seq<bv16>, k: nat)
    requires desc.height > 0
    requires k < |StripsFrom(y0, yResolution, desc, snapshot)|
    ensures StripsFrom(y0, yResolution, desc, snapshot)[k] == Written(0, y0 + k * desc.height, desc, Pixels(snapshot))
    ensures y0 + k * desc.height < yResolution
    decreases k
  {
    if k > 0 {
      var h := desc.height;
      StripsFromAt(y0 + h, yResolution, desc, snapshot, k - 1);
      assert y0 + h + (k - 1) * h == y0 + k * h;
    }
  }

  /** The row after the last strip is at or past the bottom edge. */
  lemma {:induction false} StripsFromEnd(y0: int, yResolution: int, desc: BufferDesc, snapshot: seq<bv16>)
    requires desc.height > 0
    ensures y0 + |StripsFrom(y0, yResolution, desc, snapshot)| * desc.height >= yResolution
    decreases yResolution - y0
  {
    if y0 < yResolution {
      var h := desc.height;
      var n := |StripsFrom(y0 + h, yResolution, desc, snapshot)|;
      StripsFromEnd(y0 + h, yResolution, desc, snapshot);
      assert y0 + h + n * h == y0 + (n + 1) * h;
    }
  }

  /** So the strips start exactly at the multiples of the height below
      `y_resolution`, in increasing order: strip k exists if and only if
      k * height < y_resolution. */
  lemma StripsCoverScreen(yResolution: int, desc: BufferDesc, snapshot: seq<bv16>, k: nat)
    requires desc.height > 0
    ensures var w := StripsFrom(0, yResolution, desc, snapshot);
      (k < |w| <==> k * desc.height < yResolution) &&
      (k < |w| ==> w[k] == Written(0, k * desc.height, desc, Pixels(snapshot)))
  {
    var w := StripsFrom(0, yResolution, desc, snapshot);
    var h := desc.height;
    if k < |w| {
      StripsFromAt(0, yResolution, desc, snapshot, k);
    } else {
      StripsFromEnd(0, yResolution, desc, snapshot);
      assert |w| * h <= k * h;
    }
  }

  /** `display_clean_set_bg(bg_color, dev, display_cap, buf, buf_desc)`. The
      fill counter is a `uint16_t`, so the loop only ends for a `buf_size`
      below 65536; the strip loop only ends for a positive height or a
      screen with no rows. */
  method CleanSetBg(bgColor: bv16, io: Io, yResolution: nat, buf: array<bv16>, desc: BufferDesc)
    requires desc.bufSize <= buf.Length && desc.bufSize < 0x1_0000
    requires desc.height > 0 || yResolution == 0
    modifies buf, io
    ensures forall k :: 0 <= k < desc.bufSize ==> buf[k] == bgColor
    ensures forall k :: desc.bufSize <= k < buf.Length ==> buf[k] == old(buf[k])
    ensures io.log == old(io.log) + StripsFrom(0, yResolution, desc, buf[..])
  {
    var i := 0;
    while i < desc.bufSize
      modifies buf
      invariant 0 <= i <= desc.bufSize
      invariant forall k :: 0 <= k < i ==> buf[k] == bgColor
      invariant forall k :: i <= k < buf.Length ==> buf[k] == old(buf[k])
    {
      buf[i] := bgColor;
      i := i + 1;
    }
    var y := 0;
    while y < yResolution
      modifies io
      invariant 0 <= y
      invariant old(io.log) + StripsFrom(0, yResolution, desc, buf[..]) == io.log + StripsFrom(y, yResolution, desc, buf[..])
      decreases yResolution - y
    {
      io.DisplayWrite(0, y, desc, Pixels(buf[..]));
      y := y + desc.height;
    }
  }
}
