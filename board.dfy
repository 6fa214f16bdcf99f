/** The collaborators the demo talks to, reduced to the events they observe:
    `display_write`, `uart_poll_out` and `k_msleep` each append one event to a
    single ordered log, so the order of drawing, echoing and sleeping is kept. */
module Board {

  /** `struct display_buffer_descriptor`. */
  datatype BufferDesc = BufferDesc(bufSize: nat, pitch: nat, width: nat, height: nat, frameIncomplete: bool)

  /** The three preloaded full-screen pictures (`silabs_logo`, `silabs_gecko`, `silabs_efr32`). */
  datatype Picture = SilabsLogo | SilabsGecko | SilabsEfr32

  /** What a display write transfers: a snapshot of a pixel buffer, or one of the pictures in flash. */
  datatype Frame = Pixels(data: seq<bv16>) | Image(picture: Picture)

  datatype Event =
    | Written(x: int, y: int, desc: BufferDesc, frame: Frame)   // display_write(dev, x, y, desc, buf)
    | Transmitted(b: bv8)                                       // uart_poll_out(dev, b)
    | Slept(ms: nat)                                            // k_msleep(ms)

  /** The display, the serial port and the clock, seen through what they were asked to do. */
  class Io {
    ghost var log: seq<Event>

    constructor ()
      ensures log == []
    {
      log := [];
    }

    method DisplayWrite(x: int, y: int, desc: BufferDesc, ghost frame: Frame)
      modifies this
      ensures log == old(log) + [Written(x, y, desc, frame)]
    {
      log := log + [Written(x, y, desc, frame)];
    }

    method UartPollOut(b: bv8)
      modifies this
      ensures log == old(log) + [Transmitted(b)]
    {
      log := log + [Transmitted(b)];
    }

    method MSleep(ms: nat)
      modifies this
      ensures log == old(log) + [Slept(ms)]
    {
      log := log + [Slept(ms)];
    }
  }
}
