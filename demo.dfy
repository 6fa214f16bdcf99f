/** The demo's main loop: a state variable and the shared keyword position,
    advanced one `switch` case per loop iteration, with the serial receive
    callback as an event that may happen between two iterations. */
module Demo {
  import opened Wrappers
  import opened Color
  import opened Board
  import opened Terminal
  import opened Keywords

  /** `enum states_t`. `EnterKeyword` is declared but no case handles it. */
  datatype AppState =
    | ShowWelcome
    | WaitingForUartInput
    | NewCharArrived
    | EnterKeyword
    | FinishedKeywordSilabs
    | FinishedKeywordGecko
    | FinishedKeywordEfr32
    | Wait

  const Background: bv16 := Rgb565(46, 52, 64)
  const WelcomeColor: bv16 := Rgb565(236, 239, 244)
  const HintColor: bv16 := Rgb565(130, 162, 192)
  const TypedColor: bv16 := Rgb565(164, 189, 142)

  /** `welcome_string1` and `welcome_string2` without their terminators (the loops stop at `sizeof - 1`). */
  const WelcomeString1: seq<bv8> := Ascii("Hi!\r")
  const WelcomeString2: seq<bv8> := Ascii("Send something on UART and it will displayed here\r(or try to type gecko;)\r")

  /** Milliseconds the picture stays up (`k_msleep(2000)`). */
  const PictureDelay := 2000

  /** `image_buf_desc`: `sizeof(pixel_data)` bytes, pitch and width from the picture, not incomplete. */
  function ImageDesc(width: nat, height: nat): BufferDesc {
    BufferDesc(240 * 320 * 2 + 1, width, width, height, false)
  }

  function FinishedState(k: KeywordId): AppState {
    match k
    case Gecko => FinishedKeywordGecko
    case Silabs => FinishedKeywordSilabs
    case Efr32 => FinishedKeywordEfr32
  }

  /** `demo_app_state`, `keyword_pos` and `uart_new_ch`. */
  datatype Control = Control(state: AppState, keywordPos: nat, uartNewCh: bv8)

  /** The whole observable system: control, renderer and the I/O log. */
  datatype Sys = Sys(ctl: Control, term: Term, log: seq<Event>)

  /** `uart_cb`: nothing unless the interrupt is pending and the receiver has
      data; then every byte read overwrites `uart_new_ch` and sets the state
      to `new_char_arrived`, so only the last byte survives. */
  function UartEvent(c: Control, irqUpdate: bool, rxReady: bool, fifo: seq<bv8>): (r: Control)
    ensures r.keywordPos == c.keywordPos
    ensures (irqUpdate && rxReady && fifo != []) ==> r.state == NewCharArrived && r.uartNewCh == fifo[|fifo| - 1]
    ensures !(irqUpdate && rxReady && fifo != []) ==> r == c
  {
    if !irqUpdate || !rxReady || fifo == [] then c
    else c.(state := NewCharArrived, uartNewCh := fifo[|fifo| - 1])
  }

  /** The control part of one loop iteration. */
  function ControlStep(c: Control): Result<Control, Fault>
  {
    match c.state
    case ShowWelcome => Success(Control(WaitingForUartInput, 0, c.uartNewCh))
    case NewCharArrived =>
      (match KeywordStep(c.keywordPos, c.uartNewCh)
       case Failure(e) => Failure(e)
       case Success(Progress(p)) => Success(Control(WaitingForUartInput, p, c.uartNewCh))
       case Success(Completed(k)) => Success(Control(FinishedState(k), 0, c.uartNewCh)))
    case FinishedKeywordSilabs => Success(c.(state := Wait))
    case FinishedKeywordGecko => Success(c.(state := Wait))
    case FinishedKeywordEfr32 => Success(c.(state := Wait))
    case Wait => Success(c.(state := ShowWelcome))
    case WaitingForUartInput => Success(c)
    case EnterKeyword => Success(c)
  }

  /** The welcome screen: NUL (home and clear), then the two strings. Its
      first 600 writes are a full clear with the background colour, and the
      cursor ends on the grid. */
  function WelcomeScreen(t: Term, font: seq<bv8>): (r: Rendered)
    requires |t.buf| == CharBufSize && |font| == FontSize
    ensures ValidTerm(r.term)
    ensures |r.events| >= Cells && r.events[..Cells] == ClearScreen(Background)
  {
    var r0 := RenderChar(t, Nul, WelcomeColor, Background, font);
    var r1 := RenderString(r0.term, WelcomeString1, WelcomeColor, Background, font);
    var r2 := RenderString(r1.term, WelcomeString2, HintColor, Background, font);
    assert r0.events == ClearScreen(Background);
    assert (r0.events + r1.events + r2.events)[..Cells] == r0.events;
    Rendered(r2.term, r0.events + r1.events + r2.events)
  }

  /** What one loop iteration draws, sends and sleeps, by the state it starts
      in. Only `show_welcome` and `new_char_arrived` use the renderer; every
      other case makes at most one call to the outside world. */
  function Effects(c: Control, t: Term, font: seq<bv8>, imageDesc: BufferDesc): (r: Rendered)
    requires |t.buf| == CharBufSize && |font| == FontSize
    ensures |r.term.buf| == CharBufSize
    ensures c.state != ShowWelcome && c.state != NewCharArrived ==> r.term == t && |r.events| <= 1
  {
    match c.state
    case ShowWelcome => WelcomeScreen(t, font)
    case NewCharArrived =>
      var r := RenderChar(t, c.uartNewCh, TypedColor, Background, font);
      Rendered(r.term, r.events + [Transmitted(c.uartNewCh)])
    case FinishedKeywordGecko => Rendered(t, [Written(0, 0, imageDesc, Image(SilabsGecko))])
    case FinishedKeywordSilabs => Rendered(t, [Written(0, 0, imageDesc, Image(SilabsLogo))])
    case FinishedKeywordEfr32 => Rendered(t, [Written(0, 0, imageDesc, Image(SilabsEfr32))])
    case Wait => Rendered(t, [Slept(PictureDelay)])
    case WaitingForUartInput => Rendered(t, [])
    case EnterKeyword => Rendered(t, [])
  }

  /** One iteration of `while (true) { switch (demo_app_state) ... }`. It
      faults exactly when the keyword comparison does, and the I/O log only
      grows. */
  function MainStep(s: Sys, font: seq<bv8>, imageDesc: BufferDesc): (r: Result<Sys, Fault>)
    requires |s.term.buf| == CharBufSize && |font| == FontSize
    ensures r.Success? <==> ControlStep(s.ctl).Success?
    ensures r.Success? ==> s.log <= r.value.log && |r.value.term.buf| == CharBufSize
  {
    match ControlStep(s.ctl)
    case Failure(e) => Failure(e)
    case Success(c) =>
      var out := Effects(s.ctl, s.term, font, imageDesc);
      Success(Sys(c, out.term, s.log + out.events))
  }

  /** A byte received (alone, by one callback) and then handled by the next
      loop iteration, whatever state the loop was in. */
  function Deliver(c: Control, b: bv8): Result<Control, Fault> {
    ControlStep(UartEvent(c, true, true, [b]))
  }

  /** Bytes typed one at a time, each handled before the next arrives. */
  function Type(c: Control, bytes: seq<bv8>): Result<Control, Fault>
    decreases |bytes|
  {
    if bytes == [] then Success(c)
    else
      match Type(c, bytes[..|bytes| - 1])
      case Failure(e) => Failure(e)
      case Success(c1) => Deliver(c1, bytes[|bytes| - 1])
  }

  /** Only the keyword comparison can fault; no case of the loop leaves
      `new_char_arrived` set (only the callback sets it) or changes the
      received byte; and only `show_welcome` and `new_char_arrived` touch the
      keyword position. */
  lemma ControlStepFrame(c: Control)
    ensures ControlStep(c).Failure? ==> c.state == NewCharArrived && KeywordStep(c.keywordPos, c.uartNewCh).Failure?
    ensures ControlStep(c).Success? ==> ControlStep(c).value.state != NewCharArrived && ControlStep(c).value.uartNewCh == c.uartNewCh
    ensures c.state != ShowWelcome && c.state != NewCharArrived ==> ControlStep(c).Success? && ControlStep(c).value.keywordPos == c.keywordPos
  {
  }

  /** `waiting_for_uart_input` ("do nothing here, just wait") and the
      unhandled `enter_keyword` (`default: break`) are idle: the iteration
      leaves the control state, the renderer and the I/O log as they were. */
  lemma WaitingIsIdle(s: Sys, font: seq<bv8>, imageDesc: BufferDesc)
    requires |s.term.buf| == CharBufSize && |font| == FontSize
    requires s.ctl.state == WaitingForUartInput || s.ctl.state == EnterKeyword
    ensures MainStep(s, font, imageDesc) == Success(s)
  {
    assert s.log + [] == s.log;
  }

  /** A delivered byte, from any state: below position 6 a byte other than NUL
      never faults; afterwards the position has moved at most one further, and
      the loop either waits or has finished a keyword (back at position 0),
      holding the byte. */
  lemma DeliverOutcome(c: Control, b: bv8)
    ensures c.keywordPos <= 5 && b != 0 ==> Deliver(c, b).Success?
    ensures Deliver(c, b).Success? ==> Deliver(c, b).value.uartNewCh == b && Deliver(c, b).value.keywordPos <= c.keywordPos + 1
    ensures Deliver(c, b).Success? ==> Deliver(c, b).value.state == WaitingForUartInput || Deliver(c, b).value.keywordPos == 0
  {
  }

  /** After typing, the position has grown by at most one per byte, and after
      at least one byte the loop is no longer in `new_char_arrived` and holds
      the last byte typed. */
  lemma {:induction false} TypeHoldsLastByte(c: Control, bytes: seq<bv8>)
    ensures Type(c, bytes).Success? ==> Type(c, bytes).value.keywordPos <= c.keywordPos + |bytes|
    ensures Type(c, bytes).Success? && bytes != [] ==>
      Type(c, bytes).value.state != NewCharArrived && Type(c, bytes).value.uartNewCh == bytes[|bytes| - 1]
    decreases |bytes|
  {
    if bytes != [] {
      var init := bytes[..|bytes| - 1];
      TypeHoldsLastByte(c, init);
      if Type(c, init).Success? {
        DeliverOutcome(Type(c, init).value, bytes[|bytes| - 1]);
      }
    }
  }

  /** Typing the first i characters of a keyword from position 0 leaves the
      loop waiting at position i (i below the keyword's last index). */
  lemma {:induction false} TypeKeywordPrefix(k: KeywordId, c: Control, i: nat)
    requires c.keywordPos == 0 && 0 < i <= LastIndex(k)
    ensures Type(c, KeywordText(k)[..i]) == Success(Control(WaitingForUartInput, i, KeywordText(k)[i - 1]))
  {
    var text := KeywordText(k);
    var w := text[..i - 1];
    assert w + [text[i - 1]] == text[..i];
    assert KeywordStep(i - 1, text[i - 1]) == Success(Progress(i));
    if i > 1 {
      TypeKeywordPrefix(k, c, i - 1);
      TypeProgress(c, w, text[i - 1], Control(WaitingForUartInput, i - 1, text[i - 2]), i);
    } else {
      assert w == [];
      TypeProgress(c, w, text[0], c, 1);
    }
  }

  /** The three keywords typed from position 0 end in their own `finished_*`
      state with the position reset to 0. */
  lemma TypeKeywordFinishes(k: KeywordId, c: Control)
    requires c.keywordPos == 0
    ensures Type(c, KeywordText(k)) == Success(Control(FinishedState(k), 0, KeywordText(k)[LastIndex(k)]))
  {
    var text := KeywordText(k);
    TypeKeywordPrefix(k, c, LastIndex(k));
    assert text[..|text|][..LastIndex(k)] == text[..LastIndex(k)];
    assert text[..|text|] == text;
    assert KeywordStep(LastIndex(k), text[LastIndex(k)]) == Success(Completed(k));
  }

  /** Typing one more byte hands the state after the others to `Deliver`. */
  lemma TypeOneMore(c: Control, w: seq<bv8>, b: bv8, c1: Control)
    requires Type(c, w) == Success(c1)
    ensures Type(c, w + [b]) == Deliver(c1, b)
  {
    assert (w + [b])[..|w|] == w;
  }

  /** Typing `u` then `v` is typing `v` from the state `u` leaves. */
  lemma {:induction false} TypeAppend(c: Control, u: seq<bv8>, v: seq<bv8>, c1: Control)
    requires Type(c, u) == Success(c1)
    ensures Type(c, u + v) == Type(c1, v)
    decreases |v|
  {
    if v == [] {
      assert u + v == u;
    } else {
      var init := v[..|v| - 1];
      TypeAppend(c, u, init, c1);
      assert (u + v)[..|u + v| - 1] == u + init;
    }
  }

  /** One delivered byte other than NUL keeps the invariant of
      `NonNulKeepsMixedPrefix`. */
  lemma DeliverKeepsMixedPrefix(h: seq<bv8>, c: Control, b: bv8)
    requires c.keywordPos <= |h| && c.keywordPos <= 5 && MixedPrefix(h[|h| - c.keywordPos..])
    requires b != 0
    ensures Deliver(c, b).Success?
    ensures var c' := Deliver(c, b).value;
      c'.keywordPos <= 5 && c'.keywordPos <= |h + [b]| &&
      MixedPrefix((h + [b])[|h + [b]| - c'.keywordPos..])
  {
    StepKeepsMixedPrefix(h, c.keywordPos, b);
    var out := KeywordStep(c.keywordPos, b).value;
    if out.Completed? {
      assert Deliver(c, b).value.keywordPos == 0;
      assert (h + [b])[|h + [b]|..] == [];
    }
  }

  /** Whatever was received before, bytes other than NUL keep the shared
      position in 0 .. 5, so every comparison stays inside the keyword arrays;
      and the last `keyword_pos` bytes received form a mixed prefix (each
      byte matching some keyword at its own index). */
  lemma {:induction false} NonNulKeepsMixedPrefix(h: seq<bv8>, c: Control, bytes: seq<bv8>)
    requires c.keywordPos <= |h| && c.keywordPos <= 5 && MixedPrefix(h[|h| - c.keywordPos..])
    requires forall i :: 0 <= i < |bytes| ==> bytes[i] != 0
    ensures Type(c, bytes).Success?
    ensures var c' := Type(c, bytes).value;
      c'.keywordPos <= 5 && c'.keywordPos <= |h + bytes| &&
      MixedPrefix((h + bytes)[|h + bytes| - c'.keywordPos..])
    decreases |bytes|
  {
    if bytes != [] {
      var init := bytes[..|bytes| - 1];
      var b := bytes[|bytes| - 1];
      assert init + [b] == bytes;
      assert h + init + [b] == h + bytes;
      NonNulKeepsMixedPrefix(h, c, init);
      var c1 := Type(c, init).value;
      TypeOneMore(c, init, b, c1);
      DeliverKeepsMixedPrefix(h + init, c1, b);
    }
  }

  /** One more byte whose comparison moves the shared position to `p`. */
  lemma TypeProgress(c: Control, w: seq<bv8>, b: bv8, c1: Control, p: nat)
    requires Type(c, w) == Success(c1)
    requires KeywordStep(c1.keywordPos, b) == Success(Progress(p))
    ensures Type(c, w + [b]) == Success(Control(WaitingForUartInput, p, b))
  {
    TypeOneMore(c, w, b, c1);
  }

  /** One more byte that completes keyword `k`. */
  lemma TypeCompleted(c: Control, w: seq<bv8>, b: bv8, c1: Control, k: KeywordId)
    requires Type(c, w) == Success(c1)
    requires KeywordStep(c1.keywordPos, b) == Success(Completed(k))
    ensures Type(c, w + [b]) == Success(Control(FinishedState(k), 0, b))
  {
    TypeOneMore(c, w, b, c1);
  }

  /** "abs" typed at position 3: the position reaches 5 and the "s" then
      completes `keyword_silabs`. */
  lemma SilabsTail(e: bv8)
    ensures Type(Control(WaitingForUartInput, 3, e), [0x61, 0x62, 0x73]) == Success(Control(FinishedKeywordSilabs, 0, 0x73))
  {
    var c := Control(WaitingForUartInput, 3, e);
    var w0: seq<bv8> := [];
    var w1 := w0 + [0x61];
    var w2 := w1 + [0x62];
    var w3 := w2 + [0x73];
    assert w3 == [0x61, 0x62, 0x73];
    assert KeywordStep(3, 0x61) == Success(Progress(4));
    assert KeywordStep(4, 0x62) == Success(Progress(5));
    assert KeywordStep(5, 0x73) == Success(Completed(Silabs));
    TypeProgress(c, w0, 0x61, c, 4);
    TypeProgress(c, w1, 0x62, Control(WaitingForUartInput, 4, 0x61), 5);
    TypeCompleted(c, w2, 0x73, Control(WaitingForUartInput, 5, 0x62), Silabs);
  }

  /** Because the position is shared, a mixed prefix completes a keyword:
      "gilabs" shows the silabs logo. */
  lemma MixedPrefixCompletes(c: Control)
    requires c.keywordPos == 0
    ensures Type(c, [0x67, 0x69, 0x6C, 0x61, 0x62, 0x73]) == Success(Control(FinishedKeywordSilabs, 0, 0x73))
  {
    var w0: seq<bv8> := [];
    var w1 := w0 + [0x67];
    var w2 := w1 + [0x69];
    var w3 := w2 + [0x6C];
    assert w3 + [0x61, 0x62, 0x73] == [0x67, 0x69, 0x6C, 0x61, 0x62, 0x73];
    assert KeywordStep(0, 0x67) == Success(Progress(1));
    assert KeywordStep(1, 0x69) == Success(Progress(2));
    assert KeywordStep(2, 0x6C) == Success(Progress(3));
    TypeProgress(c, w0, 0x67, c, 1);
    TypeProgress(c, w1, 0x69, Control(WaitingForUartInput, 1, 0x67), 2);
    TypeProgress(c, w2, 0x6C, Control(WaitingForUartInput, 2, 0x69), 3);
    TypeAppend(c, w3, [0x61, 0x62, 0x73], Control(WaitingForUartInput, 3, 0x6C));
    SilabsTail(0x6C);
  }

  /** The last three bytes of "ggecko", typed at position 1: none of "c",
      "k", "o" continues a keyword from there. */
  lemma MismatchTail(e: bv8)
    ensures Type(Control(WaitingForUartInput, 1, e), [0x63, 0x6B, 0x6F]) == Success(Control(WaitingForUartInput, 0, 0x6F))
  {
    var c := Control(WaitingForUartInput, 1, e);
    var w0: seq<bv8> := [];
    var w1 := w0 + [0x63];
    var w2 := w1 + [0x6B];
    var w3 := w2 + [0x6F];
    assert w3 == [0x63, 0x6B, 0x6F];
    assert KeywordStep(1, 0x63) == Success(Progress(0));
    assert KeywordStep(0, 0x6B) == Success(Progress(0));
    assert KeywordStep(0, 0x6F) == Success(Progress(0));
    TypeProgress(c, w0, 0x63, c, 0);
    TypeProgress(c, w1, 0x6B, Control(WaitingForUartInput, 0, 0x63), 0);
    TypeProgress(c, w2, 0x6F, Control(WaitingForUartInput, 0, 0x6B), 0);
  }

  /** A mismatching byte is consumed, not tried again from position 0: after
      "g", the "gecko" in "ggecko" is never recognised. */
  lemma MismatchIsConsumed(c: Control)
    requires c.keywordPos == 0
    ensures Type(c, [0x67, 0x67, 0x65, 0x63, 0x6B, 0x6F]) == Success(Control(WaitingForUartInput, 0, 0x6F))
  {
    var w0: seq<bv8> := [];
    var w1 := w0 + [0x67];
    var w2 := w1 + [0x67];
    var w3 := w2 + [0x65];
    assert w3 + [0x63, 0x6B, 0x6F] == [0x67, 0x67, 0x65, 0x63, 0x6B, 0x6F];
    assert KeywordStep(0, 0x67) == Success(Progress(1));
    assert KeywordStep(1, 0x67) == Success(Progress(0));
    assert KeywordStep(0, 0x65) == Success(Progress(1));
    TypeProgress(c, w0, 0x67, c, 1);
    TypeProgress(c, w1, 0x67, Control(WaitingForUartInput, 1, 0x67), 0);
    TypeProgress(c, w2, 0x65, Control(WaitingForUartInput, 0, 0x67), 1);
    TypeAppend(c, w3, [0x63, 0x6B, 0x6F], Control(WaitingForUartInput, 1, 0x65));
    MismatchTail(0x65);
  }

  /** "abs" typed at position 0: only the final "s" matches, as the first
      byte of `keyword_silabs`. */
  lemma AbsFromStart(e: bv8)
    ensures Type(Control(WaitingForUartInput, 0, e), [0x61, 0x62, 0x73]) == Success(Control(WaitingForUartInput, 1, 0x73))
  {
    var c := Control(WaitingForUartInput, 0, e);
    var w0: seq<bv8> := [];
    var w1 := w0 + [0x61];
    var w2 := w1 + [0x62];
    var w3 := w2 + [0x73];
    assert w3 == [0x61, 0x62, 0x73];
    assert KeywordStep(0, 0x61) == Success(Progress(0));
    assert KeywordStep(0, 0x62) == Success(Progress(0));
    assert KeywordStep(0, 0x73) == Success(Progress(1));
    TypeProgress(c, w0, 0x61, c, 0);
    TypeProgress(c, w1, 0x62, Control(WaitingForUartInput, 0, 0x61), 0);
    TypeProgress(c, w2, 0x73, Control(WaitingForUartInput, 0, 0x62), 1);
  }

  /** "siLabs": the capital L resets the position after the third byte, and
      the rest never completes a keyword. */
  lemma CapitalLResets(c: Control)
    requires c.keywordPos == 0
    ensures Type(c, [0x73, 0x69, 0x4C]) == Success(Control(WaitingForUartInput, 0, 0x4C))
    ensures Type(c, [0x73, 0x69, 0x4C, 0x61, 0x62, 0x73]) == Success(Control(WaitingForUartInput, 1, 0x73))
  {
    var w0: seq<bv8> := [];
    var w1 := w0 + [0x73];
    var w2 := w1 + [0x69];
    var w3 := w2 + [0x4C];
    assert w3 == [0x73, 0x69, 0x4C];
    assert w3 + [0x61, 0x62, 0x73] == [0x73, 0x69, 0x4C, 0x61, 0x62, 0x73];
    assert KeywordStep(0, 0x73) == Success(Progress(1));
    assert KeywordStep(1, 0x69) == Success(Progress(2));
    assert KeywordStep(2, 0x4C) == Success(Progress(0));
    TypeProgress(c, w0, 0x73, c, 1);
    TypeProgress(c, w1, 0x69, Control(WaitingForUartInput, 1, 0x73), 2);
    TypeProgress(c, w2, 0x4C, Control(WaitingForUartInput, 2, 0x69), 0);
    TypeAppend(c, w3, [0x61, 0x62, 0x73], Control(WaitingForUartInput, 0, 0x4C));
    AbsFromStart(0x4C);
  }

  /** "ab" then a NUL typed at position 3: the NUL matches the terminator
      at index 5 of `keyword_silabs`, and the next byte's comparison reads
      `keyword_gecko[6]`. */
  lemma NulTail(e: bv8, x: bv8)
    ensures Type(Control(WaitingForUartInput, 3, e), [0x61, 0x62, 0x00]) == Success(Control(WaitingForUartInput, 6, 0x00))
    ensures Type(Control(WaitingForUartInput, 3, e), [0x61, 0x62, 0x00, x]) == Failure(OutOfBoundsRead(Gecko, 6))
  {
    var c := Control(WaitingForUartInput, 3, e);
    var w0: seq<bv8> := [];
    var w1 := w0 + [0x61];
    var w2 := w1 + [0x62];
    var w3 := w2 + [0x00];
    var w4 := w3 + [x];
    assert w3 == [0x61, 0x62, 0x00];
    assert w4 == [0x61, 0x62, 0x00, x];
    assert KeywordStep(3, 0x61) == Success(Progress(4));
    assert KeywordStep(4, 0x62) == Success(Progress(5));
    assert KeywordStep(5, 0x00) == Success(Progress(6));
    TypeProgress(c, w0, 0x61, c, 4);
    TypeProgress(c, w1, 0x62, Control(WaitingForUartInput, 4, 0x61), 5);
    TypeProgress(c, w2, 0x00, Control(WaitingForUartInput, 5, 0x62), 6);
    TypeOneMore(c, w3, x, Control(WaitingForUartInput, 6, 0x00));
  }

  /** "silab" then a NUL moves the position to 6; the next byte's comparison
      then reads past the end of `keyword_gecko`. */
  lemma NulAfterSilabOverruns(c: Control, x: bv8)
    requires c.keywordPos == 0
    ensures Type(c, [0x73, 0x69, 0x6C, 0x61, 0x62, 0x00]) == Success(Control(WaitingForUartInput, 6, 0x00))
    ensures Type(c, [0x73, 0x69, 0x6C, 0x61, 0x62, 0x00, x]) == Failure(OutOfBoundsRead(Gecko, 6))
  {
    var w0: seq<bv8> := [];
    var w1 := w0 + [0x73];
    var w2 := w1 + [0x69];
    var w3 := w2 + [0x6C];
    assert w3 + [0x61, 0x62, 0x00] == [0x73, 0x69, 0x6C, 0x61, 0x62, 0x00];
    assert w3 + [0x61, 0x62, 0x00, x] == [0x73, 0x69, 0x6C, 0x61, 0x62, 0x00, x];
    assert KeywordStep(0, 0x73) == Success(Progress(1));
    assert KeywordStep(1, 0x69) == Success(Progress(2));
    assert KeywordStep(2, 0x6C) == Success(Progress(3));
    TypeProgress(c, w0, 0x73, c, 1);
    TypeProgress(c, w1, 0x69, Control(WaitingForUartInput, 1, 0x73), 2);
    TypeProgress(c, w2, 0x6C, Control(WaitingForUartInput, 2, 0x69), 3);
    TypeAppend(c, w3, [0x61, 0x62, 0x00], Control(WaitingForUartInput, 3, 0x6C));
    TypeAppend(c, w3, [0x61, 0x62, 0x00, x], Control(WaitingForUartInput, 3, 0x6C));
    NulTail(0x6C, x);
  }

  /** Only the last byte of a burst survives the callback. */
  lemma UartKeepsLastByte(c: Control, burst: seq<bv8>, b: bv8)
    ensures UartEvent(c, true, true, burst + [b]) == UartEvent(c, true, true, [b])
  {
  }

  /** A byte that arrives while a picture is pending replaces the pending
      state, so that picture is never shown. */
  lemma UartPreemptsPicture(c: Control, k: KeywordId, b: bv8)
    requires c.state == FinishedState(k)
    ensures UartEvent(c, true, true, [b]).state == NewCharArrived
  {
  }

  /** A received byte is drawn first and then echoed, exactly once, and the
      renderer moves as it does for any other call. */
  lemma EchoFollowsDraw(s: Sys, font: seq<bv8>, imageDesc: BufferDesc)
    requires |s.term.buf| == CharBufSize && |font| == FontSize
    requires s.ctl.state == NewCharArrived && ControlStep(s.ctl).Success?
    ensures var r := RenderChar(s.term, s.ctl.uartNewCh, TypedColor, Background, font);
      MainStep(s, font, imageDesc).Success? &&
      MainStep(s, font, imageDesc).value.log == s.log + r.events + [Transmitted(s.ctl.uartNewCh)] &&
      MainStep(s, font, imageDesc).value.term == r.term
  {
  }

  /** A finished keyword shows its picture with exactly one full-frame write,
      waits 2000 ms, and comes back to the welcome screen, which resets the
      position and waits for input. */
  lemma PictureCycle(s: Sys, k: KeywordId, font: seq<bv8>, imageDesc: BufferDesc)
    requires |s.term.buf| == CharBufSize && |font| == FontSize
    requires s.ctl.state == FinishedState(k)
    ensures var pic := match k case Gecko => SilabsGecko case Silabs => SilabsLogo case Efr32 => SilabsEfr32;
      var s1 := MainStep(s, font, imageDesc).value;
      var s2 := MainStep(s1, font, imageDesc).value;
      var s3 := MainStep(s2, font, imageDesc).value;
      s1 == Sys(s.ctl.(state := Wait), s.term, s.log + [Written(0, 0, imageDesc, Image(pic))]) &&
      s2 == Sys(s.ctl.(state := ShowWelcome), s.term, s1.log + [Slept(PictureDelay)]) &&
      s3.ctl == Control(WaitingForUartInput, 0, s.ctl.uartNewCh) &&
      s3.log == s2.log + WelcomeScreen(s.term, font).events
  {
  }

  /** The welcome screen starts with NUL, so what it draws and where it leaves
      the cursor do not depend on the renderer's earlier state; showing it
      twice in a row draws the same thing twice. */
  lemma WelcomeIgnoresPriorState(t1: Term, t2: Term, font: seq<bv8>)
    requires |t1.buf| == CharBufSize && |t2.buf| == CharBufSize && |font| == FontSize
    ensures WelcomeScreen(t1, font) == WelcomeScreen(t2, font)
    ensures WelcomeScreen(WelcomeScreen(t1, font).term, font) == WelcomeScreen(t1, font)
  {
    NulForgetsState(t1, t2, WelcomeColor, Background, font);
    NulForgetsState(t1, WelcomeScreen(t1, font).term, WelcomeColor, Background, font);
  }

  /** Appending three pieces one after another appends their concatenation. */
  lemma AppendThree<T>(log: seq<T>, a: seq<T>, b: seq<T>, c: seq<T>)
    ensures log + a + b + c == log + (a + b + c)
  {
  }

  /** The demo as the source keeps it: the globals, the renderer and the devices. */
  class DemoApp {
    const term: CharTerminal
    const io: Io
    const imageDesc: BufferDesc
    var state: AppState
    var keywordPos: nat
    var uartNewCh: bv8

    ghost predicate Valid()
      reads this, term
    {
      term.Valid() && term.io == io
    }

    ghost function Ctl(): Control
      reads this
    {
      Control(state, keywordPos, uartNewCh)
    }

    ghost function Abs(): Sys
      reads this, term, term.charBuf, io
    {
      Sys(Ctl(), term.Abs(), io.log)
    }

    /** The state after start-up: `show_welcome`, position 0, nothing received
        or shown yet (the initial full-screen fill is not modelled). */
    constructor (font: seq<bv8>, imageWidth: nat, imageHeight: nat)
      requires |font| == FontSize
      ensures Valid() && fresh(io) && fresh(term) && fresh(term.charBuf)
      ensures Ctl() == Control(ShowWelcome, 0, 0)
      ensures term.font == font && imageDesc == ImageDesc(imageWidth, imageHeight)
      ensures io.log == [] && term.posX == 0 && term.posY == 0
    {
      var io := new Io();
      this.io := io;
      term := new CharTerminal(io, font);
      imageDesc := ImageDesc(imageWidth, imageHeight);
      state := ShowWelcome;
      keywordPos := 0;
      uartNewCh := 0;
    }

    /** `uart_cb`, taken as one atomic step between two loop iterations. */
    method UartCallback(irqUpdate: bool, rxReady: bool, fifo: seq<bv8>)
      requires Valid()
      modifies this
      ensures Valid()
      ensures Abs() == old(Abs()).(ctl := UartEvent(old(Ctl()), irqUpdate, rxReady, fifo))
    {
      if !irqUpdate {
        return;
      }
      if !rxReady {
        return;
      }
      var n := 0;
      while n < |fifo|
        invariant 0 <= n <= |fifo|
        invariant Ctl() == UartEvent(old(Ctl()), true, true, fifo[..n])
      {
        uartNewCh := fifo[n];
        state := NewCharArrived;
        n := n + 1;
      }
      assert fifo[..n] == fifo;
    }

    /** A `for` loop drawing a string with one colour on the background. */
    method DrawString(s: seq<bv8>, color: bv16)
      requires Valid()
      modifies term, term.charBuf, io
      ensures Valid()
      ensures term.Abs() == RenderString(old(term.Abs()), s, color, Background, term.font).term
      ensures io.log == old(io.log) + RenderString(old(term.Abs()), s, color, Background, term.font).events
    {
      var i := 0;
      while i < |s|
        invariant 0 <= i <= |s|
        invariant Valid()
        invariant term.Abs() == RenderString(old(term.Abs()), s[..i], color, Background, term.font).term
        invariant io.log == old(io.log) + RenderString(old(term.Abs()), s[..i], color, Background, term.font).events
      {
        term.WriteChar(s[i], color, Background);
        assert s[..i + 1][..i] == s[..i];
        i := i + 1;
      }
      assert s[..i] == s;
    }

    /** `case show_welcome`: clear and home via NUL, draw both strings, reset the keyword position. */
    method ShowWelcomeCase()
      requires Valid() && state == ShowWelcome
      modifies this, term, term.charBuf, io
      ensures Valid()
      ensures MainStep(old(Abs()), term.font, imageDesc) == Success(Abs())
    {
      ghost var s0 := Abs();
      ghost var font := term.font;
      ghost var r0 := RenderChar(s0.term, Nul, WelcomeColor, Background, font);
      term.WriteChar(Nul, WelcomeColor, Background);
      ghost var log0 := io.log;
      assert term.Abs() == r0.term && log0 == s0.log + r0.events;
      ghost var r1 := RenderString(r0.term, WelcomeString1, WelcomeColor, Background, font);
      DrawString(WelcomeString1, WelcomeColor);
      ghost var log1 := io.log;
      assert term.Abs() == r1.term && log1 == log0 + r1.events;
      ghost var r2 := RenderString(r1.term, WelcomeString2, HintColor, Background, font);
      DrawString(WelcomeString2, HintColor);
      assert term.Abs() == r2.term && io.log == log1 + r2.events;
      keywordPos := 0;
      state := WaitingForUartInput;
      AppendThree(s0.log, r0.events, r1.events, r2.events);
      assert io.log == s0.log + (r0.events + r1.events + r2.events);
      assert Effects(s0.ctl, s0.term, font, imageDesc) == Rendered(r2.term, r0.events + r1.events + r2.events);
    }

    /** The `if / else if` chain of `new_char_arrived`: the received byte
        against the shared position of `keyword_gecko`, `keyword_silabs` and
        `keyword_efr32` in turn. */
    method CompareKeywords()
      requires state == NewCharArrived
      requires KeywordStep(keywordPos, uartNewCh).Success?
      modifies this
      ensures Ctl() == ControlStep(old(Ctl())).value
    {
      if uartNewCh == KeywordGecko[keywordPos] {
        if keywordPos == |KeywordGecko| - 2 {
          keywordPos := 0;
          state := FinishedKeywordGecko;
        } else {
          keywordPos := keywordPos + 1;
          state := WaitingForUartInput;
        }
      } else if uartNewCh == KeywordSilabs[keywordPos] {
        if keywordPos == |KeywordSilabs| - 2 {
          keywordPos := 0;
          state := FinishedKeywordSilabs;
        } else {
          keywordPos := keywordPos + 1;
          state := WaitingForUartInput;
        }
      } else if uartNewCh == KeywordEfr32[keywordPos] {
        if keywordPos == |KeywordEfr32| - 2 {
          keywordPos := 0;
          state := FinishedKeywordEfr32;
        } else {
          keywordPos := keywordPos + 1;
          state := WaitingForUartInput;
        }
      } else {
        keywordPos := 0;
        state := WaitingForUartInput;
      }
    }

    /** `case new_char_arrived`: draw the byte, echo it, then test it against
        the keywords at the shared position. */
    method NewCharArrivedCase()
      requires Valid() && state == NewCharArrived
      requires ControlStep(Ctl()).Success?
      modifies this, term, term.charBuf, io
      ensures Valid()
      ensures MainStep(old(Abs()), term.font, imageDesc) == Success(Abs())
    {
      ghost var s0 := Abs();
      ghost var r := RenderChar(term.Abs(), uartNewCh, TypedColor, Background, term.font);
      assert Effects(s0.ctl, s0.term, term.font, imageDesc) == Rendered(r.term, r.events + [Transmitted(uartNewCh)]);
      ghost var next := ControlStep(s0.ctl).value;
      ghost var log0 := io.log;
      term.WriteChar(uartNewCh, TypedColor, Background);
      io.UartPollOut(uartNewCh);
      assert io.log == log0 + (r.events + [Transmitted(uartNewCh)]);
      ghost var t1 := term.Abs();
      ghost var l1 := io.log;
      assert MainStep(s0, term.font, imageDesc) == Success(Sys(next, t1, l1));
      CompareKeywords();
      assert Ctl() == next;
      assert Abs() == Sys(next, t1, l1);
    }

    /** One iteration of the main loop. A comparison past the end of a keyword
        array is undefined behaviour in C, so the iteration is only taken when
        the keyword step stays inside the arrays. */
    method Step()
      requires Valid()
      requires ControlStep(Ctl()).Success?
      modifies this, term, term.charBuf, io
      ensures Valid()
      ensures MainStep(old(Abs()), term.font, imageDesc) == Success(Abs())
    {
      match state
      case ShowWelcome =>
        ShowWelcomeCase();
      case WaitingForUartInput =>
        assert io.log + [] == io.log;
      case NewCharArrived =>
        NewCharArrivedCase();
      case FinishedKeywordGecko =>
        io.DisplayWrite(0, 0, imageDesc, Image(SilabsGecko));
        state := Wait;
      case FinishedKeywordSilabs =>
        io.DisplayWrite(0, 0, imageDesc, Image(SilabsLogo));
        state := Wait;
      case FinishedKeywordEfr32 =>
        io.DisplayWrite(0, 0, imageDesc, Image(SilabsEfr32));
        state := Wait;
      case Wait =>
        io.MSleep(PictureDelay);
        state := ShowWelcome;
      case EnterKeyword =>
        assert io.log + [] == io.log;
    }
  }
}
