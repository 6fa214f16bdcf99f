/** Keyword matching in the demo's main loop: ONE shared position
    `keyword_pos` into the three NUL-terminated arrays `keyword_gecko`,
    `keyword_silabs` and `keyword_efr32`, tested in that order. */
module Keywords {
  import opened Wrappers

  /** The bytes of an ASCII string. */
  function Ascii(s: string): seq<bv8> {
    seq(|s|, i requires 0 <= i < |s| => (s[i] as int % 256) as bv8)
  }

  datatype KeywordId = Gecko | Silabs | Efr32

  /** The C arrays "gecko", "silabs" and "efr32", terminating NUL included:
      `sizeof(kw)` is their length here. */
  const KeywordGecko: seq<bv8> := [0x67, 0x65, 0x63, 0x6B, 0x6F, 0x00]
  const KeywordSilabs: seq<bv8> := [0x73, 0x69, 0x6C, 0x61, 0x62, 0x73, 0x00]
  const KeywordEfr32: seq<bv8> := [0x65, 0x66, 0x72, 0x33, 0x32, 0x00]

  function Keyword(k: KeywordId): seq<bv8> {
    match k
    case Gecko => KeywordGecko
    case Silabs => KeywordSilabs
    case Efr32 => KeywordEfr32
  }

  /** The characters one types: the array without its terminator. */
  function KeywordText(k: KeywordId): seq<bv8> {
    Keyword(k)[..|Keyword(k)| - 1]
  }

  /** `sizeof(kw) - 2`: the index of the keyword's last character. */
  function LastIndex(k: KeywordId): nat {
    |Keyword(k)| - 2
  }

  /** What one received byte does to the match: the new position, or a finished keyword (position reset to 0). */
  datatype KeywordOutcome = Progress(pos: nat) | Completed(keyword: KeywordId)

  /** A comparison that reads past the end of a keyword array (undefined behaviour in C). */
  datatype Fault = OutOfBoundsRead(keyword: KeywordId, index: nat)

  /** A byte that matched keyword k at `pos`: finished at the last index, one further otherwise. */
  function Advance(k: KeywordId, pos: nat): KeywordOutcome {
    if pos == LastIndex(k) then Completed(k) else Progress(pos + 1)
  }

  /** The `if / else if` chain of the `new_char_arrived` case. */
  function KeywordStep(pos: nat, ch: bv8): (r: Result<KeywordOutcome, Fault>)
    ensures pos <= 5 && ch != 0 ==> r.Success? && (r.value.Progress? ==> r.value.pos <= 5)
    ensures r.Success? && r.value.Completed? ==>
      pos == LastIndex(r.value.keyword) && ch == Keyword(r.value.keyword)[pos]
    ensures r.Success? && r.value.Progress? && r.value.pos != 0 ==>
      r.value.pos == pos + 1 && MatchesSome(pos, ch)
  {
    if pos >= |KeywordGecko| then Failure(OutOfBoundsRead(Gecko, pos))
    else if ch == KeywordGecko[pos] then Success(Advance(Gecko, pos))
    else if pos >= |KeywordSilabs| then Failure(OutOfBoundsRead(Silabs, pos))
    else if ch == KeywordSilabs[pos] then Success(Advance(Silabs, pos))
    else if pos >= |KeywordEfr32| then Failure(OutOfBoundsRead(Efr32, pos))
    else if ch == KeywordEfr32[pos] then Success(Advance(Efr32, pos))
    else Success(Progress(0))
  }

  /** A byte that matches no keyword at the position resets it to 0. */
  lemma MismatchResets(pos: nat, ch: bv8)
    requires pos <= 5
    requires forall k :: pos < |Keyword(k)| ==> Keyword(k)[pos] != ch
    ensures KeywordStep(pos, ch) == Success(Progress(0))
  {
    assert Keyword(Gecko) == KeywordGecko;
    assert Keyword(Silabs) == KeywordSilabs;
    assert Keyword(Efr32) == KeywordEfr32;
  }

  /** The converse of the step's contract: a byte other than NUL that equals
      entry `pos` of keyword k moves the shared position one further along k,
      or completes k at k's last index, whichever keyword k is. */
  lemma MatchAdvances(pos: nat, ch: bv8, k: KeywordId)
    requires ch != 0 && pos < |Keyword(k)| && Keyword(k)[pos] == ch
    ensures KeywordStep(pos, ch) == Success(Advance(k, pos))
  {
    assert Keyword(Gecko) == KeywordGecko;
    assert Keyword(Silabs) == KeywordSilabs;
    assert Keyword(Efr32) == KeywordEfr32;
  }

  /** No two keywords share a character at any index, the terminators aside:
      for a byte other than NUL the order of the tests is unobservable. */
  lemma AtMostOneKeywordMatches(pos: nat, ch: bv8, k1: KeywordId, k2: KeywordId)
    requires ch != 0
    requires pos < |Keyword(k1)| && Keyword(k1)[pos] == ch
    requires pos < |Keyword(k2)| && Keyword(k2)[pos] == ch
    ensures k1 == k2
  {
  }

  /** A NUL at position 5 matches the terminator of `keyword_gecko` and moves
      the position to 6, and from there every byte's first comparison reads
      `keyword_gecko[6]`, one past the end of the array. */
  lemma NulAtFiveOverruns(ch: bv8)
    ensures KeywordStep(5, 0) == Success(Progress(6))
    ensures KeywordStep(6, ch) == Failure(OutOfBoundsRead(Gecko, 6))
  {
  }

  /** Byte b equals entry i of some keyword array (for a NUL, possibly its terminator). */
  predicate MatchesSome(i: nat, b: bv8) {
    (i < |KeywordGecko| && KeywordGecko[i] == b) ||
    (i < |KeywordSilabs| && KeywordSilabs[i] == b) ||
    (i < |KeywordEfr32| && KeywordEfr32[i] == b)
  }

  /** Every byte of w matches some keyword at its own index: what the shared
      position remembers of the last bytes received. "gi" is such a prefix,
      though it begins no keyword. */
  predicate MixedPrefix(w: seq<bv8>) {
    forall i :: 0 <= i < |w| ==> MatchesSome(i, w[i])
  }

  /** A mixed prefix stays one when the next byte matches some keyword at
      its index. */
  lemma SnocMixedPrefix(w: seq<bv8>, b: bv8)
    requires MixedPrefix(w) && MatchesSome(|w|, b)
    ensures MixedPrefix(w + [b])
  {
    forall i | 0 <= i < |w + [b]|
      ensures MatchesSome(i, (w + [b])[i])
    {
      if i < |w| {
        assert (w + [b])[i] == w[i];
      }
    }
  }

  /** One step keeps the invariant: if the last `pos` bytes received are a
      mixed prefix, then after one more byte other than NUL the last `pos'`
      bytes are one, and a finished keyword k means the last `|k|` bytes are a
      mixed prefix ending in k's own last character. */
  lemma {:induction false} StepKeepsMixedPrefix(h: seq<bv8>, pos: nat, b: bv8)
    requires pos <= |h| && pos <= 5 && b != 0
    requires MixedPrefix(h[|h| - pos..])
    ensures KeywordStep(pos, b).Success?
    ensures var h' := h + [b];
      match KeywordStep(pos, b).value
      case Progress(p) => p <= |h'| && MixedPrefix(h'[|h'| - p..])
      case Completed(k) =>
        |KeywordText(k)| <= |h'| && MixedPrefix(h'[|h'| - |KeywordText(k)|..]) && h'[|h'| - 1] == KeywordText(k)[|KeywordText(k)| - 1]
  {
    var h' := h + [b];
    var w := h[|h| - pos..];
    assert h'[|h'| - (pos + 1)..] == w + [b];
    match KeywordStep(pos, b).value
    case Progress(p) =>
      if p != 0 {
        SnocMixedPrefix(w, b);
      } else {
        assert h'[|h'|..] == [];
      }
    case Completed(k) =>
      assert |KeywordText(k)| == pos + 1;
      assert KeywordText(k)[pos] == Keyword(k)[pos];
      SnocMixedPrefix(w, b);
  }
}
