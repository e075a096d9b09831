/**
 * The state of the palette generator: the current palette, the locked slots,
 * the harmony mode, the code format and the bounded history of generated
 * palettes, with the operations the user triggers on them.
 */
module Palette {
  import opened Colors
  import opened HexCodes
  import opened Harmony
  import opened Formatting

  /** Number of slots `generatePalette` fills. */
  const PaletteSize: nat := 5

  /** Number of palettes the history keeps. */
  const MaxHistory: nat := 10

  /** `palette[Math.min(i, palette.length - 1)]`: the derived colour for slot `i`, repeating the last one. */
  function FillSlot(derived: seq<Color>, i: nat): (c: Color)
    requires 1 <= |derived|
    ensures c in derived
    ensures i < |derived| ==> c == derived[i]
    ensures |derived| <= i ==> c == derived[|derived| - 1]
  {
    if i < |derived| then derived[i] else derived[|derived| - 1]
  }

  /**
   * The palette after the lock merge of `generatePalette`: a locked slot that
   * held a colour keeps it, every other slot takes the derived colour.
   */
  function Merge(previous: seq<Color>, locked: set<int>, derived: seq<Color>): (p: seq<Color>)
    requires 1 <= |derived|
    ensures |p| == PaletteSize
  {
    seq(PaletteSize, i requires 0 <= i < PaletteSize =>
      if i in locked && i < |previous| then previous[i] else FillSlot(derived, i))
  }

  /** The lock merge loop of `generatePalette`, slot by slot. */
  method MergeLocked(previous: seq<Color>, locked: set<int>, derived: seq<Color>) returns (merged: seq<Color>)
    requires 1 <= |derived|
    ensures merged == Merge(previous, locked, derived)
  {
    merged := [];
    var i := 0;
    while i < PaletteSize
      invariant 0 <= i <= PaletteSize
      invariant merged == Merge(previous, locked, derived)[..i]
    {
      if i in locked && i < |previous| {
        merged := merged + [previous[i]];
      } else {
        merged := merged + [FillSlot(derived, i)];
      }
      i := i + 1;
    }
  }

  /**
   * Locked slots of an existing palette keep their colour; every other slot
   * takes the derived colour of its position, or the last derived colour when
   * the derived palette is shorter than five.
   */
  lemma MergeRespectsLocks(previous: seq<Color>, locked: set<int>, derived: seq<Color>)
    requires 1 <= |derived|
    ensures var p := Merge(previous, locked, derived);
            (forall i :: 0 <= i < PaletteSize && i in locked && i < |previous| ==> p[i] == previous[i]) &&
            (forall i :: 0 <= i < PaletteSize && !(i in locked && i < |previous|) ==> p[i] == FillSlot(derived, i))
  {
  }

  /**
   * For a mode that `generateHarmony` does not recognise the derived palette
   * is the base alone, so every slot that does not keep a locked colour gets
   * the base colour.
   */
  lemma UnrecognisedMergeIsBase(previous: seq<Color>, locked: set<int>, base: Color)
    ensures var p := Merge(previous, locked, Derive(base, Unrecognised));
            (forall i :: 0 <= i < PaletteSize && i in locked && i < |previous| ==> p[i] == previous[i]) &&
            (forall i :: 0 <= i < PaletteSize && !(i in locked && i < |previous|) ==> p[i] == base)
  {
    MergeRespectsLocks(previous, locked, Derive(base, Unrecognised));
  }

  /** Without locks, or before any palette exists, the merge is the derived palette spread over five slots. */
  lemma MergeWithoutLocks(previous: seq<Color>, locked: set<int>, derived: seq<Color>)
    requires 1 <= |derived| <= PaletteSize
    requires previous == [] || forall i :: 0 <= i < PaletteSize ==> i !in locked
    ensures |derived| == PaletteSize ==> Merge(previous, locked, derived) == derived
    ensures |derived| == 1 ==> Merge(previous, locked, derived) == [derived[0], derived[0], derived[0], derived[0], derived[0]]
  {
    var p := Merge(previous, locked, derived);
    assert forall i :: 0 <= i < PaletteSize ==> p[i] == FillSlot(derived, i);
  }

  /**
   * Regenerating twice with the same locks is regenerating once with the
   * second derived palette: a locked colour survives any number of
   * regenerations, and the first derived palette leaves no trace.
   */
  lemma RegenerateKeepsLocks(previous: seq<Color>, locked: set<int>, first: seq<Color>, second: seq<Color>)
    requires |previous| == PaletteSize
    requires 1 <= |first| && 1 <= |second|
    ensures Merge(Merge(previous, locked, first), locked, second) == Merge(previous, locked, second)
  {
  }

  /** A merge of colours of the gamut stays in the gamut. */
  lemma MergeInGamut(previous: seq<Color>, locked: set<int>, derived: seq<Color>)
    requires 1 <= |derived|
    requires forall i :: 0 <= i < |previous| ==> InGamut(previous[i])
    requires forall i :: 0 <= i < |derived| ==> InGamut(derived[i])
    ensures forall i :: 0 <= i < PaletteSize ==> InGamut(Merge(previous, locked, derived)[i])
  {
  }

  /** The lock toggle: the slot changes membership, every other slot keeps it. */
  function Toggle(locked: set<int>, idx: int): (r: set<int>)
    ensures idx in r <==> idx !in locked
    ensures forall j :: j != idx ==> (j in r <==> j in locked)
  {
    if idx in locked then locked - {idx} else locked + {idx}
  }

  /** Toggling a slot twice restores the locks. */
  lemma ToggleTwice(locked: set<int>, idx: int)
    ensures Toggle(Toggle(locked, idx), idx) == locked
  {
  }

  /**
   * `unshift` followed by `pop` when the history grows past its bound: the
   * newest entry first, the older ones after it in order, the oldest one
   * dropped when the bound is exceeded.
   */
  function PushBounded<T>(history: seq<T>, entry: T, bound: nat): (r: seq<T>)
    ensures |history| < bound ==> |r| == |history| + 1
    ensures bound <= |history| ==> |r| == |history|
    ensures 1 <= bound ==> r[0] == entry
    ensures forall i :: 1 <= i < |r| ==> r[i] == history[i - 1]
  {
    var pushed := [entry] + history;
    if |pushed| > bound then pushed[..|pushed| - 1] else pushed
  }

  /** A history within its bound stays within it, and at the bound the oldest entry is the one dropped. */
  lemma HistoryBounded<T>(history: seq<T>, entry: T, bound: nat)
    requires 1 <= bound && |history| <= bound
    ensures |PushBounded(history, entry, bound)| <= bound
    ensures |history| == bound ==> PushBounded(history, entry, bound) == [entry] + history[..bound - 1]
  {
  }

  /** `bound` pushes into any history leave exactly the pushed entries, newest first. */
  lemma {:induction false} HistoryForgets<T>(history: seq<T>, entries: seq<T>, bound: nat)
    requires |history| <= bound == |entries|
    ensures PushAll(history, entries, bound) == Reversed(entries)
    decreases |entries|
  {
    if |entries| > 0 {
      var last := entries[|entries| - 1];
      var front := entries[..|entries| - 1];
      assert PushAll(history, entries, bound) == PushBounded(PushAll(history, front, bound), last, bound);
      PushAllLength(history, front, bound);
      PushAllSuffix(history, front, bound);
      var h := PushAll(history, front, bound);
      assert h[..bound - 1] == Reversed(front);
      assert Reversed(entries) == [last] + Reversed(front);
    }
  }

  /** The history after pushing `entries` one after the other. */
  function PushAll<T>(history: seq<T>, entries: seq<T>, bound: nat): seq<T>
    decreases |entries|
  {
    if entries == [] then history
    else PushBounded(PushAll(history, entries[..|entries| - 1], bound), entries[|entries| - 1], bound)
  }

  function Reversed<T>(s: seq<T>): (r: seq<T>)
    ensures |r| == |s|
    ensures forall i :: 0 <= i < |s| ==> r[i] == s[|s| - 1 - i]
    decreases |s|
  {
    if s == [] then [] else [s[|s| - 1]] + Reversed(s[..|s| - 1])
  }

  /** Pushing entries into a history within the bound gives a history of the bound's length or one entry longer per push. */
  lemma {:induction false} PushAllLength<T>(history: seq<T>, entries: seq<T>, bound: nat)
    requires |history| <= bound
    ensures |PushAll(history, entries, bound)| == if |history| + |entries| <= bound then |history| + |entries| else bound
    decreases |entries|
  {
    if |entries| > 0 {
      PushAllLength(history, entries[..|entries| - 1], bound);
    }
  }

  /** After some pushes, the newest entries come first, most recent at position 0. */
  lemma {:induction false} PushAllSuffix<T>(history: seq<T>, entries: seq<T>, bound: nat)
    requires |history| <= bound
    requires |entries| <= bound
    ensures |entries| <= |PushAll(history, entries, bound)|
    ensures PushAll(history, entries, bound)[..|entries|] == Reversed(entries)
    decreases |entries|
  {
    PushAllLength(history, entries, bound);
    if |entries| > 0 {
      var front := entries[..|entries| - 1];
      PushAllSuffix(history, front, bound);
      var h := PushAll(history, front, bound);
      var r := PushAll(history, entries, bound);
      assert r == PushBounded(h, entries[|entries| - 1], bound);
      forall i | 0 <= i < |entries|
        ensures r[i] == Reversed(entries)[i]
      {
        if i > 0 {
          assert r[i] == h[i - 1] == Reversed(front)[i - 1];
        }
      }
    }
  }

  /** An entry of the history: the five hex codes of a palette. */
  predicate IsSnapshot(codes: seq<string>) {
    |codes| == PaletteSize && forall i :: 0 <= i < |codes| ==> IsHexCode(codes[i])
  }

  predicate AllInGamut(p: seq<Color>) {
    forall i :: 0 <= i < |p| ==> InGamut(p[i])
  }

  /** The code of every colour of a palette is well formed and gives back the channels the colour is shown with. */
  lemma CodesRoundTrip(p: seq<Color>)
    requires AllInGamut(p)
    ensures forall i :: 0 <= i < |p| ==> IsHexCode(HslToHex(p[i])) && HexToRgb(HslToHex(p[i])) == HslToRgb(p[i])
  {
    forall i | 0 <= i < |p|
      ensures IsHexCode(HslToHex(p[i])) && HexToRgb(HslToHex(p[i])) == HslToRgb(p[i])
    {
      HslHexRoundTrip(p[i]);
    }
  }

  /** `currentPalette.map(c => this.hslToHex(c))`: the codes `addToHistory` records. */
  function Snapshot(p: seq<Color>): (codes: seq<string>)
    requires AllInGamut(p)
    ensures |codes| == |p|
    ensures forall i :: 0 <= i < |p| ==> IsHexCode(codes[i]) && HexToRgb(codes[i]) == HslToRgb(p[i])
    ensures |p| == PaletteSize ==> IsSnapshot(codes)
  {
    CodesRoundTrip(p);
    seq(|p|, i requires 0 <= i < |p| => HslToHex(p[i]))
  }

  /** `palette.map(hex => this.hexToHsl(hex))`: the colours a history entry loads as. */
  function Decode(codes: seq<string>): (p: seq<Color>)
    requires forall i :: 0 <= i < |codes| ==> IsHexCode(codes[i])
    ensures |p| == |codes|
    ensures AllInGamut(p)
  {
    seq(|codes|, i requires 0 <= i < |codes| => HexToHsl(codes[i]))
  }

  /** Loading a recorded palette gives, slot by slot, the colour read back from the channels it was shown with. */
  lemma DecodeSnapshot(p: seq<Color>)
    requires AllInGamut(p)
    ensures forall i :: 0 <= i < |p| ==> Decode(Snapshot(p))[i] == RgbToHsl(HslToRgb(p[i]))
  {
  }

  /**
   * `formatColor` applied to every slot, as `updateColorDisplay` shows the
   * codes: one per slot, a well-formed hex code in the hex format and in an
   * unknown one, a functional notation in the two others.
   */
  function Codes(p: seq<Color>, format: CodeFormat): (codes: seq<string>)
    requires AllInGamut(p)
    ensures |codes| == |p|
    ensures format == HexFormat || format == OtherFormat ==>
              forall i :: 0 <= i < |p| ==> |codes[i]| == 7 && codes[i][0] == '#' && IsHexCode(codes[i])
    ensures format == RgbFormat ==> forall i :: 0 <= i < |p| ==> 4 <= |codes[i]| && codes[i][..4] == "rgb("
    ensures format == HslFormat ==> forall i :: 0 <= i < |p| ==> 4 <= |codes[i]| && codes[i][..4] == "hsl("
  {
    seq(|p|, i requires 0 <= i < |p| => FormatColor(p[i], HslToRgb(p[i]), HslToHex(p[i]), format))
  }

  /** In the hex format, and in any format the switch does not know, the slots show the recorded codes. */
  lemma CodesDefaultToHex(p: seq<Color>, format: CodeFormat)
    requires AllInGamut(p)
    requires format == HexFormat || format == OtherFormat
    ensures Codes(p, format) == Snapshot(p)
  {
  }

  /** In the rgb format two slots show the same text exactly when they have the same code. */
  lemma RgbCodesMatchHex(p: seq<Color>, i: int, j: int)
    requires AllInGamut(p)
    requires 0 <= i < |p| && 0 <= j < |p|
    ensures Codes(p, RgbFormat)[i] == Codes(p, RgbFormat)[j] <==> Snapshot(p)[i] == Snapshot(p)[j]
  {
    RgbCodeDeterminesChannels(p[i], HslToRgb(p[i]), HslToHex(p[i]), p[j], HslToRgb(p[j]), HslToHex(p[j]));
    HslHexSameCode(p[i], p[j]);
  }

  /** The palette generator and the state its event handlers change. */
  class PaletteGenerator {
    var currentPalette: seq<Color>
    var lockedColors: set<int>
    var colorMode: Mode
    var codeFormat: CodeFormat
    var history: seq<seq<string>>
    const maxHistory: nat

    /**
     * A palette is empty or has five colours of the gamut, and the history
     * holds at most `maxHistory` entries of five hex codes each.
     */
    ghost predicate Valid()
      reads this
    {
      maxHistory == MaxHistory &&
      (|currentPalette| == 0 || |currentPalette| == PaletteSize) &&
      AllInGamut(currentPalette) &&
      |history| <= maxHistory &&
      forall k :: 0 <= k < |history| ==> IsSnapshot(history[k])
    }

    /** The defaults: no palette, no locks, complementary mode, hex codes, empty history. */
    constructor ()
      ensures Valid()
      ensures currentPalette == [] && lockedColors == {} && history == []
      ensures colorMode == Complementary && codeFormat == HexFormat
    {
      currentPalette := [];
      lockedColors := {};
      colorMode := Complementary;
      codeFormat := HexFormat;
      history := [];
      maxHistory := MaxHistory;
    }

    /**
     * `addToHistory`: the codes of the current palette become the newest
     * history entry, and the oldest entry goes when there are more than
     * `maxHistory`.
     */
    method AddToHistory()
      requires Valid() && |currentPalette| == PaletteSize
      modifies this
      ensures Valid()
      ensures history == PushBounded(old(history), Snapshot(currentPalette), maxHistory)
      ensures currentPalette == old(currentPalette) && lockedColors == old(lockedColors)
      ensures colorMode == old(colorMode) && codeFormat == old(codeFormat)
    {
      var entry := Snapshot(currentPalette);
      history := [entry] + history;
      if |history| > maxHistory {
        history := history[..|history| - 1];
      }
    }

    /**
     * `generatePalette` from the colour `randomColor` drew: the harmony of the
     * current mode, merged with the locked slots, recorded in the history.
     */
    method Generate(base: Color)
      requires Valid() && IsSampledBase(base)
      modifies this
      ensures Valid()
      ensures currentPalette == Merge(old(currentPalette), lockedColors, Derive(base, colorMode))
      ensures history == PushBounded(old(history), Snapshot(currentPalette), maxHistory)
      ensures lockedColors == old(lockedColors) && colorMode == old(colorMode) && codeFormat == old(codeFormat)
    {
      var derived := Derive(base, colorMode);
      DerivedInRange(base, colorMode);
      var merged := MergeLocked(currentPalette, lockedColors, derived);
      MergeInGamut(currentPalette, lockedColors, derived);
      currentPalette := merged;
      AddToHistory();
    }

    /** The mode selector: the new mode, then a fresh palette in it. */
    method SelectMode(mode: Mode, base: Color)
      requires Valid() && IsSampledBase(base)
      modifies this
      ensures Valid()
      ensures colorMode == mode
      ensures currentPalette == Merge(old(currentPalette), lockedColors, Derive(base, mode))
      ensures history == PushBounded(old(history), Snapshot(currentPalette), maxHistory)
      ensures lockedColors == old(lockedColors) && codeFormat == old(codeFormat)
    {
      colorMode := mode;
      Generate(base);
    }

    /** A format button: the new code format and nothing else. */
    method SelectFormat(format: CodeFormat)
      requires Valid()
      modifies this
      ensures Valid()
      ensures codeFormat == format
      ensures currentPalette == old(currentPalette) && lockedColors == old(lockedColors)
      ensures colorMode == old(colorMode) && history == old(history)
    {
      codeFormat := format;
    }

    /** A lock button: the slot is unlocked when locked and locked when not. */
    method ToggleLock(idx: int)
      requires Valid()
      modifies this
      ensures Valid()
      ensures lockedColors == Toggle(old(lockedColors), idx)
      ensures currentPalette == old(currentPalette) && history == old(history)
      ensures colorMode == old(colorMode) && codeFormat == old(codeFormat)
    {
      if idx in lockedColors {
        lockedColors := lockedColors - {idx};
      } else {
        lockedColors := lockedColors + {idx};
      }
    }

    /** A click on a history entry: its codes become the palette and every lock is released. */
    method LoadHistoryEntry(k: int)
      requires Valid() && 0 <= k < |history|
      modifies this
      ensures Valid()
      ensures history == old(history) && colorMode == old(colorMode) && codeFormat == old(codeFormat)
      ensures currentPalette == Decode(history[k]) && lockedColors == {}
    {
      currentPalette := Decode(history[k]);
      lockedColors := {};
    }

    /** The confirmed clear button: the history is emptied and nothing else changes. */
    method ClearHistory()
      requires Valid()
      modifies this
      ensures Valid()
      ensures history == []
      ensures currentPalette == old(currentPalette) && lockedColors == old(lockedColors)
      ensures colorMode == old(colorMode) && codeFormat == old(codeFormat)
    {
      history := [];
    }
  }
}
