# Colour palette generator: a Dafny model

This project models the palette core of the colour palette web app, the
`ColorPaletteGenerator` class in `js/app.js`. The core covers:

- how a five-colour palette is derived from a base colour in one of five
  harmony modes (complementary, analogous, triadic, tetradic, monochromatic);
- how locked slots survive a regeneration;
- how palettes are recorded in a history of at most ten entries, and loaded
  back from it;
- how a colour is converted to its channels and its `#RRGGBB` code, and read
  back from that code;
- how the code shown in a slot is formatted as hex, `rgb(...)` or `hsl(...)`.

Modules, one per concern of the class:

- `Colors` (`colors.dfy`): the HSL colour and its RGB channels. It holds
  `hslToRgb` and the HSL reconstruction of `hexToHsl`, over exact reals, with
  `Math.round` as "nearest integer, halves up". It proves that every colour
  of the gamut (hue 0-360, saturation and lightness 0-100) converts to three
  channels in 0..255, and that reading channels back gives a colour of the
  gamut.
- `HexCodes` (`hexcodes.dfy`): `toString(16)`, the two-digit padding,
  `toUpperCase`, `parseInt(_, 16)`, and with them `hslToHex` and the channel
  parsing of `hexToHsl`. It proves that every code the app emits has seven
  characters and parses back to the channels it was made from.
- `Harmony` (`harmony.dfy`):
  - JavaScript's truncating `% 360`, `rotate`, `getComplementary`,
    `getLightVariant` and `getDarkVariant`.
  - The mode switch of `generatePalette`. Any mode string the switch does not
    name leaves the palette as the base colour alone.
  - Rotations compose, the complement is a half turn and is its own inverse,
    and each mode's scheme relates its colours as the mode promises.
  - In tetradic mode the fifth colour (the complement) equals the third (the
    half-turn rotation).
- `Formatting` (`formatting.dfy`): `formatColor` and the decimal printing of
  its template literals. The rgb code determines the channels it shows, and
  the hsl code the rounded values it shows.
- `Palette` (`palette.dfy`):
  - The lock merge, the bounded history, the lock toggle, and the history
    codes and their decoding.
  - The class `PaletteGenerator`, whose methods change the palette, locks,
    mode, format and history as the event handlers do. They keep the
    invariant `Valid()`: the palette is empty or has five colours of the
    gamut, and the history holds at most ten entries of five well-formed codes.
- `WorkedCases` (`worked_cases.dfy`): concrete colours carried through the
  model.
  - hsl(200, 80%, 60%) converts to rgb(71,180,235), code #47B4EB.
  - Pure red survives the trip through its code.
  - A recorded code can reload as a different colour, because `hexToHsl`
    rounds lightness to a whole percent. The base hsl(0, 70%, 50%) can be
    sampled. In complementary mode its light variant hsl(0, 70%, 57.5%) is
    recorded as #DE4747. That code reloads as hsl(0, 70%, 57%), whose code is
    #DE4545.

## Model

| member | source | states |
|---|---|---|
| Colors.Round | js/app.js:279-281 | `Math.round` gives the integer within half a unit of its argument, halves rounding up |
| Colors.Hue2Rgb | js/app.js:262-269 | `hue2rgb` with no spread between its levels (p = q) returns that level; `Hue2RgbBetween` bounds it in general |
| Colors.Hue2RgbBetween | js/app.js:262-269 | for a hue offset within one turn either side of [0, 1], `hue2rgb` returns a value between p and q |
| Colors.LevelsWithin | js/app.js:271-272 | for fractional lightness and saturation, the levels satisfy 0 <= p <= q <= 1 |
| Colors.ChromaticRgbChannels | js/app.js:273-281 | the three channels computed from levels 0 <= p <= q <= 1 are integers in 0..255 |
| Colors.HslToRgb | js/app.js:252-283 | a colour without saturation converts to a grey, three equal channels; `HslToRgbChannels` gives the channel range and the grey's value |
| Colors.HslToRgbChannels | js/app.js:252-283 | every colour of the gamut converts to three channels in 0..255; a colour without saturation is the grey of its rounded lightness |
| Colors.FractionsOfChannels | js/app.js:298-313 | the hue and saturation fractions of `hexToHsl` lie in [0, 1] and are 0 for a grey |
| Colors.RgbToHsl | js/app.js:298-319 | the hue, saturation and lightness that `hexToHsl` returns are whole numbers; `RgbToHslInGamut` and `RgbToHslGrey` give their ranges and the grey case |
| Colors.LightnessWithin | js/app.js:300 | the lightness fraction, the mean of the largest and smallest channel fraction, lies in [0, 1] |
| Colors.RoundedColorInGamut | js/app.js:315-319 | fractions in [0, 1], scaled to degrees and percent and rounded, give a colour of the gamut |
| Colors.RgbToHslInGamut | js/app.js:298-319 | channels in 0..255 read back as a hue in 0..360 and a saturation and lightness in 0..100 |
| Colors.RgbToHslGrey | js/app.js:302-303 | three equal channels read back with hue 0 and saturation 0 |
| HexCodes.ToHex | js/app.js:288 | `toString(16)` prints hex digits with no leading zero: one digit exactly below 16, at most two below 256 |
| HexCodes.ParseHex | js/app.js:294-296 | `parseInt(_, 16)` of one digit is below 16 and of two digits below 256 |
| HexCodes.ParseToHex | js/app.js:288 | parsing what `toString(16)` prints gives the number back |
| HexCodes.PadHex | js/app.js:289 | one or two digits become two: the last digit stays last, a single digit gets a zero in front, and hex digits stay hex digits |
| HexCodes.ToUpper | js/app.js:290 | `toUpperCase` keeps the length and keeps hex digits hex digits; `ToUpperLetters` and `ToUpperConcat` give the rest |
| HexCodes.ToUpperLetters | js/app.js:290 | upper-casing leaves no lower-case letter and changes no other character |
| HexCodes.ToUpperConcat | js/app.js:290 | upper-casing a joined string upper-cases each part |
| HexCodes.ChannelHex | js/app.js:287-289 | a channel below 256 prints as exactly two hex digits |
| HexCodes.ChannelDigits | js/app.js:287-289 | a channel prints as its high and its low hex digit, the high one a zero below 16 |
| HexCodes.ChannelHexCanonical | js/app.js:287-290 | the padded, upper-cased code of a channel is its two upper-case hex digits, the high one first |
| HexCodes.ParseCanonicalChannel | js/app.js:294-296 | parsing the two-digit code of a channel gives the channel |
| HexCodes.RgbToHex | js/app.js:285-291 | the code of three channels is seven characters, `#` and six hex digits; `RgbToHexCanonical` and `RgbHexRoundTrip` give its digits and its parse |
| HexCodes.RgbToHexCanonical | js/app.js:285-291 | the code is `#` followed by the two upper-case hex digits of red, green and blue in that order |
| HexCodes.HslToHex | js/app.js:285-291 | the code of every colour of the gamut is `#` and six hex digits; `HslHexRoundTrip` gives its parse |
| HexCodes.RgbHexRoundTrip | js/app.js:285-296 | the code of three channels has length 7, starts with `#`, and its slices 1-3, 3-5 and 5-7 parse to the channels |
| HexCodes.HexToRgb | js/app.js:294-296 | the three parsed channels of a code lie in 0..255 |
| HexCodes.HexToHsl | js/app.js:293-320 | the colour read from a code lies in the gamut |
| HexCodes.HslHexRoundTrip | js/app.js:285-296 | the code of every colour of the gamut is well formed and parses back to the colour's channels |
| HexCodes.HslHexSameCode | js/app.js:285-291 | two colours have the same code exactly when they convert to the same channels |
| Harmony.Rem360 | js/app.js:161 | JavaScript's `% 360` gives a value in [0, 360) for a non-negative angle and in (-360, 0] for a negative one |
| Harmony.Rem360Unique | js/app.js:166 | for a non-negative angle, `% 360` is the one angle in [0, 360) a whole number of turns away |
| Harmony.Rotate | js/app.js:165-168 | `rotate` keeps saturation and lightness and gives a hue in [0, 360) whenever hue + degrees + 360 is non-negative |
| Harmony.Complement | js/app.js:160-163 | `getComplementary` keeps saturation and lightness and gives a hue in [0, 360) for a hue of at least -180 |
| Harmony.LightVariant | js/app.js:170-173 | `getLightVariant` keeps hue and saturation and caps lightness at 95 |
| Harmony.DarkVariant | js/app.js:175-178 | `getDarkVariant` keeps hue and saturation and keeps lightness at least 10 |
| Harmony.RotateComposes | js/app.js:165-168 | for a hue in [0, 360), rotating by a and then by b is rotating by a + b, as long as a, b and a + b are at least -360 |
| Harmony.RotateWholeTurn | js/app.js:165-168 | rotating by 0 or a whole turn either way leaves a colour with hue in [0, 360) unchanged |
| Harmony.ComplementIsHalfTurn | js/app.js:160-168 | the complement is the rotation by 180 degrees |
| Harmony.ComplementInvolutive | js/app.js:160-163 | the complement of the complement of a colour with hue in [0, 360) is the colour |
| Harmony.LightVariantLifts | js/app.js:170-173 | for an amount in [0, 1], the light variant's lightness is at least the smaller of the colour's lightness and 95 |
| Harmony.DarkVariantLowers | js/app.js:175-178 | for an amount in [0, 1], the dark variant's lightness is at most the larger of the colour's lightness and 10 |
| Harmony.LightVariantMonotone | js/app.js:170-173 | a larger amount gives a light variant at least as light |
| Harmony.DarkVariantMonotone | js/app.js:175-178 | a larger amount gives a dark variant at least as dark |
| Harmony.Derive | js/app.js:98-134 | the mode switch puts the base first and adds four colours for a known mode and none for any other |
| Harmony.DerivedInRange | js/app.js:98-134 | from a base that `randomColor` can draw, every derived colour keeps the base's saturation, has a hue in [0, 360) and a lightness in [10, 95] |
| Harmony.ComplementaryScheme | js/app.js:104-109 | the second colour's complement is the base, the fifth shares the second's hue and the third's lightness, and the third and fourth bracket the base's lightness |
| Harmony.AnalogousScheme | js/app.js:110-115 | the second and third colours are 30 degrees either side of the base, and the fourth and fifth a further 30 degrees out on the same sides |
| Harmony.TriadicScheme | js/app.js:116-121 | the second and third colours split the hue circle in thirds with the base, and the fourth and fifth bracket the base's lightness |
| Harmony.TetradicScheme | js/app.js:122-127 | the second to fourth colours are quarter turns from the base, and the fifth equals the third |
| Harmony.MonochromaticScheme | js/app.js:128-133 | all five colours share hue and saturation, ordered by lightness from the darkest variant to the lightest |
| Formatting.NatToDecimal | js/app.js:243-245 | a template literal prints a non-negative integer as decimal digits with no leading zero |
| Formatting.IntToDecimal | js/app.js:244-246 | a template literal prints an integer as the text of an integer, with a minus sign exactly when it is negative; `IntDecimalRoundTrip` reads it back |
| Formatting.NatDecimalRoundTrip | js/app.js:243-245 | reading back a printed non-negative integer gives the integer |
| Formatting.IntDecimalRoundTrip | js/app.js:243-245 | every printed integer, with its minus sign, reads back as itself |
| Formatting.IntDecimalInjective | js/app.js:243-245 | two integers print the same exactly when they are equal |
| Formatting.DecimalHasNoSeparator | js/app.js:243-245 | a printed integer holds no comma and no percent sign |
| Formatting.RgbCode | js/app.js:244 | the rgb template is seven characters longer than its three fields, starts with `rgb(` and ends with `)` |
| Formatting.HslCode | js/app.js:246 | the hsl template is nine characters longer than its three fields, starts with `hsl(` and ends with `%)` |
| Formatting.FormatColor | js/app.js:239-250 | the hex and default formats show the hex code, the rgb format an `rgb(...)` code and the hsl format an `hsl(...)` code; the two lemmas below say what those codes determine |
| Formatting.RgbTextFields | js/app.js:244 | the three fields of an rgb code, none holding a comma, are read back from it |
| Formatting.HslTextFields | js/app.js:246 | the three fields of an hsl code, the first two holding no comma or percent sign, are read back from it |
| Formatting.RgbCodeDeterminesChannels | js/app.js:239-244 | two rgb codes are the same text exactly when they show the same three channels |
| Formatting.HslCodeDeterminesRounding | js/app.js:239-246 | two hsl codes are the same text exactly when they show the same rounded hue, saturation and lightness |
| Palette.FillSlot | js/app.js:142 | `palette[Math.min(i, palette.length - 1)]` is the derived colour at slot i, or the last derived colour past the end |
| Palette.Merge | js/app.js:137-144 | the lock merge always yields five colours |
| Palette.MergeLocked | js/app.js:137-144 | the loop builds, slot by slot, the palette `Merge` describes |
| Palette.MergeRespectsLocks | js/app.js:137-144 | for any non-empty derived palette, a locked slot that holds a colour keeps it; every other slot takes the derived colour of its position, or the last derived colour past the end |
| Palette.UnrecognisedMergeIsBase | js/app.js:98-144 | for a mode the switch does not name, a locked slot that holds a colour keeps it and every other slot gets the base colour |
| Palette.MergeWithoutLocks | js/app.js:137-144 | with no locks or no previous palette, the merge is the derived palette, or the base five times over for an unknown mode |
| Palette.RegenerateKeepsLocks | js/app.js:137-146 | regenerating twice with the same locks equals regenerating once with the second derived palette |
| Palette.MergeInGamut | js/app.js:137-146 | merging colours of the gamut yields colours of the gamut |
| Palette.Toggle | js/app.js:217-221 | the toggled slot changes lock state and every other slot keeps its own |
| Palette.ToggleTwice | js/app.js:217-221 | toggling a slot twice restores the locks |
| Palette.PushBounded | js/app.js:351-354 | `unshift` then `pop` past the bound puts the new entry first, keeps the older ones in order, and grows the history by one only while below the bound |
| Palette.HistoryBounded | js/app.js:351-354 | a history within its bound stays within it, and a full history drops its oldest entry |
| Palette.PushAllLength | js/app.js:351-354 | after n pushes a history within the bound grows by n, up to the bound |
| Palette.PushAllSuffix | js/app.js:351-354 | after n pushes, at most the bound, the first n entries are the pushed ones, newest first |
| Palette.HistoryForgets | js/app.js:351-354 | as many pushes as the bound leave exactly the pushed entries, newest first |
| Palette.CodesRoundTrip | js/app.js:350 | the code of every colour of a palette is well formed and parses back to the colour's channels |
| Palette.Snapshot | js/app.js:350 | the recorded codes correspond slot by slot to the palette, each well formed and giving back its colour's channels |
| Palette.Decode | js/app.js:376 | a history entry loads as one colour of the gamut per code |
| Palette.DecodeSnapshot | js/app.js:350-376 | loading a recorded palette gives, slot by slot, the colour read back from the channels it was shown with |
| Palette.Codes | js/app.js:184-193 | one code per slot: a well-formed hex code in the hex and default formats, an `rgb(` or `hsl(` code in the other two; `CodesDefaultToHex` and `RgbCodesMatchHex` say which codes |
| Palette.CodesDefaultToHex | js/app.js:239-249 | in the hex format and in any format the switch does not name, the slots show the recorded codes |
| Palette.RgbCodesMatchHex | js/app.js:185-193 | in the rgb format two slots show the same text exactly when they have the same hex code |
| Palette.PaletteGenerator.constructor | js/app.js:4-10 | no palette, no locks, complementary mode, hex codes and an empty history |
| Palette.PaletteGenerator.AddToHistory | js/app.js:349-355 | the current palette's codes become the newest entry, the oldest goes past ten entries, nothing else changes |
| Palette.PaletteGenerator.Generate | js/app.js:97-148 | the palette becomes the locked merge of the previous palette with the mode's harmony of the base, and its codes are pushed onto the history |
| Palette.PaletteGenerator.SelectMode | js/app.js:45-48 | the mode is set and a palette is generated in it |
| Palette.PaletteGenerator.SelectFormat | js/app.js:55-56 | only the code format changes |
| Palette.PaletteGenerator.ToggleLock | js/app.js:216-221 | only the slot's lock state flips |
| Palette.PaletteGenerator.LoadHistoryEntry | js/app.js:373-377 | the entry's codes, read back, become the palette and every lock is released; the history stays |
| Palette.PaletteGenerator.ClearHistory | js/app.js:75 | only the history is emptied |
| WorkedCases.SkyBlueChannels | js/app.js:252-283 | hsl(200, 80%, 60%) converts to the channels (71, 180, 235) |
| WorkedCases.SkyBlueHex | js/app.js:285-291 | that colour's hex code is #47B4EB |
| WorkedCases.SkyBlueRgbCode | js/app.js:244 | its rgb code is rgb(71,180,235) |
| WorkedCases.SkyBlueHslCode | js/app.js:246 | its hsl code is hsl(200,80%,60%) |
| WorkedCases.SkyBlueComplementary | js/app.js:104-109 | the complementary palette of hsl(200, 80%, 60%) has hues 200, 20, 200, 200, 20 and lightnesses 60, 60, 66, 51, 66 |
| WorkedCases.RedReads | js/app.js:293-320 | #FF0000 reads as hsl(0, 100%, 50%) |
| WorkedCases.RedChannels | js/app.js:252-283 | hsl(0, 100%, 50%) converts to the channels (255, 0, 0) |
| WorkedCases.RedHex | js/app.js:285-291 | the code of hsl(0, 100%, 50%) is #FF0000 |
| WorkedCases.RedRoundTrip | js/app.js:285-320 | #FF0000 reloads as a colour whose code is #FF0000 |
| WorkedCases.DarkRedReadsAsBlack | js/app.js:293-320 | #010000, a code the generator never records, reads as hsl(0, 100%, 0%) because the lightness is rounded to a whole percent |
| WorkedCases.BlackCode | js/app.js:252-291 | every colour of lightness zero has channels (0, 0, 0) and code #000000 |
| WorkedCases.SampledRedLightVariant | js/app.js:104-109 | hsl(0, 70%, 50%) is a base `randomColor` can draw, and its complementary palette holds hsl(0, 70%, 57.5%) in slot 2 |
| WorkedCases.LightRedChannels | js/app.js:252-283 | hsl(0, 70%, 57.5%) converts to the channels (222, 71, 71) |
| WorkedCases.LightRedHex | js/app.js:285-291 | the code of hsl(0, 70%, 57.5%) is #DE4747 |
| WorkedCases.LightRedReads | js/app.js:293-320 | #DE4747 reads as hsl(0, 70%, 57%) |
| WorkedCases.ReloadedRedChannels | js/app.js:252-283 | hsl(0, 70%, 57%) converts to the channels (222, 69, 69) |
| WorkedCases.ReloadedRedHex | js/app.js:285-291 | the code of hsl(0, 70%, 57%) is #DE4545 |
| WorkedCases.ReloadChangesCode | js/app.js:350-377 | a code the app records can reload as a colour with a different code: the light variant of the sampled base hsl(0, 70%, 50%) is recorded as #DE4747 and reloads with code #DE4545 |

## Left out

- Floating point: colours, channels and the conversions are exact reals and unbounded integers. The IEEE double rounding of `/`, `*` and `Math.round` is not modelled, so a channel that lands within rounding error of a half may differ by one from the browser's.
- `randomColor` (`Math.random`): the base colour is a parameter of `Generate` and `SelectMode`. It must satisfy `IsSampledBase`, the range the sampler draws from. The upper ends of saturation and lightness are closed there; the hue stays below 360.
- The DOM, i18n, toasts, the export modal, the clipboard, and `exportCSS` / `exportTailwind` / `exportJSON` are not modelled. `updateColorDisplay` is modelled only through the codes it shows (`Codes`); `updateHistoryDisplay` and `updatePaletteInfo` (the brightness and temperature labels) are left out.
- `init`, `saveState` and `loadState` (localStorage and JSON) are left out. `Valid()` assumes that every history entry came from `addToHistory`, which a hand-edited saved state need not respect.
- The mode and the code format are strings in the source. Here they are the datatypes `Mode` and `CodeFormat`, and any string the switches do not name is `Unrecognised` or `OtherFormat`.
- The confirm dialog before clearing the history, and the `parseInt` of a slot's or entry's index attribute, are left to the caller. `ToggleLock` takes the index as an integer, and `LoadHistoryEntry` takes one of an existing entry, as the rendered history only offers those.
- `toUpperCase` is modelled for ASCII only, which covers every character `toString(16)` prints.
- HexCodes.HexToHsl: requires hex digits at positions 1 to 6. `parseInt` on other text (NaN, or a partial parse) is not modelled. Every code the app itself stores meets the requirement (`HslHexRoundTrip`).
- Colors.HslToRgbChannels: states the channel range and the grey case only. It does not state that `hexToHsl` inverts `hslToRgb` up to rounding, because in general it does not (`ReloadChangesCode`).
- Harmony.Rotate: states the hue range only when hue + degrees + 360 is non-negative, which holds for every call the modes make on a sampled base. For smaller sums JavaScript's `%` gives a negative hue, which `Rem360` models but no ensures describes.
