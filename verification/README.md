# Two-field currency converter

A model of the converter page of `react-test-exchange`: two amount fields
(RUB on the left, USDT on the right), each a `PercentageInput` with limits,
a rounding step and four quick-pick buttons, and the page (`App`) that
remembers which field the user focused last and asks a quote service, at
most once a second, to fill in the other field.

The project has three modules:

- `Decimals` (`decimals.dfy`): amounts as exact finite decimals
  `mantissa / 10^places`. It also holds the text the amount field accepts
  (`^\d*\.?\d*$`), `parseFloat` on that text (`Parse`) and
  `Number.prototype.toString` in plain notation (`ToString`). The main
  result is that writing a non-negative amount and reading it back gives
  the same amount (`ToStringRoundTrip`).
- `PercentageInput` (`percentage_input.dfy`): the amount field.
  - `EditOf` is the decision that `handleInputChange` makes for one
    edit: ignore it, keep it as intermediate text, commit `min` or `max`,
    or commit the amount rounded to `step`.
  - `RoundToStep` is `Math.round(v / step) * step`.
  - `FillWidth` is `calculateWidth`.
  - `CurrencyOffsetX` is the currency label offset.
  - The `PercentageInput` class holds the text box state. Its methods
    change that state as the component's handlers and its resync effect
    do.
- `App` (`app.dfy`): the page state as the class `Exchange`.
  - The request gate of `fetchExchangeRate`: a request is dropped when
    it comes less than 1000 ms after the last one that went out.
  - The payload chosen by direction, and the routing of a quote to the
    opposite field.
  - The two effects that send a request for whichever field drives.
  - The current time is the parameter `now`. The service's answer is a
    `Response` value, either a quote or a failure.

The model follows the code and adds no guard the code lacks. A quote that
arrives after the user has switched fields still overwrites the field the
user now drives (`StaleQuoteOverwritesDrivingSide`). A rounded amount is
not clamped again, so it can pass `max` (`RoundingMayPassMax`). As soon as
the page opens, the right-side effect asks for a quote of the right amount
0, and the answer replaces the initial left amount (`MountQuotesRightZero`).

## Model

| member | source | states |
|---|---|---|
| Decimals.Parse | src/components/PercentageInput/index.tsx:63 | `parseFloat` of accepted text: when it yields a number, the number is non-negative and has exactly as many decimal places as the text has digits after '.' |
| Decimals.ParseFailsOnlyWithoutDigits | src/components/PercentageInput/index.tsx:63-66 | the only accepted texts that `parseFloat` turns into NaN are "" and "." |
| Decimals.Accepted | src/components/PercentageInput/index.tsx:53 | the pattern `^\d*\.?\d*$`: digits before the first '.' and digits after it (its contract is the lemma below) |
| Decimals.AcceptedCharacters | src/components/PercentageInput/index.tsx:53 | a text is accepted if and only if every character is a digit except the first '.', that is, digits with at most one '.' |
| Decimals.DotCount | src/components/PercentageInput/index.tsx:54 | `split(".").length - 1`: the count is 0 exactly when the text holds no '.' |
| Decimals.ParseValue | src/components/PercentageInput/index.tsx:63 | the number read is the whole-part digits plus the fraction digits divided by 10 to the power of their count |
| Decimals.ParseDigits | src/components/PercentageInput/index.tsx:63 | text made only of digits is accepted, does not end in '.', and reads as the whole number it spells |
| Decimals.DigitsValueAppend | src/components/PercentageInput/index.tsx:63 | reading a concatenation of digit strings shifts the left part by the length of the right part |
| Decimals.NatToDigitsValue | src/components/PercentageInput/index.tsx:68 | the digits `toString` writes for a whole number read back as that number |
| Decimals.PadLeftValue | src/components/PercentageInput/index.tsx:91 | leading zeros added before a fraction keep the text all digits and do not change the number |
| Decimals.Normalize | src/components/PercentageInput/index.tsx:91 | the form `toString` writes denotes the same number with the same sign, and has no trailing fraction zero |
| Decimals.ToStringOfEqualNumbers | src/components/PercentageInput/index.tsx:117-119 | `toString` depends only on the number, not on how many decimal places it carries |
| Decimals.NormalFormUnique | src/components/PercentageInput/index.tsx:91 | two decimals without a trailing fraction zero that denote the same number are identical |
| Decimals.UnsignedRoundTrip | src/components/PercentageInput/index.tsx:91 | the plain notation of `a / 10^places` is accepted input, does not end in '.', and reads back as exactly that decimal |
| Decimals.DotInsertedRoundTrip | src/components/PercentageInput/index.tsx:91 | digits with a '.' put before their last `places` digits read back as all the digits over 10^places |
| Decimals.ToStringRoundTrip | src/components/PercentageInput/index.tsx:63-91 | the text shown for a non-negative amount is accepted, does not end in '.', and reads back as the same number |
| Decimals.ToString | src/components/PercentageInput/index.tsx:68 | `toString` in plain notation: the text is never empty, and it starts with '-' exactly for negative numbers |
| Decimals.ToStringShape | src/components/PercentageInput/index.tsx:91 | the text of a non-negative number starts with '0' only when it is "0" or "0." followed by the fraction, holds a '.' exactly when the number is not whole, and then does not end in '0' |
| Decimals.WholeExactlyWithoutPlaces | src/components/PercentageInput/index.tsx:91 | a decimal without trailing fraction zeros is whole exactly when it has no decimal places |
| Decimals.NatToDigitsLength | src/components/PercentageInput/index.tsx:114 | a whole number with k decimal digits is written with exactly k characters |
| PercentageInput.Round | src/components/PercentageInput/index.tsx:45 | `Math.round` gives the integer n with x - 1/2 < n <= x + 1/2 |
| PercentageInput.RoundToStep | src/components/PercentageInput/index.tsx:44-46 | the result is a whole multiple of `step`, and measured in steps it is less than half a step below or at most half a step above the input |
| PercentageInput.RoundToStepWithinHalfStep | src/components/PercentageInput/index.tsx:44-46 | for a positive step the rounded amount lies within step/2 of the typed amount |
| PercentageInput.RoundOnGrid | src/components/PercentageInput/index.tsx:44-46 | an amount that already is a multiple of `step` is left unchanged |
| PercentageInput.RoundBetweenGridPoints | src/components/PercentageInput/index.tsx:44-46 | rounding never leaves an interval whose ends are multiples of a positive step |
| PercentageInput.AcceptedDotCount | src/components/PercentageInput/index.tsx:53-54 | accepted text holds exactly one '.' when it has one at all, so `split(".").length - 1` is 0 or 1 |
| PercentageInput.EditOf | src/components/PercentageInput/index.tsx:53-91 | the decision for one edit: it is ignored exactly when the text is not accepted, and an intermediate edit keeps the text as typed, which ends in '.' |
| PercentageInput.IgnoredExactlyWhenRejected | src/components/PercentageInput/index.tsx:53 | an edit is ignored if and only if it does not match `^\d*\.?\d*$` |
| PercentageInput.IntermediateExactlyAtTrailingDot | src/components/PercentageInput/index.tsx:54-60 | accepted text is kept as typed, with no amount reported, if and only if it ends in '.' |
| PercentageInput.EmptyEditCommitsMin | src/components/PercentageInput/index.tsx:63-70 | emptying the field commits exactly `min` |
| PercentageInput.OutOfRangeClamps | src/components/PercentageInput/index.tsx:72-84 | an amount below `min` commits exactly `min`, and one at least `min` but above `max` commits exactly `max`, unrounded |
| PercentageInput.InRangeRounds | src/components/PercentageInput/index.tsx:86-91 | an amount within [min, max] commits a multiple of `step` within step/2 of it |
| PercentageInput.CommittedWithinLimits | src/components/PercentageInput/index.tsx:72-91 | when `min` and `max` are multiples of a positive step, every committed amount lies in [min, max] |
| PercentageInput.RoundingMayPassMax | src/components/PercentageInput/index.tsx:80-91 | with limits 0 and 150 and step 100, typing "150" commits 200: the rounded amount is not clamped again |
| PercentageInput.DigitsEdit | src/components/PercentageInput/index.tsx:53-91 | typing only digits commits the number they spell clamped to the limits, or rounded to `step` when within them |
| PercentageInput.TypingSeventyFive | src/components/PercentageInput/PercentageInput.test.tsx:31-37 | on [0, 100] with step 1, typing "75" commits 75 and shows "75" |
| PercentageInput.TypingIntoLeftField | src/App.tsx:72-80 | in the left field (limits 10000 and 70000000, step 100), typing "12345" commits 12300 |
| PercentageInput.RetypingDisplayedAmountKeepsIt | src/components/PercentageInput/index.tsx:87-91 | typing back the text shown for an amount the field could have committed commits that same amount |
| PercentageInput.FillWidth | src/components/PercentageInput/index.tsx:97-112 | the fill is in [0, 100]; it is 100 exactly when the amount reaches `bucket` percent of `max`, and 0 exactly when it is at most 25 points below; with `max` zero it is full for a positive amount and empty otherwise |
| PercentageInput.Fills | src/components/PercentageInput/index.tsx:33 | one fill per quick-pick bucket 25, 50, 75, 100, in that order, and a lower button is never less full than a higher one |
| PercentageInput.FillWidthMonotone | src/components/PercentageInput/index.tsx:97-112 | for a positive `max`, a larger amount never fills a button less |
| PercentageInput.QuickPickFills | src/components/PercentageInput/index.tsx:35-41 | the amount quick-pick reports for a bucket fills that button and every lower one completely and leaves the higher ones empty |
| PercentageInput.QuickPickRatio | src/components/PercentageInput/index.tsx:37 | quick-pick's amount for bucket B, measured against `max` in percent, is B |
| PercentageInput.FillWidthExamples | src/components/PercentageInput/PercentageInput.test.tsx:46-51 | amount 30 of maximum 100 fills the 25% button fully and the 50% button to 20 |
| PercentageInput.CurrencyOffsetExample | src/components/PercentageInput/PercentageInput.test.tsx:53-57 | the amount 1234 is shown as "1234" and puts the label at 96 |
| PercentageInput.CurrencyOffsetX | src/components/PercentageInput/index.tsx:114 | 24 pixels per character of the shown text (its contract is the lemma below) |
| PercentageInput.OffsetOfWholeAmount | src/components/PercentageInput/index.tsx:114 | a whole amount with k digits puts the label at 24k |
| PercentageInput.PercentageInput.constructor | src/components/PercentageInput/index.tsx:31 | a mounted field shows its owner's amount as text |
| PercentageInput.PercentageInput.HandleInputChange | src/components/PercentageInput/index.tsx:48-95 | an ignored edit reports nothing and keeps the text; an intermediate edit reports nothing and shows the edit; a committed edit reports the amount and shows its text |
| PercentageInput.PercentageInput.HandlePercentageClick | src/components/PercentageInput/index.tsx:35-41 | a click on bucket B reports exactly B percent of `max` |
| PercentageInput.PercentageInput.ReceiveValue | src/components/PercentageInput/index.tsx:116-119 | a new amount from the owner resets the text to that amount; an equal amount leaves the text as it is |
| PercentageInput.PercentageInput.Width | src/components/PercentageInput/index.tsx:97-112 | the fill of a button for the current amount lies in [0, 100] |
| App.PayloadFor | src/App.tsx:24-26 | exactly one of `inAmount` and `outAmount` is set, the one on the driving side, and it holds the amount |
| App.Throttled | src/App.tsx:18 | a request is dropped while the last one that went out is less than 1000 ms old (its consequence is the spacing invariant kept by `FetchExchangeRate`) |
| App.Exchange.constructor | src/App.tsx:10-13 | the state before the page's effects first run: 10000 on the left, 0 on the right, the right field driving, no request sent yet, and the spacing invariant holds |
| App.Exchange.FocusLeft | src/App.tsx:79 | focusing the left field makes it drive; the spacing of the requests sent is kept |
| App.Exchange.FocusRight | src/App.tsx:88 | focusing the right field makes it drive; the spacing of the requests sent is kept |
| App.Exchange.SetLeftValue | src/App.tsx:78 | the left field's report becomes the left amount; the spacing of the requests sent is kept |
| App.Exchange.SetRightValue | src/App.tsx:87 | the right field's report becomes the right amount; the spacing of the requests sent is kept |
| App.Exchange.FetchExchangeRate | src/App.tsx:15-26 | a request less than 1000 ms after the last one is dropped and nothing changes; otherwise `now` is recorded and the payload for the driving side goes out; the requests that went out stay at least 1000 ms apart |
| App.Exchange.ApplyResponse | src/App.tsx:43-52 | a quote for a left-driven request sets only the right amount (to `outAmount`), one for a right-driven request only the left amount (to `inAmount`); a failed call changes neither; the spacing of the requests sent is kept |
| App.Exchange.LeftEffect | src/App.tsx:57-61 | while the left field drives, a request for the left amount goes out unless throttled; otherwise nothing changes |
| App.Exchange.RightEffect | src/App.tsx:63-67 | while the right field drives, a request for the right amount goes out unless throttled; otherwise nothing changes |
| App.TwoRequests | src/App.tsx:17-22 | on a fresh page the first request goes out, and a second one `gap` ms later goes out if and only if `gap` is at least 1000 |
| App.MountQuotesRightZero | src/App.tsx:63-67 | when the page opens, the right-side effect asks for a quote of 0, and the answer replaces the left amount 10000 |
| App.StaleQuoteOverwritesDrivingSide | src/App.tsx:45-67 | a quote requested while the left field drove lands after the user moved to the right field and overwrites the right amount |

## Left out

- Numbers are exact decimals, not IEEE-754 doubles. Binary rounding in division, in `Math.round` and in `max * percentage / 100` is not modelled, and neither are the limits of the right field that are not finite decimals (`70000000 / 96.47`).
- Decimals.ToString: plain notation only. JavaScript switches to exponent notation for magnitudes below 1e-6 or from 1e21 upward, and that is not modelled.
- Decimals.Parse: defined only on text matching `^\d*\.?\d*$`. That is the only text `handleInputChange` passes to `parseFloat`.
- PercentageInput.RoundToStep: requires a non-zero step. With step 0 the source computes NaN, and that case is not modelled.
- The lemmas about rounding within half a step and staying within the limits are stated for a positive step, not for a negative one.
- PercentageInput.FillWidthMonotone: stated for a positive `max`. For a negative `max` the fill never increases as the amount grows.
- PercentageInput.PercentageInput.Width: states only the range of the fill. Everything else about it follows from `FillWidth`.
- PercentageInput.PercentageInput.ReceiveValue: compares amounts by value. React compares them with `Object.is`, which tells 0 from -0; that difference is not modelled.
- `onChange` and `onFocus` are not called. The methods return the reported amount instead, and the owner's setters are separate methods of `Exchange`.
- React hooks and effect scheduling are not modelled. Effects are methods the caller invokes, and memoisation has no counterpart.
- The `fetch` call, its URL, headers, JSON encoding and decoding are not modelled; a call is a `Response` that is either a quote or a failure. A successful response that lacks `inAmount` or `outAmount` is not modelled.
- `async` interleaving is not modelled; a request and its response are separate steps in the order the caller chooses.
- `Date.now()` is the parameter `now`.
- `console.log` and `console.error` are logging only and are left out.
- Rendering, CSS and the currency label's text are not modelled. The `PercentageButton` component only draws a bar of the given width, and it is not part of this model.
