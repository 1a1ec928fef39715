# Bitnovo payment request app: a Dafny model of its rules

The app is a React Native payment-request tool. A merchant types an amount
and a description, picks a currency, creates a payment order, and shares
the payment link by phone number or through another app. A WebSocket hook
then watches the order's status channel. When a payment completes, the
share screen's status callback calls `navigate("PaymentConfirmation")`.

This project models the logic inside those screens and the status hook as
pure Dafny functions over `seq<char>` strings, integers and immutable
records. It proves the properties the code promises.

- `PaymentWebSocket` (hook `usePaymentWebSocket`) is a transition system.
  Its state holds:
  - the stored connection (`wsRef.current`);
  - the sockets that are still open;
  - the connect timers still pending, each with the identifier it captured.

  The events are a render of the hook body, a timer firing, a frame
  arriving and a socket closing. A frame maps to "completed" only when
  `status` is `"CO"` and `confirmed_amount > 0`. Frames that do not parse
  are dropped, and so is `null`, because reading its `status` throws inside
  the same `try`.
- `PaymentScreen` covers:
  - the digits-to-cents formatter (`"I,FF"`);
  - the `"0,00"` placeholder, which focus clears and blur restores;
  - the 140-unit description limit and its counter;
  - the currency table and lookup, the reset parameter, and where the
    currency symbol goes.
- `PaymentShareScreen` covers:
  - the phone field: keep at most 10 digits, grouped 3-3-4;
  - the `ddd ddd dddd` check before the success modal;
  - the WhatsApp toggle and the country parameter;
  - the copied link;
  - the status callback, which navigates only on `"completed"`.
- `CountrySelectionScreen` and `CurrencySelectionScreen` are
  order-preserving search filters over fixed tables. They also hold the
  selection and press-highlight rules.
- `QRCodeScreen` covers the link fallback chain, the `https://` prefixing,
  and the one-way switch to the simulated channel.
- `Strings`, `Seqs`, `Wrappers` and `PaymentOrder` are shared helpers:
  - `Strings`: digits, decimal rendering, `includes`, lower case, `trim`,
    and UTF-16 `length`;
  - `Seqs`: `filter` and `find`;
  - `Wrappers`: `Option`, and `a || b` on optional strings;
  - `PaymentOrder`: the order object's fields.

The model follows the hook exactly as `hooks/use-payment-websocket.ts`
writes it:

- There is no reconnect counter, back-off, fallback channel or publish delay.
- There are no "expired" or "failed" statuses.
- Timers are not cancelled, and nothing is cleaned up on unmount.
- The hook body runs on every render, not inside an effect.
- The only guard is the stored ref. Two renders inside the 2-second window
  therefore schedule two timers (`RenderBurstSchedulesEach`) and open two
  sockets (`SupersededSocketCloseClearsRef`).
- `onclose` clears the ref whichever socket closed. Closing the older
  socket therefore forgets the newer one, which stays open
  (`SupersededSocketCloseClearsRef`).

`app/QRCodeScreen.tsx` calls the hook with one object argument. It then
destructures `status`, `isConnected`, `connectionAttempts` and `reconnect`
from the hook's result, but the hook returns nothing. Destructuring
`undefined` throws a TypeError during render. So with the hook as written,
the QR value and the mock-switch effect are never reached. The `QRCodeScreen`
members state the screen's own rules in isolation. The attempt count and
the connection flag are inputs to the mock-switch rule.

A few representation choices:

- An `undefined` or `null` identifier is the falsy `""`.
- Amounts are integer cents.
- A parsed JSON value is `JNull`, an object with optional `status` and
  `confirmed_amount` fields, or any other value (`JOther`). Fields of any
  other value read as `undefined`, which gives `"pending"`.

## Model

| member | source | states |
|---|---|---|
| PaymentWebSocket.StatusOf | hooks/use-payment-websocket.ts:11-17 | the status is "completed" exactly when the value is an object whose status is "CO" and whose confirmed amount is present and positive; otherwise it is "pending" |
| PaymentWebSocket.HandleMessage | hooks/use-payment-websocket.ts:34-42 | a frame makes one status report when it parses to a non-null value and none otherwise; the report is exactly ["completed"] for a completed frame |
| PaymentWebSocket.Render | hooks/use-payment-websocket.ts:22-26 | an empty identifier, or a stored connection, leaves the state unchanged; otherwise exactly one timer is added, capturing the identifier; the stored connection and the open sockets never change; validity is preserved |
| PaymentWebSocket.TimerFires | hooks/use-payment-websocket.ts:26-30 | the oldest timer is consumed, and a new socket with a serial not in use is opened; the stored connection becomes that socket, with URL exactly WS_BASE_URL followed by the captured identifier |
| PaymentWebSocket.Closed | hooks/use-payment-websocket.ts:44-47 | a close event removes that socket from the open set and clears the stored connection, whichever socket closed; timers are untouched |
| PaymentWebSocket.Step | hooks/use-payment-websocket.ts:22-47 | a frame leaves the connection state unchanged and reports what HandleMessage reports; other events report nothing; every event preserves validity |
| PaymentWebSocket.RunPreservesValid | hooks/use-payment-websocket.ts:22-47 | along any feasible event history, the stored socket is open and addresses the merchant channel, and every open socket was created by the hook |
| PaymentWebSocket.OneReportPerDecodableFrame | hooks/use-payment-websocket.ts:34-42 | over any event history, the number of status reports equals the number of frames that parse to a non-null value |
| PaymentWebSocket.StoredUrlIsIdentifierChannel | hooks/use-payment-websocket.ts:26-30 | when every render uses one identifier, every pending timer and the stored connection belong to that identifier's channel URL |
| PaymentWebSocket.RenderBurstSchedulesEach | hooks/use-payment-websocket.ts:22-26 | n renders with a non-empty identifier and no stored connection schedule n timers; the guard does not see timers already pending |
| PaymentWebSocket.RendersWhileConnected | hooks/use-payment-websocket.ts:24 | while a connection is stored, any sequence of renders leaves the whole state unchanged |
| PaymentWebSocket.CloseReenablesConnect | hooks/use-payment-websocket.ts:24-47 | after a close, the next render with a non-empty identifier schedules a new connect timer |
| PaymentWebSocket.SupersededSocketCloseClearsRef | hooks/use-payment-websocket.ts:24-47 | two quick renders open two sockets; closing the older one clears the ref while the newer one stays open, so a third connect is scheduled |
| PaymentScreen.FormatCents | app/PaymentScreen.tsx:93-95 | the formatted amount has one comma, exactly two digits after it, and an integer part without leading zeros; its digits denote the given number of cents |
| PaymentScreen.FormatParseRoundTrip | app/PaymentScreen.tsx:93-95 | every displayed amount is the formatting of its own cent value, so the format is a bijection between cents and displayed amounts |
| PaymentScreen.ZeroAmountIsZeroCents | app/PaymentScreen.tsx:89-91 | "0,00" is the formatting of zero cents and denotes zero |
| PaymentScreen.HandleAmountChange | app/PaymentScreen.tsx:86-98 | the result is a well-formed amount whose cent value equals the value of the typed digits; a text without digits gives "0,00" |
| PaymentScreen.HandleAmountChangeIdempotent | app/PaymentScreen.tsx:86-98 | feeding a displayed amount back into the handler returns it unchanged |
| PaymentScreen.InputValue | app/PaymentScreen.tsx:182 | the hidden input is empty while the amount is the "0,00" placeholder and shows the amount otherwise; either way it denotes the same number of cents as the amount |
| PaymentScreen.TypingDigitAppendsCent | app/PaymentScreen.tsx:86-98 | typing digit d into the hidden input turns an amount of n cents into the formatting of 10n+d cents |
| PaymentScreen.TypingNonDigitKeepsAmount | app/PaymentScreen.tsx:87 | typing a character that is not a digit leaves the displayed amount unchanged |
| PaymentScreen.BackspaceDropsCent | app/PaymentScreen.tsx:86-98 | deleting the last character of an amount of n cents gives the formatting of n/10 cents |
| PaymentScreen.NonZeroIffPositiveCents | app/PaymentScreen.tsx:151 | for any amount the field can hold, isAmountNonZero holds exactly when the field is non-empty and its cent value is positive |
| PaymentScreen.AllZerosDisable | app/PaymentScreen.tsx:151 | typing only zeros yields "0,00" and leaves Continuar disabled |
| PaymentScreen.SelectedCurrency | app/PaymentScreen.tsx:71 | the lookup returns a table entry: the one with the requested id when there is one, and the euro entry when no id matches |
| PaymentScreen.SelectedCurrencyOfListed | app/PaymentScreen.tsx:23-45 | looking up the id of any table entry returns exactly that entry, because the ids are distinct |
| PaymentScreen.AmountLabel | app/PaymentScreen.tsx:175 | the dollar label is the symbol, one space, then the amount; every other label is the amount, one space, then the symbol |
| PaymentScreen.AmountLabelKeepsCents | app/PaymentScreen.tsx:175 | for every currency in the table, the label's digits denote the same number of cents as the amount it shows |
| PaymentScreen.InitialScreenInv | app/PaymentScreen.tsx:60-64 | the initial state (euro, "0,00", empty description, count 0) satisfies the screen invariant |
| PaymentScreen.AmountChanged | app/PaymentScreen.tsx:86-98 | the amount becomes a well-formed amount with the typed digits' value; the cursor is hidden; no other field changes; the invariant is preserved |
| PaymentScreen.DescriptionChanged | app/PaymentScreen.tsx:100-105 | a text of at most 140 UTF-16 units becomes the description, and the counter shows its length; no other field changes; a longer text changes nothing |
| PaymentScreen.AmountFocused | app/PaymentScreen.tsx:185-191 | focus marks the field focused; "0,00" becomes "" with the cursor shown; any other amount is kept; currency, description and counter never change |
| PaymentScreen.AmountBlurred | app/PaymentScreen.tsx:192-198 | blur clears the focus and cursor flags; "" becomes "0,00"; any other amount is kept; afterwards the amount is well-formed; currency, description and counter never change |
| PaymentScreen.AmountTapped | app/PaymentScreen.tsx:114-122 | a tap with the input mounted clears the "0,00" placeholder and shows the cursor, and changes no other field; any other tap changes nothing |
| PaymentScreen.FocusThenBlurRestores | app/PaymentScreen.tsx:185-198 | focus followed by blur with no typing gives back the amount, and restores "0,00" in particular |
| PaymentScreen.ParamsChanged | app/PaymentScreen.tsx:73-83 | a truthy selectedCurrencyId becomes the currency; a truthy reset sets "0,00", an empty description and count 0; otherwise those fields are kept |
| PaymentScreen.IsAmountNonZero | app/PaymentScreen.tsx:151 | the field counts as non-zero when it is neither "0,00" nor empty |
| PaymentScreen.ContinueEnabled | app/PaymentScreen.tsx:236 | Continuar is enabled exactly when the amount is non-zero and no order is being created |
| PaymentScreen.ResetDisablesContinue | app/PaymentScreen.tsx:78-82 | after a reset the Continuar button is disabled |
| PaymentShareScreen.FormatPhoneNumber | app/PaymentShareScreen.tsx:162-175 | the result holds only digits and spaces; its digits are the first min(10, #digits) digits of the input, in order; a space follows the third digit when there are more than 3 digits, and the sixth when there are more than 6; there are no other spaces |
| PaymentShareScreen.FormatPhoneIdempotent | app/PaymentShareScreen.tsx:162-175 | formatting an already formatted number returns it unchanged |
| PaymentShareScreen.MatchesPhonePattern | app/PaymentShareScreen.tsx:117 | the anchored pattern `^(\d{3}) (\d{3}) (\d{4})$`: exactly twelve characters, spaces at positions 3 and 7, ASCII digits (`\d`) everywhere else; `$` anchors at the end of the input |
| PaymentShareScreen.PhonePatternGroups | app/PaymentShareScreen.tsx:117 | a string matches exactly when it is three ASCII digits, a space, three digits, a space and four digits, with nothing before or after |
| PaymentShareScreen.FormattedPassesIffTenDigits | app/PaymentShareScreen.tsx:117 | a formatted number matches the ddd ddd dddd pattern exactly when the typed text had at least ten digits |
| PaymentShareScreen.SendWhatsAppMessage | app/PaymentShareScreen.tsx:116-127 | an all-whitespace number (empty included) gives the missing-number error; otherwise the modal opens exactly when the pattern matches, and a format error is reported when it does not |
| PaymentShareScreen.SendAfterTyping | app/PaymentShareScreen.tsx:116-127 | with the field filled by the formatter, sending reports a missing number for 0 digits and a format error for 1-9 digits, and opens the modal for 10 or more |
| PaymentShareScreen.InitialShare | app/PaymentShareScreen.tsx:42-46 | the screen starts with an empty phone, Spain as the country and the modal hidden; the phone field is shown as the route asks |
| PaymentShareScreen.InitialShareInv | app/PaymentShareScreen.tsx:43 | the initial empty phone number is a formatted number |
| PaymentShareScreen.PhoneChanged | app/PaymentShareScreen.tsx:162-175 | the field always holds a fixed point of the formatter, whose digits are the first ten typed; nothing else changes |
| PaymentShareScreen.SendPressed | app/PaymentShareScreen.tsx:116-127 | the alert or success reported is exactly the outcome of the WhatsApp check on the stored number; the modal opens exactly when the number passes; nothing else changes |
| PaymentShareScreen.ToggleWhatsAppInput | app/PaymentShareScreen.tsx:104-106 | toggling flips whether the phone field is shown and changes nothing else |
| PaymentShareScreen.ToggleTwiceRestores | app/PaymentShareScreen.tsx:104-106 | toggling twice restores the state |
| PaymentShareScreen.CountryParamChanged | app/PaymentShareScreen.tsx:71-75 | a selectedCountry parameter becomes the screen's country; without one the state is unchanged |
| PaymentShareScreen.CountryPickerRoundTrip | app/PaymentShareScreen.tsx:108-114 | a country chosen in the picker becomes the screen's country, and the picker's parameters carry showWhatsAppInput true; the picker, opened with the screen's country id, marks exactly that country |
| PaymentShareScreen.NewRequestPressed | app/PaymentShareScreen.tsx:146-148 | "Nueva solicitud" shows the modal and changes nothing else |
| PaymentShareScreen.ModalClosed | app/PaymentShareScreen.tsx:150-152 | closing the modal hides it and changes nothing else |
| PaymentShareScreen.DisplayedLink | app/PaymentShareScreen.tsx:60-69 | one run of the effect: the displayed link becomes the URL's host and path when web_url is non-empty and parses; otherwise the previous link is kept |
| PaymentShareScreen.LinkAfterRunsIsLatestParsed | app/PaymentShareScreen.tsx:48-69 | starting from "pay.bitnovo.com/cargando...", after any sequence of effect runs the displayed link is the host and path of the latest run whose URL parsed, and the placeholder when no run's URL parsed |
| PaymentShareScreen.CopiedLink | app/PaymentShareScreen.tsx:77-80 | the copied text is the order URL when it is non-empty, and the displayed link otherwise |
| PaymentShareScreen.CopiedLinkOfDisplayed | app/PaymentShareScreen.tsx:60-80 | after an effect run, the copy button copies the full order URL when there is one, never its host and path; without one it copies the link displayed before that run, whatever it was |
| PaymentShareScreen.NavigatesOn | app/PaymentShareScreen.tsx:51 | the status callback navigates on "completed" and on no other status |
| PaymentShareScreen.NavigatesIffCompletedFrame | app/PaymentShareScreen.tsx:49-59 | one frame makes the status callback call navigate("PaymentConfirmation") exactly when it parses to a completed status with a positive confirmed amount |
| PaymentShareScreen.NavigatesIffSomeCompletedFrame | app/PaymentShareScreen.tsx:49-59 | over any connection history, the status callback calls navigate("PaymentConfirmation") at some point exactly when some frame was a completed payment |
| PaymentOrder.HookIdentifier | app/PaymentShareScreen.tsx:49 | the hook receives the order's identifier when the order and a non-empty identifier exist, and the falsy "" otherwise |
| CountrySelectionScreen.FilteredCountries | app/CountrySelectionScreen.tsx:94-99 | an empty query lists every country; otherwise the result is an order-preserving subsequence of the table; it holds exactly the countries whose lower-cased name includes the lower-cased query or whose code includes the query as typed |
| CountrySelectionScreen.EmptyQueryShortcutAgrees | app/CountrySelectionScreen.tsx:94-99 | filtering with the empty query keeps every country, so the shortcut returns the same list that plain filtering would |
| CountrySelectionScreen.CurrentCountryId | app/CountrySelectionScreen.tsx:91 | the current id is the route's id when it is truthy, and "es" otherwise |
| CountrySelectionScreen.IsSelected | app/CountrySelectionScreen.tsx:110 | a listed country carries the check mark when its id is the current id |
| CountrySelectionScreen.AtMostOneSelected | app/CountrySelectionScreen.tsx:110 | for any query and current id, no two entries of the filtered list carry the check mark, because filtering keeps the table's ids distinct |
| CountrySelectionScreen.HandleCountrySelect | app/CountrySelectionScreen.tsx:101-107 | selecting a country sends back exactly that country, with showWhatsAppInput true |
| CurrencySelectionScreen.FilteredCurrencies | app/CurrencySelectionScreen.tsx:24-29 | an empty query lists every currency; otherwise the result is an order-preserving subsequence of the table; it holds exactly the currencies whose lower-cased name or lower-cased code includes the lower-cased query |
| CurrencySelectionScreen.SearchIgnoresQueryCase | app/CurrencySelectionScreen.tsx:26-27 | a query and its lower-case form list the same currencies |
| CurrencySelectionScreen.InitialPicker | app/CurrencySelectionScreen.tsx:19-22 | the initial selection is the incoming id when it is truthy, and "usd" otherwise; nothing is highlighted |
| CurrencySelectionScreen.IsSelected | app/CurrencySelectionScreen.tsx:39 | a listed currency is checked when its id is the picker's selected id |
| CurrencySelectionScreen.PickChecksOnlyPicked | app/CurrencySelectionScreen.tsx:31-39 | after picking a listed currency, that currency is checked and no other listed currency is |
| CurrencySelectionScreen.IsHovered | app/CurrencySelectionScreen.tsx:40 | a listed currency is highlighted when its id is the pressed id; with nothing pressed none is |
| CurrencySelectionScreen.HandleCurrencySelect | app/CurrencySelectionScreen.tsx:31-36 | selecting an id checks it and navigates back with that same id, without reset |
| CurrencySelectionScreen.PressIn | app/CurrencySelectionScreen.tsx:49 | pressing an item highlights its id; the selection is kept |
| CurrencySelectionScreen.PressOut | app/CurrencySelectionScreen.tsx:50 | releasing clears the highlight; the selection is kept |
| CurrencySelectionScreen.PressHighlight | app/CurrencySelectionScreen.tsx:40-50 | while an item is pressed, exactly the items with its id are highlighted; after release, none is |
| CurrencySelectionScreen.PickedCurrencyReachesAmountScreen | app/CurrencySelectionScreen.tsx:31-36 | picking any listed currency makes the amount screen's lookup return that very currency |
| QRCodeScreen.PaymentLink | app/QRCodeScreen.tsx:21-24 | the link is the route's web_url when non-empty, else the order's web_url when non-empty, else "pay.bitnovo.com/error"; it is never empty |
| QRCodeScreen.QRValue | app/QRCodeScreen.tsx:59-66 | the value starts with "http" and ends with the whole link; it equals the link exactly when the link starts with "http"; otherwise it is "https://" followed by the link |
| QRCodeScreen.QRValueOfPaymentLink | app/QRCodeScreen.tsx:21-66 | the encoded value of the chosen link starts with "http" and ends with the link; a route URL with a scheme is encoded as it is, one without gets "https://"; with no URL on the route or the order the value is "https://pay.bitnovo.com/error" |
| QRCodeScreen.QRValueIdempotent | app/QRCodeScreen.tsx:59-66 | computing the QR value of a QR value changes nothing |
| QRCodeScreen.ErrorLinkGetsHttps | app/QRCodeScreen.tsx:59-66 | the error-page fallback is encoded as "https://pay.bitnovo.com/error" |
| QRCodeScreen.MockSwitch | app/QRCodeScreen.tsx:51-55 | the effect turns mock mode on when there have been at least 3 attempts and no connection, and never turns it off |
| QRCodeScreen.MockOneWay | app/QRCodeScreen.tsx:25-55 | starting from off, mock mode is on after a sequence of effect runs exactly when some run saw at least 3 attempts without a connection |
| Strings.StripNonDigitsSpec | app/PaymentScreen.tsx:87 | stripping keeps every ASCII digit of the text, as often as it occurs and in its original order, and nothing else |
| Strings.DecimalOfValue | app/PaymentScreen.tsx:93-94 | the decimal rendering of a number is the unique digit string without leading zeros that denotes it |
| Strings.ContainsIffOccurs | app/CountrySelectionScreen.tsx:96-97 | `includes` holds exactly when the query occurs at some offset of the text |
| Strings.TrimEmptyIff | app/PaymentShareScreen.tsx:118 | a string trims to empty exactly when every character is ECMAScript whitespace or a line terminator |
| Strings.JsLength | app/PaymentScreen.tsx:101-103 | one character has length 1 in the Basic Multilingual Plane and 2 above it; a string of n characters has between n and 2n units, exactly n when all its characters are in that plane |
| Strings.JsLengthAppend | app/PaymentScreen.tsx:101-103 | the length of a concatenation is the sum of the lengths, so the length counts each character's UTF-16 code units |
| Seqs.FilterSpec | app/CountrySelectionScreen.tsx:95 | the filter keeps only elements of the input that pass; it keeps each element that passes as many times as it occurs, and none that fails; it preserves their order |
| Seqs.FindFirst | app/PaymentScreen.tsx:71 | find returns nothing exactly when no element passes; otherwise it returns the first element that passes |

## Left out

- The hook in `hooks/use-payment-websocket.ts` has no reconnect counter, back-off, fallback channel, publish delay, "expired" or "failed" status, or timer cancellation, and neither does the model.
- The WebSocket transport is left out. `onopen` and `onerror`, which only log, are left out. Timer durations (the 2000 ms delay) are left out: a timer firing is an abstract event, and timers fire in the order they were scheduled.
- `console` logging is left out everywhere.
- JSON parsing itself is left out: a frame arrives already classified as unparseable or as a parsed value.
- PaymentWebSocket.StatusOf: a `confirmed_amount` that is a numeric string or a boolean is compared through JavaScript coercion (`"5" > 0.0` is true). The model treats every non-number as absent, so it reports "pending" for such values.
- PaymentWebSocket.HandleMessage: an exception thrown by the `onStatusChange` callback itself is also caught by the same `try`. The callbacks are not modelled as throwing.
- PaymentScreen.HandleAmountChange: cents are exact unbounded integers. The source divides them as doubles. `toFixed(2)` on `n / 100` can show a wrong last digit once `n / 100` reaches 2^46, about 7.04·10^15 cents. By the `toFixed` rounding rule, 7036892498890340 cents would show as "70368924988903,41" where the model gives "70368924988903,40". `parseInt` itself is exact only up to 2^53 cents. `toFixed` switches to exponent notation from 10^21 currency units, which is 10^23 cents.
- `createPayment` is left out: the `parseFloat` of the amount, the order-creation POST in `api/payment-service.ts`, the optional notes, and the busy flag are I/O. The busy flag enters the model only as a parameter of `ContinueEnabled`.
- Strings.Lower: lowers ASCII letters and the Latin-1 capitals U+00C0 to U+00DE (except U+00D7). It is not the full Unicode `toLowerCase`.
- URL parsing on the share screen is left out. `new URL(web_url)` and its hostname plus pathname come from a library class. Its result is the `hostPath` parameter of `DisplayedLink`, and `None` stands for a URL that throws.
- Clipboard, Share, Linking (e-mail) and Alert side effects are left out (`shareViaEmail`, `shareWithOtherApps`, `navigateToQRCode`). Alerts appear only as the `SendOutcome` of the WhatsApp check.
- The hook call in `app/QRCodeScreen.tsx` is left out. The hook receives the whole options object as `identifier`. That object is truthy, so a connect timer is still scheduled, for `.../merchant/[object Object]`. Frames on that socket call an undefined `onStatusChange`, and the TypeError is caught by the hook's `try`. Destructuring the hook's `undefined` result then throws during render, so the rest of the screen is not reached as written. `isUpdating` styling and the commented-out navigation are left out too.
- Rendering is left out: cursor glyph, input height, focus styling, flag colours (`CountryFlag`), `StyleSheet` blocks, `components/ui/Flags.tsx`, `components/ui/AppText.tsx`, `app/SuccessModal.tsx`, `app/PaymentConfirmationScreen.tsx` and `app/index.tsx`.
- The native `maxLength={140}` of the description input is left out; only the handler's own check is modelled.
- Navigation is left out. `app/index.tsx` registers only the Payment, CurrencySelection, PaymentShare and CountrySelection routes. Neither `navigate("PaymentConfirmation", …)` (`app/PaymentShareScreen.tsx:52`) nor `navigate("QRCode", …)` (`:156`) reaches a registered screen, so the model states only which calls are made. `CountryParamChanged`, `CountryPickerRoundTrip`, `ParamsChanged` and `PickedCurrencyReachesAmountScreen` assume that a picker's `navigate` returns to the screen already on the stack and updates its route parameters. Whether the stack navigator in use does that, rather than pushing a new copy of the screen without its other parameters, is not modelled.
- `openCountrySelector` also spreads the share screen's other route parameters. Only the `currentCountryId` it passes is modelled.
- The share screen's `showWhatsAppInput` state reads its route parameter only when the screen is first created. Later parameter changes from the country picker are not re-read by `useState`, and the model does not re-read them either.
