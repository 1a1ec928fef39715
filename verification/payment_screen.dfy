/** The amount-entry screen: the digits-to-cents amount formatter, the
    "0,00" placeholder that focusing clears and blurring restores, the
    140-unit description limit with its counter, the currency table and its
    lookup, the reset parameter and where the currency symbol goes. */
module PaymentScreen {
  import opened Wrappers
  import opened Strings
  import Seqs

  datatype Currency = Currency(id: string, name: string, code: string, symbol: string)

  const EUR: Currency := Currency("eur", "Euro", "EUR", "\U{20AC}")
  const USD: Currency := Currency("usd", "D\U{00F3}lar Estadounidense", "USD", "$")
  const GBP: Currency := Currency("gbp", "Libra Esterlina", "GBP", "\U{00A3}")

  /** The exported `currencies` table, also listed by the currency picker. */
  const CURRENCIES: seq<Currency> := [EUR, USD, GBP]

  /** The amount shown when nothing has been typed. */
  const ZERO_AMOUNT: string := "0,00"

  const MAX_DESCRIPTION: nat := 140

  // -----------------------------------------------------------------------
  // Amount formatting

  /** An amount as the screen displays it: a decimal integer part without
      leading zeros, one comma, and exactly two decimal digits. */
  predicate WellFormedAmount(a: string) {
    && |a| >= 4
    && a[|a| - 3] == ','
    && Canonical(a[..|a| - 3])
    && AllDigits(a[|a| - 2..])
  }

  /** The amount field holds either a displayed amount or, while the cursor
      is shown, the empty string. */
  predicate AmountOk(a: string) {
    a == "" || WellFormedAmount(a)
  }

  /** The number of cents the digits of a text denote (`parseInt` of the
      stripped text, 0 when there are no digits). */
  function ParseCents(text: string): nat {
    ValueOf(StripNonDigits(text))
  }

  /** `(cents / 100).toFixed(2).replace(".", ",")` on integer cents. */
  function FormatCents(n: nat): (r: string)
    ensures WellFormedAmount(r)
    ensures ParseCents(r) == n
  {
    var whole := Decimal(n / 100);
    var frac := Pad2(n % 100);
    var r := whole + [','] + frac;
    assert r[..|r| - 3] == whole && r[|r| - 2..] == frac;
    CentsOfParts(whole, frac);
    DivModHundred(n);
    r
  }

  /** The cents a displayed amount's parts denote. */
  lemma CentsOfParts(whole: string, frac: string)
    requires AllDigits(whole) && AllDigits(frac) && |frac| == 2
    ensures ParseCents(whole + [','] + frac) == ValueOf(whole) * 100 + ValueOf(frac)
  {
    StripAroundSeparator(whole, ',', frac);
    ValueOfAppend(whole, frac);
    assert Pow10(2) == 100;
  }

  lemma DivModHundred(n: nat)
    ensures n == (n / 100) * 100 + n % 100
  {
  }

  lemma SplitHundred(q: nat, r: nat)
    requires r < 100
    ensures (q * 100 + r) / 100 == q && (q * 100 + r) % 100 == r
  {
  }

  /** A displayed amount is the formatting of its own cent value, so two
      displayed amounts with the same value are the same string. */
  lemma FormatParseRoundTrip(a: string)
    requires WellFormedAmount(a)
    ensures FormatCents(ParseCents(a)) == a
  {
    var whole := a[..|a| - 3];
    var frac := a[|a| - 2..];
    assert a == whole + [','] + frac;
    CentsOfParts(whole, frac);
    Pad2OfValue(frac);
    SplitHundred(ValueOf(whole), ValueOf(frac));
    DecimalOfValue(whole);
  }

  /** The zero amount is the formatting of zero cents. */
  lemma ZeroAmountIsZeroCents()
    ensures FormatCents(0) == ZERO_AMOUNT
    ensures ParseCents(ZERO_AMOUNT) == 0
  {
    assert Decimal(0) == "0";
    assert Pad2(0) == "00";
  }

  /** `handleAmountChange`: keep the digits of what was typed and show them
      as cents. The result is the one displayed amount whose value is the
      value of the typed digits (see `FormatParseRoundTrip`). */
  function HandleAmountChange(text: string): (r: string)
    ensures WellFormedAmount(r)
    ensures ParseCents(r) == ParseCents(text)
    ensures StripNonDigits(text) == "" ==> r == ZERO_AMOUNT
  {
    var digits := StripNonDigits(text);
    if digits == "" then
      ZeroAmountIsZeroCents();
      ZERO_AMOUNT
    else FormatCents(ValueOf(digits))
  }

  /** Feeding a displayed amount back to the handler leaves it unchanged. */
  lemma HandleAmountChangeIdempotent(text: string)
    ensures HandleAmountChange(HandleAmountChange(text)) == HandleAmountChange(text)
  {
    var a := HandleAmountChange(text);
    var b := HandleAmountChange(a);
    FormatParseRoundTrip(a);
    FormatParseRoundTrip(b);
  }

  /** The hidden input's `value`: empty while the amount is the placeholder. */
  function InputValue(a: string): (r: string)
    ensures ParseCents(r) == ParseCents(a)
    ensures a == ZERO_AMOUNT ==> r == ""
    ensures a != ZERO_AMOUNT ==> r == a
  {
    ZeroAmountIsZeroCents();
    if a == ZERO_AMOUNT then "" else a
  }

  lemma ValueOfSnoc(s: string, d: char)
    requires AllDigits(s) && IsDigit(d)
    ensures AllDigits(s + [d])
    ensures ValueOf(s + [d]) == ValueOf(s) * 10 + DigitValue(d)
  {
    assert (s + [d])[..|s|] == s;
  }

  /** Typing a digit after the displayed amount shifts it one decimal place
      left and appends the digit as the last cent. */
  lemma TypingDigitAppendsCent(a: string, d: char)
    requires AmountOk(a) && IsDigit(d)
    ensures HandleAmountChange(InputValue(a) + [d]) == FormatCents(ParseCents(a) * 10 + DigitValue(d))
  {
    var v := InputValue(a);
    var digits := StripNonDigits(v);
    StripAppend(v, [d]);
    StripAllDigits([d]);
    assert StripNonDigits(v + [d]) == digits + [d];
    ValueOfSnoc(digits, d);
    assert ValueOf(digits) == ParseCents(a);
    assert ParseCents(v + [d]) == ParseCents(a) * 10 + DigitValue(d);
  }

  /** Typing a character that is not a digit leaves the amount unchanged. */
  lemma TypingNonDigitKeepsAmount(a: string, c: char)
    requires WellFormedAmount(a) && !IsDigit(c)
    ensures HandleAmountChange(InputValue(a) + [c]) == a
  {
    var v := InputValue(a);
    StripAppend(v, [c]);
    assert StripNonDigits([c]) == [];
    assert StripNonDigits(v + [c]) == StripNonDigits(v);
    FormatParseRoundTrip(a);
    ZeroAmountIsZeroCents();
  }

  /** Deleting the last character of a displayed amount drops its last
      cent digit: the value is divided by ten. */
  lemma BackspaceDropsCent(a: string)
    requires WellFormedAmount(a)
    ensures HandleAmountChange(a[..|a| - 1]) == FormatCents(ParseCents(a) / 10)
  {
    var whole := a[..|a| - 3];
    var d1 := a[|a| - 2];
    var d2 := a[|a| - 1];
    assert a == whole + [','] + [d1] + [d2];
    assert a[..|a| - 1] == whole + [','] + [d1];
    StripAllDigits(whole);
    assert StripNonDigits([',']) == [] by {
      assert !IsDigit(',');
    }
    StripAllDigits([d1]);
    StripAllDigits([d2]);
    StripAppend(whole, [',']);
    StripAppend(whole + [','], [d1]);
    StripAppend(whole + [','] + [d1], [d2]);
    assert StripNonDigits(a[..|a| - 1]) == whole + [d1];
    assert StripNonDigits(a) == whole + [d1] + [d2];
    ValueOfSnoc(whole, d1);
    ValueOfSnoc(whole + [d1], d2);
    var m := ValueOf(whole + [d1]);
    assert ParseCents(a) == m * 10 + DigitValue(d2);
    assert ParseCents(a) / 10 == m;
  }

  /** `isAmountNonZero`. */
  predicate IsAmountNonZero(a: string) {
    a != ZERO_AMOUNT && a != ""
  }

  /** For any amount the field can hold, the button test is exactly "some
      cents were entered". */
  lemma NonZeroIffPositiveCents(a: string)
    requires AmountOk(a)
    ensures IsAmountNonZero(a) <==> a != "" && ParseCents(a) > 0
  {
    ZeroAmountIsZeroCents();
    if a != "" && ParseCents(a) == 0 {
      FormatParseRoundTrip(a);
    }
  }

  /** Typing only zeros keeps the amount at "0,00", so Continuar stays disabled. */
  lemma AllZerosDisable(text: string)
    requires forall i :: 0 <= i < |text| ==> text[i] == '0'
    ensures HandleAmountChange(text) == ZERO_AMOUNT
    ensures !IsAmountNonZero(HandleAmountChange(text))
  {
    StripAllDigits(text);
    AllZerosValue(text);
    ZeroAmountIsZeroCents();
  }

  lemma {:induction false} AllZerosValue(s: string)
    requires forall i :: 0 <= i < |s| ==> s[i] == '0'
    ensures AllDigits(s) && ValueOf(s) == 0
    decreases |s|
  {
    if s != [] {
      AllZerosValue(s[..|s| - 1]);
    }
  }

  // -----------------------------------------------------------------------
  // Currency

  /** `currencies.find(c => c.id === id) || currencies[0]`. */
  function SelectedCurrency(id: string): (r: Currency)
    ensures r in CURRENCIES
    ensures (exists i :: 0 <= i < |CURRENCIES| && CURRENCIES[i].id == id) ==> r.id == id
    ensures (forall i :: 0 <= i < |CURRENCIES| ==> CURRENCIES[i].id != id) ==> r == EUR
  {
    match Seqs.FindFirst(CURRENCIES, (c: Currency) => c.id == id)
    case Some(c) => c
    case None => CURRENCIES[0]
  }

  /** The ids in the table are distinct, so the lookup of a listed id
      returns that very entry. */
  lemma SelectedCurrencyOfListed(i: nat)
    requires i < |CURRENCIES|
    ensures SelectedCurrency(CURRENCIES[i].id) == CURRENCIES[i]
  {
  }

  /** The amount with its symbol: in front for the dollar, behind otherwise. */
  function AmountLabel(c: Currency, amount: string): (r: string)
    ensures c.id == "usd" ==> StartsWith(r, c.symbol) && EndsWith(r, amount)
    ensures c.id != "usd" ==> StartsWith(r, amount) && EndsWith(r, c.symbol)
    ensures |r| == |amount| + |c.symbol| + 1
    ensures c.id == "usd" ==> r[|c.symbol|] == ' '
    ensures c.id != "usd" ==> r[|amount|] == ' '
  {
    var r := if c.id == "usd" then c.symbol + " " + amount else amount + " " + c.symbol;
    assert c.id == "usd" ==> r[..|c.symbol|] == c.symbol && r[|r| - |amount|..] == amount;
    assert c.id != "usd" ==> r[..|amount|] == amount && r[|r| - |c.symbol|..] == c.symbol;
    r
  }

  /** The symbol carries no digits, so the label denotes the same number of
      cents as the amount it shows. */
  lemma AmountLabelKeepsCents(i: nat, amount: string)
    requires i < |CURRENCIES|
    ensures ParseCents(AmountLabel(CURRENCIES[i], amount)) == ParseCents(amount)
  {
    var c := CURRENCIES[i];
    assert StripNonDigits(c.symbol + " ") == [] by {
      StripSingleNonDigit(' ');
      StripSingleNonDigit(c.symbol[0]);
      StripAppend(c.symbol, " ");
    }
    if c.id == "usd" {
      assert AmountLabel(c, amount) == (c.symbol + " ") + amount;
      StripAppend(c.symbol + " ", amount);
    } else {
      assert AmountLabel(c, amount) == amount + (" " + c.symbol);
      StripAppend(amount, " " + c.symbol);
      StripAppend(" ", c.symbol);
      assert StripNonDigits(" " + c.symbol) == [];
    }
    assert StripNonDigits(AmountLabel(c, amount)) == StripNonDigits(amount);
  }

  // -----------------------------------------------------------------------
  // Screen state

  datatype RouteParams = RouteParams(selectedCurrencyId: Option<string>, reset: bool)

  datatype Screen = Screen(
    currencyId: string,
    amount: string,
    description: string,
    charCount: nat,
    amountFocused: bool,
    showCursor: bool)

  const InitialScreen: Screen := Screen("eur", ZERO_AMOUNT, "", 0, false, false)

  /** What every handler keeps: the amount field holds a displayed amount or
      is empty, and the counter shows the description's length, at most 140. */
  predicate Inv(s: Screen) {
    && AmountOk(s.amount)
    && s.charCount == JsLength(s.description)
    && s.charCount <= MAX_DESCRIPTION
  }

  lemma InitialScreenInv()
    ensures Inv(InitialScreen)
  {
    ZeroAmountIsZeroCents();
  }

  function AmountChanged(s: Screen, text: string): (r: Screen)
    ensures Inv(s) ==> Inv(r)
    ensures WellFormedAmount(r.amount) && ParseCents(r.amount) == ParseCents(text)
    ensures !r.showCursor
    ensures r.(amount := s.amount, showCursor := s.showCursor) == s
  {
    s.(amount := HandleAmountChange(text), showCursor := false)
  }

  /** `handleDescriptionChange`: accepted exactly when it is at most 140
      UTF-16 units long; a rejected text changes nothing. */
  function DescriptionChanged(s: Screen, text: string): (r: Screen)
    ensures Inv(s) ==> Inv(r)
    ensures JsLength(text) <= MAX_DESCRIPTION ==> r.description == text && r.charCount == JsLength(text)
    ensures JsLength(text) > MAX_DESCRIPTION ==> r == s
    ensures r.(description := s.description, charCount := s.charCount) == s
  {
    if JsLength(text) <= MAX_DESCRIPTION then s.(description := text, charCount := JsLength(text)) else s
  }

  /** The hidden input's `onFocus`. */
  function AmountFocused(s: Screen): (r: Screen)
    ensures Inv(s) ==> Inv(r)
    ensures r.amountFocused
    ensures s.amount == ZERO_AMOUNT ==> r.amount == "" && r.showCursor
    ensures s.amount != ZERO_AMOUNT ==> r.amount == s.amount && r.showCursor == s.showCursor
    ensures r.(amount := s.amount, amountFocused := s.amountFocused, showCursor := s.showCursor) == s
  {
    var s' := s.(amountFocused := true);
    if s.amount == ZERO_AMOUNT then s'.(showCursor := true, amount := "") else s'
  }

  /** The hidden input's `onBlur`. */
  function AmountBlurred(s: Screen): (r: Screen)
    ensures Inv(s) ==> Inv(r) && WellFormedAmount(r.amount)
    ensures !r.amountFocused && !r.showCursor
    ensures s.amount == "" ==> r.amount == ZERO_AMOUNT
    ensures s.amount != "" ==> r.amount == s.amount
    ensures r.(amount := s.amount, amountFocused := s.amountFocused, showCursor := s.showCursor) == s
  {
    ZeroAmountIsZeroCents();
    var s' := s.(amountFocused := false, showCursor := false);
    if s.amount == "" then s'.(amount := ZERO_AMOUNT) else s'
  }

  /** `focusAmountInput`, the tap on the amount area. When the input is
      mounted it is focused (its focus event is `AmountFocused`) and the
      placeholder is cleared. */
  function AmountTapped(s: Screen, inputMounted: bool): (r: Screen)
    ensures Inv(s) ==> Inv(r)
    ensures inputMounted && s.amount == ZERO_AMOUNT ==> r.amount == "" && r.showCursor
    ensures !(inputMounted && s.amount == ZERO_AMOUNT) ==> r == s
    ensures r.(amount := s.amount, showCursor := s.showCursor) == s
  {
    if inputMounted && s.amount == ZERO_AMOUNT then s.(showCursor := true, amount := "") else s
  }

  /** Focusing then blurring without typing gives back the amount, except
      that an empty field becomes "0,00". */
  lemma FocusThenBlurRestores(s: Screen)
    requires Inv(s)
    ensures AmountBlurred(AmountFocused(s)).amount == (if s.amount == "" then ZERO_AMOUNT else s.amount)
    ensures s.amount == ZERO_AMOUNT ==> AmountBlurred(AmountFocused(s)).amount == ZERO_AMOUNT
  {
  }

  /** The route-parameter effect: a truthy `selectedCurrencyId` selects that
      currency; a truthy `reset` clears amount, description and counter. */
  function ParamsChanged(s: Screen, p: RouteParams): (r: Screen)
    ensures Inv(s) ==> Inv(r)
    ensures r.currencyId == OrElse(p.selectedCurrencyId, s.currencyId)
    ensures p.reset ==> r.amount == ZERO_AMOUNT && r.description == "" && r.charCount == 0
    ensures !p.reset ==> r.amount == s.amount && r.description == s.description && r.charCount == s.charCount
    ensures r.amountFocused == s.amountFocused && r.showCursor == s.showCursor
  {
    ZeroAmountIsZeroCents();
    var s' := if Truthy(p.selectedCurrencyId) then s.(currencyId := p.selectedCurrencyId.value) else s;
    if p.reset then s'.(amount := ZERO_AMOUNT, description := "", charCount := 0) else s'
  }

  /** The Continuar button is enabled when an amount was entered and no
      order is being created. */
  predicate ContinueEnabled(s: Screen, creatingPayment: bool) {
    IsAmountNonZero(s.amount) && !creatingPayment
  }

  /** After a reset the button is disabled again. */
  lemma ResetDisablesContinue(s: Screen, id: Option<string>)
    ensures !ContinueEnabled(ParamsChanged(s, RouteParams(id, true)), false)
  {
  }
}
