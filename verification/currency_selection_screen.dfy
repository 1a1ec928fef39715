/** The currency picker: the search over the currency table (name and code
    both compared case-insensitively), the selection that is sent back to
    the amount screen, and the pressed-item highlight. */
module CurrencySelectionScreen {
  import opened Wrappers
  import opened Strings
  import opened Seqs
  import PaymentScreen

  type Currency = PaymentScreen.Currency

  const DEFAULT_CURRENCY_ID: string := "usd"

  /** The search predicate; unlike the country picker, the code is lowered too. */
  predicate CurrencyMatches(c: Currency, query: string) {
    Contains(Lower(c.name), Lower(query)) || Contains(Lower(c.code), Lower(query))
  }

  /** `filteredCurrencies`: the whole table for an empty query, otherwise the
      matching currencies in table order. */
  function FilteredCurrencies(query: string): (r: seq<Currency>)
    ensures query == "" ==> r == PaymentScreen.CURRENCIES
    ensures forall c :: c in r ==> c in PaymentScreen.CURRENCIES && CurrencyMatches(c, query)
    ensures forall c :: c in PaymentScreen.CURRENCIES && CurrencyMatches(c, query) ==> c in r
    ensures IsSubsequence(r, PaymentScreen.CURRENCIES)
  {
    FilterSpec(PaymentScreen.CURRENCIES, (c: Currency) => CurrencyMatches(c, query));
    if query == "" then
      EmptyQueryMatchesAll();
      FilterKeepsAll(PaymentScreen.CURRENCIES, (c: Currency) => CurrencyMatches(c, query));
      PaymentScreen.CURRENCIES
    else
      Filter(PaymentScreen.CURRENCIES, (c: Currency) => CurrencyMatches(c, query))
  }

  lemma EmptyQueryMatchesAll()
    ensures forall c :: CurrencyMatches(c, "")
  {
    forall c: Currency ensures CurrencyMatches(c, "") {
      ContainsEmpty(Lower(c.name));
    }
  }

  /** The search ignores the case of the query: a query and its lower-case
      form list the same currencies. */
  lemma SearchIgnoresQueryCase(query: string)
    ensures FilteredCurrencies(Lower(query)) == FilteredCurrencies(query)
  {
    LowerIdempotent(query);
    assert forall c :: CurrencyMatches(c, Lower(query)) == CurrencyMatches(c, query);
    if query != "" {
      FilterCongruent(PaymentScreen.CURRENCIES,
        (c: Currency) => CurrencyMatches(c, Lower(query)),
        (c: Currency) => CurrencyMatches(c, query));
    }
  }

  /** The picker's state: the checked currency and the pressed one. */
  datatype Picker = Picker(selected: string, hovered: Option<string>)

  /** `route.params?.currentCurrencyId || 'usd'`, nothing pressed. */
  function InitialPicker(currentCurrencyId: Option<string>): (p: Picker)
    ensures Truthy(currentCurrencyId) ==> p.selected == currentCurrencyId.value
    ensures !Truthy(currentCurrencyId) ==> p.selected == DEFAULT_CURRENCY_ID
    ensures p.hovered == None
  {
    Picker(OrElse(currentCurrencyId, DEFAULT_CURRENCY_ID), None)
  }

  predicate IsSelected(item: Currency, p: Picker) {
    item.id == p.selected
  }

  predicate IsHovered(item: Currency, p: Picker) {
    p.hovered == Some(item.id)
  }

  /** `handleCurrencySelect`: check the id and send that same id back to the
      amount screen. */
  function HandleCurrencySelect(p: Picker, id: string): (r: (Picker, PaymentScreen.RouteParams))
    ensures r.0.selected == id && r.0.hovered == p.hovered
    ensures r.1.selectedCurrencyId == Some(id) && !r.1.reset
  {
    (p.(selected := id), PaymentScreen.RouteParams(Some(id), false))
  }

  /** After picking a listed currency, exactly that currency is checked. */
  lemma PickChecksOnlyPicked(p: Picker, i: nat, j: nat)
    requires i < |PaymentScreen.CURRENCIES| && j < |PaymentScreen.CURRENCIES|
    ensures IsSelected(PaymentScreen.CURRENCIES[j], HandleCurrencySelect(p, PaymentScreen.CURRENCIES[i].id).0) <==> i == j
  {
    PaymentScreen.SelectedCurrencyOfListed(i);
    PaymentScreen.SelectedCurrencyOfListed(j);
  }

  function PressIn(p: Picker, id: string): (r: Picker)
    ensures r.hovered == Some(id) && r.selected == p.selected
  {
    p.(hovered := Some(id))
  }

  function PressOut(p: Picker): (r: Picker)
    ensures r.hovered == None && r.selected == p.selected
  {
    p.(hovered := None)
  }

  /** Pressing and releasing an item leaves no highlight behind, and while
      pressed exactly the items with that id are highlighted. */
  lemma PressHighlight(p: Picker, item: Currency, other: Currency)
    ensures IsHovered(other, PressIn(p, item.id)) <==> other.id == item.id
    ensures !IsHovered(other, PressOut(PressIn(p, item.id)))
  {
  }

  /** Picking a listed currency makes the amount screen show that currency,
      whatever the amount screen's state was. */
  lemma PickedCurrencyReachesAmountScreen(p: Picker, i: nat, s: PaymentScreen.Screen)
    requires i < |PaymentScreen.CURRENCIES|
    ensures var params := HandleCurrencySelect(p, PaymentScreen.CURRENCIES[i].id).1;
      PaymentScreen.SelectedCurrency(PaymentScreen.ParamsChanged(s, params).currencyId) == PaymentScreen.CURRENCIES[i]
  {
    PaymentScreen.SelectedCurrencyOfListed(i);
  }
}
