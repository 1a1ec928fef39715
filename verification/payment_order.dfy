/** The order object the order-creation request returns, as far as the
    screens read it: the identifier that names the status channel and the
    payment page URL. Either field may be missing. */
module PaymentOrder {
  import opened Wrappers

  datatype PaymentData = PaymentData(identifier: Option<string>, webUrl: Option<string>)

  /** `paymentData?.identifier` as the status hook receives it; a missing
      order or identifier is the falsy "". */
  function HookIdentifier(data: Option<PaymentData>): (id: string)
    ensures data.Some? && Truthy(data.value.identifier) ==> id == data.value.identifier.value
    ensures !(data.Some? && Truthy(data.value.identifier)) ==> id == ""
  {
    if data.Some? then OrElse(data.value.identifier, "") else ""
  }
}
