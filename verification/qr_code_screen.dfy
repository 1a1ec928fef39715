/** The QR screen: which link is encoded (the route's `web_url`, else the
    order's `web_url`, else an error page), the `https://` prefix added to
    a link without a scheme, and the switch to the simulated status channel
    after repeated failed connection attempts. */
module QRCodeScreen {
  import opened Wrappers
  import opened Strings
  import PaymentOrder

  const ERROR_LINK: string := "pay.bitnovo.com/error"
  const HTTPS_PREFIX: string := "https://"
  const MAX_ATTEMPTS: int := 3

  /** `web_url || paymentData?.web_url || "pay.bitnovo.com/error"`. */
  function PaymentLink(webUrl: Option<string>, data: Option<PaymentOrder.PaymentData>): (r: string)
    ensures r != ""
    ensures Truthy(webUrl) ==> r == webUrl.value
    ensures !Truthy(webUrl) && data.Some? && Truthy(data.value.webUrl) ==> r == data.value.webUrl.value
    ensures !Truthy(webUrl) && !(data.Some? && Truthy(data.value.webUrl)) ==> r == ERROR_LINK
  {
    if Truthy(webUrl) then webUrl.value
    else if data.Some? && Truthy(data.value.webUrl) then data.value.webUrl.value
    else ERROR_LINK
  }

  /** `getQRValue`: a link beginning with "http" is used as it is; any other
      link gets "https://" in front. Either way the link is kept whole at
      the end of the value. */
  function QRValue(link: string): (r: string)
    ensures StartsWith(r, "http")
    ensures EndsWith(r, link)
    ensures r == link <==> StartsWith(link, "http")
    ensures r != link ==> StartsWith(r, HTTPS_PREFIX) && |r| == |link| + |HTTPS_PREFIX|
  {
    if StartsWith(link, "http") then link
    else
      var r := HTTPS_PREFIX + link;
      assert r[..4] == "http" && r[..|HTTPS_PREFIX|] == HTTPS_PREFIX && r[|r| - |link|..] == link;
      r
  }

  /** Encoding the encoded value again changes nothing. */
  lemma QRValueIdempotent(link: string)
    ensures QRValue(QRValue(link)) == QRValue(link)
  {
  }

  /** Every link the screen can show becomes a value starting with "http";
      the error page in particular is encoded with the https scheme. */
  lemma ErrorLinkGetsHttps()
    ensures QRValue(ERROR_LINK) == HTTPS_PREFIX + ERROR_LINK
  {
    assert !StartsWith(ERROR_LINK, "http") by {
      assert ERROR_LINK[..4] == "pay.";
    }
  }

  /** The value encoded for the link the screen picks: the route's URL as it
      is when it has a scheme, and the https error page when neither the
      route nor the order carries a URL. */
  lemma QRValueOfPaymentLink(webUrl: Option<string>, data: Option<PaymentOrder.PaymentData>)
    ensures var r := QRValue(PaymentLink(webUrl, data));
      && StartsWith(r, "http") && EndsWith(r, PaymentLink(webUrl, data))
      && (Truthy(webUrl) && StartsWith(webUrl.value, "http") ==> r == webUrl.value)
      && (Truthy(webUrl) && !StartsWith(webUrl.value, "http") ==> r == HTTPS_PREFIX + webUrl.value)
      && (!Truthy(webUrl) && !(data.Some? && Truthy(data.value.webUrl)) ==> r == "https://pay.bitnovo.com/error")
  {
    if !Truthy(webUrl) && !(data.Some? && Truthy(data.value.webUrl)) {
      ErrorLinkGetsHttps();
    }
  }

  /** One run of the mock-switch effect, seeing the hook's attempt count and
      connection flag: it only ever turns the switch on. */
  function MockSwitch(useMock: bool, connectionAttempts: int, isConnected: bool): (r: bool)
    ensures useMock ==> r
    ensures r <==> useMock || (connectionAttempts >= MAX_ATTEMPTS && !isConnected)
  {
    if connectionAttempts >= MAX_ATTEMPTS && !isConnected then true else useMock
  }

  /** What the effect observed on one run. */
  datatype Observation = Observation(connectionAttempts: int, isConnected: bool)

  predicate Exhausted(o: Observation) {
    o.connectionAttempts >= MAX_ATTEMPTS && !o.isConnected
  }

  /** The switch after the effect has run on each observation in turn. */
  function MockAfter(useMock: bool, obs: seq<Observation>): bool
    decreases |obs|
  {
    if obs == [] then useMock
    else MockAfter(MockSwitch(useMock, obs[0].connectionAttempts, obs[0].isConnected), obs[1..])
  }

  /** Starting from `false`, the screen is in mock mode exactly when some
      run saw three or more attempts without a connection; once on, it
      never turns off. */
  lemma {:induction false} MockOneWay(useMock: bool, obs: seq<Observation>)
    ensures MockAfter(useMock, obs) <==> useMock || exists i :: 0 <= i < |obs| && Exhausted(obs[i])
    decreases |obs|
  {
    if obs != [] {
      var next := MockSwitch(useMock, obs[0].connectionAttempts, obs[0].isConnected);
      MockOneWay(next, obs[1..]);
      if exists i :: 0 <= i < |obs[1..]| && Exhausted(obs[1..][i]) {
        var i :| 0 <= i < |obs[1..]| && Exhausted(obs[1..][i]);
        assert obs[i + 1] == obs[1..][i];
      }
      if exists i :: 0 <= i < |obs| && Exhausted(obs[i]) {
        var i :| 0 <= i < |obs| && Exhausted(obs[i]);
        if i > 0 {
          assert obs[1..][i - 1] == obs[i];
        }
      }
    }
  }
}
