/** The share screen: the WhatsApp phone field that keeps at most ten digits
    grouped 3-3-4, the check made before the success modal is shown, the
    switch that reveals the phone field, the country chosen in the picker,
    the link that is copied, and the status callback that moves on to the
    confirmation screen. */
module PaymentShareScreen {
  import opened Wrappers
  import opened Strings
  import PaymentWebSocket
  import CountrySelectionScreen
  import PaymentOrder

  type Country = CountrySelectionScreen.Country

  const MAX_PHONE_DIGITS: nat := 10

  const DEFAULT_COUNTRY: Country := CountrySelectionScreen.Country("es", "Espa\U{00F1}a", "+34")

  /** The link shown until the order's URL has been read. */
  const LOADING_LINK: string := "pay.bitnovo.com/cargando..."

  // -----------------------------------------------------------------------
  // Phone number

  /** `s.slice(0, n)`. */
  function Take(s: string, n: nat): (r: string)
    ensures |r| == if |s| <= n then |s| else n
    ensures r == s[..|r|]
  {
    if |s| <= n then s else s[..n]
  }

  /** The digits the phone field keeps from a typed text: the first ten. */
  function KeptDigits(text: string): (d: string)
    ensures AllDigits(d) && |d| <= MAX_PHONE_DIGITS
  {
    Take(StripNonDigits(text), MAX_PHONE_DIGITS)
  }

  /** `formatPhoneNumber`: the result holds only digits and spaces; its
      digits are the first ten digits of the text, in order; and spaces
      stand after the third digit once there are more than three, and after
      the sixth once there are more than six. */
  function FormatPhoneNumber(text: string): (r: string)
    ensures forall i :: 0 <= i < |r| ==> IsDigit(r[i]) || r[i] == ' '
    ensures StripNonDigits(r) == Take(StripNonDigits(text), MAX_PHONE_DIGITS)
    ensures var n := |KeptDigits(text)|;
      && |r| == n + (if n > 6 then 2 else if n > 3 then 1 else 0)
      && forall i :: 0 <= i < |r| ==> (r[i] == ' ' <==> (n > 3 && i == 3) || (n > 6 && i == 7))
  {
    var d := KeptDigits(text);
    if 3 < |d| <= 6 then
      StripAroundSeparator(d[..3], ' ', d[3..]);
      assert d[..3] + d[3..] == d;
      d[..3] + " " + d[3..]
    else if |d| > 6 then
      var x := d[..3] + [' '] + d[3..6];
      StripAroundSeparator(d[..3], ' ', d[3..6]);
      assert d[..3] + d[3..6] == d[..6];
      StripDropsSeparator(x, ' ', d[6..]);
      StripAllDigits(d[6..]);
      assert d[..6] + d[6..] == d;
      assert d[..3] + " " + d[3..6] + " " + d[6..] == x + [' '] + d[6..];
      d[..3] + " " + d[3..6] + " " + d[6..]
    else
      StripAllDigits(d);
      d
  }

  /** Formatting a formatted number changes nothing. */
  lemma FormatPhoneIdempotent(text: string)
    ensures FormatPhoneNumber(FormatPhoneNumber(text)) == FormatPhoneNumber(text)
  {
    var r := FormatPhoneNumber(text);
    assert KeptDigits(r) == KeptDigits(text);
  }

  /** `/^(\d{3}) (\d{3}) (\d{4})$/`. */
  predicate MatchesPhonePattern(s: string) {
    && |s| == 12
    && s[3] == ' ' && s[7] == ' '
    && forall i :: 0 <= i < 12 && i != 3 && i != 7 ==> IsDigit(s[i])
  }

  /** The three groups the pattern captures: three, three and four ASCII
      digits, one space between them, nothing before or after. */
  predicate PhoneGroups(s: string, a: string, b: string, c: string) {
    && |a| == 3 && |b| == 3 && |c| == 4
    && AllDigits(a) && AllDigits(b) && AllDigits(c)
    && s == a + " " + b + " " + c
  }

  /** The pattern accepts exactly the strings made of its three groups. */
  lemma PhonePatternGroups(s: string)
    ensures MatchesPhonePattern(s) <==> exists a, b, c :: PhoneGroups(s, a, b, c)
  {
    if MatchesPhonePattern(s) {
      var a, b, c := s[..3], s[4..7], s[8..];
      assert s == a + " " + b + " " + c;
      assert PhoneGroups(s, a, b, c);
    }
    if exists a, b, c :: PhoneGroups(s, a, b, c) {
      var a, b, c :| PhoneGroups(s, a, b, c);
      forall i | 0 <= i < 12 && i != 3 && i != 7 ensures IsDigit(s[i]) {
        if i < 3 {
          assert s[i] == a[i];
        } else if i < 7 {
          assert s[i] == b[i - 4];
        } else {
          assert s[i] == c[i - 8];
        }
      }
    }
  }

  /** A formatted number passes the check exactly when the text had at
      least ten digits. */
  lemma FormattedPassesIffTenDigits(text: string)
    ensures MatchesPhonePattern(FormatPhoneNumber(text)) <==> |StripNonDigits(text)| >= MAX_PHONE_DIGITS
  {
  }

  datatype SendOutcome = MissingNumber | BadFormat | ShowSuccess

  /** `sendWhatsAppMessage`: a blank number and a number off the pattern
      raise their alerts; otherwise the success modal opens. */
  function SendWhatsAppMessage(phone: string): (r: SendOutcome)
    ensures r == MissingNumber <==> forall i :: 0 <= i < |phone| ==> IsJsWhitespace(phone[i])
    ensures r == ShowSuccess <==> MatchesPhonePattern(phone)
  {
    TrimEmptyIff(phone);
    if Trim(phone) == "" then MissingNumber
    else if !MatchesPhonePattern(phone) then BadFormat
    else ShowSuccess
  }

  /** What pressing "Enviar" does with whatever was typed into the field. */
  lemma SendAfterTyping(text: string)
    ensures var n := |StripNonDigits(text)|;
      SendWhatsAppMessage(FormatPhoneNumber(text))
        == if n == 0 then MissingNumber else if n < MAX_PHONE_DIGITS then BadFormat else ShowSuccess
  {
    var r := FormatPhoneNumber(text);
    FormattedPassesIffTenDigits(text);
    if |StripNonDigits(text)| > 0 {
      assert !IsJsWhitespace(r[0]);
    }
  }

  // -----------------------------------------------------------------------
  // Screen state

  datatype Share = Share(showWhatsAppInput: bool, phoneNumber: string, country: Country, showSuccessModal: bool)

  /** The state on arrival: the phone field is shown when the route asks for it. */
  function InitialShare(showWhatsAppParam: bool): (s: Share)
    ensures s.phoneNumber == "" && s.country == DEFAULT_COUNTRY && !s.showSuccessModal
    ensures s.showWhatsAppInput == showWhatsAppParam
  {
    Share(showWhatsAppParam, "", DEFAULT_COUNTRY, false)
  }

  /** The phone field always holds a formatted number. */
  predicate Inv(s: Share) {
    FormatPhoneNumber(s.phoneNumber) == s.phoneNumber
  }

  lemma InitialShareInv(showWhatsAppParam: bool)
    ensures Inv(InitialShare(showWhatsAppParam))
  {
    assert StripNonDigits("") == "";
  }

  function PhoneChanged(s: Share, text: string): (r: Share)
    ensures Inv(r)
    ensures StripNonDigits(r.phoneNumber) == KeptDigits(text)
    ensures r.(phoneNumber := s.phoneNumber) == s
  {
    FormatPhoneIdempotent(text);
    s.(phoneNumber := FormatPhoneNumber(text))
  }

  /** "Enviar": the modal opens exactly when the number passes the check. */
  function SendPressed(s: Share): (r: (Share, SendOutcome))
    ensures r.0.showSuccessModal <==> r.1 == ShowSuccess || s.showSuccessModal
    ensures r.1 == ShowSuccess <==> MatchesPhonePattern(s.phoneNumber)
    ensures r.1 == SendWhatsAppMessage(s.phoneNumber)
    ensures r.0.(showSuccessModal := s.showSuccessModal) == s
  {
    var outcome := SendWhatsAppMessage(s.phoneNumber);
    if outcome == ShowSuccess then (s.(showSuccessModal := true), outcome) else (s, outcome)
  }

  function ToggleWhatsAppInput(s: Share): (r: Share)
    ensures r.showWhatsAppInput != s.showWhatsAppInput
    ensures r.(showWhatsAppInput := s.showWhatsAppInput) == s
  {
    s.(showWhatsAppInput := !s.showWhatsAppInput)
  }

  lemma ToggleTwiceRestores(s: Share)
    ensures ToggleWhatsAppInput(ToggleWhatsAppInput(s)) == s
  {
  }

  /** The `selectedCountry` route-parameter effect. */
  function CountryParamChanged(s: Share, selected: Option<Country>): (r: Share)
    ensures selected.Some? ==> r.country == selected.value
    ensures selected.None? ==> r == s
    ensures r.(country := s.country) == s
  {
    if selected.Some? then s.(country := selected.value) else s
  }

  /** Choosing a country in the picker opened from this screen makes it the
      screen's country, and the picker marks the screen's current country. */
  lemma CountryPickerRoundTrip(s: Share, c: Country, other: Country)
    requires other in CountrySelectionScreen.COUNTRIES
    ensures var p := CountrySelectionScreen.HandleCountrySelect(c);
      CountryParamChanged(s, Some(p.selectedCountry)).country == c && p.showWhatsAppInput
    ensures s.country in CountrySelectionScreen.COUNTRIES ==>
      (CountrySelectionScreen.IsSelected(other, CountrySelectionScreen.CurrentCountryId(Some(s.country.id))) <==> other == s.country)
  {
    CountrySelectionScreen.CountryIdsDistinct();
  }

  /** "Nueva solicitud" opens the modal; closing it hides it. */
  function NewRequestPressed(s: Share): (r: Share)
    ensures r.showSuccessModal && r.(showSuccessModal := s.showSuccessModal) == s
  {
    s.(showSuccessModal := true)
  }

  function ModalClosed(s: Share): (r: Share)
    ensures !r.showSuccessModal && r.(showSuccessModal := s.showSuccessModal) == s
  {
    s.(showSuccessModal := false)
  }

  // -----------------------------------------------------------------------
  // Link and status

  /** One run of the effect on `web_url`: the displayed link `prev` becomes
      the URL's host and path when the URL parses (`hostPath`, computed by
      the URL class, which is not modelled) and is kept otherwise. */
  function DisplayedLink(prev: string, webUrl: Option<string>, hostPath: Option<string>): (r: string)
    ensures Truthy(webUrl) && hostPath.Some? ==> r == hostPath.value
    ensures !Truthy(webUrl) || hostPath.None? ==> r == prev
  {
    if Truthy(webUrl) && hostPath.Some? then hostPath.value else prev
  }

  /** One run of the effect: the `web_url` it saw and what the URL class made
      of it. */
  datatype LinkRun = LinkRun(webUrl: Option<string>, hostPath: Option<string>)

  /** The displayed link after the effect has run on each `web_url` in turn,
      starting from the loading placeholder. */
  function LinkAfterRuns(runs: seq<LinkRun>): (r: string)
    decreases |runs|
  {
    if runs == [] then LOADING_LINK
    else
      var last := runs[|runs| - 1];
      DisplayedLink(LinkAfterRuns(runs[..|runs| - 1]), last.webUrl, last.hostPath)
  }

  /** The displayed link is the placeholder or the host and path of the
      latest run whose URL parsed. */
  predicate Parsed(run: LinkRun) {
    Truthy(run.webUrl) && run.hostPath.Some?
  }

  /** No run after position `i` had a URL that parsed. */
  predicate NoParsedAfter(runs: seq<LinkRun>, i: int) {
    forall j :: 0 <= j < |runs| && i < j ==> !Parsed(runs[j])
  }

  lemma {:induction false} LinkAfterRunsIsLatestParsed(runs: seq<LinkRun>)
    ensures NoParsedAfter(runs, -1) ==> LinkAfterRuns(runs) == LOADING_LINK
    ensures forall i :: 0 <= i < |runs| && Parsed(runs[i]) && NoParsedAfter(runs, i) ==>
      LinkAfterRuns(runs) == runs[i].hostPath.value
    decreases |runs|
  {
    if runs != [] {
      var init := runs[..|runs| - 1];
      LinkAfterRunsIsLatestParsed(init);
      assert forall i :: 0 <= i < |init| ==> init[i] == runs[i];
    }
  }

  /** `copyToClipboard`: the order's URL when there is one, otherwise the
      link the screen displays. */
  function CopiedLink(webUrl: Option<string>, paymentLink: string): (r: string)
    ensures Truthy(webUrl) ==> r == webUrl.value
    ensures !Truthy(webUrl) ==> r == paymentLink
  {
    OrElse(webUrl, paymentLink)
  }

  /** With an order URL the copy button copies it whole, never the displayed
      host and path; without one it copies whatever link was displayed
      before, the placeholder included. */
  lemma CopiedLinkOfDisplayed(prev: string, webUrl: Option<string>, hostPath: Option<string>)
    ensures CopiedLink(webUrl, DisplayedLink(prev, webUrl, hostPath)) == if Truthy(webUrl) then webUrl.value else prev
  {
  }

  /** The status callback given to the hook: it navigates to the
      confirmation screen on "completed" and ignores anything else. */
  predicate NavigatesOn(status: string) {
    status == PaymentWebSocket.COMPLETED
  }

  /** Some report in the sequence makes the screen navigate. */
  predicate Navigated(reports: seq<string>) {
    exists i :: 0 <= i < |reports| && NavigatesOn(reports[i])
  }

  /** One frame makes the screen navigate exactly when it is a completed
      status with a positive confirmed amount. */
  lemma NavigatesIffCompletedFrame(p: PaymentWebSocket.Payload)
    ensures Navigated(PaymentWebSocket.HandleMessage(p)) <==> p.Parsed? && PaymentWebSocket.IsCompleted(p.value)
  {
    var calls := PaymentWebSocket.HandleMessage(p);
    if p.Parsed? && PaymentWebSocket.IsCompleted(p.value) {
      assert NavigatesOn(calls[0]);
    }
  }

  /** The trace contains a completed frame. */
  predicate HasCompletedFrame(es: seq<PaymentWebSocket.Event>) {
    exists i :: 0 <= i < |es| && es[i].OnMessage? && es[i].payload.Parsed? && PaymentWebSocket.IsCompleted(es[i].payload.value)
  }

  /** Over a whole connection history, the screen navigates to the
      confirmation screen at some point exactly when some frame reported a
      completed payment. */
  lemma {:induction false} NavigatesIffSomeCompletedFrame(s: PaymentWebSocket.HookState, es: seq<PaymentWebSocket.Event>)
    requires PaymentWebSocket.Feasible(s, es)
    ensures Navigated(PaymentWebSocket.Run(s, es).1) <==> HasCompletedFrame(es)
    decreases |es|
  {
    if es != [] {
      var st := PaymentWebSocket.Step(s, es[0]);
      var s', out := st.0, st.1;
      var rest := PaymentWebSocket.Run(s', es[1..]).1;
      var reports := PaymentWebSocket.Run(s, es).1;
      assert reports == out + rest;
      NavigatesIffSomeCompletedFrame(s', es[1..]);
      if es[0].OnMessage? {
        NavigatesIffCompletedFrame(es[0].payload);
      }
      if Navigated(reports) {
        var i :| 0 <= i < |reports| && NavigatesOn(reports[i]);
        if i < |out| {
          assert es[0].OnMessage? && NavigatesOn(out[i]);
          assert HasCompletedFrame(es);
        } else {
          var k := i - |out|;
          assert 0 <= k < |rest| && NavigatesOn(rest[k]);
          assert Navigated(rest);
          var j :| 0 <= j < |es[1..]| && es[1..][j].OnMessage? && es[1..][j].payload.Parsed? && PaymentWebSocket.IsCompleted(es[1..][j].payload.value);
          assert es[j + 1] == es[1..][j];
        }
      }
      if HasCompletedFrame(es) {
        var j :| 0 <= j < |es| && es[j].OnMessage? && es[j].payload.Parsed? && PaymentWebSocket.IsCompleted(es[j].payload.value);
        if j == 0 {
          assert NavigatesOn(out[0]);
          assert reports[0] == out[0];
        } else {
          assert es[1..][j - 1] == es[j];
          assert HasCompletedFrame(es[1..]);
          assert Navigated(rest);
          var i :| 0 <= i < |rest| && NavigatesOn(rest[i]);
          assert reports[|out| + i] == rest[i];
        }
      }
    }
  }
}
