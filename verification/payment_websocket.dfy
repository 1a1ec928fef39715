/** The payment-status hook `usePaymentWebSocket(identifier, onStatusChange)`.

    The hook body runs on every render of its screen. It does nothing for a
    falsy identifier or while a connection is stored in its ref; otherwise it
    schedules a timer that, when it fires, opens a socket to
    `WS_BASE_URL + identifier` and stores it. Each text frame is parsed as
    JSON and mapped to "completed" or "pending"; frames that fail to parse
    (or whose value makes the status lookup throw) are dropped. A close event
    on any socket the hook opened clears the stored ref.

    The hook is modelled as a transition system over `HookState`. Timers are
    an abstract event (`TimerFires`); the timers still pending are kept in
    the order they were scheduled, each with the identifier its closure
    captured. Sockets are named by the order in which they were opened. */
module PaymentWebSocket {
  import opened Wrappers
  import Strings

  const WS_BASE_URL: string := "wss://payments.pre-bnvo.com/ws/merchant/"

  const COMPLETED: string := "completed"
  const PENDING: string := "pending"

  /** The value `JSON.parse` produced, as far as the status rule can see it:
      `null`, an object with optional `status` and `confirmed_amount`
      fields (a `status` that is not a string and a `confirmed_amount` that
      is not a number are `None`), or any other value (number, string,
      boolean, array) whose fields read as `undefined`. */
  datatype JsonValue =
    | JNull
    | JObject(status: Option<string>, confirmedAmount: Option<real>)
    | JOther

  /** A received text frame: either it is not valid JSON or it parsed. */
  datatype Payload = Unparseable | Parsed(value: JsonValue)

  /** `data.status === "CO" && data.confirmed_amount > 0.0`. */
  predicate IsCompleted(data: JsonValue) {
    && data.JObject?
    && data.status == Some("CO")
    && data.confirmedAmount.Some?
    && data.confirmedAmount.value > 0.0
  }

  /** The status `handleMessage` reports for a parsed value other than `null`. */
  function StatusOf(data: JsonValue): (r: string)
    ensures r == COMPLETED || r == PENDING
    ensures r == COMPLETED <==>
      data.JObject? && data.status == Some("CO") && data.confirmedAmount.Some? && data.confirmedAmount.value > 0.0
  {
    if IsCompleted(data) then COMPLETED else PENDING
  }

  /** A frame reaches `onStatusChange` when it parses and is not `null`
      (reading `.status` of `null` throws inside the same `try`). */
  predicate Decodable(p: Payload) {
    p.Parsed? && !p.value.JNull?
  }

  /** The `onStatusChange` calls one received frame causes. */
  function HandleMessage(p: Payload): (calls: seq<string>)
    ensures |calls| == (if Decodable(p) then 1 else 0)
    ensures forall i :: 0 <= i < |calls| ==> calls[i] == COMPLETED || calls[i] == PENDING
    ensures calls == [COMPLETED] <==> p.Parsed? && IsCompleted(p.value)
  {
    match p
    case Unparseable => []
    case Parsed(JNull) => []
    case Parsed(v) => [StatusOf(v)]
  }

  // -----------------------------------------------------------------------
  // Connection state

  datatype Socket = Socket(serial: nat, url: string)

  /** `current` is `wsRef.current`; `live` the serials of sockets opened and
      not yet closed; `timers` the identifiers captured by the connect timers
      still pending, oldest first; `created` how many sockets were created. */
  datatype HookState = HookState(current: Option<Socket>, live: set<nat>, timers: seq<string>, created: nat)

  const Initial: HookState := HookState(None, {}, [], 0)

  /** The stored socket is one that is still open and addresses the merchant
      channel; every open socket was created by this hook. */
  predicate Valid(s: HookState) {
    && (s.current.Some? ==>
          s.current.value.serial in s.live && Strings.StartsWith(s.current.value.url, WS_BASE_URL))
    && (forall k :: k in s.live ==> k < s.created)
  }

  /** One run of the hook body. An identifier of `undefined` or `null` is
      modelled as "". */
  function Render(s: HookState, identifier: string): (r: HookState)
    ensures Valid(s) ==> Valid(r)
    ensures r.current == s.current && r.live == s.live && r.created == s.created
    ensures identifier == "" || s.current.Some? ==> r == s
    ensures identifier != "" && s.current.None? ==>
      |r.timers| == |s.timers| + 1 && r.timers[..|s.timers|] == s.timers && r.timers[|s.timers|] == identifier
  {
    if identifier == "" then s
    else if s.current.Some? then s
    else s.(timers := s.timers + [identifier])
  }

  /** The oldest pending connect timer fires: a new socket is created for the
      identifier it captured and stored in the ref, replacing whatever the
      ref held (the replaced socket is not closed). */
  function TimerFires(s: HookState): (r: HookState)
    requires |s.timers| > 0
    ensures Valid(s) ==> Valid(r)
    ensures r.current == Some(Socket(s.created, WS_BASE_URL + s.timers[0]))
    ensures Valid(s) ==> s.created !in s.live && r.live == s.live + {s.created}
    ensures r.timers == s.timers[1..] && r.created == s.created + 1
  {
    var url := WS_BASE_URL + s.timers[0];
    assert url[..|WS_BASE_URL|] == WS_BASE_URL;
    HookState(Some(Socket(s.created, url)), s.live + {s.created}, s.timers[1..], s.created + 1)
  }

  /** A close event on an open socket: the ref is cleared whichever socket
      closed. */
  function Closed(s: HookState, serial: nat): (r: HookState)
    requires serial in s.live
    ensures Valid(s) ==> Valid(r)
    ensures r.current == None
    ensures r.live == s.live - {serial} && serial !in r.live
    ensures r.timers == s.timers && r.created == s.created
  {
    s.(current := None, live := s.live - {serial})
  }

  // -----------------------------------------------------------------------
  // Event traces

  datatype Event =
    | OnRender(identifier: string)
    | OnTimer
    | OnMessage(serial: nat, payload: Payload)
    | OnClose(serial: nat)

  /** An event can happen: a timer is pending, or the socket it concerns is open. */
  predicate Enabled(s: HookState, e: Event) {
    match e
    case OnRender(_) => true
    case OnTimer => |s.timers| > 0
    case OnMessage(k, _) => k in s.live
    case OnClose(k) => k in s.live
  }

  /** The state after one event, and the `onStatusChange` calls it made. */
  function Step(s: HookState, e: Event): (r: (HookState, seq<string>))
    requires Enabled(s, e)
    ensures Valid(s) ==> Valid(r.0)
    ensures !e.OnMessage? ==> r.1 == []
    ensures e.OnMessage? ==> r.0 == s && r.1 == HandleMessage(e.payload)
  {
    match e
    case OnRender(id) => (Render(s, id), [])
    case OnTimer => (TimerFires(s), [])
    case OnMessage(_, p) => (s, HandleMessage(p))
    case OnClose(k) => (Closed(s, k), [])
  }

  predicate Feasible(s: HookState, es: seq<Event>)
    decreases |es|
  {
    es == [] || (Enabled(s, es[0]) && Feasible(Step(s, es[0]).0, es[1..]))
  }

  /** The final state after a feasible trace, and every status reported, in order. */
  function Run(s: HookState, es: seq<Event>): (HookState, seq<string>)
    requires Feasible(s, es)
    decreases |es|
  {
    if es == [] then (s, [])
    else
      var (s', out) := Step(s, es[0]);
      var (t, rest) := Run(s', es[1..]);
      (t, out + rest)
  }

  /** Every reachable state is valid. */
  lemma {:induction false} RunPreservesValid(s: HookState, es: seq<Event>)
    requires Valid(s) && Feasible(s, es)
    ensures Valid(Run(s, es).0)
    decreases |es|
  {
    if es != [] {
      RunPreservesValid(Step(s, es[0]).0, es[1..]);
    }
  }

  /** How many frames of a trace reach the status callback. */
  function DecodableMessages(es: seq<Event>): nat
    decreases |es|
  {
    if es == [] then 0
    else (if es[0].OnMessage? && Decodable(es[0].payload) then 1 else 0) + DecodableMessages(es[1..])
  }

  /** Each decodable frame produces exactly one status report and nothing
      else produces one. */
  lemma {:induction false} OneReportPerDecodableFrame(s: HookState, es: seq<Event>)
    requires Feasible(s, es)
    ensures |Run(s, es).1| == DecodableMessages(es)
    decreases |es|
  {
    if es != [] {
      OneReportPerDecodableFrame(Step(s, es[0]).0, es[1..]);
    }
  }

  /** The screen renders with the same identifier throughout: every render
      in the trace uses `id`. */
  predicate RendersOnly(es: seq<Event>, id: string) {
    forall i :: 0 <= i < |es| ==> es[i].OnRender? ==> es[i].identifier == id || es[i].identifier == ""
  }

  /** Every pending timer and the stored socket belong to identifier `id`. */
  predicate BoundTo(s: HookState, id: string) {
    && (forall i :: 0 <= i < |s.timers| ==> s.timers[i] == id)
    && (s.current.Some? ==> s.current.value.url == WS_BASE_URL + id)
  }

  /** With a single identifier, the stored connection always addresses
      exactly `WS_BASE_URL + id`. */
  lemma {:induction false} StoredUrlIsIdentifierChannel(s: HookState, es: seq<Event>, id: string)
    requires BoundTo(s, id) && RendersOnly(es, id) && Feasible(s, es)
    ensures BoundTo(Run(s, es).0, id)
    decreases |es|
  {
    if es != [] {
      var s' := Step(s, es[0]).0;
      assert BoundTo(s', id);
      assert RendersOnly(es[1..], id) by {
        forall i | 0 <= i < |es[1..]| ensures es[1..][i].OnRender? ==> es[1..][i].identifier == id || es[1..][i].identifier == "" {
          assert es[1..][i] == es[i + 1];
        }
      }
      StoredUrlIsIdentifierChannel(s', es[1..], id);
    }
  }

  /** `n` renders with no connection stored schedule `n` timers: the guard
      does not look at timers already pending. */
  lemma {:induction false} RenderBurstSchedulesEach(s: HookState, id: string, n: nat)
    requires id != "" && s.current.None?
    ensures Feasible(s, seq(n, _ => OnRender(id)))
    ensures Run(s, seq(n, _ => OnRender(id))).0 == s.(timers := s.timers + seq(n, _ => id))
    decreases n
  {
    var es := seq(n, _ => OnRender(id));
    if n == 0 {
      assert s.timers + seq(n, _ => id) == s.timers;
    } else {
      var s' := Render(s, id);
      assert es[1..] == seq(n - 1, _ => OnRender(id));
      RenderBurstSchedulesEach(s', id, n - 1);
      assert s'.timers + seq(n - 1, _ => id) == s.timers + seq(n, _ => id);
    }
  }

  /** While a connection is stored, any number of renders change nothing. */
  lemma {:induction false} RendersWhileConnected(s: HookState, ids: seq<string>)
    requires s.current.Some?
    ensures Feasible(s, seq(|ids|, i requires 0 <= i < |ids| => OnRender(ids[i])))
    ensures Run(s, seq(|ids|, i requires 0 <= i < |ids| => OnRender(ids[i]))).0 == s
    decreases |ids|
  {
    var es := seq(|ids|, i requires 0 <= i < |ids| => OnRender(ids[i]));
    if ids != [] {
      assert es[1..] == seq(|ids[1..]|, i requires 0 <= i < |ids[1..]| => OnRender(ids[1..][i]));
      RendersWhileConnected(s, ids[1..]);
    }
  }

  /** After a close, the next render with an identifier schedules a new connect. */
  lemma CloseReenablesConnect(s: HookState, serial: nat, id: string)
    requires serial in s.live && id != ""
    ensures |Render(Closed(s, serial), id).timers| == |s.timers| + 1
  {
  }

  /** Two renders inside the timer window open two sockets; when the older
      one closes, the ref is cleared although the newer one is still open,
      so the next render schedules a third connection. */
  lemma SupersededSocketCloseClearsRef(id: string)
    requires id != ""
    ensures
      var s := TimerFires(TimerFires(Render(Render(Initial, id), id)));
      && s.live == {0, 1}
      && s.current == Some(Socket(1, WS_BASE_URL + id))
      && Closed(s, 0).current == None
      && 1 in Closed(s, 0).live
      && |Render(Closed(s, 0), id).timers| == 1
  {
  }
}
