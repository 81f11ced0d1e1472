/** The listeners and the subscription entry points as objects that change in place. */
module EventHub {
  import opened Common
  import opened EventRouting

  /** The callbacks a notification reaches, in subscription order. */
  function Handlers(subs: seq<Subscription>, code: Notification): seq<nat> {
    if subs == [] then []
    else if subs[0].code == code then [subs[0].handler] + Handlers(subs[1..], code)
    else Handlers(subs[1..], code)
  }

  lemma {:induction false} RemoveTokenAt(subs: seq<Subscription>, token: nat, i: nat)
    requires i < |subs| && subs[i].token == token && forall k :: 0 <= k < i ==> subs[k].token != token
    ensures RemoveToken(subs, token) == subs[..i] + subs[i + 1..]
  {
    if i > 0 {
      RemoveTokenAt(subs[1..], token, i - 1);
    }
  }

  lemma {:induction false} HandlersAppend(subs: seq<Subscription>, s: Subscription, code: Notification)
    ensures Handlers(subs + [s], code) == Handlers(subs, code) + (if s.code == code then [s.handler] else [])
  {
    if subs == [] {
      assert (subs + [s])[1..] == [];
    } else {
      assert (subs + [s])[1..] == subs[1..] + [s];
      HandlersAppend(subs[1..], s, code);
    }
  }

  /** A generic subscription hears of these notifications of the user interface. */
  predicate IsUiEvent(code: Notification) {
    || code == DatabaseInited || code == DatabaseClosed || code == ReadyToRun || code == ScreenAddressChanged
    || code == CurrentWidgetChanged || code == WidgetVisible || code == WidgetInvisible || code == WidgetClosing
  }

  /** And of these of the views. */
  predicate IsViewEvent(code: Notification) {
    || code == CursorChanged || code == ViewActivated || code == ViewDeactivated || code == ViewCreated
    || code == ViewClosed
  }

  /** After `on_event` its handler comes last, once, among the callbacks of each of the eight
      notifications of the user interface and the five of the views, on their own listener; the
      callbacks of every other notification stay as they were. */
  lemma OnEventIsHeard(h: Hub, handler: nat, code: Notification)
    ensures var r := Step(h, OnEvent(handler)).0;
            && Handlers(r.ui.subs, code) == Handlers(h.ui.subs, code) + (if IsUiEvent(code) then [handler] else [])
            && Handlers(r.view.subs, code)
            == Handlers(h.view.subs, code) + (if IsViewEvent(code) then [handler] else [])
  {
    UiHears(h, handler, code);
    ViewHears(h, handler, code);
  }

  lemma UiHears(h: Hub, handler: nat, code: Notification)
    ensures Handlers(Step(h, OnEvent(handler)).0.ui.subs, code)
         == Handlers(h.ui.subs, code) + (if IsUiEvent(code) then [handler] else [])
  {
    assert IsUiEvent(code) <==> code in UI_EVENTS;
    assert NoRepeats(UI_EVENTS);
    HeardOnce(h.ui, UI_EVENTS, handler, code);
  }

  lemma ViewHears(h: Hub, handler: nat, code: Notification)
    ensures Handlers(Step(h, OnEvent(handler)).0.view.subs, code)
         == Handlers(h.view.subs, code) + (if IsViewEvent(code) then [handler] else [])
  {
    assert IsViewEvent(code) <==> code in VIEW_EVENTS;
    assert NoRepeats(VIEW_EVENTS);
    HeardOnce(h.view, VIEW_EVENTS, handler, code);
  }

  lemma {:induction false} HeardOnce(l: Listener, codes: seq<Notification>, handler: nat, code: Notification)
    requires NoRepeats(codes)
    ensures Handlers(SubscribedAll(l, codes, handler).subs, code)
         == Handlers(l.subs, code) + (if code in codes then [handler] else [])
    decreases |codes|
  {
    if codes != [] {
      HandlersAppend(l.subs, Subscription(l.next + 1, codes[0], handler), code);
      HeardOnce(Subscribed(l, codes[0], handler), codes[1..], handler, code);
      assert codes == [codes[0]] + codes[1..];
      assert codes[0] !in codes[1..];
    }
  }

  /** A plain subscription adds its handler to the callbacks of its notification only. */
  lemma SubscriptionIsHeard(h: Hub, op: Op, code: Notification)
    requires op.SubscribeUi? || op.SubscribeView?
    ensures var r := Step(h, op).0;
            && Handlers(r.ui.subs, code)
            == Handlers(h.ui.subs, code) + (if op.SubscribeUi? && op.uiCode == code then [op.uiHandler] else [])
            && Handlers(r.view.subs, code)
            == Handlers(h.view.subs, code) + (if op.SubscribeView? && op.viewCode == code then [op.viewHandler] else [])
  {
    match op
    case SubscribeUi(own, handler) => HandlersAppend(h.ui.subs, Subscription(h.ui.next + 1, own, handler), code);
    case SubscribeView(own, handler) => HandlersAppend(h.view.subs, Subscription(h.view.next + 1, own, handler), code);
  }

  /** A callback all of whose subscriptions are removed is not reached any more. */
  lemma {:induction false} HandlersOfKept(subs: seq<Subscription>, gone: set<nat>, code: Notification, handler: nat)
    requires forall s :: s in subs && s.handler == handler ==> s.token in gone
    ensures handler !in Handlers(Keep(subs, gone), code)
  {
    if subs != [] {
      assert subs == [subs[0]] + subs[1..];
      HandlersOfKept(subs[1..], gone, code, handler);
    }
  }

  /** A callback none of whose subscriptions is removed is reached as often as before. */
  lemma {:induction false} HandlersOfOthers(subs: seq<Subscription>, gone: set<nat>, code: Notification, handler: nat)
    requires forall s :: s in subs && s.handler == handler ==> s.token !in gone
    ensures multiset(Handlers(Keep(subs, gone), code))[handler] == multiset(Handlers(subs, code))[handler]
  {
    if subs != [] {
      assert subs == [subs[0]] + subs[1..];
      HandlersOfOthers(subs[1..], gone, code, handler);
    }
  }

  class EventListener {
    var subs: seq<Subscription>
    var nextToken: nat
    var hooked: bool

    constructor ()
      ensures View() == IDLE
    {
      subs, nextToken, hooked := [], 0, false;
    }

    ghost function View(): Listener
      reads this
    {
      Listener(subs, nextToken, hooked)
    }

    method Subscribe(code: Notification, handler: nat) returns (token: nat)
      modifies this
      ensures View() == Subscribed(old(View()), code, handler)
      ensures token == old(nextToken) + 1
    {
      hooked := true;
      nextToken := nextToken + 1;
      token := nextToken;
      subs := subs + [Subscription(token, code, handler)];
    }

    /** One subscription per notification, with consecutive tokens. */
    method SubscribeAll(codes: seq<Notification>, handler: nat) returns (tokens: seq<nat>)
      modifies this
      ensures View() == SubscribedAll(old(View()), codes, handler)
      ensures |tokens| == |codes| && forall i :: 0 <= i < |codes| ==> tokens[i] == old(nextToken) + 1 + i
    {
      tokens := [];
      for k := 0 to |codes|
        invariant SubscribedAll(old(View()), codes, handler) == SubscribedAll(View(), codes[k..], handler)
        invariant nextToken == old(nextToken) + k
        invariant |tokens| == k && forall i :: 0 <= i < k ==> tokens[i] == old(nextToken) + 1 + i
      {
        assert codes[k..][1..] == codes[k + 1..];
        var token := Subscribe(codes[k], handler);
        tokens := tokens + [token];
      }
    }

    method Unsubscribe(token: nat) returns (found: bool)
      modifies this
      ensures View() == Unsubscribed(old(View()), token)
      ensures found <==> HasToken(old(View()), token)
    {
      for i := 0 to |subs|
        invariant View() == old(View())
        invariant forall k :: 0 <= k < i ==> subs[k].token != token
      {
        if subs[i].token == token {
          RemoveTokenAt(subs, token, i);
          subs := subs[..i] + subs[i + 1..];
          if subs == [] {
            hooked := false;
          }
          return true;
        }
      }
      found := false;
    }

    /** The handlers copied under the lock before any is called. */
    method Matching(code: Notification) returns (matched: seq<nat>)
      ensures matched == Handlers(subs, code)
    {
      matched := [];
      for i := 0 to |subs|
        invariant matched == Handlers(subs[..i], code)
      {
        assert subs[..i + 1] == subs[..i] + [subs[i]];
        HandlersAppend(subs[..i], subs[i], code);
        if subs[i].code == code {
          matched := matched + [subs[i].handler];
        }
      }
      assert subs[..|subs|] == subs;
    }
  }

  /** A bundle's tokens as a list, from those the listeners returned. */
  function Bundled(uiTokens: seq<nat>, viewTokens: seq<nat>): seq<nat> {
    uiTokens + seq(|viewTokens|, i requires 0 <= i < |viewTokens| => viewTokens[i] + VIEW_TOKEN_BASE)
  }

  lemma BundleIsInner(h: Hub, uiTokens: seq<nat>, viewTokens: seq<nat>)
    requires |uiTokens| == |UI_EVENTS| && forall i :: 0 <= i < |uiTokens| ==> uiTokens[i] == h.ui.next + 1 + i
    requires |viewTokens| == |VIEW_EVENTS| && forall i :: 0 <= i < |viewTokens| ==> viewTokens[i] == h.view.next + 1 + i
    ensures Bundled(uiTokens, viewTokens) == InnerTokens(h)
  {
  }

  class EventSubscriptions {
    const ui: EventListener
    const view: EventListener
    var routes: map<nat, seq<nat>>
    var nextGeneric: nat

    constructor ()
      ensures fresh(ui) && fresh(view) && ui != view && View() == NO_EVENTS
    {
      ui := new EventListener();
      view := new EventListener();
      routes, nextGeneric := map[], 0;
    }

    ghost function View(): Hub
      reads this, ui, view
    {
      Hub(ui.View(), view.View(), routes, nextGeneric)
    }

    method OnUiNotification(code: Notification, handler: nat) returns (token: nat)
      requires ui != view
      modifies ui
      ensures (View(), Granted(token)) == Step(old(View()), SubscribeUi(code, handler))
    {
      token := ui.Subscribe(code, handler);
    }

    method OnViewNotification(code: Notification, handler: nat) returns (token: nat)
      requires ui != view
      modifies view
      ensures (View(), Granted(token)) == Step(old(View()), SubscribeView(code, handler))
    {
      token := view.Subscribe(code, handler);
      token := token + VIEW_TOKEN_BASE;
    }

    /** An empty callback is refused. */
    method OnAnyEvent(callback: Option<nat>) returns (r: Option<nat>)
      requires ui != view
      modifies this, ui, view
      ensures callback.None? ==> r.None? && View() == old(View())
      ensures callback.Some? ==>
                r.Some? && (View(), Granted(r.value)) == Step(old(View()), OnEvent(callback.value))
    {
      if callback.None? { return None; }
      var inner := SubscribeInner(callback.value);
      nextGeneric := nextGeneric + 1;
      var outer := GENERIC_TOKEN_BASE + nextGeneric;
      routes := routes[outer := inner];
      r := Some(outer);
    }

    /** The thirteen inner subscriptions. */
    method SubscribeInner(handler: nat) returns (inner: seq<nat>)
      requires ui != view
      modifies ui, view
      ensures ui.View() == SubscribedAll(old(ui.View()), UI_EVENTS, handler)
      ensures view.View() == SubscribedAll(old(view.View()), VIEW_EVENTS, handler)
      ensures inner == InnerTokens(old(View()))
    {
      var uiTokens := ui.SubscribeAll(UI_EVENTS, handler);
      var viewTokens := view.SubscribeAll(VIEW_EVENTS, handler);
      inner := BundleTokens(uiTokens, viewTokens);
      BundleIsInner(old(View()), uiTokens, viewTokens);
    }

    /** The listeners' tokens in the form callers see. */
    method BundleTokens(uiTokens: seq<nat>, viewTokens: seq<nat>) returns (inner: seq<nat>)
      ensures inner == Bundled(uiTokens, viewTokens)
    {
      inner := uiTokens;
      var i := 0;
      while i < |viewTokens|
        invariant 0 <= i <= |viewTokens|
        invariant inner == uiTokens + seq(i, k requires 0 <= k < i => viewTokens[k] + VIEW_TOKEN_BASE)
      {
        inner := inner + [viewTokens[i] + VIEW_TOKEN_BASE];
        i := i + 1;
      }
    }

    method UnsubscribeSingle(token: nat) returns (found: bool)
      requires ui != view
      modifies ui, view
      ensures View() == RemoveSingle(old(View()), token)
      ensures found <==> IsLive(old(View()), token)
    {
      if VIEW_TOKEN_BASE <= token && token < GENERIC_TOKEN_BASE {
        found := view.Unsubscribe(token - VIEW_TOKEN_BASE);
      } else {
        found := ui.Unsubscribe(token);
      }
    }

    method UnsubscribeToken(token: nat) returns (answer: Answer)
      requires ui != view
      modifies this, ui, view
      ensures (View(), answer) == Step(old(View()), Op.Unsubscribe(token))
    {
      if token == 0 { return InvalidToken; }
      if token >= GENERIC_TOKEN_BASE {
        if token !in routes { return NotFound; }
        var inner := routes[token];
        routes := routes - {token};
        ghost var start := View();
        for i := 0 to |inner|
          invariant RemoveEach(start, inner) == RemoveEach(View(), inner[i..])
          invariant routes == start.routes && nextGeneric == start.nextGeneric
        {
          assert inner[i..][1..] == inner[i + 1..];
          var found := UnsubscribeSingle(inner[i]);
        }
        return Done;
      }
      var removed := UnsubscribeSingle(token);
      if !removed {
        return NotFound;
      }
      answer := Done;
    }
  }
}
