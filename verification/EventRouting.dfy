/** UI and view event subscriptions: two listeners with their own token counters, and generic
    tokens that stand for a bundle of inner ones.  Token ranges decide the routing. */
module EventRouting {
  const VIEW_TOKEN_BASE: nat := 0x4000_0000_0000_0000
  const GENERIC_TOKEN_BASE: nat := 0x8000_0000_0000_0000

  datatype Notification =
    | DatabaseInited | DatabaseClosed | ReadyToRun | ScreenAddressChanged | CurrentWidgetChanged
    | WidgetVisible | WidgetInvisible | WidgetClosing
    | CursorChanged | ViewActivated | ViewDeactivated | ViewCreated | ViewClosed
    | OtherNotification(code: int)

  const UI_EVENTS := [DatabaseInited, DatabaseClosed, ReadyToRun, ScreenAddressChanged, CurrentWidgetChanged,
                      WidgetVisible, WidgetInvisible, WidgetClosing]
  const VIEW_EVENTS := [CursorChanged, ViewActivated, ViewDeactivated, ViewCreated, ViewClosed]

  /** `handler` stands for the caller's callback. */
  datatype Subscription = Subscription(token: nat, code: Notification, handler: nat)

  datatype Listener = Listener(subs: seq<Subscription>, next: nat, hooked: bool)

  datatype Hub = Hub(ui: Listener, view: Listener, routes: map<nat, seq<nat>>, nextGeneric: nat)

  const IDLE := Listener([], 0, false)
  const NO_EVENTS := Hub(IDLE, IDLE, map[], 0)

  // ----- one listener -----

  function Subscribed(l: Listener, code: Notification, handler: nat): Listener {
    Listener(l.subs + [Subscription(l.next + 1, code, handler)], l.next + 1, true)
  }

  function SubscribedAll(l: Listener, codes: seq<Notification>, handler: nat): Listener
    decreases |codes|
  {
    if codes == [] then l else SubscribedAll(Subscribed(l, codes[0], handler), codes[1..], handler)
  }

  predicate HasToken(l: Listener, token: nat) {
    exists i :: 0 <= i < |l.subs| && l.subs[i].token == token
  }

  function RemoveToken(subs: seq<Subscription>, token: nat): seq<Subscription> {
    if subs == [] then []
    else if subs[0].token == token then subs[1..]
    else [subs[0]] + RemoveToken(subs[1..], token)
  }

  function Unsubscribed(l: Listener, token: nat): Listener {
    if !HasToken(l, token) then l
    else
      var subs := RemoveToken(l.subs, token);
      Listener(subs, l.next, if subs == [] then false else l.hooked)
  }

  /** The subscriptions left when a set of tokens goes. */
  function Keep(subs: seq<Subscription>, gone: set<nat>): seq<Subscription> {
    if subs == [] then []
    else if subs[0].token in gone then Keep(subs[1..], gone)
    else [subs[0]] + Keep(subs[1..], gone)
  }

  /** Tokens increase, none has been handed out beyond the counter, and the listener is hooked
      exactly when it has subscriptions. */
  ghost predicate ListenerOk(l: Listener) {
    && (forall i, j :: 0 <= i < j < |l.subs| ==> l.subs[i].token < l.subs[j].token)
    && (forall i :: 0 <= i < |l.subs| ==> 0 < l.subs[i].token <= l.next)
    && (l.hooked <==> l.subs != [])
  }

  lemma {:induction false} KeepNothingGone(subs: seq<Subscription>, gone: set<nat>)
    requires forall i :: 0 <= i < |subs| ==> subs[i].token !in gone
    ensures Keep(subs, gone) == subs
  {
    if subs != [] {
      KeepNothingGone(subs[1..], gone);
    }
  }

  lemma {:induction false} RemoveIsKeep(subs: seq<Subscription>, token: nat)
    requires forall i, j :: 0 <= i < j < |subs| ==> subs[i].token < subs[j].token
    ensures RemoveToken(subs, token) == Keep(subs, {token})
  {
    if subs != [] {
      if subs[0].token == token {
        KeepNothingGone(subs[1..], {token});
      } else {
        RemoveIsKeep(subs[1..], token);
      }
    }
  }

  lemma {:induction false} KeepSublist(subs: seq<Subscription>, gone: set<nat>)
    ensures forall s :: s in Keep(subs, gone) <==> s in subs && s.token !in gone
    ensures (forall i, j :: 0 <= i < j < |subs| ==> subs[i].token < subs[j].token) ==>
              forall i, j :: 0 <= i < j < |Keep(subs, gone)| ==> Keep(subs, gone)[i].token < Keep(subs, gone)[j].token
  {
    if subs != [] {
      var rest := Keep(subs[1..], gone);
      KeepSublist(subs[1..], gone);
      assert subs == [subs[0]] + subs[1..];
      if (forall i, j :: 0 <= i < j < |subs| ==> subs[i].token < subs[j].token) && subs[0].token !in gone {
        forall j | 0 <= j < |rest|
          ensures subs[0].token < rest[j].token
        {
          assert rest[j] in subs[1..];
        }
      }
    }
  }

  lemma {:induction false} KeepTwice(subs: seq<Subscription>, a: set<nat>, b: set<nat>)
    ensures Keep(Keep(subs, a), b) == Keep(subs, a + b)
  {
    if subs != [] {
      KeepTwice(subs[1..], a, b);
    }
  }

  lemma UnsubscribedIs(l: Listener, token: nat)
    requires ListenerOk(l)
    ensures Unsubscribed(l, token) == Listener(Keep(l.subs, {token}), l.next, Keep(l.subs, {token}) != [])
  {
    RemoveIsKeep(l.subs, token);
    if !HasToken(l, token) {
      KeepNothingGone(l.subs, {token});
    }
  }

  lemma KeptTokens(l: Listener, token: nat, t: nat)
    requires ListenerOk(l)
    ensures HasToken(Unsubscribed(l, token), t) <==> HasToken(l, t) && t != token
  {
    UnsubscribedIs(l, token);
    KeepSublist(l.subs, {token});
    var kept := Keep(l.subs, {token});
    if i :| 0 <= i < |l.subs| && l.subs[i].token == t && t != token {
      assert l.subs[i] in kept;
    }
    if i :| 0 <= i < |kept| && kept[i].token == t {
      assert kept[i] in kept;
    }
  }

  /** Unsubscribing removes exactly the token, and unhooks when nothing is left. */
  lemma UnsubscribedKeeps(l: Listener, token: nat)
    requires ListenerOk(l)
    ensures Unsubscribed(l, token) == Listener(Keep(l.subs, {token}), l.next, Keep(l.subs, {token}) != [])
    ensures ListenerOk(Unsubscribed(l, token))
    ensures forall t :: HasToken(Unsubscribed(l, token), t) <==> HasToken(l, t) && t != token
  {
    UnsubscribedIs(l, token);
    KeepSublist(l.subs, {token});
    var kept := Keep(l.subs, {token});
    forall i | 0 <= i < |kept|
      ensures 0 < kept[i].token <= l.next
    {
      assert kept[i] in kept;
    }
    forall t: nat
      ensures HasToken(Unsubscribed(l, token), t) <==> HasToken(l, t) && t != token
    {
      KeptTokens(l, token, t);
    }
  }

  function NewSubscriptions(next: nat, codes: seq<Notification>, handler: nat): seq<Subscription> {
    seq(|codes|, i requires 0 <= i < |codes| => Subscription(next + 1 + i, codes[i], handler))
  }

  lemma {:induction false} SubscribedAllAppends(l: Listener, codes: seq<Notification>, handler: nat)
    ensures SubscribedAll(l, codes, handler).next == l.next + |codes|
    ensures SubscribedAll(l, codes, handler).subs == l.subs + NewSubscriptions(l.next, codes, handler)
    decreases |codes|
  {
    if codes != [] {
      var next := Subscribed(l, codes[0], handler);
      SubscribedAllAppends(next, codes[1..], handler);
      var all, rest := NewSubscriptions(l.next, codes, handler), NewSubscriptions(next.next, codes[1..], handler);
      assert all == [Subscription(l.next + 1, codes[0], handler)] + rest;
      assert next.subs + rest == l.subs + all;
    }
  }

  lemma SubscribedKeepsOk(l: Listener, code: Notification, handler: nat)
    requires ListenerOk(l)
    ensures ListenerOk(Subscribed(l, code, handler))
  {
  }

  lemma {:induction false} SubscribedAllKeepsOk(l: Listener, codes: seq<Notification>, handler: nat)
    requires ListenerOk(l)
    ensures ListenerOk(SubscribedAll(l, codes, handler))
    decreases |codes|
  {
    if codes != [] {
      SubscribedKeepsOk(l, codes[0], handler);
      SubscribedAllKeepsOk(Subscribed(l, codes[0], handler), codes[1..], handler);
    }
  }

  // ----- the hub -----

  datatype Op =
    | SubscribeUi(uiCode: Notification, uiHandler: nat)
    | SubscribeView(viewCode: Notification, viewHandler: nat)
    | OnEvent(eventHandler: nat)
    | Unsubscribe(token: nat)

  datatype Answer = Granted(granted: nat) | Done | NotFound | InvalidToken

  /** The inner tokens of the next `on_event`: eight of the UI listener, five of the view one. */
  function InnerTokens(h: Hub): seq<nat> {
    seq(|UI_EVENTS|, i => h.ui.next + 1 + i) + seq(|VIEW_EVENTS|, i => h.view.next + 1 + i + VIEW_TOKEN_BASE)
  }

  predicate IsViewToken(token: nat) {
    VIEW_TOKEN_BASE <= token < GENERIC_TOKEN_BASE
  }

  function RemoveSingle(h: Hub, token: nat): Hub {
    if IsViewToken(token) then h.(view := Unsubscribed(h.view, token - VIEW_TOKEN_BASE))
    else h.(ui := Unsubscribed(h.ui, token))
  }

  predicate IsLive(h: Hub, token: nat) {
    if IsViewToken(token) then HasToken(h.view, token - VIEW_TOKEN_BASE) else HasToken(h.ui, token)
  }

  function RemoveEach(h: Hub, tokens: seq<nat>): Hub
    decreases |tokens|
  {
    if tokens == [] then h else RemoveEach(RemoveSingle(h, tokens[0]), tokens[1..])
  }

  function Step(h: Hub, op: Op): (Hub, Answer) {
    match op
    case SubscribeUi(code, handler) => (h.(ui := Subscribed(h.ui, code, handler)), Granted(h.ui.next + 1))
    case SubscribeView(code, handler) =>
      (h.(view := Subscribed(h.view, code, handler)), Granted(h.view.next + 1 + VIEW_TOKEN_BASE))
    case OnEvent(handler) =>
      var outer := GENERIC_TOKEN_BASE + h.nextGeneric + 1;
      (Hub(SubscribedAll(h.ui, UI_EVENTS, handler), SubscribedAll(h.view, VIEW_EVENTS, handler),
           h.routes[outer := InnerTokens(h)], h.nextGeneric + 1),
       Granted(outer))
    case Unsubscribe(token) =>
      if token == 0 then (h, InvalidToken)
      else if token >= GENERIC_TOKEN_BASE then
        if token !in h.routes then (h, NotFound)
        else (RemoveEach(h.(routes := h.routes - {token}), h.routes[token]), Done)
      else if IsLive(h, token) then (RemoveSingle(h, token), Done)
      else (h, NotFound)
  }

  function Run(h: Hub, ops: seq<Op>): Hub
    decreases |ops|
  {
    if ops == [] then h else Run(Step(h, ops[0]).0, ops[1..])
  }

  /** The counters have not reached the next token range. */
  predicate Small(h: Hub) {
    h.ui.next < VIEW_TOKEN_BASE && h.view.next < VIEW_TOKEN_BASE && h.nextGeneric < VIEW_TOKEN_BASE
  }

  /** A token that a listener has handed out, in the form callers see. */
  predicate Issued(h: Hub, token: nat) {
    0 < token <= h.ui.next || VIEW_TOKEN_BASE < token <= VIEW_TOKEN_BASE + h.view.next
  }

  /** Bundles were granted, list tokens that were issued, and share none of them. */
  ghost predicate RoutesOk(h: Hub) {
    && (forall g :: g in h.routes ==> GENERIC_TOKEN_BASE < g <= GENERIC_TOKEN_BASE + h.nextGeneric)
    && (forall g :: g in h.routes ==> forall t :: t in h.routes[g] ==> Issued(h, t))
    && (forall g1, g2 :: g1 in h.routes && g2 in h.routes && g1 != g2 ==>
          forall t :: t in h.routes[g1] ==> t !in h.routes[g2])
  }

  ghost predicate HubOk(h: Hub) {
    Small(h) && ListenerOk(h.ui) && ListenerOk(h.view) && RoutesOk(h)
  }

  function TokenSet(tokens: seq<nat>): set<nat> {
    set t | t in tokens
  }

  /** The tokens that go when `token` is unsubscribed. */
  function Owned(h: Hub, token: nat): set<nat> {
    if token < GENERIC_TOKEN_BASE then {token}
    else if token in h.routes then TokenSet(h.routes[token])
    else {}
  }

  function UiPart(tokens: set<nat>): set<nat> {
    set t | t in tokens && !IsViewToken(t)
  }

  function ViewPart(tokens: set<nat>): set<nat> {
    set t | t in tokens && IsViewToken(t) :: t - VIEW_TOKEN_BASE
  }

  /** From `h` to `r` exactly the subscriptions with a token in `gone` went. */
  ghost predicate RemovedExactly(h: Hub, r: Hub, gone: set<nat>) {
    && ListenerOk(r.ui) && r.ui.subs == Keep(h.ui.subs, UiPart(gone)) && r.ui.next == h.ui.next
    && ListenerOk(r.view) && r.view.subs == Keep(h.view.subs, ViewPart(gone)) && r.view.next == h.view.next
    && r.nextGeneric == h.nextGeneric
  }

  lemma RemovedTwice(h: Hub, m: Hub, r: Hub, a: set<nat>, b: set<nat>)
    requires RemovedExactly(h, m, a) && RemovedExactly(m, r, b)
    ensures RemovedExactly(h, r, a + b)
  {
    KeepTwice(h.ui.subs, UiPart(a), UiPart(b));
    KeepTwice(h.view.subs, ViewPart(a), ViewPart(b));
    assert UiPart(a + b) == UiPart(a) + UiPart(b);
    assert ViewPart(a + b) == ViewPart(a) + ViewPart(b);
  }

  lemma NothingRemoved(h: Hub, gone: set<nat>)
    requires ListenerOk(h.ui) && ListenerOk(h.view)
    requires forall i :: 0 <= i < |h.ui.subs| ==> h.ui.subs[i].token !in UiPart(gone)
    requires forall i :: 0 <= i < |h.view.subs| ==> h.view.subs[i].token !in ViewPart(gone)
    ensures RemovedExactly(h, h, gone)
  {
    KeepNothingGone(h.ui.subs, UiPart(gone));
    KeepNothingGone(h.view.subs, ViewPart(gone));
  }

  lemma SingleRemoved(h: Hub, token: nat)
    requires ListenerOk(h.ui) && ListenerOk(h.view)
    ensures RemovedExactly(h, RemoveSingle(h, token), {token})
  {
    if IsViewToken(token) {
      ViewRemoved(h, token);
    } else {
      UiRemoved(h, token);
    }
  }

  lemma ViewRemoved(h: Hub, token: nat)
    requires ListenerOk(h.ui) && ListenerOk(h.view) && IsViewToken(token)
    ensures RemovedExactly(h, h.(view := Unsubscribed(h.view, token - VIEW_TOKEN_BASE)), {token})
  {
    UnsubscribedKeeps(h.view, token - VIEW_TOKEN_BASE);
    assert UiPart({token}) == {};
    assert ViewPart({token}) == {token - VIEW_TOKEN_BASE};
    KeepNothingGone(h.ui.subs, {});
  }

  lemma UiRemoved(h: Hub, token: nat)
    requires ListenerOk(h.ui) && ListenerOk(h.view) && !IsViewToken(token)
    ensures RemovedExactly(h, h.(ui := Unsubscribed(h.ui, token)), {token})
  {
    UnsubscribedKeeps(h.ui, token);
    assert UiPart({token}) == {token};
    assert ViewPart({token}) == {};
    KeepNothingGone(h.view.subs, {});
  }

  lemma HeadAndTail(tokens: seq<nat>)
    requires tokens != []
    ensures TokenSet(tokens) == {tokens[0]} + TokenSet(tokens[1..])
  {
  }

  lemma {:induction false} EachRemoved(h: Hub, tokens: seq<nat>)
    requires ListenerOk(h.ui) && ListenerOk(h.view)
    ensures RemovedExactly(h, RemoveEach(h, tokens), TokenSet(tokens))
    ensures RemoveEach(h, tokens).routes == h.routes
    decreases |tokens|
  {
    if tokens == [] {
      NothingRemoved(h, TokenSet(tokens));
    } else {
      var next := RemoveSingle(h, tokens[0]);
      SingleRemoved(h, tokens[0]);
      EachRemoved(next, tokens[1..]);
      RemovedTwice(h, next, RemoveEach(next, tokens[1..]), {tokens[0]}, TokenSet(tokens[1..]));
      HeadAndTail(tokens);
    }
  }

  /** Unsubscribing removes exactly the subscriptions that the token owns, keeps all others in
      order, and forgets the token's route. */
  lemma UnsubscribeIsExact(h: Hub, token: nat)
    requires HubOk(h)
    ensures RemovedExactly(h, Step(h, Unsubscribe(token)).0, Owned(h, token))
    ensures Step(h, Unsubscribe(token)).0.routes == h.routes - {token}
  {
    if token >= GENERIC_TOKEN_BASE {
      if token in h.routes {
        EachRemoved(h.(routes := h.routes - {token}), h.routes[token]);
      } else {
        NothingRemoved(h, {});
      }
    } else {
      assert h.routes - {token} == h.routes;
      if token != 0 && IsLive(h, token) {
        SingleRemoved(h, token);
      } else {
        NothingRemoved(h, {token});
      }
    }
  }

  lemma StepGrows(h: Hub, op: Op)
    ensures h.ui.next <= Step(h, op).0.ui.next && h.view.next <= Step(h, op).0.view.next
    ensures h.nextGeneric <= Step(h, op).0.nextGeneric
  {
    match op
    case OnEvent(handler) =>
      SubscribedAllAppends(h.ui, UI_EVENTS, handler);
      SubscribedAllAppends(h.view, VIEW_EVENTS, handler);
    case Unsubscribe(token) =>
      if token in h.routes {
        RemoveEachCounters(h.(routes := h.routes - {token}), h.routes[token]);
      }
    case _ =>
  }

  lemma FewerRoutesOk(h: Hub, r: Hub)
    requires RoutesOk(h) && h.ui.next <= r.ui.next && h.view.next <= r.view.next && h.nextGeneric <= r.nextGeneric
    requires forall g :: g in r.routes ==> g in h.routes && r.routes[g] == h.routes[g]
    ensures RoutesOk(r)
  {
  }

  lemma AddedRouteOk(h: Hub, r: Hub, g: nat, inner: seq<nat>)
    requires RoutesOk(h) && h.ui.next <= r.ui.next && h.view.next <= r.view.next
    requires g == GENERIC_TOKEN_BASE + h.nextGeneric + 1 && r.nextGeneric == h.nextGeneric + 1
    requires r.routes == h.routes[g := inner]
    requires forall t :: t in inner ==> Issued(r, t) && !Issued(h, t)
    ensures RoutesOk(r)
  {
  }

  lemma OnEventKeepsRoutes(h: Hub, handler: nat)
    requires RoutesOk(h) && Small(h) && Small(Step(h, OnEvent(handler)).0)
    ensures RoutesOk(Step(h, OnEvent(handler)).0)
  {
    var r := Step(h, OnEvent(handler)).0;
    SubscribedAllAppends(h.ui, UI_EVENTS, handler);
    SubscribedAllAppends(h.view, VIEW_EVENTS, handler);
    assert r.ui.next == h.ui.next + 8 && r.view.next == h.view.next + 5;
    InnerTokensAreNew(h);
    assert forall t :: t in InnerTokens(h) ==> Issued(r, t) && !Issued(h, t);
    AddedRouteOk(h, r, GENERIC_TOKEN_BASE + h.nextGeneric + 1, InnerTokens(h));
  }

  lemma OnEventKeepsHub(h: Hub, handler: nat)
    requires HubOk(h) && Small(Step(h, OnEvent(handler)).0)
    ensures HubOk(Step(h, OnEvent(handler)).0)
  {
    SubscribedAllKeepsOk(h.ui, UI_EVENTS, handler);
    SubscribedAllKeepsOk(h.view, VIEW_EVENTS, handler);
    OnEventKeepsRoutes(h, handler);
  }

  lemma UnsubscribeKeepsHub(h: Hub, token: nat)
    requires HubOk(h)
    ensures HubOk(Step(h, Unsubscribe(token)).0)
  {
    UnsubscribeIsExact(h, token);
    FewerRoutesOk(h, Step(h, Unsubscribe(token)).0);
  }

  /** Every step keeps the hub in order as long as its counters stay small. */
  lemma StepKeepsHub(h: Hub, op: Op)
    requires HubOk(h) && Small(Step(h, op).0)
    ensures HubOk(Step(h, op).0)
  {
    match op
    case SubscribeUi(code, handler) =>
      SubscribedKeepsOk(h.ui, code, handler);
      FewerRoutesOk(h, Step(h, op).0);
    case SubscribeView(code, handler) =>
      SubscribedKeepsOk(h.view, code, handler);
      FewerRoutesOk(h, Step(h, op).0);
    case OnEvent(handler) => OnEventKeepsHub(h, handler);
    case Unsubscribe(token) => UnsubscribeKeepsHub(h, token);
  }

  lemma InnerTokensAreNew(h: Hub)
    requires Small(h)
    ensures |InnerTokens(h)| == 13
    ensures forall t :: t in InnerTokens(h) ==>
              || h.ui.next < t <= h.ui.next + 8
              || VIEW_TOKEN_BASE + h.view.next < t <= VIEW_TOKEN_BASE + h.view.next + 5
  {
  }

  lemma {:induction false} CountersGrow(h: Hub, ops: seq<Op>)
    requires HubOk(h)
    ensures h.ui.next <= Run(h, ops).ui.next && h.view.next <= Run(h, ops).view.next
    ensures h.nextGeneric <= Run(h, ops).nextGeneric
    ensures Small(Run(h, ops)) ==> HubOk(Run(h, ops))
    decreases |ops|
  {
    if ops != [] {
      StepGrows(h, ops[0]);
      if Small(Step(h, ops[0]).0) {
        StepKeepsHub(h, ops[0]);
        CountersGrow(Step(h, ops[0]).0, ops[1..]);
      } else {
        RunOnlyGrows(Step(h, ops[0]).0, ops[1..]);
      }
    }
  }

  lemma {:induction false} RemoveEachCounters(h: Hub, tokens: seq<nat>)
    ensures RemoveEach(h, tokens).ui.next == h.ui.next && RemoveEach(h, tokens).view.next == h.view.next
    ensures RemoveEach(h, tokens).nextGeneric == h.nextGeneric
    decreases |tokens|
  {
    if tokens != [] {
      RemoveEachCounters(RemoveSingle(h, tokens[0]), tokens[1..]);
    }
  }

  lemma {:induction false} RunOnlyGrows(h: Hub, ops: seq<Op>)
    ensures h.ui.next <= Run(h, ops).ui.next && h.view.next <= Run(h, ops).view.next
    ensures h.nextGeneric <= Run(h, ops).nextGeneric
    decreases |ops|
  {
    if ops != [] {
      StepGrows(h, ops[0]);
      RunOnlyGrows(Step(h, ops[0]).0, ops[1..]);
    }
  }

  /** Every run from the start whose counters stay small ends in an orderly hub. */
  lemma RunsAreOrderly(ops: seq<Op>)
    requires Small(Run(NO_EVENTS, ops))
    ensures HubOk(Run(NO_EVENTS, ops))
  {
    CountersGrow(NO_EVENTS, ops);
  }

  // ----- tokens over a run -----

  /** Tokens that have been granted at some time: by a listener or as a bundle. */
  predicate WasGranted(h: Hub, token: nat) {
    Issued(h, token) || GENERIC_TOKEN_BASE < token <= GENERIC_TOKEN_BASE + h.nextGeneric
  }

  /** A granted token was not granted before, and lies in the range of its kind: below 2^62, below
      2^63, or from 2^63 on. */
  lemma GrantedTokensAreNew(h: Hub, op: Op)
    requires HubOk(h) && Small(Step(h, op).0) && Step(h, op).1.Granted?
    ensures var t := Step(h, op).1.granted;
            && !WasGranted(h, t) && WasGranted(Step(h, op).0, t)
            && (op.SubscribeUi? ==> 0 < t < 0x4000_0000_0000_0000)
            && (op.SubscribeView? ==> 0x4000_0000_0000_0000 < t < 0x8000_0000_0000_0000)
            && (op.OnEvent? ==> 0x8000_0000_0000_0000 < t)
  {
  }

  /** The first tokens of each kind. */
  lemma FirstTokens(code: Notification, handler: nat)
    ensures Step(NO_EVENTS, SubscribeUi(code, handler)).1 == Granted(1)
    ensures Step(NO_EVENTS, SubscribeView(code, handler)).1 == Granted(0x4000_0000_0000_0001)
    ensures Step(NO_EVENTS, OnEvent(handler)).1 == Granted(0x8000_0000_0000_0001)
    ensures HubOk(NO_EVENTS) && NO_EVENTS.ui.subs == NO_EVENTS.view.subs == [] && NO_EVENTS.routes == map[]
  {
  }

  // ----- unsubscribing undoes subscribing -----

  lemma {:induction false} KeepConcat(xs: seq<Subscription>, ys: seq<Subscription>, gone: set<nat>)
    ensures Keep(xs + ys, gone) == Keep(xs, gone) + Keep(ys, gone)
  {
    if xs == [] {
      assert xs + ys == ys;
    } else {
      assert (xs + ys)[1..] == xs[1..] + ys;
      KeepConcat(xs[1..], ys, gone);
    }
  }

  lemma {:induction false} KeepAllGone(subs: seq<Subscription>, gone: set<nat>)
    requires forall i :: 0 <= i < |subs| ==> subs[i].token in gone
    ensures Keep(subs, gone) == []
  {
    if subs != [] {
      KeepAllGone(subs[1..], gone);
    }
  }

  /** Removing what was appended gives back the earlier subscriptions. */
  lemma KeepAppended(l: Listener, added: seq<Subscription>, gone: set<nat>)
    requires ListenerOk(l)
    requires forall t :: t in gone ==> t > l.next
    requires forall i :: 0 <= i < |added| ==> added[i].token in gone
    ensures Keep(l.subs + added, gone) == l.subs
  {
    KeepConcat(l.subs, added, gone);
    KeepNothingGone(l.subs, gone);
    KeepAllGone(added, gone);
  }

  /** Unsubscribing a new generic token gives both listeners back their subscriptions, and the routes. */
  lemma UnsubscribeUndoesOnEvent(h: Hub, handler: nat)
    requires HubOk(h) && Small(Step(h, OnEvent(handler)).0)
    ensures var (r, answer) := Step(h, OnEvent(handler));
            && answer.Granted?
            && var u := Step(r, Unsubscribe(answer.granted)).0;
               u.ui.subs == h.ui.subs && u.view.subs == h.view.subs && u.routes == h.routes
  {
    var (r, answer) := Step(h, OnEvent(handler));
    OnEventKeepsHub(h, handler);
    OnEventGives(h, handler);
    UnsubscribeIsExact(r, answer.granted);
    assert r.ui.next == h.ui.next + 8 && r.view.next == h.view.next + 5 by {
      SubscribedAllAppends(h.ui, UI_EVENTS, handler);
      SubscribedAllAppends(h.view, VIEW_EVENTS, handler);
    }
    UiRestored(h, handler);
    ViewRestored(h, handler);
  }

  lemma OnEventGives(h: Hub, handler: nat)
    requires HubOk(h)
    ensures var (r, answer) := Step(h, OnEvent(handler));
            && r.ui == SubscribedAll(h.ui, UI_EVENTS, handler) && r.view == SubscribedAll(h.view, VIEW_EVENTS, handler)
            && answer.Granted? && Owned(r, answer.granted) == TokenSet(InnerTokens(h))
            && r.routes - {answer.granted} == h.routes
  {
  }

  lemma UiRestored(h: Hub, handler: nat)
    requires HubOk(h) && h.ui.next + 8 < VIEW_TOKEN_BASE
    ensures Keep(SubscribedAll(h.ui, UI_EVENTS, handler).subs, UiPart(TokenSet(InnerTokens(h)))) == h.ui.subs
  {
    var gone, added := UiPart(TokenSet(InnerTokens(h))), NewSubscriptions(h.ui.next, UI_EVENTS, handler);
    SubscribedAllAppends(h.ui, UI_EVENTS, handler);
    InnerTokensAreNew(h);
    forall i | 0 <= i < |added|
      ensures added[i].token in gone
    {
      assert InnerTokens(h)[i] == added[i].token;
    }
    KeepAppended(h.ui, added, gone);
  }

  lemma ViewRestored(h: Hub, handler: nat)
    requires HubOk(h) && h.ui.next + 8 < VIEW_TOKEN_BASE && h.view.next + 5 < VIEW_TOKEN_BASE
    ensures Keep(SubscribedAll(h.view, VIEW_EVENTS, handler).subs, ViewPart(TokenSet(InnerTokens(h)))) == h.view.subs
  {
    var gone, added := ViewPart(TokenSet(InnerTokens(h))), NewSubscriptions(h.view.next, VIEW_EVENTS, handler);
    SubscribedAllAppends(h.view, VIEW_EVENTS, handler);
    InnerTokensAreNew(h);
    forall i | 0 <= i < |added|
      ensures added[i].token in gone
    {
      var outer := added[i].token + VIEW_TOKEN_BASE;
      assert InnerTokens(h)[|UI_EVENTS| + i] == outer;
      assert outer in TokenSet(InnerTokens(h)) && IsViewToken(outer);
    }
    KeepAppended(h.view, added, gone);
  }

  /** And so does unsubscribing a new plain token. */
  lemma UnsubscribeUndoesSubscribe(h: Hub, op: Op)
    requires HubOk(h) && Small(Step(h, op).0) && (op.SubscribeUi? || op.SubscribeView?)
    ensures var (r, answer) := Step(h, op);
            && answer.Granted?
            && var u := Step(r, Unsubscribe(answer.granted)).0;
               u.ui.subs == h.ui.subs && u.view.subs == h.view.subs && u.routes == h.routes
  {
    var (r, answer) := Step(h, op);
    StepKeepsHub(h, op);
    UnsubscribeIsExact(r, answer.granted);
    PlainTokenOwnsItself(h, op);
    if op.SubscribeUi? {
      UiSubscriptionUndone(h, r, AfterRemoval(r, answer.granted), op.uiCode, op.uiHandler);
    } else {
      ViewSubscriptionUndone(h, r, AfterRemoval(r, answer.granted), op.viewCode, op.viewHandler);
    }
  }

  lemma PlainTokenOwnsItself(h: Hub, op: Op)
    requires HubOk(h) && Small(Step(h, op).0) && (op.SubscribeUi? || op.SubscribeView?)
    ensures var (r, answer) := Step(h, op);
            answer.Granted? && Owned(r, answer.granted) == {answer.granted} && r.routes - {answer.granted} == h.routes
  {
  }

  lemma UiSubscriptionUndone(h: Hub, r: Hub, u: Hub, code: Notification, handler: nat)
    requires HubOk(h) && h.ui.next + 1 < VIEW_TOKEN_BASE && r.ui == Subscribed(h.ui, code, handler) && r.view == h.view
    requires RemovedExactly(r, u, {h.ui.next + 1})
    ensures u.ui.subs == h.ui.subs && u.view.subs == h.view.subs
  {
    var token := h.ui.next + 1;
    assert UiPart({token}) == {token} && ViewPart({token}) == {};
    KeepAppended(h.ui, [Subscription(token, code, handler)], {token});
    KeepNothingGone(h.view.subs, {});
  }

  lemma ViewSubscriptionUndone(h: Hub, r: Hub, u: Hub, code: Notification, handler: nat)
    requires HubOk(h) && h.view.next + 1 < VIEW_TOKEN_BASE
    requires r.view == Subscribed(h.view, code, handler) && r.ui == h.ui
    requires RemovedExactly(r, u, {h.view.next + 1 + VIEW_TOKEN_BASE})
    ensures u.ui.subs == h.ui.subs && u.view.subs == h.view.subs
  {
    var inner := h.view.next + 1;
    assert UiPart({inner + VIEW_TOKEN_BASE}) == {} && ViewPart({inner + VIEW_TOKEN_BASE}) == {inner};
    KeepAppended(h.view, [Subscription(inner, code, handler)], {inner});
    KeepNothingGone(h.ui.subs, {});
  }

  /** The subscription that `token` stands for is gone: a second unsubscribe finds nothing. */
  predicate Gone(h: Hub, token: nat) {
    WasGranted(h, token) && Step(h, Unsubscribe(token)).1.NotFound?
  }

  /** Subscriptions of `r` were already in `h`. */
  lemma FewerLive(h: Hub, r: Hub, gone: set<nat>, token: nat)
    requires RemovedExactly(h, r, gone)
    ensures IsLive(r, token) <==> IsLive(h, token) && token !in gone
  {
    KeepSublist(h.ui.subs, UiPart(gone));
    KeepSublist(h.view.subs, ViewPart(gone));
    var inner := if IsViewToken(token) then token - VIEW_TOKEN_BASE else token;
    var (before, after) := if IsViewToken(token) then (h.view.subs, r.view.subs) else (h.ui.subs, r.ui.subs);
    var part := if IsViewToken(token) then ViewPart(gone) else UiPart(gone);
    assert inner in part <==> token in gone;
    if i :| 0 <= i < |before| && before[i].token == inner {
      assert before[i] in before;
      assert token !in gone ==> before[i] in after;
    }
    if i :| 0 <= i < |after| && after[i].token == inner {
      assert after[i] in after;
      assert after[i] in before;
    }
  }

  lemma UnsubscribedIsGone(h: Hub, token: nat)
    requires HubOk(h) && WasGranted(h, token)
    ensures Gone(Step(h, Unsubscribe(token)).0, token)
  {
    UnsubscribeIsExact(h, token);
    FewerLive(h, Step(h, Unsubscribe(token)).0, Owned(h, token), token);
  }

  lemma StepKeepsGone(h: Hub, op: Op, token: nat)
    requires HubOk(h) && Small(Step(h, op).0) && Gone(h, token)
    ensures Gone(Step(h, op).0, token)
  {
    match op
    case SubscribeUi(_, _) => AppendedAreNew(h.ui, Step(h, op).0.ui, 1);
    case SubscribeView(_, _) => AppendedAreNew(h.view, Step(h, op).0.view, 1);
    case OnEvent(handler) => OnEventKeepsGone(h, handler, token);
    case Unsubscribe(other) => UnsubscribeKeepsGone(h, other, token);
  }

  lemma UnsubscribeKeepsGone(h: Hub, other: nat, token: nat)
    requires HubOk(h) && Gone(h, token)
    ensures Gone(Step(h, Unsubscribe(other)).0, token)
  {
    UnsubscribeIsExact(h, other);
    FewerLive(h, Step(h, Unsubscribe(other)).0, Owned(h, other), token);
  }

  lemma OnEventKeepsGone(h: Hub, handler: nat, token: nat)
    requires HubOk(h) && Small(Step(h, OnEvent(handler)).0) && Gone(h, token)
    ensures Gone(Step(h, OnEvent(handler)).0, token)
  {
    NoOldTokens(h.ui, UI_EVENTS, handler);
    NoOldTokens(h.view, VIEW_EVENTS, handler);
    if token < GENERIC_TOKEN_BASE {
      assert !IsLive(h, token);
    }
  }

  lemma AppendedAreNew(l: Listener, m: Listener, n: nat)
    requires |m.subs| == |l.subs| + n && l.subs <= m.subs
    requires forall i :: |l.subs| <= i < |m.subs| ==> m.subs[i].token > l.next
    ensures forall t: nat :: t <= l.next && HasToken(m, t) ==> HasToken(l, t)
  {
  }

  lemma NoOldTokens(l: Listener, codes: seq<Notification>, handler: nat)
    ensures forall t: nat :: t <= l.next && HasToken(SubscribedAll(l, codes, handler), t) ==> HasToken(l, t)
  {
    SubscribedAllAppends(l, codes, handler);
    AppendedAreNew(l, SubscribedAll(l, codes, handler), |codes|);
  }

  /** Once unsubscribed, a token is never found again in any later run. */
  lemma {:induction false} GoneForever(h: Hub, ops: seq<Op>, token: nat)
    requires HubOk(h) && Small(Run(h, ops)) && Gone(h, token)
    ensures Gone(Run(h, ops), token)
    decreases |ops|
  {
    if ops != [] {
      RunOnlyGrows(Step(h, ops[0]).0, ops[1..]);
      StepKeepsHub(h, ops[0]);
      StepKeepsGone(h, ops[0], token);
      GoneForever(Step(h, ops[0]).0, ops[1..], token);
    }
  }

  // ----- a bundle survives everything but its own removal -----

  /** Bundle `g` of callback `handler` is whole: its route lists thirteen inner tokens, and the
      subscription behind each is live and calls `handler`. */
  ghost predicate BundleWhole(h: Hub, g: nat, handler: nat, inner: seq<nat>) {
    && g in h.routes && h.routes[g] == inner && |inner| == 13
    && forall t :: t in inner ==> LiveFor(h, t, handler)
  }

  predicate Serves(l: Listener, token: nat, handler: nat) {
    exists i :: 0 <= i < |l.subs| && l.subs[i].token == token && l.subs[i].handler == handler
  }

  predicate LiveFor(h: Hub, token: nat, handler: nat) {
    if IsViewToken(token) then Serves(h.view, token - VIEW_TOKEN_BASE, handler) else Serves(h.ui, token, handler)
  }

  lemma OnEventMakesWholeBundle(h: Hub, handler: nat)
    requires HubOk(h) && Small(Step(h, OnEvent(handler)).0)
    ensures var (r, answer) := Step(h, OnEvent(handler));
            answer.Granted? && BundleWhole(r, answer.granted, handler, InnerTokens(h))
  {
    SubscribedAllAppends(h.ui, UI_EVENTS, handler);
    SubscribedAllAppends(h.view, VIEW_EVENTS, handler);
    var r := Step(h, OnEvent(handler)).0;
    forall t | t in InnerTokens(h)
      ensures LiveFor(r, t, handler)
    {
      var k :| 0 <= k < |InnerTokens(h)| && InnerTokens(h)[k] == t;
      InnerTokenServes(h, handler, k);
    }
  }

  lemma InnerTokenServes(h: Hub, handler: nat, k: nat)
    requires k < |InnerTokens(h)| && h.ui.next + 8 < VIEW_TOKEN_BASE && h.view.next + 5 < VIEW_TOKEN_BASE
    ensures LiveFor(Step(h, OnEvent(handler)).0, InnerTokens(h)[k], handler)
  {
    if k < |UI_EVENTS| {
      NewTokenServes(h.ui, UI_EVENTS, handler, k);
    } else {
      NewTokenServes(h.view, VIEW_EVENTS, handler, k - |UI_EVENTS|);
    }
  }

  lemma NewTokenServes(l: Listener, codes: seq<Notification>, handler: nat, i: nat)
    requires i < |codes|
    ensures var subs := SubscribedAll(l, codes, handler).subs;
            |l.subs| + i < |subs| && subs[|l.subs| + i] == Subscription(l.next + 1 + i, codes[i], handler)
  {
    SubscribedAllAppends(l, codes, handler);
  }

  /** The operation unsubscribes neither the bundle nor one of its inner tokens. */
  predicate Spares(op: Op, g: nat, inner: seq<nat>) {
    op.Unsubscribe? ==> op.token != g && op.token !in inner
  }

  lemma StepSparesBundle(h: Hub, op: Op, g: nat, handler: nat, inner: seq<nat>)
    requires HubOk(h) && Small(Step(h, op).0) && BundleWhole(h, g, handler, inner) && Spares(op, g, inner)
    ensures BundleWhole(Step(h, op).0, g, handler, inner)
  {
    match op
    case SubscribeUi(_, _) => LongerListsServe(h, Step(h, op).0, inner, handler);
    case SubscribeView(_, _) => LongerListsServe(h, Step(h, op).0, inner, handler);
    case OnEvent(other) => OnEventSparesBundle(h, other, g, handler, inner);
    case Unsubscribe(token) => UnsubscribeSparesBundle(h, token, g, handler, inner);
  }

  lemma OnEventSparesBundle(h: Hub, other: nat, g: nat, handler: nat, inner: seq<nat>)
    requires RoutesOk(h) && BundleWhole(h, g, handler, inner)
    ensures BundleWhole(Step(h, OnEvent(other)).0, g, handler, inner)
  {
    SubscribedAllAppends(h.ui, UI_EVENTS, other);
    SubscribedAllAppends(h.view, VIEW_EVENTS, other);
    LongerListsServe(h, Step(h, OnEvent(other)).0, inner, handler);
  }

  lemma UnsubscribeSparesBundle(h: Hub, token: nat, g: nat, handler: nat, inner: seq<nat>)
    requires HubOk(h) && BundleWhole(h, g, handler, inner) && token != g && token !in inner
    ensures BundleWhole(Step(h, Unsubscribe(token)).0, g, handler, inner)
  {
    var r := Step(h, Unsubscribe(token)).0;
    UnsubscribeIsExact(h, token);
    forall t | t in inner
      ensures LiveFor(r, t, handler)
    {
      assert t !in Owned(h, token);
      StillServes(h, r, Owned(h, token), t, handler);
    }
  }

  lemma KeptServes(l: Listener, m: Listener, gone: set<nat>, token: nat, handler: nat)
    requires Serves(l, token, handler) && token !in gone && m.subs == Keep(l.subs, gone)
    ensures Serves(m, token, handler)
  {
    KeepSublist(l.subs, gone);
    var i :| 0 <= i < |l.subs| && l.subs[i].token == token && l.subs[i].handler == handler;
    assert l.subs[i] in m.subs;
  }

  lemma StillServes(h: Hub, r: Hub, gone: set<nat>, token: nat, handler: nat)
    requires RemovedExactly(h, r, gone) && token !in gone && LiveFor(h, token, handler)
    ensures LiveFor(r, token, handler)
  {
    if IsViewToken(token) {
      KeptServes(h.view, r.view, ViewPart(gone), token - VIEW_TOKEN_BASE, handler);
    } else {
      KeptServes(h.ui, r.ui, UiPart(gone), token, handler);
    }
  }

  lemma LongerListsServe(h: Hub, r: Hub, inner: seq<nat>, handler: nat)
    requires h.ui.subs <= r.ui.subs && h.view.subs <= r.view.subs
    requires forall t :: t in inner ==> LiveFor(h, t, handler)
    ensures forall t :: t in inner ==> LiveFor(r, t, handler)
  {
  }

  predicate AllSpare(ops: seq<Op>, g: nat, inner: seq<nat>) {
    forall i :: 0 <= i < |ops| ==> Spares(ops[i], g, inner)
  }

  lemma {:induction false} RunSparesBundle(h: Hub, ops: seq<Op>, g: nat, handler: nat, inner: seq<nat>)
    requires HubOk(h) && Small(Run(h, ops)) && BundleWhole(h, g, handler, inner) && AllSpare(ops, g, inner)
    ensures HubOk(Run(h, ops)) && BundleWhole(Run(h, ops), g, handler, inner)
    decreases |ops|
  {
    if ops != [] {
      RunOnlyGrows(Step(h, ops[0]).0, ops[1..]);
      StepKeepsHub(h, ops[0]);
      StepSparesBundle(h, ops[0], g, handler, inner);
      RunSparesBundle(Step(h, ops[0]).0, ops[1..], g, handler, inner);
    }
  }

  lemma GoneServesNothing(h: Hub, token: nat, handler: nat)
    requires Gone(h, token) && token < GENERIC_TOKEN_BASE
    ensures !LiveFor(h, token, handler)
  {
    assert !IsLive(h, token);
  }

  /** A bundle is not whole once its token, or one of its inner tokens, is gone. */
  lemma GoneBreaksBundle(h: Hub, g: nat, handler: nat, inner: seq<nat>, token: nat)
    requires Gone(h, token)
    requires (token == g && g >= GENERIC_TOKEN_BASE) || (token in inner && token < GENERIC_TOKEN_BASE)
    ensures !BundleWhole(h, g, handler, inner)
  {
    if token in inner && token < GENERIC_TOKEN_BASE {
      GoneServesNothing(h, token, handler);
    }
  }

  /** Unsubscribing the bundle or an inner token breaks it for good. */
  lemma UnsubscribeBreaksBundle(h: Hub, g: nat, handler: nat, inner: seq<nat>, token: nat, later: seq<Op>)
    requires HubOk(h) && BundleWhole(h, g, handler, inner) && !Spares(Unsubscribe(token), g, inner)
    requires Small(Run(AfterRemoval(h, token), later))
    ensures !BundleWhole(Run(AfterRemoval(h, token), later), g, handler, inner)
  {
    assert token == g || (Issued(h, token) && token < GENERIC_TOKEN_BASE);
    UnsubscribedIsGone(h, token);
    UnsubscribeKeepsHub(h, token);
    GoneForever(AfterRemoval(h, token), later, token);
    GoneBreaksBundle(Run(AfterRemoval(h, token), later), g, handler, inner, token);
  }

  /** A step keeps a bundle whole exactly when it unsubscribes neither the bundle nor one of its
      inner tokens. */
  lemma StepKeepsBundleIff(h: Hub, op: Op, g: nat, handler: nat, inner: seq<nat>)
    requires HubOk(h) && Small(Step(h, op).0) && BundleWhole(h, g, handler, inner)
    ensures BundleWhole(Step(h, op).0, g, handler, inner) <==> Spares(op, g, inner)
  {
    if Spares(op, g, inner) {
      StepSparesBundle(h, op, g, handler, inner);
    } else {
      UnsubscribeBreaksBundle(h, g, handler, inner, op.token, []);
    }
  }

  lemma {:induction false} RunBreaksBundle(h: Hub, ops: seq<Op>, g: nat, handler: nat, inner: seq<nat>)
    requires HubOk(h) && Small(Run(h, ops)) && BundleWhole(h, g, handler, inner) && !AllSpare(ops, g, inner)
    ensures !BundleWhole(Run(h, ops), g, handler, inner)
    decreases |ops|
  {
    if Spares(ops[0], g, inner) {
      RunOnlyGrows(Step(h, ops[0]).0, ops[1..]);
      StepKeepsHub(h, ops[0]);
      StepSparesBundle(h, ops[0], g, handler, inner);
      assert !AllSpare(ops[1..], g, inner);
      RunBreaksBundle(Step(h, ops[0]).0, ops[1..], g, handler, inner);
    } else {
      UnsubscribeBreaksBundle(h, g, handler, inner, ops[0].token, ops[1..]);
    }
  }

  /** A run leaves a bundle whole exactly when each of its steps spares it. */
  lemma RunKeepsBundleIff(h: Hub, ops: seq<Op>, g: nat, handler: nat, inner: seq<nat>)
    requires HubOk(h) && Small(Run(h, ops)) && BundleWhole(h, g, handler, inner)
    ensures BundleWhole(Run(h, ops), g, handler, inner) <==> AllSpare(ops, g, inner)
  {
    if AllSpare(ops, g, inner) {
      RunSparesBundle(h, ops, g, handler, inner);
    } else {
      RunBreaksBundle(h, ops, g, handler, inner);
    }
  }

  /** Removing a whole bundle removes its thirteen subscriptions and nothing else. */
  lemma BundleRemoved(h: Hub, g: nat, handler: nat, inner: seq<nat>)
    requires HubOk(h) && BundleWhole(h, g, handler, inner)
    ensures Step(h, Unsubscribe(g)).1 == Done
    ensures RemovedExactly(h, Step(h, Unsubscribe(g)).0, TokenSet(inner))
    ensures Gone(Step(h, Unsubscribe(g)).0, g)
  {
    UnsubscribeIsExact(h, g);
    UnsubscribedIsGone(h, g);
  }

  /** The state after the bundle is removed. */
  function AfterRemoval(h: Hub, g: nat): Hub {
    Step(h, Unsubscribe(g)).0
  }

  /** The life of an `on_event` subscription: whatever other subscriptions come and go, its
      thirteen handlers stay live until it is unsubscribed; that removes exactly them, leaves
      every other subscription in place, and no later run finds the token again. */
  lemma EventSubscriptionLife(h: Hub, handler: nat, first: Hub, g: nat, ops: seq<Op>, later: seq<Op>)
    requires HubOk(h) && Step(h, OnEvent(handler)) == (first, Granted(g)) && Small(first)
    requires AllSpare(ops, g, InnerTokens(h)) && Small(Run(first, ops))
    requires Small(Run(AfterRemoval(Run(first, ops), g), later))
    ensures BundleWhole(Run(first, ops), g, handler, InnerTokens(h))
    ensures Step(Run(first, ops), Unsubscribe(g)).1 == Done
    ensures RemovedExactly(Run(first, ops), AfterRemoval(Run(first, ops), g), TokenSet(InnerTokens(h)))
    ensures Gone(Run(AfterRemoval(Run(first, ops), g), later), g)
  {
    BundleSurvives(h, handler, first, g, ops);
    RemovedForGood(Run(first, ops), g, handler, InnerTokens(h), later);
  }

  lemma BundleSurvives(h: Hub, handler: nat, first: Hub, g: nat, ops: seq<Op>)
    requires HubOk(h) && Step(h, OnEvent(handler)) == (first, Granted(g)) && Small(first)
    requires AllSpare(ops, g, InnerTokens(h)) && Small(Run(first, ops))
    ensures HubOk(Run(first, ops)) && BundleWhole(Run(first, ops), g, handler, InnerTokens(h))
  {
    OnEventKeepsHub(h, handler);
    OnEventMakesWholeBundle(h, handler);
    RunSparesBundle(first, ops, g, handler, InnerTokens(h));
  }

  lemma RemovedForGood(h: Hub, g: nat, handler: nat, inner: seq<nat>, later: seq<Op>)
    requires HubOk(h) && BundleWhole(h, g, handler, inner) && Small(Run(AfterRemoval(h, g), later))
    ensures Step(h, Unsubscribe(g)).1 == Done
    ensures RemovedExactly(h, AfterRemoval(h, g), TokenSet(inner))
    ensures Gone(Run(AfterRemoval(h, g), later), g)
  {
    BundleRemoved(h, g, handler, inner);
    UnsubscribeKeepsHub(h, g);
    GoneForever(AfterRemoval(h, g), later, g);
  }

  // ----- a single subscription -----

  /** The token belongs to no bundle. */
  ghost predicate Unbundled(h: Hub, token: nat) {
    forall g :: g in h.routes ==> token !in h.routes[g]
  }

  /** A token of a single subscription: handed out by a listener, in no bundle, and live. */
  ghost predicate SingleLive(h: Hub, token: nat, handler: nat) {
    Issued(h, token) && Unbundled(h, token) && LiveFor(h, token, handler)
  }

  lemma SubscribeMakesSingle(h: Hub, op: Op, r: Hub, token: nat, handler: nat)
    requires HubOk(h) && Small(r) && Step(h, op) == (r, Granted(token))
    requires (op.SubscribeUi? && op.uiHandler == handler) || (op.SubscribeView? && op.viewHandler == handler)
    ensures SingleLive(r, token, handler)
  {
    assert !Issued(h, token);
    if op.SubscribeUi? {
      assert r.ui.subs[|h.ui.subs|].token == token;
    } else {
      assert r.view.subs[|h.view.subs|].token == token - VIEW_TOKEN_BASE;
    }
  }

  lemma StepSparesSingle(h: Hub, op: Op, token: nat, handler: nat)
    requires HubOk(h) && Small(Step(h, op).0) && SingleLive(h, token, handler) && op != Unsubscribe(token)
    ensures SingleLive(Step(h, op).0, token, handler)
  {
    match op
    case SubscribeUi(_, _) => GrowthSparesSingle(h, Step(h, op).0, token, handler);
    case SubscribeView(_, _) => GrowthSparesSingle(h, Step(h, op).0, token, handler);
    case OnEvent(other) => OnEventSparesSingle(h, other, token, handler);
    case Unsubscribe(other) => UnsubscribeSparesSingle(h, other, token, handler);
  }

  lemma GrowthSparesSingle(h: Hub, r: Hub, token: nat, handler: nat)
    requires SingleLive(h, token, handler)
    requires h.ui.subs <= r.ui.subs && h.view.subs <= r.view.subs
    requires h.ui.next <= r.ui.next && h.view.next <= r.view.next
    requires forall g :: g in r.routes ==> (g in h.routes && r.routes[g] == h.routes[g]) || token !in r.routes[g]
    ensures SingleLive(r, token, handler)
  {
  }

  lemma OnEventSparesSingle(h: Hub, other: nat, token: nat, handler: nat)
    requires HubOk(h) && SingleLive(h, token, handler) && Small(Step(h, OnEvent(other)).0)
    ensures SingleLive(Step(h, OnEvent(other)).0, token, handler)
  {
    var r := Step(h, OnEvent(other)).0;
    SubscribedAllAppends(h.ui, UI_EVENTS, other);
    SubscribedAllAppends(h.view, VIEW_EVENTS, other);
    InnerTokensAreNew(h);
    assert r.ui.next == h.ui.next + 8;
    assert token !in InnerTokens(h);
    GrowthSparesSingle(h, r, token, handler);
  }

  lemma UnsubscribeSparesSingle(h: Hub, other: nat, token: nat, handler: nat)
    requires HubOk(h) && SingleLive(h, token, handler) && other != token
    ensures SingleLive(Step(h, Unsubscribe(other)).0, token, handler)
  {
    UnsubscribeIsExact(h, other);
    StillServes(h, Step(h, Unsubscribe(other)).0, Owned(h, other), token, handler);
  }

  lemma SingleGoesOn(h: Hub, op: Op, token: nat, handler: nat, later: seq<Op>)
    requires HubOk(h) && SingleLive(h, token, handler) && op != Unsubscribe(token)
    requires Small(Run(Step(h, op).0, later))
    ensures HubOk(Step(h, op).0) && SingleLive(Step(h, op).0, token, handler)
  {
    RunOnlyGrows(Step(h, op).0, later);
    StepKeepsHub(h, op);
    StepSparesSingle(h, op, token, handler);
  }

  lemma {:induction false} RunSparesSingle(h: Hub, ops: seq<Op>, token: nat, handler: nat)
    requires HubOk(h) && Small(Run(h, ops)) && SingleLive(h, token, handler)
    requires forall i :: 0 <= i < |ops| ==> ops[i] != Unsubscribe(token)
    ensures HubOk(Run(h, ops)) && SingleLive(Run(h, ops), token, handler)
    decreases |ops|
  {
    if ops != [] {
      SingleGoesOn(h, ops[0], token, handler, ops[1..]);
      RunSparesSingle(Step(h, ops[0]).0, ops[1..], token, handler);
    }
  }

  lemma UnsubscribeEndsSingle(h: Hub, token: nat, handler: nat, later: seq<Op>)
    requires HubOk(h) && SingleLive(h, token, handler) && Small(Run(AfterRemoval(h, token), later))
    ensures !LiveFor(Run(AfterRemoval(h, token), later), token, handler)
  {
    UnsubscribedIsGone(h, token);
    UnsubscribeKeepsHub(h, token);
    GoneForever(AfterRemoval(h, token), later, token);
    GoneServesNothing(Run(AfterRemoval(h, token), later), token, handler);
  }

  lemma {:induction false} RunSplits(h: Hub, ops: seq<Op>, k: nat)
    requires k <= |ops|
    ensures Run(h, ops) == Run(Run(h, ops[..k]), ops[k..])
    decreases k
  {
    if k == 0 {
      assert ops[..0] == [] && ops[0..] == ops;
    } else {
      assert ops[..k][0] == ops[0] && ops[..k][1..] == ops[1..][..k - 1] && ops[1..][k - 1..] == ops[k..];
      RunSplits(Step(h, ops[0]).0, ops[1..], k - 1);
    }
  }

  /** The index of the first step that unsubscribes the token, or |ops|. */
  function FirstUnsubscribe(ops: seq<Op>, token: nat): (k: nat)
    ensures k <= |ops|
    ensures forall i :: 0 <= i < k ==> ops[i] != Unsubscribe(token)
    ensures k < |ops| ==> ops[k] == Unsubscribe(token)
  {
    if ops == [] || ops[0] == Unsubscribe(token) then 0 else 1 + FirstUnsubscribe(ops[1..], token)
  }

  /** A run leaves a single subscription live exactly when it does not unsubscribe its token. */
  lemma RunKeepsSingleIff(h: Hub, ops: seq<Op>, token: nat, handler: nat)
    requires HubOk(h) && Small(Run(h, ops)) && SingleLive(h, token, handler)
    ensures LiveFor(Run(h, ops), token, handler) <==> forall i :: 0 <= i < |ops| ==> ops[i] != Unsubscribe(token)
  {
    var k := FirstUnsubscribe(ops, token);
    if k == |ops| {
      RunSparesSingle(h, ops, token, handler);
    } else {
      var before := Run(h, ops[..k]);
      RunSplits(h, ops, k);
      RunOnlyGrows(before, ops[k..]);
      RunSparesSingle(h, ops[..k], token, handler);
      UnsubscribeEndsSingle(before, token, handler, ops[k..][1..]);
    }
  }

  /** The life of a UI or view subscription: live until its own token is unsubscribed, whatever
      else is; then it alone goes, and no later run finds the token again. */
  lemma SingleSubscriptionLife(h: Hub, op: Op, first: Hub, token: nat, handler: nat, ops: seq<Op>, later: seq<Op>)
    requires HubOk(h) && Step(h, op) == (first, Granted(token)) && Small(first)
    requires (op.SubscribeUi? && op.uiHandler == handler) || (op.SubscribeView? && op.viewHandler == handler)
    requires Small(Run(first, ops)) && forall i :: 0 <= i < |ops| ==> ops[i] != Unsubscribe(token)
    requires Small(Run(AfterRemoval(Run(first, ops), token), later))
    ensures LiveFor(Run(first, ops), token, handler)
    ensures Step(Run(first, ops), Unsubscribe(token)).1 == Done
    ensures RemovedExactly(Run(first, ops), AfterRemoval(Run(first, ops), token), {token})
    ensures Gone(Run(AfterRemoval(Run(first, ops), token), later), token)
  {
    StepKeepsHub(h, op);
    SubscribeMakesSingle(h, op, first, token, handler);
    RunSparesSingle(first, ops, token, handler);
    SingleRemovedForGood(Run(first, ops), token, handler, later);
  }

  lemma SingleRemovedForGood(h: Hub, token: nat, handler: nat, later: seq<Op>)
    requires HubOk(h) && SingleLive(h, token, handler) && Small(Run(AfterRemoval(h, token), later))
    ensures Step(h, Unsubscribe(token)).1 == Done
    ensures RemovedExactly(h, AfterRemoval(h, token), {token})
    ensures Gone(Run(AfterRemoval(h, token), later), token)
  {
    UnsubscribeIsExact(h, token);
    UnsubscribedIsGone(h, token);
    UnsubscribeKeepsHub(h, token);
    GoneForever(AfterRemoval(h, token), later, token);
  }
}
