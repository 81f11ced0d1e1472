/** The decompiler's callback maps: one per event kind, one token counter for all, and a bridge
    that is installed while any callback is registered. */
module CallbackRegistry {
  import opened Common

  datatype Kind = Maturity | FuncPrinted | RefreshPseudocode | CursorPosition | CreateHint | PopulatingPopup

  type CallbackMap = map<nat, nat>

  datatype Registry = Registry(maturity: CallbackMap, funcPrinted: CallbackMap, refresh: CallbackMap,
                               cursor: CallbackMap, hint: CallbackMap, popup: CallbackMap,
                               next: nat, installed: bool)

  const FRESH := Registry(map[], map[], map[], map[], map[], map[], 1, false)

  function MapOf(r: Registry, kind: Kind): CallbackMap {
    match kind
    case Maturity => r.maturity
    case FuncPrinted => r.funcPrinted
    case RefreshPseudocode => r.refresh
    case CursorPosition => r.cursor
    case CreateHint => r.hint
    case PopulatingPopup => r.popup
  }

  function WithMap(r: Registry, kind: Kind, m: CallbackMap): Registry {
    match kind
    case Maturity => r.(maturity := m)
    case FuncPrinted => r.(funcPrinted := m)
    case RefreshPseudocode => r.(refresh := m)
    case CursorPosition => r.(cursor := m)
    case CreateHint => r.(hint := m)
    case PopulatingPopup => r.(popup := m)
  }

  predicate AllEmpty(r: Registry) {
    && r.maturity == map[] && r.funcPrinted == map[] && r.refresh == map[]
    && r.cursor == map[] && r.hint == map[] && r.popup == map[]
  }

  /** The first map, in the source's order, that holds the token. */
  function FindToken(r: Registry, token: nat): Option<Kind> {
    if token in r.maturity then Some(Maturity)
    else if token in r.funcPrinted then Some(FuncPrinted)
    else if token in r.refresh then Some(RefreshPseudocode)
    else if token in r.cursor then Some(CursorPosition)
    else if token in r.hint then Some(CreateHint)
    else if token in r.popup then Some(PopulatingPopup)
    else None
  }

  /** A subscription with the answers of the SDK: is the decompiler ready, and does the bridge
      install if it has to? */
  datatype Op =
    | Subscribe(kind: Kind, callback: Option<nat>, ready: bool, installs: bool)
    | Unsubscribe(token: nat)

  datatype Answer = Granted(token: nat) | EmptyCallback | NotReady | InstallFailed | Done | InvalidToken | NotFound

  function Step(r: Registry, op: Op): (Registry, Answer) {
    match op
    case Subscribe(kind, callback, ready, installs) =>
      if callback.None? then (r, EmptyCallback)
      else if !ready then (r, NotReady)
      else if !r.installed && !installs then (r, InstallFailed)
      else
        var added := WithMap(r, kind, MapOf(r, kind)[r.next := callback.value]);
        (added.(next := r.next + 1, installed := true), Granted(r.next))
    case Unsubscribe(token) =>
      if token == 0 then (r, InvalidToken)
      else
        match FindToken(r, token)
        case None => (r, NotFound)
        case Some(kind) =>
          var left := WithMap(r, kind, MapOf(r, kind) - {token});
          (left.(installed := if AllEmpty(left) && left.installed then false else left.installed), Done)
  }

  function Run(r: Registry, ops: seq<Op>): Registry
    decreases |ops|
  {
    if ops == [] then r else Run(Step(r, ops[0]).0, ops[1..])
  }

  /** The bridge is installed exactly while some map is non-empty, and each token is in at most
      one map. */
  ghost predicate Orderly(r: Registry) {
    && r.next > 0
    && (r.installed <==> !AllEmpty(r))
    && (forall kind, t :: t in MapOf(r, kind) ==> 0 < t < r.next)
    && (forall k1, k2, t :: t in MapOf(r, k1) && t in MapOf(r, k2) ==> k1 == k2)
  }

  lemma FindTokenFinds(r: Registry, token: nat)
    ensures FindToken(r, token).None? ==> forall kind :: token !in MapOf(r, kind)
    ensures FindToken(r, token).Some? ==> token in MapOf(r, FindToken(r, token).value)
  {
  }

  lemma WithMapReplaces(r: Registry, kind: Kind, m: CallbackMap)
    ensures MapOf(WithMap(r, kind, m), kind) == m
    ensures forall other :: other != kind ==> MapOf(WithMap(r, kind, m), other) == MapOf(r, other)
    ensures WithMap(r, kind, m).next == r.next && WithMap(r, kind, m).installed == r.installed
  {
  }

  /** A granted subscription adds its token to one map. */
  lemma SubscribeAdds(r: Registry, op: Op)
    requires op.Subscribe? && Step(r, op).1.Granted?
    ensures forall k :: MapOf(Step(r, op).0, k)
                     == if k == op.kind then MapOf(r, k)[r.next := op.callback.value] else MapOf(r, k)
    ensures Step(r, op).0.next == r.next + 1 && Step(r, op).0.installed
  {
    var m := MapOf(r, op.kind)[r.next := op.callback.value];
    var added := WithMap(r, op.kind, m);
    WithMapReplaces(r, op.kind, m);
    forall k
      ensures MapOf(Step(r, op).0, k) == MapOf(added, k)
    {
    }
  }

  lemma NonEmptyKind(r: Registry, kind: Kind)
    requires MapOf(r, kind) != map[]
    ensures !AllEmpty(r)
  {
  }

  /** Unsubscribing erases the token from the one map that holds it and touches nothing else;
      the bridge goes with the last callback. */
  lemma UnsubscribeIsExact(r: Registry, token: nat)
    requires Orderly(r)
    ensures var (left, answer) := Step(r, Unsubscribe(token));
            && (forall kind :: MapOf(left, kind) == MapOf(r, kind) - {token})
            && (left.installed <==> !AllEmpty(left)) && left.next == r.next
            && (answer == Done <==> token != 0 && exists kind :: token in MapOf(r, kind))
            && (answer == NotFound <==> token != 0 && forall kind :: token !in MapOf(r, kind))
  {
    FindTokenFinds(r, token);
    var found := FindToken(r, token);
    if token == 0 || found.None? {
      assert forall kind :: MapOf(r, kind) - {token} == MapOf(r, kind);
    } else {
      var kind := found.value;
      WithMapReplaces(r, kind, MapOf(r, kind) - {token});
      NonEmptyKind(r, kind);
      var left := Step(r, Unsubscribe(token)).0;
      forall other
        ensures MapOf(left, other) == MapOf(r, other) - {token}
      {
        if other != kind {
          assert MapOf(r, other) - {token} == MapOf(r, other);
        }
      }
    }
  }

  lemma StillOrderly(r: Registry, s: Registry, kind: Kind, callback: nat)
    requires Orderly(r) && s.next == r.next + 1 && s.installed && !AllEmpty(s)
    requires forall k :: MapOf(s, k) == if k == kind then MapOf(r, k)[r.next := callback] else MapOf(r, k)
    ensures Orderly(s)
  {
  }

  lemma StepKeepsOrderly(r: Registry, op: Op)
    requires Orderly(r)
    ensures Orderly(Step(r, op).0)
  {
    match op
    case Subscribe(kind, callback, ready, installs) =>
      if Step(r, op).1.Granted? {
        SubscribeAdds(r, op);
        assert r.next in MapOf(Step(r, op).0, kind);
        NonEmptyKind(Step(r, op).0, kind);
        StillOrderly(r, Step(r, op).0, kind, callback.value);
      }
    case Unsubscribe(token) => UnsubscribeIsExact(r, token);
  }

  lemma {:induction false} RunsStayOrderly(r: Registry, ops: seq<Op>)
    requires Orderly(r)
    ensures Orderly(Run(r, ops)) && r.next <= Run(r, ops).next
    decreases |ops|
  {
    if ops != [] {
      StepKeepsOrderly(r, ops[0]);
      TokensOnlyGrow(r, ops[0]);
      RunsStayOrderly(Step(r, ops[0]).0, ops[1..]);
    }
  }

  lemma TokensOnlyGrow(r: Registry, op: Op)
    requires Orderly(r)
    ensures r.next <= Step(r, op).0.next
  {
    if op.Unsubscribe? {
      UnsubscribeIsExact(r, op.token);
    }
  }

  /** The token was granted and is in no map. */
  predicate Gone(r: Registry, token: nat) {
    0 < token < r.next && FindToken(r, token).None?
  }

  lemma StepKeepsGone(r: Registry, op: Op, token: nat)
    requires Orderly(r) && Gone(r, token)
    ensures Gone(Step(r, op).0, token)
  {
    var s := Step(r, op).0;
    FindTokenFinds(r, token);
    match op
    case Subscribe(kind, callback, _, _) =>
      if Step(r, op).1.Granted? {
        SubscribeAdds(r, op);
        AbsentIsUnfound(s, token);
      }
    case Unsubscribe(other) =>
      UnsubscribeIsExact(r, other);
      AbsentIsUnfound(s, token);
  }

  lemma AbsentIsUnfound(r: Registry, token: nat)
    ensures FindToken(r, token).None? <==> forall kind :: token !in MapOf(r, kind)
  {
    FindTokenFinds(r, token);
  }

  lemma {:induction false} RunKeepsGone(r: Registry, ops: seq<Op>, token: nat)
    requires Orderly(r) && Gone(r, token)
    ensures Gone(Run(r, ops), token)
    decreases |ops|
  {
    if ops != [] {
      StepKeepsOrderly(r, ops[0]);
      StepKeepsGone(r, ops[0], token);
      RunKeepsGone(Step(r, ops[0]).0, ops[1..], token);
    }
  }

  /** A granted token is new and reaches its callback in its own map until it is unsubscribed;
      after that no later run finds it. */
  lemma {:induction false} TokenLives(r: Registry, ops: seq<Op>, kind: Kind, token: nat, callback: nat)
    requires Orderly(r) && token in MapOf(r, kind) && MapOf(r, kind)[token] == callback
    requires forall i :: 0 <= i < |ops| ==> ops[i] != Unsubscribe(token)
    ensures token in MapOf(Run(r, ops), kind) && MapOf(Run(r, ops), kind)[token] == callback
    decreases |ops|
  {
    if ops != [] {
      var next := Step(r, ops[0]).0;
      StepKeepsOrderly(r, ops[0]);
      if ops[0].Subscribe? {
        if Step(r, ops[0]).1.Granted? {
          SubscribeAdds(r, ops[0]);
        }
      } else {
        UnsubscribeIsExact(r, ops[0].token);
      }
      TokenLives(next, ops[1..], kind, token, callback);
    }
  }

  lemma SubscriptionLife(r: Registry, kind: Kind, callback: nat, ops: seq<Op>, later: seq<Op>)
    returns (token: nat, mid: Registry, last: Registry)
    requires Orderly(r)
    requires forall i :: 0 <= i < |ops| ==> ops[i] != Unsubscribe(r.next)
    ensures Step(r, Subscribe(kind, Some(callback), true, true)).1 == Granted(token)
    ensures mid == Run(Step(r, Subscribe(kind, Some(callback), true, true)).0, ops)
    ensures token in MapOf(mid, kind) && MapOf(mid, kind)[token] == callback && mid.installed
    ensures Step(mid, Unsubscribe(token)) == (last, Done)
    ensures forall k :: MapOf(last, k) == MapOf(mid, k) - {token}
    ensures Step(Run(last, later), Unsubscribe(token)).1 == NotFound
  {
    var op := Subscribe(kind, Some(callback), true, true);
    var first := Step(r, op).0;
    token := r.next;
    StepKeepsOrderly(r, op);
    SubscribeAdds(r, op);
    TokenLives(first, ops, kind, token, callback);
    RunsStayOrderly(first, ops);
    mid := Run(first, ops);
    NonEmptyKind(mid, kind);
    last := Step(mid, Unsubscribe(token)).0;
    UnsubscribeIsExact(mid, token);
    StepKeepsOrderly(mid, Unsubscribe(token));
    AbsentIsUnfound(last, token);
    RunKeepsGone(last, later, token);
  }

  /** The registry starts without callbacks or bridge, in order, and grants token 1 first. */
  lemma FreshIsOrderly(kind: Kind, callback: nat)
    ensures Orderly(FRESH) && MapOf(FRESH, kind) == map[] && !FRESH.installed
    ensures Step(FRESH, Subscribe(kind, Some(callback), true, true)).1 == Granted(1)
  {
  }

  /** So every run from the start is in order. */
  lemma RunsFromStart(ops: seq<Op>)
    ensures Orderly(Run(FRESH, ops)) && Run(FRESH, ops).next >= 1
  {
    FreshIsOrderly(Maturity, 0);
    RunsStayOrderly(FRESH, ops);
  }

  /** When a subscription is refused, by the first check that fails, and that it then changes nothing;
      the bridge has to install only while no callback is registered. */
  lemma RefusedIff(r: Registry, op: Op)
    requires Orderly(r) && op.Subscribe?
    ensures var (s, answer) := Step(r, op);
            && (answer == EmptyCallback <==> op.callback.None?)
            && (answer == NotReady <==> op.callback.Some? && !op.ready)
            && (answer == InstallFailed <==>
                op.callback.Some? && op.ready && !op.installs && forall kind :: MapOf(r, kind) == map[])
            && (answer == Granted(r.next) || s == r)
  {
    AllEmptyIff(r);
  }

  lemma AllEmptyIff(r: Registry)
    ensures AllEmpty(r) <==> forall kind :: MapOf(r, kind) == map[]
  {
    if forall kind :: MapOf(r, kind) == map[] {
      assert MapOf(r, Maturity) == MapOf(r, FuncPrinted) == MapOf(r, RefreshPseudocode) == map[];
      assert MapOf(r, CursorPosition) == MapOf(r, CreateHint) == MapOf(r, PopulatingPopup) == map[];
    }
  }

  class DecompilerCallbacks {
    var state: Registry

    constructor ()
      ensures state == FRESH
    {
      state := FRESH;
    }

    method EnsureInstalled(installs: bool) returns (ok: bool)
      modifies this
      ensures ok <==> old(state.installed) || installs
      ensures state == old(state).(installed := ok)
    {
      if state.installed { return true; }
      if !installs { return false; }
      state := state.(installed := true);
      ok := true;
    }

    method On(kind: Kind, callback: Option<nat>, ready: bool, installs: bool) returns (answer: Answer)
      modifies this
      ensures (state, answer) == Step(old(state), Subscribe(kind, callback, ready, installs))
    {
      if callback.None? { return EmptyCallback; }
      if !ready { return NotReady; }
      var installed := EnsureInstalled(installs);
      if !installed { return InstallFailed; }
      var token := state.next;
      state := WithMap(state, kind, MapOf(state, kind)[token := callback.value]).(next := token + 1);
      answer := Granted(token);
    }

    method EraseFromAnyMap(token: nat) returns (erased: bool)
      modifies this
      ensures erased <==> FindToken(old(state), token).Some?
      ensures state == match FindToken(old(state), token)
                       case None => old(state)
                       case Some(kind) => WithMap(old(state), kind, MapOf(old(state), kind) - {token})
    {
      erased := true;
      if token in state.maturity {
        state := state.(maturity := state.maturity - {token});
      } else if token in state.funcPrinted {
        state := state.(funcPrinted := state.funcPrinted - {token});
      } else if token in state.refresh {
        state := state.(refresh := state.refresh - {token});
      } else if token in state.cursor {
        state := state.(cursor := state.cursor - {token});
      } else if token in state.hint {
        state := state.(hint := state.hint - {token});
      } else if token in state.popup {
        state := state.(popup := state.popup - {token});
      } else {
        erased := false;
      }
    }

    method Unsubscribe(token: nat) returns (answer: Answer)
      modifies this
      ensures (state, answer) == Step(old(state), Op.Unsubscribe(token))
    {
      if token == 0 { return InvalidToken; }
      var erased := EraseFromAnyMap(token);
      if !erased { return NotFound; }
      if AllEmpty(state) && state.installed {
        state := state.(installed := false);
      }
      answer := Done;
    }
  }
}
