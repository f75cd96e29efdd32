/** The callback list of drivers/gpio/gpio_utils.h: registration, and the interrupt-time pass over a list that the
    handlers it calls may change. */
module GpioCallbacks {
  import opened Sequences
  import opened SList

  const EINVAL: int := 22

  /** What follows the list node in `struct gpio_callback`. */
  datatype Callback = Callback(pinMask: bv32, handler: nat)

  type Node = SNode<Callback>

  // ----- registration --------------------------------------------------------------------------------------------

  /** The list and result of one `gpio_manage_callback`. */
  function Managed<T(==)>(registered: seq<T>, cb: T, add: bool): (seq<T>, int) {
    if registered != [] && cb !in registered && !add then
      (registered, -EINVAL)
    else
      (if add then [cb] + Without(registered, cb) else Without(registered, cb), 0)
  }

  /** `gpio_manage_callback`. */
  method ManageCallback(callbacks: SList<Callback>, cb: Node, add: bool) returns (err: int)
    requires callbacks.Valid()
    modifies callbacks, (set n | n in callbacks.nodes)`next, cb`next
    ensures callbacks.Valid()
    ensures (callbacks.nodes, err) == Managed(old(callbacks.nodes), cb, add)
  {
    var empty := callbacks.IsEmpty();
    if !empty {
      var found := callbacks.FindAndRemove(cb);
      if !found && !add {
        return -EINVAL;
      }
    }
    if add {
      callbacks.Prepend(cb);
    }
    err := 0;
  }

  datatype Call<T> = Call(cb: T, add: bool)

  /** The list after a sequence of registrations and removals, starting empty. */
  function ListAfter<T(==)>(calls: seq<Call<T>>): seq<T> {
    if calls == [] then []
    else Managed(ListAfter(calls[..|calls| - 1]), calls[|calls| - 1].cb, calls[|calls| - 1].add).0
  }

  /** The position of the latest call about `x`, -1 if there is none. */
  function LatestCall<T(==)>(calls: seq<Call<T>>, x: T): int {
    if calls == [] then -1
    else if calls[|calls| - 1].cb == x then |calls| - 1
    else LatestCall(calls[..|calls| - 1], x)
  }

  lemma {:induction false} LatestCallInRange<T>(calls: seq<Call<T>>, x: T)
    ensures -1 <= LatestCall(calls, x) < |calls|
    ensures LatestCall(calls, x) >= 0 ==> calls[LatestCall(calls, x)].cb == x
  {
    if calls != [] && calls[|calls| - 1].cb != x {
      LatestCallInRange(calls[..|calls| - 1], x);
    }
  }

  /** A callback is registered if the latest call about it was an add. */
  predicate Registered<T(==)>(calls: seq<Call<T>>, x: T) {
    LatestCallInRange(calls, x);
    var i := LatestCall(calls, x);
    i >= 0 && calls[i].add
  }

  /** The most recently added first. */
  ghost predicate ByRecency<T>(calls: seq<Call<T>>, s: seq<T>) {
    forall i, j :: 0 <= i < j < |s| ==> LatestCall(calls, s[i]) > LatestCall(calls, s[j])
  }

  lemma {:induction false} RemovalKeepsRecency<T>(calls: seq<Call<T>>, s: seq<T>, x: T)
    requires ByRecency(calls, s)
    ensures ByRecency(calls, Without(s, x))
  {
    if s != [] && s[0] != x {
      RemovalKeepsRecency(calls, s[1..], x);
      var rest := Without(s[1..], x);
      forall j | 0 <= j < |rest| ensures LatestCall(calls, s[0]) > LatestCall(calls, rest[j]) {
        assert rest[j] in s[1..];
      }
    }
  }

  /** After any history the list holds exactly the registered callbacks, each once, the most recently added first. */
  lemma {:induction false} ListIsRegisteredByRecency<T>(calls: seq<Call<T>>)
    ensures NoDuplicates(ListAfter(calls))
    ensures forall x :: x in ListAfter(calls) <==> Registered(calls, x)
    ensures ByRecency(calls, ListAfter(calls))
  {
    if calls != [] {
      var earlier, last := calls[..|calls| - 1], calls[|calls| - 1];
      ListIsRegisteredByRecency(earlier);
      var before, after := ListAfter(earlier), ListAfter(calls);
      WithoutRemovesOne(before, last.cb);
      var rest := Without(before, last.cb);
      forall x ensures Registered(calls, x) <==> if x == last.cb then last.add else Registered(earlier, x) {
        LatestCallInRange(earlier, x);
      }
      RemovalKeepsRecency(earlier, before, last.cb);
      forall i, j | 0 <= i < j < |rest| ensures LatestCall(calls, rest[i]) > LatestCall(calls, rest[j]) {
        assert rest[i] in rest && rest[j] in rest;
      }
      forall x | x in rest ensures LatestCall(calls, x) < |calls| - 1 {
        LatestCallInRange(earlier, x);
      }
      assert after == if last.add then [last.cb] + rest else rest;
    }
  }

  /** Such a list is unique: the description determines it. */
  lemma {:induction false} RecencyDeterminesList<T>(calls: seq<Call<T>>, s: seq<T>, t: seq<T>)
    requires ByRecency(calls, s) && ByRecency(calls, t)
    requires forall x :: x in s <==> x in t
    ensures s == t
  {
    assert t != [] ==> t[0] in t;
    if s != [] {
      assert s[0] in t;
      assert t[0] in s;
      var i :| 0 <= i < |t| && t[i] == s[0];
      var j :| 0 <= j < |s| && s[j] == t[0];
      assert s[0] == t[0];
      forall x ensures x in s[1..] <==> x in t[1..] {
        if x in s[1..] { var k :| 1 <= k < |s| && s[k] == x; assert x in t; var l :| 0 <= l < |t| && t[l] == x; }
        if x in t[1..] { var k :| 1 <= k < |t| && t[k] == x; assert x in s; var l :| 0 <= l < |s| && s[l] == x; }
      }
      RecencyDeterminesList(calls, s[1..], t[1..]);
    }
  }

  /** `-EINVAL` answers exactly the removal of an unregistered callback while others are registered. */
  lemma ErrorIff<T>(calls: seq<Call<T>>, cb: T, add: bool)
    ensures Managed(ListAfter(calls), cb, add).1 == -EINVAL
       <==> !add && !Registered(calls, cb) && exists x :: Registered(calls, x)
    ensures Managed(ListAfter(calls), cb, add).1 in {0, -EINVAL}
  {
    ListIsRegisteredByRecency(calls);
    var list := ListAfter(calls);
    assert list != [] ==> Registered(calls, list[0]) by {
      assert list != [] ==> list[0] in list;
    }
    forall x ensures Registered(calls, x) <==> x in list {}
  }

  // ----- firing --------------------------------------------------------------------------------------------------

  /** What handler code may do to the callbacks. */
  datatype Action =
    | Add(cb: Node)
    | Remove(cb: Node)
    | SetMask(cb: Node, mask: bv32)

  /** The registered callbacks in order, and every callback's pin mask. */
  datatype Board = Board(nodes: seq<Node>, masks: map<Node, bv32>)

  function Applied(b: Board, a: Action): Board {
    match a
    case Add(cb) => b.(nodes := Managed(b.nodes, cb, true).0)
    case Remove(cb) => b.(nodes := Managed(b.nodes, cb, false).0)
    case SetMask(cb, mask) => b.(masks := b.masks[cb := mask])
  }

  function AllApplied(b: Board, script: seq<Action>): Board
    decreases |script|
  {
    if script == [] then b else AllApplied(Applied(b, script[0]), script[1..])
  }

  /** The contract of include/drivers/gpio.h for code running in a handler: it may remove or re-add the callback that is
      running, and otherwise add or remove only callbacks that are not registered at that moment. */
  predicate Permitted(a: Action, running: Node, nodes: seq<Node>) {
    a.SetMask? || a.cb == running || a.cb !in nodes
  }

  predicate ScriptPermitted(script: seq<Action>, running: Node, b: Board)
    decreases |script|
  {
    script != [] ==>
      && script[0].cb in b.masks
      && Permitted(script[0], running, b.nodes)
      && ScriptPermitted(script[1..], running, Applied(b, script[0]))
  }

  /** The scripts permitted, action by action: what each finds when its time comes. */
  lemma {:induction false} ScriptPermittedIff(script: seq<Action>, running: Node, b: Board)
    ensures ScriptPermitted(script, running, b)
       <==> forall i :: 0 <= i < |script| ==>
              var found := AllApplied(b, script[..i]);
              script[i].cb in found.masks && (script[i].SetMask? || script[i].cb == running || script[i].cb !in found.nodes)
    decreases |script|
  {
    if script != [] {
      var rest, after := script[1..], Applied(b, script[0]);
      ScriptPermittedIff(rest, running, after);
      assert script[..0] == [];
      forall i | 0 <= i < |rest| ensures AllApplied(b, script[..i + 1]) == AllApplied(after, rest[..i]) && script[i + 1] == rest[i] {
        assert script[..i + 1][1..] == rest[..i];
      }
      assert forall i :: 0 < i < |script| ==> AllApplied(b, script[..i]) == AllApplied(after, rest[..i - 1]) && script[i] == rest[i - 1];
    }
  }

  /** The pins that concern a callback. */
  function Hits(mask: bv32, pins: bv32): bv32 { mask & pins }

  /** A pin of a 32-pin port. */
  type Pin = bv5

  /** Whether a mask has the pin. */
  predicate Has(mask: bv32, pin: Pin) { (mask >> pin) & 1 == 1 }

  /** What a handler is passed has exactly the pins that are in the callback's mask and triggered. */
  lemma HitsAreCommonPins(mask: bv32, pins: bv32)
    ensures forall pin: Pin :: Has(Hits(mask, pins), pin) <==> Has(mask, pin) && Has(pins, pin)
    ensures Hits(mask, pins) != 0 <==> exists pin: Pin :: Has(mask, pin) && Has(pins, pin)
  {
    forall pin: Pin ensures Has(Hits(mask, pins), pin) <==> Has(mask, pin) && Has(pins, pin) { CommonPin(mask, pins, pin); }
    hide Hits;
    hide Has;
    SomePin(Hits(mask, pins));
    forall pin: Pin ensures !Has(0, pin) { NoPin(pin); }
  }

  lemma CommonPin(mask: bv32, pins: bv32, pin: Pin)
    ensures Has(Hits(mask, pins), pin) <==> Has(mask, pin) && Has(pins, pin)
  {
  }

  lemma NoPin(pin: Pin)
    ensures !Has(0, pin)
  {
  }

  lemma SomePin(mask: bv32)
    ensures mask != 0 ==> exists pin: Pin :: Has(mask, pin)
  {
    hide Has;
    if forall pin: Pin :: !Has(mask, pin) {
      NoPinMeansZero(mask);
    }
  }

  lemma NoPinMeansZero(mask: bv32)
    requires forall pin: Pin :: !Has(mask, pin)
    ensures mask == 0
  {
    assert !Has(mask, 0) && !Has(mask, 1) && !Has(mask, 2) && !Has(mask, 3);
    assert !Has(mask, 4) && !Has(mask, 5) && !Has(mask, 6) && !Has(mask, 7);
    assert !Has(mask, 8) && !Has(mask, 9) && !Has(mask, 10) && !Has(mask, 11);
    assert !Has(mask, 12) && !Has(mask, 13) && !Has(mask, 14) && !Has(mask, 15);
    assert !Has(mask, 16) && !Has(mask, 17) && !Has(mask, 18) && !Has(mask, 19);
    assert !Has(mask, 20) && !Has(mask, 21) && !Has(mask, 22) && !Has(mask, 23);
    assert !Has(mask, 24) && !Has(mask, 25) && !Has(mask, 26) && !Has(mask, 27);
    assert !Has(mask, 28) && !Has(mask, 29) && !Has(mask, 30) && !Has(mask, 31);
  }

  /** One callback's turn: if its mask meets the pins it is called with the intersection.  `script` is what its handler,
      when called, happens to do. */
  function Turn(cb: Node, pins: bv32, script: seq<Action>, b: Board): (Board, seq<(Node, bv32)>) {
    if cb in b.masks && Hits(b.masks[cb], pins) != 0 then (AllApplied(b, script), [(cb, Hits(b.masks[cb], pins))]) else (b, [])
  }

  /** The mask and the triggered pins have a pin in common. */
  ghost predicate Due(mask: bv32, pins: bv32) { exists pin: Pin :: Has(mask, pin) && Has(pins, pin) }

  /** The pins passed are those in common, and no others. */
  ghost predicate Common(arg: bv32, mask: bv32, pins: bv32) {
    forall pin: Pin :: Has(arg, pin) <==> Has(mask, pin) && Has(pins, pin)
  }

  /** The calls a pass makes, pin by pin: each callback of the list in its turn, if a pin is due by the mask it then has, with
      the common pins; a handler that is called has run its script before the next turn. */
  ghost predicate CalledByPins(todo: seq<Node>, at: nat, pins: bv32, handlers: nat -> seq<Action>, b: Board,
                               calls: seq<(Node, bv32)>)
    decreases |todo|
  {
    if todo == [] then
      calls == []
    else if todo[0] in b.masks && Due(b.masks[todo[0]], pins) then
      && calls != [] && calls[0].0 == todo[0] && Common(calls[0].1, b.masks[todo[0]], pins)
      && CalledByPins(todo[1..], at + 1, pins, handlers, AllApplied(b, handlers(at)), calls[1..])
    else
      CalledByPins(todo[1..], at + 1, pins, handlers, b, calls)
  }

  lemma {:induction false} PassCallsByPins(todo: seq<Node>, at: nat, pins: bv32, handlers: nat -> seq<Action>, b: Board)
    ensures CalledByPins(todo, at, pins, handlers, b, Pass(todo, at, pins, handlers, b).1)
    decreases |todo|
  {
    hide Hits, Has, AllApplied, Due, Common;
    if todo != [] {
      var turn := Turn(todo[0], pins, handlers(at), b);
      PassCallsByPins(todo[1..], at + 1, pins, handlers, turn.0);
      var later := Pass(todo[1..], at + 1, pins, handlers, turn.0).1;
      assert turn.1 == [] ==> turn.1 + later == later;
      assert turn.1 != [] ==> (turn.1 + later)[1..] == later && (turn.1 + later)[0] == turn.1[0];
      if todo[0] in b.masks { DueMeansHit(b.masks[todo[0]], pins); }
    }
  }

  lemma DueMeansHit(mask: bv32, pins: bv32)
    ensures Due(mask, pins) <==> Hits(mask, pins) != 0
    ensures Common(Hits(mask, pins), mask, pins)
  {
    hide Hits, Has;
    HitsAreCommonPins(mask, pins);
  }

  /** A turn pin by pin: the callback is called, and its script run, exactly when a triggered pin is in its mask, and then with
      exactly the common pins, `mask & pins`. */
  lemma TurnByPins(cb: Node, pins: bv32, script: seq<Action>, b: Board)
    requires cb in b.masks
    ensures var turn := Turn(cb, pins, script, b);
            if Due(b.masks[cb], pins) then
              turn == (AllApplied(b, script), [(cb, b.masks[cb] & pins)]) && Common(b.masks[cb] & pins, b.masks[cb], pins)
            else
              turn == (b, [])
  {
    hide Has, Due, Common, AllApplied;
    DueMeansHit(b.masks[cb], pins);
  }

  predicate TurnPermitted(cb: Node, pins: bv32, script: seq<Action>, b: Board) {
    cb in b.masks && Hits(b.masks[cb], pins) != 0 ==> ScriptPermitted(script, cb, b)
  }

  /** The reference pass: walk the list as it was on entry, looking at each mask when its turn comes.  `handlers(i)` is
      the behaviour of the handler at position `i`. */
  function Pass(todo: seq<Node>, at: nat, pins: bv32, handlers: nat -> seq<Action>, b: Board): (Board, seq<(Node, bv32)>)
    decreases |todo|
  {
    if todo == [] then
      (b, [])
    else
      var turn := Turn(todo[0], pins, handlers(at), b);
      var later := Pass(todo[1..], at + 1, pins, handlers, turn.0);
      (later.0, turn.1 + later.1)
  }

  predicate PassPermitted(todo: seq<Node>, at: nat, pins: bv32, handlers: nat -> seq<Action>, b: Board)
    decreases |todo|
  {
    todo != [] ==>
      && TurnPermitted(todo[0], pins, handlers(at), b)
      && PassPermitted(todo[1..], at + 1, pins, handlers, Turn(todo[0], pins, handlers(at), b).0)
  }

  /** The calls made so far and the rest of the pass make up the whole pass. */
  ghost predicate OnTrack(whole: (Board, seq<(Node, bv32)>), calls: seq<(Node, bv32)>, todo: seq<Node>, at: nat, pins: bv32,
                          handlers: nat -> seq<Action>, b: Board)
  {
    && PassPermitted(todo, at, pins, handlers, b)
    && whole == (Pass(todo, at, pins, handlers, b).0, calls + Pass(todo, at, pins, handlers, b).1)
  }

  lemma OnTrackFromStart(todo: seq<Node>, pins: bv32, handlers: nat -> seq<Action>, b: Board)
    requires PassPermitted(todo, 0, pins, handlers, b)
    ensures OnTrack(Pass(todo, 0, pins, handlers, b), [], todo, 0, pins, handlers, b)
  {
    hide Turn;
    var calls := Pass(todo, 0, pins, handlers, b).1;
    assert [] + calls == calls;
  }

  lemma OnTrackForTurn(whole: (Board, seq<(Node, bv32)>), calls: seq<(Node, bv32)>, todo: seq<Node>, at: nat, pins: bv32,
                       handlers: nat -> seq<Action>, b: Board)
    requires todo != [] && OnTrack(whole, calls, todo, at, pins, handlers, b)
    ensures TurnPermitted(todo[0], pins, handlers(at), b)
    ensures var turn := Turn(todo[0], pins, handlers(at), b);
            OnTrack(whole, calls + turn.1, todo[1..], at + 1, pins, handlers, turn.0)
  {
    hide Turn; hide TurnPermitted;
    var turn := Turn(todo[0], pins, handlers(at), b);
    var later := Pass(todo[1..], at + 1, pins, handlers, turn.0).1;
    assert (calls + turn.1) + later == calls + (turn.1 + later);
  }

  lemma OnTrackAtEnd(whole: (Board, seq<(Node, bv32)>), calls: seq<(Node, bv32)>, at: nat, pins: bv32,
                     handlers: nat -> seq<Action>, b: Board)
    requires OnTrack(whole, calls, [], at, pins, handlers, b)
    ensures whole == (b, calls)
  {
    assert calls + [] == calls;
  }

  lemma {:induction false} MasksKept(b: Board, script: seq<Action>)
    requires forall a :: a in script ==> !a.SetMask?
    ensures AllApplied(b, script).masks == b.masks
    decreases |script|
  {
    if script != [] {
      MasksKept(Applied(b, script[0]), script[1..]);
    }
  }

  function HitCalls(todo: seq<Node>, pins: bv32, masks: map<Node, bv32>): seq<(Node, bv32)> {
    if todo == [] then []
    else (if todo[0] in masks && Hits(masks[todo[0]], pins) != 0 then [(todo[0], Hits(masks[todo[0]], pins))] else [])
         + HitCalls(todo[1..], pins, masks)
  }

  /** While no handler touches a pin mask, registrations and removals during the pass have no influence on who is called:
      the calls are those the list and masks on entry call for. */
  lemma {:induction false} CallsFixedOnEntry(todo: seq<Node>, at: nat, pins: bv32, handlers: nat -> seq<Action>, b: Board)
    requires forall i: nat, a :: a in handlers(i) ==> !a.SetMask?
    ensures Pass(todo, at, pins, handlers, b).1 == HitCalls(todo, pins, b.masks)
    decreases |todo|
  {
    if todo != [] {
      hide Hits;
      MasksKept(b, handlers(at));
      CallsFixedOnEntry(todo[1..], at + 1, pins, handlers, Turn(todo[0], pins, handlers(at), b).0);
    }
  }

  lemma {:induction false} HitCallMembers(todo: seq<Node>, pins: bv32, masks: map<Node, bv32>, cb: Node, arg: bv32)
    ensures (cb, arg) in HitCalls(todo, pins, masks)
       <==> cb in todo && cb in masks && Hits(masks[cb], pins) != 0 && arg == Hits(masks[cb], pins)
  {
    hide Hits;
    if todo != [] {
      HitCallMembers(todo[1..], pins, masks, cb, arg);
      assert cb in todo <==> cb == todo[0] || cb in todo[1..];
    }
  }

  /** Exactly the callbacks due are called, with their common pins. */
  lemma HitCallsByPins(todo: seq<Node>, pins: bv32, masks: map<Node, bv32>, cb: Node, arg: bv32)
    ensures (cb, arg) in HitCalls(todo, pins, masks)
       <==> cb in todo && cb in masks && Due(masks[cb], pins) && arg == masks[cb] & pins
  {
    hide Has, Due, HitCalls;
    HitCallMembers(todo, pins, masks, cb, arg);
    if cb in masks { DueMeansHit(masks[cb], pins); }
  }

  ghost function MasksOf(world: set<Node>): map<Node, bv32>
    reads world
  {
    map n | n in world :: n.payload.pinMask
  }

  ghost predicate EndsWith<T>(s: seq<T>, suffix: seq<T>) {
    |suffix| <= |s| && s[|s| - |suffix|..] == suffix
  }

  /** Moving or dropping an element that is not in the suffix leaves the suffix in place. */
  lemma {:induction false} WithoutKeepsSuffix<T>(s: seq<T>, suffix: seq<T>, x: T)
    requires EndsWith(s, suffix) && x !in suffix
    ensures EndsWith(Without(s, x), suffix)
  {
    if |s| > |suffix| && s[0] != x {
      WithoutKeepsSuffix(s[1..], suffix, x);
    }
  }

  lemma ManagedKeepsSuffix<T>(s: seq<T>, suffix: seq<T>, x: T, add: bool)
    requires EndsWith(s, suffix) && x !in suffix
    ensures EndsWith(Managed(s, x, add).0, suffix)
  {
    WithoutKeepsSuffix(s, suffix, x);
  }

  ghost predicate Within(nodes: seq<Node>, world: set<Node>) {
    forall n :: n in nodes ==> n in world
  }

  ghost function BoardOf(callbacks: SList<Callback>, world: set<Node>): Board
    reads callbacks, world
  {
    Board(callbacks.nodes, MasksOf(world))
  }

  method RunManage(callbacks: SList<Callback>, cb: Node, add: bool, ghost world: set<Node>, ghost rest: seq<Node>)
    requires callbacks.Valid() && Within(callbacks.nodes, world) && cb in world
    requires EndsWith(callbacks.nodes, rest) && cb !in rest
    modifies callbacks, world
    ensures callbacks.Valid() && Within(callbacks.nodes, world) && EndsWith(callbacks.nodes, rest)
    ensures callbacks.nodes == Managed(old(callbacks.nodes), cb, add).0
    ensures MasksOf(world) == old(MasksOf(world))
  {
    ManagedKeepsSuffix(callbacks.nodes, rest, cb, add);
    var _ := ManageCallback(callbacks, cb, add);
  }

  /** One permitted action of a running handler. */
  method RunAction(callbacks: SList<Callback>, a: Action, ghost running: Node, ghost world: set<Node>, ghost rest: seq<Node>)
    requires callbacks.Valid() && Within(callbacks.nodes, world)
    requires a.cb in world && Permitted(a, running, callbacks.nodes)
    requires EndsWith(callbacks.nodes, rest) && running !in rest
    modifies callbacks, world
    ensures callbacks.Valid() && Within(callbacks.nodes, world) && EndsWith(callbacks.nodes, rest)
    ensures BoardOf(callbacks, world) == Applied(old(BoardOf(callbacks, world)), a)
  {
    assert a.cb in rest ==> a.cb in callbacks.nodes;
    match a
    case Add(cb) => RunManage(callbacks, cb, true, world, rest);
    case Remove(cb) => RunManage(callbacks, cb, false, world, rest);
    case SetMask(cb, mask) => cb.payload := cb.payload.(pinMask := mask);
  }

  /** A handler invocation: any sequence of permitted actions. */
  method RunHandler(callbacks: SList<Callback>, script: seq<Action>, ghost running: Node, ghost world: set<Node>,
                    ghost rest: seq<Node>)
    requires callbacks.Valid() && Within(callbacks.nodes, world)
    requires ScriptPermitted(script, running, BoardOf(callbacks, world))
    requires EndsWith(callbacks.nodes, rest) && running !in rest
    modifies callbacks, world
    ensures callbacks.Valid() && Within(callbacks.nodes, world) && EndsWith(callbacks.nodes, rest)
    ensures BoardOf(callbacks, world) == AllApplied(old(BoardOf(callbacks, world)), script)
  {
    var todo := script;
    while todo != []
      invariant callbacks.Valid() && Within(callbacks.nodes, world) && EndsWith(callbacks.nodes, rest)
      invariant ScriptPermitted(todo, running, BoardOf(callbacks, world))
      invariant AllApplied(BoardOf(callbacks, world), todo) == AllApplied(old(BoardOf(callbacks, world)), script)
      decreases |todo|
    {
      RunAction(callbacks, todo[0], running, world, rest);
      todo := todo[1..];
    }
  }

  /** The body of the loop in `gpio_fire_callbacks`. */
  method Visit(callbacks: SList<Callback>, cb: Node, pins: bv32, script: seq<Action>, ghost world: set<Node>,
               ghost rest: seq<Node>)
    returns (fired: seq<(Node, bv32)>)
    requires callbacks.Valid() && Within(callbacks.nodes, world) && cb in world
    requires EndsWith(callbacks.nodes, rest) && cb !in rest
    requires TurnPermitted(cb, pins, script, BoardOf(callbacks, world))
    modifies callbacks, world
    ensures callbacks.Valid() && Within(callbacks.nodes, world) && EndsWith(callbacks.nodes, rest)
    ensures (BoardOf(callbacks, world), fired) == Turn(cb, pins, script, old(BoardOf(callbacks, world)))
  {
    hide AllApplied, ScriptPermitted, EndsWith, Hits;
    fired := [];
    if Hits(cb.payload.pinMask, pins) != 0 {
      fired := [(cb, Hits(cb.payload.pinMask, pins))];
      RunHandler(callbacks, script, cb, world, rest);
    }
  }

  /** `gpio_fire_callbacks`.  It always ends, visits exactly the callbacks registered on entry, in order and once each, and
      calls those and only those whose mask meets the pins at their turn, whatever permitted changes handlers make. */
  method FireCallbacks(callbacks: SList<Callback>, pins: bv32, handlers: nat -> seq<Action>, ghost world: set<Node>)
    returns (visited: seq<Node>, calls: seq<(Node, bv32)>)
    requires callbacks.Valid() && Within(callbacks.nodes, world)
    requires PassPermitted(callbacks.nodes, 0, pins, handlers, BoardOf(callbacks, world))
    modifies callbacks, world
    ensures callbacks.Valid() && Within(callbacks.nodes, world)
    ensures visited == old(callbacks.nodes)
    ensures (BoardOf(callbacks, world), calls)
         == Pass(old(callbacks.nodes), 0, pins, handlers, old(BoardOf(callbacks, world)))
    ensures CalledByPins(old(callbacks.nodes), 0, pins, handlers, old(BoardOf(callbacks, world)), calls)
  {
    hide Pass; hide PassPermitted; hide OnTrack; hide BoardOf; hide Turn; hide TurnPermitted; hide EndsWith; hide Within;
    hide Chained; hide NoDuplicates; hide CalledByPins;
    hide Has, Due, Common, Hits, AllApplied, ScriptPermitted, MasksOf;
    ghost var todo := callbacks.nodes;
    EndsWithItself(todo);
    NextInSuffix(callbacks, todo);
    ghost var whole := Pass(todo, 0, pins, handlers, BoardOf(callbacks, world));
    OnTrackFromStart(todo, pins, handlers, BoardOf(callbacks, world));
    PassCallsByPins(todo, 0, pins, handlers, BoardOf(callbacks, world));
    visited, calls := [], [];
    var cb := callbacks.head;
    var tmp := if cb != null then cb.next else null;
    while cb != null
      invariant callbacks.Valid() && Within(callbacks.nodes, world)
      invariant visited + todo == old(callbacks.nodes) && EndsWith(callbacks.nodes, todo)
      invariant cb == if todo != [] then todo[0] else null
      invariant tmp == if |todo| > 1 then todo[1] else null
      invariant OnTrack(whole, calls, todo, |visited|, pins, handlers, BoardOf(callbacks, world))
      decreases |todo|
    {
      var here: Node := cb;
      FrontOf(callbacks, todo, world);
      OnTrackForTurn(whole, calls, todo, |visited|, pins, handlers, BoardOf(callbacks, world));
      var fired := Visit(callbacks, here, pins, handlers(|visited|), world, todo[1..]);
      assert (visited + [here]) + todo[1..] == visited + todo;
      calls := calls + fired;
      visited := visited + [here];
      todo := todo[1..];
      cb := tmp;
      NextInSuffix(callbacks, todo);
      tmp := if cb != null then cb.next else null;
    }
    OnTrackAtEnd(whole, calls, |visited|, pins, handlers, BoardOf(callbacks, world));
    assert visited + [] == visited;
  }

  lemma EndsWithItself<T>(s: seq<T>)
    ensures EndsWith(s, s)
  {
  }

  lemma NextInSuffix(callbacks: SList<Callback>, rest: seq<Node>)
    requires callbacks.Valid() && EndsWith(callbacks.nodes, rest)
    ensures rest != [] ==> rest[0].next == if |rest| > 1 then rest[1] else null
  {
    var k := |callbacks.nodes| - |rest|;
    assert forall i :: 0 <= i < |rest| ==> rest[i] == callbacks.nodes[k + i];
  }

  lemma FrontOf(callbacks: SList<Callback>, suffix: seq<Node>, world: set<Node>)
    requires callbacks.Valid() && Within(callbacks.nodes, world) && EndsWith(callbacks.nodes, suffix) && suffix != []
    ensures EndsWith(callbacks.nodes, suffix[1..]) && suffix[0] in world && suffix[0] !in suffix[1..]
  {
    var k := |callbacks.nodes| - |suffix|;
    assert forall i :: 0 <= i < |suffix| ==> suffix[i] == callbacks.nodes[k + i];
  }
}
