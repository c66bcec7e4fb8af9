/** The library's own event system: the listener registry
    (`EVENT_LISTENERS`, `addEventListener`, `callEventListener`) and the
    mutation callback that turns DOM mutations touching a selection overlay
    into a `selectionchange` event. */
module Events {
  import opened Base
  import ClassList
  import Selectors

  /** Listeners are opaque callbacks; they are told apart by identity. */
  type ListenerId = nat

  const SelectionChange := "selectionchange"

  /** One call `listener({ type })`. */
  datatype Invocation = Invocation(listener: ListenerId, eventType: string)

  /** A node of a mutation record; text nodes have no class list. */
  datatype Node = Node(classList: Option<seq<string>>)

  /** A `childList` mutation record. */
  datatype Mutation = Mutation(addedNodes: seq<Node>, removedNodes: seq<Node>)

  /** `Array.from(node.classList || [])`. */
  function ClassesOf(node: Node): seq<string> {
    if node.classList.Some? then node.classList.value else []
  }

  /** `classList.some((value) => nodeClasses.includes(value))`. */
  predicate Touches(classList: seq<string>, node: Node) {
    exists i | 0 <= i < |classList| :: classList[i] in ClassesOf(node)
  }

  /** Some node the mutation adds or removes carries one of the classes. */
  predicate MutationTouches(classList: seq<string>, mu: Mutation) {
    || (exists j | 0 <= j < |mu.addedNodes| :: Touches(classList, mu.addedNodes[j]))
    || (exists j | 0 <= j < |mu.removedNodes| :: Touches(classList, mu.removedNodes[j]))
  }

  /** The flag `mutationCallback` accumulates over a batch of mutations. */
  method DetectSelectionChange(mutations: seq<Mutation>, classList: seq<string>) returns (fire: bool)
    ensures fire <==> exists i | 0 <= i < |mutations| :: MutationTouches(classList, mutations[i])
  {
    fire := false;
    for i := 0 to |mutations|
      invariant fire <==> exists k | 0 <= k < i :: MutationTouches(classList, mutations[k])
    {
      var mutation := mutations[i];
      ghost var before := fire;
      for j := 0 to |mutation.addedNodes|
        invariant fire <==> before || exists k | 0 <= k < j :: Touches(classList, mutation.addedNodes[k])
      {
        fire := fire || Touches(classList, mutation.addedNodes[j]);
      }
      ghost var afterAdded := fire;
      for j := 0 to |mutation.removedNodes|
        invariant fire <==> afterAdded || exists k | 0 <= k < j :: Touches(classList, mutation.removedNodes[k])
      {
        fire := fire || Touches(classList, mutation.removedNodes[j]);
      }
      assert fire <==> before || MutationTouches(classList, mutation);
    }
  }

  /** The calls `callEventListener` makes for a list of listeners, in
      registration order. */
  function Invocations(ls: seq<ListenerId>, eventType: string): seq<Invocation> {
    seq(|ls|, i requires 0 <= i < |ls| => Invocation(ls[i], eventType))
  }

  /** The listeners whose call throws, in order: each of them is reported
      with `console.error`. */
  function Throwing(ls: seq<ListenerId>, throws: ListenerId -> bool): (r: seq<ListenerId>)
    ensures forall l :: l in r <==> l in ls && throws(l)
    ensures |r| <= |ls|
    decreases |ls|
  {
    if ls == [] then []
    else Throwing(ls[..|ls| - 1], throws) + (if throws(ls[|ls| - 1]) then [ls[|ls| - 1]] else [])
  }

  /** Reports keep the listeners' order: a batch of listeners split in two
      is reported as the reports of the first part, then of the second. */
  lemma {:induction false} ThrowingAppend(a: seq<ListenerId>, b: seq<ListenerId>, throws: ListenerId -> bool)
    ensures Throwing(a + b, throws) == Throwing(a, throws) + Throwing(b, throws)
    decreases |b|
  {
    if b == [] {
      assert a + b == a;
    } else {
      var last := b[|b| - 1];
      var init := b[..|b| - 1];
      assert (a + b)[..|a + b| - 1] == a + init;
      assert (a + b)[|a + b| - 1] == last;
      ThrowingAppend(a, init, throws);
    }
  }

  /** The classes of `.kix-selection-overlay`, as `selectorsToClassList`
      derives them. */
  const OverlayClassList := ["kix-selection-overlay"]

  class EventListeners {
    /** `EVENT_LISTENERS`: event type to its listeners. */
    var listeners: map<string, seq<ListenerId>>
    /** Every listener call made so far. */
    var calls: seq<Invocation>
    /** Every listener reported through `console.error`. */
    var consoleErrors: seq<ListenerId>
    /** `KIX_SELECTION_OVERLAY_CLASS_LIST`, computed once at load time. */
    const overlayClassList: seq<string>

    /** A type is registered only together with its first listener. */
    ghost predicate Valid()
      reads this
    {
      && (forall t | t in listeners :: listeners[t] != [])
      && overlayClassList == OverlayClassList
    }

    constructor()
      ensures Valid()
      ensures listeners == map[] && calls == [] && consoleErrors == []
      ensures overlayClassList == ClassList.ClassList(Selectors.KixSelectionOverlay)
    {
      var classList := ClassList.SelectorsToClassList(Selectors.KixSelectionOverlay);
      ClassList.SelectionOverlayClassList();
      overlayClassList := classList;
      listeners := map[];
      calls := [];
      consoleErrors := [];
    }

    /** The listeners of a type, none when it was never registered. */
    function ListenersOf(eventType: string): seq<ListenerId>
      reads this
    {
      if eventType in listeners then listeners[eventType] else []
    }

    /** `addEventListener`: append to the type's list, creating it first. */
    method AddEventListener(eventType: string, listener: ListenerId)
      requires Valid()
      modifies this
      ensures Valid()
      ensures listeners == old(listeners)[eventType := old(ListenersOf(eventType)) + [listener]]
      ensures calls == old(calls) && consoleErrors == old(consoleErrors)
    {
      if eventType !in listeners {
        listeners := listeners[eventType := []];
      }
      listeners := listeners[eventType := listeners[eventType] + [listener]];
    }

    /** `callEventListener`: call every listener of the type in order; a
        listener that throws is reported and the loop goes on. Which
        listeners throw is a parameter. */
    method CallEventListener(eventType: string, throws: ListenerId -> bool)
      requires Valid()
      modifies this
      ensures Valid()
      ensures listeners == old(listeners)
      ensures calls == old(calls) + Invocations(ListenersOf(eventType), eventType)
      ensures consoleErrors == old(consoleErrors) + Throwing(ListenersOf(eventType), throws)
    {
      if eventType !in listeners {
        return;
      }
      var ls := listeners[eventType];
      for i := 0 to |ls|
        invariant listeners == old(listeners)
        invariant calls == old(calls) + Invocations(ls[..i], eventType)
        invariant consoleErrors == old(consoleErrors) + Throwing(ls[..i], throws)
      {
        var listener := ls[i];
        calls := calls + [Invocation(listener, eventType)];
        if throws(listener) {
          consoleErrors := consoleErrors + [listener];
        }
        assert ls[..i + 1][..i] == ls[..i];
        assert Invocations(ls[..i + 1], eventType) == Invocations(ls[..i], eventType) + [Invocation(listener, eventType)];
      }
      assert ls[..|ls|] == ls;
    }

    /** `mutationCallback`: one `selectionchange` dispatch for the whole batch
        when some added or removed node carries a selection-overlay class. */
    method MutationCallback(mutations: seq<Mutation>, throws: ListenerId -> bool)
      requires Valid()
      modifies this
      ensures Valid()
      ensures listeners == old(listeners)
      ensures (exists i | 0 <= i < |mutations| :: MutationTouches(overlayClassList, mutations[i])) ==>
        && calls == old(calls) + Invocations(ListenersOf(SelectionChange), SelectionChange)
        && consoleErrors == old(consoleErrors) + Throwing(ListenersOf(SelectionChange), throws)
      ensures !(exists i | 0 <= i < |mutations| :: MutationTouches(overlayClassList, mutations[i])) ==>
        calls == old(calls) && consoleErrors == old(consoleErrors)
    {
      var selectionChangeEvent := DetectSelectionChange(mutations, overlayClassList);
      if selectionChangeEvent {
        CallEventListener(SelectionChange, throws);
      }
    }
  }

  /** A mutation that adds or removes an element carrying the class
      `kix-selection-overlay` is a selection change. */
  lemma OverlayNodeTouches(node: Node, mu: Mutation)
    requires node.classList.Some? && "kix-selection-overlay" in node.classList.value
    requires node in mu.addedNodes || node in mu.removedNodes
    ensures MutationTouches(OverlayClassList, mu)
  {
    var classList := OverlayClassList;
    assert classList[0] in ClassesOf(node);
    assert Touches(classList, node);
    if node in mu.addedNodes {
      var j :| 0 <= j < |mu.addedNodes| && mu.addedNodes[j] == node;
    } else {
      var j :| 0 <= j < |mu.removedNodes| && mu.removedNodes[j] == node;
    }
  }
}
