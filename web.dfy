/**
 * The parts of the browser and of the GSAP library that the magnetic hover
 * controller talks to, reduced to the state they keep:
 *  - requestAnimationFrame / cancelAnimationFrame: a counter of positive handles
 *    and the map of pending handles to the attachment whose callback they run;
 *  - addEventListener / removeEventListener: the set of registered listeners;
 *  - gsap.to / gsap.set: an append-only log of requested property writes.
 * Layout, frame timing, event dispatch and tween interpolation are not modelled.
 */
module Web {
  import opened Common

  /** An element of the page, identified by an opaque number. */
  type ElementId = nat

  /** A point in viewport coordinates (a pointer sample or an offset). */
  datatype Vec = Vec(x: real, y: real)

  /** The result of `getBoundingClientRect()`. */
  datatype Rect = Rect(left: real, top: real, width: real, height: real)

  datatype EventType = MouseEnter | MouseLeave | MouseMove

  /**
   * A registered listener. The handler is the closure of one attachment for
   * one event type, so the pair (event, handler) identifies the function.
   */
  datatype Listener = Listener(element: ElementId, event: EventType, handler: object)

  /** The animated properties named in a GSAP call; `None` when not mentioned. */
  datatype Props = Props(x: Option<real>, y: Option<real>, scale: Option<real>)

  /**
   * One requested GSAP write: `gsap.to(target, {...props, duration, ease})` or
   * `gsap.set(target, props)`. The target is `None` when the code passed
   * `null`/`undefined`, which GSAP ignores with a warning.
   */
  datatype GsapCall =
    | To(target: Option<ElementId>, props: Props, duration: real, ease: string)
    | Set(target: Option<ElementId>, props: Props)

  /**
   * JavaScript truthiness of a frame handle or `null` (`if (animationId)`):
   * `null` and the number 0 are falsy, every positive handle is truthy.
   */
  predicate Truthy(handle: Option<nat>): (r: bool)
    ensures handle.Some? && handle.value > 0 ==> r
    ensures handle.None? || handle == Some(0) ==> !r
  {
    handle.Some? && handle.value != 0
  }

  /** The three listeners one attachment registers on `element`. */
  function Handlers(element: ElementId, handler: object): (ls: set<Listener>)
    ensures |ls| == 3
    ensures Listener(element, MouseEnter, handler) in ls && Listener(element, MouseLeave, handler) in ls
    ensures Listener(element, MouseMove, handler) in ls
    ensures forall l :: l in ls ==> l.element == element && l.handler == handler
  {
    {Listener(element, MouseEnter, handler), Listener(element, MouseLeave, handler), Listener(element, MouseMove, handler)}
  }

  /** The page and the libraries the controller calls, shared by every attachment. */
  class Browser {
    /** The last handle `requestAnimationFrame` returned (0 before the first). */
    var lastHandle: nat
    /** Handles requested and neither cancelled nor fired, with their callback's owner. */
    var pending: map<nat, object>
    var listeners: set<Listener>
    /** Every GSAP call made so far, oldest first. */
    var gsapLog: seq<GsapCall>

    /** Handles are positive and never handed out twice. */
    ghost predicate Valid()
      reads this
    {
      forall h :: h in pending ==> 0 < h <= lastHandle
    }

    constructor ()
      ensures Valid()
      ensures lastHandle == 0 && pending == map[] && listeners == {} && gsapLog == []
    {
      lastHandle, pending, listeners, gsapLog := 0, map[], {}, [];
    }

    method RequestAnimationFrame(callback: object) returns (h: nat)
      requires Valid()
      modifies this`lastHandle, this`pending
      ensures Valid()
      ensures h == old(lastHandle) + 1 && h > 0 && h !in old(pending)
      ensures lastHandle == h && pending == old(pending)[h := callback]
    {
      lastHandle := lastHandle + 1;
      h := lastHandle;
      pending := pending[h := callback];
    }

    /** Cancelling a handle that is not pending does nothing. */
    method CancelAnimationFrame(h: nat)
      requires Valid()
      modifies this`pending
      ensures Valid()
      ensures pending == old(pending) - {h}
    {
      pending := pending - {h};
    }

    /** The browser runs the callback of a pending frame: the handle stops being pending. */
    method FireFrame(h: nat) returns (callback: object)
      requires Valid() && h in pending
      modifies this`pending
      ensures Valid()
      ensures callback == old(pending)[h] && pending == old(pending) - {h}
    {
      callback := pending[h];
      pending := pending - {h};
    }

    /** Registering the same listener twice keeps one copy, as the DOM does. */
    method AddEventListener(element: ElementId, event: EventType, handler: object)
      modifies this`listeners
      ensures listeners == old(listeners) + {Listener(element, event, handler)}
    {
      listeners := listeners + {Listener(element, event, handler)};
    }

    method RemoveEventListener(element: ElementId, event: EventType, handler: object)
      modifies this`listeners
      ensures listeners == old(listeners) - {Listener(element, event, handler)}
    {
      listeners := listeners - {Listener(element, event, handler)};
    }

    method GsapTo(target: Option<ElementId>, props: Props, duration: real, ease: string)
      modifies this`gsapLog
      ensures gsapLog == old(gsapLog) + [To(target, props, duration, ease)]
    {
      gsapLog := gsapLog + [To(target, props, duration, ease)];
    }

    method GsapSet(target: Option<ElementId>, props: Props)
      modifies this`gsapLog
      ensures gsapLog == old(gsapLog) + [Set(target, props)]
    {
      gsapLog := gsapLog + [Set(target, props)];
    }
  }

  /** Detaching an attachment's handlers twice leaves the same listeners as once. */
  lemma DetachIdempotent(ls: set<Listener>, element: ElementId, handler: object)
    ensures (ls - Handlers(element, handler)) - Handlers(element, handler) == ls - Handlers(element, handler)
  {
  }

  /** Detaching removes exactly what attaching added: other listeners come back untouched. */
  lemma DetachUndoesAttach(ls: set<Listener>, element: ElementId, handler: object)
    ensures (ls + Handlers(element, handler)) - Handlers(element, handler) == ls - Handlers(element, handler)
    ensures (forall l :: l in ls ==> l.handler != handler) ==>
              (ls + Handlers(element, handler)) - Handlers(element, handler) == ls
  {
  }
}
