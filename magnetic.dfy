/**
 * The magnetic hover effect of src/composables/useMagnetic.js.
 *
 * One attachment follows the pointer over an element: `mouseenter` measures the
 * element and starts a frame loop, `mousemove` sets an attraction target
 * proportional to the pointer's offset from the element's centre, each frame
 * moves the smoothed offset `pos` a fraction `ease` of the way to the target and
 * writes it with `gsap.set`, and `mouseleave` stops the loop and tweens back.
 *
 * The source holds two copies of this logic with small differences, modelled as
 * two classes: `MagneticHook` (the `useMagnetic` composable) and
 * `MagneticDirective` (the `v-magnetic` directive).
 */
module Magnetic {
  import opened Common
  import opened Web

  // ---------------------------------------------------------------------------
  // Configuration

  const DefaultStrength: real := 0.3
  const DefaultEase: real := 0.1
  const DefaultScale: real := 1.05
  /** The directive never reads an `ease` option: every frame moves a tenth of the way. */
  const DirectiveEase: real := 0.1

  const EnterDuration: real := 0.3
  const EnterEase: string := "power2.out"
  const LeaveDuration: real := 0.5
  const LeaveEase: string := "elastic.out(1, 0.3)"

  /** The options object; a field is `None` when the property is missing (`undefined`). */
  datatype MagneticOptions = MagneticOptions(strength: Option<real>, ease: Option<real>, scale: Option<real>)

  /**
   * A destructuring default `{ p = d } = options`: only a missing property takes
   * `d`. It agrees with `||` defaulting except that an explicit 0 is kept.
   */
  function DestructuringDefault(given: Option<real>, default: real): (r: real)
    ensures given != Some(0.0) ==> r == OrDefault(given, default)
    ensures given == Some(0.0) ==> r == 0.0
  {
    if given.Some? then given.value else default
  }

  /** `given || default`: a missing property and a falsy 0 both take `default`, so the result is never 0. */
  function OrDefault(given: Option<real>, default: real): (r: real)
    ensures default != 0.0 ==> r != 0.0
  {
    if given.Some? && given.value != 0.0 then given.value else default
  }

  /** The two defaulting rules disagree exactly on an explicit 0 (with a non-zero default). */
  lemma DefaultingDiffersOnlyOnZero(given: Option<real>, default: real)
    ensures DestructuringDefault(given, default) != OrDefault(given, default)
            <==> given == Some(0.0) && default != 0.0
  {
  }

  /**
   * `binding.value?.p` reads `undefined` for every `p` when the directive has no
   * value, so an absent binding gives the default strength and scale.
   */
  function BindingOptions(binding: Option<MagneticOptions>): (r: MagneticOptions)
    ensures binding.Some? ==> r == binding.value
    ensures binding.None? ==> OrDefault(r.strength, DefaultStrength) == DefaultStrength
    ensures binding.None? ==> OrDefault(r.scale, DefaultScale) == DefaultScale
  {
    if binding.Some? then binding.value else MagneticOptions(None, None, None)
  }

  // ---------------------------------------------------------------------------
  // The arithmetic of one attachment, on values

  /** The centre of a box: its top-left corner moved by half its size. */
  function Center(b: Rect): (c: Vec)
    ensures b.width == 0.0 && b.height == 0.0 ==> c == Vec(b.left, b.top)
    ensures 0.0 <= b.width ==> b.left <= c.x <= b.left + b.width
    ensures 0.0 <= b.height ==> b.top <= c.y <= b.top + b.height
    ensures c.x - b.left == b.left + b.width - c.x && c.y - b.top == b.top + b.height - c.y
  {
    Vec(b.left + b.width / 2.0, b.top + b.height / 2.0)
  }

  /** The attraction target set by a pointer move: the pointer's offset from the centre, scaled. */
  function AttractionTarget(b: Rect, pointer: Vec, strength: real): (m: Vec)
    ensures pointer == Center(b) ==> m == Vec(0.0, 0.0)
  {
    var c := Center(b);
    Vec((pointer.x - c.x) * strength, (pointer.y - c.y) * strength)
  }

  /** With a positive strength the target points from the centre towards the pointer on each axis. */
  lemma AttractionPointsToPointer(b: Rect, pointer: Vec, strength: real)
    requires strength > 0.0
    ensures var m, c := AttractionTarget(b, pointer, strength), Center(b);
      && (m.x > 0.0 <==> pointer.x > c.x) && (m.x < 0.0 <==> pointer.x < c.x)
      && (m.y > 0.0 <==> pointer.y > c.y) && (m.y < 0.0 <==> pointer.y < c.y)
  {
    var c := Center(b);
    SignOfProduct(pointer.x - c.x, strength);
    SignOfProduct(pointer.y - c.y, strength);
  }

  lemma SignOfProduct(d: real, k: real)
    requires k > 0.0
    ensures (d * k > 0.0 <==> d > 0.0) && (d * k < 0.0 <==> d < 0.0)
  {
    if d > 0.0 {
      NonNegativeProduct(d, k);
      assert d * k != 0.0;
    } else if d < 0.0 {
      NonNegativeProduct(-d, k);
      assert d * k != 0.0;
    }
  }

  /** `p` lies on the closed segment from `from` to `to`. */
  predicate Between(p: real, from: real, to: real) {
    (from <= to ==> from <= p <= to) && (to <= from ==> to <= p <= from)
  }

  lemma NonNegativeProduct(a: real, b: real)
    requires 0.0 <= a && 0.0 <= b
    ensures 0.0 <= a * b
  {
  }

  /** The arithmetic behind `Step`, with the product `s` named so the solver treats it as one term. */
  lemma StepFacts(p: real, t: real, ease: real, s: real)
    requires s == (t - p) * ease
    ensures p + s - t == (1.0 - ease) * (p - t)
    ensures 0.0 <= ease <= 1.0 ==> Between(p + s, p, t)
  {
    if 0.0 <= ease <= 1.0 {
      if p <= t {
        NonNegativeProduct(t - p, ease);
        NonNegativeProduct(t - p, 1.0 - ease);
      } else {
        NonNegativeProduct(p - t, ease);
        NonNegativeProduct(p - t, 1.0 - ease);
      }
    }
  }

  /**
   * One axis of one frame: `p += (t - p) * ease`. The gap to the target is
   * scaled by exactly `1 - ease`, so for `ease` in [0, 1] the step stays
   * between the old value and the target.
   */
  function Step(p: real, t: real, ease: real): (q: real)
    ensures q - t == (1.0 - ease) * (p - t)
    ensures 0.0 <= ease <= 1.0 ==> Between(q, p, t)
  {
    var s := (t - p) * ease;
    StepFacts(p, t, ease, s);
    p + s
  }

  /** One frame on both axes: the new smoothed offset. */
  function Lerp(pos: Vec, target: Vec, ease: real): (r: Vec)
    ensures r.x - target.x == (1.0 - ease) * (pos.x - target.x)
    ensures r.y - target.y == (1.0 - ease) * (pos.y - target.y)
    ensures 0.0 <= ease <= 1.0 ==> Between(r.x, pos.x, target.x) && Between(r.y, pos.y, target.y)
    ensures ease == 1.0 ==> r == target
  {
    Vec(Step(pos.x, target.x, ease), Step(pos.y, target.y, ease))
  }

  /** `Lerp` is the two in-place updates `pos.x += (mouse.x - pos.x) * ease` and the same for `y`. */
  lemma LerpIsUpdate(pos: Vec, target: Vec, ease: real)
    ensures Lerp(pos, target, ease) == Vec(pos.x + (target.x - pos.x) * ease, pos.y + (target.y - pos.y) * ease)
  {
  }

  function Pow(a: real, n: nat): real {
    if n == 0 then 1.0 else a * Pow(a, n - 1)
  }

  /** Scaling a gap `g = d * k` by `a` scales the factor `k` instead. */
  lemma ScaleGap(a: real, g: real, scaled: real, d: real, k: real, ak: real)
    requires g == d * k && scaled == a * g && ak == a * k
    ensures scaled == d * ak
  {
  }

  /**
   * `n` frames towards a fixed target on one axis. The gap to the target after
   * `n` frames is the initial gap times `(1 - ease)^n`.
   */
  function Frames(p: real, t: real, ease: real, n: nat): (r: real)
    ensures r - t == (p - t) * Pow(1.0 - ease, n)
  {
    if n == 0 then
      assert Pow(1.0 - ease, 0) == 1.0;
      p
    else
      var prev := Frames(p, t, ease, n - 1);
      var q := Step(prev, t, ease);
      ScaleGap(1.0 - ease, prev - t, q - t, p - t, Pow(1.0 - ease, n - 1), Pow(1.0 - ease, n));
      q
  }

  /**
   * With `ease` in [0, 1] and a fixed target, repeated frames approach the
   * target monotonically and never cross it: the position after `n` frames lies
   * between the start and the target, and each further frame lies between the
   * previous position and the target.
   */
  lemma {:induction false} FramesApproachMonotonically(p: real, t: real, ease: real, n: nat)
    requires 0.0 <= ease <= 1.0
    ensures Between(Frames(p, t, ease, n), p, t)
    ensures Between(Frames(p, t, ease, n + 1), Frames(p, t, ease, n), t)
  {
    if n > 0 {
      FramesApproachMonotonically(p, t, ease, n - 1);
    }
  }

  // ---------------------------------------------------------------------------
  // The composable `useMagnetic(elementRef, options)`

  /**
   * One call of `useMagnetic`: the closure state of its handlers. `element` is
   * `elementRef.value`, read afresh by every handler (Vue may assign it).
   */
  class MagneticHook {
    const browser: Browser
    var element: Option<ElementId>
    const strength: real
    const ease: real
    const scale: real
    var bounds: Option<Rect>
    var mouse: Vec
    var pos: Vec
    var animationId: Option<nat>

    /** Handles come from `requestAnimationFrame` and are positive, so `if (animationId)` means "some handle". */
    ghost predicate Valid()
      reads this
    {
      animationId.Some? ==> animationId.value > 0
    }

    /** `useMagnetic(elementRef, options)`: defaults only for missing options; nothing is attached yet. */
    constructor (browser: Browser, element: Option<ElementId>, options: MagneticOptions)
      ensures Valid()
      ensures this.browser == browser && this.element == element
      ensures strength == DestructuringDefault(options.strength, DefaultStrength)
      ensures ease == DestructuringDefault(options.ease, DefaultEase)
      ensures scale == DestructuringDefault(options.scale, DefaultScale)
      ensures bounds == None && mouse == Vec(0.0, 0.0) && pos == Vec(0.0, 0.0) && animationId == None
    {
      this.browser := browser;
      this.element := element;
      strength := DestructuringDefault(options.strength, DefaultStrength);
      ease := DestructuringDefault(options.ease, DefaultEase);
      scale := DestructuringDefault(options.scale, DefaultScale);
      bounds, mouse, pos, animationId := None, Vec(0.0, 0.0), Vec(0.0, 0.0), None;
    }

    /** `onMouseMove`: retarget from the captured bounds; before any enter nothing changes. */
    method OnMouseMove(pointer: Vec)
      modifies this`mouse
      ensures bounds.None? ==> mouse == old(mouse)
      ensures bounds.Some? ==> mouse == AttractionTarget(bounds.value, pointer, strength)
    {
      if bounds.None? {
        return;
      }
      var c := Center(bounds.value);
      mouse := Vec((pointer.x - c.x) * strength, (pointer.y - c.y) * strength);
    }

    /** `animate`: one frame step, written with `gsap.set`, and the next frame requested. */
    method Animate()
      requires Valid() && browser.Valid()
      modifies this`pos, this`animationId, browser`lastHandle, browser`pending, browser`gsapLog
      ensures Valid() && browser.Valid()
      ensures pos == Lerp(old(pos), mouse, ease)
      ensures browser.gsapLog == old(browser.gsapLog) + [Set(element, Props(Some(pos.x), Some(pos.y), None))]
      ensures animationId == Some(old(browser.lastHandle) + 1) && browser.lastHandle == animationId.value
      ensures old(browser.lastHandle) + 1 !in old(browser.pending)
      ensures browser.pending == old(browser.pending)[animationId.value := this]
    {
      LerpIsUpdate(pos, mouse, ease);
      pos := Vec(pos.x + (mouse.x - pos.x) * ease, pos.y + (mouse.y - pos.y) * ease);
      browser.GsapSet(element, Props(Some(pos.x), Some(pos.y), None));
      var h := browser.RequestAnimationFrame(this);
      animationId := Some(h);
    }

    /** The browser runs this attachment's pending frame `h`: `h` is used up and `animate` runs. */
    method OnFrame(h: nat)
      requires Valid() && browser.Valid()
      requires h in browser.pending && browser.pending[h] == this
      modifies this`pos, this`animationId, browser`lastHandle, browser`pending, browser`gsapLog
      ensures Valid() && browser.Valid()
      ensures pos == Lerp(old(pos), mouse, ease)
      ensures browser.gsapLog == old(browser.gsapLog) + [Set(element, Props(Some(pos.x), Some(pos.y), None))]
      ensures animationId == Some(old(browser.lastHandle) + 1) && browser.lastHandle == animationId.value
      ensures browser.pending == (old(browser.pending) - {h})[animationId.value := this]
    {
      var _ := browser.FireFrame(h);
      Animate();
    }

    /**
     * `onMouseEnter`: with no element, nothing; otherwise measure the element
     * afresh (`rect` is what `getBoundingClientRect` returns), tween the scale up
     * and run one frame immediately. A loop already running is not checked for.
     */
    method OnMouseEnter(rect: Rect)
      requires Valid() && browser.Valid()
      modifies this`bounds, this`pos, this`animationId, browser`lastHandle, browser`pending, browser`gsapLog
      ensures Valid() && browser.Valid()
      ensures element.None? ==> unchanged(this) && unchanged(browser)
      ensures element.Some? ==>
        && bounds == Some(rect)
        && pos == Lerp(old(pos), mouse, ease)
        && browser.gsapLog == old(browser.gsapLog)
             + [To(element, Props(None, None, Some(scale)), EnterDuration, EnterEase)]
             + [Set(element, Props(Some(pos.x), Some(pos.y), None))]
        && animationId == Some(old(browser.lastHandle) + 1) && browser.lastHandle == animationId.value
        && browser.pending == old(browser.pending)[animationId.value := this]
    {
      if element.None? {
        return;
      }
      bounds := Some(rect);
      browser.GsapTo(element, Props(None, None, Some(scale)), EnterDuration, EnterEase);
      Animate();
    }

    /**
     * `onMouseLeave`: cancel and forget the pending frame, zero the target and
     * tween offset and scale back. `pos` is kept; there is no element guard.
     */
    method OnMouseLeave()
      requires Valid() && browser.Valid()
      modifies this`mouse, this`animationId, browser`pending, browser`gsapLog
      ensures Valid() && browser.Valid()
      ensures animationId == None && mouse == Vec(0.0, 0.0)
      ensures old(animationId).Some? ==> browser.pending == old(browser.pending) - {old(animationId).value}
      ensures old(animationId).None? ==> browser.pending == old(browser.pending)
      ensures browser.gsapLog == old(browser.gsapLog)
                + [To(element, Props(Some(0.0), Some(0.0), Some(1.0)), LeaveDuration, LeaveEase)]
    {
      if Truthy(animationId) {
        browser.CancelAnimationFrame(animationId.value);
        animationId := None;
      }
      mouse := Vec(0.0, 0.0);
      browser.GsapTo(element, Props(Some(0.0), Some(0.0), Some(1.0)), LeaveDuration, LeaveEase);
    }

    /** `init`: register the three handlers on the element, if there is one. */
    method Init()
      modifies browser`listeners
      ensures element.None? ==> browser.listeners == old(browser.listeners)
      ensures element.Some? ==> browser.listeners == old(browser.listeners) + Handlers(element.value, this)
    {
      if element.None? {
        return;
      }
      browser.AddEventListener(element.value, MouseEnter, this);
      browser.AddEventListener(element.value, MouseLeave, this);
      browser.AddEventListener(element.value, MouseMove, this);
    }

    /**
     * `destroy`: with no element, nothing; otherwise cancel the pending frame
     * (without forgetting its handle) and remove the three handlers.
     */
    method Destroy()
      requires Valid() && browser.Valid()
      modifies browser`pending, browser`listeners
      ensures browser.Valid()
      ensures element.None? ==> unchanged(browser)
      ensures element.Some? ==> browser.listeners == old(browser.listeners) - Handlers(element.value, this)
      ensures element.Some? && animationId.Some? ==> browser.pending == old(browser.pending) - {animationId.value}
      ensures animationId.None? ==> browser.pending == old(browser.pending)
    {
      if element.None? {
        return;
      }
      if Truthy(animationId) {
        browser.CancelAnimationFrame(animationId.value);
      }
      browser.RemoveEventListener(element.value, MouseEnter, this);
      browser.RemoveEventListener(element.value, MouseLeave, this);
      browser.RemoveEventListener(element.value, MouseMove, this);
    }
  }

  // ---------------------------------------------------------------------------
  // The directive `v-magnetic`

  /**
   * The closure state `mounted(el, binding)` creates for one element. Its
   * cleanup is stored on the element as `el._magneticCleanup`; a caller holds a
   * reference to this object in its place.
   */
  class MagneticDirective {
    const browser: Browser
    const el: ElementId
    const strength: real
    const scale: real
    var bounds: Option<Rect>
    var mouse: Vec
    var pos: Vec
    var animationId: Option<nat>

    ghost predicate Valid()
      reads this
    {
      animationId.Some? ==> animationId.value > 0
    }

    /**
     * `mounted(el, binding)`: `||` defaults (so an explicit 0 is replaced), the
     * three handlers registered and the cleanup installed.
     */
    constructor Mounted(browser: Browser, el: ElementId, binding: Option<MagneticOptions>)
      modifies browser`listeners
      ensures Valid()
      ensures this.browser == browser && this.el == el
      ensures strength == OrDefault(BindingOptions(binding).strength, DefaultStrength)
      ensures scale == OrDefault(BindingOptions(binding).scale, DefaultScale)
      ensures bounds == None && mouse == Vec(0.0, 0.0) && pos == Vec(0.0, 0.0) && animationId == None
      ensures browser.listeners == old(browser.listeners) + Handlers(el, this)
    {
      this.browser := browser;
      this.el := el;
      strength := OrDefault(BindingOptions(binding).strength, DefaultStrength);
      scale := OrDefault(BindingOptions(binding).scale, DefaultScale);
      bounds, mouse, pos, animationId := None, Vec(0.0, 0.0), Vec(0.0, 0.0), None;
      new;
      browser.AddEventListener(el, MouseEnter, this);
      browser.AddEventListener(el, MouseLeave, this);
      browser.AddEventListener(el, MouseMove, this);
    }

    method OnMouseMove(pointer: Vec)
      modifies this`mouse
      ensures bounds.None? ==> mouse == old(mouse)
      ensures bounds.Some? ==> mouse == AttractionTarget(bounds.value, pointer, strength)
    {
      if bounds.None? {
        return;
      }
      var c := Center(bounds.value);
      mouse := Vec((pointer.x - c.x) * strength, (pointer.y - c.y) * strength);
    }

    /** `animate` with the fixed ease 0.1. */
    method Animate()
      requires Valid() && browser.Valid()
      modifies this`pos, this`animationId, browser`lastHandle, browser`pending, browser`gsapLog
      ensures Valid() && browser.Valid()
      ensures pos == Lerp(old(pos), mouse, DirectiveEase)
      ensures browser.gsapLog == old(browser.gsapLog) + [Set(Some(el), Props(Some(pos.x), Some(pos.y), None))]
      ensures animationId == Some(old(browser.lastHandle) + 1) && browser.lastHandle == animationId.value
      ensures browser.pending == old(browser.pending)[animationId.value := this]
    {
      LerpIsUpdate(pos, mouse, DirectiveEase);
      pos := Vec(pos.x + (mouse.x - pos.x) * 0.1, pos.y + (mouse.y - pos.y) * 0.1);
      browser.GsapSet(Some(el), Props(Some(pos.x), Some(pos.y), None));
      var h := browser.RequestAnimationFrame(this);
      animationId := Some(h);
    }

    method OnFrame(h: nat)
      requires Valid() && browser.Valid()
      requires h in browser.pending && browser.pending[h] == this
      modifies this`pos, this`animationId, browser`lastHandle, browser`pending, browser`gsapLog
      ensures Valid() && browser.Valid()
      ensures pos == Lerp(old(pos), mouse, DirectiveEase)
      ensures browser.gsapLog == old(browser.gsapLog) + [Set(Some(el), Props(Some(pos.x), Some(pos.y), None))]
      ensures animationId == Some(old(browser.lastHandle) + 1) && browser.lastHandle == animationId.value
      ensures browser.pending == (old(browser.pending) - {h})[animationId.value := this]
    {
      var _ := browser.FireFrame(h);
      Animate();
    }

    /** `onMouseEnter`: no element guard (the directive always has its element). */
    method OnMouseEnter(rect: Rect)
      requires Valid() && browser.Valid()
      modifies this`bounds, this`pos, this`animationId, browser`lastHandle, browser`pending, browser`gsapLog
      ensures Valid() && browser.Valid()
      ensures bounds == Some(rect)
      ensures pos == Lerp(old(pos), mouse, DirectiveEase)
      ensures browser.gsapLog == old(browser.gsapLog)
                + [To(Some(el), Props(None, None, Some(scale)), EnterDuration, EnterEase)]
                + [Set(Some(el), Props(Some(pos.x), Some(pos.y), None))]
      ensures animationId == Some(old(browser.lastHandle) + 1) && browser.lastHandle == animationId.value
      ensures browser.pending == old(browser.pending)[animationId.value := this]
    {
      bounds := Some(rect);
      browser.GsapTo(Some(el), Props(None, None, Some(scale)), EnterDuration, EnterEase);
      Animate();
    }

    /** `onMouseLeave`: cancels the pending frame but keeps its (now stale) handle. */
    method OnMouseLeave()
      requires Valid() && browser.Valid()
      modifies this`mouse, browser`pending, browser`gsapLog
      ensures Valid() && browser.Valid()
      ensures mouse == Vec(0.0, 0.0)
      ensures animationId.Some? ==> browser.pending == old(browser.pending) - {animationId.value}
      ensures animationId.None? ==> browser.pending == old(browser.pending)
      ensures browser.gsapLog == old(browser.gsapLog)
                + [To(Some(el), Props(Some(0.0), Some(0.0), Some(1.0)), LeaveDuration, LeaveEase)]
    {
      if Truthy(animationId) {
        browser.CancelAnimationFrame(animationId.value);
      }
      mouse := Vec(0.0, 0.0);
      browser.GsapTo(Some(el), Props(Some(0.0), Some(0.0), Some(1.0)), LeaveDuration, LeaveEase);
    }

    /** `el._magneticCleanup`: cancel the last requested frame and remove the three handlers. */
    method Cleanup()
      requires Valid() && browser.Valid()
      modifies browser`pending, browser`listeners
      ensures browser.Valid()
      ensures browser.listeners == old(browser.listeners) - Handlers(el, this)
      ensures animationId.Some? ==> browser.pending == old(browser.pending) - {animationId.value}
      ensures animationId.None? ==> browser.pending == old(browser.pending)
    {
      if Truthy(animationId) {
        browser.CancelAnimationFrame(animationId.value);
      }
      browser.RemoveEventListener(el, MouseEnter, this);
      browser.RemoveEventListener(el, MouseLeave, this);
      browser.RemoveEventListener(el, MouseMove, this);
    }
  }

  /**
   * `unmounted(el)`: `cleanup` is `el._magneticCleanup`, `null` when `mounted`
   * never installed one; only an installed cleanup runs.
   */
  method Unmounted(browser: Browser, cleanup: MagneticDirective?)
    requires browser.Valid()
    requires cleanup != null ==> cleanup.browser == browser && cleanup.Valid()
    modifies browser`pending, browser`listeners
    ensures browser.Valid()
    ensures cleanup == null ==> unchanged(browser)
    ensures cleanup != null ==> browser.listeners == old(browser.listeners) - Handlers(cleanup.el, cleanup)
    ensures cleanup != null && cleanup.animationId.Some? ==>
              browser.pending == old(browser.pending) - {cleanup.animationId.value}
    ensures cleanup != null && cleanup.animationId.None? ==> browser.pending == old(browser.pending)
  {
    if cleanup != null {
      cleanup.Cleanup();
    }
  }
}

/** Runs of the composable against a fresh browser, showing what the contracts above imply. */
module MagneticScenarios {
  import opened Common
  import opened Web
  import opened Magnetic

  /** A zero-size box whose corner is under the pointer gives a zero attraction target. */
  lemma ZeroSizeBoxHasNoPull(left: real, top: real, strength: real)
    ensures AttractionTarget(Rect(left, top, 0.0, 0.0), Vec(left, top), strength) == Vec(0.0, 0.0)
  {
  }

  /** The numbers of `HoverScenario`: centre (50, 50), target (30, 0), one frame from rest reaches (3, 0). */
  lemma ScenarioArithmetic()
    ensures Center(Rect(0.0, 0.0, 100.0, 100.0)) == Vec(50.0, 50.0)
    ensures AttractionTarget(Rect(0.0, 0.0, 100.0, 100.0), Vec(150.0, 50.0), DefaultStrength) == Vec(30.0, 0.0)
    ensures Lerp(Vec(0.0, 0.0), Vec(30.0, 0.0), DefaultEase) == Vec(3.0, 0.0)
  {
  }

  /**
   * Default options, a 100x100 box at the origin: enter, a move to (150, 50),
   * one frame, leave. The enter frame still sees a zero target (a `mouseenter`
   * does not set it); the move sets (30, 0); the next frame reaches (3, 0);
   * leave cancels the loop and ends with the elastic return tween.
   */
  method HoverScenario() returns (target: Vec, afterFrame: Vec, pendingAfterLeave: nat, lastCall: GsapCall)
    ensures target == Vec(30.0, 0.0) && afterFrame == Vec(3.0, 0.0)
    ensures pendingAfterLeave == 0
    ensures lastCall == To(Some(7), Props(Some(0.0), Some(0.0), Some(1.0)), 0.5, "elastic.out(1, 0.3)")
  {
    var browser := new Browser();
    var hook := new MagneticHook(browser, Some(7), MagneticOptions(None, None, None));
    assert hook.strength == 0.3 && hook.ease == 0.1;
    var box := Rect(0.0, 0.0, 100.0, 100.0);
    hook.OnMouseEnter(box);
    assert hook.pos == Vec(0.0, 0.0) && browser.pending == map[1 := hook];
    hook.OnMouseMove(Vec(150.0, 50.0));
    target := hook.mouse;
    hook.OnFrame(1);
    afterFrame := hook.pos;
    ScenarioArithmetic();
    assert browser.pending == map[2 := hook];
    hook.OnMouseLeave();
    assert browser.pending == map[];
    pendingAfterLeave := |browser.pending|;
    lastCall := browser.gsapLog[|browser.gsapLog| - 1];
  }

  /**
   * Two enters without a leave between them start two frame loops; leave
   * cancels only the newer one, and the older loop keeps rescheduling itself.
   */
  method DoubleEnterScenario() returns (survivor: nat, survivorPending: bool, rescheduled: bool)
    ensures survivor == 1 && survivorPending && rescheduled
  {
    var browser := new Browser();
    var hook := new MagneticHook(browser, Some(7), MagneticOptions(None, None, None));
    hook.Init();
    var box := Rect(0.0, 0.0, 100.0, 100.0);
    hook.OnMouseEnter(box);
    hook.OnMouseEnter(box);
    assert browser.lastHandle == 2 && browser.pending == map[1 := hook, 2 := hook];
    hook.OnMouseLeave();
    assert browser.lastHandle == 2;
    survivor := 1;
    survivorPending := survivor in browser.pending && browser.pending[survivor] == hook;
    hook.OnFrame(survivor);
    rescheduled := hook.animationId == Some(3) && 3 in browser.pending && browser.pending[3] == hook;
  }

  /** Calling `destroy` twice leaves the same listeners and pending frames as calling it once. */
  method DestroyTwice(hook: MagneticHook)
    requires hook.Valid() && hook.browser.Valid()
    modifies hook.browser`pending, hook.browser`listeners
    ensures hook.element.Some? ==> hook.browser.listeners == old(hook.browser.listeners) - Handlers(hook.element.value, hook)
    ensures hook.element.Some? && hook.animationId.Some? ==>
              hook.browser.pending == old(hook.browser.pending) - {hook.animationId.value}
    ensures hook.element.None? || hook.animationId.None? ==> hook.browser.pending == old(hook.browser.pending)
  {
    hook.Destroy();
    hook.Destroy();
    if hook.element.Some? {
      DetachIdempotent(old(hook.browser.listeners), hook.element.value, hook);
    }
  }
}
