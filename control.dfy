/**
 * `mixitup.Control`: one UI control bound to any number of mixers, and the
 * `mixitup.controls` registry it enters on `init` and leaves when its last
 * binding goes. The element and the mixers are reduced to the state the
 * control reads and writes.
 */
module Mixitup {
  import opened JsArray
  import opened ControlRules

  datatype Option<T> = None | Some(value: T)

  /** A DOM element: its attributes, its class set, its disabled flag and the click listeners attached to it. */
  class Element {
    var attributes: map<string, string>
    var classes: set<string>
    var disabled: bool
    /** The controls whose click handler is attached to this element (`h.on` adds one, `h.off` removes one). */
    var listeners: set<Control>
    /** Whether the element has a boolean property named `disable`: what the control tests to decide it can be disabled. */
    const hasBooleanDisable: bool

    constructor (attributes: map<string, string>, hasBooleanDisable: bool)
      ensures this.attributes == attributes && this.hasBooleanDisable == hasBooleanDisable
      ensures classes == {} && !disabled && listeners == {}
    {
      this.attributes := attributes;
      this.hasBooleanDisable := hasBooleanDisable;
      classes := {};
      disabled := false;
      listeners := {};
    }
  }

  /** A mixer as the control sees it: the active class of its configuration and the last clicked element it is told about. */
  class Mixer {
    const activeClass: string
    var lastClicked: Element?

    constructor (activeClass: string)
      ensures this.activeClass == activeClass && lastClicked == null
    {
      this.activeClass := activeClass;
      lastClicked := null;
    }
  }

  /** One call a click makes on a mixer. */
  datatype Dispatch =
    | ToggleOnCall(target: Mixer, filter: Value)
    | ToggleOffCall(target: Mixer, filter: Value)
    | MultiMixCall(target: Mixer, command: Command)

  /**
   * The call a click makes on mixer `m`: a toggle control switches the
   * command's filter off when the click found it active and on otherwise;
   * every other method hands the whole command to `multiMix`.
   */
  function DispatchFor(m: Mixer, kind: Method, command: Command, isActive: bool): (d: Dispatch)
    ensures d.target == m
    ensures kind != Toggle ==> d == MultiMixCall(m, command)
    ensures kind == Toggle ==> !d.MultiMixCall? && d.filter == command.filter && (d.ToggleOffCall? <==> isActive)
  {
    if kind == Toggle then
      if isActive then ToggleOffCall(m, command.filter) else ToggleOnCall(m, command.filter)
    else MultiMixCall(m, command)
  }

  /** `mixitup.controls`: every initialised control, in the order `init` pushed them. */
  class Registry {
    var controls: seq<Control>

    constructor ()
      ensures controls == []
    {
      controls := [];
    }
  }

  class Control {
    var el: Element?
    var selector: string
    var bound: seq<Mixer>
    var pending: int
    /** The control's method (`method` is a reserved word here). */
    var kind: Method
    var status: Status
    var filter: Value
    var sort: Value
    var canDisable: bool
    /** Whether the control holds a click handler (`handler !== null`). */
    var handler: bool

    /** The state the constructor gives every field. */
    constructor ()
      ensures el == null && selector == "" && bound == [] && pending == -1 && kind == NoMethod
      ensures status == Inactive && filter == Str("") && sort == Str("") && !canDisable && !handler
    {
      el := null;
      selector := "";
      bound := [];
      pending := -1;
      kind := NoMethod;
      status := Inactive;
      filter := Str("");
      sort := Str("");
      canDisable := false;
      handler := false;
    }

    /** What `setStatus` reads and writes. */
    function Appearance(): View
      reads this, el
      requires el != null
    {
      View(status, el.classes, el.disabled)
    }

    /** The active class `setStatus` uses: the first bound mixer's (meaningless when nothing is bound). */
    function ActiveClass(): string
      reads this
    {
      if |bound| > 0 then bound[0].activeClass else ""
    }

    /**
     * `init`: a control with a selector becomes live and captures nothing;
     * any other control records whether its element can be disabled and
     * captures `data-filter`, `data-toggle` or `data-sort` as its method
     * needs. Either way it attaches its click handler and joins the end of the registry.
     */
    method Init(el: Element, kind: Method, selector: string, registry: Registry)
      modifies this, el`listeners, registry
      ensures this.el == el && this.kind == kind && this.selector == selector
      ensures bound == old(bound) && pending == old(pending)
      ensures selector != "" ==> status == Live && canDisable == old(canDisable)
      ensures selector != "" ==> filter == old(filter) && sort == old(sort)
      ensures selector == "" ==> status == old(status) && canDisable == el.hasBooleanDisable
      ensures selector == "" ==>
        filter == (if UsesFilter(kind) then GetAttribute(el.attributes, FilterAttribute(kind)) else old(filter))
      ensures selector == "" ==>
        sort == (if UsesSort(kind) then GetAttribute(el.attributes, "data-sort") else old(sort))
      ensures handler && el.listeners == old(el.listeners) + {this}
      ensures registry.controls == old(registry.controls) + [this]
    {
      this.el := el;
      this.kind := kind;
      this.selector := selector;
      if selector != "" {
        status := Live;
      } else {
        canDisable := el.hasBooleanDisable;
        match kind {
          case Filter =>
            filter := GetAttribute(el.attributes, "data-filter");
          case Toggle =>
            filter := GetAttribute(el.attributes, "data-toggle");
          case Sort =>
            sort := GetAttribute(el.attributes, "data-sort");
          case MultiMix =>
            filter := GetAttribute(el.attributes, "data-filter");
            sort := GetAttribute(el.attributes, "data-sort");
          case NoMethod =>
        }
      }
      BindClick();
      registry.controls := registry.controls + [this];
    }

    /** `isBound`: whether `m` is one of the bound mixers (`null` stands for an `undefined` argument). */
    method IsBound(m: Mixer?) returns (b: bool)
      ensures b <==> m in bound
    {
      b := IndexOf<Mixer?>(bound, m) > -1;
    }

    /**
     * `addBinding` as written: its guard calls `isBound()` with no argument,
     * which never finds `undefined` among the mixers, so the mixer is always
     * appended, even when it is already bound.
     */
    method AddBinding(mixer: Mixer)
      modifies this`bound
      ensures bound == old(bound) + [mixer]
    {
      var alreadyBound := IsBound(null);
      if !alreadyBound {
        bound := bound + [mixer];
      }
    }

    /** `addBinding` with the mixer passed to its guard: appends only a mixer not yet bound. */
    method AddBindingOnce(mixer: Mixer)
      modifies this`bound
      ensures bound == if mixer in old(bound) then old(bound) else old(bound) + [mixer]
      ensures NoDuplicates(old(bound)) ==> NoDuplicates(bound)
      ensures mixer in bound
    {
      var alreadyBound := IsBound(mixer);
      if !alreadyBound {
        bound := bound + [mixer];
      }
    }

    /**
     * `removeBinding` as written: drops the first occurrence of the mixer;
     * once no mixer is left it unbinds the click handler and splices the
     * registry at `indexOf(this)` unchecked. A control that is still `active`
     * then calls `setStatus('inactive')` with nothing bound, which throws
     * before changing anything: `threw` reports that.
     */
    method RemoveBinding(mixer: Mixer, registry: Registry) returns (threw: bool)
      requires el != null
      modifies this`bound, this`handler, el`listeners, registry
      ensures bound == RemoveFirst(old(bound), mixer)
      ensures |bound| > 0 ==> handler == old(handler) && el.listeners == old(el.listeners)
      ensures |bound| > 0 ==> registry.controls == old(registry.controls)
      ensures |bound| == 0 ==> !handler && el.listeners == old(el.listeners) - {this}
      ensures |bound| == 0 ==> registry.controls == SpliceOne(old(registry.controls), IndexOf(old(registry.controls), this))
      ensures threw <==> |bound| == 0 && status == Active
    {
      DropBinding(mixer);
      threw := false;
      if |bound| < 1 {
        UnbindClick();
        Deregister(registry);
        if status == Active {
          // setStatus('inactive') reads the active class of bound[0], which is gone.
          threw := true;
        }
      }
    }

    /** The first half of `removeBinding`: splice the mixer out of `bound` when `indexOf` finds it. */
    method DropBinding(mixer: Mixer)
      modifies this`bound
      ensures bound == RemoveFirst(old(bound), mixer)
    {
      var removeIndex := IndexOf(bound, mixer);
      if removeIndex > -1 {
        bound := SpliceOne(bound, removeIndex);
      }
    }

    /** The registry step of `removeBinding`: splice at `indexOf(this)`, found or not. */
    method Deregister(registry: Registry)
      modifies registry
      ensures registry.controls == SpliceOne(old(registry.controls), IndexOf(old(registry.controls), this))
    {
      var removeIndex := IndexOf(registry.controls, this);
      registry.controls := SpliceOne(registry.controls, removeIndex);
    }

    /**
     * `removeBinding` as intended: the registry entry is removed only when
     * present, and a control left with nothing bound while `active` becomes
     * `inactive`, dropping the active class of the mixer that was first.
     */
    method RemoveBindingIntended(mixer: Mixer, registry: Registry)
      requires el != null
      modifies this`bound, this`handler, this`status, el`listeners, el`classes, el`disabled, registry
      ensures bound == RemoveFirst(old(bound), mixer)
      ensures |bound| > 0 ==> handler == old(handler) && el.listeners == old(el.listeners)
      ensures |bound| > 0 ==> registry.controls == old(registry.controls) && Appearance() == old(Appearance())
      ensures |bound| == 0 ==> !handler && el.listeners == old(el.listeners) - {this}
      ensures |bound| == 0 ==> registry.controls == RemoveFirst(old(registry.controls), this)
      ensures |bound| == 0 && old(status) == Active ==>
        Appearance() == ApplyStatus(old(Appearance()), Inactive, old(ActiveClass()), canDisable)
      ensures |bound| == 0 && old(status) != Active ==> Appearance() == old(Appearance())
      ensures |bound| == 0 ==> status != Active
    {
      var firstClass := ActiveClass();
      bound := RemoveFirst(bound, mixer);
      if |bound| < 1 {
        UnbindClick();
        registry.controls := RemoveFirst(registry.controls, this);
        assert Appearance() == old(Appearance());
        if status == Active {
          ShowStatus(Inactive, firstClass);
        }
      }
    }

    /** `bindClick`: the control holds a handler and it is attached to the element, beside any other control's. */
    method BindClick()
      requires el != null
      modifies this`handler, el`listeners
      ensures handler && el.listeners == old(el.listeners) + {this}
    {
      handler := true;
      el.listeners := el.listeners + {this};
    }

    /** `unbindClick`: this control's listener is detached, others on the same element stay, and the handler is dropped. */
    method UnbindClick()
      requires el != null
      modifies this`handler, el`listeners
      ensures !handler && el.listeners == old(el.listeners) - {this}
    {
      el.listeners := el.listeners - {this};
      handler := false;
    }

    /**
     * `handleClick`. `closest` is the nearest ancestor-or-self of the click
     * target matching the selector (consulted only by a live control), and
     * `buttonHasActiveClass` whether that button carries the first mixer's
     * active class (consulted only by a live toggle). Every bound mixer, in
     * binding order, is told the control's element and receives exactly one
     * call; `pending` ends equal to the number of mixers.
     */
    method HandleClick(closest: Option<Element>, buttonHasActiveClass: bool) returns (calls: seq<Dispatch>)
      requires el != null
      requires selector != "" && (ReadsButton(kind, filter, sort) || (kind == Toggle && status == Live)) ==> closest.Some?
      requires kind == Toggle && status == Live ==> |bound| > 0
      modifies this`pending, bound
      ensures pending == |bound|
      ensures |calls| == |bound|
      ensures forall i | 0 <= i < |bound| :: bound[i].lastClicked == el
      ensures var button := if selector == "" then el.attributes else if closest.Some? then closest.value.attributes else map[];
        forall i | 0 <= i < |bound| ::
          calls[i] == DispatchFor(bound[i], kind, DeriveCommand(kind, filter, sort, button),
                                  ToggleIsActive(status, buttonHasActiveClass))
    {
      pending := 0;
      var button := if selector == "" then el.attributes else if closest.Some? then closest.value.attributes else map[];
      var command := DeriveCommand(kind, filter, sort, button);
      var isActive := false;
      if kind == Toggle {
        isActive := ToggleIsActive(status, buttonHasActiveClass);
      }
      pending := |bound|;
      calls := [];
      var i := 0;
      while i < |bound|
        invariant 0 <= i <= |bound|
        invariant pending == |bound|
        invariant |calls| == i
        invariant forall j | 0 <= j < i :: bound[j].lastClicked == el
        invariant forall j | 0 <= j < i ::
          calls[j] == DispatchFor(bound[j], kind, command, ToggleIsActive(status, buttonHasActiveClass))
      {
        var mixer := bound[i];
        mixer.lastClicked := el;
        if kind == Toggle {
          if isActive {
            calls := calls + [ToggleOffCall(mixer, command.filter)];
          } else {
            calls := calls + [ToggleOnCall(mixer, command.filter)];
          }
        } else {
          calls := calls + [MultiMixCall(mixer, command)];
        }
        i := i + 1;
      }
    }

    /**
     * `update`, the completion callback of one mixer. The counter drops by
     * one and never below zero; while it stays above zero, or for a live
     * control, nothing else changes. Otherwise the control makes, in order,
     * the `setStatus` calls its method prescribes for the reported command
     * and toggle array.
     */
    method Update(command: Command, toggleArray: seq<string>)
      requires el != null
      requires pending > 1 || status == Live || |bound| > 0 ||
               Quiet(StatusRequests(kind, filter, sort, command, toggleArray), status)
      modifies this`pending, this`status, el`classes, el`disabled
      ensures pending == NextPending(old(pending))
      ensures pending > 0 || old(status) == Live ==> Appearance() == old(Appearance())
      ensures pending == 0 && old(status) != Live ==>
        Appearance() == ApplyAll(old(Appearance()), StatusRequests(kind, filter, sort, command, toggleArray),
                                 ActiveClass(), canDisable)
    {
      pending := pending - 1;
      pending := if pending > 0 then pending else 0;
      if pending > 0 {
        return;
      }
      if status == Live {
        // updateLive is an empty stub: a live control keeps its status.
        return;
      }
      Reconcile(command, toggleArray);
    }

    /**
     * The method-specific part of `update` for a non-live control whose
     * counter reached zero: the `setStatus` calls its method prescribes.
     */
    method Reconcile(command: Command, toggleArray: seq<string>)
      requires el != null
      requires |bound| > 0 || Quiet(StatusRequests(kind, filter, sort, command, toggleArray), status)
      modifies this`status, el`classes, el`disabled
      ensures Appearance() == ApplyAll(old(Appearance()), StatusRequests(kind, filter, sort, command, toggleArray),
                                       ActiveClass(), canDisable)
    {
      ghost var requests := StatusRequests(kind, filter, sort, command, toggleArray);
      assert kind != NoMethod && kind != Toggle ==> |requests| == 1 && (|bound| == 0 ==> requests[0] == status);
      match kind {
        case NoMethod =>
        case Filter =>
          if command.filter == filter {
            SetStatus(Active);
          } else {
            SetStatus(Inactive);
          }
        case MultiMix =>
          if command.sort == sort && command.filter == filter {
            SetStatus(Active);
          } else {
            SetStatus(Inactive);
          }
        case Sort =>
          if command.sort == sort {
            SetStatus(Active);
          } else {
            SetStatus(Inactive);
          }
        case Toggle =>
          ReconcileToggle(command, toggleArray);
      }
    }

    /**
     * The toggle branch of `update`: `inactive` for an empty toggle array,
     * then `active` when the command's filter is the control's, then the loop
     * over the toggle array.
     */
    method ReconcileToggle(command: Command, toggleArray: seq<string>)
      requires el != null && kind == Toggle
      requires |bound| > 0 || Quiet(StatusRequests(Toggle, filter, sort, command, toggleArray), status)
      modifies this`status, el`classes, el`disabled
      ensures Appearance() == ApplyAll(old(Appearance()), StatusRequests(Toggle, filter, sort, command, toggleArray),
                                       ActiveClass(), canDisable)
    {
      ghost var activeClass, v0 := ActiveClass(), Appearance();
      ghost var first, second := EmptyArrayRequest(toggleArray), FilterMatchRequest(command, filter);
      ToggleRequestsSplit(filter, sort, command, toggleArray, status);
      if |toggleArray| < 1 {
        assert first[0] == Inactive;
        SetStatus(Inactive);
      }
      ghost var v1 := Appearance();
      assert v1 == ApplyAll(v0, first, activeClass, canDisable);
      if command.filter == filter {
        assert second[0] == Active;
        SetStatus(Active);
      }
      ghost var v2 := Appearance();
      assert v2 == ApplyAll(v1, second, activeClass, canDisable);
      ScanToggleArray(toggleArray);
      ApplyAllConcat(v0, first, second, activeClass, canDisable);
      ApplyAllConcat(v0, first + second, ToggleScan(toggleArray, filter, 0), activeClass, canDisable);
    }

    /**
     * The loop of the toggle branch: `inactive` for every entry that differs
     * from the control's filter, then `active` and stop at the first equal one.
     */
    method ScanToggleArray(toggleArray: seq<string>)
      requires el != null
      requires |bound| > 0 || Quiet(ToggleScan(toggleArray, filter, 0), status)
      modifies this`status, el`classes, el`disabled
      ensures Appearance() == ApplyAll(old(Appearance()), ToggleScan(toggleArray, filter, 0), ActiveClass(), canDisable)
    {
      ghost var goal := ApplyAll(Appearance(), ToggleScan(toggleArray, filter, 0), ActiveClass(), canDisable);
      ghost var activeClass, quiet := ActiveClass(), |bound| == 0;
      var i := 0;
      while i < |toggleArray|
        invariant 0 <= i <= |toggleArray|
        invariant ApplyAll(Appearance(), ToggleScan(toggleArray, filter, i), activeClass, canDisable) == goal
        invariant quiet ==> Quiet(ToggleScan(toggleArray, filter, i), status)
      {
        ghost var rest := ToggleScan(toggleArray, filter, i);
        var toggle := toggleArray[i];
        if Str(toggle) == filter {
          assert rest == [Active];
          SetStatus(Active);
          break;
        }
        ghost var next := ToggleScan(toggleArray, filter, i + 1);
        assert rest == [Inactive] + next;
        QuietConcat([Inactive], next, status);
        ApplyAllCons(Appearance(), Inactive, next, activeClass, canDisable);
        SetStatus(Inactive);
        i := i + 1;
      }
    }

    /**
     * `setStatus`. The source reads the active class from `bound[0]`, so a
     * change to `active` or `inactive` needs a bound mixer.
     */
    method SetStatus(s: Status)
      requires el != null
      requires s != status && (s == Active || s == Inactive) ==> |bound| > 0
      modifies this`status, el`classes, el`disabled
      ensures Appearance() == ApplyStatus(old(Appearance()), s, ActiveClass(), canDisable)
    {
      ShowStatus(s, ActiveClass());
    }

    /** The body of `setStatus` once the active class is known. */
    method ShowStatus(s: Status, activeClass: string)
      requires el != null
      modifies this`status, el`classes, el`disabled
      ensures Appearance() == ApplyStatus(old(Appearance()), s, activeClass, canDisable)
    {
      if s == status {
        return;
      }
      match s {
        case Active =>
          el.classes := el.classes + {activeClass};
          if canDisable {
            el.disabled := false;
          }
        case Inactive =>
          el.classes := el.classes - {activeClass};
          if canDisable {
            el.disabled := false;
          }
        case Disabled =>
          if canDisable {
            el.disabled := true;
          }
        case Live =>
      }
      status := s;
    }
  }

  /** Binding the same mixer twice with `addBinding` as written lists it twice. */
  method DuplicateBindingWitness() returns (c: Control, m: Mixer)
    ensures c.bound == [m, m]
  {
    c := new Control();
    m := new Mixer("mixitup-control-active");
    c.AddBinding(m);
    c.AddBinding(m);
  }

  /** A filter control initialised on a fresh element, registered and bound to one fresh mixer. */
  method NewBoundControl(registry: Registry) returns (c: Control, m: Mixer)
    modifies registry
    ensures fresh(c) && fresh(m) && c.el != null && fresh(c.el)
    ensures c.bound == [m]
    ensures registry.controls == old(registry.controls) + [c]
  {
    c := new Control();
    var e := new Element(map[], false);
    c.Init(e, Filter, "", registry);
    m := new Mixer("active");
    c.AddBinding(m);
  }

  /**
   * A second `removeBinding` on an already drained control splices index -1
   * from the registry and so removes another control that is still bound.
   */
  method SecondRemovalWitness() returns (registry: Registry, other: Control)
    ensures other.bound != [] && other !in registry.controls
  {
    registry := new Registry();
    var first, m1 := NewBoundControl(registry);
    var m2;
    other, m2 := NewBoundControl(registry);
    assert registry.controls == [first, other];
    assert IndexOf(registry.controls, first) == 0;
    var _ := first.RemoveBinding(m1, registry);
    assert first.bound == [] && registry.controls == [other];
    assert IndexOf(registry.controls, first) == -1;
    var _ := first.RemoveBinding(m1, registry);
  }

  /** Removing the last binding of an `active` control reaches `setStatus('inactive')` with nothing bound. */
  method ActiveUnbindWitness() returns (threw: bool)
    ensures threw
  {
    var registry := new Registry();
    var c := new Control();
    var e := new Element(map["data-filter" := ".a"], true);
    c.Init(e, Filter, "", registry);
    var m := new Mixer("active");
    c.AddBinding(m);
    assert c.bound == [m] && c.el == e;
    c.SetStatus(Active);
    assert c.status == Active && c.bound == [m];
    threw := c.RemoveBinding(m, registry);
  }

  /**
   * Two controls on one element each attach their own listener: draining
   * one of them leaves the other's handler attached.
   */
  method SharedElementWitness() returns (e: Element, kept: Control, drained: Control)
    ensures kept.handler && kept in e.listeners && drained !in e.listeners
  {
    var registry := new Registry();
    e := new Element(map[], false);
    kept := new Control();
    drained := new Control();
    kept.Init(e, Filter, ".filter", registry);
    drained.Init(e, Filter, ".filter", registry);
    var m1 := new Mixer("active");
    var m2 := new Mixer("active");
    kept.AddBinding(m1);
    drained.AddBinding(m2);
    assert kept.handler && kept in e.listeners && drained.bound == [m2];
    var _ := drained.RemoveBinding(m2, registry);
  }
}
