# mixitup Control, modelled in Dafny

This project models `mixitup.Control` from `src/control.js`: the object behind one filter, sort, toggle or
multiMix button. A control can be bound to several mixers at once. A click turns into a command, and every
bound mixer receives it. Each mixer reports completion back through `update`. When the last completion
arrives, the control sets its own status (`inactive`, `active`, `disabled` or `live`) and shows it on its
element through the active class and the disabled flag. `mixitup.controls` is the global registry of
controls; `init` appends to it and `removeBinding` splices from it.

The project has three modules:

- `JsArray` (`js_array.dfy`) holds the JavaScript array operations the control uses:
  - `indexOf`;
  - `splice(start, 1)`, including its handling of a negative start;
  - the guarded "find, then splice if found" removal.
- `ControlRules` (`control_rules.dfy`) holds the pure rules:
  - JavaScript values (`undefined`, `null`, strings) with `||` and `===`;
  - how a click derives its command;
  - the effect of one `setStatus` call on the element;
  - the sequence of `setStatus` calls `update` makes for each method;
  - the pending-completion counter.
- `Mixitup` (`control.dfy`) holds the imperative model:
  - the `Control` class, whose fields the methods update in place;
  - the element, reduced to its attributes, class set, disabled flag and the controls listening on it;
  - mixers, reduced to their active class and the `_lastClicked` field the control writes;
  - the registry, a class holding `seq<Control>` that is passed by reference.

The field `method` is named `kind`, because `method` is a reserved word in Dafny. `handler` is a flag that
says whether a click handler is attached.

Every state-changing method is proved against a pure function:
- `SetStatus` against `ApplyStatus`;
- `Update` and the loop over the toggle array against `ApplyAll` of `StatusRequests`;
- `HandleClick` against `DeriveCommand` and `DispatchFor`.

The lemmas in `ControlRules` then prove what the source promises about those functions.

The model follows the code as written. In these places the code departs from what its own guards,
comments and branches evidently aim at:
- The guard `if (!self.isBound())` at line 117 is evidently meant to add a mixer only once. It calls
  `isBound` without the mixer, so every mixer is appended (see Findings).
- `addBinding` (lines 112-122) only pushes the mixer. After the last binding is gone, a new binding
  re-attaches no click handler and does not put the control back in `mixitup.controls`; `AddBinding`
  leaves `handler`, the listeners and the registry untouched, as the code does.
- The comments at lines 141 and 145 tie the click handler and the registry entry to having bindings.
  Yet `init` (lines 82-84) attaches the handler and registers the control before any binding exists.
  And `removeBinding` on a control already removed splices another control out (see Findings).
- For a live control, `closestParent` at line 210 can find no button, and lines 217-235 read the button
  without a check. `HandleClick` therefore requires a button whenever one would be read.
- For a toggle, lines 318-320 set `active` when the command's filter is the control's. With a non-empty
  toggle array the loop at lines 322-334 always makes the last call, so that `active` never survives:
  only whether the filter is listed decides (see Findings).
- Line 316 sets `inactive` for an empty toggle array, but lines 318-320 can then set `active` again
  (see Findings).

## Model

| member | source | states |
|---|---|---|
| Mixitup.Control.constructor | src/control.js:10-29 | A new control has no element and an empty selector. Nothing is bound, `pending` is -1 and the method is empty. Status is `inactive`, filter and sort are empty strings, it cannot disable and has no handler. |
| Mixitup.Control.Init | src/control.js:47-87 | With a non-empty selector the status becomes `live` and nothing is captured. Otherwise `canDisable` follows the element, and `filter`/`sort` are read per method: data-filter, data-toggle, data-sort, or both for multiMix. Unused fields stay unchanged. The control's handler is added to the element's listeners and the control is appended at the end of the registry. |
| Mixitup.Control.IsBound | src/control.js:95-104 | The result is true exactly when the argument occurs in `bound`. |
| Mixitup.Control.AddBinding | src/control.js:112-122 | As written, the mixer is always appended at the end. Earlier entries and their order are unchanged. |
| Mixitup.Control.AddBindingOnce | src/control.js:112-122 | Corrected guard: a mixer already bound leaves `bound` unchanged, and a new one is appended. Afterwards the mixer is bound, and a duplicate-free list stays duplicate-free. |
| Mixitup.Control.RemoveBinding | src/control.js:130-157 | As written: `bound` loses the first occurrence of the mixer. Once `bound` is empty, this control's listener is detached (others on the element stay), the handler is gone and the registry has been spliced at `indexOf(this)` unchecked. `threw` holds exactly when the drained control was `active`, because `setStatus` then reads `bound[0]`. |
| Mixitup.Control.RemoveBindingIntended | src/control.js:130-157 | Corrected: while a mixer stays bound, the handler, listeners, registry and appearance are unchanged. Once drained, only this control's listener is detached, the handler is gone and the control leaves the registry only if present. An `active` control turns `inactive` with the former first mixer's class removed; any other drained control keeps its status, classes and disabled flag. |
| Mixitup.Control.DropBinding | src/control.js:136-138 | `bound` loses exactly what the guarded removal removes: the first occurrence of the mixer, if any. |
| Mixitup.Control.Deregister | src/control.js:147-149 | The registry becomes the unchecked `splice(indexOf(this), 1)` of the old registry. |
| Mixitup.Control.BindClick | src/control.js:164-176 | The control holds a handler, and exactly this control is added to the element's listeners. |
| Mixitup.Control.UnbindClick | src/control.js:183-193 | Exactly this control's listener is detached, other controls' listeners on the same element stay, and the handler is cleared. |
| Mixitup.Control.HandleClick | src/control.js:195-259 | Afterwards `pending` equals the number of bound mixers. Each mixer, in binding order, gets its `_lastClicked` set to the element and exactly one call: toggleOff/toggleOn of the derived filter for a toggle, depending on `isActive`, and multiMix of the command otherwise. |
| Mixitup.DispatchFor | src/control.js:250-255 | A toggle sends `toggleOff(filter)` exactly when the click found it active and `toggleOn(filter)` otherwise. Every other method sends `multiMix(command)` to the same mixer. |
| ControlRules.DeriveCommand | src/control.js:215-241 | Each command field the method uses is the stored value when that is a non-empty string, otherwise the button's attribute (data-filter, data-sort or data-toggle). Fields the method does not use stay undefined. |
| ControlRules.ToggleIsActive | src/control.js:229-238 | A non-live toggle is active exactly when its status is `active`. A live toggle takes the button's class test. |
| ControlRules.Or | src/control.js:217 | JavaScript `a \|\| b`: the result is `a` when `a` is truthy and `b` otherwise. |
| ControlRules.GetAttribute | src/control.js:62 | `getAttribute` gives null exactly for a missing attribute, and the attribute's text otherwise. |
| Mixitup.Control.Update | src/control.js:267-340 | `pending` becomes `max(0, pending - 1)`. While it stays positive, or for a live control, the status, classes and disabled flag are unchanged. Otherwise they are exactly the result of the method's `setStatus` sequence. |
| Mixitup.Control.Reconcile | src/control.js:290-337 | The method-specific branch leaves the element as the method's `setStatus` sequence prescribes. |
| Mixitup.Control.ReconcileToggle | src/control.js:314-336 | The toggle branch applies, in order, `inactive` for an empty array, `active` for an equal command filter, then the loop's calls. |
| Mixitup.Control.ScanToggleArray | src/control.js:322-334 | The loop leaves the element as `ToggleScan` prescribes: `inactive` per differing entry, then `active` at the first equal one. |
| Mixitup.Control.SetStatus | src/control.js:347-380 | One call changes the status, classes and disabled flag exactly as `ApplyStatus` does with the first mixer's active class. An `active`/`inactive` change needs a bound mixer. |
| Mixitup.Control.ShowStatus | src/control.js:356-379 | The body of `setStatus` once the active class is known: the element ends as `ApplyStatus` says. |
| ControlRules.ApplyStatus | src/control.js:347-380 | The same status changes nothing. Otherwise the status becomes the argument. `active` adds and `inactive` removes the active class, and both clear the disabled flag only when the element can be disabled. `disabled` sets the flag only then and leaves the classes alone. |
| ControlRules.ApplyAll | src/control.js:290-337 | A sequence of `setStatus` calls: no calls change nothing, the status ends as the last request, and a control that cannot disable keeps its flag. |
| ControlRules.ApplyAllConcat | src/control.js:314-334 | Running two batches of `setStatus` calls one after the other is running their concatenation. |
| ControlRules.ApplyAllCons | src/control.js:322-334 | Running one call and then the rest is running the whole sequence. |
| ControlRules.ApplyAllReflectsStatus | src/control.js:356-375 | Once the class set agrees with an `active`/`inactive` status, every sequence of calls keeps it so. A sequence that changes the status at least once establishes it from any start. |
| ControlRules.QuietConcat | src/control.js:356 | A concatenation of calls changes nothing exactly when both parts change nothing. |
| ControlRules.QuietChangesNothing | src/control.js:356 | Calls that all name the current status leave the element untouched. |
| ControlRules.ToggleScan | src/control.js:322-334 | The loop makes no calls exactly when it starts at the end of the array. |
| ControlRules.ToggleScanEnds | src/control.js:322-334 | Over a non-empty rest of the array, the loop's last call is `active` exactly when some remaining entry equals the filter, and `inactive` otherwise. |
| ControlRules.ToggleRequestsSplit | src/control.js:314-336 | The toggle branch's calls are, in order, line 316's `inactive` exactly for an empty array, line 319's `active` exactly on a matching command filter (the helpers `EmptyArrayRequest` and `FilterMatchRequest`), then the loop's calls. Together they change nothing exactly when each part does. |
| ControlRules.ToggleRequestsEnd | src/control.js:314-336 | The toggle branch's last call is `active` or `inactive`. With an empty array it is `active` iff the command's filter matches; otherwise iff the filter is listed. |
| ControlRules.StatusRequests | src/control.js:290-337 | A control without a method makes no `setStatus` calls, and every method makes at least one. The per-method outcome, built with the helper `Verdict`, is stated by `RecomputedStatus`. |
| ControlRules.RecomputedStatus | src/control.js:290-337 | Final status per method: filter is active iff the filter matches, sort iff the sort matches, multiMix iff both match. A toggle with an empty array is active iff the command's filter matches. A toggle with a non-empty array is active iff the filter is listed. No method leaves the status unchanged. |
| ControlRules.EmptyToggleArrayActivates | src/control.js:315-320 | As written, an empty toggle array with an equal command filter ends `active`. |
| ControlRules.LoopOverridesFilterMatch | src/control.js:318-334 | As written, with a non-empty toggle array that does not list the filter, a matching command still ends `inactive`: the loop overrides line 319's `active`. |
| ControlRules.IntendedToggleRequests | src/control.js:314-334 | Corrected toggle branch: an empty array gives exactly `inactive`. A non-empty one gives exactly `active` on a matching command filter, and runs the loop otherwise. |
| ControlRules.IntendedToggleStatus | src/control.js:314-334 | Corrected toggle rule: active exactly when the array is non-empty and either the command's filter matches or the filter is listed; inactive otherwise. |
| ControlRules.NextPending | src/control.js:274-276 | One callback: the counter drops by one and never goes below zero. |
| ControlRules.PendingCountsDown | src/control.js:245-278 | After a dispatch to `n` mixers, `k <= n` callbacks leave `n - k`. |
| ControlRules.OnlyLastCallbackRecomputes | src/control.js:274-278 | Of the `n` callbacks of one dispatch, exactly the last finds the counter at zero and recomputes the status. |
| Mixitup.Registry.constructor | src/control.js:395 | The registry starts empty. |
| JsArray.IndexOf | src/control.js:101 | `indexOf` is -1 exactly when the element is absent. Otherwise it is the first position holding it. |
| JsArray.SpliceStart | src/control.js:149 | `splice` keeps a start inside the array, counts a negative start back from the end, clamps a start below minus the length to 0 and clamps a start past the end to the length. |
| JsArray.SpliceOne | src/control.js:137 | `splice(start, 1)` at a position inside the array removes exactly that element. At or past the end it removes nothing. A negative start down to minus the length removes the element that many places from the end, and a lower one removes the first element. |
| JsArray.RemoveFirst | src/control.js:136-138 | The guarded removal leaves an array without the element unchanged, and otherwise shortens it by one. |
| JsArray.RemoveFirstDeletesFirstOccurrence | src/control.js:136-138 | The guarded removal deletes exactly the first occurrence and keeps the other elements in order. As multisets, it removes one copy. |
| JsArray.RemoveFirstKeepsNoDuplicates | src/control.js:136-138 | Removing from a duplicate-free array keeps it duplicate-free and leaves the element absent. |
| JsArray.UnguardedSpliceDropsLast | src/control.js:147-149 | The unchecked registry splice drops the last entry when the control is absent. |
| JsArray.UnguardedSpliceWhenPresent | src/control.js:147-149 | When the control is present, the unchecked splice agrees with the guarded removal. |
| Mixitup.DuplicateBindingWitness | src/control.js:117-119 | Adding the same mixer twice lists it twice. |
| Mixitup.SecondRemovalWitness | src/control.js:145-149 | A second `removeBinding` on a drained control removes a different, still bound control from the registry. |
| Mixitup.ActiveUnbindWitness | src/control.js:151-153 | Draining an `active` control reaches `setStatus('inactive')` with nothing bound. |
| Mixitup.SharedElementWitness | src/control.js:164-193 | Two controls on one element: draining one detaches only its own listener, and the other keeps its handler attached. |

## Left out

- `execAction` and `execFilter` hooks, `mixitup.Base`/`BaseStatic`, `h.seal`, `h.extend` and the prototype
  wiring: these form an extension mechanism outside this model. The `execFilter` calls are the identity.
- DOM primitives (`h.on`, `h.off`, `h.closestParent`, `h.hasClass`, `h.addClass`, `h.removeClass`,
  `getAttribute`): the element becomes an attribute map, a class set, a disabled flag and the set of controls listening on it.
  The `closestParent` result is an input to `HandleClick`.
- The mixers' own `multiMix`, `toggleOn` and `toggleOff` execution, its asynchrony and its animation: a click
  returns the log of calls it makes, and later completions are separate calls to `Update`.
- `updateLive` is an empty stub in the source; a live control's `Update` changes only the counter.
- The commented-out `_handleMultiMixClick` is not part of this model (it is not code).
- Mixitup.Control.HandleClick: the live toggle's class test on the button is a boolean input, not computed.
  The method requires a button whenever one is read, and a bound mixer for a live toggle. In both cases the
  source would throw on `null` or `undefined`.
- Mixitup.Control.HandleClick, Mixitup.Control.AddBinding: `bound` holds only mixers. `addBinding(undefined)`
  would store an `undefined`. The loop in `handleClick` would then stop early at it, and `isBound()` would
  then find it, so `addBinding` would never append again. Neither effect is modelled.
- Mixitup.Control.Init: `canDisable` tests a boolean property named `disable` on the element, not
  `disabled`. The model takes that test as the element constant `hasBooleanDisable`.
- Mixitup.Control.SetStatus: the throw that `setStatus` raises on an empty `bound` is a precondition here.
  `RemoveBinding` reports the violation by the call at line 152 through its `threw` result.
- Mixitup.Control.Update: requires either a bound mixer or status requests that change nothing. Otherwise the
  same throw as in `setStatus` would occur.
- "In the registry exactly when something is bound" is not proved as an invariant, because the code
  does not keep it (`init` registers before any binding).

## Findings

| source | as written | input that shows it | evidently intended | confidence | as-written member | corrected member |
|---|---|---|---|---|---|---|
| src/control.js:117 | `if (!self.isBound())` tests membership of `undefined`, so the guard is always false | `addBinding(m)` twice with the same mixer gives `bound == [m, m]` | `isBound(mixer)`: add only a mixer not yet bound | high (not executed) | Mixitup.Control.AddBinding, Mixitup.DuplicateBindingWitness | Mixitup.Control.AddBindingOnce |
| src/control.js:147-149 | `controls.splice(controls.indexOf(self), 1)` with no check of -1 | two controls registered, the first drained twice: the second `removeBinding` removes the other, still bound control | remove the entry only when found | high (not executed) | Mixitup.Control.RemoveBinding, JsArray.UnguardedSpliceDropsLast, Mixitup.SecondRemovalWitness | Mixitup.Control.RemoveBindingIntended, JsArray.RemoveFirstDeletesFirstOccurrence |
| src/control.js:151-152 | `setStatus('inactive')` after `bound` is empty reads `bound[0].controls` on `undefined` | an `active` filter control whose only mixer is removed | turn `inactive` using the class of the mixer that was bound | high (not executed) | Mixitup.Control.RemoveBinding, Mixitup.ActiveUnbindWitness | Mixitup.Control.RemoveBindingIntended |
| src/control.js:316-320 | an empty toggle array sets `inactive`, then an equal command filter sets `active` again | toggle control with filter `.a`, `update({filter: '.a'}, [])` ends `active` | an empty toggle array forces `inactive` | medium (not executed) | ControlRules.StatusRequests, ControlRules.EmptyToggleArrayActivates | ControlRules.IntendedToggleRequests, ControlRules.IntendedToggleStatus |
| src/control.js:318-334 | line 319 sets `active` on a matching command filter, but for a non-empty toggle array the loop then calls `setStatus('inactive')` for every entry before a match | toggle control with filter `.a`, `update({filter: '.a'}, ['.b'])` ends `inactive` | a matching command filter keeps the control `active`; the loop decides only otherwise | medium (not executed) | ControlRules.RecomputedStatus, ControlRules.LoopOverridesFilterMatch | ControlRules.IntendedToggleRequests, ControlRules.IntendedToggleStatus |
