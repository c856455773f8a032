/**
 * The pure rules of a mixitup control: the JavaScript values it compares,
 * how a click turns into a command, the `setStatus` requests that a
 * completed command produces, what those requests do to the element, and the
 * pending-completion counter.
 */
module ControlRules {

  /** The JavaScript values a command field or a captured attribute can hold. */
  datatype Value = Undefined | Null | Str(s: string)

  /** JavaScript truthiness restricted to these values: only a non-empty string is truthy. */
  predicate Truthy(v: Value) {
    v.Str? && v.s != ""
  }

  /** JavaScript `a || b`. */
  function Or(a: Value, b: Value): (r: Value)
    ensures r == a || r == b
    ensures Truthy(a) ==> r == a
    ensures !Truthy(a) ==> r == b
  {
    if Truthy(a) then a else b
  }

  /** `element.getAttribute(name)`: the attribute's text, or null when it is missing. */
  function GetAttribute(attributes: map<string, string>, name: string): (r: Value)
    ensures r != Undefined
    ensures r == Null <==> name !in attributes
    ensures name in attributes ==> r == Str(attributes[name])
  {
    if name in attributes then Str(attributes[name]) else Null
  }

  /** The control's method; `NoMethod` is the empty string a control holds before `init`. */
  datatype Method = NoMethod | Filter | Sort | Toggle | MultiMix

  /** The control's status. */
  datatype Status = Inactive | Active | Disabled | Live

  /** A command object: a field the click did not set is `Undefined`. */
  datatype Command = Command(filter: Value, sort: Value)

  /** Methods whose command carries a filter. */
  predicate UsesFilter(m: Method) {
    m == Filter || m == Toggle || m == MultiMix
  }

  /** Methods whose command carries a sort. */
  predicate UsesSort(m: Method) {
    m == Sort || m == MultiMix
  }

  /** The attribute a method takes its filter from: `data-toggle` for toggles, `data-filter` otherwise. */
  function FilterAttribute(m: Method): string {
    if m == Toggle then "data-toggle" else "data-filter"
  }

  /**
   * The command a click derives: every field the method uses is the value
   * stored at `init` when that is a non-empty string, and otherwise the
   * clicked button's attribute; the fields the method does not use stay undefined.
   */
  function DeriveCommand(m: Method, filter: Value, sort: Value, button: map<string, string>): (r: Command)
    ensures UsesFilter(m) <==> r.filter != Undefined
    ensures UsesSort(m) <==> r.sort != Undefined
    ensures UsesFilter(m) && Truthy(filter) ==> r.filter == filter
    ensures UsesFilter(m) && !Truthy(filter) ==> r.filter == GetAttribute(button, FilterAttribute(m))
    ensures UsesSort(m) && Truthy(sort) ==> r.sort == sort
    ensures UsesSort(m) && !Truthy(sort) ==> r.sort == GetAttribute(button, "data-sort")
  {
    match m
    case NoMethod => Command(Undefined, Undefined)
    case Filter => Command(Or(filter, GetAttribute(button, "data-filter")), Undefined)
    case Sort => Command(Undefined, Or(sort, GetAttribute(button, "data-sort")))
    case MultiMix => Command(Or(filter, GetAttribute(button, "data-filter")), Or(sort, GetAttribute(button, "data-sort")))
    case Toggle => Command(Or(filter, GetAttribute(button, "data-toggle")), Undefined)
  }

  /** Whether deriving the command reads an attribute of the clicked button at all. */
  predicate ReadsButton(m: Method, filter: Value, sort: Value) {
    (UsesFilter(m) && !Truthy(filter)) || (UsesSort(m) && !Truthy(sort))
  }

  /**
   * Whether a toggle click switches its filter off: a live control asks the
   * button whether it carries the active class, any other control asks its own status.
   */
  function ToggleIsActive(status: Status, buttonHasActiveClass: bool): (r: bool)
    ensures status != Live ==> (r <==> status == Active)
    ensures status == Live ==> r == buttonHasActiveClass
  {
    if status == Live then buttonHasActiveClass else status == Active
  }

  /** What a status change touches: the status, the element's class set and its disabled flag. */
  datatype View = View(status: Status, classes: set<string>, disabled: bool)

  /**
   * One `setStatus(s)` call, with `activeClass` the first bound mixer's
   * active class: nothing happens when `s` is the current status; otherwise
   * `active` adds the class, `inactive` removes it, both clear the disabled
   * flag only when the element can be disabled, `disabled` sets that flag only
   * when it can and leaves the classes alone, and the status becomes `s`.
   */
  function ApplyStatus(v: View, s: Status, activeClass: string, canDisable: bool): (r: View)
    ensures s == v.status ==> r == v
    ensures r.status == s
    ensures s != v.status && s == Active ==> r.classes == v.classes + {activeClass}
    ensures s != v.status && s == Inactive ==> r.classes == v.classes - {activeClass}
    ensures s == Disabled || s == Live ==> r.classes == v.classes
    ensures !canDisable ==> r.disabled == v.disabled
    ensures canDisable && s != v.status && (s == Active || s == Inactive) ==> !r.disabled
    ensures canDisable && s != v.status && s == Disabled ==> r.disabled
  {
    if s == v.status then v
    else
      match s
      case Active => View(s, v.classes + {activeClass}, if canDisable then false else v.disabled)
      case Inactive => View(s, v.classes - {activeClass}, if canDisable then false else v.disabled)
      case Disabled => View(s, v.classes, if canDisable then true else v.disabled)
      case Live => View(s, v.classes, v.disabled)
  }

  /** A sequence of `setStatus` calls, in order. */
  function ApplyAll(v: View, requests: seq<Status>, activeClass: string, canDisable: bool): (r: View)
    decreases |requests|
    ensures requests == [] ==> r == v
    ensures requests != [] ==> r.status == requests[|requests| - 1]
    ensures !canDisable ==> r.disabled == v.disabled
  {
    if requests == [] then v
    else ApplyAll(ApplyStatus(v, requests[0], activeClass, canDisable), requests[1..], activeClass, canDisable)
  }

  /** Running two batches of `setStatus` calls is running their concatenation. */
  lemma {:induction false} ApplyAllConcat(v: View, a: seq<Status>, b: seq<Status>, activeClass: string, canDisable: bool)
    ensures ApplyAll(v, a + b, activeClass, canDisable)
         == ApplyAll(ApplyAll(v, a, activeClass, canDisable), b, activeClass, canDisable)
    decreases |a|
  {
    if a != [] {
      var w := ApplyStatus(v, a[0], activeClass, canDisable);
      assert (a + b)[0] == a[0];
      assert (a + b)[1..] == a[1..] + b;
      ApplyAllConcat(w, a[1..], b, activeClass, canDisable);
    } else {
      assert a + b == b;
    }
  }

  /** Running `s` then `rest` is running `[s] + rest`. */
  lemma ApplyAllCons(v: View, s: Status, rest: seq<Status>, activeClass: string, canDisable: bool)
    ensures ApplyAll(v, [s] + rest, activeClass, canDisable)
         == ApplyAll(ApplyStatus(v, s, activeClass, canDisable), rest, activeClass, canDisable)
  {
    assert ([s] + rest)[1..] == rest;
  }

  /** The element's class set agrees with an `active` or `inactive` status. */
  predicate ClassReflectsStatus(v: View, activeClass: string) {
    (v.status == Active ==> activeClass in v.classes) &&
    (v.status == Inactive ==> activeClass !in v.classes)
  }

  /**
   * Once the class set agrees with the status, every sequence of `setStatus`
   * calls keeps it so; and a sequence that moves the status at least once
   * establishes it from any start.
   */
  lemma {:induction false} ApplyAllReflectsStatus(v: View, requests: seq<Status>, activeClass: string, canDisable: bool)
    requires ClassReflectsStatus(v, activeClass) || exists k :: 0 <= k < |requests| && requests[k] != v.status
    ensures ClassReflectsStatus(ApplyAll(v, requests, activeClass, canDisable), activeClass)
    decreases |requests|
  {
    if requests != [] {
      var w := ApplyStatus(v, requests[0], activeClass, canDisable);
      if !ClassReflectsStatus(w, activeClass) {
        var k :| 0 <= k < |requests| && requests[k] != v.status;
        assert requests[0] == v.status && w == v;
        assert requests[1..][k - 1] == requests[k];
      }
      ApplyAllReflectsStatus(w, requests[1..], activeClass, canDisable);
    }
  }

  /** None of the requests moves the status away from `current`: each is a no-op. */
  predicate Quiet(requests: seq<Status>, current: Status) {
    forall k | 0 <= k < |requests| :: requests[k] == current
  }

  /** A concatenation of requests is quiet exactly when both parts are. */
  lemma QuietConcat(a: seq<Status>, b: seq<Status>, current: Status)
    ensures Quiet(a + b, current) <==> Quiet(a, current) && Quiet(b, current)
  {
    if Quiet(a + b, current) {
      forall k | 0 <= k < |a| ensures a[k] == current {
        assert (a + b)[k] == a[k];
      }
      forall k | 0 <= k < |b| ensures b[k] == current {
        assert (a + b)[|a| + k] == b[k];
      }
    }
    if Quiet(a, current) && Quiet(b, current) {
      forall k | 0 <= k < |a + b| ensures (a + b)[k] == current {
        if k < |a| {
          assert (a + b)[k] == a[k];
        } else {
          assert (a + b)[k] == b[k - |a|];
        }
      }
    }
  }

  /** Quiet requests change nothing. */
  lemma {:induction false} QuietChangesNothing(v: View, requests: seq<Status>, activeClass: string, canDisable: bool)
    requires Quiet(requests, v.status)
    ensures ApplyAll(v, requests, activeClass, canDisable) == v
    decreases |requests|
  {
    if requests != [] {
      assert requests[0] == v.status;
      QuietConcat([requests[0]], requests[1..], v.status);
      assert [requests[0]] + requests[1..] == requests;
      QuietChangesNothing(v, requests[1..], activeClass, canDisable);
    }
  }

  /** `active` when the condition holds, `inactive` otherwise. */
  function Verdict(b: bool): (r: Status)
    ensures r == Active <==> b
    ensures r == Active || r == Inactive
  {
    if b then Active else Inactive
  }

  /** The filter value occurs in the toggle array. */
  predicate Listed(filter: Value, toggleArray: seq<string>) {
    exists j :: 0 <= j < |toggleArray| && Str(toggleArray[j]) == filter
  }

  /**
   * The `setStatus` calls of the loop over the toggle array from index `i`:
   * `inactive` for every entry that differs from the filter, then `active`
   * and stop at the first one that equals it.
   */
  function ToggleScan(toggleArray: seq<string>, filter: Value, i: nat): (r: seq<Status>)
    requires i <= |toggleArray|
    decreases |toggleArray| - i
    ensures r == [] <==> i == |toggleArray|
  {
    if i == |toggleArray| then []
    else if Str(toggleArray[i]) == filter then [Active]
    else [Inactive] + ToggleScan(toggleArray, filter, i + 1)
  }

  /**
   * The loop over a non-empty rest of the toggle array ends on `active`
   * exactly when some remaining entry equals the filter, and on `inactive` otherwise.
   */
  lemma {:induction false} ToggleScanEnds(toggleArray: seq<string>, filter: Value, i: nat)
    requires i < |toggleArray|
    ensures var r := ToggleScan(toggleArray, filter, i);
      && (r[|r| - 1] == Active || r[|r| - 1] == Inactive)
      && (r[|r| - 1] == Active <==> exists j :: i <= j < |toggleArray| && Str(toggleArray[j]) == filter)
    decreases |toggleArray| - i
  {
    if Str(toggleArray[i]) != filter {
      var rest := ToggleScan(toggleArray, filter, i + 1);
      if i + 1 < |toggleArray| {
        ToggleScanEnds(toggleArray, filter, i + 1);
        assert ([Inactive] + rest)[|rest|] == rest[|rest| - 1];
      } else {
        assert i == |toggleArray| - 1;
      }
    }
  }

  /** The `setStatus` call the toggle branch makes for an empty toggle array. */
  function EmptyArrayRequest(toggleArray: seq<string>): (r: seq<Status>)
    ensures r == [] || r == [Inactive]
    ensures r == [Inactive] <==> toggleArray == []
  {
    if |toggleArray| < 1 then [Inactive] else []
  }

  /** The `setStatus` call the toggle branch makes when the command's filter is the control's. */
  function FilterMatchRequest(command: Command, filter: Value): (r: seq<Status>)
    ensures r == [] || r == [Active]
    ensures r == [Active] <==> command.filter == filter
  {
    if command.filter == filter then [Active] else []
  }

  /** The `setStatus` calls the toggle branch makes before its loop. */
  function TogglePrelude(command: Command, filter: Value, toggleArray: seq<string>): seq<Status> {
    EmptyArrayRequest(toggleArray) + FilterMatchRequest(command, filter)
  }

  /**
   * The `setStatus` calls a non-live control makes once the last pending
   * completion arrives, in order, for each method.
   */
  function StatusRequests(m: Method, filter: Value, sort: Value, command: Command, toggleArray: seq<string>): (r: seq<Status>)
    ensures m == NoMethod <==> r == []
  {
    match m
    case NoMethod => []
    case Filter => [Verdict(command.filter == filter)]
    case MultiMix => [Verdict(command.sort == sort && command.filter == filter)]
    case Sort => [Verdict(command.sort == sort)]
    case Toggle => TogglePrelude(command, filter, toggleArray) + ToggleScan(toggleArray, filter, 0)
  }

  /**
   * The toggle branch's calls are the empty-array call, then the
   * equal-filter call, then the loop's calls; together they change nothing
   * exactly when each of the three parts changes nothing.
   */
  lemma ToggleRequestsSplit(filter: Value, sort: Value, command: Command, toggleArray: seq<string>, current: Status)
    ensures StatusRequests(Toggle, filter, sort, command, toggleArray)
         == EmptyArrayRequest(toggleArray) + FilterMatchRequest(command, filter) + ToggleScan(toggleArray, filter, 0)
    ensures Quiet(StatusRequests(Toggle, filter, sort, command, toggleArray), current) <==>
      && Quiet(EmptyArrayRequest(toggleArray), current)
      && Quiet(FilterMatchRequest(command, filter), current)
      && Quiet(ToggleScan(toggleArray, filter, 0), current)
  {
    var first, second := EmptyArrayRequest(toggleArray), FilterMatchRequest(command, filter);
    QuietConcat(first + second, ToggleScan(toggleArray, filter, 0), current);
    QuietConcat(first, second, current);
  }

  /**
   * The last call of the toggle branch is `active` or `inactive`. With an
   * empty toggle array it is `active` exactly when the command's filter is
   * the control's; otherwise exactly when the control's filter is listed.
   */
  lemma ToggleRequestsEnd(filter: Value, sort: Value, command: Command, toggleArray: seq<string>)
    ensures var r := StatusRequests(Toggle, filter, sort, command, toggleArray);
      && r != []
      && (r[|r| - 1] == Active || r[|r| - 1] == Inactive)
      && (toggleArray == [] ==> (r[|r| - 1] == Active <==> command.filter == filter))
      && (toggleArray != [] ==> (r[|r| - 1] == Active <==> Listed(filter, toggleArray)))
  {
    var scan := ToggleScan(toggleArray, filter, 0);
    var r := StatusRequests(Toggle, filter, sort, command, toggleArray);
    var matched := FilterMatchRequest(command, filter);
    assert r == EmptyArrayRequest(toggleArray) + matched + scan;
    if toggleArray == [] {
      assert scan == [] && r == [Inactive] + matched;
      assert r[|r| - 1] == Active <==> matched == [Active];
    } else {
      assert r == matched + scan;
      ToggleScanEnds(toggleArray, filter, 0);
      assert r[|r| - 1] == scan[|scan| - 1];
    }
  }


  /**
   * The status a completed command leaves a non-live control in, per method:
   * filter, sort and multiMix compare the command with the stored values; a
   * toggle with an empty toggle array follows the command's filter, and one
   * with a non-empty array is active exactly when the stored filter is listed.
   */
  lemma RecomputedStatus(v: View, m: Method, filter: Value, sort: Value, command: Command,
                         toggleArray: seq<string>, activeClass: string, canDisable: bool)
    ensures var r := ApplyAll(v, StatusRequests(m, filter, sort, command, toggleArray), activeClass, canDisable).status;
      && (m == NoMethod ==> r == v.status)
      && (m != NoMethod ==> r == Active || r == Inactive)
      && (m == Filter ==> (r == Active <==> command.filter == filter))
      && (m == Sort ==> (r == Active <==> command.sort == sort))
      && (m == MultiMix ==> (r == Active <==> command.filter == filter && command.sort == sort))
      && (m == Toggle && toggleArray == [] ==> (r == Active <==> command.filter == filter))
      && (m == Toggle && toggleArray != [] ==> (r == Active <==> Listed(filter, toggleArray)))
  {
    var reqs := StatusRequests(m, filter, sort, command, toggleArray);
    if m == Toggle {
      ToggleRequestsEnd(filter, sort, command, toggleArray);
    } else if m != NoMethod {
      assert reqs[|reqs| - 1] == reqs[0];
    }
  }


  /**
   * An empty toggle array does not force `inactive`: when the command's
   * filter equals the stored one, the control ends `active`.
   */
  lemma EmptyToggleArrayActivates(v: View, filter: Value, sort: Value, activeClass: string, canDisable: bool)
    ensures ApplyAll(v, StatusRequests(Toggle, filter, sort, Command(filter, Undefined), []), activeClass, canDisable).status == Active
  {
    RecomputedStatus(v, Toggle, filter, sort, Command(filter, Undefined), [], activeClass, canDisable);
  }

  /**
   * With a non-empty toggle array, the loop's `inactive` calls override the
   * `active` that a matching command filter set just before: a control whose
   * filter the array does not list ends `inactive` even on a matching command.
   */
  lemma LoopOverridesFilterMatch(v: View, filter: Value, sort: Value, toggleArray: seq<string>,
                                 activeClass: string, canDisable: bool)
    requires toggleArray != [] && !Listed(filter, toggleArray)
    ensures ApplyAll(v, StatusRequests(Toggle, filter, sort, Command(filter, Undefined), toggleArray),
                     activeClass, canDisable).status == Inactive
  {
    RecomputedStatus(v, Toggle, filter, sort, Command(filter, Undefined), toggleArray, activeClass, canDisable);
  }

  /**
   * The toggle branch as its three parts evidently intend: an empty array
   * sets `inactive` and nothing else; otherwise a matching command filter
   * sets `active` and the loop runs only when it did not.
   */
  function IntendedToggleRequests(command: Command, filter: Value, toggleArray: seq<string>): (r: seq<Status>)
    ensures toggleArray == [] ==> r == [Inactive]
    ensures toggleArray != [] && command.filter == filter ==> r == [Active]
    ensures toggleArray != [] && command.filter != filter ==> r == ToggleScan(toggleArray, filter, 0)
  {
    if |toggleArray| < 1 then [Inactive]
    else if command.filter == filter then [Active]
    else ToggleScan(toggleArray, filter, 0)
  }

  /**
   * The intended toggle rule: active exactly when the toggle array is
   * non-empty and either the command's filter is the control's or the
   * control's filter is listed; inactive otherwise.
   */
  lemma IntendedToggleStatus(v: View, command: Command, filter: Value, toggleArray: seq<string>,
                             activeClass: string, canDisable: bool)
    ensures var r := ApplyAll(v, IntendedToggleRequests(command, filter, toggleArray), activeClass, canDisable).status;
      && (r == Active || r == Inactive)
      && (r == Active <==> toggleArray != [] && (command.filter == filter || Listed(filter, toggleArray)))
  {
    if toggleArray != [] && command.filter != filter {
      ToggleScanEnds(toggleArray, filter, 0);
    }
  }

  /** One completion callback: `pending--` then `Math.max(0, pending)`. */
  function NextPending(p: int): (r: int)
    ensures r >= 0
    ensures p >= 1 ==> r == p - 1
    ensures p < 1 ==> r == 0
  {
    if p - 1 > 0 then p - 1 else 0
  }

  /** The counter after `k` completion callbacks. */
  function PendingAfter(p: int, k: nat): int
    decreases k
  {
    if k == 0 then p else PendingAfter(NextPending(p), k - 1)
  }

  /**
   * After a dispatch to `n` mixers the counter is `n`; the `k`-th callback
   * (k <= n) leaves `n - k`, so `n` callbacks bring it to zero.
   */
  lemma {:induction false} PendingCountsDown(n: nat, k: nat)
    requires k <= n
    ensures PendingAfter(n, k) == n - k
  {
    if k > 0 {
      PendingCountsDown(n - 1, k - 1);
    }
  }

  /**
   * Among the `n` callbacks of one dispatch, exactly the last finds the
   * counter at zero and recomputes the status.
   */
  lemma OnlyLastCallbackRecomputes(n: nat, k: nat)
    requires k < n
    ensures NextPending(PendingAfter(n, k)) == 0 <==> k == n - 1
  {
    PendingCountsDown(n, k);
  }
}
