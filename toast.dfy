/**
  The toast queue: a reducer over four actions that keeps at most three toasts, a
  module-level id counter, and the module-level state every dispatch replaces.
 */
module Toast {
  import opened Wrappers
  import Seqs
  import Text

  const TOAST_LIMIT: nat := 3
  /** `Number.MAX_SAFE_INTEGER`, 2^53 - 1. */
  const MAX_SAFE_INTEGER: nat := 9007199254740991
  /** The duration `toast()` uses when none (or 0) is given, in milliseconds. */
  const DEFAULT_DURATION: int := 5000

  /** A toast in the queue; title and description are the text the toast shows. */
  datatype ToasterToast = ToasterToast(
    id: string,
    title: Option<string>,
    description: Option<string>,
    duration: Option<int>)

  /** `Partial<ToasterToast>`: an update carries only some of the fields. */
  datatype ToastPatch = ToastPatch(
    id: Option<string>,
    title: Option<string>,
    description: Option<string>,
    duration: Option<int>)

  datatype Action =
    | AddToast(toast: ToasterToast)
    | UpdateToast(patch: ToastPatch)
    | DismissToast(toastId: Option<string>)
    | RemoveToast(toastId: Option<string>)

  /** `{ ...t, ...patch }`: every field the patch carries overrides the toast's. */
  function Merge(t: ToasterToast, patch: ToastPatch): ToasterToast {
    ToasterToast(
      patch.id.GetOr(t.id),
      if patch.title.Some? then patch.title else t.title,
      if patch.description.Some? then patch.description else t.description,
      if patch.duration.Some? then patch.duration else t.duration)
  }

  /** `t.id === id`, where an absent id equals no toast's id. */
  predicate HasId(t: ToasterToast, id: Option<string>) {
    id == Some(t.id)
  }

  /** The predicate `t => t.id !== id`. */
  function IdIsNot(id: string): ToasterToast -> bool {
    (t: ToasterToast) => t.id != id
  }

  /** The smaller of two numbers. */
  function Min(a: int, b: int): int {
    if a < b then a else b
  }

  /** `reducer(state, action).toasts`. */
  function Reduce(toasts: seq<ToasterToast>, action: Action): (r: seq<ToasterToast>)
    ensures action.AddToast? ==>
              |r| == Min(|toasts| + 1, TOAST_LIMIT) && r[0] == action.toast && r[1..] == toasts[..|r| - 1]
    ensures action.UpdateToast? ==>
              |r| == |toasts|
              && (forall k :: 0 <= k < |r| ==> r[k].id == toasts[k].id)
              && (forall k :: 0 <= k < |r| && !HasId(toasts[k], action.patch.id) ==> r[k] == toasts[k])
              && (forall k :: 0 <= k < |r| && HasId(toasts[k], action.patch.id) ==> r[k] == Merge(toasts[k], action.patch))
    ensures action.DismissToast? ==>
              |r| == |toasts|
              && forall k :: 0 <= k < |r| ==>
                   r[k] == if action.toastId.None? || HasId(toasts[k], action.toastId)
                           then toasts[k].(duration := Some(0)) else toasts[k]
    ensures action.RemoveToast? && action.toastId.None? ==> r == []
    ensures action.RemoveToast? && action.toastId.Some? ==>
              r == Seqs.Filter(toasts, IdIsNot(action.toastId.value))
              && forall t :: t in r <==> t in toasts && t.id != action.toastId.value
  {
    match action
    case AddToast(t) =>
      ([t] + toasts)[..Min(|toasts| + 1, TOAST_LIMIT)]
    case UpdateToast(patch) =>
      seq(|toasts|, k requires 0 <= k < |toasts| =>
        if HasId(toasts[k], patch.id) then Merge(toasts[k], patch) else toasts[k])
    case DismissToast(toastId) =>
      seq(|toasts|, k requires 0 <= k < |toasts| =>
        if toastId.None? || HasId(toasts[k], toastId) then toasts[k].(duration := Some(0)) else toasts[k])
    case RemoveToast(toastId) =>
      if toastId.None? then []
      else
        Seqs.FilterMembers(toasts, IdIsNot(toastId.value));
        Seqs.Filter(toasts, IdIsNot(toastId.value))
  }

  /** The state after a sequence of dispatches. */
  function ReduceAll(toasts: seq<ToasterToast>, actions: seq<Action>): seq<ToasterToast>
    decreases |actions|
  {
    if actions == [] then toasts else ReduceAll(Reduce(toasts, actions[0]), actions[1..])
  }

  /** No action lets a queue within the limit grow past it. */
  lemma ReduceWithinLimit(toasts: seq<ToasterToast>, action: Action)
    requires |toasts| <= TOAST_LIMIT
    ensures |Reduce(toasts, action)| <= TOAST_LIMIT
  {
    if action.RemoveToast? && action.toastId.Some? {
      assert |Seqs.Filter(toasts, IdIsNot(action.toastId.value))| <= |toasts|;
    }
  }

  /** Whatever is dispatched, starting from the empty queue there are never more than three toasts. */
  lemma {:induction false} ReachableWithinLimit(toasts: seq<ToasterToast>, actions: seq<Action>)
    requires |toasts| <= TOAST_LIMIT
    ensures |ReduceAll(toasts, actions)| <= TOAST_LIMIT
    decreases |actions|
  {
    if actions != [] {
      ReduceWithinLimit(toasts, actions[0]);
      ReachableWithinLimit(Reduce(toasts, actions[0]), actions[1..]);
    }
  }

  /** A removal by id leaves no toast with that id and the others in their order. */
  lemma RemoveByIdKeepsOthers(toasts: seq<ToasterToast>, id: string, other: string)
    requires other != id
    ensures forall t :: t in Reduce(toasts, RemoveToast(Some(id))) ==> t.id != id
    ensures Seqs.Filter(Reduce(toasts, RemoveToast(Some(id))), IdIsNot(other))
         == Seqs.Filter(Seqs.Filter(toasts, IdIsNot(other)), IdIsNot(id))
  {
    Seqs.FilterFilter(toasts, IdIsNot(id), IdIsNot(other));
    Seqs.FilterFilter(toasts, IdIsNot(other), IdIsNot(id));
    Seqs.FilterCongruent(toasts, Seqs.Both(IdIsNot(id), IdIsNot(other)), Seqs.Both(IdIsNot(other), IdIsNot(id)));
  }

  /** The ids `genId` hands out are pairwise distinct until the counter wraps around. */
  lemma IdsDistinctBeforeWrap(count: nat, i: nat, j: nat)
    requires count < MAX_SAFE_INTEGER
    requires 1 <= i < j <= MAX_SAFE_INTEGER
    ensures Text.DecimalString((count + i) % MAX_SAFE_INTEGER) != Text.DecimalString((count + j) % MAX_SAFE_INTEGER)
  {
    var a, b := (count + i) % MAX_SAFE_INTEGER, (count + j) % MAX_SAFE_INTEGER;
    assert a != b by {
      var qa, qb := (count + i) / MAX_SAFE_INTEGER, (count + j) / MAX_SAFE_INTEGER;
      assert count + i == qa * MAX_SAFE_INTEGER + a;
      assert count + j == qb * MAX_SAFE_INTEGER + b;
      assert 0 < (qb - qa) * MAX_SAFE_INTEGER + (b - a) < MAX_SAFE_INTEGER;
    }
    Text.DecimalInjective(a, b);
  }

  /** What a caller of `toast()` supplies: everything but the id. */
  datatype ToastOptions = ToastOptions(title: Option<string>, description: Option<string>, duration: Option<int>)

  /** `props.duration || 5000`: an absent or zero duration becomes the default. */
  function EffectiveDuration(duration: Option<int>): (d: int)
    ensures duration.Some? && duration.value != 0 ==> d == duration.value
    ensures duration.None? || duration == Some(0) ==> d == DEFAULT_DURATION
  {
    if duration.None? || duration.value == 0 then DEFAULT_DURATION else duration.value
  }

  /** The module-level `count` and `memoryState`. */
  class ToastStore {
    var count: nat
    var memoryState: seq<ToasterToast>

    ghost predicate Valid()
      reads this
    {
      count < MAX_SAFE_INTEGER && |memoryState| <= TOAST_LIMIT
    }

    constructor ()
      ensures Valid() && count == 0 && memoryState == []
    {
      count, memoryState := 0, [];
    }

    /** `genId`: advance the counter modulo `MAX_SAFE_INTEGER` and return it in decimal. */
    method GenId() returns (id: string)
      requires Valid()
      modifies this`count
      ensures Valid()
      ensures count == (old(count) + 1) % MAX_SAFE_INTEGER
      ensures id == Text.DecimalString(count)
    {
      count := (count + 1) % MAX_SAFE_INTEGER;
      id := Text.DecimalString(count);
    }

    /** `dispatch`: the state becomes the reducer's result; the queue stays within the limit. */
    method Dispatch(action: Action)
      requires Valid()
      modifies this`memoryState
      ensures Valid()
      ensures memoryState == Reduce(old(memoryState), action)
    {
      ReduceWithinLimit(memoryState, action);
      memoryState := Reduce(memoryState, action);
    }

    /** `toast(props)`: a fresh id, and the new toast at the front of the queue. */
    method MakeToast(props: ToastOptions) returns (id: string)
      requires Valid()
      modifies this
      ensures Valid()
      ensures count == (old(count) + 1) % MAX_SAFE_INTEGER && id == Text.DecimalString(count)
      ensures memoryState == Reduce(old(memoryState),
                AddToast(ToasterToast(id, props.title, props.description, Some(EffectiveDuration(props.duration)))))
      ensures memoryState[0].id == id
      ensures memoryState[1..] <= old(memoryState)
    {
      id := GenId();
      var t := ToasterToast(id, props.title, props.description, Some(EffectiveDuration(props.duration)));
      Dispatch(AddToast(t));
    }

    /** The `update` closure `toast()` returns: patch this toast with new options. */
    method UpdateToastWith(id: string, props: ToastOptions)
      requires Valid()
      modifies this`memoryState
      ensures Valid()
      ensures memoryState == Reduce(old(memoryState),
                UpdateToast(ToastPatch(Some(id), props.title, props.description, props.duration)))
    {
      Dispatch(UpdateToast(ToastPatch(Some(id), props.title, props.description, props.duration)));
    }

    /** The `dismiss` closures: dismiss one toast, or all of them without an id. */
    method Dismiss(toastId: Option<string>)
      requires Valid()
      modifies this`memoryState
      ensures Valid()
      ensures memoryState == Reduce(old(memoryState), DismissToast(toastId))
    {
      Dispatch(DismissToast(toastId));
    }
  }
}
