/**
  The toast queue (src/stores/toastStore.ts): a list of notifications, each
  with a type and a display duration. New toasts go to the end; removal is by
  id. The id, which the store takes from the clock, is a parameter here.
 */
module ToastStore {
  import opened Wrappers

  datatype ToastType = Success | Error | Info

  datatype Toast = Toast(id: string, message: string, toastType: ToastType, duration: int)

  /** The durations in milliseconds (`TOAST_DURATIONS` in src/styles/components.ts). */
  const SUCCESS_DURATION := 3000
  const ERROR_DURATION := 5000
  const INFO_DURATION := 4000

  /** The duration a toast gets when the caller gives none: errors stay longest,
      then information, then success. */
  function DefaultDuration(t: ToastType): (d: int)
    ensures t == Error ==> d == 5000
    ensures t == Info ==> d == 4000
    ensures t == Success ==> d == 3000
    ensures d >= SUCCESS_DURATION
  {
    if t == Error then ERROR_DURATION else if t == Info then INFO_DURATION else SUCCESS_DURATION
  }

  /** `duration ?? defaultDuration`: a given duration wins, 0 included; only a
      missing one falls back to the default of the type. */
  function FinalDuration(t: ToastType, duration: Option<int>): (d: int)
    ensures duration.Some? ==> d == duration.value
    ensures duration == None ==> d == DefaultDuration(t)
  {
    duration.GetOr(DefaultDuration(t))
  }

  /** `toasts.filter((toast) => toast.id !== id)`. */
  function Without(toasts: seq<Toast>, id: string): (r: seq<Toast>)
    ensures |r| <= |toasts|
    ensures forall k :: 0 <= k < |r| ==> r[k].id != id && r[k] in toasts
    ensures forall k :: 0 <= k < |toasts| && toasts[k].id != id ==> toasts[k] in r
  {
    if toasts == [] then []
    else
      var last := toasts[|toasts| - 1];
      Without(toasts[..|toasts| - 1], id) + (if last.id != id then [last] else [])
  }

  /** Removal works list by list, so the survivors keep their order. */
  lemma {:induction false} WithoutAppend(a: seq<Toast>, b: seq<Toast>, id: string)
    ensures Without(a + b, id) == Without(a, id) + Without(b, id)
    decreases |b|
  {
    if b == [] {
      assert a + b == a;
    } else {
      assert (a + b)[..|a + b| - 1] == a + b[..|b| - 1];
      WithoutAppend(a, b[..|b| - 1], id);
    }
  }

  /** Removing an id that no toast carries changes nothing. */
  lemma {:induction false} WithoutAbsent(toasts: seq<Toast>, id: string)
    requires forall k :: 0 <= k < |toasts| ==> toasts[k].id != id
    ensures Without(toasts, id) == toasts
  {
    if toasts != [] {
      WithoutAbsent(toasts[..|toasts| - 1], id);
      assert toasts[..|toasts| - 1] + [toasts[|toasts| - 1]] == toasts;
    }
  }

  /** Removing twice is removing once. */
  lemma WithoutTwice(toasts: seq<Toast>, id: string)
    ensures Without(Without(toasts, id), id) == Without(toasts, id)
  {
    WithoutAbsent(Without(toasts, id), id);
  }

  /** Adding a toast with a fresh id and then removing that id gives back the list. */
  lemma AddThenRemove(toasts: seq<Toast>, t: Toast)
    requires forall k :: 0 <= k < |toasts| ==> toasts[k].id != t.id
    ensures Without(toasts + [t], t.id) == toasts
  {
    WithoutAppend(toasts, [t], t.id);
    WithoutAbsent(toasts, t.id);
    assert Without([t], t.id) == [] by {
      assert [t][..0] == [];
    }
  }

  class Store {
    var toasts: seq<Toast>

    constructor ()
      ensures toasts == []
    {
      toasts := [];
    }

    /** `addToast(message, type = "success", duration)`: one toast appended at
        the end with the type given (success when none) and its final duration. */
    method AddToast(message: string, toastType: Option<ToastType>, duration: Option<int>, id: string)
      modifies this
      ensures var t := toastType.GetOr(Success);
              toasts == old(toasts) + [Toast(id, message, t, FinalDuration(t, duration))]
    {
      var t := toastType.GetOr(Success);
      var defaultDuration := if t == Error then ERROR_DURATION
                             else if t == Info then INFO_DURATION
                             else SUCCESS_DURATION;
      var finalDuration := duration.GetOr(defaultDuration);
      var newToast := Toast(id, message, t, finalDuration);
      toasts := toasts + [newToast];
    }

    /** `removeToast(id)`: every toast with that id goes, the others stay in order. */
    method RemoveToast(id: string)
      modifies this
      ensures toasts == Without(old(toasts), id)
    {
      toasts := Without(toasts, id);
    }

    method ClearAllToasts()
      modifies this
      ensures toasts == []
    {
      toasts := [];
    }

    method ShowSuccess(message: string, duration: Option<int>, id: string)
      modifies this
      ensures toasts == old(toasts) + [Toast(id, message, Success, FinalDuration(Success, duration))]
    {
      AddToast(message, Some(Success), duration, id);
    }

    method ShowError(message: string, duration: Option<int>, id: string)
      modifies this
      ensures toasts == old(toasts) + [Toast(id, message, Error, FinalDuration(Error, duration))]
    {
      AddToast(message, Some(Error), duration, id);
    }

    method ShowInfo(message: string, duration: Option<int>, id: string)
      modifies this
      ensures toasts == old(toasts) + [Toast(id, message, Info, FinalDuration(Info, duration))]
    {
      AddToast(message, Some(Info), duration, id);
    }
  }
}
