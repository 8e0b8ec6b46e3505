/**
 * The toast store behind the notification component: the queue of visible
 * toasts (newest first, at most five) and the map from toast id to the
 * pending auto-dismiss timer. Fresh ids and timer handles come from the
 * browser; here the caller supplies them.
 */
module Alert {
  import opened Wrappers
  import opened Seqs

  datatype ToastVariant = Success | Error

  datatype ToastItem = ToastItem(
    id: string, message: string, title: Option<string>,
    variant: ToastVariant, durationMs: int)

  datatype ToastOptions = ToastOptions(title: Option<string>, durationMs: Option<int>)

  /** At most this many toasts are visible. */
  const MaxToasts := 5

  /** The lifetime of a toast when the caller gives none. */
  const DefaultDurationMs := 3500

  function Min(a: int, b: int): int {
    if a <= b then a else b
  }

  /** `options?.durationMs ?? 3500`: only a missing value falls back, so 0 stays 0. */
  function DurationOf(options: Option<ToastOptions>): (r: int)
    ensures options.Some? && options.value.durationMs.Some? ==> r == options.value.durationMs.value
    ensures options == None || options.value.durationMs == None ==> r == DefaultDurationMs
  {
    match options
    case Some(ToastOptions(_, Some(d))) => d
    case _ => DefaultDurationMs
  }

  /** `options?.title`: the title when options and a title are given, otherwise none. */
  function TitleOf(options: Option<ToastOptions>): (r: Option<string>)
    ensures r.Some? <==> options.Some? && options.value.title.Some?
    ensures r.Some? ==> r.value == options.value.title.value
  {
    if options.Some? then options.value.title else None
  }

  /** `[toast, ...queue].slice(0, 5)`: the new toast in front, the oldest ones cut off. */
  function PushNewest(queue: seq<ToastItem>, toast: ToastItem): (r: seq<ToastItem>)
    ensures |r| == Min(|queue| + 1, MaxToasts)
    ensures r[0] == toast
    ensures r[1..] == queue[..Min(|queue|, MaxToasts - 1)]
  {
    ([toast] + queue)[..Min(|queue| + 1, MaxToasts)]
  }

  function HasOtherId(id: string): ToastItem -> bool {
    (t: ToastItem) => t.id != id
  }

  /** The queue after `dismiss(id)`: every toast with that id removed, the rest in order. */
  function WithoutId(queue: seq<ToastItem>, id: string): (r: seq<ToastItem>)
    ensures |r| <= |queue|
    ensures forall k :: 0 <= k < |r| ==> r[k].id != id
  {
    Filter(HasOtherId(id), queue)
  }

  /** Dismissing keeps exactly the toasts with other ids, in their order. */
  lemma WithoutIdKeepsOthers(queue: seq<ToastItem>, id: string)
    ensures IsSubsequence(WithoutId(queue, id), queue)
    ensures forall t :: t in WithoutId(queue, id) <==> t in queue && t.id != id
  {
    FilterIsSubsequence(HasOtherId(id), queue);
    FilterMembers(HasOtherId(id), queue);
  }

  /** Dismissing an id that is not shown leaves the queue as it is. */
  lemma WithoutAbsentId(queue: seq<ToastItem>, id: string)
    requires forall k :: 0 <= k < |queue| ==> queue[k].id != id
    ensures WithoutId(queue, id) == queue
  {
    FilterKeepsAll(HasOtherId(id), queue);
  }

  /** Dismissing twice is dismissing once. */
  lemma WithoutIdIdempotent(queue: seq<ToastItem>, id: string)
    ensures WithoutId(WithoutId(queue, id), id) == WithoutId(queue, id)
  {
    FilterIdempotent(HasOtherId(id), queue);
  }

  /**
   * Showing a toast with a fresh id and dismissing it again gives back the
   * queue as it was, less the oldest toast when the queue was full.
   */
  lemma AddThenDismiss(queue: seq<ToastItem>, toast: ToastItem)
    requires forall k :: 0 <= k < |queue| ==> queue[k].id != toast.id
    ensures WithoutId(PushNewest(queue, toast), toast.id) == queue[..Min(|queue|, MaxToasts - 1)]
  {
    var pushed := PushNewest(queue, toast);
    var rest := queue[..Min(|queue|, MaxToasts - 1)];
    assert pushed == [toast] + rest;
    FilterKeepsAll(HasOtherId(toast.id), rest);
    PrependDropped(HasOtherId(toast.id), toast, rest);
  }

  /**
   * The module state of the toast component: `currentToasts` and `timeouts`.
   * Timer handles are numbers; a handle of 0 is never cleared, as the
   * truthiness test before `clearTimeout` skips it.
   */
  class ToastStore {
    var toasts: seq<ToastItem>
    var timeouts: map<string, nat>

    ghost predicate Valid()
      reads this
    {
      |toasts| <= MaxToasts
    }

    constructor ()
      ensures toasts == [] && timeouts == map[]
      ensures Valid()
    {
      toasts := [];
      timeouts := map[];
    }

    /**
     * `addToast`: shows a toast with the given id in front of the queue and,
     * when its duration is positive, records the auto-dismiss timer for it.
     */
    method AddToast(variant: ToastVariant, message: string, options: Option<ToastOptions>, freshId: string, timer: nat)
      returns (id: string)
      modifies this
      ensures id == freshId
      ensures toasts == PushNewest(old(toasts), ToastItem(freshId, message, TitleOf(options), variant, DurationOf(options)))
      ensures timeouts == if DurationOf(options) > 0 then old(timeouts)[freshId := timer] else old(timeouts)
      ensures Valid()
    {
      id := freshId;
      var durationMs := DurationOf(options);
      var toast := ToastItem(id, message, TitleOf(options), variant, durationMs);
      toasts := PushNewest(toasts, toast);
      if durationMs > 0 {
        timeouts := timeouts[id := timer];
      }
    }

    /** `toast.success`. */
    method ShowSuccess(message: string, options: Option<ToastOptions>, freshId: string, timer: nat)
      returns (id: string)
      modifies this
      ensures id == freshId
      ensures toasts == PushNewest(old(toasts), ToastItem(freshId, message, TitleOf(options), Success, DurationOf(options)))
      ensures timeouts == if DurationOf(options) > 0 then old(timeouts)[freshId := timer] else old(timeouts)
      ensures Valid()
    {
      id := AddToast(Success, message, options, freshId, timer);
    }

    /** `toast.error`. */
    method ShowError(message: string, options: Option<ToastOptions>, freshId: string, timer: nat)
      returns (id: string)
      modifies this
      ensures id == freshId
      ensures toasts == PushNewest(old(toasts), ToastItem(freshId, message, TitleOf(options), Error, DurationOf(options)))
      ensures timeouts == if DurationOf(options) > 0 then old(timeouts)[freshId := timer] else old(timeouts)
      ensures Valid()
    {
      id := AddToast(Error, message, options, freshId, timer);
    }

    /**
     * `dismiss`: forgets the timer of the id (returning the handle to clear,
     * when there is a non-zero one) and removes the toasts with that id.
     */
    method Dismiss(id: string) returns (cleared: Option<nat>)
      modifies this
      ensures cleared.Some? <==> id in old(timeouts) && old(timeouts)[id] != 0
      ensures cleared.Some? ==> cleared.value == old(timeouts)[id]
      ensures timeouts == old(timeouts) - {id}
      ensures toasts == WithoutId(old(toasts), id)
      ensures old(Valid()) ==> Valid()
    {
      cleared := None;
      if id in timeouts && timeouts[id] != 0 {
        cleared := Some(timeouts[id]);
      }
      timeouts := timeouts - {id};
      toasts := WithoutId(toasts, id);
    }
  }
}
