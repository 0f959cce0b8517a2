// The bell badge the pages share: the number of notifications shown next
// to the bell, and the 'notifCount' entry of localStorage the pages write
// and read back. Each page holds one `Bell`; which operations a page uses
// is listed with the page's own module.

module Badge {
  import opened Common
  import opened Models

  /** A notification as the pages receive it from GET /notifications/. */
  datatype Item = Item(
    id: nat, kind: NotifType, status: Status,
    deadlineDate: Option<string>, currentDate: Option<string>)

  /** `notifs.filter(n => n.status === 'pending').length`. */
  function PendingCount(ns: seq<Item>): (r: nat)
    ensures r <= |ns|
    ensures r == 0 <==> forall i :: 0 <= i < |ns| ==> ns[i].status != Pending
    ensures r == |ns| <==> forall i :: 0 <= i < |ns| ==> ns[i].status == Pending
  {
    if ns == [] then 0
    else
      var init := ns[..|ns| - 1];
      assert forall i :: 0 <= i < |init| ==> init[i] == ns[i];
      PendingCount(init) + (if ns[|ns| - 1].status == Pending then 1 else 0)
  }

  /** PostPage's count: `n.status === 'pending' || n.notif_type === 'exclude'`. */
  predicate Counted(n: Item)
  {
    n.status == Pending || n.kind == Exclude
  }

  function CountedCount(ns: seq<Item>): (r: nat)
    ensures r <= |ns|
    ensures r == 0 <==> forall i :: 0 <= i < |ns| ==> !Counted(ns[i])
  {
    if ns == [] then 0
    else
      var init := ns[..|ns| - 1];
      assert forall i :: 0 <= i < |init| ==> init[i] == ns[i];
      CountedCount(init) + (if Counted(ns[|ns| - 1]) then 1 else 0)
  }

  /**
   * PostPage's badge never shows fewer than the other pages', and shows the
   * same number exactly when every exclude notification is still pending.
   */
  lemma {:induction false} CountedAtLeastPending(ns: seq<Item>)
    ensures PendingCount(ns) <= CountedCount(ns)
    ensures PendingCount(ns) == CountedCount(ns) <==>
      forall i :: 0 <= i < |ns| && ns[i].kind == Exclude ==> ns[i].status == Pending
  {
    if ns != [] {
      var init := ns[..|ns| - 1];
      CountedAtLeastPending(init);
      assert forall i :: 0 <= i < |init| ==> init[i] == ns[i];
    }
  }

  /**
   * `Number(localStorage.getItem('notifCount') || 0)`: an absent or empty
   * entry reads as 0, decimal digits read as their value; None stands for
   * NaN.
   */
  function ReadStored(v: Option<string>): (r: Option<nat>)
    ensures v.None? ==> r == Some(0)
    ensures r.Some? && v.Some? && v.value != [] ==> AllDigits(v.value)
  {
    if v.None? || v.value == [] then Some(0) else ParseNat(v.value)
  }

  /** `String(n)` written to storage reads back as `n`. */
  lemma StoredRoundTrip(n: nat)
    ensures ReadStored(Some(NatToString(n))) == Some(n)
  {
    NatToStringRoundTrip(n);
  }

  /** A readable entry: one the pages could have written. */
  predicate Readable(v: Option<string>)
  {
    ReadStored(v).Some?
  }

  class Bell {
    /** `notifCount` state of the page. */
    var shown: nat
    /** localStorage 'notifCount'. */
    var stored: Option<string>
    /** How many 'notifCountUpdate' events the page dispatched. */
    var events: nat

    predicate Valid()
      reads this
    {
      Readable(stored)
    }

    /** `useState(Number(localStorage.getItem('notifCount') || 0))`. */
    constructor FromStorage(v: Option<string>)
      requires Readable(v)
      ensures Valid() && stored == v && events == 0
      ensures Some(shown) == ReadStored(v)
    {
      shown := ReadStored(v).value;
      stored := v;
      events := 0;
    }

    /** `useState(0)` (GroupPage, PostPage). */
    constructor Zero(v: Option<string>)
      requires Readable(v)
      ensures Valid() && stored == v && events == 0 && shown == 0
    {
      shown := 0;
      stored := v;
      events := 0;
    }

    /**
     * The count effect: on a response, the number of pending notifications;
     * on a failure, 0. With `mirror` the same number is written to storage,
     * so that what is shown and what is stored agree.
     */
    method Fetched(resp: Option<seq<Item>>, mirror: bool)
      requires Valid()
      modifies this
      ensures Valid() && events == old(events)
      ensures shown == if resp.Some? then PendingCount(resp.value) else 0
      ensures stored == if mirror then Some(NatToString(shown)) else old(stored)
      ensures mirror ==> ReadStored(stored) == Some(shown)
    {
      shown := if resp.Some? then PendingCount(resp.value) else 0;
      if mirror {
        stored := Some(NatToString(shown));
        StoredRoundTrip(shown);
      }
    }

    /** PostPage's count effect: pending or exclude, never written to storage. */
    method FetchedCounted(resp: Option<seq<Item>>)
      requires Valid()
      modifies this
      ensures Valid() && stored == old(stored) && events == old(events)
      ensures shown == if resp.Some? then CountedCount(resp.value) else 0
    {
      shown := if resp.Some? then CountedCount(resp.value) else 0;
    }

    /** The 'storage' / 'notifCountUpdate' listener: re-read the stored count. */
    method Reload()
      requires Valid()
      modifies this
      ensures Valid() && stored == old(stored) && events == old(events)
      ensures Some(shown) == ReadStored(stored)
    {
      shown := ReadStored(stored).value;
    }

    /** A bell click that only clears what is shown (GroupPage, GroupsTeacherPage, HomePage). */
    method ClearShown()
      requires Valid()
      modifies this
      ensures Valid() && shown == 0 && stored == old(stored) && events == old(events)
    {
      shown := 0;
    }

    /**
     * A bell click that also stores '0' (ProfilePage), and with `dispatch`
     * announces it with 'notifCountUpdate' (PostPage).
     */
    method ClearAndStore(dispatch: bool)
      requires Valid()
      modifies this
      ensures Valid() && shown == 0 && stored == Some("0")
      ensures events == if dispatch then old(events) + 1 else old(events)
      ensures ReadStored(stored) == Some(0)
    {
      shown := 0;
      stored := Some("0");
      if dispatch {
        events := events + 1;
      }
    }

    /**
     * NotificationsBellPage's markAsViewed: only with a token, and only
     * after the request succeeded, '0' is stored and the event dispatched.
     */
    method MarkedViewed(token: bool, ok: bool)
      requires Valid()
      modifies this
      ensures Valid() && shown == old(shown)
      ensures token && ok ==> stored == Some("0") && events == old(events) + 1
      ensures !(token && ok) ==> stored == old(stored) && events == old(events)
    {
      if token && ok {
        stored := Some("0");
        events := events + 1;
      }
    }
  }
}
