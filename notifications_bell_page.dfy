// frontend/src/components/NotificationsBellPage.jsx: the list of
// notifications. Invites are answered in place, reminders are listed apart
// (for students only) and can be removed, and a reminder is overdue when
// its deadline sorts before the current date. Marking everything viewed on
// opening the page is Badge.Bell.MarkedViewed.

module NotificationsBellPage {
  import opened Common
  import opened Models
  import Dates
  import Badge
  import BackendState

  type Item = Badge.Item

  // ---------------------------------------------------------------------
  // Answering an invite.

  /** `action === 'accept' ? 'accepted' : 'declined'`. */
  function NewStatus(action: string): (r: Status)
    ensures r == Accepted <==> action == "accept"
    ensures r == Declined <==> action != "accept"
  {
    if action == "accept" then Accepted else Declined
  }

  function Answered(n: Item, id: nat, action: string): Item
  {
    if n.id == id then n.(status := NewStatus(action)) else n
  }

  /** `prev.map(n => n.id === notifId ? {...n, status: …} : n)`. */
  function ApplyAction(ns: seq<Item>, id: nat, action: string): (r: seq<Item>)
    ensures |r| == |ns|
    ensures forall i :: 0 <= i < |ns| && ns[i].id != id ==> r[i] == ns[i]
    ensures forall i :: 0 <= i < |ns| && ns[i].id == id ==> r[i] == ns[i].(status := NewStatus(action))
  {
    if ns == [] then []
    else
      var init := ns[..|ns| - 1];
      assert forall i :: 0 <= i < |init| ==> init[i] == ns[i];
      ApplyAction(init, id, action) + [Answered(ns[|ns| - 1], id, action)]
  }

  /**
   * The status the page shows after a successful answer is the one
   * invitation_action stored: the server only succeeds for 'accept' and
   * 'decline'.
   */
  lemma ShownStatusIsStored(db: BackendState.Db, nid: nat, action: string)
    requires action == "accept" || action == "decline"
    requires nid in db.notifs && db.notifs[nid].group.Some?
    requires action == "accept" ==> db.notifs[nid].group.value in db.groups && db.notifs[nid].toUser in db.users
    ensures BackendState.Answer(db, nid, action == "accept").notifs[nid].status == NewStatus(action)
  {
  }

  /** The number of pending entries with the given id. */
  function PendingWith(ns: seq<Item>, id: nat): nat
  {
    if ns == [] then 0
    else PendingWith(ns[..|ns| - 1], id) + (if ns[|ns| - 1].id == id && ns[|ns| - 1].status == Pending then 1 else 0)
  }

  /** Answering takes every pending entry with that id off the badge count, and no other. */
  lemma {:induction false} ApplyActionPending(ns: seq<Item>, id: nat, action: string)
    ensures Badge.PendingCount(ApplyAction(ns, id, action)) + PendingWith(ns, id) == Badge.PendingCount(ns)
  {
    if ns != [] {
      var init := ns[..|ns| - 1];
      var r := ApplyAction(ns, id, action);
      assert r[..|r| - 1] == ApplyAction(init, id, action);
      ApplyActionPending(init, id, action);
    }
  }

  /** Accept and decline buttons: only on a pending invite. */
  predicate ShowsButtons(n: Item)
  {
    n.kind == Invite && n.status == Pending
  }

  /** Once answered, an invite no longer offers the buttons; the others keep theirs. */
  lemma AnsweredHasNoButtons(ns: seq<Item>, id: nat, action: string, i: nat)
    requires i < |ns|
    ensures ns[i].id == id ==> !ShowsButtons(ApplyAction(ns, id, action)[i])
    ensures ns[i].id != id ==> (ShowsButtons(ApplyAction(ns, id, action)[i]) <==> ShowsButtons(ns[i]))
  {
  }

  // ---------------------------------------------------------------------
  // The per-button loading key.

  /** `notifId + action`: the id's decimal text followed by the action. */
  function LoadingKey(id: nat, action: string): (r: string)
    ensures |r| == |NatToString(id)| + |action|
  {
    NatToString(id) + action
  }

  predicate IsAction(a: string)
  {
    a == "accept" || a == "decline"
  }

  /** The first position of `s` that is not a digit, or |s|. */
  function DigitPrefix(s: string): (n: nat)
    ensures n <= |s| && AllDigits(s[..n])
    ensures n < |s| ==> !IsDigit(s[n])
  {
    if s == [] || !IsDigit(s[0]) then 0
    else
      var n := DigitPrefix(s[1..]);
      assert s[..n + 1] == [s[0]] + s[1..][..n];
      n + 1
  }

  lemma {:induction false} DigitPrefixOf(d: string, a: string)
    requires AllDigits(d) && a != [] && !IsDigit(a[0])
    ensures DigitPrefix(d + a) == |d|
  {
    if d != [] {
      assert (d + a)[1..] == d[1..] + a;
      DigitPrefixOf(d[1..], a);
    }
  }

  /** Two buttons share a loading key only when they are the same button. */
  lemma LoadingKeyInjective(i: nat, a: string, j: nat, b: string)
    requires IsAction(a) && IsAction(b)
    requires LoadingKey(i, a) == LoadingKey(j, b)
    ensures i == j && a == b
  {
    var di, dj := NatToString(i), NatToString(j);
    DigitPrefixOf(di, a);
    DigitPrefixOf(dj, b);
    var k := LoadingKey(i, a);
    assert di == k[..|di|] && dj == k[..|dj|];
    NatToStringInjective(i, j);
    assert a == k[|di|..] && b == k[|dj|..];
  }

  /** `disabled={actionLoading === n.id + a}`. */
  predicate Disabled(actionLoading: Option<string>, nid: nat, a: string)
  {
    actionLoading == Some(LoadingKey(nid, a))
  }

  /** While one answer is in flight exactly its own button is disabled. */
  lemma OnlyClickedButtonDisabled(id: nat, action: string, nid: nat, a: string)
    requires IsAction(action) && IsAction(a)
    ensures Disabled(Some(LoadingKey(id, action)), nid, a) <==> nid == id && a == action
  {
    if Disabled(Some(LoadingKey(id, action)), nid, a) {
      LoadingKeyInjective(id, action, nid, a);
    }
  }

  // ---------------------------------------------------------------------
  // The two lists.

  /** `notifications.filter(n => n.notif_type !== 'reminder')`. */
  function MainList(ns: seq<Item>): (r: seq<Item>)
    ensures forall n :: n in r <==> n in ns && n.kind != Reminder
  {
    if ns == [] then []
    else
      var init := ns[..|ns| - 1];
      var last := ns[|ns| - 1];
      assert ns == init + [last];
      MainList(init) + (if last.kind != Reminder then [last] else [])
  }

  /** `notifications.filter(n => n.notif_type === 'reminder')`. */
  function Reminders(ns: seq<Item>): (r: seq<Item>)
    ensures forall n :: n in r <==> n in ns && n.kind == Reminder
  {
    if ns == [] then []
    else
      var init := ns[..|ns| - 1];
      var last := ns[|ns| - 1];
      assert ns == init + [last];
      Reminders(init) + (if last.kind == Reminder then [last] else [])
  }

  /** The two lists split the notifications: each one lands in exactly one list, as often as it occurs. */
  lemma {:induction false} ListsPartition(ns: seq<Item>)
    ensures multiset(MainList(ns)) + multiset(Reminders(ns)) == multiset(ns)
    ensures |MainList(ns)| + |Reminders(ns)| == |ns|
  {
    if ns != [] {
      var init := ns[..|ns| - 1];
      assert ns == init + [ns[|ns| - 1]];
      ListsPartition(init);
    }
  }

  /** The reminders section: only for a stored user whose role is 'student'. */
  function ShownReminders(role: Option<string>, ns: seq<Item>): (r: seq<Item>)
    ensures role != Some("student") ==> r == []
    ensures role == Some("student") ==> forall n :: n in r <==> n in ns && n.kind == Reminder
  {
    if role == Some("student") then Reminders(ns) else []
  }

  /** `deadline && current && deadline < current`. */
  predicate Overdue(deadline: Option<string>, current: Option<string>)
  {
    && deadline.Some? && deadline.value != []
    && current.Some? && current.value != []
    && LexLess(deadline.value, current.value)
  }

  /** For the ISO dates the server sends, overdue means the deadline is an earlier calendar day. */
  lemma OverdueIsCalendar(d: string, c: string)
    requires Dates.IsIsoDate(d) && Dates.IsIsoDate(c)
    ensures Overdue(Some(d), Some(c)) <==> Dates.CalendarBefore(d, c)
  {
    Dates.IsoLexIsCalendarOrder(d, c);
  }

  /** `prev.filter(x => x.id !== n.id)`. */
  function WithoutId(ns: seq<Item>, id: nat): (r: seq<Item>)
    ensures |r| <= |ns|
    ensures forall n :: n in r <==> n in ns && n.id != id
  {
    if ns == [] then []
    else
      var init := ns[..|ns| - 1];
      var last := ns[|ns| - 1];
      assert ns == init + [last];
      WithoutId(init, id) + (if last.id != id then [last] else [])
  }

  /** Filtering out an id that no notification carries leaves the list as it is. */
  lemma {:induction false} WithoutAbsentId(ns: seq<Item>, id: nat)
    requires forall i :: 0 <= i < |ns| ==> ns[i].id != id
    ensures WithoutId(ns, id) == ns
  {
    if ns != [] {
      var init := ns[..|ns| - 1];
      var last := ns[|ns| - 1];
      assert ns == init + [last];
      assert last.id != id;
      WithoutAbsentId(init, id);
      assert WithoutId(ns, id) == WithoutId(init, id) + [last];
    }
  }

  /** The inviter shown under an invite or an exclusion: `from_user_name || 'Админ'`. */
  function InviterName(fromUserName: Option<string>): (r: string)
    ensures r != []
    ensures fromUserName.Some? && fromUserName.value != [] ==> r == fromUserName.value
  {
    if fromUserName.Some? && fromUserName.value != [] then fromUserName.value else "Админ"
  }

  // ---------------------------------------------------------------------
  // The page's state.

  const LoadFailed := "Ошибка загрузки уведомлений"
  const ActionFailed := "Ошибка обработки приглашения"

  datatype BellPageState = BellPageState(
    notifications: seq<Item>, loading: bool, error: string, actionLoading: Option<string>)

  class BellPageView {
    var st: BellPageState

    constructor ()
      ensures st == BellPageState([], true, "", None)
    {
      st := BellPageState([], true, "", None);
    }

    method Loaded(data: Option<seq<Item>>)
      modifies this
      ensures !st.loading && st.actionLoading == old(st).actionLoading
      ensures data.Some? ==> st.notifications == data.value && st.error == old(st).error
      ensures data.None? ==> st.notifications == old(st).notifications && st.error == LoadFailed
    {
      if data.Some? {
        st := st.(notifications := data.value);
      } else {
        st := st.(error := LoadFailed);
      }
      st := st.(loading := false);
    }

    /** handleAction, up to the request: the clicked button's key is recorded. */
    method BeginAction(id: nat, action: string)
      modifies this
      ensures st == old(st).(actionLoading := Some(LoadingKey(id, action)))
    {
      st := st.(actionLoading := Some(LoadingKey(id, action)));
    }

    /**
     * handleAction, after the request: on success the entries with that id
     * take the new status, on failure only the error is set; the key is
     * cleared either way.
     */
    method FinishAction(id: nat, action: string, ok: bool)
      modifies this
      ensures st.actionLoading.None? && st.loading == old(st).loading
      ensures ok ==> st.notifications == ApplyAction(old(st).notifications, id, action) && st.error == old(st).error
      ensures !ok ==> st.notifications == old(st).notifications && st.error == ActionFailed
    {
      if ok {
        st := st.(notifications := ApplyAction(st.notifications, id, action));
      } else {
        st := st.(error := ActionFailed);
      }
      st := st.(actionLoading := None);
    }

    /** The remove button of a reminder: on success that id leaves the list; a failure only alerts. */
    method RemoveReminder(id: nat, ok: bool)
      modifies this
      ensures ok ==> st == old(st).(notifications := WithoutId(old(st).notifications, id))
      ensures !ok ==> st == old(st)
    {
      if ok {
        st := st.(notifications := WithoutId(st.notifications, id));
      }
    }
  }
}
