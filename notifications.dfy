/** The client-side notification store: a list of notifications, newest
    first, and a counter of unread ones. Every operation replaces the whole
    state; the transitions are the pure functions `Added`, `MarkedAsRead`,
    `AllMarkedAsRead` and `Removed`, and `NotificationStore` is the store
    cell whose methods apply them. */
module Notifications {
  import opened Common

  datatype Notification = Notification(message: string, read: bool, timestamp: string)

  datatype State = State(items: seq<Notification>, unreadCount: int)

  /** What the browser's storage holds under the key `notifications`:
      nothing (no `window`, or a falsy item), text that does not parse, or a
      parsed state. */
  datatype Stored = NoWindow | Missing | Unparsable | Parsed(state: State)

  const Empty := State([], 0)

  /** `items.filter(item => !item.read).length` */
  function CountUnread(items: seq<Notification>): (n: nat)
    ensures n <= |items|
    ensures n == 0 <==> forall i :: 0 <= i < |items| ==> items[i].read
  {
    if items == [] then 0
    else (if items[0].read then 0 else 1) + CountUnread(items[1..])
  }

  /** The store's intended invariant: the counter equals the number of
      unread items. */
  predicate Consistent(s: State)
  {
    s.unreadCount == CountUnread(s.items)
  }

  /** The initial state: the stored one, or the empty state when there is
      none or it does not parse. */
  function LoadFromStorage(stored: Stored): (s: State)
    ensures stored.Parsed? ==> s == stored.state
    ensures !stored.Parsed? ==> s.items == [] && s.unreadCount == 0 && Consistent(s)
  {
    match stored
    case Parsed(state) => state
    case _ => Empty
  }

  /** addNotification: prepend an unread item and bump the counter. */
  function Added(s: State, message: string, timestamp: string): State
  {
    State([Notification(message, false, timestamp)] + s.items, s.unreadCount + 1)
  }

  /** The items after `items[index] = { ...items[index], read: true }`
      when `items[index]` exists. */
  function ReadAt(items: seq<Notification>, index: int): seq<Notification>
  {
    if 0 <= index < |items| then items[index := items[index].(read := true)] else items
  }

  /** markAsRead: the same state when the item is already read; otherwise
      the item (if it exists) marked read and the counter recounted. */
  function MarkedAsRead(s: State, index: int): State
  {
    if 0 <= index < |s.items| && s.items[index].read then s
    else
      var items := ReadAt(s.items, index);
      State(items, CountUnread(items))
  }

  /** markAllAsRead: every item read, counter 0. */
  function AllMarkedAsRead(s: State): State
  {
    State(seq(|s.items|, i requires 0 <= i < |s.items| => s.items[i].(read := true)), 0)
  }

  /** The items after `items.filter((_, i) => i !== index)`. */
  function WithoutIndex(items: seq<Notification>, index: int): seq<Notification>
  {
    if 0 <= index < |items| then items[..index] + items[index + 1..] else items
  }

  /** removeNotification: drop the item at `index` and recount. */
  function Removed(s: State, index: int): State
  {
    var items := WithoutIndex(s.items, index);
    State(items, CountUnread(items))
  }

  // ---------------------------------------------------------------------
  // Counting lemmas

  lemma {:induction false} CountUnreadAppend(a: seq<Notification>, b: seq<Notification>)
    ensures CountUnread(a + b) == CountUnread(a) + CountUnread(b)
  {
    if a == [] {
      assert a + b == b;
    } else {
      assert (a + b)[1..] == a[1..] + b;
      CountUnreadAppend(a[1..], b);
    }
  }

  /** Marking one item read lowers the unread count by one exactly when
      that item was unread. */
  lemma {:induction false} CountUnreadAfterRead(items: seq<Notification>, i: int)
    requires 0 <= i < |items|
    ensures CountUnread(items[i := items[i].(read := true)])
            == CountUnread(items) - (if items[i].read then 0 else 1)
  {
    var after := items[i := items[i].(read := true)];
    assert items == items[..i] + [items[i]] + items[i + 1..];
    assert after == items[..i] + [after[i]] + items[i + 1..];
    CountUnreadAppend(items[..i] + [items[i]], items[i + 1..]);
    CountUnreadAppend(items[..i], [items[i]]);
    CountUnreadAppend(items[..i] + [after[i]], items[i + 1..]);
    CountUnreadAppend(items[..i], [after[i]]);
  }

  /** Removing the item at `i` lowers the unread count by one exactly when
      that item was unread. */
  lemma {:induction false} CountUnreadAfterRemove(items: seq<Notification>, i: int)
    requires 0 <= i < |items|
    ensures CountUnread(items[..i] + items[i + 1..])
            == CountUnread(items) - (if items[i].read then 0 else 1)
  {
    var before, after := items[..i], items[i + 1..];
    assert items == before + [items[i]] + after;
    CountUnreadAppend(before + [items[i]], after);
    CountUnreadAppend(before, [items[i]]);
    CountUnreadAppend(before, after);
    assert CountUnread([items[i]]) == (if items[i].read then 0 else 1);
  }

  // ---------------------------------------------------------------------
  // Properties of the transitions

  /** A new unread item comes first, the old items follow in their order,
      and the counter grows by exactly one, so consistency is kept. */
  lemma AddedSpec(s: State, message: string, timestamp: string)
    ensures var r := Added(s, message, timestamp);
            && |r.items| == |s.items| + 1
            && r.items[0] == Notification(message, false, timestamp)
            && r.items[1..] == s.items
            && r.unreadCount == s.unreadCount + 1
            && (Consistent(s) ==> Consistent(r))
  {
    var r := Added(s, message, timestamp);
    assert r.items == [r.items[0]] + s.items;
    CountUnreadAppend([r.items[0]], s.items);
  }

  /** markAsRead of an item that is already read changes nothing, not even
      an inconsistent counter. */
  lemma MarkedAsReadAlreadyRead(s: State, index: int)
    requires 0 <= index < |s.items| && s.items[index].read
    ensures MarkedAsRead(s, index) == s
  {
  }

  /** markAsRead of an unread item in range marks only that item read, and
      the new counter is the recount, which is one less than the old recount. */
  lemma MarkedAsReadUnread(s: State, index: int)
    requires 0 <= index < |s.items| && !s.items[index].read
    ensures var r := MarkedAsRead(s, index);
            && |r.items| == |s.items|
            && r.items[index] == s.items[index].(read := true)
            && (forall j :: 0 <= j < |s.items| && j != index ==> r.items[j] == s.items[j])
            && Consistent(r)
            && r.unreadCount == CountUnread(s.items) - 1
  {
    CountUnreadAfterRead(s.items, index);
  }

  /** markAsRead with an index that names no item leaves the items alone
      and only recounts. */
  lemma MarkedAsReadOutOfRange(s: State, index: int)
    requires !(0 <= index < |s.items|)
    ensures MarkedAsRead(s, index).items == s.items
    ensures Consistent(MarkedAsRead(s, index))
  {
  }

  /** markAsRead keeps a consistent state consistent, and leaves it
      consistent in every case but the already-read one. */
  lemma MarkedAsReadConsistent(s: State, index: int)
    ensures Consistent(s) ==> Consistent(MarkedAsRead(s, index))
    ensures !(0 <= index < |s.items| && s.items[index].read) ==> Consistent(MarkedAsRead(s, index))
  {
  }

  /** markAllAsRead keeps length, messages and timestamps, marks everything
      read, and its counter 0 is the true count. */
  lemma AllMarkedAsReadSpec(s: State)
    ensures var r := AllMarkedAsRead(s);
            && |r.items| == |s.items|
            && (forall j :: 0 <= j < |r.items| ==>
                  r.items[j].read
                  && r.items[j].message == s.items[j].message
                  && r.items[j].timestamp == s.items[j].timestamp)
            && r.unreadCount == 0
            && Consistent(r)
  {
  }

  /** removeNotification of an index in range drops exactly that item,
      keeps the others in order, and recounts. */
  lemma RemovedInRange(s: State, index: int)
    requires 0 <= index < |s.items|
    ensures var r := Removed(s, index);
            && |r.items| == |s.items| - 1
            && (forall j :: 0 <= j < index ==> r.items[j] == s.items[j])
            && (forall j :: index <= j < |r.items| ==> r.items[j] == s.items[j + 1])
            && multiset(r.items) + multiset{s.items[index]} == multiset(s.items)
            && Consistent(r)
            && r.unreadCount == CountUnread(s.items) - (if s.items[index].read then 0 else 1)
  {
    CountUnreadAfterRemove(s.items, index);
    assert s.items == s.items[..index] + [s.items[index]] + s.items[index + 1..];
  }

  /** removeNotification of an index that names no item keeps every item
      and only recounts. */
  lemma RemovedOutOfRange(s: State, index: int)
    requires !(0 <= index < |s.items|)
    ensures Removed(s, index).items == s.items
    ensures Consistent(Removed(s, index))
  {
  }

  // ---------------------------------------------------------------------
  // The store cell

  /** `notificationStore`: the writable cell holding the current state.
      Each method is one `update` call. */
  class NotificationStore {
    var state: State

    constructor (stored: Stored)
      ensures state == LoadFromStorage(stored)
    {
      state := LoadFromStorage(stored);
    }

    method AddNotification(message: string, timestamp: string)
      modifies this
      ensures state == Added(old(state), message, timestamp)
      ensures state.items[0] == Notification(message, false, timestamp)
      ensures state.items[1..] == old(state).items
      ensures Consistent(old(state)) ==> Consistent(state)
    {
      AddedSpec(state, message, timestamp);
      state := Added(state, message, timestamp);
    }

    method MarkAsRead(index: int)
      modifies this
      ensures state == MarkedAsRead(old(state), index)
      ensures Consistent(old(state)) ==> Consistent(state)
    {
      MarkedAsReadConsistent(state, index);
      state := MarkedAsRead(state, index);
    }

    method MarkAllAsRead()
      modifies this
      ensures state == AllMarkedAsRead(old(state))
      ensures Consistent(state) && state.unreadCount == 0
    {
      AllMarkedAsReadSpec(state);
      state := AllMarkedAsRead(state);
    }

    method RemoveNotification(index: int)
      modifies this
      ensures state == Removed(old(state), index)
      ensures Consistent(state)
    {
      state := Removed(state, index);
    }
  }
}
