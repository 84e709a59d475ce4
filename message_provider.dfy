/**
 * `ContextMessageProvider`: the list of toast messages on screen. Each message gets its id
 * from one counter shared by every provider (`idCounter++`), is appended on add, and is
 * dropped by id on remove.
 */
module ContextMessageProvider {

  datatype ToastType = Error | Success | Info

  datatype MessageItem = MessageItem(id: nat, toastType: ToastType, message: string)

  /** The text `showErrorWithLog` appends to the message it shows. */
  const LogHint: string := " Consulte o log para mais detalhes!"

  /** Ids strictly increase along the list, so no two messages share one. */
  predicate IdsIncrease(ms: seq<MessageItem>) {
    forall i, j :: 0 <= i < j < |ms| ==> ms[i].id < ms[j].id
  }

  predicate IdsBelow(ms: seq<MessageItem>, bound: nat) {
    forall i :: 0 <= i < |ms| ==> ms[i].id < bound
  }

  /** `prev.filter(msg => msg.id !== id)`. */
  function WithoutId(ms: seq<MessageItem>, id: nat): (r: seq<MessageItem>)
    ensures |r| <= |ms|
    ensures forall i :: 0 <= i < |r| ==> r[i].id != id
  {
    if ms == [] then []
    else (if ms[0].id != id then [ms[0]] else []) + WithoutId(ms[1..], id)
  }

  /** The filter keeps exactly the messages with another id. */
  lemma {:induction false} WithoutIdMembers(ms: seq<MessageItem>, id: nat, m: MessageItem)
    ensures m in WithoutId(ms, id) <==> m in ms && m.id != id
    decreases |ms|
  {
    if ms != [] {
      WithoutIdMembers(ms[1..], id, m);
      assert ms == [ms[0]] + ms[1..];
    }
  }

  /** Filtering a concatenation filters each part. */
  lemma {:induction false} WithoutIdAppend(a: seq<MessageItem>, b: seq<MessageItem>, id: nat)
    ensures WithoutId(a + b, id) == WithoutId(a, id) + WithoutId(b, id)
    decreases |a|
  {
    if a == [] {
      assert a + b == b;
    } else {
      var head := if a[0].id != id then [a[0]] else [];
      assert (a + b)[0] == a[0] && (a + b)[1..] == a[1..] + b;
      WithoutIdAppend(a[1..], b, id);
      assert WithoutId(a + b, id) == head + (WithoutId(a[1..], id) + WithoutId(b, id));
    }
  }

  /** Removing an id no message carries leaves the list as it is. */
  lemma {:induction false} WithoutAbsentId(ms: seq<MessageItem>, id: nat)
    requires forall i :: 0 <= i < |ms| ==> ms[i].id != id
    ensures WithoutId(ms, id) == ms
    decreases |ms|
  {
    if ms != [] {
      WithoutAbsentId(ms[1..], id);
      assert [ms[0]] + ms[1..] == ms;
    }
  }

  /** A lower bound on every id survives removal. */
  lemma {:induction false} WithoutIdAbove(ms: seq<MessageItem>, id: nat, bound: int)
    requires forall i :: 0 <= i < |ms| ==> bound < ms[i].id
    ensures forall k :: 0 <= k < |WithoutId(ms, id)| ==> bound < WithoutId(ms, id)[k].id
    decreases |ms|
  {
    if ms != [] {
      WithoutIdAbove(ms[1..], id, bound);
    }
  }

  /** The tail of an increasing list is increasing and lies above its head. */
  lemma IncreasingTail(ms: seq<MessageItem>)
    requires IdsIncrease(ms) && ms != []
    ensures IdsIncrease(ms[1..])
    ensures forall i :: 0 <= i < |ms[1..]| ==> ms[0].id < ms[1..][i].id
  {
    var tail := ms[1..];
    forall i, j | 0 <= i < j < |tail| ensures tail[i].id < tail[j].id {
      assert tail[i] == ms[i + 1] && tail[j] == ms[j + 1];
    }
    forall i | 0 <= i < |tail| ensures ms[0].id < tail[i].id {
      assert tail[i] == ms[i + 1];
    }
  }

  /** A message below every id of an increasing list can go in front of it. */
  lemma IncreasingCons(m: MessageItem, rest: seq<MessageItem>)
    requires IdsIncrease(rest)
    requires forall i :: 0 <= i < |rest| ==> m.id < rest[i].id
    ensures IdsIncrease([m] + rest)
  {
    var r := [m] + rest;
    forall i, j | 0 <= i < j < |r| ensures r[i].id < r[j].id {
      assert r[j] == rest[j - 1];
      if i > 0 {
        assert r[i] == rest[i - 1];
      }
    }
  }

  /** An upper bound on every id survives removal. */
  lemma {:induction false} WithoutIdBelow(ms: seq<MessageItem>, id: nat, bound: nat)
    requires IdsBelow(ms, bound)
    ensures IdsBelow(WithoutId(ms, id), bound)
    decreases |ms|
  {
    if ms != [] {
      WithoutIdBelow(ms[1..], id, bound);
    }
  }

  /** Removal keeps the remaining messages in their order. */
  lemma {:induction false} WithoutIdKeepsOrder(ms: seq<MessageItem>, id: nat)
    requires IdsIncrease(ms)
    ensures IdsIncrease(WithoutId(ms, id))
    decreases |ms|
  {
    if ms != [] {
      var tail := ms[1..];
      IncreasingTail(ms);
      WithoutIdKeepsOrder(tail, id);
      WithoutIdAbove(tail, id, ms[0].id);
      var rest := WithoutId(tail, id);
      if ms[0].id != id {
        assert WithoutId(ms, id) == [ms[0]] + rest;
        IncreasingCons(ms[0], rest);
      } else {
        assert WithoutId(ms, id) == rest;
      }
    }
  }

  /** Adding a message with a fresh id and then removing that id restores the list. */
  lemma AddThenRemove(ms: seq<MessageItem>, item: MessageItem)
    requires IdsBelow(ms, item.id)
    ensures WithoutId(ms + [item], item.id) == ms
  {
    WithoutIdAppend(ms, [item], item.id);
    WithoutAbsentId(ms, item.id);
  }

  /** The module-level `idCounter`; `issued` records every id it has handed out. */
  class IdCounter {
    var next: nat
    ghost var issued: seq<nat>

    ghost predicate Valid()
      reads this
    {
      (forall i, j :: 0 <= i < j < |issued| ==> issued[i] < issued[j])
      && (forall i :: 0 <= i < |issued| ==> issued[i] < next)
    }

    constructor ()
      ensures Valid() && next == 0 && issued == []
    {
      next := 0;
      issued := [];
    }

    /** `idCounter++`: the current value is the id, and the counter moves past it. */
    method Take() returns (id: nat)
      requires Valid()
      modifies this
      ensures Valid()
      ensures id == old(next) && next == old(next) + 1
      ensures issued == old(issued) + [id]
      ensures forall i :: 0 <= i < |old(issued)| ==> old(issued)[i] != id
    {
      id := next;
      issued := issued + [id];
      next := next + 1;
    }
  }

  /** One provider: its `messages` state over the shared counter. */
  class MessageProvider {
    const counter: IdCounter
    var messages: seq<MessageItem>

    ghost predicate Valid()
      reads this, counter
    {
      counter.Valid() && IdsIncrease(messages) && IdsBelow(messages, counter.next)
    }

    constructor (counter: IdCounter)
      requires counter.Valid()
      ensures Valid() && this.counter == counter && messages == []
    {
      this.counter := counter;
      messages := [];
    }

    /** `addMessage`: append one message under the next id. */
    method AddMessage(toastType: ToastType, message: string) returns (id: nat)
      requires Valid()
      modifies this, counter
      ensures Valid()
      ensures id == old(counter.next) && counter.next == old(counter.next) + 1
      ensures counter.issued == old(counter.issued) + [id]
      ensures messages == old(messages) + [MessageItem(id, toastType, message)]
    {
      id := counter.Take();
      messages := messages + [MessageItem(id, toastType, message)];
    }

    /** `removeMessage`: drop the messages with this id, keeping the others in order. */
    method RemoveMessage(id: nat)
      requires Valid()
      modifies this
      ensures Valid()
      ensures messages == WithoutId(old(messages), id)
    {
      WithoutIdKeepsOrder(messages, id);
      WithoutIdBelow(messages, id, counter.next);
      messages := WithoutId(messages, id);
    }

    method ShowError(message: string) returns (id: nat)
      requires Valid()
      modifies this, counter
      ensures Valid() && id == old(counter.next) && counter.next == id + 1
      ensures messages == old(messages) + [MessageItem(id, Error, message)]
    {
      id := AddMessage(Error, message);
    }

    method ShowSuccess(message: string) returns (id: nat)
      requires Valid()
      modifies this, counter
      ensures Valid() && id == old(counter.next) && counter.next == id + 1
      ensures messages == old(messages) + [MessageItem(id, Success, message)]
    {
      id := AddMessage(Success, message);
    }

    method ShowInfo(message: string) returns (id: nat)
      requires Valid()
      modifies this, counter
      ensures Valid() && id == old(counter.next) && counter.next == id + 1
      ensures messages == old(messages) + [MessageItem(id, Info, message)]
    {
      id := AddMessage(Info, message);
    }

    /** `showErrorWithLog`: an error whose text is followed by the hint to read the log. */
    method ShowErrorWithLog(messageText: string) returns (id: nat)
      requires Valid()
      modifies this, counter
      ensures Valid() && id == old(counter.next) && counter.next == id + 1
      ensures messages == old(messages) + [MessageItem(id, Error, messageText + LogHint)]
    {
      id := AddMessage(Error, messageText + LogHint);
    }

    /** Showing a message and then removing it by its id gives back the earlier list. */
    method ShowThenRemove(toastType: ToastType, message: string)
      requires Valid()
      modifies this, counter
      ensures Valid()
      ensures messages == old(messages)
      ensures counter.next == old(counter.next) + 1
    {
      ghost var before := messages;
      var id := AddMessage(toastType, message);
      AddThenRemove(before, MessageItem(id, toastType, message));
      RemoveMessage(id);
    }
  }
}
