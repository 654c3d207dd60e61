/**
  The doubly linked list of icm-1.1/icc/MessageQueue.cpp, as one thread sees it under the lock.
  A call that would block says so and leaves the queue alone; `signals` says that a waiter on
  the other side is signalled.  The contracts use the steps of the monitor in QueueMonitor.dfy.
 */
module MessageQueues {
  import opened Wrappers
  import opened QueueMonitor

  class MessageBlock {
    var next: MessageBlock?
    var prev: MessageBlock?

    constructor ()
      ensures next == null && prev == null
    {
      next, prev := null, null;
    }
  }

  function Given(item: MessageBlock?): Option<MessageBlock> {
    if item == null then None else Some(item)
  }

  class MessageQueue {
    var head: MessageBlock?
    var tail: MessageBlock?
    var curCount: nat
    const lowWaterMark: nat
    const highWaterMark: nat

    /** The queue, first message first. */
    ghost var contents: seq<MessageBlock>

    ghost predicate Valid()
      reads this, contents
    {
      && curCount == |contents|
      && (|contents| == 0 ==> head == null && tail == null)
      && (|contents| > 0 ==> head == contents[0] && tail == contents[|contents| - 1] && tail.next == null)
      && (forall i, j :: 0 <= i < j < |contents| ==> contents[i] != contents[j])
      && (forall i :: 0 <= i < |contents| - 1 ==> contents[i].next == contents[i + 1])
      && (forall i :: 0 < i < |contents| ==> contents[i].prev == contents[i - 1])
    }

    constructor (high: nat, low: nat)
      ensures Valid() && contents == [] && highWaterMark == high && lowWaterMark == low
    {
      highWaterMark, lowWaterMark, curCount := high, low, 0;
      head, tail, contents := null, null, [];
    }

    method IsEmptyInternal() returns (empty: bool)
      requires Valid()
      ensures empty <==> contents == []
    {
      empty := tail == null;
    }

    method IsFullInternal() returns (full: bool)
      requires Valid()
      ensures full <==> |contents| >= highWaterMark
    {
      full := curCount >= highWaterMark;
    }

    /** Links a message at the end.  The list stays in order exactly when the message is not in it
        already and brings no successor. */
    method EnqueueTailInternal(item: MessageBlock?) returns (ret: int, signals: bool)
      requires Valid()
      modifies this, contents, if item == null then {} else {item}
      ensures Valid() <==> item == null || (item !in old(contents) && old(item.next) == null)
      ensures contents == (if item == null then old(contents) else old(contents) + [item])
      ensures ret == (if item == null then -1 else |contents|) && (signals <==> item != null)
    {
      if item == null {
        return -1, false;
      }
      curCount := curCount + 1;
      if tail == null {
        head := item;
        tail := item;
      } else {
        tail.next := item;
        item.prev := tail;
        tail := item;
      }
      contents := contents + [item];
      if item in old(contents) {
        ghost var i :| 0 <= i < |old(contents)| && old(contents)[i] == item;
        assert contents[i] == contents[|old(contents)|];
      }
      ret, signals := curCount, true;
    }

    /** Unlinks the first message. */
    method DequeueHeadInternal() returns (ret: int, first: MessageBlock?, signals: bool)
      requires Valid()
      modifies this, contents
      ensures Valid() && (ret == -1 <==> old(contents) == [])
      ensures ret == -1 ==> first == null && contents == [] && !signals
      ensures ret != -1 ==>
                && [first] + contents == old(contents) && ret == |contents|
                && first.next == null && first.prev == null
                && (signals <==> |contents| <= lowWaterMark)
    {
      first, signals := null, false;
      if head == null {
        return -1, null, false;
      }
      first := head;
      head := head.next;
      if head == null {
        tail := null;
      } else {
        assert head == contents[1];
        head.prev := null;
      }
      curCount := curCount - 1;
      contents := contents[1..];
      if curCount == 0 && head == tail {
        head, tail := null, null;
      }
      first.prev := null;
      first.next := null;
      signals := curCount <= lowWaterMark;
      ret := curCount;
    }

    /** A producer under the lock does what the monitor's producer does, on the linked list. */
    method EnqueueTail(item: MessageBlock?) returns (blocks: bool, ret: int, signals: bool)
      requires Valid() && |contents| <= highWaterMark
      modifies this, contents, if item == null then {} else {item}
      ensures Valid() <==> blocks || item == null || (item !in old(contents) && old(item.next) == null)
      ensures |contents| <= highWaterMark
      ensures ProducerPass(old(contents), Given(item), highWaterMark)
           == if blocks then Waits else Passes(contents, signals)
      ensures blocks ==> contents == old(contents) && !signals
      ensures !blocks ==> ret == if item == null then -1 else |contents|
    {
      ret, signals := 0, false;
      blocks := IsFullInternal();
      if !blocks {
        ret, signals := EnqueueTailInternal(item);
      }
    }

    /** A consumer under the lock does what the monitor's consumer does, on the linked list. */
    method DequeueHead() returns (blocks: bool, ret: int, first: MessageBlock?, signals: bool)
      requires Valid() && |contents| <= highWaterMark
      modifies this, contents
      ensures Valid() && |contents| <= highWaterMark
      ensures ConsumerPass(old(contents), lowWaterMark) == if blocks then Waits else Passes(contents, signals)
      ensures blocks ==> contents == old(contents) && !signals
      ensures !blocks ==> first == old(contents)[0] && ret == |contents| && first.next == null && first.prev == null
    {
      ret, first, signals := 0, null, false;
      blocks := IsEmptyInternal();
      if !blocks {
        ret, first, signals := DequeueHeadInternal();
        assert contents == ([first] + contents)[1..];
      }
    }
  }
}
