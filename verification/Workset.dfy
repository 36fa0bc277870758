/** quant::Workset with its subscribers as objects.  Every method body runs
    under the lock that RwLock shows to exclude writers. */
module Workset {
  import opened WorksetModel
  import opened Wrappers

  class Subscriber<T> {
    var currentIndex: nat
    // history, for the specification only
    ghost var start: nat
    ghost var taken: seq<nat>
    ghost var got: seq<T>

    constructor (ghost start: nat)
      ensures currentIndex == 0 && this.start == start && taken == [] && got == []
    {
      currentIndex := 0;
      this.start := start;
      taken, got := [], [];
    }

    ghost function Cursor(): Cursor<T>
      reads this
    {
      WorksetModel.Cursor(currentIndex, start, taken, got)
    }
  }

  ghost function CursorsOf<T>(subscribers: seq<Subscriber<T>>): (c: seq<Cursor<T>>)
    reads subscribers
    ensures |c| == |subscribers|
  {
    seq(|subscribers|, k requires 0 <= k < |subscribers| reads subscribers => subscribers[k].Cursor())
  }

  lemma RemovedCursors<T>(subscribers: seq<Subscriber<T>>, k: nat)
    requires k < |subscribers|
    ensures CursorsOf(subscribers[..k] + subscribers[k + 1..]) == CursorsOf(subscribers)[..k]
            + CursorsOf(subscribers)[k + 1..]
  {
  }

  class Workset<T> {
    const capacity: nat
    var workset: seq<T>
    var subscribers: seq<Subscriber<T>>
    ghost var stream: seq<T>

    ghost predicate Distinct()
      reads this
    {
      forall i, j :: 0 <= i < j < |subscribers| ==> subscribers[i] != subscribers[j]
    }

    ghost function Cursors(): (c: seq<Cursor<T>>)
      reads this, subscribers
    {
      CursorsOf(subscribers)
    }

    ghost function Contents(): State<T>
      reads this, subscribers
    {
      State(capacity, workset, stream, Cursors())
    }

    ghost predicate Valid()
      reads this, subscribers
    {
      Distinct() && Inv(Contents())
    }

    constructor (capacity: nat)
      ensures Valid() && Contents() == Initial(capacity)
    {
      this.capacity := capacity;
      workset, subscribers, stream := [], [], [];
    }

    /** boost::circular_buffer::push_back */
    method PushBack(entry: T)
      requires |workset| <= capacity
      modifies this`workset, this`stream
      ensures workset == WorksetModel.PushBack(capacity, old(workset), entry) && stream == old(stream) + [entry]
    {
      if capacity > 0 {
        if |workset| == capacity { workset := workset[1..]; }
        workset := workset + [entry];
      }
      stream := stream + [entry];
    }

    /** The loop of push: every cursor moves along with the entries. */
    method MoveCursors()
      requires Distinct()
      modifies subscribers
      ensures Cursors() == AllMovedBack(old(Cursors()))
    {
      for i := 0 to |subscribers|
        invariant forall k :: 0 <= k < |subscribers| ==>
                    subscribers[k].Cursor() == if k < i then MovedBack(old(subscribers[k].Cursor()))
                        else old(subscribers[k].Cursor())
      {
        var subscriber := subscribers[i];
        subscriber.currentIndex := if subscriber.currentIndex > 0 then subscriber.currentIndex - 1 else 0;
      }
    }

    /** A push into a full buffer moves all cursors back by one, but not below 0. */
    method MakeRoom()
      requires Distinct()
      modifies subscribers
      ensures Cursors() == if |workset| == capacity then AllMovedBack(old(Cursors())) else old(Cursors())
    {
      hide CursorsOf, AllMovedBack;
      if |workset| == capacity { MoveCursors(); }
    }

    /** Publisher::push */
    method Push(entry: T)
      requires Valid()
      modifies this`workset, this`stream, subscribers
      ensures Valid() && Contents() == WorksetModel.Push(old(Contents()), entry)
    {
      ghost var before := Contents();
      assert BufferOk(before);
      PushKeepsInv(before, entry);
      hide Inv, CursorsOf, AllMovedBack, WorksetModel.PushBack, BufferOk;
      MakeRoom();
      ghost var cursors := Cursors();
      PushBack(entry);
      assert Cursors() == cursors;
    }

    /** Subscriber::try_pop for the subscriber `subscribers[k]`. */
    method TryPop(k: nat, locked: bool) returns (entry: Option<T>)
      requires Valid() && k < |subscribers|
      modifies subscribers[k]
      ensures Valid() && (Contents(), entry) == WorksetModel.TryPop(old(Contents()), k, locked)
    {
      ghost var before := Contents();
      var subscriber := subscribers[k];
      assert CursorOk(before, before.cursors[k]);
      PopKeepsInv(before, k, locked);
      hide Inv, CursorOk;
      if !locked { return None; }
      entry := None;
      if |workset| != 0 && subscriber.currentIndex < |workset| {
        entry := Some(workset[subscriber.currentIndex]);
        subscriber.taken := subscriber.taken + [|stream| - |workset| + subscriber.currentIndex];
        subscriber.got := subscriber.got + [workset[subscriber.currentIndex]];
        subscriber.currentIndex := subscriber.currentIndex + 1;
      }
      assert Contents().cursors == WorksetModel.TryPop(before, k, locked).0.cursors;
    }

    /** Subscriber::num_available; the subtraction is unsigned in the source. */
    method NumAvailable(k: nat) returns (available: nat)
      requires Valid() && k < |subscribers|
      ensures available == |stream| - Position(Contents(), Contents().cursors[k])
    {
      assert CursorOk(Contents(), Contents().cursors[k]);
      available := |workset| - subscribers[k].currentIndex;
    }

    /** get_subscriber */
    method GetSubscriber() returns (subscriber: Subscriber<T>)
      requires Valid()
      modifies this`subscribers
      ensures Valid() && fresh(subscriber) && subscribers == old(subscribers) + [subscriber]
      ensures Contents() == Subscribe(old(Contents()))
      ensures Position(Contents(), subscriber.Cursor()) == |stream| - |workset| && subscriber.Cursor().got == []
    {
      SubscriberStartsAtOldest(Contents());
      assert BufferOk(Contents());
      hide Inv;
      ghost var before := Contents();
      subscriber := new Subscriber(|stream| - |workset|);
      subscribers := subscribers + [subscriber];
      assert Contents().cursors == Subscribe(before).cursors;
      ApplyKeepsInv(before, OpSubscribe);
    }

    /** remove_subscriber: std::list::remove */
    method RemoveSubscriber(k: nat)
      requires Valid() && k < |subscribers|
      modifies this`subscribers
      ensures Valid() && Contents() == Unsubscribe(old(Contents()), k)
    {
      hide Inv;
      ghost var before := Contents();
      subscribers := subscribers[..k] + subscribers[k + 1..];
      RemovedCursors(old(subscribers), k);
      ApplyKeepsInv(before, OpUnsubscribe(k));
    }
  }
}
