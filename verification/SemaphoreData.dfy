/** The semaphore structure itself: its fields and slot arrays, changed in place by the critical
    sections of asemaphore_compact.c. */
module SemaphoreData {
  import opened CStrings
  import opened Semaphore

  class Data {
    var threadFlag: int
    const maxval: nat
    const mutexed: bool
    var waitingNum: int
    var obtainerNum: int
    const waitingList: array<int>
    const obtainerList: array<int>

    ghost predicate Valid()
      reads this
    {
      waitingList.Length == WAITING_SLOTS && obtainerList.Length == OBTAINER_SLOTS && waitingList != obtainerList
    }

    /** The value of the fields, as the protocol sees them. */
    ghost function Value(): (f: Fields)
      reads this, waitingList, obtainerList
    {
      Fields(threadFlag, waitingNum, waitingList[..], obtainerNum, obtainerList[..])
    }

    /** `__asema_create`. */
    constructor (val: nat, maxval: nat, mutexed: bool)
      requires val <= maxval && (mutexed ==> val == 1 && maxval == 1)
      ensures Valid() && fresh(waitingList) && fresh(obtainerList)
      ensures Value() == Initial(val) && this.maxval == maxval && this.mutexed == mutexed
    {
      this.maxval, this.mutexed := maxval, mutexed;
      threadFlag, waitingNum, obtainerNum := val, 0, 0;
      waitingList := new int[WAITING_SLOTS](_ => -1);
      obtainerList := new int[OBTAINER_SLOTS](_ => -1);
      new;
      assert waitingList[..] == Initial(val).waiting;
      assert obtainerList[..] == Initial(val).obtainers;
    }

    /** The scanning loops: the first slot holding `x`, or the length of the list. */
    static method Scan(list: array<int>, x: int) returns (i: nat)
      ensures i == FirstIndex(list[..], x)
    {
      i := 0;
      while i < list.Length && list[i] != x
        invariant i <= list.Length
        invariant FirstIndex(list[..], x) == i + FirstIndex(list[i..], x)
      {
        assert list[i..][1..] == list[i + 1..];
        i := i + 1;
      }
    }

    /** Entering `asema_acquire_timed`: `waiting_num` goes up and the caller takes a free slot of
        `waiting_list`, if there is one. */
    method Enter(pid: int)
      requires Valid()
      modifies this, waitingList
      ensures Valid() && Value() == Register(old(Value()), pid)
    {
      waitingNum := waitingNum + 1;
      var i := Scan(waitingList, -1);
      if i < waitingList.Length {
        waitingList[i] := pid;
      }
      assert waitingList[..] == Replace(old(waitingList[..]), -1, pid);
    }

    /** The end of the wait loop: `thread_flag` goes down and, in a mutex semaphore, the caller takes a free
        slot of `obtainer_list`; `ok` is the assertion that there is one. */
    method Obtain(pid: int) returns (ok: bool)
      requires Valid() && threadFlag != 0
      modifies this, obtainerList
      ensures Valid() && ok == Take(old(Value()), mutexed, pid).Some?
      ensures ok ==> Value() == Take(old(Value()), mutexed, pid).value
    {
      if threadFlag > 0 {
        threadFlag := threadFlag - 1;
      }
      ok := true;
      if mutexed {
        var i := Scan(obtainerList, -1);
        if i < obtainerList.Length {
          obtainerList[i] := pid;
          obtainerNum := obtainerNum + 1;
          assert obtainerList[..] == Replace(old(obtainerList[..]), -1, pid);
        } else {
          ok := false;
        }
      }
    }

    /** Leaving `asema_acquire_timed`: the caller gives up its slot of `waiting_list`, and `waiting_num` goes
        down. */
    method Exit(pid: int)
      requires Valid()
      modifies this, waitingList
      ensures Valid() && Value() == Unregister(old(Value()), pid)
    {
      var i := Scan(waitingList, pid);
      if i < waitingList.Length {
        waitingList[i] := -1;
      }
      assert waitingList[..] == Replace(old(waitingList[..]), pid, -1);
      if waitingNum > 0 {
        waitingNum := waitingNum - 1;
      }
    }

    /** The critical section of `asema_release`; `signal` says whether the condition variable is signalled. */
    method Release(pid: int) returns (signal: bool)
      requires Valid()
      modifies this, obtainerList
      ensures Valid() && Value() == Give(old(Value()), maxval, mutexed, pid)
      ensures signal == Signals(old(Value()), maxval)
    {
      signal := false;
      if threadFlag < maxval {
        if mutexed {
          var i := Scan(obtainerList, pid);
          if i < obtainerList.Length {
            obtainerList[i] := -1;
            if obtainerNum > 0 {
              obtainerNum := obtainerNum - 1;
            }
            assert obtainerList[..] == Replace(old(obtainerList[..]), pid, -1);
          }
        }
        signal := threadFlag == 0;
        threadFlag := threadFlag + 1;
      }
    }
  }
}
