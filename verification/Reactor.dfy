/** The asynchronous input and output of the library: a growable table of outstanding operations, the descriptor sets
    of pending and of completed ones, and the loop that calls back, from which the application may register further
    operations and close descriptors. */
module Reactor {
  import opened Bytes

  /** An outstanding operation, or a free entry. */
  datatype Aio = Aio(inUse: bool, fd: nat, offset: nat, len: nat, clientData: int)

  /** A completion reported to the application. */
  datatype Event = Event(fd: nat, isWrite: bool, clientData: int)

  /** What an application may ask for. */
  datatype Action =
    | ReadAction(fd: nat, offset: nat, len: nat, clientData: int)
    | WriteAction(fd: nat, offset: nat, len: nat, clientData: int)
    | ReadStdinAction(len: nat, clientData: int)
    | CloseAction(fd: nat)

  /** `AIO_RD_IX` and `AIO_WR_IX`. */
  function Ix(fd: nat, isWrite: bool): nat {
    2 * fd + if isWrite then 1 else 0
  }

  const INITIAL_SIZE := 16

  /** By how much a counter exceeds the set it counts. */
  function Excess(count: int, s: set<nat>): int {
    count - |s|
  }

  lemma TakenOff(count: int, s: set<nat>, x: nat)
    requires x in s
    ensures Excess(count - 1, s - {x}) == Excess(count, s)
  {
  }

  /** Taking an element out of a set without adjusting the counter. */
  lemma ExcessWithout(count: int, s: set<nat>, x: int)
    ensures Excess(count, s - {x}) == Excess(count, s) + if x in s then 1 else 0
  {
    if x !in s {
      assert s - {x} == s;
    }
  }

  function Below(s: set<nat>, fd: nat): set<nat> {
    set x | x in s && x < fd
  }

  lemma BelowEnds(s: set<nat>, last: int)
    requires forall x | x in s :: x <= last
    ensures Below(s, 0) == {} && Below(s, Max(last + 1, 0)) == s
  {
  }

  lemma BelowStep(s: set<nat>, fd: nat, pending: set<nat>)
    ensures fd in s ==>
              && Below(s, fd + 1) == Below(s, fd) + {fd}
              && |Below(s, fd + 1)| == |Below(s, fd)| + 1
              && pending - Below(s, fd + 1) == pending - Below(s, fd) - {fd}
    ensures fd !in s ==> Below(s, fd + 1) == Below(s, fd)
  {
  }

  class Reactor {
    var table: array<Aio>              // asyncIoTable
    var readFdSet: set<nat>            // pending
    var writeFdSet: set<nat>
    var readFdSetPost: set<nat>        // completed and not yet reported
    var writeFdSetPost: set<nat>
    var numRdPosted: int
    var numWrPosted: int
    var maxFd: int
    var asyncIoInUse: bool
    ghost var fired: seq<Event>        // everything reported so far
    ghost var closedFds: set<nat>      // every descriptor closed so far

    ghost predicate InSets(fd: nat, isWrite: bool)
      reads `readFdSet, `writeFdSet, `readFdSetPost, `writeFdSetPost
    {
      if isWrite then fd in writeFdSet || fd in writeFdSetPost else fd in readFdSet || fd in readFdSetPost
    }

    /** An entry is in use exactly when its descriptor is pending or posted, and then it is within `maxFd`. */
    ghost predicate EntryInv(fd: nat, isWrite: bool)
      reads `table, table, `maxFd, `readFdSet, `writeFdSet, `readFdSetPost, `writeFdSetPost
    {
      && (Ix(fd, isWrite) < table.Length ==> (table[Ix(fd, isWrite)].inUse <==> InSets(fd, isWrite)))
      && (InSets(fd, isWrite) ==> fd <= maxFd)
    }

    /** The global invariant. */
    ghost predicate Inv()
      reads `table, table, `maxFd, `asyncIoInUse, `numRdPosted, `numWrPosted
      reads `readFdSet, `writeFdSet, `readFdSetPost, `writeFdSetPost
    {
      && table.Length % 2 == 0 && INITIAL_SIZE <= table.Length
      && -1 <= maxFd && 2 * maxFd + 1 < table.Length
      && (forall fd: nat, w: bool :: EntryInv(fd, w))
      && readFdSet !! readFdSetPost && writeFdSet !! writeFdSetPost
      && Excess(numRdPosted, readFdSetPost) >= 0 && Excess(numWrPosted, writeFdSetPost) >= 0
      && (!asyncIoInUse ==> maxFd == -1)
    }

    /** The counted completions that no longer exist. */
    ghost function Leak(): int
      reads `numRdPosted, `numWrPosted, `readFdSetPost, `writeFdSetPost
    {
      Excess(numRdPosted, readFdSetPost) + Excess(numWrPosted, writeFdSetPost)
    }

    /** `OS_LibInit`. */
    constructor ()
      ensures Inv() && fresh(table) && table.Length == 16 && fired == [] && closedFds == {} && Leak() == 0
      ensures readFdSet == {} && writeFdSet == {} && readFdSetPost == {} && writeFdSetPost == {}
    {
      table := new Aio[INITIAL_SIZE](i => Aio(false, 0, 0, 0, 0));
      readFdSet, writeFdSet, readFdSetPost, writeFdSetPost := {}, {}, {}, {};
      numRdPosted, numWrPosted, maxFd, asyncIoInUse := 0, 0, -1, false;
      fired, closedFds := [], {};
    }

    /** `GrowAsyncTable`: the old entries stay where they are and the new ones are free. */
    method GrowAsyncTable()
      requires 0 < table.Length
      modifies this`table
      ensures fresh(table) && table.Length == 2 * old(table.Length)
      ensures table[..old(table.Length)] == old(table[..])
      ensures forall i | old(table.Length) <= i < table.Length :: !table[i].inUse
    {
      var old' := table;
      var grown := new Aio[2 * table.Length](i => Aio(false, 0, 0, 0, 0));
      forall i | 0 <= i < old'.Length {
        grown[i] := old'[i];
      }
      table := grown;
    }

    /** Makes room in the table for an entry. */
    method EnsureRoom(index: nat)
      requires 0 < table.Length && table.Length % 2 == 0
      modifies this`table
      ensures table == old(table) || fresh(table)
      ensures table.Length % 2 == 0 && old(table.Length) <= table.Length && index < table.Length
      ensures table[..old(table.Length)] == old(table[..])
      ensures forall i | old(table.Length) <= i < table.Length :: !table[i].inUse
    {
      ghost var before := table[..];
      while index >= table.Length
        invariant table == old(table) || fresh(table)
        invariant table.Length % 2 == 0 && 0 < |before| == old(table.Length) <= table.Length
        invariant table[..|before|] == before
        invariant forall i | |before| <= i < table.Length :: !table[i].inUse
        decreases index - table.Length
      {
        ghost var middle := table[..];
        GrowAsyncTable();
        assert table[..|before|] == middle[..|before|];
        assert forall i | |before| <= i < |middle| :: table[i] == table[..|middle|][i] == middle[i];
      }
    }

    /** The first steps of starting an operation: `maxFd` follows the descriptor and the table grows with it. */
    method MakeRoom(fd: nat, isWrite: bool)
      requires Inv()
      modifies this`table, this`maxFd, this`asyncIoInUse
      ensures Inv() && (table == old(table) || fresh(table))
      ensures maxFd == Max(old(maxFd), fd) && asyncIoInUse
      ensures old(table.Length) <= table.Length && Ix(fd, isWrite) < table.Length
      ensures forall i | 0 <= i < old(table.Length) :: table[i] == old(table[i])
    {
      asyncIoInUse := true;
      if fd > maxFd {
        maxFd := fd;
      }
      EnsureRoom(Ix(fd, isWrite));
      assert forall i | 0 <= i < old(table.Length) :: table[i] == table[..old(table.Length)][i] == old(table[i]);
      forall g: nat, w: bool
        ensures EntryInv(g, w)
      {
        assert old(EntryInv(g, w));
      }
    }

    /** Different operations have different entries. */
    lemma Distinct(g: nat, w: bool, fd: nat, isWrite: bool)
      ensures Ix(g, w) == Ix(fd, isWrite) <==> g == fd && w == isWrite
      ensures Ix(g, w) / 2 == g
    {
    }

    /** The common part of the ways to start an operation. As their assertions demand, none of the same kind is
        outstanding on the descriptor. */
    method Register(fd: nat, isWrite: bool, offset: nat, len: nat, clientData: int)
      requires Inv() && !InSets(fd, isWrite)
      modifies this`table, this`readFdSet, this`writeFdSet, this`maxFd, this`asyncIoInUse, table
      ensures Inv() && (table == old(table) || fresh(table))
      ensures readFdSet == old(readFdSet) + if isWrite then {} else {fd}
      ensures writeFdSet == old(writeFdSet) + if isWrite then {fd} else {}
      ensures maxFd == Max(old(maxFd), fd) && asyncIoInUse
      ensures old(table.Length) <= table.Length && Ix(fd, isWrite) < table.Length
      ensures table[Ix(fd, isWrite)] == Aio(true, fd, offset, len, clientData)
      ensures forall i | 0 <= i < old(table.Length) && i != Ix(fd, isWrite) :: table[i] == old(table[i])
    {
      hide Ix;
      MakeRoom(fd, isWrite);
      label ready:
      table[Ix(fd, isWrite)] := Aio(true, fd, offset, len, clientData);
      if isWrite {
        writeFdSet := writeFdSet + {fd};
      } else {
        readFdSet := readFdSet + {fd};
      }
      forall g: nat, w: bool
        ensures EntryInv(g, w)
      {
        assert old@ready(EntryInv(g, w));
        Distinct(g, w, fd, isWrite);
      }
    }

    /** `OS_AsyncRead`. */
    method AsyncRead(fd: nat, offset: nat, len: nat, clientData: int)
      requires Inv() && !InSets(fd, false)
      modifies this`table, this`readFdSet, this`writeFdSet, this`maxFd, this`asyncIoInUse, table
      ensures Inv() && (table == old(table) || fresh(table))
      ensures readFdSet == old(readFdSet) + {fd} && writeFdSet == old(writeFdSet)
      ensures maxFd == Max(old(maxFd), fd)
      ensures old(table.Length) <= table.Length && table[Ix(fd, false)] == Aio(true, fd, offset, len, clientData)
      ensures forall i | 0 <= i < old(table.Length) && i != Ix(fd, false) :: table[i] == old(table[i])
    {
      Register(fd, false, offset, len, clientData);
    }

    /** `OS_AsyncWrite`. */
    method AsyncWrite(fd: nat, offset: nat, len: nat, clientData: int)
      requires Inv() && !InSets(fd, true)
      modifies this`table, this`readFdSet, this`writeFdSet, this`maxFd, this`asyncIoInUse, table
      ensures Inv() && (table == old(table) || fresh(table))
      ensures readFdSet == old(readFdSet) && writeFdSet == old(writeFdSet) + {fd}
      ensures maxFd == Max(old(maxFd), fd)
      ensures old(table.Length) <= table.Length && table[Ix(fd, true)] == Aio(true, fd, offset, len, clientData)
      ensures forall i | 0 <= i < old(table.Length) && i != Ix(fd, true) :: table[i] == old(table[i])
    {
      Register(fd, true, offset, len, clientData);
    }

    /** `OS_AsyncReadStdin`: descriptor 0 always has its entries, so the table never grows. */
    method AsyncReadStdin(len: nat, clientData: int)
      requires Inv() && !InSets(0, false)
      modifies this`readFdSet, this`maxFd, this`asyncIoInUse, table
      ensures Inv() && readFdSet == old(readFdSet) + {0} && maxFd == Max(old(maxFd), 0)
      ensures table[Ix(0, false)] == Aio(true, 0, 0, len, clientData)
      ensures forall i | 0 <= i < table.Length && i != Ix(0, false) :: table[i] == old(table[i])
    {
      asyncIoInUse := true;
      table[Ix(0, false)] := Aio(true, 0, 0, len, clientData);
      readFdSet := readFdSet + {0};
      if 0 > maxFd {
        maxFd := 0;
      }
      forall g: nat, w: bool
        ensures EntryInv(g, w)
      {
        assert old(EntryInv(g, w));
        assert g != 0 || w ==> Ix(g, w) != 0 && (InSets(g, w) <==> old(InSets(g, w)));
      }
    }

    /** `OS_Close`, one kind of operation: forgets the descriptor and frees its entry. */
    method Drop(fd: nat, isWrite: bool)
      requires Inv() && Ix(fd, isWrite) < table.Length
      modifies this`readFdSet, this`writeFdSet, this`readFdSetPost, this`writeFdSetPost, table
      ensures Inv() && !InSets(fd, isWrite)
      ensures readFdSet == old(readFdSet) - (if isWrite then {} else {fd})
      ensures readFdSetPost == old(readFdSetPost) - (if isWrite then {} else {fd})
      ensures writeFdSet == old(writeFdSet) - (if isWrite then {fd} else {})
      ensures writeFdSetPost == old(writeFdSetPost) - (if isWrite then {fd} else {})
      ensures forall i | 0 <= i < table.Length && i != Ix(fd, isWrite) :: table[i] == old(table[i])
    {
      hide Ix, Excess;
      ExcessWithout(numRdPosted, readFdSetPost, fd);
      ExcessWithout(numWrPosted, writeFdSetPost, fd);
      assert readFdSetPost - {} == readFdSetPost && writeFdSetPost - {} == writeFdSetPost;
      if isWrite {
        writeFdSet, writeFdSetPost := writeFdSet - {fd}, writeFdSetPost - {fd};
      } else {
        readFdSet, readFdSetPost := readFdSet - {fd}, readFdSetPost - {fd};
      }
      if table[Ix(fd, isWrite)].inUse {
        table[Ix(fd, isWrite)] := table[Ix(fd, isWrite)].(inUse := false);
      }
      forall g: nat, w: bool
        ensures EntryInv(g, w)
      {
        assert old(EntryInv(g, w));
        Distinct(g, w, fd, isWrite);
      }
    }

    /** `OS_Close`, its part on the table and the sets. A posted completion of the descriptor is dropped, but it stays
        counted. Once the table is in use, the descriptor must have entries in it. */
    method Close(fd: int)
      requires Inv() && -1 <= fd && (asyncIoInUse ==> Ix(Max(fd, 0), true) < table.Length)
      modifies this`readFdSet, this`writeFdSet, this`readFdSetPost, this`writeFdSetPost, this`maxFd, table
      modifies this`closedFds
      ensures Inv()
      ensures readFdSet == old(readFdSet) - {fd} && readFdSetPost == old(readFdSetPost) - {fd}
      ensures writeFdSet == old(writeFdSet) - {fd} && writeFdSetPost == old(writeFdSetPost) - {fd}
      ensures maxFd == if fd >= 0 && old(maxFd) == fd then fd - 1 else old(maxFd)
      ensures forall i | 0 <= i < table.Length && i / 2 != fd :: table[i] == old(table[i])
      ensures closedFds == old(closedFds) + if fd >= 0 then {fd} else {}
      ensures Leak() >= old(Leak())
      ensures Leak() == old(Leak()) <==> fd !in old(readFdSetPost) && fd !in old(writeFdSetPost)
    {
      hide Ix, Excess;
      ExcessWithout(numRdPosted, readFdSetPost, fd);
      ExcessWithout(numWrPosted, writeFdSetPost, fd);
      if fd == -1 {
        return;
      }
      Distinct(fd, false, fd, true);
      Distinct(fd, true, fd, false);
      closedFds := closedFds + {fd};
      if asyncIoInUse {
        assert Ix(fd, false) < table.Length by { InTable(fd, table.Length); }
        Drop(fd, false);
        Drop(fd, true);
        if maxFd == fd {
          label dropped:
          maxFd := maxFd - 1;
          forall g: nat, w: bool
            ensures EntryInv(g, w)
          {
            assert old@dropped(EntryInv(g, w));
          }
        }
      } else {
        assert EntryInv(fd, false) && EntryInv(fd, true);
      }
    }

    lemma InTable(fd: nat, length: nat)
      ensures Ix(fd, true) < length ==> Ix(fd, false) < length
    {
    }

    // -------------------------------------------------------------- dispatch

    ghost function Posted(isWrite: bool): set<nat>
      reads `readFdSetPost, `writeFdSetPost
    {
      if isWrite then writeFdSetPost else readFdSetPost
    }

    /** The application, called back: any number of further calls, each within what the library demands. */
    method Callback() returns (ghost closedNow: set<nat>)
      requires Inv()
      modifies this`table, this`readFdSet, this`writeFdSet, this`readFdSetPost, this`writeFdSetPost, this`maxFd
      modifies this`asyncIoInUse, this`closedFds, table
      ensures Inv() && (old(asyncIoInUse) ==> asyncIoInUse)
      ensures (table == old(table) || fresh(table)) && old(table.Length) <= table.Length
      ensures closedFds == old(closedFds) + closedNow
      ensures forall w :: Posted(w) == old(Posted(w)) - closedNow
      ensures forall fd: nat, w: bool | fd in Posted(w) && Ix(fd, w) < old(table.Length) ::
                table[Ix(fd, w)] == old(table[Ix(fd, w)])
    {
      hide Ix, Excess;
      closedNow := {};
      var actions: seq<Action> := *;
      assert forall w :: Posted(w) - {} == Posted(w);
      for i := 0 to |actions|
        invariant Inv() && (old(asyncIoInUse) ==> asyncIoInUse) && (table == old(table) || fresh(table))
        invariant old(table.Length) <= table.Length
        invariant closedFds == old(closedFds) + closedNow
        invariant forall w :: Posted(w) == old(Posted(w)) - closedNow
        invariant forall fd: nat, w: bool | fd in Posted(w) && Ix(fd, w) < old(table.Length) ::
                    table[Ix(fd, w)] == old(table[Ix(fd, w)])
      {
        ghost var now := Perform(actions[i]);
        closedNow := closedNow + now;
      }
    }

    /** One call by the application. */
    method Perform(action: Action) returns (ghost closedNow: set<nat>)
      requires Inv()
      modifies this`table, this`readFdSet, this`writeFdSet, this`readFdSetPost, this`writeFdSetPost, this`maxFd
      modifies this`asyncIoInUse, this`closedFds, table
      ensures Inv() && (old(asyncIoInUse) ==> asyncIoInUse)
      ensures (table == old(table) || fresh(table)) && old(table.Length) <= table.Length
      ensures closedFds == old(closedFds) + closedNow
      ensures forall w :: Posted(w) == old(Posted(w)) - closedNow
      ensures forall fd: nat, w: bool | fd in Posted(w) && Ix(fd, w) < old(table.Length) ::
                table[Ix(fd, w)] == old(table[Ix(fd, w)])
    {
      hide Ix, Excess;
      closedNow := {};
      match action {
        case ReadAction(fd, offset, len, clientData) =>
          if fd !in readFdSet && fd !in readFdSetPost {
            AsyncRead(fd, offset, len, clientData);
            KeptOthers(fd, false);
          }
        case WriteAction(fd, offset, len, clientData) =>
          if fd !in writeFdSet && fd !in writeFdSetPost {
            AsyncWrite(fd, offset, len, clientData);
            KeptOthers(fd, true);
          }
        case ReadStdinAction(len, clientData) =>
          if 0 !in readFdSet && 0 !in readFdSetPost {
            AsyncReadStdin(len, clientData);
            KeptOthers(0, false);
          }
        case CloseAction(fd) =>
          if !asyncIoInUse || Ix(fd, true) < table.Length {
            closedNow := {fd};
            Close(fd);
            KeptOthers(fd, true);
          }
      }
    }

    lemma KeptOthers(fd: nat, isWrite: bool)
      ensures forall g: nat, w: bool :: (g != fd || w != isWrite ==> Ix(g, w) != Ix(fd, isWrite))
                                     && (g != fd ==> Ix(g, w) / 2 != fd)
    {
    }

    /** Takes a posted completion off the books: one fewer posted, its bit cleared, its entry free. */
    method TakeOff(fd: nat, isWrite: bool)
      requires Inv() && fd in Posted(isWrite)
      modifies this`readFdSetPost, this`writeFdSetPost, this`numRdPosted, this`numWrPosted, table
      ensures Inv() && numRdPosted + numWrPosted == old(numRdPosted + numWrPosted) - 1
      ensures Posted(isWrite) == old(Posted(isWrite)) - {fd} && Posted(!isWrite) == old(Posted(!isWrite))
      ensures forall i | 0 <= i < table.Length && i != Ix(fd, isWrite) :: table[i] == old(table[i])
    {
      hide Ix, Excess;
      assert EntryInv(fd, isWrite);
      WithinLast(fd, isWrite, maxFd);
      if isWrite {
        TakenOff(numWrPosted, writeFdSetPost, fd);
        numWrPosted := numWrPosted - 1;
        writeFdSetPost := writeFdSetPost - {fd};
      } else {
        TakenOff(numRdPosted, readFdSetPost, fd);
        numRdPosted := numRdPosted - 1;
        readFdSetPost := readFdSetPost - {fd};
      }
      table[Ix(fd, isWrite)] := table[Ix(fd, isWrite)].(inUse := false);
      forall g: nat, w: bool
        ensures EntryInv(g, w)
      {
        assert old(EntryInv(g, w));
        Distinct(g, w, fd, isWrite);
      }
    }

    lemma WithinLast(fd: nat, isWrite: bool, last: int)
      ensures fd <= last ==> Ix(fd, isWrite) <= 2 * last + 1
    {
    }

    /** One step of the dispatch loop: a posted completion is reported with the data it was registered with. */
    method Report(fd: nat, isWrite: bool) returns (ghost closedNow: set<nat>)
      requires Inv() && asyncIoInUse
      modifies this, table
      ensures Inv() && asyncIoInUse && (table == old(table) || fresh(table)) && old(table.Length) <= table.Length
      ensures fd !in old(Posted(isWrite)) ==>
                closedNow == {} && fired == old(fired) && maxFd == old(maxFd)
                && closedFds == old(closedFds)
                && numRdPosted + numWrPosted == old(numRdPosted + numWrPosted)
                && table == old(table) && table[..] == old(table[..])
                && readFdSet == old(readFdSet) && writeFdSet == old(writeFdSet)
                && readFdSetPost == old(readFdSetPost) && writeFdSetPost == old(writeFdSetPost)
      ensures fd in old(Posted(isWrite)) ==> Ix(fd, isWrite) < old(table.Length)
      ensures fd in old(Posted(isWrite)) ==>
                && fired == old(fired) + [Event(fd, isWrite, old(table[Ix(fd, isWrite)].clientData))]
                && closedFds == old(closedFds) + closedNow
                && numRdPosted + numWrPosted == old(numRdPosted + numWrPosted) - 1
                && Posted(isWrite) == old(Posted(isWrite)) - {fd} - closedNow
                && Posted(!isWrite) == old(Posted(!isWrite)) - closedNow
      ensures forall g: nat, w: bool | g in Posted(w) && Ix(g, w) < old(table.Length) ::
                table[Ix(g, w)] == old(table[Ix(g, w)])
    {
      hide Ix, Excess;
      closedNow := {};
      WithinLast(fd, isWrite, maxFd);
      assert EntryInv(fd, isWrite);
      KeptOthers(fd, isWrite);
      if fd in (if isWrite then writeFdSetPost else readFdSetPost) && table[Ix(fd, isWrite)].inUse {
        var clientData := table[Ix(fd, isWrite)].clientData;
        TakeOff(fd, isWrite);
        fired := fired + [Event(fd, isWrite, clientData)];
        closedNow := Callback();
      }
    }

    /** All posted completions. */
    ghost function PostedAll(): set<(nat, bool)>
      reads `readFdSetPost, `writeFdSetPost
    {
      Tagged(readFdSetPost, false) + Tagged(writeFdSetPost, true)
    }

    /** All pending operations. */
    ghost function PendingAll(): set<(nat, bool)>
      reads `readFdSet, `writeFdSet
    {
      Tagged(readFdSet, false) + Tagged(writeFdSet, true)
    }

    /** Moves the ready descriptors from the pending to the posted sets, counting them. */
    method MoveReady(readyRead: set<nat>, readyWrite: set<nat>)
      requires readFdSetPost == {} && writeFdSetPost == {} && numRdPosted == 0 && numWrPosted == 0
      requires forall x | x in readyRead || x in readyWrite :: x <= maxFd
      modifies this`readFdSet, this`writeFdSet, this`readFdSetPost, this`writeFdSetPost
      modifies this`numRdPosted, this`numWrPosted
      ensures readFdSetPost == readyRead && readFdSet == old(readFdSet) - readyRead && numRdPosted == |readFdSetPost|
      ensures writeFdSetPost == readyWrite && writeFdSet == old(writeFdSet) - readyWrite
      ensures numWrPosted == |writeFdSetPost|
    {
      hide Below;
      var fd := 0;
      BelowEnds(readyRead, maxFd);
      BelowEnds(readyWrite, maxFd);
      while fd <= maxFd
        invariant 0 <= fd <= Max(maxFd + 1, 0)
        invariant readFdSetPost == Below(readyRead, fd) && readFdSet == old(readFdSet) - Below(readyRead, fd)
        invariant writeFdSetPost == Below(readyWrite, fd) && writeFdSet == old(writeFdSet) - Below(readyWrite, fd)
        invariant numRdPosted == |Below(readyRead, fd)| && numWrPosted == |Below(readyWrite, fd)|
      {
        BelowStep(readyRead, fd, old(readFdSet));
        BelowStep(readyWrite, fd, old(writeFdSet));
        if fd in readyRead {
          numRdPosted := numRdPosted + 1;
          readFdSetPost := readFdSetPost + {fd};
          readFdSet := readFdSet - {fd};
        }
        if fd in readyWrite {
          numWrPosted := numWrPosted + 1;
          writeFdSetPost := writeFdSetPost + {fd};
          writeFdSet := writeFdSet - {fd};
        }
        fd := fd + 1;
      }
    }

    /** The first part of `OS_DoIo`: those pending operations that `select` finds ready become posted. */
    method Poll(readable: set<nat>, writable: set<nat>)
      requires Inv() && readFdSetPost == {} && writeFdSetPost == {} && numRdPosted == 0 && numWrPosted == 0
      modifies this`readFdSet, this`writeFdSet, this`readFdSetPost, this`writeFdSetPost
      modifies this`numRdPosted, this`numWrPosted
      ensures Inv() && Leak() == 0
      ensures readFdSetPost == old(readFdSet) * readable && readFdSet == old(readFdSet) - readable
      ensures writeFdSetPost == old(writeFdSet) * writable && writeFdSet == old(writeFdSet) - writable
    {
      hide Ix;
      var readyRead, readyWrite := readFdSet * readable, writeFdSet * writable;
      assert forall x | x in readyRead :: InSets(x, false) && EntryInv(x, false);
      assert forall x | x in readyWrite :: InSets(x, true) && EntryInv(x, true);
      MoveReady(readyRead, readyWrite);
      forall g: nat, w: bool
        ensures EntryInv(g, w)
      {
        assert old(EntryInv(g, w));
      }
    }

    lemma LeakZero()
      requires Inv() && readFdSetPost == {} && writeFdSetPost == {}
      ensures Leak() == 0 <==> numRdPosted == 0 && numWrPosted == 0
    {
    }

    /** One step of the dispatch loop, with its account. */
    method Dispatch(fd: nat, isWrite: bool, ghost table0: seq<Aio>, ghost all: set<(nat, bool)>,
                    ghost before: seq<Event>, ghost closedBefore: seq<set<nat>>)
      returns (ghost events: seq<Event>, ghost closedBy: seq<set<nat>>)
      requires Inv() && asyncIoInUse && Accounted(all, PostedAll(), before, closedBefore, Ix(fd, isWrite))
      requires Registered(table0, before) && AsRegistered(table0) && |table0| <= table.Length
      modifies this, table
      ensures Inv() && asyncIoInUse && (table == old(table) || fresh(table)) && |table0| <= table.Length
      ensures Accounted(all, PostedAll(), events, closedBy, Ix(fd, isWrite) + 1)
      ensures closedBefore <= closedBy && closedFds == old(closedFds) + Gathered(closedBy[|closedBefore|..])
      ensures Registered(table0, events) && AsRegistered(table0)
      ensures before <= events && fired == old(fired) + events[|before|..]
      ensures numRdPosted + numWrPosted == old(numRdPosted + numWrPosted) - (|events| - |before|)
      ensures (fd, isWrite) !in old(PostedAll()) ==> events == before
      ensures PostedAll() <= old(PostedAll())
      ensures PostedAll() == old(PostedAll()) ==> Unchanged(old(maxFd), old(PendingAll()))
      ensures before == events ==>
                && closedBy == closedBefore && Unchanged(old(maxFd), old(PendingAll()))
                && table == old(table) && table[..] == old(table[..])
    {
      hide Ix, Accounted, Excess, Inv;
      ghost var still, clientData := PostedAll(), EntryData(fd, isWrite);
      ghost var was := fd in Posted(isWrite);
      ghost var now := Report(fd, isWrite);
      if was {
        events, closedBy := before + [Event(fd, isWrite, clientData)], closedBefore + [now];
        assert closedBy[|closedBefore|..] == [now];
        GatheredOne(now);
        assert PostedAll() == set p | p in still && p != (fd, isWrite) && p.0 !in now;
        Account(all, still, before, closedBefore, fd, isWrite, clientData, now, PostedAll());
      } else {
        events, closedBy := before, closedBefore;
        AccountNothing(all, still, before, closedBefore, fd, isWrite);
      }
    }

    ghost function EntryData(fd: nat, isWrite: bool): int
      reads `table, table
    {
      if Ix(fd, isWrite) < table.Length then table[Ix(fd, isWrite)].clientData else 0
    }

    /** The dispatch loop of `OS_DoIo`. */
    method DispatchAll() returns (ghost events: seq<Event>, ghost closedBy: seq<set<nat>>)
      requires Inv() && asyncIoInUse
      modifies this, table
      ensures Inv() && asyncIoInUse && PostedAll() == {} && (table == old(table) || fresh(table))
      ensures fired == old(fired) + events
      ensures Ordered(events) && Keys(events) <= old(PostedAll())
      ensures |closedBy| == |events| && closedFds == old(closedFds) + Gathered(closedBy)
      ensures forall p | p in old(PostedAll()) :: p in Keys(events) <==> OpenFor(events, closedBy, p)
      ensures Registered(old(table[..]), events)
      ensures numRdPosted + numWrPosted == old(numRdPosted + numWrPosted) - |events|
      ensures old(PostedAll()) == {} ==> events == [] && Unchanged(old(maxFd), old(PendingAll()))
    {
      hide Ix, Accounted, Excess, Tagged, Inv, Gathered, OpenFor, Keys, Ordered, Registered, AsRegistered;
      NoEvents(table[..]);
      ghost var table0, all := table[..], PostedAll();
      AllWithin();
      events, closedBy := [], [];
      GatheredNone();
      var fd := 0;
      AccountStart(all);
      while fd <= maxFd
        invariant fd >= 0 && Inv() && asyncIoInUse && (table == old(table) || fresh(table)) && |table0| <= table.Length
        invariant Accounted(all, PostedAll(), events, closedBy, Ix(fd, false))
        invariant closedFds == old(closedFds) + Gathered(closedBy)
        invariant Registered(table0, events) && AsRegistered(table0)
        invariant fired == old(fired) + events
        invariant numRdPosted + numWrPosted == old(numRdPosted + numWrPosted) - |events|
        invariant all == {} ==> PostedAll() == {} && events == [] && Unchanged(old(maxFd), old(PendingAll()))
        decreases PostedAll(), maxFd - fd
      {
        IxFollows(fd);
        ghost var middle;
        events, middle := Dispatch(fd, false, table0, all, events, closedBy);
        GatheredMore(closedBy, middle);
        events, closedBy := Dispatch(fd, true, table0, all, events, middle);
        GatheredMore(middle, closedBy);
        fd := fd + 1;
      }
      NoneLeft(all, events, closedBy, fd);
    }

    /** `OS_DoIo`; `select` would find the given descriptors ready. Of the operations that were pending, `all`
        completed; `events` is what was reported, and `closedBy[i]` what the application closed when it was called
        back for `events[i]`. A completion is reported exactly when its descriptor was not closed by then, and once,
        with the data it was registered with. So an operation started meanwhile, on a descriptor closed or reported
        before, is never reported in the same pass; and nothing stays posted. */
    method DoIo(readable: set<nat>, writable: set<nat>)
      returns (ghost all: set<(nat, bool)>, ghost events: seq<Event>, ghost closedBy: seq<set<nat>>)
      requires Inv() && PostedAll() == {}
      modifies this, table
      ensures Inv() && PostedAll() == {} && (table == old(table) || fresh(table))
      ensures fired == old(fired) + events
      ensures old(Leak()) == 0 ==>
                all == Tagged(old(readFdSet) * readable, false) + Tagged(old(writeFdSet) * writable, true)
      ensures Ordered(events) && Keys(events) <= all
      ensures |closedBy| == |events| && closedFds == old(closedFds) + Gathered(closedBy)
      ensures forall p | p in all :: p in Keys(events) <==> OpenFor(events, closedBy, p)
      ensures Registered(old(table[..]), events)
      ensures Leak() == old(Leak()) + |all| - |events|
      // Counters leak exactly when a completion is closed before it is reported.
      ensures Leak() == old(Leak()) <==> forall p | p in all :: OpenFor(events, closedBy, p)
      // A pass over leaked counters does nothing at all.
      ensures old(Leak()) != 0 ==> all == {} && events == [] && Unchanged(old(maxFd), old(PendingAll()))
    {
      hide Ix, Inv, Excess, Tagged, Gathered, OpenFor, Keys, Ordered, Registered;
      all := Collect(readable, writable);
      if numRdPosted == 0 && numWrPosted == 0 {
        events, closedBy := [], [];
        NoEvents(old(table[..]));
        return;
      }
      events, closedBy := DispatchAll();
      SizeOfPosted();
      OrderedOnce(events);
      SmallerSubset(Keys(events), all);
    }

    /** The first half of `OS_DoIo`: unless completions seem to be left over, asks `select` for new ones. */
    method Collect(readable: set<nat>, writable: set<nat>) returns (ghost all: set<(nat, bool)>)
      requires Inv() && PostedAll() == {}
      modifies this`readFdSet, this`writeFdSet, this`readFdSetPost, this`writeFdSetPost
      modifies this`numRdPosted, this`numWrPosted, this`asyncIoInUse
      ensures Inv() && asyncIoInUse && all == PostedAll() && Leak() == old(Leak())
      ensures numRdPosted + numWrPosted == |all| + Leak()
      ensures numRdPosted == 0 && numWrPosted == 0 ==> all == {} && Leak() == 0
      ensures old(Leak()) == 0 ==>
                all == Tagged(old(readFdSet) * readable, false) + Tagged(old(writeFdSet) * writable, true)
      ensures old(Leak()) != 0 ==> all == {} && Unchanged(old(maxFd), old(PendingAll()))
    {
      hide Ix, Excess, Tagged;
      NonePosted();
      LeakZero();
      SizeOfPosted();
      asyncIoInUse := true;
      if numRdPosted == 0 && numWrPosted == 0 {
        Poll(readable, writable);
      }
      all := PostedAll();
      SizeOfPosted();
      if numRdPosted == 0 && numWrPosted == 0 {
        NothingPosted(all);
      }
    }

    lemma NoEvents(table0: seq<Aio>)
      ensures Ordered([]) && Keys([]) == {} && Registered(table0, []) && Gathered([]) == {}
    {
    }

    /** Any run: rounds of arbitrary calls followed by `OS_DoIo`. Once counters have leaked, nothing is reported ever
        again, whatever becomes ready. */
    method Serve(rounds: nat)
      requires Inv() && PostedAll() == {}
      modifies this, table
      ensures Inv() && PostedAll() == {}
      ensures old(Leak()) != 0 ==> fired == old(fired) && Leak() == old(Leak())
      ensures Leak() >= old(Leak())
    {
      hide Ix, Excess, Tagged;
      for i := 0 to rounds
        invariant Inv() && PostedAll() == {} && (table == old(table) || fresh(table))
        invariant old(Leak()) != 0 ==> fired == old(fired) && Leak() == old(Leak())
        invariant Leak() >= old(Leak()) >= 0
      {
        NonePosted();
        SizeOfPosted();
        ghost var closedNow := Callback();
        assert Posted(false) == {} && Posted(true) == {};
        NonePosted();
        SizeOfPosted();
        var readable: set<nat>, writable: set<nat> := *, *;
        ghost var all, events, closedBy := DoIo(readable, writable);
        OrderedOnce(events);
        SmallerSubset(Keys(events), all);
      }
    }

    lemma NonePosted()
      ensures PostedAll() == {} <==> readFdSetPost == {} && writeFdSetPost == {}
    {
      assert forall fd | fd in readFdSetPost :: (fd, false) in PostedAll();
      assert forall fd | fd in writeFdSetPost :: (fd, true) in PostedAll();
    }

    lemma SizeOfPosted()
      ensures Leak() == numRdPosted + numWrPosted - |PostedAll()|
    {
      TaggedSize(readFdSetPost, false);
      TaggedSize(writeFdSetPost, true);
      assert Tagged(readFdSetPost, false) !! Tagged(writeFdSetPost, true);
    }

    lemma NothingPosted(all: set<(nat, bool)>)
      requires Inv() && numRdPosted == 0 && numWrPosted == 0 && all == PostedAll()
      ensures all == {} && Leak() == 0
    {
    }

    lemma AllWithin()
      requires Inv()
      ensures AsRegistered(table[..])
    {
      forall p | p in PostedAll()
        ensures Ix(p.0, p.1) < table.Length
      {
        assert EntryInv(p.0, p.1);
      }
    }

    /** At the end of the dispatch loop nothing is posted. */
    lemma NoneLeft(all: set<(nat, bool)>, events: seq<Event>, closedBy: seq<set<nat>>, fd: nat)
      requires Inv() && fd > maxFd && Accounted(all, PostedAll(), events, closedBy, Ix(fd, false))
      ensures PostedAll() == {}
      ensures Ordered(events) && Keys(events) <= all && |closedBy| == |events|
      ensures forall p | p in all :: p in Keys(events) <==> OpenFor(events, closedBy, p)
    {
      PostedWithin();
    }

    lemma PostedWithin()
      requires Inv()
      ensures forall p | p in PostedAll() :: p.0 <= maxFd
    {
      forall p | p in PostedAll()
        ensures p.0 <= maxFd
      {
        assert EntryInv(p.0, p.1);
      }
    }

    ghost predicate Unchanged(last: int, pending: set<(nat, bool)>)
      reads this
    {
      maxFd == last && PendingAll() == pending
    }

    /** What is still posted has the entry it was posted with. */
    ghost predicate AsRegistered(table0: seq<Aio>)
      reads `table, table, `readFdSetPost, `writeFdSetPost
    {
      forall p | p in PostedAll() ::
        Ix(p.0, p.1) < |table0| && Ix(p.0, p.1) < table.Length && table[Ix(p.0, p.1)] == table0[Ix(p.0, p.1)]
    }
  }

  /** What has been reported carried the data it was registered with. */
  ghost predicate Registered(table0: seq<Aio>, events: seq<Event>) {
    forall i | 0 <= i < |events| ::
      Ix(events[i].fd, events[i].isWrite) < |table0| &&
      events[i].clientData == table0[Ix(events[i].fd, events[i].isWrite)].clientData
  }

  ghost function Tagged(s: set<nat>, isWrite: bool): set<(nat, bool)> {
    set fd | fd in s :: (fd, isWrite)
  }

  ghost function Keys(events: seq<Event>): set<(nat, bool)> {
    set i | 0 <= i < |events| :: (events[i].fd, events[i].isWrite)
  }

  /** In the order of the dispatch loop, hence each operation at most once. */
  ghost predicate Ordered(events: seq<Event>) {
    forall i, j | 0 <= i < j < |events| :: Ix(events[i].fd, events[i].isWrite) < Ix(events[j].fd, events[j].isWrite)
  }

  /** The descriptor of `p` was not closed by a call back for anything reported in front of it. */
  ghost predicate OpenFor(events: seq<Event>, closedBy: seq<set<nat>>, p: (nat, bool))
    requires |closedBy| == |events|
  {
    forall i | 0 <= i < |events| && Ix(events[i].fd, events[i].isWrite) < Ix(p.0, p.1) :: p.0 !in closedBy[i]
  }

  /** A completion of a pass is still posted or has been reported exactly when it was not closed in time. The dispatch
      loop has come to entry `next`: what has been reported lies before it, what is still posted does not. */
  ghost predicate Accounted(all: set<(nat, bool)>, still: set<(nat, bool)>, events: seq<Event>,
                            closedBy: seq<set<nat>>, next: nat)
  {
    && |closedBy| == |events|
    && still <= all && Keys(events) <= all && still !! Keys(events)
    && (forall p | p in all :: p in still || p in Keys(events) <==> OpenFor(events, closedBy, p))
    && Ordered(events)
    && (forall i | 0 <= i < |events| :: Ix(events[i].fd, events[i].isWrite) < next)
    && (forall p | p in still :: next <= Ix(p.0, p.1))
  }

  /** One step of the dispatch loop, at entry `Ix(fd, isWrite)`. */
  lemma Account(all: set<(nat, bool)>, still: set<(nat, bool)>, events: seq<Event>, closedBy: seq<set<nat>>,
                fd: nat, isWrite: bool, clientData: int, closedNow: set<nat>, left: set<(nat, bool)>)
    requires Accounted(all, still, events, closedBy, Ix(fd, isWrite))
    requires (fd, isWrite) in still
    requires left == set p | p in still && p != (fd, isWrite) && p.0 !in closedNow
    ensures Accounted(all, left, events + [Event(fd, isWrite, clientData)], closedBy + [closedNow],
                      Ix(fd, isWrite) + 1)
  {
    var e := Event(fd, isWrite, clientData);
    var more, closedMore := events + [e], closedBy + [closedNow];
    KeysMore(events, e);
    OrderedMore(events, e);
    hide Keys, Ordered, OpenFor, Ix;
    assert forall i | 0 <= i < |events| :: more[i] == events[i];
    forall p | p in left
      ensures Ix(fd, isWrite) < Ix(p.0, p.1)
    {
      SameEntry(p, fd, isWrite);
    }
    forall p | p in all
      ensures p in left || p in Keys(more) <==> OpenFor(more, closedMore, p)
    {
      OpenForMore(events, closedBy, e, closedNow, p);
      BeforeNext(all, still, events, closedBy, Ix(fd, isWrite), p);
      SameEntry(p, fd, isWrite);
    }
  }

  lemma KeysMore(events: seq<Event>, e: Event)
    ensures Keys(events + [e]) == Keys(events) + {(e.fd, e.isWrite)}
  {
    assert (events + [e])[|events|] == e;
    assert forall i | 0 <= i < |events| :: (events + [e])[i] == events[i];
  }

  lemma OrderedMore(events: seq<Event>, e: Event)
    requires Ordered(events)
    requires forall i | 0 <= i < |events| :: Ix(events[i].fd, events[i].isWrite) < Ix(e.fd, e.isWrite)
    ensures Ordered(events + [e])
  {
  }

  lemma OpenForMore(events: seq<Event>, closedBy: seq<set<nat>>, e: Event, closedNow: set<nat>, p: (nat, bool))
    requires |closedBy| == |events|
    ensures OpenFor(events + [e], closedBy + [closedNow], p)
       <==> OpenFor(events, closedBy, p) && (Ix(e.fd, e.isWrite) < Ix(p.0, p.1) ==> p.0 !in closedNow)
  {
    var more, closedMore := events + [e], closedBy + [closedNow];
    assert more[|events|] == e && closedMore[|events|] == closedNow;
    assert forall i | 0 <= i < |events| :: more[i] == events[i] && closedMore[i] == closedBy[i];
  }

  lemma BeforeNext(all: set<(nat, bool)>, still: set<(nat, bool)>, events: seq<Event>, closedBy: seq<set<nat>>,
                   next: nat, p: (nat, bool))
    requires Accounted(all, still, events, closedBy, next)
    ensures p in Keys(events) ==> Ix(p.0, p.1) < next
    ensures p in still ==> next <= Ix(p.0, p.1)
  {
  }

  lemma SameEntry(p: (nat, bool), fd: nat, isWrite: bool)
    ensures Ix(p.0, p.1) == Ix(fd, isWrite) <==> p == (fd, isWrite)
  {
  }

  lemma AccountNothing(all: set<(nat, bool)>, still: set<(nat, bool)>, events: seq<Event>, closedBy: seq<set<nat>>,
                       fd: nat, isWrite: bool)
    requires Accounted(all, still, events, closedBy, Ix(fd, isWrite)) && (fd, isWrite) !in still
    ensures Accounted(all, still, events, closedBy, Ix(fd, isWrite) + 1)
  {
  }

  lemma AccountStart(all: set<(nat, bool)>)
    ensures Accounted(all, all, [], [], Ix(0, false))
  {
  }

  /** Everything closed. */
  ghost function Gathered(closedBy: seq<set<nat>>): set<nat> {
    if closedBy == [] then {} else closedBy[0] + Gathered(closedBy[1..])
  }

  lemma GatheredNone()
    ensures Gathered([]) == {}
  {
  }

  lemma GatheredOne(closed: set<nat>)
    ensures Gathered([closed]) == closed
  {
    assert [closed][1..] == [];
  }

  lemma {:induction false} GatheredMore(a: seq<set<nat>>, b: seq<set<nat>>)
    requires a <= b
    ensures Gathered(b) == Gathered(a) + Gathered(b[|a|..])
  {
    if a != [] {
      GatheredMore(a[1..], b[1..]);
      assert b[1..][|a[1..]|..] == b[|a|..];
    } else {
      assert b[0..] == b;
    }
  }

  lemma IxFollows(fd: nat)
    ensures Ix(fd, true) == Ix(fd, false) + 1 && Ix(fd + 1, false) == Ix(fd, true) + 1
  {
  }

  lemma {:induction false} TaggedSize(s: set<nat>, isWrite: bool)
    ensures |Tagged(s, isWrite)| == |s|
  {
    if s == {} {
      assert Tagged(s, isWrite) == {};
    } else {
      var x :| x in s;
      TaggedSize(s - {x}, isWrite);
      assert Tagged(s, isWrite) == Tagged(s - {x}, isWrite) + {(x, isWrite)};
    }
  }

  /** In an ordered list of reports every operation occurs once. */
  lemma {:induction false} OrderedOnce(events: seq<Event>)
    requires Ordered(events)
    ensures |Keys(events)| == |events|
  {
    if events == [] {
      assert Keys(events) == {};
    } else {
      var init, last := events[..|events| - 1], events[|events| - 1];
      OrderedOnce(init);
      assert Keys(events) == Keys(init) + {(last.fd, last.isWrite)};
      assert (last.fd, last.isWrite) !in Keys(init);
    }
  }

  lemma SmallerSubset(a: set<(nat, bool)>, b: set<(nat, bool)>)
    requires a <= b
    ensures |a| <= |b| && (|a| == |b| <==> a == b)
  {
    var rest := b - a;
    assert b == a + rest && a !! rest;
    if rest == {} {
      assert a == b;
    }
  }
}
