/**
 Writing a body of data through LMDB transactions that may find the map full at any put or
 commit: the loop that puts everything back and tries again after the map has grown.
 */
module RetryLoop {
  import opened Bytes
  import opened SortedMaps
  import opened Model

  /**
   One environment with its resize flag and at most one open write transaction. Below `enough` the
   engine may report a full map at any operation it likes; `reportsFull` is its choice, by the number of
   the operation. A resize adds at least one unit, `growth` says how many more. The ghost fields count
   the map-full errors met by `Put` and the resizes done for the flag and for a commit.
   */
  class Lmdb {
    const enough: nat
    const reportsFull: nat -> bool
    const growth: nat -> nat
    var contents: Contents
    var staged: Contents
    var capacity: nat
    var operations: nat
    var mapResizeScheduled: bool
    ghost var putErrors: nat
    ghost var flagResizes: nat
    ghost var commitResizes: nat

    constructor (enough: nat, reportsFull: nat -> bool, growth: nat -> nat, capacity: nat)
      ensures contents == map[] && !mapResizeScheduled && this.capacity == capacity
      ensures this.enough == enough && this.reportsFull == reportsFull && this.growth == growth
    {
      this.enough := enough;
      this.reportsFull := reportsFull;
      this.growth := growth;
      this.contents := map[];
      this.staged := map[];
      this.capacity := capacity;
      this.operations := 0;
      this.mapResizeScheduled := false;
      this.putErrors, this.flagResizes, this.commitResizes := 0, 0, 0;
    }

    /** What the next operation meets. */
    predicate NextIsFull()
      reads this
    {
      capacity < enough && reportsFull(operations)
    }

    function Grown(): (c: nat)
      reads this
      ensures c > capacity
    {
      capacity + 1 + growth(capacity)
    }

    /** The capacity of the next transaction. */
    function Promised(): nat
      reads this
    {
      if mapResizeScheduled then Grown() else capacity
    }

    method DoResize()
      modifies this`capacity
      ensures capacity == old(Grown())
    {
      capacity := capacity + 1 + growth(capacity);
    }

    method ResizeIfScheduled()
      modifies this`capacity, this`mapResizeScheduled, this`flagResizes
      ensures !mapResizeScheduled && capacity == old(Promised())
      ensures flagResizes == old(flagResizes) + (if old(mapResizeScheduled) then 1 else 0)
    {
      if mapResizeScheduled {
        mapResizeScheduled := false;
        DoResize();
        flagResizes := flagResizes + 1;
      }
    }

    method TransactionRw()
      modifies this`capacity, this`mapResizeScheduled, this`flagResizes, this`staged
      ensures !mapResizeScheduled && capacity == old(Promised())
      ensures flagResizes == old(flagResizes) + (if old(mapResizeScheduled) then 1 else 0)
      ensures staged == contents
    {
      ResizeIfScheduled();
      staged := contents;
    }

    method MapIsFull() returns (full: bool)
      modifies this`operations
      ensures full == old(NextIsFull()) && operations == old(operations) + 1
    {
      full := capacity < enough && reportsFull(operations);
      operations := operations + 1;
    }

    method Put(key: Data, val: Data) returns (ok: bool)
      modifies this`operations, this`staged, this`mapResizeScheduled, this`putErrors
      ensures ok == !old(NextIsFull()) && operations == old(operations) + 1
      ensures ok ==> staged == old(staged)[key := val] && mapResizeScheduled == old(mapResizeScheduled)
      ensures !ok ==> staged == old(staged) && mapResizeScheduled
      ensures putErrors == old(putErrors) + (if ok then 0 else 1)
    {
      var full := MapIsFull();
      if full {
        mapResizeScheduled := true;
        putErrors := putErrors + 1;
      } else {
        staged := staged[key := val];
      }
      ok := !full;
    }

    method Commit() returns (ok: bool)
      modifies this`operations, this`contents, this`capacity, this`mapResizeScheduled, this`commitResizes
      ensures ok == !old(NextIsFull()) && operations == old(operations) + 1
      ensures ok ==> contents == staged && capacity == old(capacity) && mapResizeScheduled == old(mapResizeScheduled)
      ensures !ok ==> contents == old(contents) && !mapResizeScheduled && capacity == old(Grown())
      ensures commitResizes == old(commitResizes) + (if ok then 0 else 1)
    {
      var full := MapIsFull();
      if full {
        DoResize();
        mapResizeScheduled := false;
        commitResizes := commitResizes + 1;
      } else {
        contents := staged;
      }
      ok := !full;
    }
  }

  function Missing(enough: nat, have: nat): nat
  {
    if have < enough then enough - have else 0
  }

  /** The stack and the entries written in this round hold the original data between them. */
  ghost predicate Conserved(stack: seq<Entry<Data>>, written: seq<Entry<Data>>, data: Contents)
  {
    multiset(stack) + multiset(written) == multiset(Listing(data))
  }

  /** Once the stack is empty, the written entries, in whatever order, are the data. */
  lemma EmptyStackMeansAllWritten(written: seq<Entry<Data>>, data: Contents)
    requires Conserved([], written, data)
    ensures Collect(written) == data
  {
    assert multiset(written) == multiset(Listing(data));
    forall i | 0 <= i < |written| ensures written[i].0 in data && written[i].1 == data[written[i].0] {
      assert written[i] in multiset(written);
      assert written[i] in Listing(data);
    }
    CollectCovers(written, data);
    forall k | k in data ensures HasKey(written, k) {
      assert HasKey(Listing(data), k);
      assert (k, data[k]) in Listing(data);
      assert (k, data[k]) in multiset(Listing(data));
      assert (k, data[k]) in written;
    }
  }

  lemma MoveOne(rest: seq<Entry<Data>>, written: seq<Entry<Data>>)
    requires rest != []
    ensures multiset(rest[..|rest| - 1]) + multiset(written + [rest[|rest| - 1]]) == multiset(rest) + multiset(written)
  {
    assert rest == rest[..|rest| - 1] + [rest[|rest| - 1]];
  }

  lemma RestoreConserves(stack: seq<Entry<Data>>, written: seq<Entry<Data>>, data: Contents)
    requires Conserved(stack, written, data)
    ensures Conserved(stack + written, [], data)
  {}

  lemma CollectNext(under: Contents, written: seq<Entry<Data>>, e: Entry<Data>)
    ensures under + Collect(written + [e]) == (under + Collect(written))[e.0 := e.1]
  {
    assert (written + [e])[..|written|] == written;
  }

  /** How many of the next `n` operations, the first numbered `op`, come before one that finds the map full. */
  function Successes(tight: bool, reportsFull: nat -> bool, op: nat, n: nat): nat
    decreases n
  {
    if n == 0 || (tight && reportsFull(op)) then 0 else 1 + Successes(tight, reportsFull, op + 1, n - 1)
  }

  /** One round: pops entries off the stack into the transaction until the stack is empty or a put fails. */
  method PutFromStack(lmdb: Lmdb, stack: seq<Entry<Data>>)
    returns (rest: seq<Entry<Data>>, written: seq<Entry<Data>>, failed: bool)
    requires lmdb.staged == lmdb.contents && !lmdb.mapResizeScheduled
    modifies lmdb`operations, lmdb`staged, lmdb`mapResizeScheduled, lmdb`putErrors
    ensures multiset(rest) + multiset(written) == multiset(stack)
    ensures lmdb.staged == lmdb.contents + Collect(written)
    ensures failed ==> lmdb.mapResizeScheduled && lmdb.capacity < lmdb.enough
    ensures !failed ==> rest == [] && !lmdb.mapResizeScheduled
    ensures lmdb.putErrors == old(lmdb.putErrors) + (if failed then 1 else 0)
    ensures lmdb.operations == old(lmdb.operations) + |written| + (if failed then 1 else 0)
    // it stops exactly at the first put that finds the map full
    ensures |written| == Successes(lmdb.capacity < lmdb.enough, lmdb.reportsFull, old(lmdb.operations), |stack|)
    ensures failed <==> |written| < |stack|
  {
    ghost var tight := lmdb.capacity < lmdb.enough;
    ghost var total := Successes(tight, lmdb.reportsFull, lmdb.operations, |stack|);
    rest, written, failed := stack, [], false;
    while rest != []
      invariant lmdb.staged == lmdb.contents + Collect(written)
      invariant multiset(rest) + multiset(written) == multiset(stack)
      invariant !lmdb.mapResizeScheduled && lmdb.putErrors == old(lmdb.putErrors)
      invariant lmdb.operations == old(lmdb.operations) + |written|
      invariant |written| + |rest| == |stack|
      invariant |written| + Successes(tight, lmdb.reportsFull, lmdb.operations, |rest|) == total
      decreases |rest|
    {
      var last := rest[|rest| - 1];
      var ok := lmdb.Put(last.0, last.1);
      if !ok {
        return rest, written, true;
      }
      MoveOne(rest, written);
      CollectNext(lmdb.contents, written, last);
      written := written + [last];
      rest := rest[..|rest| - 1];
    }
  }

  /**
   One cycle: a transaction, its puts and the commit. When a put or the commit fails, what was written goes back on
   the stack and the map will be larger.
   */
  method Cycle(lmdb: Lmdb, stack: seq<Entry<Data>>, data: Contents)
    returns (rest: seq<Entry<Data>>, putFailed: bool, done: bool)
    requires Conserved(stack, [], data)
    modifies lmdb
    ensures done ==> lmdb.contents == old(lmdb.contents) + data && !lmdb.mapResizeScheduled
    ensures !done ==> lmdb.contents == old(lmdb.contents) && Conserved(rest, [], data)
    ensures !done ==> old(lmdb.Promised()) < lmdb.enough && old(lmdb.Promised()) < lmdb.Promised()
    ensures putFailed ==> !done && lmdb.mapResizeScheduled
    ensures !putFailed ==> !lmdb.mapResizeScheduled
    ensures lmdb.putErrors == old(lmdb.putErrors) + (if putFailed then 1 else 0)
    ensures lmdb.flagResizes == old(lmdb.flagResizes) + (if old(lmdb.mapResizeScheduled) then 1 else 0)
  {
    lmdb.TransactionRw();
    var written: seq<Entry<Data>>;
    rest, written, putFailed := PutFromStack(lmdb, stack);
    RestoreConserves(rest, written, data);
    done := false;
    if !putFailed {
      done := lmdb.Commit();
      if done {
        EmptyStackMeansAllWritten(written, data);
      }
    }
    rest := rest + written;
  }

  /**
   The retry loop: a round that fails, in a put or in the commit, puts what it wrote back on the stack and
   everything starts over. It ends, with the data written over whatever the database held. The result counts
   the puts that found the map full, and each of them has been answered by one resize.
   */
  method WriteAll(lmdb: Lmdb, data: Contents) returns (resizesViaPut: nat)
    modifies lmdb
    ensures lmdb.contents == old(lmdb.contents) + data
    ensures old(lmdb.contents) == map[] ==> lmdb.contents == data
    ensures lmdb.putErrors == old(lmdb.putErrors) + resizesViaPut
    ensures !lmdb.mapResizeScheduled
    ensures lmdb.flagResizes == old(lmdb.flagResizes) + resizesViaPut + (if old(lmdb.mapResizeScheduled) then 1 else 0)
  {
    assert map[] + data == data;
    var dataStack := Entries(data);
    resizesViaPut := 0;
    while true
      invariant lmdb.contents == old(lmdb.contents)
      invariant Conserved(dataStack, [], data)
      invariant lmdb.putErrors == old(lmdb.putErrors) + resizesViaPut
      invariant lmdb.flagResizes + (if lmdb.mapResizeScheduled then 1 else 0)
             == old(lmdb.flagResizes) + resizesViaPut + (if old(lmdb.mapResizeScheduled) then 1 else 0)
      decreases Missing(lmdb.enough, lmdb.Promised())
    {
      var putFailed, done;
      dataStack, putFailed, done := Cycle(lmdb, dataStack, data);
      if putFailed {
        resizesViaPut := resizesViaPut + 1;
      }
      if done {
        return;
      }
    }
  }
}
