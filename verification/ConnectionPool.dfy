/** `DBPool` itself. Each method is one stretch of code under the mutex; `now` is what `time` returns in it. */
module ConnectionPool {
  import opened Text
  import opened PoolMachine

  class DBPool {
    var allConnections: seq<Conn>
    var availableConnections: seq<Conn>
    const minConnections: nat  // never read
    const maxConnections: nat
    var numConnections: int
    var numAvailable: int
    var lastUsed: map<Conn, int>

    ghost function Abs(): Pool
      reads this
    {
      Pool(allConnections, availableConnections, maxConnections, numConnections, numAvailable, lastUsed)
    }

    constructor (minConnections: nat, maxConnections: nat)
      ensures Abs() == EmptyPool(maxConnections)
    {
      this.minConnections := minConnections;
      this.maxConnections := maxConnections;
      allConnections, availableConnections := [], [];
      numConnections, numAvailable, lastUsed := 0, 0, map[];
    }

    /** `made` is the connection object that `new` returns. */
    method Grow(made: Conn) returns (conn: Conn)
      modifies this`allConnections, this`numConnections
      ensures conn == made && Abs() == PoolMachine.Grow(old(Abs()), made)
    {
      allConnections := allConnections + [made];
      numConnections := numConnections + 1;
      conn := made;
    }

    /**
     `get` up to its wait: `None` when the thread has to wait. The pool grows exactly when it counts nothing
     as available and fewer connections than it may have.
     */
    method Get(made: Conn, now: int) returns (conn: Option<Conn>)
      modifies this
      ensures var grows := old(numAvailable) == 0 && old(numConnections) < maxConnections;
              && (grows ==> conn == Some(made) && Abs() == Touch(PoolMachine.Grow(old(Abs()), made), made, now))
              && (!grows && old(availableConnections) == [] ==> conn.None? && Abs() == old(Abs()))
              && (!grows && old(availableConnections) != [] ==>
                    conn == Some(old(availableConnections)[0])
                    && allConnections == old(allConnections) && numConnections == old(numConnections)
                    && Abs() == Touch(PopFront(old(Abs())), conn.value, now))
    {
      if numAvailable == 0 && numConnections < maxConnections {
        var c := Grow(made);
        lastUsed := lastUsed[c := now];
        conn := Some(c);
      } else if availableConnections == [] {
        conn := None;
      } else {
        var c := GetAfterWait(now);
        conn := Some(c);
      }
    }

    /** `get` from its wait on: the list is not looked at again, so it had better not be empty. */
    method GetAfterWait(now: int) returns (conn: Conn)
      requires availableConnections != []
      modifies this`availableConnections, this`numAvailable, this`lastUsed
      ensures conn == old(availableConnections)[0]
      ensures Abs() == Touch(PopFront(old(Abs())), conn, now)
    {
      conn := availableConnections[0];
      availableConnections := availableConnections[1..];
      numAvailable := numAvailable - 1;
      lastUsed := lastUsed[conn := now];
    }

    method Put(conn: Conn, now: int)
      modifies this`availableConnections, this`numAvailable, this`lastUsed
      ensures Abs() == Touch(PushBack(old(Abs()), conn), conn, now)
    {
      availableConnections := availableConnections + [conn];
      numAvailable := numAvailable + 1;
      lastUsed := lastUsed[conn := now];
    }

    /** One visit of `maintenance_thread_func`; the connection removed is the one it deletes. */
    method Sweep(now: int) returns (removed: Option<Conn>)
      requires forall c :: c in availableConnections ==> c in lastUsed
      modifies this`availableConnections, this`numConnections, this`numAvailable
      ensures Abs() == Swept(old(Abs()), now)
      ensures var i := FirstIdle(old(Abs()), old(availableConnections), now);
              removed == if i == |old(availableConnections)| then None else Some(old(availableConnections)[i])
    {
      var i := 0;
      removed := None;
      assert availableConnections[0..] == availableConnections;
      while i != |availableConnections|
        invariant 0 <= i <= |availableConnections| && removed.None?
        invariant availableConnections == old(availableConnections) && Abs() == old(Abs())
        invariant i + FirstIdle(Abs(), availableConnections[i..], now) == FirstIdle(Abs(), availableConnections, now)
        decreases |availableConnections| - i
      {
        assert availableConnections[i..][1..] == availableConnections[i + 1..];
        var c := availableConnections[i];
        if now - lastUsed[c] >= IDLE_LIMIT {
          removed := Some(c);
          availableConnections := availableConnections[..i] + availableConnections[i + 1..];
          numConnections := numConnections - 1;
          numAvailable := numAvailable - 1;
          break;
        }
        i := i + 1;
      }
    }

    /** The loop of `~DBPool`: one entry in `deleted` for each `delete`. */
    method Destroy() returns (deleted: multiset<Conn>)
      ensures deleted == multiset(allConnections)
    {
      deleted := multiset{};
      var i := 0;
      while i < |allConnections|
        invariant 0 <= i <= |allConnections| && deleted == multiset(allConnections[..i])
      {
        deleted := deleted + multiset{allConnections[i]};
        assert allConnections[..i + 1] == allConnections[..i] + [allConnections[i]];
        i := i + 1;
      }
      assert allConnections[..i] == allConnections;
    }
  }
}
