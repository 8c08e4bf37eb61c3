/** Terminal positions of a cursor: the last live position, the exhausted
    position, and the last value. Cursors are taken by value, so the
    caller's cursor is never affected. */
module Terminal {
  import opened Enumerators

  /** last(e): the final live position, or e itself when e is not live. */
  method Last<T>(e: Enumerator<T>) returns (l: Enumerator<T>)
    requires e.Valid()
    ensures l.s == e.s
    ensures !e.Live() ==> l == e
    ensures e.Live() ==> l.Live() && l.pos == |e.s| - 1 && l.Current() == e.s[|e.s| - 1]
  {
    var cur := e;
    l := e;
    while cur.Live()
      invariant cur.Valid() && cur.s == e.s && e.pos <= cur.pos
      invariant cur.pos == e.pos ==> l == e
      invariant cur.pos > e.pos ==> l.Live() && l.s == e.s && l.Next() == cur
      decreases |cur.s| - cur.pos
    {
      // l = e++
      l, cur := cur, cur.Next();
    }
  }

  /** end(e): advances until the cursor is no longer live, one past the last
      element. An exhausted cursor is returned unchanged. */
  method End<T>(e: Enumerator<T>) returns (r: Enumerator<T>)
    requires e.Valid()
    ensures r.s == e.s && !r.Live() && r.pos == |e.s|
    ensures !e.Live() ==> r == e
  {
    // while (++e) ;
    r := e.Next();
    while r.Live()
      invariant r.Valid() && r.s == e.s
      invariant !e.Live() ==> r == e
      decreases |r.s| - r.pos
    {
      r := r.Next();
    }
  }

  /** back(e) = *last(e): the last element; e must be live, since the last
      position of a cursor that is not live cannot be read. */
  method Back<T>(e: Enumerator<T>) returns (v: T)
    requires e.Valid() && e.Live()
    ensures v == e.s[|e.s| - 1]
  {
    var l := Last(e);
    v := l.Current();
  }

  /** *last(e({0,1,2}, 3)) == 2. */
  method LastOfZeroOneTwo() returns (v: int)
    ensures v == 2
  {
    var l := Last(Enumerator([0, 1, 2], 0));
    v := l.Current();
  }
}
