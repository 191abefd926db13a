/** The exclusively owned singly linked list of Box/src/main.rs.

    Every `Box<Node2>` has exactly one owner and nothing else can reach the
    node it points to, so the list is a plain inductive value: a write through
    the owner (`as_mut`) is the same as building the updated value. */
module BoxList {
  import opened Common

  /** The enum `Node2`: a value and its boxed successor, or the end node. */
  datatype Node2 = Some(value: i32, next: Node2) | None

  /** Number of `Some` nodes before the terminating `None`. */
  function Length(n: Node2): nat
  {
    match n
    case None => 0
    case Some(_, rest) => 1 + Length(rest)
  }

  /** The values met when walking from `n` to the terminating `None`. */
  function Values(n: Node2): (s: seq<i32>)
    ensures |s| == Length(n)
  {
    match n
    case None => []
    case Some(v, rest) => [v] + Values(rest)
  }

  /** `Node2::is_none`: true on the end node and on nothing else. */
  predicate IsNone(n: Node2)
    ensures IsNone(n) <==> n == Node2.None
  {
    match n
    case None => true
    case _ => false
  }

  /** `Node2::val`: the value of a `Some` node, `None` on the end node. */
  function Val(n: Node2): (r: Option<i32>)
    ensures r.Some? <==> !IsNone(n)
    ensures r.Some? ==> Values(n)[0] == r.value
  {
    match n
    case None => Option.None
    case Some(v, _) => Option.Some(v)
  }

  /** `Node2::next`: the boxed successor of a `Some` node, `None` on the end node. */
  function Next(n: Node2): (r: Option<Node2>)
    ensures r.Some? <==> !IsNone(n)
    ensures r.Some? ==> Length(r.value) + 1 == Length(n) && Values(r.value) == Values(n)[1..]
  {
    match n
    case None => Option.None
    case Some(_, rest) => Option.Some(rest)
  }

  /** The node reached from `n` after `i` calls of `Next`. */
  function Skip(n: Node2, i: nat): (r: Node2)
    requires i <= Length(n)
    ensures Length(r) == Length(n) - i
  {
    if i == 0 then n else Skip(n.next, i - 1)
  }

  /** After `i` cursor steps exactly the values from index `i` on remain. */
  lemma {:induction false} SkipValues(n: Node2, i: nat)
    requires i <= Length(n)
    ensures Values(Skip(n, i)) == Values(n)[i..]
  {
    if i > 0 {
      SkipValues(n.next, i - 1);
    }
  }

  /** Accessor round trip: `val` and `next` of a non-end node rebuild it,
      and the end node is the one node on which all three helpers agree
      that there is nothing. */
  lemma AccessorsRebuild(n: Node2)
    ensures IsNone(n) <==> Val(n) == Option.None
    ensures IsNone(n) <==> Next(n) == Option.None
    ensures !IsNone(n) ==> n == Node2.Some(Val(n).value, Next(n).value)
    ensures IsNone(n) <==> n == Node2.None
  {
  }

  /** One more step of the cursor is one more `Next`. */
  lemma {:induction false} SkipStep(n: Node2, i: nat)
    requires i < Length(n)
    ensures Next(Skip(n, i)).Some?
    ensures Skip(n, i + 1) == Next(Skip(n, i)).value
  {
    if i > 0 {
      SkipStep(n.next, i - 1);
    }
  }

  /** A node is the end node exactly when no values follow it. */
  lemma EndIffEmpty(n: Node2)
    ensures IsNone(n) <==> Length(n) == 0
  {
  }

  /** `lastK`: two cursors start at `root`; the lead one moves `k` nodes ahead
      (panicking with "root len < k" when it runs off the end) and then both
      move in lock-step until the lead one reaches the end node. The result is
      the node after which exactly max(k, 0) values remain. */
  method LastK(root: Node2, k: i32) returns (r: Result<Node2, string>)
    ensures r.Err? <==> k as int > Length(root)
    ensures r.Err? ==> r.error == "root len < k"
    ensures r.Ok? ==> r.value == Skip(root, Length(root) - (if k < 0 then 0 else k as int))
  {
    var r1 := root;
    var r2 := root;
    // for i in 0..k: the range is empty when k <= 0
    var i: i32 := 0;
    while i < k
      invariant 0 <= i as int <= Length(root)
      invariant k >= 0 ==> i <= k
      invariant k < 0 ==> i == 0
      invariant r1 == Skip(root, i as int)
    {
      var nx := Next(r1);
      if nx.None? {
        return Err("root len < k");
      }
      SkipStep(root, i as int);
      r1 := nx.value;
      i := i + 1;
    }
    ghost var lead: nat := i as int;
    ghost var j: nat := 0;
    while !IsNone(r1)
      invariant j + lead <= Length(root)
      invariant r1 == Skip(root, j + lead)
      invariant r2 == Skip(root, j)
      decreases Length(root) - j
    {
      SkipStep(root, j + lead);
      SkipStep(root, j);
      r1 := Next(r1).value;
      r2 := Next(r2).value;
      j := j + 1;
    }
    r := Ok(r2);
  }

  /** What `lastK` finds: for 1 <= k <= length, the node holding the k-th
      value counted from the tail; for k <= 0, the terminating end node.
      Either way exactly the last max(k, 0) values follow it. */
  lemma {:induction false} KthFromTail(root: Node2, k: int)
    requires k <= Length(root)
    ensures var kk := if k < 0 then 0 else k;
            Values(Skip(root, Length(root) - kk)) == Values(root)[Length(root) - kk..]
    ensures k >= 1 ==> Val(Skip(root, Length(root) - k)) == Option.Some(Values(root)[Length(root) - k])
    ensures k <= 0 ==> IsNone(Skip(root, Length(root)))
  {
    var kk := if k < 0 then 0 else k;
    SkipValues(root, Length(root) - kk);
    if k >= 1 {
      var found := Skip(root, Length(root) - k);
      EndIffEmpty(found);
      assert Values(found)[0] == Values(root)[Length(root) - k];
    } else {
      EndIffEmpty(Skip(root, Length(root)));
    }
  }

  /** Writing `x` into the value slot of the `&mut Node2` that `as_mut`
      gives: only the head value changes; the end node is left alone. */
  function SetHead(n: Node2, x: i32): (r: Node2)
    ensures Length(r) == Length(n)
    ensures IsNone(n) ==> r == n
    ensures !IsNone(n) ==> Values(r) == [x] + Values(n)[1..] && Next(r) == Next(n)
  {
    match n
    case Some(_, rest) => Node2.Some(x, rest)
    case None => n
  }

  /** The body of `main`: build 3 -> 2 -> 1 -> None, write 33 into the head
      through `as_mut`, then ask `lastK(&n, 2).val()`. */
  method BoxScenario() returns (built: seq<i32>, edited: seq<i32>, second: Option<i32>)
    ensures built == [3, 2, 1]
    ensures edited == [33, 2, 1]
    ensures second == Option.Some(2)
  {
    var nil := Node2.None;
    var n1 := Node2.Some(1, nil);
    var n := Node2.Some(3, Node2.Some(2, n1));
    built := Values(n);
    n := SetHead(n, 33);
    edited := Values(n);
    var found := LastK(n, 2);
    // three nodes, k = 2: the cursor behind stopped after one step
    assert found.value == Skip(n, 1) == n.next;
    second := Val(found.value);
  }
}
