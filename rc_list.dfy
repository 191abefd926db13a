/** The shared-suffix list of Rc/src/main.rs: every successor is an
    `Rc<Node>`, so two lists can own one common tail. */
module RcList {
  import opened Common
  import opened SmartPointers

  /** The enum `Node`: a value and a shared successor handle, or the end node. */
  datatype Node = Some(value: i32, next: Rc<Node>) | None

  /** `Node::is_none`: true on the end node and on nothing else. */
  predicate IsNone(n: Node)
    ensures IsNone(n) <==> n == Node.None
  {
    match n
    case None => true
    case _ => false
  }

  /** `Node::val`: the value of a `Some` node, `None` on the end node. */
  function Val(n: Node): (r: Option<i32>)
    ensures r.Some? <==> !IsNone(n)
    ensures r.Some? ==> r.value == n.value
  {
    match n
    case None => Option.None
    case Some(v, _) => Option.Some(v)
  }

  /** `Node::next`: `next.as_ref()`, the node held by the successor handle,
      `None` on the end node. */
  function Next(n: Node): (r: Option<Node>)
    ensures r.Some? <==> !IsNone(n)
    ensures r.Some? ==> r.value == n.next.payload
  {
    match n
    case None => Option.None
    case Some(_, rest) => Option.Some(rest.payload)
  }

  /** The accessors follow the same variant rules as in the `Box` list:
      `val` and `next` give nothing exactly on the end node, and on a `Some`
      node they give back its value and the node its handle points at. */
  lemma AccessorsAgree(n: Node)
    ensures IsNone(n) <==> Val(n) == Option.None
    ensures IsNone(n) <==> Next(n) == Option.None
    ensures !IsNone(n) ==> n == Node.Some(Val(n).value, n.next) && Next(n).value == n.next.payload
  {
  }

  /** The values met walking from `n` to the end node, when the end node is
      reached within `fuel` steps. Payloads never change, so neither does
      the walk. */
  function Walk(n: Node, fuel: nat): (r: Option<seq<i32>>)
    ensures r.Some? && IsNone(n) ==> r.value == []
    ensures r.Some? && !IsNone(n) ==> r.value != [] && Option.Some(r.value[0]) == Val(n)
    decreases fuel
  {
    match n
    case None => Option.Some([])
    case Some(v, rest) =>
      if fuel == 0 then Option.None
      else
        match Walk(rest.payload, fuel - 1)
        case None => Option.None
        case Some(s) => Option.Some([v] + s)
  }

  /** More fuel never changes a walk that already reached the end. */
  lemma {:induction false} WalkMonotone(n: Node, fuel: nat, more: nat)
    requires Walk(n, fuel).Some? && fuel <= more
    ensures Walk(n, more) == Walk(n, fuel)
    decreases fuel
  {
    match n
    case None =>
    case Some(_, rest) =>
      WalkMonotone(rest.payload, fuel - 1, more - 1);
  }

  /** Building a node on a tail that reaches the end gives a list that
      reaches the end one step later: with no write path into an `Rc`, every
      list built from `Rc::new` is finite. */
  lemma ConsReachesEnd(v: i32, tail: Rc<Node>, fuel: nat, s: seq<i32>)
    requires Walk(tail.payload, fuel) == Option.Some(s)
    ensures Walk(Node.Some(v, tail), fuel + 1) == Option.Some([v] + s)
  {
  }

  /** A new block on a clone of the tail handle: the tail's count goes up by
      one and the new node starts at count 1. */
  method Cons(v: i32, tail: Rc<Node>) returns (r: Rc<Node>)
    requires tail.Valid() && tail.strong >= 1
    modifies tail
    ensures fresh(r) && r.Valid() && r.strong == 1 && r.weak == 0
    ensures r.payload == Node.Some(v, tail)
    ensures tail.Valid() && tail.strong == old(tail.strong) + 1 && tail.weak == old(tail.weak)
  {
    var shared := tail.Clone();
    r := new Rc<Node>.New(Node.Some(v, shared));
  }

  /** The body of `main`: n3 = 3 -> n2 and n4 = 4 -> n2 share the suffix
      n2 = 2 -> 1 -> None. Returns the five strong counts in the order
      null, n1, n2, n3, n4, what the two lists hold, and `n1.as_ref().val()`;
      the two heads are returned too, sharing one successor block. */
  method RcScenario() returns (n3: Rc<Node>, n4: Rc<Node>, counts: seq<nat>, from3: Option<seq<i32>>,
                                from4: Option<seq<i32>>, val1: Option<i32>)
    ensures counts == [2, 2, 3, 1, 1]
    ensures n3.payload.Some? && n4.payload.Some? && n3.payload.next == n4.payload.next
    ensures n3.payload.next.strong == 3 && n3.strong == 1 && n4.strong == 1
    ensures from3 == Option.Some([3, 2, 1])
    ensures from4 == Option.Some([4, 2, 1])
    ensures forall fuel: nat :: fuel >= 3 ==> Walk(n3.payload, fuel) == from3 && Walk(n4.payload, fuel) == from4
    ensures val1 == Option.Some(1)
  {
    var nil := new Rc<Node>.New(Node.None);
    var n1 := Cons(1, nil);
    var n2 := Cons(2, n1);
    n3 := Cons(3, n2);
    n4 := Cons(4, n2);
    counts := [nil.strong, n1.strong, n2.strong, n3.strong, n4.strong];
    // each list reaches the end node: the suffix first, then each head on it
    ConsReachesEnd(1, nil, 0, []);
    assert [1] + [] == [1 as i32];
    ConsReachesEnd(2, n1, 1, [1]);
    assert [2] + [1] == [2, 1 as i32];
    ConsReachesEnd(3, n2, 2, [2, 1]);
    assert [3] + [2, 1] == [3, 2, 1 as i32];
    ConsReachesEnd(4, n2, 2, [2, 1]);
    assert [4] + [2, 1] == [4, 2, 1 as i32];
    from3 := Walk(n3.payload, 3);
    from4 := Walk(n4.payload, 3);
    // the walks are finished: any more fuel gives the same values
    forall fuel: nat | fuel >= 3
      ensures Walk(n3.payload, fuel) == from3 && Walk(n4.payload, fuel) == from4
    {
      WalkMonotone(n3.payload, 3, fuel);
      WalkMonotone(n4.payload, 3, fuel);
    }
    val1 := Val(n1.payload);
  }
}
