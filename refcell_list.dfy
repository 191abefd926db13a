/** The list of RefCell/src/main.rs: the value sits in a `Cell<i32>` and the
    successor handle in a `RefCell<Rc<Node>>`, so the successor can be
    rewired through `borrow_mut` while the node itself is reached through
    shared handles only. */
module RefCellList {
  import opened Common
  import opened SmartPointers

  /** The enum `Node`: a value cell and a `RefCell` around the successor
      handle, or the end node. */
  datatype Node = Some(val: Cell<i32>, next: RefCell<Rc<Node>>) | None

  /** `wrapper(t)`: `RefCell::new(Rc::new(t))`, a fresh unborrowed cell holding
      the only handle to a fresh block. */
  method Wrapper<T>(t: T) returns (r: RefCell<Rc<T>>)
    ensures fresh(r) && fresh(r.value)
    ensures r.Valid() && r.state == Unborrowed
    ensures r.value.Valid() && r.value.payload == t && r.value.strong == 1 && r.value.weak == 0
  {
    var rc := new Rc<T>.New(t);
    r := new RefCell<Rc<T>>.New(rc);
  }

  /** The values of the first `fuel` nodes met from `n`, fewer if the end
      node comes first. */
  ghost function Values(n: Node, fuel: nat): seq<i32>
    reads *
    decreases fuel
  {
    if n.None? || fuel == 0 then []
    else [n.val.value] + Values(n.next.value.payload, fuel - 1)
  }

  /** The end node is met within `fuel` steps from `n`. */
  ghost predicate ReachesEnd(n: Node, fuel: nat)
    reads *
    decreases fuel
  {
    n.None? || (fuel > 0 && ReachesEnd(n.next.value.payload, fuel - 1))
  }

  /** The node's successor handle points back at the node's own block. */
  ghost predicate SelfLoop(b: Rc<Node>)
    reads *
  {
    b.payload.Some? && b.payload.next.value == b
  }

  /** A node whose successor is itself never reaches the end node, however
      far the walk goes, and every node met carries the same value. */
  lemma {:induction false} SelfLoopForever(b: Rc<Node>, fuel: nat)
    requires SelfLoop(b)
    ensures !ReachesEnd(b.payload, fuel)
    ensures Values(b.payload, fuel) == Repeat(b.payload.val.value, fuel)
    decreases fuel
  {
    if fuel > 0 {
      SelfLoopForever(b, fuel - 1);
    }
  }

  /** A node valued `a` whose successor is a node valued `b` whose successor
      is the end node: two values, then the end. */
  lemma TwoThenEnd(first: Node, a: i32, b: i32)
    requires first.Some? && first.val.value == a
    requires first.next.value.payload.Some? && first.next.value.payload.val.value == b
    requires first.next.value.payload.next.value.payload.None?
    ensures Values(first, 3) == [a, b]
    ensures ReachesEnd(first, 2)
  {
    var second := first.next.value.payload;
    assert Values(second.next.value.payload, 1) == [];
    assert Values(second, 2) == [b];
  }

  /** `*refmut = x` for a successor cell: the previous successor handle is
      dropped as it is overwritten. */
  method AssignNext(cell: RefCell<Rc<Node>>, x: Rc<Node>)
    requires cell.Valid() && cell.state == Exclusive
    requires cell.value.Valid() && cell.value.strong >= 1
    modifies cell, cell.value
    ensures cell.Valid() && cell.state == Exclusive && cell.value == x
    ensures old(cell.value).Valid() && old(cell.value).strong == old(cell.value.strong) - 1
    ensures old(cell.value).weak == old(cell.value.weak)
  {
    var previous := cell.Assign(x);
    previous.Drop();
  }

  /** The arm of the first half of `main` that runs on a `Some` node: the
      value cell is set to `x`, and through a mutable borrow of the successor
      cell the successor becomes `target`, dropping the handle it held. */
  method SetAndRewire(val: Cell<i32>, next: RefCell<Rc<Node>>, x: i32, target: Rc<Node>)
      returns (inner: Result<(), BorrowError>)
    requires next.Valid() && next.state == Unborrowed
    requires next.value.Valid() && next.value.strong >= 1
    modifies val, next, next.value
    ensures inner.Ok?
    ensures val.value == x
    ensures next.Valid() && next.state == Unborrowed && next.value == target
    ensures old(next.value).Valid() && old(next.value).strong == old(next.value.strong) - 1
    ensures old(next.value).weak == old(next.value.weak)
  {
    val.Set(x);
    inner := next.BorrowMut();
    AssignNext(next, target);
    next.ReleaseGuard();
  }

  /** The first half of `main`: 1 -> None is kept as `_t`, a clone of its
      handle goes into the `RefCell` `n1`; while `n1` is borrowed for reading,
      the value of the node is set to 100 and its successor cell is mutably
      borrowed and pointed at `_new` = 99 -> None. Returns `_t`, the outcome
      of both borrows, and the old end node's block. */
  method RewireScenario() returns (t: Rc<Node>, outer: Result<Rc<Node>, BorrowError>,
                                   inner: Result<(), BorrowError>, oldEnd: Rc<Node>)
    ensures outer.Ok? && inner.Ok?
    ensures Values(t.payload, 3) == [100, 99] && ReachesEnd(t.payload, 2)
    ensures t.strong == 2 && t.weak == 0
    ensures oldEnd.strong == 0 && oldEnd.weak == 0 && oldEnd.freed
  {
    var null1 := Wrapper(Node.None);
    oldEnd := null1.value;
    var one := new Cell<i32>.New(1);
    t := new Rc<Node>.New(Node.Some(one, null1));
    var tClone := t.Clone();
    var n1 := new RefCell<Rc<Node>>.New(tClone);

    var ninetyNine := new Cell<i32>.New(99);
    var end := Wrapper(Node.None);
    var fresh99 := new Rc<Node>.New(Node.Some(ninetyNine, end));

    outer := n1.Borrow();
    inner := Err(AlreadyBorrowed);
    match outer.value.payload {
      case None =>
      case Some(val, next) =>
        inner := SetAndRewire(val, next, 100, fresh99);
    }
    n1.ReleaseGuard();
    TwoThenEnd(t.payload, 100, 99);
  }

  /** `let c = RefCell::new(5)` with a `borrow()` while a `borrow_mut()` is
      live: accepted by the compiler, refused when it runs. */
  method ConflictScenario() returns (exclusive: Result<(), BorrowError>, shared: Result<i32, BorrowError>)
    ensures exclusive.Ok?
    ensures shared == Err(AlreadyMutablyBorrowed)
  {
    var c := new RefCell<i32>.New(5);
    exclusive := c.BorrowMut();
    shared := c.Borrow();
  }

  /** The second half of `main`: node1 = 1 -> None goes behind `node1_rc`, a
      clone of that handle into the `RefCell` `node1_rc_cell`, and through a
      `borrow_mut` of that cell node1's successor is pointed at another clone
      of its own handle. Returns `node1_rc`, the outcome of both mutable
      borrows, the strong and weak counts printed, and the count and freed
      flag once both `node1_rc_cell` and `node1_rc` have gone out of scope. */
  method SelfLoopScenario() returns (node1Rc: Rc<Node>, outer: Result<(), BorrowError>,
                                     inner: Result<(), BorrowError>, strong: nat, weak: nat,
                                     strongAtExit: nat, freedAtExit: bool)
    ensures outer.Ok? && inner.Ok?
    ensures strong == 3 && weak == 0
    ensures strongAtExit == 1 && !freedAtExit
    ensures node1Rc.strong == 1 && !node1Rc.freed && node1Rc.weak == 0
    ensures SelfLoop(node1Rc) && node1Rc.payload.val.value == 1
  {
    var end := Wrapper(Node.None);
    var one := new Cell<i32>.New(1);
    node1Rc := new Rc<Node>.New(Node.Some(one, end));
    var held := node1Rc.Clone();
    var node1RcCell := new RefCell<Rc<Node>>.New(held);

    outer := node1RcCell.BorrowMut();
    inner := Err(AlreadyBorrowed);
    match node1RcCell.value.payload {
      case None =>
      case Some(_, next) =>
        inner := next.BorrowMut();
        var again := node1Rc.Clone();
        AssignNext(next, again);
        next.ReleaseGuard();
    }
    node1RcCell.ReleaseGuard();
    strong := node1Rc.strong;
    weak := node1Rc.weak;

    assert SelfLoop(node1Rc);

    // scope exit, in reverse order of declaration: the cell drops the handle
    // it holds, then `node1_rc` itself
    node1RcCell.value.Drop();
    node1Rc.Drop();
    strongAtExit := node1Rc.strong;
    freedAtExit := node1Rc.freed;
  }
}
