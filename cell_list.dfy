/** The list of Cell/src/main.rs: value and successor sit in `Cell`s, so
    both can be overwritten through a shared `Rc` path, which is enough to
    tie a node's successor back to the node itself. */
module CellList {
  import opened Common
  import opened SmartPointers

  /** The enum `Node`: a value cell and a successor cell, or the end node. */
  datatype Node = Some(val: Cell<i32>, next: Cell<Rc<Node>>) | None

  /** The `Copy` record `User`. */
  datatype User = User(id: i32, age: i32)

  /** `Node::val`: panics with "no val" on the end node, otherwise reads the
      value cell. */
  function Val(n: Node): (r: Result<i32, string>)
    reads if n.Some? then {n.val} else {}
    ensures r.Err? <==> n.None?
    ensures r.Err? ==> r.error == "no val"
    ensures r.Ok? ==> r.value == n.val.Get()
  {
    match n
    case None => Err("no val")
    case Some(v, _) => Ok(v.Get())
  }

  /** `Node::next`: panics with "no next" on the end node, otherwise gives
      the successor cell itself (not a copy of what it holds). */
  function Next(n: Node): (r: Result<Cell<Rc<Node>>, string>)
    ensures r.Err? <==> n.None?
    ensures r.Err? ==> r.error == "no next"
    ensures r.Ok? ==> r.value == n.next
  {
    match n
    case None => Err("no next")
    case Some(_, nx) => Ok(nx)
  }

  /** The node's successor is the node's own handle. */
  predicate SelfLoop(b: Rc<Node>)
    reads if b.payload.Some? then {b.payload.next} else {}
  {
    b.payload.Some? && b.payload.next.value == b
  }

  /** `p` put in front of a successful walk; a panic stays a panic. */
  function Prepend(p: seq<i32>, r: Result<seq<i32>, string>): Result<seq<i32>, string>
  {
    match r
    case Err(e) => Err(e)
    case Ok(s) => Ok(p + s)
  }

  /** Reading `val` and then stepping through `next`, `steps` times, from the
      node held by `b`; the first panic ends the walk. */
  ghost function Trace(b: Rc<Node>, steps: nat): Result<seq<i32>, string>
    reads *
    decreases steps
  {
    if steps == 0 then Ok([])
    else
      match Val(b.payload)
      case Err(e) => Err(e)
      case Ok(v) => Prepend([v], Trace(Next(b.payload).value.value, steps - 1))
  }

  /** Once a node's successor is the node itself, every step reads the same
      value again, however many steps are taken. */
  lemma {:induction false} SelfLoopTrace(b: Rc<Node>, steps: nat)
    requires SelfLoop(b)
    ensures Trace(b, steps) == Ok(Repeat(b.payload.val.value, steps))
    decreases steps
  {
    if steps > 0 {
      SelfLoopTrace(b, steps - 1);
    }
  }

  /** The opening of `main`: a `Copy` record in a `Cell` is replaced as a
      whole by `set` and read back by `get`; then a write through the raw
      pointer changes its `id` field alone. Returns what `get` gives and the
      record left in the cell. */
  method UserScenario() returns (user: User, afterWrite: User)
    ensures user == User(1, 11)
    ensures afterWrite == User(2, 11)
  {
    var x := new Cell<User>.New(User(1, 10));
    x.Set(User(1, 11));
    user := x.Get();
    // the raw-pointer write sets `id` in place
    x.Set(x.Get().(id := 2));
    afterWrite := x.value;
  }

  /** The read loop at the end of `main`: `x` starts as the successor cell
      of `n1_rc`, each of ten rounds prints the value of the node `x` holds
      and then sets `x` to the successor cell of `n1_rc` again. Once the
      self-loop has formed, every round prints the value of `n1_rc`. */
  method PrintLoop(n1Rc: Rc<Node>) returns (printed: seq<i32>)
    requires SelfLoop(n1Rc)
    ensures printed == Repeat(n1Rc.payload.val.value, 10)
  {
    var x := Next(n1Rc.payload).value;
    printed := [];
    for i := 0 to 10
      invariant x == n1Rc.payload.next
      invariant printed == Repeat(n1Rc.payload.val.value, i)
    {
      printed := printed + [Val(x.value.payload).value];
      x := Next(n1Rc.payload).value;
    }
  }

  /** The rest of `main`: node n1 = 1 -> None is put behind an `Rc`, its value is set to 11
      and its successor to a clone of its own handle, through `as_ref` alone.
      Returns the block of `n1_rc`, the strong count printed, `n1_rc.val()`,
      the ten values the read loop prints, and the strong count and freed
      flag left once `n1_rc` goes out of scope. */
  method CellScenario() returns (n1Rc: Rc<Node>, count: nat, first: Result<i32, string>,
                                 printed: seq<i32>, countAtExit: nat, freedAtExit: bool)
    ensures SelfLoop(n1Rc) && n1Rc.payload.val.value == 11
    ensures Trace(n1Rc, 10) == Ok(printed)
    ensures count == 2
    ensures first == Ok(11)
    ensures printed == Repeat(11, 10)
    ensures countAtExit == 1 && !freedAtExit
    ensures n1Rc.strong == 1 && !n1Rc.freed
  {
    var valCell := new Cell<i32>.New(1);
    var nil := new Rc<Node>.New(Node.None);
    var nextCell := new Cell<Rc<Node>>.New(nil);
    var n1 := Node.Some(valCell, nextCell);
    n1Rc := new Rc<Node>.New(n1);
    match n1Rc.payload {
      case None =>
      case Some(v, n) =>
        v.Set(11);
        var again := n1Rc.Clone();
        // `Cell::set` drops the handle it replaces: the end node is freed
        var previous := n.Replace(again);
        previous.Drop();
    }
    count := n1Rc.strong;

    first := Val(n1Rc.payload);
    printed := PrintLoop(n1Rc);

    // leaving `main` drops `n1_rc`; the clone held by the node keeps it alive
    n1Rc.Drop();
    countAtExit := n1Rc.strong;
    freedAtExit := n1Rc.freed;
    // what was printed is the walk along the loop
    SelfLoopTrace(n1Rc, 10);
  }
}
