/** The heap-indirection primitives the linked-list chapters are built from:
    the reference-counted pointer `Rc<T>`, the copy-in/copy-out `Cell<T>` and
    the runtime-checked `RefCell<T>`.

    A Rust handle (`Rc<T>`, `&Cell<T>`, `&RefCell<T>`) is a Dafny reference to
    the one shared heap object; `clone` hands out the same reference and
    bumps the counter. */
module SmartPointers {
  import opened Common

  /** The control block behind every `Rc<T>` handle: the payload plus the
      strong and weak counters. */
  class Rc<T> {
    /** `Rc` gives out only `&T` (`as_ref`) and has no `as_mut`, so the
        payload never changes once the block is built. */
    const payload: T
    var strong: nat
    var weak: nat
    /** Whether the payload's destructor has run. */
    var freed: bool

    /** The payload is freed exactly when the strong count has reached 0. */
    ghost predicate Valid()
      reads this
    {
      freed <==> strong == 0
    }

    /** `Rc::new(v)`: a fresh block with strong count 1 and weak count 0. */
    constructor New(v: T)
      ensures Valid()
      ensures payload == v && strong == 1 && weak == 0 && !freed
    {
      payload := v;
      strong := 1;
      weak := 0;
      freed := false;
    }

    /** `rc.clone()`: another handle to the same block; only the strong
        count changes. */
    method Clone() returns (h: Rc<T>)
      requires Valid() && strong >= 1
      modifies this
      ensures Valid()
      ensures h == this
      ensures strong == old(strong) + 1 && weak == old(weak) && !freed
    {
      strong := strong + 1;
      h := this;
    }

    /** Dropping one handle: the strong count goes down by one and the
        payload is freed exactly when it reaches 0. */
    method Drop()
      requires Valid() && strong >= 1
      modifies this
      ensures Valid()
      ensures strong == old(strong) - 1 && weak == old(weak)
      ensures freed <==> strong == 0
    {
      strong := strong - 1;
      if strong == 0 {
        freed := true;
      }
    }
  }

  /** `Cell<T>`: the value is copied in and out as a whole, through a shared
      (`&Cell<T>`) path. */
  class Cell<T> {
    var value: T

    /** `Cell::new(v)`. */
    constructor New(v: T)
      ensures value == v
    {
      value := v;
    }

    /** `Cell::get`: a copy of the whole current value. */
    function Get(): (v: T)
      reads this
      ensures v == value
    {
      value
    }

    /** `Cell::set` for a value with nothing to release: the whole stored
        value is overwritten. */
    method Set(v: T)
      modifies this
      ensures value == v
      ensures Get() == v
    {
      value := v;
    }

    /** `Cell::replace`: swap in `v` and hand back the previous value.
        `Cell::set` is `replace` followed by dropping what comes back. */
    method Replace(v: T) returns (previous: T)
      modifies this
      ensures value == v
      ensures previous == old(value)
    {
      previous := value;
      value := v;
    }
  }

  /** The borrow flag of a `RefCell`: no borrow, `readers` live `Ref`
      guards, or one live `RefMut` guard. */
  datatype BorrowState = Unborrowed | Shared(readers: nat) | Exclusive

  /** The two runtime panics of `RefCell`. */
  datatype BorrowError =
    | AlreadyMutablyBorrowed   // `borrow` while a `RefMut` is live
    | AlreadyBorrowed          // `borrow_mut` while any guard is live

  /** A well-formed flag: a `Shared` state counts at least one reader. */
  predicate WellFormed(s: BorrowState)
  {
    s.Shared? ==> s.readers >= 1
  }

  /** `RefCell::borrow`: refused only while a `RefMut` is live; otherwise one
      more reader. */
  function TryBorrow(s: BorrowState): (r: Result<BorrowState, BorrowError>)
    ensures r.Err? <==> s == Exclusive
    ensures r.Err? ==> r.error == AlreadyMutablyBorrowed
    ensures r.Ok? ==> r.value.Shared? && r.value.readers == (if s.Shared? then s.readers else 0) + 1
  {
    match s
    case Unborrowed => Ok(Shared(1))
    case Shared(n) => Ok(Shared(n + 1))
    case Exclusive => Err(AlreadyMutablyBorrowed)
  }

  /** `RefCell::borrow_mut`: granted only when no guard at all is live. */
  function TryBorrowMut(s: BorrowState): (r: Result<BorrowState, BorrowError>)
    ensures r.Ok? <==> s == Unborrowed
    ensures r.Ok? ==> r.value == Exclusive
    ensures r.Err? ==> r.error == AlreadyBorrowed
  {
    if s == Unborrowed then Ok(Exclusive) else Err(AlreadyBorrowed)
  }

  /** The end of a guard's scope: a `Ref` gives back one reader, a `RefMut`
      gives back exclusivity. */
  function Release(s: BorrowState): (r: BorrowState)
    requires WellFormed(s) && s != Unborrowed
    ensures WellFormed(r)
    ensures s == Exclusive ==> r == Unborrowed
    ensures s.Shared? ==> (if s.readers == 1 then r == Unborrowed else r == Shared(s.readers - 1))
  {
    match s
    case Shared(n) => if n == 1 then Unborrowed else Shared(n - 1)
    case Exclusive => Unborrowed
  }

  /** One event in the life of a single `RefCell`: a guard is requested,
      or a live guard goes out of scope. */
  datatype Access = Borrow | BorrowMut | DropRef | DropRefMut

  /** The flag after one event, `None` when the request is refused (Rust
      panics) or the guard that ends is not live. */
  function Apply(s: BorrowState, a: Access): Option<BorrowState>
    requires WellFormed(s)
  {
    match a
    case Borrow => if TryBorrow(s).Ok? then Option.Some(TryBorrow(s).value) else Option.None
    case BorrowMut => if TryBorrowMut(s).Ok? then Option.Some(TryBorrowMut(s).value) else Option.None
    case DropRef => if s.Shared? then Option.Some(Release(s)) else Option.None
    case DropRefMut => if s == Exclusive then Option.Some(Release(s)) else Option.None
  }

  /** The flag after a history of events on a fresh cell, `None` once an
      event has failed. */
  function Run(ops: seq<Access>): (r: Option<BorrowState>)
    ensures r.Some? ==> WellFormed(r.value)
  {
    if ops == [] then Option.Some(Unborrowed)
    else
      match Run(ops[..|ops| - 1])
      case None => Option.None
      case Some(s) => Apply(s, ops[|ops| - 1])
  }

  /** How many times `a` occurs in the history. */
  function Count(ops: seq<Access>, a: Access): nat
  {
    if ops == [] then 0
    else Count(ops[..|ops| - 1], a) + (if ops[|ops| - 1] == a then 1 else 0)
  }

  /** The flag says exactly how many guards of each kind are live. */
  predicate Agrees(s: BorrowState, readers: int, writers: int)
  {
    match s
    case Unborrowed => readers == 0 && writers == 0
    case Shared(n) => n >= 1 && readers == n && writers == 0
    case Exclusive => readers == 0 && writers == 1
  }

  /** The aliasing discipline, checked at run time: along any history that
      has not panicked, the flag counts the live guards, so there are either
      any number of `Ref`s or exactly one `RefMut`, never both; the next
      `borrow` is granted exactly when no `RefMut` is live and the next
      `borrow_mut` exactly when no guard at all is live. */
  lemma {:induction false} RunCountsGuards(ops: seq<Access>)
    requires Run(ops).Some?
    ensures var readers := Count(ops, Borrow) - Count(ops, DropRef);
            var writers := Count(ops, BorrowMut) - Count(ops, DropRefMut);
            && Agrees(Run(ops).value, readers, writers)
            && 0 <= writers <= 1 && readers >= 0
            && (writers == 0 || readers == 0)
            && (Apply(Run(ops).value, Borrow).Some? <==> writers == 0)
            && (Apply(Run(ops).value, BorrowMut).Some? <==> readers == 0 && writers == 0)
  {
    if ops != [] {
      RunCountsGuards(ops[..|ops| - 1]);
    }
  }

  /** `RefCell<T>`: the value plus its borrow flag. Conflicting requests come
      back as an `Err` where Rust panics. */
  class RefCell<T> {
    var value: T
    var state: BorrowState

    ghost predicate Valid()
      reads this
    {
      WellFormed(state)
    }

    /** `RefCell::new(v)`: not borrowed. */
    constructor New(v: T)
      ensures Valid()
      ensures value == v && state == Unborrowed
    {
      value := v;
      state := Unborrowed;
    }

    /** `borrow()`: a shared read of the value, refused while mutably
        borrowed. */
    method Borrow() returns (r: Result<T, BorrowError>)
      requires Valid()
      modifies this
      ensures Valid() && value == old(value)
      ensures r.Err? <==> old(state) == Exclusive
      ensures r.Err? ==> state == old(state) && r.error == AlreadyMutablyBorrowed
      ensures r.Ok? ==> r.value == value && state == TryBorrow(old(state)).value
    {
      var next := TryBorrow(state);
      if next.Err? {
        return Err(next.error);
      }
      state := next.value;
      r := Ok(value);
    }

    /** `borrow_mut()`: exclusive access, refused while any guard is live. */
    method BorrowMut() returns (r: Result<(), BorrowError>)
      requires Valid()
      modifies this
      ensures Valid() && value == old(value)
      ensures r.Ok? <==> old(state) == Unborrowed
      ensures r.Err? ==> state == old(state) && r.error == AlreadyBorrowed
      ensures r.Ok? ==> state == Exclusive
    {
      var next := TryBorrowMut(state);
      if next.Err? {
        return Err(next.error);
      }
      state := next.value;
      r := Ok(());
    }

    /** `*guard = v` through a live `RefMut`: the whole value is replaced and
        the previous one is handed back for the caller to drop. */
    method Assign(v: T) returns (previous: T)
      requires Valid() && state == Exclusive
      modifies this
      ensures Valid() && state == Exclusive
      ensures value == v && previous == old(value)
    {
      previous := value;
      value := v;
    }

    /** A `Ref` or `RefMut` guard going out of scope. */
    method ReleaseGuard()
      requires Valid() && state != Unborrowed
      modifies this
      ensures Valid() && value == old(value)
      ensures state == Release(old(state))
    {
      state := Release(state);
    }
  }
}
