/** The order in which entries and children are met when a B-tree is walked from
    left to right. */
module Walks {
  type Pgno = nat

  /** What is met on a page: an entry, a child to descend into, or a key that only
      separates two children. */
  datatype Item = Entry(key: int, body: nat) | Sub(child: Pgno) | Sep(key: int)

  datatype Walk = End | Step(item: Item, rest: Walk)

  function Then(a: Walk, b: Walk): Walk {
    match a
    case End => b
    case Step(item, rest) => Step(item, Then(rest, b))
  }

  lemma {:induction false} ThenEnd(a: Walk)
    ensures Then(a, End) == a
  {
    if a.Step? { ThenEnd(a.rest); }
  }

  lemma {:induction false} ThenThen(a: Walk, b: Walk, c: Walk)
    ensures Then(Then(a, b), c) == Then(a, Then(b, c))
  {
    if a.Step? { ThenThen(a.rest, b, c); }
  }
}
