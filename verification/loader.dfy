/** The busy overlay of js/app.js: `showLoader` and `hideLoader` keep a
    count of outstanding loads and show the overlay while it is positive. */
module Loader {

  datatype Loader = Loader(pending: nat, hidden: bool)

  /** The overlay is hidden exactly when nothing is outstanding. */
  predicate Consistent(l: Loader) {
    l.hidden <==> l.pending == 0
  }

  /** `showLoader`: one more outstanding load; the overlay shows. */
  function Show(l: Loader): (r: Loader)
    ensures r.pending == l.pending + 1 && !r.hidden
  {
    Loader(l.pending + 1, false)
  }

  /** `hideLoader`: one fewer outstanding load, never below zero; the
      overlay is hidden when the count reaches zero and otherwise left as
      it was. */
  function Hide(l: Loader): (r: Loader)
    ensures l.pending > 0 ==> r.pending + 1 == l.pending
    ensures l.pending == 0 ==> r.pending == 0
    ensures r.pending == 0 ==> r.hidden
    ensures r.pending > 0 ==> r.hidden == l.hidden
  {
    var n := if l.pending > 0 then l.pending - 1 else 0;
    Loader(n, if n == 0 then true else l.hidden)
  }

  datatype Op = ShowOp | HideOp

  function Run(l: Loader, ops: seq<Op>): Loader
    decreases |ops|
  {
    if ops == [] then l
    else Run(if ops[0] == ShowOp then Show(l) else Hide(l), ops[1..])
  }

  function Count(ops: seq<Op>, op: Op): nat {
    if ops == [] then 0 else (if ops[0] == op then 1 else 0) + Count(ops[1..], op)
  }

  /** From a consistent state, any interleaving of show and hide calls keeps
      the overlay hidden exactly when the count is zero. */
  lemma {:induction false} RunConsistent(l: Loader, ops: seq<Op>)
    requires Consistent(l)
    ensures Consistent(Run(l, ops))
    decreases |ops|
  {
    if ops != [] {
      RunConsistent(if ops[0] == ShowOp then Show(l) else Hide(l), ops[1..]);
    }
  }

  /** The count never drops below what the shows minus the hides leave, and
      never exceeds the starting count plus the shows. */
  lemma {:induction false} RunCountBounds(l: Loader, ops: seq<Op>)
    ensures Run(l, ops).pending >= l.pending + Count(ops, ShowOp) - Count(ops, HideOp)
    ensures Run(l, ops).pending <= l.pending + Count(ops, ShowOp)
    decreases |ops|
  {
    if ops != [] {
      RunCountBounds(if ops[0] == ShowOp then Show(l) else Hide(l), ops[1..]);
    }
  }

  /** A `showLoader` followed by its `hideLoader` (the pairing `queueTask`
      performs) restores a consistent state. */
  lemma ShowThenHide(l: Loader)
    requires Consistent(l)
    ensures Hide(Show(l)) == l
  {
  }
}
