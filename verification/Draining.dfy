/** Draining an outbox page by page, as the drains of measurements and of path changes both do
    (internal/agent/agent.go): a page is read and sent, and what comes back decides what follows. */
module Draining {

  /** How a drain goes: what a page and its turn leave, what can be sent as a page, when another page is taken,
      when a page is taken off, and how large a full one is. */
  datatype Loop<!S, !X, !T> = Loop(after: (S, seq<X>, T) -> S, isPage: (S, seq<X>, T) -> bool,
                                   goesOn: (seq<X>, T) -> bool, taken: T -> bool, full: nat)

  ghost function AfterTurns<S, X, T>(l: Loop<S, X, T>, s: S, pages: seq<seq<X>>, turns: seq<T>): S
    requires |pages| <= |turns|
  {
    if pages == [] then s
    else
      var n := |pages| - 1;
      l.after(AfterTurns(l, s, pages[..n], turns), pages[n], turns[n])
  }

  /** Pages sent one after the other, each of what there was when it was read. */
  ghost predicate Drained<S, X, T>(l: Loop<S, X, T>, s: S, pages: seq<seq<X>>, turns: seq<T>) {
    && |pages| <= |turns|
    && (forall i :: 0 <= i < |pages| ==> l.isPage(AfterTurns(l, s, pages[..i], turns), pages[i], turns[i]))
    && (forall i :: 0 <= i < |pages| - 1 ==> l.goesOn(pages[i], turns[i]))
  }

  lemma NothingDrained<S, X, T>(l: Loop<S, X, T>, s: S, turns: seq<T>)
    ensures Drained(l, s, [], turns) && AfterTurns(l, s, [], turns) == s
  {
  }

  lemma DrainedOneMore<S, X, T>(l: Loop<S, X, T>, s: S, pages: seq<seq<X>>, turns: seq<T>, page: seq<X>)
    requires Drained(l, s, pages, turns) && |pages| < |turns|
    requires l.isPage(AfterTurns(l, s, pages, turns), page, turns[|pages|])
    requires pages != [] ==> l.goesOn(pages[|pages| - 1], turns[|pages| - 1])
    ensures Drained(l, s, pages + [page], turns)
    ensures AfterTurns(l, s, pages + [page], turns) == l.after(AfterTurns(l, s, pages, turns), page, turns[|pages|])
  {
    hide AfterTurns;
    var more, n := pages + [page], |pages|;
    OneMoreTurn(l, s, pages, turns, page);
    assert more[..n] == pages;
    forall i | 0 <= i < |more|
      ensures l.isPage(AfterTurns(l, s, more[..i], turns), more[i], turns[i])
      ensures i < n ==> l.goesOn(more[i], turns[i])
    {
      if i < n {
        assert more[..i] == pages[..i] && more[i] == pages[i];
      }
    }
  }

  lemma OneMoreTurn<S, X, T>(l: Loop<S, X, T>, s: S, pages: seq<seq<X>>, turns: seq<T>, page: seq<X>)
    requires |pages| < |turns|
    ensures AfterTurns(l, s, pages + [page], turns) == l.after(AfterTurns(l, s, pages, turns), page, turns[|pages|])
  {
    assert (pages + [page])[..|pages|] == pages;
  }

  /** The last page of a drain, and the drain before it. */
  lemma DrainedLast<S, X, T>(l: Loop<S, X, T>, s: S, pages: seq<seq<X>>, turns: seq<T>)
    requires Drained(l, s, pages, turns) && pages != []
    ensures var n := |pages| - 1;
      && |pages| <= |turns| && Drained(l, s, pages[..n], turns)
      && var before := AfterTurns(l, s, pages[..n], turns);
      && l.isPage(before, pages[n], turns[n])
      && AfterTurns(l, s, pages, turns) == l.after(before, pages[n], turns[n])
      && (n > 0 ==> l.goesOn(pages[n - 1], turns[n - 1]))
  {
    hide *;
    DrainedAt(l, s, pages, turns, |pages| - 1);
    if |pages| > 1 {
      DrainedAt(l, s, pages, turns, |pages| - 2);
    }
    DrainedBefore(l, s, pages, turns, |pages| - 1);
    assert pages[..|pages| - 1] + [pages[|pages| - 1]] == pages;
    OneMoreTurn(l, s, pages[..|pages| - 1], turns, pages[|pages| - 1]);
  }

  lemma DrainedAt<S, X, T>(l: Loop<S, X, T>, s: S, pages: seq<seq<X>>, turns: seq<T>, i: nat)
    requires Drained(l, s, pages, turns) && i < |pages|
    ensures |pages| <= |turns| && l.isPage(AfterTurns(l, s, pages[..i], turns), pages[i], turns[i])
    ensures i < |pages| - 1 ==> l.goesOn(pages[i], turns[i])
  {
    hide AfterTurns;
  }

  lemma DrainedBefore<S, X, T>(l: Loop<S, X, T>, s: S, pages: seq<seq<X>>, turns: seq<T>, n: nat)
    requires Drained(l, s, pages, turns) && n <= |pages|
    ensures Drained(l, s, pages[..n], turns)
  {
    hide AfterTurns;
    forall i | 0 <= i < n ensures pages[..n][..i] == pages[..i] {
    }
  }

  /** What holds at some point of a drain holds at its end, if only taking some page off undoes it, unless a later
      page was such a one, and was taken off. */
  lemma {:induction false} OnlyTakenGoes<S, X, T>(l: Loop<S, X, T>, s: S, pages: seq<seq<X>>, turns: seq<T>, j: nat,
                                                  holds: S -> bool, on: seq<X> -> bool)
    requires Drained(l, s, pages, turns) && |pages| <= |turns|
    requires forall t, page, turn :: holds(t) && !holds(l.after(t, page, turn)) ==> l.taken(turn) && on(page)
    requires j <= |pages| && holds(AfterTurns(l, s, pages[..j], turns))
    ensures holds(AfterTurns(l, s, pages, turns))
      || exists i :: j <= i < |pages| && l.taken(turns[i]) && on(pages[i])
    decreases |pages|
  {
    hide *;
    if j == |pages| {
      assert pages[..j] == pages;
    } else {
      var n := |pages| - 1;
      assert pages[..n][..j] == pages[..j];
      DrainedLast(l, s, pages, turns);
      OnlyTakenGoes(l, s, pages[..n], turns, j, holds, on);
      if !holds(AfterTurns(l, s, pages[..n], turns)) {
        var i :| j <= i < n && l.taken(turns[i]) && on(pages[..n][i]);
        assert pages[..n][i] == pages[i];
      }
    }
  }

  /** All that a drain takes off. */
  ghost function Taken<S, X, T>(l: Loop<S, X, T>, pages: seq<seq<X>>, turns: seq<T>): seq<X>
    requires |pages| <= |turns|
  {
    if pages == [] then []
    else
      var n := |pages| - 1;
      Taken(l, pages[..n], turns) + if l.taken(turns[n]) then pages[n] else []
  }

  /** .. which is all of its pages, all full but perhaps the last, or all but the last. */
  ghost function Amount<S, X, T>(l: Loop<S, X, T>, pages: seq<seq<X>>, turns: seq<T>): int
    requires |pages| <= |turns|
  {
    if pages == [] then 0
    else
      var n := |pages| - 1;
      l.full * n + if l.taken(turns[n]) then |pages[n]| else 0
  }

  lemma {:induction false} AmountTaken<S, X, T>(l: Loop<S, X, T>, s: S, pages: seq<seq<X>>, turns: seq<T>)
    requires Drained(l, s, pages, turns) && |pages| <= |turns|
    requires forall page, turn :: l.goesOn(page, turn) ==> |page| == l.full && l.taken(turn)
    ensures |Taken(l, pages, turns)| == Amount(l, pages, turns)
  {
    hide AfterTurns, Drained;
    if pages != [] {
      var n := |pages| - 1;
      DrainedLast(l, s, pages, turns);
      AmountTaken(l, s, pages[..n], turns);
      if n > 0 {
        assert pages[..n][n - 1] == pages[n - 1] && l.full * n == l.full * (n - 1) + l.full;
      }
    }
  }
}
